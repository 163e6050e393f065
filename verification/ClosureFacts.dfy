/** The retained closure in the columns of its manifest rows: what the writer lists, which stores
    the reader accepts, what a read returns and which closures fit a report. */
module ClosureFacts {
  import opened Prelude
  import opened Encoding
  import opened Locators
  import opened LocatorFacts
  import opened Evidence
  import opened EvidenceFacts
  import opened Declarations
  import opened Closure
  import opened ClosureLaws
  import opened ClosureAgreement
  import opened Sorting

  // ----- the writer -----

  /** The manifest row of a source: canonical locator and boundary, a file named by the hash of
      the locator, and the length and hash of the source's bytes. */
  predicate ListedAs(s: Source, row: Row, files: Files, sha: Hash) {
    && Canonical(s.recorded) == Some(row.locator) && Canonical(s.boundary) == Some(row.boundary)
    && row.relative == "files/" + sha(Encode(row.locator)) + ".bin"
    && s.path in files && row.size == |files[s.path]| && row.digest == sha(files[s.path])
  }

  predicate Unreadable(s: Source, files: Files) {
    Canonical(s.recorded) == None || Canonical(s.boundary) == None || s.path !in files
  }

  /** One locator recorded from two files or under two boundaries. */
  predicate Clashes(s: Source, t: Source) {
    && Canonical(s.recorded) == Canonical(t.recorded)
    && (s.path != t.path || Canonical(s.boundary) != Canonical(t.boundary))
  }

  /** The writer rejects exactly an unreadable source or a clash. */
  lemma WriterRejectsExactly(sources: seq<Source>, files: Files, sha: Hash)
    ensures WriteInventory(sources, files, sha).None? <==>
            || (exists s :: s in sources && Unreadable(s, files))
            || (exists s, t :: s in sources && t in sources && Clashes(s, t))
  {
    hide Canonical, IsCanonical, WriteInventory;
    WriteExact(sources, files, sha);
    forall s
      ensures IdentityOf(s, files).None? <==> Unreadable(s, files)
    {
    }
    if !(exists s :: s in sources && Unreadable(s, files)) {
      assert Ambiguous(sources, files) <==> exists s, t :: s in sources && t in sources && Clashes(s, t);
    }
  }

  ghost predicate IsListed(row: Row, sources: seq<Source>, files: Files, sha: Hash) {
    exists s :: s in sources && ListedAs(s, row, files, sha)
  }

  lemma NotedIsListed(s: Source, l: Locator, identity: Identity, files: Files, sha: Hash)
    requires Records(s, l, identity, files)
    ensures ListedAs(s, RowOf(l, identity, sha), files, sha)
  {
  }

  lemma ListedIsNoted(s: Source, row: Row, w: Writing, files: Files, sha: Hash)
    requires ListedAs(s, row, files, sha) && Noted(s, w.seen, files)
    ensures IsCanonical(row.locator) && row.locator in w.seen && row == RowOf(row.locator, w.seen[row.locator], sha)
  {
    hide IsCanonical;
  }

  /** The manifest lists exactly the rows of the sources, one for each locator in byte order, with
      exactly their boundaries, and the directory holds exactly the files the rows name. */
  lemma WriterListsExactly(sources: seq<Source>, files: Files, sha: Hash)
    requires WriteInventory(sources, files, sha).Some?
    ensures var (manifest, stored) := WriteInventory(sources, files, sha).value;
            && (forall row :: row in manifest.files <==> IsListed(row, sources, files, sha))
            && (forall b :: b in manifest.boundaries <==> exists row :: row in manifest.files && row.boundary == b)
            && stored.Keys == set row | row in manifest.files :: row.relative
    ensures var manifest := WriteInventory(sources, files, sha).value.0;
            && (forall i, j :: 0 <= i < j < |manifest.files| ==>
                  LexLess(manifest.files[i].locator, manifest.files[j].locator))
            && (forall i, j :: 0 <= i < j < |manifest.boundaries| ==>
                  LexLess(manifest.boundaries[i], manifest.boundaries[j]))
  {
    hide Canonical, IsCanonical, Relative, Encode, ListedAs, RowOf;
    var w := WriteGives(sources, files, sha);
    var m := ManifestOf(w.rows);
    SortedRows(w, sha);
    RelativesAreFileNames(w, sha);
    BoundariesListed(w.rows);
    forall row
      ensures row in m.files <==> IsListed(row, sources, files, sha)
    {
      if row in m.files {
        var s :| s in sources && Records(s, row.locator, w.seen[row.locator], files);
        NotedIsListed(s, row.locator, w.seen[row.locator], files, sha);
      }
      if s :| s in sources && ListedAs(s, row, files, sha) {
        ListedIsNoted(s, row, w, files, sha);
      }
    }
  }

  lemma BoundariesListed(rows: seq<Row>)
    ensures var m := ManifestOf(rows);
            && (forall b :: b in m.boundaries <==> exists row :: row in m.files && row.boundary == b)
            && (forall i, j :: 0 <= i < j < |m.boundaries| ==> LexLess(m.boundaries[i], m.boundaries[j]))
  {
    var found := RowBoundaries(rows);
    SortByMembers(found, Itself);
    SortByMembers(rows, RowLocator);
    SortBySorts(found, Itself);
    var sorted := SortBy(found, Itself);
    forall i, j | 0 <= i < j < |sorted|
      ensures LexLess(sorted[i], sorted[j])
    {
      assert LexLess(Itself(sorted[i]), Itself(sorted[j]));
    }
  }

  lemma StoredUnderItsName(w: Writing, l: Locator, sha: Hash)
    requires StoredMatches(w, sha) && HashesApart(w.seen.Keys, sha) && l in w.seen
    ensures Relative(l, sha) in w.stored && w.stored[Relative(l, sha)] == w.seen[l].data
  {
    hide HashesApart, Relative, IsCanonical;
  }

  /** When no two locators share a hash, each file holds the bytes of its source. */
  lemma WriterStoresBytes(sources: seq<Source>, files: Files, sha: Hash, s: Source, row: Row)
    requires WriteInventory(sources, files, sha).Some? && SourcesHashApart(sources, sha)
    requires s in sources && ListedAs(s, row, files, sha)
    ensures var stored := WriteInventory(sources, files, sha).value.1;
            row.relative in stored && s.path in files && stored[row.relative] == files[s.path]
  {
    hide Canonical, IsCanonical, Encode, RowsListSeen, HashesApart, SourcesHashApart, StoredMatches, WriteInventory;
    hide ManifestOf, CopyAll, Relative;
    var w := WriteGives(sources, files, sha);
    SourcesApart(sources, w, files, sha);
    assert Noted(s, w.seen, files);
    ListedIsNoted(s, row, w, files, sha);
    StoredUnderItsName(w, row.locator, sha);
  }

  // ----- the reader -----

  /** A name inside the directory: real components joined by slashes, or the dot that survives
      the test although no file has that name. */
  ghost predicate InsideName(value: string) {
    value == "." || exists names :: Components(names) && value == Join(names, '/')
  }

  predicate Components(names: seq<string>) {
    && names != []
    && forall i :: 0 <= i < |names| ==>
         names[i] != "" && names[i] != "." && names[i] != ".." && '/' !in names[i] && '\\' !in names[i]
  }

  lemma InsideNameExact(value: string)
    ensures IsRelative(value) <==> InsideName(value)
  {
    if IsRelative(value) && value != "." {
      var names := Split(value, '/');
      JoinSplit(value, '/');
      PartsHaveNoSeparator(value, '/');
      JoinedCharacters(names, '/', '\\');
      assert forall i :: 0 <= i < |names| ==> names[i] in names;
      assert Components(names);
    }
    if names :| Components(names) && value == Join(names, '/') {
      SplitJoin(names, '/');
      JoinedCharacters(names, '/', '\\');
      JoinStartsWithFirst(names);
    }
  }

  lemma JoinStartsWithFirst(names: seq<string>)
    requires names != [] && names[0] != ""
    ensures Join(names, '/') != "" && Join(names, '/')[0] == names[0][0]
  {
  }

  /** A row of an accepted manifest: locator l strictly below boundary b, b being one of the
      listed boundaries, a name inside the directory, and a file there of the recorded length and
      hexadecimal hash. */
  ghost predicate Stands(row: Row, boundaries: seq<string>, stored: Files, sha: Hash, l: string, b: string) {
    && Canonical(row.locator) == Some(l) && Canonical(row.boundary) == Some(b)
    && (exists m :: m in boundaries && Canonical(m) == Some(b))
    && b + "/" <= l
    && InsideName(row.relative) && HexDigest(row.digest)
    && row.relative in stored && |stored[row.relative]| == row.size && sha(stored[row.relative]) == row.digest
  }

  ghost predicate RowStands(row: Row, boundaries: seq<string>, stored: Files, sha: Hash) {
    exists l, b :: Stands(row, boundaries, stored, sha, l, b)
  }

  lemma StrictlyBelow(l: Locator, b: Locator)
    ensures Within(l, b) && l != b <==> b + "/" <= l
  {
    WithinIsPrefix(l, b);
    assert b + "/" <= l ==> |b| < |l|;
  }

  lemma RowFitsExact(row: Row, texts: seq<string>, boundaries: seq<Locator>, stored: Files, sha: Hash)
    requires CanonicalAll(texts) == Some(boundaries)
    ensures RowFits(row, boundaries, stored, sha) <==> RowStands(row, texts, stored, sha)
  {
    hide Canonical, IsCanonical, Within, IsRelative, InsideName, IsDigest, HexDigest;
    DigestExact(row.digest);
    InsideNameExact(row.relative);
    if Canonical(row.locator).Some? && Canonical(row.boundary).Some? {
      var l, b := Canonical(row.locator).value, Canonical(row.boundary).value;
      StrictlyBelow(l, b);
      ListedBoundary(texts, boundaries, b);
      assert RowStands(row, texts, stored, sha) <==> Stands(row, texts, stored, sha, l, b);
    }
  }

  lemma ListedBoundary(texts: seq<string>, boundaries: seq<Locator>, b: Locator)
    requires CanonicalAll(texts) == Some(boundaries)
    ensures b in boundaries <==> exists m :: m in texts && Canonical(m) == Some(b)
  {
    hide Canonical, IsCanonical;
    if b in boundaries {
      var i :| 0 <= i < |boundaries| && boundaries[i] == b;
      assert texts[i] in texts;
    }
    if m :| m in texts && Canonical(m) == Some(b) {
      var i :| 0 <= i < |texts| && texts[i] == m;
      assert boundaries[i] == b;
    }
  }

  /** Which manifests the reader accepts over which directories, in columns. */
  ghost predicate Acceptable(manifest: Manifest, stored: Files, sha: Hash) {
    var bs, rows := manifest.boundaries, manifest.files;
    && bs != [] && (forall b :: b in bs ==> Canonical(b) != None)
    && (forall i, j :: 0 <= i < j < |bs| ==> Canonical(bs[i]) != Canonical(bs[j]))
    && (forall row :: row in rows ==> RowStands(row, bs, stored, sha))
    && (forall i, j :: 0 <= i < j < |rows| ==>
          Canonical(rows[i].locator) != Canonical(rows[j].locator) && rows[i].relative != rows[j].relative)
    && stored.Keys == set row | row in rows :: row.relative
  }

  lemma ReaderAcceptsExactly(manifest: Manifest, stored: Files, sha: Hash)
    ensures FromManifest(manifest, stored, sha).Some? <==> Acceptable(manifest, stored, sha)
  {
    hide Canonical, IsCanonical, RowFits, RowStands, FromManifest;
    FromManifestExact(manifest, stored, sha);
    var boundaries := CanonicalAll(manifest.boundaries);
    if boundaries.Some? {
      DistinctSpellings(manifest.boundaries, boundaries.value);
      forall row | row in manifest.files
        ensures RowFits(row, boundaries.value, stored, sha) <==> RowStands(row, manifest.boundaries, stored, sha)
      {
        RowFitsExact(row, manifest.boundaries, boundaries.value, stored, sha);
      }
    }
  }

  lemma DistinctSpellings(texts: seq<string>, boundaries: seq<Locator>)
    requires CanonicalAll(texts) == Some(boundaries)
    ensures DistinctTexts(boundaries) <==>
            forall i, j :: 0 <= i < j < |texts| ==> Canonical(texts[i]) != Canonical(texts[j])
  {
    hide Canonical, IsCanonical;
  }

  /** Two directories accepted under one manifest have the same files, each of the same length and
      hash: a forged directory is accepted only under a collision. */
  lemma AcceptedStoresAgree(manifest: Manifest, stored: Files, forged: Files, sha: Hash)
    requires FromManifest(manifest, stored, sha).Some? && FromManifest(manifest, forged, sha).Some?
    ensures stored.Keys == forged.Keys
    ensures forall name :: name in stored ==> |stored[name]| == |forged[name]| && sha(stored[name]) == sha(forged[name])
  {
    hide Canonical, FromManifest, InsideName, HexDigest;
    ReaderAcceptsExactly(manifest, stored, sha);
    ReaderAcceptsExactly(manifest, forged, sha);
    forall name | name in stored
      ensures |stored[name]| == |forged[name]| && sha(stored[name]) == sha(forged[name])
    {
      var row :| row in manifest.files && row.relative == name;
      assert RowStands(row, manifest.boundaries, stored, sha) && RowStands(row, manifest.boundaries, forged, sha);
    }
  }

  lemma {:induction false} LoadedFromRows(
      rows: seq<Row>, entries: map<Locator, Entry>, relatives: set<string>, boundaries: seq<Locator>, stored: Files,
      sha: Hash)
    requires Load(rows, entries, relatives, boundaries, stored, sha).Some?
    ensures forall l :: l in Load(rows, entries, relatives, boundaries, stored, sha).value.0 ==>
              l in entries || exists row :: row in rows && Canonical(row.locator) == Some(l)
  {
    hide Canonical, IsCanonical;
    if rows != [] {
      assert rows == [rows[0]] + rows[1..];
      var locator: Locator := Canonical(rows[0].locator).value;
      LoadedFromRows(rows[1..], entries[locator := EntryOf(rows[0])], relatives + {rows[0].relative}, boundaries,
        stored, sha);
    }
  }

  /** The row under which a read finds its file. */
  ghost predicate ReadUnder(row: Row, locator: string, boundary: string, later: Files, data: Bytes, sha: Hash) {
    && Canonical(locator) != None && Canonical(row.locator) == Canonical(locator)
    && Canonical(boundary) != None && Canonical(row.boundary) == Canonical(boundary)
    && row.relative in later && later[row.relative] == data && |data| == row.size && sha(data) == row.digest
  }

  /** A read returns bytes exactly when a manifest row has the locator and the boundary asked for,
      and the file it names holds those bytes, still of the recorded length and hash. */
  lemma ReadsExactly(
      manifest: Manifest, stored: Files, locator: string, boundary: string, later: Files, data: Bytes, sha: Hash)
    requires FromManifest(manifest, stored, sha).Some?
    ensures ReadBytes(FromManifest(manifest, stored, sha).value, later, locator, boundary, sha) == Some(data) <==>
            exists row :: row in manifest.files && ReadUnder(row, locator, boundary, later, data, sha)
  {
    hide Canonical, IsCanonical, RowFits, Load;
    FromManifestExact(manifest, stored, sha);
    var io := FromManifest(manifest, stored, sha).value;
    LoadedFromRows(manifest.files, map[], {}, CanonicalAll(manifest.boundaries).value, stored, sha);
    if Canonical(locator).Some? {
      var key: Locator := Canonical(locator).value;
      if key in io.entries {
        var row :| row in manifest.files && Canonical(row.locator) == Some(key);
        assert io.entries[key] == EntryOf(row);
      }
    }
  }

  // ----- the closure of a report -----

  /** The row has canonical locator l and this digest. */
  predicate Lists(row: Row, l: string, digest: string) {
    Canonical(row.locator) == Some(l) && row.digest == digest
  }

  lemma {:induction false} RecordedExact(rows: seq<Row>)
    ensures Recorded(rows).Some? <==> forall row :: row in rows ==> Canonical(row.locator) != None
    ensures Recorded(rows).Some? ==>
              && |Recorded(rows).value| <= |rows|
              && (forall l :: l in Recorded(rows).value <==>
                              exists row :: row in rows && Canonical(row.locator) == Some(l))
  {
    hide Canonical, IsCanonical;
    if rows != [] {
      assert rows == [rows[0]] + rows[1..];
      RecordedExact(rows[1..]);
      if Recorded(rows).Some? {
        var l, rest := Canonical(rows[0].locator).value, Recorded(rows[1..]).value;
        OneMoreAtMost(rest, l, rows[0].digest);
      }
    }
  }

  lemma OneMoreAtMost(m: map<string, string>, key: string, value: string)
    ensures |map[key := value] + m| == if key in m then |m| else |m| + 1
  {
    var n := map[key := value] + m;
    if key in m {
      assert n == m;
    } else {
      NewKey(m, key, value);
      assert n == map[key := value] + m && map[key := value] + m == m[key := value];
      assert m[key := value].Keys == m.Keys + {key};
      assert |m[key := value].Keys| == |m.Keys| + 1;
    }
  }

  ghost predicate DistinctLocators(rows: seq<Row>) {
    forall i, j :: 0 <= i < j < |rows| ==> Canonical(rows[i].locator) != Canonical(rows[j].locator)
  }

  lemma DistinctStep(rows: seq<Row>)
    requires rows != []
    ensures DistinctLocators(rows) <==>
            && DistinctLocators(rows[1..])
            && forall row :: row in rows[1..] ==> Canonical(row.locator) != Canonical(rows[0].locator)
  {
    hide Canonical, IsCanonical;
    var rest := rows[1..];
    assert forall i :: 0 <= i < |rest| ==> rest[i] == rows[i + 1];
    if DistinctLocators(rows) {
      forall row | row in rest
        ensures Canonical(row.locator) != Canonical(rows[0].locator)
      {
        var i :| 0 <= i < |rest| && rest[i] == row;
        assert Canonical(rows[0].locator) != Canonical(rows[i + 1].locator);
      }
    }
    if DistinctLocators(rest) && forall row :: row in rest ==> Canonical(row.locator) != Canonical(rows[0].locator) {
      forall i, j | 0 <= i < j < |rows|
        ensures Canonical(rows[i].locator) != Canonical(rows[j].locator)
      {
        assert rows[j] == rest[j - 1];
        if i > 0 {
          assert rows[i] == rest[i - 1];
        }
      }
    }
  }

  lemma {:induction false} RecordedCount(rows: seq<Row>)
    requires Recorded(rows).Some?
    ensures |Recorded(rows).value| == |rows| <==> DistinctLocators(rows)
  {
    hide Canonical, IsCanonical;
    if rows != [] {
      assert rows == [rows[0]] + rows[1..];
      RecordedExact(rows[1..]);
      RecordedCount(rows[1..]);
      hide DistinctLocators;
      DistinctStep(rows);
      OneMoreAtMost(Recorded(rows[1..]).value, Canonical(rows[0].locator).value, rows[0].digest);
    }
  }

  predicate Maps(m: map<string, string>, k: string, v: string) {
    k in m && m[k] == v
  }

  ghost predicate SomeRowLists(rows: seq<Row>, l: string, digest: string) {
    exists row :: row in rows && Lists(row, l, digest)
  }

  lemma ListsStep(rows: seq<Row>, l: string, digest: string)
    requires rows != []
    ensures SomeRowLists(rows, l, digest) <==> Lists(rows[0], l, digest) || SomeRowLists(rows[1..], l, digest)
  {
    hide Lists;
    assert rows == [rows[0]] + rows[1..];
  }

  lemma {:induction false} RecordedPairs(rows: seq<Row>)
    requires Recorded(rows).Some? && DistinctLocators(rows)
    ensures forall l, digest :: Maps(Recorded(rows).value, l, digest) <==> SomeRowLists(rows, l, digest)
  {
    hide Canonical, IsCanonical, DistinctLocators;
    if rows != [] {
      DistinctStep(rows);
      RecordedExact(rows[1..]);
      RecordedPairs(rows[1..]);
      var first, rest := Canonical(rows[0].locator).value, Recorded(rows[1..]).value;
      assert first !in rest;
      assert Recorded(rows).value == map[first := rows[0].digest] + rest;
      hide Recorded;
      forall l, digest
        ensures Maps(Recorded(rows).value, l, digest) <==> SomeRowLists(rows, l, digest)
      {
        ListsStep(rows, l, digest);
        assert Maps(rest, l, digest) <==> SomeRowLists(rows[1..], l, digest);
        hide SomeRowLists;
      }
    }
  }

  /** The rows the report calls for: its declarations, and the aggregate with its true hash unless
      it is declared itself. */
  ghost predicate Expected(
      declarations: seq<Declaration>, aggregate: string, aggregateRaw: Bytes, sha: Hash, l: string, digest: string)
  {
    || (exists d :: d in declarations && d.locator == l && d.digest == digest)
    || (l == aggregate && digest == sha(aggregateRaw) && forall d :: d in declarations ==> d.locator != l)
  }

  /** The rows of the manifest and the rows called for by the report are the same pairs of locator
      and digest, each locator once. */
  ghost predicate ListsExactly(
      rows: seq<Row>, declarations: seq<Declaration>, aggregate: string, aggregateRaw: Bytes, sha: Hash)
  {
    && (forall row :: row in rows ==> Canonical(row.locator) != None)
    && DistinctLocators(rows)
    && forall l, digest :: SomeRowLists(rows, l, digest)
                           <==> Expected(declarations, aggregate, aggregateRaw, sha, l, digest)
  }

  lemma ExpectedPairs(declarations: seq<Declaration>, aggregate: string, aggregateRaw: Bytes, sha: Hash)
    requires DistinctKeys(declarations, ByLocator)
    ensures var m := map[aggregate := sha(aggregateRaw)] + Digests(declarations);
            forall l, digest :: Maps(m, l, digest) <==> Expected(declarations, aggregate, aggregateRaw, sha, l, digest)
  {
    DigestsExact(declarations);
  }

  lemma SamePairs(m: map<string, string>, n: map<string, string>)
    ensures m == n <==> forall k, v :: Maps(m, k, v) <==> Maps(n, k, v)
  {
    if forall k, v :: Maps(m, k, v) <==> Maps(n, k, v) {
      forall k
        ensures k in m <==> k in n
        ensures k in m && k in n ==> m[k] == n[k]
      {
        assert k in m ==> Maps(m, k, m[k]);
        assert k in n ==> Maps(n, k, n[k]);
      }
    }
  }

  lemma PairsExact(
      rows: seq<Row>, declarations: seq<Declaration>, aggregate: string, aggregateRaw: Bytes, sha: Hash)
    requires DistinctKeys(declarations, ByLocator)
    ensures ListsExactly(rows, declarations, aggregate, aggregateRaw, sha) <==>
            && Recorded(rows).Some? && |Recorded(rows).value| == |rows|
            && Recorded(rows).value == map[aggregate := sha(aggregateRaw)] + Digests(declarations)
  {
    hide Canonical, IsCanonical, Recorded, Digests, DistinctLocators, Expected, SomeRowLists, Maps;
    RecordedExact(rows);
    if Recorded(rows).Some? {
      RecordedCount(rows);
      if DistinctLocators(rows) {
        RecordedPairs(rows);
      }
      ExpectedPairs(declarations, aggregate, aggregateRaw, sha);
      SamePairs(Recorded(rows).value, map[aggregate := sha(aggregateRaw)] + Digests(declarations));
    }
  }

  /** A closure fits a report exactly when its boundaries and the aggregate have canonical
      spellings, the report's references are collected and declared under those boundaries, and
      the manifest lists exactly the rows called for. */
  lemma ClosureFitsExactly(
      manifest: Manifest, report: Json, aggregateLocator: string, aggregateRaw: Bytes, live: seq<Locator>,
      files: Files, sha: Hash)
    ensures ClosureFits(manifest, report, aggregateLocator, aggregateRaw, live, files, sha) <==>
            && CanonicalAll(manifest.boundaries) != None && Visit(report) != None && Canonical(aggregateLocator) != None
            && (var roots := Roots(CanonicalAll(manifest.boundaries).value, live);
                var declared := Declare(Visit(report).value, roots, files, sha);
                declared != None
                && ListsExactly(manifest.files, declared.value, Canonical(aggregateLocator).value, aggregateRaw, sha))
  {
    hide Canonical, IsCanonical, Declare, Visit, Recorded, Digests, ListsExactly, StrictlySorted;
    if CanonicalAll(manifest.boundaries).Some? && Visit(report).Some? && Canonical(aggregateLocator).Some? {
      var roots := Roots(CanonicalAll(manifest.boundaries).value, live);
      var declared := Declare(Visit(report).value, roots, files, sha);
      if declared.Some? {
        DeclareExact(Visit(report).value, roots, files, sha);
        SortedIsDistinct(declared.value);
        PairsExact(manifest.files, declared.value, Canonical(aggregateLocator).value, aggregateRaw, sha);
      }
    }
  }
}
