/** Producer and verifier of the retained closure agree. */
module ClosureLaws {
  import opened Prelude
  import opened Encoding
  import opened Locators
  import opened Declarations
  import opened Closure
  import opened Sorting

  // ----- what the writer leaves -----

  /** Distinct locators hash apart, so no two of them share a file name. */
  predicate HashesApart(locators: set<Locator>, sha: Hash) {
    forall a, b :: a in locators && b in locators && sha(Encode(a)) == sha(Encode(b)) ==> a == b
  }

  predicate RowsListSeen(w: Writing, sha: Hash) {
    && (forall i, j :: 0 <= i < j < |w.rows| ==> w.rows[i].locator != w.rows[j].locator)
    && (forall row :: row in w.rows ==>
      IsCanonical(row.locator) && row.locator in w.seen && row == RowOf(row.locator, w.seen[row.locator], sha))
    && (forall l :: l in w.seen ==> RowOf(l, w.seen[l], sha) in w.rows)
  }

  function FileNames(seen: map<Locator, Identity>, sha: Hash): set<string> {
    set l | l in seen :: Relative(l, sha)
  }

  predicate DataStored(seen: map<Locator, Identity>, stored: Files, sha: Hash) {
    forall l :: l in seen ==> Relative(l, sha) in stored && stored[Relative(l, sha)] == seen[l].data
  }

  ghost predicate StoredMatches(w: Writing, sha: Hash) {
    && w.stored.Keys == FileNames(w.seen, sha)
    && (HashesApart(w.seen.Keys, sha) ==> DataStored(w.seen, w.stored, sha))
  }

  lemma RelativeInjective(a: Locator, b: Locator, sha: Hash)
    requires Relative(a, sha) == Relative(b, sha)
    ensures sha(Encode(a)) == sha(Encode(b))
  {
    var x, y := sha(Encode(a)), sha(Encode(b));
    assert Relative(a, sha)[6..|Relative(a, sha)| - 4] == x;
    assert Relative(b, sha)[6..|Relative(b, sha)| - 4] == y;
  }

  lemma CopyKeepsRows(source: Source, w: Writing, files: Files, sha: Hash)
    requires RowsListSeen(w, sha) && Copy(source, w, files, sha).Some?
    ensures RowsListSeen(Copy(source, w, files, sha).value, sha)
  {
    hide Canonical, IsCanonical, Relative;
    var locator: Locator := Canonical(source.recorded).value;
    var v := Copy(source, w, files, sha).value;
    if locator !in w.seen {
      assert v.rows == w.rows + [RowOf(locator, v.seen[locator], sha)];
      forall l | l in v.seen
        ensures RowOf(l, v.seen[l], sha) in v.rows
      {
        if l == locator {
          assert v.rows[|w.rows|] == RowOf(l, v.seen[l], sha);
        }
      }
    }
  }

  lemma AddsFileName(seen: map<Locator, Identity>, locator: Locator, identity: Identity, sha: Hash)
    ensures FileNames(seen[locator := identity], sha) == FileNames(seen, sha) + {Relative(locator, sha)}
  {
  }

  lemma AddsData(seen: map<Locator, Identity>, stored: Files, locator: Locator, identity: Identity, sha: Hash)
    requires DataStored(seen, stored, sha) && locator !in seen
    requires HashesApart(seen[locator := identity].Keys, sha)
    ensures DataStored(seen[locator := identity], stored[Relative(locator, sha) := identity.data], sha)
  {
    forall l | l in seen
      ensures Relative(l, sha) != Relative(locator, sha)
    {
      assert l in seen[locator := identity].Keys && locator in seen[locator := identity].Keys;
      if Relative(l, sha) == Relative(locator, sha) {
        RelativeInjective(l, locator, sha);
      }
    }
  }

  lemma FewerHashApart(locators: set<Locator>, more: set<Locator>, sha: Hash)
    requires locators <= more && HashesApart(more, sha)
    ensures HashesApart(locators, sha)
  {
  }

  lemma CopyKeepsStored(source: Source, w: Writing, files: Files, sha: Hash)
    requires StoredMatches(w, sha) && Copy(source, w, files, sha).Some?
    ensures StoredMatches(Copy(source, w, files, sha).value, sha)
  {
    var locator: Locator := Canonical(source.recorded).value;
    if locator !in w.seen {
      var identity := IdentityOf(source, files).value;
      AddsFileName(w.seen, locator, identity, sha);
      var v := Copy(source, w, files, sha).value;
      assert v.seen == w.seen[locator := identity] && v.stored == w.stored[Relative(locator, sha) := identity.data];
      if HashesApart(v.seen.Keys, sha) {
        FewerHashApart(w.seen.Keys, v.seen.Keys, sha);
        AddsData(w.seen, w.stored, locator, identity, sha);
      }
    }
  }

  /** The source is recorded with this identity. */
  predicate Records(source: Source, locator: Locator, identity: Identity, files: Files) {
    Canonical(source.recorded) == Some(locator) && IdentityOf(source, files) == Some(identity)
  }

  lemma {:induction false} CopyAllKeeps(sources: seq<Source>, w: Writing, files: Files, sha: Hash)
    requires RowsListSeen(w, sha) && StoredMatches(w, sha)
    requires CopyAll(sources, w, files, sha).Some?
    ensures RowsListSeen(CopyAll(sources, w, files, sha).value, sha)
    ensures StoredMatches(CopyAll(sources, w, files, sha).value, sha)
  {
    if sources != [] {
      var u := Copy(sources[0], w, files, sha).value;
      CopyKeepsRows(sources[0], w, files, sha);
      CopyKeepsStored(sources[0], w, files, sha);
      CopyAllKeeps(sources[1..], u, files, sha);
    }
  }

  ghost predicate SeenFrom(sources: seq<Source>, seen: map<Locator, Identity>, l: Locator, files: Files)
    requires l in seen
  {
    exists s :: s in sources && Records(s, l, seen[l], files)
  }

  predicate Noted(s: Source, seen: map<Locator, Identity>, files: Files) {
    && IdentityOf(s, files).Some? && Canonical(s.recorded).value in seen
    && seen[Canonical(s.recorded).value] == IdentityOf(s, files).value
  }

  lemma CopyNotes(source: Source, w: Writing, files: Files, sha: Hash)
    requires Copy(source, w, files, sha).Some?
    ensures var u := Copy(source, w, files, sha).value;
            && Noted(source, u.seen, files)
            && (forall l :: l in w.seen ==> l in u.seen && u.seen[l] == w.seen[l])
            && (forall l :: l in u.seen && l !in w.seen ==> Records(source, l, u.seen[l], files))
  {
  }

  lemma {:induction false} CopyAllNotes(sources: seq<Source>, w: Writing, files: Files, sha: Hash)
    requires CopyAll(sources, w, files, sha).Some?
    ensures var v := CopyAll(sources, w, files, sha).value;
            && (forall l :: l in w.seen ==> l in v.seen && v.seen[l] == w.seen[l])
            && (forall s :: s in sources ==> Noted(s, v.seen, files))
            && (forall l :: l in v.seen ==> l in w.seen || SeenFrom(sources, v.seen, l, files))
  {
    if sources != [] {
      var u := Copy(sources[0], w, files, sha).value;
      CopyNotes(sources[0], w, files, sha);
      CopyAllNotes(sources[1..], u, files, sha);
      var v := CopyAll(sources, w, files, sha).value;
      assert sources == [sources[0]] + sources[1..];
      forall l | l in v.seen && l !in w.seen
        ensures SeenFrom(sources, v.seen, l, files)
      {
        if l in u.seen {
          assert sources[0] in sources && Records(sources[0], l, v.seen[l], files);
        } else {
          var s :| s in sources[1..] && Records(s, l, v.seen[l], files);
          assert s in sources;
        }
      }
    }
  }

  /** What a completed writing holds: the seen dictionary is exactly the sources' identities. */
  ghost predicate Written(sources: seq<Source>, w: Writing, files: Files, sha: Hash) {
    && RowsListSeen(w, sha) && StoredMatches(w, sha)
    && (forall s :: s in sources ==> Noted(s, w.seen, files))
    && (forall l :: l in w.seen ==> SeenFrom(sources, w.seen, l, files))
  }

  lemma NothingWritten(sha: Hash)
    ensures RowsListSeen(NOTHING_WRITTEN, sha) && StoredMatches(NOTHING_WRITTEN, sha)
  {
  }

  lemma WriteGives(sources: seq<Source>, files: Files, sha: Hash) returns (w: Writing)
    requires WriteInventory(sources, files, sha).Some?
    ensures CopyAll(sources, NOTHING_WRITTEN, files, sha) == Some(w)
    ensures Written(sources, w, files, sha) && RowsListSeen(w, sha) && StoredMatches(w, sha)
    ensures WriteInventory(sources, files, sha) == Some((ManifestOf(w.rows), w.stored))
  {
    w := CopyAll(sources, NOTHING_WRITTEN, files, sha).value;
    NothingWritten(sha);
    CopyAllKeeps(sources, NOTHING_WRITTEN, files, sha);
    CopyAllNotes(sources, NOTHING_WRITTEN, files, sha);
  }

  /** Writing fails exactly when a source is unreadable or unsupported, or when one locator is
      given two boundaries, contents or files. */
  lemma {:induction false} CopyAllFails(sources: seq<Source>, w: Writing, files: Files, sha: Hash)
    returns (s: Source, t: Option<Source>)
    requires CopyAll(sources, w, files, sha).None?
    ensures s in sources
    ensures || IdentityOf(s, files).None?
            || (Canonical(s.recorded).value in w.seen
              && w.seen[Canonical(s.recorded).value] != IdentityOf(s, files).value)
            || (t.Some? && t.value in sources && IdentityOf(t.value, files).Some?
                && Canonical(s.recorded) == Canonical(t.value.recorded)
                  && IdentityOf(s, files) != IdentityOf(t.value, files))
  {
    assert sources == [sources[0]] + sources[1..];
    match Copy(sources[0], w, files, sha) {
      case None =>
        s, t := sources[0], None;
      case Some(v) =>
        s, t := CopyAllFails(sources[1..], v, files, sha);
        if IdentityOf(s, files).Some? && Canonical(s.recorded) == Canonical(sources[0].recorded)
          && IdentityOf(s, files) != IdentityOf(sources[0], files) {
          t := Some(sources[0]);
        }
    }
  }

  ghost predicate Ambiguous(sources: seq<Source>, files: Files) {
    exists s, t :: s in sources && t in sources
                   && IdentityOf(s, files).Some? && IdentityOf(t, files).Some?
                   && Canonical(s.recorded) == Canonical(t.recorded) && IdentityOf(s, files) != IdentityOf(t, files)
  }

  lemma WriteExact(sources: seq<Source>, files: Files, sha: Hash)
    ensures WriteInventory(sources, files, sha).None? <==>
            (exists s :: s in sources && IdentityOf(s, files).None?) || Ambiguous(sources, files)
  {
    if WriteInventory(sources, files, sha).None? {
      var s, t := CopyAllFails(sources, NOTHING_WRITTEN, files, sha);
    } else {
      var w := WriteGives(sources, files, sha);
    }
  }

  // ----- what the reader accepts -----

  ghost predicate RowsFit(rows: seq<Row>, boundaries: seq<Locator>, stored: Files, sha: Hash) {
    && (forall row :: row in rows ==> RowFits(row, boundaries, stored, sha))
    && (forall i, j :: 0 <= i < j < |rows| ==>
          Canonical(rows[i].locator) != Canonical(rows[j].locator) && rows[i].relative != rows[j].relative)
  }

  function Relatives(rows: seq<Row>): set<string> {
    set row | row in rows :: row.relative
  }

  ghost predicate Apart(rows: seq<Row>, entries: map<Locator, Entry>, relatives: set<string>) {
    forall row :: row in rows ==>
      row.relative !in relatives && (Canonical(row.locator).Some? ==> Canonical(row.locator).value !in entries)
  }

  lemma {:induction false} LoadExact(
      rows: seq<Row>, entries: map<Locator, Entry>, relatives: set<string>, boundaries: seq<Locator>, stored: Files,
      sha: Hash)
    ensures Load(rows, entries, relatives, boundaries, stored, sha).Some? <==>
            RowsFit(rows, boundaries, stored, sha) && Apart(rows, entries, relatives)
    ensures var r := Load(rows, entries, relatives, boundaries, stored, sha);
            r.Some? ==> r.value.1 == relatives + Relatives(rows)
    ensures var r := Load(rows, entries, relatives, boundaries, stored, sha);
            r.Some? ==>
              && (forall l :: l in entries ==> l in r.value.0 && r.value.0[l] == entries[l])
              && (forall row :: row in rows ==>
                    Canonical(row.locator).Some? && Canonical(row.boundary).Some?
                    && Canonical(row.locator).value in r.value.0
                      && r.value.0[Canonical(row.locator).value] == EntryOf(row))
  {
    if rows != [] {
      assert rows == [rows[0]] + rows[1..];
      if RowFits(rows[0], boundaries, stored, sha) {
        var locator: Locator := Canonical(rows[0].locator).value;
        if locator !in entries && rows[0].relative !in relatives {
          var more, names := entries[locator := EntryOf(rows[0])], relatives + {rows[0].relative};
          LoadExact(rows[1..], more, names, boundaries, stored, sha);
          LoadStep(rows, entries, relatives, boundaries, stored, sha);
          assert Relatives(rows) == {rows[0].relative} + Relatives(rows[1..]);
        }
      }
    }
  }

  lemma LoadStep(
      rows: seq<Row>, entries: map<Locator, Entry>, relatives: set<string>, boundaries: seq<Locator>, stored: Files,
      sha: Hash)
    requires rows != [] && RowFits(rows[0], boundaries, stored, sha)
    requires Canonical(rows[0].locator).value !in entries && rows[0].relative !in relatives
    ensures RowsFit(rows, boundaries, stored, sha) && Apart(rows, entries, relatives) <==>
            && RowsFit(rows[1..], boundaries, stored, sha)
            && Apart(rows[1..], entries[Canonical(rows[0].locator).value := EntryOf(rows[0])],
                     relatives + {rows[0].relative})
  {
    assert rows == [rows[0]] + rows[1..];
    forall i | 0 < i < |rows|
      ensures rows[i] in rows[1..]
    {
      assert rows[1..][i - 1] == rows[i];
    }
    forall i, j | 0 <= i < j < |rows[1..]|
      ensures rows[1..][i] == rows[i + 1] && rows[1..][j] == rows[j + 1]
    {
    }
  }

  lemma FromManifestExact(manifest: Manifest, stored: Files, sha: Hash)
    ensures var boundaries := CanonicalAll(manifest.boundaries);
            FromManifest(manifest, stored, sha).Some? <==>
            && boundaries.Some? && boundaries.value != [] && DistinctTexts(boundaries.value)
            && RowsFit(manifest.files, boundaries.value, stored, sha)
            && Relatives(manifest.files) == stored.Keys
    ensures var io := FromManifest(manifest, stored, sha);
            io.Some? ==>
              forall row :: row in manifest.files ==>
                && Canonical(row.locator).Some? && Canonical(row.boundary).Some?
                && Canonical(row.locator).value in io.value.entries
                && io.value.entries[Canonical(row.locator).value] == EntryOf(row)
  {
    var boundaries := CanonicalAll(manifest.boundaries);
    if boundaries.Some? {
      LoadExact(manifest.files, map[], {}, boundaries.value, stored, sha);
    }
  }

  // ----- the round trip -----

  lemma HexNames(digest: string)
    requires IsDigest(digest)
    ensures '/' !in digest && '\\' !in digest && |digest| == 64
  {
  }

  lemma WrittenNameIsRelative(locator: Locator, sha: Hash)
    requires IsDigest(sha(Encode(locator)))
    ensures IsRelative(Relative(locator, sha))
  {
    hide Encode, IsDigest;
    HexNames(sha(Encode(locator)));
    var name := sha(Encode(locator)) + ".bin";
    assert Relative(locator, sha) == "files" + ['/'] + name;
    SplitConcat("files", name, '/');
    SplitWord("files", '/');
    SplitWord(name, '/');
    assert Split(Relative(locator, sha), '/') == ["files", name];
    assert |name| > 4;
  }

  lemma RowBoundariesCanonical(w: Writing, sha: Hash)
    requires RowsListSeen(w, sha)
    ensures forall b :: b in RowBoundaries(w.rows) ==> Canonical(b) == Some(b)
    ensures forall l :: l in w.seen ==> w.seen[l].boundary in RowBoundaries(w.rows)
    ensures RowBoundaries(w.rows) == [] <==> w.rows == []
  {
    hide Canonical;
    var found := RowBoundaries(w.rows);
    forall b | b in found
      ensures Canonical(b) == Some(b)
    {
      var row :| row in w.rows && row.boundary == b;
      CanonicalFixedPoints(b);
    }
    forall l | l in w.seen
      ensures w.seen[l].boundary in found
    {
      assert RowOf(l, w.seen[l], sha) in w.rows;
    }
    if w.rows != [] {
      assert w.rows[0] in w.rows && w.rows[0].boundary in found;
    }
  }

  predicate BoundarySeen(seen: map<Locator, Identity>, boundary: string) {
    exists l :: l in seen && seen[l].boundary == boundary
  }

  lemma RowBoundariesSeen(w: Writing, sha: Hash)
    requires RowsListSeen(w, sha)
    ensures forall b :: b in RowBoundaries(w.rows) ==> BoundarySeen(w.seen, b)
  {
    hide IsCanonical, Relative;
    forall b | b in RowBoundaries(w.rows)
      ensures BoundarySeen(w.seen, b)
    {
      var row :| row in w.rows && row.boundary == b;
      var l: Locator := row.locator;
      assert w.seen[l].boundary == b;
    }
  }

  lemma SortedTexts(texts: seq<string>)
    requires DistinctKeys(texts, Itself)
    ensures var sorted := SortBy(texts, Itself);
            DistinctTexts(sorted) && (forall t :: t in sorted <==> t in texts) && (sorted == [] <==> texts == [])
  {
    var sorted := SortBy(texts, Itself);
    SortBySorts(texts, Itself);
    assert forall t :: t in sorted <==> t in multiset(texts);
    forall i, j | 0 <= i < j < |sorted|
      ensures sorted[i] != sorted[j]
    {
      LexIrreflexive(sorted[i]);
      assert LexLess(Itself(sorted[i]), Itself(sorted[j]));
    }
  }

  lemma AllCanonical(texts: seq<string>)
    requires forall t :: t in texts ==> Canonical(t) == Some(t)
    ensures CanonicalAll(texts) == Some(texts)
  {
    hide Canonical;
    assert CanonicalAll(texts).value == texts;
  }

  lemma WrittenBoundaries(w: Writing, sha: Hash) returns (boundaries: seq<Locator>)
    requires RowsListSeen(w, sha)
    ensures boundaries == ManifestOf(w.rows).boundaries
    ensures CanonicalAll(boundaries) == Some(boundaries) && DistinctTexts(boundaries)
    ensures boundaries == [] <==> w.rows == []
    ensures forall l :: l in w.seen ==> w.seen[l].boundary in boundaries
    ensures forall b :: b in boundaries ==> BoundarySeen(w.seen, b)
  {
    hide Canonical, BoundarySeen;
    RowBoundariesSeen(w, sha);
    RowBoundariesCanonical(w, sha);
    SortedTexts(RowBoundaries(w.rows));
    AllCanonical(ManifestOf(w.rows).boundaries);
    boundaries := CanonicalAll(ManifestOf(w.rows).boundaries).value;
  }

  lemma SortedRows(w: Writing, sha: Hash)
    requires RowsListSeen(w, sha)
    ensures var rows := ManifestOf(w.rows).files;
            && (forall row :: row in rows <==> row in w.rows)
            && (forall i, j :: 0 <= i < j < |rows| ==>
              LexLess(rows[i].locator, rows[j].locator) && rows[i].locator != rows[j].locator)
  {
    var rows := ManifestOf(w.rows).files;
    assert DistinctKeys(w.rows, RowLocator);
    SortBySorts(w.rows, RowLocator);
    assert forall row :: row in rows <==> row in multiset(w.rows);
    forall i, j | 0 <= i < j < |rows|
      ensures LexLess(rows[i].locator, rows[j].locator) && rows[i].locator != rows[j].locator
    {
      assert LexLess(RowLocator(rows[i]), RowLocator(rows[j]));
      LexIrreflexive(rows[i].locator);
    }
  }

  /** A manifest lists its files in the byte order of their encoded locators. */
  lemma InventoryIsOrdered(sources: seq<Source>, files: Files, sha: Hash)
    requires WriteInventory(sources, files, sha).Some?
    ensures var rows := WriteInventory(sources, files, sha).value.0.files;
            forall i, j :: 0 <= i < j < |rows| ==> BytesLess(Encode(rows[i].locator), Encode(rows[j].locator))
  {
    var w := WriteGives(sources, files, sha);
    SortedRows(w, sha);
    var rows := ManifestOf(w.rows).files;
    forall i, j | 0 <= i < j < |rows|
      ensures BytesLess(Encode(rows[i].locator), Encode(rows[j].locator))
    {
      EncodePreservesOrder(rows[i].locator, rows[j].locator);
    }
  }

  predicate StrictlyInside(l: Locator, identity: Identity) {
    Within(l, identity.boundary) && l != identity.boundary
  }

  lemma WrittenRowFits(w: Writing, l: Locator, boundaries: seq<Locator>, sha: Hash)
    requires RowsListSeen(w, sha) && DataStored(w.seen, w.stored, sha) && l in w.seen
    requires w.seen[l].boundary in boundaries && StrictlyInside(l, w.seen[l])
    requires IsDigest(sha(Encode(l))) && IsDigest(sha(w.seen[l].data))
    ensures RowFits(RowOf(l, w.seen[l], sha), boundaries, w.stored, sha)
  {
    hide Canonical, Within, IsRelative, IsDigest;
    CanonicalFixedPoints(l);
    CanonicalFixedPoints(w.seen[l].boundary);
    WrittenNameIsRelative(l, sha);
  }

  lemma RowOfFits(w: Writing, l: Locator, boundaries: seq<Locator>, sha: Hash)
    requires l in w.seen && RowFits(RowOf(l, w.seen[l], sha), boundaries, w.stored, sha)
    ensures StrictlyInside(l, w.seen[l])
  {
    CanonicalFixedPoints(l);
    CanonicalFixedPoints(w.seen[l].boundary);
  }

  lemma RelativesAreFileNames(w: Writing, sha: Hash)
    requires RowsListSeen(w, sha)
    ensures Relatives(ManifestOf(w.rows).files) == FileNames(w.seen, sha)
  {
    hide Canonical, IsCanonical, Relative, ManifestOf;
    SortedRows(w, sha);
    var rows := ManifestOf(w.rows).files;
    forall name | name in FileNames(w.seen, sha)
      ensures name in Relatives(rows)
    {
      var l :| l in w.seen && Relative(l, sha) == name;
      assert RowOf(l, w.seen[l], sha) in rows;
    }
  }

  lemma AcceptedNamesApart(w: Writing, boundaries: seq<Locator>, sha: Hash)
    requires RowsListSeen(w, sha) && RowsFit(ManifestOf(w.rows).files, boundaries, w.stored, sha)
    ensures HashesApart(w.seen.Keys, sha)
  {
    hide RowFits, Canonical, IsCanonical, Encode, ManifestOf;
    SortedRows(w, sha);
    var rows := ManifestOf(w.rows).files;
    forall a, b | a in w.seen.Keys && b in w.seen.Keys && sha(Encode(a)) == sha(Encode(b))
      ensures a == b
    {
      var i :| 0 <= i < |rows| && rows[i] == RowOf(a, w.seen[a], sha);
      var j :| 0 <= j < |rows| && rows[j] == RowOf(b, w.seen[b], sha);
      assert rows[i].relative == rows[j].relative;
    }
  }

  lemma WrittenRowsApart(w: Writing, sha: Hash)
    requires RowsListSeen(w, sha) && HashesApart(w.seen.Keys, sha)
    ensures var rows := ManifestOf(w.rows).files;
            forall i, j :: 0 <= i < j < |rows| ==>
              Canonical(rows[i].locator) != Canonical(rows[j].locator) && rows[i].relative != rows[j].relative
  {
    SortedRows(w, sha);
    var rows := ManifestOf(w.rows).files;
    forall i, j | 0 <= i < j < |rows|
      ensures Canonical(rows[i].locator) != Canonical(rows[j].locator) && rows[i].relative != rows[j].relative
    {
      assert rows[i] in w.rows && rows[j] in w.rows;
      CanonicalFixedPoints(rows[i].locator);
      CanonicalFixedPoints(rows[j].locator);
      if rows[i].relative == rows[j].relative {
        RelativeInjective(rows[i].locator, rows[j].locator, sha);
      }
    }
  }

  lemma AcceptedLiesInside(w: Writing, boundaries: seq<Locator>, sha: Hash)
    requires RowsListSeen(w, sha) && RowsFit(ManifestOf(w.rows).files, boundaries, w.stored, sha)
    ensures forall l :: l in w.seen ==> StrictlyInside(l, w.seen[l])
  {
    hide RowFits, StrictlyInside;
    SortedRows(w, sha);
    forall l | l in w.seen
      ensures StrictlyInside(l, w.seen[l])
    {
      assert RowOf(l, w.seen[l], sha) in ManifestOf(w.rows).files;
      RowOfFits(w, l, boundaries, sha);
    }
  }

  lemma InsideIsAccepted(w: Writing, boundaries: seq<Locator>, sha: Hash)
    requires RowsListSeen(w, sha) && StoredMatches(w, sha) && HashesApart(w.seen.Keys, sha)
    requires forall data :: IsDigest(sha(data))
    requires forall l :: l in w.seen ==> StrictlyInside(l, w.seen[l]) && w.seen[l].boundary in boundaries
    ensures RowsFit(ManifestOf(w.rows).files, boundaries, w.stored, sha)
  {
    hide RowFits, StrictlyInside, Canonical, IsCanonical, IsDigest, DataStored;
    SortedRows(w, sha);
    WrittenRowsApart(w, sha);
    forall row | row in ManifestOf(w.rows).files
      ensures RowFits(row, boundaries, w.stored, sha)
    {
      WrittenRowFits(w, row.locator, boundaries, sha);
    }
  }

  lemma WritingAccepted(w: Writing, sha: Hash)
    requires RowsListSeen(w, sha) && StoredMatches(w, sha)
    requires forall data :: IsDigest(sha(data))
    ensures FromManifest(ManifestOf(w.rows), w.stored, sha).Some? <==>
            && w.rows != [] && HashesApart(w.seen.Keys, sha)
            && (forall l :: l in w.seen ==> StrictlyInside(l, w.seen[l]))
  {
    hide RowsFit, StrictlyInside, Canonical, IsDigest, FromManifest, DistinctTexts;
    FromManifestExact(ManifestOf(w.rows), w.stored, sha);
    var boundaries := WrittenBoundaries(w, sha);
    RelativesAreFileNames(w, sha);
    if FromManifest(ManifestOf(w.rows), w.stored, sha).Some? {
      AcceptedNamesApart(w, boundaries, sha);
      AcceptedLiesInside(w, boundaries, sha);
    }
    if w.rows != [] && HashesApart(w.seen.Keys, sha) && (forall l :: l in w.seen ==> StrictlyInside(l, w.seen[l])) {
      InsideIsAccepted(w, boundaries, sha);
    }
  }

  /** A source recorded strictly below its boundary. */
  predicate Below(s: Source) {
    && Canonical(s.recorded).Some? && Canonical(s.boundary).Some?
    && Within(Canonical(s.recorded).value, Canonical(s.boundary).value)
    && Canonical(s.recorded) != Canonical(s.boundary)
  }

  predicate SourcesHashApart(sources: seq<Source>, sha: Hash) {
    forall s, t :: s in sources && t in sources && Canonical(s.recorded).Some? && Canonical(t.recorded).Some?
                   && sha(Encode(Canonical(s.recorded).value)) == sha(Encode(Canonical(t.recorded).value)) ==>
                     Canonical(s.recorded) == Canonical(t.recorded)
  }

  lemma BelowMeansInside(sources: seq<Source>, w: Writing, files: Files, sha: Hash)
    requires Written(sources, w, files, sha)
    ensures (forall s :: s in sources ==> Below(s)) <==> (forall l :: l in w.seen ==> StrictlyInside(l, w.seen[l]))
  {
    hide Canonical, IsCanonical, Within, RowsListSeen, StoredMatches;
    if forall s :: s in sources ==> Below(s) {
      forall l | l in w.seen
        ensures StrictlyInside(l, w.seen[l])
      {
        var s :| s in sources && Records(s, l, w.seen[l], files);
      }
    }
    if forall l :: l in w.seen ==> StrictlyInside(l, w.seen[l]) {
      forall s | s in sources
        ensures Below(s)
      {
        assert Noted(s, w.seen, files);
      }
    }
  }

  lemma SourcesApart(sources: seq<Source>, w: Writing, files: Files, sha: Hash)
    requires Written(sources, w, files, sha)
    ensures SourcesHashApart(sources, sha) <==> HashesApart(w.seen.Keys, sha)
  {
    hide Canonical, IsCanonical, Encode, RowsListSeen, StoredMatches;
    if SourcesHashApart(sources, sha) {
      forall a, b | a in w.seen.Keys && b in w.seen.Keys && sha(Encode(a)) == sha(Encode(b))
        ensures a == b
      {
        assert SeenFrom(sources, w.seen, a, files) && SeenFrom(sources, w.seen, b, files);
        var s :| s in sources && Records(s, a, w.seen[a], files);
        var t :| t in sources && Records(t, b, w.seen[b], files);
      }
    }
    if HashesApart(w.seen.Keys, sha) {
      forall s, t | s in sources && t in sources && Canonical(s.recorded).Some? && Canonical(t.recorded).Some?
                    && sha(Encode(Canonical(s.recorded).value)) == sha(Encode(Canonical(t.recorded).value))
        ensures Canonical(s.recorded) == Canonical(t.recorded)
      {
        assert Noted(s, w.seen, files) && Noted(t, w.seen, files);
        assert Canonical(s.recorded).value in w.seen.Keys && Canonical(t.recorded).value in w.seen.Keys;
      }
    }
  }

  lemma SomethingWritten(sources: seq<Source>, w: Writing, files: Files, sha: Hash)
    requires Written(sources, w, files, sha)
    ensures sources != [] <==> w.rows != []
  {
    hide Canonical, IsCanonical, StoredMatches;
    if sources != [] {
      assert sources[0] in sources && Noted(sources[0], w.seen, files);
    }
    if w.rows != [] {
      assert w.rows[0] in w.rows;
      assert SeenFrom(sources, w.seen, w.rows[0].locator, files);
    }
  }

  /** What the writer produces is accepted by the reader exactly when there is something to
      retain, every locator lies strictly below its boundary and no two locators share a hash. */
  lemma WrittenInventoryIsAccepted(sources: seq<Source>, files: Files, sha: Hash)
    requires WriteInventory(sources, files, sha).Some?
    requires forall data :: IsDigest(sha(data))
    ensures var (manifest, stored) := WriteInventory(sources, files, sha).value;
            FromManifest(manifest, stored, sha).Some? <==>
            sources != [] && (forall s :: s in sources ==> Below(s)) && SourcesHashApart(sources, sha)
  {
    hide WriteInventory, FromManifest, Below, SourcesHashApart, HashesApart, StrictlyInside, RowsListSeen;
    hide StoredMatches, IsDigest;
    var w := WriteGives(sources, files, sha);
    WritingAccepted(w, sha);
    SomethingWritten(sources, w, files, sha);
    BelowMeansInside(sources, w, files, sha);
    SourcesApart(sources, w, files, sha);
  }

  /** The loaded manifest holds the entry written for each source. */
  lemma LoadedEntry(sources: seq<Source>, files: Files, sha: Hash, s: Source)
    returns (w: Writing, l: Locator, io: ArtifactIO)
    requires WriteInventory(sources, files, sha).Some? && s in sources
    requires var (manifest, stored) := WriteInventory(sources, files, sha).value;
             FromManifest(manifest, stored, sha).Some?
    ensures CopyAll(sources, NOTHING_WRITTEN, files, sha) == Some(w)
    ensures io == FromManifest(ManifestOf(w.rows), w.stored, sha).value
    ensures Written(sources, w, files, sha) && HashesApart(w.seen.Keys, sha)
    ensures Canonical(s.recorded) == Some(l) && l in w.seen && w.seen[l] == IdentityOf(s, files).value
    ensures l in io.entries
    ensures io.entries[l] == Entry(w.seen[l].boundary, Relative(l, sha), |w.seen[l].data|, sha(w.seen[l].data))
  {
    hide Canonical, IsCanonical, FromManifest, RowFits, StoredMatches, HashesApart;
    w := WriteGives(sources, files, sha);
    assert Noted(s, w.seen, files);
    l := Canonical(s.recorded).value;
    var m := ManifestOf(w.rows);
    io := FromManifest(m, w.stored, sha).value;
    FromManifestExact(m, w.stored, sha);
    AcceptedNamesApart(w, CanonicalAll(m.boundaries).value, sha);
    SortedRows(w, sha);
    CanonicalFixedPoints(l);
    CanonicalFixedPoints(w.seen[l].boundary);
    assert RowOf(l, w.seen[l], sha) in m.files;
  }

  /** Reading back every source through the loaded manifest returns its bytes. */
  lemma ReadBack(sources: seq<Source>, files: Files, sha: Hash, s: Source)
    requires WriteInventory(sources, files, sha).Some? && s in sources
    requires var (manifest, stored) := WriteInventory(sources, files, sha).value;
             FromManifest(manifest, stored, sha).Some?
    ensures var (manifest, stored) := WriteInventory(sources, files, sha).value;
            s.path in files
            && ReadBytes(FromManifest(manifest, stored, sha).value, stored, s.recorded, s.boundary, sha) ==
              Some(files[s.path])
  {
    hide Canonical, IsCanonical, FromManifest, RowsListSeen;
    var w, l, io := LoadedEntry(sources, files, sha, s);
  }

  /** Whatever happens to the store after the manifest is loaded, a read returns the source's
      bytes or fails, unless the replaced bytes collide with them under the hash. */
  lemma TamperedReadFails(sources: seq<Source>, files: Files, sha: Hash, s: Source, later: Files)
    requires WriteInventory(sources, files, sha).Some? && s in sources
    requires var (manifest, stored) := WriteInventory(sources, files, sha).value;
             FromManifest(manifest, stored, sha).Some?
    ensures var (manifest, stored) := WriteInventory(sources, files, sha).value;
            var read := ReadBytes(FromManifest(manifest, stored, sha).value, later, s.recorded, s.boundary, sha);
            s.path in files
            && (read.Some? ==> |read.value| == |files[s.path]| && sha(read.value) == sha(files[s.path]))
  {
    hide Canonical, IsCanonical, FromManifest, RowsListSeen, StoredMatches, HashesApart;
    var w, l, io := LoadedEntry(sources, files, sha, s);
  }
}
