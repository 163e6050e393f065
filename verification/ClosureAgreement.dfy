/** The closure written for a report is the closure its verifier derives from the same report. */
module ClosureAgreement {
  import opened Prelude
  import opened Locators
  import opened Evidence
  import opened Declarations
  import opened Closure
  import opened ClosureLaws
  import opened Sorting

  lemma SortedIsDistinct(declarations: seq<Declaration>)
    requires StrictlySorted(declarations, ByLocator)
    ensures DistinctKeys(declarations, ByLocator)
  {
    forall i, j | 0 <= i < j < |declarations|
      ensures ByLocator(declarations[i]) != ByLocator(declarations[j])
    {
      LexIrreflexive(ByLocator(declarations[i]));
    }
  }

  lemma DistinctDeclarationTail(declarations: seq<Declaration>)
    requires declarations != [] && DistinctKeys(declarations, ByLocator)
    ensures DistinctKeys(declarations[1..], ByLocator)
    ensures forall d :: d in declarations[1..] ==> d.locator != declarations[0].locator
  {
    hide IsCanonical;
    var rest := declarations[1..];
    forall i, j | 0 <= i < j < |rest|
      ensures ByLocator(rest[i]) != ByLocator(rest[j])
    {
      assert rest[i] == declarations[i + 1] && rest[j] == declarations[j + 1];
    }
    forall d | d in rest
      ensures d.locator != declarations[0].locator
    {
      var i :| 0 <= i < |rest| && rest[i] == d;
      assert ByLocator(declarations[0]) != ByLocator(declarations[i + 1]);
    }
  }

  lemma {:induction false} DigestsExact(declarations: seq<Declaration>)
    requires DistinctKeys(declarations, ByLocator)
    ensures forall l :: l in Digests(declarations) ==> exists d :: d in declarations && d.locator == l
    ensures forall d :: d in declarations ==>
      d.locator in Digests(declarations) && Digests(declarations)[d.locator] == d.digest
  {
    hide IsCanonical, DistinctKeys;
    if declarations != [] {
      assert forall d :: d in declarations <==> d == declarations[0] || d in declarations[1..] by {
        assert declarations == [declarations[0]] + declarations[1..];
      }
      DistinctDeclarationTail(declarations);
      DigestsExact(declarations[1..]);
    }
  }

  predicate DistinctRows(rows: seq<Row>) {
    forall i, j :: 0 <= i < j < |rows| ==> rows[i].locator != rows[j].locator
  }

  predicate CanonicalRows(rows: seq<Row>) {
    forall i :: 0 <= i < |rows| ==> Canonical(rows[i].locator) == Some(rows[i].locator)
  }

  lemma DistinctTail(rows: seq<Row>)
    requires rows != [] && DistinctRows(rows) && CanonicalRows(rows)
    ensures DistinctRows(rows[1..]) && CanonicalRows(rows[1..])
    ensures forall row :: row in rows[1..] ==> row.locator != rows[0].locator
  {
    hide Canonical;
    var rest := rows[1..];
    forall i | 0 <= i < |rest|
      ensures rest[i] == rows[i + 1]
    {
    }
  }

  predicate HasRow(rows: seq<Row>, locator: string) {
    exists i :: 0 <= i < |rows| && rows[i].locator == locator
  }

  lemma RecordedStep(rows: seq<Row>)
    requires rows != [] && CanonicalRows(rows) && Recorded(rows[1..]).Some?
    ensures Recorded(rows) == Some(map[rows[0].locator := rows[0].digest] + Recorded(rows[1..]).value)
  {
    hide Canonical, IsCanonical;
    HeadIsCanonical(rows);
  }

  lemma {:induction false} RecordedKeys(rows: seq<Row>)
    requires CanonicalRows(rows) && DistinctRows(rows)
    ensures Recorded(rows).Some? && |Recorded(rows).value| == |rows|
    ensures forall k :: k in Recorded(rows).value ==> HasRow(rows, k)
  {
    hide Canonical, IsCanonical, CanonicalRows, DistinctRows;
    if rows != [] {
      var first, rest := rows[0], rows[1..];
      DistinctTail(rows);
      RecordedKeys(rest);
      RecordedStep(rows);
      var m := Recorded(rest).value;
      NewKey(m, first.locator, first.digest);
      forall k | k in Recorded(rows).value
        ensures HasRow(rows, k)
      {
        if k == first.locator {
          assert rows[0].locator == k;
        } else {
          var i :| 0 <= i < |rest| && rest[i].locator == k;
          assert rows[i + 1].locator == k;
        }
      }
    }
  }

  lemma {:induction false} RecordedValue(rows: seq<Row>, i: nat)
    requires CanonicalRows(rows) && DistinctRows(rows) && i < |rows|
    ensures Recorded(rows).Some?
    ensures rows[i].locator in Recorded(rows).value && Recorded(rows).value[rows[i].locator] == rows[i].digest
    decreases |rows|
  {
    hide Canonical, IsCanonical, CanonicalRows, DistinctRows;
    var rest := rows[1..];
    DistinctTail(rows);
    RecordedKeys(rest);
    RecordedStep(rows);
    var m := Recorded(rest).value;
    if i == 0 {
      forall j | 0 <= j < |rest|
        ensures rest[j].locator != rows[0].locator
      {
        assert rest[j] in rest;
      }
    } else {
      RecordedValue(rest, i - 1);
      assert rest[i - 1] == rows[i];
    }
  }

  lemma HeadIsCanonical(rows: seq<Row>)
    requires rows != [] && CanonicalRows(rows)
    ensures Canonical(rows[0].locator) == Some(rows[0].locator)
  {
    hide Canonical;
  }

  lemma NewKey(m: map<string, string>, key: string, value: string)
    requires key !in m
    ensures |map[key := value] + m| == 1 + |m|
  {
    assert (map[key := value] + m).Keys == {key} + m.Keys;
  }

  lemma WrittenRowsCanonical(w: Writing, sha: Hash)
    requires RowsListSeen(w, sha)
    ensures CanonicalRows(ManifestOf(w.rows).files) && DistinctRows(ManifestOf(w.rows).files)
  {
    hide Canonical, IsCanonical, ManifestOf;
    SortedRows(w, sha);
    var rows := ManifestOf(w.rows).files;
    forall i | 0 <= i < |rows|
      ensures Canonical(rows[i].locator) == Some(rows[i].locator)
    {
      assert rows[i] in rows;
      CanonicalFixedPoints(rows[i].locator);
    }
  }

  lemma WrittenKeys(w: Writing, sha: Hash)
    requires RowsListSeen(w, sha)
    ensures var rows := ManifestOf(w.rows).files;
            && Recorded(rows).Some? && |Recorded(rows).value| == |rows|
            && (forall k :: k in Recorded(rows).value ==> IsCanonical(k) && k in w.seen)
  {
    hide Canonical, IsCanonical, ManifestOf, Recorded, CanonicalRows, DistinctRows, RowOf;
    WrittenRowsCanonical(w, sha);
    SortedRows(w, sha);
    var rows := ManifestOf(w.rows).files;
    RecordedKeys(rows);
    forall k | k in Recorded(rows).value
      ensures IsCanonical(k) && k in w.seen
    {
      var i :| 0 <= i < |rows| && rows[i].locator == k;
      assert rows[i] in rows;
    }
  }

  /** The rows of a written manifest map each locator met to the hash of its bytes. */
  lemma WrittenDigests(w: Writing, sha: Hash)
    requires RowsListSeen(w, sha)
    ensures var rows := ManifestOf(w.rows).files;
            && Recorded(rows).Some? && |Recorded(rows).value| == |rows|
            && (forall k :: k in Recorded(rows).value ==> IsCanonical(k) && k in w.seen)
            && (forall l :: l in w.seen ==> l in Recorded(rows).value && Recorded(rows).value[l] == sha(w.seen[l].data))
  {
    hide Canonical, IsCanonical, ManifestOf, Recorded, CanonicalRows, DistinctRows, Relative;
    WrittenKeys(w, sha);
    WrittenRowsCanonical(w, sha);
    SortedRows(w, sha);
    var rows := ManifestOf(w.rows).files;
    forall l | l in w.seen
      ensures l in Recorded(rows).value && Recorded(rows).value[l] == sha(w.seen[l].data)
    {
      assert RowOf(l, w.seen[l], sha) in rows;
      var i :| 0 <= i < |rows| && rows[i] == RowOf(l, w.seen[l], sha);
      RecordedValue(rows, i);
    }
  }

  /** The retained files of a run: the aggregate first, then every declared artifact. */
  function Produced(aggregate: Source, declarations: seq<Declaration>): seq<Source> {
    [aggregate] + SourcesOf(declarations)
  }

  ghost predicate Complete(aggregate: Source, declarations: seq<Declaration>, w: Writing, files: Files, sha: Hash) {
    && Canonical(aggregate.recorded).Some? && aggregate.path in files
    && var l: Locator := Canonical(aggregate.recorded).value;
       && l in w.seen && w.seen[l].data == files[aggregate.path]
       && (forall d :: d in declarations ==>
             d.locator in w.seen && w.seen[d.locator].boundary == d.boundary && sha(w.seen[d.locator].data) == d.digest)
       && (forall k :: k in w.seen ==> k == l || exists d :: d in declarations && d.locator == k)
  }

  lemma DeclaredIsSeen(
      aggregate: Source, declarations: seq<Declaration>, d: Declaration, w: Writing, files: Files, sha: Hash)
    requires Written(Produced(aggregate, declarations), w, files, sha)
    requires d in declarations && Retained(d, files, sha)
    ensures d.locator in w.seen && w.seen[d.locator].boundary == d.boundary && sha(w.seen[d.locator].data) == d.digest
  {
    hide Canonical, IsCanonical, RowsListSeen, StoredMatches, SeenFrom;
    var i :| 0 <= i < |declarations| && declarations[i] == d;
    assert Produced(aggregate, declarations)[i + 1] == SourceOf(d);
    assert Noted(SourceOf(d), w.seen, files);
    CanonicalFixedPoints(d.locator);
    CanonicalFixedPoints(d.boundary);
  }

  lemma SeenIsDeclared(
      aggregate: Source, declarations: seq<Declaration>, k: Locator, w: Writing, files: Files, sha: Hash)
      returns (d: Declaration)
    requires Written(Produced(aggregate, declarations), w, files, sha)
    requires k in w.seen && Canonical(aggregate.recorded) != Some(k)
    ensures d in declarations && d.locator == k
  {
    hide Canonical, IsCanonical, RowsListSeen, StoredMatches, Noted;
    var sources := Produced(aggregate, declarations);
    assert SeenFrom(sources, w.seen, k, files);
    var s :| s in sources && Records(s, k, w.seen[k], files);
    var i :| 0 <= i < |sources| && sources[i] == s;
    d := declarations[i - 1];
    assert s == SourceOf(d);
    CanonicalFixedPoints(d.locator);
  }

  lemma ProducedIsComplete(aggregate: Source, declarations: seq<Declaration>, w: Writing, files: Files, sha: Hash)
    requires Written(Produced(aggregate, declarations), w, files, sha)
    requires forall d :: d in declarations ==> Retained(d, files, sha)
    ensures Complete(aggregate, declarations, w, files, sha)
  {
    hide Canonical, IsCanonical, RowsListSeen, StoredMatches;
    var sources := Produced(aggregate, declarations);
    assert aggregate in sources && Noted(aggregate, w.seen, files);
    forall d | d in declarations
      ensures d.locator in w.seen && w.seen[d.locator].boundary == d.boundary && sha(w.seen[d.locator].data) == d.digest
    {
      DeclaredIsSeen(aggregate, declarations, d, w, files, sha);
    }
    var l: Locator := Canonical(aggregate.recorded).value;
    forall k | k in w.seen && k != l
      ensures exists d :: d in declarations && d.locator == k
    {
      var d := SeenIsDeclared(aggregate, declarations, k, w, files, sha);
    }
  }

  lemma ActualIsExpected(aggregate: Source, declarations: seq<Declaration>, w: Writing, files: Files, sha: Hash)
    requires RowsListSeen(w, sha) && Complete(aggregate, declarations, w, files, sha)
    requires DistinctKeys(declarations, ByLocator)
    ensures Recorded(ManifestOf(w.rows).files).Some?
    ensures Recorded(ManifestOf(w.rows).files).value
            == map[Canonical(aggregate.recorded).value := sha(files[aggregate.path])] + Digests(declarations)
  {
    hide Canonical, IsCanonical, RowsListSeen;
    WrittenDigests(w, sha);
    DigestsExact(declarations);
    var actual := Recorded(ManifestOf(w.rows).files).value;
    var expected := map[Canonical(aggregate.recorded).value := sha(files[aggregate.path])] + Digests(declarations);
    var l: Locator := Canonical(aggregate.recorded).value;
    forall k: string
      ensures k in actual <==> k in expected
      ensures k in actual && k in expected ==> actual[k] == expected[k]
    {
      if k in actual && k != l {
        var d :| d in declarations && d.locator == k;
      }
      if k in Digests(declarations) {
        var d :| d in declarations && d.locator == k;
      }
    }
  }

  // ----- the verifier's own reading of the report -----

  /** Boundaries in use cover every row, so a retained reference stays retained. */
  lemma RetainedStays(r: Reference, d: Declaration, roots: Roots, boundaries: seq<Locator>, files: Files, sha: Hash)
    requires Classify(r, roots, files, sha) == Some(Retain(d)) && d.boundary in boundaries
    ensures var k := Classify(r, Roots(boundaries, roots.live), files, sha);
            k.Some? && k.value.Retain? && k.value.declaration.locator == d.locator
              && k.value.declaration.digest == d.digest
  {
    hide Canonical, IsCanonical, Within, IsDigest;
  }

  lemma VerifiedStaysOutside(r: Reference, roots: Roots, boundaries: seq<Locator>, files: Files, sha: Hash)
    requires Classify(r, roots, files, sha) == Some(Verified)
    ensures Canonical(r.locator).Some?
    ensures var l := Canonical(r.locator).value;
            var k := Classify(r, Roots(boundaries, roots.live), files, sha);
            && k.Some?
            && (!Inside(l, boundaries) ==> k == Some(Verified))
            && (Inside(l, boundaries) ==>
                  k.value.Retain? && k.value.declaration.locator == l && k.value.declaration.digest == r.digest)
            && l in files && r.digest == sha(files[l])
            && Longest(l, roots.retained).None?
  {
    hide Canonical, IsCanonical, Within, IsDigest;
  }

  ghost predicate Covers(boundaries: seq<Locator>, declarations: seq<Declaration>) {
    forall d :: d in declarations ==> d.boundary in boundaries
  }

  lemma LocatorOf(r: Reference, d: Declaration, roots: Roots, files: Files, sha: Hash)
    requires Classify(r, roots, files, sha) == Some(Retain(d))
    ensures Canonical(r.locator) == Some(d.locator) && r.digest == d.digest && Longest(d.locator, roots.retained).Some?
  {
    hide Canonical, IsCanonical, Within, IsDigest;
  }

  /** How a verifier row arises: from a retained reference, or from a live one that lies
      inside a recorded boundary. */
  lemma VerifierRow(
      references: seq<Reference>, d: Declaration, declarations: seq<Declaration>, roots: Roots,
      boundaries: seq<Locator>, files: Files, sha: Hash)
      returns (r: Reference)
    requires Declare(references, roots, files, sha) == Some(declarations) && Covers(boundaries, declarations)
    requires Declared(references, d, Roots(boundaries, roots.live), files, sha)
    ensures r in references && Canonical(r.locator) == Some(d.locator) && r.digest == d.digest
    ensures || (exists e :: e in declarations && e.locator == d.locator && e.digest == d.digest)
            || (Classify(r, roots, files, sha) == Some(Verified) && Inside(d.locator, boundaries))
  {
    hide Canonical, IsCanonical, Classify, Within, Declare;
    r :| r in references && Classify(r, Roots(boundaries, roots.live), files, sha) == Some(Retain(d));
    LocatorOf(r, d, Roots(boundaries, roots.live), files, sha);
    DeclareExact(references, roots, files, sha);
    assert !Unclassified(references, roots, files, sha);
    var k := Classify(r, roots, files, sha).value;
    if k.Retain? {
      LocatorOf(r, k.declaration, roots, files, sha);
      assert Declared(references, k.declaration, roots, files, sha);
    } else {
      VerifiedStaysOutside(r, roots, boundaries, files, sha);
    }
  }

  /** Two verifier rows of one locator agree, so the verifier always gets its declarations. */
  lemma VerifierDeclares(
      references: seq<Reference>, declarations: seq<Declaration>, roots: Roots, boundaries: seq<Locator>,
      files: Files, sha: Hash)
    requires Declare(references, roots, files, sha) == Some(declarations) && Covers(boundaries, declarations)
    ensures Declare(references, Roots(boundaries, roots.live), files, sha).Some?
  {
    hide Canonical, IsCanonical, Classify, Within, Declare;
    var roots2 := Roots(boundaries, roots.live);
    DeclareExact(references, roots, files, sha);
    DeclareExact(references, roots2, files, sha);
    forall r | r in references
      ensures Classify(r, roots2, files, sha).Some?
    {
      assert !Unclassified(references, roots, files, sha);
      var k := Classify(r, roots, files, sha).value;
      if k.Retain? {
        assert Declared(references, k.declaration, roots, files, sha);
        RetainedStays(r, k.declaration, roots, boundaries, files, sha);
      } else {
        VerifiedStaysOutside(r, roots, boundaries, files, sha);
      }
    }
    forall d, e | Declared(references, d, roots2, files, sha) && Declared(references, e, roots2, files, sha)
      && d.locator == e.locator
      ensures d.digest == e.digest
    {
      VerifierRowsAgree(references, d, e, declarations, roots, boundaries, files, sha);
    }
  }

  lemma VerifierRowsAgree(
      references: seq<Reference>, d: Declaration, e: Declaration, declarations: seq<Declaration>, roots: Roots,
      boundaries: seq<Locator>, files: Files, sha: Hash)
    requires Declare(references, roots, files, sha) == Some(declarations) && Covers(boundaries, declarations)
    requires Declared(references, d, Roots(boundaries, roots.live), files, sha)
    requires Declared(references, e, Roots(boundaries, roots.live), files, sha)
    requires d.locator == e.locator
    ensures d.digest == e.digest
  {
    hide Canonical, IsCanonical, Classify, Within, Declare, Inside;
    DeclareExact(references, roots, files, sha);
    var r := VerifierRow(references, d, declarations, roots, boundaries, files, sha);
    var s := VerifierRow(references, e, declarations, roots, boundaries, files, sha);
    if x :| x in declarations && x.locator == d.locator && x.digest == d.digest {
      RetainedIsNotLive(references, x, s, declarations, roots, boundaries, files, sha);
      var y :| y in declarations && y.locator == e.locator && y.digest == e.digest;
      assert !Conflicting(references, roots, files, sha);
    } else {
      if y :| y in declarations && y.locator == e.locator && y.digest == e.digest {
        RetainedIsNotLive(references, y, r, declarations, roots, boundaries, files, sha);
      }
      VerifiedStaysOutside(r, roots, boundaries, files, sha);
      VerifiedStaysOutside(s, roots, boundaries, files, sha);
    }
  }

  /** One locator is not both a retained row and a live reference. */
  lemma RetainedIsNotLive(
      references: seq<Reference>, x: Declaration, s: Reference, declarations: seq<Declaration>, roots: Roots,
      boundaries: seq<Locator>, files: Files, sha: Hash)
    requires Declare(references, roots, files, sha) == Some(declarations) && x in declarations
    requires Canonical(s.locator) == Some(x.locator)
    ensures Classify(s, roots, files, sha) != Some(Verified)
  {
    hide Canonical, IsCanonical, Classify, Within, Declare;
    DeclareExact(references, roots, files, sha);
    var q :| q in references && Classify(q, roots, files, sha) == Some(Retain(x));
    LocatorOf(q, x, roots, files, sha);
    if Classify(s, roots, files, sha) == Some(Verified) {
      VerifiedStaysOutside(s, roots, boundaries, files, sha);
    }
  }

  // ----- agreement -----

  /** The one thing a live reference must not do: lie inside a recorded boundary, unless it
      names the aggregate itself with its true hash. */
  ghost predicate LiveStaysOutside(
      references: seq<Reference>, roots: Roots, boundaries: seq<Locator>, aggregate: Source, files: Files, sha: Hash)
    requires aggregate.path in files
  {
    forall r :: (r in references && Classify(r, roots, files, sha) == Some(Verified)
                 && Inside(Canonical(r.locator).value, boundaries)) ==>
      Canonical(r.locator) == Canonical(aggregate.recorded) && r.digest == sha(files[aggregate.path])
  }

  lemma LiveRowIsExpected(
      references: seq<Reference>, r: Reference, declarations: seq<Declaration>, roots: Roots,
      boundaries: seq<Locator>, files: Files, sha: Hash)
    requires Declare(references, roots, files, sha) == Some(declarations) && Covers(boundaries, declarations)
    requires r in references && Classify(r, roots, files, sha) == Some(Verified)
      && Inside(Canonical(r.locator).value, boundaries)
    requires Declare(references, Roots(boundaries, roots.live), files, sha).Some?
    ensures var l := Canonical(r.locator).value;
            var expected := Digests(Declare(references, Roots(boundaries, roots.live), files, sha).value);
            && l in expected && expected[l] == r.digest
            && (forall d :: d in declarations ==> d.locator != l)
  {
    hide Canonical, IsCanonical, Classify, Within, Declare, Inside;
    var roots2 := Roots(boundaries, roots.live);
    VerifiedStaysOutside(r, roots, boundaries, files, sha);
    DeclareExact(references, roots2, files, sha);
    var found := Declare(references, roots2, files, sha).value;
    SortedIsDistinct(found);
    DigestsExact(found);
    var d := Classify(r, roots2, files, sha).value.declaration;
    assert Declared(references, d, roots2, files, sha);
    forall x | x in declarations
      ensures x.locator != d.locator
    {
      if x.locator == d.locator {
        RetainedIsNotLive(references, x, r, declarations, roots, boundaries, files, sha);
      }
    }
  }

  lemma ExpectedDigests(
      references: seq<Reference>, declarations: seq<Declaration>, roots: Roots, boundaries: seq<Locator>,
      aggregate: Source, files: Files, sha: Hash)
    requires Declare(references, roots, files, sha) == Some(declarations) && Covers(boundaries, declarations)
    requires Canonical(aggregate.recorded).Some? && aggregate.path in files
    requires LiveStaysOutside(references, roots, boundaries, aggregate, files, sha)
    requires forall d :: d in declarations && d.locator == Canonical(aggregate.recorded).value ==>
      d.digest == sha(files[aggregate.path])
    ensures Declare(references, Roots(boundaries, roots.live), files, sha).Some?
    ensures var base := map[Canonical(aggregate.recorded).value := sha(files[aggregate.path])];
            base + Digests(Declare(references, Roots(boundaries, roots.live), files, sha).value) ==
              base + Digests(declarations)
  {
    hide Canonical, IsCanonical, Classify, Within, Declare, Inside, Digests;
    var roots2 := Roots(boundaries, roots.live);
    VerifierDeclares(references, declarations, roots, boundaries, files, sha);
    DeclareExact(references, roots, files, sha);
    DeclareExact(references, roots2, files, sha);
    var found := Declare(references, roots2, files, sha).value;
    SortedIsDistinct(found);
    SortedIsDistinct(declarations);
    DigestsExact(found);
    DigestsExact(declarations);
    forall d | d in found
      ensures || (d.locator in Digests(declarations) && Digests(declarations)[d.locator] == d.digest)
              || (d.locator == Canonical(aggregate.recorded).value && d.digest == sha(files[aggregate.path]))
    {
      var r := VerifierRow(references, d, declarations, roots, boundaries, files, sha);
    }
    forall d | d in declarations
      ensures d.locator in Digests(found) && Digests(found)[d.locator] == d.digest
    {
      var r :| r in references && Classify(r, roots, files, sha) == Some(Retain(d));
      RetainedStays(r, d, roots, boundaries, files, sha);
      assert Declared(references, Classify(r, roots2, files, sha).value.declaration, roots2, files, sha);
    }
    SameOverride(Canonical(aggregate.recorded).value, sha(files[aggregate.path]), Digests(found),
      Digests(declarations));
  }

  lemma SameOverride(key: string, value: string, m: map<string, string>, n: map<string, string>)
    requires forall k :: k in m ==> (k in n && n[k] == m[k]) || (k == key && m[k] == value)
    requires forall k :: k in n ==> k in m && m[k] == n[k]
    ensures map[key := value] + m == map[key := value] + n
  {
  }

  lemma ProducedCovers(
      aggregate: Source, declarations: seq<Declaration>, w: Writing, boundaries: seq<Locator>, files: Files,
      sha: Hash)
    requires Complete(aggregate, declarations, w, files, sha)
    requires forall l :: l in w.seen ==> w.seen[l].boundary in boundaries
    ensures Canonical(aggregate.recorded).Some? && aggregate.path in files
    ensures Covers(boundaries, declarations)
    ensures forall d :: d in declarations && d.locator == Canonical(aggregate.recorded).value ==>
      d.digest == sha(files[aggregate.path])
  {
    hide Canonical, IsCanonical;
  }

  /** On a written manifest the check compares the producer's digests with the verifier's. */
  lemma ClosureFitsIsEquality(
      report: Json, references: seq<Reference>, declarations: seq<Declaration>, aggregate: Source, w: Writing,
      roots: Roots, boundaries: seq<Locator>, files: Files, sha: Hash)
    requires Visit(report) == Some(references) && DistinctKeys(declarations, ByLocator)
    requires RowsListSeen(w, sha) && Complete(aggregate, declarations, w, files, sha)
    requires CanonicalAll(ManifestOf(w.rows).boundaries) == Some(boundaries)
    ensures Canonical(aggregate.recorded).Some? && aggregate.path in files
    ensures var base := map[Canonical(aggregate.recorded).value := sha(files[aggregate.path])];
            var own := Declare(references, Roots(boundaries, roots.live), files, sha);
            ClosureFits(ManifestOf(w.rows), report, aggregate.recorded, files[aggregate.path], roots.live, files, sha)
            <==> own.Some? && base + Digests(declarations) == base + Digests(own.value)
  {
    hide Canonical, IsCanonical, Declare, Digests, Recorded, ManifestOf, Visit, CanonicalAll, RowsListSeen;
    hide DistinctKeys;
    WrittenDigests(w, sha);
    ActualIsExpected(aggregate, declarations, w, files, sha);
  }

  lemma WrittenClosureFits(
      report: Json, references: seq<Reference>, declarations: seq<Declaration>, aggregate: Source, w: Writing,
      roots: Roots, boundaries: seq<Locator>, files: Files, sha: Hash)
    requires Visit(report) == Some(references) && Declare(references, roots, files, sha) == Some(declarations)
    requires RowsListSeen(w, sha) && Complete(aggregate, declarations, w, files, sha)
    requires CanonicalAll(ManifestOf(w.rows).boundaries) == Some(boundaries)
    requires forall l :: l in w.seen ==> w.seen[l].boundary in boundaries
    ensures ClosureFits(ManifestOf(w.rows), report, aggregate.recorded, files[aggregate.path], roots.live, files, sha)
            <==>
            LiveStaysOutside(references, roots, boundaries, aggregate, files, sha)
  {
    hide Canonical, IsCanonical, Classify, Within, Declare, Inside, Digests, Recorded, ManifestOf, Visit, CanonicalAll;
    hide RowsListSeen, Complete, Covers, LiveStaysOutside, ClosureFits, DistinctKeys, StrictlySorted;
    hide Declared, Unclassified, Conflicting, SomeRefused;
    ProducedCovers(aggregate, declarations, w, boundaries, files, sha);
    DeclareExact(references, roots, files, sha);
    SortedIsDistinct(declarations);
    ClosureFitsIsEquality(report, references, declarations, aggregate, w, roots, boundaries, files, sha);
    if LiveStaysOutside(references, roots, boundaries, aggregate, files, sha) {
      ExpectedDigests(references, declarations, roots, boundaries, aggregate, files, sha);
    }
    if ClosureFits(ManifestOf(w.rows), report, aggregate.recorded, files[aggregate.path], roots.live, files, sha) {
      ClosureFitsMeans(references, declarations, aggregate, w, roots, boundaries, files, sha);
    }
  }

  lemma ClosureFitsMeans(
      references: seq<Reference>, declarations: seq<Declaration>, aggregate: Source, w: Writing, roots: Roots,
      boundaries: seq<Locator>, files: Files, sha: Hash)
    requires Declare(references, roots, files, sha) == Some(declarations) && Covers(boundaries, declarations)
    requires Complete(aggregate, declarations, w, files, sha)
    requires Declare(references, Roots(boundaries, roots.live), files, sha).Some?
    requires DistinctKeys(declarations, ByLocator)
    requires map[Canonical(aggregate.recorded).value := sha(files[aggregate.path])] + Digests(declarations)
             == map[Canonical(aggregate.recorded).value := sha(files[aggregate.path])]
                + Digests(Declare(references, Roots(boundaries, roots.live), files, sha).value)
    ensures LiveStaysOutside(references, roots, boundaries, aggregate, files, sha)
  {
    hide Canonical, IsCanonical, Classify, Within, Declare, Inside, Digests;
    DigestsExact(declarations);
    forall r | r in references && Classify(r, roots, files, sha) == Some(Verified)
      ensures Canonical(r.locator).Some?
    {
      VerifiedStaysOutside(r, roots, boundaries, files, sha);
    }
    forall r | r in references && Classify(r, roots, files, sha) == Some(Verified)
      && Inside(Canonical(r.locator).value, boundaries)
      ensures Canonical(r.locator) == Canonical(aggregate.recorded) && r.digest == sha(files[aggregate.path])
    {
      LiveRowIsExpected(references, r, declarations, roots, boundaries, files, sha);
      VerifiedStaysOutside(r, roots, boundaries, files, sha);
      var l := Canonical(r.locator).value;
      var key := Canonical(aggregate.recorded).value;
      var mine := map[key := sha(files[aggregate.path])] + Digests(declarations);
      assert l in mine && mine[l] == r.digest;
    }
  }
}
