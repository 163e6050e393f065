/** From a report to a closure that loads, verifies and reads back
    (tools/run_full_repair_qualification.py:40-263, tools/retained_artifact_io.py:97-231). */
module ClosurePipeline {
  import opened Prelude
  import opened Locators
  import opened Evidence
  import opened Declarations
  import opened Closure
  import opened ClosureLaws
  import opened ClosureAgreement
  import opened Sorting

  // ----- the writer always succeeds on what was collected -----

  /** A report may reference its own aggregate, if it names it as it is recorded. */
  predicate AggregateUnambiguous(aggregate: Source, declarations: seq<Declaration>) {
    forall d :: d in declarations && Canonical(aggregate.recorded) == Some(d.locator) ==>
      Canonical(aggregate.boundary) == Some(d.boundary) && aggregate.path == d.locator
  }

  lemma DeclaredIdentity(d: Declaration, files: Files, sha: Hash)
    requires Retained(d, files, sha)
    ensures Canonical(SourceOf(d).recorded) == Some(d.locator)
    ensures IdentityOf(SourceOf(d), files) == Some(Identity(d.boundary, files[d.locator], d.locator))
  {
    hide Canonical, IsCanonical;
    CanonicalFixedPoints(d.locator);
    CanonicalFixedPoints(d.boundary);
  }

  lemma ProducedMembers(aggregate: Source, declarations: seq<Declaration>, s: Source)
    ensures s in Produced(aggregate, declarations) <==>
            s == aggregate || exists d :: d in declarations && s == SourceOf(d)
  {
    hide IsCanonical;
    var sources := Produced(aggregate, declarations);
    if s in sources {
      var i :| 0 <= i < |sources| && sources[i] == s;
      if i > 0 {
        assert declarations[i - 1] in declarations && s == SourceOf(declarations[i - 1]);
      }
    }
    if d :| d in declarations && s == SourceOf(d) {
      var i :| 0 <= i < |declarations| && declarations[i] == d;
      assert sources[i + 1] == s;
    }
    assert sources[0] == aggregate;
  }

  lemma OneDeclarationPerLocator(declarations: seq<Declaration>, d: Declaration, e: Declaration)
    requires DistinctKeys(declarations, ByLocator) && d in declarations && e in declarations && d.locator == e.locator
    ensures d == e
  {
    hide IsCanonical;
    var i :| 0 <= i < |declarations| && declarations[i] == d;
    var j :| 0 <= j < |declarations| && declarations[j] == e;
    assert ByLocator(declarations[i]) == ByLocator(declarations[j]);
  }

  /** Sources of one locator among the produced ones agree. */
  lemma ProducedAgree(aggregate: Source, declarations: seq<Declaration>, s: Source, t: Source, files: Files, sha: Hash)
    requires DistinctKeys(declarations, ByLocator) && AggregateUnambiguous(aggregate, declarations)
    requires forall d :: d in declarations ==> Retained(d, files, sha)
    requires IdentityOf(aggregate, files).Some?
    requires s in Produced(aggregate, declarations) && t in Produced(aggregate, declarations)
    requires Canonical(s.recorded) == Canonical(t.recorded)
    ensures IdentityOf(s, files).Some? && IdentityOf(s, files) == IdentityOf(t, files)
  {
    hide Canonical, IsCanonical, Retained, DistinctKeys, Produced;
    ProducedMembers(aggregate, declarations, s);
    ProducedMembers(aggregate, declarations, t);
    if d :| s != aggregate && d in declarations && s == SourceOf(d) {
      DeclaredIdentity(d, files, sha);
      if e :| t != aggregate && e in declarations && t == SourceOf(e) {
        DeclaredIdentity(e, files, sha);
        OneDeclarationPerLocator(declarations, d, e);
      }
    } else if e :| t != aggregate && e in declarations && t == SourceOf(e) {
      DeclaredIdentity(e, files, sha);
    }
  }

  /** The writer accepts the aggregate and the collected sources exactly when the aggregate is
      readable under canonical names and no declaration gives its locator another identity. */
  lemma ProducedIsWritten(aggregate: Source, declarations: seq<Declaration>, files: Files, sha: Hash)
    requires DistinctKeys(declarations, ByLocator)
    requires forall d :: d in declarations ==> Retained(d, files, sha)
    ensures WriteInventory(Produced(aggregate, declarations), files, sha).Some? <==>
            IdentityOf(aggregate, files).Some? && AggregateUnambiguous(aggregate, declarations)
  {
    hide Canonical, IsCanonical, WriteInventory, Produced, Retained, DistinctKeys, IdentityOf, AggregateUnambiguous;
    var sources := Produced(aggregate, declarations);
    WriteExact(sources, files, sha);
    ProducedMembers(aggregate, declarations, aggregate);
    if IdentityOf(aggregate, files).Some? && AggregateUnambiguous(aggregate, declarations) {
      forall s, t | s in sources && t in sources && Canonical(s.recorded) == Canonical(t.recorded)
        ensures IdentityOf(s, files).Some? && IdentityOf(s, files) == IdentityOf(t, files)
      {
        ProducedAgree(aggregate, declarations, s, t, files, sha);
      }
    }
    if WriteInventory(sources, files, sha).Some? {
      WrittenIsUnambiguous(aggregate, declarations, files, sha);
    }
  }

  lemma WrittenIsUnambiguous(aggregate: Source, declarations: seq<Declaration>, files: Files, sha: Hash)
    requires forall d :: d in declarations ==> Retained(d, files, sha)
    requires WriteInventory(Produced(aggregate, declarations), files, sha).Some?
    ensures AggregateUnambiguous(aggregate, declarations)
  {
    hide Canonical, IsCanonical, WriteInventory, Produced, Retained;
    WriteExact(Produced(aggregate, declarations), files, sha);
    ProducedMembers(aggregate, declarations, aggregate);
    forall d | d in declarations && Canonical(aggregate.recorded) == Some(d.locator)
      ensures Canonical(aggregate.boundary) == Some(d.boundary) && aggregate.path == d.locator
    {
      ProducedMembers(aggregate, declarations, SourceOf(d));
      DeclaredIdentity(d, files, sha);
    }
  }

  // ----- the boundaries of the manifest -----

  /** The boundaries a run records: the aggregate's and those of the declarations. */
  predicate IsRecorded(boundary: Locator, aggregate: Source, declarations: seq<Declaration>) {
    Canonical(aggregate.boundary) == Some(boundary) || exists d :: d in declarations && d.boundary == boundary
  }

  lemma RecordedBoundaries(
      aggregate: Source, declarations: seq<Declaration>, w: Writing, boundaries: seq<Locator>, files: Files, sha: Hash)
    requires Complete(aggregate, declarations, w, files, sha) && Noted(aggregate, w.seen, files)
    requires forall l :: l in w.seen ==> w.seen[l].boundary in boundaries
    requires forall b :: b in boundaries ==> BoundarySeen(w.seen, b)
    ensures forall b: Locator :: b in boundaries <==> IsRecorded(b, aggregate, declarations)
  {
    hide Canonical, IsCanonical;
    var l: Locator := Canonical(aggregate.recorded).value;
    assert Canonical(aggregate.boundary) == Some(w.seen[l].boundary);
    forall b: Locator
      ensures b in boundaries <==> IsRecorded(b, aggregate, declarations)
    {
      if b in boundaries {
        var k :| k in w.seen && w.seen[k].boundary == b;
        if k != l {
          var d :| d in declarations && d.locator == k;
        }
      }
    }
  }

  /** No live reference of the report lies inside a recorded boundary, unless it names the
      aggregate itself with its true hash. */
  ghost predicate LiveOutside(
      references: seq<Reference>, declarations: seq<Declaration>, roots: Roots, aggregate: Source, files: Files,
      sha: Hash)
    requires aggregate.path in files
  {
    forall r, b: Locator :: r in references && Classify(r, roots, files, sha) == Some(Verified)
                            && IsRecorded(b, aggregate, declarations) && Within(Canonical(r.locator).value, b) ==>
      Canonical(r.locator) == Canonical(aggregate.recorded) && r.digest == sha(files[aggregate.path])
  }

  lemma LiveOutsideMeans(
      references: seq<Reference>, declarations: seq<Declaration>, roots: Roots, boundaries: seq<Locator>,
      aggregate: Source,
      files: Files, sha: Hash)
    requires aggregate.path in files
    requires forall b: Locator :: b in boundaries <==> IsRecorded(b, aggregate, declarations)
    ensures LiveStaysOutside(references, roots, boundaries, aggregate, files, sha) <==>
            LiveOutside(references, declarations, roots, aggregate, files, sha)
  {
    hide IsCanonical, IsRecorded, Within, IsDigest;
  }

  // ----- the whole pipeline -----

  /** `_write_closed_inventory`: derive, collect and write; None is an error on the way. */
  function Publish(report: Json, aggregate: Source, roots: Roots, files: Files, sha: Hash): Option<(Manifest, Files)> {
    match Visit(report)
    case None => None
    case Some(references) =>
      match Declare(references, roots, files, sha)
      case None => None
      case Some(declarations) =>
        if exists d :: d in declarations && !Retained(d, files, sha) then None
        else WriteInventory(Produced(aggregate, declarations), files, sha)
  }

  /** The published closure loads and passes the check against its report. */
  predicate Verifies(
      manifest: Manifest, stored: Files, report: Json, aggregate: Source, roots: Roots, files: Files, sha: Hash) {
    && FromManifest(manifest, stored, sha).Some?
    && aggregate.path in files
    && ClosureFits(manifest, report, aggregate.recorded, files[aggregate.path], roots.live, files, sha)
  }

  /** What the report, the roots and the files have to satisfy. */
  ghost predicate Closable(report: Json, aggregate: Source, roots: Roots, files: Files, sha: Hash) {
    && Visit(report).Some? && Declare(Visit(report).value, roots, files, sha).Some?
    && IdentityOf(aggregate, files).Some?
    && var references := Visit(report).value;
       var declarations := Declare(references, roots, files, sha).value;
       && (forall d :: d in declarations ==> Retained(d, files, sha))
       && AggregateUnambiguous(aggregate, declarations)
       && (forall s :: s in Produced(aggregate, declarations) ==> Below(s))
       && SourcesHashApart(Produced(aggregate, declarations), sha)
       && LiveOutside(references, declarations, roots, aggregate, files, sha)
  }

  lemma WrittenAgrees(
      report: Json, references: seq<Reference>, declarations: seq<Declaration>, aggregate: Source, roots: Roots,
      w: Writing, files: Files, sha: Hash)
    requires Visit(report) == Some(references) && Declare(references, roots, files, sha) == Some(declarations)
    requires RowsListSeen(w, sha) && Complete(aggregate, declarations, w, files, sha) && Noted(aggregate, w.seen, files)
    ensures ClosureFits(ManifestOf(w.rows), report, aggregate.recorded, files[aggregate.path], roots.live, files, sha)
            <==>
            LiveOutside(references, declarations, roots, aggregate, files, sha)
  {
    hide IsCanonical, Canonical, Declare, ManifestOf, Visit, ClosureFits, LiveOutside, LiveStaysOutside, RowsListSeen;
    hide CanonicalAll, BoundarySeen, IsRecorded;
    var boundaries := WrittenBoundaries(w, sha);
    WrittenClosureFits(report, references, declarations, aggregate, w, roots, boundaries, files, sha);
    RecordedBoundaries(aggregate, declarations, w, boundaries, files, sha);
    LiveOutsideMeans(references, declarations, roots, boundaries, aggregate, files, sha);
  }

  lemma AggregateNoted(aggregate: Source, declarations: seq<Declaration>, w: Writing, files: Files, sha: Hash)
    requires Written(Produced(aggregate, declarations), w, files, sha)
    ensures Noted(aggregate, w.seen, files)
  {
    hide Canonical, RowsListSeen, StoredMatches, Noted, Produced;
    ProducedMembers(aggregate, declarations, aggregate);
  }

  /** A published closure passes the check against its own report exactly when no live reference
      lies inside a recorded boundary, the aggregate itself excepted. */
  lemma ProducerAndVerifierAgree(
      report: Json, references: seq<Reference>, declarations: seq<Declaration>, aggregate: Source, roots: Roots,
      files: Files, sha: Hash)
    requires Visit(report) == Some(references) && Declare(references, roots, files, sha) == Some(declarations)
    requires forall d :: d in declarations ==> Retained(d, files, sha)
    requires IdentityOf(aggregate, files).Some? && AggregateUnambiguous(aggregate, declarations)
    ensures Publish(report, aggregate, roots, files, sha).Some?
    ensures var (manifest, _) := Publish(report, aggregate, roots, files, sha).value;
            ClosureFits(manifest, report, aggregate.recorded, files[aggregate.path], roots.live, files, sha) <==>
            LiveOutside(references, declarations, roots, aggregate, files, sha)
  {
    hide Canonical, IsCanonical, Declare, WriteInventory, ManifestOf, Visit, Produced, ClosureFits, LiveOutside;
    hide Written;
    hide RowsListSeen, StoredMatches, Retained, AggregateUnambiguous, DistinctKeys, Complete, Noted;
    DeclaredAreDistinct(references, declarations, roots, files, sha);
    ProducedIsWritten(aggregate, declarations, files, sha);
    var w := WriteGives(Produced(aggregate, declarations), files, sha);
    AggregateNoted(aggregate, declarations, w, files, sha);
    ProducedIsComplete(aggregate, declarations, w, files, sha);
    WrittenAgrees(report, references, declarations, aggregate, roots, w, files, sha);
  }

  lemma DeclaredAreDistinct(
      references: seq<Reference>, declarations: seq<Declaration>, roots: Roots, files: Files, sha: Hash)
    requires Declare(references, roots, files, sha) == Some(declarations)
    ensures DistinctKeys(declarations, ByLocator)
  {
    hide Declare, Declared, Unclassified, Conflicting;
    DeclareExact(references, roots, files, sha);
    SortedIsDistinct(declarations);
  }

  lemma PublishFails(report: Json, aggregate: Source, roots: Roots, files: Files, sha: Hash)
    requires Publish(report, aggregate, roots, files, sha).Some?
    ensures Visit(report).Some? && Declare(Visit(report).value, roots, files, sha).Some?
    ensures var declarations := Declare(Visit(report).value, roots, files, sha).value;
            && (forall d :: d in declarations ==> Retained(d, files, sha))
            && IdentityOf(aggregate, files).Some? && AggregateUnambiguous(aggregate, declarations)
            && Publish(report, aggregate, roots, files, sha) ==
              WriteInventory(Produced(aggregate, declarations), files, sha)
  {
    hide Declare, Visit, WriteInventory, Produced, AggregateUnambiguous, IdentityOf, Retained, DistinctKeys;
    var declarations := Declare(Visit(report).value, roots, files, sha).value;
    DeclaredAreDistinct(Visit(report).value, declarations, roots, files, sha);
    ProducedIsWritten(aggregate, declarations, files, sha);
  }

  /** End to end: publishing succeeds and the result loads and verifies exactly when the
      collected files match, the aggregate is unambiguous, every locator lies strictly below
      its boundary, no two locators share a hash and live references stay outside. */
  lemma PipelineExact(report: Json, aggregate: Source, roots: Roots, files: Files, sha: Hash)
    requires forall data :: IsDigest(sha(data))
    ensures var published := Publish(report, aggregate, roots, files, sha);
            published.Some? && Verifies(published.value.0, published.value.1, report, aggregate, roots, files, sha)
            <==>
            Closable(report, aggregate, roots, files, sha)
  {
    hide Declare, Visit, WriteInventory, Produced, AggregateUnambiguous, IdentityOf, Retained, LiveOutside, ClosureFits,
         FromManifest, Below, SourcesHashApart, Publish, IsDigest;
    var published := Publish(report, aggregate, roots, files, sha);
    if published.Some? {
      PublishFails(report, aggregate, roots, files, sha);
      PublishedExact(report, aggregate, roots, files, sha);
    }
    if Closable(report, aggregate, roots, files, sha) {
      var references := Visit(report).value;
      var declarations := Declare(references, roots, files, sha).value;
      ProducerAndVerifierAgree(report, references, declarations, aggregate, roots, files, sha);
    }
  }

  lemma PublishedExact(report: Json, aggregate: Source, roots: Roots, files: Files, sha: Hash)
    requires forall data :: IsDigest(sha(data))
    requires Publish(report, aggregate, roots, files, sha).Some?
    ensures var (manifest, stored) := Publish(report, aggregate, roots, files, sha).value;
            Verifies(manifest, stored, report, aggregate, roots, files, sha) <==>
            Closable(report, aggregate, roots, files, sha)
  {
    hide Declare, Visit, WriteInventory, Produced, AggregateUnambiguous, Retained, LiveOutside, ClosureFits;
    hide FromManifest, Below, SourcesHashApart, Publish, IsDigest;
    PublishFails(report, aggregate, roots, files, sha);
    var references := Visit(report).value;
    var declarations := Declare(references, roots, files, sha).value;
    ProducerAndVerifierAgree(report, references, declarations, aggregate, roots, files, sha);
    WrittenInventoryIsAccepted(Produced(aggregate, declarations), files, sha);
    ProducedMembers(aggregate, declarations, aggregate);
  }

  /** And then every retained file, the aggregate included, reads back with the bytes it had
      when it was published. */
  lemma PipelineReadsBack(report: Json, aggregate: Source, roots: Roots, files: Files, sha: Hash, s: Source)
    requires (forall data :: IsDigest(sha(data))) && Closable(report, aggregate, roots, files, sha)
    requires s in Produced(aggregate, Declare(Visit(report).value, roots, files, sha).value)
    ensures Publish(report, aggregate, roots, files, sha).Some?
    ensures var (manifest, stored) := Publish(report, aggregate, roots, files, sha).value;
            && FromManifest(manifest, stored, sha).Some? && s.path in files
            && ReadBytes(FromManifest(manifest, stored, sha).value, stored, s.recorded, s.boundary, sha) ==
              Some(files[s.path])
  {
    hide Declare, Visit, WriteInventory, Produced, AggregateUnambiguous, Retained, LiveOutside, ClosureFits;
    hide FromManifest, Below, SourcesHashApart, Publish, IsDigest, ReadBytes, Closable;
    PipelineExact(report, aggregate, roots, files, sha);
    PublishFails(report, aggregate, roots, files, sha);
    ReadBack(Produced(aggregate, Declare(Visit(report).value, roots, files, sha).value), files, sha, s);
  }
}
