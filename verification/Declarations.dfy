/** The retained locator, boundary and digest of every reference of a report
    (tools/run_full_repair_qualification.py:114-182). `sha` stands for SHA-256 in
    hexadecimal and `files` for the regular files that can be opened, by path. */
module Declarations {
  import opened Prelude
  import opened Evidence
  import opened Locators
  import opened Sorting

  type Files = map<string, Bytes>

  type Hash = Bytes -> string

  datatype Declaration = Declaration(locator: Locator, boundary: Locator, digest: string)

  /** Where references may point: retained boundaries, and live roots that are only checked. */
  datatype Roots = Roots(retained: seq<Locator>, live: seq<Locator>)

  datatype Class = Retain(declaration: Declaration) | Verified

  predicate IsDigest(digest: string) {
    |digest| == 64 && forall c :: c in digest ==> c in "0123456789abcdef"
  }

  /** `max((root for root in roots if path is inside it), key=len)`. */
  function Longest(path: Locator, roots: seq<Locator>): (r: Option<Locator>)
    ensures r.None? <==> forall root :: root in roots ==> !Within(path, root)
    ensures r.Some? ==> r.value in roots && Within(path, r.value)
    ensures r.Some? ==> forall root :: root in roots && Within(path, root) ==> |root| <= |r.value|
  {
    if roots == [] then None
    else
      var rest := Longest(path, roots[1..]);
      assert roots == [roots[0]] + roots[1..];
      if !Within(path, roots[0]) then rest
      else if rest.Some? && |rest.value| > |roots[0]| then rest
      else Some(roots[0])
  }

  /** The chosen boundary depends on the set of boundaries only. */
  lemma LongestIgnoresOrder(path: Locator, roots1: seq<Locator>, roots2: seq<Locator>)
    requires forall root :: root in roots1 <==> root in roots2
    ensures Longest(path, roots1) == Longest(path, roots2)
  {
    var a, b := Longest(path, roots1), Longest(path, roots2);
    if a.Some? && b.Some? {
      EqualLengthRoots(path, a.value, b.value);
    }
  }

  predicate Inside(path: Locator, roots: seq<Locator>) {
    exists root :: root in roots && Within(path, root)
  }

  /** One reference; None is the ValueError that rejects the whole report. */
  function Classify(r: Reference, roots: Roots, files: Files, sha: Hash): Option<Class> {
    if !IsDigest(r.digest) then None
    else
      match Canonical(r.locator)
      case None => None
      case Some(locator) =>
        match Longest(locator, roots.retained)
        case Some(boundary) => Some(Retain(Declaration(locator, boundary, r.digest)))
        case None =>
          if Inside(locator, roots.live) && locator in files && sha(files[locator]) == r.digest
            then Some(Verified) else None
  }

  function ByLocator(d: Declaration): string {
    d.locator
  }

  /** The row already selected for a locator. */
  function Prior(selected: seq<Declaration>, locator: string): (r: Option<Declaration>)
    ensures r.None? <==> forall d :: d in selected ==> d.locator != locator
    ensures r.Some? ==> r.value in selected && r.value.locator == locator
  {
    if selected == [] then None
    else
      assert selected == [selected[0]] + selected[1..];
      if selected[0].locator == locator then Some(selected[0]) else Prior(selected[1..], locator)
  }

  function Select(
      references: seq<Reference>, selected: seq<Declaration>, roots: Roots, files: Files,
      sha: Hash): Option<seq<Declaration>> {
    if references == [] then Some(selected)
    else
      match Classify(references[0], roots, files, sha)
      case None => None
      case Some(Verified) => Select(references[1..], selected, roots, files, sha)
      case Some(Retain(current)) =>
        match Prior(selected, current.locator)
        case None => Select(references[1..], selected + [current], roots, files, sha)
        case Some(prior) => if prior != current then None else Select(references[1..], selected, roots, files, sha)
  }

  function Declare(references: seq<Reference>, roots: Roots, files: Files, sha: Hash): Option<seq<Declaration>> {
    match Select(references, [], roots, files, sha)
    case None => None
    case Some(selected) => Some(SortBy(selected, ByLocator))
  }

  /** The loop of `retained_artifact_declarations`: `selected` is the dictionary in insertion order. */
  method SelectDeclarations(references: seq<Reference>, roots: Roots, files: Files, sha: Hash)
    returns (declarations: Option<seq<Declaration>>)
    ensures declarations == Declare(references, roots, files, sha)
  {
    hide Classify, IsCanonical;
    var selected: seq<Declaration> := [];
    var i := 0;
    while i < |references|
      invariant 0 <= i <= |references|
      invariant Select(references[i..], selected, roots, files, sha) == Select(references, [], roots, files, sha)
    {
      assert references[i..][0] == references[i] && references[i..][1..] == references[i + 1..];
      var kind := Classify(references[i], roots, files, sha);
      if kind.None? {
        return None;
      }
      if kind.value.Retain? {
        var current := kind.value.declaration;
        var prior := Prior(selected, current.locator);
        if prior.Some? && prior.value != current {
          return None;
        }
        if prior.None? {
          selected := selected + [current];
        }
      }
      i := i + 1;
    }
    declarations := Some(SortBy(selected, ByLocator));
  }

  // ----- what the outcome means -----

  ghost predicate Declared(references: seq<Reference>, d: Declaration, roots: Roots, files: Files, sha: Hash) {
    exists r :: r in references && Classify(r, roots, files, sha) == Some(Retain(d))
  }

  /** Why a reference is refused: its digest is malformed, its locator unsupported or under no
      root, or it is live only and the live file is missing or different. */
  predicate Refused(r: Reference, roots: Roots, files: Files, sha: Hash) {
    || !IsDigest(r.digest)
    || Canonical(r.locator).None?
    || (var l: Locator := Canonical(r.locator).value;
        && !Inside(l, roots.retained)
        && (!Inside(l, roots.live) || l !in files || sha(files[l]) != r.digest))
  }

  ghost predicate SomeRefused(references: seq<Reference>, roots: Roots, files: Files, sha: Hash) {
    exists r :: r in references && Refused(r, roots, files, sha)
  }

  lemma RefusedIsUnclassified(references: seq<Reference>, roots: Roots, files: Files, sha: Hash)
    ensures SomeRefused(references, roots, files, sha) <==> Unclassified(references, roots, files, sha)
  {
    hide Canonical, IsCanonical, Within, IsDigest;
    forall r: Reference
      ensures Refused(r, roots, files, sha) <==> Classify(r, roots, files, sha).None?
    {
    }
  }

  ghost predicate Unclassified(references: seq<Reference>, roots: Roots, files: Files, sha: Hash) {
    exists r :: r in references && Classify(r, roots, files, sha).None?
  }

  ghost predicate Conflicting(references: seq<Reference>, roots: Roots, files: Files, sha: Hash) {
    exists d, e :: Declared(references, d, roots, files, sha) && Declared(references, e, roots, files, sha)
                   && d.locator == e.locator && d.digest != e.digest
  }

  /** The boundary is a function of the locator, so two rows of one locator differ only in digest. */
  lemma SameLocatorSameBoundary(
      references: seq<Reference>, d: Declaration, e: Declaration, roots: Roots, files: Files, sha: Hash)
    requires Declared(references, d, roots, files, sha) && Declared(references, e, roots, files, sha)
    requires d.locator == e.locator
    ensures d.boundary == e.boundary
  {
  }

  lemma DeclaredStep(references: seq<Reference>, d: Declaration, roots: Roots, files: Files, sha: Hash)
    requires references != []
    ensures Declared(references, d, roots, files, sha) <==>
            Classify(references[0], roots, files, sha) == Some(Retain(d))
              || Declared(references[1..], d, roots, files, sha)
  {
    assert references == [references[0]] + references[1..];
  }

  lemma UnclassifiedStep(references: seq<Reference>, roots: Roots, files: Files, sha: Hash)
    requires references != []
    ensures Unclassified(references, roots, files, sha) <==>
            Classify(references[0], roots, files, sha).None? || Unclassified(references[1..], roots, files, sha)
  {
    assert references == [references[0]] + references[1..];
  }

  lemma {:induction false} SelectedRows(
      references: seq<Reference>, selected: seq<Declaration>, roots: Roots, files: Files, sha: Hash)
    requires DistinctKeys(selected, ByLocator)
    requires Select(references, selected, roots, files, sha).Some?
    ensures var r := Select(references, selected, roots, files, sha).value;
            && DistinctKeys(r, ByLocator)
            && forall d :: d in r <==> d in selected || Declared(references, d, roots, files, sha)
    ensures !Unclassified(references, roots, files, sha)
  {
    if references != [] {
      var kind := Classify(references[0], roots, files, sha).value;
      var next := if kind.Retain? && Prior(selected, kind.declaration.locator).None?
        then selected + [kind.declaration] else selected;
      SelectedRows(references[1..], next, roots, files, sha);
      UnclassifiedStep(references, roots, files, sha);
      forall d
        ensures d in next || Declared(references[1..], d, roots, files, sha) <==>
                d in selected || Declared(references, d, roots, files, sha)
      {
        DeclaredStep(references, d, roots, files, sha);
      }
    }
  }

  lemma {:induction false} RejectedSelection(
      references: seq<Reference>, selected: seq<Declaration>, roots: Roots, files: Files, sha: Hash)
      returns (d: Declaration, e: Declaration)
    requires Select(references, selected, roots, files, sha).None?
    ensures || Unclassified(references, roots, files, sha)
            || (&& Declared(references, d, roots, files, sha)
                && (e in selected || Declared(references, e, roots, files, sha))
                && d.locator == e.locator && d != e)
  {
    UnclassifiedStep(references, roots, files, sha);
    d, e := *, *;
    var class0 := Classify(references[0], roots, files, sha);
    if class0.Some? {
      var current := if class0.value.Retain? then class0.value.declaration else d;
      var prior := if class0.value.Retain? then Prior(selected, current.locator) else None;
      if prior.Some? && prior.value != current {
        d, e := current, prior.value;
        DeclaredStep(references, d, roots, files, sha);
      } else {
        var next := if class0.value.Retain? && prior.None? then selected + [current] else selected;
        d, e := RejectedSelection(references[1..], next, roots, files, sha);
        DeclaredStep(references, d, roots, files, sha);
        DeclaredStep(references, e, roots, files, sha);
      }
    }
  }

  /** A report is rejected exactly when a reference has a malformed digest, an unsupported or
      unclassifiable locator or a live file that does not match, or when one retained locator
      carries two digests. Otherwise the rows are exactly the retained references, in the
      order of their locators. */
  lemma DeclareExact(references: seq<Reference>, roots: Roots, files: Files, sha: Hash)
    ensures Declare(references, roots, files, sha).None? <==>
            SomeRefused(references, roots, files, sha) || Conflicting(references, roots, files, sha)
    ensures SomeRefused(references, roots, files, sha) <==> Unclassified(references, roots, files, sha)
    ensures var r := Declare(references, roots, files, sha);
            r.Some? ==>
              && StrictlySorted(r.value, ByLocator)
              && forall d :: d in r.value <==> Declared(references, d, roots, files, sha)
  {
    hide Classify, SomeRefused, Unclassified;
    RefusedIsUnclassified(references, roots, files, sha);
    var selected := Select(references, [], roots, files, sha);
    if selected.Some? {
      SelectedRows(references, [], roots, files, sha);
      SortBySorts(selected.value, ByLocator);
      var sorted := SortBy(selected.value, ByLocator);
      assert forall d :: d in sorted <==> d in multiset(selected.value);
    } else {
      var d, e := RejectedSelection(references, [], roots, files, sha);
      if !Unclassified(references, roots, files, sha) {
        SameLocatorSameBoundary(references, d, e, roots, files, sha);
        assert d.digest != e.digest;
      }
    }
  }

  /** Same set of references, same sets of boundaries: same rows or the same rejection. */
  lemma DeclareIgnoresOrder(
      references1: seq<Reference>, references2: seq<Reference>, roots1: Roots, roots2: Roots, files: Files, sha: Hash)
    requires forall r :: r in references1 <==> r in references2
    requires forall root :: root in roots1.retained <==> root in roots2.retained
    requires forall root :: root in roots1.live <==> root in roots2.live
    ensures Declare(references1, roots1, files, sha) == Declare(references2, roots2, files, sha)
  {
    DeclareExact(references1, roots1, files, sha);
    DeclareExact(references2, roots2, files, sha);
    forall r: Reference
      ensures Classify(r, roots1, files, sha) == Classify(r, roots2, files, sha)
    {
      if Canonical(r.locator).Some? {
        LongestIgnoresOrder(Canonical(r.locator).value, roots1.retained, roots2.retained);
      }
    }
    assert forall d :: Declared(references1, d, roots1, files, sha) <==> Declared(references2, d, roots2, files, sha);
    var a, b := Declare(references1, roots1, files, sha), Declare(references2, roots2, files, sha);
    if a.Some? && b.Some? {
      SortedUnique(a.value, b.value, ByLocator);
    }
  }
}
