/** Where the successors of a gap end. */
module GapChains {
  import opened Prelude
  import opened Coherence
  import opened Relations

  ghost predicate GapsStepByOne(t: Tables) {
    forall k {:trigger t.gaps[k]} :: k in t.gaps ==>
      t.gaps[k].successorGeneration == t.gaps[k].predecessorGeneration + 1
  }

  ghost predicate GapAt(t: Tables, stream: StreamKey, generation: int) {
    exists k {:trigger t.gaps[k]} :: k in t.gaps && t.gaps[k].stream == stream
      && t.gaps[k].predecessorGeneration == generation
  }

  function GapsFrom(t: Tables, stream: StreamKey, generation: int): set<Id> {
    set k | k in t.gaps && t.gaps[k].stream == stream && t.gaps[k].predecessorGeneration >= generation
  }

  /** A generation that is active or was closed with its run. */
  ghost predicate ChainEnd(t: Tables, stream: StreamKey, generation: int) {
    exists id :: GenerationAt(t, id, stream, generation)
      && (t.generations[id].state == Active
          || (t.generations[id].state == Closed && t.generations[id].closeReason == Some("RUN_CLOSED")
              && RunClosing(t, stream.runId)))
  }

  lemma UnreclosedSuccessorEnds(t: Tables, gap: GapRow)
    requires SuccessorOk(t, gap) && !Reclosed(t, gap)
    ensures ChainEnd(t, gap.stream, gap.successorGeneration)
  {
  }

  ghost predicate PassesGaps(t: Tables, stream: StreamKey, from: int, to: int) {
    from <= to && forall n :: from <= n < to ==> GapAt(t, stream, n)
  }

  /** One step along the chain: the gap that reclosed the successor, or the end. */
  lemma NextGap(t: Tables, g: Id) returns (next: Option<Id>)
    requires GapsRelate(t) && g in t.gaps
    ensures next.Some? ==> next.value in t.gaps && t.gaps[next.value].stream == t.gaps[g].stream
                           && t.gaps[next.value].predecessorGeneration == t.gaps[g].successorGeneration
    ensures next.None? ==> ChainEnd(t, t.gaps[g].stream, t.gaps[g].successorGeneration)
  {
    var gap := t.gaps[g];
    if Reclosed(t, gap) {
      var k :| k in t.gaps && t.gaps[k].stream == gap.stream
               && t.gaps[k].predecessorGeneration == gap.successorGeneration;
      next := Some(k);
    } else {
      assert GapOk(t, gap);
      UnreclosedSuccessorEnds(t, gap);
      next := None;
    }
  }

  predicate IsGap(t: Tables, g: Id) { g in t.gaps }

  /** Every gap is either the end of its chain or followed by a gap that starts where it ends. */
  ghost predicate ChainsContinue(t: Tables) {
    forall g {:trigger IsGap(t, g)} :: IsGap(t, g) ==>
      ChainEnd(t, t.gaps[g].stream, t.gaps[g].successorGeneration)
      || exists k {:trigger t.gaps[k]} :: k in t.gaps && t.gaps[k].stream == t.gaps[g].stream
           && t.gaps[k].predecessorGeneration == t.gaps[g].successorGeneration
  }

  lemma AcceptedChainsContinue(t: Tables)
    requires GapsRelate(t)
    ensures ChainsContinue(t)
  {
    forall g | IsGap(t, g)
      ensures ChainEnd(t, t.gaps[g].stream, t.gaps[g].successorGeneration)
              || exists k {:trigger t.gaps[k]} :: k in t.gaps && t.gaps[k].stream == t.gaps[g].stream
                   && t.gaps[k].predecessorGeneration == t.gaps[g].successorGeneration
    {
      var next := NextGap(t, g);
    }
  }

  /** A recorded generation that a gap of its stream closed, for the reason the gap gives. */
  ghost predicate ClosedByGap(t: Tables, stream: StreamKey, generation: int, k: Id, id: Id) {
    && k in t.gaps && t.gaps[k].stream == stream && t.gaps[k].predecessorGeneration == generation
    && GenerationAt(t, id, stream, generation)
    && t.generations[id].state != Active && t.generations[id].closeReason == Some(t.gaps[k].reason)
  }

  ghost predicate SomeGapCloses(t: Tables, stream: StreamKey, generation: int) {
    exists k, id :: ClosedByGap(t, stream, generation, k, id)
  }

  ghost predicate PassesClosed(t: Tables, stream: StreamKey, from: int, to: int) {
    from <= to && forall n :: from <= n < to ==> SomeGapCloses(t, stream, n)
  }

  lemma PassedIsClosed(t: Tables, stream: StreamKey, n: int)
    requires GapsRelate(t) && GapAt(t, stream, n)
    ensures SomeGapCloses(t, stream, n)
  {
    var k :| k in t.gaps && t.gaps[k].stream == stream && t.gaps[k].predecessorGeneration == n;
    assert GapOk(t, t.gaps[k]);
    hide GapsRelate, SuccessorOk;
    var gap := t.gaps[k];
    var id :| GenerationAt(t, id, gap.stream, gap.predecessorGeneration)
              && t.generations[id].state != Active && t.generations[id].closeReason == Some(gap.reason);
    assert ClosedByGap(t, stream, n, k, id);
  }

  /** In an accepted snapshot, following successors from any gap passes only through generations
      that a further gap of the stream closed, for its reason, and ends, after finitely many, at
      a generation that is active or was closed with its run. */
  lemma GapChainEnds(t: Tables, g: Id) returns (last: int)
    requires GapsRelate(t) && GapsStepByOne(t) && g in t.gaps
    ensures PassesClosed(t, t.gaps[g].stream, t.gaps[g].successorGeneration, last)
    ensures ChainEnd(t, t.gaps[g].stream, last)
  {
    hide GapsRelate, ChainsContinue, ChainEnd, GapAt, SomeGapCloses;
    AcceptedChainsContinue(t);
    var stream := t.gaps[g].stream;
    last := FollowGaps(t, stream, g);
    forall n | t.gaps[g].successorGeneration <= n < last
      ensures SomeGapCloses(t, stream, n)
    {
      PassedIsClosed(t, stream, n);
    }
  }

  lemma {:induction false} FollowGaps(t: Tables, stream: StreamKey, g: Id) returns (last: int)
    requires ChainsContinue(t) && GapsStepByOne(t) && g in t.gaps && t.gaps[g].stream == stream
    ensures PassesGaps(t, stream, t.gaps[g].successorGeneration, last)
    ensures ChainEnd(t, stream, last)
    decreases |GapsFrom(t, stream, t.gaps[g].successorGeneration)|
  {
    assert IsGap(t, g);
    last := t.gaps[g].successorGeneration;
    if !ChainEnd(t, stream, last) {
      var k :| k in t.gaps && t.gaps[k].stream == stream && t.gaps[k].predecessorGeneration == last;
      GapsFromShrinks(t, stream, last, k);
      last := FollowGaps(t, stream, k);
      PrependGap(t, stream, k, last);
    }
  }

  lemma PrependGap(t: Tables, stream: StreamKey, k: Id, last: int)
    requires k in t.gaps && t.gaps[k].stream == stream
    requires PassesGaps(t, stream, t.gaps[k].predecessorGeneration + 1, last)
    ensures PassesGaps(t, stream, t.gaps[k].predecessorGeneration, last)
  {
    assert GapAt(t, stream, t.gaps[k].predecessorGeneration);
  }

  lemma GapsFromShrinks(t: Tables, stream: StreamKey, generation: int, k: Id)
    requires k in t.gaps && t.gaps[k].stream == stream && t.gaps[k].predecessorGeneration == generation
    ensures |GapsFrom(t, stream, generation + 1)| < |GapsFrom(t, stream, generation)|
  {
    var after, before := GapsFrom(t, stream, generation + 1), GapsFrom(t, stream, generation);
    assert k in before && k !in after && after <= before - {k};
    SubsetIsNoLarger(after, before - {k});
  }

  lemma {:induction false} SubsetIsNoLarger<T>(a: set<T>, b: set<T>)
    requires a <= b
    ensures |a| <= |b|
  {
    if a != {} {
      var x :| x in a;
      SubsetIsNoLarger(a - {x}, b - {x});
    }
  }
}
