/** The state-evolution check table by table: which later snapshots it accepts, and what may
    become of a recorded generation. */
module EvolutionFacts {
  import opened Prelude
  import opened Coherence
  import opened Replay
  import opened ReplayLaws
  import opened ReplayFacts
  import opened Evolution

  /** How far a generation has come: active, quarantined, closed. */
  function Stage(s: GenerationState): nat {
    match s
    case Active => 0
    case QuarantinedGap => 1
    case Closed => 2
  }

  /** A generation row that carries its closing columns exactly when it is not active. */
  predicate ProperlyClosed(g: GenerationRow) {
    if Stage(g.state) == 0 then g.closedAt == None && g.closeReason == None
    else g.closedAt != None && g.closeReason != None
  }

  /** A recorded generation is the very same row later, or has come further with every column
      kept but state, closing date and reason. */
  predicate SameOrFurther(a: GenerationRow, b: GenerationRow) {
    a == b || (Stage(a.state) < Stage(b.state)
               && b == GenerationRow(a.id, a.stream, a.generation, a.predecessor, b.state, a.openedAt,
                                     b.closedAt, b.closeReason))
  }

  lemma MoveExact(a: GenerationRow, b: GenerationRow)
    ensures GenerationMoves(a, b) <==> SameOrFurther(a, b) && ProperlyClosed(b)
  {
  }

  ghost predicate GenerationsAdvance(earlier: map<Id, GenerationRow>, later: map<Id, GenerationRow>) {
    && earlier.Keys <= later.Keys
    && forall id :: id in earlier.Keys ==> SameOrFurther(earlier[id], later[id]) && ProperlyClosed(later[id])
  }

  lemma ItemsExact<K, V>(a: map<K, V>, b: map<K, V>)
    ensures Extends(a, b) <==> a.Items <= b.Items
  {
    if Extends(a, b) {
      forall kv | kv in a.Items
        ensures kv in b.Items
      {
        assert kv.0 in a && b[kv.0] == kv.1;
      }
    }
    if a.Items <= b.Items {
      forall k | k in a
        ensures k in b && b[k] == a[k]
      {
        assert (k, a[k]) in a.Items;
      }
    }
  }

  /** Nothing recorded is lost or rewritten in the append-only tables. */
  ghost predicate AppendOnly(a: Tables, b: Tables) {
    && a.gaps.Items <= b.gaps.Items
    && a.bindings.Items <= b.bindings.Items
    && a.generationTransitions.Items <= b.generationTransitions.Items
    && a.epochs.Items <= b.epochs.Items
    && a.transitions.Items <= b.transitions.Items
    && a.shocks.Items <= b.shocks.Items
    && a.freshness.Items <= b.freshness.Items
    && a.proofs.Items <= b.proofs.Items
    && a.mappings <= b.mappings
    && a.closures.Items <= b.closures.Items
    && a.cursors.Items <= b.cursors.Items
    && a.rawCommits.Items <= b.rawCommits.Items
  }

  lemma AppendOnlyExact(a: Tables, b: Tables)
    ensures ContainsRows(a, b) <==> AppendOnly(a, b)
  {
    ItemsExact(a.gaps, b.gaps);
    ItemsExact(a.bindings, b.bindings);
    ItemsExact(a.generationTransitions, b.generationTransitions);
    ItemsExact(a.epochs, b.epochs);
    ItemsExact(a.transitions, b.transitions);
    ItemsExact(a.shocks, b.shocks);
    ItemsExact(a.freshness, b.freshness);
    ItemsExact(a.proofs, b.proofs);
    ItemsExact(a.closures, b.closures);
    ItemsExact(a.cursors, b.cursors);
    ItemsExact(a.rawCommits, b.rawCommits);
  }

  lemma GenerationsExact(a: Tables, b: Tables)
    ensures GenerationsReachable(a, b) <==> GenerationsAdvance(a.generations, b.generations)
  {
    forall id | id in a.generations && id in b.generations
      ensures GenerationMoves(a.generations[id], b.generations[id]) <==>
              SameOrFurther(a.generations[id], b.generations[id]) && ProperlyClosed(b.generations[id])
    {
      MoveExact(a.generations[id], b.generations[id]);
    }
  }

  /** The whole check: same run, same run record, append-only tables, generations that only
      advance, a spool that only grows, and one controller whose new transitions lead, in a
      lawful least-first order, from the earlier row to the later one. */
  lemma EvolutionExact(earlier: Retained, later: Retained)
    requires DistinctIds(later.listed.transitions)
    ensures Evolves(earlier, later) <==>
            && earlier.runId == later.runId
            && earlier.tables.runMeta == later.tables.runMeta
            && AppendOnly(earlier.tables, later.tables)
            && GenerationsAdvance(earlier.tables.generations, later.tables.generations)
            && earlier.spool <= later.spool
            && exists order :: Step(earlier.listed, order, later.listed)
  {
    hide ContainsRows, AppendOnly, GenerationsReachable, GenerationsAdvance, Accepts, Step, DistinctIds;
    AppendOnlyExact(earlier.tables, later.tables);
    GenerationsExact(earlier.tables, later.tables);
    AcceptanceExact(earlier.listed, later.listed);
  }

  /** A snapshot with one recorded generation rewritten. */
  function WithGeneration(r: Retained, id: Id, row: GenerationRow): Retained {
    r.(tables := r.tables.(generations := r.tables.generations[id := row]))
  }

  /** Rewriting one recorded generation, everything else equal, is accepted exactly when the new
      row is the old one or has come further and is properly closed. */
  lemma OneGenerationRewritten(r: Retained, id: Id, row: GenerationRow)
    requires Evolves(r, r) && id in r.tables.generations
    ensures Evolves(r, WithGeneration(r, id, row)) <==>
            SameOrFurther(r.tables.generations[id], row) && ProperlyClosed(row)
  {
    hide ContainsRows, Accepts, AllowedMove, GenerationMoves;
    var s := WithGeneration(r, id, row);
    MoveExact(r.tables.generations[id], row);
    assert s.tables.generations[id] == row;
    UntouchedTablesAreContained(r.tables, s.tables);
  }

  lemma UntouchedTablesAreContained(t: Tables, u: Tables)
    requires u == t.(generations := u.generations)
    ensures ContainsRows(t, u)
  {
    hide ContainsRows;
    AppendOnlyExact(t, u);
  }

  /** A quarantined generation never opens again, and a closed one is final. */
  lemma GenerationsNeverReopen(earlier: Retained, later: Retained, id: Id)
    requires Evolves(earlier, later) && id in earlier.tables.generations
    ensures id in later.tables.generations
    ensures var a, b := earlier.tables.generations[id], later.tables.generations[id];
            && Stage(a.state) <= Stage(b.state)
            && (Stage(a.state) == Stage(b.state) ==> a == b)
            && (b.state.Active? <==> b.closedAt == None && b.closeReason == None)
            && a.id == b.id && a.stream == b.stream && a.generation == b.generation
            && a.predecessor == b.predecessor && a.openedAt == b.openedAt
  {
    hide ContainsRows, Accepts;
    MoveExact(earlier.tables.generations[id], later.tables.generations[id]);
  }
}
