/** The spool comparator field by field: the stored rows an accepted state holds, along the chain
    of cursors and byte counts its observations determine. */
module SpoolFacts {
  import opened Spool

  // ----- numerals -----

  predicate IsNumeral(text: string) {
    text != "" && forall i :: 0 <= i < |text| ==> '0' <= text[i] <= '9'
  }

  /** The number a numeral stands for. */
  function Number(text: string): nat
    requires forall i :: 0 <= i < |text| ==> '0' <= text[i] <= '9'
  {
    if text == "" then 0 else 10 * Number(text[..|text| - 1]) + (text[|text| - 1] - '0') as nat
  }

  /** `str(n)` is the numeral of n without leading zeros. */
  lemma {:induction false} DecimalExact(n: nat)
    ensures IsNumeral(Decimal(n)) && Number(Decimal(n)) == n
    ensures n > 0 ==> Decimal(n)[0] != '0'
    ensures n == 0 ==> Decimal(n) == "0"
  {
    var text := Decimal(n);
    if n < 10 {
      assert text[..0] == "" && text == [Digit(n)];
    } else {
      DecimalExact(n / 10);
      assert text[..|text| - 1] == Decimal(n / 10) && text[|text| - 1] == Digit(n % 10);
    }
  }

  lemma {:induction false} LeadingZeros(count: nat, text: string)
    requires IsNumeral(text)
    ensures IsNumeral(Zeros(count) + text) && Number(Zeros(count) + text) == Number(text)
    decreases |text|
  {
    var whole := Zeros(count) + text;
    assert whole[..|whole| - 1] == Zeros(count) + text[..|text| - 1];
    if |text| == 1 {
      AllZeros(count);
      assert Zeros(count) + text[..0] == Zeros(count);
    } else {
      LeadingZeros(count, text[..|text| - 1]);
    }
  }

  lemma {:induction false} AllZeros(count: nat)
    ensures Number(Zeros(count)) == 0
  {
    if count > 0 {
      assert Zeros(count)[..count - 1] == Zeros(count - 1);
      AllZeros(count - 1);
    }
  }

  /** The stored key of entry i: producer, stream, generation 0 and sequence i + 1, the last two
      as numerals filled with zeros to nineteen digits. */
  lemma KeyExact(i: nat)
    ensures |Key(i)| == 4
    ensures Key(i)[0] == "00000000-0000-4000-8000-000000000003"
    ensures Key(i)[1] == "00000000-0000-4000-8000-000000000002"
    ensures |Key(i)[2]| == 19 && forall k :: 0 <= k < 19 ==> Key(i)[2][k] == '0'
    ensures IsNumeral(Key(i)[3]) && Number(Key(i)[3]) == i + 1
    ensures |Key(i)[3]| >= 19 && (|Key(i)[3]| > 19 ==> Key(i)[3][0] != '0')
  {
    DecimalExact(i + 1);
    var text := Decimal(i + 1);
    if |text| < KEY_WIDTH {
      LeadingZeros(KEY_WIDTH - |text|, text);
    }
  }

  // ----- the accepted state -----

  /** The cursors before, between and after the entries. */
  ghost predicate CursorChain(observations: seq<Observation>, count: nat, step: StepHash, cursors: seq<string>)
    requires count <= |observations|
  {
    && |cursors| == count + 1
    && cursors[0] == "149300a0e3954885a1d6c0f13a9d1101227cc21cce37bd6b7c72eab641741c0c"
    && forall i :: 0 <= i < count ==>
         cursors[i + 1] == step(CursorStep(observations[i].discoveryRunId, observations[i].browserRunId,
                                           Decimal(i + 1), observations[i].contentHash, cursors[i]))
  }

  /** The bytes used before, between and after the entries. */
  ghost predicate ByteChain(observations: seq<Observation>, count: nat, totals: seq<nat>)
    requires count <= |observations|
  {
    && |totals| == count + 1 && totals[0] == 0
    && forall i :: 0 <= i < count ==> totals[i + 1] == totals[i] + |observations[i].encoded|
  }

  /** Entry i in all its fields; its record is sealed over itself. */
  predicate StoredEntry(entry: Entry, raw: Observation, i: nat, before: string, after: string, seal: Seal) {
    entry == Entry(
      "browser-spool-entry/v1",
      Record(true,
             Position(raw.browserRunId, "00000000-0000-4000-8000-000000000003", "00000000-0000-4000-8000-000000000002",
                      "0", Decimal(i + 1)),
             before, after, raw.observationId, raw.contentHash, Decimal(|raw.encoded|), seal(entry.record)),
      raw)
  }

  /** The stored rows in all their fields, along given chains. */
  ghost predicate StoredAs(
      actual: Actual, identity: map<string, string>, observations: seq<Observation>, count: nat, ack: nat, seal: Seal,
      cursors: seq<string>, totals: seq<nat>)
    requires count <= |observations| && |cursors| == |totals| == count + 1
  {
    && identity.Items <= actual.fields.Items
    && |actual.entries| == count && |actual.keys| == count
    && (forall i :: 0 <= i < count ==>
          StoredEntry(actual.entries[i], observations[i], i, cursors[i], cursors[i + 1], seal))
    && (forall i :: 0 <= i < count ==> actual.keys[i] == Key(i))
    && (count == 0 ==> actual.states == [])
    && (count > 0 ==> ack <= count && |actual.states| == 1
                      && StreamRow(actual.states[0], count, ack, cursors, totals))
  }

  ghost predicate AcceptedState(
      actual: Actual, identity: map<string, string>, observations: seq<Observation>, count: nat, ack: nat,
      step: StepHash, seal: Seal, cursors: seq<string>, totals: seq<nat>)
  {
    && count <= |observations|
    && CursorChain(observations, count, step, cursors) && ByteChain(observations, count, totals)
    && StoredAs(actual, identity, observations, count, ack, seal, cursors, totals)
  }

  function Cursors(observations: seq<Observation>, count: nat, step: StepHash): (r: seq<string>)
    requires count <= |observations|
    ensures |r| == count + 1
  {
    seq(count + 1, i requires 0 <= i < count + 1 => Cursor(observations, i, step))
  }

  function Totals(observations: seq<Observation>, count: nat): (r: seq<nat>)
    requires count <= |observations|
    ensures |r| == count + 1
  {
    seq(count + 1, i requires 0 <= i < count + 1 => BytesUsed(observations, i))
  }

  lemma {:induction false} ChainIsUnique(
      observations: seq<Observation>, count: nat, step: StepHash, cursors: seq<string>, n: nat)
    requires count <= |observations| && CursorChain(observations, count, step, cursors) && n <= count
    ensures cursors[n] == Cursor(observations, n, step)
  {
    if n > 0 {
      ChainIsUnique(observations, count, step, cursors, n - 1);
      assert n == (n - 1) + 1;
    }
  }

  lemma {:induction false} TotalIsUnique(observations: seq<Observation>, count: nat, totals: seq<nat>, n: nat)
    requires count <= |observations| && ByteChain(observations, count, totals) && n <= count
    ensures totals[n] == BytesUsed(observations, n)
  {
    if n > 0 {
      TotalIsUnique(observations, count, totals, n - 1);
      assert n == (n - 1) + 1;
    }
  }

  lemma EntryExact(entry: Entry, raw: Observation, i: nat, previous: string, step: StepHash, seal: Seal)
    ensures EntryFits(entry, raw, i, previous, step, seal) <==>
            StoredEntry(entry, raw, i, previous,
                        step(CursorStep(raw.discoveryRunId, raw.browserRunId, Decimal(i + 1), raw.contentHash,
                                        previous)), seal)
  {
    hide Decimal;
  }

  lemma IdentityExact(actual: Actual, identity: map<string, string>)
    ensures Identified(actual, identity) <==> identity.Items <= actual.fields.Items
  {
    if Identified(actual, identity) {
      forall kv | kv in identity.Items
        ensures kv in actual.fields.Items
      {
        assert kv.0 in identity && actual.fields[kv.0] == kv.1;
      }
    }
    if identity.Items <= actual.fields.Items {
      forall f | f in identity
        ensures f in actual.fields && actual.fields[f] == identity[f]
      {
        assert (f, identity[f]) in identity.Items;
      }
    }
  }

  lemma KeysExact(actual: Actual, count: nat)
    ensures actual.keys == Keys(count) <==>
            |actual.keys| == count && forall i :: 0 <= i < count ==> actual.keys[i] == Key(i)
  {
    hide Key;
  }

  lemma ChainsExist(observations: seq<Observation>, count: nat, step: StepHash)
    requires count <= |observations|
    ensures CursorChain(observations, count, step, Cursors(observations, count, step))
    ensures ByteChain(observations, count, Totals(observations, count))
  {
    hide Decimal;
  }

  lemma EntriesExact(
      actual: Actual, observations: seq<Observation>, count: nat, step: StepHash, seal: Seal, cursors: seq<string>)
    requires count <= |observations| && count == |actual.entries|
    requires cursors == Cursors(observations, count, step)
    ensures EntriesFit(actual, observations, count, step, seal) <==>
            forall i :: 0 <= i < count ==>
              StoredEntry(actual.entries[i], observations[i], i, cursors[i], cursors[i + 1], seal)
  {
    hide Decimal, Cursor, EntryFits, StoredEntry, StepOf;
    ChainsExist(observations, count, step);
    forall i | 0 <= i < count
      ensures EntryFits(actual.entries[i], observations[i], i, Cursor(observations, i, step), step, seal) <==>
              StoredEntry(actual.entries[i], observations[i], i, cursors[i], cursors[i + 1], seal)
    {
      EntryExact(actual.entries[i], observations[i], i, cursors[i], step, seal);
    }
    if EntriesFit(actual, observations, count, step, seal) {
      forall i | 0 <= i < count
        ensures StoredEntry(actual.entries[i], observations[i], i, cursors[i], cursors[i + 1], seal)
      {
        assert EntryFits(actual.entries[i], observations[i], i, Cursor(observations, i, step), step, seal);
      }
    }
    if forall i :: 0 <= i < count ==>
         StoredEntry(actual.entries[i], observations[i], i, cursors[i], cursors[i + 1], seal) {
      forall i | 0 <= i < count
        ensures EntryFits(actual.entries[i], observations[i], i, Cursor(observations, i, step), step, seal)
      {
        assert StoredEntry(actual.entries[i], observations[i], i, cursors[i], cursors[i + 1], seal);
      }
    }
  }

  /** The stream row of a written store. */
  predicate StreamRow(state: StreamState, count: nat, ack: nat, cursors: seq<string>, totals: seq<nat>)
    requires ack <= count && |cursors| == |totals| == count + 1
  {
    state == StreamState(
      "browser-stream-state/v1", "00000000-0000-4000-8000-000000000003", "00000000-0000-4000-8000-000000000002", "0",
      Decimal(count + 1), cursors[count], "0", Decimal(ack), cursors[ack], Decimal(totals[count]), "0", "ACTIVE")
  }

  lemma StateExact(observations: seq<Observation>, count: nat, ack: nat, step: StepHash, state: StreamState)
    requires ack <= count <= |observations|
    ensures state == StateOf(observations, count, ack, step) <==>
            StreamRow(state, count, ack, Cursors(observations, count, step), Totals(observations, count))
  {
    hide Decimal, Cursor, BytesUsed;
  }

  lemma StoredIsFitting(
      actual: Actual, identity: map<string, string>, observations: seq<Observation>, count: nat, ack: nat,
      step: StepHash, seal: Seal)
    requires count <= |observations|
    ensures Fits(actual, identity, observations, count, ack, step, seal) <==>
            StoredAs(actual, identity, observations, count, ack, seal, Cursors(observations, count, step),
                     Totals(observations, count))
  {
    hide EntriesFit, Identified, StoredEntry, Keys, StateOf, StreamRow, Cursors, Totals;
    IdentityExact(actual, identity);
    KeysExact(actual, count);
    if |actual.entries| == count {
      EntriesExact(actual, observations, count, step, seal, Cursors(observations, count, step));
    }
    if ack <= count && |actual.states| == 1 {
      StateExact(observations, count, ack, step, actual.states[0]);
    }
  }

  /** The comparator accepts exactly when there is a chain of cursors and one of byte counts along
      the observations such that every stored field is the one these give. */
  lemma ComparatorExact(
      actual: Actual, identity: map<string, string>, observations: seq<Observation>, count: nat, ack: nat,
      step: StepHash, seal: Seal)
    ensures Fits(actual, identity, observations, count, ack, step, seal) <==>
            exists cursors, totals ::
              AcceptedState(actual, identity, observations, count, ack, step, seal, cursors, totals)
  {
    hide Fits, CursorChain, ByteChain, StoredAs;
    if count <= |observations| {
      StoredIsFitting(actual, identity, observations, count, ack, step, seal);
      ChainsExist(observations, count, step);
      if Fits(actual, identity, observations, count, ack, step, seal) {
        assert AcceptedState(actual, identity, observations, count, ack, step, seal,
                             Cursors(observations, count, step), Totals(observations, count));
      }
      if cursors, totals :| AcceptedState(actual, identity, observations, count, ack, step, seal, cursors, totals) {
        SameChains(observations, count, step, cursors, totals);
      }
    } else {
      FitsIsCounted(actual, identity, observations, count, ack, step, seal);
    }
  }

  lemma FitsIsCounted(
      actual: Actual, identity: map<string, string>, observations: seq<Observation>, count: nat, ack: nat,
      step: StepHash, seal: Seal)
    ensures Fits(actual, identity, observations, count, ack, step, seal) ==> count <= |observations|
  {
  }

  lemma SameChains(
      observations: seq<Observation>, count: nat, step: StepHash, cursors: seq<string>, totals: seq<nat>)
    requires count <= |observations|
    requires CursorChain(observations, count, step, cursors) && ByteChain(observations, count, totals)
    ensures cursors == Cursors(observations, count, step) && totals == Totals(observations, count)
  {
    forall n | 0 <= n <= count
      ensures cursors[n] == Cursor(observations, n, step) && totals[n] == BytesUsed(observations, n)
    {
      ChainIsUnique(observations, count, step, cursors, n);
      TotalIsUnique(observations, count, totals, n);
    }
  }
}
