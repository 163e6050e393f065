/** The browser spool read back from IndexedDB and its parent-side comparator
    (tools/run_indexeddb_crash_matrix.py:105-195). Canonical hashes are parameters: `step` for
    a cursor step, `seal` for a spool record. */
module Spool {
  import opened Prelude
  import opened Sorting

  const PRODUCER := "00000000-0000-4000-8000-000000000003"
  const STREAM := "00000000-0000-4000-8000-000000000002"
  const H0 := "149300a0e3954885a1d6c0f13a9d1101227cc21cce37bd6b7c72eab641741c0c"
  const KEY_WIDTH := 19

  /** A sanitized observation; `encoded` is its sorted, compact JSON text in bytes. */
  datatype Observation = Observation(
    discoveryRunId: Id, browserRunId: Id, observationId: Id, contentHash: string, encoded: Bytes)

  datatype Position = Position(browserRunId: Id, producerId: string, streamId: string, generation: string,
    sequence: string)

  /** A spool record; `wellFormed` is the verdict of its JSON schema. */
  datatype Record = Record(
    wellFormed: bool, position: Position, previousCursor: string, cursor: string, observationId: Id,
    observationHash: string, payloadSize: string, contentHash: string)

  datatype Entry = Entry(version: string, record: Record, sanitized: Observation)

  datatype StreamState = StreamState(
    version: string, producerId: string, streamId: string, activeGeneration: string, nextSequence: string,
    lastCursor: string, ackGeneration: string, ackSequence: string, ackCursor: string, normalBytes: string,
    reserveBytes: string, generationState: string)

  datatype Actual = Actual(fields: map<string, string>, entries: seq<Entry>, states: seq<StreamState>,
    keys: seq<seq<string>>)

  datatype CursorStep = CursorStep(
    discoveryRunId: Id, browserRunId: Id, sequence: string, observationHash: string, previous: string)

  type StepHash = CursorStep -> string
  type Seal = Record -> string

  // ----- numerals -----

  function Digit(d: nat): char
    requires d < 10
  {
    '0' + d as char
  }

  /** `str(n)`. */
  function Decimal(n: nat): (r: string)
    ensures r != []
  {
    if n < 10 then [Digit(n)] else Decimal(n / 10) + [Digit(n % 10)]
  }

  function Zeros(count: nat): (r: string)
    ensures |r| == count
  {
    seq(count, i => '0')
  }

  /** `text.zfill(width)` for a numeral without a sign. */
  function ZeroFill(text: string, width: nat): string {
    if |text| >= width then text else Zeros(width - |text|) + text
  }

  function Key(index: nat): seq<string> {
    [PRODUCER, STREAM, Zeros(KEY_WIDTH), ZeroFill(Decimal(index + 1), KEY_WIDTH)]
  }

  // ----- the chain the observations determine -----

  function StepOf(raw: Observation, index: nat, previous: string): CursorStep {
    CursorStep(raw.discoveryRunId, raw.browserRunId, Decimal(index + 1), raw.contentHash, previous)
  }

  /** The cursor after the first n observations. */
  function Cursor(observations: seq<Observation>, n: nat, step: StepHash): string
    requires n <= |observations|
  {
    if n == 0 then H0 else step(StepOf(observations[n - 1], n - 1, Cursor(observations, n - 1, step)))
  }

  function BytesUsed(observations: seq<Observation>, n: nat): nat
    requires n <= |observations|
  {
    if n == 0 then 0 else BytesUsed(observations, n - 1) + |observations[n - 1].encoded|
  }

  function PositionOf(raw: Observation, index: nat): Position {
    Position(raw.browserRunId, PRODUCER, STREAM, "0", Decimal(index + 1))
  }

  /** One stored entry against its observation and the cursor before it. */
  predicate EntryFits(entry: Entry, raw: Observation, index: nat, previous: string, step: StepHash, seal: Seal) {
    var record := entry.record;
    && entry.version == "browser-spool-entry/v1" && entry.sanitized == raw
    && record.wellFormed
    && record.position == PositionOf(raw, index)
    && record.previousCursor == previous
    && record.cursor == step(StepOf(raw, index, previous))
    && record.observationId == raw.observationId && record.observationHash == raw.contentHash
    && record.payloadSize == Decimal(|raw.encoded|)
    && record.contentHash == seal(record)
  }

  function StateOf(observations: seq<Observation>, count: nat, ack: nat, step: StepHash): StreamState
    requires ack <= count <= |observations|
  {
    StreamState(
      "browser-stream-state/v1", PRODUCER, STREAM, "0", Decimal(count + 1), Cursor(observations, count, step), "0",
      Decimal(ack), Cursor(observations, ack, step), Decimal(BytesUsed(observations, count)), "0", "ACTIVE")
  }

  function Keys(count: nat): seq<seq<string>> {
    seq(count, i requires 0 <= i < count => Key(i))
  }

  predicate Identified(actual: Actual, identity: map<string, string>) {
    forall f :: f in identity ==> f in actual.fields && actual.fields[f] == identity[f]
  }

  predicate EntriesFit(actual: Actual, observations: seq<Observation>, count: nat, step: StepHash, seal: Seal)
    requires count <= |observations| && count <= |actual.entries|
  {
    forall i :: 0 <= i < count ==>
      EntryFits(actual.entries[i], observations[i], i, Cursor(observations, i, step), step, seal)
  }

  /** What the comparator accepts: the stored state is the one the observations determine. */
  predicate Fits(
      actual: Actual, identity: map<string, string>, observations: seq<Observation>, count: nat, ack: nat,
      step: StepHash, seal: Seal) {
    && Identified(actual, identity)
    && |actual.entries| == count && |actual.states| == (if count == 0 then 0 else 1)
    && count <= |observations|
    && EntriesFit(actual, observations, count, step, seal)
    && actual.keys == Keys(count)
    && (count > 0 ==> ack <= count && actual.states == [StateOf(observations, count, ack, step)])
  }

  /** The cursor hashes before, between and after the entries, and the bytes they use. */
  datatype Walk = Walk(hashes: seq<string>, byteCount: nat)

  lemma ChainStarts(observations: seq<Observation>, step: StepHash)
    ensures Cursor(observations, 0, step) == H0 && BytesUsed(observations, 0) == 0
  {
  }

  lemma ChainAdvances(observations: seq<Observation>, n: nat, step: StepHash)
    requires n < |observations|
    ensures Cursor(observations, n + 1, step) == step(StepOf(observations[n], n, Cursor(observations, n, step)))
    ensures BytesUsed(observations, n + 1) == BytesUsed(observations, n) + |observations[n].encoded|
  {
  }

  method WalkEntries(entries: seq<Entry>, observations: seq<Observation>, step: StepHash, seal: Seal)
    returns (walk: Option<Walk>)
    ensures walk.Some? <==>
            && |entries| <= |observations|
            && forall i :: 0 <= i < |entries| ==>
              EntryFits(entries[i], observations[i], i, Cursor(observations, i, step), step, seal)
    ensures walk.Some? ==> |walk.value.hashes| == |entries| + 1
    ensures walk.Some? ==> walk.value.byteCount == BytesUsed(observations, |entries|)
    ensures walk.Some? ==> forall i :: 0 <= i <= |entries| ==> walk.value.hashes[i] == Cursor(observations, i, step)
  {
    hide EntryFits, StepOf, Cursor, BytesUsed;
    ChainStarts(observations, step);
    var previous, hashes, byteCount := H0, [H0], 0;
    var index := 0;
    while index < |entries|
      invariant 0 <= index <= |entries| && index <= |observations|
      invariant previous == Cursor(observations, index, step) && byteCount == BytesUsed(observations, index)
      invariant |hashes| == index + 1
      invariant forall i :: 0 <= i <= index ==> hashes[i] == Cursor(observations, i, step)
      invariant forall i :: 0 <= i < index ==>
        EntryFits(entries[i], observations[i], i, Cursor(observations, i, step), step, seal)
    {
      if index >= |observations| {
        return None;
      }
      var raw := observations[index];
      if !EntryFits(entries[index], raw, index, previous, step, seal) {
        return None;
      }
      ChainAdvances(observations, index, step);
      previous := step(StepOf(raw, index, previous));
      hashes := hashes + [previous];
      byteCount := byteCount + |raw.encoded|;
      index := index + 1;
    }
    walk := Some(Walk(hashes, byteCount));
  }

  method CompareIndexedDbState(
      actual: Actual, identity: map<string, string>, observations: seq<Observation>, count: nat, ack: nat,
      step: StepHash, seal: Seal)
    returns (ok: bool)
    ensures ok <==> Fits(actual, identity, observations, count, ack, step, seal)
  {
    hide Decimal, EntryFits, Key, Keys, Identified, Cursor, BytesUsed;
    if !Identified(actual, identity) || |actual.entries| != count || |actual.states| != (if count == 0 then 0 else 1) {
      return false;
    }
    var walk := WalkEntries(actual.entries, observations, step, seal);
    if walk.None? || actual.keys != Keys(count) {
      return false;
    }
    if count == 0 {
      return true;
    }
    if ack > count {
      return false;
    }
    var hashes := walk.value.hashes;
    ok := actual.states == [StreamState(
      "browser-stream-state/v1", PRODUCER, STREAM, "0", Decimal(count + 1), hashes[count], "0",
      Decimal(ack), hashes[ack], Decimal(walk.value.byteCount), "0", "ACTIVE")];
  }

  // ----- an honest store -----

  /** The entry an honest writer stores for observation i; the record is sealed last. */
  function EntryOf(observations: seq<Observation>, i: nat, step: StepHash, seal: Seal): Entry
    requires i < |observations|
  {
    var raw, previous := observations[i], Cursor(observations, i, step);
    var record := Record(
      true, PositionOf(raw, i), previous, step(StepOf(raw, i, previous)), raw.observationId, raw.contentHash,
      Decimal(|raw.encoded|), "");
    Entry("browser-spool-entry/v1", record.(contentHash := seal(record)), raw)
  }

  /** The store after writing all observations and acknowledging `ack` of them. */
  function StoreOf(
      fields: map<string, string>, observations: seq<Observation>, ack: nat, step: StepHash, seal: Seal): Actual
    requires ack <= |observations|
  {
    Actual(
      fields,
      seq(|observations|, i requires 0 <= i < |observations| => EntryOf(observations, i, step, seal)),
      if observations == [] then [] else [StateOf(observations, |observations|, ack, step)],
      Keys(|observations|))
  }

  /** What an honest writer stores is accepted, whatever it observed and however much of it was
      acknowledged, when the seal leaves its own field out. */
  lemma HonestStoreIsAccepted(
      fields: map<string, string>, observations: seq<Observation>, ack: nat, step: StepHash, seal: Seal)
    requires ack <= |observations|
    requires forall r: Record, h: string :: seal(r.(contentHash := h)) == seal(r)
    ensures Fits(StoreOf(fields, observations, ack, step, seal), fields, observations, |observations|, ack, step, seal)
  {
    hide Decimal, Cursor, StepOf, StateOf, Keys;
    forall i | 0 <= i < |observations|
      ensures EntryFits(EntryOf(observations, i, step, seal), observations[i], i, Cursor(observations, i, step), step,
        seal)
    {
    }
  }

  // ----- the cursor binds the whole history -----

  /** No collision among the steps that two histories take at the same position. */
  ghost predicate StepsApart(a: seq<Observation>, b: seq<Observation>, n: nat, step: StepHash)
    requires n <= |a| && n <= |b|
  {
    forall i :: 0 <= i < n ==>
      var s, t := StepOf(a[i], i, Cursor(a, i, step)), StepOf(b[i], i, Cursor(b, i, step));
      step(s) == step(t) ==> s == t
  }

  lemma {:induction false} CursorBindsHistory(a: seq<Observation>, b: seq<Observation>, n: nat, step: StepHash)
    requires n <= |a| && n <= |b| && StepsApart(a, b, n, step)
    requires Cursor(a, n, step) == Cursor(b, n, step)
    ensures forall i :: 0 <= i < n ==>
              && a[i].contentHash == b[i].contentHash && a[i].discoveryRunId == b[i].discoveryRunId
              && a[i].browserRunId == b[i].browserRunId
    ensures forall i :: 0 <= i <= n ==> Cursor(a, i, step) == Cursor(b, i, step)
  {
    hide Cursor, Decimal;
    ChainStarts(a, step);
    ChainStarts(b, step);
    if n > 0 {
      ChainAdvances(a, n - 1, step);
      ChainAdvances(b, n - 1, step);
      var s, t := StepOf(a[n - 1], n - 1, Cursor(a, n - 1, step)), StepOf(b[n - 1], n - 1, Cursor(b, n - 1, step));
      assert step(s) == step(t) ==> s == t;
      assert s == t;
      CursorBindsHistory(a, b, n - 1, step);
    }
  }

  /** Two accepted states with the same number of entries and the same final cursor hold the
      same observation hashes at every position, unless the step hash collides. */
  lemma AcceptedStatesAgree(
      actual1: Actual, observations1: seq<Observation>, actual2: Actual, observations2: seq<Observation>,
      identity1: map<string, string>, identity2: map<string, string>, count: nat, ack1: nat, ack2: nat,
      step: StepHash, seal: Seal)
    requires Fits(actual1, identity1, observations1, count, ack1, step, seal)
    requires Fits(actual2, identity2, observations2, count, ack2, step, seal)
    requires count > 0 && actual1.states[0].lastCursor == actual2.states[0].lastCursor
    requires StepsApart(observations1, observations2, count, step)
    ensures forall i :: 0 <= i < count ==>
              && actual1.entries[i].sanitized.contentHash == actual2.entries[i].sanitized.contentHash
              && actual1.entries[i].record.cursor == actual2.entries[i].record.cursor
              && actual1.entries[i].record.position == actual2.entries[i].record.position
  {
    CursorBindsHistory(observations1, observations2, count, step);
    forall i | 0 <= i < count
      ensures actual1.entries[i].sanitized.contentHash == actual2.entries[i].sanitized.contentHash
      ensures actual1.entries[i].record.cursor == actual2.entries[i].record.cursor
      ensures actual1.entries[i].record.position == actual2.entries[i].record.position
    {
      assert EntryFits(actual1.entries[i], observations1[i], i, Cursor(observations1, i, step), step, seal);
      assert EntryFits(actual2.entries[i], observations2[i], i, Cursor(observations2, i, step), step, seal);
      assert Cursor(observations1, i + 1, step) == Cursor(observations2, i + 1, step);
    }
  }

  // ----- truncation -----

  /** The state without its last entry, its stream row set back accordingly. */
  function Truncated(actual: Actual, observations: seq<Observation>, count: nat, step: StepHash): Actual
    requires 2 <= count == |actual.entries| && |actual.states| == 1 && |actual.keys| == count && count <= |observations|
  {
    var n := count - 1;
    Actual(
      actual.fields, actual.entries[..n],
      [actual.states[0].(nextSequence := Decimal(count), lastCursor := actual.entries[n - 1].record.cursor,
                         normalBytes := Decimal(BytesUsed(observations, n)))],
      actual.keys[..n])
  }

  /** Dropping the last of at least two entries and setting the stream row back is accepted
      against the smaller count exactly when the acknowledgement did not cover that entry: the
      count has to come from outside the store. */
  lemma TruncationIsAccepted(
      actual: Actual, identity: map<string, string>, observations: seq<Observation>, count: nat, ack: nat,
      step: StepHash, seal: Seal)
    requires Fits(actual, identity, observations, count, ack, step, seal) && count >= 2
    ensures |actual.keys| == count
    ensures Fits(Truncated(actual, observations, count, step), identity, observations, count - 1, ack, step, seal)
            <==> ack < count
  {
    var n := count - 1;
    assert EntryFits(actual.entries[n - 1], observations[n - 1], n - 1, Cursor(observations, n - 1, step), step, seal);
    assert actual.entries[n - 1].record.cursor == Cursor(observations, n, step);
    assert Keys(count)[..n] == Keys(n);
  }

  // ----- key order -----

  /** The last `width` decimal digits of n. */
  function Digits(n: nat, width: nat): (r: string)
    ensures |r| == width
  {
    if width == 0 then "" else Digits(n / 10, width - 1) + [Digit(n % 10)]
  }

  function Power(width: nat): (r: nat)
    ensures r > 0
  {
    if width == 0 then 1 else 10 * Power(width - 1)
  }

  lemma {:induction false} ZeroDigits(width: nat)
    ensures Digits(0, width) == Zeros(width)
  {
    if width > 0 {
      ZeroDigits(width - 1);
    }
  }

  lemma {:induction false} ZeroFillIsDigits(n: nat, width: nat)
    requires width > 0 && n < Power(width)
    ensures |Decimal(n)| <= width && ZeroFill(Decimal(n), width) == Digits(n, width)
  {
    if n < 10 {
      ZeroDigits(width - 1);
    } else {
      assert width > 1;
      ZeroFillIsDigits(n / 10, width - 1);
      assert Zeros(width - |Decimal(n)|) + Decimal(n) ==
        Zeros(width - |Decimal(n)|) + Decimal(n / 10) + [Digit(n % 10)];
    }
  }

  lemma {:induction false} LexLastCharacter(p: string, q: string, c: char, d: char)
    requires |p| == |q|
    ensures LexLess(p + [c], q + [d]) <==> LexLess(p, q) || (p == q && c < d)
    decreases |p|
  {
    if p == [] {
      assert [c][1..] == [] && [d][1..] == [];
    } else {
      assert (p + [c])[1..] == p[1..] + [c] && (q + [d])[1..] == q[1..] + [d];
      LexLastCharacter(p[1..], q[1..], c, d);
      assert p == [p[0]] + p[1..] && q == [q[0]] + q[1..];
      LexIrreflexive(p);
    }
  }

  lemma {:induction false} DigitsOrder(a: nat, b: nat, width: nat)
    requires a < Power(width) && b < Power(width)
    ensures LexLess(Digits(a, width), Digits(b, width)) <==> a < b
    ensures Digits(a, width) == Digits(b, width) <==> a == b
  {
    if width > 0 {
      DigitsOrder(a / 10, b / 10, width - 1);
      var p, q := Digits(a / 10, width - 1), Digits(b / 10, width - 1);
      LexLastCharacter(p, q, Digit(a % 10), Digit(b % 10));
      assert Digits(a, width)[..width - 1] == p && Digits(b, width)[..width - 1] == q;
      assert Digits(a, width)[width - 1] == Digit(a % 10) && Digits(b, width)[width - 1] == Digit(b % 10);
    }
  }

  /** Below ten to the nineteenth the string order of the stored sequence keys is the numeric
      order of the sequences. */
  lemma KeyOrderIsNumeric(a: nat, b: nat)
    requires a < Power(KEY_WIDTH) && b < Power(KEY_WIDTH)
    ensures LexLess(ZeroFill(Decimal(a), KEY_WIDTH), ZeroFill(Decimal(b), KEY_WIDTH)) <==> a < b
  {
    ZeroFillIsDigits(a, KEY_WIDTH);
    ZeroFillIsDigits(b, KEY_WIDTH);
    DigitsOrder(a, b, KEY_WIDTH);
  }

  /** So the keys of an accepted state lie in the order in which the store returns them. */
  lemma AcceptedKeysAreOrdered(
      actual: Actual, identity: map<string, string>, observations: seq<Observation>, count: nat, ack: nat,
      step: StepHash, seal: Seal)
    requires Fits(actual, identity, observations, count, ack, step, seal) && count < Power(KEY_WIDTH)
    ensures forall i, j :: 0 <= i < j < |actual.keys| ==>
              |actual.keys[i]| == 4 && |actual.keys[j]| == 4
              && actual.keys[i][..3] == actual.keys[j][..3] && LexLess(actual.keys[i][3], actual.keys[j][3])
  {
    hide Decimal, ZeroFill, Power, LexLess, EntriesFit, StateOf;
    forall i, j | 0 <= i < j < count
      ensures actual.keys[i] == Key(i) && actual.keys[j] == Key(j)
      ensures LexLess(actual.keys[i][3], actual.keys[j][3])
    {
      KeyOrderIsNumeric(i + 1, j + 1);
    }
  }
}
