/** The four-timestamp clock interval (tools/run_clock_vector_qualification.py:425-439), the
    arithmetic of section 8 of RFC 5905 over microsecond readings. */
module ClockInterval {

  /** Readings: t1 and t4 on the source clock, t2 and t3 on the target clock. */
  datatype Raw = Raw(t1: int, t2: int, t3: int, t4: int, sourceResolution: nat, targetResolution: nat)

  datatype Interval = Interval(
    left: int, right: int, rtt: int, padding: int, lower: int, upper: int, midpoint: int, uncertainty: int)

  function Max(a: int, b: int): int {
    if a < b then b else a
  }

  /** `center.numerator // center.denominator` of half the sum: the floor. Dafny's division by
      a positive number is the floor too. */
  function FloorHalf(n: int): int {
    n / 2
  }

  function NumericOracle(raw: Raw): (r: Interval)
    ensures r.midpoint - r.lower <= r.uncertainty && r.upper - r.midpoint <= r.uncertainty
  {
    var backward := raw.t3 < raw.t2 || raw.t4 < raw.t1;
    var left := if backward then 0 else raw.t3 - raw.t4;
    var right := if backward then 0 else raw.t2 - raw.t1;
    var rtt := if backward then 0 else right - left;
    var padding := if backward then 0 else raw.sourceResolution + raw.targetResolution;
    var lower := if backward then 0 else left - padding;
    var upper := if backward then 0 else right + padding;
    var midpoint := FloorHalf(lower + upper);
    Interval(left, right, rtt, padding, lower, upper, midpoint, Max(midpoint - lower, upper - midpoint))
  }

  /** A reading is the last step not after the true time: at most it and less than one
      resolution behind it. A clock of resolution zero is exact. */
  predicate Reads(reading: int, time: real, resolution: nat) {
    reading as real <= time && (time < (reading + resolution) as real || time == reading as real)
  }

  /** One exchange: the request leaves at source time `sent` and the reply comes back at source
      time `returned`; the target receives at target time `arrived` and replies at `answered`;
      the target clock is `offset` ahead of the source clock. */
  datatype Exchange = Exchange(sent: real, arrived: real, answered: real, returned: real, offset: real)

  /** Neither direction takes negative time, and the target replies after it received. */
  predicate Causal(e: Exchange) {
    e.arrived - e.offset >= e.sent && e.returned >= e.answered - e.offset && e.answered >= e.arrived
  }

  predicate Observes(raw: Raw, e: Exchange) {
    && Reads(raw.t1, e.sent, raw.sourceResolution) && Reads(raw.t4, e.returned, raw.sourceResolution)
    && Reads(raw.t2, e.arrived, raw.targetResolution) && Reads(raw.t3, e.answered, raw.targetResolution)
  }

  predicate Forward(raw: Raw) {
    raw.t3 >= raw.t2 && raw.t4 >= raw.t1
  }

  /** The true offset of some causal exchange with these readings. */
  ghost predicate Possible(raw: Raw, offset: real) {
    exists e :: Causal(e) && Observes(raw, e) && e.offset == offset
  }

  /** For every causal exchange and forward readings the true offset lies in the interval and
      within the stated uncertainty of the midpoint, which is half the interval's width rounded
      up; the round trip is the source's elapsed time less the target's. */
  lemma IntervalIsSound(raw: Raw, e: Exchange)
    requires Causal(e) && Observes(raw, e) && Forward(raw)
    ensures var r := NumericOracle(raw);
            && r.lower as real <= e.offset <= r.upper as real
            && r.rtt == (raw.t4 - raw.t1) - (raw.t3 - raw.t2)
            && r.uncertainty == (r.upper - r.lower + 1) / 2
            && -(r.uncertainty as real) <= e.offset - r.midpoint as real <= r.uncertainty as real
  {
    var r := NumericOracle(raw);
    assert e.offset <= e.arrived - e.sent;
    assert e.offset >= e.answered - e.returned;
    assert e.arrived <= (raw.t2 + raw.targetResolution) as real;
    assert e.returned <= (raw.t4 + raw.sourceResolution) as real;
  }

  /** Exactly which offsets the readings leave open: the lower bound gives way by the source
      clock's resolution only, the upper bound by the target clock's. The interval, padded by
      both on either side, is safe but wider than it needs to be. */
  lemma PossibleOffsets(raw: Raw, offset: real)
    requires Forward(raw)
    ensures var r := NumericOracle(raw);
            Possible(raw, offset) <==>
            && ((r.left - raw.sourceResolution) as real < offset || r.left as real <= offset)
            && (offset < (r.right + raw.targetResolution) as real || offset <= r.right as real)
  {
    var r := NumericOracle(raw);
    if Possible(raw, offset) {
      var e :| Causal(e) && Observes(raw, e) && e.offset == offset;
      assert e.offset <= e.arrived - e.sent;
      assert e.offset >= e.answered - e.returned;
    }
    if ((r.left - raw.sourceResolution) as real < offset || r.left as real <= offset)
      && (offset < (r.right + raw.targetResolution) as real || offset <= r.right as real) {
      var arrived := Later(raw.t2 as real, offset + raw.t1 as real);
      var answered := Later(raw.t3 as real, arrived);
      var returned := Later(raw.t4 as real, answered - offset);
      var e := Exchange(raw.t1 as real, arrived, answered, returned, offset);
      assert Causal(e) && Observes(raw, e);
    }
  }

  function Later(a: real, b: real): real {
    if a < b then b else a
  }

  /** The interval lies within `radius` of its midpoint. */
  predicate Covered(r: Interval, radius: int) {
    r.midpoint - radius <= r.lower && r.upper <= r.midpoint + radius
  }

  /** Every column: readings that run backwards on either clock give the zero interval; else the
      bounds are padded by both resolutions, the midpoint is the floor of half their sum, and the
      uncertainty is the least radius around it that covers the interval. */
  lemma IntervalColumns(raw: Raw)
    ensures var r := NumericOracle(raw);
            if raw.t3 < raw.t2 || raw.t4 < raw.t1 then r == Interval(0, 0, 0, 0, 0, 0, 0, 0)
            else
              && r.left == raw.t3 - raw.t4 && r.right == raw.t2 - raw.t1
              && r.rtt == (raw.t4 - raw.t1) - (raw.t3 - raw.t2)
              && r.padding == raw.sourceResolution + raw.targetResolution
              && r.lower == r.left - r.padding && r.upper == r.right + r.padding
              && 2 * r.midpoint <= r.lower + r.upper < 2 * r.midpoint + 2
              && forall radius :: Covered(r, radius) <==> radius >= r.uncertainty
  {
  }
}
