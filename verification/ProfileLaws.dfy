/**
  Laws of the profile fold over whole runs: splitting, conservation of waypoints and time, and the
  calibrated depth.
 */
module ProfileLaws {
  import opened Words
  import opened Wrappers
  import opened DtiTables
  import opened DtiCodec
  import opened ProfileSpec

  /** Parsing a ++ b is parsing a and then b from the state a leaves. */
  lemma {:induction false} RunSplits(c: Config, st: Sample, a: seq<Record>, b: seq<Record>)
    requires Valid(c.layout) && AllWellFormed(c.layout, a) && AllWellFormed(c.layout, b)
    ensures AllWellFormed(c.layout, a + b)
    ensures var first := Run(c, st, a);
      var second := Run(c, first.state, b);
      Run(c, st, a + b) == Output(second.state, first.tokens + second.tokens)
    decreases |a|
  {
    hide Step, WellFormed, Valid;
    if a == [] {
      assert a + b == b;
    } else {
      var head := Step(c, st, a[0]);
      RunSplits(c, head.state, a[1..], b);
      assert (a + b)[1..] == a[1..] + b;
    }
  }

  lemma RunLast(c: Config, st: Sample, recs: seq<Record>)
    requires Valid(c.layout) && AllWellFormed(c.layout, recs) && recs != []
    ensures AllWellFormed(c.layout, recs[..|recs| - 1])
    ensures var before := Run(c, st, recs[..|recs| - 1]);
      var last := Step(c, before.state, recs[|recs| - 1]);
      Run(c, st, recs) == Output(last.state, before.tokens + last.tokens)
  {
    var init, r := recs[..|recs| - 1], recs[|recs| - 1];
    assert recs == init + [r];
    RunSplits(c, st, init, [r]);
    var before := Run(c, st, init).state;
    assert [r][1..] == [];
    assert Run(c, before, [r]) == Output(Step(c, before, r).state, Step(c, before, r).tokens + []);
  }

  // ---------------------------------------------------------------- channels of the callback sequence

  datatype Channel = TimeChannel | DepthChannel

  function ValueOn(ch: Channel, t: Token): Option<int> {
    match t
    case WaypointTime(v) => if ch.TimeChannel? then Some(v) else None
    case WaypointDepth(v) => if ch.DepthChannel? then Some(v) else None
    case _ => None
  }

  /** The values sent on one channel, in order. */
  function ValuesOn(ch: Channel, tokens: seq<Token>): seq<int> {
    if tokens == [] then []
    else (match ValueOn(ch, tokens[0]) case Some(v) => [v] case None => []) + ValuesOn(ch, tokens[1..])
  }

  lemma {:induction false} ValuesOnConcat(ch: Channel, a: seq<Token>, b: seq<Token>)
    ensures ValuesOn(ch, a + b) == ValuesOn(ch, a) + ValuesOn(ch, b)
  {
    hide ValueOn;
    if a == [] {
      assert a + b == b;
    } else {
      ValuesOnConcat(ch, a[1..], b);
      assert (a + b)[1..] == a[1..] + b;
      ConcatAssoc(match ValueOn(ch, a[0]) case Some(v) => [v] case None => [], ValuesOn(ch, a[1..]), ValuesOn(ch, b));
    }
  }

  predicate Silent(ch: Channel, a: seq<Token>) {
    forall k :: 0 <= k < |a| ==> ValueOn(ch, a[k]).None?
  }

  lemma {:induction false} SilentValues(ch: Channel, a: seq<Token>)
    requires Silent(ch, a)
    ensures ValuesOn(ch, a) == []
  {
    if a != [] { SilentValues(ch, a[1..]); }
  }

  lemma {:induction false} AlarmsSilent(ch: Channel, names: seq<AlarmEntry>, alarms: AlarmFlags, k: nat)
    requires k <= 27
    ensures Silent(ch, AlarmTokens(names, alarms, k))
  {
    if k > 0 { AlarmsSilent(ch, names, alarms, k - 1); }
  }

  lemma OtherDataSilent(ch: Channel, names: seq<AlarmEntry>, st: Sample)
    ensures ValuesOn(ch, OtherData(names, st)) == []
  {
    AlarmsSilent(ch, names, st.alarms.flags, 27);
    SilentValues(ch, OtherData(names, st));
  }

  lemma WaypointValues(names: seq<AlarmEntry>, st: Sample)
    ensures ValuesOn(TimeChannel, Waypoint(names, st)) == [ToInt32(st.time)]
    ensures ValuesOn(DepthChannel, Waypoint(names, st)) == if st.depth.have then [st.depth.Shown()] else []
  {
    hide OtherData;
    var time := [WaypointTime(ToInt32(st.time))];
    var depth := if st.depth.have then [WaypointDepth(st.depth.Shown())] else [];
    var other := OtherData(names, st);
    OtherDataSilent(TimeChannel, names, st);
    OtherDataSilent(DepthChannel, names, st);
    ValuesOnConcat(TimeChannel, time, depth);
    ValuesOnConcat(DepthChannel, time, depth);
    ValuesOnConcat(TimeChannel, time + depth, other);
    ValuesOnConcat(DepthChannel, time + depth, other);
  }

  // ---------------------------------------------------------------- draining

  /** n time stamps four seconds apart, starting at `start`, as the callback receives them. */
  function TimeStamps(start: int, n: nat): (s: seq<int>)
    ensures |s| == n
    ensures forall k :: 0 <= k < n ==> s[k] == ToInt32(U32(start + 4 * k))
  {
    seq(n, k requires 0 <= k < n => ToInt32(U32(start + 4 * k)))
  }

  function Repeat(v: int, n: nat): (s: seq<int>)
    ensures |s| == n
    ensures forall k :: 0 <= k < n ==> s[k] == v
  {
    seq(n, _ => v)
  }

  lemma TimeStampsFirst(start: Word, n: nat)
    requires n > 0
    ensures TimeStamps(start, n) == [ToInt32(start)] + TimeStamps(U32(start + 4), n - 1)
  {
    var s, t := TimeStamps(start, n), TimeStamps(U32(start + 4), n - 1);
    SmallMod(start, TWO_32);
    assert s[0] == ToInt32(start);
    forall i | 0 <= i < n - 1 ensures s[i + 1] == t[i] {
      U32Add(start + 4, 4 * i);
    }
  }

  lemma TimeStampsJoin(n: nat, k: nat)
    ensures TimeStamps(0, n) + TimeStamps(U32(4 * n), k) == TimeStamps(0, n + k)
  {
    var s, t := TimeStamps(0, n) + TimeStamps(U32(4 * n), k), TimeStamps(0, n + k);
    forall i | 0 <= i < n + k ensures s[i] == t[i] {
      if i >= n {
        U32Add(4 * n, 4 * (i - n));
        assert s[i] == TimeStamps(U32(4 * n), k)[i - n];
      }
    }
  }

  lemma {:induction false} DrainState(names: seq<AlarmEntry>, st: Sample)
    ensures var o := Drain(names, st);
      o.state.time == U32(st.time + 4 * st.complete) && o.state.depth == st.depth
    decreases st.complete
  {
    hide Waypoint;
    if st.complete > 0 {
      DrainState(names, AfterWaypoint(st));
      U32Add(st.time + 4, 4 * (st.complete - 1));
    }
  }

  lemma {:induction false} DrainTimes(names: seq<AlarmEntry>, st: Sample)
    ensures ValuesOn(TimeChannel, Drain(names, st).tokens) == TimeStamps(st.time, st.complete)
    decreases st.complete
  {
    hide Waypoint;
    if st.complete > 0 {
      DrainTimes(names, AfterWaypoint(st));
      WaypointValues(names, st);
      ValuesOnConcat(TimeChannel, Waypoint(names, st), Drain(names, AfterWaypoint(st)).tokens);
      TimeStampsFirst(st.time, st.complete);
    }
  }

  lemma {:induction false} DrainDepths(names: seq<AlarmEntry>, st: Sample)
    ensures ValuesOn(DepthChannel, Drain(names, st).tokens) ==
      if st.depth.have then Repeat(st.depth.Shown(), st.complete) else []
    decreases st.complete
  {
    hide Waypoint;
    if st.complete > 0 {
      DrainDepths(names, AfterWaypoint(st));
      WaypointValues(names, st);
      ValuesOnConcat(DepthChannel, Waypoint(names, st), Drain(names, AfterWaypoint(st)).tokens);
    }
  }

  // ---------------------------------------------------------------- the history of a run

  /** Waypoints a record completes: one for a depth, v for a TIME record of value v. */
  function WaypointsOf(e: Entry, r: Record): nat {
    match e.kind
    case Depth => 1
    case PressureDepth => 1
    case Time => r.value
    case _ => 0
  }

  function Waypoints(m: Layout, recs: seq<Record>): nat
    requires AllWellFormed(m, recs)
  {
    if recs == [] then 0
    else
      var r := recs[|recs| - 1];
      Waypoints(m, recs[..|recs| - 1]) + WaypointsOf(m.rows[r.id], r)
  }

  predicate AbsoluteDepth(e: Entry) {
    e.kind.Depth? && e.abs
  }

  /** The raw depth of the first absolute depth record. */
  function FirstAbsolute(m: Layout, recs: seq<Record>): Option<nat>
    requires AllWellFormed(m, recs)
  {
    if recs == [] then None
    else
      var r := recs[|recs| - 1];
      var before := FirstAbsolute(m, recs[..|recs| - 1]);
      if before.None? && AbsoluteDepth(m.rows[r.id]) then Some(r.value) else before
  }

  function DepthChange(e: Entry, r: Record): int
    requires 1 <= PayloadBits(e)
  {
    match e.kind
    case Depth => Signed(r.value, PayloadBits(e))
    case PressureDepth => Signed(r.value, 8)
    case _ => 0
  }

  /** Last absolute raw depth plus all later deltas, over the integers. */
  function RawDepth(m: Layout, recs: seq<Record>): int
    requires Valid(m) && AllWellFormed(m, recs)
  {
    if recs == [] then 0
    else
      var r := recs[|recs| - 1];
      RowOf(m, r.id);
      if AbsoluteDepth(m.rows[r.id]) then r.value
      else RawDepth(m, recs[..|recs| - 1]) + DepthChange(m.rows[r.id], r)
  }

  /** The depth a waypoint completed after `recs` must show: raw depth relative to the first absolute
      raw depth, in units of 1/2, reduced to an int32_t. */
  function CalibratedDepth(m: Layout, recs: seq<Record>): int
    requires Valid(m) && AllWellFormed(m, recs) && FirstAbsolute(m, recs).Some?
  {
    ToInt32(U32(2 * (RawDepth(m, recs) - FirstAbsolute(m, recs).value)))
  }

  function ExpectedDepths(m: Layout, recs: seq<Record>): seq<int>
    requires Valid(m) && AllWellFormed(m, recs)
  {
    if recs == [] then []
    else
      var r := recs[|recs| - 1];
      ExpectedDepths(m, recs[..|recs| - 1])
      + (if FirstAbsolute(m, recs).Some? then Repeat(CalibratedDepth(m, recs), WaypointsOf(m.rows[r.id], r)) else [])
  }

  /** The parser state after a reset and the records `recs`. */
  predicate Reached(m: Layout, recs: seq<Record>, st: Sample)
    requires Valid(m) && AllWellFormed(m, recs)
  {
    var first := FirstAbsolute(m, recs);
    && st.complete == 0
    && st.time == U32(4 * Waypoints(m, recs))
    && st.depth == DepthGauge(U32(2 * RawDepth(m, recs)), first.Some?,
                              if first.Some? then U32(2 * first.value) else 0, first.Some?)
  }

  lemma Fifteen(value: nat, svalue: int)
    requires value < 32768 && svalue == Signed(value, 15)
    ensures svalue % 256 == value % 256
    ensures svalue / 256 == Signed(value / 256, 7)
  {
    Pow2Values();
  }

  lemma DepthPayload(e: Entry, r: Record)
    requires Fits(e, r) && 1 <= PayloadBits(e) <= 16
    requires e.kind.PressureDepth? ==> PayloadBits(e) == 15
    ensures e.kind.Depth? ==> SignedValue(e, r.value) == DepthChange(e, r)
    ensures e.kind.PressureDepth? ==> Signed(SignedValue(e, r.value) % 256, 8) == DepthChange(e, r)
  {
    SignedPayload(r.value, PayloadBits(e));
    if e.kind.PressureDepth? {
      Pow2Values();
      Fifteen(r.value, SignedValue(e, r.value));
      SignedOfMod(r.value);
    }
  }

  lemma SignedOfMod(x: nat)
    ensures Signed(x % 256, 8) == Signed(x, 8)
  {
    Pow2Values();
  }

  /** One record on a state whose depth is the raw depth d: how depth, calibration and completion move. */
  lemma ApplyDepth(m: Layout, d: int, r: Record, st: Sample)
    requires Valid(m) && WellFormed(m, r) && st.depth.value == U32(2 * d) && st.complete == 0
    ensures RowOk(m.galileo, r.id, m.rows[r.id])
    ensures var e := m.rows[r.id];
      var next := ApplyRecord(m, st, r);
      && next.complete == WaypointsOf(e, r)
      && next.time == st.time
      && next.depth ==
           if AbsoluteDepth(e) then st.depth.Set(U32(2 * r.value))
           else st.depth.(value := U32(2 * (d + DepthChange(e, r))))
  {
    hide U32, Signed, FixSignBit, SignedValue, Apply, PayloadBits;
    var e := m.rows[r.id];
    RowOf(m, r.id);
    ValueInRange(e, r);
    DepthPayload(e, r);
    U32Add(2 * d, 2 * DepthChange(e, r));
    if e.kind.Time? { SmallTime(e, r); }
    ApplyDepthRow(e, r.value, SignedValue(e, r.value), st);
  }

  /** The same for smart_parse_dti alone. */
  lemma ApplyDepthRow(e: Entry, value: nat, svalue: int, st: Sample)
    requires value < 0x1_0000 && (e.kind.Alarms? ==> e.idx < 3)
    ensures var next := Apply(e, value, svalue, st);
      && next.time == st.time
      && next.complete ==
           (match e.kind case Depth => 1 case PressureDepth => 1 case Time => value % 256 case _ => st.complete)
      && next.depth == (match e.kind
           case Depth => if e.abs then st.depth.Set(U32(value * 2)) else st.depth.Move(svalue * 2)
           case PressureDepth => st.depth.Move(Signed(svalue % 256, 8) * 2)
           case _ => st.depth)
  {
    hide U32, Signed;
  }

  lemma SmallTime(e: Entry, r: Record)
    requires Fits(e, r) && PayloadBits(e) <= 8
    ensures r.value % 256 == r.value
  {
    Pow2Values();
    Pow2Add(PayloadBits(e), 8 - PayloadBits(e));
    MulMonotone(1, Pow2(8 - PayloadBits(e)), Pow2(PayloadBits(e)));
    SmallMod(r.value, 256);
  }

  /** The shown depth of a reached state is the calibrated depth. */
  lemma ReachedShows(m: Layout, recs: seq<Record>, depth: DepthGauge)
    requires Valid(m) && AllWellFormed(m, recs) && FirstAbsolute(m, recs).Some?
    requires depth.value == U32(2 * RawDepth(m, recs)) && depth.dcal == U32(2 * FirstAbsolute(m, recs).value)
    ensures depth.Shown() == CalibratedDepth(m, recs)
  {
    U32Sub(2 * RawDepth(m, recs), 2 * FirstAbsolute(m, recs).value);
  }

  lemma ApplyReaches(m: Layout, recs: seq<Record>, st: Sample)
    requires Valid(m) && AllWellFormed(m, recs) && recs != []
    requires AllWellFormed(m, recs[..|recs| - 1]) && Reached(m, recs[..|recs| - 1], st)
    ensures var r := recs[|recs| - 1];
      var next := ApplyRecord(m, st, r);
      && next.complete == WaypointsOf(m.rows[r.id], r)
      && next.time == st.time
      && Reached(m, recs, next.(complete := 0, time := U32(st.time + 4 * next.complete)))
  {
    hide ApplyRecord;
    var init, r := recs[..|recs| - 1], recs[|recs| - 1];
    ApplyDepth(m, RawDepth(m, init), r, st);
    U32Add(4 * Waypoints(m, init), 4 * WaypointsOf(m.rows[r.id], r));
    hide U32;
  }

  lemma SameReached(m: Layout, recs: seq<Record>, a: Sample, b: Sample)
    requires Valid(m) && AllWellFormed(m, recs) && Reached(m, recs, a)
    requires a.depth == b.depth && a.time == b.time && a.complete == b.complete
    ensures Reached(m, recs, b)
  {
  }

  lemma StepReaches(c: Config, recs: seq<Record>, st: Sample)
    requires Valid(c.layout) && AllWellFormed(c.layout, recs) && recs != []
    requires AllWellFormed(c.layout, recs[..|recs| - 1]) && Reached(c.layout, recs[..|recs| - 1], st)
    ensures Reached(c.layout, recs, Step(c, st, recs[|recs| - 1]).state)
  {
    hide Drain, ApplyRecord, Valid, WellFormed, Reached;
    var next := ApplyRecord(c.layout, st, recs[|recs| - 1]);
    ApplyReaches(c.layout, recs, st);
    DrainState(c.alarmNames, next);
    SameReached(c.layout, recs, next.(complete := 0, time := U32(st.time + 4 * next.complete)),
                Drain(c.alarmNames, next).state);
  }

  lemma StepValues(c: Config, recs: seq<Record>, st: Sample)
    requires Valid(c.layout) && AllWellFormed(c.layout, recs) && recs != []
    requires AllWellFormed(c.layout, recs[..|recs| - 1]) && Reached(c.layout, recs[..|recs| - 1], st)
    ensures var r := recs[|recs| - 1];
      var tokens := Step(c, st, r).tokens;
      var n := WaypointsOf(c.layout.rows[r.id], r);
      && ValuesOn(TimeChannel, tokens) == TimeStamps(st.time, n)
      && ValuesOn(DepthChannel, tokens) ==
           if FirstAbsolute(c.layout, recs).Some? then Repeat(CalibratedDepth(c.layout, recs), n) else []
  {
    hide Drain, ApplyRecord, Valid, RawDepth, Waypoints, CalibratedDepth;
    var next := ApplyRecord(c.layout, st, recs[|recs| - 1]);
    ApplyReaches(c.layout, recs, st);
    DrainTimes(c.alarmNames, next);
    DrainDepths(c.alarmNames, next);
    if FirstAbsolute(c.layout, recs).Some? {
      ReachedShows(c.layout, recs, next.depth);
    }
  }

  /** Conservation over a whole run after a reset.  The TIME callbacks are 0, 4, 8, ... (modulo 2^32),
      one for each waypoint the records complete; the DEPTH callbacks are exactly the calibrated depths;
      and no unfinished sample is left between records. */
  lemma {:induction false} RunConserves(c: Config, recs: seq<Record>)
    requires Valid(c.layout) && AllWellFormed(c.layout, recs)
    ensures var o := Run(c, RESET, recs);
      && Reached(c.layout, recs, o.state)
      && ValuesOn(TimeChannel, o.tokens) == TimeStamps(0, Waypoints(c.layout, recs))
      && ValuesOn(DepthChannel, o.tokens) == ExpectedDepths(c.layout, recs)
    decreases |recs|
  {
    if recs != [] {
      hide Step, Valid, Reached, CalibratedDepth;
      var init, r := recs[..|recs| - 1], recs[|recs| - 1];
      RunLast(c, RESET, recs);
      RunConserves(c, init);
      var before := Run(c, RESET, init);
      var last := Step(c, before.state, r);
      StepReaches(c, recs, before.state);
      StepValues(c, recs, before.state);
      ValuesOnConcat(TimeChannel, before.tokens, last.tokens);
      ValuesOnConcat(DepthChannel, before.tokens, last.tokens);
      TimeStampsJoin(Waypoints(c.layout, init), WaypointsOf(c.layout.rows[r.id], r));
    }
  }

  /** The first absolute depth of a history is that of any continuation. */
  lemma {:induction false} FirstAbsoluteStays(m: Layout, a: seq<Record>, b: seq<Record>)
    requires AllWellFormed(m, a) && AllWellFormed(m, b) && FirstAbsolute(m, a).Some?
    ensures AllWellFormed(m, a + b) && FirstAbsolute(m, a + b) == FirstAbsolute(m, a)
    decreases |b|
  {
    if b == [] {
      assert a + b == a;
    } else {
      FirstAbsoluteStays(m, a, b[..|b| - 1]);
      assert (a + b)[..|a + b| - 1] == a + b[..|b| - 1];
    }
  }

  lemma StepKeepsCalibration(c: Config, st: Sample, r: Record)
    requires Valid(c.layout) && WellFormed(c.layout, r)
    ensures var next := Step(c, st, r).state.depth;
      if st.depth.calibrated then next.calibrated && next.dcal == st.depth.dcal
      else if AbsoluteDepth(c.layout.rows[r.id]) then next.calibrated && next.dcal == U32(2 * r.value)
      else !next.calibrated && next.dcal == st.depth.dcal
  {
    hide Apply, Drain, SignedValue, U32, Fits, PayloadBits;
    var e := c.layout.rows[r.id];
    RowOf(c.layout, r.id);
    ValueInRange(e, r);
    ApplyDepthRow(e, r.value, SignedValue(e, r.value), st);
    DrainState(c.alarmNames, ApplyRecord(c.layout, st, r));
  }

  /** From any state that is calibrated, no records change the calibration. */
  lemma {:induction false} CalibrationIsFixed(c: Config, st: Sample, recs: seq<Record>)
    requires Valid(c.layout) && AllWellFormed(c.layout, recs) && st.depth.calibrated
    ensures Run(c, st, recs).state.depth.calibrated
    ensures Run(c, st, recs).state.depth.dcal == st.depth.dcal
    decreases |recs|
  {
    hide Step, Valid, WellFormed;
    if recs != [] {
      StepKeepsCalibration(c, st, recs[0]);
      CalibrationIsFixed(c, Step(c, st, recs[0]).state, recs[1..]);
    }
  }

  /** From any state that is not, the first absolute depth record calibrates, for good. */
  lemma {:induction false} FirstAbsoluteCalibrates(c: Config, st: Sample, recs: seq<Record>)
    requires Valid(c.layout) && AllWellFormed(c.layout, recs) && !st.depth.calibrated
    ensures var end, first := Run(c, st, recs).state.depth, FirstAbsolute(c.layout, recs);
      (end.calibrated <==> first.Some?) && (first.Some? ==> end.dcal == U32(2 * first.value))
    decreases |recs|
  {
    hide Step, Valid, WellFormed, U32;
    if recs != [] {
      var front, r := recs[..|recs| - 1], recs[|recs| - 1];
      RunLast(c, st, recs);
      FirstAbsoluteCalibrates(c, st, front);
      StepKeepsCalibration(c, Run(c, st, front).state, r);
    }
  }

  /** A combined record built from a 7-bit signed pressure change and an 8-bit signed depth change
      moves pressure by 250 times the first and depth by twice the second. */
  lemma CombinedRecord(e: Entry, pressure: int, depth: int, st: Sample)
    requires e.kind.PressureDepth? && PayloadBits(e) == 15
    requires -64 <= pressure < 64 && -128 <= depth < 128
    ensures var value := pressure % 128 * 256 + depth % 256;
      && 0 <= value < Pow2(15)
      && Apply(e, value, SignedValue(e, value), st) ==
           st.(pressure := st.pressure.Move(pressure * 250), depth := st.depth.Move(depth * 2), complete := 1)
  {
    Pow2Values();
    var value := pressure % 128 * 256 + depth % 256;
    SignedPayload(value, 15);
    Fifteen(value, SignedValue(e, value));
    assert value / 256 == pressure % 128 && value % 256 == depth % 256;
    assert Signed(value / 256, 7) == pressure;
    var svalue := SignedValue(e, value);
    assert Signed(svalue / 256 % 256, 8) == pressure;
    assert Signed(svalue % 256, 8) == depth;
  }
}
