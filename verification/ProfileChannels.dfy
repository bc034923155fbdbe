/**
  The remaining channels of a whole run: temperature, pressure, remaining bottom time and heart rate, which
  stay on once known, and bearing and alarms, which are sent once.
 */
module ProfileChannels {
  import opened Words
  import opened Wrappers
  import opened DtiTables
  import opened DtiCodec
  import opened ProfileSpec
  import opened ProfileLaws

  /** The channels that hold a value and move by deltas, and the tank index that goes with the pressure. */
  datatype Meter = TempMeter | PressureMeter | RbtMeter | HeartMeter | TankMeter

  function GaugeOf(g: Meter, st: Sample): Gauge {
    match g
    case TempMeter => st.temp
    case PressureMeter => st.pressure
    case RbtMeter => st.rbt
    case HeartMeter => st.heartrate
    case TankMeter => Gauge(U32(st.tank), st.pressure.have)
  }

  /** The value a callback carries for the meter. */
  function ReadingOf(g: Meter, t: Token): Option<int> {
    match t
    case WaypointTemp(v) => if g.TempMeter? then Some(v) else None
    case WaypointPressure(v, tank) =>
      if g.PressureMeter? then Some(v) else if g.TankMeter? then Some(ToInt32(U32(tank))) else None
    case WaypointRbt(v) => if g.RbtMeter? then Some(v) else None
    case WaypointHeartRate(v) => if g.HeartMeter? then Some(v) else None
    case _ => None
  }

  function Readings(g: Meter, tokens: seq<Token>): seq<int> {
    if tokens == [] then []
    else (match ReadingOf(g, tokens[0]) case Some(v) => [v] case None => []) + Readings(g, tokens[1..])
  }

  // ---------------------------------------------------------------- what the records say

  /** What a record means for a meter: nothing, a new value, or a change of the value. */
  datatype Change = Keep | Put(v: int) | Add(v: int)

  /** Units: 40 per temperature step and 250 per pressure step. */
  function ChangeOf(g: Meter, e: Entry, r: Record): Change
    requires 1 <= PayloadBits(e)
  {
    match e.kind
    case Temperature => if g.TempMeter? then Scaled(e, r, 40) else Keep
    case Pressure =>
      if g.PressureMeter? then Scaled(e, r, 250) else if g.TankMeter? && e.abs then Put(e.idx) else Keep
    case PressureDepth => if g.PressureMeter? then Add(250 * Signed(r.value / 256, 7)) else Keep
    case Rbt => if g.RbtMeter? then Scaled(e, r, 1) else Keep
    case HeartRate => if g.HeartMeter? then Scaled(e, r, 1) else Keep
    case _ => Keep
  }

  function Scaled(e: Entry, r: Record, unit: int): Change
    requires 1 <= PayloadBits(e)
  {
    if e.abs then Put(unit * r.value) else Add(unit * Signed(r.value, PayloadBits(e)))
  }

  function Changed(total: int, c: Change): int {
    match c
    case Keep => total
    case Put(v) => v
    case Add(v) => total + v
  }

  /** Last absolute value plus all later changes, over the integers; the remaining bottom time starts at 99. */
  function Total(g: Meter, m: Layout, recs: seq<Record>): int
    requires Valid(m) && AllWellFormed(m, recs)
  {
    if recs == [] then (if g.RbtMeter? then 99 else 0)
    else
      var r := recs[|recs| - 1];
      RowOf(m, r.id);
      Changed(Total(g, m, recs[..|recs| - 1]), ChangeOf(g, m.rows[r.id], r))
  }

  /** Whether an absolute value has been seen. */
  predicate Known(g: Meter, m: Layout, recs: seq<Record>)
    requires Valid(m) && AllWellFormed(m, recs)
  {
    recs != [] &&
    var r := recs[|recs| - 1];
    RowOf(m, r.id);
    (ChangeOf(g, m.rows[r.id], r).Put? || Known(g, m, recs[..|recs| - 1]))
  }

  /** One reading for every completed waypoint, once the meter is known. */
  function ExpectedReadings(g: Meter, m: Layout, recs: seq<Record>): seq<int>
    requires Valid(m) && AllWellFormed(m, recs)
  {
    if recs == [] then []
    else
      var r := recs[|recs| - 1];
      ExpectedReadings(g, m, recs[..|recs| - 1])
      + (if Known(g, m, recs) then Repeat(ToInt32(U32(Total(g, m, recs))), WaypointsOf(m.rows[r.id], r)) else [])
  }

  // ---------------------------------------------------------------- one waypoint, one record

  lemma {:induction false} ReadingsConcat(g: Meter, a: seq<Token>, b: seq<Token>)
    ensures Readings(g, a + b) == Readings(g, a) + Readings(g, b)
  {
    hide ReadingOf;
    if a == [] {
      assert a + b == b;
    } else {
      ReadingsConcat(g, a[1..], b);
      assert (a + b)[1..] == a[1..] + b;
      ConcatAssoc(match ReadingOf(g, a[0]) case Some(v) => [v] case None => [], Readings(g, a[1..]), Readings(g, b));
    }
  }

  lemma AlarmUnread(g: Meter, names: seq<AlarmEntry>, i: nat, j: nat)
    requires i < 3 && j < 9
    ensures Readings(g, [AlarmToken(names, i, j)]) == []
  {
  }

  lemma {:induction false} AlarmsUnread(g: Meter, names: seq<AlarmEntry>, alarms: AlarmFlags, k: nat)
    requires k <= 27
    ensures Readings(g, AlarmTokens(names, alarms, k)) == []
  {
    hide AlarmSet, AlarmToken, Readings;
    NothingRead(g);
    if k > 0 {
      AlarmsUnread(g, names, alarms, k - 1);
      AlarmUnread(g, names, (k - 1) / 9, (k - 1) % 9);
      ReadingsConcat(g, AlarmTokens(names, alarms, k - 1),
                     if AlarmSet(alarms, (k - 1) / 9, (k - 1) % 9)
                     then [AlarmToken(names, (k - 1) / 9, (k - 1) % 9)] else []);
    }
  }

  function Opt(have: bool, t: Token): seq<Token> {
    if have then [t] else []
  }

  lemma OptRead(g: Meter, have: bool, t: Token)
    ensures Readings(g, Opt(have, t)) == if have && ReadingOf(g, t).Some? then [ReadingOf(g, t).value] else []
  {
  }

  lemma OnlyPart<T>(a: seq<T>, b: seq<T>, c: seq<T>, d: seq<T>)
    ensures b == c == d == [] ==> a + b + c + d == a
    ensures a == c == d == [] ==> a + b + c + d == b
    ensures a == b == d == [] ==> a + b + c + d == c
    ensures a == b == c == [] ==> a + b + c + d == d
  {
  }

  /** Bearing and alarms are not read by any meter, so four parts of a waypoint remain. */
  lemma ReadingsJoin(g: Meter, a: seq<Token>, b: seq<Token>, c: seq<Token>, d: seq<Token>, e: seq<Token>, f: seq<Token>)
    requires Readings(g, e) == [] && Readings(g, f) == []
    ensures Readings(g, a + b + c + d + e + f) == Readings(g, a) + Readings(g, b) + Readings(g, c) + Readings(g, d)
  {
    hide Readings;
    ReadingsConcat(g, a, b);
    ReadingsConcat(g, a + b, c);
    ReadingsConcat(g, a + b + c, d);
    ReadingsConcat(g, a + b + c + d, e);
    ReadingsConcat(g, a + b + c + d + e, f);
  }

  lemma OtherDataReads(g: Meter, names: seq<AlarmEntry>, st: Sample)
    ensures Readings(g, OtherData(names, st)) ==
      if GaugeOf(g, st).have then [ToInt32(GaugeOf(g, st).value)] else []
  {
    hide Readings, ToInt32, U32, AlarmTokens;
    OptRead(g, st.temp.have, WaypointTemp(ToInt32(st.temp.value)));
    OptRead(g, st.pressure.have, WaypointPressure(ToInt32(st.pressure.value), st.tank));
    OptRead(g, st.rbt.have, WaypointRbt(ToInt32(st.rbt.value)));
    OptRead(g, st.heartrate.have, WaypointHeartRate(ToInt32(st.heartrate.value)));
    OptRead(g, st.bearing.have, WaypointBearing(ToInt32(st.bearing.value)));
    NothingRead(g);
    AlarmsUnread(g, names, st.alarms.flags, 27);
    var temp := Opt(st.temp.have, WaypointTemp(ToInt32(st.temp.value)));
    var pressure := Opt(st.pressure.have, WaypointPressure(ToInt32(st.pressure.value), st.tank));
    var rbt := Opt(st.rbt.have, WaypointRbt(ToInt32(st.rbt.value)));
    var heart := Opt(st.heartrate.have, WaypointHeartRate(ToInt32(st.heartrate.value)));
    ReadingsJoin(g, temp, pressure, rbt, heart,
                 Opt(st.bearing.have, WaypointBearing(ToInt32(st.bearing.value))),
                 if st.alarms.have then AlarmTokens(names, st.alarms.flags, 27) else []);
    OnlyPart(Readings(g, temp), Readings(g, pressure), Readings(g, rbt), Readings(g, heart));
  }

  /** A waypoint reads every known meter once. */
  lemma WaypointReads(g: Meter, names: seq<AlarmEntry>, st: Sample)
    ensures Readings(g, Waypoint(names, st)) ==
      if GaugeOf(g, st).have then [ToInt32(GaugeOf(g, st).value)] else []
  {
    hide Readings, ToInt32, OtherData;
    var time, depth := Opt(true, WaypointTime(ToInt32(st.time))), Opt(st.depth.have, WaypointDepth(st.depth.Shown()));
    OptRead(g, true, WaypointTime(ToInt32(st.time)));
    OptRead(g, st.depth.have, WaypointDepth(st.depth.Shown()));
    OtherDataReads(g, names, st);
    ReadingsConcat(g, time, depth);
    ReadingsConcat(g, time + depth, OtherData(names, st));
  }

  lemma NothingRead(g: Meter)
    ensures Readings(g, []) == []
  {
  }

  lemma {:induction false} DrainReads(g: Meter, names: seq<AlarmEntry>, st: Sample)
    ensures GaugeOf(g, Drain(names, st).state) == GaugeOf(g, st)
    ensures Readings(g, Drain(names, st).tokens) ==
      if GaugeOf(g, st).have then Repeat(ToInt32(GaugeOf(g, st).value), st.complete) else []
    decreases st.complete
  {
    hide Waypoint, ToInt32, U32, ReadingOf;
    if st.complete > 0 {
      DrainReads(g, names, AfterWaypoint(st));
      WaypointReads(g, names, st);
      ReadingsConcat(g, Waypoint(names, st), Drain(names, AfterWaypoint(st)).tokens);
    }
  }

  lemma ApplyMeter(g: Meter, e: Entry, value: nat, svalue: int, st: Sample)
    requires value < 0x1_0000 && (e.kind.Alarms? ==> e.idx < 3)
    ensures GaugeOf(g, Apply(e, value, svalue, st)) ==
      var old' := GaugeOf(g, st);
      match e.kind
      case Temperature =>
        if !g.TempMeter? then old' else if e.abs then old'.Set(U32(value * 40)) else old'.Move(svalue * 40)
      case Pressure =>
        if g.TankMeter? then (if e.abs then Gauge(U32(e.idx), true) else old')
        else if !g.PressureMeter? then old' else if e.abs then old'.Set(U32(value * 250)) else old'.Move(svalue * 250)
      case PressureDepth => if g.PressureMeter? then old'.Move(Signed(svalue / 256 % 256, 8) * 250) else old'
      case Rbt => if !g.RbtMeter? then old' else if e.abs then old'.Set(value) else old'.Move(svalue)
      case HeartRate => if !g.HeartMeter? then old' else if e.abs then old'.Set(value) else old'.Move(svalue)
      case _ => old'
  {
    hide U32, Signed;
  }

  lemma HighPressure(value: nat, svalue: int)
    requires value < 32768 && svalue == Signed(value, 15)
    ensures Signed(svalue / 256 % 256, 8) == Signed(value / 256, 7)
  {
    Fifteen(value, svalue);
    Pow2Values();
  }

  /** A delta record changes the sum, an absolute one replaces it. */
  lemma MovesGauge(old': Gauge, total: int, unit: int, svalue: int)
    requires old'.value == U32(total)
    ensures old'.Move(svalue * unit) == Gauge(U32(total + unit * svalue), old'.have)
  {
    U32Add(total, svalue * unit);
    hide U32;
  }

  lemma SignedRead(e: Entry, value: nat)
    requires 1 <= PayloadBits(e) <= 16
    ensures SignedValue(e, value) == Signed(value, PayloadBits(e))
  {
    hide Signed;
    SignedPayload(value, PayloadBits(e));
  }

  /** One record moves a meter as its change says. */
  lemma RecordMoves(g: Meter, m: Layout, total: int, r: Record, st: Sample)
    requires Valid(m) && WellFormed(m, r) && GaugeOf(g, st).value == U32(total)
    ensures RowOk(m.galileo, r.id, m.rows[r.id])
    ensures var c := ChangeOf(g, m.rows[r.id], r);
      GaugeOf(g, ApplyRecord(m, st, r)) == Gauge(U32(Changed(total, c)), GaugeOf(g, st).have || c.Put?)
  {
    hide Apply, GaugeOf, SignedValue, PayloadBits, Signed, U32, Fits;
    var e, old' := m.rows[r.id], GaugeOf(g, st);
    RowOf(m, r.id);
    ValueInRange(e, r);
    var svalue := SignedValue(e, r.value);
    SignedRead(e, r.value);
    ApplyMeter(g, e, r.value, svalue, st);
    WordOf(r.value);
    MovesGauge(old', total, 1, svalue);
    MovesGauge(old', total, 40, svalue);
    MovesGauge(old', total, 250, svalue);
    if e.kind.PressureDepth? {
      Fits15(e, r);
      HighPressure(r.value, svalue);
      MovesGauge(old', total, 250, Signed(r.value / 256, 7));
    }
  }

  lemma WordOf(x: nat)
    requires x < 0x1_0000
    ensures U32(x) == x
  {
  }

  lemma Fits15(e: Entry, r: Record)
    requires Fits(e, r) && PayloadBits(e) == 15
    ensures r.value < 32768
  {
    Pow2Values();
  }

  // ---------------------------------------------------------------- whole runs

  /** Conservation for every meter over a run after a reset: it holds the last absolute value plus all later
      changes modulo 2^32, it is known exactly when an absolute value was seen, and from then on it is read
      once for every completed waypoint, with that value. */
  lemma {:induction false} MetersConserve(g: Meter, c: Config, recs: seq<Record>)
    requires Valid(c.layout) && AllWellFormed(c.layout, recs)
    ensures var o := Run(c, RESET, recs);
      && GaugeOf(g, o.state) == Gauge(U32(Total(g, c.layout, recs)), Known(g, c.layout, recs))
      && Readings(g, o.tokens) == ExpectedReadings(g, c.layout, recs)
    decreases |recs|
  {
    if recs == [] {
      WordOf(99);
      WordOf(0);
    } else {
      MeterStep(g, c, recs);
    }
  }

  lemma {:induction false} MeterStep(g: Meter, c: Config, recs: seq<Record>)
    requires Valid(c.layout) && AllWellFormed(c.layout, recs) && recs != []
    ensures var o := Run(c, RESET, recs);
      && GaugeOf(g, o.state) == Gauge(U32(Total(g, c.layout, recs)), Known(g, c.layout, recs))
      && Readings(g, o.tokens) == ExpectedReadings(g, c.layout, recs)
    decreases |recs|, 0
  {
    hide Run, Drain, ApplyRecord, Valid, WellFormed, GaugeOf, ChangeOf, U32, ToInt32, Readings, WaypointsOf, Reached;
    var m, init, r := c.layout, recs[..|recs| - 1], recs[|recs| - 1];
    RunLast(c, RESET, recs);
    MetersConserve(g, c, init);
    RunConserves(c, init);
    var before := Run(c, RESET, init);
    var next := ApplyRecord(m, before.state, r);
    ApplyReaches(m, recs, before.state);
    RecordMoves(g, m, Total(g, m, init), r, before.state);
    DrainReads(g, c.alarmNames, next);
    ReadingsConcat(g, before.tokens, Step(c, before.state, r).tokens);
  }

  // ---------------------------------------------------------------- bearing and alarms

  /** Whether a record of the kind has come in since the last waypoint. */
  predicate Due(alarm: bool, m: Layout, recs: seq<Record>)
    requires AllWellFormed(m, recs)
  {
    recs != [] &&
    var r := recs[|recs| - 1];
    var e := m.rows[r.id];
    ((if alarm then e.kind.Alarms? else e.kind.Bearing?)
     || (WaypointsOf(e, r) == 0 && Due(alarm, m, recs[..|recs| - 1])))
  }

  function LastBearing(m: Layout, recs: seq<Record>): nat
    requires AllWellFormed(m, recs)
  {
    if recs == [] then 0
    else
      var r := recs[|recs| - 1];
      if m.rows[r.id].kind.Bearing? then r.value else LastBearing(m, recs[..|recs| - 1])
  }

  /** The flags of alarm group i. */
  function LastAlarms(i: nat, m: Layout, recs: seq<Record>): nat
    requires AllWellFormed(m, recs)
  {
    if recs == [] then 0
    else
      var r := recs[|recs| - 1];
      var e := m.rows[r.id];
      if e.kind.Alarms? && e.idx == i then r.value else LastAlarms(i, m, recs[..|recs| - 1])
  }

  function Flags(m: Layout, recs: seq<Record>): AlarmFlags
    requires AllWellFormed(m, recs)
  {
    [LastAlarms(0, m, recs), LastAlarms(1, m, recs), LastAlarms(2, m, recs)]
  }

  function OneShot(alarm: bool, tokens: seq<Token>): seq<Token> {
    if tokens == [] then []
    else
      (if (if alarm then tokens[0].WaypointAlarm? else tokens[0].WaypointBearing?) then [tokens[0]] else [])
      + OneShot(alarm, tokens[1..])
  }

  /** What is sent with the next waypoint. */
  function Batch(alarm: bool, c: Config, recs: seq<Record>): seq<Token>
    requires AllWellFormed(c.layout, recs)
  {
    if !Due(alarm, c.layout, recs) then []
    else if alarm then AlarmTokens(c.alarmNames, Flags(c.layout, recs), 27)
    else [WaypointBearing(LastBearing(c.layout, recs))]
  }

  /** What is due goes out with the first waypoint that is completed, and with that one only. */
  function ExpectedOnce(alarm: bool, c: Config, recs: seq<Record>): seq<Token>
    requires AllWellFormed(c.layout, recs)
  {
    if recs == [] then []
    else
      var init, r := recs[..|recs| - 1], recs[|recs| - 1];
      ExpectedOnce(alarm, c, init) + if WaypointsOf(c.layout.rows[r.id], r) > 0 then Batch(alarm, c, init) else []
  }

  lemma {:induction false} OneShotConcat(alarm: bool, a: seq<Token>, b: seq<Token>)
    ensures OneShot(alarm, a + b) == OneShot(alarm, a) + OneShot(alarm, b)
  {
    if a == [] {
      assert a + b == b;
    } else {
      OneShotConcat(alarm, a[1..], b);
      assert (a + b)[1..] == a[1..] + b;
      ConcatAssoc(if (if alarm then a[0].WaypointAlarm? else a[0].WaypointBearing?) then [a[0]] else [],
                  OneShot(alarm, a[1..]), OneShot(alarm, b));
    }
  }

  lemma {:induction false} AlarmsOnce(alarm: bool, names: seq<AlarmEntry>, alarms: AlarmFlags, k: nat)
    requires k <= 27
    ensures OneShot(alarm, AlarmTokens(names, alarms, k)) == if alarm then AlarmTokens(names, alarms, k) else []
  {
    hide AlarmSet;
    if k > 0 {
      AlarmsOnce(alarm, names, alarms, k - 1);
      var last := if AlarmSet(alarms, (k - 1) / 9, (k - 1) % 9)
        then [AlarmToken(names, (k - 1) / 9, (k - 1) % 9)] else [];
      OneShotConcat(alarm, AlarmTokens(names, alarms, k - 1), last);
    }
  }

  /** A waypoint callback is sent for bit j of alarm group i exactly when that bit is set. */
  lemma {:induction false} AlarmSentExactly(names: seq<AlarmEntry>, alarms: AlarmFlags, i: nat, j: nat, k: nat)
    requires i < 3 && j < 9 && k <= 27
    ensures (exists t :: t in AlarmTokens(names, alarms, k) && t.WaypointAlarm? && t.index == i && t.bit == j)
      <==> 9 * i + j < k && alarms[i] / Pow2(j) % 2 == 1
  {
    if k > 0 {
      AlarmSentExactly(names, alarms, i, j, k - 1);
      QuotientIs(k - 1, 9, (k - 1) / 9, (k - 1) % 9);
      if 9 * i + j == k - 1 { QuotientIs(k - 1, 9, i, j); }
      hide Pow2;
      if AlarmSet(alarms, (k - 1) / 9, (k - 1) % 9) {
        var t := AlarmToken(names, (k - 1) / 9, (k - 1) % 9);
        assert t in AlarmTokens(names, alarms, k);
      }
    }
  }

  /** What the next waypoint of a state sends once. */
  function Sent(alarm: bool, names: seq<AlarmEntry>, st: Sample): seq<Token> {
    if alarm then (if st.alarms.have then AlarmTokens(names, st.alarms.flags, 27) else [])
    else Opt(st.bearing.have, WaypointBearing(ToInt32(st.bearing.value)))
  }

  lemma OptOnce(alarm: bool, have: bool, t: Token)
    ensures OneShot(alarm, Opt(have, t)) ==
      if have && (if alarm then t.WaypointAlarm? else t.WaypointBearing?) then [t] else []
    ensures OneShot(alarm, []) == []
  {
  }

  /** Only bearing and alarms are sent once. */
  lemma OneShotJoin(x: bool, a: seq<Token>, b: seq<Token>, c: seq<Token>, d: seq<Token>, e: seq<Token>, f: seq<Token>)
    requires OneShot(x, a) == OneShot(x, b) == OneShot(x, c) == OneShot(x, d) == []
    ensures OneShot(x, a + b + c + d + e + f) == OneShot(x, e) + OneShot(x, f)
  {
    hide OneShot;
    OneShotConcat(x, a, b);
    OneShotConcat(x, a + b, c);
    OneShotConcat(x, a + b + c, d);
    OneShotConcat(x, a + b + c + d, e);
    OneShotConcat(x, a + b + c + d + e, f);
  }

  lemma OtherDataOnce(alarm: bool, names: seq<AlarmEntry>, st: Sample)
    ensures OneShot(alarm, OtherData(names, st)) == Sent(alarm, names, st)
  {
    hide OneShot, ToInt32, U32, AlarmTokens;
    OptOnce(alarm, st.temp.have, WaypointTemp(ToInt32(st.temp.value)));
    OptOnce(alarm, st.pressure.have, WaypointPressure(ToInt32(st.pressure.value), st.tank));
    OptOnce(alarm, st.rbt.have, WaypointRbt(ToInt32(st.rbt.value)));
    OptOnce(alarm, st.heartrate.have, WaypointHeartRate(ToInt32(st.heartrate.value)));
    OptOnce(alarm, st.bearing.have, WaypointBearing(ToInt32(st.bearing.value)));
    AlarmsOnce(alarm, names, st.alarms.flags, 27);
    OneShotJoin(alarm,
      Opt(st.temp.have, WaypointTemp(ToInt32(st.temp.value))),
      Opt(st.pressure.have, WaypointPressure(ToInt32(st.pressure.value), st.tank)),
      Opt(st.rbt.have, WaypointRbt(ToInt32(st.rbt.value))),
      Opt(st.heartrate.have, WaypointHeartRate(ToInt32(st.heartrate.value))),
      Opt(st.bearing.have, WaypointBearing(ToInt32(st.bearing.value))),
      if st.alarms.have then AlarmTokens(names, st.alarms.flags, 27) else []);
  }

  lemma WaypointOnce(alarm: bool, names: seq<AlarmEntry>, st: Sample)
    ensures OneShot(alarm, Waypoint(names, st)) == Sent(alarm, names, st)
  {
    hide OneShot, ToInt32, OtherData, Sent;
    var time, depth := Opt(true, WaypointTime(ToInt32(st.time))), Opt(st.depth.have, WaypointDepth(st.depth.Shown()));
    OptOnce(alarm, true, WaypointTime(ToInt32(st.time)));
    OptOnce(alarm, st.depth.have, WaypointDepth(st.depth.Shown()));
    OtherDataOnce(alarm, names, st);
    OneShotConcat(alarm, time, depth);
    OneShotConcat(alarm, time + depth, OtherData(names, st));
  }

  /** Draining sends it with the first waypoint and not again. */
  lemma {:induction false} DrainOnce(alarm: bool, names: seq<AlarmEntry>, st: Sample)
    ensures OneShot(alarm, Drain(names, st).tokens) == if st.complete > 0 then Sent(alarm, names, st) else []
    ensures var end := Drain(names, st).state;
      && end.bearing == Gauge(st.bearing.value, st.bearing.have && st.complete == 0)
      && end.alarms == AlarmState(st.alarms.flags, st.alarms.have && st.complete == 0)
    decreases st.complete
  {
    hide Waypoint, AlarmTokens, ToInt32;
    if st.complete > 0 {
      DrainOnce(alarm, names, AfterWaypoint(st));
      WaypointOnce(alarm, names, st);
      OneShotConcat(alarm, Waypoint(names, st), Drain(names, AfterWaypoint(st)).tokens);
    }
  }

  lemma ApplyOnce(e: Entry, value: nat, svalue: int, st: Sample)
    requires value < 0x1_0000 && (e.kind.Alarms? ==> e.idx < 3)
    ensures var next := Apply(e, value, svalue, st);
      && next.bearing == (if e.kind.Bearing? then Gauge(value, true) else st.bearing)
      && next.alarms == (if e.kind.Alarms? then AlarmState(st.alarms.flags[e.idx := value], true) else st.alarms)
  {
    hide U32, Signed;
  }

  lemma {:induction false} BearingRange(m: Layout, recs: seq<Record>)
    requires Valid(m) && AllWellFormed(m, recs)
    ensures LastBearing(m, recs) < 0x1_0000 && ToInt32(LastBearing(m, recs)) == LastBearing(m, recs)
  {
    hide Fits, PayloadBits;
    if recs != [] {
      var r := recs[|recs| - 1];
      RowOf(m, r.id);
      ValueInRange(m.rows[r.id], r);
      BearingRange(m, recs[..|recs| - 1]);
    }
  }

  /** The one-shot part of the state after a reset and the records. */
  predicate Holds(m: Layout, recs: seq<Record>, st: Sample)
    requires AllWellFormed(m, recs)
  {
    && st.bearing == Gauge(U32(LastBearing(m, recs)), Due(false, m, recs))
    && st.alarms == AlarmState(Flags(m, recs), Due(true, m, recs))
  }

  lemma HeldSent(alarm: bool, c: Config, recs: seq<Record>, st: Sample)
    requires Valid(c.layout) && AllWellFormed(c.layout, recs) && Holds(c.layout, recs, st)
    ensures Sent(alarm, c.alarmNames, st) == Batch(alarm, c, recs)
  {
    hide ToInt32, AlarmTokens, Flags, Due, Valid, WellFormed;
    BearingRange(c.layout, recs);
    WordOf(LastBearing(c.layout, recs));
  }

  /** Over a run after a reset, bearing and alarm callbacks are exactly the batches due: with the first
      waypoint completed after such a record, never repeated, with the flags of all groups as last set. */
  lemma {:induction false} OnceConserves(alarm: bool, c: Config, recs: seq<Record>)
    requires Valid(c.layout) && AllWellFormed(c.layout, recs)
    ensures var o := Run(c, RESET, recs);
      && Holds(c.layout, recs, o.state)
      && OneShot(alarm, o.tokens) == ExpectedOnce(alarm, c, recs)
    decreases |recs|
  {
    if recs == [] {
      WordOf(0);
    } else {
      OnceStep(alarm, c, recs);
    }
  }

  lemma {:induction false} OnceStep(alarm: bool, c: Config, recs: seq<Record>)
    requires Valid(c.layout) && AllWellFormed(c.layout, recs) && recs != []
    ensures var o := Run(c, RESET, recs);
      && Holds(c.layout, recs, o.state)
      && OneShot(alarm, o.tokens) == ExpectedOnce(alarm, c, recs)
    decreases |recs|, 0
  {
    hide Run, Drain, ApplyRecord, Valid, WellFormed, Holds, Batch, Sent, OneShot, WaypointsOf, Reached;
    var m, init, r := c.layout, recs[..|recs| - 1], recs[|recs| - 1];
    RunLast(c, RESET, recs);
    OnceConserves(alarm, c, init);
    RunConserves(c, init);
    var before := Run(c, RESET, init);
    var next := ApplyRecord(m, before.state, r);
    ApplyReaches(m, recs, before.state);
    HeldSent(alarm, c, init, before.state);
    DrainOnce(alarm, c.alarmNames, next);
    RecordHolds(alarm, c, recs, before.state, next, Drain(c.alarmNames, next).state);
    OneShotConcat(alarm, before.tokens, Step(c, before.state, r).tokens);
  }

  lemma RecordHolds(alarm: bool, c: Config, recs: seq<Record>, st: Sample, next: Sample, end: Sample)
    requires Valid(c.layout) && AllWellFormed(c.layout, recs) && recs != []
    requires AllWellFormed(c.layout, recs[..|recs| - 1]) && Holds(c.layout, recs[..|recs| - 1], st)
    requires next == ApplyRecord(c.layout, st, recs[|recs| - 1])
    requires next.complete == WaypointsOf(c.layout.rows[recs[|recs| - 1].id], recs[|recs| - 1])
    requires end.bearing == Gauge(next.bearing.value, next.bearing.have && next.complete == 0)
    requires end.alarms == AlarmState(next.alarms.flags, next.alarms.have && next.complete == 0)
    ensures Holds(c.layout, recs, end)
    ensures next.complete > 0 ==> Sent(alarm, c.alarmNames, next) == Sent(alarm, c.alarmNames, st)
  {
    hide Apply, AlarmTokens, ToInt32, Fits, PayloadBits, SignedValue, U32;
    var r := recs[|recs| - 1];
    var e := c.layout.rows[r.id];
    RowOf(c.layout, r.id);
    ValueInRange(e, r);
    WordOf(r.value);
    ApplyOnce(e, r.value, SignedValue(e, r.value), st);
  }
}
