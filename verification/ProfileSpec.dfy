/**
  What decoded records mean: the sample state of the parser, the effect of one record on it, and
  the waypoint callbacks it produces, as a pure fold over the record list.
 */
module ProfileSpec {
  import opened Words
  import opened Wrappers
  import opened DtiTables
  import opened DtiCodec

  datatype AlarmEntry = AlarmEntry(idx: nat, mask: nat, name: string)

  const TEC2G_ALARMS: seq<AlarmEntry> := [AlarmEntry(0, 2, "ascent"), AlarmEntry(0, 4, "bookmark")]

  /** What smart_parser_create selects for a model besides the header size. */
  datatype Config = Config(layout: Layout, alarmNames: seq<AlarmEntry>)

  function ConfigOf(model: Model): Config {
    Config(LayoutOf(model), if model.AladinTec2G? then TEC2G_ALARMS else [])
  }

  /** The uint16_t alarms[3] member. */
  type AlarmFlags = a: seq<nat> | |a| == 3 witness [0, 0, 0]

  /** A channel value and its have_* flag. */
  datatype Gauge = Gauge(value: Word, have: bool) {
    function Set(v: Word): Gauge { Gauge(v, true) }
    function Move(delta: int): Gauge { Gauge(U32(value + delta), have) }
  }

  /** Depth with its calibration: dcal is fixed by the first absolute depth. */
  datatype DepthGauge = DepthGauge(value: Word, have: bool, dcal: Word, calibrated: bool) {
    function Set(v: Word): DepthGauge { DepthGauge(v, true, if calibrated then dcal else v, true) }
    function Move(delta: int): DepthGauge { DepthGauge(U32(value + delta), have, dcal, calibrated) }
    function Shown(): int { ToInt32(U32(value - dcal)) }
  }

  datatype AlarmState = AlarmState(flags: AlarmFlags, have: bool)

  /** The mutable part of the parser. */
  datatype Sample = Sample(
    time: Word, complete: nat, depth: DepthGauge, temp: Gauge, pressure: Gauge, tank: nat,
    rbt: Gauge, heartrate: Gauge, bearing: Gauge, alarms: AlarmState)

  const RESET: Sample := Sample(
    0, 0, DepthGauge(0, false, 0, false), Gauge(0, false), Gauge(0, false), 0,
    Gauge(99, false), Gauge(0, false), Gauge(0, false), AlarmState([0, 0, 0], false))

  /** Waypoint callbacks: token, int32_t value, and index or name where one is passed. */
  datatype Token =
    | WaypointTime(value: int)
    | WaypointDepth(value: int)
    | WaypointTemp(value: int)
    | WaypointPressure(value: int, tank: nat)
    | WaypointRbt(value: int)
    | WaypointHeartRate(value: int)
    | WaypointBearing(value: int)
    | WaypointAlarm(bit: nat, index: nat, name: string)

  /** smart_fixsignbit for the bit counts that occur: the low n bits, sign-extended to 32 bits. */
  function FixSignBit(x: nat, n: nat): Word
    requires 1 <= n <= 16
  {
    Pow2Bound(n);
    var low := x % Pow2(n);
    if x / Pow2(n - 1) % 2 == 1 then low + (TWO_32 - Pow2(n)) else low
  }

  /** Sign extension is the two's-complement reading of the payload bits. */
  lemma SignedPayload(x: nat, n: nat)
    requires 1 <= n <= 16
    ensures ToInt32(FixSignBit(x, n)) == Signed(x, n)
    ensures 0 - Pow2(n - 1) <= Signed(x, n) < Pow2(n - 1)
    ensures (Signed(x, n) - x) % Pow2(n) == 0
  {
    var half, full := Pow2(n - 1), Pow2(n);
    assert full == 2 * half;
    Pow2Bound(n);
    HalfBit(x, half);
    Congruent(x, Signed(x, n), full);
  }

  lemma Congruent(x: int, y: int, d: int)
    requires d >= 1 && (y == x % d || y == x % d - d)
    ensures (y - x) % d == 0
  {
    DivMod(x, d);
    var q := x / d;
    var k := if y == x % d then -q else -q - 1;
    assert (-q) * d == -(q * d) && (-q - 1) * d == -(q * d) - d;
    assert y - x == k * d;
    ModOfMultiple(k, d);
  }

  lemma Pow2Bound(n: nat)
    requires n <= 16
    ensures Pow2(n) <= 0x1_0000
  {
    Pow2Values();
    Pow2Add(n, 16 - n);
    MulMonotone(1, Pow2(16 - n), Pow2(n));
  }

  lemma HalfBit(x: nat, half: int)
    requires half >= 1
    ensures x / half % 2 == 1 <==> x % (2 * half) >= half
  {
    var q, r := x / (2 * half), x % (2 * half);
    DivMod(x, 2 * half);
    assert x == q * (2 * half) + r;
    if r < half {
      QuotientIs(x, half, 2 * q, r);
    } else {
      QuotientIs(x, half, 2 * q + 1, r - half);
    }
  }

  lemma ModOfMultiple(q: int, d: int)
    requires d >= 1
    ensures q * d % d == 0
  {
    QuotientIs(q * d, d, q, 0);
  }

  function SignedValue(e: Entry, value: nat): int
    requires 1 <= PayloadBits(e) <= 16
  {
    ToInt32(FixSignBit(value, PayloadBits(e)))
  }

  /** smart_parse_dti. */
  function Apply(e: Entry, value: nat, svalue: int, st: Sample): Sample
    requires value < 0x1_0000 && (e.kind.Alarms? ==> e.idx < 3)
  {
    match e.kind
    case PressureDepth =>
      st.(pressure := st.pressure.Move(Signed(svalue / 256 % 256, 8) * 250),
          depth := st.depth.Move(Signed(svalue % 256, 8) * 2),
          complete := 1)
    case Rbt => st.(rbt := if e.abs then st.rbt.Set(value) else st.rbt.Move(svalue))
    case Temperature => st.(temp := if e.abs then st.temp.Set(U32(value * 40)) else st.temp.Move(svalue * 40))
    case Pressure =>
      st.(pressure := if e.abs then st.pressure.Set(U32(value * 250)) else st.pressure.Move(svalue * 250),
          tank := if e.abs then e.idx else st.tank)
    case Depth =>
      st.(depth := if e.abs then st.depth.Set(U32(value * 2)) else st.depth.Move(svalue * 2), complete := 1)
    case HeartRate => st.(heartrate := if e.abs then st.heartrate.Set(value) else st.heartrate.Move(svalue))
    case Bearing => st.(bearing := st.bearing.Set(value))
    case Alarms => st.(alarms := AlarmState(st.alarms.flags[e.idx := value], true))
    case Time => st.(complete := value % 256)
  }

  /** alarm_name; the mask argument is a uint8_t. */
  function AlarmName(names: seq<AlarmEntry>, idx: nat, mask: nat): Option<string> {
    if names == [] then None
    else if names[0].idx == idx && names[0].mask == mask then Some(names[0].name)
    else AlarmName(names[1..], idx, mask)
  }

  function AlarmToken(names: seq<AlarmEntry>, i: nat, j: nat): Token
    requires i < 3 && j < 9
  {
    Pow2Values();
    match AlarmName(names, i, Pow2(j) % 256)
    case Some(name) => WaypointAlarm(j, i, name)
    case None => WaypointAlarm(j, i, "alarm" + ["012"[i]] + "-" + ["012345678"[j]])
  }

  predicate AlarmSet(alarms: AlarmFlags, i: nat, j: nat)
    requires i < 3
  {
    alarms[i] / Pow2(j) % 2 == 1
  }

  /** Alarm callbacks for the first k of the 3 x 9 flag positions. */
  function AlarmTokens(names: seq<AlarmEntry>, alarms: AlarmFlags, k: nat): seq<Token>
    requires k <= 27
  {
    if k == 0 then []
    else
      AlarmTokens(names, alarms, k - 1)
      + (if AlarmSet(alarms, (k - 1) / 9, (k - 1) % 9) then [AlarmToken(names, (k - 1) / 9, (k - 1) % 9)] else [])
  }

  /** The callbacks of one waypoint after its time and depth. */
  function OtherData(names: seq<AlarmEntry>, st: Sample): seq<Token> {
    (if st.temp.have then [WaypointTemp(ToInt32(st.temp.value))] else [])
    + (if st.pressure.have then [WaypointPressure(ToInt32(st.pressure.value), st.tank)] else [])
    + (if st.rbt.have then [WaypointRbt(ToInt32(st.rbt.value))] else [])
    + (if st.heartrate.have then [WaypointHeartRate(ToInt32(st.heartrate.value))] else [])
    + (if st.bearing.have then [WaypointBearing(ToInt32(st.bearing.value))] else [])
    + (if st.alarms.have then AlarmTokens(names, st.alarms.flags, 27) else [])
  }

  /** The callbacks of one waypoint. */
  function Waypoint(names: seq<AlarmEntry>, st: Sample): seq<Token> {
    [WaypointTime(ToInt32(st.time))]
    + (if st.depth.have then [WaypointDepth(st.depth.Shown())] else [])
    + OtherData(names, st)
  }

  /** Bearing and alarms are sent once; the other channels stay. */
  function AfterWaypoint(st: Sample): Sample
    requires st.complete > 0
  {
    st.(time := U32(st.time + 4), complete := st.complete - 1,
        bearing := st.bearing.(have := false), alarms := st.alarms.(have := false))
  }

  datatype Output = Output(state: Sample, tokens: seq<Token>)

  /** The inner loop: one waypoint for every unit of `complete`. */
  function Drain(names: seq<AlarmEntry>, st: Sample): (o: Output)
    ensures o.state.complete == 0
    decreases st.complete
  {
    if st.complete == 0 then Output(st, [])
    else
      var rest := Drain(names, AfterWaypoint(st));
      Output(rest.state, Waypoint(names, st) + rest.tokens)
  }

  function ApplyRecord(m: Layout, st: Sample, r: Record): Sample
    requires Valid(m) && WellFormed(m, r)
  {
    RowOf(m, r.id);
    var e := m.rows[r.id];
    ValueInRange(e, r);
    Apply(e, r.value, SignedValue(e, r.value), st)
  }

  lemma DrainStep(names: seq<AlarmEntry>, st: Sample, sent: seq<Token>)
    requires st.complete > 0
    ensures AfterWaypoint(st).complete < st.complete
    ensures var rest, now := Drain(names, AfterWaypoint(st)), Drain(names, st);
      rest.state == now.state && (sent + Waypoint(names, st)) + rest.tokens == sent + now.tokens
  {
    hide Waypoint;
    ConcatAssoc(sent, Waypoint(names, st), Drain(names, AfterWaypoint(st)).tokens);
  }

  lemma DrainNone(names: seq<AlarmEntry>, st: Sample, sent: seq<Token>)
    ensures st.complete == 0 ==> Drain(names, st).state == st && sent + Drain(names, st).tokens == sent
  {
  }

  function Step(c: Config, st: Sample, r: Record): (o: Output)
    requires Valid(c.layout) && WellFormed(c.layout, r)
    ensures o.state.complete == 0
  {
    Drain(c.alarmNames, ApplyRecord(c.layout, st, r))
  }

  lemma ValueInRange(e: Entry, r: Record)
    requires Fits(e, r) && PayloadBits(e) <= 16
    ensures r.value < 0x1_0000
  {
    Pow2Bound(PayloadBits(e));
  }

  /** The whole profile loop as a fold over decoded records. */
  function Run(c: Config, st: Sample, recs: seq<Record>): (o: Output)
    requires Valid(c.layout) && AllWellFormed(c.layout, recs)
    decreases |recs|
  {
    if recs == [] then Output(st, [])
    else
      var head := Step(c, st, recs[0]);
      var tail := Run(c, head.state, recs[1..]);
      Output(tail.state, head.tokens + tail.tokens)
  }

  lemma RunFirst(c: Config, st: Sample, r: Record, recs: seq<Record>)
    requires Valid(c.layout) && WellFormed(c.layout, r) && AllWellFormed(c.layout, recs)
    ensures AllWellFormed(c.layout, [r] + recs)
    ensures var head := Step(c, st, r);
      var tail := Run(c, head.state, recs);
      Run(c, st, [r] + recs) == Output(tail.state, head.tokens + tail.tokens)
  {
    hide Step, Valid, WellFormed;
    assert ([r] + recs)[1..] == recs;
  }

  lemma RunNone(c: Config, st: Sample)
    requires Valid(c.layout)
    ensures Run(c, st, []) == Output(st, [])
  {
  }
}
