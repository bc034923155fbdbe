/**
  The whole callback sequence of a run, sample by sample: which values belong to which time stamp, and in
  which order they come.
 */
module ProfileSamples {
  import opened Words
  import opened Wrappers
  import opened DtiTables
  import opened DtiCodec
  import opened ProfileSpec
  import opened ProfileLaws
  import opened ProfileChannels
  import Decimal

  /** A time stamp and the callbacks up to the next one. */
  datatype Group = Group(time: int, others: seq<Token>)

  function Flatten(groups: seq<Group>): seq<Token> {
    if groups == [] then []
    else Flatten(groups[..|groups| - 1])
         + ([WaypointTime(groups[|groups| - 1].time)] + groups[|groups| - 1].others)
  }

  // ---------------------------------------------------------------- what the records say

  /** The depth after the records, if an absolute depth has come. */
  function DepthShown(m: Layout, recs: seq<Record>): seq<Token>
    requires Valid(m) && AllWellFormed(m, recs)
  {
    if FirstAbsolute(m, recs).Some? then [WaypointDepth(CalibratedDepth(m, recs))] else []
  }

  function MeterValue(g: Meter, m: Layout, recs: seq<Record>): int
    requires Valid(m) && AllWellFormed(m, recs)
  {
    ToInt32(U32(Total(g, m, recs)))
  }

  /** The meters after the records, each if an absolute value has come, in the order of the callbacks. */
  function MetersShown(m: Layout, recs: seq<Record>): seq<Token>
    requires Valid(m) && AllWellFormed(m, recs)
  {
    (if Known(TempMeter, m, recs) then [WaypointTemp(MeterValue(TempMeter, m, recs))] else [])
    + (if Known(PressureMeter, m, recs)
       then [WaypointPressure(MeterValue(PressureMeter, m, recs), LastTank(m, recs))] else [])
    + (if Known(RbtMeter, m, recs) then [WaypointRbt(MeterValue(RbtMeter, m, recs))] else [])
    + (if Known(HeartMeter, m, recs) then [WaypointHeartRate(MeterValue(HeartMeter, m, recs))] else [])
  }

  /** The tank of the last absolute pressure. */
  function LastTank(m: Layout, recs: seq<Record>): nat
    requires AllWellFormed(m, recs)
  {
    if recs == [] then 0
    else
      var r := recs[|recs| - 1];
      var e := m.rows[r.id];
      if e.kind.Pressure? && e.abs then e.idx else LastTank(m, recs[..|recs| - 1])
  }

  /** What the last of the records sends with its j-th waypoint: depth, meters, and with the first waypoint
      bearing and alarms if such a record has come since the waypoint before. */
  function Others(c: Config, recs: seq<Record>, j: nat): seq<Token>
    requires Valid(c.layout) && AllWellFormed(c.layout, recs) && recs != []
  {
    DepthShown(c.layout, recs) + MetersShown(c.layout, recs)
    + (if j == 0 then Batch(false, c, recs[..|recs| - 1]) + Batch(true, c, recs[..|recs| - 1]) else [])
  }

  /** n groups of the last record, the first of which is waypoint number k of the run. */
  function RecordGroups(c: Config, recs: seq<Record>, k: nat, n: nat): (gs: seq<Group>)
    requires Valid(c.layout) && AllWellFormed(c.layout, recs) && recs != []
    ensures |gs| == n
    ensures forall j :: 0 <= j < n ==> gs[j] == Group(ToInt32(U32(4 * (k + j))), Others(c, recs, j))
  {
    seq(n, j requires 0 <= j < n => Group(ToInt32(U32(4 * (k + j))), Others(c, recs, j)))
  }

  /** The samples of a run: one group for every waypoint, stamped 4k for the k-th of the run. */
  function ExpectedGroups(c: Config, recs: seq<Record>): (gs: seq<Group>)
    requires Valid(c.layout) && AllWellFormed(c.layout, recs)
    ensures |gs| == Waypoints(c.layout, recs)
  {
    if recs == [] then []
    else
      var init, r := recs[..|recs| - 1], recs[|recs| - 1];
      var before := ExpectedGroups(c, init);
      before + RecordGroups(c, recs, |before|, WaypointsOf(c.layout.rows[r.id], r))
  }

  lemma {:induction false} AlarmsUntimed(names: seq<AlarmEntry>, alarms: AlarmFlags, k: nat)
    requires k <= 27
    ensures forall t :: t in AlarmTokens(names, alarms, k) ==> t.WaypointAlarm?
  {
    hide AlarmSet;
    if k > 0 { AlarmsUntimed(names, alarms, k - 1); }
  }

  lemma OthersUntimed(c: Config, recs: seq<Record>)
    requires Valid(c.layout) && AllWellFormed(c.layout, recs) && recs != []
    ensures forall j: nat, t :: t in Others(c, recs, j) ==> !t.WaypointTime?
  {
    hide FirstAbsolute, CalibratedDepth, Known, MeterValue, LastTank, Due, LastBearing, AlarmTokens, Valid, WellFormed;
    AlarmsUntimed(c.alarmNames, Flags(c.layout, recs[..|recs| - 1]), 27);
    hide Flags;
  }

  // ---------------------------------------------------------------- one state

  /** The state shows exactly what the records say, apart from time and the one-shot channels. */
  predicate Shows(m: Layout, recs: seq<Record>, st: Sample)
    requires Valid(m) && AllWellFormed(m, recs)
  {
    && st.depth.have == FirstAbsolute(m, recs).Some?
    && (st.depth.have ==> st.depth.Shown() == CalibratedDepth(m, recs))
    && (forall g :: GaugeOf(g, st) == Gauge(U32(Total(g, m, recs)), Known(g, m, recs)))
    && st.tank == LastTank(m, recs)
  }

  /** The callbacks of one waypoint of such a state, apart from the one-shot channels. */
  lemma WaypointShows(c: Config, recs: seq<Record>, st: Sample)
    requires Valid(c.layout) && AllWellFormed(c.layout, recs) && Shows(c.layout, recs, st)
    ensures Waypoint(c.alarmNames, st) ==
      [WaypointTime(ToInt32(st.time))] + (DepthShown(c.layout, recs) + MetersShown(c.layout, recs)
      + (Sent(false, c.alarmNames, st) + Sent(true, c.alarmNames, st)))
  {
    hide AlarmTokens, Valid, WellFormed, Total, Known, FirstAbsolute, CalibratedDepth, LastTank, U32, ToInt32;
    assert GaugeOf(TempMeter, st) == st.temp && GaugeOf(PressureMeter, st) == st.pressure;
    assert GaugeOf(RbtMeter, st) == st.rbt && GaugeOf(HeartMeter, st) == st.heartrate;
    MetersToken(c.layout, recs, st);
    var time := [WaypointTime(ToInt32(st.time))];
    Reorder(time, DepthShown(c.layout, recs), MetersShown(c.layout, recs),
            Sent(false, c.alarmNames, st), Sent(true, c.alarmNames, st));
  }

  lemma MetersToken(m: Layout, recs: seq<Record>, st: Sample)
    requires Valid(m) && AllWellFormed(m, recs) && Shows(m, recs, st)
    ensures MetersShown(m, recs) ==
      (if st.temp.have then [WaypointTemp(ToInt32(st.temp.value))] else [])
      + (if st.pressure.have then [WaypointPressure(ToInt32(st.pressure.value), st.tank)] else [])
      + (if st.rbt.have then [WaypointRbt(ToInt32(st.rbt.value))] else [])
      + (if st.heartrate.have then [WaypointHeartRate(ToInt32(st.heartrate.value))] else [])
  {
    hide Valid, WellFormed, Total, Known, FirstAbsolute, CalibratedDepth, LastTank, U32, ToInt32;
    assert GaugeOf(TempMeter, st) == st.temp && GaugeOf(PressureMeter, st) == st.pressure;
    assert GaugeOf(RbtMeter, st) == st.rbt && GaugeOf(HeartMeter, st) == st.heartrate;
  }

  lemma Reorder<T>(a: seq<T>, b: seq<T>, c: seq<T>, d: seq<T>, e: seq<T>)
    ensures a + b + (c + d + e) == a + (b + c + (d + e))
  {
  }

  // ---------------------------------------------------------------- one record

  /** The tokens of n waypoints from the j-th on of the last record. */
  function RecordTokens(c: Config, recs: seq<Record>, k: nat, j: nat, n: nat): seq<Token>
    requires Valid(c.layout) && AllWellFormed(c.layout, recs) && recs != []
    decreases n
  {
    if n == 0 then []
    else [WaypointTime(ToInt32(U32(4 * (k + j))))] + Others(c, recs, j) + RecordTokens(c, recs, k, j + 1, n - 1)
  }

  lemma {:induction false} FlattenJoin(a: seq<Group>, b: seq<Group>)
    ensures Flatten(a + b) == Flatten(a) + Flatten(b)
    decreases |b|
  {
    if b == [] {
      assert a + b == a;
    } else {
      var front, last := b[..|b| - 1], b[|b| - 1];
      assert (a + b)[..|a + b| - 1] == a + front && (a + b)[|a + b| - 1] == last;
      FlattenJoin(a, front);
      ConcatAssoc(Flatten(a), Flatten(front), [WaypointTime(last.time)] + last.others);
    }
  }

  lemma FlattenOne(g: Group)
    ensures Flatten([g]) == [WaypointTime(g.time)] + g.others
  {
    assert [g][..0] == [];
  }

  lemma {:induction false} RecordFlattens(c: Config, recs: seq<Record>, k: nat, j: nat, n: nat)
    requires Valid(c.layout) && AllWellFormed(c.layout, recs) && recs != [] && j <= n
    ensures RecordTokens(c, recs, k, j, n - j) == Flatten(RecordGroups(c, recs, k, n)[j..])
    decreases n - j
  {
    hide Others, Valid, WellFormed;
    var gs := RecordGroups(c, recs, k, n);
    if j == n {
      assert gs[j..] == [];
    } else {
      RecordFlattens(c, recs, k, j + 1, n);
      assert gs[j..] == [gs[j]] + gs[j + 1..];
      FlattenJoin([gs[j]], gs[j + 1..]);
      FlattenOne(gs[j]);
    }
  }

  /** What is due with waypoint j of the last record. */
  predicate DueNow(c: Config, recs: seq<Record>, st: Sample, j: nat)
    requires AllWellFormed(c.layout, recs) && recs != []
  {
    if j == 0 then
      && Sent(false, c.alarmNames, st) == Batch(false, c, recs[..|recs| - 1])
      && Sent(true, c.alarmNames, st) == Batch(true, c, recs[..|recs| - 1])
    else Sent(false, c.alarmNames, st) == [] && Sent(true, c.alarmNames, st) == []
  }

  lemma AfterShows(c: Config, recs: seq<Record>, st: Sample, k: nat, j: nat)
    requires Valid(c.layout) && AllWellFormed(c.layout, recs) && recs != []
    requires Shows(c.layout, recs, st) && st.complete > 0 && st.time == U32(4 * (k + j))
    ensures var next := AfterWaypoint(st);
      && Shows(c.layout, recs, next) && next.complete == st.complete - 1
      && next.time == U32(4 * (k + (j + 1))) && DueNow(c, recs, next, j + 1)
  {
    hide Total, Known, FirstAbsolute, CalibratedDepth, LastTank, Valid, WellFormed, AlarmTokens, ToInt32;
    U32Add(4 * (k + j), 4);
    var next := AfterWaypoint(st);
    forall g ensures GaugeOf(g, next) == GaugeOf(g, st) {
      match g { case TempMeter => case PressureMeter => case RbtMeter => case HeartMeter => case TankMeter => }
    }
    hide U32;
  }

  lemma {:induction false} DrainShows(c: Config, recs: seq<Record>, st: Sample, k: nat, j: nat)
    requires Valid(c.layout) && AllWellFormed(c.layout, recs) && recs != []
    requires Shows(c.layout, recs, st) && st.time == U32(4 * (k + j)) && (st.complete > 0 ==> DueNow(c, recs, st, j))
    ensures Drain(c.alarmNames, st).tokens == RecordTokens(c, recs, k, j, st.complete)
    decreases st.complete
  {
    hide Waypoint, AfterWaypoint, Shows, DepthShown, MetersShown, Batch, Sent, U32, ToInt32, Valid, WellFormed;
    if st.complete > 0 {
      AfterShows(c, recs, st, k, j);
      DrainShows(c, recs, AfterWaypoint(st), k, j + 1);
      WaypointShows(c, recs, st);
      OthersAre(c, recs, st, j);
    }
  }

  lemma OthersAre(c: Config, recs: seq<Record>, st: Sample, j: nat)
    requires Valid(c.layout) && AllWellFormed(c.layout, recs) && recs != [] && DueNow(c, recs, st, j)
    ensures Others(c, recs, j) == DepthShown(c.layout, recs) + MetersShown(c.layout, recs)
      + (Sent(false, c.alarmNames, st) + Sent(true, c.alarmNames, st))
  {
    hide DepthShown, MetersShown, Batch, Sent, Valid, WellFormed;
  }

  // ---------------------------------------------------------------- whole runs

  lemma {:induction false} DrainTank(names: seq<AlarmEntry>, st: Sample)
    ensures Drain(names, st).state.tank == st.tank
    decreases st.complete
  {
    hide Waypoint;
    if st.complete > 0 { DrainTank(names, AfterWaypoint(st)); }
  }

  lemma ApplyTank(m: Layout, r: Record, st: Sample)
    requires Valid(m) && WellFormed(m, r)
    ensures var e := m.rows[r.id];
      ApplyRecord(m, st, r).tank == if e.kind.Pressure? && e.abs then e.idx else st.tank
  {
    RowOf(m, r.id);
    ValueInRange(m.rows[r.id], r);
    hide U32, Signed, SignedValue, Fits, PayloadBits;
  }

  lemma {:induction false} TankConserves(c: Config, recs: seq<Record>)
    requires Valid(c.layout) && AllWellFormed(c.layout, recs)
    ensures Run(c, RESET, recs).state.tank == LastTank(c.layout, recs)
    decreases |recs|
  {
    if recs != [] {
      hide Drain, ApplyRecord, Valid, WellFormed;
      var init, r := recs[..|recs| - 1], recs[|recs| - 1];
      RunLast(c, RESET, recs);
      TankConserves(c, init);
      var st := Run(c, RESET, init).state;
      ApplyTank(c.layout, r, st);
      DrainTank(c.alarmNames, ApplyRecord(c.layout, st, r));
    }
  }

  /** Before its waypoints are drained the state already shows what the records say. */
  lemma NextShows(c: Config, recs: seq<Record>, next: Sample)
    requires Valid(c.layout) && AllWellFormed(c.layout, recs)
    requires Drain(c.alarmNames, next).state == Run(c, RESET, recs).state
    ensures Shows(c.layout, recs, next)
  {
    hide Run, Drain, Valid, WellFormed, Total, Known, FirstAbsolute, CalibratedDepth, LastTank, RawDepth, Waypoints;
    hide U32, GaugeOf, ToInt32;
    RunConserves(c, recs);
    TankConserves(c, recs);
    DrainTank(c.alarmNames, next);
    DrainState(c.alarmNames, next);
    forall g ensures GaugeOf(g, next) == Gauge(U32(Total(g, c.layout, recs)), Known(g, c.layout, recs)) {
      MetersConserve(g, c, recs);
      DrainReads(g, c.alarmNames, next);
    }
    if next.depth.have { ReachedShows(c.layout, recs, next.depth); }
  }

  lemma NextDue(c: Config, recs: seq<Record>, next: Sample)
    requires Valid(c.layout) && AllWellFormed(c.layout, recs) && recs != []
    requires next == ApplyRecord(c.layout, Run(c, RESET, recs[..|recs| - 1]).state, recs[|recs| - 1])
    ensures next.complete == WaypointsOf(c.layout.rows[recs[|recs| - 1].id], recs[|recs| - 1])
    ensures next.time == U32(4 * Waypoints(c.layout, recs[..|recs| - 1]))
    ensures next.complete > 0 ==> DueNow(c, recs, next, 0)
  {
    hide Run, Drain, ApplyRecord, Valid, WellFormed, Holds, Batch, Sent, WaypointsOf, RawDepth, FirstAbsolute, Waypoints;
    var init := recs[..|recs| - 1];
    var st := Run(c, RESET, init).state;
    RunConserves(c, init);
    ApplyReaches(c.layout, recs, st);
    forall alarm: bool ensures next.complete > 0 ==> Sent(alarm, c.alarmNames, next) == Batch(alarm, c, init) {
      OnceConserves(alarm, c, init);
      HeldSent(alarm, c, init, st);
      DrainOnce(alarm, c.alarmNames, next);
      RecordHolds(alarm, c, recs, st, next, Drain(c.alarmNames, next).state);
    }
  }

  /** The callback sequence of a whole run after a reset, for all channels together: it is exactly the samples
      that the records say, each a time stamp followed by depth, meters, bearing and alarms. */
  lemma {:induction false} SamplesExactly(c: Config, recs: seq<Record>)
    requires Valid(c.layout) && AllWellFormed(c.layout, recs)
    ensures Run(c, RESET, recs).tokens == Flatten(ExpectedGroups(c, recs))
    decreases |recs|
  {
    hide Run, Drain, ApplyRecord, Valid, WellFormed, Shows, RecordTokens, DueNow, WaypointsOf, Waypoints, U32;
    if recs != [] {
      var init, r := recs[..|recs| - 1], recs[|recs| - 1];
      RunLast(c, RESET, recs);
      SamplesExactly(c, init);
      var next := ApplyRecord(c.layout, Run(c, RESET, init).state, r);
      NextShows(c, recs, next);
      NextDue(c, recs, next);
      var k, n := |ExpectedGroups(c, init)|, next.complete;
      DrainShows(c, recs, next, k, 0);
      RecordFlattens(c, recs, k, 0, n);
      var gs := RecordGroups(c, recs, k, n);
      assert gs[0..] == gs;
      FlattenJoin(ExpectedGroups(c, init), gs);
    } else {
      RunNone(c, RESET);
    }
  }

  /** The k-th sample of a run is stamped 4k, and nothing else in it is a time stamp. */
  lemma {:induction false} GroupsStamped(c: Config, recs: seq<Record>)
    requires Valid(c.layout) && AllWellFormed(c.layout, recs)
    ensures forall k :: 0 <= k < |ExpectedGroups(c, recs)| ==> ExpectedGroups(c, recs)[k].time == ToInt32(U32(4 * k))
    ensures forall k, t :: 0 <= k < |ExpectedGroups(c, recs)| && t in ExpectedGroups(c, recs)[k].others ==>
      !t.WaypointTime?
    decreases |recs|
  {
    if recs != [] {
      hide Others, Valid, WellFormed, WaypointsOf, Waypoints, U32, ToInt32;
      GroupsStamped(c, recs[..|recs| - 1]);
      OthersUntimed(c, recs);
    }
  }

  // ---------------------------------------------------------------- reading the sequence back

  /** Every callback with the last time stamp before it, none if there is no such. */
  function Stamped(tokens: seq<Token>): seq<(Option<int>, Token)> {
    if tokens == [] then []
    else
      var before, t := tokens[..|tokens| - 1], tokens[|tokens| - 1];
      Stamped(before) + if t.WaypointTime? then [] else [(LastTime(before), t)]
  }

  function LastTime(tokens: seq<Token>): Option<int> {
    if tokens == [] then None
    else if tokens[|tokens| - 1].WaypointTime? then Some(tokens[|tokens| - 1].value)
    else LastTime(tokens[..|tokens| - 1])
  }

  function Pairs(time: int, others: seq<Token>): (ps: seq<(Option<int>, Token)>)
    ensures |ps| == |others|
    ensures forall i :: 0 <= i < |ps| ==> ps[i] == (Some(time), others[i])
  {
    seq(|others|, i requires 0 <= i < |others| => (Some(time), others[i]))
  }

  /** The pairs of all samples. */
  function AllPairs(groups: seq<Group>): seq<(Option<int>, Token)> {
    if groups == [] then []
    else AllPairs(groups[..|groups| - 1]) + Pairs(groups[|groups| - 1].time, groups[|groups| - 1].others)
  }

  predicate Untimed(others: seq<Token>) {
    forall t :: t in others ==> !t.WaypointTime?
  }

  lemma {:induction false} StampedAfter(before: seq<Token>, time: int, others: seq<Token>)
    requires Untimed(others)
    ensures Stamped(before + ([WaypointTime(time)] + others)) == Stamped(before) + Pairs(time, others)
    ensures LastTime(before + ([WaypointTime(time)] + others)) == Some(time)
    decreases |others|
  {
    var all := before + ([WaypointTime(time)] + others);
    if others == [] {
      assert all[..|all| - 1] == before;
      assert Pairs(time, others) == [];
    } else {
      var front, last := others[..|others| - 1], others[|others| - 1];
      assert all[..|all| - 1] == before + ([WaypointTime(time)] + front) && all[|all| - 1] == last;
      assert last in others;
      StampedAfter(before, time, front);
      assert Pairs(time, others) == Pairs(time, front) + [(Some(time), last)];
    }
  }

  lemma {:induction false} StampedFlatten(groups: seq<Group>)
    requires forall k :: 0 <= k < |groups| ==> Untimed(groups[k].others)
    ensures Stamped(Flatten(groups)) == AllPairs(groups)
    ensures groups != [] ==> Flatten(groups) != [] && Flatten(groups)[0] == WaypointTime(groups[0].time)
    decreases |groups|
  {
    if groups != [] {
      var front, last := groups[..|groups| - 1], groups[|groups| - 1];
      StampedFlatten(front);
      StampedAfter(Flatten(front), last.time, last.others);
    }
  }

  /** Read back from the callbacks: the first one is a time stamp, and pairing every other one with the last
      stamp before it gives the pairs of the expected samples, in order. */
  lemma StampedRun(c: Config, recs: seq<Record>)
    requires Valid(c.layout) && AllWellFormed(c.layout, recs)
    ensures var tokens := Run(c, RESET, recs).tokens;
      && (tokens != [] ==> tokens[0] == WaypointTime(0))
      && Stamped(tokens) == AllPairs(ExpectedGroups(c, recs))
  {
    hide Run, ExpectedGroups, Valid, WellFormed, Flatten, Stamped;
    SamplesExactly(c, recs);
    GroupsStamped(c, recs);
    var groups := ExpectedGroups(c, recs);
    StampedFlatten(groups);
    FlattenNone();
  }

  lemma FlattenNone()
    ensures Flatten([]) == []
  {
  }

  // ---------------------------------------------------------------- alarms

  /** The name that goes with bit j of alarm group i. */
  lemma AlarmNameExactly(model: Model, i: nat, j: nat)
    requires i < 3 && j < 9
    ensures AlarmToken(ConfigOf(model).alarmNames, i, j) == WaypointAlarm(j, i,
      if model.AladinTec2G? && i == 0 && j == 1 then "ascent"
      else if model.AladinTec2G? && i == 0 && j == 2 then "bookmark"
      else "alarm" + Decimal.Show(i) + "-" + Decimal.Show(j))
  {
    hide Table;
    Pow2Values();
    match j { case 0 => case 1 => case 2 => case 3 => case 4 => case 5 => case 6 => case 7 => case _ => }
  }

  /** Group and bit of an alarm as one number, 27 for any other callback. */
  function Rank(t: Token): nat {
    if t.WaypointAlarm? then 9 * t.index + t.bit else 27
  }

  lemma AlarmTokenAt(names: seq<AlarmEntry>, i: nat, j: nat)
    requires i < 3 && j < 9
    ensures Rank(AlarmToken(names, i, j)) == 9 * i + j
  {
  }

  /** Only alarms below rank k, in increasing order. */
  predicate Ranked(ts: seq<Token>, k: nat) {
    && (forall a :: 0 <= a < |ts| ==> Rank(ts[a]) < k)
    && (forall a, b :: 0 <= a < b < |ts| ==> Rank(ts[a]) < Rank(ts[b]))
  }

  lemma RankedLast(ts: seq<Token>, t: Token, k: nat)
    requires k > 0 && Ranked(ts, k - 1)
    ensures Ranked(ts, k)
    ensures Rank(t) == k - 1 ==> Ranked(ts + [t], k)
  {
    hide Rank;
  }

  /** Alarms come group by group, in each group from the lowest bit on. */
  lemma {:induction false} AlarmsOrdered(names: seq<AlarmEntry>, alarms: AlarmFlags, k: nat)
    requires k <= 27
    ensures Ranked(AlarmTokens(names, alarms, k), k)
  {
    hide AlarmSet, AlarmToken, Rank, Ranked;
    if k == 0 {
      RankedNone();
    } else {
      AlarmsOrdered(names, alarms, k - 1);
      var i, j := (k - 1) / 9, (k - 1) % 9;
      assert 9 * i + j == k - 1;
      AlarmTokenAt(names, i, j);
      RankedLast(AlarmTokens(names, alarms, k - 1), AlarmToken(names, i, j), k);
      assert AlarmTokens(names, alarms, k - 1) + [] == AlarmTokens(names, alarms, k - 1);
    }
  }

  lemma RankedNone()
    ensures Ranked([], 0)
  {
  }
}
