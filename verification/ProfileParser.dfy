/**
  The profile parser object: its fields, and the methods that change them, proved against the fold
  of ProfileSpec.
 */
module ProfileParser {
  import opened Words
  import opened DtiTables
  import opened DtiCodec
  import opened ProfileSpec

  /** Results of parse_profile.  The last two are not errors of the source.  UndefinedRow marks the table
      index equal to the table size, which the source uses to read a row that does not exist;
      OverflowMissed a record for which the sum of the overflow test wraps, so that the source reads
      bytes after its buffer. */
  datatype Code = Success | BufferTooShort | SizeMismatch | InvalidDtiCode | DtiPastEnd | UndefinedRow | OverflowMissed

  function CodeOf(stop: Stop): Code {
    match stop
    case Clean => Success
    case InvalidCode => InvalidDtiCode
    case NoSuchRow => UndefinedRow
    case PastEnd => DtiPastEnd
  }

  /** The overflow test `*offset + extra > size` in uint32_t arithmetic. */
  predicate OverflowDetected(offset: nat, extra: nat, size: nat) {
    U32(offset + extra) > size
  }

  /** The test is right exactly when the sum does not wrap, so it is right at every offset exactly for
      buffers of at most 2^32 - 3 bytes. */
  lemma OverflowTestExact(offset: nat, extra: nat, size: nat)
    requires offset <= size < TWO_32 && extra <= 2
    ensures (OverflowDetected(offset, extra, size) <==> offset + extra > size) <==> offset + extra < TWO_32
    ensures size + 2 < TWO_32 ==> offset + extra < TWO_32
    ensures size + 2 >= TWO_32 ==> size + 2 > size && !OverflowDetected(size, 2, size)
  {
  }

  /** The record at pos does not fit, but its overflow test wraps. */
  predicate WrapsAt(model: Model, data: seq<Byte>, pos: nat) {
    pos < |data| && Identify(LayoutOf(model), data[pos..]) < |Table(model)| &&
    var e := Table(model)[Identify(LayoutOf(model), data[pos..])];
    pos + (e.ntb + 7) / 8 + e.extra > |data| && !OverflowDetected(pos + (e.ntb + 7) / 8, e.extra, |data|)
  }

  /** The code for a record at pos, from what its bytes alone say. */
  function CodeAt(model: Model, data: seq<Byte>, pos: nat, code: Code): Code {
    if code.DtiPastEnd? && WrapsAt(model, data, pos) then OverflowMissed else code
  }

  datatype Result = Result(code: Code, output: Output)

  /** parse_profile as a function: the length checks, then the fold over the decoded records.  A
      failing run has still sent the callbacks of the records before the failure. */
  function ProfileOf(model: Model, buffer: seq<Byte>, st: Sample): Result {
    if |buffer| < HeaderSize(model) then Result(BufferTooShort, Output(st, []))
    else if Uint32Le(buffer, 4) != |buffer| then Result(SizeMismatch, Output(st, []))
    else
      LayoutsValid(model);
      var c := ConfigOf(model);
      var body := buffer[HeaderSize(model)..];
      AcceptedStreamsAreEncodings(c.layout, body);
      var parse := DecodeAll(c.layout, body);
      Result(CodeAt(model, buffer, HeaderSize(model) + Consumed(c.layout, body), CodeOf(parse.stop)),
             Run(c, st, parse.recs))
  }

  lemma ProfileOfChecks(model: Model, buffer: seq<Byte>, st: Sample)
    ensures |buffer| < HeaderSize(model) ==> ProfileOf(model, buffer, st) == Result(BufferTooShort, Output(st, []))
    ensures |buffer| >= HeaderSize(model) && Uint32Le(buffer, 4) != |buffer| ==>
      ProfileOf(model, buffer, st) == Result(SizeMismatch, Output(st, []))
  {
  }

  lemma ProfileOfBody(model: Model, buffer: seq<Byte>, st: Sample)
    requires |buffer| >= HeaderSize(model) && Uint32Le(buffer, 4) == |buffer|
    requires Valid(LayoutOf(model))
    ensures var body := buffer[HeaderSize(model)..];
      var parse := DecodeAll(LayoutOf(model), body);
      && AllWellFormed(LayoutOf(model), parse.recs)
      && ProfileOf(model, buffer, st) ==
           Result(CodeAt(model, buffer, HeaderSize(model) + Consumed(LayoutOf(model), body), CodeOf(parse.stop)),
                  Run(ConfigOf(model), st, parse.recs))
  {
    hide Run, Valid, WellFormed, Table, DecodeAll, Uint32Le, Consumed, CodeAt;
    AcceptedStreamsAreEncodings(LayoutOf(model), buffer[HeaderSize(model)..]);
  }

  datatype RecordResult = RecordResult(code: Code, width: nat, output: Output)

  /** One record at the head of s: its outcome, width, and effect. */
  function RecordOf(model: Model, st: Sample, s: seq<Byte>): RecordResult
    requires s != []
  {
    LayoutsValid(model);
    var c := ConfigOf(model);
    match DecodeOne(c.layout, s)
    case BadCode => RecordResult(InvalidDtiCode, 0, Output(st, []))
    case PastTable => RecordResult(UndefinedRow, 0, Output(st, []))
    case Truncated => RecordResult(DtiPastEnd, 0, Output(st, []))
    case Got(r, w) =>
      EncodeDecode(c.layout, s);
      RecordResult(Success, w, Step(c, st, r))
  }

  /** RecordOf in terms of the table row that was found. */
  lemma RecordOfRow(model: Model, st: Sample, s: seq<Byte>, id: nat)
    requires Valid(LayoutOf(model)) && s != [] && id == Identify(LayoutOf(model), s) < |Table(model)|
    ensures RowOk(model.GalileoSol?, id, Table(model)[id]) && (Table(model)[id].ntb + 7) / 8 <= |s|
    ensures var e := Table(model)[id];
      var o := ProcessDti(id, e, s);
      && (o.Truncated? ==> RecordOf(model, st, s) == RecordResult(DtiPastEnd, 0, Output(st, [])))
      && (o.Got? && o.rec.value < 0x1_0000 && o.rec.id == id ==>
            RecordOf(model, st, s) == RecordResult(Success, o.width,
              Drain(ConfigOf(model).alarmNames, Apply(e, o.rec.value, SignedValue(e, o.rec.value), st))))
  {
    FirstPayloadByteInside(LayoutOf(model), s);
    RowOf(LayoutOf(model), id);
    hide Table, ProcessDti, Drain, Apply, SignedValue, UnaryTag, GalileoIdentify;
  }

  /** RecordOf without a row. */
  lemma RecordOfNone(model: Model, st: Sample, s: seq<Byte>, id: nat)
    requires s != [] && id == Identify(LayoutOf(model), s) >= |Table(model)|
    ensures RecordOf(model, st, s) ==
      RecordResult(if id > |Table(model)| then InvalidDtiCode else UndefinedRow, 0, Output(st, []))
  {
    hide Table, ProcessDti, Step, UnaryTag, GalileoIdentify;
  }

  lemma CodeAtRow(model: Model, data: seq<Byte>, start: nat, id: nat)
    requires start < |data| && id == Identify(LayoutOf(model), data[start..]) < |Table(model)|
    ensures var e := Table(model)[id];
      var low := start + (e.ntb + 7) / 8;
      low + e.extra > |data| ==>
        CodeAt(model, data, start, DtiPastEnd)
          == (if OverflowDetected(low, e.extra, |data|) then DtiPastEnd else OverflowMissed)
  {
    hide Table, Identify, OverflowDetected;
  }

  lemma CodeAtOther(model: Model, data: seq<Byte>, start: nat, code: Code)
    ensures !code.DtiPastEnd? ==> CodeAt(model, data, start, code) == code
    ensures CodeAt(model, data, start, code).Success? <==> code.Success?
  {
    hide WrapsAt;
  }

  /** The loop invariant of parse_profile: what is still unread decodes and runs to the rest. */
  ghost predicate Continues(c: Config, before: Sample, all: Parse, rest: seq<Byte>, st: Sample, sent: seq<Token>)
    requires Valid(c.layout) && AllWellFormed(c.layout, all.recs)
  {
    var tail := DecodeAll(c.layout, rest);
    && tail.stop == all.stop
    && AllWellFormed(c.layout, tail.recs)
    && var o := Run(c, st, tail.recs);
    Run(c, before, all.recs) == Output(o.state, sent + o.tokens)
  }

  lemma ContinuesStarts(model: Model, before: Sample, body: seq<Byte>)
    requires Valid(LayoutOf(model)) && AllWellFormed(LayoutOf(model), DecodeAll(LayoutOf(model), body).recs)
    ensures Continues(ConfigOf(model), before, DecodeAll(LayoutOf(model), body), body, before, [])
  {
    hide Valid, WellFormed, Table, DecodeAll, Run;
    var o := Run(ConfigOf(model), before, DecodeAll(LayoutOf(model), body).recs);
    assert [] + o.tokens == o.tokens;
  }

  lemma ContinuesEnds(model: Model, before: Sample, all: Parse, st: Sample, sent: seq<Token>)
    requires Valid(LayoutOf(model)) && AllWellFormed(LayoutOf(model), all.recs)
    requires Continues(ConfigOf(model), before, all, [], st, sent)
    ensures all.stop == Clean && Run(ConfigOf(model), before, all.recs) == Output(st, sent)
  {
    hide Valid, WellFormed, Table;
    assert sent + [] == sent;
  }

  lemma ContinuesSteps(model: Model, before: Sample, all: Parse, rest: seq<Byte>, st: Sample, sent: seq<Token>)
    requires Valid(LayoutOf(model)) && AllWellFormed(LayoutOf(model), all.recs)
    requires Continues(ConfigOf(model), before, all, rest, st, sent) && rest != []
    ensures var r := RecordOf(model, st, rest);
      if r.code.Success? then
        0 < r.width <= |rest|
        && Continues(ConfigOf(model), before, all, rest[r.width..], r.output.state, sent + r.output.tokens)
      else
        r.output.tokens == [] && CodeOf(all.stop) == r.code
        && Run(ConfigOf(model), before, all.recs) == Output(r.output.state, sent)
  {
    hide Step, DecodeAll, DecodeOne, Run, Valid, WellFormed, LayoutOf;
    var c := ConfigOf(model);
    DecodeAllFirst(c.layout, rest);
    var r := RecordOf(model, st, rest);
    if r.code.Success? {
      var tail := DecodeAll(c.layout, rest[r.width..]);
      var rec := DecodeOne(c.layout, rest).rec;
      RunFirst(c, st, rec, tail.recs);
      var o := Run(c, r.output.state, tail.recs);
      ConcatAssoc(sent, r.output.tokens, o.tokens);
    } else {
      RunNone(c, st);
      assert sent + [] == sent;
    }
  }

  lemma ConsumedRecord(model: Model, st: Sample, s: seq<Byte>)
    requires Valid(LayoutOf(model)) && s != []
    ensures var r := RecordOf(model, st, s);
      if r.code.Success? then
        && 0 < r.width <= |s|
        && Consumed(LayoutOf(model), s) == r.width + Consumed(LayoutOf(model), s[r.width..])
      else r.width == 0 && Consumed(LayoutOf(model), s) == 0
  {
    hide Step, DecodeAll, DecodeOne, Consumed, Valid, WellFormed;
    ConsumedFirst(LayoutOf(model), s);
  }

  /** struct smart_parser_; a channel value and its have_* flag are one field. */
  class SmartParser {
    const model: Model
    var time: Word
    var complete: nat
    var depth: DepthGauge
    var temp: Gauge
    var pressure: Gauge
    var tank: nat
    var rbt: Gauge
    var heartrate: Gauge
    var bearing: Gauge
    var alarms: AlarmState

    /** The value of all mutable fields. */
    function State(): Sample
      reads this
    {
      Sample(time, complete, depth, temp, pressure, tank, rbt, heartrate, bearing, alarms)
    }

    constructor (model: Model)
      ensures this.model == model && State() == RESET
    {
      this.model := model;
      new;
      Reset();
    }

    method Reset()
      modifies this
      ensures State() == RESET
    {
      time := 0;
      depth := DepthGauge(0, false, 0, false);
      temp := Gauge(0, false);
      pressure := Gauge(0, false);
      rbt := Gauge(99, false);
      heartrate := Gauge(0, false);
      bearing := Gauge(0, false);
      alarms := AlarmState([0, 0, 0], false);
      tank := 0;
      complete := 0;
    }

    /** smart_parse_dti. */
    method ParseDti(e: Entry, value: nat, svalue: int)
      requires value < 0x1_0000 && (e.kind.Alarms? ==> e.idx < 3)
      modifies this
      ensures State() == Apply(e, value, svalue, old(State()))
    {
      match e.kind {
        case PressureDepth =>
          pressure := pressure.(value := U32(pressure.value + Signed(svalue / 256 % 256, 8) * 250));
          depth := depth.(value := U32(depth.value + Signed(svalue % 256, 8) * 2));
          complete := 1;
        case Rbt =>
          rbt := if e.abs then Gauge(value, true) else rbt.(value := U32(rbt.value + svalue));
        case Temperature =>
          temp := if e.abs then Gauge(U32(value * 40), true) else temp.(value := U32(temp.value + svalue * 40));
        case Pressure =>
          if e.abs {
            pressure := Gauge(U32(value * 250), true);
            tank := e.idx;
          } else {
            pressure := pressure.(value := U32(pressure.value + svalue * 250));
          }
        case Depth =>
          if e.abs {
            depth := depth.(value := U32(value * 2), have := true);
            if !depth.calibrated {
              depth := depth.(calibrated := true, dcal := depth.value);
            }
          } else {
            depth := depth.(value := U32(depth.value + svalue * 2));
          }
          complete := 1;
        case HeartRate =>
          heartrate := if e.abs then Gauge(value, true) else heartrate.(value := U32(heartrate.value + svalue));
        case Bearing =>
          bearing := Gauge(value, true);
        case Alarms =>
          alarms := AlarmState(alarms.flags[e.idx := value], true);
        case Time =>
          complete := value % 256;
      }
    }

    /** The body of the inner loop: the callbacks of one waypoint. */
    method SendWaypoint() returns (tokens: seq<Token>)
      requires complete > 0
      modifies this
      ensures tokens == Waypoint(ConfigOf(model).alarmNames, old(State()))
      ensures State() == AfterWaypoint(old(State()))
    {
      tokens := [WaypointTime(ToInt32(time))];
      if depth.have { tokens := tokens + [WaypointDepth(ToInt32(U32(depth.value - depth.dcal)))]; }
      var other := SendOtherData();
      tokens := tokens + other;
      time := U32(time + 4);
      complete := complete - 1;
    }

    /** The callbacks after time and depth; bearing and alarms are one-shot. */
    method SendOtherData() returns (tokens: seq<Token>)
      modifies this`bearing, this`alarms
      ensures tokens == OtherData(ConfigOf(model).alarmNames, old(State()))
      ensures bearing == old(bearing).(have := false) && alarms == old(alarms).(have := false)
    {
      tokens := if temp.have then [WaypointTemp(ToInt32(temp.value))] else [];
      tokens := tokens + (if pressure.have then [WaypointPressure(ToInt32(pressure.value), tank)] else []);
      tokens := tokens + (if rbt.have then [WaypointRbt(ToInt32(rbt.value))] else []);
      tokens := tokens + (if heartrate.have then [WaypointHeartRate(ToInt32(heartrate.value))] else []);
      tokens := tokens + (if bearing.have then [WaypointBearing(ToInt32(bearing.value))] else []);
      bearing := bearing.(have := false);
      var sent := [];
      if alarms.have {
        sent := SendAlarms();
        alarms := alarms.(have := false);
      }
      tokens := tokens + sent;
    }

    /** The two loops over the alarm flags. */
    method SendAlarms() returns (tokens: seq<Token>)
      ensures tokens == AlarmTokens(ConfigOf(model).alarmNames, alarms.flags, 27)
    {
      hide AlarmSet, AlarmToken, ConfigOf;
      tokens := [];
      var i := 0;
      while i < 3
        invariant i <= 3 && tokens == AlarmTokens(ConfigOf(model).alarmNames, alarms.flags, 9 * i)
      {
        var j := 0;
        while j < 9
          invariant j <= 9 && tokens == AlarmTokens(ConfigOf(model).alarmNames, alarms.flags, 9 * i + j)
        {
          if AlarmSet(alarms.flags, i, j) {
            tokens := tokens + [AlarmToken(ConfigOf(model).alarmNames, i, j)];
          }
          j := j + 1;
        }
        i := i + 1;
      }
    }

    /** The loop over the extra bytes of smart_process_dti. */
    method ReadExtra(data: seq<Byte>, start: nat, extra: nat, low: nat) returns (value: nat)
      requires start + extra <= |data|
      ensures value == BigEndian(low, data[start..start + extra])
    {
      value := low;
      var i := 0;
      while i < extra
        invariant i <= extra
        invariant BigEndian(value, data[start + i..start + extra]) == BigEndian(low, data[start..start + extra])
      {
        ghost var rest := data[start + i..start + extra];
        assert rest[0] == data[start + i] && rest[1..] == data[start + i + 1..start + extra];
        value := value * 256 + data[start + i];
        i := i + 1;
      }
    }

    /** The part of smart_process_dti before the overflow test: skips the type bits and reads the
        payload bits that share a byte with them. */
    method ReadLow(data: seq<Byte>, start: nat, e: Entry) returns (offset: nat, value: nat, nbits: nat)
      requires start < |data| && (e.ntb + 7) / 8 <= |data| - start
      requires e.ignore ==> e.ntb % 8 > 0
      ensures offset == start + (e.ntb + 7) / 8
      ensures value == if e.ntb % 8 > 0 && !e.ignore then data[start + e.ntb / 8] % Pow2(8 - e.ntb % 8) else 0
      ensures nbits == if e.ignore then 0 else LeftoverBits(e)
    {
      offset := start + e.ntb / 8;
      value, nbits := 0, 0;
      var n := e.ntb % 8;
      if n > 0 {
        nbits := 8 - n;
        value := data[offset] % Pow2(8 - n);
        if e.ignore {
          nbits := 0;
          value := 0;
        }
        offset := offset + 1;
      }
    }

    /** smart_process_dti: reads the payload and moves the offset past the record. */
    method ReadDti(data: seq<Byte>, start: nat, id: nat, e: Entry)
      returns (code: Code, offset: nat, value: nat, svalue: int)
      requires start < |data| < TWO_32
      requires RowOk(model.GalileoSol?, id, e) && (e.ntb + 7) / 8 <= |data| - start
      ensures code == if start + (e.ntb + 7) / 8 + e.extra <= |data| then Success
                      else if OverflowDetected(start + (e.ntb + 7) / 8, e.extra, |data|) then DtiPastEnd
                      else OverflowMissed
      ensures code.Success? ==> offset == start + (e.ntb + 7) / 8 + e.extra
      ensures code.Success? ==> value == BigEndian(
        if e.ntb % 8 > 0 && !e.ignore then data[start + e.ntb / 8] % Pow2(8 - e.ntb % 8) else 0,
        data[start + (e.ntb + 7) / 8..offset])
      ensures code.Success? ==> svalue == SignedValue(e, value)
    {
      hide BigEndian, Pow2, FixSignBit;
      var nbits;
      svalue := 0;
      offset, value, nbits := ReadLow(data, start, e);
      if U32(offset + e.extra) > |data| { return DtiPastEnd, offset, value, svalue; }
      if offset + e.extra > |data| { return OverflowMissed, offset, value, svalue; }
      value := ReadExtra(data, offset, e.extra, value);
      nbits := nbits + 8 * e.extra;
      offset := offset + e.extra;
      svalue := ToInt32(FixSignBit(value, nbits));
      code := Success;
    }

    /** What ReadDti returns is what ProcessDti specifies. */
    lemma ReadDtiAgrees(data: seq<Byte>, start: nat, id: nat, e: Entry, value: nat)
      requires start < |data| && RowOk(model.GalileoSol?, id, e) && (e.ntb + 7) / 8 <= |data| - start
      ensures var w := (e.ntb + 7) / 8 + e.extra;
        var o := ProcessDti(id, e, data[start..]);
        && (start + w > |data| ==> o == Truncated)
        && (start + w <= |data| && value == BigEndian(
              if e.ntb % 8 > 0 && !e.ignore then data[start + e.ntb / 8] % Pow2(8 - e.ntb % 8) else 0,
              data[start + (e.ntb + 7) / 8..start + w]) ==>
            o.Got? && o.rec.value == value < 0x1_0000 && o.width == w && o.rec.id == id)
    {
      hide ProcessDti, BigEndian, Pow2, Payload, Fits;
      var s, w := data[start..], (e.ntb + 7) / 8 + e.extra;
      ProcessDtiPieces(id, e, s, w);
      if w <= |s| {
        ProcessDtiWrites(model.GalileoSol?, id, e, s);
        ValueInRange(e, ProcessDti(id, e, s).rec);
        assert data[start + (e.ntb + 7) / 8..start + w] == s[w - e.extra..w];
      }
    }

    /** The inner loop of parse_profile. */
    method DrainSample() returns (tokens: seq<Token>)
      modifies this
      ensures Output(State(), tokens) == Drain(ConfigOf(model).alarmNames, old(State()))
    {
      hide Waypoint, AfterWaypoint, Drain, ConfigOf;
      tokens := [];
      while complete > 0
        invariant var rest := Drain(ConfigOf(model).alarmNames, State());
          Output(rest.state, tokens + rest.tokens) == Drain(ConfigOf(model).alarmNames, old(State()))
        decreases complete
      {
        DrainStep(ConfigOf(model).alarmNames, State(), tokens);
        var sent := SendWaypoint();
        tokens := tokens + sent;
      }
      DrainNone(ConfigOf(model).alarmNames, State(), tokens);
    }

    /** Tag identification at the current offset. */
    method FindRow(data: seq<Byte>, start: nat) returns (id: nat)
      requires start < |data|
      ensures id == Identify(LayoutOf(model), data[start..])
    {
      if model.GalileoSol? {
        id := GalileoIdentify(data[start]);
      } else {
        id := SmartIdentify(data[start..]);
      }
    }

    /** Reads and applies a record whose table row has been found. */
    method ParseRow(data: seq<Byte>, start: nat, id: nat, e: Entry)
      returns (code: Code, next: nat, tokens: seq<Token>)
      requires start < |data| < TWO_32
      requires RowOk(model.GalileoSol?, id, e) && (e.ntb + 7) / 8 <= |data| - start
      modifies this
      ensures var o := ProcessDti(id, e, data[start..]);
        if code.Success? then
          && o.Got? && o.rec.id == id && o.rec.value < 0x1_0000 && next == start + o.width
          && Output(State(), tokens) ==
               Drain(ConfigOf(model).alarmNames, Apply(e, o.rec.value, SignedValue(e, o.rec.value), old(State())))
        else
          && o == Truncated && State() == old(State()) && tokens == []
          && start + (e.ntb + 7) / 8 + e.extra > |data|
          && code == if OverflowDetected(start + (e.ntb + 7) / 8, e.extra, |data|) then DtiPastEnd else OverflowMissed
    {
      tokens := [];
      var value, svalue;
      code, next, value, svalue := ReadDti(data, start, id, e);
      ReadDtiAgrees(data, start, id, e, value);
      if code.Success? {
        ghost var o := ProcessDti(id, e, data[start..]);
        assert o.rec.value == value;
        hide ProcessDti, BigEndian, SignedValue, Apply, ConfigOf, Drain, Pow2, RowOk, PayloadBits, FixSignBit;
        assert e.kind.Alarms? ==> e.idx < 3;
        ParseDti(e, value, svalue);
        tokens := DrainSample();
      }
    }

    /** One iteration of the outer loop of parse_profile. */
    method ParseRecord(data: seq<Byte>, start: nat) returns (code: Code, next: nat, tokens: seq<Token>)
      requires start < |data| < TWO_32
      modifies this
      ensures next >= start
      ensures var r := RecordOf(model, old(State()), data[start..]);
        code == CodeAt(model, data, start, r.code) && next - start == r.width && Output(State(), tokens) == r.output
    {
      hide Table, ProcessDti, Drain, Apply, SignedValue, RecordOf, CodeAt, Identify, OverflowDetected, ConfigOf;
      LayoutsValid(model);
      ghost var s, st := data[start..], State();
      var id := FindRow(data, start);
      if id >= |Table(model)| {
        RecordOfNone(model, st, s, id);
        CodeAtOther(model, data, start, InvalidDtiCode);
        CodeAtOther(model, data, start, UndefinedRow);
      }
      if id > |Table(model)| { return InvalidDtiCode, start, []; }
      if id == |Table(model)| { return UndefinedRow, start, []; }
      RecordOfRow(model, st, s, id);
      CodeAtRow(model, data, start, id);
      CodeAtOther(model, data, start, Success);
      code, next, tokens := ParseRow(data, start, id, Table(model)[id]);
      if code != Success { next := start; }
    }

    /** smart_parser_parse_profile. */
    method ParseProfile(buffer: seq<Byte>) returns (code: Code, tokens: seq<Token>)
      modifies this
      ensures Result(code, Output(State(), tokens)) == ProfileOf(model, buffer, old(State()))
    {
      hide Uint32Le, Run, DecodeAll, Valid, WellFormed, RecordOf, Consumed, CodeAt, ProfileOf, Continues, Table;
      ProfileOfChecks(model, buffer, State());
      tokens := [];
      if |buffer| < HeaderSize(model) { return BufferTooShort, []; }
      if Uint32Le(buffer, 4) != |buffer| { return SizeMismatch, []; }
      LayoutsValid(model);
      ghost var c := ConfigOf(model);
      var offset := HeaderSize(model);
      ghost var all := DecodeAll(c.layout, buffer[offset..]);
      ghost var before := State();
      ProfileOfBody(model, buffer, before);
      ContinuesStarts(model, before, buffer[offset..]);
      ghost var end := offset + Consumed(c.layout, buffer[offset..]);
      while offset < |buffer|
        invariant HeaderSize(model) <= offset <= |buffer|
        invariant Continues(c, before, all, buffer[offset..], State(), tokens)
        invariant offset + Consumed(c.layout, buffer[offset..]) == end
      {
        ghost var s, st := buffer[offset..], State();
        ContinuesSteps(model, before, all, s, st, tokens);
        ConsumedRecord(model, st, s);
        CodeAtOther(model, buffer, offset, RecordOf(model, st, s).code);
        var result, next, sent := ParseRecord(buffer, offset);
        tokens := tokens + sent;
        if result != Success { return result, tokens; }
        assert s[next - offset..] == buffer[next..];
        offset := next;
      }
      assert buffer[offset..] == [];
      ContinuesEnds(model, before, all, State(), tokens);
      CodeAtOther(model, buffer, end, Success);
      return Success, tokens;
    }
  }

  /** smart_parser_create: a parser in its reset state, or none for a number that is not a known model. */
  method Create(number: int) returns (parser: SmartParser?)
    ensures parser == null <==> number !in {16, 17, 18, 19, 20, 24, 28}
    ensures parser == null <==> ModelOf(number).None?
    ensures parser != null ==> parser.model == ModelOf(number).value && parser.State() == RESET && fresh(parser)
  {
    var model := ModelOf(number);
    if model.None? { return null; }
    parser := new SmartParser(model.value);
  }
}
