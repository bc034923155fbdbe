/**
  Whole-buffer results about parse_profile: which buffers it accepts, where its table bound fails,
  and what it reports for an encoded dive.
 */
module ProfileTheorems {
  import opened Words
  import opened DtiTables
  import opened DtiCodec
  import opened ProfileSpec
  import opened ProfileLaws
  import opened ProfileParser

  /** The bytes at the head of a record for which identification yields the index equal to the table
      size.  The bound test `id > dti_size` lets exactly these through to a missing row. */
  predicate MissingRowBytes(model: Model, s: seq<Byte>) {
    match model
    case GalileoSol => s != [] && s[0] == 0xFA
    case SmartPro => |s| >= 2 && s[0] == 0xFF && s[1] < 0x80
    case AladinTec => |s| >= 2 && s[0] == 0xFF && 0x80 <= s[1] < 0xC0
    case AladinTec2G => |s| >= 2 && s[0] == 0xFF && 0x80 <= s[1] < 0xC0
    case SmartCom => |s| >= 2 && s[0] == 0xFF && 0xF0 <= s[1] < 0xF8
    case SmartTec => |s| >= 2 && s[0] == 0xFF && 0xFC <= s[1] < 0xFE
    case SmartZ => |s| >= 2 && s[0] == 0xFF && 0xFC <= s[1] < 0xFE
  }

  lemma MissingRowExactly(model: Model, s: seq<Byte>)
    requires s != []
    ensures Valid(LayoutOf(model))
    ensures DecodeOne(LayoutOf(model), s) == PastTable <==> MissingRowBytes(model, s)
  {
    LayoutsValid(model);
    TableSize(model);
    if !model.GalileoSol? {
      if |s| >= 2 {
        UnaryTagStep(s);
      } else {
        assert s[1..] == [];
      }
    }
    hide Table, ProcessDti;
  }

  lemma TableSize(model: Model)
    ensures |Table(model)| == match model
      case SmartPro => 8 case GalileoSol => 17 case AladinTec => 9 case AladinTec2G => 9
      case SmartCom => 12 case SmartTec => 14 case SmartZ => 14
  {
  }

  /** A buffer whose header declares its size: four bytes, the size, the other header fields, the body. */
  function WithHeader(model: Model, start: seq<Byte>, fields: seq<Byte>, body: seq<Byte>): (buffer: seq<Byte>)
    requires |start| == 4 && |fields| == HeaderSize(model) - 8 && HeaderSize(model) + |body| < TWO_32
    ensures |buffer| == HeaderSize(model) + |body|
  {
    start + Le32(HeaderSize(model) + |body|) + fields + body
  }

  lemma HeaderDeclares(model: Model, start: seq<Byte>, fields: seq<Byte>, body: seq<Byte>)
    requires |start| == 4 && |fields| == HeaderSize(model) - 8 && HeaderSize(model) + |body| < TWO_32
    ensures var buffer := WithHeader(model, start, fields, body);
      && buffer[..4] == start && Uint32Le(buffer, 4) == |buffer|
      && buffer[8..HeaderSize(model)] == fields && buffer[HeaderSize(model)..] == body
  {
    hide HeaderSize, Uint32Le, Le32;
    var size := HeaderSize(model) + |body|;
    var buffer := WithHeader(model, start, fields, body);
    Le32Reads(size, start, fields + body);
    assert buffer == start + Le32(size) + (fields + body);
  }

  /** The length checks of parse_profile. */
  predicate LengthsOk(model: Model, buffer: seq<Byte>) {
    |buffer| >= HeaderSize(model) && Uint32Le(buffer, 4) == |buffer|
  }

  /** The records `recs` end before the end of the buffer, and `rest` is what follows them. */
  predicate RestAfter(model: Model, buffer: seq<Byte>, recs: seq<Record>, rest: seq<Byte>)
    requires Valid(LayoutOf(model)) && AllWellFormed(LayoutOf(model), recs)
  {
    |buffer| >= HeaderSize(model) && buffer[HeaderSize(model)..] == EncodeAll(LayoutOf(model), recs) + rest
  }

  /** What parse_profile reports and sends when well-formed records are followed by bytes that stop it. */
  lemma StoppedProfile(model: Model, buffer: seq<Byte>, st: Sample, recs: seq<Record>, rest: seq<Byte>, stop: Stop)
    requires Valid(LayoutOf(model)) && AllWellFormed(LayoutOf(model), recs)
    requires LengthsOk(model, buffer) && RestAfter(model, buffer, recs, rest) && StopsWith(LayoutOf(model), rest, stop)
    ensures var r := ProfileOf(model, buffer, st);
      r.output == Run(ConfigOf(model), st, recs) && r.code == CodeAt(model, buffer, |buffer| - |rest|, CodeOf(stop))
  {
    hide Run, Table, EncodeAll, Valid, WellFormed, StopsWith, DecodeAll, CodeAt, Uint32Le, HeaderSize;
    var m, body := LayoutOf(model), buffer[HeaderSize(model)..];
    var code := EncodeAll(m, recs);
    assert body[|code|..] == rest && code <= body;
    StoppedRecords(m, body, recs, stop);
  }

  /** Every result of parse_profile past the length checks comes about in exactly this way. */
  lemma ProfileStops(model: Model, buffer: seq<Byte>, st: Sample) returns (recs: seq<Record>, rest: seq<Byte>, stop: Stop)
    requires LengthsOk(model, buffer)
    ensures Valid(LayoutOf(model)) && AllWellFormed(LayoutOf(model), recs)
    ensures RestAfter(model, buffer, recs, rest) && StopsWith(LayoutOf(model), rest, stop)
    ensures ProfileOf(model, buffer, st).code == CodeAt(model, buffer, |buffer| - |rest|, CodeOf(stop))
  {
    hide Run, Table, EncodeAll, Valid, WellFormed, StopsWith, DecodeAll, CodeAt, Uint32Le, HeaderSize, DecodeOne;
    LayoutsValid(model);
    var m, body := LayoutOf(model), buffer[HeaderSize(model)..];
    recs, stop := DecodeAll(m, body).recs, DecodeAll(m, body).stop;
    rest := body[Consumed(m, body)..];
    AcceptedStreamsAreEncodings(m, body);
    RestStops(m, body);
    assert body == EncodeAll(m, recs) + rest;
    StoppedProfile(model, buffer, st, recs, rest, stop);
  }

  /** When parse_profile reads the row that does not exist: exactly when well-formed records lead to the
      bytes that MissingRowBytes names. */
  lemma UndefinedRowExactly(model: Model, buffer: seq<Byte>, st: Sample)
    ensures Valid(LayoutOf(model))
    ensures ProfileOf(model, buffer, st).code.UndefinedRow? <==>
      LengthsOk(model, buffer) && (exists recs: seq<Record> | AllWellFormed(LayoutOf(model), recs) ::
        exists rest :: RestAfter(model, buffer, recs, rest) && MissingRowBytes(model, rest))
  {
    hide Run, Table, EncodeAll, Valid, WellFormed, DecodeAll, DecodeOne, RestAfter, MissingRowBytes, WrapsAt;
    LayoutsValid(model);
    var m := LayoutOf(model);
    if ProfileOf(model, buffer, st).code.UndefinedRow? {
      var recs, rest, stop := ProfileStops(model, buffer, st);
      MissingRowExactly(model, rest);
      assert RestAfter(model, buffer, recs, rest) && MissingRowBytes(model, rest);
    }
    if LengthsOk(model, buffer) {
      forall recs: seq<Record>, rest | AllWellFormed(m, recs) && RestAfter(model, buffer, recs, rest)
                                       && MissingRowBytes(model, rest)
        ensures ProfileOf(model, buffer, st).code.UndefinedRow?
      {
        MissingRowNotEmpty(model, rest);
        MissingRowExactly(model, rest);
        StoppedProfile(model, buffer, st, recs, rest, NoSuchRow);
      }
    }
  }

  lemma MissingRowNotEmpty(model: Model, s: seq<Byte>)
    requires MissingRowBytes(model, s)
    ensures s != []
  {
  }

  /** The claim that identification never runs past the table is false of parse_profile: a Galileo buffer
      of the right length whose body is the one byte 0xFA. */
  lemma MissingRowWitness(start: seq<Byte>, fields: seq<Byte>)
    requires |start| == 4 && |fields| == 144
    ensures ProfileOf(GalileoSol, WithHeader(GalileoSol, start, fields, [0xFA]), RESET) ==
      Result(UndefinedRow, Output(RESET, []))
  {
    hide Run, Table, DecodeOne, DecodeAll, Le32, Uint32Le, Valid, WrapsAt;
    var buffer := WithHeader(GalileoSol, start, fields, [0xFA]);
    LayoutsValid(GalileoSol);
    HeaderDeclares(GalileoSol, start, fields, [0xFA]);
    MissingRowExactly(GalileoSol, [0xFA]);
    assert EncodeAll(LayoutOf(GalileoSol), []) + [0xFA] == [0xFA];
    StoppedProfile(GalileoSol, buffer, RESET, [], [0xFA], NoSuchRow);
    RunNone(ConfigOf(GalileoSol), RESET);
  }

  /** The record at the head of `rest`, at position pos of its buffer, ends past byte 2^32. */
  predicate EndsPast(model: Model, rest: seq<Byte>, pos: int) {
    rest != [] && Identify(LayoutOf(model), rest) < |Table(model)| &&
    var e := Table(model)[Identify(LayoutOf(model), rest)];
    pos + (e.ntb + 7) / 8 + e.extra >= TWO_32
  }

  lemma WrapExactly(low: nat, extra: nat, size: nat)
    requires low <= size < TWO_32 && extra <= 2
    ensures low + extra > size && !OverflowDetected(low, extra, size) <==> low + extra >= TWO_32
    ensures low + extra >= TWO_32 ==> size + 2 >= TWO_32
  {
  }

  lemma RowRoom(model: Model, rest: seq<Byte>)
    requires Valid(LayoutOf(model)) && rest != [] && Identify(LayoutOf(model), rest) < |Table(model)|
    ensures var e := Table(model)[Identify(LayoutOf(model), rest)];
      && (e.ntb + 7) / 8 <= |rest| && e.extra <= 2
      && ((e.ntb + 7) / 8 + e.extra > |rest| ==> DecodeOne(LayoutOf(model), rest).Truncated?)
  {
    hide Table, Identify, Valid, ProcessDti;
    var m := LayoutOf(model);
    var id := Identify(m, rest);
    RowOf(m, id);
    FirstPayloadByteInside(m, rest);
    ProcessDtiPieces(id, m.rows[id], rest, (m.rows[id].ntb + 7) / 8 + m.rows[id].extra);
  }

  lemma WrapsExactly(model: Model, buffer: seq<Byte>, pos: nat)
    requires Valid(LayoutOf(model)) && pos <= |buffer| < TWO_32
    ensures WrapsAt(model, buffer, pos) <==> EndsPast(model, buffer[pos..], pos)
    ensures EndsPast(model, buffer[pos..], pos) ==>
      |buffer| + 2 >= TWO_32 && DecodeOne(LayoutOf(model), buffer[pos..]).Truncated?
  {
    hide Table, Identify, Valid, OverflowDetected, DecodeOne, LayoutOf;
    var rest := buffer[pos..];
    if rest != [] && Identify(LayoutOf(model), rest) < |Table(model)| {
      var e := Table(model)[Identify(LayoutOf(model), rest)];
      RowRoom(model, rest);
      WrapExactly(pos + (e.ntb + 7) / 8, e.extra, |buffer|);
    }
  }

  /** When the wrapped overflow test lets a record through: exactly when well-formed records lead to one that
      ends past byte 2^32, which takes a buffer of at least 2^32 - 2 bytes. */
  lemma OverflowMissedExactly(model: Model, buffer: seq<Byte>, st: Sample)
    ensures Valid(LayoutOf(model))
    ensures ProfileOf(model, buffer, st).code.OverflowMissed? <==>
      LengthsOk(model, buffer) && (exists recs: seq<Record> | AllWellFormed(LayoutOf(model), recs) ::
        exists rest :: RestAfter(model, buffer, recs, rest) && EndsPast(model, rest, |buffer| - |rest|))
    ensures ProfileOf(model, buffer, st).code.OverflowMissed? ==> |buffer| + 2 >= TWO_32
  {
    hide Run, Table, EncodeAll, Valid, WellFormed, DecodeAll, DecodeOne, RestAfter, EndsPast, WrapsAt, Uint32Le;
    LayoutsValid(model);
    var m := LayoutOf(model);
    if ProfileOf(model, buffer, st).code.OverflowMissed? {
      var recs, rest, stop := ProfileStops(model, buffer, st);
      RestInside(model, buffer, recs, rest);
      WrapsExactly(model, buffer, |buffer| - |rest|);
      assert RestAfter(model, buffer, recs, rest) && EndsPast(model, rest, |buffer| - |rest|);
    }
    if LengthsOk(model, buffer) {
      forall recs: seq<Record>, rest | AllWellFormed(m, recs) && RestAfter(model, buffer, recs, rest)
                                       && EndsPast(model, rest, |buffer| - |rest|)
        ensures ProfileOf(model, buffer, st).code.OverflowMissed?
      {
        RestInside(model, buffer, recs, rest);
        WrapsExactly(model, buffer, |buffer| - |rest|);
        WrapsNotEmpty(model, buffer, |buffer| - |rest|);
        StoppedProfile(model, buffer, st, recs, rest, PastEnd);
      }
    }
  }

  /** n records of one byte each: relative depth 0 of the Smart Pro. */
  function Still(n: nat): seq<Record> {
    if n == 0 then [] else [Record(0, 0, 0)] + Still(n - 1)
  }

  lemma {:induction false} StillBytes(n: nat)
    ensures Valid(LayoutOf(SmartPro)) && AllWellFormed(LayoutOf(SmartPro), Still(n))
    ensures |EncodeAll(LayoutOf(SmartPro), Still(n))| == n
  {
    hide Encode, Valid;
    LayoutsValid(SmartPro);
    if n > 0 {
      StillBytes(n - 1);
      StillByte();
      assert Still(n)[1..] == Still(n - 1);
    }
  }

  lemma StillByte()
    ensures Valid(LayoutOf(SmartPro)) && WellFormed(LayoutOf(SmartPro), Record(0, 0, 0))
    ensures |Encode(LayoutOf(SmartPro), Record(0, 0, 0))| == 1
  {
    LayoutsValid(SmartPro);
    Pow2Values();
    hide EncodeRow;
  }

  /** The claim that the overflow test keeps the parser inside its buffer is false of parse_profile: a Smart
      Pro buffer of 2^32 - 1 bytes, all records of one byte but for a last byte that begins one of three. */
  lemma OverflowMissedWitness(start: seq<Byte>, fields: seq<Byte>, st: Sample)
    requires |start| == 4 && |fields| == 84
    ensures Valid(LayoutOf(SmartPro)) && AllWellFormed(LayoutOf(SmartPro), Still(TWO_32 - 94))
    ensures |EncodeAll(LayoutOf(SmartPro), Still(TWO_32 - 94))| == TWO_32 - 94
    ensures var body := EncodeAll(LayoutOf(SmartPro), Still(TWO_32 - 94)) + [0xFC];
      ProfileOf(SmartPro, WithHeader(SmartPro, start, fields, body), st).code == OverflowMissed
  {
    hide Run, Table, DecodeOne, DecodeAll, Le32, Uint32Le, Valid, WithHeader, ProfileOf, EndsPast, EncodeAll, Still;
    StillBytes(TWO_32 - 94);
    var recs := Still(TWO_32 - 94);
    var body := EncodeAll(LayoutOf(SmartPro), recs) + [0xFC];
    var buffer := WithHeader(SmartPro, start, fields, body);
    HeaderDeclares(SmartPro, start, fields, body);
    LastByteEndsPast();
    OverflowMissedExactly(SmartPro, buffer, st);
    assert RestAfter(SmartPro, buffer, recs, [0xFC]) && EndsPast(SmartPro, [0xFC], |buffer| - 1);
  }

  lemma LastByteEndsPast()
    ensures EndsPast(SmartPro, [0xFC], TWO_32 - 2)
  {
    assert Identify(LayoutOf(SmartPro), [0xFC]) == 6;
  }

  lemma WrapsNotEmpty(model: Model, buffer: seq<Byte>, pos: nat)
    requires WrapsAt(model, buffer, pos)
    ensures pos < |buffer|
  {
  }

  lemma RestInside(model: Model, buffer: seq<Byte>, recs: seq<Record>, rest: seq<Byte>)
    requires Valid(LayoutOf(model)) && AllWellFormed(LayoutOf(model), recs) && RestAfter(model, buffer, recs, rest)
    ensures |rest| <= |buffer| && buffer[|buffer| - |rest|..] == rest
  {
    hide EncodeAll, Valid, WellFormed, Table, HeaderSize;
    var body, code := buffer[HeaderSize(model)..], EncodeAll(LayoutOf(model), recs);
    assert body[|code|..] == rest;
  }

  /** parse_profile succeeds exactly on buffers whose declared size is right and whose body is the
      encoding of some list of well-formed records. */
  lemma SuccessExactly(model: Model, buffer: seq<Byte>, st: Sample)
    ensures Valid(LayoutOf(model))
    ensures ProfileOf(model, buffer, st).code.Success? <==>
      && |buffer| >= HeaderSize(model)
      && Uint32Le(buffer, 4) == |buffer|
      && exists recs: seq<Record> | AllWellFormed(LayoutOf(model), recs) ::
           buffer[HeaderSize(model)..] == EncodeAll(LayoutOf(model), recs)
  {
    hide Run, Table, DecodeOne, DecodeAll, EncodeAll, Valid, WellFormed;
    LayoutsValid(model);
    var m := LayoutOf(model);
    if |buffer| >= HeaderSize(model) && Uint32Le(buffer, 4) == |buffer| {
      var body := buffer[HeaderSize(model)..];
      AcceptedStreamsAreEncodings(m, body);
      if recs: seq<Record> :| AllWellFormed(m, recs) && body == EncodeAll(m, recs) {
        RoundTrip(m, recs);
      }
    }
  }

  /** Parsing splits at every record boundary of the bytes: first the records, then what the rest decodes
      to, from the state they leave. */
  lemma ProfileSplits(model: Model, buffer: seq<Byte>, st: Sample, a: seq<Record>, rest: seq<Byte>)
    requires Valid(LayoutOf(model)) && AllWellFormed(LayoutOf(model), a)
    requires LengthsOk(model, buffer) && RestAfter(model, buffer, a, rest)
    ensures AllWellFormed(LayoutOf(model), DecodeAll(LayoutOf(model), rest).recs)
    ensures var first := Run(ConfigOf(model), st, a);
      var second := Run(ConfigOf(model), first.state, DecodeAll(LayoutOf(model), rest).recs);
      ProfileOf(model, buffer, st).output == Output(second.state, first.tokens + second.tokens)
  {
    hide Run, Table, EncodeAll, Valid, WellFormed, DecodeAll, CodeAt, Uint32Le, HeaderSize, Consumed;
    var m := LayoutOf(model);
    DecodeSplits(m, a, rest);
    AcceptedStreamsAreEncodings(m, rest);
    RunSplits(ConfigOf(model), st, a, DecodeAll(m, rest).recs);
  }

  /** A fresh parser on an encoded dive: it succeeds, sends the time stamps 0, 4, 8, ... one for every
      waypoint of the records, and shows exactly the calibrated depths. */
  lemma EncodedDive(model: Model, start: seq<Byte>, fields: seq<Byte>, recs: seq<Record>)
    requires Valid(LayoutOf(model)) && AllWellFormed(LayoutOf(model), recs)
    requires |start| == 4 && |fields| == HeaderSize(model) - 8
    requires HeaderSize(model) + |EncodeAll(LayoutOf(model), recs)| < TWO_32
    ensures var buffer := WithHeader(model, start, fields, EncodeAll(LayoutOf(model), recs));
      var r := ProfileOf(model, buffer, RESET);
      && r.code == Success
      && r.output == Run(ConfigOf(model), RESET, recs)
      && ValuesOn(TimeChannel, r.output.tokens) == TimeStamps(0, Waypoints(LayoutOf(model), recs))
      && ValuesOn(DepthChannel, r.output.tokens) == ExpectedDepths(LayoutOf(model), recs)
  {
    hide Run, Table, HeaderSize, EncodeAll, Waypoints, ExpectedDepths, ValuesOn, Valid, WellFormed;
    hide DecodeAll, DecodeOne, Uint32Le, Le32, WithHeader, WrapsAt;
    var code := EncodeAll(LayoutOf(model), recs);
    HeaderDeclares(model, start, fields, code);
    assert code + [] == code;
    StoppedProfile(model, WithHeader(model, start, fields, code), RESET, recs, [], Clean);
    RunConserves(ConfigOf(model), recs);
  }
}
