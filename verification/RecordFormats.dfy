/**
  The record formats bit by bit: what the first bits of a record say for each model number, and which bits
  are its payload.  The rows are written as the bit patterns that stand beside the tables of the source.
 */
module RecordFormats {
  import opened Words
  import opened Wrappers
  import opened DtiTables
  import opened DtiCodec
  import opened ProfileSpec
  import opened ProfileParser
  import ProfileTheorems

  /** A record format: its first bits, bits without meaning, payload bits, and what the payload is. */
  datatype Row = Row(tag: string, skipped: nat, bits: nat, kind: Kind, abs: bool, idx: nat)

  const PRO_ROWS: seq<Row> := [
    Row("0", 0, 7, Depth, false, 0),
    Row("10", 0, 6, Temperature, false, 0),
    Row("110", 0, 5, Time, true, 0),
    Row("1110", 0, 4, Alarms, true, 0),
    Row("11110", 0, 11, Depth, false, 0),
    Row("111110", 0, 10, Temperature, false, 0),
    Row("1111110", 1, 16, Depth, true, 0),
    Row("11111110", 0, 16, Temperature, true, 0)]

  const GALILEO_ROWS: seq<Row> := [
    Row("0", 0, 7, Depth, false, 0),
    Row("100", 0, 5, Rbt, false, 0),
    Row("1010", 0, 4, Pressure, false, 0),
    Row("1011", 0, 4, Temperature, false, 0),
    Row("1100", 0, 4, Time, true, 0),
    Row("1101", 0, 4, HeartRate, false, 0),
    Row("1110", 0, 4, Alarms, true, 0),
    Row("11110000", 0, 8, Alarms, true, 1),
    Row("11110001", 0, 16, Depth, true, 0),
    Row("11110010", 0, 8, Rbt, true, 0),
    Row("11110011", 0, 16, Temperature, true, 0),
    Row("11110100", 0, 16, Pressure, true, 0),
    Row("11110101", 0, 16, Pressure, true, 1),
    Row("11110110", 0, 16, Pressure, true, 2),
    Row("11110111", 0, 8, HeartRate, true, 0),
    Row("11111000", 0, 16, Bearing, true, 0),
    Row("11111001", 0, 8, Alarms, true, 2)]

  const COM_ROWS: seq<Row> := [
    Row("0", 0, 15, PressureDepth, false, 0),
    Row("10", 0, 6, Rbt, false, 0),
    Row("110", 0, 5, Temperature, false, 0),
    Row("1110", 0, 12, Pressure, false, 0),
    Row("11110", 0, 11, Depth, false, 0),
    Row("111110", 0, 10, Temperature, false, 0),
    Row("1111110", 1, 8, Alarms, true, 0),
    Row("11111110", 0, 8, Time, true, 0),
    Row("111111110", 7, 16, Depth, true, 0),
    Row("1111111110", 6, 16, Temperature, true, 0),
    Row("11111111110", 5, 16, Pressure, true, 0)]

  const ALADIN_ROWS: seq<Row> := PRO_ROWS + [Row("111111110", 0, 7, Alarms, true, 1)]

  const TEC_ROWS: seq<Row> := COM_ROWS + [
    Row("111111111110", 4, 16, Pressure, true, 1),
    Row("1111111111110", 3, 16, Pressure, true, 2),
    Row("11111111111110", 2, 8, Rbt, true, 0)]

  /** What smart_parser_create makes of a model number: header size, record formats, alarm names. */
  datatype Format = Format(header: nat, rows: seq<Row>, alarms: seq<AlarmEntry>)

  const FORMATS: map<int, Format> := map[
    16 := Format(92, PRO_ROWS, []),
    17 := Format(152, GALILEO_ROWS, []),
    18 := Format(108, ALADIN_ROWS, []),
    19 := Format(116, ALADIN_ROWS, [AlarmEntry(0, 2, "ascent"), AlarmEntry(0, 4, "bookmark")]),
    20 := Format(100, COM_ROWS + [Row("111111111110", 4, 8, Rbt, true, 0)], []),
    24 := Format(132, TEC_ROWS, []),
    28 := Format(132, TEC_ROWS, [])]

  /** s begins with the bits of the tag. */
  predicate Begins(tag: string, s: seq<Byte>) {
    |tag| <= 8 * |s| && forall k :: 0 <= k < |tag| ==> (BitAt(s, k) == 1 <==> tag[k] == '1')
  }

  /** Bits a..b of a byte string as a number, the first bit the most significant. */
  function BitsValue(s: seq<Byte>, a: nat, b: nat): nat
    requires a <= b <= 8 * |s|
    decreases b
  {
    if a == b then 0 else 2 * BitsValue(s, a, b - 1) + BitAt(s, b - 1)
  }

  // ---------------------------------------------------------------- tags

  /** The first n characters of a tag as a binary number. */
  function TagValue(tag: string, n: nat): nat
    requires n <= |tag|
  {
    if n == 0 then 0 else 2 * TagValue(tag, n - 1) + Digit(tag[n - 1])
  }

  function Digit(c: char): nat {
    if c == '1' then 1 else 0
  }

  lemma TagValueEight(tag: string)
    requires |tag| == 8
    ensures TagValue(tag, 8) == 128 * Digit(tag[0]) + 64 * Digit(tag[1]) + 32 * Digit(tag[2]) + 16 * Digit(tag[3])
      + 8 * Digit(tag[4]) + 4 * Digit(tag[5]) + 2 * Digit(tag[6]) + Digit(tag[7])
  {
    hide Digit;
    assert TagValue(tag, 1) == Digit(tag[0]);
    assert TagValue(tag, 2) == 2 * Digit(tag[0]) + Digit(tag[1]);
    assert TagValue(tag, 4) == 4 * TagValue(tag, 2) + 2 * Digit(tag[2]) + Digit(tag[3]);
    assert TagValue(tag, 6) == 4 * TagValue(tag, 4) + 2 * Digit(tag[4]) + Digit(tag[5]);
    assert TagValue(tag, 8) == 4 * TagValue(tag, 6) + 2 * Digit(tag[6]) + Digit(tag[7]);
  }

  lemma Halve(b: nat, n: nat)
    requires n < 8
    ensures b / Pow2(7 - n) == 2 * (b / Pow2(8 - n)) + b / Pow2(7 - n) % 2
  {
    Pow2Values();
    match n { case 0 => case 1 => case 2 => case 3 => case 4 => case 5 => case 6 => case 7 => }
  }

  /** The first bits of a byte string agree with a tag exactly when their number is the tag's. */
  lemma {:induction false} BeginsByValue(tag: string, s: seq<Byte>, n: nat)
    requires n <= |tag| && n <= 8 && s != []
    ensures s[0] / Pow2(8 - n) == TagValue(tag, n)
      <==> forall k :: 0 <= k < n ==> (BitAt(s, k) == 1 <==> tag[k] == '1')
  {
    hide BitAt, Pow2;
    Pow2Values();
    if n > 0 {
      BeginsByValue(tag, s, n - 1);
      Halve(s[0], n - 1);
      FirstByteBit(s, n - 1);
    }
  }

  lemma FirstByteBit(s: seq<Byte>, k: nat)
    requires k < 8 && s != []
    ensures BitAt(s, k) == s[0] / Pow2(7 - k) % 2
  {
    hide Pow2;
  }

  /** The tag as the tables give it. */
  predicate TagIs(galileo: bool, id: nat, tag: string) {
    if galileo then |tag| == GalileoTagBits(id) && TagValue(tag, |tag|) == GalileoTag(id)
    else |tag| == id + 1 && forall k :: 0 <= k < |tag| ==> (tag[k] == '1' <==> k < id)
  }

  lemma GalileoByValue(id: nat, b: Byte)
    requires id < 17
    ensures GalileoIdentify(b) == id <==> b / Pow2(8 - GalileoTagBits(id)) == GalileoTag(id)
  {
    Pow2Values();
  }

  lemma UnaryFound(id: nat, tag: string, s: seq<Byte>)
    requires id < 17 && TagIs(false, id, tag) && s != []
    ensures UnaryTag(s, 8) == id <==> Begins(tag, s)
  {
    hide BitAt, UnaryTag;
    UnaryTagMeaning(s, 8);
    BitOneOrZero(s);
    var found := UnaryTag(s, 8);
    if Begins(tag, s) {
      assert BitAt(s, id) == 0 by { assert tag[id] != '1'; }
      assert forall k :: 0 <= k < id ==> tag[k] == '1' && BitAt(s, k) == 1;
    }
    if found == id {
      assert |tag| <= 8 * |s|;
    }
  }

  /** Identification finds a row exactly in the byte strings that begin with its tag. */
  lemma TagFound(m: Layout, id: nat, tag: string, s: seq<Byte>)
    requires id < 17 && TagIs(m.galileo, id, tag) && s != []
    ensures Identify(m, s) == id <==> Begins(tag, s)
  {
    hide BitAt, Pow2, GalileoIdentify, UnaryTag, GalileoTag;
    if m.galileo {
      GalileoByValue(id, s[0]);
      BeginsByValue(tag, s, |tag|);
    } else {
      UnaryFound(id, tag, s);
    }
  }

  lemma BitOneOrZero(s: seq<Byte>)
    ensures forall k :: 0 <= k < 8 * |s| ==> BitAt(s, k) == 0 || BitAt(s, k) == 1
  {
    hide Pow2;
  }

  // ---------------------------------------------------------------- payloads

  lemma ModDouble(y: nat, h: nat, p: nat)
    requires p >= 1 && y == 2 * h + y % 2
    ensures y % (2 * p) == 2 * (h % p) + y % 2
  {
    var q := h / p;
    DivMod(h, p);
    assert y == q * (2 * p) + (2 * (h % p) + y % 2);
    QuotientIs(y, 2 * p, q, 2 * (h % p) + y % 2);
  }

  /** Bits n..k of a byte. */
  function Slice(b: nat, n: nat, k: nat): nat
    requires n <= k <= 8
  {
    b / Pow2(8 - k) % Pow2(k - n)
  }

  lemma SliceNone(b: nat, n: nat)
    requires n <= 8
    ensures Slice(b, n, n) == 0
  {
  }

  lemma SliceStep(b: nat, n: nat, k: nat)
    requires n <= k < 8
    ensures Slice(b, n, k + 1) == 2 * Slice(b, n, k) + b / Pow2(7 - k) % 2
  {
    hide Pow2;
    Halve(b, k);
    Pow2Double(k - n);
    ModDouble(b / Pow2(7 - k), b / Pow2(8 - k), Pow2(k - n));
  }

  lemma Pow2Double(n: nat)
    ensures Pow2(n + 1) == 2 * Pow2(n)
  {
  }

  lemma {:induction false} ByteBits(s: seq<Byte>, i: nat, n: nat, k: nat)
    requires i < |s| && n <= k <= 8
    ensures BitsValue(s, 8 * i + n, 8 * i + k) == Slice(s[i], n, k)
    decreases k
  {
    hide Pow2, BitAt, Slice;
    if n < k {
      ByteBits(s, i, n, k - 1);
      ByteBit(s, i, k - 1);
      SliceStep(s[i], n, k - 1);
    } else {
      SliceNone(s[i], n);
    }
  }

  /** The last bits of byte i, and all of them. */
  lemma LowByteBits(s: seq<Byte>, i: nat, n: nat)
    requires i < |s| && n <= 8
    ensures BitsValue(s, 8 * i + n, 8 * i + 8) == s[i] % Pow2(8 - n)
  {
    hide BitAt, BitsValue;
    ByteBits(s, i, n, 8);
    assert Pow2(0) == 1;
  }

  lemma ByteBit(s: seq<Byte>, i: nat, k: nat)
    requires i < |s| && k < 8
    ensures BitAt(s, 8 * i + k) == s[i] / Pow2(7 - k) % 2
  {
    hide Pow2;
    QuotientIs(8 * i + k, 8, i, k);
  }

  lemma DoubleSum(x: int, p: int, y: int, bit: int)
    ensures 2 * (x * p + y) + bit == x * (2 * p) + (2 * y + bit)
  {
  }

  lemma {:induction false} BitsJoin(s: seq<Byte>, a: nat, b: nat, c: nat)
    requires a <= b <= c <= 8 * |s|
    ensures BitsValue(s, a, c) == BitsValue(s, a, b) * Pow2(c - b) + BitsValue(s, b, c)
    decreases c
  {
    hide BitAt, Pow2;
    if b < c {
      BitsJoin(s, a, b, c - 1);
      DoubleSum(BitsValue(s, a, b), Pow2(c - 1 - b), BitsValue(s, b, c - 1), BitAt(s, c - 1));
      Pow2Double(c - 1 - b);
    } else {
      Pow2Values();
    }
  }

  lemma BitsNextByte(s: seq<Byte>, a: nat, i: nat)
    requires a <= 8 * i && i < |s|
    ensures BitsValue(s, a, 8 * i + 8) == 256 * BitsValue(s, a, 8 * i) + s[i]
  {
    hide BitAt, Pow2, BitsValue;
    Pow2Values();
    LowByteBits(s, i, 0);
    BitsJoin(s, a, 8 * i, 8 * i + 8);
  }

  lemma BitsNone(s: seq<Byte>, a: nat)
    requires a <= 8 * |s|
    ensures BitsValue(s, a, a) == 0
  {
  }

  /** Whole bytes after some bits. */
  lemma BitsBigEndian(s: seq<Byte>, a: nat, i: nat, n: nat)
    requires a <= 8 * i && i + n <= |s| && n <= 2
    ensures BigEndian(BitsValue(s, a, 8 * i), s[i..i + n]) == BitsValue(s, a, 8 * (i + n))
  {
    hide BitsValue, BigEndian, BitAt;
    BigEndianUnfold(BitsValue(s, a, 8 * i), s[i..i + n]);
    if n >= 1 { BitsNextByte(s, a, i); }
    if n == 2 { BitsNextByte(s, a, i + 1); }
  }

  /** The bits that share a byte with the tag. */
  lemma SharedBits(e: Entry, s: seq<Byte>)
    requires |s| >= (e.ntb + 7) / 8
    ensures var p := (e.ntb + 7) / 8;
      BitsValue(s, e.ntb, 8 * p) == if e.ntb % 8 > 0 then s[e.ntb / 8] % Pow2(8 - e.ntb % 8) else 0
  {
    hide BitAt, Pow2, BitsValue;
    if e.ntb % 8 > 0 {
      assert 8 * ((e.ntb + 7) / 8) == 8 * (e.ntb / 8) + 8;
      LowByteBits(s, e.ntb / 8, e.ntb % 8);
    } else {
      BitsNone(s, e.ntb);
    }
  }

  /** The record that a row reads, by the bits of the buffer. */
  lemma RowReads(galileo: bool, id: nat, e: Entry, s: seq<Byte>)
    requires RowOk(galileo, id, e) && |s| >= (e.ntb + 7) / 8 + e.extra
    ensures var w := (e.ntb + 7) / 8 + e.extra;
      var first := e.ntb + (if e.ignore then LeftoverBits(e) else 0);
      && 8 * w == first + PayloadBits(e)
      && ProcessDti(id, e, s) ==
           Got(Record(id, BitsValue(s, first, 8 * w), BitsValue(s, e.ntb, first)), w)
  {
    hide BitAt, Pow2, BitsValue, BigEndian, ProcessDti;
    var p := (e.ntb + 7) / 8;
    ProcessDtiPieces(id, e, s, p + e.extra);
    BitsNone(s, 8 * p);
    BitsNone(s, e.ntb);
    SharedBits(e, s);
    BitsBigEndian(s, if e.ignore then 8 * p else e.ntb, p, e.extra);
  }

  // ---------------------------------------------------------------- the formats

  /** A row of a table is the format, apart from its tag. */
  predicate SameFields(e: Entry, row: Row) {
    && row.kind == e.kind && row.abs == e.abs && row.idx == e.idx
    && row.skipped == (if e.ignore then LeftoverBits(e) else 0) && row.bits == PayloadBits(e)
  }

  predicate Describes(galileo: bool, id: nat, e: Entry, row: Row) {
    SameFields(e, row) && TagIs(galileo, id, row.tag)
  }

  predicate AllDescribe(galileo: bool, start: nat, es: seq<Entry>, rows: seq<Row>) {
    |es| == |rows| && forall k :: 0 <= k < |es| ==> Describes(galileo, start + k, es[k], rows[k])
  }

  lemma DescribeConcat(galileo: bool, es: seq<Entry>, rows: seq<Row>, fs: seq<Entry>, more: seq<Row>)
    requires AllDescribe(galileo, 0, es, rows) && AllDescribe(galileo, |es|, fs, more)
    ensures AllDescribe(galileo, 0, es + fs, rows + more)
  {
    hide Describes;
    forall k | 0 <= k < |es + fs| ensures Describes(galileo, k, (es + fs)[k], (rows + more)[k]) {
      if k < |es| {
        assert Describes(galileo, 0 + k, es[k], rows[k]);
      } else {
        assert Describes(galileo, |es| + (k - |es|), fs[k - |es|], more[k - |es|]);
      }
    }
  }

  lemma ProFields()
    ensures |PRO_ROWS| == |SMART_PRO| == 8 && forall k :: 0 <= k < 8 ==> SameFields(SMART_PRO[k], PRO_ROWS[k])
  {
    hide TagIs;
  }

  lemma ProTags()
    ensures |PRO_ROWS| == 8 && forall k :: 0 <= k < 8 ==> TagIs(false, k, PRO_ROWS[k].tag)
  {
    hide SameFields, SMART_PRO;
  }

  lemma ProRows()
    ensures AllDescribe(false, 0, SMART_PRO, PRO_ROWS)
  {
    hide TagIs, SameFields, SMART_PRO, PRO_ROWS;
    ProFields();
    ProTags();
  }

  lemma GalileoFields(k: nat)
    requires k < 17
    ensures |GALILEO_ROWS| == |GALILEO_SOL| == 17 && SameFields(GALILEO_SOL[k], GALILEO_ROWS[k])
  {
  }

  lemma GalileoShortTags(k: nat)
    requires k < 7
    ensures |GALILEO_ROWS| == 17 && TagIs(true, k, GALILEO_ROWS[k].tag)
  {
  }

  lemma GalileoLongTags(k: nat)
    requires 7 <= k < 17
    ensures |GALILEO_ROWS| == 17 && TagIs(true, k, GALILEO_ROWS[k].tag)
  {
    hide TagValue;
    TagValueEight(GALILEO_ROWS[k].tag);
  }

  lemma GalileoDescribed()
    ensures AllDescribe(true, 0, GALILEO_SOL, GALILEO_ROWS)
  {
    hide TagIs, SameFields, GALILEO_SOL, GALILEO_ROWS;
    GalileoFields(0);
    forall k | 0 <= k < 17 ensures Describes(true, k, GALILEO_SOL[k], GALILEO_ROWS[k]) {
      GalileoFields(k);
      if k < 7 { GalileoShortTags(k); } else { GalileoLongTags(k); }
    }
  }

  lemma ComFields()
    ensures |COM_ROWS| == |SMART_COM_COMMON| == 11
    ensures forall k :: 0 <= k < 11 ==> SameFields(SMART_COM_COMMON[k], COM_ROWS[k])
  {
  }

  lemma ComTags()
    ensures |COM_ROWS| == 11 && forall k :: 0 <= k < 11 ==> TagIs(false, k, COM_ROWS[k].tag)
  {
  }

  lemma ComRows()
    ensures AllDescribe(false, 0, SMART_COM_COMMON, COM_ROWS)
  {
    hide TagIs, SameFields, SMART_COM_COMMON, COM_ROWS;
    ComFields();
    ComTags();
  }

  lemma AladinDescribed()
    ensures AllDescribe(false, 0, ALADIN, ALADIN_ROWS)
  {
    var e, row := Entry(Alarms, true, 1, 9, false, 0), Row("111111110", 0, 7, Alarms, true, 1);
    assert AllDescribe(false, 8, [e], [row]);
    ProRows();
    ProFields();
    hide Describes, SMART_PRO, PRO_ROWS;
    DescribeConcat(false, SMART_PRO, PRO_ROWS, [e], [row]);
  }

  lemma SmartComDescribed()
    ensures AllDescribe(false, 0, SMART_COM, COM_ROWS + [Row("111111111110", 4, 8, Rbt, true, 0)])
  {
    var e, row := Entry(Rbt, true, 0, 12, true, 1), Row("111111111110", 4, 8, Rbt, true, 0);
    assert AllDescribe(false, 11, [e], [row]);
    ComRows();
    ComFields();
    hide Describes, SMART_COM_COMMON, COM_ROWS;
    DescribeConcat(false, SMART_COM_COMMON, COM_ROWS, [e], [row]);
  }

  const TEC_MORE: seq<Entry> := [
    Entry(Pressure, true, 1, 12, true, 2),
    Entry(Pressure, true, 2, 13, true, 2),
    Entry(Rbt, true, 0, 14, true, 1)]

  const TEC_MORE_ROWS: seq<Row> := [
    Row("111111111110", 4, 16, Pressure, true, 1),
    Row("1111111111110", 3, 16, Pressure, true, 2),
    Row("11111111111110", 2, 8, Rbt, true, 0)]

  lemma TecMoreFields()
    ensures |TEC_MORE| == |TEC_MORE_ROWS| == 3
    ensures forall k :: 0 <= k < 3 ==> SameFields(TEC_MORE[k], TEC_MORE_ROWS[k])
  {
    hide TagIs;
  }

  lemma TecMoreTags()
    ensures |TEC_MORE_ROWS| == 3 && forall k :: 0 <= k < 3 ==> TagIs(false, 11 + k, TEC_MORE_ROWS[k].tag)
  {
    hide SameFields;
  }

  lemma TecMoreDescribed()
    ensures AllDescribe(false, 11, TEC_MORE, TEC_MORE_ROWS)
  {
    hide SameFields, TagIs, TEC_MORE, TEC_MORE_ROWS;
    TecMoreFields();
    TecMoreTags();
  }

  lemma TecTables()
    ensures SMART_TEC == SMART_COM_COMMON + TEC_MORE && TEC_ROWS == COM_ROWS + TEC_MORE_ROWS
  {
    hide SMART_COM_COMMON, COM_ROWS;
  }

  lemma TecDescribed()
    ensures AllDescribe(false, 0, SMART_TEC, TEC_ROWS)
  {
    hide AllDescribe, SMART_COM_COMMON, COM_ROWS, TEC_MORE, TEC_MORE_ROWS, SMART_TEC, TEC_ROWS;
    ComRows();
    ComFields();
    TecTables();
    TecMoreDescribed();
    DescribeConcat(false, SMART_COM_COMMON, COM_ROWS, TEC_MORE, TEC_MORE_ROWS);
  }

  /** The model numbers, and what smart_parser_create selects for each. */
  lemma ModelFormats(number: int)
    ensures ModelOf(number).Some? <==> number in FORMATS
    ensures number in FORMATS ==>
      var model, f := ModelOf(number).value, FORMATS[number];
      && HeaderSize(model) == f.header && ConfigOf(model).alarmNames == f.alarms
      && AllDescribe(model.GalileoSol?, 0, Table(model), f.rows)
  {
    hide AllDescribe, SMART_PRO, ALADIN, GALILEO_SOL, SMART_COM, SMART_TEC, COM_ROWS;
    ProRows();
    GalileoDescribed();
    AladinDescribed();
    SmartComDescribed();
    TecDescribed();
  }

  /** The width of a format in bits. */
  function Width(row: Row): nat {
    |row.tag| + row.skipped + row.bits
  }

  /** The record that a format reads at the head of s. */
  function RecordAt(id: nat, row: Row, s: seq<Byte>): Record
    requires Width(row) <= 8 * |s|
  {
    var first := |row.tag| + row.skipped;
    Record(id, BitsValue(s, first, Width(row)), BitsValue(s, |row.tag|, first))
  }

  /** Which record is decoded at the head of a byte string, from its bits alone. */
  lemma ReadsExactly(number: int, s: seq<Byte>, id: nat)
    requires number in FORMATS && s != []
    ensures ModelOf(number).Some? && Valid(LayoutOf(ModelOf(number).value))
    ensures var o, rows := DecodeOne(LayoutOf(ModelOf(number).value), s), FORMATS[number].rows;
      && (id < |rows| && Begins(rows[id].tag, s) ==>
            if Width(rows[id]) <= 8 * |s|
            then o == Got(RecordAt(id, rows[id], s), Width(rows[id]) / 8) && Width(rows[id]) % 8 == 0
            else o == Truncated)
      && ((forall k :: 0 <= k < |rows| ==> !Begins(rows[k].tag, s)) ==> o == BadCode || o == PastTable)
  {
    hide Begins, BitsValue, FORMATS, Table, ProcessDti, Identify, TagIs;
    ModelFormats(number);
    var model, rows := ModelOf(number).value, FORMATS[number].rows;
    LayoutsValid(model);
    var m, found := LayoutOf(model), Identify(LayoutOf(model), s);
    if id < |rows| {
      RowMatches(m, s, id, rows);
      if Begins(rows[id].tag, s) {
        FirstPayloadByteInside(m, s);
        RowOutcome(m.galileo, id, m.rows[id], rows[id], s);
      }
    }
    if found < |rows| { RowMatches(m, s, found, rows); }
  }

  lemma RowMatches(m: Layout, s: seq<Byte>, id: nat, rows: seq<Row>)
    requires Valid(m) && s != [] && AllDescribe(m.galileo, 0, m.rows, rows) && id < |rows|
    ensures SameFields(m.rows[id], rows[id]) && |rows[id].tag| == m.rows[id].ntb && RowOk(m.galileo, id, m.rows[id])
    ensures Identify(m, s) == id <==> Begins(rows[id].tag, s)
  {
    hide Begins, Identify, Valid;
    RowOf(m, id);
    assert Describes(m.galileo, 0 + id, m.rows[id], rows[id]);
    TagFound(m, id, rows[id].tag, s);
  }

  lemma RowOutcome(galileo: bool, id: nat, e: Entry, row: Row, s: seq<Byte>)
    requires RowOk(galileo, id, e) && SameFields(e, row) && |row.tag| == e.ntb && (e.ntb + 7) / 8 <= |s|
    ensures Width(row) == 8 * ((e.ntb + 7) / 8 + e.extra)
    ensures ProcessDti(id, e, s) ==
      if Width(row) <= 8 * |s| then Got(RecordAt(id, row, s), Width(row) / 8) else Truncated
  {
    hide BitsValue, ProcessDti;
    var w := (e.ntb + 7) / 8 + e.extra;
    if w <= |s| {
      RowReads(galileo, id, e, s);
    } else {
      ProcessDtiPieces(id, e, s, w);
    }
  }

  /** What a record does to the sample state, by its format alone. */
  function Effect(row: Row, value: nat, svalue: int, st: Sample): Sample
    requires value < 0x1_0000 && (row.kind.Alarms? ==> row.idx < 3)
  {
    Apply(Entry(row.kind, row.abs, row.idx, 0, false, 0), value, svalue, st)
  }

  /** The units: depth counts in steps of 2, temperature of 40, pressure of 250; depth records and the
      combined record complete one waypoint, a time record as many as it says. */
  lemma EffectUnits(row: Row, value: nat, v: int, st: Sample)
    requires value < 0x1_0000 && (row.kind.Alarms? ==> row.idx < 3)
    ensures var after := Effect(row, value, v, st);
      && after.time == st.time
      && (row.kind.Depth? ==>
            if row.abs
            then after.depth.value == 2 * value && after.depth.have && after.depth.calibrated && after.complete == 1
            else after == st.(depth := st.depth.(value := U32(st.depth.value + 2 * v)), complete := 1))
      && (row.kind.Temperature? ==>
            after == st.(temp :=
              if row.abs then Gauge(40 * value, true) else st.temp.(value := U32(st.temp.value + 40 * v))))
      && (row.kind.Pressure? ==>
            after == if row.abs then st.(pressure := Gauge(250 * value, true), tank := row.idx)
                     else st.(pressure := st.pressure.(value := U32(st.pressure.value + 250 * v))))
      && (row.kind.Rbt? ==>
            after == st.(rbt := if row.abs then Gauge(value, true) else st.rbt.(value := U32(st.rbt.value + v))))
      && (row.kind.HeartRate? ==> after == st.(heartrate :=
            if row.abs then Gauge(value, true) else st.heartrate.(value := U32(st.heartrate.value + v))))
      && (row.kind.Bearing? ==> after == st.(bearing := Gauge(value, true)))
      && (row.kind.Alarms? ==> after == st.(alarms := AlarmState(st.alarms.flags[row.idx := value], true)))
      && (row.kind.Time? ==> after == st.(complete := value % 256))
      && (row.kind.PressureDepth? ==>
            after.complete == 1 && after == st.(complete := 1, pressure := after.pressure, depth := after.depth))
  {
  }

  /** What the parser made for a model number does with the record at the head of s. */
  lemma EffectExactly(number: int, st: Sample, s: seq<Byte>, id: nat)
    requires number in FORMATS && s != []
    ensures ModelOf(number).Some?
    ensures var r, rows := RecordOf(ModelOf(number).value, st, s), FORMATS[number].rows;
      && (id < |rows| && Begins(rows[id].tag, s) && Width(rows[id]) > 8 * |s| ==> r.code == DtiPastEnd)
      && ((forall k :: 0 <= k < |rows| ==> !Begins(rows[k].tag, s)) ==> r.code == InvalidDtiCode || r.code == UndefinedRow)
      && (id < |rows| && Begins(rows[id].tag, s) && Width(rows[id]) <= 8 * |s| ==>
            var row, value := rows[id], RecordAt(id, rows[id], s).value;
            && 1 <= row.bits && value < 0x1_0000 && (row.kind.Alarms? ==> row.idx < 3)
            && r == RecordResult(Success, Width(row) / 8,
                      Drain(FORMATS[number].alarms, Effect(row, value, Signed(value, row.bits), st))))
  {
    hide Begins, FORMATS, Table, DecodeOne, Drain, Apply, BitsValue, Describes;
    ReadsExactly(number, s, id);
    ModelFormats(number);
    var model, rows := ModelOf(number).value, FORMATS[number].rows;
    var m := LayoutOf(model);
    if id < |rows| && Begins(rows[id].tag, s) && Width(rows[id]) <= 8 * |s| {
      var r := RecordAt(id, rows[id], s);
      EncodeDecode(m, s);
      RecordEffect(m, rows, id, r, st);
    }
  }

  lemma RecordEffect(m: Layout, rows: seq<Row>, id: nat, r: Record, st: Sample)
    requires Valid(m) && AllDescribe(m.galileo, 0, m.rows, rows) && id < |rows| && r.id == id && WellFormed(m, r)
    ensures var row := rows[id];
      && 1 <= row.bits && r.value < 0x1_0000 && (row.kind.Alarms? ==> row.idx < 3)
      && ApplyRecord(m, st, r) == Effect(row, r.value, Signed(r.value, row.bits), st)
  {
    hide Signed, FixSignBit, Valid, TagIs;
    RowOf(m, id);
    var e := m.rows[id];
    assert Describes(m.galileo, 0 + id, e, rows[id]);
    ValueInRange(e, r);
    SignedPayload(r.value, PayloadBits(e));
  }

  /** The comment beside the last row of the Smart Com table shows fourteen type bits where the table has
      twelve: bytes that begin as the comment has it are refused. */
  lemma SmartComComment(s: seq<Byte>, st: Sample)
    requires Begins("11111111111110", s)
    ensures RecordOf(SmartCom, st, s).code == InvalidDtiCode
    ensures FORMATS[20].rows[11] == Row("111111111110", 4, 8, Rbt, true, 0)
  {
    hide BitAt, Table, UnaryTag;
    assert TagIs(false, 13, "11111111111110");
    UnaryFound(13, "11111111111110", s);
    ProfileTheorems.TableSize(SmartCom);
    RecordOfNone(SmartCom, st, s, 13);
  }
}
