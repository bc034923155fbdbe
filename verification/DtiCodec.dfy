/**
  The DTI record layer: finding the type tag of a record, slicing out its payload, and, as the
  specification the decoder is measured against, the encoder for the record format.
 */
module DtiCodec {
  import opened Words
  import opened DtiTables

  // ---------------------------------------------------------------- type tags

  function LeadingOnes(b: Byte): (n: nat)
    ensures n <= 8
  {
    if b < 128 then 0 else if b < 192 then 1 else if b < 224 then 2 else if b < 240 then 3
    else if b < 248 then 4 else if b < 252 then 5 else if b < 254 then 6 else if b < 255 then 7 else 8
  }

  const NO_TAG: nat := 255

  /** Number of one bits before the first zero bit of the first `window` bytes; NO_TAG without one. */
  function UnaryTag(s: seq<Byte>, window: nat): (id: nat)
    requires window <= 8
    ensures id == NO_TAG || (id < 8 * window && id < 8 * |s|)
  {
    if window == 0 || s == [] then NO_TAG
    else if s[0] == 255 then
      var id := UnaryTag(s[1..], window - 1);
      if id == NO_TAG then NO_TAG else 8 + id
    else LeadingOnes(s[0])
  }

  /** galileo_identify: the masks 0x80, 0xE0, 0xF0, 0x70 and 0x0F as arithmetic. */
  function GalileoIdentify(value: Byte): (id: nat)
  {
    if value < 0x80 then 0
    else if value / 0x20 == 4 then 1
    else if value / 0x10 != 0xF then value / 0x10 % 8
    else value % 0x10 + 7
  }

  function IdentifyTag(galileo: bool, s: seq<Byte>): nat
    requires s != []
  {
    if galileo then GalileoIdentify(s[0]) else UnaryTag(s, 8)
  }

  function Identify(m: Layout, s: seq<Byte>): nat
    requires s != []
  {
    IdentifyTag(m.galileo, s)
  }

  /** Bit k of a byte string, most significant bit of the first byte first. */
  function BitAt(s: seq<Byte>, k: nat): int
    requires k < 8 * |s|
  {
    s[k / 8] / Pow2(7 - k % 8) % 2
  }

  lemma LeadingOnesBit(value: Byte, j: nat)
    requires j < 8 && j <= LeadingOnes(value)
    ensures value / Pow2(7 - j) % 2 == 0 <==> LeadingOnes(value) == j
  {
    Pow2Values();
    match j
    case 0 => case 1 => case 2 => case 3 => case 4 => case 5 => case 6 => case 7 =>
  }

  /** smart_identify: scans bit by bit through at most eight bytes. */
  method SmartIdentify(data: seq<Byte>) returns (id: nat)
    ensures id == UnaryTag(data, 8)
  {
    var count := 0;
    var limit := if |data| > 8 then 8 else |data|;
    var i := 0;
    while i < limit
      invariant i <= limit && count == 8 * i
      invariant UnaryTag(data, 8) ==
        var rest := UnaryTag(data[i..], 8 - i); if rest == NO_TAG then NO_TAG else 8 * i + rest
    {
      var value := data[i];
      var j := 0;
      while j < 8
        invariant j <= 8 && count == 8 * i + j && j <= LeadingOnes(value)
      {
        var mask := Pow2(7 - j);
        LeadingOnesBit(value, j);
        if value / mask % 2 == 0 { return count; }
        count := count + 1;
        j := j + 1;
      }
      assert data[i..][1..] == data[i + 1..];
      i := i + 1;
    }
    return NO_TAG;
  }

  lemma FirstByteBits(s: seq<Byte>)
    requires s != []
    ensures forall k :: 0 <= k < LeadingOnes(s[0]) ==> BitAt(s, k) == 1
    ensures if s[0] == 255 then LeadingOnes(s[0]) == 8 else LeadingOnes(s[0]) < 8 && BitAt(s, LeadingOnes(s[0])) == 0
  {
    hide Pow2;
    forall k | 0 <= k < 8 ensures k < LeadingOnes(s[0]) ==> BitAt(s, k) == 1
                          ensures k == LeadingOnes(s[0]) ==> BitAt(s, k) == 0 {
      if k <= LeadingOnes(s[0]) { LeadingOnesBit(s[0], k); }
    }
  }

  lemma LaterBit(s: seq<Byte>, k: nat)
    requires 8 <= k < 8 * |s|
    ensures BitAt(s, k) == BitAt(s[1..], k - 8)
  {
    hide Pow2;
  }

  /** What the unary tag means, bit by bit. */
  lemma {:induction false} UnaryTagMeaning(s: seq<Byte>, window: nat)
    requires window <= 8
    ensures var id := UnaryTag(s, window);
      var limit := 8 * if |s| < window then |s| else window;
      if id == NO_TAG then forall k :: 0 <= k < limit ==> BitAt(s, k) == 1
      else id < limit && BitAt(s, id) == 0 && forall k :: 0 <= k < id ==> BitAt(s, k) == 1
    decreases window
  {
    hide BitAt, LeadingOnes;
    if window != 0 && s != [] {
      FirstByteBits(s);
      if s[0] == 255 {
        UnaryTagMeaning(s[1..], window - 1);
        forall k | 8 <= k < 8 * |s| ensures BitAt(s, k) == BitAt(s[1..], k - 8) {
          LaterBit(s, k);
        }
      }
    }
  }

  // ---------------------------------------------------------------- records

  /** A decoded record: table row, payload bits as an unsigned number, and the bits that an
      `ignore` row leaves unread (0 for every other row). */
  datatype Record = Record(id: nat, value: nat, filler: nat)

  predicate Fits(e: Entry, r: Record) {
    && r.value < Pow2(PayloadBits(e))
    && r.filler < (if e.ignore then Pow2(LeftoverBits(e)) else 1)
  }

  predicate WellFormed(m: Layout, r: Record) {
    r.id < |m.rows| && Fits(m.rows[r.id], r)
  }

  predicate AllWellFormed(m: Layout, recs: seq<Record>) {
    forall k :: 0 <= k < |recs| ==> WellFormed(m, recs[k])
  }

  /** The effect of reading one record at the head of a byte string.  BadCode is the error
      "Invalid DTI Code"; PastTable marks the index equal to the table size, which the bound test
      lets through to a row that does not exist; Truncated is the overflow error. */
  datatype Outcome = Got(rec: Record, width: nat) | BadCode | PastTable | Truncated

  function BigEndian(acc: nat, s: seq<Byte>): nat
    decreases |s|
  {
    if s == [] then acc else BigEndian(256 * acc + s[0], s[1..])
  }

  /** smart_process_dti on the bytes that start at its offset. */
  function ProcessDti(id: nat, e: Entry, s: seq<Byte>): Outcome
    requires if e.ntb % 8 > 0 then e.ntb / 8 < |s| else e.ntb / 8 <= |s|
  {
    var skipped := e.ntb / 8;
    var low := if e.ntb % 8 > 0 then s[skipped] % Pow2(8 - e.ntb % 8) else 0;
    var p := if e.ntb % 8 > 0 then skipped + 1 else skipped;
    if p + e.extra > |s| then Truncated
    else Got(Record(id, BigEndian(if e.ignore then 0 else low, s[p..p + e.extra]), if e.ignore then low else 0),
             p + e.extra)
  }

  /** The byte that holds the first payload bits lies inside the buffer although it is read before
      the overflow test: it is the byte in which identification met the terminating zero bit. */
  lemma FirstPayloadByteInside(m: Layout, s: seq<Byte>)
    requires Valid(m)
    requires s != [] && Identify(m, s) < |m.rows|
    ensures var ntb := m.rows[Identify(m, s)].ntb;
      && (ntb % 8 > 0 ==> ntb / 8 < |s|)
      && 0 < (ntb + 7) / 8 <= |s|
  {
    RowOf(m, Identify(m, s));
  }

  function DecodeOne(m: Layout, s: seq<Byte>): (o: Outcome)
    requires Valid(m)
    requires s != []
  {
    var id := Identify(m, s);
    if id > |m.rows| then BadCode
    else if id == |m.rows| then PastTable
    else
      FirstPayloadByteInside(m, s);
      ProcessDti(id, m.rows[id], s)
  }

  // ---------------------------------------------------------------- the format

  function BigEndianBytes(value: nat, n: nat): (s: seq<Byte>)
    ensures |s| == n
  {
    if n == 0 then [] else BigEndianBytes(value / 256, n - 1) + [value % 256]
  }

  /** Whole bytes of the type tag of row `id`. */
  function TagBytes(galileo: bool, id: nat, e: Entry): (s: seq<Byte>)
    requires RowOk(galileo, id, e)
    ensures |s| == e.ntb / 8
  {
    if e.ntb < 8 then [] else if galileo then [GalileoTag(id)] else if e.ntb == 8 then [254] else [255]
  }

  /** The type bits that share a byte with `low` payload or ignored bits, in place in that byte. */
  function TagBase(galileo: bool, id: nat, n: nat): int
    requires n <= 8
  {
    if galileo then (if id == 0 then 0 else if id == 1 then 0x80 else 0x10 * (8 + id))
    else 0x100 - 2 * Pow2(8 - n)
  }

  function LowBits(e: Entry, r: Record): int {
    if e.ignore then r.filler else r.value / Pow2(8 * e.extra)
  }

  lemma LowBitsFit(e: Entry, r: Record)
    requires Fits(e, r)
    ensures 0 <= LowBits(e, r) < Pow2(LeftoverBits(e))
  {
    if !e.ignore {
      Pow2Add(LeftoverBits(e), 8 * e.extra);
      DivBelow(r.value, Pow2(LeftoverBits(e)), Pow2(8 * e.extra));
    }
  }

  lemma TagBaseFits(galileo: bool, id: nat, n: nat, low: int)
    requires 0 < n < 8 && 0 <= low < Pow2(8 - n)
    requires galileo ==> id < 7 && n == GalileoTagBits(id)
    ensures 0 <= TagBase(galileo, id, n) + low < 256
  {
    Pow2Values();
    match n { case 1 => case 2 => case 3 => case 4 => case 5 => case 6 => case 7 => }
  }

  function Shared(galileo: bool, e: Entry, r: Record): (s: seq<Byte>)
    requires RowOk(galileo, r.id, e) && Fits(e, r)
    ensures |s| == if e.ntb % 8 > 0 then 1 else 0
  {
    if e.ntb % 8 == 0 then []
    else
      LowBitsFit(e, r);
      TagBaseFits(galileo, r.id, e.ntb % 8, LowBits(e, r));
      [TagBase(galileo, r.id, e.ntb % 8) + LowBits(e, r)]
  }

  /** The bytes of a record of row e: whole tag bytes, the byte shared by tag and payload, extra bytes. */
  function EncodeRow(galileo: bool, e: Entry, r: Record): (s: seq<Byte>)
    requires RowOk(galileo, r.id, e) && Fits(e, r)
    ensures |s| == (e.ntb + 7) / 8 + e.extra
  {
    TagBytes(galileo, r.id, e) + Shared(galileo, e, r) + BigEndianBytes(r.value, e.extra)
  }

  function Encode(m: Layout, r: Record): (s: seq<Byte>)
    requires Valid(m)
    requires WellFormed(m, r)
    ensures s != []
  {
    RowOf(m, r.id);
    EncodeRow(m.galileo, m.rows[r.id], r)
  }

  function EncodeAll(m: Layout, recs: seq<Record>): (s: seq<Byte>)
    requires Valid(m)
    requires AllWellFormed(m, recs)
  {
    if recs == [] then [] else Encode(m, recs[0]) + EncodeAll(m, recs[1..])
  }

  // ---------------------------------------------------------------- one record, both ways

  lemma BigEndianUnfold(acc: nat, s: seq<Byte>)
    ensures s == [] ==> BigEndian(acc, s) == acc
    ensures |s| == 1 ==> BigEndian(acc, s) == 256 * acc + s[0]
    ensures |s| == 2 ==> BigEndian(acc, s) == 256 * (256 * acc + s[0]) + s[1]
  {
    if |s| == 2 {
      assert s[1..][1..] == [];
      assert BigEndian(acc, s) == BigEndian(256 * acc + s[0], s[1..]);
      assert BigEndian(256 * acc + s[0], s[1..]) == BigEndian(256 * (256 * acc + s[0]) + s[1], []);
    }
  }

  lemma BigEndianBytesUnfold(v: nat)
    ensures BigEndianBytes(v, 0) == []
    ensures BigEndianBytes(v, 1) == [v % 256]
    ensures BigEndianBytes(v, 2) == [v / 256 % 256, v % 256]
  {
    assert BigEndianBytes(v, 2) == BigEndianBytes(v / 256, 1) + [v % 256];
  }

  lemma BigEndianOfBytes(acc: nat, value: nat, n: nat)
    requires n <= 2
    ensures BigEndian(acc, BigEndianBytes(value, n)) == acc * Pow2(8 * n) + value % Pow2(8 * n)
  {
    Pow2Values();
    BigEndianUnfold(acc, BigEndianBytes(value, n));
    if n == 2 {
      assert BigEndianBytes(value, n) == [value / 256 % 256, value % 256];
      assert value == value / 256 * 256 + value % 256 && value / 65536 == value / 256 / 256;
    }
  }

  lemma BytesOfBigEndian(acc: nat, s: seq<Byte>)
    requires |s| <= 2
    ensures BigEndianBytes(BigEndian(acc, s), |s|) == s
    ensures BigEndian(acc, s) / Pow2(8 * |s|) == acc
    ensures BigEndian(acc, s) < (acc + 1) * Pow2(8 * |s|)
  {
    hide BigEndian, BigEndianBytes, Pow2;
    Pow2Values();
    BigEndianUnfold(acc, s);
    var v := BigEndian(acc, s);
    BigEndianBytesUnfold(v);
    if |s| == 1 {
      QuotientIs(v, 256, acc, s[0]);
    } else if |s| == 2 {
      QuotientIs(v, 256, 256 * acc + s[0], s[1]);
      QuotientIs(256 * acc + s[0], 256, acc, s[0]);
      QuotientIs(v, 65536, acc, 256 * (s[0] as int) + s[1]);
    }
  }

  /** The payload read back from the bits and bytes an encoder writes. */
  lemma PayloadReads(e: Entry, r: Record)
    requires Fits(e, r) && e.extra <= 2
    requires e.ignore ==> e.ntb % 8 > 0
    ensures LowBits(e, r) >= 0
    ensures BigEndian(if e.ignore then 0 else LowBits(e, r), BigEndianBytes(r.value, e.extra)) == r.value
  {
    LowBitsFit(e, r);
    var unit := Pow2(8 * e.extra);
    BigEndianOfBytes(if e.ignore then 0 else LowBits(e, r), r.value, e.extra);
    if e.ignore {
      assert r.value < unit;
      SmallMod(r.value, unit);
    } else {
      DivMod(r.value, unit);
    }
  }

  /** Whatever bits and bytes the decoder reads make a record that encodes to them. */
  lemma PayloadWrites(id: nat, e: Entry, low: nat, extra: seq<Byte>)
    requires |extra| == e.extra <= 2 && low < Pow2(LeftoverBits(e))
    requires e.ignore ==> e.ntb % 8 > 0
    ensures var r := Record(id, BigEndian(if e.ignore then 0 else low, extra), if e.ignore then low else 0);
      Fits(e, r) && LowBits(e, r) == low && BigEndianBytes(r.value, e.extra) == extra
  {
    var acc := if e.ignore then 0 else low;
    BytesOfBigEndian(acc, extra);
    var room := Pow2(if e.ignore then 0 else LeftoverBits(e));
    MulMonotone(acc + 1, room, Pow2(8 * e.extra));
    Pow2Add(if e.ignore then 0 else LeftoverBits(e), 8 * e.extra);
  }

  /** A byte made of n type bits and `low`: the type bits and `low` can be read back. */
  lemma TagByteReads(galileo: bool, id: nat, n: nat, b: Byte)
    requires 0 < n < 8
    requires galileo ==> id < 7 && n == GalileoTagBits(id)
    requires !galileo ==> id % 8 == n - 1
    ensures b == TagBase(galileo, id, n) + b % Pow2(8 - n)
      <==> (if galileo then GalileoIdentify(b) == id else LeadingOnes(b) == n - 1)
    ensures 0 <= b - TagBase(galileo, id, n) < Pow2(8 - n) ==> b - TagBase(galileo, id, n) == b % Pow2(8 - n)
  {
    Pow2Values();
    match n { case 1 => case 2 => case 3 => case 4 => case 5 => case 6 => case 7 => }
  }

  /** Identification finds row `id` exactly in the byte strings that begin with its type bits. */
  lemma IdentifyExactly(galileo: bool, id: nat, e: Entry, s: seq<Byte>)
    requires RowOk(galileo, id, e) && |s| >= (e.ntb + 7) / 8
    ensures IdentifyTag(galileo, s) == id <==> TypeBits(galileo, id, e, s)
  {
    hide Pow2, TagBase, GalileoIdentify, LeadingOnes, UnaryTag, GalileoTag;
    if e.ntb % 8 == 0 {
      assert s[..1] == [s[0]];
      WholeTagReads(galileo, id, s);
    } else {
      TagByteReads(galileo, id, e.ntb % 8, s[e.ntb / 8]);
      if !galileo { UnaryReads(e.ntb, s); }
    }
  }

  /** A unary tag that ends inside a byte: whole bytes of ones, then its last byte. */
  lemma UnaryReads(ntb: nat, s: seq<Byte>)
    requires 0 < ntb <= 14 && ntb != 8 && |s| >= (ntb + 7) / 8
    ensures UnaryTag(s, 8) == ntb - 1 <==>
      (ntb > 8 ==> s[..ntb / 8] == [255]) && LeadingOnes(s[ntb / 8]) == ntb % 8 - 1
  {
    hide LeadingOnes, UnaryTag;
    if ntb > 8 {
      assert s[..1] == [s[0]];
      UnaryTagStep(s);
    } else {
      UnaryTagHead(s);
    }
  }

  lemma UnaryTagHead(s: seq<Byte>)
    requires s != []
    ensures if s[0] == 255 then LeadingOnes(s[0]) == 8 && UnaryTag(s, 8) >= 8
      else UnaryTag(s, 8) == LeadingOnes(s[0]) < 8
  {
  }

  lemma WholeTagReads(galileo: bool, id: nat, s: seq<Byte>)
    requires s != [] && (if galileo then 7 <= id < 17 else id == 7)
    ensures IdentifyTag(galileo, s) == id <==> s[0] == if galileo then GalileoTag(id) else 254
  {
  }

  lemma UnaryTagStep(s: seq<Byte>)
    requires |s| >= 2
    ensures s[0] == 255 && s[1] != 255 ==> UnaryTag(s, 8) == 8 + LeadingOnes(s[1])
    ensures s[0] == 255 && s[1] == 255 ==> UnaryTag(s, 8) >= 16 && LeadingOnes(s[1]) == 8
    ensures s[0] != 255 ==> UnaryTag(s, 8) == LeadingOnes(s[0]) < 8
  {
    assert UnaryTag(s[1..], 7) == if s[1] != 255 then LeadingOnes(s[1])
      else var id := UnaryTag(s[1..][1..], 6); if id == NO_TAG then NO_TAG else 8 + id;
  }

  /** ProcessDti described by the pieces of its input. */
  lemma ProcessDtiPieces(id: nat, e: Entry, s: seq<Byte>, w: nat)
    requires w == (e.ntb + 7) / 8 + e.extra
    requires if e.ntb % 8 > 0 then e.ntb / 8 < |s| else e.ntb / 8 <= |s|
    ensures w > |s| ==> ProcessDti(id, e, s) == Truncated
    ensures w <= |s| ==>
      var low := if e.ntb % 8 > 0 then s[e.ntb / 8] % Pow2(8 - e.ntb % 8) else 0;
      ProcessDti(id, e, s) ==
        Got(Record(id, BigEndian(if e.ignore then 0 else low, s[w - e.extra..w]), if e.ignore then low else 0), w)
  {
  }

  /** s begins with the type bits of row `id` and has room for them. */
  predicate TypeBits(galileo: bool, id: nat, e: Entry, s: seq<Byte>)
    requires RowOk(galileo, id, e)
  {
    && |s| >= (e.ntb + 7) / 8
    && s[..e.ntb / 8] == TagBytes(galileo, id, e)
    && (e.ntb % 8 > 0 ==>
          s[e.ntb / 8] == TagBase(galileo, id, e.ntb % 8) + s[e.ntb / 8] % Pow2(8 - e.ntb % 8))
  }

  /** s begins with the payload of r in the layout of row e. */
  predicate Payload(e: Entry, r: Record, s: seq<Byte>) {
    var w := (e.ntb + 7) / 8 + e.extra;
    && |s| >= w
    && s[w - e.extra..w] == BigEndianBytes(r.value, e.extra)
    && (e.ntb % 8 > 0 ==> s[e.ntb / 8] % Pow2(8 - e.ntb % 8) == LowBits(e, r))
  }

  lemma RowPieces(galileo: bool, e: Entry, r: Record, code: seq<Byte>, rest: seq<Byte>)
    requires RowOk(galileo, r.id, e) && Fits(e, r) && code == EncodeRow(galileo, e, r)
    ensures TypeBits(galileo, r.id, e, code + rest) && Payload(e, r, code + rest)
  {
    hide Pow2, TagBase, TagBytes, LowBits, BigEndianBytes, GalileoIdentify, LeadingOnes;
    var tag, shared, extra := TagBytes(galileo, r.id, e), Shared(galileo, e, r), BigEndianBytes(r.value, e.extra);
    var s := code + rest;
    assert s == tag + shared + extra + rest;
    LowBitsFit(e, r);
    if e.ntb % 8 > 0 {
      assert s[|tag|] == shared[0];
      TagByteReads(galileo, r.id, e.ntb % 8, s[|tag|]);
    }
  }

  lemma RowFromPieces(galileo: bool, e: Entry, r: Record, s: seq<Byte>)
    requires RowOk(galileo, r.id, e) && Fits(e, r) && TypeBits(galileo, r.id, e, s) && Payload(e, r, s)
    ensures s[..(e.ntb + 7) / 8 + e.extra] == EncodeRow(galileo, e, r)
  {
    hide Pow2, TagBase, TagBytes, LowBits, BigEndianBytes;
    var w := (e.ntb + 7) / 8 + e.extra;
    assert s[..w] == s[..e.ntb / 8] + s[e.ntb / 8..w - e.extra] + s[w - e.extra..w];
    assert Shared(galileo, e, r) == s[e.ntb / 8..w - e.extra];
  }

  /** Reading a row that carries the payload of r gives r. */
  lemma ProcessDtiReads(galileo: bool, e: Entry, r: Record, s: seq<Byte>)
    requires RowOk(galileo, r.id, e) && Fits(e, r) && Payload(e, r, s)
    ensures ProcessDti(r.id, e, s) == Got(r, (e.ntb + 7) / 8 + e.extra)
  {
    var w := (e.ntb + 7) / 8 + e.extra;
    LowBitsFit(e, r);
    PayloadReads(e, r);
    ProcessDtiPieces(r.id, e, s, w);
    var low := if e.ntb % 8 > 0 then s[e.ntb / 8] % Pow2(8 - e.ntb % 8) else 0;
    assert low == LowBits(e, r);
    assert r == Record(r.id, r.value, if e.ignore then low else 0);
  }

  /** Whatever a row reads is a record that fits the row and whose payload is there. */
  lemma ProcessDtiWrites(galileo: bool, id: nat, e: Entry, s: seq<Byte>)
    requires RowOk(galileo, id, e) && |s| >= (e.ntb + 7) / 8 && ProcessDti(id, e, s).Got?
    ensures var Got(r, w) := ProcessDti(id, e, s);
      w == (e.ntb + 7) / 8 + e.extra && r.id == id && Fits(e, r) && Payload(e, r, s)
  {
    var w := (e.ntb + 7) / 8 + e.extra;
    ProcessDtiPieces(id, e, s, w);
    PayloadWrites(id, e, if e.ntb % 8 > 0 then s[e.ntb / 8] % Pow2(8 - e.ntb % 8) else 0, s[w - e.extra..w]);
  }

  lemma EncodeDecodeRow(galileo: bool, id: nat, e: Entry, s: seq<Byte>)
    requires RowOk(galileo, id, e) && |s| >= (e.ntb + 7) / 8
    requires IdentifyTag(galileo, s) == id && ProcessDti(id, e, s).Got?
    ensures var Got(r, w) := ProcessDti(id, e, s);
      r.id == id && Fits(e, r) && 0 < w <= |s| && s[..w] == EncodeRow(galileo, e, r)
  {
    ProcessDtiWrites(galileo, id, e, s);
    IdentifyExactly(galileo, id, e, s);
    RowFromPieces(galileo, e, ProcessDti(id, e, s).rec, s);
  }

  // ---------------------------------------------------------------- one record of a model

  lemma DecodeEncode(m: Layout, r: Record, rest: seq<Byte>)
    requires Valid(m)
    requires WellFormed(m, r)
    ensures DecodeOne(m, Encode(m, r) + rest) == Got(r, |Encode(m, r)|)
  {
    RowOf(m, r.id);
    var e, code := m.rows[r.id], Encode(m, r);
    RowPieces(m.galileo, e, r, code, rest);
    IdentifyExactly(m.galileo, r.id, e, code + rest);
    ProcessDtiReads(m.galileo, e, r, code + rest);
  }

  lemma EncodeDecode(m: Layout, s: seq<Byte>)
    requires Valid(m)
    requires s != [] && DecodeOne(m, s).Got?
    ensures var Got(r, w) := DecodeOne(m, s);
      WellFormed(m, r) && 0 < w <= |s| && s[..w] == Encode(m, r)
  {
    var id := Identify(m, s);
    FirstPayloadByteInside(m, s);
    RowOf(m, id);
    EncodeDecodeRow(m.galileo, id, m.rows[id], s);
  }

  // ---------------------------------------------------------------- record streams

  /** Why decoding of a stream ended. */
  datatype Stop = Clean | InvalidCode | NoSuchRow | PastEnd

  datatype Parse = Parse(recs: seq<Record>, stop: Stop)

  /** All records of a stream up to its end or the first error. */
  function DecodeAll(m: Layout, s: seq<Byte>): Parse
    requires Valid(m)
    decreases |s|
  {
    if s == [] then Parse([], Clean)
    else match DecodeOne(m, s)
      case BadCode => Parse([], InvalidCode)
      case PastTable => Parse([], NoSuchRow)
      case Truncated => Parse([], PastEnd)
      case Got(r, w) =>
        EncodeDecode(m, s);
        var tail := DecodeAll(m, s[w..]);
        Parse([r] + tail.recs, tail.stop)
  }

  lemma DecodeAllStep(m: Layout, r: Record, tail: seq<Byte>)
    requires Valid(m)
    requires WellFormed(m, r)
    ensures DecodeAll(m, Encode(m, r) + tail) ==
      Parse([r] + DecodeAll(m, tail).recs, DecodeAll(m, tail).stop)
  {
    var code := Encode(m, r);
    DecodeEncode(m, r, tail);
    assert (code + tail)[|code|..] == tail;
  }

  /** Round trip: decoding an encoded list of records gives back that list and consumes every byte. */
  lemma {:induction false} RoundTrip(m: Layout, recs: seq<Record>)
    requires Valid(m)
    requires AllWellFormed(m, recs)
    ensures DecodeAll(m, EncodeAll(m, recs)) == Parse(recs, Clean)
  {
    if recs != [] {
      DecodeAllStep(m, recs[0], EncodeAll(m, recs[1..]));
      RoundTrip(m, recs[1..]);
    }
  }

  /** The first record of a stream and what follows it. */
  lemma DecodeAllFirst(m: Layout, s: seq<Byte>)
    requires Valid(m)
    requires s != []
    ensures DecodeOne(m, s).Got? ==>
      var Got(r, w) := DecodeOne(m, s);
      && WellFormed(m, r) && 0 < w <= |s|
      && AllWellFormed(m, DecodeAll(m, s[w..]).recs)
      && DecodeAll(m, s) == Parse([r] + DecodeAll(m, s[w..]).recs, DecodeAll(m, s[w..]).stop)
    ensures !DecodeOne(m, s).Got? ==> DecodeAll(m, s).recs == []
    ensures DecodeOne(m, s).BadCode? ==> DecodeAll(m, s).stop == InvalidCode
    ensures DecodeOne(m, s).PastTable? ==> DecodeAll(m, s).stop == NoSuchRow
    ensures DecodeOne(m, s).Truncated? ==> DecodeAll(m, s).stop == PastEnd
  {
    hide DecodeOne, Valid, WellFormed, Encode;
    if DecodeOne(m, s).Got? {
      EncodeDecode(m, s);
      AcceptedStreamsAreEncodings(m, s[DecodeOne(m, s).width..]);
    }
  }

  /** Conversely, every stream the decoder accepts is the encoding of the records it returns, so the
      accepted streams are exactly the encodings and each has one reading. */
  lemma {:induction false} AcceptedStreamsAreEncodings(m: Layout, s: seq<Byte>)
    requires Valid(m)
    ensures AllWellFormed(m, DecodeAll(m, s).recs)
    ensures EncodeAll(m, DecodeAll(m, s).recs) <= s
    ensures DecodeAll(m, s).stop.Clean? <==> EncodeAll(m, DecodeAll(m, s).recs) == s
    decreases |s|
  {
    hide DecodeOne, Encode, Valid, WellFormed;
    if s != [] && DecodeOne(m, s).Got? {
      var Got(r, w) := DecodeOne(m, s);
      EncodeDecode(m, s);
      var tail := DecodeAll(m, s[w..]);
      AcceptedStreamsAreEncodings(m, s[w..]);
      var recs := [r] + tail.recs;
      assert recs[1..] == tail.recs;
      assert EncodeAll(m, recs) == Encode(m, r) + EncodeAll(m, tail.recs);
      assert s == s[..w] + s[w..];
    }
  }

  lemma UniquelyDecodable(m: Layout, a: seq<Record>, b: seq<Record>)
    requires Valid(m)
    requires AllWellFormed(m, a) && AllWellFormed(m, b)
    requires EncodeAll(m, a) == EncodeAll(m, b)
    ensures a == b
  {
    RoundTrip(m, a);
    RoundTrip(m, b);
  }

  /** Decoding splits at every record boundary. */
  lemma {:induction false} DecodeSplits(m: Layout, recs: seq<Record>, rest: seq<Byte>)
    requires Valid(m)
    requires AllWellFormed(m, recs)
    ensures DecodeAll(m, EncodeAll(m, recs) + rest) ==
      Parse(recs + DecodeAll(m, rest).recs, DecodeAll(m, rest).stop)
  {
    if recs == [] {
      assert EncodeAll(m, recs) + rest == rest;
    } else {
      DecodeSplits(m, recs[1..], rest);
      var tail := EncodeAll(m, recs[1..]) + rest;
      assert EncodeAll(m, recs) + rest == Encode(m, recs[0]) + tail;
      DecodeAllStep(m, recs[0], tail);
      HeadThenRest(recs, DecodeAll(m, rest).recs);
    }
  }

  // ---------------------------------------------------------------- where decoding stops

  /** Number of bytes that decode to records. */
  function Consumed(m: Layout, s: seq<Byte>): (n: nat)
    requires Valid(m)
    ensures n <= |s|
  {
    AcceptedStreamsAreEncodings(m, s);
    |EncodeAll(m, DecodeAll(m, s).recs)|
  }

  lemma ConsumedFirst(m: Layout, s: seq<Byte>)
    requires Valid(m) && s != []
    ensures DecodeOne(m, s).Got? ==>
      var w := DecodeOne(m, s).width;
      0 < w <= |s| && Consumed(m, s) == w + Consumed(m, s[w..])
    ensures !DecodeOne(m, s).Got? ==> Consumed(m, s) == 0
  {
    hide DecodeOne, Encode, Valid, WellFormed, DecodeAll;
    DecodeAllFirst(m, s);
    if DecodeOne(m, s).Got? {
      var Got(r, w) := DecodeOne(m, s);
      EncodeDecode(m, s);
      assert ([r] + DecodeAll(m, s[w..]).recs)[1..] == DecodeAll(m, s[w..]).recs;
    }
  }

  /** What stands where decoding stops: nothing, or bytes whose first record fails in this way. */
  predicate StopsWith(m: Layout, rest: seq<Byte>, stop: Stop)
    requires Valid(m)
  {
    if rest == [] then stop.Clean?
    else match DecodeOne(m, rest)
      case Got(_, _) => false
      case BadCode => stop.InvalidCode?
      case PastTable => stop.NoSuchRow?
      case Truncated => stop.PastEnd?
  }

  lemma {:induction false} RestStops(m: Layout, s: seq<Byte>)
    requires Valid(m)
    ensures StopsWith(m, s[Consumed(m, s)..], DecodeAll(m, s).stop)
    decreases |s|
  {
    hide DecodeOne, Encode, EncodeAll, Valid, WellFormed, Consumed;
    if s == [] {
      assert s[Consumed(m, s)..] == [];
    } else {
      DecodeAllFirst(m, s);
      ConsumedFirst(m, s);
      if DecodeOne(m, s).Got? {
        var w := DecodeOne(m, s).width;
        RestStops(m, s[w..]);
        assert s[w..][Consumed(m, s[w..])..] == s[Consumed(m, s)..];
      } else {
        assert s[0..] == s;
      }
    }
  }

  /** Decoding stops in a certain way exactly when the bytes are the encoding of some records followed by
      bytes that stop it in that way, and then it has returned those records. */
  lemma StopsExactly(m: Layout, s: seq<Byte>, stop: Stop)
    requires Valid(m)
    ensures DecodeAll(m, s).stop == stop <==>
      exists recs: seq<Record> | AllWellFormed(m, recs) && EncodeAll(m, recs) <= s ::
        StopsWith(m, s[|EncodeAll(m, recs)|..], stop)
  {
    hide DecodeOne, Encode, EncodeAll, Valid, WellFormed, StopsWith;
    if DecodeAll(m, s).stop == stop {
      RestStops(m, s);
      AcceptedStreamsAreEncodings(m, s);
    }
    forall recs: seq<Record> | AllWellFormed(m, recs) && EncodeAll(m, recs) <= s
                               && StopsWith(m, s[|EncodeAll(m, recs)|..], stop)
      ensures DecodeAll(m, s).stop == stop && DecodeAll(m, s).recs == recs
    {
      StoppedRecords(m, s, recs, stop);
    }
  }

  lemma StoppedRecords(m: Layout, s: seq<Byte>, recs: seq<Record>, stop: Stop)
    requires Valid(m) && AllWellFormed(m, recs) && EncodeAll(m, recs) <= s
    requires StopsWith(m, s[|EncodeAll(m, recs)|..], stop)
    ensures DecodeAll(m, s) == Parse(recs, stop)
  {
    hide DecodeOne, Encode, EncodeAll, Valid, WellFormed;
    var rest := s[|EncodeAll(m, recs)|..];
    assert s == EncodeAll(m, recs) + rest;
    DecodeSplits(m, recs, rest);
    if rest != [] { DecodeAllFirst(m, rest); }
    assert recs + [] == recs;
  }
}
