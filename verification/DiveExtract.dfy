/**
  Splitting a transferred buffer into dives.
 */
module DiveExtract {
  import opened Words
  import Decimal

  const DIVE_HEADER: seq<Byte> := [0xa5, 0xa5, 0x5a, 0x5a]

  /** Result codes.  The last two are not codes of the source: OutOfBuffer marks a header or slice
      that the source would read past the end of the buffer, Stalled a declared length of zero, on
      which its loop never ends. */
  datatype Code = Success | Corrupt | TooShort | ExtraData | OutOfBuffer | Stalled

  /** What the dive callback receives. */
  datatype Dive = Dive(data: seq<Byte>, token: string)

  /** What one iteration finds at pos: a dive of `len` bytes, or the reason to stop. */
  datatype Frame = Found(len: nat) | Stop(code: Code)

  /** strncmp against the four header bytes, which ends at the first difference. */
  function CompareHeader(buf: seq<Byte>, pos: nat, i: nat): Frame
    requires i <= 4
    decreases 4 - i
  {
    if i == 4 then Found(0)
    else if pos + i >= |buf| then Stop(OutOfBuffer)
    else if buf[pos + i] != DIVE_HEADER[i] then Stop(Corrupt)
    else CompareHeader(buf, pos, i + 1)
  }

  /** One iteration of the loop; `pos + dlen` is a uint32_t sum. */
  function FrameAt(buf: seq<Byte>, pos: nat): (f: Frame)
    requires pos < |buf|
    ensures f.Found? ==> 0 < f.len <= |buf| - pos && pos + 12 <= |buf|
    ensures f.Stop? ==> !f.code.Success? && !f.code.ExtraData?
  {
    var header := CompareHeader(buf, pos, 0);
    if header.Stop? then header
    else if pos + 8 > |buf| then Stop(OutOfBuffer)
    else
      var dlen := Uint32Le(buf, pos + 4);
      if U32(pos + dlen) > |buf| then Stop(TooShort)
      else if pos + 12 > |buf| || pos + dlen > |buf| then Stop(OutOfBuffer)
      else if dlen == 0 then Stop(Stalled)
      else Found(dlen)
  }

  datatype Extraction = Extraction(code: Code, dives: seq<Dive>)

  function DiveAt(buf: seq<Byte>, pos: nat, len: nat): Dive
    requires pos + len <= |buf| && pos + 12 <= |buf|
  {
    Dive(buf[pos..pos + len], Decimal.Show(Uint32Le(buf, pos + 8)))
  }

  function ExtractFrom(buf: seq<Byte>, pos: nat): (x: Extraction)
    requires pos <= |buf|
    ensures !x.code.ExtraData?
    decreases |buf| - pos
  {
    if pos == |buf| then Extraction(Success, [])
    else
      match FrameAt(buf, pos)
      case Stop(code) => Extraction(code, [])
      case Found(len) =>
        var rest := ExtractFrom(buf, pos + len);
        Extraction(rest.code, [DiveAt(buf, pos, len)] + rest.dives)
  }

  /** The loop invariant of ExtractDives: what is delivered so far, then what the rest yields. */
  ghost predicate Continues(buf: seq<Byte>, pos: nat, delivered: seq<Dive>, all: Extraction)
    requires pos <= |buf|
  {
    var rest := ExtractFrom(buf, pos);
    all == Extraction(rest.code, delivered + rest.dives)
  }

  lemma ContinuesSteps(buf: seq<Byte>, pos: nat, delivered: seq<Dive>, all: Extraction)
    requires pos < |buf| && Continues(buf, pos, delivered, all)
    ensures match FrameAt(buf, pos)
      case Stop(code) => all == Extraction(code, delivered)
      case Found(len) => Continues(buf, pos + len, delivered + [DiveAt(buf, pos, len)], all)
  {
    hide FrameAt, DiveAt, Uint32Le, Decimal.Show;
    match FrameAt(buf, pos)
    case Stop(code) =>
      assert delivered + [] == delivered;
    case Found(len) =>
      ConcatAssoc(delivered, [DiveAt(buf, pos, len)], ExtractFrom(buf, pos + len).dives);
  }

  lemma ContinuesStarts(buf: seq<Byte>)
    ensures Continues(buf, 0, [], ExtractFrom(buf, 0))
  {
  }

  lemma ContinuesEnds(buf: seq<Byte>, delivered: seq<Dive>, all: Extraction)
    requires Continues(buf, |buf|, delivered, all)
    ensures all == Extraction(Success, delivered)
  {
  }

  /** The checks at the head of one iteration. */
  method ReadFrame(buffer: seq<Byte>, pos: nat) returns (frame: Frame)
    requires pos < |buffer|
    ensures frame == FrameAt(buffer, pos)
  {
    var i := 0;
    while i < 4
      invariant i <= 4 && CompareHeader(buffer, pos, i) == CompareHeader(buffer, pos, 0)
    {
      if pos + i >= |buffer| { return Stop(OutOfBuffer); }
      if buffer[pos + i] != DIVE_HEADER[i] { return Stop(Corrupt); }
      i := i + 1;
    }
    if pos + 8 > |buffer| { return Stop(OutOfBuffer); }
    var dlen := Uint32Le(buffer, pos + 4);
    if U32(pos + dlen) > |buffer| { return Stop(TooShort); }
    if pos + 12 > |buffer| || pos + dlen > |buffer| { return Stop(OutOfBuffer); }
    if dlen == 0 { return Stop(Stalled); }
    return Found(dlen);
  }

  /** smart_extract_dives. */
  method ExtractDives(buffer: seq<Byte>) returns (code: Code, dives: seq<Dive>)
    requires |buffer| < TWO_32
    ensures Extraction(code, dives) == ExtractFrom(buffer, 0)
  {
    hide Continues, ExtractFrom, FrameAt, Uint32Le, Decimal.Show;
    ghost var all := ExtractFrom(buffer, 0);
    var pos := 0;
    dives := [];
    ContinuesStarts(buffer);
    while pos < |buffer|
      invariant pos <= |buffer|
      invariant Continues(buffer, pos, dives, all)
    {
      ContinuesSteps(buffer, pos, dives, all);
      var frame := ReadFrame(buffer, pos);
      if frame.Stop? { return frame.code, dives; }
      var dlen, tok := frame.len, Uint32Le(buffer, pos + 8);
      dives := dives + [Dive(buffer[pos..pos + dlen], Decimal.Show(tok))];
      pos := pos + dlen;
    }
    if pos != |buffer| { return ExtraData, dives; }
    ContinuesEnds(buffer, dives, all);
    code := Success;
  }

  // ---------------------------------------------------------------- properties

  function Concat(dives: seq<seq<Byte>>): seq<Byte> {
    if dives == [] then [] else dives[0] + Concat(dives[1..])
  }

  function Slices(dives: seq<Dive>): seq<seq<Byte>> {
    if dives == [] then [] else [dives[0].data] + Slices(dives[1..])
  }

  /** A dive as the device sends it: header bytes, its own length, a token. */
  predicate WellFormedDive(d: seq<Byte>) {
    12 <= |d| && d[..4] == DIVE_HEADER && Uint32Le(d, 4) == |d|
  }

  predicate AllWellFormed(ds: seq<seq<Byte>>) {
    forall k :: 0 <= k < |ds| ==> WellFormedDive(ds[k])
  }

  lemma HeaderFound(buf: seq<Byte>, pos: nat)
    ensures CompareHeader(buf, pos, 0).Found? <==> pos + 4 <= |buf| && buf[pos..pos + 4] == DIVE_HEADER
  {
    assert CompareHeader(buf, pos, 4).Found?;
    assert CompareHeader(buf, pos, 3).Found? <==> pos + 3 < |buf| && buf[pos + 3] == 0x5a;
    assert CompareHeader(buf, pos, 2).Found? <==> pos + 3 < |buf| && buf[pos + 2] == 0x5a && buf[pos + 3] == 0x5a;
    assert CompareHeader(buf, pos, 1).Found? <==>
      pos + 3 < |buf| && buf[pos + 1] == 0xa5 && buf[pos + 2] == 0x5a && buf[pos + 3] == 0x5a;
  }

  /** A dive of at least 12 bytes is found exactly where a well-formed dive stands. */
  lemma FrameExactly(buf: seq<Byte>, pos: nat, len: nat)
    requires pos < |buf| < TWO_32 && len >= 12
    ensures FrameAt(buf, pos) == Found(len) <==> pos + len <= |buf| && WellFormedDive(buf[pos..pos + len])
  {
    HeaderFound(buf, pos);
    if pos + len <= |buf| {
      assert buf[pos..pos + len][..4] == buf[pos..pos + 4];
      assert Uint32Le(buf[pos..pos + len], 4) == Uint32Le(buf, pos + 4);
    }
  }

  lemma SlicesFirst(d: Dive, dives: seq<Dive>)
    ensures Slices([d] + dives) == [d.data] + Slices(dives)
    ensures Concat(Slices([d] + dives)) == d.data + Concat(Slices(dives))
  {
    assert ([d] + dives)[1..] == dives;
    assert ([d.data] + Slices(dives))[1..] == Slices(dives);
  }

  /** x delivers, in order, the bytes from pos up to where it stops, and stops for the right reason. */
  ghost predicate DeliversFrom(buf: seq<Byte>, pos: nat, x: Extraction)
    requires pos <= |buf|
  {
    var end := pos + |Concat(Slices(x.dives))|;
    && end <= |buf|
    && buf[pos..end] == Concat(Slices(x.dives))
    && (x.code.Success? <==> end == |buf|)
    && (end < |buf| ==> FrameAt(buf, end) == Stop(x.code))
  }

  lemma DeliversFirst(buf: seq<Byte>, pos: nat, d: Dive, rest: Extraction)
    requires pos + |d.data| <= |buf| && d.data == buf[pos..pos + |d.data|]
    requires DeliversFrom(buf, pos + |d.data|, rest)
    ensures DeliversFrom(buf, pos, Extraction(rest.code, [d] + rest.dives))
  {
    SlicesFirst(d, rest.dives);
    var mid := pos + |d.data|;
    JoinSlices(buf, pos, mid, mid + |Concat(Slices(rest.dives))|);
    hide FrameAt, Concat, Slices;
  }

  /** The delivered slices are a prefix of the buffer in order; they are the whole buffer exactly on
      success, and otherwise the code is what the next iteration finds after them. */
  lemma {:induction false} SlicesConcatenate(buf: seq<Byte>, pos: nat)
    requires pos <= |buf|
    ensures DeliversFrom(buf, pos, ExtractFrom(buf, pos))
    decreases |buf| - pos
  {
    hide FrameAt, Uint32Le;
    if pos < |buf| && FrameAt(buf, pos).Found? {
      var len := FrameAt(buf, pos).len;
      SlicesConcatenate(buf, pos + len);
      hide DeliversFrom;
      DeliversFirst(buf, pos, DiveAt(buf, pos, len), ExtractFrom(buf, pos + len));
    }
  }

  /** The callback a dive should produce: the dive with its own token. */
  function Callback(d: seq<Byte>): Dive
    requires WellFormedDive(d)
  {
    Dive(d, Decimal.Show(Uint32Le(d, 8)))
  }

  function Callbacks(ds: seq<seq<Byte>>): seq<Dive>
    requires AllWellFormed(ds)
  {
    if ds == [] then [] else [Callback(ds[0])] + Callbacks(ds[1..])
  }

  /** What a well-formed dive is, byte by byte, and the token that its callback shows. */
  lemma CallbackExactly(d: seq<Byte>, token: Word, rest: seq<Byte>)
    requires 12 <= |d| < TWO_32
    ensures WellFormedDive(d) <==> d[..8] == [0xa5, 0xa5, 0x5a, 0x5a] + Le32(|d|)
    ensures WellFormedDive(d) && d[8..12] == Le32(token) ==> Callback(d) == Dive(d, Decimal.Show(token))
  {
    hide Le32, Uint32Le, Decimal.Show;
    Le32Reads(|d|, d[..4], d[8..]);
    WordBytes(d, 4);
    assert d[..8] == d[..4] + d[4..8];
    assert d == d[..4] + d[4..8] + d[8..];
    if d[8..12] == Le32(token) {
      Le32Reads(token, d[..8], d[12..]);
      assert d == d[..8] + d[8..12] + d[12..];
    }
  }

  lemma WordBytes(d: seq<Byte>, at: nat)
    requires at + 4 <= |d|
    ensures Le32(Uint32Le(d, at)) == d[at..at + 4]
  {
    hide Le32;
    var w := d[at..at + 4];
    assert w == [d[at], d[at + 1], d[at + 2], d[at + 3]] + [];
    ByteOrder(d[at], d[at + 1], d[at + 2], d[at + 3], []);
    assert Uint32Le(w, 0) == Uint32Le(d, at);
  }

  lemma PrefixAt(buf: seq<Byte>, pos: nat, d: seq<Byte>, rest: seq<Byte>)
    requires pos <= |buf|
    ensures buf[pos..] == d + rest ==> pos + |d| <= |buf| && buf[pos..pos + |d|] == d && buf[pos + |d|..] == rest
  {
    if buf[pos..] == d + rest {
      assert buf[pos..pos + |d|] == buf[pos..][..|d|];
      assert buf[pos + |d|..] == buf[pos..][|d|..];
    }
  }

  lemma SliceWord(buf: seq<Byte>, from: nat, to: nat, at: nat)
    requires from <= to <= |buf| && at + 4 <= to - from
    ensures Uint32Le(buf[from..to], at) == Uint32Le(buf, from + at)
  {
  }

  lemma ConcatFirst(ds: seq<seq<Byte>>, rest: seq<Byte>)
    requires ds != []
    ensures Concat(ds) + rest == ds[0] + (Concat(ds[1..]) + rest)
  {
    ConcatAssoc(ds[0], Concat(ds[1..]), rest);
  }

  lemma HeadDive(buf: seq<Byte>, pos: nat, ds: seq<seq<Byte>>, rest: seq<Byte>)
    requires ds != [] && AllWellFormed(ds) && |buf| < TWO_32 && pos <= |buf| && buf[pos..] == Concat(ds) + rest
    ensures pos < |buf| && pos + |ds[0]| <= |buf| && FrameAt(buf, pos) == Found(|ds[0]|)
    ensures buf[pos + |ds[0]|..] == Concat(ds[1..]) + rest
    ensures Callback(ds[0]) == DiveAt(buf, pos, |ds[0]|)
  {
    hide FrameAt, Uint32Le, Decimal.Show, Concat;
    var len := |ds[0]|;
    assert WellFormedDive(ds[0]);
    ConcatFirst(ds, rest);
    PrefixAt(buf, pos, ds[0], Concat(ds[1..]) + rest);
    FrameExactly(buf, pos, len);
    SliceWord(buf, pos, pos + len, 8);
  }

  /** Well-formed dives in front of anything are delivered, and the rest decides how it ends. */
  lemma {:induction false} ExtractConcatThen(buf: seq<Byte>, pos: nat, ds: seq<seq<Byte>>, rest: seq<Byte>)
    requires |buf| < TWO_32 && pos <= |buf| && buf[pos..] == Concat(ds) + rest && AllWellFormed(ds)
    ensures |rest| <= |buf|
    ensures var end := ExtractFrom(buf, |buf| - |rest|);
      ExtractFrom(buf, pos) == Extraction(end.code, Callbacks(ds) + end.dives)
    decreases |ds|
  {
    hide FrameAt, DiveAt, Callback, Uint32Le, WellFormedDive;
    if ds == [] {
      assert Concat(ds) + rest == rest;
      assert [] + ExtractFrom(buf, pos).dives == ExtractFrom(buf, pos).dives;
    } else {
      HeadDive(buf, pos, ds, rest);
      ExtractConcatThen(buf, pos + |ds[0]|, ds[1..], rest);
      ConcatAssoc([Callback(ds[0])], Callbacks(ds[1..]), ExtractFrom(buf, |buf| - |rest|).dives);
    }
  }

  /** Extracting a concatenation of well-formed dives returns exactly those dives, with their tokens. */
  lemma ExtractConcat(buf: seq<Byte>, pos: nat, ds: seq<seq<Byte>>)
    requires |buf| < TWO_32 && pos <= |buf| && buf[pos..] == Concat(ds) && AllWellFormed(ds)
    ensures ExtractFrom(buf, pos) == Extraction(Success, Callbacks(ds))
  {
    hide FrameAt, DiveAt, Concat, Callbacks, WellFormedDive;
    assert Concat(ds) + [] == Concat(ds);
    ExtractConcatThen(buf, pos, ds, []);
    assert Callbacks(ds) + [] == Callbacks(ds);
  }

  /** Every delivered slice of at least 12 bytes is well formed; in particular its size is the length
      its header declares, which is what the parser checks first. */
  lemma {:induction false} SlicesWellFormed(buf: seq<Byte>, pos: nat, k: nat)
    requires pos <= |buf| < TWO_32
    requires k < |ExtractFrom(buf, pos).dives| && |ExtractFrom(buf, pos).dives[k].data| >= 12
    ensures WellFormedDive(ExtractFrom(buf, pos).dives[k].data)
    decreases |buf| - pos
  {
    hide FrameAt, WellFormedDive, Uint32Le;
    var len := FrameAt(buf, pos).len;
    if k == 0 {
      FrameExactly(buf, pos, len);
    } else {
      hide DiveAt;
      SlicesWellFormed(buf, pos + len, k - 1);
    }
  }

  lemma {:induction false} SlicesIndex(dives: seq<Dive>)
    ensures |Slices(dives)| == |dives|
    ensures forall k :: 0 <= k < |dives| ==> Slices(dives)[k] == dives[k].data
  {
    if dives != [] { SlicesIndex(dives[1..]); }
  }

  predicate NoShortSlice(x: Extraction) {
    forall k :: 0 <= k < |x.dives| ==> |x.dives[k].data| >= 12
  }

  lemma {:induction false} CallbacksIndex(ds: seq<seq<Byte>>)
    requires AllWellFormed(ds)
    ensures |Callbacks(ds)| == |ds|
    ensures forall k :: 0 <= k < |ds| ==> Callbacks(ds)[k].data == ds[k]
  {
    if ds != [] { CallbacksIndex(ds[1..]); }
  }

  lemma SuccessGivesDives(buf: seq<Byte>)
    requires |buf| < TWO_32 && ExtractFrom(buf, 0).code.Success? && NoShortSlice(ExtractFrom(buf, 0))
    ensures AllWellFormed(Slices(ExtractFrom(buf, 0).dives)) && Concat(Slices(ExtractFrom(buf, 0).dives)) == buf
  {
    var x := ExtractFrom(buf, 0);
    SlicesConcatenate(buf, 0);
    SlicesIndex(x.dives);
    forall k | 0 <= k < |x.dives| ensures WellFormedDive(Slices(x.dives)[k]) {
      SlicesWellFormed(buf, 0, k);
    }
    hide ExtractFrom, FrameAt, Concat, WellFormedDive, Slices;
  }

  /** Success with no slice shorter than a dive header means exactly that the buffer is a
      concatenation of well-formed dives. */
  lemma SuccessExactly(buf: seq<Byte>)
    requires |buf| < TWO_32
    ensures ExtractFrom(buf, 0).code.Success? && NoShortSlice(ExtractFrom(buf, 0))
      <==> exists ds: seq<seq<Byte>> | AllWellFormed(ds) :: Concat(ds) == buf
  {
    hide ExtractFrom, Concat, WellFormedDive, Slices, Callbacks;
    if ExtractFrom(buf, 0).code.Success? && NoShortSlice(ExtractFrom(buf, 0)) {
      SuccessGivesDives(buf);
    }
    if ds: seq<seq<Byte>> :| AllWellFormed(ds) && Concat(ds) == buf {
      assert buf[0..] == buf;
      ExtractConcat(buf, 0, ds);
      CallbacksIndex(ds);
      assert forall k :: 0 <= k < |ds| ==> WellFormedDive(ds[k]);
      forall k | 0 <= k < |ds| ensures |ds[k]| >= 12 { LongEnough(ds[k]); }
    }
  }

  lemma LongEnough(d: seq<Byte>)
    requires WellFormedDive(d)
    ensures |d| >= 12
  {
  }

  // ---------------------------------------------------------------- where the loop stops, byte by byte

  /** The header bytes stand at pos. */
  predicate HeaderAt(buf: seq<Byte>, pos: nat) {
    pos + 4 <= |buf| && buf[pos..pos + 4] == DIVE_HEADER
  }

  /** Where the loop goes on by `len` bytes: header, a token, and a non-zero length that stays inside. */
  predicate FrameBytes(buf: seq<Byte>, pos: nat, len: nat) {
    HeaderAt(buf, pos) && pos + 12 <= |buf| && Uint32Le(buf, pos + 4) == len && 0 < len <= |buf| - pos
  }

  /** A declared length of zero, on which the source never ends. */
  predicate StalledBytes(buf: seq<Byte>, pos: nat) {
    HeaderAt(buf, pos) && pos + 12 <= |buf| && Uint32Le(buf, pos + 4) == 0
  }

  /** The buffer ends inside what could still be a header; or after a header, before its length; or the
      length passes its test because the sum with the position wraps to a value inside the buffer; or it
      passes although the token is not all there. */
  predicate PastBufferBytes(buf: seq<Byte>, pos: nat) {
    || (pos + 4 > |buf| && pos <= |buf| && buf[pos..] <= DIVE_HEADER)
    || (HeaderAt(buf, pos) && pos + 8 > |buf|)
    || (HeaderAt(buf, pos) && pos + 8 <= |buf| &&
        var end := pos + Uint32Le(buf, pos + 4);
        (end >= TWO_32 && end - TWO_32 <= |buf|) || (end <= |buf| < pos + 12))
  }

  predicate TooShortBytes(buf: seq<Byte>, pos: nat) {
    HeaderAt(buf, pos) && pos + 8 <= |buf| && |buf| < U32(pos + Uint32Le(buf, pos + 4))
  }

  /** A byte that is not the header's stands before the buffer ends. */
  predicate CorruptBytes(buf: seq<Byte>, pos: nat) {
    exists i: nat :: i < 4 && pos + i < |buf| && buf[pos + i] != DIVE_HEADER[i]
  }

  predicate StopBytes(code: Code, buf: seq<Byte>, pos: nat) {
    match code
    case Stalled => StalledBytes(buf, pos)
    case OutOfBuffer => PastBufferBytes(buf, pos)
    case TooShort => TooShortBytes(buf, pos)
    case Corrupt => CorruptBytes(buf, pos)
    case _ => false
  }

  lemma HeaderExactly(buf: seq<Byte>, pos: nat)
    requires pos < |buf|
    ensures var h := CompareHeader(buf, pos, 0);
      && (h.Found? <==> HeaderAt(buf, pos))
      && (h == Stop(OutOfBuffer) <==> pos + 4 > |buf| && buf[pos..] <= DIVE_HEADER)
      && (h == Stop(Corrupt) <==> CorruptBytes(buf, pos))
      && (h.Found? || h == Stop(OutOfBuffer) || h == Stop(Corrupt))
  {
    HeaderFound(buf, pos);
    HeaderUpTo(buf, pos, 0);
    var h := CompareHeader(buf, pos, 0);
    if h == Stop(OutOfBuffer) {
      var rest := buf[pos..];
      assert forall i :: 0 <= i < |rest| ==> rest[i] == DIVE_HEADER[i];
    }
    if pos + 4 > |buf| && buf[pos..] <= DIVE_HEADER {
      forall i: nat | i < 4 && pos + i < |buf| ensures buf[pos + i] == DIVE_HEADER[i] {
        assert buf[pos + i] == buf[pos..][i];
      }
    }
  }

  /** The comparison from byte i on: the first byte that is missing or different decides. */
  lemma {:induction false} HeaderUpTo(buf: seq<Byte>, pos: nat, i: nat)
    requires i <= 4
    ensures var h := CompareHeader(buf, pos, i);
      && (h == Stop(Corrupt) <==> exists j: nat :: i <= j < 4 && pos + j < |buf| && buf[pos + j] != DIVE_HEADER[j])
      && (h == Stop(OutOfBuffer) <==> pos + 4 > |buf| && i < 4 && h != Stop(Corrupt))
      && (h.Found? || h == Stop(OutOfBuffer) || h == Stop(Corrupt))
    decreases 4 - i
  {
    if i < 4 && pos + i < |buf| && buf[pos + i] == DIVE_HEADER[i] { HeaderUpTo(buf, pos, i + 1); }
  }

  /** Every outcome of an iteration in terms of the bytes at its position. */
  lemma FrameMeaning(buf: seq<Byte>, pos: nat)
    requires pos < |buf| < TWO_32
    ensures forall len: nat :: FrameAt(buf, pos) == Found(len) <==> FrameBytes(buf, pos, len)
    ensures forall code :: FrameAt(buf, pos) == Stop(code) <==> StopBytes(code, buf, pos)
  {
    hide CompareHeader, CorruptBytes;
    HeaderExactly(buf, pos);
    if HeaderAt(buf, pos) { NotCorrupt(buf, pos); }
    if HeaderAt(buf, pos) && pos + 8 <= |buf| {
      WrapCases(pos, Uint32Le(buf, pos + 4), |buf|);
    }
    hide Uint32Le, U32;
  }

  lemma NotCorrupt(buf: seq<Byte>, pos: nat)
    requires HeaderAt(buf, pos)
    ensures !CorruptBytes(buf, pos)
  {
    forall i: nat | i < 4 ensures buf[pos + i] == DIVE_HEADER[i] {
      assert buf[pos + i] == buf[pos..pos + 4][i];
    }
  }

  lemma WrapCases(pos: nat, len: Word, size: nat)
    requires pos < size < TWO_32
    ensures U32(pos + len) == if pos + len < TWO_32 then pos + len else pos + len - TWO_32
  {
  }

  // ---------------------------------------------------------------- chains of frames

  /** The frames of the lengths `lens` follow each other from pos. */
  predicate Chain(buf: seq<Byte>, pos: nat, lens: seq<nat>)
    decreases |lens|
  {
    lens == [] || (FrameBytes(buf, pos, lens[0]) && Chain(buf, pos + lens[0], lens[1..]))
  }

  function Total(lens: seq<nat>): nat {
    if lens == [] then 0 else lens[0] + Total(lens[1..])
  }

  lemma {:induction false} ChainInside(buf: seq<Byte>, pos: nat, lens: seq<nat>)
    requires Chain(buf, pos, lens) && pos <= |buf|
    ensures pos + Total(lens) <= |buf|
    decreases |lens|
  {
    if lens != [] { ChainInside(buf, pos + lens[0], lens[1..]); }
  }

  /** The loop passes over a chain: its frames are delivered and the rest is what the end of it yields. */
  lemma {:induction false} ChainExtracts(buf: seq<Byte>, pos: nat, lens: seq<nat>)
    requires pos <= |buf| < TWO_32 && Chain(buf, pos, lens)
    ensures pos + Total(lens) <= |buf|
    ensures var x, end := ExtractFrom(buf, pos), ExtractFrom(buf, pos + Total(lens));
      x.code == end.code && |x.dives| == |lens| + |end.dives|
    decreases |lens|
  {
    hide FrameAt, DiveAt, StopBytes, FrameBytes;
    if lens != [] {
      FrameInside(buf, pos, lens[0]);
      FrameMeaning(buf, pos);
      ChainExtracts(buf, pos + lens[0], lens[1..]);
    }
  }

  lemma FrameInside(buf: seq<Byte>, pos: nat, len: nat)
    requires FrameBytes(buf, pos, len)
    ensures pos < |buf| && 0 < len && pos + len <= |buf|
  {
  }

  /** The chain that the loop follows from pos. */
  lemma {:induction false} ChainOf(buf: seq<Byte>, pos: nat) returns (lens: seq<nat>)
    requires pos <= |buf| < TWO_32
    ensures Chain(buf, pos, lens) && pos + Total(lens) <= |buf|
    ensures var end := pos + Total(lens);
      if end == |buf| then ExtractFrom(buf, pos).code == Success
      else StopBytes(ExtractFrom(buf, pos).code, buf, end)
    decreases |buf| - pos
  {
    hide FrameAt, DiveAt, StopBytes, FrameBytes;
    lens := [];
    if pos < |buf| {
      FrameMeaning(buf, pos);
      match FrameAt(buf, pos)
      case Stop(code) =>
      case Found(len) =>
        var rest := ChainOf(buf, pos + len);
        lens := [len] + rest;
        assert lens[1..] == rest;
    }
  }

  /** The loop ends with a code exactly when some chain of frames leads from the start to bytes that stand
      for that code; with success, exactly when it leads to the end of the buffer. */
  lemma StopsExactly(buf: seq<Byte>, code: Code)
    requires |buf| < TWO_32
    ensures ExtractFrom(buf, 0).code == code <==>
      exists lens: seq<nat> :: Chain(buf, 0, lens) && EndsWith(code, buf, Total(lens))
  {
    hide Chain, FrameAt, DiveAt, ExtractFrom, CorruptBytes, TooShortBytes, StalledBytes, PastBufferBytes;
    if lens: seq<nat> :| Chain(buf, 0, lens) && EndsWith(code, buf, Total(lens)) {
      ChainInside(buf, 0, lens);
      ChainExtracts(buf, 0, lens);
      StopAt(buf, Total(lens), code);
    }
    if ExtractFrom(buf, 0).code == code {
      var lens := ChainOf(buf, 0);
      assert EndsWith(code, buf, Total(lens));
    }
  }

  predicate EndsWith(code: Code, buf: seq<Byte>, end: nat) {
    if code.Success? then end == |buf| else end < |buf| && StopBytes(code, buf, end)
  }

  lemma StopAt(buf: seq<Byte>, pos: nat, code: Code)
    requires pos <= |buf| < TWO_32 && EndsWith(code, buf, pos)
    ensures ExtractFrom(buf, pos).code == code
  {
    hide StopBytes, FrameAt, DiveAt;
    if pos < |buf| { FrameMeaning(buf, pos); }
  }

  /** When the source ends and stays inside its buffer: exactly when some chain of frames leads to the end,
      to a byte that no header has there, or to a length that reaches past the end and is seen to. */
  lemma StaysInsideExactly(buf: seq<Byte>)
    requires |buf| < TWO_32
    ensures var code := ExtractFrom(buf, 0).code;
      !code.Stalled? && !code.OutOfBuffer? <==>
      exists lens: seq<nat> :: Chain(buf, 0, lens) && SafeEnd(buf, Total(lens))
  {
    hide Chain, FrameAt, DiveAt, ExtractFrom, CorruptBytes, TooShortBytes, StalledBytes, PastBufferBytes;
    var code := ExtractFrom(buf, 0).code;
    if !code.Stalled? && !code.OutOfBuffer? {
      var lens := ChainOf(buf, 0);
      assert SafeEnd(buf, Total(lens));
    }
    if lens: seq<nat> :| Chain(buf, 0, lens) && SafeEnd(buf, Total(lens)) {
      ChainInside(buf, 0, lens);
      ChainExtracts(buf, 0, lens);
      var end := if Total(lens) == |buf| then Success else if CorruptBytes(buf, Total(lens)) then Corrupt else TooShort;
      InsideBytes(buf, Total(lens));
      StopAt(buf, Total(lens), end);
    }
  }

  predicate SafeEnd(buf: seq<Byte>, end: nat) {
    end == |buf| || CorruptBytes(buf, end) || TooShortBytes(buf, end)
  }

  lemma InsideBytes(buf: seq<Byte>, pos: nat)
    ensures CorruptBytes(buf, pos) || TooShortBytes(buf, pos) ==> pos < |buf|
  {
  }

  /** The loop of the source does not always end: a header that declares length zero, with any token. */
  lemma StalledWitness(token: Word)
    ensures ExtractFrom(DIVE_HEADER + Le32(0) + Le32(token), 0) == Extraction(Stalled, [])
  {
    var buf := DIVE_HEADER + Le32(0) + Le32(token);
    assert buf[0..4] == DIVE_HEADER;
    Le32Reads(0, DIVE_HEADER, Le32(token));
    hide Uint32Le, Le32;
    FrameMeaning(buf, 0);
  }

  /** It does not always stay inside its buffer: any proper beginning of a header, at the end. */
  lemma OutOfBufferWitness(n: nat)
    requires 0 < n < 4
    ensures ExtractFrom(DIVE_HEADER[..n], 0) == Extraction(OutOfBuffer, [])
  {
    var buf := DIVE_HEADER[..n];
    assert buf[0..] == buf;
    FrameMeaning(buf, 0);
  }
}
