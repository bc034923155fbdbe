/**
  Base 64 encoding and decoding over an output array, specified character by character and byte by
  byte, and compared with section 4 of RFC 4648.
 */
module Base64 {
  import opened Words
  import opened Wrappers

  /** encoding_table, by its four runs. */
  function EncodeChar(i: nat): char
    requires i < 64
  {
    if i < 26 then (i + 65) as char
    else if i < 52 then (i + 71) as char
    else if i < 62 then (i - 4) as char
    else if i == 62 then '+' else '/'
  }

  /** decoding_table; -1 for every character outside the alphabet. */
  function DecodeChar(c: char): (i: int)
    ensures -1 <= i < 64
  {
    if c == '+' then 62
    else if c == '/' then 63
    else if '0' <= c <= '9' then c as int + 4
    else if 'A' <= c <= 'Z' then c as int - 65
    else if 'a' <= c <= 'z' then c as int - 71
    else -1
  }

  lemma DecodeEncodeChar(i: nat)
    requires i < 64
    ensures DecodeChar(EncodeChar(i)) == i && EncodeChar(i) != '='
  {
  }

  lemma EncodeDecodeChar(c: char)
    requires DecodeChar(c) >= 0
    ensures EncodeChar(DecodeChar(c)) == c && c != '='
  {
  }

  const UPPER: string := "ABCDEFGHIJKLMNOPQRSTUVWXYZ"
  const LOWER: string := "abcdefghijklmnopqrstuvwxyz"
  const OTHER: string := "0123456789+/"

  /** Table 1 of RFC 4648. */
  const ALPHABET: string := UPPER + LOWER + OTHER

  /** The two tables are the alphabet and its inverse. */
  lemma AlphabetExactly(i: nat, c: char)
    requires i < 64
    ensures |ALPHABET| == 64 && EncodeChar(i) == ALPHABET[i]
    ensures DecodeChar(c) == i <==> c == ALPHABET[i]
    ensures DecodeChar(c) == -1 <==> c !in ALPHABET
  {
    AlphabetRuns(i);
    if DecodeChar(c) >= 0 {
      AlphabetRuns(DecodeChar(c));
      EncodeDecodeChar(c);
    }
    if c in ALPHABET {
      var k :| 0 <= k < 64 && ALPHABET[k] == c;
      AlphabetRuns(k);
      DecodeEncodeChar(k);
    }
    DecodeEncodeChar(i);
    hide EncodeChar, DecodeChar, ALPHABET;
  }

  lemma UpperRun(i: nat)
    requires i < 26
    ensures |UPPER| == 26 && UPPER[i] == EncodeChar(i)
  {
  }

  lemma LowerRun(i: nat)
    requires i < 26
    ensures |LOWER| == 26 && LOWER[i] == EncodeChar(26 + i)
  {
  }

  lemma OtherRun(i: nat)
    requires i < 12
    ensures |OTHER| == 12 && OTHER[i] == EncodeChar(52 + i)
  {
  }

  lemma AlphabetRuns(i: nat)
    requires i < 64
    ensures |ALPHABET| == 64 && ALPHABET[i] == EncodeChar(i)
  {
    hide EncodeChar, UPPER, LOWER, OTHER;
    UpperRun(if i < 26 then i else 0);
    LowerRun(if 26 <= i < 52 then i - 26 else 0);
    OtherRun(if i >= 52 then i - 52 else 0);
  }

  // ---------------------------------------------------------------- one group of three bytes

  /** The m-th group of six bits of three bytes. */
  function Six(a: Byte, b: Byte, c: Byte, m: nat): (r: nat)
    ensures r < 64
  {
    if m == 0 then a / 4
    else if m == 1 then a % 4 * 16 + b / 16
    else if m == 2 then b % 16 * 4 + c / 64
    else c % 64
  }

  lemma Digits64(p: nat, q: nat, r: nat, t: nat)
    requires p < 64 && q < 64 && r < 64 && t < 64
    ensures var v := p * 0x4_0000 + q * 0x1000 + r * 0x40 + t;
      v / 0x4_0000 % 64 == p && v / 0x1000 % 64 == q && v / 0x40 % 64 == r && v % 64 == t
  {
    var v := p * 0x4_0000 + q * 0x1000 + r * 0x40 + t;
    QuotientIs(v, 0x4_0000, p, q * 0x1000 + r * 0x40 + t);
    QuotientIs(v, 0x1000, p * 64 + q, r * 0x40 + t);
    QuotientIs(v, 0x40, p * 0x1000 + q * 64 + r, t);
    QuotientIs(p * 64 + q, 64, p, q);
    QuotientIs(p * 0x1000 + q * 64 + r, 64, p * 64 + q, r);
  }

  lemma Digits256(a: nat, b: nat, c: nat)
    requires a < 256 && b < 256 && c < 256
    ensures var v := a * 0x1_0000 + b * 0x100 + c;
      v / 0x1_0000 % 256 == a && v / 0x100 % 256 == b && v % 256 == c
  {
    var v := a * 0x1_0000 + b * 0x100 + c;
    QuotientIs(v, 0x1_0000, a, b * 0x100 + c);
    QuotientIs(v, 0x100, a * 256 + b, c);
    QuotientIs(v, 256, a * 256 + b, c);
    QuotientIs(a * 256 + b, 256, a, b);
  }

  /** The four sextets and the three bytes are digits of the same 24-bit number. */
  lemma SixOfTriple(a: Byte, b: Byte, c: Byte)
    ensures Six(a, b, c, 0) * 0x4_0000 + Six(a, b, c, 1) * 0x1000 + Six(a, b, c, 2) * 0x40 + Six(a, b, c, 3)
      == a as int * 0x1_0000 + b as int * 0x100 + c as int
  {
  }

  /** Four sextets are the sextets of the three bytes they make. */
  lemma SixRebuilds(p: nat, q: nat, r: nat, t: nat)
    requires p < 64 && q < 64 && r < 64 && t < 64
    ensures var a, b, c := p * 4 + q / 16, q % 16 * 16 + r / 4, r % 4 * 64 + t;
      && Six(a, b, c, 0) == p && Six(a, b, c, 1) == q && Six(a, b, c, 2) == r && Six(a, b, c, 3) == t
      && p * 0x4_0000 + q * 0x1000 + r * 0x40 + t == a * 0x1_0000 + b * 0x100 + c
  {
    QuotientIs(p * 4 + q / 16, 4, p, q / 16);
    QuotientIs(q % 16 * 16 + r / 4, 16, q % 16, r / 4);
    QuotientIs(r % 4 * 64 + t, 64, r % 4, t);
  }

  // ---------------------------------------------------------------- encoding

  function EncodedLength(n: nat): nat
    requires n > 0
  {
    (n - 1) / 3 * 4 + 4
  }

  /** mod_table. */
  function Padding(n: nat): nat {
    if n % 3 == 0 then 0 else 3 - n % 3
  }

  /** Byte i, or zero past the end. */
  function ByteAt(x: seq<Byte>, i: nat): Byte {
    if i < |x| then x[i] else 0
  }

  /** Six-bit group m of input group k. */
  function SextetIn(x: seq<Byte>, k: nat, m: nat): (r: nat)
    ensures r < 64
  {
    Six(ByteAt(x, 3 * k), ByteAt(x, 3 * k + 1), ByteAt(x, 3 * k + 2), m)
  }

  /** The t-th group of six bits of x. */
  function Sextet(x: seq<Byte>, t: nat): (r: nat)
    ensures r < 64
  {
    SextetIn(x, t / 4, t % 4)
  }

  lemma SextetAt(x: seq<Byte>, k: nat, m: nat)
    requires m < 4
    ensures Sextet(x, 4 * k + m) == SextetIn(x, k, m)
  {
    hide SextetIn;
    QuotientIs(4 * k + m, 4, k, m);
  }

  function EncodedAt(x: seq<Byte>, t: nat): char
    requires x != [] && t < EncodedLength(|x|)
  {
    if t >= EncodedLength(|x|) - Padding(|x|) then '=' else EncodeChar(Sextet(x, t))
  }

  function Encoded(x: seq<Byte>): (s: string)
    requires x != []
    ensures |s| == EncodedLength(|x|)
  {
    seq(EncodedLength(|x|), t requires 0 <= t < EncodedLength(|x|) => EncodedAt(x, t))
  }

  /** The 24-bit input group k: three 8-bit groups concatenated, zero past the end of the data. */
  function InputGroup(x: seq<Byte>, k: nat): int {
    ByteAt(x, 3 * k) as int * 0x1_0000 + ByteAt(x, 3 * k + 1) as int * 0x100 + ByteAt(x, 3 * k + 2) as int
  }

  lemma GroupSextets(x: seq<Byte>, k: nat)
    ensures var a, b, c := ByteAt(x, 3 * k), ByteAt(x, 3 * k + 1), ByteAt(x, 3 * k + 2);
      && SextetIn(x, k, 0) == Six(a, b, c, 0) && SextetIn(x, k, 1) == Six(a, b, c, 1)
      && SextetIn(x, k, 2) == Six(a, b, c, 2) && SextetIn(x, k, 3) == Six(a, b, c, 3)
  {
    hide Six, ByteAt;
  }

  lemma InputGroupDigits(x: seq<Byte>, k: nat)
    ensures InputGroup(x, k) >= 0
    ensures InputGroup(x, k) / 0x4_0000 % 64 == SextetIn(x, k, 0)
    ensures InputGroup(x, k) / 0x1000 % 64 == SextetIn(x, k, 1)
    ensures InputGroup(x, k) / 0x40 % 64 == SextetIn(x, k, 2)
    ensures InputGroup(x, k) % 64 == SextetIn(x, k, 3)
  {
    var a, b, c := ByteAt(x, 3 * k), ByteAt(x, 3 * k + 1), ByteAt(x, 3 * k + 2);
    GroupSextets(x, k);
    SixOfTriple(a, b, c);
    Digits64(Six(a, b, c, 0), Six(a, b, c, 1), Six(a, b, c, 2), Six(a, b, c, 3));
    hide Six, Sextet, ByteAt;
  }

  /** Up to three octets from position i, missing ones read as zero. */
  method ReadTriple(data: seq<Byte>, i: nat, ghost k: nat) returns (triple: nat, next: nat)
    requires i == 3 * k < |data|
    ensures triple == InputGroup(data, k)
    ensures next == if 3 * k + 3 < |data| then 3 * k + 3 else |data|
  {
    next := i;
    var a: int, b: int, c: int := 0, 0, 0;
    if next < |data| { a := data[next]; next := next + 1; }
    if next < |data| { b := data[next]; next := next + 1; }
    if next < |data| { c := data[next]; next := next + 1; }
    triple := a * 0x1_0000 + b * 0x100 + c;
  }

  /** The four table look-ups of one group. */
  method WriteGroup(encoded: array<char>, j: nat, triple: nat)
    requires j + 4 <= encoded.Length
    modifies encoded
    ensures encoded[j] == EncodeChar(triple / 0x4_0000 % 64)
    ensures encoded[j + 1] == EncodeChar(triple / 0x1000 % 64)
    ensures encoded[j + 2] == EncodeChar(triple / 0x40 % 64)
    ensures encoded[j + 3] == EncodeChar(triple % 64)
    ensures forall t :: 0 <= t < encoded.Length && !(j <= t < j + 4) ==> encoded[t] == old(encoded[t])
  {
    hide EncodeChar;
    encoded[j] := EncodeChar(triple / 0x4_0000 % 64);
    encoded[j + 1] := EncodeChar(triple / 0x1000 % 64);
    encoded[j + 2] := EncodeChar(triple / 0x40 % 64);
    encoded[j + 3] := EncodeChar(triple % 64);
  }

  /** base64_encode.  The loop counters of the source are int, so the text must be shorter than 2^31. */
  method Encode(data: seq<Byte>) returns (encoded: array<char>)
    requires data != [] && EncodedLength(|data|) < 0x8000_0000
    ensures fresh(encoded) && encoded[..] == Encoded(data)
  {
    hide EncodeChar, Sextet, SextetIn, InputGroup;
    var length := (|data| - 1) / 3 * 4 + 4;
    encoded := new char[length];
    var i, j := 0, 0;
    ghost var k := 0;
    while i < |data|
      invariant j == 4 * k <= length && i == (if 3 * k < |data| then 3 * k else |data|)
      invariant j < length <==> i < |data|
      invariant forall t :: 0 <= t < j ==> encoded[t] == EncodeChar(Sextet(data, t))
    {
      var triple;
      triple, i := ReadTriple(data, i, k);
      InputGroupDigits(data, k);
      WriteGroup(encoded, j, triple);
      forall t | j <= t < j + 4 ensures encoded[t] == EncodeChar(Sextet(data, t)) {
        SextetAt(data, k, t - 4 * k);
        assert t == j || t == j + 1 || t == j + 2 || t == j + 3;
      }
      j := j + 4;
      k := k + 1;
    }
    PadEnd(encoded, Padding(|data|));
  }

  /** The loop that overwrites the padding. */
  method PadEnd(encoded: array<char>, n: nat)
    requires n <= encoded.Length
    modifies encoded
    ensures forall t :: 0 <= t < encoded.Length ==>
      encoded[t] == if t >= encoded.Length - n then '=' else old(encoded[t])
  {
    var i := 0;
    while i < n
      invariant i <= n
      invariant forall t :: 0 <= t < encoded.Length ==>
        encoded[t] == if t >= encoded.Length - i then '=' else old(encoded[t])
    {
      encoded[encoded.Length - 1 - i] := '=';
      i := i + 1;
    }
  }

  // ---------------------------------------------------------------- decoding

  /** The value of a character as the decoder computes it: '=' is 0, a character outside the alphabet
      is (uint32_t)-1. */
  function SextetOf(c: char): Word {
    if c == '=' then 0 else U32(DecodeChar(c))
  }

  function TripleAt(s: string, k: nat): Word
    requires 4 * k + 4 <= |s|
  {
    U32(SextetOf(s[4 * k]) * 0x4_0000 + SextetOf(s[4 * k + 1]) * 0x1000
        + SextetOf(s[4 * k + 2]) * 0x40 + SextetOf(s[4 * k + 3]))
  }

  /** Byte m of decoded group k. */
  function DecodedIn(s: string, k: nat, m: nat): Byte
    requires 4 * k + 4 <= |s|
  {
    var triple := TripleAt(s, k);
    if m == 0 then triple / 0x1_0000 % 256 else if m == 1 then triple / 0x100 % 256 else triple % 256
  }

  function DecodedAt(s: string, j: nat): Byte
    requires 4 * (j / 3) + 4 <= |s|
  {
    DecodedIn(s, j / 3, j % 3)
  }

  function DecodedLength(s: string): nat
    requires |s| >= 4
  {
    |s| / 4 * 3 - (if s[|s| - 1] == '=' then 1 else 0) - (if s[|s| - 2] == '=' then 1 else 0)
  }

  function Decoded(s: string): (r: Option<seq<Byte>>)
    requires s != []
    ensures r.Some? <==> |s| % 4 == 0
    ensures r.Some? ==> |r.value| == DecodedLength(s) > 0
  {
    if |s| % 4 != 0 then None
    else Some(seq(DecodedLength(s), j requires 0 <= j < DecodedLength(s) => DecodedAt(s, j)))
  }

  /** base64_decode; null stands for the NULL of the source. */
  method Decode(data: string) returns (decoded: array?<Byte>)
    requires data != [] && |data| < 0x8000_0000
    ensures decoded == null <==> Decoded(data).None?
    ensures decoded != null ==> fresh(decoded) && decoded[..] == Decoded(data).value
  {
    if |data| % 4 != 0 { return null; }
    hide SextetOf;
    var length := |data| / 4 * 3;
    if data[|data| - 1] == '=' { length := length - 1; }
    if data[|data| - 2] == '=' { length := length - 1; }
    decoded := new Byte[length];
    var i, j := 0, 0;
    ghost var k := 0;
    while i < |data|
      invariant i == 4 * k <= |data| && j == (if 3 * k < length then 3 * k else length)
      invariant forall t :: 0 <= t < j ==> decoded[t] == DecodedAt(data, t)
    {
      var triple := U32(SextetOf(data[i]) * 0x4_0000 + SextetOf(data[i + 1]) * 0x1000
                        + SextetOf(data[i + 2]) * 0x40 + SextetOf(data[i + 3]));
      DecodedGroup(data, k, triple);
      hide DecodedAt, DecodedIn, U32;
      i := i + 4;
      label before:
      ghost var start := j;
      j := WriteBytes(decoded, j, triple);
      assert forall t :: 0 <= t < start ==> decoded[t] == old@before(decoded[t]);
      StoredGroup(data, decoded[..], start, j, k);
      k := k + 1;
    }
    hide DecodedAt;
  }

  lemma DecodedAtIs(s: string, k: nat, m: nat)
    requires m < 3 && 4 * k + 4 <= |s|
    ensures (3 * k + m) / 3 == k && DecodedAt(s, 3 * k + m) == DecodedIn(s, k, m)
  {
    hide DecodedIn;
    QuotientIs(3 * k + m, 3, k, m);
  }

  lemma StoredGroup(data: string, decoded: seq<Byte>, start: nat, j: nat, k: nat)
    requires 4 * k + 4 <= |data| && start <= j <= |decoded| && (start < j ==> start == 3 * k) && j <= 3 * k + 3
    requires start <= 3 * k
    requires forall t :: 0 <= t < start ==> decoded[t] == DecodedAt(data, t)
    requires 3 * k < j ==> decoded[3 * k] == DecodedIn(data, k, 0)
    requires 3 * k + 1 < j ==> decoded[3 * k + 1] == DecodedIn(data, k, 1)
    requires 3 * k + 2 < j ==> decoded[3 * k + 2] == DecodedIn(data, k, 2)
    ensures forall t :: 0 <= t < j ==> decoded[t] == DecodedAt(data, t)
  {
    hide DecodedAt, DecodedIn;
    forall t | 0 <= t < j ensures decoded[t] == DecodedAt(data, t) {
      if t >= start {
        DecodedAtIs(data, k, t - 3 * k);
        assert t == 3 * k || t == 3 * k + 1 || t == 3 * k + 2;
      }
    }
  }

  lemma DecodedGroup(s: string, k: nat, triple: nat)
    requires 4 * k + 4 <= |s| && triple == TripleAt(s, k)
    ensures DecodedIn(s, k, 0) == triple / 0x1_0000 % 256
    ensures DecodedIn(s, k, 1) == triple / 0x100 % 256
    ensures DecodedIn(s, k, 2) == triple % 256
  {
  }

  /** The three guarded stores of one group. */
  method WriteBytes(decoded: array<Byte>, start: nat, triple: nat) returns (j: nat)
    requires start <= decoded.Length
    modifies decoded
    ensures j == if start + 3 < decoded.Length then start + 3 else decoded.Length
    ensures start < decoded.Length ==> decoded[start] == triple / 0x1_0000 % 256
    ensures start + 1 < decoded.Length ==> decoded[start + 1] == triple / 0x100 % 256
    ensures start + 2 < decoded.Length ==> decoded[start + 2] == triple % 256
    ensures forall t :: 0 <= t < start ==> decoded[t] == old(decoded[t])
  {
    j := start;
    if j < decoded.Length { decoded[j] := triple / 0x1_0000 % 256; j := j + 1; }
    if j < decoded.Length { decoded[j] := triple / 0x100 % 256; j := j + 1; }
    if j < decoded.Length { decoded[j] := triple % 256; j := j + 1; }
  }

  // ---------------------------------------------------------------- RFC 4648

  /** The 24-bit number that four characters write with six bits each, '=' counting as zero. */
  function TextGroup(s: string, k: nat): int
    requires 4 * k + 4 <= |s|
  {
    SextetOf(s[4 * k]) * 0x4_0000 + SextetOf(s[4 * k + 1]) * 0x1000
    + SextetOf(s[4 * k + 2]) * 0x40 + SextetOf(s[4 * k + 3])
  }

  /** Section 4 of RFC 4648: every 24-bit input group is written as four six-bit characters; a final
      group of 8 or 16 bits is zero-extended to whole characters (two or three) and completed by '='. */
  lemma EncodeIsRfc4648(x: seq<Byte>)
    requires x != []
    ensures var s := Encoded(x);
      var chars := (8 * |x| + 5) / 6;
      && |s| % 4 == 0 && |s| - 4 < chars <= |s|
      && (forall t :: 0 <= t < |s| ==> if t < chars then DecodeChar(s[t]) >= 0 else s[t] == '=')
      && (forall k :: 0 <= k && 4 * k + 4 <= |s| ==> TextGroup(s, k) == InputGroup(x, k))
  {
    var s := Encoded(x);
    EncodedEnds(x);
    assert (8 * |x| + 5) / 6 == |s| - Padding(|x|);
    forall k | 0 <= k && 4 * k + 4 <= |s| ensures TextGroup(s, k) == InputGroup(x, k) {
      GroupWritten(x, s, k);
    }
    hide EncodeChar, DecodeChar, Sextet;
  }

  // ---------------------------------------------------------------- round trips

  lemma PaddedSextet(x: seq<Byte>, t: nat)
    requires x != [] && t < EncodedLength(|x|)
    ensures SextetOf(EncodedAt(x, t)) == Sextet(x, t)
  {
    DecodeEncodeChar(Sextet(x, t));
    hide EncodeChar, DecodeChar;
  }

  lemma PaddedSextetIn(x: seq<Byte>, s: string, k: nat, m: nat)
    requires x != [] && s == Encoded(x) && m < 4 && 4 * k + 4 <= |s|
    ensures SextetOf(s[4 * k + m]) == SextetIn(x, k, m)
  {
    PaddedSextet(x, 4 * k + m);
    SextetAt(x, k, m);
    hide SextetOf, SextetIn, Sextet, EncodedAt;
  }

  lemma GroupWritten(x: seq<Byte>, s: string, k: nat)
    requires x != [] && s == Encoded(x) && 4 * k + 4 <= |s|
    ensures TextGroup(s, k) == InputGroup(x, k)
  {
    hide Encoded, EncodedLength, SextetOf;
    PaddedSextetIn(x, s, k, 0);
    PaddedSextetIn(x, s, k, 1);
    PaddedSextetIn(x, s, k, 2);
    PaddedSextetIn(x, s, k, 3);
    SixOfTriple(ByteAt(x, 3 * k), ByteAt(x, 3 * k + 1), ByteAt(x, 3 * k + 2));
    hide Six, ByteAt;
  }

  /** The three bytes decoded from a group are the base-256 digits of its 24-bit number. */
  lemma DecodedDigits(s: string, k: nat, a: Byte, b: Byte, c: Byte)
    requires 4 * k + 4 <= |s|
    requires TextGroup(s, k) == a as int * 0x1_0000 + b as int * 0x100 + c as int
    ensures DecodedIn(s, k, 0) == a && DecodedIn(s, k, 1) == b && DecodedIn(s, k, 2) == c
  {
    hide SextetOf;
    Digits256(a, b, c);
    SmallMod(TextGroup(s, k), TWO_32);
    assert TripleAt(s, k) == TextGroup(s, k);
  }

  lemma GroupFits(n: nat, k: nat, m: nat)
    requires m < 3 && 3 * k + m < n
    ensures 4 * k + 4 <= EncodedLength(n)
  {
  }

  lemma GroupRoundTrip(x: seq<Byte>, s: string, k: nat)
    requires x != [] && s == Encoded(x) && 4 * k + 4 <= |s|
    ensures DecodedIn(s, k, 0) == ByteAt(x, 3 * k)
    ensures DecodedIn(s, k, 1) == ByteAt(x, 3 * k + 1)
    ensures DecodedIn(s, k, 2) == ByteAt(x, 3 * k + 2)
  {
    hide DecodedAt, Encoded, EncodedLength, EncodedAt, SextetOf, ByteAt, TextGroup;
    GroupWritten(x, s, k);
    DecodedDigits(s, k, ByteAt(x, 3 * k), ByteAt(x, 3 * k + 1), ByteAt(x, 3 * k + 2));
  }

  lemma RoundTripAt(x: seq<Byte>, s: string, j: nat)
    requires x != [] && s == Encoded(x) && j < |x|
    ensures 4 * (j / 3) + 4 <= |s| && DecodedAt(s, j) == x[j]
  {
    hide DecodedAt, DecodedIn, Encoded, EncodedLength;
    var k, m := j / 3, j % 3;
    GroupFits(|x|, k, m);
    GroupRoundTrip(x, s, k);
    assert j == 3 * k + m;
    DecodedAtIs(s, k, m);
  }

  lemma DecodedByPoints(s: string, x: seq<Byte>)
    requires s != [] && |s| % 4 == 0 && DecodedLength(s) == |x|
    requires forall j :: 0 <= j < |x| ==> 4 * (j / 3) + 4 <= |s| && DecodedAt(s, j) == x[j]
    ensures Decoded(s) == Some(x)
  {
    hide DecodedAt, DecodedLength;
    assert Decoded(s).value == x;
  }

  /** Decoding what was encoded gives back the data. */
  lemma DecodeEncode(x: seq<Byte>)
    requires x != []
    ensures Decoded(Encoded(x)) == Some(x)
  {
    var s := Encoded(x);
    EncodedEnds(x);
    hide DecodedAt, Encoded, DecodedLength, EncodedLength;
    forall j | 0 <= j < |x| ensures 4 * (j / 3) + 4 <= |s| && DecodedAt(s, j) == x[j] {
      RoundTripAt(x, s, j);
    }
    DecodedByPoints(s, x);
  }

  lemma EncodedCharAt(x: seq<Byte>, t: nat)
    requires x != [] && t < EncodedLength(|x|) - Padding(|x|)
    ensures DecodeChar(Encoded(x)[t]) == Sextet(x, t) && Encoded(x)[t] != '='
  {
    DecodeEncodeChar(Sextet(x, t));
    hide EncodeChar, DecodeChar, Sextet;
  }

  lemma LengthPadding(n: nat)
    requires n > 0
    ensures EncodedLength(n) % 4 == 0 && EncodedLength(n) / 4 * 3 - Padding(n) == n
    ensures EncodedLength(n) >= 4 && Padding(n) <= 2
  {
    var g := (n - 1) / 3;
    QuotientIs(4 * g + 4, 4, g + 1, 0);
  }

  lemma PaddingAt(x: seq<Byte>, t: nat)
    requires x != [] && EncodedLength(|x|) - Padding(|x|) <= t < EncodedLength(|x|)
    ensures Encoded(x)[t] == '='
  {
    hide EncodeChar, Sextet;
  }

  /** Padding is visible in the last two characters only. */
  lemma EncodedEnds(x: seq<Byte>)
    requires x != []
    ensures |Encoded(x)| % 4 == 0 && DecodedLength(Encoded(x)) == |x|
    ensures forall t :: 0 <= t < |Encoded(x)| - Padding(|x|) ==> DecodeChar(Encoded(x)[t]) == Sextet(x, t)
  {
    hide EncodeChar, DecodeChar, Sextet, EncodedLength, Padding, Encoded;
    LengthPadding(|x|);
    var n := |Encoded(x)|;
    forall t | 0 <= t < n - Padding(|x|) ensures DecodeChar(Encoded(x)[t]) == Sextet(x, t) {
      EncodedCharAt(x, t);
    }
    if Padding(|x|) == 0 { EncodedCharAt(x, n - 1); } else { PaddingAt(x, n - 1); }
    if Padding(|x|) <= 1 { EncodedCharAt(x, n - 2); } else { PaddingAt(x, n - 2); }
  }

  /** The number a character stands for in decoding: its place in the alphabet, 0 for the padding, and -1
      for every other character. */
  predicate StandsFor(c: char, v: int) {
    if c == '=' then v == 0
    else if c in ALPHABET then 0 <= v < |ALPHABET| && ALPHABET[v] == c
    else v == -1
  }

  lemma StandsForSextet(c: char, v: int)
    requires StandsFor(c, v)
    ensures SextetOf(c) == U32(v)
  {
    hide EncodeChar, DecodeChar, ALPHABET;
    AlphabetRuns(0);
    AlphabetExactly(if v < 0 then 0 else v, c);
  }

  /** Sums of products are taken modulo 2^32, of which the low 24 bits remain. */
  lemma LowBytes(p: int, q: int, r: int, t: int)
    ensures var v := p * 0x4_0000 + q * 0x1000 + r * 0x40 + t;
      var w := U32(U32(p) * 0x4_0000 + U32(q) * 0x1000 + U32(r) * 0x40 + U32(t));
      && w / 0x1_0000 % 256 == v / 0x1_0000 % 256 && w / 0x100 % 256 == v / 0x100 % 256 && w % 256 == v % 256
  {
    var v := p * 0x4_0000 + q * 0x1000 + r * 0x40 + t;
    var k := (p / TWO_32) * 0x4_0000 + (q / TWO_32) * 0x1000 + (r / TWO_32) * 0x40 + t / TWO_32;
    var sum := U32(p) * 0x4_0000 + U32(q) * 0x1000 + U32(r) * 0x40 + U32(t);
    DivMod(p, TWO_32);
    DivMod(q, TWO_32);
    DivMod(r, TWO_32);
    DivMod(t, TWO_32);
    assert v == k * TWO_32 + sum;
    DivMod(sum, TWO_32);
    LowByte(v, k + sum / TWO_32, U32(sum));
  }

  lemma LowByte(v: int, k: int, w: Word)
    requires v == k * TWO_32 + w
    ensures w / 0x1_0000 % 256 == v / 0x1_0000 % 256 && w / 0x100 % 256 == v / 0x100 % 256 && w % 256 == v % 256
  {
    QuotientIs(v, 0x1_0000, k * 0x1_0000 + w / 0x1_0000, w % 0x1_0000);
    QuotientIs(v, 0x100, k * 0x100_0000 + w / 0x100, w % 0x100);
    ModShift(w / 0x1_0000, k * 0x100);
    ModShift(w / 0x100, k * 0x1_0000);
    ModShift(w, k * 0x100_0000);
  }

  lemma ModShift(x: int, q: int)
    ensures (q * 256 + x) % 256 == x % 256
  {
    QuotientIs(q * 256 + x, 256, q + x / 256, x % 256);
  }

  /** Decoding on every text, canonical or not: the bytes of a group are the low 24 bits of its number. */
  lemma DecodeExactly(s: string, k: nat, p: int, q: int, r: int, t: int)
    requires 4 * k + 4 <= |s|
    requires StandsFor(s[4 * k], p) && StandsFor(s[4 * k + 1], q)
    requires StandsFor(s[4 * k + 2], r) && StandsFor(s[4 * k + 3], t)
    ensures Decoded(s).Some? <==> |s| % 4 == 0
    ensures Decoded(s).Some? ==>
      var x, v := Decoded(s).value, p * 0x4_0000 + q * 0x1000 + r * 0x40 + t;
      && |x| == |s| / 4 * 3 - (if s[|s| - 1] == '=' then 1 else 0) - (if s[|s| - 2] == '=' then 1 else 0)
      && 3 * k < |x| && x[3 * k] == v / 0x1_0000 % 256
      && (3 * k + 1 < |x| ==> x[3 * k + 1] == v / 0x100 % 256)
      && (3 * k + 2 < |x| ==> x[3 * k + 2] == v % 256)
  {
    hide SextetOf, StandsFor, DecodedAt, U32;
    StandsForSextet(s[4 * k], p);
    StandsForSextet(s[4 * k + 1], q);
    StandsForSextet(s[4 * k + 2], r);
    StandsForSextet(s[4 * k + 3], t);
    LowBytes(p, q, r, t);
    DecodedGroup(s, k, TripleAt(s, k));
    DecodedAtIs(s, k, 0);
    DecodedAtIs(s, k, 1);
    DecodedAtIs(s, k, 2);
  }

  predicate AlphabetUpTo(s: string, n: nat)
    requires n <= |s|
  {
    forall t :: 0 <= t < n ==> DecodeChar(s[t]) >= 0
  }

  /** Canonical text (section 3.5 of RFC 4648): whole groups, padding only at the end, zero pad bits. */
  predicate Canonical(s: string) {
    && |s| > 0 && |s| % 4 == 0
    && AlphabetUpTo(s, |s| - 2)
    && (if s[|s| - 2] == '=' then s[|s| - 1] == '=' && DecodeChar(s[|s| - 3]) % 16 == 0
        else DecodeChar(s[|s| - 2]) >= 0 &&
             (if s[|s| - 1] == '=' then DecodeChar(s[|s| - 2]) % 4 == 0 else DecodeChar(s[|s| - 1]) >= 0))
  }

  /** Encoding always produces canonical text. */
  lemma EncodeIsCanonical(x: seq<Byte>)
    requires x != []
    ensures Canonical(Encoded(x))
  {
    EncodedEnds(x);
    hide EncodeChar, DecodeChar;
  }

  /** Re-encoding decoded text gives the text back exactly when the text is canonical. */
  lemma EncodeDecodeExactly(s: string)
    requires s != []
    ensures (Decoded(s).Some? && Encoded(Decoded(s).value) == s) <==> Canonical(s)
  {
    if Decoded(s).Some? {
      EncodeIsCanonical(Decoded(s).value);
    }
    if Canonical(s) {
      var x := Decoded(s).value;
      CanonicalLength(s, x);
      forall t | 0 <= t < |s| ensures EncodedAt(x, t) == s[t] {
        ReencodeAt(s, x, t);
      }
      hide EncodedAt;
    }
  }

  lemma CanonicalLength(s: string, x: seq<Byte>)
    requires Canonical(s) && Decoded(s) == Some(x)
    ensures EncodedLength(|x|) == |s|
    ensures Padding(|x|) == if s[|s| - 2] == '=' then 2 else if s[|s| - 1] == '=' then 1 else 0
  {
    hide DecodedAt, DecodeChar, EncodedLength, Padding, AlphabetUpTo;
    var p := if s[|s| - 2] == '=' then 2 else if s[|s| - 1] == '=' then 1 else 0;
    DivMod(|s|, 4);
    GroupLength(|s| / 4, p);
  }

  lemma GroupLength(g: nat, p: nat)
    requires g >= 1 && p <= 2
    ensures EncodedLength(3 * g - p) == 4 * g && Padding(3 * g - p) == p
  {
    QuotientIs(3 * g - p - 1, 3, g - 1, 2 - p);
    if p == 0 { QuotientIs(3 * g, 3, g, 0); } else { QuotientIs(3 * g - p, 3, g - 1, 3 - p); }
  }

  /** The sextets of the decoded bytes are the sextets of the text, pad characters counting as 0. */
  lemma ResextetAt(s: string, x: seq<Byte>, k: nat)
    requires Canonical(s) && Decoded(s) == Some(x) && 4 * k + 4 <= |s|
    ensures SextetIn(x, k, 0) == SextetOf(s[4 * k]) && SextetIn(x, k, 1) == SextetOf(s[4 * k + 1])
    ensures SextetIn(x, k, 2) == SextetOf(s[4 * k + 2]) && SextetIn(x, k, 3) == SextetOf(s[4 * k + 3])
  {
    var p, q, r, t := SextetOf(s[4 * k]), SextetOf(s[4 * k + 1]), SextetOf(s[4 * k + 2]), SextetOf(s[4 * k + 3]);
    CanonicalSextets(s, k);
    SixRebuilds(p, q, r, t);
    var a, b, c := p * 4 + q / 16, q % 16 * 16 + r / 4, r % 4 * 64 + t;
    DecodedDigits(s, k, a, b, c);
    GroupSextets(x, k);
    CanonicalTail(s, x, k);
  }

  lemma CanonicalSextets(s: string, k: nat)
    requires Canonical(s) && 4 * k + 4 <= |s|
    ensures SextetOf(s[4 * k]) < 64 && SextetOf(s[4 * k + 1]) < 64
    ensures SextetOf(s[4 * k + 2]) < 64 && SextetOf(s[4 * k + 3]) < 64
    ensures 4 * k + 4 == |s| && s[4 * k + 2] == '=' ==> SextetOf(s[4 * k + 1]) % 16 == 0 && s[4 * k + 3] == '='
    ensures 4 * k + 4 == |s| && s[4 * k + 3] == '=' ==> SextetOf(s[4 * k + 2]) % 4 == 0
  {
    hide DecodeChar;
  }

  /** Past the decoded length the bytes of the group number are zero, as ByteAt has it. */
  lemma CanonicalTail(s: string, x: seq<Byte>, k: nat)
    requires Canonical(s) && Decoded(s) == Some(x) && 4 * k + 4 <= |s|
    requires var q, r, t := SextetOf(s[4 * k + 1]), SextetOf(s[4 * k + 2]), SextetOf(s[4 * k + 3]);
      DecodedIn(s, k, 1) == q % 16 * 16 + r / 4 && DecodedIn(s, k, 2) == r % 4 * 64 + t
    ensures ByteAt(x, 3 * k) == DecodedIn(s, k, 0)
    ensures ByteAt(x, 3 * k + 1) == DecodedIn(s, k, 1)
    ensures ByteAt(x, 3 * k + 2) == DecodedIn(s, k, 2)
  {
    hide *;
    CanonicalSextets(s, k);
    PaddedSextets(s, k);
    GroupByte(s, x, k, 0);
    GroupByte(s, x, k, 1);
    GroupByte(s, x, k, 2);
  }

  /** Which bytes of a group lie past the decoded length, and that the sextets they come from are zero. */
  lemma PaddedSextets(s: string, k: nat)
    requires Canonical(s) && 4 * k + 4 <= |s|
    ensures 3 * k < DecodedLength(s)
    ensures 3 * k + 1 >= DecodedLength(s) ==> SextetOf(s[4 * k + 1]) % 16 == 0 && SextetOf(s[4 * k + 2]) == 0
    ensures 3 * k + 2 >= DecodedLength(s) ==> SextetOf(s[4 * k + 2]) % 4 == 0 && SextetOf(s[4 * k + 3]) == 0
  {
    hide DecodeChar;
  }

  lemma GroupByte(s: string, x: seq<Byte>, k: nat, m: nat)
    requires s != [] && Decoded(s) == Some(x) && 4 * k + 4 <= |s| && m < 3
    ensures ByteAt(x, 3 * k + m) == if 3 * k + m < DecodedLength(s) then DecodedIn(s, k, m) else 0
  {
    hide DecodedIn;
    QuotientIs(3 * k + m, 3, k, m);
  }

  lemma ReencodeAt(s: string, x: seq<Byte>, t: nat)
    requires Canonical(s) && Decoded(s) == Some(x) && t < |s| && EncodedLength(|x|) == |s|
    ensures EncodedAt(x, t) == s[t]
  {
    hide Sextet, SextetIn, DecodedAt, Decoded, EncodeChar, DecodeChar, Canonical;
    CanonicalLength(s, x);
    var k, m := t / 4, t % 4;
    ResextetAt(s, x, k);
    SextetIndex(s, x, k, m);
    SextetAt(x, k, m);
    AlphabetAt(s, t);
    if s[t] != '=' {
      EncodeDecodeChar(s[t]);
      SmallMod(DecodeChar(s[t]), TWO_32);
    }
  }

  lemma SextetIndex(s: string, x: seq<Byte>, k: nat, m: nat)
    requires m < 4 && 4 * k + 4 <= |s|
    requires SextetIn(x, k, 0) == SextetOf(s[4 * k]) && SextetIn(x, k, 1) == SextetOf(s[4 * k + 1])
    requires SextetIn(x, k, 2) == SextetOf(s[4 * k + 2]) && SextetIn(x, k, 3) == SextetOf(s[4 * k + 3])
    ensures SextetIn(x, k, m) == SextetOf(s[4 * k + m])
  {
    hide *;
  }

  lemma AlphabetAt(s: string, t: nat)
    requires Canonical(s) && t < |s|
    ensures s[t] != '=' ==> DecodeChar(s[t]) >= 0
    ensures s[t] == '=' <==> t >= |s| - (if s[|s| - 2] == '=' then 2 else if s[|s| - 1] == '=' then 1 else 0)
  {
    if DecodeChar(s[t]) >= 0 { EncodeDecodeChar(s[t]); }
    hide DecodeChar;
  }
}
