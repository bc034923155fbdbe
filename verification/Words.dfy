/**
  Fixed-width integers of the C sources, written out over unbounded integers:
  bytes, reduction modulo 2^32, two's-complement readings and the byte-order
  readers of unpack.c.
 */
module Words {

  type Byte = b: int | 0 <= b < 256

  const TWO_32: int := 0x1_0000_0000

  /** The values of a uint32_t. */
  type Word = x: nat | x < TWO_32

  /** Conversion to uint32_t. */
  function U32(x: int): Word
  {
    x % TWO_32
  }

  function Pow2(n: nat): (r: nat)
    ensures r >= 1
  {
    if n == 0 then 1 else 2 * Pow2(n - 1)
  }

  /** The two's-complement reading of the low n bits of x. */
  function Signed(x: int, n: nat): (r: int)
    requires n >= 1
  {
    var low := x % Pow2(n);
    if low < Pow2(n - 1) then low else low - Pow2(n)
  }

  /** Conversion of a uint32_t to int32_t. */
  function ToInt32(x: Word): int
  {
    if x < 0x8000_0000 then x else x - TWO_32
  }

  /** Little-endian 32-bit read. */
  function Uint32Le(s: seq<Byte>, at: nat): Word
    requires at + 4 <= |s|
  {
    var b0: int, b1: int, b2: int, b3: int := s[at], s[at + 1], s[at + 2], s[at + 3];
    b0 + b1 * 0x100 + b2 * 0x1_0000 + b3 * 0x100_0000
  }

  /** The four bytes whose little-endian reading is x. */
  function Le32(x: Word): (s: seq<Byte>)
    ensures |s| == 4
  {
    [x % 0x100, x / 0x100 % 0x100, x / 0x1_0000 % 0x100, x / 0x100_0000]
  }

  lemma Le32Digits(x: Word)
    ensures x == x % 0x100 + x / 0x100 % 0x100 * 0x100 + x / 0x1_0000 % 0x100 * 0x1_0000 + x / 0x100_0000 * 0x100_0000
  {
    var q1, q2, q3 := x / 0x100, x / 0x1_0000, x / 0x100_0000;
    assert q2 == q1 / 0x100 && q3 == q2 / 0x100;
  }

  lemma {:induction false} Le32Reads(x: Word, before: seq<Byte>, after: seq<Byte>)
    ensures Uint32Le(before + Le32(x) + after, |before|) == x
  {
    var s := before + Le32(x) + after;
    assert s[|before|..|before| + 4] == Le32(x);
    Le32Digits(x);
  }

  /** The low byte comes first, and every four bytes are the bytes of their word. */
  lemma ByteOrder(b0: Byte, b1: Byte, b2: Byte, b3: Byte, after: seq<Byte>)
    ensures Le32(0x0403_0201) == [1, 2, 3, 4]
    ensures Le32(Uint32Le([b0, b1, b2, b3] + after, 0)) == [b0, b1, b2, b3]
    ensures Uint32Le([b0, b1, b2, b3] + after, 0) == 256 * (256 * (256 * (b3 as int) + b2) + b1) + b0
  {
    var x := Uint32Le([b0, b1, b2, b3] + after, 0);
    var q1: int, q2: int := 0x1_0000 * (b3 as int) + 0x100 * b2 + b1, 0x100 * (b3 as int) + b2;
    QuotientIs(x, 0x100, q1, b0);
    QuotientIs(x, 0x1_0000, q2, 0x100 * b1 + b0);
    QuotientIs(x, 0x100_0000, b3, 0x1_0000 * b2 + 0x100 * b1 + b0);
    QuotientIs(q1, 0x100, q2, b1);
    QuotientIs(q2, 0x100, b3, b2);
  }

  lemma Pow2Values()
    ensures Pow2(0) == 1 && Pow2(1) == 2 && Pow2(2) == 4 && Pow2(3) == 8 && Pow2(4) == 16
    ensures Pow2(5) == 32 && Pow2(6) == 64 && Pow2(7) == 128 && Pow2(8) == 256
    ensures Pow2(9) == 512 && Pow2(10) == 1024 && Pow2(11) == 2048 && Pow2(12) == 4096
    ensures Pow2(13) == 8192 && Pow2(14) == 16384 && Pow2(15) == 32768 && Pow2(16) == 65536
  {
    assert Pow2(4) == 16;
    assert Pow2(8) == 256;
    assert Pow2(12) == 4096;
  }

  lemma {:induction false} Pow2Add(a: nat, b: nat)
    ensures Pow2(a + b) == Pow2(a) * Pow2(b)
  {
    if a > 0 {
      Pow2Add(a - 1, b);
      assert a + b > 0 && a - 1 + b == a + b - 1;
      assert 2 * (Pow2(a - 1) * Pow2(b)) == 2 * Pow2(a - 1) * Pow2(b);
    }
  }

  lemma MulMonotone(p: int, q: int, b: int)
    requires b >= 1
    ensures p <= q ==> p * b <= q * b
    ensures p < q ==> p * b < q * b
  {
  }

  lemma DivBelow(x: nat, a: int, b: int)
    requires b >= 1 && x < a * b
    ensures 0 <= x / b < a
  {
    MulMonotone(a, x / b, b);
    MulMonotone(x / b, -1, b);
    assert x == x / b * b + x % b;
  }

  lemma DivMod(x: int, d: int)
    requires d >= 1
    ensures x == x / d * d + x % d
  {
  }

  lemma SmallMod(x: nat, d: int)
    requires x < d
    ensures x % d == x
  {
  }

  lemma HeadThenRest<T>(s: seq<T>, t: seq<T>)
    requires s != []
    ensures [s[0]] + (s[1..] + t) == s + t
  {
  }

  lemma U32Add(a: int, b: int)
    ensures U32(U32(a) + b) == U32(a + b)
  {
  }

  lemma U32Sub(a: int, b: int)
    ensures U32(U32(a) - U32(b)) == U32(a - b)
  {
  }

  lemma ConcatAssoc<T>(a: seq<T>, b: seq<T>, c: seq<T>)
    ensures a + (b + c) == (a + b) + c
  {
  }

  lemma JoinSlices<T>(s: seq<T>, from: nat, mid: nat, to: nat)
    requires from <= mid <= to <= |s|
    ensures s[from..to] == s[from..mid] + s[mid..to]
  {
  }

  lemma OneMore(q: int, d: int)
    ensures (q + 1) * d == q * d + d
  {
  }

  lemma NotBelow(q: int, r: int, q2: int, r2: int, d: int)
    requires 0 <= r < d && 0 <= r2 < d && q * d + r == q2 * d + r2
    ensures q >= q2
  {
    if q < q2 {
      OneMore(q, d);
      MulMonotone(q + 1, q2, d);
    }
  }

  /** Quotient and remainder are unique. */
  lemma QuotientIs(x: int, d: int, q: int, r: int)
    requires d >= 1 && 0 <= r < d && x == q * d + r
    ensures x / d == q && x % d == r
  {
    DivMod(x, d);
    NotBelow(q, r, x / d, x % d, d);
    NotBelow(x / d, x % d, q, r, d);
  }
}
