/** Binary digits of natural numbers, 32-bit words, and big-endian bit strings. Nothing here is about
    JavaScript or about SHA-256: both sides of that refinement are written over these definitions. */
module Bits {

  const WORD: int := 0x1_0000_0000

  type Word = x: int | 0 <= x < 0x1_0000_0000

  type Byte = x: int | 0 <= x < 256

  function Pow2(n: nat): (p: nat)
    ensures p > 0
  {
    if n == 0 then 1 else 2 * Pow2(n - 1)
  }

  /** `n` halved `k` times: the logical right shift. */
  function Shr(n: nat, k: nat): (r: nat)
    ensures r <= n
    decreases k
  {
    if k == 0 then n else Shr(n / 2, k - 1)
  }

  // ---------------------------------------------------------------- bitwise operators

  function BitAnd(x: nat, y: nat): nat
    decreases x
  {
    if x == 0 then 0 else (if x % 2 == 1 && y % 2 == 1 then 1 else 0) + 2 * BitAnd(x / 2, y / 2)
  }

  function BitOr(x: nat, y: nat): nat
    decreases x + y
  {
    if x == 0 && y == 0 then 0
    else (if x % 2 == 1 || y % 2 == 1 then 1 else 0) + 2 * BitOr(x / 2, y / 2)
  }

  function BitXor(x: nat, y: nat): nat
    decreases x + y
  {
    if x == 0 && y == 0 then 0
    else (if x % 2 != y % 2 then 1 else 0) + 2 * BitXor(x / 2, y / 2)
  }

  predicate Bit(n: nat, k: nat) { Shr(n, k) % 2 == 1 }

  lemma {:induction false} ShrZero(k: nat)
    ensures Shr(0, k) == 0
    decreases k
  {
    if k > 0 { ShrZero(k - 1); }
  }

  /** One digit and the rest, for each operator. */
  lemma {:induction false} Halves(x: nat, y: nat)
    ensures BitAnd(x, y) / 2 == BitAnd(x / 2, y / 2) && (BitAnd(x, y) % 2 == 1 <==> x % 2 == 1 && y % 2 == 1)
    ensures BitOr(x, y) / 2 == BitOr(x / 2, y / 2) && (BitOr(x, y) % 2 == 1 <==> x % 2 == 1 || y % 2 == 1)
    ensures BitXor(x, y) / 2 == BitXor(x / 2, y / 2) && (BitXor(x, y) % 2 == 1 <==> x % 2 != y % 2)
  {
  }

  lemma BitStep(n: nat, k: nat)
    requires k > 0
    ensures Bit(n, k) <==> Bit(n / 2, k - 1)
  {
  }

  /** The three operators act digit by digit, at every position. */
  lemma {:induction false} BitwiseDigits(x: nat, y: nat, k: nat)
    ensures Bit(BitAnd(x, y), k) <==> Bit(x, k) && Bit(y, k)
    ensures Bit(BitOr(x, y), k) <==> Bit(x, k) || Bit(y, k)
    ensures Bit(BitXor(x, y), k) <==> Bit(x, k) != Bit(y, k)
    decreases k
  {
    hide BitAnd, BitOr, BitXor;
    Halves(x, y);
    if k > 0 {
      hide Bit;
      BitwiseDigits(x / 2, y / 2, k - 1);
      BitStep(x, k);
      BitStep(y, k);
      BitStep(BitAnd(x, y), k);
      BitStep(BitOr(x, y), k);
      BitStep(BitXor(x, y), k);
    }
  }

  lemma {:induction false} BitwiseBound(x: nat, y: nat, n: nat)
    requires x < Pow2(n) && y < Pow2(n)
    ensures BitAnd(x, y) < Pow2(n) && BitOr(x, y) < Pow2(n) && BitXor(x, y) < Pow2(n)
    decreases n
  {
    if n > 0 { BitwiseBound(x / 2, y / 2, n - 1); }
  }

  lemma WordIsPow2()
    ensures Pow2(8) == 256 && Pow2(16) == 0x1_0000 && Pow2(24) == 0x100_0000
    ensures Pow2(31) == 0x8000_0000 && Pow2(32) == WORD
  {
    assert Pow2(8) == 256;
    Pow2Sum(8, 8);
    Pow2Sum(16, 8);
    Pow2Sum(16, 16);
    Pow2Sum(24, 7);
  }

  lemma {:induction false} Pow2Sum(a: nat, b: nat)
    ensures Pow2(a + b) == Pow2(a) * Pow2(b)
    decreases a
  {
    if a > 0 {
      Pow2Sum(a - 1, b);
      assert Pow2(a + b) == 2 * Pow2(a - 1 + b);
    }
  }

  function AndW(x: Word, y: Word): Word { WordIsPow2(); BitwiseBound(x, y, 32); BitAnd(x, y) }

  function OrW(x: Word, y: Word): Word { WordIsPow2(); BitwiseBound(x, y, 32); BitOr(x, y) }

  function XorW(x: Word, y: Word): Word { WordIsPow2(); BitwiseBound(x, y, 32); BitXor(x, y) }

  function NotW(x: Word): Word { 0xffff_ffff - x }

  function ShlW(x: Word, n: nat): Word { (x * Pow2(n)) % WORD }

  function XorB(x: Byte, y: Byte): Byte { WordIsPow2(); BitwiseBound(x, y, 8); BitXor(x, y) }

  // ---------------------------------------------------------------- shifts and masks as arithmetic

  /** The low `n` digits of `x`: what a right shift by `n` throws away. */
  function Low(x: nat, n: nat): (r: nat)
    ensures r <= x
    decreases n
  {
    if n == 0 then 0 else x % 2 + 2 * Low(x / 2, n - 1)
  }

  /** A shift is a division with remainder by a power of two. */
  lemma {:induction false} ShrLow(x: nat, n: nat)
    ensures x == Shr(x, n) * Pow2(n) + Low(x, n)
    ensures Low(x, n) < Pow2(n)
    decreases n
  {
    if n > 0 {
      var s, p, low := Shr(x / 2, n - 1), Pow2(n - 1), Low(x / 2, n - 1);
      assert Pow2(n) == 2 * p && Shr(x, n) == s && Low(x, n) == x % 2 + 2 * low;
      hide *;
      ShrLow(x / 2, n - 1);
      Doubled(s, p);
    }
  }

  lemma {:induction false} ShrShr(n: nat, a: nat, b: nat)
    ensures Shr(Shr(n, a), b) == Shr(n, a + b)
    decreases a
  {
    if a > 0 { ShrShr(n / 2, a - 1, b); }
  }

  lemma {:induction false} MaskIsLow(x: nat, n: nat)
    ensures BitAnd(x, Pow2(n) - 1) == Low(x, n)
    decreases n
  {
    if n == 0 {
      AndZero(x);
    } else if x == 0 {
      LowZero(n);
    } else {
      MaskIsLow(x / 2, n - 1);
      var m := Pow2(n) - 1;
      assert m % 2 == 1 && m / 2 == Pow2(n - 1) - 1;
      assert BitAnd(x, m) == x % 2 + 2 * BitAnd(x / 2, m / 2);
    }
  }

  lemma {:induction false} LowZero(n: nat)
    ensures Low(0, n) == 0
    decreases n
  {
    if n > 0 { LowZero(n - 1); }
  }

  lemma {:induction false} AndZero(x: nat)
    ensures BitAnd(x, 0) == 0
  {
    if x > 0 { AndZero(x / 2); }
  }

  /** Or-ing a value into the empty low digits of a shifted one is addition. */
  lemma {:induction false} OrIsSum(hi: nat, lo: nat, n: nat)
    requires lo < Pow2(n)
    ensures BitOr(hi * Pow2(n), lo) == hi * Pow2(n) + lo
    decreases n
  {
    if n == 0 {
      OrZero(hi);
    } else {
      var h := hi * Pow2(n);
      assert h == 2 * (hi * Pow2(n - 1));
      OrIsSum(hi, lo / 2, n - 1);
      assert h / 2 == hi * Pow2(n - 1);
      assert h % 2 == 0;
    }
  }

  lemma {:induction false} OrZero(x: nat)
    ensures BitOr(x, 0) == x
  {
    if x > 0 { OrZero(x / 2); }
  }

  // ---------------------------------------------------------------- big-endian bit strings

  /** The low `w` digits of `n`, most significant first. */
  function BitsOf(n: nat, w: nat): (bs: seq<bool>)
    ensures |bs| == w
    ensures forall i :: 0 <= i < w ==> bs[i] == Bit(n, w - 1 - i)
  {
    seq(w, i requires 0 <= i < w => Bit(n, w - 1 - i))
  }

  function NatOf(bs: seq<bool>): nat {
    if bs == [] then 0 else 2 * NatOf(bs[..|bs| - 1]) + (if bs[|bs| - 1] then 1 else 0)
  }

  lemma {:induction false} NatOfBound(bs: seq<bool>)
    ensures NatOf(bs) < Pow2(|bs|)
  {
    if bs != [] { NatOfBound(bs[..|bs| - 1]); }
  }

  lemma BitsStep(n: nat, w: nat)
    requires w > 0
    ensures BitsOf(n, w) == BitsOf(n / 2, w - 1) + [n % 2 == 1]
  {
    forall i | 0 <= i < w - 1
      ensures BitsOf(n, w)[i] == BitsOf(n / 2, w - 1)[i]
    {
      var k := w - 1 - i;
      assert Shr(n, k) == Shr(n / 2, k - 1);
    }
  }

  lemma {:induction false} NatOfBitsOf(n: nat, w: nat)
    requires n < Pow2(w)
    ensures NatOf(BitsOf(n, w)) == n
    decreases w
  {
    if w > 0 {
      NatOfBitsOf(n / 2, w - 1);
      BitsStep(n, w);
      assert BitsOf(n, w)[..w - 1] == BitsOf(n / 2, w - 1);
    }
  }

  lemma {:induction false} NatOfConcat(a: seq<bool>, b: seq<bool>)
    ensures NatOf(a + b) == NatOf(a) * Pow2(|b|) + NatOf(b)
    decreases |b|
  {
    if b == [] {
      assert a + b == a;
    } else {
      var b', x := b[..|b| - 1], NatOf(a);
      assert (a + b)[..|a + b| - 1] == a + b';
      NatOfConcat(a, b');
      assert Pow2(|b|) == 2 * Pow2(|b'|);
      hide Pow2;
      Doubled(x, Pow2(|b'|));
    }
  }

  lemma Doubled(x: int, y: int)
    ensures 2 * (x * y) == x * (2 * y)
  {
  }

  /** A bit string cut at any point is the bits of the high part followed by the bits of the low. */
  lemma {:induction false} BitsSplit(n: nat, a: nat, b: nat)
    ensures BitsOf(n, a + b) == BitsOf(Shr(n, b), a) + BitsOf(n, b)
    decreases b
  {
    if b == 0 {
      assert BitsOf(n, b) == [];
    } else {
      BitsStep(n, a + b);
      BitsStep(n, b);
      BitsSplit(n / 2, a, b - 1);
    }
  }

  /** Only the low `w` digits matter. */
  lemma {:induction false} BitsOfLow(n: nat, w: nat)
    ensures BitsOf(Low(n, w), w) == BitsOf(n, w)
    decreases w
  {
    if w > 0 {
      BitsOfLow(n / 2, w - 1);
      BitsStep(n, w);
      BitsStep(Low(n, w), w);
    }
  }

  // ---------------------------------------------------------------- bytes as bit strings

  function BytesToBits(m: seq<Byte>): (bs: seq<bool>)
    ensures |bs| == 8 * |m|
  {
    if m == [] then [] else BytesToBits(m[..|m| - 1]) + BitsOf(m[|m| - 1], 8)
  }

  lemma {:induction false} BytesToBitsConcat(a: seq<Byte>, b: seq<Byte>)
    ensures BytesToBits(a + b) == BytesToBits(a) + BytesToBits(b)
    decreases |b|
  {
    if b == [] {
      assert a + b == a;
    } else {
      var b' := b[..|b| - 1];
      assert (a + b)[..|a + b| - 1] == a + b';
      BytesToBitsConcat(a, b');
    }
  }

  lemma {:induction false} BytesToBitsSlice(m: seq<Byte>, i: nat, j: nat, lo: nat, hi: nat)
    requires i <= j <= |m|
    requires lo == 8 * i && hi == 8 * j
    ensures BytesToBits(m)[lo..hi] == BytesToBits(m[i..j])
  {
    Cut(m, i, j);
    BytesToBitsThirds(m[..i], m[i..j], m[j..], lo, hi);
  }

  lemma {:induction false} BytesToBitsThirds(a: seq<Byte>, b: seq<Byte>, c: seq<Byte>, lo: nat, hi: nat)
    requires lo == 8 * |a| && hi == 8 * (|a| + |b|)
    ensures BytesToBits(a + (b + c))[lo..hi] == BytesToBits(b)
  {
    BytesToBitsConcat(a, b + c);
    BytesToBitsConcat(b, c);
    MiddleSlice(BytesToBits(a), BytesToBits(b), BytesToBits(c));
  }

  lemma Cut<T>(s: seq<T>, i: nat, j: nat)
    requires i <= j <= |s|
    ensures s == s[..i] + (s[i..j] + s[j..])
  {
  }

  lemma MiddleSlice<T>(head: seq<T>, mid: seq<T>, tail: seq<T>)
    ensures (head + (mid + tail))[|head|..|head| + |mid|] == mid
  {
  }

  function BitsToBytes(bs: seq<bool>): (m: seq<Byte>)
    requires |bs| % 8 == 0
    ensures |bs| == 8 * |m|
    decreases |bs|
  {
    if bs == [] then [] else
      var last := bs[|bs| - 8..];
      NatOfBound(last);
      assert Pow2(8) == 256;
      BitsToBytes(bs[..|bs| - 8]) + [NatOf(last)]
  }

  lemma {:induction false} BytesRoundTrip(m: seq<Byte>)
    ensures BitsToBytes(BytesToBits(m)) == m
  {
    if m != [] {
      var bs, last := BytesToBits(m), m[|m| - 1];
      assert bs[..|bs| - 8] == BytesToBits(m[..|m| - 1]);
      assert bs[|bs| - 8..] == BitsOf(last, 8);
      assert Pow2(8) == 256;
      NatOfBitsOf(last, 8);
      BytesRoundTrip(m[..|m| - 1]);
    }
  }
}
