/** SHA-256 as FIPS 180-4 defines it: a function from bit strings to bit strings. The two constant
    tables are not listed; they are given by the roots of primes the standard derives them from. */
module Fips180 {
  import opened Bits

  // ---------------------------------------------------------------- constants (4.2.2, 5.3.3)

  /** The first sixty-four primes, counted from zero. */
  function Prime(t: nat): nat
    requires t < 64
  {
    if t < 8 then [2, 3, 5, 7, 11, 13, 17, 19][t]
    else if t < 16 then [23, 29, 31, 37, 41, 43, 47, 53][t - 8]
    else if t < 24 then [59, 61, 67, 71, 73, 79, 83, 89][t - 16]
    else if t < 32 then [97, 101, 103, 107, 109, 113, 127, 131][t - 24]
    else if t < 40 then [137, 139, 149, 151, 157, 163, 167, 173][t - 32]
    else if t < 48 then [179, 181, 191, 193, 197, 199, 211, 223][t - 40]
    else if t < 56 then [227, 229, 233, 239, 241, 251, 257, 263][t - 48]
    else [269, 271, 277, 281, 283, 293, 307, 311][t - 56]
  }

  ghost predicate IsCubeRoot(n: nat, r: nat) { r * r * r <= n < (r + 1) * (r + 1) * (r + 1) }

  ghost predicate IsSquareRoot(n: nat, r: nat) { r * r <= n < (r + 1) * (r + 1) }

  /** The integer part of the cube root, where there is one. */
  ghost function CubeRoot(n: nat): (r: nat)
    ensures (exists q: nat :: IsCubeRoot(n, q)) ==> IsCubeRoot(n, r)
  {
    if q: nat :| IsCubeRoot(n, q) then q else 0
  }

  ghost function SquareRoot(n: nat): (r: nat)
    ensures (exists q: nat :: IsSquareRoot(n, q)) ==> IsSquareRoot(n, r)
  {
    if q: nat :| IsSquareRoot(n, q) then q else 0
  }

  /** The first thirty-two bits of the fractional part of the cube root of `p`: those of the cube root
      of `p` scaled by 2^32. */
  ghost function CubeRootFraction(p: nat): Word { CubeRoot(p * 0x1_0000_0000_0000_0000_0000_0000) % WORD }

  ghost function SquareRootFraction(p: nat): Word { SquareRoot(p * 0x1_0000_0000_0000_0000) % WORD }

  ghost function RoundConstant(t: nat): Word
    requires t < 64
  {
    CubeRootFraction(Prime(t))
  }

  lemma CubeRootIs(n: nat, r: nat)
    requires IsCubeRoot(n, r)
    ensures CubeRoot(n) == r
  {
    CubeRootUnique(n, CubeRoot(n), r);
  }

  lemma CubeRootUnique(n: nat, q: nat, r: nat)
    requires IsCubeRoot(n, q) && IsCubeRoot(n, r)
    ensures q == r
  {
    if q < r {
      CubeMonotone(q + 1, r);
    } else if r < q {
      CubeMonotone(r + 1, q);
    }
  }

  lemma CubeMonotone(x: nat, y: nat)
    requires x <= y
    ensures x * x * x <= y * y * y
  {
    assert x * x <= y * y;
    MulMonotone(x * x, y * y, x, y);
  }

  lemma MulMonotone(a: nat, b: nat, x: nat, y: nat)
    requires a <= b && x <= y
    ensures a * x <= b * y
  {
    assert a * x <= b * x;
    assert b * x <= b * y;
  }

  lemma SquareRootIs(n: nat, r: nat)
    requires IsSquareRoot(n, r)
    ensures SquareRoot(n) == r
  {
    SquareRootUnique(n, SquareRoot(n), r);
  }

  lemma SquareRootUnique(n: nat, q: nat, r: nat)
    requires IsSquareRoot(n, q) && IsSquareRoot(n, r)
    ensures q == r
  {
    if q < r {
      MulMonotone(q + 1, r, q + 1, r);
    } else if r < q {
      MulMonotone(r + 1, q, r + 1, q);
    }
  }

  // ---------------------------------------------------------------- functions (3.2, 4.1.2)

  function Add(x: Word, y: Word): Word { (x + y) % WORD }

  lemma ModAdd(x: int, y: int)
    ensures (x % WORD + y) % WORD == (x + y) % WORD
  {
  }

  /** Addition of words in the opposite order. */
  lemma ReverseSum(w: Word, x: Word, y: Word, z: Word)
    ensures Add(Add(Add(w, x), y), z) == Add(Add(Add(z, y), x), w)
  {
    SumOfFour(w, x, y, z);
    SumOfFour(z, y, x, w);
    hide Add;
  }

  lemma SumOfFour(w: Word, x: Word, y: Word, z: Word)
    ensures Add(Add(Add(w, x), y), z) == (w + x + y + z) % WORD
  {
    ModAdd(w + x, y);
    ModAdd(w + x + y, z);
  }

  function Rotr(x: Word, n: nat): Word
    requires n <= 32
  {
    OrW(Shr(x, n), ShlW(x, 32 - n))
  }

  function Ch(x: Word, y: Word, z: Word): Word { XorW(AndW(x, y), AndW(NotW(x), z)) }

  function Maj(x: Word, y: Word, z: Word): Word { XorW(XorW(AndW(x, y), AndW(x, z)), AndW(y, z)) }

  function BigSigma0(x: Word): Word { XorW(XorW(Rotr(x, 2), Rotr(x, 13)), Rotr(x, 22)) }

  function BigSigma1(x: Word): Word { XorW(XorW(Rotr(x, 6), Rotr(x, 11)), Rotr(x, 25)) }

  function SmallSigma0(x: Word): Word { XorW(XorW(Rotr(x, 7), Rotr(x, 18)), Shr(x, 3)) }

  function SmallSigma1(x: Word): Word { XorW(XorW(Rotr(x, 17), Rotr(x, 19)), Shr(x, 10)) }

  // ---------------------------------------------------------------- padding and parsing (5.1.1, 5.2.1)

  predicate FillsBlock(l: nat, k: nat) { (l + 1 + k) % 512 == 448 }

  /** The number of zero bits that follow the 1 bit appended to an `l`-bit message. */
  function ZeroBits(l: nat): (k: nat)
    ensures FillsBlock(l, k)
    ensures forall j: nat :: FillsBlock(l, j) ==> k <= j
  {
    (447 - l) % 512
  }

  function Zeros(k: nat): (z: seq<bool>)
    ensures |z| == k
  {
    seq(k, _ => false)
  }

  function Pad(m: seq<bool>): (p: seq<bool>)
    ensures |p| % 512 == 0 && |p| >= 512
  {
    m + [true] + Zeros(ZeroBits(|m|)) + BitsOf(|m|, 64)
  }

  /** Word `t` of the bit string `p`. */
  function WordAt(p: seq<bool>, t: nat): Word
    requires 32 * t + 32 <= |p|
  {
    NatOfBound(p[32 * t..32 * t + 32]);
    WordIsPow2();
    NatOf(p[32 * t..32 * t + 32])
  }

  // ---------------------------------------------------------------- the hash computation (6.2.2)

  datatype State = State(a: Word, b: Word, c: Word, d: Word, e: Word, f: Word, g: Word, h: Word)

  ghost function InitialState(): State {
    State(SquareRootFraction(2), SquareRootFraction(3), SquareRootFraction(5), SquareRootFraction(7),
          SquareRootFraction(11), SquareRootFraction(13), SquareRootFraction(17), SquareRootFraction(19))
  }

  function NextScheduleWord(w16: Word, w15: Word, w7: Word, w2: Word): Word {
    Add(Add(Add(SmallSigma1(w2), w7), SmallSigma0(w15)), w16)
  }

  /** Word `t` of the message schedule of block `i` of the padded message `p`. */
  function ScheduleWord(p: seq<bool>, i: nat, t: nat): Word
    requires 512 * i + 512 <= |p|
    decreases t
  {
    if t < 16 then WordAt(p, 16 * i + t)
    else NextScheduleWord(ScheduleWord(p, i, t - 16), ScheduleWord(p, i, t - 15),
                          ScheduleWord(p, i, t - 7), ScheduleWord(p, i, t - 2))
  }

  function Schedule(p: seq<bool>, i: nat): (ws: seq<Word>)
    requires 512 * i + 512 <= |p|
    ensures |ws| == 64
  {
    seq(64, t requires 0 <= t < 64 => ScheduleWord(p, i, t))
  }

  lemma ScheduleStart(p: seq<bool>, i: nat, t: nat)
    requires 512 * i + 512 <= |p| && t < 16
    ensures Schedule(p, i)[t] == WordAt(p, 16 * i + t)
  {
    hide WordAt;
  }

  lemma ScheduleNext(p: seq<bool>, i: nat, t: nat)
    requires 512 * i + 512 <= |p| && 16 <= t < 64
    ensures var ws := Schedule(p, i); ws[t] == NextScheduleWord(ws[t - 16], ws[t - 15], ws[t - 7], ws[t - 2])
  {
    hide WordAt, NextScheduleWord;
  }

  function Temp1(e: Word, f: Word, g: Word, h: Word, k: Word, w: Word): Word {
    Add(Add(Add(Add(h, BigSigma1(e)), Ch(e, f, g)), k), w)
  }

  function Temp2(a: Word, b: Word, c: Word): Word { Add(BigSigma0(a), Maj(a, b, c)) }

  function Round(s: State, k: Word, w: Word): State {
    var t1, t2 := Temp1(s.e, s.f, s.g, s.h, k, w), Temp2(s.a, s.b, s.c);
    State(Add(t1, t2), s.a, s.b, s.c, Add(s.d, t1), s.e, s.f, s.g)
  }

  /** The working variables after consuming the schedule words `ws`. */
  ghost function Rounds(s: State, ws: seq<Word>): State
    requires |ws| <= 64
  {
    if ws == [] then s
    else Round(Rounds(s, ws[..|ws| - 1]), RoundConstant(|ws| - 1), ws[|ws| - 1])
  }

  function AddState(x: State, y: State): State {
    State(Add(x.a, y.a), Add(x.b, y.b), Add(x.c, y.c), Add(x.d, y.d),
          Add(x.e, y.e), Add(x.f, y.f), Add(x.g, y.g), Add(x.h, y.h))
  }

  /** The hash value `s` updated with block `i` of the padded message. */
  ghost function Update(p: seq<bool>, i: nat, s: State): State
    requires 512 * i + 512 <= |p|
  {
    AddState(Rounds(s, Schedule(p, i)), s)
  }

  /** The hash value after `n` blocks of the padded message. */
  ghost function HashAfter(p: seq<bool>, n: nat): State
    requires 512 * n <= |p|
  {
    if n == 0 then InitialState() else Update(p, n - 1, HashAfter(p, n - 1))
  }

  function Digest(s: State): (d: seq<bool>)
    ensures |d| == 256
  {
    BitsOf(s.a, 32) + BitsOf(s.b, 32) + BitsOf(s.c, 32) + BitsOf(s.d, 32) +
    BitsOf(s.e, 32) + BitsOf(s.f, 32) + BitsOf(s.g, 32) + BitsOf(s.h, 32)
  }

  /** SHA-256 of a bit string. */
  ghost function Sha256(m: seq<bool>): (d: seq<bool>)
    requires |m| < 0x1_0000_0000_0000_0000
    ensures |d| == 256
  {
    var p := Pad(m);
    Digest(HashAfter(p, |p| / 512))
  }

  /** SHA-256 of a byte string. */
  ghost function Sha256Bytes(m: seq<Byte>): (d: seq<Byte>)
    requires 8 * |m| < 0x1_0000_0000_0000_0000
    ensures |d| == 32
  {
    BitsToBytes(Sha256(BytesToBits(m)))
  }
}

/** HMAC as section 2 of RFC 2104 defines it, with SHA-256 and its 64-byte block. */
module Rfc2104 {
  import opened Bits
  import Fips180

  /** Byte-wise exclusive or of `k` with the byte `pad` repeated. */
  function XorPad(k: seq<Byte>, pad: Byte): (r: seq<Byte>)
    ensures |r| == |k|
    ensures forall i :: 0 <= i < |k| ==> r[i] == XorB(k[i], pad)
  {
    seq(|k|, i requires 0 <= i < |k| => XorB(k[i], pad))
  }

  /** The key brought to the block length: hashed when longer, then zero-filled. */
  ghost function BlockKey(key: seq<Byte>): (k: seq<Byte>)
    requires 8 * |key| < 0x1_0000_0000_0000_0000
    ensures |k| == 64
  {
    var k := if |key| > 64 then Fips180.Sha256Bytes(key) else key;
    k + seq(64 - |k|, _ => 0)
  }

  ghost function Hmac(key: seq<Byte>, text: seq<Byte>): seq<Byte>
    requires 8 * |key| < 0x1_0000_0000_0000_0000
    requires 8 * (|text| + 64) < 0x1_0000_0000_0000_0000
  {
    var k := BlockKey(key);
    Fips180.Sha256Bytes(XorPad(k, 0x5c) + Fips180.Sha256Bytes(XorPad(k, 0x36) + text))
  }
}
