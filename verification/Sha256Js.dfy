/** The dashboard's pure-JavaScript SHA-256 and HMAC-SHA256 (static/app.js), statement by statement. */
module Sha256Js {
  import opened Bits
  import opened JsNumber
  import opened Fips180
  import Rfc2104

  /** The source's round constant table. */
  function K(t: nat): Word
    requires t < 64
  {
    if t < 8 then [0x428a2f98, 0x71374491, 0xb5c0fbcf, 0xe9b5dba5, 0x3956c25b, 0x59f111f1, 0x923f82a4, 0xab1c5ed5][t]
    else if t < 16 then [0xd807aa98, 0x12835b01, 0x243185be, 0x550c7dc3, 0x72be5d74, 0x80deb1fe, 0x9bdc06a7, 0xc19bf174][t - 8]
    else if t < 24 then [0xe49b69c1, 0xefbe4786, 0x0fc19dc6, 0x240ca1cc, 0x2de92c6f, 0x4a7484aa, 0x5cb0a9dc, 0x76f988da][t - 16]
    else if t < 32 then [0x983e5152, 0xa831c66d, 0xb00327c8, 0xbf597fc7, 0xc6e00bf3, 0xd5a79147, 0x06ca6351, 0x14292967][t - 24]
    else if t < 40 then [0x27b70a85, 0x2e1b2138, 0x4d2c6dfc, 0x53380d13, 0x650a7354, 0x766a0abb, 0x81c2c92e, 0x92722c85][t - 32]
    else if t < 48 then [0xa2bfe8a1, 0xa81a664b, 0xc24b8b70, 0xc76c51a3, 0xd192e819, 0xd6990624, 0xf40e3585, 0x106aa070][t - 40]
    else if t < 56 then [0x19a4c116, 0x1e376c08, 0x2748774c, 0x34b0bcb5, 0x391c0cb3, 0x4ed8aa4a, 0x5b9cca4f, 0x682e6ff3][t - 48]
    else [0x748f82ee, 0x78a5636f, 0x84c87814, 0x8cc70208, 0x90befffa, 0xa4506ceb, 0xbef9a3f7, 0xc67178f2][t - 56]
  }

  const H: seq<Word> :=
    [0x6a09e667, 0xbb67ae85, 0x3c6ef372, 0xa54ff53a, 0x510e527f, 0x9b05688c, 0x1f83d9ab, 0x5be0cd19]

  // ---------------------------------------------------------------- the constant tables

  lemma RootOf(p: nat, c: nat, k: Word)
    requires IsCubeRoot(p * 0x1_0000_0000_0000_0000_0000_0000, c * WORD + k)
    ensures CubeRootFraction(p) == k
  {
    CubeRootIs(p * 0x1_0000_0000_0000_0000_0000_0000, c * WORD + k);
  }

  lemma SquareRootOf(p: nat, c: nat, k: Word)
    requires IsSquareRoot(p * 0x1_0000_0000_0000_0000, c * WORD + k)
    ensures SquareRootFraction(p) == k
  {
    SquareRootIs(p * 0x1_0000_0000_0000_0000, c * WORD + k);
  }

  /** Every entry of the table is the constant the standard derives from the cube root of a prime. */
  lemma RoundTable(t: nat)
    requires t < 64
    ensures K(t) == RoundConstant(t)
  {
    if 0 <= t < 8 { RoundTable0(t); }
    if 8 <= t < 16 { RoundTable1(t); }
    if 16 <= t < 24 { RoundTable2(t); }
    if 24 <= t < 32 { RoundTable3(t); }
    if 32 <= t < 40 { RoundTable4(t); }
    if 40 <= t < 48 { RoundTable5(t); }
    if 48 <= t < 56 { RoundTable6(t); }
    if 56 <= t < 64 { RoundTable7(t); }
  }

  lemma RoundTable0(t: nat)
    requires 0 <= t < 8
    ensures K(t) == RoundConstant(t)
  {
    RootOf(2, 1, 0x428a2f98);
    RootOf(3, 1, 0x71374491);
    RootOf(5, 1, 0xb5c0fbcf);
    RootOf(7, 1, 0xe9b5dba5);
    RootOf(11, 2, 0x3956c25b);
    RootOf(13, 2, 0x59f111f1);
    RootOf(17, 2, 0x923f82a4);
    RootOf(19, 2, 0xab1c5ed5);
  }

  lemma RoundTable1(t: nat)
    requires 8 <= t < 16
    ensures K(t) == RoundConstant(t)
  {
    RootOf(23, 2, 0xd807aa98);
    RootOf(29, 3, 0x12835b01);
    RootOf(31, 3, 0x243185be);
    RootOf(37, 3, 0x550c7dc3);
    RootOf(41, 3, 0x72be5d74);
    RootOf(43, 3, 0x80deb1fe);
    RootOf(47, 3, 0x9bdc06a7);
    RootOf(53, 3, 0xc19bf174);
  }

  lemma RoundTable2(t: nat)
    requires 16 <= t < 24
    ensures K(t) == RoundConstant(t)
  {
    RootOf(59, 3, 0xe49b69c1);
    RootOf(61, 3, 0xefbe4786);
    RootOf(67, 4, 0x0fc19dc6);
    RootOf(71, 4, 0x240ca1cc);
    RootOf(73, 4, 0x2de92c6f);
    RootOf(79, 4, 0x4a7484aa);
    RootOf(83, 4, 0x5cb0a9dc);
    RootOf(89, 4, 0x76f988da);
  }

  lemma RoundTable3(t: nat)
    requires 24 <= t < 32
    ensures K(t) == RoundConstant(t)
  {
    RootOf(97, 4, 0x983e5152);
    RootOf(101, 4, 0xa831c66d);
    RootOf(103, 4, 0xb00327c8);
    RootOf(107, 4, 0xbf597fc7);
    RootOf(109, 4, 0xc6e00bf3);
    RootOf(113, 4, 0xd5a79147);
    RootOf(127, 5, 0x06ca6351);
    RootOf(131, 5, 0x14292967);
  }

  lemma RoundTable4(t: nat)
    requires 32 <= t < 40
    ensures K(t) == RoundConstant(t)
  {
    RootOf(137, 5, 0x27b70a85);
    RootOf(139, 5, 0x2e1b2138);
    RootOf(149, 5, 0x4d2c6dfc);
    RootOf(151, 5, 0x53380d13);
    RootOf(157, 5, 0x650a7354);
    RootOf(163, 5, 0x766a0abb);
    RootOf(167, 5, 0x81c2c92e);
    RootOf(173, 5, 0x92722c85);
  }

  lemma RoundTable5(t: nat)
    requires 40 <= t < 48
    ensures K(t) == RoundConstant(t)
  {
    RootOf(179, 5, 0xa2bfe8a1);
    RootOf(181, 5, 0xa81a664b);
    RootOf(191, 5, 0xc24b8b70);
    RootOf(193, 5, 0xc76c51a3);
    RootOf(197, 5, 0xd192e819);
    RootOf(199, 5, 0xd6990624);
    RootOf(211, 5, 0xf40e3585);
    RootOf(223, 6, 0x106aa070);
  }

  lemma RoundTable6(t: nat)
    requires 48 <= t < 56
    ensures K(t) == RoundConstant(t)
  {
    RootOf(227, 6, 0x19a4c116);
    RootOf(229, 6, 0x1e376c08);
    RootOf(233, 6, 0x2748774c);
    RootOf(239, 6, 0x34b0bcb5);
    RootOf(241, 6, 0x391c0cb3);
    RootOf(251, 6, 0x4ed8aa4a);
    RootOf(257, 6, 0x5b9cca4f);
    RootOf(263, 6, 0x682e6ff3);
  }

  lemma RoundTable7(t: nat)
    requires 56 <= t < 64
    ensures K(t) == RoundConstant(t)
  {
    RootOf(269, 6, 0x748f82ee);
    RootOf(271, 6, 0x78a5636f);
    RootOf(277, 6, 0x84c87814);
    RootOf(281, 6, 0x8cc70208);
    RootOf(283, 6, 0x90befffa);
    RootOf(293, 6, 0xa4506ceb);
    RootOf(307, 6, 0xbef9a3f7);
    RootOf(311, 6, 0xc67178f2);
  }

  /** The initial hash value is the one the standard derives from square roots. */
  lemma FirstRoots()
    ensures SquareRootFraction(2) == 0x6a09e667 && SquareRootFraction(3) == 0xbb67ae85
    ensures SquareRootFraction(5) == 0x3c6ef372 && SquareRootFraction(7) == 0xa54ff53a
  {
    hide SquareRootFraction;
    SquareRootOf(2, 1, 0x6a09e667);
    SquareRootOf(3, 1, 0xbb67ae85);
    SquareRootOf(5, 2, 0x3c6ef372);
    SquareRootOf(7, 2, 0xa54ff53a);
  }

  lemma LastRoots()
    ensures SquareRootFraction(11) == 0x510e527f && SquareRootFraction(13) == 0x9b05688c
    ensures SquareRootFraction(17) == 0x1f83d9ab && SquareRootFraction(19) == 0x5be0cd19
  {
    hide SquareRootFraction;
    SquareRootOf(11, 3, 0x510e527f);
    SquareRootOf(13, 3, 0x9b05688c);
    SquareRootOf(17, 4, 0x1f83d9ab);
    SquareRootOf(19, 4, 0x5be0cd19);
  }

  lemma InitialTable()
    ensures InitialState() == State(H[0], H[1], H[2], H[3], H[4], H[5], H[6], H[7])
  {
    hide SquareRootFraction;
    FirstRoots();
    LastRoots();
  }

  // ---------------------------------------------------------------- operators

  function Rotr32(x: int, n: nat): (r: int)
    requires 0 < n < 32
    ensures IsInt32(r) && ToUint32(r) == Rotr(ToUint32(x), n)
  {
    Or(Ushr(x, n), Shl(x, 32 - n))
  }

  /** The two ranges a word takes in the source: signed after an operator, unsigned in a literal. */
  predicate Small(x: int) { IsInt32(x) || 0 <= x < WORD }

  /** The eight numbers `v` denote the eight words of `s`. */
  ghost predicate Denotes(v: seq<int>, s: State) {
    && |v| == 8
    && (forall i :: 0 <= i < 8 ==> Small(v[i]))
    && ToUint32(v[0]) == s.a && ToUint32(v[1]) == s.b && ToUint32(v[2]) == s.c && ToUint32(v[3]) == s.d
    && ToUint32(v[4]) == s.e && ToUint32(v[5]) == s.f && ToUint32(v[6]) == s.g && ToUint32(v[7]) == s.h
  }

  // ---------------------------------------------------------------- padding

  /** The zero bytes the loop pushes: what is left to 56 modulo 64 after the 0x80 byte. */
  function ZeroBytes(n: nat): (z: nat)
    ensures (n + 1 + z) % 64 == 56 && z < 64
    ensures ZeroBits(8 * n) == 8 * z + 7
  {
    ZeroBitsInBytes(n, (55 - n) / 64, (55 - n) % 64);
    (55 - n) % 64
  }

  lemma ZeroBitsInBytes(n: nat, q: int, z: nat)
    requires 55 - n == 64 * q + z && z < 64
    ensures ZeroBits(8 * n) == 8 * z + 7 && (n + 1 + z) % 64 == 56
  {
    assert ZeroBits(8 * n) == (447 - 8 * n) % 512;
    hide *;
    Remainder512(447 - 8 * n, q, 8 * z + 7);
    Remainder64(n + 1 + z, -q, 56);
  }

  lemma Remainder512(x: int, q: int, r: nat)
    requires x == 512 * q + r && r < 512
    ensures x % 512 == r
  {
  }

  lemma Remainder64(x: int, q: int, r: nat)
    requires x == 64 * q + r && r < 64
    ensures x % 64 == r
  {
  }

  lemma MaskByte(x: nat)
    ensures And(x, 0xff) == x % 256
  {
    WordRemainder(x);
    MaskWord(ToUint32(x));
    SmallInt32(AndW(ToUint32(x), 0xff));
  }

  lemma WordRemainder(x: nat)
    ensures ToUint32(x) % 256 == x % 256
  {
    var q := x / WORD;
    assert x == 256 * (0x100_0000 * q) + ToUint32(x);
  }

  lemma SmallInt32(u: Word)
    requires u < 256
    ensures ToInt32(u) == u
  {
  }

  lemma MaskWord(u: Word)
    ensures AndW(u, 0xff) == u % 256
  {
    assert Pow2(8) == 256;
    MaskIsLow(u, 8);
    LowByte(u);
  }

  lemma {:induction false} LowByte(x: nat)
    ensures Low(x, 8) == x % 256
  {
    ShrLow(x, 8);
    assert Pow2(8) == 256;
    hide *;
    Remainder256(x, Shr(x, 8), Low(x, 8));
  }

  lemma Remainder256(x: int, q: int, r: nat)
    requires x == q * 256 + r && r < 256
    ensures x % 256 == r
  {
  }

  /** Byte `i` of `n`, counted from the least significant. */
  function ByteAt(n: nat, i: nat): Byte { Shr(n, 8 * i) % 256 }

  /** The expression the source pushes for length byte `i`. */
  method ComputeLengthByte(bitLen: nat, i: nat) returns (b: Byte)
    requires Exact(bitLen)
    ensures b == ByteAt(bitLen, i)
  {
    var q := QuotientFloor(bitLen, 8 * i);
    MaskByte(q);
    b := And(q, 0xff);
  }

  /** The last `k` bytes of `n`, most significant first. */
  function BytesOf(n: nat, k: nat): (r: seq<Byte>)
    ensures |r| == k
  {
    seq(k, j requires 0 <= j < k => ByteAt(n, k - 1 - j))
  }

  function ZeroFill(z: nat): (r: seq<Byte>)
    ensures |r| == z
    ensures forall i :: 0 <= i < z ==> r[i] == 0
  {
    seq(z, _ => 0)
  }

  /** The padding of the source, byte for byte. */
  function Padded(bytes: seq<Byte>): (p: seq<Byte>)
    ensures |p| % 64 == 0 && |p| >= 64
  {
    bytes + [0x80] + ZeroFill(ZeroBytes(|bytes|)) + BytesOf(8 * |bytes|, 8)
  }

  lemma {:induction false} ZeroRun(z: nat)
    ensures BytesToBits(ZeroFill(z)) == Zeros(8 * z)
    decreases z
  {
    if z > 0 {
      assert ZeroFill(z)[..z - 1] == ZeroFill(z - 1);
      ZeroRun(z - 1);
      ZeroByte();
    }
  }

  lemma ZeroByte()
    ensures BitsOf(0, 8) == Zeros(8)
  {
    forall k: nat ensures !Bit(0, k) { ShrZero(k); }
  }

  lemma OneByte(b: Byte)
    ensures BytesToBits([b]) == BitsOf(b, 8)
  {
    assert [b][..0] == [];
  }

  lemma BytesOfStep(n: nat, k: nat)
    requires k > 0
    ensures BytesOf(n, k) == [ByteAt(n, k - 1)] + BytesOf(n, k - 1)
    ensures BytesToBits([ByteAt(n, k - 1)]) == BitsOf(Shr(n, 8 * (k - 1)), 8)
  {
    var q := Shr(n, 8 * (k - 1));
    LowByte(q);
    assert ByteAt(n, k - 1) == Low(q, 8);
    hide *;
    OneByte(ByteAt(n, k - 1));
    BitsOfLow(q, 8);
  }

  /** They are its last `8 * k` bits. */
  lemma {:induction false} BytesOfBits(n: nat, k: nat)
    ensures BytesToBits(BytesOf(n, k)) == BitsOf(n, 8 * k)
    decreases k
  {
    hide *;
    if k == 0 {
      assert BytesOf(n, k) == [] && BitsOf(n, 8 * k) == [];
    } else {
      BytesOfBits(n, k - 1);
      BytesOfStep(n, k);
      BytesToBitsConcat([ByteAt(n, k - 1)], BytesOf(n, k - 1));
      BitsSplit(n, 8, 8 * (k - 1));
    }
  }

  /** The source's byte padding is the standard's bit padding. */
  lemma {:induction false} PaddedIsPad(bytes: seq<Byte>)
    ensures BytesToBits(Padded(bytes)) == Pad(BytesToBits(bytes))
  {
    var z := ZeroBytes(|bytes|);
    var ls := BytesOf(8 * |bytes|, 8);
    BytesToBitsConcat(bytes + [0x80] + ZeroFill(z), ls);
    BytesToBitsConcat(bytes + [0x80], ZeroFill(z));
    BytesToBitsConcat(bytes, [0x80]);
    ZeroRun(z);
    BytesOfBits(8 * |bytes|, 8);
    MarkerByte();
    ZerosJoin(BytesToBits(bytes), z, BitsOf(8 * |bytes|, 64));
  }

  lemma ZerosJoin(m: seq<bool>, z: nat, ls: seq<bool>)
    ensures m + ([true] + Zeros(7)) + Zeros(8 * z) + ls == m + [true] + Zeros(8 * z + 7) + ls
  {
    assert Zeros(7) + Zeros(8 * z) == Zeros(8 * z + 7);
  }

  lemma {:induction false} PowerBits(k: nat)
    ensures BitsOf(Pow2(k), k + 1) == [true] + Zeros(k)
    decreases k
  {
    if k == 0 {
      assert Shr(1, 0) == 1;
    } else {
      assert Pow2(k) == 2 * Pow2(k - 1);
      PowerBits(k - 1);
      BitsStep(Pow2(k), k + 1);
      hide BitsOf, Pow2;
      assert Zeros(k) == Zeros(k - 1) + [false];
    }
  }

  lemma MarkerByte()
    ensures BytesToBits([0x80]) == [true] + Zeros(7)
  {
    assert Pow2(7) == 0x80;
    hide BytesToBits, Pow2;
    OneByte(0x80);
    PowerBits(7);
  }

  /** Up to the least number of zeros, none but the last fills the block. */
  lemma ZeroBytesLeast(n: nat, z: nat)
    requires z <= ZeroBytes(n)
    ensures (n + 1 + z) % 64 == 56 <==> z == ZeroBytes(n)
  {
    var all := ZeroBytes(n);
    hide ZeroBytes;
    var q := (n + 1 + all) / 64;
    assert n + 1 + all == 64 * q + 56;
    var d := all - z;
    if d <= 56 {
      Remainder64(n + 1 + z, q, 56 - d);
    } else {
      Remainder64(n + 1 + z, q - 1, 120 - d);
    }
  }

  method AppendZeros(bytes: seq<Byte>) returns (padded: seq<Byte>)
    ensures padded == bytes + [0x80] + ZeroFill(ZeroBytes(|bytes|))
  {
    hide ZeroBytes;
    padded := bytes + [0x80];
    ghost var z := 0;
    ZeroBytesLeast(|bytes|, 0);
    while |padded| % 64 != 56
      invariant z <= ZeroBytes(|bytes|)
      invariant padded == bytes + [0x80] + ZeroFill(z)
      invariant |padded| % 64 == 56 <==> z == ZeroBytes(|bytes|)
      decreases ZeroBytes(|bytes|) - z
    {
      padded := padded + [0];
      z := z + 1;
      assert |padded| == |bytes| + 1 + z;
      ZeroBytesLeast(|bytes|, z);
    }
  }

  method AppendLength(base: seq<Byte>, bitLen: nat) returns (padded: seq<Byte>)
    requires Exact(bitLen)
    ensures padded == base + BytesOf(bitLen, 8)
  {
    hide ByteAt;
    padded := base;
    var i := 7;
    while i >= 0
      invariant -1 <= i <= 7
      invariant padded == base + BytesOf(bitLen, 8)[..7 - i]
    {
      var b := ComputeLengthByte(bitLen, i);
      padded := padded + [b];
      i := i - 1;
    }
  }

  method PadMessage(bytes: seq<Byte>) returns (padded: seq<Byte>)
    requires Exact(8 * |bytes|)
    ensures padded == Padded(bytes)
  {
    hide BytesOf, ZeroBytes;
    var bitLen := |bytes| * 8;
    padded := AppendZeros(bytes);
    padded := AppendLength(padded, bitLen);
  }

  // ---------------------------------------------------------------- the message schedule

  function BigEndian(b0: Byte, b1: Byte, b2: Byte, b3: Byte): Word {
    b0 * 0x100_0000 + b1 * 0x1_0000 + b2 * 0x100 + b3
  }

  lemma {:induction false} OrPart(x: Word, y: Word, hi: nat, n: nat, p: nat)
    requires p == Pow2(n) && x == hi * p && y < p
    ensures OrW(x, y) == x + y
  {
    hide *;
    OrIsSum(hi, y, n);
    assert OrW(x, y) == BitOr(x, y) by { OrWIs(x, y); }
  }

  lemma {:induction false} OrWIs(x: Word, y: Word)
    ensures OrW(x, y) == BitOr(x, y)
  {
  }

  lemma {:induction false} ShiftedByte(b: Byte, n: nat, p: nat)
    requires p == Pow2(n) && b * p < WORD
    ensures ShlW(b, n) == b * p
  {
  }

  /** Four shifted bytes or-ed together are the big-endian word. */
  lemma OrBytes(b0: Byte, b1: Byte, b2: Byte, b3: Byte)
    ensures OrW(OrW(OrW(ShlW(b0, 24), ShlW(b1, 16)), ShlW(b2, 8)), b3) == BigEndian(b0, b1, b2, b3)
  {
    WordIsPow2();
    hide Pow2, BitOr, ShlW, OrW;
    ShiftedByte(b0, 24, 0x100_0000);
    ShiftedByte(b1, 16, 0x1_0000);
    ShiftedByte(b2, 8, 0x100);
    var y0 := b0 * 0x100_0000 + b1 * 0x1_0000;
    OrPart(b0 * 0x100_0000, b1 * 0x1_0000, b0, 24, 0x100_0000);
    OrPart(y0, b2 * 0x100, b0 * 0x100 + b1, 16, 0x1_0000);
    OrPart(y0 + b2 * 0x100, b3, b0 * 0x1_0000 + b1 * 0x100 + b2, 8, 0x100);
  }

  lemma {:induction false} BytesNat(m: seq<Byte>)
    requires |m| == 4
    ensures NatOf(BytesToBits(m)) == BigEndian(m[0], m[1], m[2], m[3])
  {
    hide NatOf, BytesToBits;
    BytesStep([], m[0]);
    EmptyBits();
    BytesStep(m[..1], m[1]);
    BytesStep(m[..2], m[2]);
    BytesStep(m[..3], m[3]);
    assert m[..1] == [] + [m[0]] && m[..2] == m[..1] + [m[1]];
    assert m[..3] == m[..2] + [m[2]] && m == m[..3] + [m[3]];
  }

  lemma EmptyBits()
    ensures NatOf(BytesToBits([])) == 0
  {
  }

  lemma {:induction false} BytesStep(m: seq<Byte>, b: Byte)
    ensures NatOf(BytesToBits(m + [b])) == 256 * NatOf(BytesToBits(m)) + b
  {
    WordIsPow2();
    BytesToBitsConcat(m, [b]);
    OneByte(b);
    NatOfConcat(BytesToBits(m), BitsOf(b, 8));
    NatOfBitsOf(b, 8);
  }

  lemma {:induction false} LoadedWord(padded: seq<Byte>, k: nat)
    requires 4 * k + 4 <= |padded|
    ensures WordAt(BytesToBits(padded), k)
         == BigEndian(padded[4 * k], padded[4 * k + 1], padded[4 * k + 2], padded[4 * k + 3])
  {
    var p, m := BytesToBits(padded), padded[4 * k..4 * k + 4];
    BytesToBitsSlice(padded, 4 * k, 4 * k + 4, 32 * k, 32 * k + 32);
    assert WordAt(p, k) == NatOf(BytesToBits(m));
    BytesNat(m);
  }

  method LoadWord(b0: Byte, b1: Byte, b2: Byte, b3: Byte) returns (x: int)
    ensures IsInt32(x) && ToUint32(x) == BigEndian(b0, b1, b2, b3)
  {
    assert ToUint32(b0) == b0 && ToUint32(b1) == b1 && ToUint32(b2) == b2 && ToUint32(b3) == b3;
    var x0, x1, x2 := Shl(b0, 24), Shl(b1, 16), Shl(b2, 8);
    x := Or(Or(Or(x0, x1), x2), b3);
    OrBytes(b0, b1, b2, b3);
  }

  method NextWord(w16: int, w15: int, w7: int, w2: int) returns (x: int)
    requires IsInt32(w16) && IsInt32(w15) && IsInt32(w7) && IsInt32(w2)
    ensures IsInt32(x)
    ensures ToUint32(x) == NextScheduleWord(ToUint32(w16), ToUint32(w15), ToUint32(w7), ToUint32(w2))
  {
    var s0 := Xor(Xor(Rotr32(w15, 7), Rotr32(w15, 18)), Ushr(w15, 3));
    var s1 := Xor(Xor(Rotr32(w2, 17), Rotr32(w2, 19)), Ushr(w2, 10));
    x := Truncate(Plus(Plus(Plus(w16, s0), w7), s1));
    assert ToUint32(s0) == SmallSigma0(ToUint32(w15));
    assert ToUint32(s1) == SmallSigma1(ToUint32(w2));
    ReverseSum(ToUint32(w16), ToUint32(s0), ToUint32(w7), ToUint32(s1));
  }

  /** The first `n` numbers of `w` denote the first `n` words of `ws`. */
  ghost predicate DenoteWords(w: seq<int>, ws: seq<Word>, n: nat) {
    && |w| == 64 == |ws| && n <= 64
    && forall t :: 0 <= t < n ==> IsInt32(w[t]) && ToUint32(w[t]) == ws[t]
  }

  method LoadBlock(padded: seq<Byte>, chunk: nat, w: array<int>, ghost i: nat)
    requires w.Length == 64 && chunk == 64 * i && chunk + 64 <= |padded|
    modifies w
    ensures DenoteWords(w[..], Schedule(BytesToBits(padded), i), 16)
  {
    ghost var p := BytesToBits(padded);
    ghost var ws := Schedule(p, i);
    for t := 0 to 16
      invariant DenoteWords(w[..], ws, t)
    {
      var x := LoadWord(padded[chunk + t * 4], padded[chunk + t * 4 + 1],
                        padded[chunk + t * 4 + 2], padded[chunk + t * 4 + 3]);
      LoadedWord(padded, 16 * i + t);
      ScheduleStart(p, i, t);
      hide Schedule, WordAt, ToUint32;
      w[t] := x;
    }
  }

  method ExpandSchedule(w: array<int>, ghost ws: seq<Word>)
    requires w.Length == 64 && DenoteWords(w[..], ws, 16)
    requires forall t :: 16 <= t < 64 ==> ws[t] == NextScheduleWord(ws[t - 16], ws[t - 15], ws[t - 7], ws[t - 2])
    modifies w
    ensures DenoteWords(w[..], ws, 64)
  {
    for t := 16 to 64
      invariant DenoteWords(w[..], ws, t)
    {
      hide NextScheduleWord, ToUint32;
      var x := NextWord(w[t - 16], w[t - 15], w[t - 7], w[t - 2]);
      w[t] := x;
    }
  }

  // ---------------------------------------------------------------- the rounds

  method ComputeS1(e: int) returns (s1: int)
    ensures IsInt32(s1) && ToUint32(s1) == BigSigma1(ToUint32(e))
  {
    s1 := Xor(Xor(Rotr32(e, 6), Rotr32(e, 11)), Rotr32(e, 25));
  }

  method ComputeCh(e: int, f: int, g: int) returns (ch: int)
    ensures IsInt32(ch) && ToUint32(ch) == Ch(ToUint32(e), ToUint32(f), ToUint32(g))
  {
    ch := Xor(And(e, f), And(Not(e), g));
  }

  lemma WordItself(k: Word)
    ensures ToUint32(k) == k
  {
  }

  method ComputeT1(e: int, f: int, g: int, hh: int, k: Word, w: int) returns (t1: int)
    requires Small(hh) && IsInt32(w)
    ensures IsInt32(t1)
    ensures ToUint32(t1) == Temp1(ToUint32(e), ToUint32(f), ToUint32(g), ToUint32(hh), k, ToUint32(w))
  {
    hide Add, Ch, BigSigma1, ToUint32;
    WordItself(k);
    var s1 := ComputeS1(e);
    var ch := ComputeCh(e, f, g);
    t1 := SumFive(hh, s1, ch, k, w);
  }

  method SumFive(x: int, y: int, z: int, u: int, v: int) returns (r: int)
    requires Small(x) && Small(y) && Small(z) && Small(u) && Small(v)
    ensures IsInt32(r)
    ensures ToUint32(r) == Add(Add(Add(Add(ToUint32(x), ToUint32(y)), ToUint32(z)), ToUint32(u)), ToUint32(v))
  {
    r := Truncate(Plus(Plus(Plus(Plus(x, y), z), u), v));
  }

  method ComputeT2(a: int, b: int, c: int) returns (t2: int)
    ensures IsInt32(t2)
    ensures ToUint32(t2) == Temp2(ToUint32(a), ToUint32(b), ToUint32(c))
  {
    var s0 := Xor(Xor(Rotr32(a, 2), Rotr32(a, 13)), Rotr32(a, 22));
    var maj := Xor(Xor(And(a, b), And(a, c)), And(b, c));
    t2 := Truncate(Plus(s0, maj));
  }

  method SumWord(x: int, y: int) returns (r: int)
    requires Small(x) && Small(y)
    ensures IsInt32(r) && ToUint32(r) == Add(ToUint32(x), ToUint32(y))
  {
    r := Truncate(Plus(x, y));
  }

  lemma {:induction false} RoundsStep(s: State, ws: seq<Word>, t: nat)
    requires |ws| == 64 && t < 64
    ensures Rounds(s, ws[..t + 1]) == Round(Rounds(s, ws[..t]), RoundConstant(t), ws[t])
  {
    hide Round, RoundConstant;
    assert ws[..t + 1][..t] == ws[..t];
  }

  /** One pass of the round loop, on the eight working variables `v`. */
  method OneRound(v: seq<int>, k: Word, w: int, ghost r: State) returns (v': seq<int>)
    requires Denotes(v, r) && IsInt32(w)
    ensures Denotes(v', Round(r, k, ToUint32(w)))
  {
    hide Add, Temp1, Temp2, ToUint32;
    var a, b, c, d, e, f, g, hh := v[0], v[1], v[2], v[3], v[4], v[5], v[6], v[7];
    var t1 := ComputeT1(e, f, g, hh, k, w);
    var t2 := ComputeT2(a, b, c);
    hh := g; g := f; f := e;
    e := SumWord(d, t1);
    d := c; c := b; b := a;
    a := SumWord(t1, t2);
    v' := [a, b, c, d, e, f, g, hh];
  }

  method RunRounds(h: seq<int>, w: array<int>, ghost s: State, ghost ws: seq<Word>) returns (v: seq<int>)
    requires Denotes(h, s)
    requires w.Length == 64 && DenoteWords(w[..], ws, 64)
    ensures Denotes(v, Rounds(s, ws))
  {
    v := h;
    assert ws[..0] == [];
    for i := 0 to 64
      invariant Denotes(v, Rounds(s, ws[..i]))
    {
      RoundTable(i);
      RoundsStep(s, ws, i);
      v := OneRound(v, K(i), w[i], Rounds(s, ws[..i]));
    }
    assert ws[..64] == ws;
  }

  method AddInto(h: seq<int>, v: seq<int>, ghost s: State, ghost t: State) returns (r: seq<int>)
    requires Denotes(h, s) && Denotes(v, t)
    ensures Denotes(r, AddState(t, s))
  {
    var r0 := SumWord(h[0], v[0]);
    var r1 := SumWord(h[1], v[1]);
    var r2 := SumWord(h[2], v[2]);
    var r3 := SumWord(h[3], v[3]);
    var r4 := SumWord(h[4], v[4]);
    var r5 := SumWord(h[5], v[5]);
    var r6 := SumWord(h[6], v[6]);
    var r7 := SumWord(h[7], v[7]);
    r := [r0, r1, r2, r3, r4, r5, r6, r7];
  }

  // ---------------------------------------------------------------- the digest

  /** The bits of a list of words, in order. */
  function WordBits(ws: seq<Word>): (bs: seq<bool>)
    ensures |bs| == 32 * |ws|
  {
    if ws == [] then [] else WordBits(ws[..|ws| - 1]) + BitsOf(ws[|ws| - 1], 32)
  }

  function StateWords(s: State): (ws: seq<Word>)
    ensures |ws| == 8
  {
    [s.a, s.b, s.c, s.d, s.e, s.f, s.g, s.h]
  }

  lemma WordBitsStep(ws: seq<Word>, i: nat)
    requires i < |ws|
    ensures WordBits(ws[..i + 1]) == WordBits(ws[..i]) + BitsOf(ws[i], 32)
  {
    assert ws[..i + 1][..i] == ws[..i];
  }

  lemma DigestIsWordBits(s: State)
    ensures Digest(s) == WordBits(StateWords(s))
  {
    var ws := StateWords(s);
    assert ws[..0] == [] && ws[..8] == ws;
    WordBitsStep(ws, 0);
    WordBitsStep(ws, 1);
    WordBitsStep(ws, 2);
    WordBitsStep(ws, 3);
    WordBitsStep(ws, 4);
    WordBitsStep(ws, 5);
    WordBitsStep(ws, 6);
    WordBitsStep(ws, 7);
  }

  function WordBytes(x: Word): seq<Byte> { [ByteAt(x, 3), ByteAt(x, 2), ByteAt(x, 1), ByteAt(x, 0)] }

  /** The four bytes of a word, written in order, are its 32 bits. */
  lemma WordBytesBits(x: Word)
    ensures BytesToBits(WordBytes(x)) == BitsOf(x, 32)
  {
    BytesOfBits(x, 4);
    assert BytesOf(x, 4) == WordBytes(x);
  }

  method ComputeWordByte(h: int, i: nat) returns (b: Byte)
    requires i < 4
    ensures b == ByteAt(ToUint32(h), i)
  {
    var q := Ushr(h, 8 * i);
    MaskByte(q);
    b := And(q, 0xff);
  }

  /** `out[i * 4 + 3] = h[i] & 0xff`, which has no shift to make the number unsigned. */
  method ComputeLastByte(h: int) returns (b: Byte)
    ensures b == ByteAt(ToUint32(h), 0)
  {
    var u := ToUint32(h);
    MaskWord(u);
    SmallInt32(AndW(u, 0xff));
    b := And(h, 0xff);
  }

  method WriteWord(out: array<Byte>, i: nat, h: int, ghost x: Word)
    requires out.Length == 32 && i < 8 && ToUint32(h) == x
    modifies out
    ensures out[..4 * i + 4] == old(out[..4 * i]) + WordBytes(x)
  {
    out[i * 4] := ComputeWordByte(h, 3);
    out[i * 4 + 1] := ComputeWordByte(h, 2);
    out[i * 4 + 2] := ComputeWordByte(h, 1);
    out[i * 4 + 3] := ComputeLastByte(h);
  }

  lemma {:induction false} AppendedWord(before: seq<Byte>, ws: seq<Word>, i: nat)
    requires i < |ws| && BytesToBits(before) == WordBits(ws[..i])
    ensures BytesToBits(before + WordBytes(ws[i])) == WordBits(ws[..i + 1])
  {
    BytesToBitsConcat(before, WordBytes(ws[i]));
    WordBytesBits(ws[i]);
    WordBitsStep(ws, i);
  }

  method WriteDigest(h: seq<int>, ghost s: State) returns (digest: seq<Byte>)
    requires Denotes(h, s)
    ensures BytesToBits(digest) == Digest(s)
  {
    var out := new Byte[32](_ => 0);
    ghost var ws := StateWords(s);
    DigestIsWordBits(s);
    assert ws[..0] == [] && out[..0] == [];
    assert BytesToBits([]) == WordBits([]);
    assert forall i :: 0 <= i < 8 ==> ToUint32(h[i]) == ws[i];
    hide *;
    for i := 0 to 8
      invariant BytesToBits(out[..4 * i]) == WordBits(ws[..i])
    {
      AppendedWord(out[..4 * i], ws, i);
      WriteWord(out, i, h[i], ws[i]);
    }
    assert ws[..8] == ws;
    digest := out[..32];
  }

  // ---------------------------------------------------------------- sha256 and hmacSha256

  /** The body of the chunk loop: one 64-byte block folded into the hash value `h`. */
  method ProcessBlock(padded: seq<Byte>, chunk: nat, h: seq<int>, w: array<int>, ghost n: nat, ghost s: State)
    returns (h': seq<int>)
    requires w.Length == 64 && chunk == 64 * n && chunk + 64 <= |padded|
    requires Denotes(h, s)
    modifies w
    ensures Denotes(h', Update(BytesToBits(padded), n, s))
  {
    ghost var ws := Schedule(BytesToBits(padded), n);
    LoadBlock(padded, chunk, w, n);
    hide Schedule, NextScheduleWord;
    forall t | 16 <= t < 64 ensures ws[t] == NextScheduleWord(ws[t - 16], ws[t - 15], ws[t - 7], ws[t - 2]) {
      ScheduleNext(BytesToBits(padded), n, t);
    }
    ExpandSchedule(w, ws);
    var v := RunRounds(h, w, s, ws);
    h' := AddInto(h, v, s, Rounds(s, ws));
  }

  method InitialHash() returns (h: seq<int>)
    ensures Denotes(h, InitialState())
  {
    InitialTable();
    h := [H[0], H[1], H[2], H[3], H[4], H[5], H[6], H[7]];
  }

  /** The chunk loop over the `m` blocks of the padded message. */
  method HashPadded(padded: seq<Byte>, ghost m: nat, ghost states: seq<State>) returns (h: seq<int>)
    requires |padded| == 64 * m && |states| == m + 1
    requires states[0] == InitialState()
    requires forall n :: 0 <= n < m ==> states[n + 1] == Update(BytesToBits(padded), n, states[n])
    ensures Denotes(h, states[m])
  {
    h := InitialHash();
    var w := new int[64](_ => 0);
    var chunk := 0;
    ghost var n := 0;
    while chunk < |padded|
      invariant chunk == 64 * n && n <= m
      invariant Denotes(h, states[n])
      decreases |padded| - chunk
    {
      h := ProcessBlock(padded, chunk, h, w, n, states[n]);
      chunk := chunk + 64;
      n := n + 1;
    }
  }

  /** Every intermediate hash value, the last one after `m` blocks. */
  lemma {:induction false} HashStates(p: seq<bool>, m: nat) returns (states: seq<State>)
    requires 512 * m <= |p|
    ensures |states| == m + 1 && states[0] == InitialState() && states[m] == HashAfter(p, m)
    ensures forall n :: 0 <= n < m ==> states[n + 1] == Update(p, n, states[n])
    decreases m
  {
    hide Update, InitialState;
    if m == 0 {
      states := [InitialState()];
    } else {
      states := HashStates(p, m - 1);
      states := states + [Update(p, m - 1, states[m - 1])];
    }
  }

  /** `sha256(bytes)` is SHA-256 of the bytes, for every byte array whose bit count a double holds
      exactly; a JavaScript array is far shorter than that. */
  method Sha256Of(bytes: seq<Byte>) returns (digest: seq<Byte>)
    requires Exact(8 * |bytes|)
    ensures digest == Sha256Bytes(bytes)
  {
    var padded := PadMessage(bytes);
    PaddedIsPad(bytes);
    ghost var p := BytesToBits(padded);
    ghost var m := |p| / 512;
    assert |padded| == 64 * m;
    ghost var states := HashStates(p, m);
    var h := HashPadded(padded, m, states);
    digest := WriteDigest(h, HashAfter(p, m));
    BytesRoundTrip(digest);
  }

  /** `padded[i] ^ pad`, stored into a byte array. */
  method XorByte(x: Byte, pad: Byte) returns (r: Byte)
    ensures r == XorB(x, pad)
  {
    assert ToUint32(x) == x && ToUint32(pad) == pad;
    SmallInt32(XorB(x, pad));
    r := Xor(x, pad);
  }

  /** The loop that fills `ipad` and `opad`. */
  method FillPads(padded: seq<Byte>) returns (inner: seq<Byte>, outer: seq<Byte>)
    requires |padded| == 64
    ensures inner == Rfc2104.XorPad(padded, 0x36) && outer == Rfc2104.XorPad(padded, 0x5c)
  {
    var ipad := new Byte[64](_ => 0);
    var opad := new Byte[64](_ => 0);
    for i := 0 to 64
      invariant forall j :: 0 <= j < i ==> ipad[j] == XorB(padded[j], 0x36) && opad[j] == XorB(padded[j], 0x5c)
    {
      ipad[i] := XorByte(padded[i], 0x36);
      opad[i] := XorByte(padded[i], 0x5c);
    }
    inner, outer := ipad[..], opad[..];
  }

  /** `hmacSha256(key, message)` is HMAC-SHA256, for keys shorter than, equal to and longer than a block. */
  method HmacSha256(keyBytes: seq<Byte>, messageBytes: seq<Byte>) returns (mac: seq<Byte>)
    requires Exact(8 * |keyBytes|) && Exact(8 * (|messageBytes| + 64))
    ensures mac == Rfc2104.Hmac(keyBytes, messageBytes)
  {
    var key := keyBytes;
    if |key| > 64 {
      key := Sha256Of(key);
    }
    var padded := key + ZeroFill(64 - |key|);
    assert padded == Rfc2104.BlockKey(keyBytes);
    var ipad, opad := FillPads(padded);
    var inner := Sha256Of(ipad + messageBytes);
    mac := Sha256Of(opad + inner);
  }
}
