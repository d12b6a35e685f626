/** The three range lists of src/ipfilter.rs read the way they are written there: octet by octet, group by
    group. */
module SpecialRanges {
  import opened Bits
  import opened Cidr
  import opened Feed

  /** Digits of `w` bits each. */
  ghost predicate Digits(ds: seq<nat>, w: nat) { forall i :: 0 <= i < |ds| ==> ds[i] < Pow2(w) }

  function Joined(ds: seq<nat>, w: nat): nat {
    if ds == [] then 0 else Joined(ds[..|ds| - 1], w) * Pow2(w) + ds[|ds| - 1]
  }

  lemma {:induction false} JoinedStep(ds: seq<nat>, d: nat, w: nat)
    ensures Joined(ds + [d], w) == Joined(ds, w) * Pow2(w) + d
  {
    assert (ds + [d])[..|ds|] == ds;
  }

  lemma {:induction false} QuotientOf(x: nat, n: nat, q: nat, r: nat)
    requires x == q * Pow2(n) + r && r < Pow2(n)
    ensures Shr(x, n) == q && Low(x, n) == r
  {
    ShrLow(x, n);
    hide Pow2;
    QuotientRange(Shr(x, n), Low(x, n), q, Pow2(n));
  }

  lemma {:induction false} ShiftOut(x: nat, w: nat, y: nat, d: nat, o: nat)
    requires x == y * Pow2(w) + d && d < Pow2(w)
    ensures Shr(x, w + o) == Shr(y, o)
  {
    hide *;
    QuotientOf(x, w, y, d);
    ShrShr(x, w, o);
  }

  /** The bits in `m` digits. */
  ghost function Span(w: nat, m: nat): nat { if m == 0 then 0 else w + Span(w, m - 1) }

  lemma {:induction false} SpanIsProduct(w: nat, m: nat)
    ensures Span(w, m) == w * m
  {
    if m > 0 { SpanIsProduct(w, m - 1); }
  }

  lemma {:induction false} SpanSum(w: nat, m: nat, k: nat)
    ensures Span(w, m + k) == Span(w, m) + Span(w, k)
    decreases m
  {
    if m > 0 { SpanSum(w, m - 1, k); }
  }

  /** Shifting out the last `m` digits leaves the first. */
  lemma {:induction false} FirstDigits(ds: seq<nat>, w: nat, m: nat)
    requires Digits(ds, w) && m <= |ds|
    ensures Shr(Joined(ds, w), Span(w, m)) == Joined(ds[..|ds| - m], w)
    decreases m
  {
    if m == 0 {
      assert ds[..|ds|] == ds;
    } else {
      var n := |ds| - 1;
      assert Joined(ds, w) == Joined(ds[..n], w) * Pow2(w) + ds[n];
      assert ds[..n][..n - (m - 1)] == ds[..|ds| - m];
      assert Span(w, m) == w + Span(w, m - 1);
      FirstDigits(ds[..n], w, m - 1);
      hide *;
      ShiftOut(Joined(ds, w), w, Joined(ds[..n], w), ds[n], Span(w, m - 1));
    }
  }

  lemma {:induction false} JoinedInjective(a: seq<nat>, b: seq<nat>, w: nat)
    requires Digits(a, w) && Digits(b, w) && |a| == |b|
    ensures Joined(a, w) == Joined(b, w) <==> a == b
  {
    if Joined(a, w) == Joined(b, w) && a != [] {
      var n := |a| - 1;
      QuotientOf(Joined(a, w), w, Joined(a[..n], w), a[n]);
      QuotientOf(Joined(b, w), w, Joined(b[..n], w), b[n]);
      JoinedInjective(a[..n], b[..n], w);
      assert a == a[..n] + [a[n]] && b == b[..n] + [b[n]];
    }
  }

  lemma {:induction false} JoinedBound(ds: seq<nat>, w: nat)
    requires Digits(ds, w)
    ensures Joined(ds, w) < Pow2(Span(w, |ds|))
    decreases |ds|
  {
    if ds != [] {
      var n := |ds| - 1;
      assert Joined(ds, w) == Joined(ds[..n], w) * Pow2(w) + ds[n] && ds[n] < Pow2(w);
      assert Span(w, |ds|) == w + Span(w, n);
      JoinedBound(ds[..n], w);
      hide *;
      Pow2Sum(Span(w, n), w);
      MulStep(Joined(ds[..n], w), Pow2(Span(w, n)), Pow2(w));
    }
  }

  lemma {:induction false} SplitShr(x: nat, a: nat, b: nat, w: nat, r: nat)
    requires x == a * Pow2(w) + b && b < Pow2(w) && r <= w
    ensures Shr(x, w - r) == a * Pow2(r) + Shr(b, w - r) && Shr(b, w - r) < Pow2(r)
  {
    hide *;
    var p, s, low := Pow2(w - r), Shr(b, w - r), Low(b, w - r);
    ShrLow(b, w - r);
    ShrBound(b, w - r, w);
    Pow2Sum(r, w - r);
    Regroup(a, Pow2(r), p, s, low);
    QuotientOf(x, w - r, a * Pow2(r) + s, low);
  }

  lemma Regroup(a: nat, q: nat, p: nat, s: nat, low: nat)
    ensures a * (q * p) + (s * p + low) == (a * q + s) * p + low
  {
    assert a * (q * p) == a * q * p;
    Distributes(a * q, s, p);
  }

  lemma Distributes(x: nat, y: nat, p: nat)
    ensures (x + y) * p == x * p + y * p
  {
  }

  lemma {:induction false} SameParts(a: nat, b: nat, a': nat, b': nat, p: nat)
    requires b < p && b' < p
    ensures a * p + b == a' * p + b' <==> a == a' && b == b'
  {
    QuotientRange(a, b, a', p);
  }

  lemma {:induction false} JoinedFront(ds: seq<nat>, w: nat, k: nat)
    requires k < |ds|
    ensures Joined(ds[..k + 1], w) == Joined(ds[..k], w) * Pow2(w) + ds[k]
  {
    assert ds[..k + 1] == ds[..k] + [ds[k]];
    hide Joined, Pow2;
    JoinedStep(ds[..k], ds[k], w);
  }

  /** What is left of an address after its last `m` digits and `w - r` more bits are shifted out: its first `k`
      digits and the first `r` bits of the next. */
  lemma {:induction false} LeadingBits(ds: seq<nat>, w: nat, k: nat, r: nat, m: nat)
    requires Digits(ds, w) && k + 1 + m == |ds| && r <= w
    ensures Shr(Joined(ds, w), Span(w, m) + (w - r)) == Joined(ds[..k], w) * Pow2(r) + Shr(ds[k], w - r)
    ensures Shr(ds[k], w - r) < Pow2(r)
  {
    assert ds[k] < Pow2(w);
    hide *;
    FirstDigits(ds, w, m);
    assert |ds| - m == k + 1;
    JoinedFront(ds, w, k);
    SplitShr(Joined(ds[..k + 1], w), Joined(ds[..k], w), ds[k], w, r);
    ShrShr(Joined(ds, w), Span(w, m), w - r);
  }

  lemma {:induction false} ContainsIsSameShift(n: IpNet, ip: Ip, h: nat)
    requires ValidNet(n) && ValidIp(ip) && n.family == ip.family && h == Width(n.family) - n.prefix
    ensures Contains(n, ip) <==> Shr(ip.value, h) == Shr(n.addr, h)
  {
    hide Contains, Shr;
    ContainsIsCovers(n, ip);
  }

  lemma {:induction false} SameLeadingBits(ns: seq<nat>, gs: seq<nat>, w: nat, k: nat, r: nat, m: nat)
    requires Digits(ns, w) && Digits(gs, w) && k + 1 + m == |ns| == |gs| && r <= w
    ensures Shr(Joined(gs, w), Span(w, m) + (w - r)) == Shr(Joined(ns, w), Span(w, m) + (w - r)) <==>
              gs[..k] == ns[..k] && Shr(gs[k], w - r) == Shr(ns[k], w - r)
  {
    assert Digits(ns[..k], w) && Digits(gs[..k], w);
    hide *;
    LeadingBits(ns, w, k, r, m);
    LeadingBits(gs, w, k, r, m);
    JoinedInjective(gs[..k], ns[..k], w);
    SameParts(Joined(gs[..k], w), Shr(gs[k], w - r), Joined(ns[..k], w), Shr(ns[k], w - r), Pow2(r));
  }

  /** An address is in a network exactly when its first digits are the network's, and of the digit the prefix
      ends in, the bits before its end. */
  lemma {:induction false} PrefixTest(n: IpNet, ip: Ip, ns: seq<nat>, gs: seq<nat>, w: nat, k: nat, r: nat)
    requires Digits(ns, w) && Digits(gs, w) && k < |ns| == |gs| && r <= w && Span(w, |ns|) == Width(n.family)
    requires n.family == ip.family && n.addr == Joined(ns, w) && ip.value == Joined(gs, w) && n.prefix == Span(w, k) + r
    ensures n.prefix <= Width(n.family)
    ensures Contains(n, ip) <==> gs[..k] == ns[..k] && Shr(gs[k], w - r) == Shr(ns[k], w - r)
  {
    var m := |ns| - (k + 1);
    SpanSum(w, m, k + 1);
    assert Span(w, k + 1) == w + Span(w, k);
    WithinWidth(n, ip, ns, gs, w);
    hide *;
    SameLeadingBits(ns, gs, w, k, r, m);
    ContainsIsSameShift(n, ip, Span(w, m) + (w - r));
  }

  lemma {:induction false} WithinWidth(n: IpNet, ip: Ip, ns: seq<nat>, gs: seq<nat>, w: nat)
    requires Digits(ns, w) && Digits(gs, w) && |ns| == |gs| && Span(w, |ns|) == Width(n.family)
    requires n.family == ip.family && n.addr == Joined(ns, w) && ip.value == Joined(gs, w) && n.prefix <= Width(n.family)
    ensures ValidNet(n) && ValidIp(ip)
  {
    hide Pow2, Joined, Width, Digits, Span;
    JoinedBound(ns, w);
    JoinedBound(gs, w);
  }

  // ---------------------------------------------------------------- the lists, octet by octet

  ghost predicate Holds(n: IpNet, ip: Ip) { InRange(n) && Contains(n, ip) }

  ghost predicate Within(ns: seq<IpNet>, ip: Ip) { exists i :: 0 <= i < |ns| && Holds(ns[i], ip) }

  type Octet = x: nat | x < 256

  /** Four octets as one number. */
  function Dotted(a: Octet, b: Octet, c: Octet, d: Octet): nat { a * 0x100_0000 + b * 0x1_0000 + c * 0x100 + d }

  lemma {:induction false} FourJoined(a: Octet, b: Octet, c: Octet, d: Octet)
    ensures Joined([a, b, c, d], 8) == Dotted(a, b, c, d) && Digits([a, b, c, d], 8)
  {
    WordIsPow2();
    hide Pow2;
    assert [a, b, c, d] == [] + [a] + [b] + [c] + [d];
    JoinedStep([], a, 8);
    JoinedStep([] + [a], b, 8);
    JoinedStep([] + [a] + [b], c, 8);
    JoinedStep([] + [a] + [b] + [c], d, 8);
  }

  lemma SmallPowers()
    ensures Pow2(0) == 1 && Pow2(1) == 2 && Pow2(2) == 4 && Pow2(3) == 8 && Pow2(4) == 16
    ensures Pow2(5) == 32 && Pow2(6) == 64 && Pow2(7) == 128 && Pow2(8) == 256 && Pow2(9) == 512
  {
  }

  lemma {:induction false} ShiftIsQuotient(x: nat, m: nat, p: nat)
    requires p == Pow2(m)
    ensures Shr(x, m) == x / p
  {
    hide Pow2, Shr, Low;
    QuotientOf(x, m, x / p, x % p);
  }

  /** The network with these digits and this prefix, which ends `r` bits into digit `k`; `p` is what the bits of
      that digit after the prefix count to. */
  ghost predicate Matches(gs: seq<nat>, ns: seq<nat>, k: nat, p: nat)
    requires k < |gs| == |ns| && p > 0
  {
    gs[k] / p == ns[k] / p && forall i :: 0 <= i < k ==> gs[i] == ns[i]
  }

  lemma {:induction false} DigitTest(n: IpNet, ip: Ip, ns: seq<nat>, gs: seq<nat>, w: nat, k: nat, r: nat, p: nat)
    requires Digits(ns, w) && Digits(gs, w) && k < |ns| == |gs| && r <= w && w * |ns| == Width(n.family) && p == Pow2(w - r)
    requires n.family == ip.family && n.addr == Joined(ns, w) && ip.value == Joined(gs, w) && n.prefix == w * k + r
    ensures InRange(n) && (Contains(n, ip) <==> Matches(gs, ns, k, p))
  {
    assert InRange(n) == (n.prefix <= Width(n.family));
    assert Matches(gs, ns, k, p) <==> gs[k] / p == ns[k] / p && gs[..k] == ns[..k] by {
      assert forall i :: 0 <= i < k ==> gs[i] == gs[..k][i] && ns[i] == ns[..k][i];
    }
    hide *;
    SpanIsProduct(w, |ns|);
    SpanIsProduct(w, k);
    PrefixTest(n, ip, ns, gs, w, k, r);
    ShiftIsQuotient(gs[k], w - r, p);
    ShiftIsQuotient(ns[k], w - r, p);
  }

  /** The network `p.q.s.t` whose prefix ends `r` bits into octet `k`, and the address `a.b.c.d`. */
  lemma {:induction false} OctetTest(n: IpNet, p: Octet, q: Octet, s: Octet, t: Octet, k: nat, r: nat, m: nat,
                                     a: Octet, b: Octet, c: Octet, d: Octet)
    requires n == IpNet(V4, Dotted(p, q, s, t), 8 * k + r) && k < 4 && r <= 8 && m == Pow2(8 - r)
    ensures Holds(n, Ip(V4, Dotted(a, b, c, d))) <==>
              && (k > 0 ==> a == p) && (k > 1 ==> b == q) && (k > 2 ==> c == s)
              && (if k == 0 then a / m == p / m else if k == 1 then b / m == q / m else if k == 2 then c / m == s / m else d / m == t / m)
  {
    hide Contains, Digits, Joined, Dotted, Pow2;
    FourJoined(p, q, s, t);
    FourJoined(a, b, c, d);
    var gs, ns := [a, b, c, d], [p, q, s, t];
    DigitTest(n, Ip(V4, Dotted(a, b, c, d)), ns, gs, 8, k, r, m);
    assert gs[0] == a && gs[1] == b && gs[2] == c && gs[3] == d && ns[0] == p && ns[1] == q && ns[2] == s && ns[3] == t;
  }

  lemma {:induction false} FirstOctet(n: IpNet, p: Octet, a: Octet, b: Octet, c: Octet, d: Octet)
    requires n == IpNet(V4, p * 0x100_0000, 8)
    ensures Holds(n, Ip(V4, Dotted(a, b, c, d))) <==> a == p
  {
    hide Holds, Pow2;
    SmallPowers();
    OctetTest(n, p, 0, 0, 0, 0, 8, 1, a, b, c, d);
  }

  lemma OneOfSix(ns: seq<IpNet>, ip: Ip)
    requires |ns| == 6
    ensures Within(ns, ip) <==> Holds(ns[0], ip) || Holds(ns[1], ip) || Holds(ns[2], ip) ||
                                Holds(ns[3], ip) || Holds(ns[4], ip) || Holds(ns[5], ip)
  {
    hide Holds;
  }

  /** Which IPv4 addresses are private, by RFC 1918. */
  lemma {:induction false} PrivateByOctets(a: Octet, b: Octet, c: Octet, d: Octet)
    ensures Within(SourceLists().rfc1918, Ip(V4, Dotted(a, b, c, d))) <==>
              a == 10 || (a == 172 && 16 <= b < 32) || (a == 192 && b == 168)
  {
    hide Holds, Pow2;
    SmallPowers();
    OctetTest(RFC1918[0], 10, 0, 0, 0, 0, 8, 1, a, b, c, d);
    OctetTest(RFC1918[1], 172, 16, 0, 0, 1, 4, 16, a, b, c, d);
    OctetTest(RFC1918[2], 192, 168, 0, 0, 1, 8, 1, a, b, c, d);
  }

  lemma {:induction false} LowBogons(a: Octet, b: Octet, c: Octet, d: Octet)
    ensures Within(BOGONS_LOW, Ip(V4, Dotted(a, b, c, d))) <==>
              || a == 0 || (a == 100 && 64 <= b < 128) || (a == 169 && b == 254)
              || (a == 192 && b == 0 && (c == 0 || c == 2)) || (a == 192 && b == 88 && c == 99)
  {
    hide Holds, Pow2, Within;
    OneOfSix(BOGONS_LOW, Ip(V4, Dotted(a, b, c, d)));
    SmallPowers();
    FirstOctet(BOGONS_LOW[0], 0, a, b, c, d);
    OctetTest(BOGONS_LOW[1], 100, 64, 0, 0, 1, 2, 64, a, b, c, d);
    OctetTest(BOGONS_LOW[2], 169, 254, 0, 0, 1, 8, 1, a, b, c, d);
    OctetTest(BOGONS_LOW[3], 192, 0, 0, 0, 2, 8, 1, a, b, c, d);
    OctetTest(BOGONS_LOW[4], 192, 0, 2, 0, 2, 8, 1, a, b, c, d);
    OctetTest(BOGONS_LOW[5], 192, 88, 99, 0, 2, 8, 1, a, b, c, d);
  }

  lemma {:induction false} HighBogons(a: Octet, b: Octet, c: Octet, d: Octet)
    ensures Within(BOGONS_HIGH, Ip(V4, Dotted(a, b, c, d))) <==>
              || (a == 198 && (b == 18 || b == 19)) || (a == 198 && b == 51 && c == 100)
              || (a == 203 && b == 0 && c == 113) || a >= 224
  {
    hide Holds, Pow2, Within;
    OneOfSix(BOGONS_HIGH, Ip(V4, Dotted(a, b, c, d)));
    SmallPowers();
    OctetTest(BOGONS_HIGH[0], 198, 18, 0, 0, 1, 7, 2, a, b, c, d);
    OctetTest(BOGONS_HIGH[1], 198, 51, 100, 0, 2, 8, 1, a, b, c, d);
    OctetTest(BOGONS_HIGH[2], 203, 0, 113, 0, 2, 8, 1, a, b, c, d);
    OctetTest(BOGONS_HIGH[3], 224, 0, 0, 0, 0, 4, 16, a, b, c, d);
    OctetTest(BOGONS_HIGH[4], 240, 0, 0, 0, 0, 4, 16, a, b, c, d);
    OctetTest(BOGONS_HIGH[5], 255, 255, 255, 255, 3, 8, 1, a, b, c, d);
  }

  lemma WithinEither(ns: seq<IpNet>, ms: seq<IpNet>, ip: Ip)
    ensures Within(ns + ms, ip) <==> Within(ns, ip) || Within(ms, ip)
  {
    hide Holds;
    forall i | 0 <= i < |ns| ensures (ns + ms)[i] == ns[i] { }
    forall i | 0 <= i < |ms| ensures (ns + ms)[|ns| + i] == ms[i] { }
  }

  lemma {:induction false} OtherFamily(ns: seq<IpNet>, ip: Ip)
    requires forall i :: 0 <= i < |ns| ==> ns[i].family != ip.family
    ensures !Within(ns, ip)
  {
  }

  /** Which IPv4 addresses are bogons: this network, shared and link-local space, the protocol and documentation
      blocks, the 6to4 anycast and benchmark blocks, and everything from 224.0.0.0 on. */
  lemma {:induction false} BogonsByOctets(a: Octet, b: Octet, c: Octet, d: Octet)
    ensures Within(SourceLists().bogons, Ip(V4, Dotted(a, b, c, d))) <==>
              || a == 0 || (a == 100 && 64 <= b < 128) || (a == 169 && b == 254)
              || (a == 192 && b == 0 && (c == 0 || c == 2)) || (a == 192 && b == 88 && c == 99)
              || (a == 198 && (b == 18 || b == 19)) || (a == 198 && b == 51 && c == 100)
              || (a == 203 && b == 0 && c == 113) || a >= 224
  {
    var ip := Ip(V4, Dotted(a, b, c, d));
    OtherFamily(BOGONS_V6, ip);
    hide BOGONS_LOW, BOGONS_HIGH, BOGONS_V6, Within, Dotted;
    LowBogons(a, b, c, d);
    HighBogons(a, b, c, d);
    WithinEither(BOGONS_LOW + BOGONS_HIGH, BOGONS_V6, ip);
    WithinEither(BOGONS_LOW, BOGONS_HIGH, ip);
  }

  /** Which IPv4 addresses are loopback. */
  lemma {:induction false} LoopbackByOctets(a: Octet, b: Octet, c: Octet, d: Octet)
    ensures Within(SourceLists().loopback, Ip(V4, Dotted(a, b, c, d))) <==> a == 127
  {
    hide Pow2, Network, Broadcast;
    SmallPowers();
    OctetTest(LOOPBACK[0], 127, 0, 0, 0, 0, 8, 1, a, b, c, d);
  }

  // ---------------------------------------------------------------- and group by group

  /** Eight groups of sixteen bits. */
  ghost predicate Groups(gs: seq<nat>) { |gs| == 8 && forall i :: 0 <= i < 8 ==> gs[i] < 0x1_0000 }

  lemma {:induction false} GroupTest(n: IpNet, ns: seq<nat>, gs: seq<nat>, k: nat, r: nat, m: nat)
    requires Groups(ns) && Groups(gs) && n == IpNet(V6, Joined(ns, 16), 16 * k + r) && k < 8 && r <= 16 && m == Pow2(16 - r)
    ensures Holds(n, Ip(V6, Joined(gs, 16))) <==> Matches(gs, ns, k, m)
  {
    WordIsPow2();
    hide Contains, Joined, Matches, Pow2;
    DigitTest(n, Ip(V6, Joined(gs, 16)), ns, gs, 16, k, r, m);
  }

  lemma {:induction false} EightJoined(ns: seq<nat>)
    requires Groups(ns)
    ensures Joined(ns, 16) ==
              ((((((ns[0] * 0x1_0000 + ns[1]) * 0x1_0000 + ns[2]) * 0x1_0000 + ns[3]) * 0x1_0000 + ns[4]) * 0x1_0000 + ns[5])
               * 0x1_0000 + ns[6]) * 0x1_0000 + ns[7]
  {
    WordIsPow2();
    hide Pow2, Joined;
    assert ns[..8] == ns && ns[..0] == [];
    assert Joined([], 16) == 0 by { NothingJoined(); }
    JoinedFront(ns, 16, 0);
    JoinedFront(ns, 16, 1);
    JoinedFront(ns, 16, 2);
    JoinedFront(ns, 16, 3);
    JoinedFront(ns, 16, 4);
    JoinedFront(ns, 16, 5);
    JoinedFront(ns, 16, 6);
    JoinedFront(ns, 16, 7);
  }

  lemma NothingJoined()
    ensures Joined([], 16) == 0
  {
  }

  /** Which IPv6 addresses are loopback: `::1` alone. */
  lemma {:induction false} LoopbackByGroups(gs: seq<nat>)
    requires Groups(gs)
    ensures Within(SourceLists().loopback, Ip(V6, Joined(gs, 16))) <==> gs == [0, 0, 0, 0, 0, 0, 0, 1]
  {
    hide Pow2, Joined, Network, Broadcast;
    SmallPowers();
    var one := [0, 0, 0, 0, 0, 0, 0, 1];
    EightJoined(one);
    GroupTest(LOOPBACK[1], one, gs, 7, 16, 1);
  }

  /** `ns` is a network of the list, written in groups. */
  lemma {:induction false} WrittenInGroups(n: IpNet, ns: seq<nat>, gs: seq<nat>, x: nat, k: nat, r: nat, m: nat)
    requires Groups(ns) && Groups(gs) && n == IpNet(V6, x, 16 * k + r) && k < 8 && r <= 16 && m == Pow2(16 - r)
    requires x == ((((((ns[0] * 0x1_0000 + ns[1]) * 0x1_0000 + ns[2]) * 0x1_0000 + ns[3]) * 0x1_0000 + ns[4]) * 0x1_0000 + ns[5])
                   * 0x1_0000 + ns[6]) * 0x1_0000 + ns[7]
    ensures Holds(n, Ip(V6, Joined(gs, 16))) <==> Matches(gs, ns, k, m)
  {
    hide *;
    EightJoined(ns);
    GroupTest(n, ns, gs, k, r, m);
  }

  lemma {:induction false} NarrowV6(gs: seq<nat>)
    requires Groups(gs)
    ensures var ip := Ip(V6, Joined(gs, 16));
            && (Holds(BOGONS_V6[0], ip) <==> gs == [0, 0, 0, 0, 0, 0, 0, 0])
            && (Holds(BOGONS_V6[1], ip) <==> gs[..6] == [0, 0, 0, 0, 0, 0xffff])
  {
    hide Holds, Pow2, Joined;
    SmallPowers();
    WrittenInGroups(BOGONS_V6[0], [0, 0, 0, 0, 0, 0, 0, 0], gs, 0, 7, 16, 1);
    WrittenInGroups(BOGONS_V6[1], [0, 0, 0, 0, 0, 0xffff, 0, 0], gs, 0xffff_0000_0000, 5, 16, 1);
  }

  lemma {:induction false} MiddleV6(gs: seq<nat>)
    requires Groups(gs)
    ensures var ip := Ip(V6, Joined(gs, 16));
            && (Holds(BOGONS_V6[2], ip) <==> gs[..4] == [0x100, 0, 0, 0])
            && (Holds(BOGONS_V6[3], ip) <==> gs[..2] == [0x2001, 0xdb8])
  {
    hide Holds, Pow2, Joined;
    SmallPowers();
    WrittenInGroups(BOGONS_V6[2], [0x100, 0, 0, 0, 0, 0, 0, 0], gs, BOGONS_V6[2].addr, 3, 16, 1);
    WrittenInGroups(BOGONS_V6[3], [0x2001, 0xdb8, 0, 0, 0, 0, 0, 0], gs, BOGONS_V6[3].addr, 1, 16, 1);
  }

  lemma {:induction false} WideV6(gs: seq<nat>)
    requires Groups(gs)
    ensures var ip := Ip(V6, Joined(gs, 16));
            && (Holds(BOGONS_V6[4], ip) <==> 0xfc00 <= gs[0] < 0xfe00)
            && (Holds(BOGONS_V6[5], ip) <==> 0xfe80 <= gs[0] < 0xfec0)
            && (Holds(BOGONS_V6[6], ip) <==> 0xff00 <= gs[0])
  {
    hide Holds, Pow2, Joined;
    SmallPowers();
    WrittenInGroups(BOGONS_V6[4], [0xfc00, 0, 0, 0, 0, 0, 0, 0], gs, BOGONS_V6[4].addr, 0, 7, 512);
    WrittenInGroups(BOGONS_V6[5], [0xfe80, 0, 0, 0, 0, 0, 0, 0], gs, BOGONS_V6[5].addr, 0, 10, 64);
    WrittenInGroups(BOGONS_V6[6], [0xff00, 0, 0, 0, 0, 0, 0, 0], gs, BOGONS_V6[6].addr, 0, 8, 256);
  }

  lemma OneOfSeven(ns: seq<IpNet>, ip: Ip)
    requires |ns| == 7
    ensures Within(ns, ip) <==> Holds(ns[0], ip) || Holds(ns[1], ip) || Holds(ns[2], ip) || Holds(ns[3], ip) ||
                                Holds(ns[4], ip) || Holds(ns[5], ip) || Holds(ns[6], ip)
  {
    hide Holds;
  }

  /** Which IPv6 addresses are bogons: the unspecified one, IPv4-mapped ones, the discard and documentation
      blocks, unique local, link-local and multicast addresses. */
  lemma {:induction false} BogonsByGroups(gs: seq<nat>)
    requires Groups(gs)
    ensures Within(SourceLists().bogons, Ip(V6, Joined(gs, 16))) <==>
              || gs == [0, 0, 0, 0, 0, 0, 0, 0] || gs[..6] == [0, 0, 0, 0, 0, 0xffff] || gs[..4] == [0x100, 0, 0, 0]
              || gs[..2] == [0x2001, 0xdb8] || 0xfc00 <= gs[0] < 0xfe00 || 0xfe80 <= gs[0] < 0xfec0 || 0xff00 <= gs[0]
  {
    var ip := Ip(V6, Joined(gs, 16));
    OtherFamily(BOGONS_LOW, ip);
    OtherFamily(BOGONS_HIGH, ip);
    assert |BOGONS_V6| == 7;
    hide BOGONS_LOW, BOGONS_HIGH, BOGONS_V6, Within, Joined, Holds;
    NarrowV6(gs);
    MiddleV6(gs);
    WideV6(gs);
    OneOfSeven(BOGONS_V6, ip);
    WithinEither(BOGONS_LOW + BOGONS_HIGH, BOGONS_V6, ip);
    WithinEither(BOGONS_LOW, BOGONS_HIGH, ip);
  }

  /** No IPv6 address is private in the sense of RFC 1918. */
  lemma {:induction false} NoPrivateV6(gs: seq<nat>)
    requires Groups(gs)
    ensures !Within(SourceLists().rfc1918, Ip(V6, Joined(gs, 16)))
  {
    OtherFamily(RFC1918, Ip(V6, Joined(gs, 16)));
  }

  lemma {:induction false} ExcludedIff(f: Filters, ls: RangeLists, ip: Ip)
    requires InRangeLists(ls)
    ensures Excluded(f, ls, ip) <==>
              (f.rfc1918 && Within(ls.rfc1918, ip)) || (f.bogons && Within(ls.bogons, ip)) || (f.loopback && Within(ls.loopback, ip))
  {
    hide Contains;
    if e :| Listed(e, f, ls) && Contains(e, ip) {
      assert Holds(e, ip);
      if e in ls.rfc1918 { Member(ls.rfc1918, e, ip); }
      if e in ls.bogons { Member(ls.bogons, e, ip); }
      if e in ls.loopback { Member(ls.loopback, e, ip); }
    }
  }

  lemma Member(ns: seq<IpNet>, e: IpNet, ip: Ip)
    requires e in ns && Holds(e, ip)
    ensures Within(ns, ip)
  {
    hide Holds;
    var i :| 0 <= i < |ns| && ns[i] == e;
  }

  /** What the filters keep out of the feed, in octets: for every combination of filters, an IPv4 address is
      excluded exactly when it is private, reserved or loopback and that filter is on; and then no network of
      the snapshot publishes it. */
  lemma {:induction false} ExcludedByOctets(ns: seq<IpNet>, f: Filters, a: Octet, b: Octet, c: Octet, d: Octet)
    requires ValidNets(ns)
    ensures ValidLists(SourceLists())
    ensures Excluded(f, SourceLists(), Ip(V4, Dotted(a, b, c, d))) <==>
              || (f.rfc1918 && (a == 10 || (a == 172 && 16 <= b < 32) || (a == 192 && b == 168)))
              || (f.loopback && a == 127)
              || (f.bogons && (|| a == 0 || (a == 100 && 64 <= b < 128) || (a == 169 && b == 254)
                               || (a == 192 && b == 0 && (c == 0 || c == 2)) || (a == 192 && b == 88 && c == 99)
                               || (a == 198 && (b == 18 || b == 19)) || (a == 198 && b == 51 && c == 100)
                               || (a == 203 && b == 0 && c == 113) || a >= 224))
    ensures Excluded(f, SourceLists(), Ip(V4, Dotted(a, b, c, d))) ==>
              !Published(ns, f, SourceLists(), Ip(V4, Dotted(a, b, c, d)))
  {
    var ip := Ip(V4, Dotted(a, b, c, d));
    AddressSpace();
    hide Pow2, Contains, RFC1918, LOOPBACK, BOGONS_LOW, BOGONS_HIGH, BOGONS_V6, Within, Excluded, Published, SourceLists;
    SourceListsValid();
    PrivateByOctets(a, b, c, d);
    BogonsByOctets(a, b, c, d);
    LoopbackByOctets(a, b, c, d);
    ExcludedIff(f, SourceLists(), ip);
    if Excluded(f, SourceLists(), ip) { NothingExcludedIsPublished(ns, f, SourceLists(), ip); }
  }
}
