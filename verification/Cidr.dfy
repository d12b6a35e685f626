/** Networks and addresses of both families, and what `ipnet`'s `network`, `broadcast` and `contains`
    mean. A network's host bits may be set; its block forgets them. */
module Cidr {
  import opened Bits

  datatype Family = V4 | V6

  function Width(f: Family): nat { if f.V4? then 32 else 128 }

  datatype Ip = Ip(family: Family, value: nat)

  ghost predicate ValidIp(ip: Ip) { ip.value < Pow2(Width(ip.family)) }

  datatype IpNet = IpNet(family: Family, addr: nat, prefix: nat)

  ghost predicate ValidNet(n: IpNet) { n.prefix <= Width(n.family) && n.addr < Pow2(Width(n.family)) }

  /** The number of host bits. */
  function HostBits(n: IpNet): nat
    requires n.prefix <= Width(n.family)
  {
    Width(n.family) - n.prefix
  }

  function Network(n: IpNet): Ip
    requires n.prefix <= Width(n.family)
  {
    Ip(n.family, n.addr - Low(n.addr, HostBits(n)))
  }

  function Broadcast(n: IpNet): Ip
    requires n.prefix <= Width(n.family)
  {
    Ip(n.family, Network(n).value + Pow2(HostBits(n)) - 1)
  }

  predicate Contains(n: IpNet, ip: Ip)
    requires n.prefix <= Width(n.family)
  {
    n.family == ip.family && Network(n).value <= ip.value <= Broadcast(n).value
  }

  // ---------------------------------------------------------------- blocks

  /** The addresses of one family whose first `depth` bits spell `index`. */
  datatype Block = Block(family: Family, depth: nat, index: nat)

  ghost predicate ValidBlock(b: Block) { b.depth <= Width(b.family) && b.index < Pow2(b.depth) }

  ghost predicate Covers(b: Block, ip: Ip)
    requires b.depth <= Width(b.family)
  {
    b.family == ip.family && ValidIp(ip) && Shr(ip.value, Width(b.family) - b.depth) == b.index
  }

  /** `inner` lies inside `outer`. */
  predicate Encloses(outer: Block, inner: Block) {
    outer.family == inner.family && outer.depth <= inner.depth &&
    Shr(inner.index, inner.depth - outer.depth) == outer.index
  }

  function BlockOf(n: IpNet): Block
    requires n.prefix <= Width(n.family)
  {
    Block(n.family, n.prefix, Shr(n.addr, HostBits(n)))
  }

  /** The block written as a network without host bits. */
  function NetOf(b: Block): IpNet
    requires b.depth <= Width(b.family)
  {
    IpNet(b.family, b.index * Pow2(Width(b.family) - b.depth), b.depth)
  }

  // ---------------------------------------------------------------- arithmetic of prefixes

  lemma MulStep(q: nat, q': nat, p: nat)
    requires q < q'
    ensures q * p + p <= q' * p
  {
    var d := q' - q - 1;
    assert q' == q + 1 + d;
    assert q' * p == q * p + p + d * p;
  }

  lemma QuotientRange(q: nat, r: nat, q': nat, p: nat)
    requires r < p
    ensures q' * p <= q * p + r <= q' * p + p - 1 <==> q == q'
  {
    if q < q' {
      MulStep(q, q', p);
    } else if q' < q {
      MulStep(q', q, p);
    }
  }

  lemma QuotientBound(q: nat, r: nat, p: nat, m: nat)
    requires p > 0 && q * p + r < m * p
    ensures q < m
  {
    if m < q { MulStep(m, q, p); }
  }

  /** A shift keeps a value inside the correspondingly narrower range. */
  lemma ShrBound(x: nat, n: nat, w: nat)
    requires n <= w && x < Pow2(w)
    ensures Shr(x, n) < Pow2(w - n)
  {
    ShrLow(x, n);
    Pow2Sum(w - n, n);
    QuotientBound(Shr(x, n), Low(x, n), Pow2(n), Pow2(w - n));
  }

  lemma {:induction false} ShrMultiple(q: nat, n: nat)
    ensures Shr(q * Pow2(n), n) == q
    decreases n
  {
    if n > 0 {
      assert q * Pow2(n) == 2 * (q * Pow2(n - 1));
      ShrMultiple(q, n - 1);
    }
  }

  lemma MultipleBound(q: nat, n: nat, w: nat)
    requires n <= w && q < Pow2(w - n)
    ensures q * Pow2(n) < Pow2(w)
  {
    Pow2Sum(w - n, n);
    MulStep(q, Pow2(w - n), Pow2(n));
  }

  /** The interval test and the prefix test are the same test. */
  lemma ContainsIsCovers(n: IpNet, ip: Ip)
    requires ValidNet(n) && ValidIp(ip)
    ensures Contains(n, ip) <==> Covers(BlockOf(n), ip)
  {
    var h := HostBits(n);
    ShrLow(n.addr, h);
    ShrLow(ip.value, h);
    QuotientRange(Shr(ip.value, h), Low(ip.value, h), Shr(n.addr, h), Pow2(h));
  }

  lemma BlockOfValid(n: IpNet)
    requires ValidNet(n)
    ensures ValidBlock(BlockOf(n))
  {
    ShrBound(n.addr, HostBits(n), Width(n.family));
  }

  lemma NetOfValid(b: Block)
    requires ValidBlock(b)
    ensures ValidNet(NetOf(b)) && BlockOf(NetOf(b)) == b
    ensures Network(NetOf(b)) == Ip(b.family, NetOf(b).addr)
  {
    var h := Width(b.family) - b.depth;
    MultipleBound(b.index, h, Width(b.family));
    ShrMultiple(b.index, h);
    ShrLow(b.index * Pow2(h), h);
  }

  lemma NetworkFirst(n: IpNet)
    requires ValidNet(n)
    ensures ValidIp(Network(n)) && Covers(BlockOf(n), Network(n))
  {
    var h := HostBits(n);
    ShrLow(n.addr, h);
    ShrMultiple(Shr(n.addr, h), h);
  }

  // ---------------------------------------------------------------- nested or disjoint

  /** A block covers exactly the addresses of the blocks that enclose it, and more. */
  lemma EnclosesCovers(outer: Block, inner: Block, ip: Ip)
    requires ValidBlock(outer) && ValidBlock(inner)
    requires Covers(inner, ip)
    ensures Encloses(outer, inner) <==> outer.depth <= inner.depth && Covers(outer, ip)
  {
    if outer.family == inner.family && outer.depth <= inner.depth {
      var w := Width(inner.family);
      ShrShr(ip.value, w - inner.depth, inner.depth - outer.depth);
    }
  }

  /** Two blocks with a common address are nested. */
  lemma NestedOrDisjoint(b: Block, c: Block, ip: Ip)
    requires ValidBlock(b) && ValidBlock(c)
    requires Covers(b, ip) && Covers(c, ip)
    ensures Encloses(b, c) || Encloses(c, b)
    ensures b.depth == c.depth ==> b == c
  {
    if b.depth <= c.depth { EnclosesCovers(b, c, ip); }
    if c.depth <= b.depth { EnclosesCovers(c, b, ip); }
  }

  lemma EnclosesTransitive(a: Block, b: Block, c: Block)
    requires Encloses(a, b) && Encloses(b, c)
    ensures Encloses(a, c)
  {
    ShrShr(c.index, c.depth - b.depth, b.depth - a.depth);
  }

  lemma EnclosesAntisymmetric(a: Block, b: Block)
    requires Encloses(a, b) && Encloses(b, a)
    ensures a == b
  {
  }
}
