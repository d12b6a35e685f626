/** The published feed: filters (src/ipfilter.rs), aggregation, and the body built by src/feed.rs. */
module Feed {
  import opened Bits
  import opened Cidr
  import opened Collections
  import opened Aggregate
  import opened FeedText

  // ---------------------------------------------------------------- the three range lists

  /** The three lists the filters consult. */
  datatype RangeLists = RangeLists(rfc1918: seq<IpNet>, bogons: seq<IpNet>, loopback: seq<IpNet>)

  const RFC1918: seq<IpNet> := [
    IpNet(V4, 0x0a00_0000, 8), IpNet(V4, 0xac10_0000, 12), IpNet(V4, 0xc0a8_0000, 16)]

  const LOOPBACK: seq<IpNet> := [IpNet(V4, 0x7f00_0000, 8), IpNet(V6, 1, 128)]

  const BOGONS_LOW: seq<IpNet> := [
    IpNet(V4, 0x0000_0000, 8), IpNet(V4, 0x6440_0000, 10), IpNet(V4, 0xa9fe_0000, 16),
    IpNet(V4, 0xc000_0000, 24), IpNet(V4, 0xc000_0200, 24), IpNet(V4, 0xc058_6300, 24)]

  const BOGONS_HIGH: seq<IpNet> := [
    IpNet(V4, 0xc612_0000, 15), IpNet(V4, 0xc633_6400, 24), IpNet(V4, 0xcb00_7100, 24),
    IpNet(V4, 0xe000_0000, 4), IpNet(V4, 0xf000_0000, 4), IpNet(V4, 0xffff_ffff, 32)]

  const BOGONS_V6: seq<IpNet> := [
    IpNet(V6, 0, 128), IpNet(V6, 0xffff_0000_0000, 96), IpNet(V6, 0x100_0000_0000_0000_0000_0000_0000_0000, 64),
    IpNet(V6, 0x2001_0db8_0000_0000_0000_0000_0000_0000, 32), IpNet(V6, 0xfc00_0000_0000_0000_0000_0000_0000_0000, 7),
    IpNet(V6, 0xfe80_0000_0000_0000_0000_0000_0000_0000, 10), IpNet(V6, 0xff00_0000_0000_0000_0000_0000_0000_0000, 8)]

  /** The lists of the source. */
  function SourceLists(): RangeLists { RangeLists(RFC1918, BOGONS_LOW + BOGONS_HIGH + BOGONS_V6, LOOPBACK) }

  ghost predicate ValidNets(ns: seq<IpNet>) { forall n :: n in ns ==> ValidNet(n) }

  ghost predicate ValidLists(ls: RangeLists) { ValidNets(ls.rfc1918) && ValidNets(ls.bogons) && ValidNets(ls.loopback) }

  lemma AddressSpace()
    ensures Pow2(32) == 0x1_0000_0000
    ensures Pow2(128) == 0x1_0000_0000_0000_0000_0000_0000_0000_0000
  {
    WordIsPow2();
    Pow2Sum(32, 32);
    Pow2Sum(64, 64);
  }

  /** Every literal of the source is a well-formed network. */
  lemma SourceListsValid()
    ensures ValidLists(SourceLists())
  {
    hide RFC1918, LOOPBACK, BOGONS_LOW, BOGONS_HIGH, BOGONS_V6, ValidNet, AllFit;
    Rfc1918Fit();
    LoopbackFit();
    BogonsLowFit();
    BogonsHighFit();
    BogonsV6Fit();
    FitsAreValid(RFC1918);
    FitsAreValid(LOOPBACK);
    FitsAreValid(BOGONS_LOW);
    FitsAreValid(BOGONS_HIGH);
    FitsAreValid(BOGONS_V6);
  }

  lemma Rfc1918Fit()
    ensures AllFit(RFC1918)
  {
  }

  lemma LoopbackFit()
    ensures AllFit(LOOPBACK)
  {
  }

  lemma BogonsLowFit()
    ensures AllFit(BOGONS_LOW)
  {
  }

  lemma BogonsHighFit()
    ensures AllFit(BOGONS_HIGH)
  {
  }

  lemma BogonsV6Fit()
    ensures AllFit(BOGONS_V6)
  {
  }

  /** The bounds `ValidNet` compares with, as numbers. */
  predicate FitsWidth(n: IpNet) {
    if n.family.V4? then n.prefix <= 32 && n.addr < 0x1_0000_0000
    else n.prefix <= 128 && n.addr < 0x1_0000_0000_0000_0000_0000_0000_0000_0000
  }

  predicate AllFit(ns: seq<IpNet>) { forall i :: 0 <= i < |ns| ==> FitsWidth(ns[i]) }

  lemma FitsAreValid(ns: seq<IpNet>)
    requires AllFit(ns)
    ensures ValidNets(ns)
  {
    AddressSpace();
    hide Pow2;
    forall n | n in ns ensures ValidNet(n) {
      var i :| 0 <= i < |ns| && ns[i] == n;
    }
  }

  // ---------------------------------------------------------------- the overlap test

  /** Whether a network's own prefix is in range, which is all the membership tests need. */
  predicate InRange(n: IpNet) { n.prefix <= Width(n.family) }

  predicate Overlaps(candidate: IpNet, ex: IpNet)
    requires InRange(candidate) && InRange(ex)
  {
    Contains(ex, Network(candidate)) || Contains(candidate, Network(ex))
  }

  predicate OverlapsAny(candidate: IpNet, excluded: seq<IpNet>)
    requires InRange(candidate) && InRangeAll(excluded)
  {
    exists ex :: ex in excluded && Overlaps(candidate, ex)
  }

  ghost predicate ShareAddress(m: IpNet, n: IpNet)
    requires InRange(m) && InRange(n)
  {
    exists ip :: ValidIp(ip) && Contains(m, ip) && Contains(n, ip)
  }

  /** Looking at the two network addresses decides whether the two networks meet at all. */
  lemma OverlapExact(m: IpNet, n: IpNet)
    requires ValidNet(m) && ValidNet(n)
    ensures Overlaps(m, n) <==> ShareAddress(m, n)
  {
    NetworkFirst(m);
    NetworkFirst(n);
    ContainsIsCovers(m, Network(m));
    ContainsIsCovers(n, Network(n));
  }

  // ---------------------------------------------------------------- filtering and aggregation

  datatype Filters = Filters(rfc1918: bool, bogons: bool, loopback: bool)

  predicate InRangeAll(ns: seq<IpNet>) { forall n :: n in ns ==> InRange(n) }

  predicate InRangeLists(ls: RangeLists) {
    InRangeAll(ls.rfc1918) && InRangeAll(ls.bogons) && InRangeAll(ls.loopback)
  }

  predicate Keeps(n: IpNet, f: Filters, ls: RangeLists)
    requires InRange(n) && InRangeLists(ls)
  {
    && (!f.rfc1918 || !OverlapsAny(n, ls.rfc1918))
    && (!f.bogons || !OverlapsAny(n, ls.bogons))
    && (!f.loopback || !OverlapsAny(n, ls.loopback))
  }

  /** `e` is in a list whose filter is enabled. */
  predicate Listed(e: IpNet, f: Filters, ls: RangeLists) {
    (f.rfc1918 && e in ls.rfc1918) || (f.bogons && e in ls.bogons) || (f.loopback && e in ls.loopback)
  }

  function Survivors(ns: seq<IpNet>, f: Filters, ls: RangeLists): (r: seq<IpNet>)
    requires InRangeAll(ns) && InRangeLists(ls)
    ensures forall n :: n in r <==> n in ns && Keeps(n, f, ls)
  {
    if ns == [] then [] else
      var rest := Survivors(ns[1..], f, ls);
      assert ns == [ns[0]] + ns[1..];
      if Keeps(ns[0], f, ls) then [ns[0]] + rest else rest
  }

  function Blocks(ns: seq<IpNet>): (bs: seq<Block>)
    requires InRangeAll(ns)
    ensures |bs| == |ns|
    ensures forall i :: 0 <= i < |ns| ==> InRange(ns[i]) && bs[i] == BlockOf(ns[i])
  {
    if ns == [] then [] else
      assert ns[0] in ns;
      [BlockOf(ns[0])] + Blocks(ns[1..])
  }

  /** `filter_and_aggregate`, its result given as blocks (networks without host bits). */
  function FilterAndAggregate(ns: seq<IpNet>, f: Filters, ls: RangeLists): seq<Block>
    requires InRangeAll(ns) && InRangeLists(ls)
  {
    AggregateBlocks(Blocks(Survivors(ns, f, ls)))
  }

  /** Some network that passes the filters contains `ip`. */
  ghost predicate Published(ns: seq<IpNet>, f: Filters, ls: RangeLists, ip: Ip)
    requires InRangeAll(ns) && InRangeLists(ls)
  {
    exists n :: n in ns && Keeps(n, f, ls) && Contains(n, ip)
  }

  /** `ip` lies in a list whose filter is enabled. */
  ghost predicate Excluded(f: Filters, ls: RangeLists, ip: Ip)
    requires InRangeLists(ls)
  {
    exists e :: Listed(e, f, ls) && Contains(e, ip)
  }

  /** What counts as an aggregation of `ns` under `f`: canonical, each block once, covering exactly the
      published addresses. Any aggregation meeting this contract will do. */
  ghost predicate IsFeed(ns: seq<IpNet>, f: Filters, ls: RangeLists, out: seq<Block>)
    requires InRangeAll(ns) && InRangeLists(ls)
  {
    && Canonical(Elems(out)) && Distinct(out)
    && forall ip :: ValidIp(ip) ==> (Covered(Elems(out), ip) <==> Published(ns, f, ls, ip))
  }

  lemma {:induction false} BlocksCover(ns: seq<IpNet>, ip: Ip)
    requires ValidNets(ns) && ValidIp(ip)
    ensures AllValid(Elems(Blocks(ns)))
    ensures Covered(Elems(Blocks(ns)), ip) <==> exists n :: n in ns && Contains(n, ip)
  {
    var bs := Blocks(ns);
    forall n | n in ns ensures ValidBlock(BlockOf(n)) && (Contains(n, ip) <==> Covers(BlockOf(n), ip)) {
      BlockOfValid(n);
      ContainsIsCovers(n, ip);
    }
    forall b | b in Elems(bs) ensures exists n :: n in ns && b == BlockOf(n) {
      var i :| 0 <= i < |bs| && bs[i] == b;
      assert ns[i] in ns;
    }
    forall n | n in ns ensures BlockOf(n) in Elems(bs) {
      var i :| 0 <= i < |ns| && ns[i] == n;
      assert bs[i] in bs;
    }
  }

  lemma FilterAndAggregateContract(ns: seq<IpNet>, f: Filters, ls: RangeLists)
    requires ValidNets(ns) && ValidLists(ls)
    ensures IsFeed(ns, f, ls, FilterAndAggregate(ns, f, ls))
  {
    var kept := Survivors(ns, f, ls);
    var bs := Blocks(kept);
    var out := AggregateBlocks(bs);
    AddressSpace();
    BlocksCover(kept, Ip(V4, 0));
    AggregateContract(bs);
    forall ip | ValidIp(ip) ensures Covered(Elems(out), ip) <==> Published(ns, f, ls, ip) {
      BlocksCover(kept, ip);
    }
  }

  lemma KeepsIffNoOverlap(n: IpNet, f: Filters, ls: RangeLists)
    requires InRange(n) && InRangeLists(ls)
    ensures Keeps(n, f, ls) <==> forall e :: Listed(e, f, ls) ==> !Overlaps(n, e)
  {
  }

  /** A network is dropped exactly when one of its addresses is in an enabled list. */
  lemma DroppedExactly(n: IpNet, f: Filters, ls: RangeLists)
    requires ValidNet(n) && ValidLists(ls)
    ensures Keeps(n, f, ls) <==> forall ip :: ValidIp(ip) && Contains(n, ip) ==> !Excluded(f, ls, ip)
  {
    KeepsIffNoOverlap(n, f, ls);
    hide Keeps, Overlaps, Contains;
    forall e | Listed(e, f, ls) ensures Overlaps(n, e) <==> ShareAddress(n, e) {
      OverlapExact(n, e);
    }
    if ip :| ValidIp(ip) && Contains(n, ip) && Excluded(f, ls, ip) {
      var e :| Listed(e, f, ls) && Contains(e, ip);
      assert ShareAddress(n, e);
    }
    if e :| Listed(e, f, ls) && Overlaps(n, e) {
      var ip :| ValidIp(ip) && Contains(n, ip) && Contains(e, ip);
      assert Excluded(f, ls, ip);
    }
  }

  /** No published address lies in an enabled list. */
  lemma NothingExcludedIsPublished(ns: seq<IpNet>, f: Filters, ls: RangeLists, ip: Ip)
    requires ValidNets(ns) && ValidLists(ls) && ValidIp(ip) && Excluded(f, ls, ip)
    ensures !Published(ns, f, ls, ip)
  {
    forall n | n in ns && Contains(n, ip) ensures !Keeps(n, f, ls) {
      DroppedExactly(n, f, ls);
    }
  }

  // ---------------------------------------------------------------- the body

  /** The lines of a feed; `render` is `to_string` of the block's network. */
  function Lines(out: seq<Block>, render: Block -> string): (ls: seq<string>)
    ensures |ls| == |out|
    ensures forall i :: 0 <= i < |out| ==> ls[i] == render(out[i])
  {
    seq(|out|, i requires 0 <= i < |out| => render(out[i]))
  }

  function FeedBody(out: seq<Block>, render: Block -> string): string { Body(Sort(Lines(out, render))) }

  lemma LinesAppend(a: seq<Block>, b: seq<Block>, render: Block -> string)
    ensures Lines(a + b, render) == Lines(a, render) + Lines(b, render)
  {
  }

  /** The lines around one chosen block. */
  lemma LinesAround(p: seq<Block>, x: Block, q: seq<Block>, render: Block -> string)
    ensures multiset(Lines(p + [x] + q, render)) == multiset(Lines(p + q, render)) + multiset{render(x)}
  {
    LinesAppend(p + [x], q, render);
    LinesAppend(p, [x], render);
    LinesAppend(p, q, render);
    assert Lines([x], render) == [render(x)];
  }

  lemma {:induction false} LinesMultiset(a: seq<Block>, b: seq<Block>, render: Block -> string)
    requires multiset(a) == multiset(b)
    ensures multiset(Lines(a, render)) == multiset(Lines(b, render))
    decreases |a|
  {
    hide *;
    assert |a| == |multiset(a)| == |multiset(b)| == |b|;
    if a == [] {
      assert b == [];
    } else {
      var x := a[0];
      assert x in multiset(b);
      var j :| 0 <= j < |b| && b[j] == x;
      SplitAt(a, 0);
      SplitAt(b, j);
      LinesAround(a[..0], x, a[0 + 1..], render);
      LinesAround(b[..j], x, b[j + 1..], render);
      LinesMultiset(a[..0] + a[0 + 1..], b[..j] + b[j + 1..], render);
    }
  }

  lemma {:induction false} DistinctMultiset(a: seq<Block>)
    requires Distinct(a)
    ensures multiset(a) == multiset(Elems(a))
  {
    if a != [] {
      DistinctMultiset(a[1..]);
      assert a == [a[0]] + a[1..];
      assert a[0] !in a[1..];
      assert Elems(a) == {a[0]} + Elems(a[1..]);
    }
  }

  /** Canonical listings of one set of addresses give one body, whatever order they come in. */
  lemma BodyOfSet(a: seq<Block>, b: seq<Block>, render: Block -> string)
    requires Canonical(Elems(a)) && Distinct(a) && Canonical(Elems(b)) && Distinct(b)
    requires SameAddresses(Elems(a), Elems(b))
    ensures FeedBody(a, render) == FeedBody(b, render)
  {
    CanonicalUnique(Elems(a), Elems(b));
    DistinctMultiset(a);
    DistinctMultiset(b);
    LinesMultiset(a, b, render);
    SortDetermined(Lines(a, render), Lines(b, render));
  }

  /** What the converse needs of `to_string`: one line, and different text for different networks. */
  ghost predicate Faithful(render: Block -> string) {
    && (forall b :: OneLine(render(b)))
    && forall b, c :: render(b) == render(c) ==> b == c
  }

  lemma LinesSubset(a: seq<Block>, b: seq<Block>, render: Block -> string)
    requires Faithful(render)
    requires multiset(Lines(a, render)) == multiset(Lines(b, render))
    ensures Elems(a) <= Elems(b)
  {
    forall x | x in Elems(a) ensures x in Elems(b) {
      var i :| 0 <= i < |a| && a[i] == x;
      assert Lines(a, render)[i] in multiset(Lines(b, render));
      var j :| 0 <= j < |b| && Lines(b, render)[j] == Lines(a, render)[i];
    }
  }

  /** Equal bodies list equal blocks. */
  lemma SetOfBody(a: seq<Block>, b: seq<Block>, render: Block -> string)
    requires Faithful(render)
    requires FeedBody(a, render) == FeedBody(b, render)
    ensures Elems(a) == Elems(b)
  {
    var la, lb := Lines(a, render), Lines(b, render);
    forall l | l in Sort(la) ensures OneLine(l) { assert l in multiset(la); }
    forall l | l in Sort(lb) ensures OneLine(l) { assert l in multiset(lb); }
    BodyInjective(Sort(la), Sort(lb));
    SortDetermined(la, lb);
    LinesSubset(a, b, render);
    LinesSubset(b, a, render);
  }

  ghost predicate SamePublished(ns: seq<IpNet>, f: Filters, ns': seq<IpNet>, f': Filters, ls: RangeLists)
    requires InRangeAll(ns) && InRangeAll(ns') && InRangeLists(ls)
  {
    forall ip :: ValidIp(ip) ==> (Published(ns, f, ls, ip) <==> Published(ns', f', ls, ip))
  }

  /** The feed body is a function of the set of published addresses alone, and with a faithful rendering
      a one-to-one function of it: neither the order of the snapshot, nor how it was split into networks,
      nor host bits, nor which filters removed what, shows in the text. */
  lemma BodyIsPublishedSet(ns: seq<IpNet>, f: Filters, out: seq<Block>,
                           ns': seq<IpNet>, f': Filters, out': seq<Block>, ls: RangeLists, render: Block -> string)
    requires ValidNets(ns) && ValidNets(ns') && ValidLists(ls)
    requires IsFeed(ns, f, ls, out) && IsFeed(ns', f', ls, out')
    ensures SamePublished(ns, f, ns', f', ls) ==> FeedBody(out, render) == FeedBody(out', render)
    ensures Faithful(render) && FeedBody(out, render) == FeedBody(out', render) ==> SamePublished(ns, f, ns', f', ls)
  {
    hide FeedBody, Published;
    if SamePublished(ns, f, ns', f', ls) {
      forall ip ensures Covered(Elems(out), ip) <==> Covered(Elems(out'), ip) {}
      BodyOfSet(out, out', render);
    }
    if Faithful(render) && FeedBody(out, render) == FeedBody(out', render) {
      SetOfBody(out, out', render);
    }
  }
}
