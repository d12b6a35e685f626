/** Canonical block sets: what "the smallest equivalent set of CIDR blocks" is, that there is exactly
    one, and an aggregation that computes it. */
module Aggregate {
  import opened Bits
  import opened Cidr
  import opened Collections

  ghost predicate AllValid(s: set<Block>) { forall b :: b in s ==> ValidBlock(b) }

  /** Some block of `s` covers `ip`. */
  ghost predicate Covered(s: set<Block>, ip: Ip)
    requires AllValid(s)
  {
    exists b :: b in s && Covers(b, ip)
  }

  ghost predicate SameAddresses(s: set<Block>, t: set<Block>)
    requires AllValid(s) && AllValid(t)
  {
    forall ip :: Covered(s, ip) <==> Covered(t, ip)
  }

  function Left(b: Block): Block { Block(b.family, b.depth + 1, 2 * b.index) }

  function Right(b: Block): Block { Block(b.family, b.depth + 1, 2 * b.index + 1) }

  /** No block of the set encloses another, and no two of them are the halves of one block. */
  ghost predicate Canonical(s: set<Block>) {
    && AllValid(s)
    && (forall b, c :: b in s && c in s && Encloses(b, c) ==> b == c)
    && (forall b :: !(Left(b) in s && Right(b) in s))
  }

  // ---------------------------------------------------------------- halves

  lemma HalvesValid(b: Block)
    requires ValidBlock(b) && b.depth < Width(b.family)
    ensures ValidBlock(Left(b)) && ValidBlock(Right(b))
    ensures Encloses(b, Left(b)) && Encloses(b, Right(b))
  {
    assert Pow2(b.depth + 1) == 2 * Pow2(b.depth);
    assert Shr(2 * b.index, 1) == Shr(b.index, 0) && Shr(2 * b.index + 1, 1) == Shr(b.index, 0);
  }

  /** An address is in a block exactly when it is in one of its halves, and never in both. */
  lemma HalvesCover(b: Block, ip: Ip)
    requires ValidBlock(b) && b.depth < Width(b.family)
    ensures Covers(b, ip) <==> Covers(Left(b), ip) || Covers(Right(b), ip)
    ensures !(Covers(Left(b), ip) && Covers(Right(b), ip))
  {
    if b.family == ip.family {
      var h := Width(b.family) - b.depth;
      ShrShr(ip.value, h - 1, 1);
      assert Shr(Shr(ip.value, h - 1), 1) == Shr(Shr(ip.value, h - 1) / 2, 0);
    }
  }

  /** Whatever encloses a half without being it encloses the whole. */
  lemma EnclosesHalf(outer: Block, b: Block, half: Block)
    requires half == Left(b) || half == Right(b)
    requires Encloses(outer, half) && outer != half
    ensures Encloses(outer, b)
  {
    assert outer.depth <= b.depth;
    var k := b.depth - outer.depth;
    assert Shr(half.index, k + 1) == Shr(half.index / 2, k);
  }

  /** The first address of a block. */
  function First(b: Block): Ip
    requires b.depth <= Width(b.family)
  {
    Network(NetOf(b))
  }

  lemma FirstCovered(b: Block)
    requires ValidBlock(b)
    ensures Covers(b, First(b))
  {
    NetOfValid(b);
    NetworkFirst(NetOf(b));
  }

  // ---------------------------------------------------------------- uniqueness and minimality

  /** A block all of whose addresses a canonical set covers lies inside a single member. */
  lemma {:induction false} CoveredByOne(s: set<Block>, c: Block) returns (outer: Block)
    requires Canonical(s) && ValidBlock(c)
    requires forall ip :: Covers(c, ip) ==> Covered(s, ip)
    ensures outer in s && Encloses(outer, c)
    decreases Width(c.family) - c.depth
  {
    if c.depth == Width(c.family) {
      FirstCovered(c);
      outer :| outer in s && Covers(outer, First(c));
      EnclosesCovers(outer, c, First(c));
    } else {
      HalvesValid(c);
      forall ip ensures Covers(Left(c), ip) || Covers(Right(c), ip) ==> Covered(s, ip) {
        HalvesCover(c, ip);
      }
      var l := CoveredByOne(s, Left(c));
      var r := CoveredByOne(s, Right(c));
      if l != Left(c) {
        EnclosesHalf(l, c, Left(c));
        outer := l;
      } else {
        assert r != Right(c);
        EnclosesHalf(r, c, Right(c));
        outer := r;
      }
    }
  }

  lemma MembersCovered(s: set<Block>, t: set<Block>, b: Block)
    requires AllValid(s) && AllValid(t) && SameAddresses(s, t) && b in s
    ensures forall ip :: Covers(b, ip) ==> Covered(t, ip)
  {
    forall ip | Covers(b, ip) ensures Covered(t, ip) {
      assert Covered(s, ip);
    }
  }

  /** Members of one canonical set are members of every other that covers the same addresses. */
  lemma CanonicalIncluded(s: set<Block>, t: set<Block>)
    requires Canonical(s) && Canonical(t) && SameAddresses(s, t)
    ensures s <= t
  {
    forall b | b in s ensures b in t {
      MembersCovered(s, t, b);
      var c := CoveredByOne(t, b);
      MembersCovered(t, s, c);
      var b' := CoveredByOne(s, c);
      EnclosesTransitive(b', c, b);
      assert b' == b;
      EnclosesAntisymmetric(b, c);
    }
  }

  /** The addresses determine the canonical set. */
  lemma CanonicalUnique(s: set<Block>, t: set<Block>)
    requires Canonical(s) && Canonical(t)
    ensures SameAddresses(s, t) <==> s == t
  {
    if SameAddresses(s, t) {
      CanonicalIncluded(s, t);
      CanonicalIncluded(t, s);
    }
  }

  /** Every member of a canonical set holds a member of any other set covering the same addresses. */
  lemma MemberInside(s: set<Block>, t: set<Block>, b: Block) returns (c: Block)
    requires Canonical(s) && AllValid(t) && SameAddresses(s, t) && b in s
    ensures c in t && Encloses(b, c)
  {
    FirstCovered(b);
    assert Covered(s, First(b));
    c :| c in t && Covers(c, First(b));
    MembersCovered(t, s, c);
    var b' := CoveredByOne(s, c);
    EnclosesCovers(b', c, First(b));
    NestedOrDisjoint(b, b', First(b));
  }

  lemma {:induction false} InjectionSize(s: set<Block>, t: set<Block>, inside: Block -> Block)
    requires forall b :: b in s ==> inside(b) in t
    requires forall b, b' :: b in s && b' in s && inside(b) == inside(b') ==> b == b'
    ensures |s| <= |t|
    decreases |s|
  {
    if b :| b in s {
      InjectionSize(s - {b}, t - {inside(b)}, inside);
    }
  }

  /** No set of blocks covering the same addresses is smaller than the canonical one. */
  lemma CanonicalMinimal(s: set<Block>, t: set<Block>)
    requires Canonical(s) && AllValid(t) && SameAddresses(s, t)
    ensures |s| <= |t|
  {
    forall b | b in s ensures exists c :: c in t && Encloses(b, c) {
      var c := MemberInside(s, t, b);
    }
    var inside: Block -> Block :=
      b => if b in s && (exists c :: c in t && Encloses(b, c)) then (var c :| c in t && Encloses(b, c); c) else b;
    forall b, b' | b in s && b' in s && inside(b) == inside(b') ensures b == b' {
      var c := inside(b);
      FirstCovered(c);
      EnclosesCovers(b, c, First(c));
      EnclosesCovers(b', c, First(c));
      NestedOrDisjoint(b, b', First(c));
    }
    InjectionSize(s, t, inside);
  }

  // ---------------------------------------------------------------- aggregation

  ghost function Elems(bs: seq<Block>): set<Block> { set b | b in bs }

  /** The aggregated blocks of `bs` that lie inside `node`, in address order. */
  function Within(bs: seq<Block>, node: Block): seq<Block>
    requires node.depth <= Width(node.family)
    decreases Width(node.family) - node.depth
  {
    if exists b :: b in bs && Encloses(b, node) then [node]
    else if node.depth == Width(node.family) || !(exists b :: b in bs && Encloses(node, b)) then []
    else
      var l, r := Within(bs, Left(node)), Within(bs, Right(node));
      if l == [Left(node)] && r == [Right(node)] then [node] else l + r
  }

  /** What `Within` returns: blocks inside `node`, canonical, each once, covering what `bs` covers there. */
  ghost predicate Aggregated(bs: seq<Block>, node: Block, out: seq<Block>)
    requires AllValid(Elems(bs)) && ValidBlock(node)
  {
    && (forall c :: c in out ==> ValidBlock(c) && Encloses(node, c))
    && Canonical(Elems(out))
    && Distinct(out)
    && forall ip :: Covers(node, ip) ==> (Covered(Elems(out), ip) <==> Covered(Elems(bs), ip))
  }

  lemma OnlyNode(node: Block, out: seq<Block>)
    requires Canonical(Elems(out)) && Distinct(out) && forall c :: c in out ==> Encloses(node, c)
    ensures node in out ==> out == [node]
  {
    assert |out| > 1 ==> out[0] != out[1];
    if node in out {
      forall i | 0 <= i < |out| ensures out[i] == node {
        assert out[i] in Elems(out) && node in Elems(out);
      }
    }
  }

  /** The halves of `x` are never split between the halves of a different block. */
  lemma SplitSiblings(node: Block, x: Block, a: Block, b: Block)
    requires (a == Left(x) && b == Right(x)) || (a == Right(x) && b == Left(x))
    requires x != node || a == Right(x)
    ensures !(Encloses(Left(node), a) && Encloses(Right(node), b))
  {
    if x.depth > node.depth && Encloses(Left(node), a) && Encloses(Right(node), b) {
      EnclosesHalf(Left(node), x, a);
      EnclosesHalf(Right(node), x, b);
    }
  }

  lemma JoinedSiblings(node: Block, l: seq<Block>, r: seq<Block>, x: Block)
    requires forall c :: c in l ==> Encloses(Left(node), c)
    requires forall c :: c in r ==> Encloses(Right(node), c)
    requires Canonical(Elems(l)) && Canonical(Elems(r)) && Distinct(l) && Distinct(r)
    requires !(l == [Left(node)] && r == [Right(node)])
    ensures !(Left(x) in l + r && Right(x) in l + r)
  {
    assert !(Left(x) in Elems(l) && Right(x) in Elems(l));
    assert !(Left(x) in Elems(r) && Right(x) in Elems(r));
    SplitSiblings(node, x, Right(x), Left(x));
    if x == node {
      OnlyNode(Left(node), l);
      OnlyNode(Right(node), r);
    } else {
      SplitSiblings(node, x, Left(x), Right(x));
    }
  }

  lemma JoinedHalves(bs: seq<Block>, node: Block, l: seq<Block>, r: seq<Block>)
    requires AllValid(Elems(bs)) && ValidBlock(node) && node.depth < Width(node.family)
    requires ValidBlock(Left(node)) && ValidBlock(Right(node))
    requires Aggregated(bs, Left(node), l) && Aggregated(bs, Right(node), r)
    requires !(l == [Left(node)] && r == [Right(node)])
    ensures Aggregated(bs, node, l + r)
  {
    HalvesValid(node);
    var out := l + r;
    forall c | c in out ensures ValidBlock(c) && Encloses(node, c) {
      EnclosesTransitive(node, if c in l then Left(node) else Right(node), c);
    }
    forall b, c | b in out && c in out && Encloses(b, c) ensures b == c {
      JoinedNested(node, l, r, b, c);
    }
    forall x ensures !(Left(x) in out && Right(x) in out) {
      JoinedSiblings(node, l, r, x);
    }
    forall i, j | 0 <= i < j < |out| ensures out[i] != out[j] {
      if i < |l| <= j { assert out[i] in l && out[j] in r; }
    }
    forall ip | Covers(node, ip) ensures Covered(Elems(out), ip) <==> Covered(Elems(bs), ip) {
      HalvesCover(node, ip);
      JoinedCovers(node, l, r, ip);
    }
  }

  lemma JoinedNested(node: Block, l: seq<Block>, r: seq<Block>, b: Block, c: Block)
    requires forall c :: c in l ==> Encloses(Left(node), c)
    requires forall c :: c in r ==> Encloses(Right(node), c)
    requires Canonical(Elems(l)) && Canonical(Elems(r))
    requires b in l + r && c in l + r && Encloses(b, c)
    ensures b == c
  {
    if b in l { EnclosesTransitive(Left(node), b, c); }
    if b in r { EnclosesTransitive(Right(node), b, c); }
    assert b in Elems(l) && c in Elems(l) ==> b == c;
    assert b in Elems(r) && c in Elems(r) ==> b == c;
  }

  /** In either half, what the two lists cover together is what that half's list covers. */
  lemma JoinedCovers(node: Block, l: seq<Block>, r: seq<Block>, ip: Ip)
    requires ValidBlock(node) && node.depth < Width(node.family)
    requires AllValid(Elems(l)) && AllValid(Elems(r)) && AllValid(Elems(l + r))
    requires forall c :: c in l ==> Encloses(Left(node), c)
    requires forall c :: c in r ==> Encloses(Right(node), c)
    ensures Covers(Left(node), ip) ==> (Covered(Elems(l + r), ip) <==> Covered(Elems(l), ip))
    ensures Covers(Right(node), ip) ==> (Covered(Elems(l + r), ip) <==> Covered(Elems(r), ip))
  {
    HalvesValid(node);
    HalvesCover(node, ip);
    forall c | c in Elems(l) && Covers(c, ip) ensures Covers(Left(node), ip) {
      EnclosesCovers(Left(node), c, ip);
    }
    forall c | c in Elems(r) && Covers(c, ip) ensures Covers(Right(node), ip) {
      EnclosesCovers(Right(node), c, ip);
    }
    forall c ensures c in Elems(l + r) <==> c in Elems(l) || c in Elems(r) {}
  }

  lemma {:induction false} WithinAggregates(bs: seq<Block>, node: Block)
    requires AllValid(Elems(bs)) && ValidBlock(node)
    ensures Aggregated(bs, node, Within(bs, node))
    decreases Width(node.family) - node.depth
  {
    if exists b :: b in bs && Encloses(b, node) {
      NodeAlone(bs, node);
    } else if node.depth == Width(node.family) || !(exists b :: b in bs && Encloses(node, b)) {
      NothingInside(bs, node);
    } else {
      HalvesValid(node);
      WithinAggregates(bs, Left(node));
      WithinAggregates(bs, Right(node));
      var l, r := Within(bs, Left(node)), Within(bs, Right(node));
      if l == [Left(node)] && r == [Right(node)] {
        BothHalves(bs, node, l, r);
      } else {
        JoinedHalves(bs, node, l, r);
      }
    }
  }

  lemma SingletonCanonical(node: Block)
    requires ValidBlock(node)
    ensures Canonical(Elems([node])) && Encloses(node, node)
    ensures forall ip :: Covered(Elems([node]), ip) <==> Covers(node, ip)
  {
    forall ip ensures Covered(Elems([node]), ip) <==> Covers(node, ip) {
      assert node in Elems([node]);
    }
  }

  lemma NodeAlone(bs: seq<Block>, node: Block)
    requires AllValid(Elems(bs)) && ValidBlock(node)
    requires exists b :: b in bs && Encloses(b, node)
    ensures Aggregated(bs, node, [node])
  {
    SingletonCanonical(node);
    var b :| b in bs && Encloses(b, node);
    assert b in Elems(bs);
    forall ip | Covers(node, ip) ensures Covered(Elems(bs), ip) {
      EnclosesCovers(b, node, ip);
    }
  }

  lemma NothingInside(bs: seq<Block>, node: Block)
    requires AllValid(Elems(bs)) && ValidBlock(node)
    requires !(exists b :: b in bs && Encloses(b, node))
    requires node.depth == Width(node.family) || !(exists b :: b in bs && Encloses(node, b))
    ensures Aggregated(bs, node, [])
  {
    forall ip | Covers(node, ip) ensures !Covered(Elems(bs), ip) {
      forall b | b in Elems(bs) ensures !Covers(b, ip) {
        if Covers(b, ip) { NestedOrDisjoint(b, node, ip); }
      }
    }
  }

  lemma BothHalves(bs: seq<Block>, node: Block, l: seq<Block>, r: seq<Block>)
    requires AllValid(Elems(bs)) && ValidBlock(node) && node.depth < Width(node.family)
    requires ValidBlock(Left(node)) && ValidBlock(Right(node))
    requires Aggregated(bs, Left(node), l) && Aggregated(bs, Right(node), r)
    requires l == [Left(node)] && r == [Right(node)]
    ensures Aggregated(bs, node, [node])
  {
    SingletonCanonical(node);
    SingletonCanonical(Left(node));
    SingletonCanonical(Right(node));
    forall ip | Covers(node, ip) ensures Covered(Elems(bs), ip) {
      HalvesCover(node, ip);
    }
  }

  /** Both families, each from its own root. */
  function AggregateBlocks(bs: seq<Block>): seq<Block> {
    Within(bs, Block(V4, 0, 0)) + Within(bs, Block(V6, 0, 0))
  }

  lemma RootCovers(f: Family, ip: Ip)
    requires ValidIp(ip)
    ensures ValidBlock(Block(f, 0, 0))
    ensures Covers(Block(f, 0, 0), ip) <==> f == ip.family
  {
    ShrBound(ip.value, Width(ip.family), Width(ip.family));
  }

  /** The aggregation's contract: a canonical list of distinct blocks covering the same addresses, and
      by `CanonicalUnique` and `CanonicalMinimal` the only such set and the smallest. */
  lemma AggregateContract(bs: seq<Block>)
    requires AllValid(Elems(bs))
    ensures Canonical(Elems(AggregateBlocks(bs))) && Distinct(AggregateBlocks(bs))
    ensures SameAddresses(Elems(bs), Elems(AggregateBlocks(bs)))
  {
    var r4, r6 := Block(V4, 0, 0), Block(V6, 0, 0);
    RootCovers(V4, Ip(V4, 0));
    RootCovers(V6, Ip(V6, 0));
    WithinAggregates(bs, r4);
    WithinAggregates(bs, r6);
    FamiliesApart(Within(bs, r4), Within(bs, r6));
    var out := AggregateBlocks(bs);
    forall ip ensures Covered(Elems(bs), ip) <==> Covered(Elems(out), ip) {
      if ValidIp(ip) {
        RootCovers(ip.family, ip);
        FamilyCovers(Within(bs, r4), Within(bs, r6), ip);
      }
    }
  }

  ghost predicate OfFamily(s: seq<Block>, f: Family) { forall c :: c in s ==> c.family == f }

  lemma FamiliesApart(l: seq<Block>, r: seq<Block>)
    requires OfFamily(l, V4) && OfFamily(r, V6)
    requires Canonical(Elems(l)) && Canonical(Elems(r)) && Distinct(l) && Distinct(r)
    ensures Canonical(Elems(l + r)) && Distinct(l + r)
  {
    var out := Elems(l + r);
    forall c ensures c in out <==> c in Elems(l) || c in Elems(r) {}
    forall x ensures !(Left(x) in out && Right(x) in out) {
      assert Left(x).family == Right(x).family;
    }
    forall i, j | 0 <= i < j < |l + r| ensures (l + r)[i] != (l + r)[j] {
      if i < |l| <= j { assert (l + r)[i].family == V4 && (l + r)[j].family == V6; }
    }
  }

  lemma FamilyCovers(l: seq<Block>, r: seq<Block>, ip: Ip)
    requires OfFamily(l, V4) && OfFamily(r, V6)
    requires AllValid(Elems(l)) && AllValid(Elems(r)) && AllValid(Elems(l + r))
    ensures Covered(Elems(l + r), ip) <==> Covered(Elems(if ip.family.V4? then l else r), ip)
  {
    forall c ensures c in Elems(l + r) <==> c in Elems(l) || c in Elems(r) {}
  }
}
