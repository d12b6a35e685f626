/** Fetching every record of a paginated Vault listing (src/vault_client.rs): one probe, then either the
    remaining pages in parallel or an offset walk. The Vault serves slices of one fixed list. */
module VaultPaging {
  import opened Collections

  const MAX_PAGES: nat := 1000

  datatype Result<+T> = Ok(value: T) | Err

  /** How a Vault treats `include_total`: answers with an envelope, ignores it, or refuses the request. */
  datatype Flavour = Envelope | RootArray | Rejecting

  /** A Vault holding `records`; requests for an offset in `down` fail. It returns at most `cap` records
      whatever limit it is asked for, and counts its pages by the limit it applies. */
  datatype Vault<T> = Vault(records: seq<T>, flavour: Flavour, down: set<nat>, cap: nat)

  datatype Probe<T> = Enveloped(data: seq<T>, totalPages: nat) | Legacy(page: seq<T>) | BadRequest | Failure

  function Min(a: nat, b: nat): nat { if a < b then a else b }

  function Slice<T>(s: seq<T>, offset: nat, limit: nat): seq<T> {
    s[Min(offset, |s|)..Min(offset + limit, |s|)]
  }

  /** The limit the Vault applies. */
  function Applied<T>(v: Vault<T>, limit: nat): nat { Min(limit, v.cap) }

  function ServePage<T>(v: Vault<T>, limit: nat, offset: nat): Result<seq<T>> {
    if offset in v.down then Err else Ok(Slice(v.records, offset, Applied(v, limit)))
  }

  function TotalPages(n: nat, limit: nat): nat
    requires limit > 0
  {
    (n + limit - 1) / limit
  }

  function Reported<T>(v: Vault<T>, limit: nat): nat {
    if Applied(v, limit) == 0 then 0 else TotalPages(|v.records|, Applied(v, limit))
  }

  function ServeProbe<T>(v: Vault<T>, limit: nat): Probe<T>
    requires limit > 0
  {
    if 0 in v.down then Failure
    else match v.flavour
      case Envelope => Enveloped(Slice(v.records, 0, Applied(v, limit)), Reported(v, limit))
      case RootArray => Legacy(Slice(v.records, 0, Applied(v, limit)))
      case Rejecting => BadRequest
  }

  // ---------------------------------------------------------------- what a fetch must return

  /** The records a fetch returns: all of them, up to the page ceiling. */
  function Wanted<T>(v: Vault<T>, pageSize: nat): seq<T> { v.records[..Min(|v.records|, 1000 * pageSize)] }

  /** The pages the offset walk reads: the short page that ends it, or the ceiling. */
  function WalkPages(n: nat, pageSize: nat): nat
    requires pageSize > 0
  {
    Min(n / pageSize + 1, MAX_PAGES)
  }

  /** The pages the parallel path reads, the probe included. */
  function ParallelPages<T>(v: Vault<T>, pageSize: nat): nat {
    if Reported(v, pageSize) == 0 then 1 else Min(Reported(v, pageSize), MAX_PAGES)
  }

  /** What the walk returns: a cap below the page size makes its first page short, which ends it. */
  function Walked<T>(v: Vault<T>, pageSize: nat): seq<T> {
    if v.cap >= pageSize then Wanted(v, pageSize) else v.records[..Min(|v.records|, v.cap)]
  }

  function WalkedPages<T>(v: Vault<T>, pageSize: nat): nat
    requires pageSize > 0
  {
    if v.cap >= pageSize then WalkPages(|v.records|, pageSize) else 1
  }

  /** The walk is right under a cap exactly when the cap is no smaller than the page or nothing lies beyond
      it. */
  lemma CapHarmlessIff<T>(v: Vault<T>, pageSize: nat)
    requires pageSize > 0
    ensures Walked(v, pageSize) == Wanted(v, pageSize) <==> v.cap >= pageSize || |v.records| <= v.cap
  {
    if v.cap < pageSize < |v.records| { ProductGap(0, MAX_PAGES, pageSize); }
    assert MAX_PAGES * pageSize >= pageSize;
    if v.cap < pageSize && |v.records| > v.cap {
      assert |Walked(v, pageSize)| == v.cap < |Wanted(v, pageSize)|;
    }
  }

  /** A Vault with 100 records that caps pages at 50 leaves half of them unread by a walk in thousands. */
  lemma CappedWalkTruncates<T>(v: Vault<T>)
    requires |v.records| == 100 && v.cap == 50
    ensures |Walked(v, 1000)| == 50 && |Wanted(v, 1000)| == 100
  {
  }

  /** Some page among the first `pages` cannot be fetched. */
  ghost predicate Unreachable<T>(v: Vault<T>, pageSize: nat, pages: nat) {
    exists k: nat :: k < pages && k * pageSize in v.down
  }

  // ---------------------------------------------------------------- the offset walk

  lemma NextOffset(k: nat, p: nat)
    ensures (k + 1) * p == k * p + p && k * p >= 0
  {
  }

  lemma QuotientIs(n: nat, p: nat, k: nat)
    requires p > 0 && k * p <= n < k * p + p
    ensures n / p == k
  {
    var q, r := n / p, n % p;
    assert n == q * p + r;
    if q < k { ProductGap(q, k, p); }
    if k < q { ProductGap(k, q, p); }
  }

  lemma ProductGap(a: nat, b: nat, p: nat)
    requires a < b
    ensures a * p + p <= b * p
  {
    var d := b - a - 1;
    assert b * p == a * p + p + d * p by { assert b == a + 1 + d; }
    assert d * p >= 0;
  }

  lemma QuotientAtLeast(n: nat, p: nat, k: nat)
    requires p > 0 && k * p <= n
    ensures n / p >= k
  {
    var q, r := n / p, n % p;
    assert n == q * p + r;
    if q < k { ProductGap(q, k, p); }
  }

  method FetchSequentially<T>(v: Vault<T>, pageSize: nat, alreadyFetched: seq<T>) returns (r: Result<seq<T>>)
    requires pageSize > 0
    requires alreadyFetched == [] || (alreadyFetched == Slice(v.records, 0, Applied(v, pageSize)) && 0 !in v.down)
    ensures r.Ok? ==> r.value == Walked(v, pageSize)
    ensures r.Err? <==> Unreachable(v, pageSize, WalkedPages(v, pageSize))
  {
    var resume := |alreadyFetched| == pageSize;
    var all := alreadyFetched;
    if all != [] && !resume {
      FirstPageShort(v, pageSize);
      return Ok(all);
    }
    var offset := if resume then pageSize else 0;
    var pages := if resume then 1 else 0;
    while true
      invariant pages < MAX_PAGES && offset == pages * pageSize <= |v.records|
      invariant all == v.records[..offset] && (v.cap < pageSize ==> pages == 0)
      invariant forall k: nat :: k < pages ==> k * pageSize !in v.down
      decreases MAX_PAGES - pages
    {
      hide Unreachable, WalkPages, Wanted;
      var page := ServePage(v, pageSize, offset);
      if page.Err? {
        NeededPage(v, pageSize, pages);
        return Err;
      }
      all := all + page.value;
      pages := pages + 1;
      NextOffset(pages - 1, pageSize);
      if |page.value| < pageSize {
        ShortPage(v, pageSize, pages - 1);
        return Ok(all);
      }
      if pages >= MAX_PAGES {
        CeilingPage(v, pageSize);
        return Ok(all);
      }
      offset := offset + pageSize;
    }
  }

  /** The walk reaches page `k` of the listing, if it is not cut short. */
  lemma NeededPage<T>(v: Vault<T>, pageSize: nat, k: nat)
    requires pageSize > 0 && k < MAX_PAGES && k * pageSize <= |v.records| && k * pageSize in v.down
    requires v.cap < pageSize ==> k == 0
    ensures Unreachable(v, pageSize, WalkedPages(v, pageSize))
  {
    QuotientAtLeast(|v.records|, pageSize, k);
  }

  /** Page `k` is short: everything has been read, or the cap has cut the first page. */
  lemma ShortPage<T>(v: Vault<T>, pageSize: nat, k: nat)
    requires pageSize > 0 && k < MAX_PAGES && k * pageSize <= |v.records|
    requires v.cap < pageSize ==> k == 0
    requires |Slice(v.records, k * pageSize, Applied(v, pageSize))| < pageSize
    requires forall i: nat :: i <= k ==> i * pageSize !in v.down
    ensures v.records[..k * pageSize] + Slice(v.records, k * pageSize, Applied(v, pageSize)) == Walked(v, pageSize)
    ensures !Unreachable(v, pageSize, WalkedPages(v, pageSize))
  {
    if v.cap >= pageSize {
      WalkEnds(v, pageSize, k);
    } else {
      assert 0 * pageSize == 0;
    }
  }

  lemma FirstPageShort<T>(v: Vault<T>, pageSize: nat)
    requires pageSize > 0 && 0 !in v.down
    requires |Slice(v.records, 0, Applied(v, pageSize))| != pageSize
    ensures Slice(v.records, 0, Applied(v, pageSize)) == Walked(v, pageSize)
    ensures !Unreachable(v, pageSize, WalkedPages(v, pageSize))
  {
    assert 0 * pageSize == 0;
    ShortPage(v, pageSize, 0);
  }

  lemma CeilingPage<T>(v: Vault<T>, pageSize: nat)
    requires pageSize > 0 && v.cap >= pageSize && MAX_PAGES * pageSize <= |v.records|
    requires forall i: nat :: i < MAX_PAGES ==> i * pageSize !in v.down
    ensures v.records[..MAX_PAGES * pageSize] == Walked(v, pageSize)
    ensures !Unreachable(v, pageSize, WalkedPages(v, pageSize))
  {
  }

  /** The walk that stops at page `k`, a short one, has read everything. */
  lemma WalkEnds<T>(v: Vault<T>, pageSize: nat, k: nat)
    requires pageSize > 0 && k < MAX_PAGES
    requires k * pageSize <= |v.records| < k * pageSize + pageSize
    ensures WalkPages(|v.records|, pageSize) == k + 1
    ensures Wanted(v, pageSize) == v.records
  {
    QuotientIs(|v.records|, pageSize, k);
    ProductGap(k, MAX_PAGES, pageSize);
  }

  // ---------------------------------------------------------------- the parallel path

  function PageAt<T>(s: seq<T>, pageSize: nat, limit: nat, k: nat): seq<T> { Slice(s, k * pageSize, limit) }

  /** The pages numbered `order`, concatenated: each starts at a multiple of `pageSize` and is `limit` long. */
  function Collected<T>(s: seq<T>, pageSize: nat, limit: nat, order: seq<nat>): seq<T> {
    if order == [] then [] else
      Collected(s, pageSize, limit, order[..|order| - 1]) + PageAt(s, pageSize, limit, order[|order| - 1])
  }

  lemma {:induction false} CollectedLast<T>(s: seq<T>, pageSize: nat, limit: nat, p: seq<nat>, x: nat)
    ensures Collected(s, pageSize, limit, p + [x]) == Collected(s, pageSize, limit, p) + PageAt(s, pageSize, limit, x)
  {
    hide PageAt;
    assert (p + [x])[..|p|] == p;
  }

  lemma {:induction false} CollectedAround<T>(s: seq<T>, pageSize: nat, limit: nat, p: seq<nat>, x: nat, q: seq<nat>)
    ensures multiset(Collected(s, pageSize, limit, p + [x] + q))
         == multiset(Collected(s, pageSize, limit, p + q)) + multiset(PageAt(s, pageSize, limit, x))
    decreases |q|
  {
    hide *;
    if q == [] {
      assert p + [x] + q == p + [x] && p + q == p;
      CollectedLast(s, pageSize, limit, p, x);
    } else {
      var q', y := q[..|q| - 1], q[|q| - 1];
      assert q == q' + [y];
      assert p + [x] + q == (p + [x] + q') + [y];
      assert p + q == (p + q') + [y];
      CollectedLast(s, pageSize, limit, p + [x] + q', y);
      CollectedLast(s, pageSize, limit, p + q', y);
      CollectedAround(s, pageSize, limit, p, x, q');
    }
  }

  /** The order in which pages complete does not matter to what is collected. */
  lemma {:induction false} CollectedPermuted<T>(s: seq<T>, pageSize: nat, limit: nat, a: seq<nat>, b: seq<nat>)
    requires multiset(a) == multiset(b)
    ensures multiset(Collected(s, pageSize, limit, a)) == multiset(Collected(s, pageSize, limit, b))
    decreases |a|
  {
    hide *;
    assert |a| == |multiset(a)| == |multiset(b)| == |b|;
    if a == [] {
      assert b == [];
    } else {
      var x := a[0];
      assert x in multiset(b);
      var j :| 0 <= j < |b| && b[j] == x;
      SplitAt(a, 0);
      SplitAt(b, j);
      CollectedAround(s, pageSize, limit, a[..0], x, a[0 + 1..]);
      CollectedAround(s, pageSize, limit, b[..j], x, b[j + 1..]);
      CollectedPermuted(s, pageSize, limit, a[..0] + a[0 + 1..], b[..j] + b[j + 1..]);
    }
  }

  /** Pages 1, 2, ..., n - 1. */
  function Ascending(n: nat): (r: seq<nat>)
    ensures |r| == if n == 0 then 0 else n - 1
    ensures forall i :: 0 <= i < |r| ==> r[i] == i + 1
    ensures forall p: nat :: p in r <==> 1 <= p < n
  {
    if n <= 1 then [] else Ascending(n - 1) + [n - 1]
  }

  /** The first `n` pages. */
  function Pages<T>(s: seq<T>, pageSize: nat, limit: nat, n: nat): seq<T> {
    Slice(s, 0, limit) + Collected(s, pageSize, limit, Ascending(n))
  }

  /** What the parallel path collects, up to page order. */
  function Gathered<T>(v: Vault<T>, pageSize: nat): seq<T> {
    Pages(v.records, pageSize, Applied(v, pageSize), ParallelPages(v, pageSize))
  }

  lemma {:induction false} OnePage<T>(s: seq<T>, pageSize: nat, limit: nat)
    ensures Pages(s, pageSize, limit, 1) == s[..Min(|s|, limit)]
  {
    assert Ascending(1) == [];
  }

  /** One more page, at offset `o`. */
  lemma {:induction false} PagesStep<T>(s: seq<T>, pageSize: nat, limit: nat, n: nat, o: nat)
    requires 1 <= n && o == n * pageSize
    ensures Pages(s, pageSize, limit, n + 1) == Pages(s, pageSize, limit, n) + Slice(s, o, limit)
  {
    assert Ascending(n + 1) == Ascending(n) + [n];
    assert PageAt(s, pageSize, limit, n) == Slice(s, o, limit);
    hide PageAt, Slice, Collected;
    CollectedLast(s, pageSize, limit, Ascending(n), n);
  }

  lemma SliceExtends<T>(s: seq<T>, offset: nat, limit: nat)
    ensures s[..Min(|s|, offset)] + Slice(s, offset, limit) == s[..Min(|s|, offset + limit)]
  {
  }

  /** Whole pages leave no gap. */
  lemma {:induction false} WholePages<T>(s: seq<T>, pageSize: nat, n: nat, o: nat)
    requires 1 <= n && o == n * pageSize
    ensures Pages(s, pageSize, pageSize, n) == s[..Min(|s|, o)]
    decreases n
  {
    hide Pages;
    if n == 1 {
      OnePage(s, pageSize, pageSize);
    } else {
      NextOffset(n - 1, pageSize);
      var before := o - pageSize;
      WholePages(s, pageSize, n - 1, before);
      PagesStep(s, pageSize, pageSize, n - 1, before);
      SliceExtends(s, before, pageSize);
    }
  }

  /** Pages cut short of the step between them leave gaps. */
  lemma {:induction false} ShortPages<T>(s: seq<T>, pageSize: nat, limit: nat, n: nat, o: nat)
    requires 1 <= n && o == n * pageSize && limit < pageSize && limit < |s|
    ensures |Pages(s, pageSize, limit, n)| < Min(|s|, o)
    decreases n
  {
    hide Pages;
    if n == 1 {
      OnePage(s, pageSize, limit);
    } else {
      NextOffset(n - 1, pageSize);
      var before := o - pageSize;
      ShortPages(s, pageSize, limit, n - 1, before);
      PagesStep(s, pageSize, limit, n - 1, before);
    }
  }

  lemma TotalPagesBounds(n: nat, p: nat)
    requires p > 0
    ensures n <= TotalPages(n, p) * p < n + p
  {
    var m := n + p - 1;
    var q, r := m / p, m % p;
    assert m == q * p + r;
  }

  lemma CeilingReached(n: nat, p: nat)
    requires p > 0
    ensures var t := TotalPages(n, p);
            Min(n, (if t == 0 then 1 else Min(t, MAX_PAGES)) * p) == Min(n, MAX_PAGES * p)
  {
    TotalPagesBounds(n, p);
    var t := TotalPages(n, p);
    if t == 0 {
      assert n == 0;
    } else if t < MAX_PAGES {
      ProductGap(t, MAX_PAGES, p);
    }
  }

  /** The parallel path is right under a cap exactly when the cap is no smaller than the page or nothing lies
      beyond it: an enveloping Vault that clamps the limit counts shorter pages than the exporter steps. */
  lemma {:induction false} GatherHarmlessIff<T>(v: Vault<T>, pageSize: nat)
    requires pageSize > 0
    ensures multiset(Gathered(v, pageSize)) == multiset(Wanted(v, pageSize)) <==> v.cap >= pageSize || |v.records| <= v.cap
  {
    var n := ParallelPages(v, pageSize);
    if v.cap >= pageSize {
      CeilingReached(|v.records|, pageSize);
      hide Pages, Reported;
      WholePages(v.records, pageSize, n, n * pageSize);
    } else if |v.records| <= v.cap {
      FitsInOne(v, pageSize);
    } else {
      hide Pages, Reported;
      NotAllWanted(v, pageSize, n);
      assert |multiset(Gathered(v, pageSize))| == |Gathered(v, pageSize)|;
      assert |multiset(Wanted(v, pageSize))| == |Wanted(v, pageSize)|;
    }
  }

  lemma {:induction false} FitsInOne<T>(v: Vault<T>, pageSize: nat)
    requires |v.records| <= v.cap < pageSize
    ensures Gathered(v, pageSize) == Wanted(v, pageSize) == v.records
  {
    hide Pages, TotalPages;
    ProductGap(0, MAX_PAGES, pageSize);
    if v.cap > 0 { AtMostOne(|v.records|, v.cap, TotalPages(|v.records|, v.cap)); }
    assert ParallelPages(v, pageSize) == 1;
    hide ParallelPages;
    OnePage(v.records, pageSize, v.cap);
  }

  lemma {:induction false} AtMostOne(n: nat, p: nat, t: nat)
    requires n <= p && 0 < p && t == TotalPages(n, p)
    ensures t <= 1
  {
    TotalPagesBounds(n, p);
    hide TotalPages;
    if t > 1 { ProductGap(1, t, p); }
  }

  lemma {:induction false} NotAllWanted<T>(v: Vault<T>, pageSize: nat, n: nat)
    requires v.cap < pageSize && v.cap < |v.records| && 1 <= n <= MAX_PAGES && n == ParallelPages(v, pageSize)
    ensures |Gathered(v, pageSize)| < |Wanted(v, pageSize)|
  {
    hide Pages, ParallelPages;
    var o := n * pageSize;
    ShortPages(v.records, pageSize, v.cap, n, o);
    if n < MAX_PAGES { ProductGap(n, MAX_PAGES, pageSize); }
  }

  method RequestPage<T>(v: Vault<T>, pageSize: nat, k: nat) returns (page: Result<seq<T>>)
    ensures page.Err? <==> k * pageSize in v.down
    ensures page.Ok? ==> page.value == PageAt(v.records, pageSize, Applied(v, pageSize), k)
  {
    NextOffset(k, pageSize);
    page := ServePage(v, pageSize, k * pageSize);
  }

  lemma {:induction false} OneArrives(order: seq<nat>, pending: seq<nat>, j: nat, n: nat)
    requires multiset(order) + multiset(pending) == multiset(Ascending(n)) && j < |pending|
    ensures pending[j] < n
    ensures multiset(order + [pending[j]]) + multiset(pending[..j] + pending[j + 1..]) == multiset(Ascending(n))
  {
    SplitAt(pending, j);
    assert pending[j] in multiset(Ascending(n));
  }

  lemma PageMissing<T>(v: Vault<T>, pageSize: nat, k: nat, n: nat)
    requires k < n && k * pageSize in v.down
    ensures Unreachable(v, pageSize, n)
  {
  }

  method FetchRemainingInParallel<T>(v: Vault<T>, pageSize: nat, data: seq<T>, totalPages: nat)
    returns (r: Result<seq<T>>)
    requires 0 !in v.down
    requires data == Slice(v.records, 0, Applied(v, pageSize)) && totalPages == Reported(v, pageSize)
    ensures r.Ok? ==> multiset(r.value) == multiset(Gathered(v, pageSize))
    ensures r.Err? <==> Unreachable(v, pageSize, ParallelPages(v, pageSize))
  {
    ghost var n := ParallelPages(v, pageSize);
    var pending := Ascending(Min(totalPages, MAX_PAGES));
    assert pending == Ascending(n);
    ghost var limit := Applied(v, pageSize);
    var collected: seq<T> := [];
    ghost var order: seq<nat> := [];
    while pending != []
      invariant multiset(order) + multiset(pending) == multiset(Ascending(n))
      invariant forall p :: p in order ==> p * pageSize !in v.down
      invariant collected == Collected(v.records, pageSize, limit, order)
      decreases |pending|
    {
      hide *;
      // any page still outstanding may complete next
      var j :| 0 <= j < |pending|;
      var p: nat := pending[j];
      var page := RequestPage(v, pageSize, p);
      OneArrives(order, pending, j, n);
      if page.Err? {
        PageMissing(v, pageSize, p, n);
        return Err;
      }
      pending := pending[..j] + pending[j + 1..];
      CollectedLast(v.records, pageSize, limit, order, p);
      collected := collected + page.value;
      order := order + [p];
    }
    r := Ok(data + collected);
    assert Gathered(v, pageSize) == data + Collected(v.records, pageSize, limit, Ascending(n));
    hide *;
    ParallelReached(v, pageSize, order, n);
    CollectedPermuted(v.records, pageSize, limit, order, Ascending(n));
  }

  lemma {:induction false} ParallelReached<T>(v: Vault<T>, pageSize: nat, order: seq<nat>, n: nat)
    requires 0 !in v.down
    requires multiset(order) == multiset(Ascending(n))
    requires forall p :: p in order ==> p * pageSize !in v.down
    ensures !Unreachable(v, pageSize, n)
  {
    forall k: nat | k < n ensures k * pageSize !in v.down {
      if k == 0 {
        assert k * pageSize == 0;
      } else {
        assert k in Ascending(n);
        assert k in multiset(order);
      }
    }
  }

  // ---------------------------------------------------------------- fetch_ips

  /** Each way of paging returns its pages' records, each once, the walk in order; a fetch fails exactly when
      a page it has to read is unreachable. Without a cap below the page size all three return the first
      `MAX_PAGES` pages of the listing. */
  method FetchIps<T>(v: Vault<T>, pageSize: nat) returns (r: Result<seq<T>>)
    requires pageSize > 0
    ensures r.Ok? && v.flavour == Envelope ==> multiset(r.value) == multiset(Gathered(v, pageSize))
    ensures r.Ok? && v.flavour != Envelope ==> r.value == Walked(v, pageSize)
    ensures r.Ok? && v.cap >= pageSize ==> multiset(r.value) == multiset(Wanted(v, pageSize))
    ensures r.Err? <==> Unreachable(v, pageSize, PagesRead(v, pageSize))
  {
    hide Wanted, Gathered, Slice, WalkedPages, ParallelPages, Reported, Unreachable;
    var first := ServeProbe(v, pageSize);
    if v.cap >= pageSize { GatherHarmlessIff(v, pageSize); }
    match first {
      case Enveloped(data, totalPages) =>
        r := FetchRemainingInParallel(v, pageSize, data, totalPages);
      case Legacy(page) =>
        r := FetchSequentially(v, pageSize, page);
      case BadRequest =>
        r := FetchSequentially(v, pageSize, []);
      case Failure =>
        ProbeMissing(v, pageSize);
        r := Err;
    }
  }

  lemma {:induction false} ProbeMissing<T>(v: Vault<T>, pageSize: nat)
    requires pageSize > 0 && 0 in v.down
    ensures Unreachable(v, pageSize, PagesRead(v, pageSize))
  {
    assert PagesRead(v, pageSize) >= 1;
    hide PagesRead;
    PageMissing(v, pageSize, 0, PagesRead(v, pageSize));
  }

  function PagesRead<T>(v: Vault<T>, pageSize: nat): nat
    requires pageSize > 0
  {
    if v.flavour == Envelope then ParallelPages(v, pageSize) else WalkedPages(v, pageSize)
  }
}
