/** From the Vault's records to the bytes served: the worker (src/sync.rs), the cache (src/cache.rs), the
    retention window and the feed (src/feed.rs) together. */
module ServedFeed {
  import opened Cidr
  import opened Aggregate
  import opened Collections
  import opened Feed
  import opened IpCache
  import opened SyncWorker
  import RateLimiter
  import Text

  ghost predicate ParsesNets(parse: Parser) { forall a :: parse(a).Some? ==> ValidNet(parse(a).value) }

  lemma {:induction false} SnapshotValid(v: Vault, parse: Parser, maxAge: int, now: int, nets: seq<IpNet>)
    requires ParsesNets(parse) && SnapshotOf(Mirror(v, parse), maxAge, now, nets)
    ensures ValidNets(nets)
  {
    forall n | n in nets ensures ValidNet(n) {
      var a :| a in Mirror(v, parse) && Mirror(v, parse)[a].network == n;
      assert parse(a) == Some(n);
    }
  }

  /** The Vault has a live record that puts `ip` in the feed: its address parses to a network that contains
      `ip`, is no older than the window, if there is one, and shares no address with an enabled list. */
  ghost predicate ListedBy(v: Vault, parse: Parser, maxAge: int, now: int, f: Filters, ls: RangeLists, ip: Ip, a: string)
    requires ParsesNets(parse) && InRangeLists(ls)
  {
    && a in v && parse(a).Some? && (maxAge <= 0 || now - maxAge <= v[a])
    && Keeps(parse(a).value, f, ls) && Contains(parse(a).value, ip)
  }

  ghost predicate CalledFor(v: Vault, parse: Parser, maxAge: int, now: int, f: Filters, ls: RangeLists, ip: Ip)
    requires ParsesNets(parse) && InRangeLists(ls)
  {
    exists a :: ListedBy(v, parse, maxAge, now, f, ls, ip, a)
  }

  /** What the worker's cache holds after a run, and the blocks served from it. */
  ghost predicate Serves(row: Option<int>, ts: seq<Tick>, parse: Parser, maxAge: int, now: int,
                         nets: seq<IpNet>, f: Filters, ls: RangeLists, out: seq<Block>) {
    && SnapshotOf(Run(row, ts, parse).entry.records, maxAge, now, nets)
    && InRangeAll(nets) && InRangeLists(ls) && IsFeed(nets, f, ls, out)
  }

  /** Over every run of the worker whose differential batches are complete, the blocks served cover exactly
      the addresses that the Vault's records, as of the latest sync, call for. */
  lemma {:induction false} FeedOfVault(row: Option<int>, ts: seq<Tick>, vs: seq<Vault>, parse: Parser, maxAge: int, now: int,
                                       nets: seq<IpNet>, f: Filters, ls: RangeLists, out: seq<Block>, ip: Ip)
    requires Sound(row, ts, vs, parse) && FullsUpTo(row, ts, parse) >= 1 && ParsesNets(parse) && ValidLists(ls)
    requires Serves(row, ts, parse, maxAge, now, nets, f, ls, out) && ValidIp(ip)
    ensures var k := SyncsUpTo(row, ts, parse);
            k >= 1 && (Covered(Elems(out), ip) <==> CalledFor(vs[k - 1], parse, maxAge, now, f, ls, ip))
  {
    RunMirrors(row, ts, vs, parse);
    hide Sound, FullsUpTo, SyncsUpTo, Run, Canonical, Keeps;
    var v := vs[SyncsUpTo(row, ts, parse) - 1];
    var m := Mirror(v, parse);
    assert Covered(Elems(out), ip) <==> Published(nets, f, ls, ip);
    if Published(nets, f, ls, ip) {
      var n :| n in nets && Keeps(n, f, ls) && Contains(n, ip);
      var a :| a in m && m[a].network == n && (maxAge > 0 ==> now - m[a].lastSeen <= maxAge);
      assert ListedBy(v, parse, maxAge, now, f, ls, ip, a);
    }
    if a :| ListedBy(v, parse, maxAge, now, f, ls, ip, a) {
      assert a in m && m[a].network in nets;
    }
  }

  /** With the cache as it is, a later request or a narrower window never serves an address that an earlier
      request or a wider window did not; a window of zero or less is the widest. */
  lemma {:induction false} FeedOnlyShrinks(records: map<string, CachedRecord>, maxAge: int, now: int, nets: seq<IpNet>, out: seq<Block>,
                                           maxAge': int, now': int, nets': seq<IpNet>, out': seq<Block>,
                                           f: Filters, ls: RangeLists, ip: Ip)
    requires SnapshotOf(records, maxAge, now, nets) && SnapshotOf(records, maxAge', now', nets')
    requires now <= now' && (maxAge <= 0 || 0 < maxAge' <= maxAge)
    requires InRangeAll(nets) && InRangeAll(nets') && InRangeLists(ls) && IsFeed(nets, f, ls, out) && IsFeed(nets', f, ls, out')
    requires ValidIp(ip) && Covered(Elems(out'), ip)
    ensures Covered(Elems(out), ip)
  {
    hide Keeps, Canonical;
    var n :| n in nets' && Keeps(n, f, ls) && Contains(n, ip);
    var a :| a in records && records[a].network == n && (maxAge' > 0 ==> now' - records[a].lastSeen <= maxAge');
    assert n in nets;
    assert Published(nets, f, ls, ip);
  }

  /** And the body is, byte for byte, what a process that had just started and made its first full sync of
      that state would serve. */
  lemma {:induction false} SameBodyAsFullSync(row: Option<int>, ts: seq<Tick>, vs: seq<Vault>, last: seq<VaultRecord>, parse: Parser,
                                              maxAge: int, now: int, nets: seq<IpNet>, nets': seq<IpNet>, f: Filters,
                                              ls: RangeLists, out: seq<Block>, out': seq<Block>, render: Block -> string)
    requires Sound(row, ts, vs, parse) && FullsUpTo(row, ts, parse) >= 1 && ParsesNets(parse) && ValidLists(ls)
    requires SyncsUpTo(row, ts, parse) >= 1 ==> Listing(last, vs[SyncsUpTo(row, ts, parse) - 1])
    requires Serves(row, ts, parse, maxAge, now, nets, f, ls, out)
    requires SnapshotOf(FullRecords(last, parse), maxAge, now, nets')
    requires InRangeAll(nets') && IsFeed(nets', f, ls, out')
    ensures FeedBody(out, render) == FeedBody(out', render)
  {
    RunMirrors(row, ts, vs, parse);
    var v := vs[SyncsUpTo(row, ts, parse) - 1];
    FullMirrors(last, v, parse);
    hide Sound, FullsUpTo, SyncsUpTo, Run, Listing, FeedBody, Keeps, IsFeed, FullRecords, Mirror;
    SnapshotValid(v, parse, maxAge, now, nets);
    SnapshotValid(v, parse, maxAge, now, nets');
    assert forall n :: n in nets <==> n in nets';
    assert SamePublished(nets, f, nets', f, ls);
    BodyIsPublishedSet(nets, f, out, nets', f, out', ls, render);
  }

  // ---------------------------------------------------------------- conditional requests

  /** The entity tag: the body's hash in quotes. */
  function ETag(body: string, hash: string -> string): string { "\"" + hash(body) + "\"" }

  lemma {:induction false} TagsMatch(a: string, b: string)
    ensures Text.Trim("\"" + a + "\"") == "\"" + b + "\"" <==> a == b
  {
    var s, t := "\"" + a + "\"", "\"" + b + "\"";
    Text.Untrimmed(s);
    assert s[1..|s| - 1] == a && t[1..|t| - 1] == b;
  }

  /** A client that kept the tag of an earlier body and sends it back is told "not modified" exactly when the
      set of published addresses is what it was, however the records, the filters or the cache changed in
      between; provided the hash tells the two bodies apart and blocks are written distinguishably. */
  lemma {:induction false} NotModifiedIsUnchanged<A>(p: RateLimiter.Poll<A>, hash: string -> string, render: Block -> string,
                                                     ns: seq<IpNet>, f: Filters, out: seq<Block>,
                                                     ns': seq<IpNet>, f': Filters, out': seq<Block>, ls: RangeLists)
    requires ValidNets(ns) && ValidNets(ns') && ValidLists(ls) && Faithful(render)
    requires IsFeed(ns, f, ls, out) && IsFeed(ns', f', ls, out')
    requires p.ifNoneMatch == Some(ETag(FeedBody(out, render), hash)) && p.etag == ETag(FeedBody(out', render), hash)
    requires hash(FeedBody(out, render)) == hash(FeedBody(out', render)) ==> FeedBody(out, render) == FeedBody(out', render)
    ensures RateLimiter.Revalidates(p) <==> SamePublished(ns, f, ns', f', ls)
  {
    hide FeedBody, IsFeed, SamePublished, Faithful;
    TagsMatch(hash(FeedBody(out, render)), hash(FeedBody(out', render)));
    BodyIsPublishedSet(ns, f, out, ns', f', out', ls, render);
  }
}
