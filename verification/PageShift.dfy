/** The offset walk over a listing that changes between pages (src/vault_client.rs:176-183), and what a full
    sync that skipped a record leaves behind. */
module PageShift {
  import opened Collections
  import opened IpCache
  import opened SinceCursor
  import opened SyncWorker
  import opened VaultPaging

  /** Page `k`, read from the listing as it then is. */
  function PageOf<T>(lists: seq<seq<T>>, p: nat, k: nat): seq<T>
    requires k < |lists|
  {
    Slice(lists[k], k * p, p)
  }

  /** What the first `n` pages of a walk over these successive listings bring back. */
  function WalkTo<T>(lists: seq<seq<T>>, p: nat, n: nat): seq<T>
    requires n <= |lists|
  {
    if n == 0 then [] else WalkTo(lists, p, n - 1) + PageOf(lists, p, n - 1)
  }

  function Walk<T>(lists: seq<seq<T>>, p: nat): seq<T> { WalkTo(lists, p, |lists|) }

  /** The walk ended at a short page. */
  ghost predicate Ended<T>(lists: seq<seq<T>>, p: nat) {
    lists != [] && |lists[|lists| - 1]| < |lists| * p
  }

  /** `x` is in every listing, at these positions, and nowhere twice. */
  ghost predicate Placed<T>(lists: seq<seq<T>>, x: T, pos: seq<nat>) {
    |pos| == |lists| && forall k :: 0 <= k < |lists| ==> Distinct(lists[k]) && pos[k] < |lists[k]| && lists[k][pos[k]] == x
  }

  /** Its position falls into page `k` when that page is read. */
  ghost predicate OnPage(pos: seq<nat>, p: nat, k: nat)
    requires k < |pos|
  {
    k * p <= pos[k] < k * p + p
  }

  lemma {:induction false} OnPageIff<T>(lists: seq<seq<T>>, p: nat, x: T, pos: seq<nat>, k: nat)
    requires Placed(lists, x, pos) && k < |lists|
    ensures x in PageOf(lists, p, k) <==> OnPage(pos, p, k)
  {
    var s, o, i := lists[k], k * p, pos[k];
    NextOffset(k, p);
    SliceMember(s, o, p, i);
  }

  lemma SliceMember<T>(s: seq<T>, o: nat, p: nat, i: nat)
    requires Distinct(s) && i < |s|
    ensures s[i] in Slice(s, o, p) <==> o <= i < o + p
  {
    if o <= i < o + p { assert Slice(s, o, p)[i - o] == s[i]; }
  }

  /** One of the first `n` pages is read while the record is on it. */
  ghost predicate Met(pos: seq<nat>, p: nat, n: nat)
    requires n <= |pos|
  {
    exists k :: 0 <= k < n && OnPage(pos, p, k)
  }

  lemma MetStep(pos: seq<nat>, p: nat, n: nat)
    requires n < |pos|
    ensures Met(pos, p, n + 1) <==> Met(pos, p, n) || OnPage(pos, p, n)
  {
    hide OnPage;
  }

  /** A record present throughout is returned exactly when some page is read while the record is on it. */
  lemma {:induction false} ReturnedIff<T>(lists: seq<seq<T>>, p: nat, x: T, pos: seq<nat>, n: nat)
    requires Placed(lists, x, pos) && n <= |lists|
    ensures x in WalkTo(lists, p, n) <==> Met(pos, p, n)
    decreases n
  {
    hide Placed, PageOf, OnPage, Met;
    assert |pos| == |lists| by { PlacedLength(lists, x, pos); }
    if n == 0 {
      NotMetYet(pos, p);
    } else {
      ReturnedIff(lists, p, x, pos, n - 1);
      OnPageIff(lists, p, x, pos, n - 1);
      MetStep(pos, p, n - 1);
    }
  }

  lemma PlacedLength<T>(lists: seq<seq<T>>, x: T, pos: seq<nat>)
    requires Placed(lists, x, pos)
    ensures |pos| == |lists|
  {
  }

  lemma NotMetYet(pos: seq<nat>, p: nat)
    ensures !Met(pos, p, 0)
  {
  }

  /** Between page `k` and the next the record moves to the front across the boundary between them. */
  ghost predicate SlidesBack(pos: seq<nat>, p: nat, k: nat)
    requires k + 1 < |pos|
  {
    pos[k + 1] < k * p + p <= pos[k]
  }

  /** With no sliding back, the record has been met or is still to come. */
  lemma {:induction false} MetOrAhead(pos: seq<nat>, p: nat, n: nat)
    requires n < |pos| && forall k :: 0 <= k < n ==> !SlidesBack(pos, p, k)
    ensures Met(pos, p, n + 1) || pos[n] >= n * p + p
    decreases n
  {
    MetStep(pos, p, n);
    if n > 0 {
      MetOrAhead(pos, p, n - 1);
      NextOffset(n - 1, p);
      assert !SlidesBack(pos, p, n - 1);
    }
    hide Met;
  }

  /** A record present throughout is skipped only by sliding back across a page boundary between the two
      reads, which takes the removal of something ahead of it: one that never does is returned. */
  lemma {:induction false} SkippedOnlyBySliding<T>(lists: seq<seq<T>>, p: nat, x: T, pos: seq<nat>)
    requires Placed(lists, x, pos) && Ended(lists, p)
    requires forall k :: 0 <= k && k + 1 < |lists| ==> !SlidesBack(pos, p, k)
    ensures x in Walk(lists, p)
  {
    var n := |lists| - 1;
    ReturnedIff(lists, p, x, pos, n + 1);
    MetOrAhead(pos, p, n);
    NextOffset(n, p);
    assert pos[n] < |lists[n]|;
  }

  /** Removing one record from the first page after it was read skips exactly the first record of the
      second. */
  lemma {:induction false} RemovalAheadSkips<T>(s: seq<T>, p: nat, j: nat)
    requires Distinct(s) && j < p < |s| <= 2 * p
    ensures var lists := [s, s[..j] + s[j + 1..]];
            Ended(lists, p) && Walk(lists, p) == s[..p] + s[p + 1..] && s[p] in lists[1] && s[p] !in Walk(lists, p)
  {
    var s' := s[..j] + s[j + 1..];
    TwoPages([s, s'], s, s', p);
    hide Walk;
    assert Slice(s, 0, p) == s[..p];
    assert Slice(s', p, p) == s'[p..] == s[p + 1..];
    assert s'[p - 1] == s[p];
  }

  lemma {:induction false} TwoPages<T>(lists: seq<seq<T>>, s: seq<T>, s': seq<T>, p: nat)
    requires lists == [s, s']
    ensures Walk(lists, p) == Slice(s, 0, p) + Slice(s', p, p)
  {
    assert 0 * p == 0 && 1 * p == p;
    assert PageOf(lists, p, 0) == Slice(s, 0, p) && PageOf(lists, p, 1) == Slice(s', p, p);
    hide PageOf, Slice;
    assert WalkTo(lists, p, 0) == [] && WalkTo(lists, p, 1) == PageOf(lists, p, 0);
  }

  // ---------------------------------------------------------------- and then

  lemma {:induction false} UnmentionedNotStored(batch: seq<VaultRecord>, a: string, parse: Parser)
    requires !Mentions(batch, a)
    ensures a !in FullRecords(batch, parse)
  {
    if batch != [] {
      MentionsLast(batch, a);
      UnmentionedNotStored(batch[..|batch| - 1], a, parse);
    }
  }

  /** What a full sync skipped is gone from the cache, and no differential brings it back while the record
      itself does not change: until the next full sync it is not published. */
  lemma {:induction false} SkippedUntilNextFull(row: Option<int>, ts: seq<Tick>, n: nat, h: seq<Change>, cuts: seq<int>, a: string, parse: Parser)
    requires DifferentialsOnly(row, ts, n, h, cuts, parse) && ActionAt(row, ts, n - 1, parse) == FullSync
    requires !Mentions(BatchAt(row, ts, n - 1, parse), a)
    requires forall i :: n <= i < |ts| ==> !ChangedIn(h, a, Cursor(ts[n - 1]), cuts[i])
    ensures a !in Run(row, ts, parse).entry.records
  {
    UnmentionedNotStored(BatchAt(row, ts, n - 1, parse), a, parse);
    assert ts[..n][..n - 1] == ts[..n - 1] && ts[..n][n - 1] == ts[n - 1];
    assert a !in Run(row, ts[..n], parse).entry.records;
    hide Run, ChangedIn, Mentions, DifferentialsOnly;
    KeptSinceCursor(row, ts, n, h, cuts, a, parse);
  }

  /** A concrete run, with pages of one record: `x` is removed after its page was read, `a` slides onto that
      page and is never read, and the differential a minute on has no reason to mention it. The Vault lists
      `a` throughout; the feed has lost it. */
  lemma {:induction false} UnchangedRecordLost(parse: Parser)
    ensures exists ts, h, cuts ::
              && DifferentialsOnly(None, ts, 1, h, cuts, parse) && |ts| == 2
              && ActionAt(None, ts, 0, parse) == FullSync && ActionAt(None, ts, 1, parse) == DiffSync
              && BatchAt(None, ts, 0, parse) == Walk([[Live("x"), Live("a")], [Live("a")]], 1)
              && "a" in StateAt(h, cuts[0]) && "a" in StateAt(h, cuts[1]) && "a" !in Run(None, ts, parse).entry.records
  {
    var lists := [[Live("x"), Live("a")], [Live("a")]];
    var batch := [Live("x")];
    var t0 := Tick(0, 10 * SECOND, 0, 12_300_000_000, 1, (ask: Ask) => if ask == Everything then Fetched(batch) else Failed, true);
    var t1 := Tick(60 * SECOND, 60 * SECOND, 60 * SECOND, 60 * SECOND, 1,
                   (ask: Ask) => if ask == Since(12) then Fetched([]) else Failed, true);
    var ts := [t0, t1];
    var h := [Change(SECOND, "a", Some(SECOND)), Change(SECOND, "x", Some(SECOND)), Change(10_500_000_000, "x", None)];
    var cuts := [10 * SECOND, 60 * SECOND];
    hide Run, ActionAt, BatchAt, StateAt, Walk, ExactAnswer, Mentions, ChangedIn;
    LostWalk(lists, batch);
    LostHistory(h);
    assert AnswersExactly(t1, h, cuts[1]);
    LostRun(ts, t0, t1, batch, parse);
    assert DifferentialsOnly(None, ts, 1, h, cuts, parse);
    SkippedUntilNextFull(None, ts, 1, h, cuts, "a", parse);
  }

  function Live(a: string): VaultRecord { VaultRecord(a, SECOND, false) }

  lemma {:induction false} LostWalk(lists: seq<seq<VaultRecord>>, batch: seq<VaultRecord>)
    requires lists == [[Live("x"), Live("a")], [Live("a")]] && batch == [Live("x")]
    ensures Walk(lists, 1) == batch && !Mentions(batch, "a")
  {
    TwoPages(lists, lists[0], lists[1], 1);
    hide Walk;
    assert Slice(lists[0], 0, 1) == batch && Slice(lists[1], 1, 1) == [];
    assert "x"[0] != "a"[0];
  }

  lemma {:induction false} LostHistory(h: seq<Change>)
    requires h == [Change(SECOND, "a", Some(SECOND)), Change(SECOND, "x", Some(SECOND)), Change(10_500_000_000, "x", None)]
    ensures "a" in StateAt(h, 10 * SECOND) && "a" in StateAt(h, 60 * SECOND)
    ensures ExactAnswer(h, 60 * SECOND, Since(12), [])
    ensures !ChangedIn(h, "a", 12 * SECOND, 60 * SECOND)
  {
    var one, two := h[..1], h[..2];
    assert two[..1] == one && one[..0] == [];
    assert "a"[0] != "x"[0];
    assert "a" in StateAt(one, 10 * SECOND) && "a" in StateAt(one, 60 * SECOND);
    assert "a" in StateAt(two, 10 * SECOND) && "a" in StateAt(two, 60 * SECOND);
  }

  lemma {:induction false} LostRun(ts: seq<Tick>, t0: Tick, t1: Tick, batch: seq<VaultRecord>, parse: Parser)
    requires ts == [t0, t1] && t0.vault(Everything) == Fetched(batch) && t0.applied == 0 && t0.marked == 12_300_000_000 && t0.persists
    requires t1.check == t1.wall == 60 * SECOND && t1.ttl == 1 && t1.vault(Since(12)) == Fetched([])
    ensures ActionAt(None, ts, 0, parse) == FullSync && BatchAt(None, ts, 0, parse) == batch
    ensures ActionAt(None, ts, 1, parse) == DiffSync && Cursor(t0) == 12 * SECOND
  {
    assert ts[..0] == [] && ts[..1] == [t0] && [t0][..0] == [];
    var before, s := Run(None, [], parse), Run(None, ts[..1], parse);
    assert before == Local(EMPTY, None) && ActionOf(before, t0) == FullSync;
    assert s == After(before, t0, parse);
    assert s.entry.lastFull == Some(0) && s.rowSynced == Some(12_300_000_000);
  }
}
