/** What the `since` cursor can miss. The mark is read after a differential has been answered
    (src/sync.rs:154-172), so a change that reaches the Vault between its answer and the mark is asked about
    by no later differential. The Vault is given a history; both sides read one clock, in nanoseconds. */
module SinceCursor {
  import opened Collections
  import opened IpCache
  import opened SyncWorker

  /** At instant `at` the address was seen live (at `seen`) or was removed. */
  datatype Change = Change(at: int, address: string, seen: Option<int>)

  /** The Vault at instant `t`. */
  function StateAt(h: seq<Change>, t: int): Vault {
    if h == [] then map[]
    else
      var v, c := StateAt(h[..|h| - 1], t), h[|h| - 1];
      if c.at > t then v else if c.seen.Some? then v[c.address := c.seen.value] else v - {c.address}
  }

  /** Some change to `a` lies from `from` to `to`, both included. */
  ghost predicate ChangedIn(h: seq<Change>, a: string, from: int, to: int) {
    exists i :: 0 <= i < |h| && h[i].address == a && from <= h[i].at <= to
  }

  ghost predicate SameRecord(v: Vault, v': Vault, a: string) { (a in v <==> a in v') && (a in v ==> v[a] == v'[a]) }

  lemma ChangedInFront(h: seq<Change>, a: string, from: int, to: int)
    requires h != []
    ensures ChangedIn(h[..|h| - 1], a, from, to) ==> ChangedIn(h, a, from, to)
  {
    var front := h[..|h| - 1];
    assert forall i :: 0 <= i < |front| ==> front[i] == h[i];
  }

  lemma {:induction false} UnchangedBetween(h: seq<Change>, a: string, t: int, t': int)
    requires t <= t' && !ChangedIn(h, a, t + 1, t')
    ensures SameRecord(StateAt(h, t), StateAt(h, t'), a)
  {
    if h != [] {
      var front, c := h[..|h| - 1], h[|h| - 1];
      ChangedInFront(h, a, t + 1, t');
      UnchangedBetween(front, a, t, t');
      assert c.address != a || c.at <= t || c.at > t';
    }
  }

  /** An exact answer at instant `cut`: everything live, or the present state of exactly the addresses with a
      change since the second asked for. */
  ghost predicate ExactAnswer(h: seq<Change>, cut: int, ask: Ask, batch: seq<VaultRecord>) {
    match ask
    case Everything => Listing(batch, StateAt(h, cut)) && forall r :: r in batch ==> !r.isDeleted
    case Since(second) =>
      Truthful(batch, StateAt(h, cut)) && forall a :: Mentions(batch, a) <==> ChangedIn(h, a, second * SECOND, cut)
  }

  /** `a` changed after the instant of the sync before and is not reported by this answer. */
  ghost predicate Slips(h: seq<Change>, before: int, ask: Ask, cut: int, a: string) {
    ChangedIn(h, a, before + 1, cut) &&
    match ask
    case Everything => a !in StateAt(h, cut)
    case Since(second) => !ChangedIn(h, a, second * SECOND, cut)
  }

  /** For a differential, that is the changes between the Vault's previous answer and the second asked for,
      of addresses that have not changed again. */
  lemma {:induction false} SlipWindow(h: seq<Change>, before: int, second: int, cut: int, a: string)
    requires before < second * SECOND <= cut
    ensures Slips(h, before, Since(second), cut, a) <==>
              ChangedIn(h, a, before + 1, second * SECOND - 1) && !ChangedIn(h, a, second * SECOND, cut)
  {
    if i :| 0 <= i < |h| && h[i].address == a && before + 1 <= h[i].at <= cut {
      if h[i].at < second * SECOND {
        assert ChangedIn(h, a, before + 1, second * SECOND - 1);
      } else {
        assert ChangedIn(h, a, second * SECOND, cut);
      }
    }
    if i :| 0 <= i < |h| && h[i].address == a && before + 1 <= h[i].at <= second * SECOND - 1 {
      assert ChangedIn(h, a, before + 1, cut);
    }
  }

  /** A cursor at or before the previous answer lets nothing slip. */
  lemma {:induction false} EarlyCursorIsSafe(h: seq<Change>, before: int, second: int, cut: int, a: string)
    requires second * SECOND <= before + 1
    ensures !Slips(h, before, Since(second), cut, a)
  {
    if i :| 0 <= i < |h| && h[i].address == a && before + 1 <= h[i].at <= cut {
      assert ChangedIn(h, a, second * SECOND, cut);
    }
  }

  ghost predicate NoneSlips(h: seq<Change>, before: int, ask: Ask, cut: int, parse: Parser) {
    forall a :: Changed(StateAt(h, before), StateAt(h, cut), parse, a) ==> !Slips(h, before, ask, cut, a)
  }

  /** One differential from a faithful cache: it reaches the Vault's present state exactly when no address
      that looks different to the exporter has slipped. */
  lemma {:induction false} DifferentialMissesIff(h: seq<Change>, before: int, ask: Ask, cut: int, batch: seq<VaultRecord>, parse: Parser)
    requires before <= cut && ExactAnswer(h, cut, ask, batch)
    ensures DiffRecords(Mirror(StateAt(h, before), parse), batch, parse) == Mirror(StateAt(h, cut), parse) <==>
              NoneSlips(h, before, ask, cut, parse)
  {
    var v, v' := StateAt(h, before), StateAt(h, cut);
    DiffMirrors(v, v', batch, parse);
    hide DiffRecords;
    forall a ensures Changed(v, v', parse, a) ==> (Mentions(batch, a) <==> !Slips(h, before, ask, cut, a)) {
      if Changed(v, v', parse, a) { MentionedIff(h, before, ask, cut, batch, parse, a); }
    }
    hide Changed, Mentions, Slips;
  }

  lemma {:induction false} MentionedIff(h: seq<Change>, before: int, ask: Ask, cut: int, batch: seq<VaultRecord>, parse: Parser, a: string)
    requires before <= cut && ExactAnswer(h, cut, ask, batch)
    requires Changed(StateAt(h, before), StateAt(h, cut), parse, a)
    ensures Mentions(batch, a) <==> !Slips(h, before, ask, cut, a)
  {
    var v' := StateAt(h, cut);
    assert ChangedIn(h, a, before + 1, cut) by {
      if !ChangedIn(h, a, before + 1, cut) { UnchangedBetween(h, a, before, cut); }
    }
    hide StateAt, Changed, ChangedIn;
    if ask.Everything? && a !in v' {
      NotListed(batch, v', a);
    }
  }

  lemma NotListed(batch: seq<VaultRecord>, v: Vault, a: string)
    requires Truthful(batch, v) && a !in v && forall r :: r in batch ==> !r.isDeleted
    ensures !Mentions(batch, a)
  {
  }

  // ---------------------------------------------------------------- whole runs of the worker

  ghost predicate AnswersExactly(t: Tick, h: seq<Change>, cut: int) {
    forall ask :: t.vault(ask).Fetched? ==> ExactAnswer(h, cut, ask, t.vault(ask).batch)
  }

  /** `cuts[i]` is the instant at which tick `i` was answered. */
  ghost predicate Timeline(ts: seq<Tick>, h: seq<Change>, cuts: seq<int>) {
    && |cuts| == |ts| && (forall i, j :: 0 <= i < j < |cuts| ==> cuts[i] <= cuts[j])
    && forall i :: 0 <= i < |ts| ==> AnswersExactly(ts[i], h, cuts[i])
  }

  /** Nothing visible slips past the differential at tick `i`. */
  ghost predicate NothingSlips(row: Option<int>, ts: seq<Tick>, h: seq<Change>, cuts: seq<int>, i: nat, parse: Parser)
    requires i < |ts| == |cuts|
  {
    var s, k := Run(row, ts[..i], parse), SyncsUpTo(row, ts[..i], parse);
    ActionOf(s, ts[i]) == DiffSync && k >= 1 ==> NoneSlips(h, cuts[k - 1], Sent(s, ts[i]).value, cuts[i], parse)
  }

  ghost function States(h: seq<Change>, cuts: seq<int>): (vs: seq<Vault>)
    ensures |vs| == |cuts| && forall i :: 0 <= i < |vs| ==> vs[i] == StateAt(h, cuts[i])
  {
    seq(|cuts|, i requires 0 <= i < |cuts| => StateAt(h, cuts[i]))
  }

  lemma {:induction false} SoundUnlessSlipped(row: Option<int>, ts: seq<Tick>, h: seq<Change>, cuts: seq<int>, i: nat, parse: Parser)
    requires Timeline(ts, h, cuts) && i < |ts| && NothingSlips(row, ts, h, cuts, i, parse)
    ensures SoundAt(row, ts, States(h, cuts), i, parse)
  {
    var s, t, k := Run(row, ts[..i], parse), ts[i], SyncsUpTo(row, ts[..i], parse);
    hide Run, SyncsUpTo, StateAt, Slips, Changed, Mentions, Listing, Truthful;
    if ActionOf(s, t) != NoSync {
      var ask := Sent(s, t).value;
      assert ExactAnswer(h, cuts[i], ask, t.vault(ask).batch);
      if ActionOf(s, t) == DiffSync && k >= 1 {
        forall a | Changed(StateAt(h, cuts[k - 1]), StateAt(h, cuts[i]), parse, a) ensures Mentions(t.vault(ask).batch, a) {
          MentionedIff(h, cuts[k - 1], ask, cuts[i], t.vault(ask).batch, parse, a);
        }
      }
      ListingTruthful(h, cuts[i], ask, t.vault(ask).batch);
    }
  }

  lemma {:induction false} ListingTruthful(h: seq<Change>, cut: int, ask: Ask, batch: seq<VaultRecord>)
    requires ExactAnswer(h, cut, ask, batch)
    ensures Truthful(batch, StateAt(h, cut))
  {
  }

  /** Against a Vault that answers exactly, a run in which nothing visible slips leaves the cache at the
      Vault's state as of the latest sync. */
  lemma {:induction false} TracksUnlessSlipped(row: Option<int>, ts: seq<Tick>, h: seq<Change>, cuts: seq<int>, parse: Parser)
    requires Timeline(ts, h, cuts) && FullsUpTo(row, ts, parse) >= 1
    requires forall i :: 0 <= i < |ts| ==> NothingSlips(row, ts, h, cuts, i, parse)
    ensures var k := SyncsUpTo(row, ts, parse);
            k >= 1 && Run(row, ts, parse).entry.records == Mirror(StateAt(h, cuts[k - 1]), parse)
  {
    hide Timeline, NothingSlips, SoundAt;
    assert |cuts| == |ts| by { TimelineLength(ts, h, cuts); }
    forall i | 0 <= i < |ts| ensures SoundAt(row, ts, States(h, cuts), i, parse) {
      SoundUnlessSlipped(row, ts, h, cuts, i, parse);
    }
    RunMirrors(row, ts, States(h, cuts), parse);
  }

  lemma TimelineLength(ts: seq<Tick>, h: seq<Change>, cuts: seq<int>)
    requires Timeline(ts, h, cuts)
    ensures |cuts| == |ts|
  {
  }

  lemma {:induction false} UnmentionedKept(m: map<string, CachedRecord>, batch: seq<VaultRecord>, a: string, parse: Parser)
    requires !Mentions(batch, a)
    ensures a in DiffRecords(m, batch, parse) <==> a in m
    ensures a in m ==> DiffRecords(m, batch, parse)[a] == m[a]
  {
    if batch != [] {
      MentionsLast(batch, a);
      UnmentionedKept(m, batch[..|batch| - 1], a, parse);
    }
  }

  /** This visit makes no full sync, a differential asks from `from` or later, and `a` has not changed since
      then. */
  ghost predicate Overlooks(s: Local, t: Tick, h: seq<Change>, cut: int, a: string, from: int) {
    && ActionOf(s, t) != FullSync && !ChangedIn(h, a, from, cut)
    && (ActionOf(s, t) == DiffSync ==> Sent(s, t).value.Since? && Sent(s, t).value.second * SECOND >= from)
  }

  lemma {:induction false} OverlookedKept(s: Local, t: Tick, h: seq<Change>, cut: int, a: string, from: int, parse: Parser)
    requires AnswersExactly(t, h, cut) && Overlooks(s, t, h, cut, a, from)
    ensures var was, now := s.entry.records, After(s, t, parse).entry.records;
            (a in now <==> a in was) && (a in was ==> now[a] == was[a])
  {
    hide ChangedIn;
    if ActionOf(s, t) == DiffSync {
      var ask := Sent(s, t).value;
      assert ExactAnswer(h, cut, ask, t.vault(ask).batch);
      NarrowerToo(h, a, from, ask.second * SECOND, cut);
      UnmentionedKept(s.entry.records, t.vault(ask).batch, a, parse);
    }
  }

  /** What has slipped stays missed: until the next full sync, or another change, every differential leaves
      the cached record of that address, or its absence, as it was. */
  lemma {:induction false} StaysMissed(row: Option<int>, ts: seq<Tick>, n: nat, h: seq<Change>, cuts: seq<int>, a: string,
                                       from: int, parse: Parser)
    requires n <= |ts| == |cuts| && forall i :: n <= i < |ts| ==> AnswersExactly(ts[i], h, cuts[i])
    requires forall i :: n <= i < |ts| ==> Overlooks(Run(row, ts[..i], parse), ts[i], h, cuts[i], a, from)
    ensures var was, now := Run(row, ts[..n], parse).entry.records, Run(row, ts, parse).entry.records;
            (a in now <==> a in was) && (a in was ==> now[a] == was[a])
    decreases |ts|
  {
    hide AnswersExactly, Overlooks, After;
    if n == |ts| {
      assert ts[..n] == ts;
    } else {
      var last := |ts| - 1;
      var front := ts[..last];
      assert front[..n] == ts[..n];
      assert Run(row, ts, parse) == After(Run(row, front, parse), ts[last], parse);
      hide Run;
      forall i | n <= i < last ensures AnswersExactly(front[i], h, cuts[..last][i]) &&
        Overlooks(Run(row, front[..i], parse), front[i], h, cuts[..last][i], a, from)
      {
        assert front[..i] == ts[..i] && front[i] == ts[i] && cuts[..last][i] == cuts[i];
      }
      StaysMissed(row, front, n, h, cuts[..last], a, from, parse);
      OverlookedKept(Run(row, front, parse), ts[last], h, cuts[last], a, from, parse);
    }
  }

  lemma NarrowerToo(h: seq<Change>, a: string, from: int, later: int, to: int)
    requires from <= later && !ChangedIn(h, a, from, to)
    ensures !ChangedIn(h, a, later, to)
  {
  }

  // ---------------------------------------------------------------- from one slip to the next full sync

  /** The second from which the differential after this tick asks. */
  function Cursor(t: Tick): int { t.marked / SECOND * SECOND }

  /** Tick `n - 1` synced and recorded its mark, marks do not go back, and from then on the Vault answers
      exactly and no full sync succeeds. */
  ghost predicate DifferentialsOnly(row: Option<int>, ts: seq<Tick>, n: nat, h: seq<Change>, cuts: seq<int>, parse: Parser) {
    && 1 <= n <= |ts| == |cuts| && ActionAt(row, ts, n - 1, parse) != NoSync && ts[n - 1].persists
    && (forall i :: n <= i < |ts| ==> ts[n - 1].marked <= ts[i].marked)
    && (forall i :: n <= i < |ts| ==> AnswersExactly(ts[i], h, cuts[i]))
    && (forall i :: n <= i < |ts| ==> ActionAt(row, ts, i, parse) != FullSync)
  }

  lemma {:induction false} MarkKept(row: Option<int>, ts: seq<Tick>, n: nat, h: seq<Change>, cuts: seq<int>, i: nat, parse: Parser)
    requires DifferentialsOnly(row, ts, n, h, cuts, parse) && n <= i <= |ts|
    ensures var mark := Run(row, ts[..i], parse).rowSynced; mark.Some? && mark.value >= ts[n - 1].marked
    decreases i
  {
    hide AnswersExactly, ExactAnswer, AfterFull, AfterDiff, ActionOf;
    var front := ts[..i];
    assert front[..i - 1] == ts[..i - 1] && front[i - 1] == ts[i - 1];
    assert Run(row, front, parse) == After(Run(row, ts[..i - 1], parse), ts[i - 1], parse);
    hide Run;
    if i > n { MarkKept(row, ts, n, h, cuts, i - 1, parse); }
  }

  lemma LaterSecond(mark: int, later: int)
    requires mark <= later
    ensures mark / SECOND * SECOND <= later / SECOND * SECOND
  {
  }

  lemma {:induction false} AsksFromCursor(row: Option<int>, ts: seq<Tick>, n: nat, h: seq<Change>, cuts: seq<int>, i: nat,
                                          a: string, parse: Parser)
    requires DifferentialsOnly(row, ts, n, h, cuts, parse) && n <= i < |ts|
    requires !ChangedIn(h, a, Cursor(ts[n - 1]), cuts[i])
    ensures Overlooks(Run(row, ts[..i], parse), ts[i], h, cuts[i], a, Cursor(ts[n - 1]))
  {
    MarkKept(row, ts, n, h, cuts, i, parse);
    var s := Run(row, ts[..i], parse);
    LaterSecond(ts[n - 1].marked, s.rowSynced.value);
    hide Run, ChangedIn, AnswersExactly;
    assert ActionAt(row, ts, i, parse) != FullSync;
  }

  /** Whatever the cache holds for `a` after that sync it still holds at the end, if `a` has not changed since
      the cursor. */
  lemma {:induction false} KeptSinceCursor(row: Option<int>, ts: seq<Tick>, n: nat, h: seq<Change>, cuts: seq<int>, a: string, parse: Parser)
    requires DifferentialsOnly(row, ts, n, h, cuts, parse)
    requires forall i :: n <= i < |ts| ==> !ChangedIn(h, a, Cursor(ts[n - 1]), cuts[i])
    ensures var was, now := Run(row, ts[..n], parse).entry.records, Run(row, ts, parse).entry.records;
            (a in now <==> a in was) && (a in was ==> now[a] == was[a])
  {
    hide Run, Overlooks, ChangedIn, AnswersExactly, Cursor, ActionAt;
    forall i | n <= i < |ts| ensures Overlooks(Run(row, ts[..i], parse), ts[i], h, cuts[i], a, Cursor(ts[n - 1])) {
      AsksFromCursor(row, ts, n, h, cuts, i, a, parse);
    }
    StaysMissed(row, ts, n, h, cuts, a, Cursor(ts[n - 1]), parse);
  }

  /** One slip is enough: if a change to `a` that the exporter would see falls between a sync's answer and
      its cursor, and `a` does not change again, the cache is wrong about `a` for as long as only
      differentials succeed. */
  lemma {:induction false} SlipStaysMissed(row: Option<int>, ts: seq<Tick>, n: nat, h: seq<Change>, cuts: seq<int>, a: string, parse: Parser)
    requires DifferentialsOnly(row, ts, n, h, cuts, parse) && n < |ts|
    requires Run(row, ts[..n], parse).entry.records == Mirror(StateAt(h, cuts[n - 1]), parse)
    requires Changed(StateAt(h, cuts[n - 1]), StateAt(h, cuts[|ts| - 1]), parse, a)
    requires forall i :: n <= i < |ts| ==> !ChangedIn(h, a, Cursor(ts[n - 1]), cuts[i])
    ensures var now, right := Run(row, ts, parse).entry.records, Mirror(StateAt(h, cuts[|ts| - 1]), parse);
            !((a in now <==> a in right) && (a in now ==> now[a] == right[a]))
  {
    hide Run, StateAt, ChangedIn, AnswersExactly, Mirror;
    KeptSinceCursor(row, ts, n, h, cuts, a, parse);
  }

  /** A concrete run: an address is removed half a second after the first answer, the mark falls two seconds
      later, and the differential a minute on does not hear of it. */
  lemma {:induction false} RemovalOverlooked(parse: Parser)
    requires parse("a").Some?
    ensures exists ts, h, cuts ::
              && Timeline(ts, h, cuts) && |ts| == 2
              && ActionAt(None, ts, 0, parse) == FullSync && ActionAt(None, ts, 1, parse) == DiffSync
              && "a" !in StateAt(h, cuts[1]) && "a" in Run(None, ts, parse).entry.records
  {
    var listed := [VaultRecord("a", SECOND, false)];
    var t0 := Tick(0, 10 * SECOND, 0, 12_300_000_000, 1,
                   (ask: Ask) => if ask == Everything then Fetched(listed) else Failed, true);
    var t1 := Tick(60 * SECOND, 60 * SECOND, 60 * SECOND, 60 * SECOND, 1,
                   (ask: Ask) => if ask == Since(12) then Fetched([]) else Failed, true);
    var ts := [t0, t1];
    var h := [Change(SECOND, "a", Some(SECOND)), Change(10_500_000_000, "a", None)];
    var cuts := [10 * SECOND, 60 * SECOND];
    Example(h, listed);
    assert AnswersExactly(t0, h, cuts[0]) && AnswersExactly(t1, h, cuts[1]);
    ExampleRun(ts, t0, t1, listed, parse);
    assert Timeline(ts, h, cuts);
  }

  lemma {:induction false} Example(h: seq<Change>, listed: seq<VaultRecord>)
    requires h == [Change(SECOND, "a", Some(SECOND)), Change(10_500_000_000, "a", None)]
    requires listed == [VaultRecord("a", SECOND, false)]
    ensures ExactAnswer(h, 10 * SECOND, Everything, listed)
    ensures ExactAnswer(h, 60 * SECOND, Since(12), [])
    ensures "a" !in StateAt(h, 60 * SECOND)
  {
    var one := h[..1];
    assert one == [Change(SECOND, "a", Some(SECOND))] && one[..0] == [];
    assert StateAt(one, 10 * SECOND) == map["a" := SECOND];
    assert StateAt(h, 10 * SECOND) == map["a" := SECOND];
    assert listed[0] in listed;
  }

  lemma {:induction false} ExampleRun(ts: seq<Tick>, t0: Tick, t1: Tick, listed: seq<VaultRecord>, parse: Parser)
    requires ts == [t0, t1] && listed == [VaultRecord("a", SECOND, false)] && parse("a").Some?
    requires t0.vault(Everything) == Fetched(listed) && t0.applied == 0 && t0.marked == 12_300_000_000 && t0.persists
    requires t1.check == t1.wall == 60 * SECOND && t1.ttl == 1 && t1.vault(Since(12)) == Fetched([])
    ensures ActionAt(None, ts, 0, parse) == FullSync && ActionAt(None, ts, 1, parse) == DiffSync
    ensures "a" in Run(None, ts, parse).entry.records
  {
    assert ts[..0] == [] && ts[..1] == [t0] && [t0][..0] == [];
    assert listed[..0] == [];
    assert FullRecords(listed, parse) == map["a" := CachedRecord(parse("a").value, SECOND)];
    var before, s := Run(None, [], parse), Run(None, ts[..1], parse);
    assert before == Local(EMPTY, None) && ActionOf(before, t0) == FullSync;
    assert s == After(before, t0, parse);
    assert s == Local(AfterFull(EMPTY, listed, 0, parse), Some(12_300_000_000));
  }
}
