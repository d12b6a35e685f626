/** The shared DNS cache (src/dns_cache.rs) as a machine whose steps interleave any number of concurrent
    `resolve` and `force_resolve` calls. A step is what one task does between two lock operations. */
module DnsCache {
  import opened Cidr
  import opened Collections

  const NANOS: int := 1_000_000_000
  const POSITIVE_TTL: int := 30 * NANOS
  const NEGATIVE_TTL: int := 5 * NANOS

  type Task = nat
  type Host = string

  /** One name's last attempt. */
  datatype HostnameState = HostnameState(addresses: seq<IpNet>, attemptedAt: int, resolved: bool)

  function TtlOf(resolved: bool): int { if resolved then POSITIVE_TTL else NEGATIVE_TTL }

  predicate IsFresh(h: HostnameState, now: int) { now - h.attemptedAt < TtlOf(h.resolved) }

  /** Where a call stands: not yet past the read lock, queued for the write lock, or holding it while
      its lookup runs. */
  datatype Progress =
    | Arriving(host: Host)
    | Queued(host: Host, forced: bool)
    | Looking(host: Host, forced: bool, started: int)

  /** A finished lookup and an answer handed to a caller; both kept only to state properties. */
  datatype Lookup = Lookup(host: Host, forced: bool, started: int, finished: int, addresses: seq<IpNet>)
  datatype Reply = Reply(host: Host, at: int, addresses: seq<IpNet>)

  datatype State = State(
    clock: int,
    cache: map<Host, HostnameState>,
    writer: Option<Task>,
    calls: map<Task, Progress>,
    lookups: seq<Lookup>,
    replies: seq<Reply>)

  /** `Drop` is a call abandoned by its caller at any await, which frees the write lock if it held it and
      stores nothing. */
  datatype Step =
    | Tick(to: int)
    | Resolve(task: Task, host: Host)
    | ForceResolve(task: Task, host: Host)
    | ReadCache(task: Task)
    | TakeWriteLock(task: Task)
    | Answered(task: Task, addresses: seq<IpNet>)
    | Drop(task: Task)

  predicate Hit(s: State, host: Host) { host in s.cache && IsFresh(s.cache[host], s.clock) }

  function Init(clock: int): State { State(clock, map[], None, map[], [], []) }

  /** A tick never goes back; locks are granted only while no lookup holds the write lock. */
  predicate Enabled(s: State, e: Step) {
    match e
    case Tick(to) => s.clock <= to
    case Resolve(t, _) => t !in s.calls
    case ForceResolve(t, _) => t !in s.calls
    case ReadCache(t) => t in s.calls && s.calls[t].Arriving? && s.writer == None
    case TakeWriteLock(t) => t in s.calls && s.calls[t].Queued? && s.writer == None
    case Answered(t, _) => t in s.calls && s.calls[t].Looking?
    case Drop(t) => t in s.calls
  }

  function Return(s: State, t: Task, host: Host, addresses: seq<IpNet>): State {
    s.(calls := s.calls - {t}, replies := s.replies + [Reply(host, s.clock, addresses)])
  }

  function Apply(s: State, e: Step): State
    requires Enabled(s, e)
  {
    match e
    case Tick(to) => s.(clock := to)
    case Resolve(t, host) => s.(calls := s.calls[t := Arriving(host)])
    case ForceResolve(t, host) => s.(calls := s.calls[t := Queued(host, true)])
    case ReadCache(t) =>
      var host := s.calls[t].host;
      if Hit(s, host) then Return(s, t, host, s.cache[host].addresses)
      else s.(calls := s.calls[t := Queued(host, false)])
    case TakeWriteLock(t) =>
      var call := s.calls[t];
      if !call.forced && Hit(s, call.host) then Return(s, t, call.host, s.cache[call.host].addresses)
      else s.(writer := Some(t), calls := s.calls[t := Looking(call.host, call.forced, s.clock)])
    case Answered(t, addresses) =>
      var call := s.calls[t];
      Return(Refreshed(s, call, addresses), t, call.host, addresses)
    case Drop(t) => s.(calls := s.calls - {t}, writer := if s.writer == Some(t) then None else s.writer)
  }

  /** `refresh_locked` once the lookup has answered: the attempt is stamped after it. */
  function Refreshed(s: State, call: Progress, addresses: seq<IpNet>): State
    requires call.Looking?
  {
    s.(cache := s.cache[call.host := HostnameState(addresses, s.clock, addresses != [])],
       writer := None,
       lookups := s.lookups + [Lookup(call.host, call.forced, call.started, s.clock, addresses)])
  }

  /** A run: every step enabled where it happens. */
  ghost predicate Reaches(clock: int, es: seq<Step>, s: State)
    decreases |es|
  {
    if es == [] then s == Init(clock)
    else
      var front, e := es[..|es| - 1], es[|es| - 1];
      exists was :: Reaches(clock, front, was) && Follows(was, e, s)
  }

  predicate Follows(was: State, e: Step, s: State) { Enabled(was, e) && s == Apply(was, e) }

  // ---------------------------------------------------------------- the invariant

  /** The latest lookup of a name. */
  function Latest(ls: seq<Lookup>, host: Host): Option<Lookup>
    ensures Latest(ls, host).Some? ==> Latest(ls, host).value in ls && Latest(ls, host).value.host == host
  {
    if ls == [] then None
    else if ls[|ls| - 1].host == host then Some(ls[|ls| - 1]) else Latest(ls[..|ls| - 1], host)
  }

  /** Until when a finished lookup answers for its name: half a minute if it found addresses, five seconds
      if it found none. */
  function Expiry(l: Lookup): int { l.finished + (if |l.addresses| > 0 then 30_000_000_000 else 5_000_000_000) }

  ghost predicate OneWriter(s: State) {
    && (s.writer.Some? ==> s.writer.value in s.calls && s.calls[s.writer.value].Looking?)
    && (forall t :: t in s.calls && s.calls[t].Looking? ==> s.writer == Some(t))
  }

  ghost predicate CacheIsLatest(s: State) {
    && (forall h :: h in s.cache ==> Latest(s.lookups, h).Some?)
    && (forall h :: Latest(s.lookups, h).Some? ==>
          var l := Latest(s.lookups, h).value;
          h in s.cache && s.cache[h] == HostnameState(l.addresses, l.finished, l.addresses != []))
  }

  ghost predicate Serial(ls: seq<Lookup>, now: int) {
    && (forall k :: 0 <= k < |ls| ==> ls[k].started <= ls[k].finished <= now)
    && (forall i, j :: 0 <= i < j < |ls| ==> ls[i].finished <= ls[j].started)
  }

  /** An unforced lookup of `host` starting at `at` is due: the latest attempt has run out. */
  ghost predicate Due(ls: seq<Lookup>, host: Host, at: int) {
    Latest(ls, host).Some? ==> at >= Expiry(Latest(ls, host).value)
  }

  ghost predicate AllDue(ls: seq<Lookup>) {
    forall k :: 0 <= k < |ls| && !ls[k].forced ==> Due(ls[..k], ls[k].host, ls[k].started)
  }

  ghost predicate PendingDue(s: State) {
    forall t :: t in s.calls && s.calls[t].Looking? ==>
      && s.calls[t].started <= s.clock
      && (forall k :: 0 <= k < |s.lookups| ==> s.lookups[k].finished <= s.calls[t].started)
      && (!s.calls[t].forced ==> Due(s.lookups, s.calls[t].host, s.calls[t].started))
  }

  /** Lookup `k` is what this answer reports: the same name and addresses, finished by then, still
      unexpired (or only just made), and no later lookup of the name finished before the answer. */
  ghost predicate Reports(ls: seq<Lookup>, r: Reply, k: nat) {
    && k < |ls| && ls[k].host == r.host && ls[k].addresses == r.addresses
    && ls[k].finished <= r.at < Expiry(ls[k])
    && (forall m :: k < m < |ls| && ls[m].host == r.host ==> r.at <= ls[m].finished)
  }

  ghost predicate AllReport(s: State) {
    forall r :: r in s.replies ==> r.at <= s.clock && exists k :: Reports(s.lookups, r, k)
  }

  ghost predicate Inv(s: State) {
    OneWriter(s) && CacheIsLatest(s) && Serial(s.lookups, s.clock) && AllDue(s.lookups) && PendingDue(s) && AllReport(s)
  }

  lemma {:induction false} LatestIndex(ls: seq<Lookup>, host: Host) returns (k: nat)
    requires Latest(ls, host).Some?
    ensures k < |ls| && ls[k] == Latest(ls, host).value && ls[k].host == host
    ensures forall m :: k < m < |ls| ==> ls[m].host != host
    decreases |ls|
  {
    var n := |ls| - 1;
    if ls[n].host == host { k := n; } else { k := LatestIndex(ls[..n], host); }
  }

  lemma {:induction false} LatestAfter(ls: seq<Lookup>, k: nat)
    requires k < |ls|
    ensures Latest(ls, ls[k].host).Some?
    ensures exists m :: k <= m < |ls| && ls[m] == Latest(ls, ls[k].host).value
    decreases |ls|
  {
    var n := |ls| - 1;
    if ls[n].host != ls[k].host { LatestAfter(ls[..n], k); }
  }

  /** Answering from a fresh entry keeps every answer accounted for. */
  lemma HitReports(s: State, t: Task, host: Host)
    requires Inv(s) && Hit(s, host)
    ensures AllReport(Return(s, t, host, s.cache[host].addresses))
  {
    hide OneWriter, AllDue, PendingDue;
    var k := LatestIndex(s.lookups, host);
    assert Reports(s.lookups, Reply(host, s.clock, s.cache[host].addresses), k);
  }

  /** One more lookup, finished now, does not disturb the answers given so far. */
  lemma StillReports(s: State, l: Lookup)
    requires AllReport(s) && l.finished == s.clock
    ensures forall r :: r in s.replies ==> r.at <= s.clock && exists k :: Reports(s.lookups + [l], r, k)
  {
    forall r | r in s.replies ensures r.at <= s.clock && exists k :: Reports(s.lookups + [l], r, k) {
      var k :| Reports(s.lookups, r, k);
      assert Reports(s.lookups + [l], r, k);
    }
  }

  lemma AnsweredReports(s: State, t: Task, addresses: seq<IpNet>)
    requires Inv(s) && Enabled(s, Answered(t, addresses))
    ensures AllReport(Apply(s, Answered(t, addresses)))
  {
    hide OneWriter, AllDue, PendingDue, CacheIsLatest, Serial;
    var call := s.calls[t];
    var l := Lookup(call.host, call.forced, call.started, s.clock, addresses);
    StillReports(s, l);
    var r := Reply(call.host, s.clock, addresses);
    assert Reports(s.lookups + [l], r, |s.lookups|);
  }

  lemma AnsweredLookups(s: State, t: Task, addresses: seq<IpNet>)
    requires Inv(s) && Enabled(s, Answered(t, addresses))
    ensures Serial(Apply(s, Answered(t, addresses)).lookups, s.clock)
    ensures AllDue(Apply(s, Answered(t, addresses)).lookups)
  {
    hide OneWriter, CacheIsLatest, AllReport, Due;
    var call := s.calls[t];
    var ls := s.lookups;
    var ls' := ls + [Lookup(call.host, call.forced, call.started, s.clock, addresses)];
    assert ls'[..|ls|] == ls;
    forall k | 0 <= k < |ls| ensures ls'[..k] == ls[..k] { }
  }

  lemma AnsweredCache(s: State, t: Task, addresses: seq<IpNet>)
    requires Inv(s) && Enabled(s, Answered(t, addresses))
    ensures CacheIsLatest(Apply(s, Answered(t, addresses)))
  {
    hide OneWriter, AllDue, PendingDue, Serial, AllReport, Latest;
    var call := s.calls[t];
    var l := Lookup(call.host, call.forced, call.started, s.clock, addresses);
    forall h ensures Latest(s.lookups + [l], h) == if l.host == h then Some(l) else Latest(s.lookups, h) {
      LatestExtended(s.lookups, l, h);
    }
  }

  lemma {:induction false} LatestExtended(ls: seq<Lookup>, l: Lookup, host: Host)
    ensures Latest(ls + [l], host) == if l.host == host then Some(l) else Latest(ls, host)
  {
    assert (ls + [l])[..|ls|] == ls;
  }

  lemma AnsweredCalls(s: State, t: Task, addresses: seq<IpNet>)
    requires Inv(s) && Enabled(s, Answered(t, addresses))
    ensures OneWriter(Apply(s, Answered(t, addresses))) && PendingDue(Apply(s, Answered(t, addresses)))
  {
    hide CacheIsLatest, AllDue, Serial, AllReport, Due;
  }

  lemma LockTaken(s: State, t: Task)
    requires Inv(s) && Enabled(s, TakeWriteLock(t))
    requires s.calls[t].forced || !Hit(s, s.calls[t].host)
    ensures Inv(Apply(s, TakeWriteLock(t)))
  {
    hide AllDue, AllReport;
    var s' := Apply(s, TakeWriteLock(t));
    assert s'.lookups == s.lookups && s'.replies == s.replies && s'.clock == s.clock;
    SameHistory(s, s');
  }

  lemma SameHistory(s: State, s': State)
    requires s'.lookups == s.lookups && s'.replies == s.replies && s.clock <= s'.clock && AllReport(s)
    ensures AllReport(s')
  {
  }

  lemma Returned(s: State, t: Task, host: Host)
    requires Inv(s) && Hit(s, host) && t in s.calls && !s.calls[t].Looking?
    ensures Inv(Return(s, t, host, s.cache[host].addresses))
  {
    HitReports(s, t, host);
    hide AllReport, AllDue, Serial, Due;
  }

  lemma Moved(s: State, s': State)
    requires Inv(s) && s'.lookups == s.lookups && s'.replies == s.replies && s.clock <= s'.clock
    requires s'.cache == s.cache && s'.writer == s.writer
    requires forall t :: t in s.calls && s.calls[t].Looking? ==> t in s'.calls && s'.calls[t] == s.calls[t]
    requires forall t :: t in s'.calls && s'.calls[t].Looking? ==> t in s.calls && s'.calls[t] == s.calls[t]
    ensures Inv(s')
  {
    SameHistory(s, s');
    hide AllReport, AllDue, Due;
  }

  lemma StepKeepsInv(s: State, e: Step)
    requires Inv(s) && Enabled(s, e)
    ensures Inv(Apply(s, e))
  {
    hide Inv, Hit;
    match e
    case Tick(_) => Moved(s, Apply(s, e));
    case Resolve(_, _) => Moved(s, Apply(s, e));
    case ForceResolve(_, _) => Moved(s, Apply(s, e));
    case ReadCache(t) =>
      if Hit(s, s.calls[t].host) { Returned(s, t, s.calls[t].host); } else { Moved(s, Apply(s, e)); }
    case TakeWriteLock(t) =>
      if !s.calls[t].forced && Hit(s, s.calls[t].host) { Returned(s, t, s.calls[t].host); } else { LockTaken(s, t); }
    case Answered(t, addresses) => AnsweredKeepsInv(s, t, addresses);
    case Drop(t) => Dropped(s, t);
  }

  lemma {:induction false} Dropped(s: State, t: Task)
    requires Inv(s) && Enabled(s, Drop(t))
    ensures Inv(Apply(s, Drop(t)))
  {
    SameHistory(s, Apply(s, Drop(t)));
    hide AllReport, AllDue, Due;
  }

  lemma AnsweredKeepsInv(s: State, t: Task, addresses: seq<IpNet>)
    requires Inv(s) && Enabled(s, Answered(t, addresses))
    ensures Inv(Apply(s, Answered(t, addresses)))
  {
    hide OneWriter, CacheIsLatest, Serial, AllDue, PendingDue, AllReport;
    AnsweredReports(s, t, addresses);
    AnsweredLookups(s, t, addresses);
    AnsweredCache(s, t, addresses);
    AnsweredCalls(s, t, addresses);
  }

  lemma {:induction false} RunKeepsInv(clock: int, es: seq<Step>, s: State)
    requires Reaches(clock, es, s)
    ensures Inv(s)
    decreases |es|
  {
    if es != [] {
      var was :| Reaches(clock, es[..|es| - 1], was) && Follows(was, es[|es| - 1], s);
      RunKeepsInv(clock, es[..|es| - 1], was);
      StepKeepsInv(was, es[|es| - 1]);
    }
  }

  // ---------------------------------------------------------------- what callers get

  /** Lookups never overlap, and among the calls queued behind one expiry only one pays: an unforced
      lookup starts only once the latest attempt on its name has run out its own TTL, and at least
      `NEGATIVE_TTL` after every earlier attempt on it. */
  lemma {:induction false} OneLookupPerExpiry(clock: int, es: seq<Step>, s: State, i: nat, j: nat)
    requires Reaches(clock, es, s) && i < j < |s.lookups|
    ensures s.lookups[i].finished <= s.lookups[j].started
    ensures s.lookups[i].host == s.lookups[j].host && !s.lookups[j].forced ==>
              && s.lookups[j].started >= s.lookups[i].finished + NEGATIVE_TTL
              && ((forall m :: i < m < j ==> s.lookups[m].host != s.lookups[i].host) ==>
                    s.lookups[j].started >= Expiry(s.lookups[i]))
  {
    RunKeepsInv(clock, es, s);
    assert Serial(s.lookups, s.clock) && AllDue(s.lookups);
    if s.lookups[i].host == s.lookups[j].host && !s.lookups[j].forced {
      hide *;
      DueAfterEach(s.lookups, s.clock, i, j);
    }
  }

  lemma DueAfterEach(ls: seq<Lookup>, now: int, i: nat, j: nat)
    requires Serial(ls, now) && AllDue(ls) && i < j < |ls| && ls[i].host == ls[j].host && !ls[j].forced
    ensures ls[j].started >= ls[i].finished + NEGATIVE_TTL
    ensures (forall m :: i < m < j ==> ls[m].host != ls[i].host) ==> ls[j].started >= Expiry(ls[i])
  {
    assert Due(ls[..j], ls[j].host, ls[j].started);
    var m := LatestFrom(ls, i, j);
    assert ls[i].finished <= ls[m].finished;
  }

  /** The latest lookup of a name before `j` is none earlier than `i`, if `i` is one. */
  lemma LatestFrom(ls: seq<Lookup>, i: nat, j: nat) returns (m: nat)
    requires i < j < |ls| && ls[i].host == ls[j].host
    ensures i <= m < j && ls[m].host == ls[j].host && Latest(ls[..j], ls[j].host) == Some(ls[m])
  {
    hide Latest;
    var front := ls[..j];
    LatestAfter(front, i);
    m := LatestIndex(front, ls[j].host);
    assert front[i] == ls[i] && front[m] == ls[m];
  }

  /** In figures: after a lookup that found addresses the next unforced one of that name starts at least half a
      minute later, after one that found none at least five seconds later. */
  lemma {:induction false} LookupsApart(clock: int, es: seq<Step>, s: State, i: nat, j: nat)
    requires Reaches(clock, es, s) && i < j < |s.lookups|
    requires s.lookups[i].host == s.lookups[j].host && !s.lookups[j].forced
    requires forall m :: i < m < j ==> s.lookups[m].host != s.lookups[i].host
    ensures s.lookups[i].addresses != [] ==> s.lookups[j].started - s.lookups[i].finished >= 30_000_000_000
    ensures s.lookups[i].addresses == [] ==> s.lookups[j].started - s.lookups[i].finished >= 5_000_000_000
  {
    hide Reaches;
    OneLookupPerExpiry(clock, es, s, i, j);
  }

  /** The newest lookup of `host` is number `k`, and it is recent enough to be reused. */
  ghost predicate Reusable(s: State, host: Host, k: nat) {
    && k < |s.lookups| && s.lookups[k].host == host && (forall m :: k < m < |s.lookups| ==> s.lookups[m].host != host)
    && s.clock - s.lookups[k].finished < (if s.lookups[k].addresses != [] then 30_000_000_000 else 5_000_000_000)
  }

  /** A call is answered from the cache exactly while the newest lookup of its name may be reused, with what
      that lookup found; otherwise it queues, and the one that gets the lock starts a lookup. A forced call
      always does. */
  lemma {:induction false} LooksUpIff(clock: int, es: seq<Step>, s: State, e: Step, host: Host)
    requires Reaches(clock, es, s) && Enabled(s, e) && (e.ReadCache? || e.TakeWriteLock?) && host == s.calls[e.task].host
    ensures var s', forced := Apply(s, e), s.calls[e.task].Queued? && s.calls[e.task].forced;
            && s'.lookups == s.lookups && s'.cache == s.cache && s'.clock == s.clock
            && (forall k: nat :: Reusable(s, host, k) && !forced ==>
                  && e.task !in s'.calls && s'.writer == None
                  && s'.replies == s.replies + [Reply(host, s.clock, s.lookups[k].addresses)])
            && (forced || (forall k: nat :: !Reusable(s, host, k)) ==>
                  && e.task in s'.calls && s'.replies == s.replies
                  && s'.calls[e.task] == if e.ReadCache? then Queued(host, false) else Looking(host, forced, s.clock))
  {
    RunKeepsInv(clock, es, s);
    HitIff(s, host);
    hide Reaches, Inv, Hit, Reusable;
  }

  lemma {:induction false} HitIff(s: State, host: Host)
    requires Inv(s)
    ensures Hit(s, host) <==> exists k: nat :: Reusable(s, host, k)
    ensures forall k: nat :: Reusable(s, host, k) ==> host in s.cache && s.cache[host].addresses == s.lookups[k].addresses
  {
    assert CacheIsLatest(s);
    hide Inv, Latest, CacheIsLatest;
    forall k: nat | Reusable(s, host, k) ensures Hit(s, host) && s.cache[host].addresses == s.lookups[k].addresses {
      NewestCached(s, host, k);
    }
    if Hit(s, host) {
      assert Latest(s.lookups, host).Some? by { CachedWasLookedUp(s, host); }
      var k := LatestIndex(s.lookups, host);
      NewestCached(s, host, k);
      assert Reusable(s, host, k);
    }
  }

  lemma {:induction false} CachedWasLookedUp(s: State, host: Host)
    requires CacheIsLatest(s) && host in s.cache
    ensures Latest(s.lookups, host).Some?
  {
  }

  lemma {:induction false} NewestCached(s: State, host: Host, k: nat)
    requires CacheIsLatest(s)
    requires k < |s.lookups| && s.lookups[k].host == host && forall m :: k < m < |s.lookups| ==> s.lookups[m].host != host
    ensures host in s.cache
    ensures s.cache[host] == HostnameState(s.lookups[k].addresses, s.lookups[k].finished, s.lookups[k].addresses != [])
  {
    hide Latest;
    LatestAfter(s.lookups, k);
  }

  /** Every answer, from the cache or from the caller's own lookup, is the newest attempt on that name
      when it was given and was still within its TTL; an unresolvable name yields the empty list. */
  lemma {:induction false} AnswersAreCurrent(clock: int, es: seq<Step>, s: State, r: Reply)
    requires Reaches(clock, es, s) && r in s.replies
    ensures exists k :: Reports(s.lookups, r, k)
  {
    RunKeepsInv(clock, es, s);
  }

  /** The same holds of every lookup from the moment it starts, also of one that is dropped and never
      finishes: unforced, it started only once the latest finished attempt on its name had run out. */
  lemma {:induction false} LookupsStartDue(clock: int, es: seq<Step>, s: State, t: Task)
    requires Reaches(clock, es, s) && t in s.calls && s.calls[t].Looking?
    ensures !s.calls[t].forced ==> Due(s.lookups, s.calls[t].host, s.calls[t].started)
    ensures forall k :: 0 <= k < |s.lookups| ==> s.lookups[k].finished <= s.calls[t].started <= s.clock
  {
    RunKeepsInv(clock, es, s);
  }

  /** A dropped lookup leaves the name due again at once, for another caller to pay. */
  lemma {:induction false} DropLeavesDue(s: State, t: Task)
    requires Inv(s) && t in s.calls && s.calls[t].Looking? && !s.calls[t].forced
    ensures var s' := Apply(s, Drop(t));
            && s'.writer == None && s'.cache == s.cache && s'.lookups == s.lookups && s'.replies == s.replies
            && Due(s'.lookups, s.calls[t].host, s'.clock)
  {
    hide AllReport, AllDue, Latest;
  }

  /** At most one lookup is in flight, whatever names are asked for. */
  lemma {:induction false} OneLookupInFlight(clock: int, es: seq<Step>, s: State, t: Task, u: Task)
    requires Reaches(clock, es, s) && t in s.calls && u in s.calls
    requires s.calls[t].Looking? && s.calls[u].Looking?
    ensures t == u
  {
    RunKeepsInv(clock, es, s);
  }

  // ---------------------------------------------------------------- one call, uninterrupted

  predicate FreshIn(cache: map<Host, HostnameState>, host: Host, now: int) { host in cache && IsFresh(cache[host], now) }

  /** The cache after one `resolve` that nothing interrupts; its entry for the name is the answer. */
  function Uninterrupted(cache: map<Host, HostnameState>, host: Host, readAt: int, lockedAt: int,
                         found: seq<IpNet>, foundAt: int): (after: map<Host, HostnameState>)
    ensures host in after
    ensures readAt <= lockedAt <= foundAt ==>
              FreshIn(after, host, readAt) || FreshIn(after, host, lockedAt) || FreshIn(after, host, foundAt)
    ensures after != cache ==> after[host].resolved == (after[host].addresses != [])
  {
    if FreshIn(cache, host, readAt) || FreshIn(cache, host, lockedAt) then cache
    else cache[host := HostnameState(found, foundAt, found != [])]
  }

  class Resolver {
    var cache: map<Host, HostnameState>

    constructor ()
      ensures cache == map[]
    {
      cache := map[];
    }

    method RefreshLocked(host: Host, found: seq<IpNet>, foundAt: int) returns (addresses: seq<IpNet>)
      modifies this
      ensures cache == old(cache)[host := HostnameState(found, foundAt, found != [])] && addresses == found
    {
      var resolved := found != [];
      cache := cache[host := HostnameState(found, foundAt, resolved)];
      addresses := found;
    }

    method Resolve(host: Host, readAt: int, lockedAt: int, found: seq<IpNet>, foundAt: int) returns (addresses: seq<IpNet>)
      modifies this
      ensures cache == Uninterrupted(old(cache), host, readAt, lockedAt, found, foundAt)
      ensures addresses == cache[host].addresses
    {
      if host in cache && IsFresh(cache[host], readAt) {
        return cache[host].addresses;
      }
      if host in cache && IsFresh(cache[host], lockedAt) {
        return cache[host].addresses;
      }
      addresses := RefreshLocked(host, found, foundAt);
    }

    method ForceResolve(host: Host, found: seq<IpNet>, foundAt: int) returns (addresses: seq<IpNet>)
      modifies this
      ensures cache == old(cache)[host := HostnameState(found, foundAt, found != [])] && addresses == found
    {
      addresses := RefreshLocked(host, found, foundAt);
    }
  }

  lemma {:induction false} Then(clock: int, es: seq<Step>, s: State, e: Step)
    requires Reaches(clock, es, s) && Enabled(s, e)
    ensures Reaches(clock, es + [e], Apply(s, e))
  {
    assert (es + [e])[..|es|] == es && Follows(s, e, Apply(s, e));
  }

  lemma {:induction false} RunUninterrupted(clock: int, es: seq<Step>, s: State, t: Task, host: Host, lockedAt: int,
                           found: seq<IpNet>, foundAt: int) returns (es': seq<Step>, s': State)
    requires Reaches(clock, es, s) && t !in s.calls && s.writer == None && s.clock <= lockedAt <= foundAt
    ensures Reaches(clock, es', s') && s'.cache == Uninterrupted(s.cache, host, s.clock, lockedAt, found, foundAt)
    ensures s'.replies == s.replies + [Reply(host, s'.clock, s'.cache[host].addresses)]
  {
    hide Reaches;
    var first := Step.Resolve(t, host);
    Then(clock, es, s, first);
    es', s' := es + [first], Apply(s, first);
    Then(clock, es', s', ReadCache(t));
    es', s' := es' + [ReadCache(t)], Apply(s', ReadCache(t));
    if !FreshIn(s.cache, host, s.clock) {
      Then(clock, es', s', Tick(lockedAt));
      es', s' := es' + [Tick(lockedAt)], Apply(s', Tick(lockedAt));
      Then(clock, es', s', TakeWriteLock(t));
      es', s' := es' + [TakeWriteLock(t)], Apply(s', TakeWriteLock(t));
      if !FreshIn(s.cache, host, lockedAt) {
        Then(clock, es', s', Tick(foundAt));
        es', s' := es' + [Tick(foundAt)], Apply(s', Tick(foundAt));
        Then(clock, es', s', Answered(t, found));
        es', s' := es' + [Answered(t, found)], Apply(s', Answered(t, found));
      }
    }
  }

  /** The uninterrupted call is a run of the machine. */
  lemma {:induction false} UninterruptedIsRun(clock: int, es: seq<Step>, s: State, t: Task, host: Host, lockedAt: int,
                                              found: seq<IpNet>, foundAt: int)
    requires Reaches(clock, es, s) && t !in s.calls && s.writer == None && s.clock <= lockedAt <= foundAt
    ensures exists es', s' ::
              && Reaches(clock, es', s')
              && s'.cache == Uninterrupted(s.cache, host, s.clock, lockedAt, found, foundAt)
              && s'.replies == s.replies + [Reply(host, s'.clock, s'.cache[host].addresses)]
  {
    hide *;
    var es', s' := RunUninterrupted(clock, es, s, t, host, lockedAt, found, foundAt);
  }

  /** So is an uninterrupted `force_resolve`: whatever is cached, however fresh, it looks the name up and
      the answer becomes the newest attempt. */
  lemma {:induction false} ForcedIsRun(clock: int, es: seq<Step>, s: State, t: Task, host: Host, found: seq<IpNet>, foundAt: int)
    requires Reaches(clock, es, s) && t !in s.calls && s.writer == None && s.clock <= foundAt
    ensures exists es', s' ::
              && Reaches(clock, es', s')
              && s'.cache == s.cache[host := HostnameState(found, foundAt, found != [])]
              && s'.lookups == s.lookups + [Lookup(host, true, s.clock, foundAt, found)]
              && s'.replies == s.replies + [Reply(host, foundAt, found)]
  {
    hide *;
    var es', s' := RunForced(clock, es, s, t, host, found, foundAt);
  }

  lemma {:induction false} RunForced(clock: int, es: seq<Step>, s: State, t: Task, host: Host, found: seq<IpNet>, foundAt: int)
    returns (es': seq<Step>, s': State)
    requires Reaches(clock, es, s) && t !in s.calls && s.writer == None && s.clock <= foundAt
    ensures Reaches(clock, es', s') && s'.cache == s.cache[host := HostnameState(found, foundAt, found != [])]
    ensures s'.lookups == s.lookups + [Lookup(host, true, s.clock, foundAt, found)]
    ensures s'.replies == s.replies + [Reply(host, foundAt, found)]
  {
    hide Reaches, IsFresh;
    var first := Step.ForceResolve(t, host);
    Then(clock, es, s, first);
    es', s' := es + [first], Apply(s, first);
    Then(clock, es', s', TakeWriteLock(t));
    es', s' := es' + [TakeWriteLock(t)], Apply(s', TakeWriteLock(t));
    Then(clock, es', s', Tick(foundAt));
    es', s' := es' + [Tick(foundAt)], Apply(s', Tick(foundAt));
    Then(clock, es', s', Answered(t, found));
    es', s' := es' + [Answered(t, found)], Apply(s', Answered(t, found));
  }
}
