/** The feed's per-address rate limiter (src/ratelimit.rs): one served request per window, tracked in a
    map bounded by first-in-first-out eviction. Times are in nanoseconds. */
module RateLimiter {
  import opened Collections
  import Text

  const RATE_LIMIT_WINDOW: int := 120 * 1_000_000_000
  const MAX_TRACKED_IPS: nat := 10_000

  datatype Answer = Allowed | Throttled(remaining: int)

  /** The limiter's two structures as values. */
  datatype Table<A> = Table(nextAllowed: map<A, int>, order: seq<A>)

  ghost predicate Lists<A>(order: seq<A>, m: map<A, int>) {
    (forall a :: a in order ==> a in m) && (forall a :: a in m ==> a in order)
  }

  /** The queue lists exactly the tracked addresses, each once, and is bounded. */
  ghost predicate Valid<A>(t: Table<A>) {
    && Distinct(t.order)
    && Lists(t.order, t.nextAllowed)
    && |t.order| <= MAX_TRACKED_IPS
  }

  ghost function Check<A>(t: Table<A>, ip: A, now: int): Answer {
    if ip in t.nextAllowed && t.nextAllowed[ip] > now then Throttled(t.nextAllowed[ip] - now) else Allowed
  }

  ghost function Record<A>(t: Table<A>, ip: A, now: int): Table<A> {
    if Check(t, ip, now).Throttled? then t
    else if ip in t.nextAllowed then Table(t.nextAllowed[ip := now + RATE_LIMIT_WINDOW], t.order)
    else Table(Evict(t).nextAllowed[ip := now + RATE_LIMIT_WINDOW], Evict(t).order + [ip])
  }

  /** Room for one more address: a full table forgets its oldest. */
  ghost function Evict<A>(t: Table<A>): Table<A> {
    if |t.order| < MAX_TRACKED_IPS then t else Table(t.nextAllowed - {t.order[0]}, t.order[1..])
  }

  class Limiter<A(==)> {
    var nextAllowed: map<A, int>
    var order: seq<A>

    ghost function Contents(): Table<A>
      reads this
    {
      Table(nextAllowed, order)
    }

    constructor ()
      ensures Valid(Contents()) && Contents() == Table(map[], [])
    {
      nextAllowed := map[];
      order := [];
    }

    /** Makes room for one more address, oldest first. */
    method EvictOldest()
      requires Valid(Contents())
      modifies this
      ensures Distinct(order) && Lists(order, nextAllowed)
      ensures Contents() == Evict(old(Contents()))
    {
      hide Valid, Record, Check;
      assert Distinct(order) && Lists(order, nextAllowed) && |order| <= MAX_TRACKED_IPS by { ValidParts(Contents()); }
      TrackedCount(order, nextAllowed);
      while |nextAllowed| >= MAX_TRACKED_IPS && order != []
        invariant Distinct(order) && Lists(order, nextAllowed)
        invariant |order| == |nextAllowed| <= MAX_TRACKED_IPS
        invariant |order| == MAX_TRACKED_IPS ==> Contents() == old(Contents())
        invariant |order| < MAX_TRACKED_IPS ==> Contents() == Evict(old(Contents()))
        decreases |order|
      {
        DropOldest(order, nextAllowed);
        var oldest := order[0];
        order := order[1..];
        nextAllowed := nextAllowed - {oldest};
        TrackedCount(order, nextAllowed);
      }
    }

    method CheckAndRecord(ip: A, now: int) returns (r: Answer)
      requires Valid(Contents())
      modifies this
      ensures Valid(Contents())
      ensures r == Check(old(Contents()), ip, now)
      ensures Contents() == Record(old(Contents()), ip, now)
    {
      hide Valid, Evict, Distinct, Lists;
      RecordValid(Contents(), ip, now);
      var isNew := ip !in nextAllowed;
      if ip in nextAllowed {
        if nextAllowed[ip] > now {
          return Throttled(nextAllowed[ip] - now);
        }
      } else {
        EvictOldest();
      }
      nextAllowed := nextAllowed[ip := now + RATE_LIMIT_WINDOW];
      if isNew {
        order := order + [ip];
      }
      r := Allowed;
    }
  }

  lemma ValidParts<A>(t: Table<A>)
    requires Valid(t)
    ensures Distinct(t.order) && Lists(t.order, t.nextAllowed) && |t.order| <= MAX_TRACKED_IPS
  {
  }

  lemma DropOldest<A>(order: seq<A>, m: map<A, int>)
    requires Distinct(order) && Lists(order, m) && order != []
    ensures Distinct(order[1..]) && Lists(order[1..], m - {order[0]})
  {
    assert order == [order[0]] + order[1..];
  }

  lemma AddNewest<A>(order: seq<A>, m: map<A, int>, ip: A, at: int)
    requires Distinct(order) && Lists(order, m) && ip !in m
    ensures Distinct(order + [ip]) && Lists(order + [ip], m[ip := at])
  {
  }

  lemma {:induction false} TrackedCount<A>(order: seq<A>, m: map<A, int>)
    requires Distinct(order) && Lists(order, m)
    ensures |order| == |m|
    decreases |order|
  {
    if order == [] {
      assert m.Keys == {};
    } else {
      var n := |order| - 1;
      var m' := m - {order[n]};
      assert order == order[..n] + [order[n]];
      assert m'.Keys == m.Keys - {order[n]};
      TrackedCount(order[..n], m');
    }
  }

  lemma RecordValid<A>(t: Table<A>, ip: A, now: int)
    requires Valid(t)
    ensures Valid(Record(t, ip, now))
  {
    if Check(t, ip, now).Allowed? && ip !in t.nextAllowed {
      if |t.order| >= MAX_TRACKED_IPS { DropOldest(t.order, t.nextAllowed); }
      AddNewest(Evict(t).order, Evict(t).nextAllowed, ip, now + RATE_LIMIT_WINDOW);
    }
  }

  // ---------------------------------------------------------------- whole runs

  datatype Call<A> = Call(ip: A, now: int)

  ghost function Run<A>(cs: seq<Call<A>>): Table<A> {
    if cs == [] then Table(map[], []) else Record(Run(cs[..|cs| - 1]), cs[|cs| - 1].ip, cs[|cs| - 1].now)
  }

  ghost function AnswerAt<A>(cs: seq<Call<A>>, i: nat): Answer
    requires i < |cs|
  {
    Check(Run(cs[..i]), cs[i].ip, cs[i].now)
  }

  ghost predicate InOrder<A>(cs: seq<Call<A>>) { forall i, j :: 0 <= i < j < |cs| ==> cs[i].now <= cs[j].now }

  lemma {:induction false} RunValid<A>(cs: seq<Call<A>>)
    ensures Valid(Run(cs))
  {
    if cs != [] {
      RunValid(cs[..|cs| - 1]);
      RecordValid(Run(cs[..|cs| - 1]), cs[|cs| - 1].ip, cs[|cs| - 1].now);
    }
  }

  /** Every address the run began to track, in order, with repeats after an eviction. */
  ghost function Admissions<A>(cs: seq<Call<A>>): seq<A> {
    if cs == [] then [] else
      var front, c := cs[..|cs| - 1], cs[|cs| - 1];
      if c.ip in Run(front).nextAllowed then Admissions(front) else Admissions(front) + [c.ip]
  }

  ghost function LastOf<A>(s: seq<A>, n: nat): seq<A> { if |s| <= n then s else s[|s| - n..] }

  /** The queue is the last `MAX_TRACKED_IPS` admissions: an address stays tracked until the
      `MAX_TRACKED_IPS`-th admission after its own, and is forgotten exactly then. */
  lemma {:induction false} QueueIsRecentAdmissions<A>(cs: seq<Call<A>>)
    ensures Run(cs).order == LastOf(Admissions(cs), 10_000)
  {
    if cs != [] {
      var front, c := cs[..|cs| - 1], cs[|cs| - 1];
      QueueIsRecentAdmissions(front);
      RunValid(front);
      var ads, t := Admissions(front), Run(front);
      if c.ip !in t.nextAllowed {
        NextRecent(ads, c.ip);
      }
    }
  }

  lemma NextRecent<A>(ads: seq<A>, a: A)
    ensures LastOf(ads + [a], MAX_TRACKED_IPS)
         == (if |ads| >= MAX_TRACKED_IPS then LastOf(ads, MAX_TRACKED_IPS)[1..] else ads) + [a]
  {
  }

  /** For every admission, tracked now exactly when fewer than `MAX_TRACKED_IPS` admissions followed it. */
  lemma {:induction false} TrackedUntilCeiling<A>(cs: seq<Call<A>>, k: nat)
    requires k < |Admissions(cs)|
    ensures |Admissions(cs)| - k <= 10_000 ==> Admissions(cs)[k] in Run(cs).nextAllowed
    ensures Admissions(cs)[k] in Run(cs).nextAllowed ==>
              exists j :: k <= j < |Admissions(cs)| && Admissions(cs)[j] == Admissions(cs)[k] &&
                          |Admissions(cs)| - j <= 10_000
  {
    QueueIsRecentAdmissions(cs);
    assert Lists(Run(cs).order, Run(cs).nextAllowed) by { RunValid(cs); }
    RecentMember(Admissions(cs), Run(cs).order, k);
  }

  lemma RecentMember<A>(ads: seq<A>, recent: seq<A>, k: nat)
    requires k < |ads| && recent == LastOf(ads, MAX_TRACKED_IPS)
    ensures |ads| - k <= MAX_TRACKED_IPS ==> ads[k] in recent
    ensures ads[k] in recent ==> exists j :: k <= j < |ads| && ads[j] == ads[k] && |ads| - j <= MAX_TRACKED_IPS
  {
    var skip := |ads| - |recent|;
    assert forall i :: 0 <= i < |recent| ==> recent[i] == ads[skip + i];
    if k >= skip {
      assert recent[k - skip] == ads[k];
    } else if ads[k] in recent {
      var i :| 0 <= i < |recent| && recent[i] == ads[k];
      assert ads[skip + i] == ads[k];
    }
  }

  /** Call `i` served this address at this time. */
  ghost predicate ServedAt<A>(cs: seq<Call<A>>, i: int, ip: A, at: int) {
    0 <= i < |cs| && cs[i] == Call(ip, at) && AnswerAt(cs, i).Allowed?
  }

  /** Call `i` is the last that served this address. */
  ghost predicate LastServed<A>(cs: seq<Call<A>>, i: int, ip: A, at: int) {
    ServedAt(cs, i, ip, at) && forall j :: i < j < |cs| && cs[j].ip == ip ==> AnswerAt(cs, j).Throttled?
  }

  lemma StillLast<A>(cs: seq<Call<A>>, i: int, ip: A, at: int)
    requires cs != [] && LastServed(cs[..|cs| - 1], i, ip, at)
    requires cs[|cs| - 1].ip == ip ==> AnswerAt(cs, |cs| - 1).Throttled?
    ensures LastServed(cs, i, ip, at)
  {
    hide Run, Check;
    var front := cs[..|cs| - 1];
    assert front[..i] == cs[..i];
    forall j | i < j < |cs| && cs[j].ip == ip ensures AnswerAt(cs, j).Throttled? {
      if j < |front| {
        assert front[..j] == cs[..j] && front[j] == cs[j];
        assert AnswerAt(front, j).Throttled?;
      }
    }
  }

  /** The deadline stored for a tracked address is one window after the last time it was served. */
  lemma {:induction false} DeadlineIsLastServed<A>(cs: seq<Call<A>>, ip: A, at: int)
    requires ip in Run(cs).nextAllowed && Run(cs).nextAllowed[ip] == at + RATE_LIMIT_WINDOW
    ensures exists i :: LastServed(cs, i, ip, at)
  {
    var n := |cs| - 1;
    var front, c := cs[..n], cs[n];
    if c.ip == ip && AnswerAt(cs, n).Allowed? {
      assert LastServed(cs, n, ip, at);
    } else {
      RecordOthers(Run(front), c.ip, c.now, ip);
      hide LastServed;
      DeadlineIsLastServed(front, ip, at);
      var i :| LastServed(front, i, ip, at);
      StillLast(cs, i, ip, at);
    }
  }

  /** Recording a call changes no other address's deadline, but may forget it. */
  lemma RecordOthers<A>(t: Table<A>, caller: A, now: int, ip: A)
    requires ip in Record(t, caller, now).nextAllowed && (ip == caller ==> Check(t, caller, now).Throttled?)
    ensures ip in t.nextAllowed && Record(t, caller, now).nextAllowed[ip] == t.nextAllowed[ip]
  {
  }

  /** The address of call `i` has not been evicted since, up to just before call `j`. */
  ghost predicate TrackedSince<A>(cs: seq<Call<A>>, i: nat, j: nat)
    requires i < j <= |cs|
  {
    forall m :: i < m <= j ==> cs[i].ip in Run(cs[..m]).nextAllowed
  }

  /** While an address stays tracked its deadline only moves forward. */
  lemma {:induction false} DeadlineHolds<A>(cs: seq<Call<A>>, i: nat, j: nat)
    requires i < j <= |cs| && AnswerAt(cs, i).Allowed? && TrackedSince(cs, i, j)
    ensures Run(cs[..j]).nextAllowed[cs[i].ip] >= cs[i].now + RATE_LIMIT_WINDOW
    decreases j
  {
    var before, c, ip := Run(cs[..j - 1]), cs[j - 1], cs[i].ip;
    assert cs[..j][..j - 1] == cs[..j - 1];
    assert Run(cs[..j]) == Record(before, c.ip, c.now);
    if i < j - 1 {
      DeadlineHolds(cs, i, j - 1);
      if c.ip != ip || Check(before, c.ip, c.now).Throttled? {
        hide Run;
        RecordOthers(before, c.ip, c.now, ip);
      }
    }
  }

  /** Two serves of an address that was not evicted in between are at least a window apart, in whatever
      order the callers' clock readings reached the lock; and a refusal tells how long is left of the window
      that the last serve opened. */
  lemma {:induction false} ServesAreApart<A>(cs: seq<Call<A>>, i: nat, j: nat)
    requires i < j < |cs| && cs[i].ip == cs[j].ip && AnswerAt(cs, i).Allowed? && TrackedSince(cs, i, j)
    ensures AnswerAt(cs, j).Allowed? ==> cs[j].now - cs[i].now >= 120_000_000_000
    ensures AnswerAt(cs, j).Throttled? ==>
              exists k :: i <= k < j && cs[k].ip == cs[j].ip && AnswerAt(cs, k).Allowed? &&
                          cs[j].now - cs[k].now == 120_000_000_000 - AnswerAt(cs, j).remaining < 120_000_000_000
  {
    DeadlineHolds(cs, i, j);
    LastServeOf(cs, i, j);
  }

  /** The deadline that call `j` meets was set by the last serve of its address, none earlier than `i`. */
  lemma {:induction false} LastServeOf<A>(cs: seq<Call<A>>, i: nat, j: nat)
    requires i < j < |cs| && cs[i].ip == cs[j].ip && AnswerAt(cs, i).Allowed? && cs[j].ip in Run(cs[..j]).nextAllowed
    ensures exists k :: i <= k < j && cs[k].ip == cs[j].ip && AnswerAt(cs, k).Allowed? &&
                        Run(cs[..j]).nextAllowed[cs[j].ip] == cs[k].now + RATE_LIMIT_WINDOW
  {
    var front := cs[..j];
    var at := Run(front).nextAllowed[cs[j].ip] - RATE_LIMIT_WINDOW;
    DeadlineIsLastServed(front, cs[j].ip, at);
    hide Run;
    var k :| LastServed(front, k, cs[j].ip, at);
    assert 0 <= k < j;
    assert front[..k] == cs[..k] && front[..i] == cs[..i] && front[i] == cs[i] && front[k] == cs[k];
    assert AnswerAt(front, i).Allowed?;
    assert i <= k;
  }

  /** With readings that do not go back, it is enough that the address is tracked when it calls again, even
      if it was evicted and admitted anew in between. */
  lemma {:induction false} ServesAreApartInOrder<A>(cs: seq<Call<A>>, i: nat, j: nat)
    requires InOrder(cs) && i < j < |cs| && cs[i].ip == cs[j].ip && AnswerAt(cs, i).Allowed?
    requires cs[j].ip in Run(cs[..j]).nextAllowed
    ensures AnswerAt(cs, j).Allowed? ==> cs[j].now - cs[i].now >= 120_000_000_000
  {
    LastServeOf(cs, i, j);
  }

  // ---------------------------------------------------------------- against an unbounded limiter

  ghost function UnboundedCheck<A>(m: map<A, int>, ip: A, now: int): Answer {
    if ip in m && m[ip] > now then Throttled(m[ip] - now) else Allowed
  }

  /** The limiter as it would be without a ceiling. */
  ghost function UnboundedRun<A>(cs: seq<Call<A>>): map<A, int> {
    if cs == [] then map[] else
      var m, c := UnboundedRun(cs[..|cs| - 1]), cs[|cs| - 1];
      if UnboundedCheck(m, c.ip, c.now).Throttled? then m else m[c.ip := c.now + 120_000_000_000]
  }

  ghost function Addresses<A>(cs: seq<Call<A>>): set<A> { set c | c in cs :: c.ip }

  lemma {:induction false} SameDeadlines<A>(cs: seq<Call<A>>)
    requires |Addresses(cs)| <= MAX_TRACKED_IPS
    ensures Run(cs).nextAllowed == UnboundedRun(cs)
    ensures Run(cs).nextAllowed.Keys <= Addresses(cs)
  {
    if cs != [] {
      var front, c := cs[..|cs| - 1], cs[|cs| - 1];
      assert Addresses(cs) == Addresses(front) + {c.ip};
      SubsetSize(Addresses(front), Addresses(cs));
      SameDeadlines(front);
      var t := Run(front);
      if c.ip !in t.nextAllowed {
        RunValid(front);
        RoomLeft(t, c.ip, Addresses(cs));
      }
    }
  }

  lemma RoomLeft<A>(t: Table<A>, ip: A, all: set<A>)
    requires Valid(t) && ip !in t.nextAllowed && ip in all
    requires t.nextAllowed.Keys <= all && |all| <= MAX_TRACKED_IPS
    ensures |t.order| < MAX_TRACKED_IPS
  {
    TrackedCount(t.order, t.nextAllowed);
    SubsetSize(t.nextAllowed.Keys + {ip}, all);
  }

  /** With at most `MAX_TRACKED_IPS` distinct callers the ceiling is unobservable. */
  lemma {:induction false} BoundedIsUnbounded<A>(cs: seq<Call<A>>)
    requires |Addresses(cs)| <= 10_000
    ensures Run(cs).nextAllowed == UnboundedRun(cs)
    ensures forall i :: 0 <= i < |cs| ==> AnswerAt(cs, i) == UnboundedCheck(UnboundedRun(cs[..i]), cs[i].ip, cs[i].now)
  {
    SameDeadlines(cs);
    forall i | 0 <= i < |cs| ensures AnswerAt(cs, i) == UnboundedCheck(UnboundedRun(cs[..i]), cs[i].ip, cs[i].now) {
      assert Addresses(cs[..i]) <= Addresses(cs);
      hide Run, UnboundedRun, Addresses;
      SubsetSize(Addresses(cs[..i]), Addresses(cs));
      SameDeadlines(cs[..i]);
    }
  }

  // ---------------------------------------------------------------- where the feed consults it

  /** One feed request: the resolved client address, the time, its `If-None-Match` header if readable, and
      the ETag of the body it would be served. */
  datatype Poll<A> = Poll(ip: A, now: int, ifNoneMatch: Option<string>, etag: string)

  predicate Revalidates<A>(p: Poll<A>) { p.ifNoneMatch.Some? && Text.Trim(p.ifNoneMatch.value) == p.etag }

  /** The client sent back this very tag, with any white space around it. */
  lemma {:induction false} RevalidatesIff<A>(p: Poll<A>)
    requires Text.Tight(p.etag)
    ensures Revalidates(p) <==>
              p.ifNoneMatch.Some? && exists a, b :: Text.Blank(a) && Text.Blank(b) && p.ifNoneMatch.value == a + p.etag + b
  {
    if p.ifNoneMatch.Some? {
      var a, b := Text.TrimSplits(p.ifNoneMatch.value);
      if c, d :| Text.Blank(c) && Text.Blank(d) && p.ifNoneMatch.value == c + p.etag + d { Text.TrimOf(c, p.etag, d); }
    }
  }

  datatype Reply = NotModified | TooManyRequests(retryAfter: int) | FullBody

  const SECOND: int := 1_000_000_000

  /** The end of `serve_feed`: a matching ETag is answered before the limiter is asked. */
  method ServePoll<A>(limiter: Limiter<A>, p: Poll<A>) returns (reply: Reply)
    requires Valid(limiter.Contents())
    modifies limiter
    ensures Valid(limiter.Contents())
    ensures Revalidates(p) ==> reply == NotModified && limiter.Contents() == old(limiter.Contents())
    ensures !Revalidates(p) ==>
              && limiter.Contents() == Record(old(limiter.Contents()), p.ip, p.now)
              && match Check(old(limiter.Contents()), p.ip, p.now)
                 case Allowed => reply == FullBody
                 case Throttled(left) => reply.TooManyRequests? && 0 <= left - reply.retryAfter * SECOND < SECOND
  {
    if Revalidates(p) {
      return NotModified;
    }
    var answer := limiter.CheckAndRecord(p.ip, p.now);
    match answer {
      case Throttled(remaining) => reply := TooManyRequests(remaining / SECOND);
      case Allowed => reply := FullBody;
    }
  }

  ghost function Polls<A>(t: Table<A>, ps: seq<Poll<A>>): Table<A> {
    if ps == [] then t else
      var t', p := Polls(t, ps[..|ps| - 1]), ps[|ps| - 1];
      if Revalidates(p) then t' else Record(t', p.ip, p.now)
  }

  ghost function Fetches<A>(ps: seq<Poll<A>>): seq<Call<A>> {
    if ps == [] then [] else
      var front, p := Fetches(ps[..|ps| - 1]), ps[|ps| - 1];
      if Revalidates(p) then front else front + [Call(p.ip, p.now)]
  }

  /** Revalidations are free: the limiter is where the full fetches alone would have left it. */
  lemma {:induction false} RevalidationIsFree<A>(ps: seq<Poll<A>>)
    ensures Polls(Table(map[], []), ps) == Run(Fetches(ps))
  {
    if ps != [] {
      RevalidationIsFree(ps[..|ps| - 1]);
      var front, p := Fetches(ps[..|ps| - 1]), ps[|ps| - 1];
      assert (front + [Call(p.ip, p.now)])[..|front|] == front;
    }
  }
}
