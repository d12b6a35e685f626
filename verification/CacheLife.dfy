/** Which endpoints have a cache entry: the worker's pass (src/sync.rs:104-166) against the delete handler
    (src/api/endpoints.rs:315-348). The pass reads the endpoint rows once and applies its fetches later; the
    handler removes the row and then evicts the entry. Their steps interleave. */
module CacheLife {

  type Id = nat

  /** `pending` are the endpoints of the current pass still to be visited, `evicting` those whose row is gone
      and whose entry is about to go, `used` every identifier ever inserted. */
  datatype State = State(rows: set<Id>, pending: set<Id>, evicting: set<Id>, cached: set<Id>, used: set<Id>)

  /** `Visit` ends a visit by applying a fetch, `Skip` ends one without. `Abandon` is a delete that breaks off
      between the row and the eviction. */
  datatype Step = Create(e: Id) | List | Visit(e: Id) | Skip(e: Id)
                | DeleteRow(e: Id) | Evict(e: Id) | Abandon(e: Id)

  function Init(): State { State({}, {}, {}, {}, {}) }

  predicate Enabled(s: State, step: Step) {
    match step
    case Create(e) => e !in s.used
    case List => s.pending == {}
    case Visit(e) => e in s.pending
    case Skip(e) => e in s.pending
    case DeleteRow(e) => e in s.rows
    case Evict(e) => e in s.evicting
    case Abandon(e) => e in s.evicting
  }

  function Next(s: State, step: Step): State {
    match step
    case Create(e) => s.(rows := s.rows + {e}, used := s.used + {e})
    case List => s.(pending := s.rows)
    case Visit(e) => s.(pending := s.pending - {e}, cached := s.cached + {e})
    case Skip(e) => s.(pending := s.pending - {e})
    case DeleteRow(e) => s.(rows := s.rows - {e}, evicting := s.evicting + {e})
    case Evict(e) => s.(evicting := s.evicting - {e}, cached := s.cached - {e})
    case Abandon(e) => s.(evicting := s.evicting - {e})
  }

  ghost predicate StepsTo(s: State, step: Step, t: State) { Enabled(s, step) && t == Next(s, step) }

  ghost predicate Trace(es: seq<Step>, ss: seq<State>) {
    |ss| == |es| + 1 && ss[0] == Init() &&
    forall i :: 0 <= i < |es| ==> StepsTo(ss[i], es[i], ss[i + 1])
  }

  /** The delete of `e` is over. */
  ghost predicate Gone(s: State, e: Id) { e in s.used && e !in s.rows && e !in s.evicting }

  /** The entry has outlived its endpoint: the delete is over and the entry is there. */
  ghost predicate Orphan(s: State, e: Id) { Gone(s, e) && e in s.cached }

  ghost predicate Inv(s: State) {
    && s.rows <= s.used && s.pending <= s.used && s.evicting <= s.used && s.cached <= s.used
    && s.rows !! s.evicting
  }

  lemma {:induction false} TraceInv(es: seq<Step>, ss: seq<State>, n: nat)
    requires Trace(es, ss) && n < |ss|
    ensures Inv(ss[n])
    decreases n
  {
    if n > 0 {
      TraceInv(es, ss, n - 1);
      assert StepsTo(ss[n - 1], es[n - 1], ss[n]);
    }
  }

  /** Some delete of `e` has ended among the first `n` steps. */
  ghost predicate Ended(es: seq<Step>, n: nat, e: Id)
    requires n <= |es|
  {
    exists i :: 0 <= i < n && (es[i] == Evict(e) || es[i] == Abandon(e))
  }

  /** Step `j` applied a fetch to `e` and no eviction of it followed. */
  ghost predicate LastApplied(es: seq<Step>, n: nat, e: Id, j: nat)
    requires j < n <= |es|
  {
    es[j] == Visit(e) && forall k :: j < k < n ==> es[k] != Evict(e)
  }

  ghost predicate Applied(es: seq<Step>, n: nat, e: Id)
    requires n <= |es|
  {
    exists j :: 0 <= j < n && LastApplied(es, n, e, j)
  }

  lemma {:induction false} AppliedStep(es: seq<Step>, n: nat, e: Id)
    requires n < |es|
    ensures Applied(es, n + 1, e) <==> es[n] == Visit(e) || (Applied(es, n, e) && es[n] != Evict(e))
  {
    if es[n] == Visit(e) {
      assert LastApplied(es, n + 1, e, n);
    }
    if Applied(es, n, e) && es[n] != Evict(e) {
      var j :| 0 <= j < n && LastApplied(es, n, e, j);
      assert LastApplied(es, n + 1, e, j);
    }
    if Applied(es, n + 1, e) && es[n] != Visit(e) {
      var j :| 0 <= j < n + 1 && LastApplied(es, n + 1, e, j);
      assert LastApplied(es, n, e, j);
    }
  }

  lemma {:induction false} EndedStep(es: seq<Step>, n: nat, e: Id)
    requires n < |es|
    ensures Ended(es, n + 1, e) <==> Ended(es, n, e) || es[n] == Evict(e) || es[n] == Abandon(e)
  {
  }

  /** The state in terms of the steps taken: the entry is there exactly when a fetch was applied and not evicted
      since, and the delete is over exactly when it ended. */
  lemma {:induction false} StateOfSteps(es: seq<Step>, ss: seq<State>, n: nat, e: Id)
    requires Trace(es, ss) && n < |ss|
    ensures e in ss[n].cached <==> Applied(es, n, e)
    ensures Gone(ss[n], e) <==> Ended(es, n, e)
    decreases n
  {
    if n > 0 {
      StateOfSteps(es, ss, n - 1, e);
      AppliedStep(es, n - 1, e);
      EndedStep(es, n - 1, e);
      TraceInv(es, ss, n - 1);
      assert StepsTo(ss[n - 1], es[n - 1], ss[n]);
    }
  }

  /** "Only existing endpoints have cache entries" fails exactly when the delete ended and a fetch was applied
      with no eviction after it. */
  lemma {:induction false} OrphanIff(es: seq<Step>, ss: seq<State>, n: nat, e: Id)
    requires Trace(es, ss) && n < |ss|
    ensures Orphan(ss[n], e) <==> Ended(es, n, e) && Applied(es, n, e)
  {
    StateOfSteps(es, ss, n, e);
  }

  /** Once a delete is over nothing evicts the entry again, and no later pass lists the endpoint. */
  lemma {:induction false} GoneStaysGone(es: seq<Step>, ss: seq<State>, i: nat, n: nat, e: Id)
    requires Trace(es, ss) && i <= n < |ss| && Gone(ss[i], e)
    ensures Gone(ss[n], e)
    ensures e in ss[n].pending ==> e in ss[i].pending
    ensures e in ss[i].cached ==> e in ss[n].cached
    ensures e in ss[n].cached ==> e in ss[i].cached || e in ss[i].pending
    decreases n
  {
    if i < n {
      GoneStaysGone(es, ss, i, n - 1, e);
      assert StepsTo(ss[n - 1], es[n - 1], ss[n]);
    }
  }

  /** An orphaned entry is kept for as long as the process lives. */
  lemma {:induction false} OrphanForGood(es: seq<Step>, ss: seq<State>, i: nat, n: nat, e: Id)
    requires Trace(es, ss) && i <= n < |ss| && Orphan(ss[i], e)
    ensures Orphan(ss[n], e)
  {
    GoneStaysGone(es, ss, i, n, e);
  }

  /** Step `i` ends a visit to `e`. */
  ghost predicate EndsVisit(es: seq<Step>, i: nat, e: Id)
    requires i < |es|
  {
    es[i] == Visit(e) || es[i] == Skip(e)
  }

  ghost predicate ListedBetween(es: seq<Step>, i: nat, j: nat) { exists k :: i < k < j <= |es| && es[k] == List }

  /** A pass visits each endpoint once: between two visits of one the rows were listed anew. */
  lemma {:induction false} VisitedOncePerPass(es: seq<Step>, ss: seq<State>, i: nat, j: nat, e: Id)
    requires Trace(es, ss) && i < j < |es| && EndsVisit(es, i, e) && EndsVisit(es, j, e)
    ensures ListedBetween(es, i, j)
  {
    assert StepsTo(ss[j], es[j], ss[j + 1]);
    PendingMeansListed(es, ss, i, j, e);
  }

  lemma {:induction false} PendingMeansListed(es: seq<Step>, ss: seq<State>, i: nat, j: nat, e: Id)
    requires Trace(es, ss) && i < j <= |es| && EndsVisit(es, i, e)
    ensures e in ss[j].pending ==> ListedBetween(es, i, j)
    decreases j
  {
    assert StepsTo(ss[j - 1], es[j - 1], ss[j]);
    if i < j - 1 {
      PendingMeansListed(es, ss, i, j - 1, e);
      if ListedBetween(es, i, j - 1) { var k :| i < k < j - 1 && es[k] == List; }
    }
  }

  ghost predicate Continues(es: seq<Step>, ss: seq<State>, more: seq<Step>, on: seq<State>) {
    Trace(more, on) && es <= more && ss <= on
  }

  /** What the handler leaves behind when it evicts: the entry can come back exactly when the pass under way
      had listed the endpoint and not yet finished with it. */
  lemma {:induction false} EvictionUndoneIff(es: seq<Step>, ss: seq<State>, e: Id)
    requires Trace(es, ss) && |es| > 0 && es[|es| - 1] == Evict(e)
    ensures e in ss[|es|].pending <==>
              exists more, on :: Continues(es, ss, more, on) && Orphan(on[|on| - 1], e)
  {
    var n := |es|;
    TraceInv(es, ss, n - 1);
    assert StepsTo(ss[n - 1], es[n - 1], ss[n]);
    if e in ss[n].pending {
      var more, on := es + [Visit(e)], ss + [Next(ss[n], Visit(e))];
      assert Continues(es, ss, more, on) && Orphan(on[|on| - 1], e);
    }
    if more, on :| Continues(es, ss, more, on) && Orphan(on[|on| - 1], e) {
      assert on[n] == ss[n];
      GoneStaysGone(more, on, n, |on| - 1, e);
    }
  }

  /** A run in which it happens: listed, deleted, evicted, and only then visited. */
  lemma {:induction false} DeletedWhileFetched(e: Id)
    ensures exists es, ss :: Trace(es, ss) && Evict(e) in es && Abandon(e) !in es && Orphan(ss[|ss| - 1], e)
  {
    var es := [Create(e), List, DeleteRow(e), Evict(e), Visit(e)];
    var s1 := Next(Init(), es[0]);
    var s2 := Next(s1, es[1]);
    var s3 := Next(s2, es[2]);
    var s4 := Next(s3, es[3]);
    var ss := [Init(), s1, s2, s3, s4, Next(s4, es[4])];
    assert es[3] == Evict(e);
    assert Trace(es, ss) && Orphan(ss[5], e);
  }
}
