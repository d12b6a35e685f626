/** Who may change an endpoint, and how often one can be deleted, over whole runs of the tables' machine. */
module Ownership {
  import opened Authority
  import opened Collections

  /** A run with all its states: `ss[i]` is where step `es[i]` happens. */
  ghost predicate Trace(start: State, es: seq<Step>, ss: seq<State>) {
    |ss| == |es| + 1 && ss[0] == start && forall i :: 0 <= i < |es| ==> Follows(ss[i], es[i], ss[i + 1])
  }

  ghost predicate FromBoot(master: Id, row: Key, es: seq<Step>, ss: seq<State>) {
    row.isMaster && Trace(Booted(master, row), es, ss)
  }

  lemma {:induction false} TraceReaches(start: State, es: seq<Step>, ss: seq<State>, n: nat)
    requires Trace(start, es, ss) && n < |ss|
    ensures Reaches(start, es[..n], ss[n])
    decreases n
  {
    if n == 0 {
      assert es[..0] == [];
    } else {
      TraceReaches(start, es, ss, n - 1);
      assert Follows(ss[n - 1], es[n - 1], ss[n]);
      hide Follows, Reaches;
      assert es[..n] == es[..n - 1] + [es[n - 1]];
      FollowsThen(start, es[..n - 1], ss[n - 1], es[n - 1], ss[n]);
    }
  }

  lemma {:induction false} FollowsThen(start: State, es: seq<Step>, s: State, e: Step, s': State)
    requires Reaches(start, es, s) && Follows(s, e, s')
    ensures Reaches(start, es + [e], s')
  {
    hide Reaches;
    Then(start, es, s, e);
  }

  lemma {:induction false} TraceInv(master: Id, row: Key, es: seq<Step>, ss: seq<State>, n: nat)
    requires FromBoot(master, row, es, ss) && n < |ss|
    ensures Inv(ss[n], row) && ss[n].master == master
  {
    TraceReaches(Booted(master, row), es, ss, n);
    assert Inv(Booted(master, row), row);
    hide Inv, Reaches;
    RunKeepsInv(Booted(master, row), row, es[..n], ss[n]);
  }

  // ---------------------------------------------------------------- gone for good

  ghost predicate Gone(s: State, x: Id) { x in s.db.usedEndpoints && x !in s.db.endpoints }

  ghost predicate KeyGone(s: State, k: Id) { k in s.db.usedKeys && k !in s.db.keys }

  /** No step brings an identifier back. */
  lemma {:induction false} StepKeepsGone(s: State, e: Step, x: Id)
    requires Enabled(s, e)
    ensures Gone(s, x) ==> Gone(Apply(s, e), x)
    ensures KeyGone(s, x) ==> KeyGone(Apply(s, e), x)
  {
    hide Permitted, Owned;
  }

  lemma {:induction false} GoneStaysGone(start: State, es: seq<Step>, ss: seq<State>, i: nat, j: nat, x: Id)
    requires Trace(start, es, ss) && i <= j < |ss|
    ensures Gone(ss[i], x) ==> Gone(ss[j], x)
    ensures KeyGone(ss[i], x) ==> KeyGone(ss[j], x)
    decreases j
  {
    hide Gone, KeyGone, Apply, Enabled;
    if i < j {
      GoneStaysGone(start, es, ss, i, j - 1, x);
      assert Follows(ss[j - 1], es[j - 1], ss[j]);
      StepKeepsGone(ss[j - 1], es[j - 1], x);
    }
  }

  /** Step `i` is the write of a request for `op`, and it takes effect. */
  ghost predicate Succeeds(es: seq<Step>, ss: seq<State>, i: nat, op: Operation)
    requires i < |es| && |ss| == |es| + 1
  {
    && es[i].Write? && es[i].r in ss[i].requests && ss[i].requests[es[i].r].Ready?
    && ss[i].requests[es[i].r].op == op && !Perform(ss[i].db, ss[i].requests[es[i].r].caller, op).Failed?
  }

  lemma {:induction false} EndpointDeleteRemoves(master: Id, row: Key, es: seq<Step>, ss: seq<State>, i: nat, x: Id)
    requires FromBoot(master, row, es, ss) && i < |es| && Succeeds(es, ss, i, DeleteEndpoint(x))
    ensures x in ss[i].db.endpoints && Gone(ss[i + 1], x)
  {
    TraceInv(master, row, es, ss, i);
    assert AllUsed(ss[i].db) && Follows(ss[i], es[i], ss[i + 1]);
  }

  lemma {:induction false} KeyDeleteRemoves(master: Id, row: Key, es: seq<Step>, ss: seq<State>, i: nat, k: Id, to: Option<Id>)
    requires FromBoot(master, row, es, ss) && i < |es| && Succeeds(es, ss, i, DeleteKey(k, to))
    ensures k in ss[i].db.keys && KeyGone(ss[i + 1], k)
  {
    TraceInv(master, row, es, ss, i);
    assert AllUsed(ss[i].db) && Follows(ss[i], es[i], ss[i + 1]);
    hide Owned, Reowned;
  }

  /** However many requests race to delete one endpoint, and wherever they break off, at most one delete of
      it ever succeeds. */
  lemma {:induction false} OneEndpointDelete(master: Id, row: Key, es: seq<Step>, ss: seq<State>, i: nat, j: nat, x: Id)
    requires FromBoot(master, row, es, ss) && i <= j < |es|
    requires Succeeds(es, ss, i, DeleteEndpoint(x)) && Succeeds(es, ss, j, DeleteEndpoint(x))
    ensures i == j
  {
    hide Succeeds;
    EndpointDeleteRemoves(master, row, es, ss, i, x);
    EndpointDeleteRemoves(master, row, es, ss, j, x);
    if i < j { GoneStaysGone(Booted(master, row), es, ss, i + 1, j, x); }
  }

  /** And at most one delete of a key, whatever heirs the requests name. */
  lemma {:induction false} OneKeyDelete(master: Id, row: Key, es: seq<Step>, ss: seq<State>, i: nat, j: nat, k: Id,
                                        to: Option<Id>, to': Option<Id>)
    requires FromBoot(master, row, es, ss) && i <= j < |es|
    requires Succeeds(es, ss, i, DeleteKey(k, to)) && Succeeds(es, ss, j, DeleteKey(k, to'))
    ensures i == j
  {
    hide Succeeds;
    KeyDeleteRemoves(master, row, es, ss, i, k, to);
    KeyDeleteRemoves(master, row, es, ss, j, k, to');
    if i < j { GoneStaysGone(Booted(master, row), es, ss, i + 1, j, k); }
  }

  // ---------------------------------------------------------------- who wrote

  /** Request `r` is past its guards with this caller and operation. */
  ghost predicate PastGuards(s: State, r: Request, c: Caller, op: Operation) {
    r in s.requests && (s.requests[r] == Found(c, op) || s.requests[r] == Ready(c, op))
  }

  /** Step `n` is the check that let request `r` through to where it stands at `j`. */
  ghost predicate CheckedAt(es: seq<Step>, ss: seq<State>, n: nat, j: nat, r: Request, c: Caller, op: Operation)
    requires |ss| == |es| + 1
  {
    && n < j <= |es| && es[n] == Check(r) && r in ss[n].requests && ss[n].requests[r] == Authenticated(c, op)
    && Permitted(ss[n].db, c, op) && forall k :: n < k <= j ==> PastGuards(ss[k], r, c, op)
  }

  /** How a request can come to be past its guards in one step. */
  lemma {:induction false} PastGuardsStep(s: State, e: Step, r: Request, c: Caller, op: Operation)
    requires Enabled(s, e) && PastGuards(Apply(s, e), r, c, op)
    ensures PastGuards(s, r, c, op) ||
            (e == Check(r) && r in s.requests && s.requests[r] == Authenticated(c, op) && Permitted(s.db, c, op))
  {
    hide Permitted, Perform;
  }

  lemma {:induction false} WasChecked(start: State, es: seq<Step>, ss: seq<State>, j: nat, r: Request, c: Caller, op: Operation)
    requires Trace(start, es, ss) && start.requests == map[] && j <= |es| && PastGuards(ss[j], r, c, op)
    ensures exists n: nat :: CheckedAt(es, ss, n, j, r, c, op)
    decreases j
  {
    assert Follows(ss[j - 1], es[j - 1], ss[j]);
    PastGuardsStep(ss[j - 1], es[j - 1], r, c, op);
    hide Permitted;
    if PastGuards(ss[j - 1], r, c, op) {
      WasChecked(start, es, ss, j - 1, r, c, op);
      var n: nat :| CheckedAt(es, ss, n, j - 1, r, c, op);
      assert CheckedAt(es, ss, n, j, r, c, op);
    } else {
      assert CheckedAt(es, ss, j - 1, j, r, c, op);
    }
  }

  /** Step `j` updates or deletes endpoint `x` on behalf of `c`. */
  ghost predicate Touches(es: seq<Step>, ss: seq<State>, j: nat, x: Id, r: Request, c: Caller)
    requires j < |es| && |ss| == |es| + 1
  {
    && es[j] == Write(r) && r in ss[j].requests && ss[j].requests[r].Ready? && ss[j].requests[r].caller == c
    && (ss[j].requests[r].op == DeleteEndpoint(x) ||
        (ss[j].requests[r].op.UpdateEndpoint? && ss[j].requests[r].op.endpoint == x))
  }

  /** Between the check at `n` and the write at `j` request `r` was let through for `c`, who was then the
      pinned Master or the owner of `x`. */
  ghost predicate AuthorisedAt(master: Id, es: seq<Step>, ss: seq<State>, n: nat, j: nat, x: Id, r: Request, c: Caller)
    requires |ss| == |es| + 1
  {
    && n < j <= |es| && es[n] == Check(r) && (forall k :: n < k < j ==> es[k] != Check(r))
    && x in ss[n].db.endpoints && (c == Caller(master, true) || ss[n].db.endpoints[x].owner == Some(c.id))
  }

  /** Whenever an endpoint is reconfigured or deleted, the request was let through, once, on behalf of the
      Master or of the key that owned the endpoint when it was looked up. */
  lemma {:induction false} TouchesAreAuthorised(master: Id, row: Key, es: seq<Step>, ss: seq<State>, j: nat, x: Id,
                                                r: Request, c: Caller)
    requires FromBoot(master, row, es, ss) && j < |es| && Touches(es, ss, j, x, r, c)
    ensures exists n: nat :: AuthorisedAt(master, es, ss, n, j, x, r, c)
  {
    var op := ss[j].requests[r].op;
    WasChecked(Booted(master, row), es, ss, j, r, c, op);
    var n: nat :| CheckedAt(es, ss, n, j, r, c, op);
    TraceInv(master, row, es, ss, n);
    assert Vetted(ss[n], ss[n].requests[r]);
    forall k | n < k < j ensures es[k] != Check(r) {
      assert PastGuards(ss[k], r, c, op) && Follows(ss[k], es[k], ss[k + 1]);
    }
    assert AuthorisedAt(master, es, ss, n, j, x, r, c);
  }

  /** So every change to an endpoint's row, its owner apart, traces back to such a request. */
  lemma {:induction false} RowChangesAreAuthorised(master: Id, row: Key, es: seq<Step>, ss: seq<State>, j: nat, x: Id)
    requires FromBoot(master, row, es, ss) && j < |es| && x in ss[j].db.endpoints
    requires x in ss[j + 1].db.endpoints ==> ss[j + 1].db.endpoints[x].settings != ss[j].db.endpoints[x].settings
    ensures exists n: nat, r, c :: AuthorisedAt(master, es, ss, n, j, x, r, c)
  {
    TraceReaches(Booted(master, row), es, ss, j);
    assert Follows(ss[j], es[j], ss[j + 1]);
    hide Reaches, Booted;
    EndpointsChangeBy(master, row, es[..j], ss[j], es[j], x);
    var r := es[j].r;
    var c := ss[j].requests[r].caller;
    assert Touches(es, ss, j, x, r, c);
    TouchesAreAuthorised(master, row, es, ss, j, x, r, c);
    var n: nat :| AuthorisedAt(master, es, ss, n, j, x, r, c);
  }

  // ---------------------------------------------------------------- ownership between check and write

  /** This step hands endpoint `x` over: the write of a request to reassign it or to delete its owner, and
      the write takes effect. */
  ghost predicate HandsOver(s: State, e: Step, x: Id) {
    && e.Write? && e.r in s.requests && s.requests[e.r].Ready? && x in s.db.endpoints
    && !Perform(s.db, s.requests[e.r].caller, s.requests[e.r].op).Failed?
    && match s.requests[e.r].op
       case ReassignOwner(y, _) => y == x
       case DeleteKey(k, _) => s.db.endpoints[x].owner == Some(k)
       case _ => false
  }

  /** To whom, by the request's own words. */
  ghost function Recipient(s: State, e: Step, x: Id): Option<Id>
    requires HandsOver(s, e, x)
  {
    if s.requests[e.r].op.ReassignOwner? then s.requests[e.r].op.newOwner else s.requests[e.r].op.reassignTo
  }

  /** A step changes an endpoint's owner exactly when it hands the endpoint over to someone else; it is then
      the Master's, and the endpoint goes to whom the request names. */
  lemma {:induction false} OwnerChangesByHandOver(s: State, was: Key, e: Step, x: Id)
    requires Inv(s, was) && Enabled(s, e) && x in s.db.endpoints && x in Apply(s, e).db.endpoints
    ensures HandsOver(s, e, x) ==> Apply(s, e).db.endpoints[x].owner == Recipient(s, e, x) && ByMaster(s, e)
    ensures Apply(s, e).db.endpoints[x].owner != s.db.endpoints[x].owner <==>
              HandsOver(s, e, x) && Recipient(s, e, x) != s.db.endpoints[x].owner
  {
    if e.Write? {
      var c, op := s.requests[e.r].caller, s.requests[e.r].op;
      assert Vetted(s, s.requests[e.r]) && AllUsed(s.db);
      hide Inv, OneMaster, OwnersExist, AllVetted;
      OwnerWritten(s.db, c, op, x);
      hide Perform, Vetted;
    }
  }

  /** What one write does to an endpoint's owner. */
  lemma {:induction false} OwnerWritten(db: Db, c: Caller, op: Operation, x: Id)
    requires x in db.endpoints && (op.DeleteKey? ==> op.reassignTo != Some(op.key))
    requires op.CreateEndpoint? ==> op.newEndpoint != x
    requires !Perform(db, c, op).Failed? ==> x in Perform(db, c, op).db.endpoints
    ensures !Perform(db, c, op).Failed? ==>
              Perform(db, c, op).db.endpoints[x].owner == if op.ReassignOwner? && op.endpoint == x then op.newOwner
                                                          else if op.DeleteKey? && db.endpoints[x].owner == Some(op.key) then op.reassignTo
                                                          else db.endpoints[x].owner
  {
    if op.DeleteKey? { KeyDeleteIsWhole(db, op.key, op.reassignTo); }
    hide DeleteKeyTransaction;
  }

  /** No step between `k` and `j` hands `x` over. */
  ghost predicate Undisturbed(es: seq<Step>, ss: seq<State>, k: nat, j: nat, x: Id)
    requires k < j < |ss| == |es| + 1
  {
    forall l :: k < l < j ==> !HandsOver(ss[l], es[l], x)
  }

  /** The last hand-over between `n` and `j`, if there is one, names `owner`. */
  ghost predicate LastHandedTo(es: seq<Step>, ss: seq<State>, n: nat, j: nat, x: Id, owner: Id)
    requires n <= j < |ss| == |es| + 1
  {
    forall k :: n <= k < j && HandsOver(ss[k], es[k], x) && Undisturbed(es, ss, k, j, x) ==>
      Recipient(ss[k], es[k], x) == Some(owner)
  }

  lemma {:induction false} StillThere(master: Id, row: Key, es: seq<Step>, ss: seq<State>, n: nat, k: nat, j: nat, x: Id)
    requires FromBoot(master, row, es, ss) && n <= k <= j < |ss|
    requires x in ss[n].db.endpoints && x in ss[j].db.endpoints
    ensures x in ss[k].db.endpoints
  {
    TraceInv(master, row, es, ss, n);
    assert x in ss[n].db.usedEndpoints;
    hide Inv;
    UsedStaysUsed(Booted(master, row), es, ss, n, k, x);
    GoneStaysGone(Booted(master, row), es, ss, k, j, x);
  }

  lemma {:induction false} UsedStaysUsed(start: State, es: seq<Step>, ss: seq<State>, i: nat, j: nat, x: Id)
    requires Trace(start, es, ss) && i <= j < |ss| && x in ss[i].db.usedEndpoints
    ensures x in ss[j].db.usedEndpoints
    decreases j
  {
    if i < j {
      UsedStaysUsed(start, es, ss, i, j - 1, x);
      assert Follows(ss[j - 1], es[j - 1], ss[j]);
      StepKeepsUsed(ss[j - 1], es[j - 1], x);
    }
  }

  lemma {:induction false} StepKeepsUsed(s: State, e: Step, x: Id)
    requires Enabled(s, e) && x in s.db.usedEndpoints
    ensures x in Apply(s, e).db.usedEndpoints
  {
    hide Permitted, Owned;
  }

  /** A key that owned the endpoint at its check owns it at its write exactly when no reassignment of it and
      no deletion of its owner took effect in between, or the last that did names that key. */
  lemma {:induction false} OwnsAtWriteIff(master: Id, row: Key, es: seq<Step>, ss: seq<State>, n: nat, j: nat, x: Id, owner: Id)
    requires FromBoot(master, row, es, ss) && n <= j < |ss| && x in ss[n].db.endpoints && x in ss[j].db.endpoints
    requires ss[n].db.endpoints[x].owner == Some(owner)
    ensures ss[j].db.endpoints[x].owner == Some(owner) <==> LastHandedTo(es, ss, n, j, x, owner)
    decreases j
  {
    assert |ss| == |es| + 1;
    hide *;
    if n < j {
      StillThere(master, row, es, ss, n, j - 1, j, x);
      OwnsAtWriteIff(master, row, es, ss, n, j - 1, x, owner);
      OwnerStep(master, row, es, ss, j - 1, x);
      LastStep(es, ss, n, j, x, owner);
    } else {
      NoneBetween(es, ss, n, x, owner);
    }
  }

  lemma {:induction false} OwnerStep(master: Id, row: Key, es: seq<Step>, ss: seq<State>, k: nat, x: Id)
    requires FromBoot(master, row, es, ss) && k < |es| && x in ss[k].db.endpoints && x in ss[k + 1].db.endpoints
    ensures ss[k + 1].db.endpoints[x].owner == if HandsOver(ss[k], es[k], x) then Recipient(ss[k], es[k], x)
                                               else ss[k].db.endpoints[x].owner
  {
    TraceInv(master, row, es, ss, k);
    assert Follows(ss[k], es[k], ss[k + 1]);
    hide Inv, FromBoot, HandsOver, Recipient, Apply, Enabled;
    OwnerChangesByHandOver(ss[k], row, es[k], x);
  }

  lemma NoneBetween(es: seq<Step>, ss: seq<State>, n: nat, x: Id, owner: Id)
    requires n < |ss| == |es| + 1
    ensures LastHandedTo(es, ss, n, n, x, owner)
  {
  }

  /** The last hand-over before `j` is step `j - 1`, or else what it was before that. */
  lemma {:induction false} LastStep(es: seq<Step>, ss: seq<State>, n: nat, j: nat, x: Id, owner: Id)
    requires n < j < |ss| == |es| + 1
    ensures LastHandedTo(es, ss, n, j, x, owner) <==>
              if HandsOver(ss[j - 1], es[j - 1], x) then Recipient(ss[j - 1], es[j - 1], x) == Some(owner)
              else LastHandedTo(es, ss, n, j - 1, x, owner)
  {
    hide HandsOver, Recipient;
    assert Undisturbed(es, ss, j - 1, j, x);
    forall k | n <= k < j - 1
      ensures Undisturbed(es, ss, k, j, x) <==> Undisturbed(es, ss, k, j - 1, x) && !HandsOver(ss[j - 1], es[j - 1], x)
    {
    }
  }

  /** It can change hands: from every state in which a key other than the Master owns an endpoint and another
      key exists, there is a run in which the endpoint is reassigned after the owner's delete was checked, and
      the delete still takes effect when the endpoint is no longer theirs. */
  lemma {:induction false} FormerOwnerDeletes(s: State, was: Key, x: Id, k: Id, heir: Id, r: Request, q: Request)
    requires Inv(s, was) && x in s.db.endpoints && s.db.endpoints[x].owner == Some(k) && k != s.master
    requires heir in s.db.keys && heir != k && r !in s.requests && q !in s.requests && r != q
    ensures exists es, late ::
              && Reaches(s, es, late) && Enabled(late, Write(r)) && late.requests[r].caller == Caller(k, false)
              && x in late.db.endpoints && late.db.endpoints[x].owner == Some(heir)
              && x !in Apply(late, Write(r)).db.endpoints
  {
    var c := Caller(k, false);
    assert k in s.db.keys && s.master in s.db.keys && s.db.keys[s.master].isMaster && !s.db.keys[k].isMaster;
    hide Reaches, Inv;
    var es, ready := DeleteReady(s, x, k, r);
    var rest, late := RunAlone(ready, q, Caller(s.master, true), ReassignOwner(x, Some(heir)));
    HandedOver(s.db, s.master, x, heir);
    hide Alone, Permitted;
    Joined(s, es, ready, rest, late);
    DeleteTakesEffect(late, r, c, x);
  }

  /** The owner's delete gets as far as its write. */
  lemma {:induction false} DeleteReady(s: State, x: Id, k: Id, r: Request) returns (es: seq<Step>, ready: State)
    requires x in s.db.endpoints && s.db.endpoints[x].owner == Some(k) && k != s.master && k in s.db.keys
    requires r !in s.requests
    ensures Reaches(s, es, ready)
    ensures ready == s.(requests := s.requests[r := Ready(Caller(k, false), DeleteEndpoint(x))])
  {
    var c, op := Caller(k, false), DeleteEndpoint(x);
    ReachesItself(s);
    hide Reaches, Perform;
    Then(s, [], s, Authenticate(r, k, op));
    var begun := Apply(s, Authenticate(r, k, op));
    assert begun == s.(requests := s.requests[r := Authenticated(c, op)]);
    assert !Blocked(begun.db, c, op);
    hide Apply, Enabled, Blocked;
    var checks;
    checks, ready := ReachesWrite(begun, r, c, op);
    Joined(s, [] + [Authenticate(r, k, op)], begun, checks, ready);
    es := [] + [Authenticate(r, k, op)] + checks;
    var m: map<Request, Phase> := begun.requests;
    assert m[r := Ready(c, op)] == s.requests[r := Ready(c, op)];
  }

  lemma DeleteTakesEffect(s: State, r: Request, c: Caller, x: Id)
    requires r in s.requests && s.requests[r] == Ready(c, DeleteEndpoint(x)) && x in s.db.endpoints
    ensures Enabled(s, Write(r)) && x !in Apply(s, Write(r)).db.endpoints
  {
  }

  lemma HandedOver(db: Db, master: Id, x: Id, heir: Id)
    requires x in db.endpoints && heir in db.keys
    ensures var after := Alone(db, Caller(master, true), ReassignOwner(x, Some(heir)));
            x in after.endpoints && after.endpoints[x].owner == Some(heir)
  {
  }
}
