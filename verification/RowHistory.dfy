/** What the tables hold, in terms of the requests that were served: over every run of the tables' machine each
    field of each row is what the last request that took effect on it said. */
module RowHistory {
  import opened Authority
  import opened Collections
  import opened Ownership

  /** The request whose write is step `e`. */
  ghost predicate Writes(s: State, e: Step) { e.Write? && e.r in s.requests && s.requests[e.r].Ready? }

  ghost function OpOf(s: State, e: Step): Operation
    requires Writes(s, e)
  {
    s.requests[e.r].op
  }

  // ---------------------------------------------------------------- keys

  datatype Field = Name | Hash | Secret | BoundIps | ManagesKeys

  datatype Value = Words(words: string) | Flag(flag: bool)

  function ReadField(k: Key, f: Field): Value {
    match f
    case Name => Words(k.name)
    case Hash => Words(k.keyHash)
    case Secret => Words(k.signingSecret)
    case BoundIps => Words(k.boundIps)
    case ManagesKeys => Flag(k.canManageKeys)
  }

  function Named(text: Option<string>): Option<Value> { if text == None then None else Some(Words(text.value)) }

  /** The value a request names for a field of key `k`, if it names one. */
  function Given(op: Operation, k: Id, f: Field): Option<Value> {
    match op
    case CreateKey(j, row) => if j == k then Some(ReadField(row, f)) else None
    case UpdateKey(j, name, boundIps, manages) =>
      if j != k then None
      else (match f
            case Name => Named(name)
            case BoundIps => Named(boundIps)
            case ManagesKeys => if manages == None then None else Some(Flag(manages.value))
            case _ => None)
    case RotateKey(j, hash, secret) =>
      if j == k && f == Hash then Some(Words(hash)) else if j == k && f == Secret then Some(Words(secret)) else None
    case RotateSecret(j, secret) => if j == k && f == Secret then Some(Words(secret)) else None
    case _ => None
  }

  /** A step assigns a field when it writes a request that names it, to a new key or one that still exists. */
  ghost function Assigned(s: State, e: Step, k: Id, f: Field): Option<Value> {
    if Writes(s, e) && (OpOf(s, e).CreateKey? || k in s.db.keys) then Given(OpOf(s, e), k, f) else None
  }

  /** The last value assigned within the first `n` steps; before any, what the bootstrap wrote. */
  ghost function Issued(master: Id, row: Key, es: seq<Step>, ss: seq<State>, n: nat, k: Id, f: Field): Option<Value>
    requires n <= |es| && |ss| == |es| + 1
  {
    if n == 0 then (if k == master then Some(ReadField(row, f)) else None)
    else if Assigned(ss[n - 1], es[n - 1], k, f).Some? then Assigned(ss[n - 1], es[n - 1], k, f)
    else Issued(master, row, es, ss, n - 1, k, f)
  }

  /** One write, field by field: of the keys there afterwards, a field has the value assigned to it, or the one
      it had. */
  lemma {:induction false} KeysWritten(s: State, was: Key, e: Step, k: Id, f: Field)
    requires Inv(s, was) && Enabled(s, e)
    ensures k in Apply(s, e).db.keys && Assigned(s, e, k, f).Some? ==>
              ReadField(Apply(s, e).db.keys[k], f) == Assigned(s, e, k, f).value
    ensures k in Apply(s, e).db.keys && Assigned(s, e, k, f).None? ==>
              k in s.db.keys && ReadField(Apply(s, e).db.keys[k], f) == ReadField(s.db.keys[k], f)
    ensures k in Apply(s, e).db.usedKeys <==> k in s.db.usedKeys || Assigned(s, e, k, f).Some?
  {
    assert AllUsed(s.db);
    hide Inv, Permitted, Perform, Given, ReadField, AllUsed;
    if e.Write? { KeysPerformed(s.db, s.requests[e.r].caller, s.requests[e.r].op, k, f); }
  }

  lemma {:induction false} KeysPerformed(db: Db, c: Caller, op: Operation, k: Id, f: Field)
    requires AllUsed(db) && DrawsFresh(db, op)
    ensures var given := if op.CreateKey? || k in db.keys then Given(op, k, f) else None;
            if Perform(db, c, op).Failed? then given == None
            else
              var after := Perform(db, c, op).db;
              && (k in after.keys && given.Some? ==> ReadField(after.keys[k], f) == given.value)
              && (k in after.keys && given.None? ==> k in db.keys && ReadField(after.keys[k], f) == ReadField(db.keys[k], f))
              && (k in after.usedKeys <==> k in db.usedKeys || given.Some?)
  {
    hide DeleteKeyTransaction;
    match op {
      case DeleteKey(j, to) =>
        hide ReadField;
        KeysDeleted(db, j, to);
      case CreateKey(_, _) =>
      case UpdateKey(_, _, _, _) =>
      case RotateKey(_, _, _) =>
      case RotateSecret(_, _) =>
      case _ => hide ReadField;
    }
  }

  lemma KeysDeleted(db: Db, k: Id, to: Option<Id>)
    ensures var result := DeleteKeyTransaction(db, k, to);
            result.Some? ==> result.value.keys == db.keys - {k} && result.value.usedKeys == db.usedKeys
  {
    hide Reowned, Owned;
  }

  /** Over every run: each field of each key is what the last request that assigned it said, a key exists
      exactly when one was issued and no delete of it is on record. */
  lemma {:induction false} KeyFieldsAreLastIssued(master: Id, row: Key, es: seq<Step>, ss: seq<State>, n: nat, k: Id, f: Field)
    requires FromBoot(master, row, es, ss) && n <= |es|
    ensures var issued := Issued(master, row, es, ss, n, k, f);
            && (k in ss[n].db.keys ==> issued == Some(ReadField(ss[n].db.keys[k], f)))
            && (k in ss[n].db.keys <==> issued.Some? && KeyDelete(k) !in ss[n].db.audit)
  {
    KeyFieldsIssued(master, row, es, ss, n, k, f);
    TraceInv(master, row, es, ss, n);
    assert KeyDeletesRecorded(ss[n].db) && AllUsed(ss[n].db);
  }

  lemma {:induction false} KeyFieldsIssued(master: Id, row: Key, es: seq<Step>, ss: seq<State>, n: nat, k: Id, f: Field)
    requires FromBoot(master, row, es, ss) && n <= |es|
    ensures var issued := Issued(master, row, es, ss, n, k, f);
            && (k in ss[n].db.keys ==> issued == Some(ReadField(ss[n].db.keys[k], f)))
            && (issued.Some? <==> k in ss[n].db.usedKeys)
    decreases n
  {
    if n > 0 {
      var s, e := ss[n - 1], es[n - 1];
      KeyFieldsIssued(master, row, es, ss, n - 1, k, f);
      TraceInv(master, row, es, ss, n - 1);
      assert Follows(s, e, ss[n]);
      assert AllUsed(s.db);
      hide Inv, Apply, Enabled, Assigned, ReadField;
      KeysWritten(s, row, e, k, f);
    }
  }

  // ---------------------------------------------------------------- endpoints

  function Lookup(settings: Settings, f: string): Option<string> { if f in settings then Some(settings[f]) else None }

  /** The step makes endpoint `x`: the write of a create by a key that exists. */
  ghost predicate Makes(s: State, e: Step, x: Id) {
    Writes(s, e) && OpOf(s, e).CreateEndpoint? && OpOf(s, e).newEndpoint == x && s.requests[e.r].caller.id in s.db.keys
  }

  /** One setting of an endpoint: as created, then as the last update that named it said. */
  ghost function LastSet(es: seq<Step>, ss: seq<State>, n: nat, x: Id, f: string): Option<string>
    requires n <= |es| && |ss| == |es| + 1
  {
    if n == 0 then None
    else
      var s, e := ss[n - 1], es[n - 1];
      if Makes(s, e, x) then Lookup(OpOf(s, e).settings, f)
      else if Writes(s, e) && OpOf(s, e).UpdateEndpoint? && OpOf(s, e).endpoint == x && x in s.db.endpoints &&
              f in OpOf(s, e).changes then Some(OpOf(s, e).changes[f])
      else LastSet(es, ss, n - 1, x, f)
  }

  /** The step names a new owner for `x`, whose owner is `owner`: a reassignment of it, or the delete of that
      owner in favour of another key; either to a key that exists. */
  ghost function NewOwner(s: State, e: Step, x: Id, owner: Option<Id>): Option<Option<Id>> {
    if !Writes(s, e) then None
    else match OpOf(s, e)
         case ReassignOwner(y, to) => if y == x && (to.Some? ==> to.value in s.db.keys) then Some(to) else None
         case DeleteKey(k, to) =>
           if owner == Some(k) && k in s.db.keys && to.Some? && to.value in s.db.keys then Some(to) else None
         case _ => None
  }

  /** The owner: whoever created it, then whoever was named last. */
  ghost function LastOwner(es: seq<Step>, ss: seq<State>, n: nat, x: Id): Option<Id>
    requires n <= |es| && |ss| == |es| + 1
  {
    if n == 0 then None
    else
      var s, e, owner := ss[n - 1], es[n - 1], LastOwner(es, ss, n - 1, x);
      if Makes(s, e, x) then Some(s.requests[e.r].caller.id)
      else if NewOwner(s, e, x, owner).Some? then NewOwner(s, e, x, owner).value
      else owner
  }

  /** There from its creation until the first write of a delete of it. */
  ghost predicate Standing(es: seq<Step>, ss: seq<State>, n: nat, x: Id)
    requires n <= |es| && |ss| == |es| + 1
  {
    n > 0 &&
    (Makes(ss[n - 1], es[n - 1], x) ||
     (Standing(es, ss, n - 1, x) && !(Writes(ss[n - 1], es[n - 1]) && OpOf(ss[n - 1], es[n - 1]) == DeleteEndpoint(x))))
  }

  /** One write to an endpoint. */
  lemma {:induction false} EndpointWritten(s: State, was: Key, e: Step, x: Id, f: string)
    requires Inv(s, was) && Enabled(s, e)
    ensures var es := Apply(s, e).db.endpoints;
            && (Makes(s, e, x) ==> x !in s.db.endpoints && x in es && es[x] == Endpoint(Some(s.requests[e.r].caller.id), OpOf(s, e).settings))
            && (!Makes(s, e, x) ==> (x in es <==> x in s.db.endpoints && !(Writes(s, e) && OpOf(s, e) == DeleteEndpoint(x))))
            && (!Makes(s, e, x) && x in es ==>
                  && es[x].owner == (if NewOwner(s, e, x, s.db.endpoints[x].owner).Some?
                                     then NewOwner(s, e, x, s.db.endpoints[x].owner).value else s.db.endpoints[x].owner)
                  && Lookup(es[x].settings, f) ==
                       if Writes(s, e) && OpOf(s, e).UpdateEndpoint? && OpOf(s, e).endpoint == x && f in OpOf(s, e).changes
                       then Some(OpOf(s, e).changes[f]) else Lookup(s.db.endpoints[x].settings, f))
  {
    assert AllUsed(s.db) && (e.Write? ==> Vetted(s, s.requests[e.r]));
    hide Inv, Permitted, Perform, Lookup, AllUsed;
    if e.Write? { EndpointPerformed(s.db, s.requests[e.r].caller, s.requests[e.r].op, x, f); }
  }

  lemma {:induction false} EndpointPerformed(db: Db, c: Caller, op: Operation, x: Id, f: string)
    requires AllUsed(db) && DrawsFresh(db, op) && (op.DeleteKey? ==> op.reassignTo != Some(op.key))
    ensures var made := op.CreateEndpoint? && op.newEndpoint == x && c.id in db.keys;
            if Perform(db, c, op).Failed? then
              && !made && (x in db.endpoints ==> op != DeleteEndpoint(x) && !(op.UpdateEndpoint? && op.endpoint == x))
              && (op.ReassignOwner? && op.endpoint == x && x in db.endpoints ==> op.newOwner.Some? && op.newOwner.value !in db.keys)
              && (op.DeleteKey? && op.key in db.keys && op.reassignTo.Some? ==> op.reassignTo.value !in db.keys)
            else
              var es := Perform(db, c, op).db.endpoints;
              && (made ==> x !in db.endpoints && x in es && es[x] == Endpoint(Some(c.id), op.settings))
              && (!made ==> (x in es <==> x in db.endpoints && op != DeleteEndpoint(x)))
              && (!made && x in es ==>
                    && es[x].owner == (match op
                                       case ReassignOwner(y, to) => if y == x then to else db.endpoints[x].owner
                                       case DeleteKey(k, to) => if db.endpoints[x].owner == Some(k) then to else db.endpoints[x].owner
                                       case _ => db.endpoints[x].owner)
                    && (op.ReassignOwner? && op.newOwner.Some? ==> op.newOwner.value in db.keys)
                    && (op.DeleteKey? ==> op.key in db.keys && (db.endpoints[x].owner == Some(op.key) ==>
                          op.reassignTo.Some? && op.reassignTo.value in db.keys))
                    && Lookup(es[x].settings, f) ==
                         if op.UpdateEndpoint? && op.endpoint == x && f in op.changes then Some(op.changes[f])
                         else Lookup(db.endpoints[x].settings, f))
  {
    if op.DeleteKey? { KeyDeleteIsWhole(db, op.key, op.reassignTo); }
    hide DeleteKeyTransaction;
  }

  /** Over every run: an endpoint stands exactly from its creation to its delete; each setting is what the last
      request that named it said, and the owner whoever was last given it. */
  lemma {:induction false} EndpointsAreLastGiven(master: Id, row: Key, es: seq<Step>, ss: seq<State>, n: nat, x: Id, f: string)
    requires FromBoot(master, row, es, ss) && n <= |es|
    ensures x in ss[n].db.endpoints <==> Standing(es, ss, n, x)
    ensures x in ss[n].db.endpoints ==>
              && Lookup(ss[n].db.endpoints[x].settings, f) == LastSet(es, ss, n, x, f)
              && ss[n].db.endpoints[x].owner == LastOwner(es, ss, n, x)
    decreases n
  {
    if n > 0 {
      var s, e := ss[n - 1], es[n - 1];
      EndpointsAreLastGiven(master, row, es, ss, n - 1, x, f);
      TraceInv(master, row, es, ss, n - 1);
      assert Follows(s, e, ss[n]);
      hide Inv, Apply, Enabled, Makes, NewOwner, Lookup;
      EndpointWritten(s, row, e, x, f);
    }
  }

  // ---------------------------------------------------------------- guards and the audit trail

  /** A check lets a request through exactly when it is the Master's and names a row it may touch, or concerns
      an endpoint of the caller's own, or creates one. The Master's own key can only have its `bound_ips`
      updated. */
  lemma {:induction false} LetThroughIff(s: State, was: Key, r: Request)
    requires Inv(s, was) && Enabled(s, Check(r))
    ensures var c, op := s.requests[r].caller, s.requests[r].op;
            var master := c == Caller(s.master, true);
            PastGuards(Apply(s, Check(r)), r, c, op) <==>
              match op
              case CreateKey(_, _) => master
              case UpdateKey(k, name, _, manages) => master && k in s.db.keys && (k == s.master ==> name == None && manages == None)
              case RotateKey(k, _, _) => master && k in s.db.keys && k != s.master
              case RotateSecret(k, _) => master && k in s.db.keys && k != s.master
              case DeleteKey(k, to) => master && k in s.db.keys && k != s.master && to != Some(k)
              case CreateEndpoint(_, _) => true
              case UpdateEndpoint(x, _) => x in s.db.endpoints && (master || s.db.endpoints[x].owner == Some(c.id))
              case DeleteEndpoint(x) => x in s.db.endpoints && (master || s.db.endpoints[x].owner == Some(c.id))
              case ReassignOwner(x, _) => master && x in s.db.endpoints
  {
    assert Vetted(s, s.requests[r]);
    hide AllVetted, KeyDeletesRecorded, EndpointDeletesRecorded, AllUsed, OwnersExist;
  }

  /** Whoever authenticates is the Master exactly when they hold the pinned key. */
  lemma {:induction false} AuthenticatedAs(s: State, was: Key, r: Request, k: Id, op: Operation)
    requires Inv(s, was) && Enabled(s, Authenticate(r, k, op))
    ensures var s' := Apply(s, Authenticate(r, k, op));
            s'.db == s.db && r in s'.requests && s'.requests[r] == Authenticated(Caller(k, k == s.master), op)
  {
  }

  /** A write takes effect exactly when the rows it needs are still there. */
  ghost predicate TakesEffect(s: State, e: Step) {
    Writes(s, e) &&
    match OpOf(s, e)
    case CreateKey(_, _) => true
    case UpdateKey(k, _, _, _) => k in s.db.keys
    case RotateKey(k, _, _) => k in s.db.keys
    case RotateSecret(k, _) => k in s.db.keys
    case DeleteKey(k, to) =>
      k in s.db.keys &&
      if to == None then forall x :: x in s.db.endpoints ==> s.db.endpoints[x].owner != Some(k) else to.value in s.db.keys
    case CreateEndpoint(_, _) => s.requests[e.r].caller.id in s.db.keys
    case UpdateEndpoint(x, _) => x in s.db.endpoints
    case DeleteEndpoint(x) => x in s.db.endpoints
    case ReassignOwner(x, to) => x in s.db.endpoints && (to.Some? ==> to.value in s.db.keys)
  }

  function Action(op: Operation): Entry {
    match op
    case CreateKey(k, _) => Other("KEY_CREATE", k)
    case UpdateKey(k, _, _, _) => Other("KEY_UPDATE", k)
    case RotateKey(k, _, _) => Other("KEY_ROTATE", k)
    case RotateSecret(k, _) => Other("KEY_SECRET_ROTATE", k)
    case DeleteKey(k, _) => KeyDelete(k)
    case CreateEndpoint(x, _) => Other("ENDPOINT_CREATE", x)
    case UpdateEndpoint(x, _) => Other("ENDPOINT_UPDATE", x)
    case DeleteEndpoint(x) => EndpointDelete(x)
    case ReassignOwner(x, _) => Other("ENDPOINT_OWNER_REASSIGN", x)
  }

  /** The entry goes in with the delete of a key, and otherwise is left for the request's next step; a write
      without effect leaves the tables alone and ends the request. */
  lemma {:induction false} WriteIsLogged(s: State, was: Key, e: Step)
    requires Inv(s, was) && Enabled(s, e) && e.Write?
    ensures var s', op := Apply(s, e), s.requests[e.r].op;
            if !TakesEffect(s, e) then s'.db == s.db && s'.requests == s.requests - {e.r}
            else if op.DeleteKey? then s'.db.audit == s.db.audit + [Action(op)] && s'.requests == s.requests - {e.r}
            else s'.db.audit == s.db.audit && s'.requests == s.requests[e.r := Logging(Action(op))]
  {
    assert Vetted(s, s.requests[e.r]);
    var op := s.requests[e.r].op;
    hide Inv, Permitted;
    if op.DeleteKey? {
      KeyDeleteIsWhole(s.db, op.key, op.reassignTo);
      hide DeleteKeyTransaction;
    }
  }

  /** Step `m` is a write of request `r` that took effect and accounts for this entry. */
  ghost predicate Deed(es: seq<Step>, ss: seq<State>, m: nat, entry: Entry)
    requires |ss| == |es| + 1
  {
    m < |es| && TakesEffect(ss[m], es[m]) && Action(OpOf(ss[m], es[m])) == entry
  }

  ghost predicate Accounted(es: seq<Step>, ss: seq<State>, n: nat, entry: Entry)
    requires |ss| == |es| + 1
  {
    exists m: nat :: m < n && Deed(es, ss, m, entry)
  }

  /** No entry without a deed: over every run whatever the trail says was done, a request did; and what a
      request is about to log, it did. */
  lemma {:induction false} TrailIsTrue(master: Id, row: Key, es: seq<Step>, ss: seq<State>, n: nat)
    requires FromBoot(master, row, es, ss) && n <= |es|
    ensures forall entry :: entry in ss[n].db.audit ==> Accounted(es, ss, n, entry)
    ensures forall r :: r in ss[n].requests && ss[n].requests[r].Logging? ==> Accounted(es, ss, n, ss[n].requests[r].entry)
    decreases n
  {
    if n > 0 {
      var s, e := ss[n - 1], es[n - 1];
      TrailIsTrue(master, row, es, ss, n - 1);
      TraceInv(master, row, es, ss, n - 1);
      assert Follows(s, e, ss[n]);
      hide Inv, TakesEffect, Perform, Permitted, Deed;
      forall entry | Accounted(es, ss, n - 1, entry) ensures Accounted(es, ss, n, entry) {
        var m: nat :| m < n - 1 && Deed(es, ss, m, entry);
      }
      if e.Write? {
        WriteIsLogged(s, row, e);
        hide Apply;
        if TakesEffect(s, e) { Accounts(es, ss, n - 1); }
        hide Accounted;
      }
    }
  }

  lemma Accounts(es: seq<Step>, ss: seq<State>, m: nat)
    requires |ss| == |es| + 1 && m < |es| && TakesEffect(ss[m], es[m])
    ensures Accounted(es, ss, m + 1, Action(OpOf(ss[m], es[m])))
  {
    assert Deed(es, ss, m, Action(OpOf(ss[m], es[m])));
  }
}
