/** Keys, endpoints and the audit trail (src/api/keys.rs, src/api/endpoints.rs, src/api/guards.rs) as a
    machine in which any number of requests interleave. A step is one database statement, or the one
    transaction of the key delete: the pool has a single connection. */
module Authority {
  import opened Collections
  import IpCache

  type Id = nat
  type Request = nat

  datatype Key = Key(
    isMaster: bool,
    canManageKeys: bool,
    name: string,
    keyHash: string,
    signingSecret: string,
    boundIps: string)

  /** An endpoint's configuration, field by field. */
  type Settings = map<string, string>

  datatype Endpoint = Endpoint(owner: Option<Id>, settings: Settings)

  datatype Entry = KeyDelete(key: Id) | EndpointDelete(endpoint: Id) | Other(action: string, target: Id)

  /** The tables. The two `used` sets hold every identifier ever inserted and serve only the statements. */
  datatype Db = Db(
    keys: map<Id, Key>,
    endpoints: map<Id, Endpoint>,
    audit: seq<Entry>,
    usedKeys: set<Id>,
    usedEndpoints: set<Id>)

  /** The authenticated caller, as read when the request arrived. */
  datatype Caller = Caller(id: Id, isMaster: bool)

  datatype Operation =
    | CreateKey(newKey: Id, row: Key)
    | UpdateKey(key: Id, newName: Option<string>, newBoundIps: Option<string>, newCanManageKeys: Option<bool>)
    | RotateKey(key: Id, newHash: string, newSecret: string)
    | RotateSecret(key: Id, newSecret: string)
    | DeleteKey(key: Id, reassignTo: Option<Id>)
    | CreateEndpoint(newEndpoint: Id, settings: Settings)
    | UpdateEndpoint(endpoint: Id, changes: Settings)
    | DeleteEndpoint(endpoint: Id)
    | ReassignOwner(endpoint: Id, newOwner: Option<Id>)

  /** How far a request is: authenticated, through its lookup and guards (with the new owner of a
      reassignment still to be looked up), ready to write, or ready to append its audit entry. */
  datatype Phase =
    | Authenticated(caller: Caller, op: Operation)
    | Found(caller: Caller, op: Operation)
    | Ready(caller: Caller, op: Operation)
    | Logging(entry: Entry)

  datatype State = State(db: Db, master: Id, requests: map<Request, Phase>)

  /** `Abandon` is a request ending at any point: a validation error, a lost connection, a crash. */
  datatype Step =
    | Authenticate(r: Request, caller: Id, op: Operation)
    | Check(r: Request)
    | CheckOwner(r: Request)
    | Write(r: Request)
    | Log(r: Request)
    | Abandon(r: Request)

  // ---------------------------------------------------------------- guards

  predicate MayManage(c: Caller, e: Endpoint) { c.isMaster || e.owner == Some(c.id) }

  /** The lookup and the guards of each handler, in front of its write. */
  predicate Permitted(db: Db, c: Caller, op: Operation) {
    match op
    case CreateKey(_, _) => c.isMaster
    case UpdateKey(k, name, _, canManageKeys) =>
      c.isMaster && k in db.keys && (db.keys[k].isMaster ==> name == None && canManageKeys == None)
    case RotateKey(k, _, _) => c.isMaster && k in db.keys && !db.keys[k].isMaster
    case RotateSecret(k, _) => c.isMaster && k in db.keys && !db.keys[k].isMaster
    case DeleteKey(k, to) => c.isMaster && k in db.keys && !db.keys[k].isMaster && to != Some(k)
    case CreateEndpoint(_, _) => true
    case UpdateEndpoint(e, _) => e in db.endpoints && MayManage(c, db.endpoints[e])
    case DeleteEndpoint(e) => e in db.endpoints && MayManage(c, db.endpoints[e])
    case ReassignOwner(e, _) => c.isMaster && e in db.endpoints
  }

  // ---------------------------------------------------------------- writes

  function Updated(k: Key, name: Option<string>, boundIps: Option<string>, canManageKeys: Option<bool>): Key {
    k.(name := if name.Some? then name.value else k.name,
       boundIps := if boundIps.Some? then boundIps.value else k.boundIps,
       canManageKeys := if canManageKeys.Some? then canManageKeys.value else k.canManageKeys)
  }

  predicate Owned(db: Db, k: Id) { exists e :: e in db.endpoints && db.endpoints[e].owner == Some(k) }

  function Reowned(es: map<Id, Endpoint>, k: Id, to: Option<Id>): map<Id, Endpoint> {
    map e | e in es :: if es[e].owner == Some(k) then es[e].(owner := to) else es[e]
  }

  /** The row delete, with the schema's `ON DELETE SET NULL` on the endpoints' owner. */
  function RemoveKey(db: Db, k: Id): Db {
    db.(keys := db.keys - {k}, endpoints := Reowned(db.endpoints, k, None))
  }

  /** The transaction of `delete_api_key`; `None` is a rollback. */
  function DeleteKeyTransaction(db: Db, k: Id, to: Option<Id>): Option<Db> {
    if to.Some? && to.value !in db.keys then None
    else if to == None && Owned(db, k) then None
    else
      var moved := if to.Some? then db.(endpoints := Reowned(db.endpoints, k, to)) else db;
      if k !in moved.keys then None
      else
        var removed := RemoveKey(moved, k);
        Some(removed.(audit := removed.audit + [KeyDelete(k)]))
  }

  datatype Outcome = Failed | Committed(db: Db) | Wrote(db: Db, entry: Entry)

  /** Each handler's write. A foreign key naming no key, or a row gone since it was looked up, fails it. */
  function Perform(db: Db, c: Caller, op: Operation): Outcome {
    match op
    case CreateKey(k, row) =>
      Wrote(db.(keys := db.keys[k := row.(isMaster := false)], usedKeys := db.usedKeys + {k}), Other("KEY_CREATE", k))
    case UpdateKey(k, name, boundIps, canManageKeys) =>
      if k !in db.keys then Failed
      else Wrote(db.(keys := db.keys[k := Updated(db.keys[k], name, boundIps, canManageKeys)]), Other("KEY_UPDATE", k))
    case RotateKey(k, hash, secret) =>
      if k !in db.keys then Failed
      else Wrote(db.(keys := db.keys[k := db.keys[k].(keyHash := hash, signingSecret := secret)]), Other("KEY_ROTATE", k))
    case RotateSecret(k, secret) =>
      if k !in db.keys then Failed
      else Wrote(db.(keys := db.keys[k := db.keys[k].(signingSecret := secret)]), Other("KEY_SECRET_ROTATE", k))
    case DeleteKey(k, to) =>
      var result := DeleteKeyTransaction(db, k, to);
      if result == None then Failed else Committed(result.value)
    case CreateEndpoint(e, settings) =>
      if c.id !in db.keys then Failed
      else Wrote(db.(endpoints := db.endpoints[e := Endpoint(Some(c.id), settings)],
                     usedEndpoints := db.usedEndpoints + {e}), Other("ENDPOINT_CREATE", e))
    case UpdateEndpoint(e, changes) =>
      if e !in db.endpoints then Failed
      else
        var row := db.endpoints[e];
        Wrote(db.(endpoints := db.endpoints[e := row.(settings := row.settings + changes)]), Other("ENDPOINT_UPDATE", e))
    case DeleteEndpoint(e) =>
      if e !in db.endpoints then Failed
      else Wrote(db.(endpoints := db.endpoints - {e}), EndpointDelete(e))
    case ReassignOwner(e, owner) =>
      if e !in db.endpoints || (owner.Some? && owner.value !in db.keys) then Failed
      else Wrote(db.(endpoints := db.endpoints[e := db.endpoints[e].(owner := owner)]), Other("ENDPOINT_OWNER_REASSIGN", e))
  }

  /** Freshly drawn identifiers have never been used. */
  predicate DrawsFresh(db: Db, op: Operation) {
    && (op.CreateKey? ==> op.newKey !in db.usedKeys)
    && (op.CreateEndpoint? ==> op.newEndpoint !in db.usedEndpoints)
  }

  predicate Enabled(s: State, e: Step) {
    match e
    case Authenticate(r, caller, _) => r !in s.requests && caller in s.db.keys
    case Check(r) => r in s.requests && s.requests[r].Authenticated?
    case CheckOwner(r) => r in s.requests && s.requests[r].Found?
    case Write(r) => r in s.requests && s.requests[r].Ready? && DrawsFresh(s.db, s.requests[r].op)
    case Log(r) => r in s.requests && s.requests[r].Logging?
    case Abandon(r) => r in s.requests
  }

  function End(s: State, r: Request): State { s.(requests := s.requests - {r}) }

  function Apply(s: State, e: Step): State
    requires Enabled(s, e)
  {
    match e
    case Authenticate(r, k, op) =>
      s.(requests := s.requests[r := Authenticated(Caller(k, s.db.keys[k].isMaster && k == s.master), op)])
    case Check(r) =>
      var Authenticated(c, op) := s.requests[r];
      if !Permitted(s.db, c, op) then End(s, r)
      else if op.ReassignOwner? && op.newOwner.Some? then s.(requests := s.requests[r := Found(c, op)])
      else s.(requests := s.requests[r := Ready(c, op)])
    case CheckOwner(r) =>
      var Found(c, op) := s.requests[r];
      if op.ReassignOwner? && op.newOwner.Some? && op.newOwner.value in s.db.keys
      then s.(requests := s.requests[r := Ready(c, op)])
      else End(s, r)
    case Write(r) =>
      var Ready(c, op) := s.requests[r];
      (match Perform(s.db, c, op)
       case Failed => End(s, r)
       case Committed(db) => End(s.(db := db), r)
       case Wrote(db, entry) => s.(db := db, requests := s.requests[r := Logging(entry)]))
    case Log(r) => End(s.(db := s.db.(audit := s.db.audit + [s.requests[r].entry])), r)
    case Abandon(r) => End(s, r)
  }

  predicate Follows(was: State, e: Step, s: State) { Enabled(was, e) && s == Apply(was, e) }

  ghost predicate Reaches(start: State, es: seq<Step>, s: State)
    decreases |es|
  {
    if es == [] then s == start
    else
      var front, e := es[..|es| - 1], es[|es| - 1];
      exists was :: Reaches(start, front, was) && Follows(was, e, s)
  }

  // ---------------------------------------------------------------- the invariant

  /** Exactly one Master row, with the name, credential and rights it had at the start. */
  ghost predicate OneMaster(s: State, was: Key) {
    && s.master in s.db.keys
    && s.db.keys[s.master] == was.(boundIps := s.db.keys[s.master].boundIps)
    && was.isMaster
    && forall k :: k in s.db.keys && s.db.keys[k].isMaster ==> k == s.master
  }

  ghost predicate OwnersExist(db: Db) {
    forall e :: e in db.endpoints && db.endpoints[e].owner.Some? ==> db.endpoints[e].owner.value in db.keys
  }

  ghost predicate AllUsed(db: Db) {
    (forall k :: k in db.keys ==> k in db.usedKeys) && (forall e :: e in db.endpoints ==> e in db.usedEndpoints)
  }

  /** What the guards have established about a request that is past them. */
  ghost predicate Vetted(s: State, p: Phase) {
    && (!p.Logging? ==> (p.caller.isMaster ==> p.caller.id == s.master))
    && (p.Found? || p.Ready? ==>
          match p.op
          case CreateKey(_, _) => p.caller.isMaster
          case UpdateKey(k, name, _, canManageKeys) =>
            p.caller.isMaster && (k == s.master ==> name == None && canManageKeys == None)
          case RotateKey(k, _, _) => p.caller.isMaster && k != s.master
          case RotateSecret(k, _) => p.caller.isMaster && k != s.master
          case DeleteKey(k, to) => p.caller.isMaster && k != s.master && to != Some(k)
          case ReassignOwner(_, _) => p.caller.isMaster
          case _ => true)
    && (p.Logging? ==> !p.entry.KeyDelete?)
  }

  ghost predicate AllVetted(s: State) { forall r :: r in s.requests ==> Vetted(s, s.requests[r]) }

  ghost predicate LoggedOnce(audit: seq<Entry>, e: Entry) {
    forall i, j :: 0 <= i < j < |audit| && audit[i] == e ==> audit[j] != e
  }

  /** A key delete is on record, once, exactly for the keys that are gone. */
  ghost predicate KeyDeletesRecorded(db: Db) {
    && (forall k :: KeyDelete(k) in db.audit <==> k in db.usedKeys && k !in db.keys)
    && (forall k :: LoggedOnce(db.audit, KeyDelete(k)))
  }

  ghost predicate AboutToLog(s: State, r: Request, e: Id) {
    r in s.requests && s.requests[r] == Logging(EndpointDelete(e))
  }

  /** An endpoint delete is on record, or about to be, at most once and only for an endpoint that is gone. */
  ghost predicate EndpointDeletesRecorded(s: State) {
    && (forall e :: EndpointDelete(e) in s.db.audit ==> e in s.db.usedEndpoints && e !in s.db.endpoints)
    && (forall e :: LoggedOnce(s.db.audit, EndpointDelete(e)))
    && (forall r, e :: AboutToLog(s, r, e) ==>
          e in s.db.usedEndpoints && e !in s.db.endpoints && EndpointDelete(e) !in s.db.audit)
    && (forall r, q, e :: AboutToLog(s, r, e) && AboutToLog(s, q, e) ==> r == q)
  }

  ghost predicate Inv(s: State, was: Key) {
    && OneMaster(s, was) && OwnersExist(s.db) && AllUsed(s.db) && AllVetted(s)
    && KeyDeletesRecorded(s.db) && EndpointDeletesRecorded(s)
  }

  // ---------------------------------------------------------------- the key delete

  /** A committed key delete removes that key and no endpoint, hands each of its endpoints to the named
      key, leaves no endpoint newly unowned and writes one entry. */
  lemma KeyDeleteIsWhole(db: Db, k: Id, to: Option<Id>)
    requires to != Some(k)
    ensures match DeleteKeyTransaction(db, k, to)
            case None => k !in db.keys || (to.Some? && to.value !in db.keys) || (to == None && Owned(db, k))
            case Some(after) =>
              && k in db.keys && after.keys == db.keys - {k} && (to.Some? ==> to.value in after.keys)
              && (to == None ==> !Owned(db, k)) && after.endpoints.Keys == db.endpoints.Keys
              && after.audit == db.audit + [KeyDelete(k)]
              && after.usedKeys == db.usedKeys && after.usedEndpoints == db.usedEndpoints
              && forall e :: e in db.endpoints ==>
                   && after.endpoints[e].settings == db.endpoints[e].settings
                   && (db.endpoints[e].owner != Some(k) ==> after.endpoints[e].owner == db.endpoints[e].owner)
                   && (db.endpoints[e].owner == Some(k) ==> to.Some? && after.endpoints[e].owner == to)
  {
  }

  lemma RecordKeyDelete(db: Db, after: Db, k: Id)
    requires KeyDeletesRecorded(db) && AllUsed(db) && k in db.keys
    requires after.keys == db.keys - {k} && after.audit == db.audit + [KeyDelete(k)] && after.usedKeys == db.usedKeys
    ensures KeyDeletesRecorded(after)
  {
    assert KeyDelete(k) !in db.audit;
    forall j ensures LoggedOnce(after.audit, KeyDelete(j)) {
      assert LoggedOnce(db.audit, KeyDelete(j));
      forall i | 0 <= i < |db.audit| ensures db.audit[i] in db.audit { }
    }
  }

  lemma RecordOther(db: Db, after: Db, x: Entry)
    requires KeyDeletesRecorded(db) && !x.KeyDelete?
    requires after.audit == db.audit + [x]
    requires after.keys.Keys == db.keys.Keys && after.usedKeys == db.usedKeys
    ensures KeyDeletesRecorded(after)
  {
    forall j ensures LoggedOnce(after.audit, KeyDelete(j)) {
      assert LoggedOnce(db.audit, KeyDelete(j));
    }
  }

  /** The endpoint half of the records is untouched when no endpoint comes, goes or is logged. */
  lemma EndpointRecordsKept(s: State, s': State)
    requires EndpointDeletesRecorded(s)
    requires s'.db.usedEndpoints == s.db.usedEndpoints && s'.db.endpoints.Keys == s.db.endpoints.Keys
    requires s'.db.audit == s.db.audit ||
             (exists x: Entry :: !x.EndpointDelete? && s'.db.audit == s.db.audit + [x])
    requires forall r, e :: AboutToLog(s', r, e) ==> AboutToLog(s, r, e)
    ensures EndpointDeletesRecorded(s')
  {
    forall e ensures LoggedOnce(s'.db.audit, EndpointDelete(e)) {
      assert LoggedOnce(s.db.audit, EndpointDelete(e));
    }
  }

  lemma DeleteKeyKeeps(s: State, was: Key, r: Request)
    requires Inv(s, was) && Enabled(s, Write(r)) && s.requests[r].op.DeleteKey?
    ensures Inv(Apply(s, Write(r)), was)
  {
    var Ready(c, op) := s.requests[r];
    var s' := Apply(s, Write(r));
    assert Vetted(s, s.requests[r]);
    KeyDeleteIsWhole(s.db, op.key, op.reassignTo);
    hide DeleteKeyTransaction, KeyDeletesRecorded, EndpointDeletesRecorded;
    var result := DeleteKeyTransaction(s.db, op.key, op.reassignTo);
    if result.Some? {
      RecordKeyDelete(s.db, result.value, op.key);
    }
    EndpointRecordsKept(s, s');
    Trimmed(s, s', r);
  }

  /** Requests that only end keep what the guards established. */
  lemma Trimmed(s: State, s': State, r: Request)
    requires AllVetted(s) && s'.master == s.master && s'.requests == s.requests - {r}
    ensures AllVetted(s')
  {
    forall q | q in s'.requests ensures Vetted(s', s'.requests[q]) {
      assert Vetted(s, s.requests[q]);
    }
  }

  // ---------------------------------------------------------------- the other steps

  lemma Advanced(s: State, s': State, r: Request, p: Phase)
    requires AllVetted(s) && s'.master == s.master && s'.requests == s.requests[r := p] && Vetted(s', p)
    ensures AllVetted(s')
  {
    forall q | q in s'.requests ensures Vetted(s', s'.requests[q]) {
      assert q != r ==> Vetted(s, s.requests[q]);
    }
  }

  lemma ReadOnlyKeeps(s: State, was: Key, s': State)
    requires Inv(s, was) && s'.db == s.db && s'.master == s.master && AllVetted(s')
    requires forall q, e :: AboutToLog(s', q, e) ==> AboutToLog(s, q, e)
    ensures Inv(s', was)
  {
    hide KeyDeletesRecorded, AllVetted;
    EndpointRecordsKept(s, s');
  }

  lemma CheckKeeps(s: State, was: Key, r: Request)
    requires Inv(s, was) && Enabled(s, Check(r))
    ensures Inv(Apply(s, Check(r)), was)
  {
    var s' := Apply(s, Check(r));
    assert Vetted(s, s.requests[r]);
    if r !in s'.requests {
      Trimmed(s, s', r);
    } else {
      Advanced(s, s', r, s'.requests[r]);
    }
    hide Inv, Vetted, AllVetted;
    ReadOnlyKeeps(s, was, s');
  }

  lemma CheckOwnerKeeps(s: State, was: Key, r: Request)
    requires Inv(s, was) && Enabled(s, CheckOwner(r))
    ensures Inv(Apply(s, CheckOwner(r)), was)
  {
    var s' := Apply(s, CheckOwner(r));
    assert Vetted(s, s.requests[r]);
    if r !in s'.requests {
      Trimmed(s, s', r);
    } else {
      Advanced(s, s', r, s'.requests[r]);
    }
    hide Inv, Vetted, AllVetted;
    ReadOnlyKeeps(s, was, s');
  }

  lemma AuthenticateKeeps(s: State, was: Key, r: Request, k: Id, op: Operation)
    requires Inv(s, was) && Enabled(s, Authenticate(r, k, op))
    ensures Inv(Apply(s, Authenticate(r, k, op)), was)
  {
    var s' := Apply(s, Authenticate(r, k, op));
    Advanced(s, s', r, s'.requests[r]);
    hide Inv, Vetted, AllVetted;
    ReadOnlyKeeps(s, was, s');
  }

  lemma AbandonKeeps(s: State, was: Key, r: Request)
    requires Inv(s, was) && Enabled(s, Abandon(r))
    ensures Inv(Apply(s, Abandon(r)), was)
  {
    Trimmed(s, End(s, r), r);
    hide Vetted, AllVetted, KeyDeletesRecorded;
    ReadOnlyKeeps(s, was, End(s, r));
  }

  lemma LogKeeps(s: State, was: Key, r: Request)
    requires Inv(s, was) && Enabled(s, Log(r))
    ensures Inv(Apply(s, Log(r)), was)
  {
    var s', x := Apply(s, Log(r)), s.requests[r].entry;
    assert Vetted(s, s.requests[r]);
    Trimmed(s, s', r);
    hide Vetted, AllVetted;
    RecordOther(s.db, s'.db, x);
    if x.EndpointDelete? {
      EndpointLogged(s, s', r, x.endpoint);
    } else {
      EndpointRecordsKept(s, s');
    }
  }

  lemma EndpointLogged(s: State, s': State, r: Request, e: Id)
    requires EndpointDeletesRecorded(s) && AboutToLog(s, r, e)
    requires s' == End(s.(db := s.db.(audit := s.db.audit + [EndpointDelete(e)])), r)
    ensures EndpointDeletesRecorded(s')
  {
    forall d ensures LoggedOnce(s'.db.audit, EndpointDelete(d)) {
      assert LoggedOnce(s.db.audit, EndpointDelete(d));
      forall i | 0 <= i < |s.db.audit| ensures s.db.audit[i] in s.db.audit { }
    }
    forall q, d | AboutToLog(s', q, d)
      ensures d in s'.db.usedEndpoints && d !in s'.db.endpoints && EndpointDelete(d) !in s'.db.audit
    {
      assert AboutToLog(s, q, d) && q != r;
    }
    forall p, q, d | AboutToLog(s', p, d) && AboutToLog(s', q, d) ensures p == q {
      assert AboutToLog(s, p, d) && AboutToLog(s, q, d);
    }
  }

  /** An endpoint goes: from now on exactly this request is about to log it. */
  lemma EndpointGone(s: State, s': State, r: Request, e: Id)
    requires EndpointDeletesRecorded(s) && AllUsed(s.db) && e in s.db.endpoints && r in s.requests
    requires s'.db == s.db.(endpoints := s.db.endpoints - {e})
    requires s'.requests == s.requests[r := Logging(EndpointDelete(e))]
    ensures EndpointDeletesRecorded(s')
  {
    forall q, d | AboutToLog(s', q, d)
      ensures d in s'.db.usedEndpoints && d !in s'.db.endpoints && EndpointDelete(d) !in s'.db.audit
      ensures q != r ==> AboutToLog(s, q, d) && d != e
    {
      if q != r { assert AboutToLog(s, q, d); }
    }
  }

  lemma EndpointMade(s: State, s': State, e: Id, row: Endpoint)
    requires EndpointDeletesRecorded(s) && e !in s.db.usedEndpoints
    requires s'.db == s.db.(endpoints := s.db.endpoints[e := row], usedEndpoints := s.db.usedEndpoints + {e})
    requires forall q, d :: AboutToLog(s', q, d) ==> AboutToLog(s, q, d)
    ensures EndpointDeletesRecorded(s')
  {
  }

  lemma EndpointWriteTables(s: State, was: Key, r: Request)
    requires Inv(s, was) && Enabled(s, Write(r))
    requires match s.requests[r].op
             case CreateEndpoint(_, _) => true case UpdateEndpoint(_, _) => true
             case DeleteEndpoint(_) => true case ReassignOwner(_, _) => true case _ => false
    ensures var s' := Apply(s, Write(r));
            OneMaster(s', was) && OwnersExist(s'.db) && AllUsed(s'.db) && KeyDeletesRecorded(s'.db)
  {
    hide AllVetted, Vetted, EndpointDeletesRecorded;
  }

  lemma WriteEndpointKeeps(s: State, was: Key, r: Request)
    requires Inv(s, was) && Enabled(s, Write(r))
    requires match s.requests[r].op
             case CreateEndpoint(_, _) => true case UpdateEndpoint(_, _) => true
             case DeleteEndpoint(_) => true case ReassignOwner(_, _) => true case _ => false
    ensures Inv(Apply(s, Write(r)), was)
  {
    var Ready(c, op) := s.requests[r];
    var s' := Apply(s, Write(r));
    if r !in s'.requests {
      Trimmed(s, s', r);
    } else {
      Advanced(s, s', r, s'.requests[r]);
    }
    hide Vetted, AllVetted;
    EndpointWriteTables(s, was, r);
    hide KeyDeletesRecorded, OwnersExist, OneMaster;
    if op.DeleteEndpoint? && op.endpoint in s.db.endpoints {
      EndpointGone(s, s', r, op.endpoint);
    } else if op.CreateEndpoint? && c.id in s.db.keys {
      EndpointMade(s, s', op.newEndpoint, Endpoint(Some(c.id), op.settings));
    } else {
      EndpointRecordsKept(s, s');
    }
  }

  lemma WriteKeyKeeps(s: State, was: Key, r: Request)
    requires Inv(s, was) && Enabled(s, Write(r))
    requires match s.requests[r].op
             case CreateKey(_, _) => true case UpdateKey(_, _, _, _) => true
             case RotateKey(_, _, _) => true case RotateSecret(_, _) => true case _ => false
    ensures Inv(Apply(s, Write(r)), was)
  {
    var s' := Apply(s, Write(r));
    assert Vetted(s, s.requests[r]);
    if r !in s'.requests {
      Trimmed(s, s', r);
    } else {
      Advanced(s, s', r, s'.requests[r]);
    }
    EndpointRecordsKept(s, s');
    hide AllVetted, EndpointDeletesRecorded;
  }

  lemma StepKeepsInv(s: State, was: Key, e: Step)
    requires Inv(s, was) && Enabled(s, e)
    ensures Inv(Apply(s, e), was)
  {
    hide Inv, Apply;
    match e
    case Authenticate(r, k, op) => AuthenticateKeeps(s, was, r, k, op);
    case Check(r) => CheckKeeps(s, was, r);
    case CheckOwner(r) => CheckOwnerKeeps(s, was, r);
    case Write(r) =>
      match s.requests[r].op {
        case DeleteKey(_, _) => DeleteKeyKeeps(s, was, r);
        case CreateKey(_, _) => WriteKeyKeeps(s, was, r);
        case UpdateKey(_, _, _, _) => WriteKeyKeeps(s, was, r);
        case RotateKey(_, _, _) => WriteKeyKeeps(s, was, r);
        case RotateSecret(_, _) => WriteKeyKeeps(s, was, r);
        case _ => WriteEndpointKeeps(s, was, r);
      }
    case Log(r) => LogKeeps(s, was, r);
    case Abandon(r) => AbandonKeeps(s, was, r);
  }

  lemma {:induction false} RunKeepsInv(start: State, was: Key, es: seq<Step>, s: State)
    requires Inv(start, was) && Reaches(start, es, s)
    ensures Inv(s, was) && s.master == start.master
    decreases |es|
  {
    hide Inv;
    if es != [] {
      var mid :| Reaches(start, es[..|es| - 1], mid) && Follows(mid, es[|es| - 1], s);
      RunKeepsInv(start, was, es[..|es| - 1], mid);
      StepKeepsInv(mid, was, es[|es| - 1]);
    }
  }

  // ---------------------------------------------------------------- main results

  /** The database after the bootstrap has minted the Master key. */
  function Booted(master: Id, row: Key): State {
    State(Db(map[master := row], map[], [], {master}, {}), master, map[])
  }

  /** Through every interleaving: one Master row, always the same, of which nothing but `bound_ips` ever
      changes; and every endpoint is unowned or owned by a key that exists. */
  lemma {:induction false} MasterAndOwners(master: Id, row: Key, es: seq<Step>, s: State)
    requires row.isMaster && Reaches(Booted(master, row), es, s)
    ensures forall k :: k in s.db.keys ==> (s.db.keys[k].isMaster <==> k == master)
    ensures master in s.db.keys && s.db.keys[master] == row.(boundIps := s.db.keys[master].boundIps)
    ensures OwnersExist(s.db)
  {
    RunKeepsInv(Booted(master, row), row, es, s);
  }

  /** Through every interleaving, whatever requests race or break off: a key is gone exactly when the
      trail has its one deletion; an endpoint's deletion appears at most once, and only if it is gone. */
  lemma {:induction false} DeletionsOnRecord(master: Id, row: Key, es: seq<Step>, s: State)
    requires row.isMaster && Reaches(Booted(master, row), es, s)
    ensures forall k :: KeyDelete(k) in s.db.audit <==> k in s.db.usedKeys && k !in s.db.keys
    ensures forall k :: LoggedOnce(s.db.audit, KeyDelete(k))
    ensures forall e :: EndpointDelete(e) in s.db.audit ==> e in s.db.usedEndpoints && e !in s.db.endpoints
    ensures forall e :: LoggedOnce(s.db.audit, EndpointDelete(e))
  {
    RunKeepsInv(Booted(master, row), row, es, s);
  }

  /** The request whose write is step `e` is for `op` and was authenticated as the pinned Master. */
  ghost predicate ByMaster(s: State, e: Step) {
    e.Write? && e.r in s.requests && s.requests[e.r].Ready? && s.requests[e.r].caller == Caller(s.master, true)
  }

  /** Only the pinned Master's requests touch a key. */
  lemma {:induction false} KeysChangeByMaster(master: Id, row: Key, es: seq<Step>, s: State, e: Step)
    requires row.isMaster && Reaches(Booted(master, row), es, s) && Enabled(s, e)
    ensures Apply(s, e).db.keys != s.db.keys ==> ByMaster(s, e)
  {
    assert Inv(Booted(master, row), row);
    RunKeepsInv(Booted(master, row), row, es, s);
    assert e.Write? ==> Vetted(s, s.requests[e.r]);
    hide Inv, Reaches, Booted, Permitted;
  }

  /** An endpoint disappears only by its own delete and is reconfigured only by its own update. Its owner
      changes only by the Master's hand: by a reassignment of that endpoint, or by deleting its owner, which
      hands it to the key named. */
  lemma {:induction false} EndpointsChangeBy(master: Id, row: Key, es: seq<Step>, s: State, e: Step, x: Id)
    requires row.isMaster && Reaches(Booted(master, row), es, s) && Enabled(s, e) && x in s.db.endpoints
    ensures x !in Apply(s, e).db.endpoints ==> e.Write? && s.requests[e.r].op == DeleteEndpoint(x)
    ensures x in Apply(s, e).db.endpoints && Apply(s, e).db.endpoints[x].settings != s.db.endpoints[x].settings ==>
              && e.Write? && s.requests[e.r].op.UpdateEndpoint? && s.requests[e.r].op.endpoint == x
              && Apply(s, e).db.endpoints[x].settings == s.db.endpoints[x].settings + s.requests[e.r].op.changes
    ensures x in Apply(s, e).db.endpoints && Apply(s, e).db.endpoints[x].owner != s.db.endpoints[x].owner ==>
              var owner := Apply(s, e).db.endpoints[x].owner;
              && ByMaster(s, e)
              && (|| s.requests[e.r].op == ReassignOwner(x, owner)
                  || (owner.Some? && s.db.endpoints[x].owner.Some? &&
                      s.requests[e.r].op == DeleteKey(s.db.endpoints[x].owner.value, owner)))
  {
    BootInv(master, row);
    hide *;
    RunKeepsInv(Booted(master, row), row, es, s);
    EndpointStep(s, row, e, x);
  }

  lemma BootInv(master: Id, row: Key)
    requires row.isMaster
    ensures Inv(Booted(master, row), row)
  {
  }

  lemma {:induction false} EndpointStep(s: State, was: Key, e: Step, x: Id)
    requires Inv(s, was) && Enabled(s, e) && x in s.db.endpoints
    ensures x !in Apply(s, e).db.endpoints ==> e.Write? && s.requests[e.r].op == DeleteEndpoint(x)
    ensures x in Apply(s, e).db.endpoints && Apply(s, e).db.endpoints[x].settings != s.db.endpoints[x].settings ==>
              && e.Write? && s.requests[e.r].op.UpdateEndpoint? && s.requests[e.r].op.endpoint == x
              && Apply(s, e).db.endpoints[x].settings == s.db.endpoints[x].settings + s.requests[e.r].op.changes
    ensures x in Apply(s, e).db.endpoints && Apply(s, e).db.endpoints[x].owner != s.db.endpoints[x].owner ==>
              var owner := Apply(s, e).db.endpoints[x].owner;
              && ByMaster(s, e)
              && (|| s.requests[e.r].op == ReassignOwner(x, owner)
                  || (owner.Some? && s.db.endpoints[x].owner.Some? &&
                      s.requests[e.r].op == DeleteKey(s.db.endpoints[x].owner.value, owner)))
  {
    assert AllUsed(s.db) && (e.Write? ==> Vetted(s, s.requests[e.r]));
    hide Inv, Permitted, Perform;
    if e.Write? {
      EndpointsWritten(s.db, s.requests[e.r].caller, s.requests[e.r].op, x);
    }
  }

  /** What one write can do to an endpoint. */
  lemma EndpointsWritten(db: Db, c: Caller, op: Operation, x: Id)
    requires x in db.endpoints && (op.DeleteKey? ==> op.reassignTo != Some(op.key))
    requires op.CreateEndpoint? ==> op.newEndpoint != x
    ensures Perform(db, c, op).Failed? ||
            var es := Perform(db, c, op).db.endpoints;
            && (x !in es ==> op == DeleteEndpoint(x))
            && (x in es && es[x].settings != db.endpoints[x].settings ==>
                  op.UpdateEndpoint? && op.endpoint == x && es[x].settings == db.endpoints[x].settings + op.changes)
            && (x in es && es[x].owner != db.endpoints[x].owner ==>
                  || op == ReassignOwner(x, es[x].owner)
                  || (es[x].owner.Some? && db.endpoints[x].owner.Some? &&
                      op == DeleteKey(db.endpoints[x].owner.value, es[x].owner)))
  {
    if op.DeleteKey? { KeyDeleteIsWhole(db, op.key, op.reassignTo); }
    hide DeleteKeyTransaction;
  }

  // ---------------------------------------------------------------- one request, uninterrupted

  /** The tables after one request that nothing interrupts. */
  function Alone(db: Db, c: Caller, op: Operation): Db {
    if !Permitted(db, c, op) then db
    else if op.ReassignOwner? && op.newOwner.Some? && op.newOwner.value !in db.keys then db
    else
      match Perform(db, c, op)
      case Failed => db
      case Committed(after) => after
      case Wrote(after, entry) => after.(audit := after.audit + [entry])
  }

  datatype Status = Done | Forbidden | NotFound | InvalidInput | Conflict | DbError

  /** The tables as the handlers update them, statement by statement. */
  class Store {
    var keys: map<Id, Key>
    var endpoints: map<Id, Endpoint>
    var audit: seq<Entry>
    ghost var usedKeys: set<Id>
    ghost var usedEndpoints: set<Id>

    ghost function Contents(): Db
      reads this
    {
      Db(keys, endpoints, audit, usedKeys, usedEndpoints)
    }

    constructor (master: Id, row: Key)
      ensures Contents() == Booted(master, row).db
    {
      keys := map[master := row];
      endpoints := map[];
      audit := [];
      usedKeys := {master};
      usedEndpoints := {};
    }

    method CreateApiKey(c: Caller, k: Id, row: Key) returns (status: Status)
      modifies this
      ensures Contents() == Alone(old(Contents()), c, CreateKey(k, row))
      ensures status == if c.isMaster then Done else Forbidden
    {
      if !c.isMaster {
        return Forbidden;
      }
      keys := keys[k := row.(isMaster := false)];
      usedKeys := usedKeys + {k};
      audit := audit + [Other("KEY_CREATE", k)];
      status := Done;
    }

    method UpdateApiKey(c: Caller, k: Id, name: Option<string>, boundIps: Option<string>, canManageKeys: Option<bool>)
      returns (status: Status)
      modifies this
      ensures Contents() == Alone(old(Contents()), c, UpdateKey(k, name, boundIps, canManageKeys))
      ensures status == (if !c.isMaster then Forbidden
                         else if k !in old(keys) then NotFound
                         else if old(keys)[k].isMaster && (name.Some? || canManageKeys.Some?) then Forbidden
                         else Done)
    {
      if !c.isMaster {
        return Forbidden;
      }
      if k !in keys {
        return NotFound;
      }
      var row := keys[k];
      if row.isMaster && (name.Some? || canManageKeys.Some?) {
        return Forbidden;
      }
      if name.Some? {
        row := row.(name := name.value);
      }
      if boundIps.Some? {
        row := row.(boundIps := boundIps.value);
      }
      if canManageKeys.Some? {
        row := row.(canManageKeys := canManageKeys.value);
      }
      keys := keys[k := row];
      audit := audit + [Other("KEY_UPDATE", k)];
      status := Done;
    }

    method RotateApiKey(c: Caller, k: Id, hash: string, secret: string) returns (status: Status)
      modifies this
      ensures Contents() == Alone(old(Contents()), c, RotateKey(k, hash, secret))
      ensures status == (if !c.isMaster then Forbidden
                         else if k !in old(keys) then NotFound
                         else if old(keys)[k].isMaster then Forbidden
                         else Done)
    {
      if !c.isMaster {
        return Forbidden;
      }
      if k !in keys {
        return NotFound;
      }
      if keys[k].isMaster {
        return Forbidden;
      }
      keys := keys[k := keys[k].(keyHash := hash, signingSecret := secret)];
      audit := audit + [Other("KEY_ROTATE", k)];
      status := Done;
    }

    method RotateSigningSecret(c: Caller, k: Id, secret: string) returns (status: Status)
      modifies this
      ensures Contents() == Alone(old(Contents()), c, RotateSecret(k, secret))
      ensures status == (if !c.isMaster then Forbidden
                         else if k !in old(keys) then NotFound
                         else if old(keys)[k].isMaster then Forbidden
                         else Done)
    {
      if !c.isMaster {
        return Forbidden;
      }
      if k !in keys {
        return NotFound;
      }
      if keys[k].isMaster {
        return Forbidden;
      }
      keys := keys[k := keys[k].(signingSecret := secret)];
      audit := audit + [Other("KEY_SECRET_ROTATE", k)];
      status := Done;
    }

    /** The transaction works on its own view and is published by the commit. */
    method DeleteApiKey(c: Caller, k: Id, to: Option<Id>) returns (status: Status)
      modifies this
      ensures Contents() == Alone(old(Contents()), c, DeleteKey(k, to))
      ensures status == (if !c.isMaster then Forbidden
                         else if k !in old(keys) then NotFound
                         else if old(keys)[k].isMaster then Forbidden
                         else if to == Some(k) || (to.Some? && to.value !in old(keys)) then InvalidInput
                         else if to == None && Owned(old(Contents()), k) then Conflict
                         else Done)
    {
      if !c.isMaster {
        return Forbidden;
      }
      if k !in keys {
        return NotFound;
      }
      if keys[k].isMaster {
        return Forbidden;
      }
      if to == Some(k) {
        return InvalidInput;
      }
      var view := endpoints;
      var owned := set e | e in view && view[e].owner == Some(k);
      if to.Some? && to.value !in keys {
        return InvalidInput;
      }
      assert owned != {} <==> Owned(old(Contents()), k) by {
        if Owned(old(Contents()), k) {
          var e :| e in view && view[e].owner == Some(k);
          assert e in owned;
        }
      }
      if to == None && owned != {} {
        return Conflict;
      }
      if to.Some? {
        view := Reowned(view, k, to);
      }
      keys := keys - {k};
      endpoints := Reowned(view, k, None);
      audit := audit + [KeyDelete(k)];
      status := Done;
    }

    /** `granted` is whether the caller may read every group named; the Master need not be granted any. */
    method CreateFeed(c: Caller, e: Id, settings: Settings, granted: bool) returns (status: Status)
      modifies this
      ensures Contents() == if c.isMaster || granted then Alone(old(Contents()), c, CreateEndpoint(e, settings))
                            else old(Contents())
      ensures status == (if !c.isMaster && !granted then Forbidden else if c.id in old(keys) then Done else DbError)
    {
      if !c.isMaster && !granted {
        return Forbidden;
      }
      if c.id !in keys {
        return DbError;
      }
      endpoints := endpoints[e := Endpoint(Some(c.id), settings)];
      usedEndpoints := usedEndpoints + {e};
      audit := audit + [Other("ENDPOINT_CREATE", e)];
      status := Done;
    }

    /** Only the fields given change. `granted` as above, true when the groups are not among them. */
    method UpdateFeed(c: Caller, e: Id, changes: Settings, granted: bool) returns (status: Status)
      modifies this
      ensures Contents() == if c.isMaster || granted then Alone(old(Contents()), c, UpdateEndpoint(e, changes))
                            else old(Contents())
      ensures status == (if e !in old(endpoints) then NotFound
                         else if !c.isMaster && old(endpoints)[e].owner != Some(c.id) then Forbidden
                         else if !c.isMaster && !granted then Forbidden
                         else Done)
    {
      if e !in endpoints {
        return NotFound;
      }
      if !MayManage(c, endpoints[e]) {
        return Forbidden;
      }
      if !c.isMaster && !granted {
        return Forbidden;
      }
      var row := endpoints[e];
      endpoints := endpoints[e := row.(settings := row.settings + changes)];
      audit := audit + [Other("ENDPOINT_UPDATE", e)];
      status := Done;
    }

    /** The endpoint's cached records go with its row. */
    method DeleteFeed(c: Caller, e: Id, cache: IpCache.Cache<Id>) returns (status: Status)
      modifies this, cache
      ensures Contents() == Alone(old(Contents()), c, DeleteEndpoint(e))
      ensures status == (if e !in old(endpoints) then NotFound
                         else if !c.isMaster && old(endpoints)[e].owner != Some(c.id) then Forbidden
                         else Done)
      ensures cache.entries == if status == Done then old(cache.entries) - {e} else old(cache.entries)
    {
      if e !in endpoints {
        return NotFound;
      }
      if !MayManage(c, endpoints[e]) {
        return Forbidden;
      }
      endpoints := endpoints - {e};
      cache.Evict(e);
      audit := audit + [EndpointDelete(e)];
      status := Done;
    }

    method ReassignFeedOwner(c: Caller, e: Id, owner: Option<Id>) returns (status: Status)
      modifies this
      ensures Contents() == Alone(old(Contents()), c, ReassignOwner(e, owner))
      ensures status == (if !c.isMaster then Forbidden
                         else if e !in old(endpoints) then NotFound
                         else if owner.Some? && owner.value !in old(keys) then InvalidInput
                         else Done)
    {
      if !c.isMaster {
        return Forbidden;
      }
      if e !in endpoints {
        return NotFound;
      }
      if owner.Some? && owner.value !in keys {
        return InvalidInput;
      }
      endpoints := endpoints[e := endpoints[e].(owner := owner)];
      audit := audit + [Other("ENDPOINT_OWNER_REASSIGN", e)];
      status := Done;
    }
  }

  lemma {:induction false} Then(start: State, es: seq<Step>, s: State, e: Step)
    requires Reaches(start, es, s) && Enabled(s, e)
    ensures Reaches(start, es + [e], Apply(s, e))
  {
    assert (es + [e])[..|es|] == es && Follows(s, e, Apply(s, e));
  }

  lemma {:induction false} ReachesItself(s: State)
    ensures Reaches(s, [], s)
  {
  }

  predicate Blocked(db: Db, c: Caller, op: Operation) {
    !Permitted(db, c, op) || (op.ReassignOwner? && op.newOwner.Some? && op.newOwner.value !in db.keys)
  }

  /** A request past authentication either ends at its checks or gets as far as its write. */
  lemma ReachesWrite(s: State, r: Request, c: Caller, op: Operation) returns (es: seq<Step>, s': State)
    requires r in s.requests && s.requests[r] == Authenticated(c, op)
    ensures Reaches(s, es, s')
    ensures s' == if Blocked(s.db, c, op) then End(s, r) else s.(requests := s.requests[r := Ready(c, op)])
  {
    hide Reaches, Permitted, Perform;
    ReachesItself(s);
    Then(s, [], s, Check(r));
    es, s' := [] + [Check(r)], Apply(s, Check(r));
    if Permitted(s.db, c, op) && op.ReassignOwner? && op.newOwner.Some? {
      OwnerChecked(s, r, c, op);
      hide Apply;
      Then(s, es, s', CheckOwner(r));
      es, s' := es + [CheckOwner(r)], Apply(s', CheckOwner(r));
    }
  }

  lemma OwnerChecked(s: State, r: Request, c: Caller, op: Operation)
    requires op.ReassignOwner? && op.newOwner.Some?
    ensures var found := s.(requests := s.requests[r := Found(c, op)]);
            && Enabled(found, CheckOwner(r))
            && Apply(found, CheckOwner(r)) == (if op.newOwner.value in s.db.keys
                                               then s.(requests := s.requests[r := Ready(c, op)]) else End(s, r))
  {
    hide Perform, Permitted;
    var m: map<Request, Phase> := s.requests;
    assert m[r := Found(c, op)] - {r} == m - {r};
    var found: map<Request, Phase> := m[r := Found(c, op)];
    assert found[r := Ready(c, op)] == m[r := Ready(c, op)];
  }

  /** From its write a request ends, logging on the way what it has written. */
  lemma ReachesEnd(s: State, r: Request, c: Caller, op: Operation) returns (es: seq<Step>, s': State)
    requires r in s.requests && s.requests[r] == Ready(c, op) && DrawsFresh(s.db, op)
    ensures Reaches(s, es, s') && s'.requests == s.requests - {r} && s'.master == s.master
    ensures s'.db == match Perform(s.db, c, op)
                     case Failed => s.db
                     case Committed(after) => after
                     case Wrote(after, entry) => after.(audit := after.audit + [entry])
  {
    hide Perform, DrawsFresh, Reaches;
    ReachesItself(s);
    Then(s, [], s, Write(r));
    es, s' := [] + [Write(r)], Apply(s, Write(r));
    if r in s'.requests {
      Then(s, es, s', Log(r));
      es, s' := es + [Log(r)], Apply(s', Log(r));
    }
  }

  lemma {:induction false} Joined(a: State, es: seq<Step>, b: State, fs: seq<Step>, c: State)
    requires Reaches(a, es, b) && Reaches(b, fs, c)
    ensures Reaches(a, es + fs, c)
    decreases |fs|
  {
    if fs == [] {
      assert es + fs == es;
    } else {
      var front, e := fs[..|fs| - 1], fs[|fs| - 1];
      var mid :| Reaches(b, front, mid) && Follows(mid, e, c);
      Joined(a, es, b, front, mid);
      Then(a, es + front, mid, e);
      assert (es + front) + [e] == es + fs;
    }
  }

  lemma {:induction false} RunAlone(s: State, r: Request, c: Caller, op: Operation) returns (es: seq<Step>, s': State)
    requires r !in s.requests && c.id in s.db.keys && c.isMaster == (s.db.keys[c.id].isMaster && c.id == s.master)
    requires DrawsFresh(s.db, op)
    ensures Reaches(s, es, s') && s'.requests == s.requests && s'.db == Alone(s.db, c, op)
  {
    hide DrawsFresh, Permitted, Perform, Reaches;
    ReachesItself(s);
    var begun := Apply(s, Authenticate(r, c.id, op));
    Then(s, [], s, Authenticate(r, c.id, op));
    assert begun.db == s.db && begun.requests == s.requests[r := Authenticated(c, op)];
    hide Apply, Enabled;
    var checks, checked := ReachesWrite(begun, r, c, op);
    Joined(s, [] + [Authenticate(r, c.id, op)], begun, checks, checked);
    es, s' := [] + [Authenticate(r, c.id, op)] + checks, checked;
    if !Blocked(s.db, c, op) {
      var rest, ended := ReachesEnd(checked, r, c, op);
      Joined(s, es, checked, rest, ended);
      es, s' := es + rest, ended;
    }
    assert s'.requests == s.requests;
  }

  /** The uninterrupted request is a run of the machine. */
  lemma {:induction false} AloneIsRun(s: State, r: Request, c: Caller, op: Operation)
    requires r !in s.requests && c.id in s.db.keys && c.isMaster == (s.db.keys[c.id].isMaster && c.id == s.master)
    requires DrawsFresh(s.db, op)
    ensures exists es, s' :: Reaches(s, es, s') && s'.requests == s.requests && s'.db == Alone(s.db, c, op)
  {
    hide *;
    var es, s' := RunAlone(s, r, c, op);
  }
}
