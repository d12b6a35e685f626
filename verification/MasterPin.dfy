/** The Master pin (src/master.rs): which key this process treats as Master, with any number of
    authentications racing, before or after a boot pin, and the `is_master` flags in the database changing
    under them in any way at all. */
module MasterPin {
  import opened Collections

  type Id = nat
  type Task = nat

  /** An `authenticate` in progress for a key that carries the flag: about to look at the cell, to query
      the rows, to set the cell, in the middle of setting it, or about to look again after failing to. */
  datatype Call =
    | Peeking(key: Id)
    | Reading(key: Id)
    | Holding(key: Id, found: Id)
    | Storing(key: Id, found: Id)
    | Rereading(key: Id)

  /** What `authenticate` decided about a key, or what `pin_at_boot` returned. */
  datatype Verdict = Key(id: Id, isMaster: bool) | Boot(pinned: Option<Id>)

  /** `flagged` is the result of the query for `is_master` rows; `permit` is the caller inside
      `OnceCell::set`. `soles` remembers every id that a query found alone; only the statements use it. */
  datatype State = State(
    cell: Option<Id>,
    permit: Option<Task>,
    flagged: seq<Id>,
    hasIndex: bool,
    calls: map<Task, Call>,
    verdicts: seq<Verdict>,
    soles: set<Id>)

  /** `PinAtBoot` runs before the server accepts requests, so nothing interrupts it. */
  datatype Step =
    | Tamper(flagged: seq<Id>, hasIndex: bool)
    | PinAtBoot
    | Authenticate(t: Task, key: Id)
    | Peek(t: Task)
    | Query(t: Task)
    | BeginSet(t: Task)
    | EndSet(t: Task)
    | Reread(t: Task)

  function Init(flagged: seq<Id>, hasIndex: bool): State { State(None, None, flagged, hasIndex, map[], [], {}) }

  predicate Enabled(s: State, e: Step) {
    match e
    case Tamper(_, _) => true
    case PinAtBoot => s.calls == map[]
    case Authenticate(t, _) => t !in s.calls
    case Peek(t) => t in s.calls && s.calls[t].Peeking?
    case Query(t) => t in s.calls && s.calls[t].Reading?
    case BeginSet(t) => t in s.calls && s.calls[t].Holding?
    case EndSet(t) => t in s.calls && s.calls[t].Storing?
    case Reread(t) => t in s.calls && s.calls[t].Rereading?
  }

  function Conclude(s: State, t: Task, v: Verdict): State {
    s.(calls := s.calls - {t}, verdicts := s.verdicts + [v])
  }

  function Booted(s: State): State {
    if !s.hasIndex || |s.flagged| != 1 then s.(verdicts := s.verdicts + [Boot(None)])
    else
      var pinned := if s.cell.Some? then s.cell else Some(s.flagged[0]);
      s.(cell := pinned, soles := s.soles + {s.flagged[0]}, verdicts := s.verdicts + [Boot(pinned)])
  }

  function Apply(s: State, e: Step): State
    requires Enabled(s, e)
  {
    match e
    case Tamper(flagged, hasIndex) => s.(flagged := flagged, hasIndex := hasIndex)
    case PinAtBoot => Booted(s)
    case Authenticate(t, k) => if k in s.flagged then s.(calls := s.calls[t := Peeking(k)]) else Conclude(s, t, Key(k, false))
    case Peek(t) =>
      var k := s.calls[t].key;
      if s.cell.Some? then Conclude(s, t, Key(k, s.cell.value == k)) else s.(calls := s.calls[t := Reading(k)])
    case Query(t) =>
      var k := s.calls[t].key;
      if |s.flagged| != 1 then Conclude(s, t, Key(k, false))
      else s.(calls := s.calls[t := Holding(k, s.flagged[0])], soles := s.soles + {s.flagged[0]})
    case BeginSet(t) =>
      // Set already, or being set by another caller: this one gives up and will read what is there then.
      var Holding(k, found) := s.calls[t];
      if s.cell.Some? || s.permit.Some? then s.(calls := s.calls[t := Rereading(k)])
      else s.(permit := Some(t), calls := s.calls[t := Storing(k, found)])
    case EndSet(t) =>
      var Storing(k, found) := s.calls[t];
      Conclude(s.(cell := Some(found), permit := None), t, Key(k, found == k))
    case Reread(t) => Conclude(s, t, Key(s.calls[t].key, s.cell == Some(s.calls[t].key)))
  }

  predicate Follows(was: State, e: Step, s: State) { Enabled(was, e) && s == Apply(was, e) }

  ghost predicate Reaches(start: State, es: seq<Step>, s: State)
    decreases |es|
  {
    if es == [] then s == start
    else
      var front, e := es[..|es| - 1], es[|es| - 1];
      exists was :: Reaches(start, front, was) && Follows(was, e, s)
  }

  /** This verdict speaks for the pinned Master. */
  ghost predicate Names(v: Verdict, id: Id) { v == Key(id, true) || v == Boot(Some(id)) }

  ghost predicate OneSetter(s: State) {
    && (s.permit.Some? ==> s.cell == None && s.permit.value in s.calls && s.calls[s.permit.value].Storing?)
    && (forall t :: t in s.calls && s.calls[t].Storing? ==> s.permit == Some(t))
  }

  ghost predicate AllFound(s: State) {
    && (s.cell.Some? ==> s.cell.value in s.soles)
    && (forall t :: t in s.calls && (s.calls[t].Holding? || s.calls[t].Storing?) ==> s.calls[t].found in s.soles)
  }

  ghost predicate AllPinned(s: State) {
    forall i, id: Id :: 0 <= i < |s.verdicts| && Names(s.verdicts[i], id) ==> s.cell == Some(id)
  }

  ghost predicate Inv(s: State) { OneSetter(s) && AllFound(s) && AllPinned(s) }

  lemma StepPins(s: State, e: Step)
    requires Inv(s) && Enabled(s, e)
    ensures AllPinned(Apply(s, e)) && (s.cell.Some? ==> Apply(s, e).cell == s.cell)
  {
    hide AllFound;
    var s' := Apply(s, e);
    forall i, id: Id | 0 <= i < |s'.verdicts| && Names(s'.verdicts[i], id) ensures s'.cell == Some(id) {
      if i < |s.verdicts| { assert Names(s.verdicts[i], id); }
    }
  }

  lemma StepKeepsInv(s: State, e: Step)
    requires Inv(s) && Enabled(s, e)
    ensures Inv(Apply(s, e)) && (s.cell.Some? ==> Apply(s, e).cell == s.cell)
  {
    StepPins(s, e);
    hide AllPinned;
  }

  lemma {:induction false} RunKeepsInv(start: State, es: seq<Step>, s: State)
    requires Inv(start) && Reaches(start, es, s)
    ensures Inv(s) && (start.cell.Some? ==> s.cell == start.cell)
    decreases |es|
  {
    if es != [] {
      var mid :| Reaches(start, es[..|es| - 1], mid) && Follows(mid, es[|es| - 1], s);
      RunKeepsInv(start, es[..|es| - 1], mid);
      StepKeepsInv(mid, es[|es| - 1]);
    }
  }

  /** Over a process's whole life, however calls race and flags change: every verdict that names a Master,
      the boot pin included, names the same key, and that key was once the only one flagged. */
  lemma {:induction false} OneMasterPerProcess(flagged: seq<Id>, hasIndex: bool, es: seq<Step>, s: State, i: nat, j: nat, a: Id, b: Id)
    requires Reaches(Init(flagged, hasIndex), es, s) && i < |s.verdicts| && j < |s.verdicts|
    requires Names(s.verdicts[i], a) && Names(s.verdicts[j], b)
    ensures a == b && a in s.soles
  {
    StartInv(flagged, hasIndex);
    hide Reaches, Init;
    RunKeepsInv(Init(flagged, hasIndex), es, s);
    assert s.cell == Some(a);
    assert s.cell == Some(b);
  }

  lemma StartInv(flagged: seq<Id>, hasIndex: bool)
    ensures Inv(Init(flagged, hasIndex))
  {
  }

  /** Once pinned, always pinned: a later claim by any other key is demoted. */
  lemma {:induction false} PinIsFinal(flagged: seq<Id>, hasIndex: bool, es: seq<Step>, mid: State, later: seq<Step>, s: State, k: Id)
    requires Reaches(Init(flagged, hasIndex), es, mid) && mid.cell.Some? && Reaches(mid, later, s)
    ensures s.cell == mid.cell
    ensures Key(k, true) in s.verdicts ==> mid.cell == Some(k)
  {
    StartInv(flagged, hasIndex);
    hide Reaches, Init;
    RunKeepsInv(Init(flagged, hasIndex), es, mid);
    RunKeepsInv(mid, later, s);
    if Key(k, true) in s.verdicts {
      var i :| 0 <= i < |s.verdicts| && s.verdicts[i] == Key(k, true);
      assert Names(s.verdicts[i], k);
      assert s.cell == Some(k);
    }
  }

  /** The pinned Master is recognised while its row still carries the flag. */
  lemma PinnedIsRecognised(s: State, t: Task, k: Id)
    requires s.cell == Some(k) && k in s.flagged && t !in s.calls
    ensures var asked := Apply(s, Authenticate(t, k));
            Enabled(asked, Peek(t)) && Apply(asked, Peek(t)).verdicts == s.verdicts + [Key(k, true)]
  {
  }

  /** The steps at which a claim is decided by looking at the cell. */
  predicate SeesCell(e: Step) { e.Peek? || e.EndSet? || e.Reread? }

  /** A claim is upheld exactly when it got as far as the cell and the cell then holds the key, whether the call
      found it set, set it, or lost the race to. Otherwise the key had no flag, or a query did not find exactly
      one flagged row. */
  lemma {:induction false} UpheldIff(s: State, e: Step, k: Id, upheld: bool)
    requires Enabled(s, e) && Apply(s, e).verdicts == s.verdicts + [Key(k, upheld)]
    ensures upheld <==> SeesCell(e) && Apply(s, e).cell == Some(k)
    ensures SeesCell(e) || (e.Authenticate? && k !in s.flagged) || (e.Query? && |s.flagged| != 1)
    ensures k == if e.Authenticate? then e.key else s.calls[e.t].key
  {
    var n, vs := |s.verdicts|, Apply(s, e).verdicts;
    assert vs[n] == Key(k, upheld) && |vs| == n + 1;
  }

  /** And every claim is decided: a call that looks at the cell concludes, unless it looked first and found
      nothing. */
  lemma {:induction false} ClaimsAreDecided(s: State, e: Step)
    requires Enabled(s, e) && SeesCell(e)
    ensures |Apply(s, e).verdicts| == |s.verdicts| <==> e.Peek? && s.cell == None
    ensures |Apply(s, e).verdicts| == |s.verdicts| + 1 || Apply(s, e).calls[e.t] == Reading(s.calls[e.t].key)
  {
  }

  /** A call that found one flagged row goes on to set the cell if it is free, and otherwise to look again. */
  lemma {:induction false} LosersLookAgain(s: State, t: Task)
    requires Enabled(s, BeginSet(t))
    ensures var s' := Apply(s, BeginSet(t));
            && s'.cell == s.cell && s'.verdicts == s.verdicts && t in s'.calls && s'.calls - {t} == s.calls - {t}
            && (s.cell == None && s.permit == None <==> s'.calls[t].Storing?)
            && (s'.calls[t].Storing? ==> s'.permit == Some(t) && Enabled(s', EndSet(t)) && s'.calls[t].found == s.calls[t].found)
            && (!s'.calls[t].Storing? ==> s'.permit == s.permit && Enabled(s', Reread(t)))
            && s'.calls[t].key == s.calls[t].key
  {
  }

  /** Booting answers exactly when the index is there and one row is flagged, and then with what the cell holds
      from then on: the pin there was, or that row. */
  lemma {:induction false} BootPins(s: State)
    requires Enabled(s, PinAtBoot)
    ensures var s' := Apply(s, PinAtBoot);
            && |s'.verdicts| == |s.verdicts| + 1 && s'.verdicts[..|s.verdicts|] == s.verdicts && s'.verdicts[|s.verdicts|].Boot?
            && (s'.verdicts[|s.verdicts|].pinned.Some? <==> s.hasIndex && exists k :: s.flagged == [k])
            && (s'.verdicts[|s.verdicts|].pinned.Some? ==> s'.verdicts[|s.verdicts|].pinned == s'.cell)
            && (s.cell.Some? || s'.verdicts[|s.verdicts|].pinned.None? ==> s'.cell == s.cell)
            && (s'.cell != s.cell ==> s.flagged == [s'.cell.value])
  {
    if |s.flagged| == 1 { assert s.flagged == [s.flagged[0]]; }
  }

  /** The claim that a query decides can be the pinned Master's own: two calls of theirs find the cell empty, one
      pins the key, a second row is flagged, and the other is demoted. */
  lemma {:induction false} PinnedDemoted(k: Id, j: Id)
    ensures exists es, s :: Reaches(Init([k], true), es, s) && s.cell == Some(k) && k in s.flagged &&
                            s.verdicts == [Key(k, true), Key(k, false)]
  {
    var es, s := BothFindNothing(k);
    var start := Init([k], true);
    hide Reaches, Init;
    Then(start, es, s, Query(1));
    es, s := es + [Query(1)], Apply(s, Query(1));
    es, s := SetUninterrupted(start, es, s, 1);
    Then(start, es, s, Tamper([k, j], true));
    es, s := es + [Tamper([k, j], true)], Apply(s, Tamper([k, j], true));
    Then(start, es, s, Query(2));
    es, s := es + [Query(2)], Apply(s, Query(2));
    assert s.flagged[0] == k;
  }

  lemma {:induction false} BothFindNothing(k: Id) returns (es: seq<Step>, s: State)
    ensures Reaches(Init([k], true), es, s) && s == State(None, None, [k], true, map[1 := Reading(k), 2 := Reading(k)], [], {})
  {
    var start := Init([k], true);
    es, s := [], start;
    assert Reaches(start, es, s);
    hide Reaches;
    Then(start, es, s, Authenticate(1, k));
    es, s := es + [Authenticate(1, k)], Apply(s, Authenticate(1, k));
    Then(start, es, s, Authenticate(2, k));
    es, s := es + [Authenticate(2, k)], Apply(s, Authenticate(2, k));
    Then(start, es, s, Peek(2));
    es, s := es + [Peek(2)], Apply(s, Peek(2));
    Then(start, es, s, Peek(1));
    es, s := es + [Peek(1)], Apply(s, Peek(1));
  }

  // ---------------------------------------------------------------- one call, uninterrupted

  /** The cell and the answer after one `authenticate` that nothing interrupts. */
  function Uninterrupted(cell: Option<Id>, key: Id, flagged: seq<Id>): (Option<Id>, bool) {
    if key !in flagged then (cell, false)
    else
      var pinned := if cell.Some? then cell else if |flagged| == 1 then Some(flagged[0]) else None;
      (pinned, pinned == Some(key))
  }

  class Pin {
    var cell: Option<Id>

    constructor ()
      ensures cell == None
    {
      cell := None;
    }

    /** `OnceCell::set`: the first value stays. */
    method Set(id: Id)
      modifies this
      ensures cell == if old(cell).Some? then old(cell) else Some(id)
    {
      if cell == None {
        cell := Some(id);
      }
    }

    method Resolve(flagged: seq<Id>) returns (id: Option<Id>)
      modifies this
      ensures old(cell).Some? ==> cell == old(cell)
      ensures id == cell
      ensures cell != old(cell) ==> flagged == [cell.value]
      ensures cell == None ==> |flagged| != 1
    {
      if cell.Some? {
        return cell;
      }
      if |flagged| == 1 {
        Set(flagged[0]);
      }
      id := cell;
    }

    method PinAtBoot(hasIndex: bool, flagged: seq<Id>) returns (id: Option<Id>)
      modifies this
      ensures id.Some? <==> hasIndex && |flagged| == 1
      ensures cell == if id == None || old(cell).Some? then old(cell) else Some(flagged[0])
      ensures id.Some? ==> id == cell
    {
      if !hasIndex || |flagged| != 1 {
        return None;
      }
      Set(flagged[0]);
      id := cell;
    }

    /** Returns what is left of the key's `is_master`, given the rows that carry the flag. */
    method Authenticate(key: Id, flagged: seq<Id>) returns (isMaster: bool)
      modifies this
      ensures (cell, isMaster) == Uninterrupted(old(cell), key, flagged)
      ensures isMaster ==> key in flagged && cell == Some(key)
    {
      isMaster := key in flagged;
      if !isMaster {
        return;
      }
      var pinned := Resolve(flagged);
      if pinned != Some(key) {
        isMaster := false;
      }
    }
  }

  lemma {:induction false} Then(start: State, es: seq<Step>, s: State, e: Step)
    requires Reaches(start, es, s) && Enabled(s, e)
    ensures Reaches(start, es + [e], Apply(s, e))
  {
    assert (es + [e])[..|es|] == es && Follows(s, e, Apply(s, e));
  }

  lemma SetUninterrupted(start: State, es: seq<Step>, s: State, t: Task) returns (es': seq<Step>, s': State)
    requires Reaches(start, es, s) && t in s.calls && s.calls[t].Holding? && s.cell == None && s.permit == None
    ensures Reaches(start, es', s') && s'.cell == Some(s.calls[t].found) && s'.calls == s.calls - {t}
    ensures s'.flagged == s.flagged && s'.hasIndex == s.hasIndex
    ensures s'.verdicts == s.verdicts + [Key(s.calls[t].key, s.calls[t].found == s.calls[t].key)]
  {
    hide Reaches;
    Then(start, es, s, BeginSet(t));
    var storing := Apply(s, BeginSet(t));
    Then(start, es + [BeginSet(t)], storing, EndSet(t));
    es', s' := es + [BeginSet(t)] + [EndSet(t)], Apply(storing, EndSet(t));
  }

  lemma {:induction false} RunUninterrupted(s: State, t: Task, k: Id) returns (es: seq<Step>, s': State)
    requires t !in s.calls && s.permit == None
    ensures Reaches(s, es, s') && s'.cell == Uninterrupted(s.cell, k, s.flagged).0
    ensures s'.verdicts == s.verdicts + [Key(k, Uninterrupted(s.cell, k, s.flagged).1)]
  {
    Then(s, [], s, Authenticate(t, k));
    es, s' := [] + [Authenticate(t, k)], Apply(s, Authenticate(t, k));
    hide Reaches;
    if k in s.flagged {
      Then(s, es, s', Peek(t));
      es, s' := es + [Peek(t)], Apply(s', Peek(t));
      if s.cell == None {
        Then(s, es, s', Query(t));
        es, s' := es + [Query(t)], Apply(s', Query(t));
        if |s.flagged| == 1 {
          es, s' := SetUninterrupted(s, es, s', t);
        }
      }
    }
  }

  /** The uninterrupted call is a run of the machine. */
  lemma {:induction false} UninterruptedIsRun(s: State, t: Task, k: Id)
    requires t !in s.calls && s.permit == None
    ensures exists es, s' :: Reaches(s, es, s') && s'.cell == Uninterrupted(s.cell, k, s.flagged).0 &&
                             s'.verdicts == s.verdicts + [Key(k, Uninterrupted(s.cell, k, s.flagged).1)]
  {
    hide *;
    var es, s' := RunUninterrupted(s, t, k);
  }
}
