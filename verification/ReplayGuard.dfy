/** The replay guard (src/replay.rs) and the timestamp window checked before it (src/middleware.rs).
    Instants are in nanoseconds. */
module ReplayGuard {
  import opened Collections

  const NANOS: int := 1_000_000_000
  const MAX_TRACKED_SIGNATURES: nat := 250_000
  const PRUNE_INTERVAL_DIVISOR: int := 4
  const CAPACITY_BACKOFF_DIVISOR: int := 16

  function Clamp(x: int, low: int, high: int): int
    requires low <= high
  {
    if x < low then low else if x > high then high else x
  }

  /** How long a guard built with this setting remembers a signature. */
  function Window(windowSeconds: int): int { Clamp(windowSeconds, 1, 3600) * NANOS }

  /** Between a second and an hour. */
  lemma WindowInFigures(windowSeconds: int)
    ensures Window(windowSeconds) == if windowSeconds <= 1 then 1_000_000_000
                                     else if windowSeconds >= 3600 then 3_600_000_000_000
                                     else windowSeconds * 1_000_000_000
  {
  }

  /** What the guard holds: when each signature may be forgotten, and when to sweep next. */
  datatype Memory<Id> = Memory(seen: map<Id, int>, next: int, nextCapacity: int)

  ghost function Unexpired<Id>(seen: map<Id, int>, now: int): map<Id, int> {
    map id | id in seen && seen[id] > now :: seen[id]
  }

  ghost predicate Admits<Id>(seen: map<Id, int>, id: Id, now: int) { id in seen ==> seen[id] <= now }

  ghost predicate CapacityDue<Id>(m: Memory<Id>, now: int) {
    |m.seen| >= MAX_TRACKED_SIGNATURES && now >= m.nextCapacity
  }

  ghost function Pruned<Id>(w: int, m: Memory<Id>, now: int): Memory<Id> {
    if now < m.next && !CapacityDue(m, now) then m
    else Memory(Unexpired(m.seen, now), now + w / PRUNE_INTERVAL_DIVISOR,
                if CapacityDue(m, now) then now + w / CAPACITY_BACKOFF_DIVISOR else m.nextCapacity)
  }

  ghost function Recorded<Id>(w: int, m: Memory<Id>, id: Id, now: int): Memory<Id> {
    if Admits(m.seen, id, now) then m.(seen := m.seen[id := now + w]) else m
  }

  class Guard<Id(==)> {
    var seen: map<Id, int>
    var next: int
    var nextCapacity: int
    const window: int
    const pruneInterval: int
    const capacityBackoff: int

    ghost function Contents(): Memory<Id>
      reads this
    {
      Memory(seen, next, nextCapacity)
    }

    ghost predicate Valid() {
      && window > 0
      && pruneInterval == window / PRUNE_INTERVAL_DIVISOR
      && capacityBackoff == window / CAPACITY_BACKOFF_DIVISOR
    }

    constructor (windowSeconds: int, now: int)
      ensures Valid() && window == Window(windowSeconds)
      ensures windowSeconds <= 1 ==> window == 1_000_000_000
      ensures 1 <= windowSeconds <= 3600 ==> window == windowSeconds * 1_000_000_000
      ensures windowSeconds >= 3600 ==> window == 3_600_000_000_000
      ensures Contents() == Fresh(window, now)
    {
      var w := Clamp(windowSeconds, 1, 3600) * NANOS;
      window := w;
      pruneInterval := w / PRUNE_INTERVAL_DIVISOR;
      capacityBackoff := w / CAPACITY_BACKOFF_DIVISOR;
      seen := map[];
      next := now + w / PRUNE_INTERVAL_DIVISOR;
      nextCapacity := now;
    }

    method PruneIfDue(now: int)
      requires Valid()
      modifies this
      ensures Contents() == Pruned(window, old(Contents()), now)
    {
      var overCapacity := |seen| >= MAX_TRACKED_SIGNATURES;
      var routineDue := now >= next;
      var capacityDue := overCapacity && now >= nextCapacity;
      if !routineDue && !capacityDue {
        return;
      }
      next := now + pruneInterval;
      if capacityDue {
        nextCapacity := now + capacityBackoff;
      }
      seen := map id | id in seen && seen[id] > now :: seen[id];
    }

    method CheckAndRecord(id: Id, now: int) returns (accepted: bool)
      requires Valid()
      modifies this
      ensures accepted <==> Admits(Pruned(window, old(Contents()), now).seen, id, now)
      ensures Contents() == Recorded(window, Pruned(window, old(Contents()), now), id, now)
    {
      PruneIfDue(now);
      if id in seen && seen[id] > now {
        return false;
      }
      seen := seen[id := now + window];
      return true;
    }
  }

  // ---------------------------------------------------------------- whole runs

  datatype Call<Id> = Call(id: Id, now: int)

  ghost function Fresh<Id>(w: int, start: int): Memory<Id> {
    Memory(map[], start + w / PRUNE_INTERVAL_DIVISOR, start)
  }

  ghost function Run<Id>(w: int, start: int, cs: seq<Call<Id>>): Memory<Id> {
    if cs == [] then Fresh(w, start)
    else
      var c := cs[|cs| - 1];
      Recorded(w, Pruned(w, Run(w, start, cs[..|cs| - 1]), c.now), c.id, c.now)
  }

  ghost predicate Accepted<Id>(w: int, start: int, cs: seq<Call<Id>>, i: nat)
    requires i < |cs|
  {
    Admits(Pruned(w, Run(w, start, cs[..i]), cs[i].now).seen, cs[i].id, cs[i].now)
  }

  ghost predicate InOrder<Id>(start: int, cs: seq<Call<Id>>) {
    && (forall i :: 0 <= i < |cs| ==> start <= cs[i].now)
    && forall i, j :: 0 <= i < j < |cs| ==> cs[i].now <= cs[j].now
  }

  /** The guard that never forgets: every signature ever accepted, with the end of its window. */
  ghost function Remembered<Id>(w: int, cs: seq<Call<Id>>): map<Id, int> {
    if cs == [] then map[]
    else
      var m, c := Remembered(w, cs[..|cs| - 1]), cs[|cs| - 1];
      if Admits(m, c.id, c.now) then m[c.id := c.now + w] else m
  }

  ghost predicate RememberedAccepts<Id>(w: int, cs: seq<Call<Id>>, i: nat)
    requires i < |cs|
  {
    Admits(Remembered(w, cs[..i]), cs[i].id, cs[i].now)
  }

  /** `seen` lacks only entries that have expired by `now`. */
  ghost predicate Shadows<Id>(seen: map<Id, int>, all: map<Id, int>, now: int) {
    && (forall id :: id in seen ==> id in all && all[id] == seen[id])
    && (forall id :: id in all && id !in seen ==> all[id] <= now)
  }

  lemma StepShadows<Id>(w: int, m: Memory<Id>, all: map<Id, int>, id: Id, was: int, now: int)
    requires Shadows(m.seen, all, was) && was <= now
    ensures Admits(Pruned(w, m, now).seen, id, now) <==> Admits(all, id, now)
    ensures Shadows(Recorded(w, Pruned(w, m, now), id, now).seen,
                    if Admits(all, id, now) then all[id := now + w] else all, now)
  {
    hide CapacityDue;
    assert Shadows(Pruned(w, m, now).seen, all, now);
  }

  ghost function LastTime<Id>(start: int, cs: seq<Call<Id>>): int {
    if cs == [] then start else cs[|cs| - 1].now
  }

  lemma {:induction false} RunShadows<Id>(w: int, start: int, cs: seq<Call<Id>>)
    requires InOrder(start, cs)
    ensures Shadows(Run(w, start, cs).seen, Remembered(w, cs), LastTime(start, cs))
  {
    if cs != [] {
      var front, c := cs[..|cs| - 1], cs[|cs| - 1];
      RunShadows(w, start, front);
      StepShadows(w, Run(w, start, front), Remembered(w, front), c.id, LastTime(start, front), c.now);
    }
  }

  /** Pruning is unobservable: over every run with non-decreasing readings the guard answers each call
      as one that never forgets. */
  lemma PruningUnobservable<Id>(w: int, start: int, cs: seq<Call<Id>>, i: nat)
    requires InOrder(start, cs) && i < |cs|
    ensures Accepted(w, start, cs, i) <==> RememberedAccepts(w, cs, i)
  {
    var front := cs[..i];
    RunShadows(w, start, front);
    StepShadows(w, Run(w, start, front), Remembered(w, front), cs[i].id, LastTime(start, front), cs[i].now);
  }

  lemma {:induction false} RememberedLater<Id>(w: int, cs: seq<Call<Id>>, start: int, i: nat)
    requires InOrder(start, cs) && i < |cs| && RememberedAccepts(w, cs, i)
    ensures cs[i].id in Remembered(w, cs) && Remembered(w, cs)[cs[i].id] >= cs[i].now + w
    decreases |cs|
  {
    var n := |cs| - 1;
    if i < n {
      var front := cs[..n];
      assert front[..i] == cs[..i];
      RememberedLater(w, front, start, i);
    }
  }

  lemma {:induction false} LastAcceptance<Id>(w: int, cs: seq<Call<Id>>, id: Id) returns (i: nat)
    requires id in Remembered(w, cs)
    ensures i < |cs| && cs[i].id == id && RememberedAccepts(w, cs, i)
    ensures Remembered(w, cs)[id] == cs[i].now + w
    decreases |cs|
  {
    var n := |cs| - 1;
    if cs[n].id == id && RememberedAccepts(w, cs, n) {
      i := n;
    } else {
      i := LastAcceptance(w, cs[..n], id);
      assert cs[..n][..i] == cs[..i];
    }
  }

  /** A signature is accepted exactly when no acceptance of it lies less than a window back. */
  lemma AcceptedIff<Id>(w: int, start: int, cs: seq<Call<Id>>, j: nat)
    requires InOrder(start, cs) && j < |cs|
    ensures Accepted(w, start, cs, j) <==>
              forall i :: 0 <= i < j && cs[i].id == cs[j].id && Accepted(w, start, cs, i) ==> cs[j].now - cs[i].now >= w
  {
    hide *;
    var front := cs[..j];
    assert InOrder(start, front) && forall i :: 0 <= i < j ==> front[i] == cs[i] by { FrontInOrder(start, cs, j); }
    PruningUnobservable(w, start, cs, j);
    forall i | 0 <= i < j && cs[i].id == cs[j].id && Accepted(w, start, cs, i)
      ensures RememberedAccepts(w, cs, j) ==> cs[j].now - cs[i].now >= w
    {
      PruningUnobservable(w, start, cs, i);
      NoEarlier(w, start, cs, i, j);
    }
    if !RememberedAccepts(w, cs, j) {
      var i := RejectionWitness(w, start, cs, j);
      PruningUnobservable(w, start, cs, i);
    }
  }

  lemma FrontInOrder<Id>(start: int, cs: seq<Call<Id>>, j: nat)
    requires InOrder(start, cs) && j <= |cs|
    ensures InOrder(start, cs[..j])
  {
  }

  lemma NoEarlier<Id>(w: int, start: int, cs: seq<Call<Id>>, i: nat, j: nat)
    requires InOrder(start, cs) && i < j < |cs| && cs[i].id == cs[j].id
    requires RememberedAccepts(w, cs, i)
    ensures RememberedAccepts(w, cs, j) ==> cs[j].now - cs[i].now >= w
  {
    assert cs[..j][..i] == cs[..i];
    RememberedLater(w, cs[..j], start, i);
  }

  lemma RejectionWitness<Id>(w: int, start: int, cs: seq<Call<Id>>, j: nat) returns (i: nat)
    requires InOrder(start, cs) && j < |cs| && !RememberedAccepts(w, cs, j)
    ensures i < j && cs[i].id == cs[j].id && RememberedAccepts(w, cs, i) && cs[j].now - cs[i].now < w
  {
    i := LastAcceptance(w, cs[..j], cs[j].id);
    assert cs[..j][..i] == cs[..i];
  }

  // ---------------------------------------------------------------- bounded memory

  /** The last sweep, at `swept`, left only live entries and set the next one a quarter window on. */
  ghost predicate Swept<Id>(w: int, m: Memory<Id>, swept: int) {
    && m.next == swept + w / PRUNE_INTERVAL_DIVISOR
    && forall id :: id in m.seen ==> m.seen[id] > swept
  }

  lemma {:induction false} RunSwept<Id>(w: int, start: int, cs: seq<Call<Id>>) returns (swept: int)
    requires w > 0 && InOrder(start, cs)
    ensures Swept(w, Run(w, start, cs), swept) && start <= swept <= LastTime(start, cs)
    ensures w >= PRUNE_INTERVAL_DIVISOR ==> LastTime(start, cs) < swept + w / PRUNE_INTERVAL_DIVISOR
  {
    swept := start;
    if cs != [] {
      var front, c := cs[..|cs| - 1], cs[|cs| - 1];
      swept := RunSwept(w, start, front);
      var m := Run(w, start, front);
      if c.now >= m.next || CapacityDue(m, c.now) {
        swept := c.now;
      }
    }
  }

  /** After every call, whatever is still held was accepted less than a window and a quarter ago. */
  lemma {:induction false} MemoryBounded<Id>(windowSeconds: int, start: int, cs: seq<Call<Id>>, id: Id)
    requires InOrder(start, cs)
    requires id in Run(Window(windowSeconds), start, cs).seen
    ensures var w := Window(windowSeconds);
            exists i :: 0 <= i < |cs| && cs[i].id == id && Accepted(w, start, cs, i) &&
                        cs[i].now + w == Run(w, start, cs).seen[id] &&
                        4 * (LastTime(start, cs) - cs[i].now) < 5 * w
  {
    var w := Window(windowSeconds);
    assert w >= NANOS;
    var swept := RunSwept(w, start, cs);
    RunShadows(w, start, cs);
    var i := LastAcceptance(w, cs, id);
    PruningUnobservable(w, start, cs, i);
  }

  /** The calls accepted less than a window and a quarter before the last. */
  ghost function RecentAccepts<Id>(w: int, start: int, cs: seq<Call<Id>>): set<nat> {
    set i: nat | i < |cs| && Accepted(w, start, cs, i) && 4 * (LastTime(start, cs) - cs[i].now) < 5 * w
  }

  lemma {:induction false} ImageSize<Id>(calls: set<nat>, cs: seq<Call<Id>>)
    requires forall i :: i in calls ==> i < |cs|
    ensures |set i | i in calls :: cs[i].id| <= |calls|
    decreases |calls|
  {
    var ids := set i | i in calls :: cs[i].id;
    if calls == {} {
      assert ids == {};
    } else {
      var k :| k in calls;
      var rest := set i | i in calls - {k} :: cs[i].id;
      ImageSize(calls - {k}, cs);
      assert ids == rest + {cs[k].id};
    }
  }

  /** So the table is never larger than the number of those calls. */
  lemma {:induction false} TableBounded<Id>(windowSeconds: int, start: int, cs: seq<Call<Id>>)
    requires InOrder(start, cs)
    ensures |Run(Window(windowSeconds), start, cs).seen| <= |RecentAccepts(Window(windowSeconds), start, cs)|
  {
    var w := Window(windowSeconds);
    var seen, recent := Run(w, start, cs).seen, RecentAccepts(w, start, cs);
    var ids := set i | i in recent :: cs[i].id;
    forall id | id in seen ensures id in ids {
      MemoryBounded(windowSeconds, start, cs, id);
      var i: nat :| i < |cs| && cs[i].id == id && Accepted(w, start, cs, i) && 4 * (LastTime(start, cs) - cs[i].now) < 5 * w;
      assert i in recent;
    }
    ImageSize(recent, cs);
    SubsetSize(seen.Keys, ids);
  }

  // ---------------------------------------------------------------- at the ceiling

  /** Call `i` finds the table full. */
  ghost predicate AtCeiling<Id>(w: int, start: int, cs: seq<Call<Id>>, i: nat)
    requires i < |cs|
  {
    |Run(w, start, cs[..i]).seen| >= 250_000
  }

  /** Call `i` sweeps because the table is full. */
  ghost predicate CeilingSweep<Id>(w: int, start: int, cs: seq<Call<Id>>, i: nat)
    requires i < |cs|
  {
    CapacityDue(Run(w, start, cs[..i]), cs[i].now)
  }

  /** Call `k` made the latest sweep of that kind: it was at the ceiling, set the next one a sixteenth of a
      window on, and left only live entries. */
  ghost predicate SweptFull<Id>(w: int, start: int, cs: seq<Call<Id>>, k: nat) {
    && k < |cs| && AtCeiling(w, start, cs, k)
    && Run(w, start, cs).nextCapacity == cs[k].now + w / 16
    && (forall id :: id in Run(w, start, cs).seen ==> Run(w, start, cs).seen[id] > cs[k].now)
    && (forall i :: k < i < |cs| ==> !CeilingSweep(w, start, cs, i))
  }

  ghost predicate NeverSweptFull<Id>(w: int, start: int, cs: seq<Call<Id>>) {
    Run(w, start, cs).nextCapacity == start && forall i :: 0 <= i < |cs| ==> !CeilingSweep(w, start, cs, i)
  }

  lemma StepAtCeiling<Id>(w: int, m: Memory<Id>, id: Id, now: int)
    requires w > 0
    ensures var m' := Recorded(w, Pruned(w, m, now), id, now);
            if CapacityDue(m, now)
            then |m.seen| >= 250_000 && m'.nextCapacity == now + w / 16 && forall x :: x in m'.seen ==> m'.seen[x] > now
            else m'.nextCapacity == m.nextCapacity &&
                 forall x :: x in m'.seen ==> (x in m.seen && m'.seen[x] == m.seen[x]) || m'.seen[x] == now + w
  {
  }

  lemma {:induction false} FullSweepNow<Id>(w: int, start: int, cs: seq<Call<Id>>)
    requires w > 0 && cs != [] && CeilingSweep(w, start, cs, |cs| - 1)
    ensures SweptFull(w, start, cs, |cs| - 1)
  {
    var n := |cs| - 1;
    StepAtCeiling(w, Run(w, start, cs[..n]), cs[n].id, cs[n].now);
    hide Recorded, Pruned, CapacityDue;
  }

  lemma {:induction false} FullSweepKept<Id>(w: int, start: int, cs: seq<Call<Id>>, k: nat)
    requires w > 0 && InOrder(start, cs) && cs != [] && !CeilingSweep(w, start, cs, |cs| - 1)
    requires SweptFull(w, start, cs[..|cs| - 1], k)
    ensures SweptFull(w, start, cs, k)
  {
    var n := |cs| - 1;
    var front := cs[..n];
    SameSweeps(w, start, cs);
    StepAtCeiling(w, Run(w, start, front), cs[n].id, cs[n].now);
    assert Run(w, start, cs) == Recorded(w, Pruned(w, Run(w, start, front), cs[n].now), cs[n].id, cs[n].now);
    assert front[k] == cs[k] && front[..k] == cs[..k] && cs[k].now <= cs[n].now;
    assert !CapacityDue(Run(w, start, front), cs[n].now);
    hide Run, Recorded, Pruned, CapacityDue, InOrder;
  }

  lemma {:induction false} NeverKept<Id>(w: int, start: int, cs: seq<Call<Id>>)
    requires w > 0 && cs != [] && !CeilingSweep(w, start, cs, |cs| - 1) && NeverSweptFull(w, start, cs[..|cs| - 1])
    ensures NeverSweptFull(w, start, cs)
  {
    var n := |cs| - 1;
    SameSweeps(w, start, cs);
    StepAtCeiling(w, Run(w, start, cs[..n]), cs[n].id, cs[n].now);
    assert Run(w, start, cs) == Recorded(w, Pruned(w, Run(w, start, cs[..n]), cs[n].now), cs[n].id, cs[n].now);
    assert !CapacityDue(Run(w, start, cs[..n]), cs[n].now);
    hide Run, Recorded, Pruned, CapacityDue;
  }

  lemma {:induction false} LatestFullSweep<Id>(w: int, start: int, cs: seq<Call<Id>>) returns (k: nat)
    requires w > 0 && InOrder(start, cs)
    ensures NeverSweptFull(w, start, cs) || SweptFull(w, start, cs, k)
    decreases |cs|
  {
    k := 0;
    if cs != [] {
      var n := |cs| - 1;
      k := LatestFullSweep(w, start, cs[..n]);
      hide *;
      if CeilingSweep(w, start, cs, n) {
        k := n;
        FullSweepNow(w, start, cs);
      } else if NeverSweptFull(w, start, cs[..n]) {
        NeverKept(w, start, cs);
      } else {
        FullSweepKept(w, start, cs, k);
      }
    }
  }

  lemma SameSweeps<Id>(w: int, start: int, cs: seq<Call<Id>>)
    requires cs != []
    ensures forall i :: 0 <= i < |cs| - 1 ==> (CeilingSweep(w, start, cs, i) <==> CeilingSweep(w, start, cs[..|cs| - 1], i))
  {
    hide Run, CapacityDue;
    var front := cs[..|cs| - 1];
    forall i | 0 <= i < |front| ensures front[..i] == cs[..i] && front[i] == cs[i] { }
  }

  /** Two sweeps for want of room are at least a sixteenth of a window apart. */
  lemma {:induction false} FullSweepsApart<Id>(w: int, start: int, cs: seq<Call<Id>>, i: nat, j: nat)
    requires w > 0 && InOrder(start, cs) && i < j < |cs| && CeilingSweep(w, start, cs, i) && CeilingSweep(w, start, cs, j)
    ensures AtCeiling(w, start, cs, j) && cs[j].now - cs[i].now >= w / 16
  {
    var front := cs[..j];
    var k := LatestFullSweep(w, start, front);
    assert front[..i] == cs[..i] && front[i] == cs[i];
    assert CeilingSweep(w, start, front, i);
    assert front[k] == cs[k] && i <= k;
    assert Run(w, start, front).nextCapacity == cs[k].now + w / 16;
  }

  /** A call that finds the table full, with none that did less than a sixteenth of a window before it, leaves
      only live entries. */
  lemma {:induction false} FullTableIsSwept<Id>(w: int, start: int, cs: seq<Call<Id>>, id: Id)
    requires w > 0 && InOrder(start, cs) && cs != [] && AtCeiling(w, start, cs, |cs| - 1)
    requires forall i :: 0 <= i < |cs| - 1 && AtCeiling(w, start, cs, i) ==> cs[|cs| - 1].now - cs[i].now >= w / 16
    ensures id in Run(w, start, cs).seen ==> Run(w, start, cs).seen[id] > cs[|cs| - 1].now
  {
    var n := |cs| - 1;
    var front := cs[..n];
    var k := LatestFullSweep(w, start, front);
    if SweptFull(w, start, front, k) {
      assert front[..k] == cs[..k] && front[k] == cs[k];
      assert AtCeiling(w, start, cs, k);
    }
  }

  /** So while the table is full, whatever is held after a call was accepted less than a window and a sixteenth
      ago. */
  lemma {:induction false} FullTableIsRecent<Id>(windowSeconds: int, start: int, cs: seq<Call<Id>>, id: Id)
    requires InOrder(start, cs) && cs != [] && AtCeiling(Window(windowSeconds), start, cs, |cs| - 1)
    requires id in Run(Window(windowSeconds), start, cs).seen
    ensures var w := Window(windowSeconds);
            exists i :: 0 <= i < |cs| && cs[i].id == id && Accepted(w, start, cs, i) && 16 * (cs[|cs| - 1].now - cs[i].now) < 17 * w
  {
    var w := Window(windowSeconds);
    assert w >= NANOS && 16 * (w / 16) == w by { WholeSixteenths(windowSeconds, w); }
    ExpiresLate(w, start, cs, id);
    RunShadows(w, start, cs);
    var i := LastAcceptance(w, cs, id);
    PruningUnobservable(w, start, cs, i);
    hide Run, Window, Accepted;
    assert cs[i].now + w > cs[|cs| - 1].now - w / 16;
  }

  lemma WholeSixteenths(windowSeconds: int, w: int)
    requires w == Window(windowSeconds)
    ensures w >= NANOS && 16 * (w / 16) == w
  {
    var s := Clamp(windowSeconds, 1, 3600);
    assert w == 16 * (s * 62_500_000);
  }

  lemma {:induction false} ExpiresLate<Id>(w: int, start: int, cs: seq<Call<Id>>, id: Id)
    requires w > 0 && InOrder(start, cs) && cs != [] && AtCeiling(w, start, cs, |cs| - 1) && id in Run(w, start, cs).seen
    ensures Run(w, start, cs).seen[id] > cs[|cs| - 1].now - w / 16
  {
    var n := |cs| - 1;
    var k := LatestFullSweep(w, start, cs[..n]);
  }

  /** Below the ceiling nothing is swept before a quarter of a window has passed since the last sweep. */
  lemma {:induction false} QuietBelowCeiling<Id>(w: int, m: Memory<Id>, swept: int, now: int)
    requires Swept(w, m, swept) && |m.seen| < 250_000 && now - swept < w / 4
    ensures Pruned(w, m, now) == m
  {
  }

  // ---------------------------------------------------------------- concurrent callers

  /** The guard's two lock sections that touch `seen`. Each caller read its clock (`now`) at or before
      the instant (`at`) it got the lock, so readings may arrive out of order. */
  datatype Section<Id> = Retain(now: int, at: int) | Check(id: Id, now: int, at: int)

  ghost predicate Schedule<Id>(ss: seq<Section<Id>>) {
    && (forall i :: 0 <= i < |ss| ==> ss[i].now <= ss[i].at)
    && forall i, j :: 0 <= i < j < |ss| ==> ss[i].at <= ss[j].at
  }

  ghost function SeenAfter<Id>(w: int, ss: seq<Section<Id>>): map<Id, int> {
    if ss == [] then map[]
    else
      var seen := SeenAfter(w, ss[..|ss| - 1]);
      match ss[|ss| - 1]
      case Retain(now, _) => Unexpired(seen, now)
      case Check(id, now, _) => if Admits(seen, id, now) then seen[id := now + w] else seen
  }

  ghost predicate AcceptsAt<Id>(w: int, ss: seq<Section<Id>>, i: int, id: Id) {
    0 <= i < |ss| && ss[i].Check? && ss[i].id == id && Admits(SeenAfter(w, ss[..i]), id, ss[i].now)
  }

  lemma {:induction false} HeldOrElapsed<Id>(w: int, ss: seq<Section<Id>>, i: nat, id: Id)
    requires Schedule(ss) && AcceptsAt(w, ss, i, id)
    ensures (id in SeenAfter(w, ss) && SeenAfter(w, ss)[id] >= ss[i].now + w) || ss[|ss| - 1].at >= ss[i].now + w
    decreases |ss|
  {
    var n := |ss| - 1;
    if i < n {
      var front := ss[..n];
      assert front[..i] == ss[..i];
      HeldOrElapsed(w, front, i, id);
    }
  }

  /** However callers interleave, however late each gets the lock and whenever sweeps run: once a
      signature is accepted, no lock section accepts it again until a window after the first reading. */
  lemma NoSecondAcceptance<Id>(w: int, ss: seq<Section<Id>>, i: nat, j: nat, id: Id)
    requires Schedule(ss) && i < j && AcceptsAt(w, ss, i, id) && AcceptsAt(w, ss, j, id)
    ensures ss[j].at >= ss[i].now + w
  {
    assert ss[..j][..i] == ss[..i];
    HeldOrElapsed(w, ss[..j], i, id);
  }

  // ---------------------------------------------------------------- the timestamp window

  const TWO63: int := 0x8000_0000_0000_0000

  /** Two's-complement wrap into a signed 64-bit word. */
  function Wrap64(x: int): int { (x + TWO63) % (2 * TWO63) - TWO63 }

  function Abs64(x: int): int { if x < 0 then Wrap64(-x) else x }

  /** `validate_timestamp` on a parsed header, in signed 64-bit arithmetic that wraps, as in a build without
      overflow checks; where it wraps, a build with them panics instead. */
  predicate TimestampPasses(nowSeconds: int, presented: int, maxAgeSeconds: int) {
    Abs64(Wrap64(nowSeconds - presented)) <= maxAgeSeconds
  }

  /** The check is the symmetric window, plus the timestamps so far in the past that the subtraction or
      the absolute value wraps: 2^63 seconds back exactly, or within `maxAgeSeconds` of 2^64. */
  lemma TimestampWindow(nowSeconds: int, presented: int, maxAgeSeconds: int)
    requires 0 <= nowSeconds < TWO63 && -TWO63 <= presented < TWO63 && 1 <= maxAgeSeconds < TWO63
    ensures TimestampPasses(nowSeconds, presented, maxAgeSeconds) <==>
              || -maxAgeSeconds <= nowSeconds - presented <= maxAgeSeconds
              || presented == nowSeconds - TWO63
              || 2 * TWO63 - maxAgeSeconds <= nowSeconds - presented
  {
    hide Wrap64;
    var d := nowSeconds - presented;
    if d < TWO63 {
      WrapWithin(d);
      if d < 0 { WrapWithin(-d); }
    } else {
      WrapAbove(d);
      if d > TWO63 { WrapWithin(2 * TWO63 - d); } else { WrapAbove(TWO63); }
    }
  }

  lemma WrapWithin(x: int)
    requires -TWO63 <= x < TWO63
    ensures Wrap64(x) == x
  {
  }

  lemma WrapAbove(x: int)
    requires TWO63 <= x < 3 * TWO63
    ensures Wrap64(x) == x - 2 * TWO63
  {
  }

  /** The arithmetic does wrap: in a build without overflow checks a timestamp exactly 2^63 seconds back passes
      at every instant. */
  lemma {:induction false} WrappedTimestampPasses(nowSeconds: int, maxAgeSeconds: int)
    requires 0 <= nowSeconds < TWO63 && 1 <= maxAgeSeconds < TWO63
    ensures TimestampPasses(nowSeconds, nowSeconds - TWO63, maxAgeSeconds)
    ensures nowSeconds - (nowSeconds - TWO63) > maxAgeSeconds
  {
    TimestampWindow(nowSeconds, nowSeconds - TWO63, maxAgeSeconds);
  }

  /** The last second of a 64-bit clock at which the timestamp passes. */
  function LastFreshSecond(presented: int, maxAgeSeconds: int): int {
    if presented >= 0 then (if presented + maxAgeSeconds < TWO63 then presented + maxAgeSeconds else TWO63 - 1)
    else if maxAgeSeconds > TWO63 + presented then TWO63 - 1 else presented + TWO63
  }

  lemma {:induction false} LastFresh(presented: int, maxAgeSeconds: int)
    requires -TWO63 <= presented < TWO63 && 1 <= maxAgeSeconds < TWO63
    ensures var last := LastFreshSecond(presented, maxAgeSeconds);
            && 0 <= last < TWO63 && TimestampPasses(last, presented, maxAgeSeconds)
            && forall t :: last < t < TWO63 ==> !TimestampPasses(t, presented, maxAgeSeconds)
  {
    hide TimestampPasses;
    var last := LastFreshSecond(presented, maxAgeSeconds);
    TimestampWindow(last, presented, maxAgeSeconds);
    forall t | last < t < TWO63 ensures !TimestampPasses(t, presented, maxAgeSeconds) {
      TimestampWindow(t, presented, maxAgeSeconds);
    }
  }

  /** A request's way through the middleware: its timestamp checked at one instant, the guard asked later. */
  datatype Passage = Passage(checked: int, asked: int)

  ghost predicate PassesTimestamp(p: Passage, presented: int, maxAgeSeconds: int) {
    && 0 <= p.checked <= p.asked && p.checked / NANOS < TWO63
    && TimestampPasses(p.checked / NANOS, presented, maxAgeSeconds)
  }

  /** The guard, built with the same setting, accepts the signature asked about first and then again. */
  ghost predicate GuardAcceptsBoth<Id>(start: int, id: Id, first: Passage, second: Passage, maxAgeSeconds: int) {
    var cs := [Call(id, first.asked), Call(id, second.asked)];
    first.asked <= second.asked &&
    Accepted(Window(maxAgeSeconds), start, cs, 0) && Accepted(Window(maxAgeSeconds), start, cs, 1)
  }

  lemma {:induction false} TwoCalls<Id>(start: int, id: Id, first: Passage, second: Passage, maxAgeSeconds: int)
    requires start <= first.asked
    ensures GuardAcceptsBoth(start, id, first, second, maxAgeSeconds) <==>
              second.asked - first.asked >= Window(maxAgeSeconds)
  {
    var w, cs := Window(maxAgeSeconds), [Call(id, first.asked), Call(id, second.asked)];
    assert w > 0;
    hide Accepted, Window;
    if first.asked <= second.asked {
      assert InOrder(start, cs);
      AcceptedIff(w, start, cs, 0);
      AcceptedIff(w, start, cs, 1);
    }
  }

  lemma FreshUntil(t: int, seconds: int)
    ensures t / NANOS <= seconds <==> t < (seconds + 1) * NANOS
  {
  }

  /** When the same signed request can get through both checks a second time, `slack` being how long a
      request may take from one to the other: exactly when the guard's window ends before the timestamp
      does, plus that time. For every setting, every timestamp and every first passage. */
  lemma {:induction false} SecondPassage<Id>(start: int, id: Id, first: Passage, presented: int, maxAgeSeconds: int, slack: nat)
    requires -TWO63 <= presented < TWO63 && 1 <= maxAgeSeconds < TWO63
    requires start <= first.asked && PassesTimestamp(first, presented, maxAgeSeconds)
    ensures (exists p :: PassesTimestamp(p, presented, maxAgeSeconds) && p.asked - p.checked <= slack &&
                         GuardAcceptsBoth(start, id, first, p, maxAgeSeconds))
            <==> first.asked + Window(maxAgeSeconds) < (LastFreshSecond(presented, maxAgeSeconds) + 1) * NANOS + slack
  {
    var last := LastFreshSecond(presented, maxAgeSeconds);
    LastFresh(presented, maxAgeSeconds);
    hide LastFreshSecond, TimestampPasses, Window, GuardAcceptsBoth;
    var end := (last + 1) * NANOS;
    if first.asked + Window(maxAgeSeconds) < end + slack {
      var p := Passage(end - 1, end - 1 + slack);
      LastInstant(last);
      TwoCalls(start, id, first, p, maxAgeSeconds);
      assert PassesTimestamp(p, presented, maxAgeSeconds) && GuardAcceptsBoth(start, id, first, p, maxAgeSeconds);
    }
    forall p | PassesTimestamp(p, presented, maxAgeSeconds) && GuardAcceptsBoth(start, id, first, p, maxAgeSeconds)
      ensures first.asked + Window(maxAgeSeconds) < end + (p.asked - p.checked)
    {
      FreshUntil(p.checked, last);
      TwoCalls(start, id, first, p, maxAgeSeconds);
    }
  }

  lemma LastInstant(seconds: int)
    requires seconds >= 0
    ensures 0 <= (seconds + 1) * NANOS - 1 && ((seconds + 1) * NANOS - 1) / NANOS == seconds
  {
  }

  /** The safe half over whole runs, whatever other signatures the guard sees: past that instant no later
      call with the signature is both fresh and accepted. */
  lemma {:induction false} NoReplayInAnyRun<Id>(start: int, cs: seq<Call<Id>>, i: nat, j: nat, checked: int,
                                                presented: int, maxAgeSeconds: int)
    requires InOrder(start, cs) && i < j < |cs| && cs[i].id == cs[j].id
    requires -TWO63 <= presented < TWO63 && 1 <= maxAgeSeconds < TWO63
    requires Accepted(Window(maxAgeSeconds), start, cs, i) && Accepted(Window(maxAgeSeconds), start, cs, j)
    requires PassesTimestamp(Passage(checked, cs[j].now), presented, maxAgeSeconds)
    ensures cs[i].now + Window(maxAgeSeconds) <
              (LastFreshSecond(presented, maxAgeSeconds) + 1) * NANOS + (cs[j].now - checked)
  {
    LastFresh(presented, maxAgeSeconds);
    AcceptedIff(Window(maxAgeSeconds), start, cs, j);
    FreshUntil(checked, LastFreshSecond(presented, maxAgeSeconds));
    hide LastFreshSecond, TimestampPasses, Window, Accepted;
  }

  /** Up to the guard's hour, for timestamps within the clock's range and with no time lost between the
      checks: replayable exactly when the first passage was answered no later than the second signed for. */
  lemma {:induction false} ReplayableIffNotYetDue<Id>(start: int, id: Id, first: Passage, presented: int, maxAgeSeconds: int)
    requires 1 <= maxAgeSeconds <= 3600 && 0 <= presented < TWO63 - 3600
    requires start <= first.asked && PassesTimestamp(first, presented, maxAgeSeconds)
    ensures (exists p :: PassesTimestamp(p, presented, maxAgeSeconds) && p.asked - p.checked <= 0 &&
                         GuardAcceptsBoth(start, id, first, p, maxAgeSeconds))
            <==> first.asked / NANOS <= presented
  {
    SecondPassage(start, id, first, presented, maxAgeSeconds, 0);
    FreshUntil(first.asked, presented);
    hide PassesTimestamp, GuardAcceptsBoth;
  }

  /** The default window of 300 seconds and a clock 10 seconds fast: let through at once and again 305
      seconds later, by both checks. */
  lemma {:induction false} SkewedClockReplay<Id>(id: Id)
    ensures var first, second := Passage(1000 * NANOS, 1000 * NANOS), Passage(1305 * NANOS, 1305 * NANOS);
            && PassesTimestamp(first, 1010, 300) && PassesTimestamp(second, 1010, 300)
            && GuardAcceptsBoth(0, id, first, second, 300)
  {
    var first, second := Passage(1000 * NANOS, 1000 * NANOS), Passage(1305 * NANOS, 1305 * NANOS);
    assert Window(300) == 300 * NANOS;
    hide TimestampPasses, GuardAcceptsBoth, Window;
    TimestampWindow(1000, 1010, 300);
    TimestampWindow(1305, 1010, 300);
    WholeSeconds(1000);
    WholeSeconds(1305);
    TwoCalls(0, id, first, second, 300);
  }

  lemma WholeSeconds(seconds: int)
    ensures seconds * NANOS / NANOS == seconds
  {
  }
}
