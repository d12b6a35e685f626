/** The background worker's treatment of one endpoint (src/sync.rs): a full sync every 24 hours, a
    differential one when the endpoint's TTL has passed, nothing when a fetch fails. Times are in
    nanoseconds; `check`, `applied` are readings of the monotonic clock, `wall`, `marked` of the wall clock. */
module SyncWorker {
  import opened Collections
  import opened IpCache

  const SECOND: int := 1_000_000_000
  const FULL_SYNC_INTERVAL: int := 24 * 3600 * 1_000_000_000

  datatype Answer = Fetched(batch: seq<VaultRecord>) | Failed

  /** A fetch as the client sends it: everything, or what has changed since a Unix second. */
  datatype Ask = Everything | Since(second: int)

  /** One visit to the endpoint: the clock readings, the endpoint's TTL, how the Vault would answer whatever
      is asked of it then, and whether the row update that records the sync succeeds. */
  datatype Tick = Tick(check: int, wall: int, applied: int, marked: int, ttl: int, vault: Ask -> Answer, persists: bool)

  /** What one endpoint's sync state consists of: its cache entry and its row's `last_synced_at`. */
  datatype Local = Local(entry: EndpointCache, rowSynced: Option<int>)

  datatype Action = FullSync | DiffSync | NoSync

  predicate FullDue(s: Local, t: Tick) { DueForFull(s.entry, FULL_SYNC_INTERVAL, t.check) }

  predicate DiffDue(s: Local, t: Tick) {
    s.rowSynced.None? || t.wall - s.rowSynced.value >= (if t.ttl < 1 then 1 else t.ttl) * SECOND
  }

  /** The fetch a visit makes, if it makes one: a differential asks for changes since the row's mark, in
      whole seconds. */
  function Sent(s: Local, t: Tick): Option<Ask> {
    if FullDue(s, t) then Some(Everything)
    else if !DiffDue(s, t) then None
    else Some(if s.rowSynced.None? then Everything else Since(s.rowSynced.value / SECOND))
  }

  function Received(s: Local, t: Tick): Answer { if Sent(s, t).None? then Failed else t.vault(Sent(s, t).value) }

  function ActionOf(s: Local, t: Tick): Action {
    if Received(s, t).Failed? then NoSync else if FullDue(s, t) then FullSync else DiffSync
  }

  function After(s: Local, t: Tick, parse: Parser): Local {
    var row := if t.persists then Some(t.marked) else s.rowSynced;
    match ActionOf(s, t)
    case NoSync => s
    case FullSync => Local(AfterFull(s.entry, Received(s, t).batch, t.applied, parse), row)
    case DiffSync => Local(AfterDiff(s.entry, Received(s, t).batch, parse), row)
  }

  /** `sync_endpoint`. `sent` is the fetch it made; a failed fetch, or none, changes nothing. */
  method SyncEndpoint<Id(==)>(cache: Cache<Id>, id: Id, row: Option<int>, t: Tick)
    returns (row': Option<int>, sent: Option<Ask>)
    modifies cache
    ensures EntryOf(cache.entries, id) == After(Local(EntryOf(old(cache.entries), id), row), t, cache.parse).entry
    ensures row' == After(Local(EntryOf(old(cache.entries), id), row), t, cache.parse).rowSynced
    ensures sent == Sent(Local(EntryOf(old(cache.entries), id), row), t)
    ensures cache.entries - {id} == old(cache.entries) - {id}
    ensures sent.None? || t.vault(sent.value).Failed? ==> cache.entries == old(cache.entries) && row' == row
  {
    row' := row;
    var fullDue := cache.FullSyncDue(id, FULL_SYNC_INTERVAL, t.check);
    if fullDue {
      sent := Some(Everything);
      match t.vault(Everything) {
        case Fetched(batch) =>
          cache.ApplyFull(id, batch, t.applied);
          if t.persists { row' := Some(t.marked); }
        case Failed =>
      }
      return;
    }
    var due := match row
      case None => true
      case Some(last) => t.wall - last >= (if t.ttl < 1 then 1 else t.ttl) * SECOND;
    if !due { return row, None; }
    var ask := match row
      case None => Everything
      case Some(last) => Since(last / SECOND);
    sent := Some(ask);
    match t.vault(ask) {
      case Fetched(batch) =>
        cache.ApplyDiff(id, batch);
        if t.persists { row' := Some(t.marked); }
      case Failed =>
    }
  }

  lemma OthersKept<Id>(before: map<Id, EndpointCache>, after: map<Id, EndpointCache>, id: Id, other: Id)
    requires after - {id} == before - {id} && other != id
    ensures EntryOf(after, other) == EntryOf(before, other)
  {
    assert other in after <==> other in after - {id};
    assert other in before <==> other in before - {id};
    if other in after { assert after[other] == (after - {id})[other] == before[other]; }
  }

  /** `sync_all_endpoints`: one pass over the endpoint rows, each visited once with its own tick. Every
      endpoint advances by its own step, whatever happens to the others. */
  method SyncAllEndpoints<Id(==)>(cache: Cache<Id>, ids: seq<Id>, rows: map<Id, Option<int>>, ticks: map<Id, Tick>)
    returns (rows': map<Id, Option<int>>)
    requires forall i, j :: 0 <= i < j < |ids| ==> ids[i] != ids[j]
    requires forall id :: id in ids ==> id in rows && id in ticks
    modifies cache
    ensures rows'.Keys == rows.Keys
    ensures forall id :: id in ids ==>
              Local(EntryOf(cache.entries, id), rows'[id]) ==
              After(Local(EntryOf(old(cache.entries), id), rows[id]), ticks[id], cache.parse)
    ensures forall id :: id in rows && id !in ids ==>
              EntryOf(cache.entries, id) == EntryOf(old(cache.entries), id) && rows'[id] == rows[id]
  {
    rows' := rows;
    ghost var before := cache.entries;
    for i := 0 to |ids|
      invariant rows'.Keys == rows.Keys
      invariant forall j :: 0 <= j < i ==>
                  Local(EntryOf(cache.entries, ids[j]), rows'[ids[j]]) ==
                  After(Local(EntryOf(before, ids[j]), rows[ids[j]]), ticks[ids[j]], cache.parse)
      invariant forall id :: id in rows && id !in ids[..i] ==>
                  EntryOf(cache.entries, id) == EntryOf(before, id) && rows'[id] == rows[id]
    {
      hide After, EntryOf;
      ghost var entries := cache.entries;
      var id := ids[i];
      var row, _ := SyncEndpoint(cache, id, rows'[id], ticks[id]);
      rows' := rows'[id := row];
      forall other | other in rows && other != id ensures EntryOf(cache.entries, other) == EntryOf(entries, other) {
        OthersKept(entries, cache.entries, id, other);
      }
    }
  }

  // ---------------------------------------------------------------- whole runs

  /** The state after the ticks `ts` of a process that started with an empty cache and found `row` as the
      endpoint's persisted mark. */
  function Run(row: Option<int>, ts: seq<Tick>, parse: Parser): Local {
    if ts == [] then Local(EMPTY, row) else After(Run(row, ts[..|ts| - 1], parse), ts[|ts| - 1], parse)
  }

  function ActionAt(row: Option<int>, ts: seq<Tick>, i: nat, parse: Parser): Action
    requires i < |ts|
  {
    ActionOf(Run(row, ts[..i], parse), ts[i])
  }

  /** What tick `i` brought, if it synced. */
  function BatchAt(row: Option<int>, ts: seq<Tick>, i: nat, parse: Parser): seq<VaultRecord>
    requires i < |ts| && ActionAt(row, ts, i, parse) != NoSync
  {
    Received(Run(row, ts[..i], parse), ts[i]).batch
  }

  /** One past the latest full sync of the run, zero if there was none. */
  function FullsUpTo(row: Option<int>, ts: seq<Tick>, parse: Parser): (k: nat)
    ensures k <= |ts|
  {
    if ts == [] then 0
    else if ActionAt(row, ts, |ts| - 1, parse) == FullSync then |ts|
    else FullsUpTo(row, ts[..|ts| - 1], parse)
  }

  /** One past the latest sync of either kind, zero if there was none. */
  function SyncsUpTo(row: Option<int>, ts: seq<Tick>, parse: Parser): (k: nat)
    ensures k <= |ts|
  {
    if ts == [] then 0
    else if ActionAt(row, ts, |ts| - 1, parse) != NoSync then |ts|
    else SyncsUpTo(row, ts[..|ts| - 1], parse)
  }

  lemma PrefixAction(row: Option<int>, ts: seq<Tick>, n: nat, i: nat, parse: Parser)
    requires i < n <= |ts|
    ensures ActionAt(row, ts[..n], i, parse) == ActionAt(row, ts, i, parse) && ts[..n][i] == ts[i]
    ensures ActionAt(row, ts, i, parse) != NoSync ==> BatchAt(row, ts[..n], i, parse) == BatchAt(row, ts, i, parse)
  {
    assert ts[..n][..i] == ts[..i];
  }

  /** The full-sync clock is the instant the latest full batch was applied, and nothing is cached or
      differentially synced before the first one, whatever mark was persisted. */
  lemma {:induction false} ClockIsLatestFull(row: Option<int>, ts: seq<Tick>, parse: Parser)
    ensures var k, e := FullsUpTo(row, ts, parse), Run(row, ts, parse).entry;
            if k == 0 then e.lastFull == None && e.records == map[] && SyncsUpTo(row, ts, parse) == 0
            else ActionAt(row, ts, k - 1, parse) == FullSync && e.lastFull == Some(ts[k - 1].applied) &&
                 k <= SyncsUpTo(row, ts, parse)
  {
    if ts != [] {
      var front, k := ts[..|ts| - 1], FullsUpTo(row, ts, parse);
      ClockIsLatestFull(row, front, parse);
      if 0 < k < |ts| { PrefixAction(row, ts, |ts| - 1, k - 1, parse); }
    }
  }

  /** The mark of the latest sync whose row update succeeded; before the first, the one found at the start. */
  function LastMark(row: Option<int>, ts: seq<Tick>, parse: Parser): Option<int> {
    if ts == [] then row
    else if ActionAt(row, ts, |ts| - 1, parse) != NoSync && ts[|ts| - 1].persists then Some(ts[|ts| - 1].marked)
    else LastMark(row, ts[..|ts| - 1], parse)
  }

  lemma {:induction false} RowIsLastMark(row: Option<int>, ts: seq<Tick>, parse: Parser)
    ensures Run(row, ts, parse).rowSynced == LastMark(row, ts, parse)
  {
    if ts != [] {
      RowIsLastMark(row, ts[..|ts| - 1], parse);
      hide AfterFull, AfterDiff, Sent;
    }
  }

  /** No full batch was ever applied, or the latest was a day or more before this visit's check. */
  ghost predicate DayPassed(row: Option<int>, ts: seq<Tick>, t: Tick, parse: Parser) {
    var k := FullsUpTo(row, ts, parse);
    k == 0 || t.check - ts[k - 1].applied >= 86_400_000_000_000
  }

  /** The endpoint's TTL, or a second if that is longer, has passed since its mark; or it has none. */
  ghost predicate TtlPassed(row: Option<int>, ts: seq<Tick>, t: Tick, parse: Parser) {
    var mark := LastMark(row, ts, parse);
    mark == None || (t.wall - mark.value >= 1_000_000_000 && t.wall - mark.value >= t.ttl * 1_000_000_000)
  }

  /** What a visit after the ticks `ts` asks the Vault for: everything once a day has passed since the latest
      full batch, and otherwise, once the TTL has passed since the latest mark, what changed since the second
      of that mark; and nothing before. */
  lemma {:induction false} AsksWhenDue(row: Option<int>, ts: seq<Tick>, t: Tick, parse: Parser)
    ensures var ask, mark := Sent(Run(row, ts, parse), t), LastMark(row, ts, parse);
            && (ask.Some? <==> DayPassed(row, ts, t, parse) || TtlPassed(row, ts, t, parse))
            && (ask.Some? ==> (ask.value == Everything <==> DayPassed(row, ts, t, parse) || mark == None))
            && (ask.Some? && ask.value.Since? ==>
                  mark.Some? && 0 <= mark.value - ask.value.second * 1_000_000_000 < 1_000_000_000)
  {
    ClockIsLatestFull(row, ts, parse);
    RowIsLastMark(row, ts, parse);
    hide Run, FullsUpTo, LastMark, SyncsUpTo, ActionAt;
  }

  /** And what comes of it: the answer to that ask, applied whole after a day, merged otherwise. */
  lemma {:induction false} SyncsWhenAnswered(row: Option<int>, ts: seq<Tick>, t: Tick, parse: Parser)
    ensures var ask, action := Sent(Run(row, ts, parse), t), ActionOf(Run(row, ts, parse), t);
            && (action == NoSync <==> ask == None || t.vault(ask.value).Failed?)
            && (action == FullSync ==> DayPassed(row, ts, t, parse)) && (action == DiffSync ==> !DayPassed(row, ts, t, parse))
            && (action != NoSync ==> Received(Run(row, ts, parse), t) == t.vault(ask.value))
  {
    ClockIsLatestFull(row, ts, parse);
    hide Run, FullsUpTo, SyncsUpTo, ActionAt;
  }

  predicate InOrder(ts: seq<Tick>) {
    && (forall i :: 0 <= i < |ts| ==> ts[i].check <= ts[i].applied)
    && (forall i, j :: 0 <= i < j < |ts| ==> ts[i].applied <= ts[j].check)
  }

  lemma {:induction false} NoLaterFull(row: Option<int>, ts: seq<Tick>, i: nat, parse: Parser)
    requires i < |ts| && ActionAt(row, ts, i, parse) == FullSync
    ensures i < FullsUpTo(row, ts, parse)
    decreases |ts|
  {
    if i < |ts| - 1 {
      PrefixAction(row, ts, |ts| - 1, i, parse);
      NoLaterFull(row, ts[..|ts| - 1], i, parse);
    }
  }

  /** Any two full syncs of a run are at least 24 hours apart, from application to the next check. */
  lemma {:induction false} FullSyncsApart(row: Option<int>, ts: seq<Tick>, i: nat, j: nat, parse: Parser)
    requires InOrder(ts) && i < j < |ts|
    requires ActionAt(row, ts, i, parse) == FullSync && ActionAt(row, ts, j, parse) == FullSync
    ensures ts[j].check - ts[i].applied >= FULL_SYNC_INTERVAL
  {
    var front := ts[..j];
    PrefixAction(row, ts, j, i, parse);
    NoLaterFull(row, front, i, parse);
    ClockIsLatestFull(row, front, parse);
    hide FullsUpTo, SyncsUpTo, Run;
    var k := FullsUpTo(row, front, parse) - 1;
    assert front[k] == ts[k] && ts[i].applied <= ts[k].applied;
  }

  /** Tick `i` succeeded and its batch listed `a`, live, with this observation time. */
  ghost predicate CarriedBy(row: Option<int>, ts: seq<Tick>, i: nat, a: string, seen: int, parse: Parser)
    requires i < |ts|
  {
    ActionAt(row, ts, i, parse) != NoSync && VaultRecord(a, seen, false) in BatchAt(row, ts, i, parse)
  }

  lemma {:induction false} FullRecordListed(batch: seq<VaultRecord>, a: string, parse: Parser)
    requires a in FullRecords(batch, parse)
    ensures VaultRecord(a, FullRecords(batch, parse)[a].lastSeen, false) in batch
  {
    var front, r := batch[..|batch| - 1], batch[|batch| - 1];
    if !(Stored(r, parse) && r.address == a) { FullRecordListed(front, a, parse); }
  }

  lemma {:induction false} DiffRecordListed(m: map<string, CachedRecord>, batch: seq<VaultRecord>, a: string, parse: Parser)
    requires a in DiffRecords(m, batch, parse)
    ensures VaultRecord(a, DiffRecords(m, batch, parse)[a].lastSeen, false) in batch ||
            (a in m && m[a].lastSeen == DiffRecords(m, batch, parse)[a].lastSeen)
  {
    if batch != [] {
      var front, r := batch[..|batch| - 1], batch[|batch| - 1];
      if !(Stored(r, parse) && r.address == a) { DiffRecordListed(m, front, a, parse); }
    }
  }

  /** Tick `i` carried `a` and is none earlier than the latest full sync. */
  ghost predicate Carrier(row: Option<int>, ts: seq<Tick>, i: nat, a: string, parse: Parser) {
    && a in Run(row, ts, parse).entry.records && 1 <= FullsUpTo(row, ts, parse) <= i + 1 <= |ts|
    && CarriedBy(row, ts, i, a, Run(row, ts, parse).entry.records[a].lastSeen, parse)
  }

  /** Every cached record was carried by the latest full batch or by a differential batch after it. */
  lemma {:induction false} Provenance(row: Option<int>, ts: seq<Tick>, a: string, parse: Parser)
    requires a in Run(row, ts, parse).entry.records
    ensures exists i: nat :: Carrier(row, ts, i, a, parse)
    decreases |ts|, 1
  {
    ClockIsLatestFull(row, ts, parse);
    var n := |ts| - 1;
    var t, s := ts[n], Run(row, ts[..n], parse);
    var batch := Received(s, t);
    match ActionOf(s, t) {
      case FullSync =>
        FullRecordListed(batch.batch, a, parse);
        assert Carrier(row, ts, n, a, parse);
      case DiffSync =>
        DiffRecordListed(s.entry.records, batch.batch, a, parse);
        if VaultRecord(a, Run(row, ts, parse).entry.records[a].lastSeen, false) in batch.batch {
          assert Carrier(row, ts, n, a, parse);
        } else {
          StillCarried(row, ts, a, parse);
        }
      case NoSync =>
        StillCarried(row, ts, a, parse);
    }
  }

  lemma {:induction false} StillCarried(row: Option<int>, ts: seq<Tick>, a: string, parse: Parser)
    requires ts != [] && a in Run(row, ts[..|ts| - 1], parse).entry.records && a in Run(row, ts, parse).entry.records
    requires ActionAt(row, ts, |ts| - 1, parse) != FullSync
    requires Run(row, ts, parse).entry.records[a].lastSeen == Run(row, ts[..|ts| - 1], parse).entry.records[a].lastSeen
    ensures exists i: nat :: Carrier(row, ts, i, a, parse)
    decreases |ts|, 0
  {
    var n := |ts| - 1;
    Provenance(row, ts[..n], a, parse);
    var i: nat :| Carrier(row, ts[..n], i, a, parse);
    PrefixAction(row, ts, n, i, parse);
    assert FullsUpTo(row, ts, parse) == FullsUpTo(row, ts[..n], parse);
    hide Run, FullsUpTo, ActionAt, BatchAt;
    assert Carrier(row, ts, i, a, parse);
  }

  /** Staleness bound: with visits starting at most `g` apart, as long as the last due full fetch succeeded,
      every cached record was in an answer applied less than 24 hours + g ago. */
  lemma {:induction false} StalenessBound(row: Option<int>, ts: seq<Tick>, a: string, now: int, g: nat, parse: Parser)
    requires InOrder(ts) && a in Run(row, ts, parse).entry.records
    requires ts != [] ==> now <= ts[|ts| - 1].check + g
    requires ts != [] && FullDue(Run(row, ts[..|ts| - 1], parse), ts[|ts| - 1]) ==> ts[|ts| - 1].vault(Everything).Fetched?
    ensures exists i: nat :: Carrier(row, ts, i, a, parse) && now - ts[i].applied < FULL_SYNC_INTERVAL + g
  {
    Provenance(row, ts, a, parse);
    var i: nat :| Carrier(row, ts, i, a, parse);
    var n, k := |ts| - 1, FullsUpTo(row, ts, parse) - 1;
    LatestFullRecent(row, ts, parse);
    hide Run, FullsUpTo, CarriedBy, FullDue;
    assert ts[n].check <= ts[n].applied && ts[k].applied <= ts[i].applied;
  }

  /** If the last due full fetch succeeded, the latest full sync was applied less than 24 hours before the
      last visit. */
  lemma {:induction false} LatestFullRecent(row: Option<int>, ts: seq<Tick>, parse: Parser)
    requires ts != [] && FullsUpTo(row, ts, parse) >= 1
    requires FullDue(Run(row, ts[..|ts| - 1], parse), ts[|ts| - 1]) ==> ts[|ts| - 1].vault(Everything).Fetched?
    ensures var n, k := |ts| - 1, FullsUpTo(row, ts, parse) - 1;
            k == n || ts[n].check - ts[k].applied < FULL_SYNC_INTERVAL
  {
    ClockIsLatestFull(row, ts[..|ts| - 1], parse);
  }

  /** Along a run the cache stays coherent and its cursor never goes back. */
  lemma {:induction false} RunCoherent(row: Option<int>, ts: seq<Tick>, n: nat, parse: Parser)
    requires n <= |ts|
    ensures Coherent(Run(row, ts, parse).entry, parse)
    ensures CursorAdvances(Run(row, ts[..n], parse).entry.lastSynced, Run(row, ts, parse).entry.lastSynced)
    decreases |ts|
  {
    if ts != [] {
      var front, t := ts[..|ts| - 1], ts[|ts| - 1];
      var s := Run(row, front, parse);
      RunCoherent(row, front, if n < |ts| then n else 0, parse);
      if ActionOf(s, t) != NoSync { UpdatesCoherent(s.entry, Received(s, t).batch, t.applied, parse); }
      if n < |ts| { assert front[..n] == ts[..n]; } else { assert ts[..n] == ts; }
    }
  }

  // ---------------------------------------------------------------- the worker mirrors the Vault

  /** `vs[i]` is the Vault state tick `i` was answered from. Every full batch lists it; every differential
      batch is true of it and mentions what changed since the state of the sync before. */
  ghost predicate Sound(row: Option<int>, ts: seq<Tick>, vs: seq<Vault>, parse: Parser) {
    |vs| == |ts| && forall i :: 0 <= i < |ts| ==> SoundAt(row, ts, vs, i, parse)
  }

  ghost predicate SoundAt(row: Option<int>, ts: seq<Tick>, vs: seq<Vault>, i: nat, parse: Parser)
    requires i < |ts| == |vs|
  {
    match ActionAt(row, ts, i, parse)
    case NoSync => true
    case FullSync => Listing(BatchAt(row, ts, i, parse), vs[i])
    case DiffSync =>
      var k := SyncsUpTo(row, ts[..i], parse);
      && Truthful(BatchAt(row, ts, i, parse), vs[i])
      && (k >= 1 ==> forall a :: Changed(vs[k - 1], vs[i], parse, a) ==> Mentions(BatchAt(row, ts, i, parse), a))
  }

  lemma {:induction false} SoundPrefix(row: Option<int>, ts: seq<Tick>, vs: seq<Vault>, n: nat, i: nat, parse: Parser)
    requires i < n <= |ts| == |vs| && SoundAt(row, ts, vs, i, parse)
    ensures SoundAt(row, ts[..n], vs[..n], i, parse)
  {
    PrefixAction(row, ts, n, i, parse);
    assert ts[..n][..i] == ts[..i];
    hide Run, ActionAt, BatchAt, Listing, Truthful, Changed, Mentions;
  }

  /** Over whole runs of the worker, restarts included: once a full sync has succeeded the cache holds
      exactly what it should for the Vault state of the latest sync. */
  lemma {:induction false} RunMirrors(row: Option<int>, ts: seq<Tick>, vs: seq<Vault>, parse: Parser)
    requires Sound(row, ts, vs, parse) && FullsUpTo(row, ts, parse) >= 1
    ensures var k := SyncsUpTo(row, ts, parse);
            k >= 1 && Run(row, ts, parse).entry.records == Mirror(vs[k - 1], parse)
    decreases |ts|
  {
    var n := |ts| - 1;
    var front := ts[..n];
    ClockIsLatestFull(row, ts, parse);
    assert SoundAt(row, ts, vs, n, parse);
    forall i | 0 <= i < n ensures SoundAt(row, front, vs[..n], i, parse) { SoundPrefix(row, ts, vs, n, i, parse); }
    match ActionAt(row, ts, n, parse) {
      case FullSync => FullMirrors(BatchAt(row, ts, n, parse), vs[n], parse);
      case NoSync => RunMirrors(row, front, vs[..n], parse);
      case DiffSync =>
        RunMirrors(row, front, vs[..n], parse);
        DiffStepMirrors(row, ts, vs, parse);
    }
  }

  lemma {:induction false} DiffStepMirrors(row: Option<int>, ts: seq<Tick>, vs: seq<Vault>, parse: Parser)
    requires ts != [] && |vs| == |ts| && ActionAt(row, ts, |ts| - 1, parse) == DiffSync
    requires SoundAt(row, ts, vs, |ts| - 1, parse)
    requires var k := SyncsUpTo(row, ts[..|ts| - 1], parse);
             k >= 1 && Run(row, ts[..|ts| - 1], parse).entry.records == Mirror(vs[k - 1], parse)
    ensures Run(row, ts, parse).entry.records == Mirror(vs[|ts| - 1], parse)
  {
    var n := |ts| - 1;
    var k := SyncsUpTo(row, ts[..n], parse);
    DiffMirrors(vs[k - 1], vs[n], BatchAt(row, ts, n, parse), parse);
    hide Mirror, Changed, Mentions, DiffRecords;
  }
}
