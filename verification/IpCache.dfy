/** The per-endpoint in-memory record cache (src/cache.rs). */
module IpCache {
  import opened Cidr
  import opened Collections

  datatype VaultRecord = VaultRecord(address: string, lastSeen: int, isDeleted: bool)

  datatype CachedRecord = CachedRecord(network: IpNet, lastSeen: int)

  datatype EndpointCache = EndpointCache(records: map<string, CachedRecord>, lastSynced: Option<int>, lastFull: Option<int>)

  /** `parse_target_address`: a network or a bare address, or nothing. */
  type Parser = string -> Option<IpNet>

  const EMPTY: EndpointCache := EndpointCache(map[], None, None)

  function EntryOf<Id>(entries: map<Id, EndpointCache>, id: Id): EndpointCache {
    if id in entries then entries[id] else EMPTY
  }

  // ---------------------------------------------------------------- what a batch does

  function MaxSeen(c: Option<int>, seen: int): Option<int> {
    match c
    case None => Some(seen)
    case Some(m) => Some(if m < seen then seen else m)
  }

  /** Whether a full pass stores `r`. */
  predicate Stored(r: VaultRecord, parse: Parser) { !r.isDeleted && parse(r.address).Some? }

  function FullRecords(batch: seq<VaultRecord>, parse: Parser): map<string, CachedRecord> {
    if batch == [] then map[] else
      var m, r := FullRecords(batch[..|batch| - 1], parse), batch[|batch| - 1];
      if Stored(r, parse) then m[r.address := CachedRecord(parse(r.address).value, r.lastSeen)] else m
  }

  function FullCursor(c: Option<int>, batch: seq<VaultRecord>, parse: Parser): Option<int> {
    if batch == [] then c else
      var d, r := FullCursor(c, batch[..|batch| - 1], parse), batch[|batch| - 1];
      if Stored(r, parse) then MaxSeen(d, r.lastSeen) else d
  }

  function DiffRecords(m: map<string, CachedRecord>, batch: seq<VaultRecord>, parse: Parser): map<string, CachedRecord> {
    if batch == [] then m else
      var m', r := DiffRecords(m, batch[..|batch| - 1], parse), batch[|batch| - 1];
      if r.isDeleted then m' - {r.address}
      else if parse(r.address).Some? then m'[r.address := CachedRecord(parse(r.address).value, r.lastSeen)]
      else m'
  }

  /** Unlike a full pass, a differential one moves the cursor for tombstones and unparseable addresses too. */
  function DiffCursor(c: Option<int>, batch: seq<VaultRecord>): Option<int> {
    if batch == [] then c else MaxSeen(DiffCursor(c, batch[..|batch| - 1]), batch[|batch| - 1].lastSeen)
  }

  function AfterFull(e: EndpointCache, batch: seq<VaultRecord>, now: int, parse: Parser): EndpointCache {
    EndpointCache(FullRecords(batch, parse), FullCursor(e.lastSynced, batch, parse), Some(now))
  }

  function AfterDiff(e: EndpointCache, batch: seq<VaultRecord>, parse: Parser): EndpointCache {
    EndpointCache(DiffRecords(e.records, batch, parse), DiffCursor(e.lastSynced, batch), e.lastFull)
  }

  function DueForFull(e: EndpointCache, interval: int, now: int): bool {
    e.lastFull.None? || now - e.lastFull.value >= interval
  }

  /** The records a retention window keeps; a window of zero or less keeps all. Instants are unbounded here:
      a window that leaves the calendar of the date library is not modelled. */
  predicate InWindow(r: CachedRecord, maxAge: int, now: int) { maxAge <= 0 || r.lastSeen >= now - maxAge }

  /** `nets` are the networks of the records whose age is at most the window, in whatever order; of all records
      if the window is zero or less. */
  ghost predicate SnapshotOf(records: map<string, CachedRecord>, maxAge: int, now: int, nets: seq<IpNet>) {
    forall n :: n in nets <==>
      exists a :: a in records && records[a].network == n && (maxAge > 0 ==> now - records[a].lastSeen <= maxAge)
  }

  // ---------------------------------------------------------------- the cache object

  class Cache<Id(==)> {
    var entries: map<Id, EndpointCache>
    const parse: Parser

    constructor (parse: Parser)
      ensures entries == map[] && this.parse == parse
    {
      entries := map[];
      this.parse := parse;
    }

    method ApplyFull(id: Id, batch: seq<VaultRecord>, now: int)
      modifies this
      ensures entries == old(entries)[id := AfterFull(EntryOf(old(entries), id), batch, now, parse)]
    {
      var entry := EntryOf(entries, id);
      var records: map<string, CachedRecord> := map[];
      var maxSeen := entry.lastSynced;
      for i := 0 to |batch|
        invariant records == FullRecords(batch[..i], parse)
        invariant maxSeen == FullCursor(entry.lastSynced, batch[..i], parse)
        invariant entries == old(entries)
      {
        assert batch[..i + 1][..i] == batch[..i];
        var r := batch[i];
        if r.isDeleted { continue; }
        var network := parse(r.address);
        if network.None? { continue; }
        maxSeen := MaxSeen(maxSeen, r.lastSeen);
        records := records[r.address := CachedRecord(network.value, r.lastSeen)];
      }
      assert batch[..|batch|] == batch;
      entries := entries[id := EndpointCache(records, maxSeen, Some(now))];
    }

    method ApplyDiff(id: Id, batch: seq<VaultRecord>)
      modifies this
      ensures entries == old(entries)[id := AfterDiff(EntryOf(old(entries), id), batch, parse)]
    {
      var entry := EntryOf(entries, id);
      var records := entry.records;
      var maxSeen := entry.lastSynced;
      for i := 0 to |batch|
        invariant records == DiffRecords(entry.records, batch[..i], parse)
        invariant maxSeen == DiffCursor(entry.lastSynced, batch[..i])
        invariant entries == old(entries)
      {
        assert batch[..i + 1][..i] == batch[..i];
        var r := batch[i];
        maxSeen := MaxSeen(maxSeen, r.lastSeen);
        if r.isDeleted {
          records := records - {r.address};
          continue;
        }
        var network := parse(r.address);
        if network.None? { continue; }
        records := records[r.address := CachedRecord(network.value, r.lastSeen)];
      }
      assert batch[..|batch|] == batch;
      entries := entries[id := EndpointCache(records, maxSeen, entry.lastFull)];
    }

    /** The networks of one endpoint inside its retention window, in whatever order the map yields. */
    method SnapshotWithin(id: Id, maxAge: int, now: int) returns (nets: seq<IpNet>)
      ensures id !in entries ==> nets == []
      ensures SnapshotOf(EntryOf(entries, id).records, maxAge, now, nets)
    {
      nets := [];
      if id !in entries { return; }
      var records := entries[id].records;
      assert EntryOf(entries, id) == entries[id];
      var keys := records.Keys;
      while keys != {}
        invariant keys <= records.Keys
        invariant forall n :: n in nets <==>
                    exists a :: a in records && a !in keys && records[a].network == n && InWindow(records[a], maxAge, now)
        decreases |keys|
      {
        ghost var before := nets;
        ghost var pending := keys;
        var k :| k in keys;
        keys := keys - {k};
        if InWindow(records[k], maxAge, now) {
          nets := nets + [records[k].network];
        }
        forall n ensures n in nets <==>
          exists a :: a in records && a !in keys && records[a].network == n && InWindow(records[a], maxAge, now)
        {
          assert forall a :: a in records ==> (a !in keys <==> a !in pending || a == k);
        }
      }
    }

    method FullSyncDue(id: Id, interval: int, now: int) returns (due: bool)
      ensures due == DueForFull(EntryOf(entries, id), interval, now)
    {
      due := if id in entries && entries[id].lastFull.Some? then now - entries[id].lastFull.value >= interval else true;
    }

    method Evict(id: Id)
      modifies this
      ensures entries == old(entries) - {id}
      ensures EntryOf(entries, id) == EMPTY
    {
      entries := entries - {id};
    }
  }

  // ---------------------------------------------------------------- invariants of every update

  ghost predicate CursorCovers(c: Option<int>, seen: int) { c.Some? && seen <= c.value }

  /** Each cached network is the parse of its key, and the cursor has reached every cached record. */
  ghost predicate Coherent(e: EndpointCache, parse: Parser) {
    forall a :: a in e.records ==>
      parse(a) == Some(e.records[a].network) && CursorCovers(e.lastSynced, e.records[a].lastSeen)
  }

  ghost predicate CursorAdvances(c: Option<int>, d: Option<int>) { c.Some? ==> CursorCovers(d, c.value) }

  lemma {:induction false} FullCoherent(c: Option<int>, batch: seq<VaultRecord>, parse: Parser)
    ensures CursorAdvances(c, FullCursor(c, batch, parse))
    ensures Coherent(EndpointCache(FullRecords(batch, parse), FullCursor(c, batch, parse), None), parse)
  {
    if batch != [] { FullCoherent(c, batch[..|batch| - 1], parse); }
  }

  lemma {:induction false} DiffCoherent(e: EndpointCache, batch: seq<VaultRecord>, parse: Parser)
    requires Coherent(e, parse)
    ensures CursorAdvances(e.lastSynced, DiffCursor(e.lastSynced, batch))
    ensures Coherent(AfterDiff(e, batch, parse), parse)
  {
    if batch != [] { DiffCoherent(e, batch[..|batch| - 1], parse); }
  }

  /** Both updates keep the cache coherent and never move the cursor back. */
  lemma UpdatesCoherent(e: EndpointCache, batch: seq<VaultRecord>, now: int, parse: Parser)
    requires Coherent(e, parse)
    ensures Coherent(AfterFull(e, batch, now, parse), parse) && Coherent(AfterDiff(e, batch, parse), parse)
    ensures CursorAdvances(e.lastSynced, AfterFull(e, batch, now, parse).lastSynced)
    ensures CursorAdvances(e.lastSynced, AfterDiff(e, batch, parse).lastSynced)
  {
    FullCoherent(e.lastSynced, batch, parse);
    DiffCoherent(e, batch, parse);
  }

  // ---------------------------------------------------------------- incremental equals recompute

  /** The live records of a Vault: last observation by address. */
  type Vault = map<string, int>

  /** Nothing in the batch contradicts the Vault's present state. */
  ghost predicate Truthful(batch: seq<VaultRecord>, v: Vault) {
    forall r :: r in batch ==> if r.isDeleted then r.address !in v else r.address in v && v[r.address] == r.lastSeen
  }

  ghost predicate Mentions(batch: seq<VaultRecord>, a: string) { exists r :: r in batch && r.address == a }

  /** A full listing of the Vault. */
  ghost predicate Listing(batch: seq<VaultRecord>, v: Vault) {
    Truthful(batch, v) && forall a :: a in v ==> Mentions(batch, a)
  }

  /** What the cache should hold for a Vault: its parseable live records. */
  function Mirror(v: Vault, parse: Parser): map<string, CachedRecord> {
    map a | a in v && parse(a).Some? :: CachedRecord(parse(a).value, v[a])
  }

  /** The mirror restricted to what a batch mentions, over an older map elsewhere. */
  ghost predicate Overlay(m: map<string, CachedRecord>, batch: seq<VaultRecord>, v: Vault, parse: Parser,
                          r: map<string, CachedRecord>) {
    forall a ::
      if Mentions(batch, a) && (a !in v || parse(a).Some?)
      then (a in r <==> a in v) && (a in r ==> r[a] == CachedRecord(parse(a).value, v[a]))
      else (a in r <==> a in m) && (a in r ==> r[a] == m[a])
  }

  lemma MentionsLast(batch: seq<VaultRecord>, a: string)
    requires batch != []
    ensures Mentions(batch, a) <==> Mentions(batch[..|batch| - 1], a) || batch[|batch| - 1].address == a
  {
    assert batch == batch[..|batch| - 1] + [batch[|batch| - 1]];
  }

  /** A truthful differential batch corrects exactly the addresses it mentions. */
  lemma {:induction false} DiffOverlays(m: map<string, CachedRecord>, batch: seq<VaultRecord>, v: Vault, parse: Parser)
    requires Truthful(batch, v)
    ensures Overlay(m, batch, v, parse, DiffRecords(m, batch, parse))
  {
    if batch != [] {
      var front, r := batch[..|batch| - 1], batch[|batch| - 1];
      assert r in batch;
      DiffOverlays(m, front, v, parse);
      forall a ensures Mentions(batch, a) <==> Mentions(front, a) || r.address == a { MentionsLast(batch, a); }
    }
  }

  lemma {:induction false} FullOverlays(batch: seq<VaultRecord>, v: Vault, parse: Parser)
    requires Truthful(batch, v)
    ensures Overlay(map[], batch, v, parse, FullRecords(batch, parse))
  {
    if batch != [] {
      var front, r := batch[..|batch| - 1], batch[|batch| - 1];
      assert r in batch;
      FullOverlays(front, v, parse);
      forall a ensures Mentions(batch, a) <==> Mentions(front, a) || r.address == a { MentionsLast(batch, a); }
    }
  }

  /** A full pass over a listing, in any record order, leaves the mirror. */
  lemma {:induction false} FullMirrors(batch: seq<VaultRecord>, v: Vault, parse: Parser)
    requires Listing(batch, v)
    ensures FullRecords(batch, parse) == Mirror(v, parse)
  {
    FullOverlays(batch, v, parse);
  }

  /** `a` looks different to the exporter in the two Vault states. */
  ghost predicate Changed(v: Vault, v': Vault, parse: Parser, a: string) {
    (a in Mirror(v, parse) <==> a !in Mirror(v', parse)) ||
    (a in Mirror(v, parse) && a in Mirror(v', parse) && Mirror(v, parse)[a] != Mirror(v', parse)[a])
  }

  /** From the mirror of the old state, a truthful differential batch reaches the mirror of the new one
      exactly when it mentions every address that changed. */
  lemma {:induction false} DiffMirrors(v: Vault, v': Vault, batch: seq<VaultRecord>, parse: Parser)
    requires Truthful(batch, v')
    ensures DiffRecords(Mirror(v, parse), batch, parse) == Mirror(v', parse)
       <==> forall a :: Changed(v, v', parse, a) ==> Mentions(batch, a)
  {
    var m, m' := Mirror(v, parse), Mirror(v', parse);
    var r := DiffRecords(m, batch, parse);
    DiffOverlays(m, batch, v', parse);
    if forall a :: Changed(v, v', parse, a) ==> Mentions(batch, a) {
      forall a ensures (a in r <==> a in m') && (a in r ==> r[a] == m'[a]) {
        assert Changed(v, v', parse, a) ==> Mentions(batch, a);
      }
    }
  }

  /** One differential sync: the batch, and the Vault state it was cut from. */
  datatype Delta = Delta(batch: seq<VaultRecord>, state: Vault)

  /** Every batch is truthful and mentions whatever changed since the state before it. */
  ghost predicate Complete(v: Vault, ds: seq<Delta>, parse: Parser) {
    ds != [] ==>
      var front, d := ds[..|ds| - 1], ds[|ds| - 1];
      && Complete(v, front, parse)
      && Truthful(d.batch, d.state)
      && forall a :: Changed(Latest(v, front), d.state, parse, a) ==> Mentions(d.batch, a)
  }

  function Replay(m: map<string, CachedRecord>, ds: seq<Delta>, parse: Parser): map<string, CachedRecord> {
    if ds == [] then m else DiffRecords(Replay(m, ds[..|ds| - 1], parse), ds[|ds| - 1].batch, parse)
  }

  function Latest(v: Vault, ds: seq<Delta>): Vault { if ds == [] then v else ds[|ds| - 1].state }

  /** Over a whole run: a full sync and then any number of complete differential ones leave what a full
      sync of the latest state would, whatever listing it used. */
  lemma {:induction false} IncrementalIsRecompute(v: Vault, first: seq<VaultRecord>, ds: seq<Delta>,
                                                  last: seq<VaultRecord>, parse: Parser)
    requires Listing(first, v) && Complete(v, ds, parse) && Listing(last, Latest(v, ds))
    ensures Replay(FullRecords(first, parse), ds, parse) == FullRecords(last, parse)
  {
    FullMirrors(first, v, parse);
    FullMirrors(last, Latest(v, ds), parse);
    ReplayMirrors(v, ds, parse);
  }

  lemma {:induction false} ReplayMirrors(v: Vault, ds: seq<Delta>, parse: Parser)
    requires Complete(v, ds, parse)
    ensures Replay(Mirror(v, parse), ds, parse) == Mirror(Latest(v, ds), parse)
  {
    if ds != [] {
      var front, d := ds[..|ds| - 1], ds[|ds| - 1];
      ReplayMirrors(v, front, parse);
      DiffMirrors(Latest(v, front), d.state, d.batch, parse);
    }
  }
}
