# Verification of simply_ip_exporter

`simply_ip_exporter` copies IP records from a Vault service into memory and publishes them, filtered and
aggregated, as plain-text CIDR feeds. This project models its core in Dafny and proves what that core is
for. `dafny verify dfyconfig.toml` checks everything.

The parts, and the question each one answers:

- **Hashing in the dashboard** (`Bits`, `JsNumber`, `Fips180`, `Rfc2104`, `Sha256Js`, `Hex`, `Text`, `Signing`). The
  browser fallback computes SHA-256 with signed and unsigned 32-bit operators on doubles. Is it SHA-256? The
  reference is written from FIPS 180-4 on bit strings, with its constants derived from the roots of the
  primes; HMAC is section 2 of RFC 2104. The result is carried through to the server: it accepts the header
  the dashboard sends.
- **The feed** (`Cidr`, `Aggregate`, `FeedText`, `Feed`, `SpecialRanges`, `ServedFeed`). Is the text a function of the set of
  published addresses alone, and is that set the right one?
- **Synchronisation** (`IpCache`, `SyncWorker`, `SinceCursor`, `CacheLife`, `VaultPaging`, `PageShift`, `QueryString`). Do
  differential syncs leave what a full one would? How stale can a record get, and can an entry outlive its
  endpoint? Do all three ways of paging return the same records, and what if the listing moves meanwhile?
- **Tables bounded in time and space** (`RateLimiter`, `ReplayGuard`, `DnsCache`, `OutboundClock`). Is each
  indistinguishable from its simple unbounded counterpart, and exactly when not?
- **Authority** (`MasterPin`, `Authority`, `Ownership`, `RowHistory`, `ClientAddress`, `SecretStore`). Which key is Master, who
  owns what, what each row holds and what the audit trail proves, with requests racing and breaking off at any point.

`Collections` holds what several of them share.

Objects that the program updates in place are classes whose methods are proved against functions of the old
state; pure code is functions. `DnsCache`, `MasterPin` and `Authority` also appear as machines whose steps
interleave any number of callers; the class methods are the uninterrupted runs of those machines
(`UninterruptedIsRun`, `ForcedIsRun`, `AloneIsRun`).

Several promises turned out to hold only under a condition, and the exact condition is proved, with a
concrete case beside it:

- a differential sync reaches the Vault's state exactly when it mentions every address that changed
  (`IpCache.DiffMirrors`), and against a Vault that answers exactly, exactly when nothing visible falls between
  its previous answer and the cursor (`SinceCursor.DifferentialMissesIff`, `RemovalOverlooked`);
- a signed request passes the timestamp check and the replay guard twice exactly when the guard's window ends
  first (`ReplayGuard.SecondPassage`, `SkewedClockReplay`), and the timestamp check is the symmetric window
  except where 64-bit arithmetic wraps (`TimestampWindow`, `WrappedTimestampPasses`);
- outbound timestamps increase exactly when no stretch of calls is too dense
  (`OutboundClock.IncreasingIffCalm`, `SeventhRepeats`);
- the offset walk and the parallel fetch survive a cap exactly when the cap is no smaller than a page or nothing
  lies beyond it (`VaultPaging.CapHarmlessIff`, `GatherHarmlessIff`, `CappedWalkTruncates`);
- a record that stays listed while the listing moves is returned by the walk exactly when some page is read while
  the record is on it (`PageShift.ReturnedIff`, `UnchangedRecordLost`);
- an endpoint evicted from the cache can come back exactly when the worker's pass had listed it and not yet
  finished with it (`CacheLife.EvictionUndoneIff`, `DeletedWhileFetched`);
- the key that owned an endpoint when its delete was checked owns it when the delete takes effect exactly when
  no hand-over took effect in between or the last one went to that key (`Ownership.OwnsAtWriteIff`,
  `FormerOwnerDeletes`);
- a claim to be Master is upheld exactly when it gets as far as the pinned cell and the cell then holds that key;
  the pinned Master's own claim can fall short of it (`MasterPin.UpheldIff`, `PinnedDemoted`);
- a proxy that adds a forwarding line of its own is not heard: only first lines count
  (`ClientAddress.LaterLinesIgnored`, `TwoAnswers`).

Where the code and its comments differ, the code is modelled. The comment at src/cache.rs:163 calls the
cache's `last_synced_at` the cursor of the next differential sync, but `sync_endpoint` sends the database
row's `last_synced_at` (src/sync.rs:154), in whole seconds (src/vault_client.rs:193), and so does the model
(`SyncWorker.Sent`). The comment at src/vault_client.rs:169-171 calls the offset walk correct under any cap; it is
not. The one at src/vault_client.rs:178-181 has a skipped record picked up by the next sync cycle; a record skipped
by a full sync is picked up by the next full sync, or when it changes.

## Model

| member | source | states |
|---|---|---|
| Sha256Js.RoundTable | static/app.js:9-18 | each of the 64 literals of `K` is the first 32 bits of the fractional part of the cube root of its prime (section 4.2.2 of FIPS 180-4) |
| Sha256Js.InitialTable | static/app.js:22 | the initial `h` is the fractional parts of the square roots of the first eight primes (section 5.3.3) |
| Sha256Js.Rotr32 | static/app.js:19 | the shift-and-or on doubles is the 32-bit right rotation, whatever the sign of `x` |
| Bits.BitwiseDigits | static/app.js:36-46 | the modelled and, or and exclusive-or act digit by digit at every position |
| Sha256Js.PaddedIsPad | static/app.js:23-27 | the padded bytes, read as bits, are the padding of section 5.1.1 with the least number of zero bits |
| Sha256Js.PadMessage | static/app.js:23-27 | the push loop terminates with exactly those bytes |
| Sha256Js.ComputeLengthByte | static/app.js:27 | the double division and `& 0xff` give the right byte of the 64-bit length |
| Sha256Js.LoadBlock | static/app.js:31-34 | the first sixteen words denote the block's big-endian words |
| Sha256Js.NextWord | static/app.js:36-38 | one expansion step is congruent to the schedule recurrence of section 6.2.2 |
| Sha256Js.ExpandSchedule | static/app.js:35-39 | after the loop all 64 words denote the schedule |
| Sha256Js.OneRound | static/app.js:41-50 | the eight variables after a round denote the specified round's working variables |
| Sha256Js.RunRounds | static/app.js:40-50 | 64 rounds, for every schedule |
| Sha256Js.ProcessBlock | static/app.js:30-52 | one chunk updates the hash value as section 6.2.2 says |
| Sha256Js.HashPadded | static/app.js:30-52 | all chunks, in order |
| Sha256Js.WriteDigest | static/app.js:53-60 | the output bytes are the digest's bits |
| Sha256Js.Sha256Of | static/app.js:21-61 | for every byte array, `sha256` is SHA-256 of FIPS 180-4 |
| Sha256Js.FillPads | static/app.js:69-74 | both pads are the key block xored with the RFC 2104 constants |
| Sha256Js.HmacSha256 | static/app.js:63-77 | `hmacSha256` is HMAC-SHA256 of RFC 2104 for keys of every length |
| Hex.DecodeExact | src/crypto.rs:74-75 | a text decodes to given bytes exactly when it spells their encoding, digit case aside |
| Hex.RoundTrip | static/app.js:82-84 | what is encoded decodes to itself |
| Hex.EncodeAt | src/crypto.rs:41-45 | each byte is two lower-case digits, the high one first |
| Signing.BuildPayload | src/crypto.rs:27-38 | the buffer holds the four fields separated by line feeds |
| Signing.PayloadReadsBack | src/crypto.rs:27-38 | read line by line, the payload gives method, target and timestamp in that order, and the rest is the body |
| Signing.PayloadInjective | src/crypto.rs:27-38 | with no line feed in method, target and timestamp, equal payloads mean equal requests, body included |
| Signing.PayloadCollides | src/crypto.rs:27-38 | without that, distinct requests collide |
| Signing.VerifyExact | src/crypto.rs:64-83 | a header is accepted exactly when it is the prefix and the digits of the HMAC, in either case, with any white space around each, and the digest returned is the HMAC; each rejection exactly for its reason |
| Text.TrimOf | src/crypto.rs:69-75 | trimming removes exactly the white space around a text |
| Text.TrimSplits | src/crypto.rs:69-75 | every text is its trimmed form, not blank at either end, between white space |
| Signing.VerifyComputed | src/crypto.rs:41-45 | the verifier accepts every computed signature |
| Signing.HmacSign | static/app.js:90-104 | the header the dashboard's fallback sends is the server's own signature of the canonical payload, and the server accepts it |
| Cidr.ContainsIsCovers | src/ipfilter.rs:54-56 | the range test between network and broadcast address is agreement on the prefix bits, host bits allowed |
| Cidr.NestedOrDisjoint | src/ipfilter.rs:54-56 | two blocks that share an address are nested |
| Aggregate.CanonicalUnique | src/ipfilter.rs:58-74 | block sets without nesting and without sibling pairs cover the same addresses exactly when they are equal |
| Aggregate.CanonicalMinimal | src/ipfilter.rs:58-59 | such a set is the smallest that covers its addresses |
| Aggregate.AggregateContract | src/ipfilter.rs:58-74 | aggregation yields such a set, without repetition, covering the same addresses |
| Feed.SourceListsValid | src/ipfilter.rs:20-51 | every entry of the three range lists is a network of its family |
| SpecialRanges.PrefixTest | src/ipfilter.rs:54-56 | an address is in a network exactly when its first octets or groups are the network's, and of the one the prefix ends in, the bits before its end |
| SpecialRanges.PrivateByOctets | src/ipfilter.rs:20-21 | which IPv4 addresses the RFC 1918 list holds, by their octets |
| SpecialRanges.BogonsByOctets | src/ipfilter.rs:30-42 | which IPv4 addresses the bogon list holds, by their octets |
| SpecialRanges.BogonsByGroups | src/ipfilter.rs:43-51 | which IPv6 addresses it holds, by their groups |
| SpecialRanges.LoopbackByOctets | src/ipfilter.rs:24-25 | the IPv4 loopback addresses, by their octets |
| SpecialRanges.LoopbackByGroups | src/ipfilter.rs:24-25 | the one IPv6 loopback address |
| SpecialRanges.ExcludedByOctets | src/ipfilter.rs:60-73 | for every combination of filters, which IPv4 addresses are excluded, by their octets, and that no snapshot publishes one of them |
| Feed.OverlapExact | src/ipfilter.rs:54-56 | the two-point test holds exactly when the networks share an address |
| Feed.DroppedExactly | src/ipfilter.rs:60-73 | for every combination of filters, a network is kept exactly when none of its addresses lies in an enabled list |
| Feed.NothingExcludedIsPublished | src/ipfilter.rs:60-73 | no published address lies in an enabled list |
| Feed.FilterAndAggregateContract | src/ipfilter.rs:60-74 | the output is canonical and covers exactly the addresses of the networks kept |
| FeedText.SortSorted | src/feed.rs:69 | the lines come out in order |
| FeedText.LeIsDictionary | src/feed.rs:69 | the order is dictionary order, ascending |
| FeedText.SortDetermined | src/feed.rs:69 | sorting depends on the multiset of lines and on nothing else |
| FeedText.BodyInjective | src/feed.rs:70 | the joined body determines the lines |
| Feed.BodyOfSet | src/feed.rs:68-70 | block lists with the same members give the same body |
| Feed.BodyIsPublishedSet | src/feed.rs:61-74 | the body is a one-to-one function of the set of published addresses: snapshot order, splitting, host bits and filters do not show |
| ServedFeed.FeedOfVault | src/feed.rs:61-70 | over every run of the worker with complete batches, the blocks served cover exactly the addresses that the Vault's records, as of the latest sync, call for within the window and the filters |
| ServedFeed.FeedOnlyShrinks | src/feed.rs:61-70 | with the cache as it is, a later request or a narrower window never serves an address that an earlier one or a wider one did not |
| ServedFeed.SameBodyAsFullSync | src/feed.rs:61-70 | and the body is what a fresh full sync would have served |
| ServedFeed.NotModifiedIsUnchanged | src/feed.rs:72-80 | a kept ETag is answered "not modified" exactly when the set of published addresses is what it was |
| IpCache.Cache.ApplyFull | src/cache.rs:69-88 | the entry becomes the batch's live, parseable records, with the cursor advanced and the clock set |
| IpCache.Cache.ApplyDiff | src/cache.rs:91-109 | the entry is merged record by record; other endpoints are untouched |
| IpCache.Cache.SnapshotWithin | src/cache.rs:141-161 | exactly the networks of the records whose age is at most the window, for windows whose cutoff is a date; of all records for a window of zero or less |
| IpCache.Cache.FullSyncDue | src/cache.rs:169-175 | due when never run or run at least the interval ago |
| IpCache.Cache.Evict | src/cache.rs:178-180 | the endpoint is forgotten, the others kept |
| IpCache.UpdatesCoherent | src/cache.rs:69-109 | both updates keep each network the parse of its key and the cursor at or past every record, and never move the cursor back |
| IpCache.FullMirrors | src/cache.rs:69-88 | a full batch in any order leaves the Vault's parseable live records |
| IpCache.DiffMirrors | src/cache.rs:91-109 | a truthful differential batch reaches the new state exactly when it mentions every address that changed |
| IpCache.IncrementalIsRecompute | src/cache.rs:69-109 | over whole runs, incremental equals recompute, in any record order |
| SyncWorker.SyncEndpoint | src/sync.rs:122-176 | which fetch is sent (everything, or since the row's mark in whole seconds), what it changes, and that a failed fetch changes neither cache nor cursor nor clock nor mark |
| SyncWorker.SyncAllEndpoints | src/sync.rs:104-120 | one pass advances every endpoint by its own step, independently of the others |
| SyncWorker.AsksWhenDue | src/sync.rs:122-154 | over every run, what a visit asks for, if anything: everything once 24 hours have passed since the latest full batch or with no mark; else what changed since the second of the latest mark, once the TTL, at least a second, has passed since that mark; else nothing |
| SyncWorker.SyncsWhenAnswered | src/sync.rs:126-166 | a visit syncs exactly when it asks and is answered, wholly after 24 hours and by merging otherwise, with that answer |
| SyncWorker.RowIsLastMark | src/sync.rs:169-176 | the mark is that of the latest sync whose row update succeeded |
| SyncWorker.ClockIsLatestFull | src/sync.rs:122-142 | whatever mark a restarted process finds, the full-sync clock is the instant of the latest full batch and nothing is cached before the first |
| SyncWorker.FullSyncsApart | src/sync.rs:15-142 | full syncs are at least 24 hours apart |
| SyncWorker.Provenance | src/sync.rs:104-167 | every cached record was carried by the latest full batch or a differential one after it |
| SyncWorker.StalenessBound | src/sync.rs:104-176 | with ticks at most `g` apart and the last due full fetch successful, every cached record was in an answer applied less than 24 hours + `g` ago |
| SyncWorker.RunCoherent | src/sync.rs:104-176 | along every run the cache stays coherent and the cursor never goes back |
| SyncWorker.RunMirrors | src/sync.rs:104-176 | over every run of the worker, restarts included, whose batches are complete, the cache holds exactly what the Vault's state at the latest sync calls for |
| SinceCursor.DifferentialMissesIff | src/sync.rs:154-172 | against a Vault with a history that answers exactly, a differential reaches the present state exactly when no visible change has slipped past its cursor |
| SinceCursor.SlipWindow | src/sync.rs:154-172 | what slips is exactly the changes between the Vault's previous answer and the second asked for, of addresses that have not changed again |
| SinceCursor.EarlyCursorIsSafe | src/sync.rs:154-172 | a cursor no later than the previous answer lets nothing slip |
| SinceCursor.TracksUnlessSlipped | src/sync.rs:104-176 | over every run in which nothing visible slips, the cache is the Vault's state at the latest sync |
| SinceCursor.StaysMissed | src/sync.rs:144-166 | until the next full sync or another change, every differential leaves an overlooked address's cached record, or its absence, as it was |
| SinceCursor.KeptSinceCursor | src/sync.rs:144-176 | over every run in which only differentials succeed after a sync, whatever is cached for an address unchanged since that sync's mark stays as it was; the later cursors follow from the marks |
| SinceCursor.SlipStaysMissed | src/sync.rs:144-176 | so one visible change between a sync's answer and its mark leaves the cache wrong about that address for as long as only differentials succeed |
| SinceCursor.RemovalOverlooked | src/sync.rs:154-172 | a concrete run in which a removed address stays cached |
| VaultPaging.FetchSequentially | src/vault_client.rs:292-341 | the offset walk terminates and returns, in order, exactly the first records up to the ceiling, or only the first page under a cap below the page size; it fails exactly when a page it reads is unreachable |
| VaultPaging.CapHarmlessIff | src/vault_client.rs:167-171 | the walk is right under a cap exactly when the cap is no smaller than the page or nothing lies beyond it |
| VaultPaging.CappedWalkTruncates | src/vault_client.rs:167-171 | a concrete capped Vault of which half is left unread |
| VaultPaging.FetchRemainingInParallel | src/vault_client.rs:245-284 | pages completing in any order, clamped or not, give the records of the pages requested, each once; it fails exactly when one of them is unreachable |
| VaultPaging.CollectedPermuted | src/vault_client.rs:245-284 | the order in which pages complete does not change the multiset collected |
| VaultPaging.CeilingReached | src/vault_client.rs:245-284 | the pages requested from the reported count cover the records up to the ceiling, with none, an exact multiple or a remainder |
| VaultPaging.GatherHarmlessIff | src/vault_client.rs:245-284 | the parallel fetch returns all the records up to the ceiling exactly when the Vault's cap is no smaller than the page or nothing lies beyond it |
| VaultPaging.FetchIps | src/vault_client.rs:184-231 | whichever way the Vault treats the probe, under a cap or not, what comes back, each record once, and exactly when the fetch fails |
| PageShift.ReturnedIff | src/vault_client.rs:176-183 | while the listing changes between pages, a record that stays listed is returned by the walk exactly when some page is read while the record is on it |
| PageShift.SkippedOnlyBySliding | src/vault_client.rs:176-183 | such a record is skipped only by sliding back across a page boundary between two reads |
| PageShift.RemovalAheadSkips | src/vault_client.rs:176-183 | removing any record of a page already read skips exactly the first record of the next |
| PageShift.SkippedUntilNextFull | src/vault_client.rs:178-181 | over every run in which only differentials succeed afterwards, a record that a full sync skipped is not cached until it changes |
| PageShift.UnchangedRecordLost | src/vault_client.rs:178-181 | a concrete run in which the Vault lists an address throughout and the cache has lost it after the next sync cycle |
| CacheLife.OrphanIff | src/sync.rs:122-158 | through every interleaving of passes and deletes, breaking off included, an endpoint whose delete is over has a cache entry exactly when a fetch was applied to it with no eviction after |
| CacheLife.StateOfSteps | src/cache.rs:69-180 | what is cached, and which deletes are over, in terms of the steps taken |
| CacheLife.OrphanForGood | src/api/endpoints.rs:338-342 | such an entry is never evicted |
| CacheLife.EvictionUndoneIff | src/api/endpoints.rs:338-342 | after an eviction the entry can come back exactly when the pass under way still has the endpoint to visit |
| CacheLife.DeletedWhileFetched | src/sync.rs:126-130 | a concrete run: listed, deleted, evicted, then applied |
| CacheLife.VisitedOncePerPass | src/sync.rs:109-119 | between two visits of an endpoint the rows were listed anew |
| QueryString.UrlEncode | src/vault_client.rs:392-403 | percent-decoding by section 2.1 of RFC 3986 undoes it, and no separator survives in its output |
| QueryString.QueryReadsBack | src/vault_client.rs:189-195 | splitting at `&` and `=` and decoding recovers every field |
| QueryString.PageQuery | src/vault_client.rs:184-205 | the query assembled for a page is read back as the groups, the page and the flags asked for, each under its own name and no other, whatever bytes the group names hold |
| QueryString.KeptExactly | src/vault_client.rs:396-398 | the bytes sent unescaped are the unreserved characters of section 2.3 of RFC 3986 and the comma |
| RateLimiter.Limiter.EvictOldest | src/ratelimit.rs:75-80 | the loop makes room by forgetting the oldest entry of a full table, and only then |
| RateLimiter.Limiter.CheckAndRecord | src/ratelimit.rs:61-89 | the queue stays a duplicate-free listing of the tracked addresses, at most the ceiling; answer and table are those of the reference step |
| RateLimiter.RunValid | src/ratelimit.rs:61-89 | that invariant over every run |
| RateLimiter.QueueIsRecentAdmissions | src/ratelimit.rs:69-87 | the queue is exactly the last 10 000 admissions |
| RateLimiter.TrackedUntilCeiling | src/ratelimit.rs:69-87 | an admission is tracked until the 10 000th admission after it, unless admitted again |
| RateLimiter.DeadlineIsLastServed | src/ratelimit.rs:67-82 | a stored deadline is one window after the last time the address was served |
| RateLimiter.ServesAreApart | src/ratelimit.rs:61-82 | two serves of an address not evicted in between are at least a window apart, in whatever order the readings, taken before the lock, reach it; a refusal gives the time left of the window the last serve opened |
| RateLimiter.ServesAreApartInOrder | src/ratelimit.rs:61-82 | with readings that do not go back, even across an eviction, if the address is tracked when it calls again |
| RateLimiter.BoundedIsUnbounded | src/ratelimit.rs:61-89 | with at most 10 000 distinct callers, every answer is that of a limiter without a ceiling |
| RateLimiter.ServePoll | src/feed.rs:76-92 | a header that equals the ETag up to white space is answered without touching the limiter; otherwise the limiter decides, and `Retry-After` is the remaining time in whole seconds |
| RateLimiter.RevalidatesIff | src/feed.rs:76-80 | a header matches exactly when it is the ETag with any white space around it |
| RateLimiter.RevalidationIsFree | src/feed.rs:76-89 | over every run, the limiter is where the full fetches alone would have left it |
| ReplayGuard.Guard.constructor | src/replay.rs:48-60 | the window is clamped to 1 to 3600 seconds and the sweep schedule derived from it |
| ReplayGuard.WindowInFigures | src/replay.rs:49 | the window in nanoseconds, for every setting |
| ReplayGuard.Guard.PruneIfDue | src/replay.rs:88-106 | routine and capacity sweeps, and when each is next due |
| ReplayGuard.Guard.CheckAndRecord | src/replay.rs:64-81 | sweep, then accept unless remembered and unexpired |
| ReplayGuard.PruningUnobservable | src/replay.rs:64-115 | with readings that do not go back, every call is answered as by a guard that never forgets |
| ReplayGuard.AcceptedIff | src/replay.rs:64-81 | a signature is accepted exactly when no acceptance of it lies less than a window back |
| ReplayGuard.MemoryBounded | src/replay.rs:48-115 | everything held was accepted less than a window and a quarter ago |
| ReplayGuard.TableBounded | src/replay.rs:48-115 | so the table is no larger than the number of acceptances in that span |
| ReplayGuard.FullTableIsSwept | src/replay.rs:88-106 | a call that finds 250 000 signatures, with none that did so less than a sixteenth of a window before, leaves only live ones |
| ReplayGuard.FullTableIsRecent | src/replay.rs:88-106 | while the table is full, everything held was accepted less than a window and a sixteenth ago |
| ReplayGuard.FullSweepsApart | src/replay.rs:93-100 | two sweeps for want of room are at least a sixteenth of a window apart |
| ReplayGuard.QuietBelowCeiling | src/replay.rs:93-97 | below the ceiling nothing is swept within a quarter of a window of the last sweep |
| ReplayGuard.NoSecondAcceptance | src/replay.rs:64-106 | however callers interleave and however late each gets the lock, no signature is accepted twice within a window of the first reading |
| ReplayGuard.TimestampWindow | src/middleware.rs:30-43 | the check is the symmetric window, plus the timestamps at which 64-bit arithmetic wraps |
| ReplayGuard.SecondPassage | src/middleware.rs:107-172 | when a signed request passes the timestamp check and is accepted by the guard a second time: exactly when the guard's window ends before the timestamp does, for every setting, 64-bit timestamp and delay between the checks |
| ReplayGuard.LastFresh | src/middleware.rs:30-43 | the last second of a 64-bit clock at which a timestamp passes |
| ReplayGuard.NoReplayInAnyRun | src/middleware.rs:107-172 | over every run of the guard, whatever else it sees, no signature is fresh and accepted again past that instant |
| ReplayGuard.ReplayableIffNotYetDue | src/middleware.rs:107-172 | for windows up to an hour and no delay: exactly when it was first answered no later than the second it was signed for |
| ReplayGuard.SkewedClockReplay | src/middleware.rs:107-172 | a concrete case with the default window, put through both checks |
| ReplayGuard.WrappedTimestampPasses | src/middleware.rs:30-43 | the timestamp 2^63 seconds back passes at every instant |
| DnsCache.OneLookupPerExpiry | src/dns_cache.rs:97-137 | under every interleaving, calls dropped at any await included, finished lookups never overlap, and an unforced one starts only after the latest finished attempt on its name has run out its own TTL |
| DnsCache.LookupsApart | src/dns_cache.rs:20-49 | after a lookup that found addresses the next unforced one of that name starts at least 30 seconds later, after one that found none at least 5 |
| DnsCache.LooksUpIff | src/dns_cache.rs:97-117 | over every run, a call is answered from the cache, with what the newest lookup of its name found, exactly while that lookup is less than 30 or 5 seconds old, and otherwise goes on to start one; a forced call always does |
| DnsCache.LookupsStartDue | src/dns_cache.rs:107-117 | the same of every lookup from the moment it starts, finished or dropped later |
| DnsCache.DropLeavesDue | src/dns_cache.rs:110-117 | a dropped lookup frees the lock, leaves cache and answers as they were and the name due for the next caller |
| DnsCache.AnswersAreCurrent | src/dns_cache.rs:97-137 | every answer is the newest attempt on that name, still within its TTL |
| DnsCache.OneLookupInFlight | src/dns_cache.rs:110-117 | at most one lookup is in flight |
| DnsCache.StepKeepsInv | src/dns_cache.rs:97-137 | each step of each caller keeps the invariant behind these |
| DnsCache.Resolver.Resolve | src/dns_cache.rs:97-117 | two fresh checks, then a lookup; the answer is the entry then cached |
| DnsCache.Resolver.RefreshLocked | src/dns_cache.rs:128-137 | the attempt is stored, resolved exactly when it found an address |
| DnsCache.ForcedIsRun | src/dns_cache.rs:123-137 | an uninterrupted forced call is a run of the machine: however fresh the cache, it looks the name up and its answer becomes the newest attempt |
| DnsCache.UninterruptedIsRun | src/dns_cache.rs:97-137 | the sequential method is a run of the interleaving machine |
| OutboundClock.Next | src/vault_client.rs:358-366 | every timestamp is at most five seconds ahead, differs from the last, and exceeds it exactly while the lead is under five |
| OutboundClock.Client.TakeTimestamp | src/vault_client.rs:355-366 | the stored and the issued timestamp are the same next one |
| OutboundClock.IncreasingIffCalm | src/vault_client.rs:355-366 | timestamps strictly increase exactly when every stretch of calls spanning `d` seconds has at most `6 + d` of them |
| OutboundClock.SixIncrease | src/vault_client.rs:83-90 | the probe and five concurrent pages always fit |
| OutboundClock.SeventhRepeats | src/vault_client.rs:355-366 | the limit is tight |
| MasterPin.OneMasterPerProcess | src/master.rs:94-168 | over a process's life, however first uses race and flags change, every verdict naming a Master names the same key, once the only one flagged |
| MasterPin.PinIsFinal | src/master.rs:111-168 | once pinned, always pinned; any other claim is demoted |
| MasterPin.StepKeepsInv | src/master.rs:94-168 | each step keeps the invariant behind these; losing the race to set the cell and reading it afterwards are separate steps |
| MasterPin.PinnedIsRecognised | src/master.rs:141-148 | the pinned key keeps its flag |
| MasterPin.UpheldIff | src/master.rs:111-168 | a claim is upheld exactly when it gets as far as the cell and the cell then holds that key, whether the call found it set, set it or lost the race to; otherwise the key had no flag or a query did not find exactly one flagged row |
| MasterPin.ClaimsAreDecided | src/master.rs:111-118 | a call that looks at the cell concludes, unless it looked first and found nothing |
| MasterPin.LosersLookAgain | src/master.rs:116-119 | a call that found one row sets the cell if it is free and otherwise looks at it again |
| MasterPin.BootPins | src/master.rs:94-108 | booting succeeds exactly with the index and one flagged row, and answers with what the cell holds from then on |
| MasterPin.PinnedDemoted | src/master.rs:111-136 | a concrete run in which the pinned Master, still flagged, is demoted once: their other call found the cell empty before the pin and two flagged rows after it |
| MasterPin.Pin.Set | src/master.rs:104-118 | the first value stays |
| MasterPin.Pin.Resolve | src/master.rs:111-136 | the pin is kept, or established by a sole flagged row |
| MasterPin.Pin.PinAtBoot | src/master.rs:94-108 | boot succeeds exactly with the marker index and one flagged row, and pins that row unless one is pinned; failure leaves the cell |
| MasterPin.Pin.Authenticate | src/master.rs:141-168 | the flag survives only on the pinned key |
| MasterPin.UninterruptedIsRun | src/master.rs:141-168 | the sequential method is a run of the racing machine |
| Authority.MasterAndOwners | src/api/keys.rs:81-416 | through every interleaving: one Master row, always the same, nothing of it changing but `bound_ips`; every endpoint owner absent or existing |
| Authority.DeletionsOnRecord | src/api/keys.rs:228-314 | whatever races or breaks off: a key is gone exactly when the trail has its one deletion; an endpoint's deletion appears at most once and only if it is gone |
| Authority.KeyDeleteIsWhole | src/api/keys.rs:254-313 | a key delete removes no endpoint and leaves none newly unowned, hands over every one it owned to an existing key and writes one entry, or does nothing; and exactly when |
| Authority.EndpointsChangeBy | src/api/endpoints.rs:231-387 | an endpoint disappears only by its own delete and is reconfigured only by its own update; its owner changes only by the Master's reassignment or by a delete that names the heir |
| Ownership.TouchesAreAuthorised | src/api/endpoints.rs:231-348 | every update or delete of an endpoint was let through, once, for the Master or for the key that owned the endpoint when it was looked up |
| Ownership.RowChangesAreAuthorised | src/api/endpoints.rs:231-348 | so every change to an endpoint's row, its owner apart, traces back to such a request |
| Ownership.OwnerChangesByHandOver | src/api/endpoints.rs:351-387 | a step changes an endpoint's owner exactly when it is the Master's reassignment, or delete of its owner, to someone else, and the endpoint goes to whom that request names |
| Ownership.OwnsAtWriteIff | src/api/endpoints.rs:321-338 | over every run, that key owns it at the write exactly when no hand-over of it took effect since the check, or the last that did went to that key |
| Ownership.FormerOwnerDeletes | src/api/endpoints.rs:321-338 | it can change hands: wherever another key exists there is a run in which a former owner's delete takes effect |
| Ownership.OneEndpointDelete | src/api/endpoints.rs:329-341 | however many deletes of an endpoint race and wherever they break off, at most one succeeds |
| Ownership.OneKeyDelete | src/api/keys.rs:291-300 | at most one delete of a key succeeds, whatever heirs are named |
| Ownership.GoneStaysGone | src/api/endpoints.rs:315-348 | a deleted identifier never comes back |
| Authority.KeysChangeByMaster | src/api/guards.rs:18-26 | only requests authenticated as the pinned Master change a key |
| RowHistory.KeyFieldsAreLastIssued | src/api/keys.rs:81-416 | over every run, each field of each key, hash and secret included, is what the last request that named it said, and a key exists exactly when one was issued and its delete is not on record |
| RowHistory.KeysWritten | src/api/keys.rs:101-416 | one write: the fields the request names take the values named, every other field and key stays |
| RowHistory.EndpointsAreLastGiven | src/api/endpoints.rs:141-387 | over every run, an endpoint stands from its creation to its delete, each setting is what the last request that named it said, and the owner is whoever was last given it, at first the creator |
| RowHistory.EndpointWritten | src/api/endpoints.rs:163-387 | one write to an endpoint: made for the caller with the settings given, updated in the settings named, handed over or removed |
| RowHistory.LetThroughIff | src/api/guards.rs:18-60 | which requests pass their guards, exactly, for every operation |
| RowHistory.AuthenticatedAs | src/master.rs:141-168 | whoever authenticates counts as the Master exactly when they hold the pinned key |
| RowHistory.WriteIsLogged | src/api/keys.rs:120-416 | a write takes effect exactly when the rows it needs are there; then its own entry is logged, with the delete of a key in the same transaction; else nothing changes |
| RowHistory.TrailIsTrue | src/api/keys.rs:81-416 | over every run, every entry of the trail tells of a write that took effect |
| Authority.StepKeepsInv | src/api/keys.rs:81-416 | each statement of each request keeps the invariant behind these |
| Authority.Store.CreateApiKey | src/api/keys.rs:81-136 | a new key is never a Master |
| Authority.Store.UpdateApiKey | src/api/keys.rs:159-208 | the permitted fields, and of the Master only `bound_ips`; each status exactly when given |
| Authority.Store.RotateApiKey | src/api/keys.rs:317-352 | hash and secret change together; refused for the Master; each status exactly when given |
| Authority.Store.RotateSigningSecret | src/api/keys.rs:381-416 | the secret alone changes; refused for the Master; each status exactly when given |
| Authority.Store.DeleteApiKey | src/api/keys.rs:228-314 | the tables after it, and each status exactly when the handler gives it |
| Authority.Store.CreateFeed | src/api/endpoints.rs:141-194 | owned by the caller; refused without access to the groups, or by the foreign key when the caller is gone |
| Authority.Store.UpdateFeed | src/api/endpoints.rs:231-312 | the settings named in the request change and the others stay, for owner or Master only and within their groups; the owner does not change; each status exactly when given |
| Authority.Store.DeleteFeed | src/api/endpoints.rs:315-348 | row, cached records and audit entry together, for owner or Master only; each status exactly when given |
| Authority.Store.ReassignFeedOwner | src/api/endpoints.rs:351-387 | to an existing key or none, by the Master only, each status exactly when given |
| Authority.AloneIsRun | src/api/keys.rs:228-314 | a handler run without interruption is a run of the machine |
| ClientAddress.ClientIsLastUntrusted | src/config.rs:354-388 | an untrusted peer speaks for itself; behind a trusted one the last untrusted hop of the first line is the client, then the first readable `X-Real-IP`, then the peer, each only when those before name nobody |
| ClientAddress.HopsOfLine | src/config.rs:364-372 | a line is read as the entries between its commas: white space around a text does not matter, blank and unreadable texts are passed over, the others come in order |
| ClientAddress.LineOf | src/config.rs:364-372 | every line is of that form |
| ClientAddress.ClientOfLine | src/config.rs:354-376 | in terms of what is written: behind a trusted peer the client is the last entry of the first line whose text names an untrusted address |
| ClientAddress.ClientWithoutLine | src/config.rs:378-388 | if no entry does, the text of the first `X-Real-IP` line, white space aside, and failing that the peer |
| ClientAddress.ForgedHopsIgnored | src/config.rs:364-376 | no text to the left of the client's hop in the first line, and no later line, changes the answer |
| ClientAddress.LaterLinesIgnored | src/config.rs:364-385 | of each header the first line decides, whatever lines follow it |
| ClientAddress.TwoAnswers | src/config.rs:364-376 | a concrete client behind a proxy that adds its own line is taken for whichever address it names, and behind one that appends for the address the proxy saw |
| ClientAddress.OwnLineRules | src/config.rs:364-376 | a client that names an untrusted address on the first line is taken at its word |
| ClientAddress.ProxyHopsIgnored | src/config.rs:364-376 | nor do trusted, blank or unreadable entries to its right |
| ClientAddress.Normalize | src/dns_cache.rs:169-174 | an IPv4-mapped address becomes the IPv4 address in its low 32 bits, others are unchanged, and no result is mapped |
| SecretStore.OpenSeal | src/crypto.rs:167-213 | whatever is sealed opens to itself, in both modes |
| SecretStore.PlainOpensAnywhere | src/crypto.rs:187-191 | a row stored plainly opens under every cipher |
| SecretStore.WrongKeyIsReported | src/crypto.rs:193-212 | a sealed row under no key or the wrong key is a failed decryption, never a malformed row |
| SecretStore.FormatsDisjoint | src/crypto.rs:187-193 | the two formats cannot be confused |

## Left out

- HTTP, JSON, the database driver, migrations and logging: tables are maps, a statement or the one transaction is a step.
- Signature and cipher strength: HMAC is the function, the AEAD cipher a parameter with an inverse, UTF-8 validity a parameter.
- Address and network text: the parsers and `to_string` are parameters; the converse half of `Feed.BodyIsPublishedSet` assumes that distinct blocks are written differently and on one line.
- `ipnet`'s own aggregation code: its contract is stated (`Feed.IsFeed`) and proved for an aggregation written here.
- Differential completeness: whether a real Vault's batch mentions everything that changed is a hypothesis (`IpCache.Complete`, `SyncWorker.Sound`), not a fact about the code; `SinceCursor` says when it fails for a Vault that answers exactly and shares the exporter's clock.
- VaultPaging.FetchIps: the Vault serves slices of one fixed list during a fetch; a listing that moves between pages is in `PageShift`, for the walk, not for the parallel fetch.
- IpCache.Cache.SnapshotWithin: instants are unbounded; the program subtracts the window from a calendar date and panics when the result leaves the calendar, which only a window of hundreds of thousands of years does, and `validate_max_age` refuses none that is not negative.
- CacheLife: one process; a restart empties the cache. A fetch and its application are one step, since only the application touches the cache.
- RateLimiter.ServePoll: authorisation by bound addresses before it is not modelled; the hash behind the ETag is a parameter (`ServedFeed.NotModifiedIsUnchanged`).
- ReplayGuard.Guard.CheckAndRecord: poisoned locks, which reject, are not modelled; concurrency is covered by `ReplayGuard.NoSecondAcceptance` for acceptance and not for the table's size.
- ReplayGuard.WrappedTimestampPasses: the wrapping arithmetic of a build without overflow checks; where it wraps, a build with them panics.
- ReplayGuard.SecondPassage: wall clock and monotonic clock are one clock.
- ReplayGuard.ReplayableIffNotYetDue: timestamps from 1970 to an hour before the end of the 64-bit clock; `ReplayGuard.SecondPassage` has no such limit.
- Sha256Js.Sha256Of: arrays so long that their bit length is not an exact double, which no browser can hold.
- OutboundClock.Next: 64-bit overflow near the year 292 billion.
- Authority: field validation (names, bound addresses, TTLs) is a request that ends early, and bound addresses arrive trimmed; the key prefix, parent and timestamp columns are not in the rows; which groups a caller may read is an input; `can_manage_keys` and list endpoints add only single checks. Identifiers drawn for new rows are assumed never to repeat.
- Trusted-proxy priming, startup, health probes, the encryption-key canary and the dashboard outside `PureCrypto`.
