# Verified models of the musicguessr backend

Dafny models of the stateful protocols inside the backend, with proofs of what they guarantee over every input,
every run and every interleaving. `dafny verify dfyconfig.toml` checks everything.

| file | models |
|---|---|
| `Resp.dfy`, `ValkeyProtocol.dfy`, `ValkeyPool.dfy` | the RESP2 client of `internal/rcache/valkey.go`: wire encoding, reply parser, connection pool, any number of callers against a server |
| `TwoTier.dfy`, `TwoTierRuns.dfy`, `TwoTierBreaches.dfy` | the volatile and permanent cache tiers of `internal/rcache/rcache.go`, called one at a time and step by step concurrently |
| `Sweep.dfy` | the deck expiry sweep, the in-memory store, and `GetDeck` as the observer of the sweep |
| `LocalStore.dfy`, `LocalRuns.dfy` | the file-system deck store as file-system calls that may fail or be the last before the process dies |
| `RateLimit.dfy` | the token-bucket limiter |
| `CacheWarm.dfy`, `AxiomLog.dfy`, `SpotifyBreaker.dfy` | the deck warmer, the batching log writer, the token cache with its circuit breaker |
| `SigV4.dfy`, `SigV4Headers.dfy` | canonical query and canonical headers of AWS Signature Version 4 ("Create a canonical request"; RFC 3986, sections 2.1 and 2.3) |
| `Vote.dfy`, `Metadata.dfy`, `MetadataText.dfy`, `MetadataCache.dfy` | the majority votes, the quorum, the cache keys, and the metadata cache with its shared pointers |
| `TitleText.dfy`, `YouTubeMatch.dfy` | title normalisation, match scoring, the two-pass video search and its cache |
| `CardIndex.dfy` | the card index built from the gameset database |
| `Strings.dfy`, `Order.dfy`, `Decimal.dfy`, `Options.dfy`, `Runs.dfy` | the Go library functions and the notion of a run that the others share |

Objects whose methods update fields are classes with the same fields; their methods are proved against
specification functions, and the theorems are about those functions or about state machines whose events are the
lock sections, channel operations, I/O calls and clock steps of the code, in any order.

## Modelling conventions

- A byte string is a `string` with one character a byte (`Resp`, `ValkeyPool`, `SigV4`); elsewhere a character is a rune.
- Clocks are parameters: integers, except for the limiter, which uses real seconds. Time never runs backwards from one
  lock section to the next.
- JSON is a pair of functions with `decode(encode(v)) == v`; a SHA-256 digest has 64 characters, and where it matters
  no two keys of the finite set that a run uses have the same one, an assumption that can be met for any number of keys
  (`TwoTier.FaithfulIsMet`). A panic, a failed request and a timeout are failing steps.
- The Valkey server answers each command it has read in full with one well-formed reply, may refuse any command, and may
  drop any key at any time.
- The score of a video uses `10 * matched >= 7 * n` and `10 * matched / n`, which is what the float expressions compute.
- `strings.ToLower` is any rune map that is idempotent and acts on ASCII as expected.

## Where the code and its promises differ

Each of these is a theorem below, with the exact condition where there is one.

- A text reply survives `readReply` exactly when it has no LF and does not end in CR (`Resp.TextReplyExact`).
- Sweeping idle rate-limit buckets is unobservable exactly when `rate * idle >= burst` or no request is ever allowed
  (`RateLimit.SweepUnobservableExactly`); the configured limiters meet it.
- SigV4 asks for parameters in the order of their encoded names; the code sorts raw names, which is the same exactly
  when no two names flip (`SigV4.EncodedNameOrderExact`, `SigV4.FlippedNames`).
- The canonical headers depend on map order exactly when two headers of one name, up to case, disagree
  (`SigV4Headers.OrderFreeExact`); collecting them panics exactly when a signed header has no value
  (`SigV4Headers.BuildCanonicalHeaders`). `Header.Set` never makes such a pair, assigning to the map does (`SigV4Headers.TwoResults`).
- The hot tier can keep a value older than the permanent one when a SetJSON overlaps a GetJSON (`TwoTier.StaleBackfill`) or
  another SetJSON (`TwoTierRuns.OverlappingSets`) of the same key. When no SetJSON of a key overlaps another call on it and its
  writes succeed, every answer for the key is the last value stored (`TwoTierRuns.OrderlyKeyReadsLast`); breaking this once,
  in any one way, can make an undisturbed GetJSON answer an old value after all calls have returned
  (`TwoTierBreaches.EachBreachHurts`). With calls one at a time, a failed hot write hides the new value exactly when an older
  entry was left behind (`TwoTier.FailedHotWriteExact`).
- A deck expiring at the very instant of the sweep is deleted although it would still have been served at that instant
  (`Sweep.DeckServedAtItsLastInstant`), contrary to the comment that expired decks can never be served again.
- A full log buffer always has a flush on its way exactly when there is a byte in it: empty writes are counted, but a buffer
  of nothing else is never shipped and stays full unnoticed (`AxiomLog.NoticedExactly`, `AxiomLog.EmptyLinesStick`).
- Stopping at the quorum is safe for a field exactly when the whole quorum agrees on that field
  (`Metadata.SafeToStopExactly`, `Metadata.YearSafeToStopExactly`), although the comment on the collection loop takes any
  majority for a confident vote.
- `metadata.Resolve` hands out an object the cache holds, which `cloneTrack` exists to prevent, exactly when the first round
  finds nothing, the caller's context is still alive, there is a different bare title, and that title's entry, found or just
  made over a quorum, has not expired when it is looked up (`MetadataCache.Resolver.Resolve`).
- Different songs share a metadata cache key exactly when the key has, besides the bar that joins artist and title, another
  one with no space next to it, in either of them (`MetadataText.SharedByBareBars`); the keys of the video search are never
  shared (`YouTubeMatch.CacheKeyExact`).
- Only Cover Art Archive, Discogs and Deezer artwork is ranked; the comment ranks two more sources, which the code takes in
  the order they come (`Metadata.ArtworkPreferred`).
- `CardsInDeck` lists foreign cards exactly when some SKU goes on with a colon after the deck id
  (`CardIndex.ListingExact`); `Resolve` itself never mixes decks up, whatever the SKUs (`CardIndex.IndexAgreesWithScan`).

## Model

| member | source | states |
|---|---|---|
| Resp.WriteCommand | internal/rcache/valkey.go:168-176 | the builder loop produces the RESP2 array of bulk strings of its arguments |
| Resp.GetOnTheWire | internal/rcache/valkey.go:168-176 | the very bytes of one command, as RESP2 prescribes them |
| Resp.CommandRoundTrip | internal/rcache/valkey_test.go:102-136 | the server's reader gets every command back, whatever bytes its arguments hold, and leaves what follows untouched |
| Resp.CommandsRoundTrip | internal/rcache/valkey_test.go:102-136 | so for any list of commands on one stream |
| Resp.CommandsPrefixFree | internal/rcache/valkey.go:168-176 | no encoding is a prefix of another command's: equal streams start with equal commands |
| Resp.StreamsInjective | internal/rcache/valkey.go:168-176 | different command lists never give the same bytes |
| Resp.ReplyRoundTrip | internal/rcache/valkey.go:189-220 | one well-formed reply is consumed exactly and read as what the server meant, for all five kinds |
| Resp.BulkReplyParsed | internal/rcache/valkey.go:204-216 | a bulk reply is read back byte for byte, CRLF inside it included |
| Resp.TextReplyExact | internal/rcache/valkey.go:222-228 | a text reply is read back if and only if it has no LF and does not end in CR |
| Resp.Reader.ReadLine | internal/rcache/valkey.go:222-228 | consumes up to the first LF and trims the line end, or reports the end of the stream |
| Resp.Reader.ReadFull | internal/rcache/valkey.go:230-240 | collects exactly the bytes asked for however reads are cut short |
| Resp.Reader.ReadReply | internal/rcache/valkey.go:189-220 | returns and consumes what the reply parser says, error cases included |
| ValkeyPool.ValkeyConn.Exec | internal/rcache/valkey.go:109-114 | writes one encoded command and reads one reply |
| ValkeyPool.ValkeyClient.TakePooled | internal/rcache/valkey.go:49-57 | takes the connection returned last, or none |
| ValkeyPool.ValkeyClient.PutConn | internal/rcache/valkey.go:93-105 | pools a healthy connection while fewer than eight are pooled and closes every other |
| ValkeyPool.ValkeyClient.GetOn | internal/rcache/valkey.go:131-142 | the GET sent, the reply and what is left unread, and that the connection is pooled when healthy while fewer than eight are, and closed otherwise |
| ValkeyPool.ValkeyClient.SetOn | internal/rcache/valkey.go:151-163 | the same for SET, which carries the whole seconds of the TTL, and 1 when there is none |
| ValkeyProtocol.TaskOnTheWire | internal/rcache/valkey.go:131-163 | what the server reads of a Get and of a Set: key and value byte for byte, and for a TTL of a second or more d with d seconds <= TTL < d + 1 seconds |
| ValkeyProtocol.WireIsLawful | internal/rcache/valkey.go:74-85 | RESP2 framing, the handshake and the server keep the laws the pool's proofs rest on: requests and replies are read back, each accepted handshake command brings the session one further, GET tells the truth |
| ValkeyProtocol.HandshakeStep | internal/rcache/valkey.go:74-85 | an accepted AUTH or SELECT leaves exactly the rest of the handshake to do |
| ValkeyPool.StepKeepsInv | internal/rcache/valkey.go:49-164 | every step of any caller, connection, server or failure keeps ownership, synchrony and history |
| ValkeyPool.PoolDiscipline | internal/rcache/valkey.go:49-105 | in every reachable state each connection is in exactly one of pool, held by one caller, or closed; the pool has no duplicates, at most eight entries, all authenticated, on the right database, without deadline or stray bytes |
| ValkeyPool.PoolIsUsed | internal/rcache/valkey.go:49-105 | in every reachable state a healthy connection coming back to fewer than eight is pooled, any other closed, and a caller gets the pooled one that came back last when there is any |
| ValkeyPool.CallsEnd | internal/rcache/valkey.go:66-164 | how a call ends: with its result and a healthy connection, or without and with one closed or unhealthy |
| ValkeyPool.EachReplyIsOwn | internal/rcache/valkey.go:109-114 | a caller reads the reply to its own command and leaves the stream empty, in every interleaving |
| ValkeyPool.GetReturnsLastSet | internal/rcache/valkey.go:125-143 | every Get returns the bytes of the last SET executed before it, or nil, taking effect between its call and its return |
| ValkeyPool.LastValueMeaning | internal/rcache/valkey.go:145-164 | "last" means: some execution stored it and none later touched the key |
| ValkeyPool.ReadYourWrites | internal/rcache/valkey.go:125-164 | a Get begun after a Set returned gives its bytes unless the key was stored or dropped in between |
| ValkeyPool.CallsCanSucceed | internal/rcache/valkey.go:49-164 | from every reachable state a new call can be brought to its result, on a pooled or a fresh connection, with a server that takes the password |
| TwoTier.CacheKeyExact | internal/rcache/rcache.go:100-103 | two storage keys coincide if and only if the namespaces and the digests do, even with slashes in a namespace |
| TwoTier.CacheKeyInjective | internal/rcache/rcache.go:100-103 | among keys whose digests do not collide, different pairs of namespace and key never share a storage key |
| TwoTier.FaithfulIsMet | internal/rcache/rcache.go:100-103 | what is assumed of encoding and digests can be met, for any finite set of short keys |
| TwoTier.Cache.GetJSON | internal/rcache/rcache.go:108-147 | hot tier, then permanent tier with backfill, under any failures; after a hit whose hot write does not fail the hot tier holds the answer |
| TwoTier.Cache.SetJSON | internal/rcache/rcache.go:152-173 | both tiers are written, each unless it fails |
| TwoTier.RefinesMemory | internal/rcache/rcache.go:108-173 | with writes succeeding, exactly which reads are answered, and with what, in any run: those of a stored pair when the permanent tier can be read, or the hot tier can and has not lost the entry since the last store or answer that wrote it |
| TwoTier.RefinesPlainMap | internal/rcache/rcache.go:108-173 | with writes succeeding, the cache answers any run of calls like a plain map of last values, whatever the hot tier drops or fails to do; a failing permanent tier only turns answers into misses |
| TwoTier.FailedHotWriteExact | internal/rcache/rcache.go:161-172 | after a SetJSON whose hot write failed, the new value is read if and only if no different entry was left in the hot tier |
| TwoTier.StepKeepsInv | internal/rcache/rcache.go:108-173 | every step of concurrent calls keeps both tiers full of genuine encodings only |
| TwoTier.OnlyStoredValuesReturned | internal/rcache/rcache.go:108-173 | under any failures and interleavings a value returned for a pair was once stored for that pair; a pair with one value misses or returns it |
| TwoTier.GetAlone | internal/rcache/rcache.go:108-147 | the steps of a GetJSON with no others between them do what the whole call does |
| TwoTier.SetAlone | internal/rcache/rcache.go:152-173 | and those of a SetJSON |
| TwoTier.StaleBackfill | internal/rcache/rcache.go:126-143 | an interleaving of a read and a write that ends with the old value in front of the new |
| TwoTierRuns.StepKeepsKeyInv | internal/rcache/rcache.go:108-173 | every step of any call keeps a key's tiers in order as long as no SetJSON of that key overlaps another call on it and its writes succeed |
| TwoTierRuns.ReturnedMeans | internal/rcache/rcache.go:108-147 | what a step of a GetJSON returns: the value it adds to those returned, a miss, an outage, or nothing yet |
| TwoTierRuns.OrderlyKeyReadsLast | internal/rcache/rcache.go:108-173 | then, in every interleaving, each GetJSON of the key returns the value of the last completed SetJSON, or misses when there is none or the permanent tier is out, whatever calls on other keys do |
| TwoTierBreaches.EachBreachHurts | internal/rcache/rcache.go:108-173 | for each way to break that discipline, a GetJSON begun during a SetJSON, a SetJSON begun during either, a hot or a permanent write that fails, some run from the start breaks it once, that way only, and ends with all calls returned and an undisturbed GetJSON answering an old value |
| TwoTierBreaches.BreachesAreAll | internal/rcache/rcache.go:108-173 | an event keeps the discipline if and only if it breaks it in none of these ways |
| TwoTierRuns.OverlappingSets | internal/rcache/rcache.go:161-172 | two overlapping SetJSONs of one key can leave the tiers disagreeing for good |
| Sweep.MemoryStore.Put | internal/deckstore/memory.go:17-22 | the map with the entry replaced |
| Sweep.MemoryStore.Get | internal/deckstore/memory.go:24-32 | the entry, or not found |
| Sweep.MemoryStore.Delete | internal/deckstore/memory.go:34-39 | the map without the entry, present or not |
| Sweep.MemoryStore.List | internal/deckstore/memory.go:41-49 | each id once |
| Sweep.MemoryStore.SweepOne | internal/deck/cleanup.go:54-91 | deletes one object if and only if it is a deck under its own id whose expiry is set and has come |
| Sweep.MemoryStore.CleanupExpired | internal/deck/cleanup.go:25-95 | removes exactly the expired decks and returns their number |
| Sweep.StepKeepsInv | internal/deck/cleanup.go:37-94 | every step of any worker or other writer keeps the sweep's invariant, failing store calls included |
| Sweep.StepKeepsBound | internal/deck/cleanup.go:33-56 | never more than ten workers |
| Sweep.SweepIsSafe | internal/deck/cleanup.go:25-95 | at every moment the store is what it would be without the sweep minus listed expired decks; no more deletions are counted than happened |
| Sweep.SweepIsComplete | internal/deck/cleanup.go:25-95 | a finished sweep without store errors removed exactly those and returns their number |
| Sweep.SweepCanFinish | internal/deck/cleanup.go:33-94 | from any state of a sweep, some run without store errors finishes it |
| Sweep.TargetsAreGone | internal/deck/cleanup.go:61-83 | what is removed: what is stored under a deck id and is a deck of that id with an expiry, for which GetDeck answers 410 right after the sweep's time |
| Sweep.DeckIdExact | internal/deck/cleanup.go:40-51 | deck ids are one to 32 ASCII letters and digits |
| Sweep.CacheKeysAreForeign | internal/deck/cleanup.go:40-51 | no key of the resolve cache, nested or flat, is a deck id |
| Sweep.CacheSurvives | internal/deck/cleanup.go:40-51 | every cached object in the shared bucket survives every sweep |
| Sweep.SweepObservedOnlyAsNotFound | internal/deck/handler.go:148-189 | from the sweep's time on GetDeck differs only by 404 for 410, except at the instant of expiry itself |
| Sweep.DeckServedAtItsLastInstant | internal/deck/cleanup.go:81-83 | that exception happens |
| LocalStore.Store.Put | internal/deckstore/local.go:22-59 | succeeds exactly when every call is made and nothing is in the way, and then Get reads the data; whichever call fails or is the last before the process dies, the deck file is as before or holds all the data, success means the data, failure that cleans up leaves nothing, no other deck file changes |
| LocalStore.Store.WriteAndRename | internal/deckstore/local.go:40-57 | the same from the new temp file on, with what each outcome leaves behind and exactly when it succeeds |
| LocalStore.Store.CleanUp | internal/deckstore/local.go:42-55 | removing the temp file restores the directory |
| LocalStore.Store.Get | internal/deckstore/local.go:61-67 | the data exactly when the file is there; "not found" exactly when nothing has its name and no file lies on the way to it; another error otherwise |
| LocalStore.Store.Delete | internal/deckstore/local.go:69-75 | exactly when it succeeds, and that then the file, or an empty directory in its place, is gone and nothing else; deleting what is not there succeeds |
| LocalStore.Store.List | internal/deckstore/local.go:81-99 | exactly the ids whose file lies in the directory itself, each once |
| LocalStore.ExtExact | internal/deckstore/local.go:94-96 | a name's extension is ".json" if and only if it ends so |
| LocalStore.DestParts | internal/deckstore/local.go:23-27 | path cleaning never touches the file name, so the temp file is in the directory of the deck file |
| LocalStore.DestInjective | internal/deckstore/local.go:23-24 | ids without empty, "." or ".." folder parts are kept in different files |
| LocalStore.TempIsNotJson | internal/deckstore/local.go:35-39 | a temp file is never taken for a deck |
| LocalStore.BaseExact | internal/deckstore/local.go:36 | a temp file is named after the id without its folders and trailing slashes, with no slash in it unless the id is nothing but slashes |
| LocalRuns.StepKeepsInv | internal/deckstore/local.go:22-75 | every file-system call of any number of Puts, deletion, failure or death keeps deck files equal to a plain map and every temp file private |
| LocalRuns.GetReturnsLastStored | internal/deckstore/local.go:61-67 | in every interleaving Get gives, whole, the data of the last Put whose rename was reached, unless deleted since |
| LocalRuns.ContentsAreLastStored | internal/deckstore/local.go:54-57 | no event but a rename or a deletion has a say in what is stored |
| LocalRuns.PutCanEnd | internal/deckstore/local.go:22-59 | in any state the calls of a Put can all be made wherever Store.Put accepts them, and then the deck file holds the data and no other file has changed |
| LocalRuns.ListShowsTheMap | internal/deckstore/local.go:81-99 | after any run the ids List gives for what the directory shows are exactly the stored ids without folder part, each once |
| LocalRuns.TempsUnlisted | internal/deckstore/local.go:92-96 | a temp file in the directory is shown by it and never listed |
| LocalRuns.ListedExactly | internal/deckstore/local.go:77-80 | a namespaced id is never listed |
| RateLimit.Limiter.constructor | internal/ratelimit/ratelimit.go:31-38 | no buckets |
| RateLimit.Limiter.Allow | internal/ratelimit/ratelimit.go:42-65 | refill up to the burst, spend one token if there is one, all other buckets untouched |
| RateLimit.Limiter.Cleanup | internal/ratelimit/ratelimit.go:70-79 | exactly the buckets idle for longer than the idle time go |
| RateLimit.RunInRange | internal/ratelimit/ratelimit.go:47-64 | tokens stay within 0 and the burst in every run |
| RateLimit.WindowBound | internal/ratelimit/ratelimit.go:42-65 | in any run over any keys, one key is allowed at most burst + rate * length requests in any window |
| RateLimit.BurstServed | internal/ratelimit/ratelimit.go:42-65 | as many requests at once are allowed as there are whole tokens, the whole burst for a new key |
| RateLimit.RefillServes | internal/ratelimit/ratelimit.go:51-64 | a key that has had the time to earn a token is allowed, whatever it has spent |
| RateLimit.SpendingBound | internal/ratelimit/ratelimit.go:42-65 | from any state, a key spends at most what it has plus what it earns |
| RateLimit.KeysIndependent | internal/ratelimit/ratelimit.go:47-64 | a key's answers are those of the run restricted to that key |
| RateLimit.SweepingBisimilar | internal/ratelimit/ratelimit.go:67-79 | a limiter cleaned up at arbitrary points answers like one that never is, an absent bucket matching a full one |
| RateLimit.SweepObserved | internal/ratelimit/ratelimit.go:67-79 | for every limiter with too short an idle time some run shows the cleanup |
| RateLimit.SweepUnobservableExactly | internal/ratelimit/ratelimit.go:67-79 | cleanup is unobservable if and only if burst < 1 or rate * idle >= burst |
| RateLimit.ConfiguredLimiters | cmd/server/main.go:575-586 | it is for the four limiters of the server |
| CacheWarm.Warmer.ShouldWarm | internal/cachewarm/cachewarm.go:89-101 | true exactly for a named deck that is not held back |
| CacheWarm.Warmer.TriggerDeck | internal/cachewarm/cachewarm.go:110-146 | what is queued and how long the deck is held back, whether or not everything fits |
| CacheWarm.Warmer.OfferAll | internal/cachewarm/cachewarm.go:125-144 | jobs are queued in order until the first that does not fit |
| CacheWarm.Warmer.Next | internal/cachewarm/cachewarm.go:160-167 | one tick takes the oldest job, if any |
| CacheWarm.StepKeepsInv | internal/cachewarm/cachewarm.go:98-169 | every lock section, channel operation and clock step keeps cooldowns and queue in order |
| CacheWarm.ClaimsApart | internal/cachewarm/cachewarm.go:115-143 | in every interleaving two claims of one deck are at least min(rewarmAfter, dropRetryAfter) apart |
| CacheWarm.HeldExactly | internal/cachewarm/cachewarm.go:98-123 | in every interleaving a deck none of whose claims met a full queue is held back exactly until its last claim plus rewarmAfter |
| CacheWarm.WarmsAgain | internal/cachewarm/cachewarm.go:98-123 | a deck never claimed can be warmed at once, and any deck when both cooldowns have gone by |
| CacheWarm.QueueIsFifo | internal/cachewarm/cachewarm.go:130-169 | the queue keeps to its capacity; queued jobs are the resolved ones followed by those waiting, in order |
| CacheWarm.ClaimsQueueTheirCards | internal/cachewarm/cachewarm.go:125-144 | in every interleaving each claiming call has queued a first part of its own cards in order, each once: all of them when it was through, not all when it found the queue full |
| AxiomLog.Writer.Write | internal/axiomlog/axiomlog.go:75-90 | a line is appended whole or dropped whole, and when a kick is due |
| AxiomLog.Writer.Snapshot | internal/axiomlog/axiomlog.go:115-125 | the whole buffer once, then an empty one |
| AxiomLog.StepKeepsInv | internal/axiomlog/axiomlog.go:75-125 | every step of writers, loop and Close keeps the log's invariant |
| AxiomLog.BatchesPartitionLog | internal/axiomlog/axiomlog.go:75-125 | the snapshots in order followed by the buffer are the accepted lines in order, cut at lines, each within the size bound |
| AxiomLog.AcceptedWhole | internal/axiomlog/axiomlog.go:75-90 | in every run that writes no more than four MiB every line is accepted, in order |
| AxiomLog.DroppedExactly | internal/axiomlog/axiomlog.go:75-125 | in any run only a line the buffer has no room for is dropped, and a flush leaves room |
| AxiomLog.FullBatchIsNoticed | internal/axiomlog/axiomlog.go:81-113 | a full buffer with a byte in it always has a kick waiting, a writer about to send one, or a flush coming |
| AxiomLog.NoticedExactly | internal/axiomlog/axiomlog.go:75-125 | which full buffers always have a flush on the way: exactly those with a byte in them |
| AxiomLog.CloseShipsEverything | internal/axiomlog/axiomlog.go:92-98 | when Close has returned, every line accepted before it has left the buffer, empty lines excepted |
| AxiomLog.CloseCanReturn | internal/axiomlog/axiomlog.go:92-98 | Close can be called once from any reachable state, and then returns with every byte shipped |
| AxiomLog.LoopCanFlush | internal/axiomlog/axiomlog.go:100-113 | until then the loop can flush at any time |
| AxiomLog.EmptyLinesStick | internal/axiomlog/axiomlog.go:115-120 | a run of a hundred or more empty writes, flushed, after which the buffer is still full and nothing is on its way |
| SpotifyBreaker.Client.RecordFailure | internal/spotifyapi/spotifyapi.go:280-289 | counts, and opens the circuit for the cooldown from the third failure on |
| SpotifyBreaker.Client.GetToken | internal/spotifyapi/spotifyapi.go:220-278 | refuses while open, hands out a valid token again, otherwise asks and hands out the new one; success resets the breaker |
| SpotifyBreaker.Client.GetTrack | internal/spotifyapi/spotifyapi.go:148-172 | succeeds exactly when it gets a token that is not rejected; a 401 counts as a failure too |
| SpotifyBreaker.TokensAreGranted | internal/spotifyapi/spotifyapi.go:220-285 | in any run a call gets, with the circuit closed, the token obtained last while that has more than a minute to live, without asking again, and otherwise what the token endpoint grants it |
| SpotifyBreaker.NewTokenClosesCircuit | internal/spotifyapi/spotifyapi.go:262-285 | after a new token it takes three failures to open the circuit |
| SpotifyBreaker.StartsClosed | internal/spotifyapi/spotifyapi.go:275-285 | and three to open that of a new client |
| SpotifyBreaker.FailureBound | internal/spotifyapi/spotifyapi.go:148-289 | in any stretch of a sequential run without a new token, at most 3 + length / cooldown calls reach recordFailure |
| SpotifyBreaker.FailuresWithinAllowance | internal/spotifyapi/spotifyapi.go:148-289 | the same from any state, counting the failures already seen and the time still to wait |
| SpotifyBreaker.FailuresApart | internal/spotifyapi/spotifyapi.go:280-289 | from the third failure in a row on, the next one is at least a cooldown later |
| SpotifyBreaker.BoundAttained | internal/spotifyapi/spotifyapi.go:148-289 | for every number of cooldowns some run reaches the bound |
| SigV4.AwsQueryEscape | internal/deckstore/sigv4.go:123-135 | the byte loop escapes byte by byte |
| SigV4.UnescapeEscape | internal/deckstore/sigv4.go:123-135 | decoding inverts escaping for all byte strings |
| SigV4.EscapeIsEncoded | internal/deckstore/sigv4.go:123-135 | only unreserved characters and %XX with upper-case digits come out |
| SigV4.EscapeExactly | internal/deckstore/sigv4.go:123-135 | byte by byte what escaping gives: section 2.3 of RFC 3986 names what stands for itself, the rest is %XX in upper case |
| SigV4.EncodedOrderExact | internal/deckstore/sigv4.go:142-145 | encoding keeps the order of two strings exactly when they do not flip |
| SigV4.BuildCanonicalQuery | internal/deckstore/sigv4.go:137-158 | whatever order the map gives, the result is the one string listing each pair as often as it occurs, by name and then by value |
| SigV4.TwoParameters | internal/deckstore/sigv4.go:137-158 | what two parameters look like |
| SigV4.CanonicalQueryExact | internal/deckstore/sigv4.go:137-158 | two queries have the same canonical string if and only if they map the same keys to the same multisets of values |
| SigV4.EncodedNameOrderExact | internal/deckstore/sigv4.go:142-145 | names come out in encoded order if and only if no two flip |
| SigV4.UnreservedNeverFlips | internal/deckstore/s3.go:173-179 | names like those of the listing never do |
| SigV4.FlippedNames | internal/deckstore/sigv4.go:142-145 | two names that do |
| SigV4Headers.Collect | internal/deckstore/sigv4.go:85-91 | the pairs of some order of the headers: the signed ones, lower-cased, first value trimmed; a panic exactly when a signed header has no value |
| SigV4Headers.Deduplicate | internal/deckstore/sigv4.go:99-107 | for each name its first pair |
| SigV4Headers.SortByName | internal/deckstore/sigv4.go:109 | the same pairs by name |
| SigV4Headers.BuildCanonicalHeaders | internal/deckstore/sigv4.go:83-117 | the rendering of what some order of the headers signs, unless taking the first value of a signed header panics |
| SigV4Headers.SignedExact | internal/deckstore/sigv4.go:83-107 | in whatever order, exactly the names some header gives and "host" are signed, with a value given for them, the request's host when no header gives one |
| SigV4Headers.SignedNames | internal/deckstore/sigv4.go:83-107 | in whatever order and case they come, exactly content-type, host, x-amz- headers with a value, and "host" always, are signed |
| SigV4Headers.RenderingExact | internal/deckstore/sigv4.go:111-116 | the canonical headers tell exactly which names are signed with which values |
| SigV4Headers.OrderFreeExact | internal/deckstore/sigv4.go:83-117 | all orders of the header map give one result if and only if no two headers of one name disagree |
| SigV4Headers.TwoResults | internal/deckstore/sigv4.go:83-117 | a header map with two results |
| Vote.WinnerUnique | internal/metadata/metadata.go:323-367 | the winner depends on the ballots only |
| Vote.MostCommon | internal/metadata/metadata.go:323-367 | whatever the map's order, the loop finds the value of highest count, ties by the fixed preference |
| Vote.ChooseMostCommon | internal/metadata/metadata.go:323-342 | the most frequent, ties going to the larger string |
| Vote.ChooseMostCommonInt | internal/metadata/metadata.go:344-367 | the most frequent, ties going to the older year |
| Vote.DecidedExactly | internal/metadata/metadata.go:196-220 | a winner stands against all ballots still out if and only if no rival could catch up with all of them |
| Vote.UnanimousQuorumDecides | internal/metadata/metadata.go:196-220 | a unanimous quorum of any number of providers decides |
| Vote.SplitQuorumUndecided | internal/metadata/metadata.go:196-220 | two of three do not, with two of five still out |
| Metadata.Collect | internal/metadata/metadata.go:204-220 | the first answers as they arrive: a majority of the providers, three, unless the context ends or answers run out before |
| Metadata.Gather | internal/metadata/metadata.go:226-248 | the fields to vote on, empty ones left out |
| Metadata.Aggregate | internal/metadata/metadata.go:226-288 | the result is the one majority vote over the answers |
| Metadata.ElectIsVote | internal/metadata/metadata.go:226-288 | it is a majority vote, field by field, in the casing of the first answer that agrees |
| Metadata.YearIsMajority | internal/metadata/metadata.go:236-238 | the elected year is given by at least as many answers as any other, by more than any older one; 0 only when none gives a year |
| Metadata.NameIsMajority | internal/metadata/metadata.go:230-235 | the elected normal form of a name is given by at least as many answers as any other, by more than any larger one |
| Metadata.SpellingIsFirst | internal/metadata/metadata.go:254-280 | the first spelling given that has it |
| Metadata.NameFallsBack | internal/metadata/metadata.go:273-280 | the name handed out is one given or what was searched for, and empty only if that is |
| Metadata.AppleIsFirst | internal/metadata/metadata.go:239-253 | the first link given |
| Metadata.ArtworksGiven | internal/metadata/metadata.go:242-244 | all artwork links given |
| Metadata.ArtworkPreferred | internal/metadata/metadata.go:369-390 | of them the first of the best rank: Cover Art Archive, Discogs, Deezer, any other |
| Metadata.VoteDetermined | internal/metadata/metadata.go:226-288 | there is only one |
| Metadata.ArrivalOrderFree | internal/metadata/metadata.go:206-252 | the order in which the providers answer does not change the elected normal forms and year |
| Metadata.NameSettled | internal/metadata/metadata.go:196-288 | a quorum that agrees on the artist, or on the title, settles it, in its normal form and in the spelling handed out |
| Metadata.YearSettled | internal/metadata/metadata.go:196-288 | a quorum that agrees on the year settles it |
| Metadata.SafeToStopExactly | internal/metadata/metadata.go:196-220 | no two further answers can change a name if and only if the whole quorum gives it |
| Metadata.YearSafeToStopExactly | internal/metadata/metadata.go:196-220 | nor the year if and only if the whole quorum gives it |
| Metadata.NormalizeKeyUnbounded | internal/metadata/metadata.go:316-321 | normal forms have no largest one, so a tie can always go the other way |
| MetadataText.NormalExact | internal/metadata/metadata.go:316-321 | a text is its own normal form if and only if it is lower-case words with one space between them |
| MetadataText.NormalizeKeyIdempotent | internal/metadata/metadata.go:316-321 | normalising twice changes nothing more |
| MetadataText.CutExact | internal/metadata/metadata.go:108-113 | a separator cuts off all from its first occurrence on, unless the title begins with it |
| MetadataText.BareTitle | internal/metadata/metadata.go:106-115 | the bare title is the title without what it says in brackets or behind a dash, and without the spaces around |
| MetadataText.SharedExactly | internal/metadata/metadata.go:122 | for any idempotent normalisation, exactly which searches share their key with a different one |
| MetadataText.SharedByBareBars | internal/metadata/metadata.go:122 | for normalizeKey: those whose key has a second bar with no space next to it |
| MetadataText.KeyExact | internal/metadata/metadata.go:122 | keys of artists without a bar coincide if and only if artist and title do |
| MetadataText.KeyCollision | internal/metadata/metadata.go:122 | two different songs under one key, with normalizeKey itself |
| MetadataCache.MemoryCache.Get | internal/metadata/metadata.go:693-707 | the stored pointer, or nothing, deleting what has expired |
| MetadataCache.MemoryCache.Set | internal/metadata/metadata.go:709-716 | the entry with its expiry, the cache's own lifetime when none is given |
| MetadataCache.Resolver.Conclude | internal/metadata/metadata.go:282-301 | caches a vote over a quorum only, until when, and hands out a copy |
| MetadataCache.Resolver.ResolveOnce | internal/metadata/metadata.go:117-302 | the value of a live entry or the vote of a new round, never the cached object itself; what the round stores, under which key and until when |
| MetadataCache.Resolver.Alias | internal/metadata/metadata.go:97-101 | the full title's key is pointed at the very object handed out exactly when the bare title is still cached; no other entry changes |
| MetadataCache.Resolver.Retry | internal/metadata/metadata.go:85-102 | the second round's value, exactly when its object is aliased, and that only two keys change |
| MetadataCache.Resolver.Resolve | internal/metadata/metadata.go:80-103 | from the cache before the call and the two rounds: what is returned, the vote over the first three answers when three arrive in time, which is then cached, exactly when the cache holds the very object, and that only two keys change |
| MetadataCache.Resolver.CallerEdits | internal/metadata/metadata.go:304-314 | editing a result the cache does not hold leaves the cache sound |
| MetadataCache.PathKeepsArtist | internal/metadata/metadata.go:94-101 | without bars in the artists, aliases only lead between searches for the same artist |
| MetadataCache.EntriesAreVotes | internal/metadata/metadata.go:290-296 | every cached entry is the majority vote over at least a quorum of what a round that was made collected, for the entry's own search or for the bare title of searches that found nothing and led to it |
| TitleText.NormalizeIdempotent | internal/youtube/youtube.go:315-320 | normalising twice changes nothing more |
| TitleText.NormalizeSettles | internal/youtube/youtube.go:298-320 | a normal form has only characters that normalising leaves alone |
| TitleText.PunctuationSeparates | internal/youtube/youtube.go:308-320 | punctuation separates words as a space does |
| TitleText.MarksVanish | internal/youtube/youtube.go:308-320 | quotes, question and exclamation marks do not count |
| TitleText.CapitalsRead | internal/youtube/youtube.go:315-320 | nor does the case of letters |
| TitleText.DiacriticsRead | internal/youtube/youtube.go:298-306 | letters with diacritics read like those without |
| TitleText.SharpSRead | internal/youtube/youtube.go:298-306 | and a sharp s like two |
| TitleText.OthersStay | internal/youtube/youtube.go:298-320 | every other character is left as it is |
| TitleText.MatchFormIdempotent | internal/youtube/youtube.go:322-350 | folding a title for comparison twice changes nothing more |
| TitleText.AcronymsJoin | internal/youtube/youtube.go:322-350 | an acronym of two letters or more is compared without its dots |
| TitleText.AcronymEndExact | internal/youtube/youtube.go:329 | what the expression for acronyms matches at a position: the longest run of small letters with dots between, cut off from any word at both ends, with the dot behind it |
| TitleText.ApostrophesAlike | internal/youtube/youtube.go:322-325 | look-alike apostrophes compare like the straight one |
| TitleText.ElisionGoes | internal/youtube/youtube.go:322-350 | a French elision is compared without what it elides with |
| TitleText.ContractionStays | internal/youtube/youtube.go:330-335 | any other contraction stays |
| TitleText.MatchFormIsKeyForm | internal/youtube/youtube.go:337-350 | without dots and apostrophes the match form is the form of the cache key |
| TitleText.MatchFormSettles | internal/youtube/youtube.go:343-350 | no step of the folding finds anything left to do |
| YouTubeMatch.MeaningfulWords | internal/youtube/youtube.go:287-296 | the words of more than two characters, in order |
| YouTubeMatch.WordSetOf | internal/youtube/youtube.go:279-285 | the set of words |
| YouTubeMatch.SaysOtherVersion | internal/youtube/youtube.go:205-233 | both disqualification loops together decide whether the video claims a version the track does not mention |
| YouTubeMatch.ScoreMatch | internal/youtube/youtube.go:199-277 | the score |
| YouTubeMatch.CoreTitleExact | internal/youtube/youtube.go:181-197 | which titles are left alone and what is cut off the others: all from the first occurrence of the first kind of separator, a leading one not counting |
| YouTubeMatch.VersionCut | internal/youtube/youtube.go:181-197 | exactly when what stands in brackets or behind a dash is cut off a text without separators |
| YouTubeMatch.VersionsDoNotCount | internal/youtube/youtube.go:199-277 | a relaxed comparison scores a title as it does without that |
| YouTubeMatch.DisqualifiedExactly | internal/youtube/youtube.go:205-233 | what disqualifies a video: an unwanted mark, or a word with a mix suffix, that neither title nor artist holds |
| YouTubeMatch.ScoreValue | internal/youtube/youtube.go:235-277 | a score that is not zero: the share of the words found in tenths, rounded down, two for the artist, one for each marker up to three |
| YouTubeMatch.ScoresExactly | internal/youtube/youtube.go:235-256 | a video scores if and only if the title has a word to look for, seven tenths of its words occur, and a strict comparison does not rule it out |
| YouTubeMatch.StrictOrNothing | internal/youtube/youtube.go:199-277 | a strict score is 0 or the relaxed one, and every score is 0 or between 7 and 15 |
| YouTubeMatch.ShortTitlesNeverMatch | internal/youtube/youtube.go:242-244 | a title of short words only matches nothing |
| YouTubeMatch.BestMatch | internal/youtube/youtube.go:120-135 | the first item of highest score, nothing when no item scores |
| YouTubeMatch.WorthExactly | internal/youtube/youtube.go:120-135 | which items count in each pass: videos with an id that cover the title, in the strict pass those not disqualified |
| YouTubeMatch.FirstBestUnique | internal/youtube/youtube.go:120-135 | which is unique |
| YouTubeMatch.SearchExact | internal/youtube/youtube.go:85-116 | exactly which searches succeed, and with which video |
| YouTubeMatch.VariantsOnlyFillGaps | internal/youtube/youtube.go:85-116 | welcoming versions never changes a strict answer; an added answer is a video the strict search ruled out |
| YouTubeMatch.MatcherHasNoBars | internal/youtube/youtube.go:308-320 | normal forms never hold the separator of the cache keys |
| YouTubeMatch.CacheKeyExact | internal/youtube/youtube.go:53-59 | keys coincide if and only if normalised artist, normalised title and mode do |
| YouTubeMatch.Searcher.SearchVideoID | internal/youtube/youtube.go:65-116 | a cached answer or a search, and only successes are cached |
| YouTubeMatch.AnswersFitTheQuestion | internal/youtube/youtube.go:50-74 | in every run an answer was found by a search for the same track in the same mode |
| YouTubeMatch.AnswersStay | internal/youtube/youtube.go:65-98 | an answer once given is given ever after |
| CardIndex.BuildIndex | internal/resolver/resolver.go:241-247 | under every key the last card loaded under it |
| CardIndex.UrlsTaken | internal/resolver/resolver.go:67-82 | for a lower-case host name, which URLs are taken: hitstergame.com and its subdomains, any port, deck of letters and digits, card of digits |
| CardIndex.HostCase | internal/resolver/resolver.go:67-73 | the case of the host does not matter |
| CardIndex.CanonicalText | internal/resolver/resolver.go:173-180 | a card is looked up under a numeral of its own number with at least five digits and no needless zero, too large a number under its very text |
| CardIndex.NumeralUnique | internal/resolver/resolver.go:173-180 | there is only one such numeral |
| CardIndex.ShortCards | internal/resolver/resolver.go:173-180 | card numbers of up to five digits are filled up with zeros |
| CardIndex.CanonicalExact | internal/resolver/resolver.go:173-180 | two card numbers are the same card if and only if they are the same number, spelled alike when too large for an int |
| CardIndex.LeadingZerosExact | internal/resolver/resolver.go:173-180 | leading zeros do not matter if and only if the number fits an int |
| CardIndex.KeyOfScannedCard | internal/resolver/resolver.go:181 | the key of a scanned card tells deck and number apart whatever the database holds |
| CardIndex.IndexAgreesWithScan | internal/resolver/resolver.go:167-190 | the index answers every URL like a scan for the last card of that deck and number |
| CardIndex.SpellingDoesNotMatter | internal/resolver/resolver.go:172-181 | neither case of the deck id nor leading zeros change the answer |
| CardIndex.ListDeck | internal/resolver/resolver.go:196-207 | whatever the map's order, exactly the entries under the deck's prefix |
| CardIndex.ResolvedIsListed | internal/resolver/resolver.go:192-207 | every card that resolves is listed for its deck with the same track |
| CardIndex.ListingExact | internal/resolver/resolver.go:196-207 | a deck's listing is that deck for all card contents if and only if no SKU goes on with a colon after the deck id |
| CardIndex.Resolver.Load | internal/resolver/resolver.go:216-253 | the index stands for the database fetched, unless fetching failed or the stamp is the loaded one |
| CardIndex.Resolver.Resolve | internal/resolver/resolver.go:167-190 | the answer of the scan through the loaded database, for every URL |
| CardIndex.Resolver.CardsInDeck | internal/resolver/resolver.go:196-207 | the loaded database's deck when no SKU goes on with a colon after the deck id, and always the last card under each key with the deck's prefix |
| CardIndex.SkippingIsSound | internal/resolver/resolver.go:234-239 | as long as stamps tell databases apart, skipping keeps the index that of the last database fetched |

## Left out

- HTTP handlers, CORS, gzip, request ids, client IP detection and log sanitising of `cmd/server`: plumbing around the parts modelled.
- The metadata providers, Spotify page scraping and the yt-dlp subprocess: each is an arbitrary answer or a failure.
- `s3.go` transport and XML, HMAC, signing keys and dates: only the canonical strings are modelled.
- `url.Parse`: the card index takes the host and the path segments; `http.Header` and `url.Values` are given as maps.
- Title cleaning in `deck/normalize.go`, `ytid.go` and `playlist.go`.
- The contents of the filter lists: the model takes any.
- Tickers, goroutine scheduling below lock sections and channel operations, and memory reordering.
- Int width outside RESP lengths, database numbers and card numbers; the buffer a bulk reply needs is assumed to be allocatable.
- ValkeyPool.StepKeepsInv: a read that ends in the middle of a reply, a failed write and an expired deadline are one event that closes the connection; how long they take is not modelled, and dialling is one step.
- ValkeyPool.ValkeyClient.GetOn: models the calls from a connection in hand to its return; dialling, the handshake and deadlines are in the state machine only.
- Resp.ReplyRoundTrip: arrays are not read, as in the code.
- RateLimit.WindowBound: floats are reals, and `now` does not run backwards from call to call although the code reads it before taking the lock.
- Metadata.ArrivalOrderFree: the spelling, the Apple Music link and the artwork handed out do depend on the order of arrival, as in the code.
- TwoTier.RefinesPlainMap: a tier that is not configured is one all of whose operations fail; entries leave the hot tier through expiry at any moment.
- Sweep.MemoryStore.CleanupExpired: the workers run one after the other in this method; their interleavings are the state machine of `Sweep.SweepIsComplete`.
- Sweep.SweepIsComplete: others do not write under the deck ids being swept, as fresh random ids are never listed.
- LocalRuns.GetReturnsLastStored: what reaches the disk before a power failure is not modelled; a death is that of the process.
- CacheWarm.QueueIsFifo: a queue of capacity 0, whose sends can meet a waiting receiver, is treated as always full.
- SpotifyBreaker.FailureBound: for callers one after another; concurrent callers may all fail before the circuit opens.
- MetadataCache.Resolver.ResolveOnce: the in-process cache, one call at a time; the provider goroutines are the arrival order of their answers.
- YouTubeMatch.Searcher.SearchVideoID: an installed cache keeps what it is given; without one every call is a search.
- TitleText.MatchFormIdempotent: `strings.Replacer` and the two regular expressions are written out as functions on runes.
