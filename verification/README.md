# redsnano cache engine in Dafny

A model of `MiniRedis`, the read-through key/value cache of the `redsnano`
package, with its entry record `CacheEntry` and the in-memory origin
`DictionaryOriginStore`.

The engine keeps a key→entry map. `get` serves a live entry. In synchronous mode it first
revalidates the entry: it compares the entry's stored hash with the origin's current
hash, refetches when they differ, and deletes the key when the origin's value
is gone. In asynchronous mode (the source's default) `get` returns the entry
it read, and the validation runs separately. On a miss or an expired entry, `get` reads the origin and caches
what it finds. `set`, and every `delete` that removes something, saves a
snapshot of the whole map.

Files:

- `values.dfy` (module `Values`): the JSON-shaped value (`Null` is Python's
  `None`), `Option`, the hash function type, and Python truthiness of optional
  floats (`if ttl`, `ttl or default_ttl`).
- `cache_types.dfy` (module `CacheTypes`): `Entry` with `IsExpired`,
  `ToSerialized` and `FromSerialized`.
- `origin.dfy` (module `Origin`): the `OriginStore` protocol as a pair of total
  functions, and the class `DictOrigin`.
- `cache.dfy` (module `Engine`): the class `Cache` and the reference functions
  it is verified against. `NewEntry`, `RemainingTtl`, `Revalidated`, `Miss`,
  `GetSpec`, `GetWrites`, `Snapshot` and `Load` say what each operation does
  to the store and to the saved snapshot.
- `cache_properties.dfy` (module `EngineProperties`): what `get`, `set` and
  revalidation promise, proved about those functions.
- `cache_scenarios.dfy` (module `CacheScenarios`): the three cache tests of
  `tests/test_cache.py`, as verified client methods stated for all keys, values,
  hash functions and times.

Modelling choices:

- Time is a `real` parameter `now`. Each engine call reads the clock once.
- `compute_hash` is a parameter of type `Value -> string`. The engine and the
  dictionary origin each hold one. Every property holds for any such
  function. Where the source relies on both sides hashing alike,
  `Coherent(origin, hash)` is a hypothesis, and `DictOrigin.AsStoreCoherent`
  discharges it for the dictionary origin.
- The engine depends only on the `OriginStore` protocol, not on the
  dictionary origin. The origin changes independently of the engine (`update`),
  so each engine call receives the origin's current answers (`AsStore()`),
  just as it receives the current time. Because the protocol ties
  `fetch_hash` and `fetch_value` together in no way, the branch of
  `_validate_hash` that deletes the key when the hash is present but the
  value is gone is a reachable case. The same holds for the second miss path
  of `get`.
- Synchronous validation (`validate_async=False`) is modelled in full. In
  asynchronous mode `get` returns the captured entry; the validation thread is
  the separate call `Cache.ValidateHash`, which a caller may run later.
- Saving is the assignment of `Snapshot(store)` to the ghost field
  `persisted`. Loading is the `loaded` snapshot given to the constructor.
- The two identical miss paths of `get` (redsnano/cache.py:52-57 and 60-65)
  are the single helper method `FillFromOrigin`. `_fetch_from_origin` is the
  call `origin.fetchValue(key)` inside it and inside `ValidateHash`.

Three behaviours of the code a reader may not expect:

- An origin hash of `None` leaves the entry alone. It does not evict it
  (redsnano/cache.py:95-96).
- A revalidation rewrite whose remaining ttl comes out at 0 or below gets no
  expiry at all, because `set` reads a ttl of 0 as "no ttl"
  (`ExhaustedRewriteNeverExpires`). In asynchronous mode a late validation
  can make an entry immortal this way. In synchronous mode the source can
  reach it too: `get` tests expiry with one clock read (redsnano/cache.py:48)
  and `_validate_hash` reads the clock again after two origin calls
  (redsnano/cache.py:103), so an entry that expires between the two reads is
  rewritten without expiry. Only the model's single `now` per call rules this
  out in synchronous mode.
- A malformed persisted snapshot makes construction fail (`KeyError`). It is
  not treated as an empty cache.

## Model

| member | source | states |
|---|---|---|
| `CacheTypes.ToSerialized` | redsnano/cache_types.py:19-20 | the record has exactly the keys value, hash and expire_at, holding the entry's value, hash and expiry time, with expire_at null exactly when the entry has no expiry |
| `CacheTypes.FromSerialized` | redsnano/cache_types.py:22-28 | decoding succeeds exactly for records with "value", a string "hash" and an expire_at that is absent, null or a number; it carries value and hash over, and the expiry is the number when there is one and none otherwise |
| `CacheTypes.EntryRoundTrip` | redsnano/cache_types.py:19-28 | from_serialized(to_serialized(e)) gives back e |
| `CacheTypes.MissingExpiryMeansNone` | redsnano/cache_types.py:23-28 | a record without expire_at decodes to an entry with no expiry |
| `CacheTypes.Entry.IsExpired` | redsnano/cache_types.py:30-31 | an entry without expiry is never expired; one with an expiry is expired exactly when now >= expire_at |
| `CacheTypes.NoExpiryNeverExpires` | redsnano/cache_types.py:30-31 | an entry without expire_at is never expired |
| `CacheTypes.ExpiredExactly` | redsnano/cache_types.py:30-31 | an entry with an expiry is expired exactly when now >= expire_at (inclusive boundary) |
| `CacheTypes.ExpiryMonotone` | redsnano/cache_types.py:30-31 | an entry expired at t is expired at every later time |
| `Origin.DictOrigin.constructor` | redsnano/origin.py:26-27 | the data is the seed when there is one, and empty otherwise |
| `Origin.DictOrigin.Update` | redsnano/origin.py:30-32 | afterwards fetch_value(key) is the value written, and every other key answers as before |
| `Origin.DictOrigin.FetchValue` | redsnano/origin.py:34-36 | the stored value for a present key, and None for an absent one |
| `Origin.DictOrigin.FetchHash` | redsnano/origin.py:38-40 | None exactly when fetch_value is None, and otherwise the hash of fetch_value |
| `Origin.DictOrigin.AsStore` | redsnano/origin.py:11-18 | the protocol view answers exactly as fetch_value and fetch_hash do |
| `Origin.DictOrigin.AsStoreCoherent` | redsnano/origin.py:34-40 | the dictionary origin's hash is absent exactly when its value is, and is the value's hash otherwise |
| `Engine.RemainingTtl` | redsnano/cache.py:102-105 | the rewrite ttl is never negative; it is the time left before the old expiry while that is ahead, falsy once it has passed, and the floored default ttl for an entry without expiry |
| `Engine.Cache.constructor` | redsnano/cache.py:19-35 | the store is the decoded loaded snapshot, and nothing is saved |
| `Engine.Cache.Persist` | redsnano/cache.py:108-110 | the saved snapshot becomes the serialized store, and the store is unchanged |
| `Engine.Cache.Set` | redsnano/cache.py:37-42 | only key's entry changes; it holds the value, its hash and now+ttl for a truthy ttl (else no expiry); the snapshot is then in sync |
| `Engine.Cache.Delete` | redsnano/cache.py:68-72 | the key is gone; the snapshot is in sync when something was removed, and store and snapshot are untouched when the key was absent |
| `Engine.Cache.Keys` | redsnano/cache.py:74-76 | exactly the store's keys, with no expiry filtering |
| `Engine.Cache.ValidateHash` | redsnano/cache.py:93-106 | the store becomes Revalidated(...); it is saved exactly when an entry is rewritten or an existing key deleted |
| `Engine.Cache.ScheduleValidation` | redsnano/cache.py:81-91 | async mode returns the captured entry and changes nothing; sync mode revalidates, then returns the key's current entry |
| `Engine.Cache.FillFromOrigin` | redsnano/cache.py:52-57 | returns the origin's value and caches it with ttl or default_ttl, or returns None and changes nothing |
| `Engine.Cache.Get` | redsnano/cache.py:44-66 | result and new store are GetSpec(...); the snapshot is saved exactly when get deletes or caches something |
| `EngineProperties.SetEntryExpiry` | redsnano/cache.py:38-39 | a set entry holds hash(value) and is expired at t exactly when the ttl is truthy and t >= now+ttl; a ttl of none or 0 never expires |
| `EngineProperties.ReloadRoundTrip` | redsnano/cache.py:32-35 | loading the snapshot _persist saves rebuilds exactly the store it was taken from |
| `EngineProperties.MissFetchesFromOrigin` | redsnano/cache.py:48-57 | with no live entry, get returns the origin's value; it caches it with ttl or default_ttl, or leaves the key absent when the origin has none; it saves exactly when it deleted or cached |
| `EngineProperties.RevalidationOutcomes` | redsnano/cache.py:93-106 | no origin hash: no change; equal hash: no change; differing hash and no value: key deleted; differing hash with a value: that value rewritten with the remaining ttl; other keys untouched |
| `EngineProperties.RewriteKeepsDeadline` | redsnano/cache.py:102-106 | a rewrite before the old expiry keeps the same absolute expiry |
| `EngineProperties.ExhaustedRewriteNeverExpires` | redsnano/cache.py:102-106 | a rewrite at or after the old expiry gives an entry with no expiry |
| `EngineProperties.RewriteWithoutExpiryUsesDefault` | redsnano/cache.py:102-106 | rewriting an entry without expiry sets now+default_ttl for a positive default, and no expiry otherwise |
| `EngineProperties.FreshEntryPassesRevalidation` | redsnano/origin.py:38-40 | an entry written from a coherent origin's current value is left alone by revalidation, without a save |
| `EngineProperties.RevalidationSettles` | redsnano/cache.py:93-106 | against a coherent origin, revalidating the stored entry a second time changes nothing |
| `EngineProperties.SetThenGet` | redsnano/cache.py:59-66 | after set, a get before expiry returns the value and writes nothing, when the origin has no hash or the same hash, and always in async mode |
| `EngineProperties.NoNeedlessRewrite` | redsnano/cache.py:97 | a hit whose hash equals the origin's is served unchanged, with no save |
| `EngineProperties.AbsentOriginHashKeepsEntry` | redsnano/cache.py:94-96 | a hit whose origin has no hash is served and kept, with no save |
| `EngineProperties.EvictedHitConsultsOrigin` | redsnano/cache.py:59-65 | a sync hit evicted by revalidation goes back to the origin and returns None, leaving the key absent |
| `EngineProperties.SyncGetSettles` | redsnano/cache.py:81-91 | a sync get on a coherent origin holding b leaves an entry with hash(b) holding the returned value, which is b unless the live entry already had hash(b) |
| `EngineProperties.HashMismatchRefreshes` | redsnano/cache.py:59-66 | once the origin moves from a to b with a different hash, a sync get returns b and stores hash(b), and the next get, at the same time or later, returns b too |
| `EngineProperties.HashCollisionServesCached` | redsnano/cache.py:97 | if b's hash equals the cached entry's hash, a sync get keeps serving the cached value |
| `EngineProperties.AsyncHitServesCached` | redsnano/cache.py:82-87 | in async mode a hit returns the cached value and changes nothing |
| `EngineProperties.GetOnlyTouchesKey` | redsnano/cache.py:44-66 | get leaves every other key's entry as it was |
| `CacheScenarios.GetAndSetRoundTrip` | tests/test_cache.py:17-25 | a miss returns the origin's value, a set value is served before its ttl ends, and both keys are then held |
| `CacheScenarios.TtlExpiration` | tests/test_cache.py:28-34 | an entry is served before its ttl ends; after that, get returns the origin's new value |
| `CacheScenarios.HashMismatchTriggersRefresh` | tests/test_cache.py:37-43 | after the origin changes to a value with another hash, the next get and the one after return it |

## Left out

- Locks and the daemon validation threads (redsnano/cache.py:31, 82-87, and the origin's lock). Every call runs to completion before the next starts, so the last-writer-wins race between a late validation and a `set` shows up only as calls in sequence.
- Clock reads within one call: the model uses one `now` for the expiry check, the remaining-ttl computation and `set`. The source reads `time.time()` at each of those points (redsnano/cache.py:38, 48, 103).
- EngineProperties.RewriteKeepsDeadline: holds exactly only under the single clock. In the source the rewritten expiry drifts later by the time that passes between the clock read at redsnano/cache.py:103 and the one at redsnano/cache.py:38.
- Value aliasing: `set` stores the caller's object (redsnano/cache.py:39), the miss path caches the very object the dictionary origin holds (redsnano/cache.py:53-56, redsnano/origin.py:34-36), and `get` returns the cached object itself (redsnano/cache.py:66). In the source an in-place mutation of that object changes the cached value but not its stored hash. The model's `Value` is immutable, so this cannot be expressed.
- Number kinds and non-JSON values: `Value` merges Python int and float into `Num(real)`, while `compute_hash(1)` and `compute_hash(1.0)` differ in the source. Values that are not JSON, which `compute_hash` hashes through `repr` (redsnano/hashing.py:12), are not representable.
- SHA-256 and JSON canonicalisation in `redsnano/hashing.py`. The hash is an arbitrary deterministic function.
- File I/O of `JSONPersistence`: `load` is the constructor's `loaded` argument, and `save` is the assignment to `persisted`. The persistence default `JSONPersistence("cache.json")` is not modelled.
- Exceptions raised by an origin or by persistence. The origin's answers are total functions.
- `Engine.Cache.constructor`: a malformed record makes the source raise `KeyError`. This is a precondition (`Load(loaded).Some?`) here, not an error result.
- `CacheTypes.FromSerialized`: a record whose hash is not a string, or whose expire_at is not a number or null, is refused. Python would build an ill-typed entry from it.
- `Engine.Cache.Keys`: returns a set. The source returns a list in the dictionary's order, which holds no duplicates.
- `JSONFileOriginStore` and the SQLite origin and repository: disk- and database-backed origins outside this model.
- Mutation of `default_ttl` by the HTTP front end (redsnano/server.py:62-66): `default_ttl` is fixed at construction here. The front ends, CLI and the legacy top-level prototype are not part of this model.
- Floating-point timestamps are exact reals: no rounding.
