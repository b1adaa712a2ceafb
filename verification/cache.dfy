/** `MiniRedis`: the read-through cache engine that revalidates hits against
    the origin by comparing fingerprints. */
module Engine {
  import opened Values
  import opened CacheTypes
  import opened Origin

  /** The engine's settings: `default_ttl`, `validate_async`, and the
      `compute_hash` it fingerprints values with. */
  datatype Config = Config(defaultTtl: Option<real>, validateAsync: bool, hash: Hasher)

  // ---------------------------------------------------------------------
  // Reference definitions of what each operation does to the store
  // ---------------------------------------------------------------------

  /** The entry `set(key, value, ttl)` writes at time `now`: a falsy ttl (none or 0)
      means no expiry. */
  function NewEntry(value: Value, ttl: Option<real>, now: real, hash: Hasher): Entry
  {
    Entry(value, hash(value), if Truthy(ttl) then Some(now + ttl.value) else None)
  }

  /** Holds when `key` has an entry that has not expired at `now`. */
  predicate Live(s: map<string, Entry>, key: string, now: real)
  {
    key in s && !s[key].IsExpired(now)
  }

  /** The ttl a revalidation rewrite uses: what is left of the old expiry, or
      the default ttl when the old entry had none; floored at 0, and none when
      it comes out falsy. */
  function RemainingTtl(e: Entry, now: real, defaultTtl: Option<real>): (r: Option<real>)
    ensures r.Some? ==> r.value >= 0.0
    ensures Truthy(e.expireAt) && now < e.expireAt.value ==> r == Some(e.expireAt.value - now)
    ensures Truthy(e.expireAt) && now >= e.expireAt.value ==> !Truthy(r)
    ensures !Truthy(e.expireAt) && !Truthy(defaultTtl) ==> r.None?
    ensures !Truthy(e.expireAt) && Truthy(defaultTtl) ==> r == Some(Max(defaultTtl.value, 0.0))
  {
    var remaining := if Truthy(e.expireAt) then Some(e.expireAt.value - now) else defaultTtl;
    if Truthy(remaining) then Some(Max(remaining.value, 0.0)) else None
  }

  /** The store after `_validate_hash(key, e)` against the origin's current answers. */
  function Revalidated(s: map<string, Entry>, key: string, e: Entry, now: real,
                       origin: OriginStore, cfg: Config): map<string, Entry>
  {
    match origin.fetchHash(key)
    case None => s
    case Some(h) =>
      if h == e.hash then s
      else if origin.fetchValue(key) == Null then s - {key}
      else s[key := NewEntry(origin.fetchValue(key), RemainingTtl(e, now, cfg.defaultTtl), now, cfg.hash)]
  }

  /** Whether `_validate_hash(key, e)` writes the snapshot. */
  predicate RevalidationWrites(s: map<string, Entry>, key: string, e: Entry, origin: OriginStore)
  {
    && origin.fetchHash(key).Some?
    && origin.fetchHash(key).value != e.hash
    && (origin.fetchValue(key) == Null ==> key in s)
  }

  /** The miss path on a store that holds no entry for `key`: the result and the new store. */
  function Miss(s: map<string, Entry>, key: string, ttl: Option<real>, now: real,
                origin: OriginStore, cfg: Config): (Value, map<string, Entry>)
  {
    var v := origin.fetchValue(key);
    if v == Null then (Null, s)
    else (v, s[key := NewEntry(v, Or(ttl, cfg.defaultTtl), now, cfg.hash)])
  }

  /** What `get(key, ttl=ttl)` at time `now` returns and leaves in the store. */
  function GetSpec(s: map<string, Entry>, key: string, ttl: Option<real>, now: real,
                   origin: OriginStore, cfg: Config): (Value, map<string, Entry>)
  {
    if !Live(s, key, now) then Miss(s - {key}, key, ttl, now, origin, cfg)
    else if cfg.validateAsync then (s[key].value, s)
    else
      var s' := Revalidated(s, key, s[key], now, origin, cfg);
      if key in s' then (s'[key].value, s') else Miss(s', key, ttl, now, origin, cfg)
  }

  /** Whether `get` writes the snapshot: it does exactly when it deletes an
      entry or caches a value. */
  predicate GetWrites(s: map<string, Entry>, key: string, now: real, origin: OriginStore, cfg: Config)
  {
    if !Live(s, key, now) then key in s || origin.fetchValue(key) != Null
    else !cfg.validateAsync && RevalidationWrites(s, key, s[key], origin)
  }

  /** The snapshot `_persist` saves: every entry serialized under its key. */
  function Snapshot(store: map<string, Entry>): map<string, Serialized>
  {
    map k | k in store :: ToSerialized(store[k])
  }

  /** The store built from a loaded snapshot, or `None` when a record is
      malformed (the source raises `KeyError`). */
  function Load(snap: map<string, Serialized>): Option<map<string, Entry>>
  {
    if forall k :: k in snap ==> FromSerialized(snap[k]).Some?
    then Some(map k | k in snap :: FromSerialized(snap[k]).value)
    else None
  }

  // ---------------------------------------------------------------------
  // The engine
  // ---------------------------------------------------------------------

  /** `MiniRedis`. The origin is consulted through its protocol; since its
      state changes independently of the engine, each call receives the
      origin's current answers, as it receives the current time. */
  class Cache {
    const config: Config
    var store: map<string, Entry>
    /** What persistence last saved. */
    ghost var persisted: map<string, Serialized>

    /** Builds the store from the persisted snapshot; nothing is saved yet. */
    constructor (loaded: map<string, Serialized>, config: Config)
      requires Load(loaded).Some?
      ensures this.config == config
      ensures store == Load(loaded).value && persisted == loaded
    {
      this.config := config;
      store := map k | k in loaded :: FromSerialized(loaded[k]).value;
      persisted := loaded;
    }

    /** Holds when the saved snapshot is exactly the current store. */
    ghost predicate Synced()
      reads this
    {
      persisted == Snapshot(store)
    }

    /** `_persist`. */
    method Persist()
      modifies this
      ensures store == old(store) && Synced()
    {
      persisted := Snapshot(store);
    }

    /** `set`: replaces the entry for `key` and saves the snapshot. */
    method Set(key: string, value: Value, ttl: Option<real>, now: real)
      modifies this
      ensures store == old(store)[key := NewEntry(value, ttl, now, config.hash)]
      ensures Synced()
    {
      var expireAt := if Truthy(ttl) then Some(now + ttl.value) else None;
      var entry := Entry(value, config.hash(value), expireAt);
      store := store[key := entry];
      Persist();
    }

    /** `delete`: removes `key` and saves, or does nothing at all when the key is absent. */
    method Delete(key: string)
      modifies this
      ensures store == old(store) - {key}
      ensures key in old(store) ==> Synced()
      ensures key !in old(store) ==> store == old(store) && persisted == old(persisted)
    {
      if key in store {
        store := store - {key};
        Persist();
      }
    }

    /** `keys`: every key held, expired or not. */
    method Keys() returns (ks: set<string>)
      ensures ks == store.Keys
    {
      ks := store.Keys;
    }

    /** `_validate_hash`: compare the captured entry's hash with the origin's,
        and on a difference refetch and rewrite, or delete when the origin has
        no value. An absent origin hash changes nothing. */
    method ValidateHash(key: string, entry: Entry, now: real, origin: OriginStore)
      modifies this
      ensures store == Revalidated(old(store), key, entry, now, origin, config)
      ensures persisted == if RevalidationWrites(old(store), key, entry, origin) then Snapshot(store) else old(persisted)
    {
      var originHash := origin.fetchHash(key);
      if originHash.None? {
        return;
      }
      if originHash.value != entry.hash {
        var value := origin.fetchValue(key);
        if value == Null {
          Delete(key);
          return;
        }
        var ttlRemaining := if Truthy(entry.expireAt) then Some(entry.expireAt.value - now) else config.defaultTtl;
        ttlRemaining := if Truthy(ttlRemaining) then Some(Max(ttlRemaining.value, 0.0)) else None;
        Set(key, value, ttlRemaining, now);
      }
    }

    /** `_schedule_validation`. In asynchronous mode the captured entry is
        returned at once and validation is left to a later `ValidateHash` call;
        otherwise validation runs now and the current entry is read back. */
    method ScheduleValidation(key: string, entry: Entry, now: real, origin: OriginStore) returns (current: Option<Entry>)
      modifies this
      ensures config.validateAsync ==> current == Some(entry) && store == old(store) && persisted == old(persisted)
      ensures !config.validateAsync ==> store == Revalidated(old(store), key, entry, now, origin, config)
      ensures !config.validateAsync ==> persisted == if RevalidationWrites(old(store), key, entry, origin) then Snapshot(store) else old(persisted)
      ensures !config.validateAsync ==> current == if key in store then Some(store[key]) else None
    {
      if config.validateAsync {
        return Some(entry);
      }
      ValidateHash(key, entry, now, origin);
      current := if key in store then Some(store[key]) else None;
    }

    /** The miss path of `get` (`_fetch_from_origin`, then `set` with `ttl or default_ttl`).
        `get` calls it only once the store holds no entry for `key`. */
    method FillFromOrigin(key: string, ttl: Option<real>, now: real, origin: OriginStore) returns (r: Value)
      modifies this
      ensures (r, store) == Miss(old(store), key, ttl, now, origin, config)
      ensures persisted == if r == Null then old(persisted) else Snapshot(store)
    {
      var value := origin.fetchValue(key);
      if value == Null {
        return Null;
      }
      Set(key, value, Or(ttl, config.defaultTtl), now);
      return value;
    }

    /** `get`. */
    method Get(key: string, ttl: Option<real>, now: real, origin: OriginStore) returns (r: Value)
      modifies this
      ensures (r, store) == GetSpec(old(store), key, ttl, now, origin, config)
      ensures persisted == if GetWrites(old(store), key, now, origin, config) then Snapshot(store) else old(persisted)
    {
      var entry := if key in store then Some(store[key]) else None;
      if entry.Some? && entry.value.IsExpired(now) {
        Delete(key);
        entry := None;
      }
      if entry.None? {
        assert store == old(store) - {key};
        r := FillFromOrigin(key, ttl, now, origin);
        return;
      }
      entry := ScheduleValidation(key, entry.value, now, origin);
      if entry.None? {
        r := FillFromOrigin(key, ttl, now, origin);
        return;
      }
      r := entry.value.value;
    }
  }
}
