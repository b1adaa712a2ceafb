/** What the engine's operations promise, proved about the reference
    definitions the engine's methods are verified against. */
module EngineProperties {
  import opened Values
  import opened CacheTypes
  import opened Origin
  import opened Engine

  // ---------------------------------------------------------------------
  // set and expiry
  // ---------------------------------------------------------------------

  /** An entry written by `set` carries the value's hash and expires at
      `now + ttl` exactly when the ttl is truthy; a ttl of none or 0 never expires. */
  lemma SetEntryExpiry(v: Value, ttl: Option<real>, now: real, hash: Hasher, t: real)
    ensures NewEntry(v, ttl, now, hash).value == v && NewEntry(v, ttl, now, hash).hash == hash(v)
    ensures NewEntry(v, ttl, now, hash).IsExpired(t) <==> Truthy(ttl) && t >= now + ttl.value
    ensures !Truthy(ttl) ==> NewEntry(v, ttl, now, hash).expireAt.None?
  {
  }

  // ---------------------------------------------------------------------
  // persistence
  // ---------------------------------------------------------------------

  /** Loading what `_persist` saved rebuilds exactly the store it was saved from. */
  lemma ReloadRoundTrip(s: map<string, Entry>)
    ensures Load(Snapshot(s)) == Some(s)
  {
    var snap := Snapshot(s);
    forall k | k in snap ensures FromSerialized(snap[k]) == Some(s[k]) {
      EntryRoundTrip(s[k]);
    }
    var loaded := map k | k in snap :: FromSerialized(snap[k]).value;
    assert loaded == s;
  }

  // ---------------------------------------------------------------------
  // get: the miss path
  // ---------------------------------------------------------------------

  /** With no live entry (absent, or expired and so deleted), `get` returns
      what the origin holds; it caches a value with `ttl or default_ttl`, and
      leaves the key absent when the origin has none. */
  lemma MissFetchesFromOrigin(s: map<string, Entry>, key: string, ttl: Option<real>, now: real,
                              origin: OriginStore, cfg: Config)
    requires !Live(s, key, now)
    ensures GetSpec(s, key, ttl, now, origin, cfg).0 == origin.fetchValue(key)
    ensures origin.fetchValue(key) == Null ==> GetSpec(s, key, ttl, now, origin, cfg).1 == s - {key}
    ensures origin.fetchValue(key) != Null ==>
      GetSpec(s, key, ttl, now, origin, cfg).1 == s[key := NewEntry(origin.fetchValue(key), Or(ttl, cfg.defaultTtl), now, cfg.hash)]
    ensures GetWrites(s, key, now, origin, cfg) <==> key in s || origin.fetchValue(key) != Null
  {
  }

  // ---------------------------------------------------------------------
  // _validate_hash
  // ---------------------------------------------------------------------

  /** The four outcomes of revalidation. */
  lemma RevalidationOutcomes(s: map<string, Entry>, key: string, e: Entry, now: real,
                             origin: OriginStore, cfg: Config)
    ensures origin.fetchHash(key).None? ==> Revalidated(s, key, e, now, origin, cfg) == s
    ensures origin.fetchHash(key) == Some(e.hash) ==> Revalidated(s, key, e, now, origin, cfg) == s
    ensures origin.fetchHash(key).Some? && origin.fetchHash(key) != Some(e.hash) && origin.fetchValue(key) == Null ==>
      Revalidated(s, key, e, now, origin, cfg) == s - {key}
    ensures origin.fetchHash(key).Some? && origin.fetchHash(key) != Some(e.hash) && origin.fetchValue(key) != Null ==>
      Revalidated(s, key, e, now, origin, cfg) == s[key := NewEntry(origin.fetchValue(key), RemainingTtl(e, now, cfg.defaultTtl), now, cfg.hash)]
    ensures forall k :: k != key ==> (k in Revalidated(s, key, e, now, origin, cfg) <==> k in s)
    ensures forall k :: k != key && k in s ==> Revalidated(s, key, e, now, origin, cfg)[k] == s[k]
  {
  }

  /** A rewrite keeps the old entry's absolute expiry while it is still ahead. */
  lemma RewriteKeepsDeadline(e: Entry, v: Value, now: real, cfg: Config)
    requires Truthy(e.expireAt) && now < e.expireAt.value
    ensures NewEntry(v, RemainingTtl(e, now, cfg.defaultTtl), now, cfg.hash).expireAt == e.expireAt
  {
  }

  /** A rewrite at or after the old expiry yields an entry that never expires
      (the floored remaining ttl is 0, which `set` reads as no ttl). */
  lemma ExhaustedRewriteNeverExpires(e: Entry, v: Value, now: real, cfg: Config)
    requires Truthy(e.expireAt) && now >= e.expireAt.value
    ensures NewEntry(v, RemainingTtl(e, now, cfg.defaultTtl), now, cfg.hash).expireAt.None?
  {
  }

  /** A rewrite of an entry without expiry starts the default ttl afresh; a
      default that is none, zero or negative gives no expiry. */
  lemma RewriteWithoutExpiryUsesDefault(e: Entry, v: Value, now: real, cfg: Config)
    requires !Truthy(e.expireAt)
    ensures NewEntry(v, RemainingTtl(e, now, cfg.defaultTtl), now, cfg.hash).expireAt ==
      if Truthy(cfg.defaultTtl) && cfg.defaultTtl.value > 0.0 then Some(now + cfg.defaultTtl.value) else None
  {
  }

  /** An entry written from a coherent origin's current value passes
      revalidation untouched as long as the origin does not change. */
  lemma FreshEntryPassesRevalidation(s: map<string, Entry>, key: string, ttl: Option<real>, t0: real, now: real,
                                     origin: OriginStore, cfg: Config)
    requires Coherent(origin, cfg.hash) && origin.fetchValue(key) != Null
    ensures Revalidated(s, key, NewEntry(origin.fetchValue(key), ttl, t0, cfg.hash), now, origin, cfg) == s
    ensures !RevalidationWrites(s, key, NewEntry(origin.fetchValue(key), ttl, t0, cfg.hash), origin)
  {
    assert origin.fetchHash(key) == Some(cfg.hash(origin.fetchValue(key)));
  }

  /** Against a coherent origin, revalidating the stored entry a second time
      changes nothing: the first pass already settled it. */
  lemma RevalidationSettles(s: map<string, Entry>, key: string, now: real, now': real,
                            origin: OriginStore, cfg: Config)
    requires Coherent(origin, cfg.hash) && key in s
    ensures var s1 := Revalidated(s, key, s[key], now, origin, cfg);
      key in s1 ==> Revalidated(s1, key, s1[key], now', origin, cfg) == s1
  {
    var s1 := Revalidated(s, key, s[key], now, origin, cfg);
    if key in s1 && origin.fetchValue(key) != Null {
      assert origin.fetchHash(key) == Some(cfg.hash(origin.fetchValue(key)));
    }
  }

  // ---------------------------------------------------------------------
  // get: the hit path
  // ---------------------------------------------------------------------

  /** A `set` followed by a `get` before expiry returns the value set, and
      rewrites nothing, when the origin has no hash for the key or the same
      hash; in asynchronous mode it always does. */
  lemma SetThenGet(s: map<string, Entry>, key: string, v: Value, ttl: Option<real>, t0: real,
                   ttl': Option<real>, now: real, origin: OriginStore, cfg: Config)
    requires !NewEntry(v, ttl, t0, cfg.hash).IsExpired(now)
    requires cfg.validateAsync || origin.fetchHash(key).None? || origin.fetchHash(key) == Some(cfg.hash(v))
    ensures var s' := s[key := NewEntry(v, ttl, t0, cfg.hash)];
      GetSpec(s', key, ttl', now, origin, cfg) == (v, s') && !GetWrites(s', key, now, origin, cfg)
  {
  }

  /** A hit whose hash matches the origin's is served as is, with no rewrite
      and no save. */
  lemma NoNeedlessRewrite(s: map<string, Entry>, key: string, ttl: Option<real>, now: real,
                          origin: OriginStore, cfg: Config)
    requires Live(s, key, now) && origin.fetchHash(key) == Some(s[key].hash)
    ensures GetSpec(s, key, ttl, now, origin, cfg) == (s[key].value, s)
    ensures !GetWrites(s, key, now, origin, cfg)
  {
  }

  /** A hit whose origin reports no hash is served and kept: revalidation
      does not evict on an absent origin hash. */
  lemma AbsentOriginHashKeepsEntry(s: map<string, Entry>, key: string, ttl: Option<real>, now: real,
                                   origin: OriginStore, cfg: Config)
    requires Live(s, key, now) && origin.fetchHash(key).None?
    ensures GetSpec(s, key, ttl, now, origin, cfg) == (s[key].value, s)
    ensures !GetWrites(s, key, now, origin, cfg)
  {
  }

  /** In synchronous mode, a hit that revalidation evicts goes back to the
      origin, which (answering the same) has no value: `get` returns none and
      the key is gone. */
  lemma EvictedHitConsultsOrigin(s: map<string, Entry>, key: string, ttl: Option<real>, now: real,
                                 origin: OriginStore, cfg: Config)
    requires !cfg.validateAsync && Live(s, key, now)
    requires origin.fetchHash(key).Some? && origin.fetchHash(key) != Some(s[key].hash)
    requires origin.fetchValue(key) == Null
    ensures GetSpec(s, key, ttl, now, origin, cfg) == (Null, s - {key})
    ensures GetWrites(s, key, now, origin, cfg)
  {
  }

  /** Synchronous `get` against a coherent origin holding `b`: it returns `b`
      unless the live entry already carries `b`'s hash (then it returns that
      entry's value), and it leaves an entry with `b`'s hash holding the value
      returned. */
  lemma SyncGetSettles(s: map<string, Entry>, key: string, ttl: Option<real>, now: real,
                       origin: OriginStore, cfg: Config)
    requires !cfg.validateAsync && Coherent(origin, cfg.hash) && origin.fetchValue(key) != Null
    ensures var (r, s') := GetSpec(s, key, ttl, now, origin, cfg);
      && key in s'
      && s'[key].value == r
      && s'[key].hash == cfg.hash(origin.fetchValue(key))
      && r == if Live(s, key, now) && s[key].hash == cfg.hash(origin.fetchValue(key)) then s[key].value
              else origin.fetchValue(key)
  {
    assert origin.fetchHash(key) == Some(cfg.hash(origin.fetchValue(key)));
  }

  /** Revalidation convergence: the origin changed from `a` to `b` under a
      live cached `a`; a synchronous `get` returns `b` and caches `b`'s hash,
      and a following `get`, at the same time or later, returns `b` again. */
  lemma HashMismatchRefreshes(s: map<string, Entry>, key: string, a: Value, b: Value,
                              ttl: Option<real>, now: real, ttl': Option<real>, later: real,
                              origin: OriginStore, cfg: Config)
    requires !cfg.validateAsync && Coherent(origin, cfg.hash)
    requires Live(s, key, now) && s[key].value == a && s[key].hash == cfg.hash(a)
    requires origin.fetchValue(key) == b && b != Null && cfg.hash(a) != cfg.hash(b)
    requires now <= later
    ensures GetSpec(s, key, ttl, now, origin, cfg).0 == b
    ensures var s1 := GetSpec(s, key, ttl, now, origin, cfg).1;
      key in s1 && s1[key].hash == cfg.hash(b) && GetSpec(s1, key, ttl', later, origin, cfg).0 == b
  {
    SyncGetSettles(s, key, ttl, now, origin, cfg);
    var s1 := GetSpec(s, key, ttl, now, origin, cfg).1;
    SyncGetSettles(s1, key, ttl', later, origin, cfg);
  }

  /** The limit of fingerprinting: if the new origin value `b` has the same
      hash as the cached `a`, synchronous `get` keeps serving `a`. */
  lemma HashCollisionServesCached(s: map<string, Entry>, key: string, b: Value, ttl: Option<real>, now: real,
                                  origin: OriginStore, cfg: Config)
    requires !cfg.validateAsync && Coherent(origin, cfg.hash)
    requires Live(s, key, now) && origin.fetchValue(key) == b && b != Null
    requires s[key].hash == cfg.hash(b)
    ensures GetSpec(s, key, ttl, now, origin, cfg) == (s[key].value, s)
  {
    assert origin.fetchHash(key) == Some(cfg.hash(b));
  }

  /** In asynchronous mode a hit returns the cached value and changes nothing;
      the validation runs later as its own `ValidateHash` step. */
  lemma AsyncHitServesCached(s: map<string, Entry>, key: string, ttl: Option<real>, now: real,
                             origin: OriginStore, cfg: Config)
    requires cfg.validateAsync && Live(s, key, now)
    ensures GetSpec(s, key, ttl, now, origin, cfg) == (s[key].value, s)
    ensures !GetWrites(s, key, now, origin, cfg)
  {
  }

  /** `get` touches no key but its own. */
  lemma GetOnlyTouchesKey(s: map<string, Entry>, key: string, ttl: Option<real>, now: real,
                          origin: OriginStore, cfg: Config, k: string)
    requires k != key
    ensures var s' := GetSpec(s, key, ttl, now, origin, cfg).1;
      (k in s' <==> k in s) && (k in s ==> s'[k] == s[k])
  {
  }
}
