/** The per-key cache record and its serialized (persisted) form. */
module CacheTypes {
  import opened Values

  /** `CacheEntry`: the cached value, the hash it was written with and an
      optional absolute expiry time. */
  datatype Entry = Entry(value: Value, hash: Fingerprint, expireAt: Option<real>)
  {
    /** The boundary is inclusive: an entry is expired at its own `expireAt`. */
    predicate IsExpired(now: real)
      ensures expireAt.None? ==> !IsExpired(now)
      ensures expireAt.Some? ==> (IsExpired(now) <==> now >= expireAt.value)
    {
      expireAt.Some? && now >= expireAt.value
    }
  }

  /** A serialized entry: the dictionary `asdict` produces, with the keys
      "value", "hash" and "expire_at". */
  type Serialized = map<string, Value>

  function ToSerialized(e: Entry): (s: Serialized)
    ensures s.Keys == {"value", "hash", "expire_at"}
    ensures s["value"] == e.value && s["hash"] == Str(e.hash)
    ensures s["expire_at"].Null? <==> e.expireAt.None?
    ensures e.expireAt.Some? ==> s["expire_at"] == Num(e.expireAt.value)
  {
    map["value" := e.value,
        "hash" := Str(e.hash),
        "expire_at" := if e.expireAt.Some? then Num(e.expireAt.value) else Null]
  }

  /** `from_serialized`: "value" and "hash" are required (a missing one raises
      `KeyError`, here `None`); "expire_at" is optional and defaults to no
      expiry. A record whose hash is not a string or whose expiry is not a
      number is refused as well. */
  function FromSerialized(s: Serialized): (r: Option<Entry>)
    ensures r.Some? ==> "value" in s && "hash" in s
    ensures r.Some? ==> r.value.value == s["value"] && Str(r.value.hash) == s["hash"]
    ensures r.Some? ==> r.value.expireAt == if "expire_at" in s && s["expire_at"].Num? then Some(s["expire_at"].n) else None
    ensures r.Some? <==> "value" in s && "hash" in s && s["hash"].Str? &&
                         ("expire_at" !in s || s["expire_at"].Null? || s["expire_at"].Num?)
  {
    if "value" !in s || "hash" !in s || !s["hash"].Str? then None
    else
      var exp := if "expire_at" in s then s["expire_at"] else Null;
      match exp
      case Null => Some(Entry(s["value"], s["hash"].s, None))
      case Num(t) => Some(Entry(s["value"], s["hash"].s, Some(t)))
      case _ => None
  }

  /** An entry with no expiry never expires. */
  lemma NoExpiryNeverExpires(e: Entry, now: real)
    requires e.expireAt.None?
    ensures !e.IsExpired(now)
  {
  }

  /** Expiry happens exactly at and after `expireAt`. */
  lemma ExpiredExactly(e: Entry, now: real)
    requires e.expireAt.Some?
    ensures e.IsExpired(now) <==> now >= e.expireAt.value
  {
  }

  /** Once expired, an entry stays expired. */
  lemma ExpiryMonotone(e: Entry, t: real, t': real)
    requires e.IsExpired(t) && t <= t'
    ensures e.IsExpired(t')
  {
  }

  /** Serializing and deserializing an entry gives it back unchanged. */
  lemma EntryRoundTrip(e: Entry)
    ensures FromSerialized(ToSerialized(e)) == Some(e)
  {
  }

  /** A record without "expire_at" decodes to an entry that never expires. */
  lemma MissingExpiryMeansNone(s: Serialized)
    requires "value" in s && "hash" in s && s["hash"].Str?
    requires "expire_at" !in s
    ensures FromSerialized(s) == Some(Entry(s["value"], s["hash"].s, None))
  {
  }
}
