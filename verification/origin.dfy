/** The origin interface the engine consumes, and the in-memory origin. */
module Origin {
  import opened Values

  /** The `OriginStore` protocol: what the origin currently answers for each
      key. `fetchValue` gives `Null` when it has no value; `fetchHash` gives
      `None` when it has no fingerprint. Nothing ties the two together in the
      protocol itself; an implementation may or may not keep them coherent. */
  datatype OriginStore = OriginStore(fetchValue: string -> Value, fetchHash: string -> Option<Fingerprint>)

  /** An origin whose fingerprint is `hash` of its value, and absent exactly
      when the value is. */
  ghost predicate Coherent(o: OriginStore, hash: Hasher)
  {
    forall k :: o.fetchHash(k) == if o.fetchValue(k) == Null then None else Some(hash(o.fetchValue(k)))
  }

  /** `dict.get(key)`: the stored value, or `None` when the key is absent. */
  function ValueIn(data: map<string, Value>, key: string): Value
  {
    if key in data then data[key] else Null
  }

  function HashIn(data: map<string, Value>, hash: Hasher, key: string): Option<Fingerprint>
  {
    var v := ValueIn(data, key);
    if v != Null then Some(hash(v)) else None
  }

  /** `DictionaryOriginStore`: an origin held in a dictionary that `update`
      changes in place. */
  class DictOrigin {
    const hash: Hasher
    var data: map<string, Value>

    /** Starts from a copy of `seed`, or empty when there is none (or it is
        empty). Maps are values, so later updates cannot reach the caller's seed. */
    constructor (seed: Option<map<string, Value>>, hash: Hasher)
      ensures this.hash == hash
      ensures data == if seed.Some? then seed.value else map[]
    {
      this.hash := hash;
      data := if seed.Some? && seed.value != map[] then seed.value else map[];
    }

    method Update(key: string, value: Value)
      modifies this
      ensures data == old(data)[key := value]
      ensures FetchValue(key) == value
      ensures forall k :: k != key ==> FetchValue(k) == old(FetchValue(k))
    {
      data := data[key := value];
    }

    function FetchValue(key: string): (v: Value)
      reads this
      ensures key in data ==> v == data[key]
      ensures key !in data ==> v == Null
    {
      ValueIn(data, key)
    }

    function FetchHash(key: string): (h: Option<Fingerprint>)
      reads this
      ensures h.None? <==> FetchValue(key) == Null
      ensures h.Some? ==> h.value == hash(FetchValue(key))
    {
      HashIn(data, hash, key)
    }

    /** The origin's current answers, as the engine sees them through the protocol. */
    function AsStore(): (o: OriginStore)
      reads this
      ensures forall k :: o.fetchValue(k) == FetchValue(k)
      ensures forall k :: o.fetchHash(k) == FetchHash(k)
    {
      var d := data;
      var h := hash;
      OriginStore(k => ValueIn(d, k), k => HashIn(d, h, k))
    }

    /** The dictionary origin always answers coherently with its own hash. */
    lemma AsStoreCoherent()
      ensures Coherent(AsStore(), hash)
    {
      var o := AsStore();
      forall k ensures o.fetchHash(k) == if o.fetchValue(k) == Null then None else Some(hash(o.fetchValue(k))) {
        assert o.fetchHash(k) == FetchHash(k);
      }
    }
  }
}
