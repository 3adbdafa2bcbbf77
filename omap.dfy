/**
 * Insertion-ordered dictionaries keyed by strings: Python's `dict` and
 * `OrderedDict` as the matching engine uses them.  `keys` is the iteration
 * order, `entries` the lookup table.
 */
module OrderedMaps {

  datatype OMap<V> = OMap(keys: seq<string>, entries: map<string, V>) {

    /** Every key occurs once in the order and the order lists exactly the stored keys. */
    ghost predicate Valid() {
      && (forall i, j :: 0 <= i < j < |keys| ==> keys[i] != keys[j])
      && (forall k :: k in entries <==> k in keys)
    }

    /** `d[k] if k in d else default` */
    function Get(k: string, default: V): V {
      if k in entries then entries[k] else default
    }

    /** `d[k] = v`: a present key keeps its place in the order, a new key goes at the end. */
    function Put(k: string, v: V): (r: OMap<V>)
      ensures Valid() ==> r.Valid()
    {
      OMap(if k in entries then keys else keys + [k], entries[k := v])
    }
  }

  /** `{}` */
  function Empty<V>(): (r: OMap<V>)
    ensures r.Valid() && r.keys == [] && r.entries == map[]
  {
    OMap([], map[])
  }
}
