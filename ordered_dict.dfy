/** Python's `dict` with string keys: a map that remembers the order in which keys were first inserted. */
module OrderedDict {

  datatype Dict<V> = Dict(keys: seq<string>, vals: map<string, V>)
  {
    /** Keys appear once each, and the key sequence lists exactly the mapped keys. */
    ghost predicate Valid()
    {
      && (forall i, j :: 0 <= i < j < |keys| ==> keys[i] != keys[j])
      && (forall k :: k in vals <==> k in keys)
    }
  }

  function Empty<V>(): (d: Dict<V>)
    ensures d.Valid() && d.keys == [] && d.vals == map[]
  {
    Dict([], map[])
  }

  /** `d[k] = v`: a new key goes to the end of the order; an existing key keeps its place
      and only its value changes. */
  function Put<V>(d: Dict<V>, k: string, v: V): (r: Dict<V>)
    requires d.Valid()
    ensures r.Valid()
    ensures k in r.vals && r.vals[k] == v
    ensures forall k' :: k' != k ==> (k' in r.vals <==> k' in d.vals)
    ensures forall k' :: k' != k && k' in d.vals ==> r.vals[k'] == d.vals[k']
    ensures k in d.vals ==> r.keys == d.keys
    ensures k !in d.vals ==> r.keys == d.keys + [k]
  {
    if k in d.vals then Dict(d.keys, d.vals[k := v]) else Dict(d.keys + [k], d.vals[k := v])
  }
}
