/** Python dicts with string keys keep their keys in insertion order, and
    the scripts iterate over them in that order. A dict is modelled as its
    key order together with its entries. */
module Dicts {

  datatype Dict<V> = Dict(keys: seq<string>, entries: map<string, V>)
  {
    /** The keys are listed once each, and exactly the keys of the entries. */
    ghost predicate Valid()
    {
      && (forall i, j :: 0 <= i < j < |keys| ==> keys[i] != keys[j])
      && (forall k :: k in entries <==> k in keys)
    }
  }

  function Empty<V>(): (d: Dict<V>)
    ensures d.Valid() && d.entries == map[]
  {
    Dict([], map[])
  }
}
