/**
 * The two collection shapes `filter` accepts and the order in which it visits
 * them: arrays by ascending index, objects in their property order.
 */
module Collections {
  import opened Objects
  import Decimal

  /** The key handed to the predicate: a numeric index or a property name. */
  datatype Key = Index(i: nat) | Name(s: string)

  /** The property name a key becomes when it is used in `obj[key] = val`. */
  function KeyString(k: Key): string {
    match k
    case Index(i) => Decimal.Show(i)
    case Name(s) => s
  }

  /** A dense array, or a plain object with its entries in iteration order. */
  datatype Collection<V> = Array(items: seq<V>) | Object(entries: Entries<V>)

  /** An object's property names are distinct; every array qualifies. */
  predicate WellFormed<V>(c: Collection<V>) {
    c.Object? ==> DistinctKeys(c.entries)
  }

  /** The (key, value) pairs the iteration visits, in visiting order. */
  function Each<V>(c: Collection<V>): seq<(Key, V)> {
    match c
    case Array(items) => seq(|items|, i requires 0 <= i < |items| => (Index(i), items[i]))
    case Object(entries) => seq(|entries|, i requires 0 <= i < |entries| => (Name(entries[i].0), entries[i].1))
  }

  /** The values of a collection, in visiting order. */
  function Values<V>(c: Collection<V>): seq<V> {
    match c
    case Array(items) => items
    case Object(entries) => seq(|entries|, i requires 0 <= i < |entries| => entries[i].1)
  }

  /** No two visited keys become the same property name. */
  predicate DistinctKeyStrings<V>(pairs: seq<(Key, V)>) {
    forall i, j :: 0 <= i < j < |pairs| ==> KeyString(pairs[i].0) != KeyString(pairs[j].0)
  }

  /**
   * The visited pairs are the collection's own values, and the keys of a
   * well-formed collection become distinct property names: array indices
   * because their decimal forms differ, object keys because they already do.
   */
  lemma EachFacts<V>(c: Collection<V>)
    ensures |Each(c)| == |Values(c)|
    ensures forall i :: 0 <= i < |Each(c)| ==> Each(c)[i].1 == Values(c)[i]
    ensures c.Object? ==> forall i :: 0 <= i < |Each(c)| ==> KeyString(Each(c)[i].0) == c.entries[i].0
    ensures WellFormed(c) ==> DistinctKeyStrings(Each(c))
  {
    var pairs := Each(c);
    if c.Array? {
      forall i, j | 0 <= i < j < |pairs|
        ensures KeyString(pairs[i].0) != KeyString(pairs[j].0)
      {
        Decimal.ShowInjective(i, j);
      }
    }
  }
}
