/**
 * A plain JavaScript object as an ordered list of (property name, value)
 * entries. The order is the object's iteration order, which for string keys
 * is the order in which the properties were first assigned.
 */
module Objects {
  import opened Wrappers

  type Entries<V> = seq<(string, V)>

  /** The property names, in iteration order. */
  function Keys<V>(e: Entries<V>): seq<string> {
    seq(|e|, i requires 0 <= i < |e| => e[i].0)
  }

  /** A real object never holds two properties with the same name. */
  predicate DistinctKeys<V>(e: Entries<V>) {
    forall i, j :: 0 <= i < j < |e| ==> e[i].0 != e[j].0
  }

  /** The slot that holds property `k`: the first entry named `k`, if any. */
  function FindKey<V>(e: Entries<V>, k: string): (r: Option<nat>)
    ensures r.None? <==> k !in Keys(e)
    ensures r.Some? ==> r.value < |e| && e[r.value].0 == k
    ensures r.Some? ==> forall j :: 0 <= j < r.value ==> e[j].0 != k
    decreases |e|
  {
    if |e| == 0 then None
    else if e[0].0 == k then assert Keys(e)[0] == k; Some(0)
    else
      match FindKey(e[1..], k)
      case None => assert Keys(e) == [e[0].0] + Keys(e[1..]); None
      case Some(i) => assert Keys(e)[i + 1] == k; Some(i + 1)
  }

  /** Reading `obj[k]`: the value stored under `k`, or `undefined`. */
  function Lookup<V>(e: Entries<V>, k: string): (r: Option<V>)
    ensures r.None? <==> k !in Keys(e)
    ensures r.Some? ==> (k, r.value) in e
  {
    match FindKey(e, k)
    case None => None
    case Some(i) => Some(e[i].1)
  }

  /** In an object with distinct names, each entry is what its name reads. */
  lemma LookupDistinct<V>(e: Entries<V>, i: nat)
    requires DistinctKeys(e) && i < |e|
    ensures Lookup(e, e[i].0) == Some(e[i].1)
  {
    var r := FindKey(e, e[i].0);
    assert e[i].0 in Keys(e) by { assert Keys(e)[i] == e[i].0; }
  }

  /** `k` names some entry exactly when it is one of the property names. */
  lemma InKeys<V>(e: Entries<V>, k: string)
    ensures k in Keys(e) <==> exists i :: 0 <= i < |e| && e[i].0 == k
  {
    if k in Keys(e) {
      var i :| 0 <= i < |e| && Keys(e)[i] == k;
    }
    if i :| 0 <= i < |e| && e[i].0 == k {
      assert Keys(e)[i] == k;
    }
  }

  /** The first entry named `k` is the slot `FindKey` reports. */
  lemma FindKeyFirst<V>(e: Entries<V>, k: string, i: nat)
    requires i < |e| && e[i].0 == k
    requires forall j :: 0 <= j < i ==> e[j].0 != k
    ensures FindKey(e, k) == Some(i)
  {
    InKeys(e, k);
  }

  /**
   * Assigning `obj[k] = v`: an existing property is overwritten in its slot,
   * so the names and their order stay as they were; a new one is added after
   * all the others.
   */
  function Put<V>(e: Entries<V>, k: string, v: V): (r: Entries<V>)
    ensures k in Keys(e) ==> Keys(r) == Keys(e)
    ensures k !in Keys(e) ==> r == e + [(k, v)]
  {
    match FindKey(e, k)
    case None => e + [(k, v)]
    case Some(i) => assert Keys(e[i := (k, v)]) == Keys(e); e[i := (k, v)]
  }

  /** Assignment never gives an object two properties with the same name. */
  lemma PutKeepsDistinct<V>(e: Entries<V>, k: string, v: V)
    requires DistinctKeys(e)
    ensures DistinctKeys(Put(e, k, v))
  {
    if k !in Keys(e) {
      InKeys(e, k);
    } else {
      var r := Put(e, k, v);
      forall i, j | 0 <= i < j < |r|
        ensures r[i].0 != r[j].0
      {
        assert Keys(r)[i] == Keys(e)[i] && Keys(r)[j] == Keys(e)[j];
      }
    }
  }

  /** After `obj[k] = v`, reading `k` gives `v` and every other read is unchanged. */
  lemma PutReads<V>(e: Entries<V>, k: string, v: V)
    ensures Lookup(Put(e, k, v), k) == Some(v)
    ensures forall k' :: k' != k ==> Lookup(Put(e, k, v), k') == Lookup(e, k')
  {
    match FindKey(e, k)
    case None => PutNew(e, k, v);
    case Some(i) => PutExisting(e, k, v, i);
  }

  /** Appending a property that was absent leaves every other read alone. */
  lemma PutNew<V>(e: Entries<V>, k: string, v: V)
    requires k !in Keys(e)
    ensures Lookup(e + [(k, v)], k) == Some(v)
    ensures forall k' :: k' != k ==> Lookup(e + [(k, v)], k') == Lookup(e, k')
    ensures DistinctKeys(e) ==> DistinctKeys(e + [(k, v)])
  {
    var r := e + [(k, v)];
    InKeys(e, k);
    FindKeyFirst(r, k, |e|);
    forall k' | k' != k
      ensures Lookup(r, k') == Lookup(e, k')
    {
      match FindKey(e, k')
      case None =>
        InKeys(e, k');
        InKeys(r, k');
      case Some(j) =>
        FindKeyFirst(r, k', j);
    }
  }

  /** Overwriting the slot of an existing property leaves every other read alone. */
  lemma PutExisting<V>(e: Entries<V>, k: string, v: V, i: nat)
    requires FindKey(e, k) == Some(i)
    ensures Lookup(e[i := (k, v)], k) == Some(v)
    ensures forall k' :: k' != k ==> Lookup(e[i := (k, v)], k') == Lookup(e, k')
    ensures Keys(e[i := (k, v)]) == Keys(e)
    ensures DistinctKeys(e) ==> DistinctKeys(e[i := (k, v)])
  {
    var r := e[i := (k, v)];
    FindKeyFirst(r, k, i);
    forall k' | k' != k
      ensures Lookup(r, k') == Lookup(e, k')
    {
      match FindKey(e, k')
      case None =>
        InKeys(e, k');
        InKeys(r, k');
      case Some(j) =>
        FindKeyFirst(r, k', j);
    }
  }

  /**
   * Reading a property of an object made of some of another object's
   * entries, each at a listed position: the name is present exactly when its
   * slot in the larger object is listed, with the same value.
   */
  lemma LookupSelection<V>(e: Entries<V>, r: Entries<V>, ix: seq<nat>, k: string)
    requires DistinctKeys(e) && DistinctKeys(r)
    requires |r| == |ix| && forall j :: 0 <= j < |ix| ==> ix[j] < |e| && r[j] == e[ix[j]]
    ensures Lookup(r, k) ==
      match FindKey(e, k)
      case None => None
      case Some(i) => if i in ix then Some(e[i].1) else None
  {
    InKeys(r, k);
    InKeys(e, k);
    match FindKey(e, k)
    case None =>
    case Some(i) =>
      if i in ix {
        var j :| 0 <= j < |ix| && ix[j] == i;
        LookupDistinct(r, j);
      }
  }
}
