/**
 * `filter(each, fn, _isArray)`: keeps the entries of a collection whose
 * value and key satisfy `fn`, building either an array of the kept values or
 * an object of the kept entries under their original keys.
 *
 * The iteration is described by its state after the first `n` visited pairs;
 * the filter's result is that state once every pair has been visited.
 */
module Filtering {
  import opened Wrappers
  import opened Objects
  import opened Collections
  import Decimal

  /** Whether the predicate keeps a visited (key, value) pair. */
  predicate Keeps<V>(fn: (V, Key) -> bool, p: (Key, V)) {
    fn(p.1, p.0)
  }

  predicate Increasing(ix: seq<nat>) {
    forall a, b :: 0 <= a < b < |ix| ==> ix[a] < ix[b]
  }

  /**
   * The positions among the first `n` pairs that are kept: strictly
   * ascending, below `n`, and holding exactly the positions whose pair the
   * predicate accepts. These facts determine the sequence, so it serves as
   * the reference for what both branches of the filter keep.
   */
  function KeptPositions<V>(pairs: seq<(Key, V)>, fn: (V, Key) -> bool, n: nat): (ix: seq<nat>)
    requires n <= |pairs|
    ensures |ix| <= n
    ensures Increasing(ix)
    ensures forall j :: 0 <= j < |ix| ==> ix[j] < n
    ensures forall i :: 0 <= i < n ==> (i in ix <==> Keeps(fn, pairs[i]))
    decreases n
  {
    if n == 0 then []
    else KeptPositions(pairs, fn, n - 1) + (if Keeps(fn, pairs[n - 1]) then [n - 1] else [])
  }

  /**
   * The array branch after `n` visits: each kept value has been pushed onto
   * a fresh array.
   */
  function PushKept<V>(pairs: seq<(Key, V)>, fn: (V, Key) -> bool, n: nat): seq<V>
    requires n <= |pairs|
    decreases n
  {
    if n == 0 then []
    else PushKept(pairs, fn, n - 1) + (if Keeps(fn, pairs[n - 1]) then [pairs[n - 1].1] else [])
  }

  /**
   * The object branch after `n` visits: each kept value has been assigned to
   * a fresh object under its key, with JavaScript assignment semantics.
   */
  function AssignKept<V>(pairs: seq<(Key, V)>, fn: (V, Key) -> bool, n: nat): Entries<V>
    requires n <= |pairs|
    decreases n
  {
    if n == 0 then []
    else
      var prior := AssignKept(pairs, fn, n - 1);
      if Keeps(fn, pairs[n - 1]) then Put(prior, KeyString(pairs[n - 1].0), pairs[n - 1].1) else prior
  }

  /**
   * The filter. `isArray` is the optional flag: when it is given it alone
   * picks the result shape, otherwise the input's own shape does.
   */
  function Filter<V>(c: Collection<V>, fn: (V, Key) -> bool, isArray: Option<bool>): (r: Collection<V>)
    ensures isArray.Some? ==> (r.Array? <==> isArray.value)
    ensures isArray.None? ==> (r.Array? <==> c.Array?)
  {
    var pairs := Each(c);
    var arrayShape := if isArray.Some? then isArray.value else c.Array?;
    if arrayShape then Array(PushKept(pairs, fn, |pairs|)) else Object(AssignKept(pairs, fn, |pairs|))
  }

  /** The kept positions of the whole collection. */
  function Kept<V>(c: Collection<V>, fn: (V, Key) -> bool): seq<nat> {
    KeptPositions(Each(c), fn, |Each(c)|)
  }

  /** The pushed values are the values at the kept positions, in order. */
  lemma {:induction false} PushKeptSelects<V>(pairs: seq<(Key, V)>, fn: (V, Key) -> bool, n: nat)
    requires n <= |pairs|
    ensures var ix := KeptPositions(pairs, fn, n);
      && |PushKept(pairs, fn, n)| == |ix|
      && forall j :: 0 <= j < |ix| ==> PushKept(pairs, fn, n)[j] == pairs[ix[j]].1
    decreases n
  {
    if n > 0 {
      PushKeptSelects(pairs, fn, n - 1);
    }
  }

  /** The entry a kept pair becomes in an object result. */
  function Assigned<V>(p: (Key, V)): (string, V) {
    (KeyString(p.0), p.1)
  }

  /**
   * With distinct property names every assignment adds a new property, so the
   * assigned entries are the kept pairs, in order, under their own keys.
   */
  lemma {:induction false} AssignKeptSelects<V>(pairs: seq<(Key, V)>, fn: (V, Key) -> bool, n: nat)
    requires n <= |pairs| && DistinctKeyStrings(pairs)
    ensures var ix := KeptPositions(pairs, fn, n);
      && |AssignKept(pairs, fn, n)| == |ix|
      && forall j :: 0 <= j < |ix| ==> AssignKept(pairs, fn, n)[j] == Assigned(pairs[ix[j]])
    decreases n
  {
    if n > 0 {
      var prior := AssignKept(pairs, fn, n - 1);
      var ix' := KeptPositions(pairs, fn, n - 1);
      var kept := Keeps(fn, pairs[n - 1]);
      AssignKeptSelects(pairs, fn, n - 1);
      AssignKeptAppends(pairs, fn, n);
      ExtendSelection(pairs, n, ix', prior, kept);
      assert KeptPositions(pairs, fn, n) == ix' + (if kept then [n - 1] else []);
    }
  }

  /**
   * One more visited pair extends a correct selection: the new position and
   * the new entry both go last, or neither is added.
   */
  lemma ExtendSelection<V>(pairs: seq<(Key, V)>, n: nat, ix': seq<nat>, prior: Entries<V>, kept: bool)
    requires 0 < n <= |pairs|
    requires |prior| == |ix'|
    requires forall j :: 0 <= j < |ix'| ==> ix'[j] < n - 1
    requires forall j :: 0 <= j < |ix'| ==> prior[j] == Assigned(pairs[ix'[j]])
    ensures var ix := ix' + (if kept then [n - 1] else []);
      var r := prior + (if kept then [Assigned(pairs[n - 1])] else []);
      && |r| == |ix|
      && forall j :: 0 <= j < |ix| ==> r[j] == Assigned(pairs[ix[j]])
  {
  }

  /**
   * Visiting one more pair appends it when kept, because its name has not
   * been assigned yet, and changes nothing otherwise.
   */
  lemma AssignKeptAppends<V>(pairs: seq<(Key, V)>, fn: (V, Key) -> bool, n: nat)
    requires 0 < n <= |pairs| && DistinctKeyStrings(pairs)
    requires var ix' := KeptPositions(pairs, fn, n - 1);
      && |AssignKept(pairs, fn, n - 1)| == |ix'|
      && forall j :: 0 <= j < |ix'| ==> AssignKept(pairs, fn, n - 1)[j] == Assigned(pairs[ix'[j]])
    ensures AssignKept(pairs, fn, n) == AssignKept(pairs, fn, n - 1)
      + (if Keeps(fn, pairs[n - 1]) then [Assigned(pairs[n - 1])] else [])
  {
    var prior := AssignKept(pairs, fn, n - 1);
    var ix' := KeptPositions(pairs, fn, n - 1);
    var k := KeyString(pairs[n - 1].0);
    InKeys(prior, k);
    forall j | 0 <= j < |prior|
      ensures prior[j].0 != k
    {
      assert prior[j].0 == KeyString(pairs[ix'[j]].0) && ix'[j] < n - 1;
    }
  }

  /**
   * Array result: exactly the input values at the kept positions, in input
   * order, so never longer than the input and made only of input values.
   */
  lemma FilterArrayBranch<V>(c: Collection<V>, fn: (V, Key) -> bool, isArray: Option<bool>)
    requires Filter(c, fn, isArray).Array?
    ensures var r := Filter(c, fn, isArray).items;
      var ix := Kept(c, fn);
      && |r| == |ix| <= |Values(c)|
      && (forall j :: 0 <= j < |ix| ==> r[j] == Values(c)[ix[j]])
      && (forall x :: x in r ==> x in Values(c))
  {
    EachFacts(c);
    PushKeptSelects(Each(c), fn, |Each(c)|);
  }

  /**
   * Object result: the kept pairs under their own property names, in input
   * order, with distinct names.
   */
  lemma FilterObjectBranch<V>(c: Collection<V>, fn: (V, Key) -> bool, isArray: Option<bool>)
    requires WellFormed(c) && Filter(c, fn, isArray).Object?
    ensures var r := Filter(c, fn, isArray).entries;
      var ix := Kept(c, fn);
      && |r| == |ix| <= |Values(c)|
      && (forall j :: 0 <= j < |ix| ==> r[j] == Assigned(Each(c)[ix[j]]))
      && DistinctKeys(r)
  {
    EachFacts(c);
    AssignKeptSelects(Each(c), fn, |Each(c)|);
  }

  /**
   * An object filtered into an object keeps the input's own entries at the
   * kept positions, in input order: keys are kept, not renumbered.
   */
  lemma ObjectFilterEntries<V>(e: Entries<V>, fn: (V, Key) -> bool, isArray: Option<bool>)
    requires DistinctKeys(e) && isArray != Some(true)
    ensures var r := Filter(Object(e), fn, isArray).entries;
      var ix := Kept(Object(e), fn);
      && |r| == |ix| && DistinctKeys(r)
      && forall j :: 0 <= j < |ix| ==> ix[j] < |e| && r[j] == e[ix[j]]
  {
    var c := Object(e);
    var r := Filter(c, fn, isArray).entries;
    var ix := Kept(c, fn);
    FilterObjectBranch(c, fn, isArray);
    EachFacts(c);
    forall j | 0 <= j < |ix|
      ensures ix[j] < |e| && r[j] == e[ix[j]]
    {
      assert r[j] == Assigned(Each(c)[ix[j]]);
    }
  }

  /**
   * Reading a property of a filtered object: present exactly when the input
   * has it and the predicate accepts its value and name, and then with the
   * input's value.
   */
  lemma ObjectFilterLookup<V>(e: Entries<V>, fn: (V, Key) -> bool, isArray: Option<bool>, k: string)
    requires DistinctKeys(e) && isArray != Some(true)
    ensures Lookup(Filter(Object(e), fn, isArray).entries, k) ==
      match Lookup(e, k)
      case None => None
      case Some(v) => if fn(v, Name(k)) then Some(v) else None
  {
    var ix := Kept(Object(e), fn);
    ObjectFilterEntries(e, fn, isArray);
    LookupSelection(e, Filter(Object(e), fn, isArray).entries, ix, k);
    match FindKey(e, k)
    case None =>
    case Some(i) =>
      assert i in ix <==> fn(e[i].1, Name(k)) by {
        assert Each(Object(e))[i] == (Name(e[i].0), e[i].1);
      }
  }

  /**
   * An array filtered into an object: each kept element sits under the
   * decimal form of its index.
   */
  lemma ArrayAsObjectLookup<V>(items: seq<V>, fn: (V, Key) -> bool, i: nat)
    ensures Lookup(Filter(Array(items), fn, Some(false)).entries, Decimal.Show(i)) ==
      if i < |items| && fn(items[i], Index(i)) then Some(items[i]) else None
  {
    var c := Array(items);
    var r := Filter(c, fn, Some(false)).entries;
    var ix := Kept(c, fn);
    var k := Decimal.Show(i);
    FilterObjectBranch(c, fn, Some(false));
    InKeys(r, k);
    if i < |items| && fn(items[i], Index(i)) {
      assert Keeps(fn, Each(c)[i]);
      var j :| 0 <= j < |ix| && ix[j] == i;
      LookupDistinct(r, j);
    } else if k in Keys(r) {
      var j :| 0 <= j < |r| && r[j].0 == k;
      assert r[j].0 == Decimal.Show(ix[j]);
      Decimal.ShowInjective(ix[j], i);
    }
  }

  /** An array filtered into an object has only index names as properties. */
  lemma ArrayAsObjectKeys<V>(items: seq<V>, fn: (V, Key) -> bool)
    ensures forall k :: k in Keys(Filter(Array(items), fn, Some(false)).entries) ==>
      Decimal.IsIndexName(k, |items|)
  {
    var c := Array(items);
    var r := Filter(c, fn, Some(false)).entries;
    var ix := Kept(c, fn);
    assert |r| == |ix| && forall j :: 0 <= j < |r| ==> ix[j] < |items| && r[j].0 == Decimal.Show(ix[j]) by {
      FilterObjectBranch(c, fn, Some(false));
    }
    forall k | k in Keys(r)
      ensures Decimal.IsIndexName(k, |items|)
    {
      InKeys(r, k);
      var j :| 0 <= j < |r| && r[j].0 == k;
      Decimal.ParseShow(ix[j]);
    }
  }

  /** Nothing visited is kept, so nothing is pushed and nothing is assigned. */
  lemma {:induction false} NothingKept<V>(pairs: seq<(Key, V)>, fn: (V, Key) -> bool, n: nat)
    requires n <= |pairs|
    requires forall i :: 0 <= i < n ==> !Keeps(fn, pairs[i])
    ensures PushKept(pairs, fn, n) == [] && AssignKept(pairs, fn, n) == []
    decreases n
  {
    if n > 0 {
      NothingKept(pairs, fn, n - 1);
    }
  }

  /** A predicate that rejects everything gives an empty array or an empty object. */
  lemma FilterNoneKept<V>(c: Collection<V>, fn: (V, Key) -> bool, isArray: Option<bool>)
    requires forall i :: 0 <= i < |Each(c)| ==> !fn(Each(c)[i].1, Each(c)[i].0)
    ensures Filter(c, fn, isArray).Array? ==> Filter(c, fn, isArray).items == []
    ensures Filter(c, fn, isArray).Object? ==> Filter(c, fn, isArray).entries == []
  {
    NothingKept(Each(c), fn, |Each(c)|);
  }

  /** When every pair is kept, every position is kept. */
  lemma {:induction false} EverythingKept<V>(pairs: seq<(Key, V)>, fn: (V, Key) -> bool, n: nat)
    requires n <= |pairs|
    requires forall i :: 0 <= i < n ==> Keeps(fn, pairs[i])
    ensures |KeptPositions(pairs, fn, n)| == n
    ensures forall j :: 0 <= j < n ==> KeptPositions(pairs, fn, n)[j] == j
    decreases n
  {
    if n > 0 {
      EverythingKept(pairs, fn, n - 1);
    }
  }

  /**
   * A predicate that accepts everything gives back the input: the same
   * array, or the same entries in the same order, when the result keeps the
   * input's shape.
   */
  lemma FilterAllKept<V>(c: Collection<V>, fn: (V, Key) -> bool)
    requires WellFormed(c)
    requires forall i :: 0 <= i < |Each(c)| ==> fn(Each(c)[i].1, Each(c)[i].0)
    ensures Filter(c, fn, None) == c
    ensures Filter(c, fn, Some(c.Array?)) == c
  {
    EverythingKept(Each(c), fn, |Each(c)|);
    EachFacts(c);
    if c.Array? {
      FilterArrayBranch(c, fn, None);
    } else {
      FilterObjectBranch(c, fn, None);
    }
  }
}
