/**
 The .NET collection operators the assembly pipelines are built from, on values:
 Enumerable.ToDictionary, Enumerable.GroupBy, Enumerable.Last, List.RemoveAt.
 Each is given with the exceptions it raises.
 */
module Linq {
  import opened XsvTypes

  function ToSet<T(==)>(s: seq<T>): set<T> {
    set x | x in s
  }

  function KeysOf<K(==), V>(pairs: seq<(K, V)>): set<K> {
    set i | 0 <= i < |pairs| :: pairs[i].0
  }

  predicate DistinctKeys<K(==), V>(pairs: seq<(K, V)>) {
    forall i, j :: 0 <= i < j < |pairs| ==> pairs[i].0 != pairs[j].0
  }

  predicate Distinct<T(==)>(s: seq<T>) {
    forall i, j :: 0 <= i < j < |s| ==> s[i] != s[j]
  }

  predicate NoNullKey<K, V>(pairs: seq<(K, V)>, isNull: K -> bool) {
    forall i :: 0 <= i < |pairs| ==> !isNull(pairs[i].0)
  }

  /**
   Enumerable.ToDictionary over (key, value) pairs: the pairs are added in order and
   the first one whose key is null (ArgumentNullException) or already present
   (ArgumentException) stops the construction.
   */
  function ToDictionary<K(==), V>(pairs: seq<(K, V)>, isNull: K -> bool): (r: Result<map<K, V>>)
    ensures r.Ok? <==> NoNullKey(pairs, isNull) && DistinctKeys(pairs)
    ensures r.Ok? ==> r.value.Keys == KeysOf(pairs)
    ensures r.Ok? ==> forall i :: 0 <= i < |pairs| ==> r.value[pairs[i].0] == pairs[i].1
    ensures r.Err? && DistinctKeys(pairs) ==> r.error == ArgumentNull
    ensures r.Err? && NoNullKey(pairs, isNull) ==> r.error == DuplicateKey
    decreases |pairs|
  {
    if pairs == [] then Ok(map[])
    else
      var init, (k, v) := pairs[..|pairs| - 1], pairs[|pairs| - 1];
      PairsSnoc(pairs, isNull);
      match ToDictionary(init, isNull)
      case Err(e) => Err(e)
      case Ok(m) =>
        if isNull(k) then Err(ArgumentNull)
        else if k in m then Err(DuplicateKey)
        else
          assert forall i :: 0 <= i < |init| ==> init[i] == pairs[i];
          Ok(m[k := v])
  }

  /** How the key facts of a pair sequence follow from those of all but its last pair. */
  lemma PairsSnoc<K, V>(pairs: seq<(K, V)>, isNull: K -> bool)
    requires |pairs| > 0
    ensures var init, k := pairs[..|pairs| - 1], pairs[|pairs| - 1].0;
      && KeysOf(pairs) == KeysOf(init) + {k}
      && (NoNullKey(pairs, isNull) <==> NoNullKey(init, isNull) && !isNull(k))
      && (DistinctKeys(pairs) <==> DistinctKeys(init) && k !in KeysOf(init))
  {
    var init, k := pairs[..|pairs| - 1], pairs[|pairs| - 1].0;
    assert forall i :: 0 <= i < |init| ==> init[i] == pairs[i];
  }

  /** Enumerable.Last: the final element; InvalidOperationException on an empty source never arises here. */
  function Last<T>(s: seq<T>): (r: T)
    requires |s| > 0
    ensures s == s[..|s| - 1] + [r]
  {
    s[|s| - 1]
  }

  /** The position of the last occurrence of `k` in `keys`. */
  function LastIndex<K(==)>(keys: seq<K>, k: K): (r: nat)
    requires k in keys
    ensures r < |keys| && keys[r] == k
    ensures forall j :: r < j < |keys| ==> keys[j] != k
    decreases |keys|
  {
    if keys[|keys| - 1] == k then |keys| - 1 else LastIndex(keys[..|keys| - 1], k)
  }

  /** One group of GroupBy: a key and, in source order, the elements that have it. */
  datatype Grouping<K, V> = Grouping(key: K, elements: seq<V>)

  predicate DistinctGroupKeys<K(==), V>(groups: seq<Grouping<K, V>>) {
    forall i, j :: 0 <= i < j < |groups| ==> groups[i].key != groups[j].key
  }

  predicate NonEmptyGroups<K, V>(groups: seq<Grouping<K, V>>) {
    forall i :: 0 <= i < |groups| ==> |groups[i].elements| > 0
  }

  function GroupKeys<K(==), V>(groups: seq<Grouping<K, V>>): set<K> {
    set i | 0 <= i < |groups| :: groups[i].key
  }

  /** The elements of the first group with key `k`, or none. */
  function Lookup<K(==), V>(groups: seq<Grouping<K, V>>, k: K): seq<V>
    decreases |groups|
  {
    if groups == [] then []
    else if groups[0].key == k then groups[0].elements
    else Lookup(groups[1..], k)
  }

  /** The items whose key is `k`, in source order (the reference meaning of a group). */
  function ElementsWithKey<K(==), V>(keys: seq<K>, items: seq<V>, k: K): seq<V>
    requires |keys| == |items|
    decreases |keys|
  {
    if keys == [] then []
    else
      ElementsWithKey(keys[..|keys| - 1], items[..|items| - 1], k)
      + (if keys[|keys| - 1] == k then [items[|items| - 1]] else [])
  }

  /** Adds element `v` with key `k` to the groups built so far. */
  function Insert<K(==,!new), V>(groups: seq<Grouping<K, V>>, k: K, v: V): (r: seq<Grouping<K, V>>)
    requires DistinctGroupKeys(groups) && NonEmptyGroups(groups)
    ensures DistinctGroupKeys(r) && NonEmptyGroups(r)
    ensures GroupKeys(r) == GroupKeys(groups) + {k}
    ensures forall k' :: Lookup(r, k') == if k' == k then Lookup(groups, k) + [v] else Lookup(groups, k')
    decreases |groups|
  {
    if groups == [] then
      var r := [Grouping(k, [v])];
      GroupKeysCons(r);
      assert GroupKeys(r[1..]) == {};
      r
    else
      GroupKeysCons(groups);
      if groups[0].key == k then
        var r := [Grouping(k, groups[0].elements + [v])] + groups[1..];
        GroupKeysCons(r);
        r
      else
        var r := [groups[0]] + Insert(groups[1..], k, v);
        GroupKeysCons(r);
        r
  }

  lemma GroupKeysCons<K, V>(groups: seq<Grouping<K, V>>)
    requires |groups| > 0
    ensures GroupKeys(groups) == {groups[0].key} + GroupKeys(groups[1..])
    ensures DistinctGroupKeys(groups) <==> groups[0].key !in GroupKeys(groups[1..]) && DistinctGroupKeys(groups[1..])
  {
    var rest := GroupKeys(groups[1..]);
    assert forall i :: 1 <= i < |groups| ==> groups[i].key == groups[1..][i - 1].key;
    assert forall k :: k in rest ==> exists i :: 1 <= i < |groups| && groups[i].key == k;
  }

  /**
   Enumerable.GroupBy with the key of each item already computed: one group per distinct
   key, each holding the items with that key in source order.
   */
  function GroupBy<K(==,!new), V>(keys: seq<K>, items: seq<V>): (r: seq<Grouping<K, V>>)
    requires |keys| == |items|
    ensures DistinctGroupKeys(r) && NonEmptyGroups(r)
    ensures GroupKeys(r) == ToSet(keys)
    ensures forall k :: Lookup(r, k) == ElementsWithKey(keys, items, k)
    decreases |keys|
  {
    if keys == [] then []
    else
      var init := GroupBy(keys[..|keys| - 1], items[..|items| - 1]);
      assert ToSet(keys) == ToSet(keys[..|keys| - 1]) + {keys[|keys| - 1]} by {
        assert keys == keys[..|keys| - 1] + [keys[|keys| - 1]];
      }
      Insert(init, keys[|keys| - 1], items[|items| - 1])
  }

  lemma {:induction false} LookupAt<K, V>(groups: seq<Grouping<K, V>>, i: nat)
    requires DistinctGroupKeys(groups) && i < |groups|
    ensures Lookup(groups, groups[i].key) == groups[i].elements
    decreases i
  {
    if i > 0 {
      assert groups[0].key != groups[i].key;
      assert groups[1..][i - 1] == groups[i];
      LookupAt(groups[1..], i - 1);
    }
  }

  /** The last element of the group for a present key is the item at the key's last occurrence. */
  lemma {:induction false} LastOfElementsWithKey<K, V>(keys: seq<K>, items: seq<V>, k: K)
    requires |keys| == |items| && k in keys
    ensures |ElementsWithKey(keys, items, k)| > 0
    ensures Last(ElementsWithKey(keys, items, k)) == items[LastIndex(keys, k)]
    decreases |keys|
  {
    if keys[|keys| - 1] != k {
      LastOfElementsWithKey(keys[..|keys| - 1], items[..|items| - 1], k);
    }
  }

  /**
   The `x => x.Last()` projection of each group, paired with its key: what
   ToDictionary(x => x.Key, x => x.Last()) receives after a GroupBy.
   */
  function LastOfEachGroup<K(==,!new), V>(keys: seq<K>, items: seq<V>): (r: seq<(K, V)>)
    requires |keys| == |items|
    ensures DistinctKeys(r)
    ensures KeysOf(r) == ToSet(keys)
    ensures forall j :: 0 <= j < |r| ==> r[j].0 in keys && r[j].1 == items[LastIndex(keys, r[j].0)]
  {
    var groups := GroupBy(keys, items);
    var r := seq(|groups|, j requires 0 <= j < |groups| => (groups[j].key, Last(groups[j].elements)));
    assert KeysOf(r) == GroupKeys(groups) by {
      assert forall j :: 0 <= j < |groups| ==> r[j].0 == groups[j].key;
    }
    assert forall j :: 0 <= j < |r| ==> r[j].0 in keys && r[j].1 == items[LastIndex(keys, r[j].0)] by {
      forall j | 0 <= j < |r|
        ensures r[j].0 in keys && r[j].1 == items[LastIndex(keys, r[j].0)]
      {
        var k := groups[j].key;
        assert k in GroupKeys(groups);
        LookupAt(groups, j);
        LastOfElementsWithKey(keys, items, k);
      }
    }
    r
  }

  /**
   The value List.RemoveAt leaves: the element at `index` is taken out and the later ones move down by one;
   ArgumentOutOfRangeException when `index` is not below the count.
   */
  function RemovedAt<T>(list: seq<T>, index: nat): (r: Result<seq<T>>)
    ensures r.Err? <==> index >= |list|
    ensures r.Err? ==> r.error == ArgumentOutOfRange
    ensures r.Ok? ==> |r.value| == |list| - 1
    ensures r.Ok? ==> forall j :: 0 <= j < index ==> r.value[j] == list[j]
    ensures r.Ok? ==> forall j :: index <= j < |r.value| ==> r.value[j] == list[j + 1]
  {
    if index >= |list| then Err(ArgumentOutOfRange) else Ok(list[..index] + list[index + 1..])
  }

  /** System.Collections.Generic.List: a sequence of items updated in place. */
  class List<T> {
    var items: seq<T>

    /** Enumerable.ToList: a list holding the source's items in order. */
    constructor (source: seq<T>)
      ensures items == source
    {
      items := source;
    }

    /**
     RemoveAt in place: on success the items become RemovedAt(old items); an index not
     below the count raises, and the list is left as it was.
     */
    method RemoveAt(index: nat) returns (failure: Option<Error>)
      modifies this
      ensures var expected := RemovedAt(old(items), index);
        && (expected.Err? ==> failure == Some(expected.error) && items == old(items))
        && (expected.Ok? ==> failure == None && items == expected.value)
    {
      if index >= |items| {
        return Some(ArgumentOutOfRange);
      }
      items := items[..index] + items[index + 1..];
      return None;
    }
  }

  lemma ToSetSnoc<T>(s: seq<T>, x: T)
    ensures ToSet(s + [x]) == ToSet(s) + {x}
  {
    assert forall y :: y in s + [x] <==> y in s || y == x;
  }

  /** A sequence has at most as many distinct elements as positions, exactly as many when no element repeats. */
  lemma {:induction false} ToSetCardinality<T>(s: seq<T>)
    ensures |ToSet(s)| <= |s|
    ensures |ToSet(s)| == |s| <==> Distinct(s)
    decreases |s|
  {
    if s != [] {
      var init, x := s[..|s| - 1], s[|s| - 1];
      assert s == init + [x];
      assert ToSet(s) == ToSet(init) + {x};
      ToSetCardinality(init);
      if x in init {
        assert ToSet(s) == ToSet(init);
        var i :| 0 <= i < |init| && init[i] == x;
        assert s[i] == s[|s| - 1];
      } else {
        assert x !in ToSet(init);
        assert Distinct(s) <==> Distinct(init);
      }
    }
  }
}
