/** Grouping and indexing transforms: toMap and toMapList (CollectionUtil.java:314-340). */
module Grouping {
  import opened Wrappers
  import opened Emptiness

  /** The keys that the elements carry. */
  ghost function Image<E, K>(s: seq<E>, key: E -> K): set<K>
  {
    set i | 0 <= i < |s| :: key(s[i])
  }

  /** The image grows by the last element's key. */
  lemma ImageOfPrefix<E, K>(s: seq<E>, key: E -> K)
    requires s != []
    ensures Image(s, key) == Image(s[..|s| - 1], key) + {key(s[|s| - 1])}
    ensures forall i :: 0 <= i < |s| - 1 ==> key(s[i]) in Image(s[..|s| - 1], key)
  {
    var p := s[..|s| - 1];
    forall k | k in Image(s, key)
      ensures k in Image(p, key) + {key(s[|s| - 1])}
    {
      var i :| 0 <= i < |s| && key(s[i]) == k;
      if i < |s| - 1 {
        assert key(p[i]) == k;
      }
    }
    forall i | 0 <= i < |s| - 1
      ensures key(s[i]) in Image(p, key)
    {
      assert key(p[i]) == key(s[i]);
    }
  }

  /** The map that putting every element under key(element), in order, leaves behind. */
  function Index<E, K>(s: seq<E>, key: E -> K): map<K, E>
  {
    if s == [] then map[]
    else Index(s[..|s| - 1], key)[key(s[|s| - 1]) := s[|s| - 1]]
  }

  /** The keys are the image of the key function, and each key holds the last element
      carrying it (last write wins). */
  lemma {:induction false} IndexLastWriteWins<E, K>(s: seq<E>, key: E -> K)
    ensures Index(s, key).Keys == Image(s, key)
    ensures forall i :: 0 <= i < |s| && (forall j :: i < j < |s| ==> key(s[j]) != key(s[i]))
              ==> Index(s, key)[key(s[i])] == s[i]
  {
    if s != [] {
      var p := s[..|s| - 1];
      IndexLastWriteWins(p, key);
      ImageOfPrefix(s, key);
      assert forall i :: 0 <= i < |p| ==> p[i] == s[i];
    }
  }

  /** toMap: an empty map for an empty or null collection or a null key builder,
      else every element under its key, the last element winning. */
  method ToMap<E, K>(elements: Option<seq<E>>, keyBuilder: Option<E -> K>) returns (r: map<K, E>)
    ensures keyBuilder.None? ==> r == map[]
    ensures keyBuilder.Some? ==> r == Index(Elements(elements), keyBuilder.value)
    ensures keyBuilder.Some? ==> r.Keys == Image(Elements(elements), keyBuilder.value)
    ensures keyBuilder.Some? ==>
              forall i :: 0 <= i < |Elements(elements)|
                && (forall j :: i < j < |Elements(elements)| ==> keyBuilder.value(Elements(elements)[j]) != keyBuilder.value(Elements(elements)[i]))
                ==> r[keyBuilder.value(Elements(elements)[i])] == Elements(elements)[i]
  {
    if IsEmpty(elements) || keyBuilder.None? {
      return map[];
    }
    var s, key := elements.value, keyBuilder.value;
    // The model allocates with the intended Capacity(|s|); the source's int arithmetic
    // differs from 715827883 elements, see CapacityOverflow.
    var result := map[];
    for i := 0 to |s|
      invariant result == Index(s[..i], key)
    {
      assert s[..i + 1][..i] == s[..i];
      result := result[key(s[i]) := s[i]];
    }
    assert s[..|s|] == s;
    IndexLastWriteWins(s, key);
    r := result;
  }

  /** The map toMapList builds: each element's value appended to the list of its key. */
  function Group<E, K, V>(s: seq<E>, key: E -> K, value: E -> V): map<K, seq<V>>
  {
    if s == [] then map[]
    else
      var m := Group(s[..|s| - 1], key, value);
      var e := s[|s| - 1];
      m[key(e) := (if key(e) in m then m[key(e)] else []) + [value(e)]]
  }

  /** Reference definition: the values of exactly the elements carrying key k, in their order. */
  function Bucket<E, K(==), V>(s: seq<E>, key: E -> K, value: E -> V, k: K): seq<V>
  {
    if s == [] then []
    else Bucket(s[..|s| - 1], key, value, k) + (if key(s[|s| - 1]) == k then [value(s[|s| - 1])] else [])
  }

  /** Grouping keeps order: the keys are the image of the key function and each list
      is the bucket of its key. */
  lemma {:induction false} GroupIsBuckets<E, K, V>(s: seq<E>, key: E -> K, value: E -> V)
    ensures Group(s, key, value).Keys == Image(s, key)
    ensures forall k :: k in Group(s, key, value) ==> Group(s, key, value)[k] == Bucket(s, key, value, k)
  {
    if s != [] {
      var p := s[..|s| - 1];
      var m := Group(p, key, value);
      GroupIsBuckets(p, key, value);
      ImageOfPrefix(s, key);
      forall k | k in Group(s, key, value)
        ensures Group(s, key, value)[k] == Bucket(s, key, value, k)
      {
        if k !in m {
          forall i | 0 <= i < |p|
            ensures key(p[i]) != k
          {
            assert p[i] == s[i];
          }
          BucketOutsideImage(p, key, value, k);
        }
      }
    }
  }

  /** A key no element carries has an empty bucket. */
  lemma {:induction false} BucketOutsideImage<E, K, V>(s: seq<E>, key: E -> K, value: E -> V, k: K)
    requires forall i :: 0 <= i < |s| ==> key(s[i]) != k
    ensures Bucket(s, key, value, k) == []
  {
    if s != [] {
      BucketOutsideImage(s[..|s| - 1], key, value, k);
    }
  }

  /** The total length of the lists of a map. */
  ghost function TotalSize<K, V>(m: map<K, seq<V>>): nat
    decreases |m|
  {
    if m == map[] then 0
    else
      var k :| k in m;
      |m[k]| + TotalSize(m - {k})
  }

  /** TotalSize does not depend on which key it takes first. */
  lemma {:induction false} TotalSizeWithout<K, V>(m: map<K, seq<V>>, k: K)
    requires k in m
    ensures TotalSize(m) == |m[k]| + TotalSize(m - {k})
    decreases |m|
  {
    var k' :| k' in m && TotalSize(m) == |m[k']| + TotalSize(m - {k'});
    if k' != k {
      var both := m - {k'} - {k};
      assert m - {k} - {k'} == both;
      TotalSizeWithout(m - {k'}, k);
      TotalSizeWithout(m - {k}, k');
    }
  }

  /** The list lengths sum to the number of elements. */
  lemma {:induction false} GroupTotalSize<E, K, V>(s: seq<E>, key: E -> K, value: E -> V)
    ensures TotalSize(Group(s, key, value)) == |s|
  {
    if s != [] {
      var p := s[..|s| - 1];
      var m := Group(p, key, value);
      var k := key(s[|s| - 1]);
      var m' := Group(s, key, value);
      GroupTotalSize(p, key, value);
      TotalSizeWithout(m', k);
      assert m' - {k} == m - {k};
      if k in m {
        TotalSizeWithout(m, k);
      } else {
        assert m - {k} == m;
      }
    }
  }

  /** toMapList(Collection, Function, Function): empty for an empty or null collection
      or a null function, else the elements' values grouped by key, each group in order. */
  method ToMapList<E, K, V>(elements: Option<seq<E>>, keyFunc: Option<E -> K>, valueFunc: Option<E -> V>)
    returns (r: map<K, seq<V>>)
    ensures keyFunc.None? || valueFunc.None? ==> r == map[]
    ensures keyFunc.Some? && valueFunc.Some? ==> r == Group(Elements(elements), keyFunc.value, valueFunc.value)
    ensures keyFunc.Some? && valueFunc.Some? ==>
              && r.Keys == Image(Elements(elements), keyFunc.value)
              && (forall k :: k in r ==> r[k] == Bucket(Elements(elements), keyFunc.value, valueFunc.value, k))
              && TotalSize(r) == |Elements(elements)|
  {
    if IsEmpty(elements) || keyFunc.None? || valueFunc.None? {
      return map[];
    }
    var s, key, value := elements.value, keyFunc.value, valueFunc.value;
    // Allocated with the intended Capacity(|s|), as in ToMap; see CapacityOverflow.
    var result := map[];
    for i := 0 to |s|
      invariant result == Group(s[..i], key, value)
    {
      assert s[..i + 1][..i] == s[..i];
      var k := key(s[i]);
      var values := if k in result then result[k] else [];
      result := result[k := values + [value(s[i])]];
    }
    assert s[..|s|] == s;
    GroupIsBuckets(s, key, value);
    GroupTotalSize(s, key, value);
    r := result;
  }

  /** toMapList(Collection, Function): the elements themselves grouped by key. */
  method ToMapListByKey<E, K>(elements: Option<seq<E>>, keyFunc: Option<E -> K>) returns (r: map<K, seq<E>>)
    ensures keyFunc.None? ==> r == map[]
    ensures keyFunc.Some? ==>
              && r.Keys == Image(Elements(elements), keyFunc.value)
              && (forall k :: k in r ==> r[k] == Bucket(Elements(elements), keyFunc.value, e => e, k))
              && TotalSize(r) == |Elements(elements)|
  {
    r := ToMapList(elements, keyFunc, Some(e => e));
  }

  /** toMapList([1, 2, 3, 4], x % 2) groups into {0: [2, 4], 1: [1, 3]}. */
  lemma ParityGroupingExample()
    ensures Group([1, 2, 3, 4], (x: int) => x % 2, (x: int) => x) == map[0 := [2, 4], 1 := [1, 3]]
  {
    var key, id := (x: int) => x % 2, (x: int) => x;
    assert [1, 2, 3, 4][..3] == [1, 2, 3] && [1, 2, 3][..2] == [1, 2] && [1, 2][..1] == [1] && [1][..0] == [];
    assert [] + [id(1)] == [1] && [] + [id(2)] == [2];
    var g1 := Group([1], key, id);
    assert g1 == map[][key(1) := [] + [id(1)]];
    var g2 := Group([1, 2], key, id);
    assert g2 == g1[key(2) := [] + [id(2)]];
    var g3 := Group([1, 2, 3], key, id);
    assert g2 == map[1 := [1], 0 := [2]];
    assert g2[1] + [id(3)] == [1, 3];
    assert g3 == g2[key(3) := g2[1] + [id(3)]];
    assert g3 == map[1 := [1, 3], 0 := [2]];
    assert g3[0] + [id(4)] == [2, 4];
    assert Group([1, 2, 3, 4], key, id) == g3[key(4) := g3[0] + [id(4)]];
  }

  // Initial capacity of the HashMap that toMap and toMapList allocate
  // (CollectionUtil.java:318 and :333), in Java `int` arithmetic.

  const IntRange: int := 0x1_0000_0000

  /** Wrap an integer into Java's 32-bit two's complement range. */
  function WrapInt(x: int): (r: int)
    ensures -0x8000_0000 <= r < 0x8000_0000
    ensures (x - r) % IntRange == 0
  {
    var m := x % IntRange;
    if m < 0x8000_0000 then m else m - IntRange
  }

  /** Java's int division by a positive divisor, truncating toward zero. */
  function JavaDiv(a: int, b: int): (q: int)
    requires 0 < b
    ensures 0 <= a ==> q == a / b
    ensures a < 0 ==> q == -((-a) / b)
  {
    if a < 0 then -((-a) / b) else a / b
  }

  /** `elements.size() * 3 / 2` as the source evaluates it. */
  function CapacityAsWritten(size: nat): int
    requires size < 0x8000_0000
  {
    JavaDiv(WrapInt(size * 3), 2)
  }

  /** The sizing evidently intended: half as much room again as there are elements. */
  function Capacity(size: nat): (c: nat)
    ensures size <= c
  {
    size * 3 / 2
  }

  /** Up to 715827882 elements the source's capacity is the intended one; from 715827883
      the product overflows to a negative capacity, which `new HashMap<>(int)` rejects
      with IllegalArgumentException. */
  lemma CapacityOverflow()
    ensures CapacityAsWritten(715827882) == Capacity(715827882)
    ensures CapacityAsWritten(715827883) < 0
  {
  }

  /** Below the overflow point the source's arithmetic agrees with the intended one. */
  lemma CapacityAsWrittenAgrees(size: nat)
    requires size <= 715827882
    ensures CapacityAsWritten(size) == Capacity(size)
  {
    assert size * 3 < 0x8000_0000;
  }
}
