/** isEmpty / isNotEmpty for collections, maps and arrays (CollectionUtil.java:26-55). */
module Emptiness {
  import opened Wrappers

  /** True if the collection is null or has no elements. */
  predicate IsEmpty<T>(collection: Option<seq<T>>)
    ensures IsEmpty(collection) <==> |Elements(collection)| == 0
  {
    collection.None? || |collection.value| == 0
  }

  predicate IsNotEmpty<T>(collection: Option<seq<T>>)
    ensures IsNotEmpty(collection) <==> collection.Some? && 0 < |collection.value|
    ensures IsNotEmpty(collection) <==> !IsEmpty(collection)
  {
    !IsEmpty(collection)
  }

  /** True if the map is null or has no entries. */
  predicate IsEmptyMap<K, V>(m: Option<map<K, V>>)
    ensures IsEmptyMap(m) <==> |Entries(m)| == 0
  {
    m.None? || |m.value| == 0
  }

  predicate IsNotEmptyMap<K, V>(m: Option<map<K, V>>)
    ensures IsNotEmptyMap(m) <==> m.Some? && exists k :: k in m.value
    ensures IsNotEmptyMap(m) <==> !IsEmptyMap(m)
  {
    !IsEmptyMap(m)
  }

  /** True if the array reference is null or the array has length 0. */
  predicate IsEmptyArray<T>(a: array?<T>)
    reads a
    ensures a == null ==> IsEmptyArray(a)
    ensures a != null ==> (IsEmptyArray(a) <==> IsEmpty(Some(a[..])))
  {
    a == null || a.Length == 0
  }

  predicate IsNotEmptyArray<T>(a: array?<T>)
    reads a
    ensures IsNotEmptyArray(a) <==> a != null && 0 < a.Length
    ensures IsNotEmptyArray(a) <==> !IsEmptyArray(a)
  {
    !IsEmptyArray(a)
  }
}
