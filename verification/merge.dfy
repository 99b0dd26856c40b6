/** mergePropertiesIntoMap (CollectionUtil.java:75-100): the one operation that
    changes a container of the caller's. */
module Merge {
  import opened Wrappers

  /** The library's one error kind. */
  datatype Error = IllegalArgument(message: string)

  /** The caller's java.util.Map, seen through its String keys; `put` replaces `entries`. */
  class TargetMap<V> {
    var entries: map<string, V>

    constructor (initial: map<string, V>)
      ensures entries == initial
    {
      entries := initial;
    }
  }

  /** The entries after a merge: every property under its key, and the
      entries under other keys as they were. */
  function Merged<V>(m: map<string, V>, props: Option<map<string, V>>): (r: map<string, V>)
    ensures r.Keys == m.Keys + Entries(props).Keys
    ensures forall k :: k in Entries(props) ==> r[k] == Entries(props)[k]
    ensures forall k :: k in m && k !in Entries(props) ==> r[k] == m[k]
  {
    m + Entries(props)
  }

  /** A null Properties merges nothing. */
  lemma {:induction false} MergeNullIsNoOp<V>(m: map<string, V>)
    ensures Merged(m, None) == m
  {
    assert m + map[] == m;
  }

  /** Merging the same properties a second time changes nothing. */
  lemma {:induction false} MergeIdempotent<V>(m: map<string, V>, props: Option<map<string, V>>)
    ensures Merged(Merged(m, props), props) == Merged(m, props)
  {
    var once := Merged(m, props);
    assert once + Entries(props) == once;
  }

  /** Copies every property into the target map; a null target is an IllegalArgumentException,
      a null Properties leaves the target unchanged. Property names are visited in an
      unspecified order, which the choice of `key` stands for. */
  method MergePropertiesIntoMap<V>(props: Option<map<string, V>>, target: TargetMap?<V>)
    returns (outcome: Outcome<Error>)
    modifies target
    ensures target == null ==> outcome == Fail(IllegalArgument("Map must not be null"))
    ensures target != null ==> outcome == Pass && target.entries == Merged(old(target.entries), props)
    ensures target != null && props.None? ==> target.entries == old(target.entries)
  {
    if target == null {
      return Fail(IllegalArgument("Map must not be null"));
    }
    if props.Some? {
      var p := props.value;
      var names := p.Keys;
      while names != {}
        invariant names <= p.Keys
        invariant target.entries == old(target.entries) + map k | k in p && k !in names :: p[k]
        decreases names
      {
        var key :| key in names;
        target.entries := target.entries[key := p[key]];
        names := names - {key};
      }
      assert (map k | k in p && k !in names :: p[k]) == p;
    } else {
      MergeNullIsNoOp(target.entries);
    }
    outcome := Pass;
  }
}
