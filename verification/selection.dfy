/** filter, selectList, selectNotNullList and selectListWithIndex
    (CollectionUtil.java:349-395). A function result of `None` is a Java null. */
module Selection {
  import opened Wrappers
  import opened Emptiness

  /** The elements that satisfy `test`, in their order. */
  function Kept<E>(s: seq<E>, test: E -> bool): (r: seq<E>)
    ensures |r| <= |s|
  {
    if s == [] then []
    else Kept(s[..|s| - 1], test) + (if test(s[|s| - 1]) then [s[|s| - 1]] else [])
  }

  /** The positions of the elements that satisfy `test`, ascending. */
  function Positions<E>(s: seq<E>, test: E -> bool): seq<nat>
  {
    if s == [] then []
    else Positions(s[..|s| - 1], test) + (if test(s[|s| - 1]) then [|s| - 1] else [])
  }

  /** Kept is the order-preserving subsequence of exactly the elements satisfying `test`:
      its k-th element sits at the k-th of the ascending positions where `test` holds. */
  lemma {:induction false} KeptIsSubsequence<E>(s: seq<E>, test: E -> bool)
    ensures |Kept(s, test)| == |Positions(s, test)|
    ensures forall k :: 0 <= k < |Positions(s, test)| ==>
              Positions(s, test)[k] < |s| && Kept(s, test)[k] == s[Positions(s, test)[k]]
    ensures forall k, l :: 0 <= k < l < |Positions(s, test)| ==> Positions(s, test)[k] < Positions(s, test)[l]
    ensures forall i :: 0 <= i < |s| ==> (test(s[i]) <==> i in Positions(s, test))
    ensures forall k :: 0 <= k < |Kept(s, test)| ==> test(Kept(s, test)[k])
  {
    if s != [] {
      var n := |s| - 1;
      var p := s[..n];
      KeptIsSubsequence(p, test);
      assert forall i :: 0 <= i < n ==> p[i] == s[i];
      var ps := Positions(p, test);
      assert n !in ps;
    }
  }

  /** filter: empty for an empty or null collection or a null predicate, else the
      elements satisfying the predicate, in order. */
  method Filter<E>(source: Option<seq<E>>, test: Option<E -> bool>) returns (r: seq<E>)
    ensures test.None? ==> r == []
    ensures test.Some? ==> r == Kept(Elements(source), test.value)
    ensures test.Some? ==> forall k :: 0 <= k < |r| ==> test.value(r[k])
    ensures |r| <= |Elements(source)|
  {
    if IsEmpty(source) || test.None? {
      return [];
    }
    var s, keep := source.value, test.value;
    var result := [];
    for i := 0 to |s|
      invariant result == Kept(s[..i], keep)
    {
      assert s[..i + 1][..i] == s[..i];
      if keep(s[i]) {
        result := result + [s[i]];
      }
    }
    assert s[..|s|] == s;
    KeptIsSubsequence(s, keep);
    r := result;
  }

  /** The Java null test `t != null`. */
  predicate IsPresent<T>(t: Option<T>)
  {
    t.Some?
  }

  /** What selectList collects: `func` of each element, nulls dropped unless allowed. */
  function Selected<F, T>(s: seq<F>, func: F -> Option<T>, allowNull: bool): seq<Option<T>>
  {
    if s == [] then []
    else
      var t := func(s[|s| - 1]);
      Selected(s[..|s| - 1], func, allowNull) + (if IsPresent(t) || allowNull then [t] else [])
  }

  /** Allowing nulls, the result is aligned with the source: the i-th result is `func` of the i-th element. */
  lemma {:induction false} SelectedAligned<F, T>(s: seq<F>, func: F -> Option<T>)
    ensures |Selected(s, func, true)| == |s|
    ensures forall i :: 0 <= i < |s| ==> Selected(s, func, true)[i] == func(s[i])
  {
    if s != [] {
      var p := s[..|s| - 1];
      SelectedAligned(p, func);
      assert forall i :: 0 <= i < |p| ==> p[i] == s[i];
    }
  }

  /** Not allowing nulls gives the aligned list with its nulls removed. */
  lemma {:induction false} SelectedNotNull<F, T>(s: seq<F>, func: F -> Option<T>)
    ensures Selected(s, func, false) == Kept(Selected(s, func, true), IsPresent)
  {
    if s != [] {
      var p := s[..|s| - 1];
      SelectedNotNull(p, func);
      var all := Selected(s, func, true);
      assert all[..|all| - 1] == Selected(p, func, true);
    }
  }

  /** selectList(Collection, Function, boolean). */
  method SelectListWithNullPolicy<F, T>(source: Option<seq<F>>, func: F -> Option<T>, allowNullValue: bool)
    returns (r: seq<Option<T>>)
    ensures r == Selected(Elements(source), func, allowNullValue)
    ensures allowNullValue ==> |r| == |Elements(source)|
                               && forall i :: 0 <= i < |r| ==> r[i] == func(Elements(source)[i])
    ensures !allowNullValue ==> r == Kept(Selected(Elements(source), func, true), IsPresent)
  {
    if IsEmpty(source) {
      return [];
    }
    var s := source.value;
    var resultList := [];
    for i := 0 to |s|
      invariant resultList == Selected(s[..i], func, allowNullValue)
    {
      assert s[..i + 1][..i] == s[..i];
      var t := func(s[i]);
      if IsPresent(t) || allowNullValue {
        resultList := resultList + [t];
      }
    }
    assert s[..|s|] == s;
    SelectedAligned(s, func);
    SelectedNotNull(s, func);
    r := resultList;
  }

  /** selectList(Collection, Function): every result, nulls included, aligned with the source. */
  method SelectList<F, T>(source: Option<seq<F>>, func: F -> Option<T>) returns (r: seq<Option<T>>)
    ensures |r| == |Elements(source)|
    ensures forall i :: 0 <= i < |r| ==> r[i] == func(Elements(source)[i])
  {
    r := SelectListWithNullPolicy(source, func, true);
  }

  /** selectNotNullList: the results of selectList with the nulls removed, in order. */
  method SelectNotNullList<F, T>(source: Option<seq<F>>, func: F -> Option<T>) returns (r: seq<Option<T>>)
    ensures r == Kept(Selected(Elements(source), func, true), IsPresent)
    ensures forall k :: 0 <= k < |r| ==> r[k].Some?
  {
    r := SelectListWithNullPolicy(source, func, false);
    KeptIsSubsequence(Selected(Elements(source), func, true), IsPresent);
  }

  /** selectListWithIndex: `func` of each element and its position, counted from 0. */
  method SelectListWithIndex<F, T>(source: Option<seq<F>>, func: (F, int) -> T) returns (r: seq<T>)
    ensures |r| == |Elements(source)|
    ensures forall i :: 0 <= i < |r| ==> r[i] == func(Elements(source)[i], i)
  {
    if IsEmpty(source) {
      return [];
    }
    var s := source.value;
    var resultList := [];
    var index := 0;
    for i := 0 to |s|
      invariant index == i
      invariant |resultList| == i
      invariant forall j :: 0 <= j < i ==> resultList[j] == func(s[j], j)
    {
      resultList := resultList + [func(s[i], index)];
      index := index + 1;
    }
    r := resultList;
  }

  /** selectList vs selectNotNullList on [1, 2, 3] with x > 1 ? x : null. */
  lemma SelectExample()
    ensures Selected([1, 2, 3], (x: int) => if x > 1 then Some(x) else None, true) == [None, Some(2), Some(3)]
    ensures Selected([1, 2, 3], (x: int) => if x > 1 then Some(x) else None, false) == [Some(2), Some(3)]
  {
    var f := (x: int) => if x > 1 then Some(x) else None;
    assert [1, 2, 3][..2] == [1, 2] && [1, 2][..1] == [1] && [1][..0] == [];
    assert Selected([1], f, true) == [None];
    assert Selected([1, 2], f, true) == [None, Some(2)];
    assert Selected([1], f, false) == [];
    assert Selected([1, 2], f, false) == [Some(2)];
  }
}
