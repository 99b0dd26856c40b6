/** "Unique match or none" searches (CollectionUtil.java:204-299).
    A Java `Class` argument is an instance test `T -> bool` on non-null
    references; `None` is a null Class, which matches every element. */
module TypeSearch {
  import opened Wrappers
  import opened Emptiness

  /** `type == null || type.isInstance(element)`; isInstance(null) is false. */
  predicate Matches<T>(cls: Option<T -> bool>, e: Option<T>)
  {
    cls.None? || (e.Some? && cls.value(e.value))
  }

  /** Element i is the clear match of the search: a non-null matching element,
      and every other matching element is a null one before it. */
  ghost predicate ClearMatchAt<T>(s: seq<Option<T>>, cls: Option<T -> bool>, i: int)
  {
    && 0 <= i < |s| && s[i].Some? && Matches(cls, s[i])
    && forall j :: 0 <= j < |s| && j != i && Matches(cls, s[j]) ==> j < i && s[j].None?
  }

  /** Element i is the one and only matching element. */
  ghost predicate OnlyMatchAt<T>(s: seq<Option<T>>, cls: Option<T -> bool>, i: int)
  {
    0 <= i < |s| && Matches(cls, s[i]) && forall j :: 0 <= j < |s| && Matches(cls, s[j]) ==> j == i
  }

  /** The value findValueOfType finds: the clear match if there is one, else null. */
  ghost function ValueOfType<T>(s: seq<Option<T>>, cls: Option<T -> bool>): (r: Option<T>)
    ensures forall i :: ClearMatchAt(s, cls, i) ==> r == s[i]
    ensures r.Some? ==> exists i :: ClearMatchAt(s, cls, i)
  {
    if exists i :: ClearMatchAt(s, cls, i) then
      var i :| ClearMatchAt(s, cls, i); s[i]
    else
      None
  }

  /** With a non-null type (which never matches null): found exactly when
      one element matches, and then that element is the result. */
  lemma {:induction false} TypedSearchFindsOnlyMatch<T>(s: seq<Option<T>>, cls: Option<T -> bool>)
    requires cls.Some?
    ensures ValueOfType(s, cls).Some? <==> exists i :: OnlyMatchAt(s, cls, i)
    ensures forall i :: OnlyMatchAt(s, cls, i) ==> ValueOfType(s, cls) == s[i]
  {
    forall i | OnlyMatchAt(s, cls, i)
      ensures ClearMatchAt(s, cls, i)
    {
    }
    forall i | ClearMatchAt(s, cls, i)
      ensures OnlyMatchAt(s, cls, i)
    {
    }
  }

  /** findValueOfType(Collection, Class). */
  method FindValueOfType<T>(collection: Option<seq<Option<T>>>, cls: Option<T -> bool>) returns (r: Option<T>)
    ensures r == ValueOfType(Elements(collection), cls)
    ensures forall i :: OnlyMatchAt(Elements(collection), cls, i) && Elements(collection)[i].Some?
              ==> r == Elements(collection)[i]
    ensures (forall i :: 0 <= i < |Elements(collection)| ==> !Matches(cls, Elements(collection)[i])) ==> r.None?
  {
    var s := Elements(collection);
    if IsEmpty(collection) {
      return None;
    }
    var value: Option<T> := None;
    for i := 0 to |s|
      invariant forall j, k :: 0 <= j < k < i && Matches(cls, s[j]) && Matches(cls, s[k]) ==> s[j].None?
      invariant value.Some? ==> exists j :: 0 <= j < i && s[j] == value && Matches(cls, s[j])
                                  && forall k :: j < k < i ==> !Matches(cls, s[k])
      invariant value.None? ==> forall j :: 0 <= j < i && Matches(cls, s[j]) ==> s[j].None?
    {
      if Matches(cls, s[i]) {
        if value.Some? {
          ghost var j :| 0 <= j < i && s[j] == value && Matches(cls, s[j])
                         && forall k :: j < k < i ==> !Matches(cls, s[k]);
          assert forall m :: !ClearMatchAt(s, cls, m) by {
            forall m | ClearMatchAt(s, cls, m)
              ensures false
            {
            }
          }
          return None;
        }
        value := s[i];
      }
    }
    if value.Some? {
      ghost var j :| 0 <= j < |s| && s[j] == value && Matches(cls, s[j])
                     && forall k :: j < k < |s| ==> !Matches(cls, s[k]);
      assert ClearMatchAt(s, cls, j);
    } else {
      assert forall m :: !ClearMatchAt(s, cls, m);
    }
    r := value;
  }

  /** The first non-null findValueOfType result over the types, in priority order. */
  ghost function FirstValueOfTypes<T>(s: seq<Option<T>>, types: seq<Option<T -> bool>>): (r: Option<T>)
    ensures r.Some? ==> exists k :: 0 <= k < |types| && r == ValueOfType(s, types[k])
                          && forall j :: 0 <= j < k ==> ValueOfType(s, types[j]).None?
    ensures r.None? <==> forall k :: 0 <= k < |types| ==> ValueOfType(s, types[k]).None?
    decreases |types|
  {
    if types == [] then None
    else
      match ValueOfType(s, types[0])
      case Some(v) => Some(v)
      case None => FirstValueOfTypes(s, types[1..])
  }

  /** When every type before position i finds nothing, the prioritised search
      is decided at position i (or finds nothing when i is past the end). */
  lemma {:induction false} FirstValueOfTypesAt<T>(s: seq<Option<T>>, types: seq<Option<T -> bool>>, i: nat)
    requires i <= |types|
    requires forall j :: 0 <= j < i ==> ValueOfType(s, types[j]).None?
    ensures i < |types| && ValueOfType(s, types[i]).Some? ==> FirstValueOfTypes(s, types) == ValueOfType(s, types[i])
    ensures i == |types| ==> FirstValueOfTypes(s, types) == None
    decreases i
  {
    if 0 < i {
      FirstValueOfTypesAt(s, types[1..], i - 1);
    }
  }

  /** findValueOfType(Collection, Class[]). */
  method FindValueOfTypes<T>(collection: Option<seq<Option<T>>>, types: Option<seq<Option<T -> bool>>>)
    returns (r: Option<T>)
    ensures r == FirstValueOfTypes(Elements(collection), Elements(types))
    ensures IsEmpty(collection) || IsEmpty(types) ==> r.None?
  {
    if IsEmpty(collection) || IsEmpty(types) {
      return None;
    }
    var s, ts := collection.value, types.value;
    for i := 0 to |ts|
      invariant forall j :: 0 <= j < i ==> ValueOfType(s, ts[j]).None?
    {
      var value := FindValueOfType(collection, ts[i]);
      if value.Some? {
        FirstValueOfTypesAt(s, ts, i);
        return value;
      }
    }
    FirstValueOfTypesAt(s, ts, |ts|);
    return None;
  }

  /** hasUniqueObject: non-empty, and every element is the very reference of the first. */
  method HasUniqueObject<T(==)>(collection: Option<seq<T>>) returns (r: bool)
    ensures r <==> 0 < |Elements(collection)|
                   && forall i :: 0 <= i < |Elements(collection)| ==> Elements(collection)[i] == Elements(collection)[0]
  {
    if IsEmpty(collection) {
      return false;
    }
    var s := collection.value;
    var hasCandidate := false;
    var candidate: Option<T> := None;
    for i := 0 to |s|
      invariant hasCandidate <==> 0 < i
      invariant hasCandidate ==> candidate == Some(s[0])
      invariant forall j :: 0 <= j < i ==> s[j] == s[0]
    {
      if !hasCandidate {
        hasCandidate := true;
        candidate := Some(s[i]);
      } else if candidate != Some(s[i]) {
        return false;
      }
    }
    return true;
  }

  /** findCommonElementType: the runtime class shared by every non-null element,
      or null when there is no non-null element or two of them differ. */
  method FindCommonElementType<T, C(==)>(collection: Option<seq<Option<T>>>, classOf: T -> C) returns (r: Option<C>)
    ensures r.Some? ==> exists i :: 0 <= i < |Elements(collection)| && Elements(collection)[i].Some?
    ensures r.Some? ==> forall i :: 0 <= i < |Elements(collection)| && Elements(collection)[i].Some?
                          ==> classOf(Elements(collection)[i].value) == r.value
    ensures r.None? ==> (forall i :: 0 <= i < |Elements(collection)| ==> Elements(collection)[i].None?)
                        || exists i, j :: 0 <= i < |Elements(collection)| && 0 <= j < |Elements(collection)|
                             && Elements(collection)[i].Some? && Elements(collection)[j].Some?
                             && classOf(Elements(collection)[i].value) != classOf(Elements(collection)[j].value)
  {
    var s := Elements(collection);
    if IsEmpty(collection) {
      return None;
    }
    var candidate: Option<C> := None;
    for i := 0 to |s|
      invariant candidate.None? ==> forall j :: 0 <= j < i ==> s[j].None?
      invariant candidate.Some? ==> exists j :: 0 <= j < i && s[j].Some? && classOf(s[j].value) == candidate.value
      invariant candidate.Some? ==> forall j :: 0 <= j < i && s[j].Some? ==> classOf(s[j].value) == candidate.value
    {
      if s[i].Some? {
        if candidate.None? {
          candidate := Some(classOf(s[i].value));
        } else if candidate.value != classOf(s[i].value) {
          return None;
        }
      }
    }
    return candidate;
  }

  /** Runtime values for the examples below. */
  datatype Value = Str(text: string) | Num(n: int)

  /** {"a", 1, "b"} searched for Integer finds 1; searched for String it is ambiguous. */
  lemma TypedSearchExamples()
    ensures ValueOfType([Some(Str("a")), Some(Num(1)), Some(Str("b"))], Some((v: Value) => v.Num?)) == Some(Num(1))
    ensures ValueOfType([Some(Str("a")), Some(Str("b"))], Some((v: Value) => v.Str?)) == None
  {
    var s := [Some(Str("a")), Some(Num(1)), Some(Str("b"))];
    var isNum := Some((v: Value) => v.Num?);
    assert ClearMatchAt(s, isNum, 1);
    var t := [Some(Str("a")), Some(Str("b"))];
    var isStr := Some((v: Value) => v.Str?);
    assert Matches(isStr, t[0]) && Matches(isStr, t[1]);
  }

  /** With a null type, a null element ahead of a single non-null one is not counted:
      [null, x] yields x, while [x, null] yields null. */
  lemma UntypedSearchSkipsLeadingNull(x: Value)
    ensures ValueOfType([None, Some(x)], None) == Some(x)
    ensures ValueOfType([Some(x), None], None) == None
  {
    assert ClearMatchAt([None, Some(x)], None, 1);
    var t: seq<Option<Value>> := [Some(x), None];
    assert Matches(None, t[1]);
  }
}
