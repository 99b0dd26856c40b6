/** Membership search (CollectionUtil.java:103-202).
    A reference is a value of a type `T` whose `==` is Java's `==` (identity);
    `Option<T>` is a possibly-null reference, and `equals` is `Object.equals`. */
module Membership {
  import opened Wrappers
  import opened Emptiness

  /** Spring's null-safe equality: the same reference (two nulls included), or
      two non-null references that `equals` relates. */
  predicate NullSafeEquals<T(==)>(a: Option<T>, b: Option<T>, equals: (T, T) -> bool)
  {
    a == b || (a.Some? && b.Some? && equals(a.value, b.value))
  }

  /** Some remaining element is null-safe-equal to `element`. */
  predicate Includes<T(==)>(s: seq<Option<T>>, element: Option<T>, equals: (T, T) -> bool)
  {
    exists i :: 0 <= i < |s| && NullSafeEquals(s[i], element, equals)
  }

  /** contains(Iterator, Object): the iterator's remaining elements are a sequence. */
  method ContainsIterator<T(==)>(iter: Option<seq<Option<T>>>, element: Option<T>, equals: (T, T) -> bool)
    returns (found: bool)
    ensures found <==> Includes(Elements(iter), element, equals)
    ensures found ==> iter.Some?
  {
    var s := Elements(iter);
    var i := 0;
    while i < |s|
      invariant 0 <= i <= |s|
      invariant forall j :: 0 <= j < i ==> !NullSafeEquals(s[j], element, equals)
    {
      if NullSafeEquals(s[i], element, equals) {
        return true;
      }
      i := i + 1;
    }
    return false;
  }

  /** contains(Enumeration, Object): the same scan over an enumeration's remaining elements. */
  method ContainsEnumeration<T(==)>(enumeration: Option<seq<Option<T>>>, element: Option<T>, equals: (T, T) -> bool)
    returns (found: bool)
    ensures found <==> Includes(Elements(enumeration), element, equals)
    ensures found ==> enumeration.Some?
  {
    found := ContainsIterator(enumeration, element, equals);
  }

  /** Looking for null finds exactly a null element, whatever `equals` says. */
  lemma IncludesNull<T>(s: seq<Option<T>>, equals: (T, T) -> bool)
    ensures Includes(s, None, equals) <==> None in s
  {
    if None in s {
      var i :| 0 <= i < |s| && s[i] == None;
      assert NullSafeEquals(s[i], None, equals);
    }
  }

  /** An identical element is always an equal one. */
  lemma IdenticalIsIncluded<T>(s: seq<Option<T>>, element: Option<T>, equals: (T, T) -> bool)
    ensures element in s ==> Includes(s, element, equals)
  {
    if element in s {
      var i :| 0 <= i < |s| && s[i] == element;
      assert NullSafeEquals(s[i], element, equals);
    }
  }

  /** Two distinct references that `equals` relates: found by value, not by identity. */
  lemma EqualButNotIdentical()
    ensures var equals := (a: int, b: int) => a % 2 == b % 2;
            Includes([Some(1)], Some(3), equals) && Some(3) !in [Some(1)]
  {
    var equals := (a: int, b: int) => a % 2 == b % 2;
    assert NullSafeEquals([Some(1)][0], Some(3), equals);
  }

  /** containsInstance: the same reference must be present, an equal one does not do. */
  method ContainsInstance<T(==)>(collection: Option<seq<T>>, element: T) returns (found: bool)
    ensures found <==> element in Elements(collection)
  {
    var s := Elements(collection);
    for i := 0 to |s|
      invariant element !in s[..i]
    {
      if s[i] == element {
        return true;
      }
    }
    return false;
  }

  /** Collection.contains as the Java collections implement it:
      a null query finds a null element, a non-null one finds an element it `equals`. */
  predicate CollectionContains<T(==)>(source: seq<Option<T>>, o: Option<T>, equals: (T, T) -> bool)
  {
    match o
    case None => None in source
    case Some(x) => exists i :: 0 <= i < |source| && source[i].Some? && equals(x, source[i].value)
  }

  /** The position of the first candidate, in the candidates' order, that the source contains. */
  function FirstMatchIndex<T(==)>(source: seq<Option<T>>, candidates: seq<Option<T>>, equals: (T, T) -> bool)
    : (r: Option<nat>)
    ensures r.Some? ==> r.value < |candidates| && CollectionContains(source, candidates[r.value], equals)
    ensures r.Some? ==> forall j :: 0 <= j < r.value ==> !CollectionContains(source, candidates[j], equals)
    ensures r.None? <==> forall j :: 0 <= j < |candidates| ==> !CollectionContains(source, candidates[j], equals)
    decreases |candidates|
  {
    if candidates == [] then None
    else if CollectionContains(source, candidates[0], equals) then Some(0)
    else
      match FirstMatchIndex(source, candidates[1..], equals)
      case None => None
      case Some(k) => Some(k + 1)
  }

  /** The first candidate the source contains, or null. A null candidate that matches is returned as null. */
  function FirstMatch<T(==)>(source: seq<Option<T>>, candidates: seq<Option<T>>, equals: (T, T) -> bool)
    : Option<T>
  {
    match FirstMatchIndex(source, candidates, equals)
    case None => None
    case Some(k) => candidates[k]
  }

  /** containsAny: some candidate is contained in the source. */
  method ContainsAny<T(==)>(source: Option<seq<Option<T>>>, candidates: Option<seq<Option<T>>>, equals: (T, T) -> bool)
    returns (r: bool)
    ensures r <==> FirstMatchIndex(Elements(source), Elements(candidates), equals).Some?
    ensures r <==> exists j :: 0 <= j < |Elements(candidates)|
                     && CollectionContains(Elements(source), Elements(candidates)[j], equals)
  {
    if IsEmpty(source) || IsEmpty(candidates) {
      return false;
    }
    var src, cs := source.value, candidates.value;
    for i := 0 to |cs|
      invariant forall j :: 0 <= j < i ==> !CollectionContains(src, cs[j], equals)
    {
      if CollectionContains(src, cs[i], equals) {
        return true;
      }
    }
    return false;
  }

  /** findFirstMatch: the earliest candidate that the source contains, else null. */
  method FindFirstMatch<T(==)>(source: Option<seq<Option<T>>>, candidates: Option<seq<Option<T>>>, equals: (T, T) -> bool)
    returns (r: Option<T>)
    ensures r == FirstMatch(Elements(source), Elements(candidates), equals)
    ensures IsEmpty(source) || IsEmpty(candidates) ==> r.None?
    ensures r.Some? ==> exists j :: 0 <= j < |Elements(candidates)| && Elements(candidates)[j] == r
                          && CollectionContains(Elements(source), r, equals)
                          && forall k :: 0 <= k < j ==> !CollectionContains(Elements(source), Elements(candidates)[k], equals)
  {
    if IsEmpty(source) || IsEmpty(candidates) {
      return None;
    }
    var src, cs := source.value, candidates.value;
    for i := 0 to |cs|
      invariant forall j :: 0 <= j < i ==> !CollectionContains(src, cs[j], equals)
    {
      if CollectionContains(src, cs[i], equals) {
        assert FirstMatchIndex(src, cs, equals) == Some(i);
        return cs[i];
      }
    }
    return None;
  }

  /** A non-null result of findFirstMatch means containsAny holds; the converse fails
      only when the first matching candidate is itself null. */
  lemma FirstMatchAgreesWithContainsAny<T>(source: seq<Option<T>>, candidates: seq<Option<T>>, equals: (T, T) -> bool)
    ensures FirstMatch(source, candidates, equals).Some? ==> FirstMatchIndex(source, candidates, equals).Some?
    ensures FirstMatchIndex(source, candidates, equals).Some? && FirstMatch(source, candidates, equals).None?
            <==> exists j :: 0 <= j < |candidates| && candidates[j].None? && None in source
                   && forall k :: 0 <= k < j ==> !CollectionContains(source, candidates[k], equals)
  {
    var idx := FirstMatchIndex(source, candidates, equals);
    if idx.Some? && FirstMatch(source, candidates, equals).None? {
      assert candidates[idx.value].None?;
    }
    if exists j :: 0 <= j < |candidates| && candidates[j].None? && None in source
                   && forall k :: 0 <= k < j ==> !CollectionContains(source, candidates[k], equals) {
      var j :| 0 <= j < |candidates| && candidates[j].None? && None in source
                   && forall k :: 0 <= k < j ==> !CollectionContains(source, candidates[k], equals);
      assert CollectionContains(source, candidates[j], equals);
      assert idx == Some(j);
    }
  }
}
