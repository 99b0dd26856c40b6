# CollectionUtil, modelled in Dafny

`com.xjbg.sso.core.util.CollectionUtil` is a stateless helper class of the sso-core
module: null-tolerant emptiness tests, membership searches, "unique match or none"
searches, grouping and indexing transforms, and one operation that merges a
`Properties` object into a caller's map. This project models every one of those
operations and proves what each promises.

How Java is represented:

- A possibly-null container is `Option<seq<T>>` / `Option<map<K, V>>` (`None` is
  `null`); `Wrappers.Elements` / `Wrappers.Entries` turn `null` into the empty
  container at the entry of each operation. Iteration order is the order of the `seq`.
- A Java reference is a value of a type parameter `T(==)` whose Dafny `==` is Java's
  `==` (identity). Where the code treats `null` specially, the element type is
  `Option<T>`. `Object.equals` is a caller-supplied `equals: (T, T) -> bool`, so value
  equality (`contains`, `containsAny`, `findFirstMatch`) and identity
  (`containsInstance`, `hasUniqueObject`) stay separate.
- A `Class` argument of `findValueOfType` is an instance test `T -> bool` on non-null
  references (`Class.isInstance(null)` is false), with `None` for a null `Class`;
  `getClass()` is a caller-supplied `classOf: T -> C`.
- `Function`, `Predicate` and `BiFunction` arguments are Dafny function values,
  wrapped in `Option` where the code tests them for `null`.
- Each loop of the source is a method whose loop invariants tie its local state to a
  specification function over the prefix already visited (`Index`, `Group`, `Kept`,
  `Selected`, ...); lemmas state what those functions mean.
- `mergePropertiesIntoMap` changes the caller's map: the map is a `Merge.TargetMap`
  object whose `entries` field the method reassigns, `null` being a null reference.

Modules: `Wrappers`, `Emptiness`, `Membership`, `TypeSearch`, `Grouping`,
`Selection`, `Merge` (one per group of operations of the class).

With a null `Class`, one might expect `findValueOfType` to find a value only when
the collection holds exactly one element. The code instead skips a null element met
before a non-null match: `[null, x]` yields `x`, while `[x, null]` yields null. The
model follows the code; see `TypeSearch.UntypedSearchSkipsLeadingNull`.

## Model

| member | source | states |
|---|---|---|
| Emptiness.IsEmpty | sso-core/src/main/java/com/xjbg/sso/core/util/CollectionUtil.java:26-28 | a collection is empty exactly when it is null or has no elements |
| Emptiness.IsNotEmpty | sso-core/src/main/java/com/xjbg/sso/core/util/CollectionUtil.java:30-32 | the negation of isEmpty: non-null with at least one element |
| Emptiness.IsEmptyMap | sso-core/src/main/java/com/xjbg/sso/core/util/CollectionUtil.java:41-43 | a map is empty exactly when it is null or has no entries |
| Emptiness.IsNotEmptyMap | sso-core/src/main/java/com/xjbg/sso/core/util/CollectionUtil.java:45-47 | the negation of isEmpty: non-null and some key is present |
| Emptiness.IsEmptyArray | sso-core/src/main/java/com/xjbg/sso/core/util/CollectionUtil.java:49-51 | an array is empty exactly when the reference is null or, for a non-null array, when the collection of its contents is empty |
| Emptiness.IsNotEmptyArray | sso-core/src/main/java/com/xjbg/sso/core/util/CollectionUtil.java:53-55 | the negation of isEmpty: non-null with positive length |
| Merge.Merged | sso-core/src/main/java/com/xjbg/sso/core/util/CollectionUtil.java:89-99 | after a merge the keys are the old keys plus the property names; each property name maps to its property value; every other key keeps its old value |
| Merge.MergePropertiesIntoMap | sso-core/src/main/java/com/xjbg/sso/core/util/CollectionUtil.java:85-100 | a null target map fails with IllegalArgument("Map must not be null"); otherwise the target's entries become the merge of its old entries with the properties, and a null Properties leaves them unchanged |
| Merge.MergeNullIsNoOp | sso-core/src/main/java/com/xjbg/sso/core/util/CollectionUtil.java:89 | merging a null Properties leaves the map as it was |
| Merge.MergeIdempotent | sso-core/src/main/java/com/xjbg/sso/core/util/CollectionUtil.java:90-98 | merging the same properties twice gives the same map as merging them once |
| Membership.ContainsIterator | sso-core/src/main/java/com/xjbg/sso/core/util/CollectionUtil.java:110-120 | true exactly when some remaining element is null-safe-equal to the element (the same reference, or both non-null and `equals`); a null iterator gives false |
| Membership.ContainsEnumeration | sso-core/src/main/java/com/xjbg/sso/core/util/CollectionUtil.java:129-139 | the same result as contains over an iterator, for the enumeration's remaining elements |
| Membership.IncludesNull | sso-core/src/main/java/com/xjbg/sso/core/util/CollectionUtil.java:114 | searching for null finds exactly a null element, whatever `equals` says |
| Membership.IdenticalIsIncluded | sso-core/src/main/java/com/xjbg/sso/core/util/CollectionUtil.java:110-120 | an element that is present by identity is also found by contains |
| Membership.EqualButNotIdentical | sso-core/src/main/java/com/xjbg/sso/core/util/CollectionUtil.java:150-159 | two distinct references related by `equals`: contains finds one, identity membership does not |
| Membership.ContainsInstance | sso-core/src/main/java/com/xjbg/sso/core/util/CollectionUtil.java:150-159 | true exactly when the very reference occurs in the collection; a null collection gives false |
| Membership.FirstMatchIndex | sso-core/src/main/java/com/xjbg/sso/core/util/CollectionUtil.java:196-201 | the position of the earliest candidate the source contains: that candidate is contained, no earlier one is, and there is no position exactly when no candidate is contained |
| Membership.ContainsAny | sso-core/src/main/java/com/xjbg/sso/core/util/CollectionUtil.java:169-179 | true exactly when some candidate is contained in the source, i.e. when findFirstMatch's search finds a position; false when either side is null or empty |
| Membership.FindFirstMatch | sso-core/src/main/java/com/xjbg/sso/core/util/CollectionUtil.java:192-202 | null when either side is null or empty; otherwise the earliest candidate, in the candidates' order, that the source contains, or null when none is |
| Membership.FirstMatchAgreesWithContainsAny | sso-core/src/main/java/com/xjbg/sso/core/util/CollectionUtil.java:169-202 | a non-null findFirstMatch result implies containsAny; containsAny holds with a null findFirstMatch result exactly when the first matching candidate is null and the source holds null |
| TypeSearch.ValueOfType | sso-core/src/main/java/com/xjbg/sso/core/util/CollectionUtil.java:213-228 | the found value is the clear match (a non-null matching element all other matches of which are earlier nulls) when there is one, else null |
| TypeSearch.TypedSearchFindsOnlyMatch | sso-core/src/main/java/com/xjbg/sso/core/util/CollectionUtil.java:213-228 | with a non-null type, a value is found exactly when one element is an instance, and it is that element; none or several give null |
| TypeSearch.FindValueOfType | sso-core/src/main/java/com/xjbg/sso/core/util/CollectionUtil.java:213-228 | returns the clear match or null: returns the only matching element when it is non-null, null when nothing matches, and null as soon as a second match follows a non-null one |
| TypeSearch.FirstValueOfTypes | sso-core/src/main/java/com/xjbg/sso/core/util/CollectionUtil.java:244-250 | the first non-null single-type result over the types in priority order, every earlier type finding nothing; null exactly when no type finds a value |
| TypeSearch.FirstValueOfTypesAt | sso-core/src/main/java/com/xjbg/sso/core/util/CollectionUtil.java:244-250 | when every type before position i finds nothing, the prioritised search returns what type i finds (nothing, past the end) |
| TypeSearch.FindValueOfTypes | sso-core/src/main/java/com/xjbg/sso/core/util/CollectionUtil.java:240-251 | null for a null or empty collection or type array; otherwise the first non-null findValueOfType result over the types in order, else null |
| TypeSearch.HasUniqueObject | sso-core/src/main/java/com/xjbg/sso/core/util/CollectionUtil.java:260-275 | false for a null or empty collection; otherwise true exactly when every element is the same reference as the first |
| TypeSearch.FindCommonElementType | sso-core/src/main/java/com/xjbg/sso/core/util/CollectionUtil.java:284-299 | a class is returned only if some element is non-null and every non-null element has that class; null means all elements are null (or none exist) or two non-null elements have different classes |
| TypeSearch.TypedSearchExamples | sso-core/src/main/java/com/xjbg/sso/core/util/CollectionUtil.java:213-228 | {"a", 1, "b"} searched for Integer finds 1; {"a", "b"} searched for String is ambiguous and finds null |
| TypeSearch.UntypedSearchSkipsLeadingNull | sso-core/src/main/java/com/xjbg/sso/core/util/CollectionUtil.java:217-226 | with a null type, [null, x] finds x while [x, null] finds null |
| Grouping.IndexLastWriteWins | sso-core/src/main/java/com/xjbg/sso/core/util/CollectionUtil.java:319-321 | the keys are the image of the key builder over the elements, and each key maps to the last element carrying it |
| Grouping.ToMap | sso-core/src/main/java/com/xjbg/sso/core/util/CollectionUtil.java:314-323 | empty for a null or empty collection or a null key builder; otherwise the key set is the image of the key builder and each key holds its last element (last write wins) |
| Grouping.GroupIsBuckets | sso-core/src/main/java/com/xjbg/sso/core/util/CollectionUtil.java:334-338 | the keys are the image of the key function and each key's list is the values of exactly the elements with that key, in their original order |
| Grouping.GroupTotalSize | sso-core/src/main/java/com/xjbg/sso/core/util/CollectionUtil.java:334-338 | the list lengths sum to the number of elements |
| Grouping.ToMapList | sso-core/src/main/java/com/xjbg/sso/core/util/CollectionUtil.java:329-340 | empty for a null or empty collection or a null function; otherwise the elements' values grouped by key, each group in order, lengths summing to the input length |
| Grouping.ToMapListByKey | sso-core/src/main/java/com/xjbg/sso/core/util/CollectionUtil.java:325-327 | grouping with the identity as value function: each key's list is the elements with that key, in order |
| Grouping.ParityGroupingExample | sso-core/src/main/java/com/xjbg/sso/core/util/CollectionUtil.java:329-340 | grouping [1, 2, 3, 4] by x % 2 gives {0: [2, 4], 1: [1, 3]} |
| Grouping.Capacity | sso-core/src/main/java/com/xjbg/sso/core/util/CollectionUtil.java:318 | the intended initial capacity is never smaller than the number of elements |
| Grouping.CapacityOverflow | sso-core/src/main/java/com/xjbg/sso/core/util/CollectionUtil.java:318 | in Java int arithmetic, size * 3 / 2 is the intended capacity at 715827882 elements and negative at 715827883 |
| Grouping.CapacityAsWrittenAgrees | sso-core/src/main/java/com/xjbg/sso/core/util/CollectionUtil.java:333 | up to 715827882 elements the int arithmetic agrees with the intended capacity |
| Selection.KeptIsSubsequence | sso-core/src/main/java/com/xjbg/sso/core/util/CollectionUtil.java:354-358 | the filtered list is the order-preserving subsequence of exactly the elements satisfying the predicate: its k-th element sits at the k-th ascending position where the predicate holds |
| Selection.Filter | sso-core/src/main/java/com/xjbg/sso/core/util/CollectionUtil.java:349-360 | empty for a null or empty collection or a null predicate; otherwise the kept subsequence, every element of which satisfies the predicate |
| Selection.SelectedAligned | sso-core/src/main/java/com/xjbg/sso/core/util/CollectionUtil.java:376-381 | allowing nulls, the result has the source's length and result[i] is func(source[i]) |
| Selection.SelectedNotNull | sso-core/src/main/java/com/xjbg/sso/core/util/CollectionUtil.java:376-381 | not allowing nulls, the result is the aligned result with its nulls removed, in order |
| Selection.SelectListWithNullPolicy | sso-core/src/main/java/com/xjbg/sso/core/util/CollectionUtil.java:371-383 | empty for a null or empty collection; with nulls allowed aligned with the source, otherwise the aligned list with nulls removed |
| Selection.SelectList | sso-core/src/main/java/com/xjbg/sso/core/util/CollectionUtil.java:363-365 | same length as the source, result[i] == func(source[i]) |
| Selection.SelectNotNullList | sso-core/src/main/java/com/xjbg/sso/core/util/CollectionUtil.java:367-369 | the selectList result with its nulls removed, in order; no null remains |
| Selection.SelectListWithIndex | sso-core/src/main/java/com/xjbg/sso/core/util/CollectionUtil.java:385-395 | same length as the source, result[i] == func(source[i], i) with positions counted from 0 |
| Selection.SelectExample | sso-core/src/main/java/com/xjbg/sso/core/util/CollectionUtil.java:371-383 | on [1, 2, 3] with x > 1 ? x : null, selectList gives [null, 2, 3] and selectNotNullList gives [2, 3] |

## Left out

- arrayToList (CollectionUtil.java:71-73): it delegates to Spring's `ObjectUtils.toObjectArray`, which boxes primitive arrays by reflection; that code is not part of this model.
- toArray(Enumeration, A[]) (CollectionUtil.java:306-312): its substance is the reflective typed-array allocation of `ArrayList.toArray(A[])`, which has no counterpart here.
- forEach (CollectionUtil.java:342-347): it only hands each element to an arbitrary `Consumer` for its side effects, which cannot be stated.
- Iterators and enumerations are their remaining elements as a sequence; their one-shot cursor state is not modelled.
- Merge.MergePropertiesIntoMap: `Properties` is the flattened map of its names to values; the default-properties chain and the `getProperty` / `get` fallback for non-String values are not modelled, nor are the unchecked key and value casts.
- Membership.ContainsIterator: Spring's `nullSafeEquals` also compares two arrays by content; that case is folded into the caller's `equals`.
- Membership.ContainsAny: `source.contains` is modelled by the `java.util.Collection` contract (null finds null, otherwise `equals`); hashing and comparator-based collections are not modelled.
- Grouping.ToMap: map keys are compared with Dafny equality, standing for `hashCode`/`equals`; the HashMap capacity only appears in the finding below.
- Selection.SelectList: a null `func` (a NullPointerException for a non-empty source) is not modelled, because a Dafny function value is never null; the same holds for SelectNotNullList, SelectListWithNullPolicy and SelectListWithIndex.
- Selection.SelectListWithIndex: the `AtomicInteger` index is an unbounded integer; its wrap-around past 2^31 - 1 elements is not modelled.
- Results are values: the immutability of `Collections.emptyList()` / `emptyMap()` and the freshness of the returned containers are not modelled.
- Thread-safety: the class adds no synchronisation and none is modelled.

## Findings

| source | as written | input that shows it | evidently intended | confidence | as-written member | corrected member |
|---|---|---|---|---|---|---|
| sso-core/src/main/java/com/xjbg/sso/core/util/CollectionUtil.java:318 | `new HashMap<>(elements.size() * 3 / 2)` computes the capacity in 32-bit int arithmetic; the product overflows to a negative capacity, and `HashMap(int)` then throws IllegalArgumentException (toMapList does the same at line 333) | a collection of 715827883 elements | toMap and toMapList return their map whatever the collection's size | not executed; medium (needs a collection that large) | Grouping.CapacityOverflow | Grouping.Capacity |
