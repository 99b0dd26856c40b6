/** Nullable Java references and null-tolerant containers.
    `None` stands for Java `null`; a possibly-null container is normalised to an
    empty one at the entry of every operation, as CollectionUtil does. */
module Wrappers {

  datatype Option<+T> = None | Some(value: T)

  /** A call that either completes or raises one of the library's errors. */
  datatype Outcome<+E> = Pass | Fail(error: E)

  /** The elements of a possibly-null collection, in iteration order. */
  function Elements<T>(c: Option<seq<T>>): seq<T>
  {
    match c
    case None => []
    case Some(s) => s
  }

  /** The entries of a possibly-null map. */
  function Entries<K, V>(m: Option<map<K, V>>): map<K, V>
  {
    match m
    case None => map[]
    case Some(e) => e
  }
}
