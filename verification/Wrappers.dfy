/** Result shapes shared by all components. */
module Wrappers {

  datatype Option<+T> = None | Some(value: T)

  /** A Go `(value, error)` pair. */
  datatype Result<+T> = Ok(value: T) | Err

  /** How a Go call can end: normally, with an error, or by stopping the process
      (`log.Fatal`, a runtime panic). */
  datatype Outcome<+T> = Return(value: T) | Fail | Halt

  function Find<K(==), V>(m: map<K, V>, k: K): Option<V> {
    if k in m then Some(m[k]) else None
  }

  predicate Distinct<T(==)>(s: seq<T>) {
    forall i, j :: 0 <= i < j < |s| ==> s[i] != s[j]
  }

  /** `order` lists every element of `s` exactly once. */
  ghost predicate Enumerates<T(!new)>(order: seq<T>, s: set<T>) {
    Distinct(order) && forall x :: x in order <==> x in s
  }
}
