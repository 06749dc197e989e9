/** The declared alternatives of one `variant<Types...>` instantiation and the
    index lookup the class performs on them at compile time. */
module Alternatives {

  /** One declared alternative: the tag that identifies its type once
      qualifiers are stripped, and whether it was declared through
      `recursive_helper` (stored behind an owning indirection). */
  datatype Alt<T> = Alt(tag: T, recursive: bool)

  /** No two declared alternatives share a tag: the class refuses to compile
      otherwise. */
  predicate Distinct<T(==)>(decls: seq<Alt<T>>)
  {
    forall i, j :: 0 <= i < j < |decls| ==> decls[i].tag != decls[j].tag
  }

  /** `t` names one of the declared alternatives; using any other type as a
      query is a compile-time error. */
  predicate Declares<T(==)>(decls: seq<Alt<T>>, t: T)
  {
    exists i :: 0 <= i < |decls| && decls[i].tag == t
  }

  /** The sentinel value of `current`: the number of alternatives, which is
      one past the last valid index. */
  function Invalid<T>(decls: seq<Alt<T>>): int
  {
    |decls|
  }

  /** The index a declared tag resolves to: its position in the list. */
  function IndexOf<T(==)>(decls: seq<Alt<T>>, t: T): (i: nat)
    requires Declares(decls, t)
    ensures i < |decls| && decls[i].tag == t
    ensures forall j :: 0 <= j < i ==> decls[j].tag != t
    ensures Distinct(decls) ==> forall j :: 0 <= j < |decls| && decls[j].tag == t ==> j == i
  {
    if decls[0].tag == t then 0
    else
      assert Declares(decls[1..], t) by {
        var k :| 0 <= k < |decls| && decls[k].tag == t;
        assert decls[1..][k - 1] == decls[k];
      }
      1 + IndexOf(decls[1..], t)
  }

  /** `data.is_recursive(n)`: alternative `n` was declared recursive. */
  predicate IsRecursive<T>(decls: seq<Alt<T>>, n: int)
  {
    0 <= n < |decls| && decls[n].recursive
  }
}
