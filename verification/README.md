# toy-variant: the run-time state machine of `variant<Types...>`

This project models the run-time behaviour of `variant<Types...>`. That is a
closed tagged union: it stores at most one of a fixed list of alternative
types and tracks which one in an integer `current`. The sentinel
`sizeof...(Types)` means "nothing active".

The model has six modules:

- `Wrappers` (wrappers.dfy) holds the `Option` and `Result` types. A null
  pointer is `None`, and a thrown exception is a `Failure`.
- `Alternatives` (alternatives.dfy) holds the declared alternative list.
  It is a duplicate-free sequence of tags, each marked recursive or not,
  with the index lookup that `pack_find` performs at compile time.
- `Variants` (variant.dfy) is the state machine. The state is
  `Empty | Active(index, payload)`, with pure functions for default and
  converting construction, `destroy_current`, `emplace`, copy and move
  construction, both assignment operators, `contains`, the four `get`
  overloads and `apply_visitor`. The two exceptions `empty_variant_error`
  and `invalid_get_error` are the `Error` datatype carried in a `Result`.
  Null pointers are `Option.None`. A payload constructor that throws is a
  `Failure` passed to `Emplace`.
- `Layout` (layout.dfy) models the class's two data members, the storage
  `data` and the integer `current`. It follows the code statement by
  statement for the members that write them and proves that each one
  implements the matching `Variants` transition under the class invariant
  `Coherent`.
- `RecursiveList` (recursive_list.dfy) is the recursive instantiation
  `variant<nil, recursive_helper<cell>>`. Here a cell holds its tail as a
  plain recursive datatype value. This module covers the demonstration's
  list walk and its two visitors. It also shows why `val = ptr->tail` needs
  operator='s detour through a temporary.
- `Session` (session.dfy) walks through the demonstration's statements on
  `variant<int, B, broken>`.

Payloads are values of a type parameter. Copies are therefore independent
by construction, and "the source is unchanged" holds for every copy.

## Model

| member | source | states |
|---|---|---|
| `Alternatives.IndexOf` | variant.hpp:101-115 | a declared tag resolves to an index below the alternative count whose tag it is. In a duplicate-free list it is the only such index, so it is never the sentinel |
| `Variants.Current` | variant.hpp:119-120 | `current` lies in `[0, N]` and equals the sentinel `N` exactly when the variant is Empty |
| `Variants.Default` | variant.hpp:224 | a default-constructed variant has `current` at the sentinel, and `contains` is false for every declared alternative |
| `Variants.Contains` | variant.hpp:164-167 | `contains<T>()` holds iff the variant is Active and its active alternative's tag is `T` (both directions). The sentinel never matches |
| `Variants.Convert` | variant.hpp:230-237 | converting construction from a `T` value leaves `contains<T>` true and `contains<U>` false for every other declared `U`, and `get<T>` returns the value |
| `Variants.DestroyCurrent` | variant.hpp:175-182 | afterwards the variant is Empty. A destructor ran iff something was active, and it ran on exactly the old payload |
| `Variants.Emplace` | variant.hpp:186-194 | the old occupant (if any) is destroyed. On success only `T` is contained, holding the built value. If the constructor throws, the exception propagates and the variant is left Empty |
| `Variants.ConvertAssign` | variant.hpp:267-271 | `v = x` leaves only `x`'s alternative contained, holding `x` |
| `Variants.CopyInto` | variant.hpp:196-201 | copying into an empty object yields Empty from Empty, and otherwise the source's index with an equal payload |
| `Variants.MoveInto` | variant.hpp:203-209 | moving into an empty object gives it the source's index and payload, and the source ends Empty |
| `Variants.CopyConstruct` | variant.hpp:226 | the copy equals the source: Empty from Empty, `Active(i, x)` from `Active(i, x)` |
| `Variants.MoveConstruct` | variant.hpp:228 | the new object equals the old source, and the source ends Empty |
| `Variants.CurrentlyRecursive` | variant.hpp:184 | on a well-formed state, `currently_recursive()` holds iff `current` is not the sentinel and the alternative it designates is recursive. It never holds on an ill-formed state |
| `Variants.CopyAssign` | variant.hpp:239-251 | self-assignment leaves the variant unchanged. Otherwise the destination ends equal to the operand on both the temporary path and the direct path |
| `Variants.MoveAssign` | variant.hpp:253-265 | self-assignment leaves the variant unchanged. Otherwise, on both paths, the destination takes the operand's index and payload and the operand ends Empty |
| `Variants.Get` | variant.hpp:301-317 | the reference form succeeds iff the requested tag is the active one, and then returns the payload. Otherwise it raises `invalid_get_error`, always so on Empty |
| `Variants.GetPtr` | variant.hpp:319-335 | the pointer form is non-null iff the requested tag is active, and then points at the payload. It never raises |
| `Variants.UpdateRef` | variant.hpp:310-317 | writing through `get<T>(v)` succeeds iff `T` is active; it keeps the index and the payload becomes the new value. Otherwise `invalid_get_error` is raised |
| `Variants.UpdatePtr` | variant.hpp:328-335 | writing through `get<T>(&v)` changes the variant only when `T` is active, and then only its payload |
| `Variants.Visit` | variant.hpp:287-299 | the member `apply_visitor` raises `empty_variant_error` iff the variant is Empty. Otherwise it returns the active alternative's arm applied to the payload |
| `Variants.ApplyVisitor` | variant.hpp:342-345 | the free `apply_visitor` raises `empty_variant_error` on Empty and otherwise returns the active arm's result |
| `Variants.AccessFormsAgree` | variant.hpp:301-335 | on every state, the pointer form is the reference form with the exception replaced by null. The reference form succeeds exactly when `contains` holds. On Empty both fail |
| `Layout.View` | variant.hpp:117-120 | a coherent object shows a well-formed state whose `current` is the member `current`. An active state's payload is the live object in storage |
| `Layout.EmbedView` | variant.hpp:117-120 | a coherent object is determined by the state it shows |
| `Layout.Fresh` | variant.hpp:224 | a default-constructed object is coherent and shows Empty |
| `Layout.DestroyCurrent` | variant.hpp:175-182 | afterwards `current` is the sentinel. Storage is emptied when something was active and left untouched when nothing was |
| `Layout.DestroyCurrentRefines` | variant.hpp:175-182 | on a coherent object, `destroy_current` keeps the invariant, implements `Variants.DestroyCurrent`, and leaves nothing alive |
| `Layout.Remains` | variant.hpp:273 | `~variant()` leaves nothing alive in a coherent object. When `current` is the sentinel, whatever the storage holds stays there |
| `Layout.EmplaceImpl` | variant.hpp:186-194 | `current` is set only after the payload is built. A throwing constructor leaves `current` at the sentinel |
| `Layout.EmplaceImplRefines` | variant.hpp:186-194 | `emplace_impl` keeps the class invariant and implements `Variants.Emplace`, including the Empty result of a throwing constructor |
| `Layout.CopyFrom` | variant.hpp:196-201 | copying from an Empty object changes nothing. Otherwise the destination's members equal the source's |
| `Layout.CopyFromRefines` | variant.hpp:196-201 | `copy(v)` keeps the class invariant and implements `Variants.CopyInto` |
| `Layout.MoveFromAsWrittenStrandsSource` | variant.hpp:203-209 | the as-written `move` leaves a source that held something incoherent: the moved-from object is still alive after the source's destructor |
| `Layout.MoveFrom` | variant.hpp:203-209 | the corrected `move` gives the destination the source's members and leaves the source as fresh as a default-constructed object |
| `Layout.MoveFromRefines` | variant.hpp:203-209 | the corrected `move` keeps the invariant on both objects and implements `Variants.MoveInto`. Nothing is left alive in the source |
| `RecursiveList.GetCell` | variant.hpp:328-335 | `get<cell>(&v)` on a `var_list` is non-null iff the recursive alternative (index 1) is active, and then yields its cell |
| `RecursiveList.GetNil` | variant.hpp:328-335 | `get<nil>(&v)` is non-null iff alternative 0 is active |
| `RecursiveList.NilList` | variant_test.cpp:108 | `nil{}` converts to a well-typed, proper, empty list holding `nil` |
| `RecursiveList.Cons` | variant_test.cpp:107 | `cons(h, t)` holds the cell `{h, t}` in the recursive alternative. Its elements are `h` followed by `t`'s. It is well typed and proper iff `t` is |
| `RecursiveList.FromSeq` | variant_test.cpp:107-108 | `cons` chains onto `nil` build a well-typed proper list whose elements are exactly the given sequence |
| `RecursiveList.AssignFromWithin` | variant.hpp:239-251 | `val = *q`, with `q` pointing any depth inside `val` (the demonstration's `val = ptr->tail`), yields exactly the operand. The recursive branch copies the operand before destroying anything |
| `RecursiveList.DirectPathReadsReleased` | variant.hpp:245-248 | the direct path `destroy_current(); copy(v)` applied to an operand inside the destination always reads released storage |
| `RecursiveList.SelfAssignTakesTemporary` | variant.hpp:241-244 | a self-assignment from one or more tails down always finds the destination holding a cell, so operator= takes the temporary path |
| `RecursiveList.AssignIntoWithinAsWritten` | variant.hpp:239-251 | `*q = val` with `q` pointing `depth` tails down inside `val`, choosing the path by the destination alone as the code does: self-assignment changes nothing, and when the destination holds a cell the temporary path puts the old `val` there |
| `RecursiveList.AssignIntoWithin` | variant.hpp:239-251 | with the temporary also taken for a recursive operand, `*q = val` leaves the old `val` at `q`. The cells above are untouched, so the list is its first `depth` heads followed by the whole old list, and it is well typed, and proper iff `val` was |
| `RecursiveList.AssignIntoNilTailBreaksList` | variant.hpp:241-248 | as written, assigning a list into one of its own `nil` tails takes the direct path. The result ends in an Empty variant, so the summing visitor raises `empty_variant_error`. The corrected assignment leaves a proper list, and the two differ |
| `RecursiveList.TailAssignDemo` | variant.hpp:241-248 | on `val = cons(1, nil{})`, assigning `val` to its own tail gives `cons(1, cons(1, <Empty>))` as written, whose sum raises. The corrected assignment gives `cons(1, cons(1, nil{}))` with sum 2 |
| `RecursiveList.UnwrapSum` | variant_test.cpp:110-115 | the `get<cell>`/`val = ptr->tail` loop totals the heads of the cells it passes. It stops at the first variant not holding a cell |
| `RecursiveList.UnwrapDemo` | variant_test.cpp:108-115 | walking `cons(5, cons(6, cons(7, nil{})))` totals 18 |
| `RecursiveList.ListSum` | variant_test.cpp:119-124 | the summing visitor succeeds iff the list ends in `nil`, and then returns the sum of its elements. Otherwise it raises `empty_variant_error` |
| `RecursiveList.Count` | variant_test.cpp:126-141 | the stateful visitor counts one visit per cell plus one for `nil` and sums the heads. On a list ending in an Empty variant, the cells before it are still counted and `empty_variant_error` is raised |
| `RecursiveList.ListSumIsVisit` | variant.hpp:287-299 | on every well-typed list, the summing visitor equals `apply_visitor` dispatching by alternative index to the `nil` and `cell` arms of `list_sum_visitor`, with an arm's error propagating out of the visit |
| `RecursiveList.CountIsVisit` | variant.hpp:287-299 | on every well-typed list, the counting visitor equals `apply_visitor` dispatching to the arms of `stateful_sum_visitor`. When the visit itself raises, the counters stay as they were |
| `RecursiveList.VisitorDemo` | variant_test.cpp:117-141 | on `cons(1, cons(4, nil{}))` the summing visitor gives 5, and the stateful visitor counts 3 visits with sum 5 |
| `Session.Demo` | variant_test.cpp:50-81 | in the demonstration session: `get<B>` on an `int` raises `invalid_get_error`, and a throwing `emplace<broken>` leaves the variant Empty. Copy and move assignment transfer the `B`, moving empties the source, and `get<int>(&v3)` yields 1 |
| `Session.MovedFromBNeverDestroyed` | variant_test.cpp:74 | `v2 = std::move(v)` with `v` holding a `B` leaves the moved-from `B` alive after `v`'s destructor. The corrected `move` leaves nothing |

## Left out

- Compile-time type normalisation is left out: the query, store, unique and
  member forms, `pack_find`, `pack_contains` and `has_duplicates`. Their
  definitions are not part of this model. The model assumes a
  duplicate-free tag list (`Distinct`) with an index lookup (`IndexOf`).
  Every operation that names a type requires the tag to be declared,
  because any other use does not compile.
- Const-qualified and reference alternatives (`variant<int&, B>`,
  `variant<int const, B const>`) are left out. Their aliasing is C++
  lvalue behaviour, not part of the state machine. With them gone, the
  query form and the unique form coincide, so `emplace`, `get` and
  converting construction resolve a type the same way.
- Raw storage, placement new, `void*` access and the operation tables
  (`get_destructor`, `get_copy_constructor`, `get_move_constructor`,
  `data.apply`) are not modelled. `Layout` represents storage only as what
  it holds.
- The heap box inside `recursive_helper` is not modelled: a cell is a
  plain recursive value. Deep copying and pointer adoption are therefore
  not represented, and independence of copies holds by construction.
- Payload copy and move constructors are taken never to throw. Only the
  constructor run by `emplace` can fail.
- The const and non-const overloads of `apply_visitor` are one function.
  So are the const and mutable reference forms of `get` when reading.
  Writing through the mutable forms is `UpdateRef` and `UpdatePtr`.
- Visitor arms are one function of the alternative index and payload. The
  visitor's own state is threaded explicitly (as in `RecursiveList.Count`).
  C++ overload resolution between call forms is not modelled.
- `Variants.Emplace`, `Variants.ConvertAssign` and `Layout.EmplaceImpl`
  take the constructor's argument as a value fixed before the call,
  independent of the destination. In the code, `destroy_current()` runs
  (variant.hpp:190) before `construct` reads its arguments
  (variant.hpp:192). An argument that refers into the destination, such as
  `v.emplace<B>(get<B>(v))` or `val = *get<cell>(&val)` through the
  converting `operator=` (variant.hpp:267-271), reads a destroyed payload.
  These members do not model that case.
- `Variants.Contains` states the intended behaviour of `contains<T>()`:
  `contains_impl`'s index comparison (variant.hpp:164-167). As written,
  `contains() const` (variant.hpp:281-285) calls the non-const
  `contains_impl`, so it does not compile once instantiated. The
  demonstration never instantiates it.
- `Variants.Get` and `Variants.GetPtr` model all four `get` overloads by
  their intended behaviour. As written, the const overloads
  (variant.hpp:301-307 and 319-325) call the non-const `contains_impl`
  through a const object, so they do not compile once instantiated. The
  demonstration only uses the non-const overloads.
- `Variants.Visit` and `Variants.ApplyVisitor` return only the arm's
  result. The non-const `apply_visitor` (variant.hpp:294-299) hands the
  arm a mutable reference to the payload. Writes made through it are not
  modelled: the variant is unchanged by a visit.
- `RecursiveList.ListSum`, `RecursiveList.Count` and
  `RecursiveList.UnwrapSum` use unbounded integers. In the demonstration,
  `head`, `total`, `sum` and `visits` are C++ `int`
  (variant_test.cpp:103, 110, 127-128), where signed overflow is
  undefined. The model does not bound the sums or counts.
- `Variants.CopyAssign` takes its operand as a value separate from the
  destination, so its result is always the operand. When the destination
  sits inside the operand and holds `nil` (`ptr->tail = val`), the code
  takes the direct path (variant.hpp:245-248). The list then ends in an
  Empty variant instead: see "## Findings" and
  `RecursiveList.AssignIntoWithinAsWritten`.
- `Variants.MoveAssign` likewise takes its operand as separate from the
  destination. Moving a list into one of its own tails would make the
  list contain itself, which a value cannot express.
- `RecursiveList.AssignFromWithin` restates operator='s copy path for an
  operand inside the destination. The general `Variants.CopyAssign` takes
  its operand as a separate value and cannot express that aliasing.
- The instrumented `tracked::B` logging, `sizeof` printing, the
  `LOG`/`PRINT` macros and the reference and const parts of the
  demonstration (variant_test.cpp:83-97) are left out. So is the Boost.MPL
  dependency.
- Memory release of recursive chains at scope exit is not modelled, since
  there is no heap in the model.

## Findings

| source | as written | input that shows it | evidently intended | confidence | as-written member | corrected member |
|---|---|---|---|---|---|---|
| variant.hpp:239-251 | copy `operator=` takes the temporary only when the destination is `currently_recursive()`. A destination holding `nil` inside the operand takes `destroy_current(); copy(v);`, so `copy` reads an operand whose chain now ends in the destroyed, Empty destination | `val = cons(1, nil{}); get<cell>(&val)->tail = val;`: `val` becomes `cons(1, cons(1, <Empty>))`, and `apply_visitor(list_sum_visitor{}, val)` raises `empty_variant_error` | assignment has value semantics: the destination ends equal to the operand as it was, here `cons(1, cons(1, nil{}))` with sum 2. The temporary is taken when either side holds a recursive alternative | low; not executed | `RecursiveList.AssignIntoWithinAsWritten` (exhibited by `RecursiveList.AssignIntoNilTailBreaksList` and `RecursiveList.TailAssignDemo`) | `RecursiveList.AssignIntoWithin` (the destination ends equal to the old operand; `Variants.CopyAssign` states the same for separate operands) |
| variant.hpp:203-209 | `move(variant&&)` move-constructs the payload, then sets `v.current = invalid` without destroying the moved-from payload. `~variant` on `v` then returns at once and that object's destructor never runs | `v2 = std::move(v)` at variant_test.cpp:74, with `v` holding a `tracked::B`: the moved-from `B` never reaches its destructor, so there is no `~B` line for it | the moved-from payload is destroyed before the source is marked Empty (`v.destroy_current()`), so no object is alive while `current` is the sentinel | medium; not executed | `Layout.MoveFromAsWritten` (exhibited by `Layout.MoveFromAsWrittenStrandsSource` and `Session.MovedFromBNeverDestroyed`) | `Layout.MoveFrom` (proved by `Layout.MoveFromRefines`; `Variants.MoveInto` is its view) |

The move defect reaches every path that calls `move`: move construction,
the direct path of move assignment, and the temporary used by both
assignment operators when the destination holds a recursive alternative.
The `Variants` state machine models all of them with the corrected
behaviour.
