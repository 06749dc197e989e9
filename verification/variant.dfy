/** The run-time state machine of `variant<Types...>`: what construction,
    `emplace`, copy, move, assignment, destruction, typed access and visitor
    dispatch do to the one piece of state that matters, the active
    alternative and its payload.

    Payloads are values of a type parameter `P`; which payload values belong
    to which alternative is left to the instantiation (see RecursiveList). */
module Variants {
  import opened Wrappers
  import opened Alternatives

  /** The observable state of a variant object. `Empty` is the state in
      which `current` holds the sentinel; `Active(index, payload)` has exactly
      one live payload, of alternative `index`. */
  datatype Variant<+P> = Empty | Active(index: nat, payload: P)

  /** The two exceptions the class raises at run time:
      `empty_variant_error` and `invalid_get_error`. */
  datatype Error = EmptyVariantError | InvalidGetError

  /** The right-hand operand of an assignment: the destination object itself
      (`v = v`) or some other object. */
  datatype Rhs<+P> = Itself | Other(value: Variant<P>)

  /** The two objects involved in a move: where the payload went and what is
      left of the object it came from. */
  datatype Pair<+P> = Pair(target: Variant<P>, source: Variant<P>)

  /** The state after `destroy_current`, with the payload whose destructor
      ran (if any). */
  datatype Teardown<+P> = Teardown(after: Variant<P>, destroyed: Option<P>)

  /** The outcome of `emplace`: the new state, the payload that was torn down
      on the way (if any), and the exception the new payload's constructor
      raised (if any). */
  datatype Emplaced<+P, +E> = Emplaced(state: Variant<P>, destroyed: Option<P>, raised: Option<E>)

  /** The active index designates a declared alternative. */
  predicate Wf<T, P>(decls: seq<Alt<T>>, v: Variant<P>)
  {
    v.Active? ==> v.index < |decls|
  }

  /** The integer member `current`: the active index, or the sentinel
      `sizeof...(Types)` when nothing is active. */
  function Current<T, P>(decls: seq<Alt<T>>, v: Variant<P>): (c: int)
    requires Wf(decls, v)
    ensures 0 <= c <= Invalid(decls)
    ensures c == Invalid(decls) <==> v.Empty?
  {
    match v
    case Empty => |decls|
    case Active(i, _) => i
  }

  /** `contains<T>()`: the index `T` resolves to equals `current`. */
  function Contains<T(==), P>(decls: seq<Alt<T>>, v: Variant<P>, t: T): (b: bool)
    requires Distinct(decls) && Declares(decls, t) && Wf(decls, v)
    ensures b <==> v.Active? && decls[v.index].tag == t
  {
    IndexOf(decls, t) == Current(decls, v)
  }

  /** `v` holds alternative `t` with payload `x`, and no other declared
      alternative is reported as contained. */
  predicate HoldsOnly<T(==), P(==)>(decls: seq<Alt<T>>, v: Variant<P>, t: T, x: P)
    requires Distinct(decls) && Declares(decls, t)
  {
    && Wf(decls, v)
    && Contains(decls, v, t)
    && Get(decls, v, t) == Success(x)
    && forall j :: 0 <= j < |decls| && decls[j].tag != t ==> !Contains(decls, v, decls[j].tag)
  }

  /** `variant() = default`: `current` starts at the sentinel, so no
      alternative is contained. */
  function Default<T(==), P>(decls: seq<Alt<T>>): (v: Variant<P>)
    ensures Wf(decls, v) && Current(decls, v) == Invalid(decls)
    ensures Distinct(decls) ==> forall j :: 0 <= j < |decls| ==> !Contains(decls, v, decls[j].tag)
  {
    Empty
  }

  /** Converting construction `variant(x)`: the type of `x` resolves to one
      alternative, whose payload is constructed from `x`; `current` is then
      set to that alternative's index. */
  function Convert<T(==), P(==)>(decls: seq<Alt<T>>, t: T, x: P): (v: Variant<P>)
    requires Distinct(decls) && Declares(decls, t)
    ensures HoldsOnly(decls, v, t, x)
  {
    Active(IndexOf(decls, t), x)
  }

  /** `destroy_current`: nothing to do when Empty; otherwise the active
      payload's destructor runs and `current` returns to the sentinel. */
  function DestroyCurrent<P>(v: Variant<P>): (r: Teardown<P>)
    ensures r.after.Empty?
    ensures r.destroyed.Some? <==> v.Active?
    ensures r.destroyed.Some? ==> r.destroyed.value == v.payload
  {
    match v
    case Empty => Teardown(Empty, None)
    case Active(_, x) => Teardown(Empty, Some(x))
  }

  /** `emplace<T>(args...)`: the old occupant is destroyed first and the
      variant is Empty while the new payload is built. `built` is the outcome
      of `T`'s constructor on `args`: if it raised, the exception propagates
      and the variant stays Empty; otherwise `current` becomes `T`'s index. */
  function Emplace<T(==), P(==), E>(decls: seq<Alt<T>>, v: Variant<P>, t: T, built: Result<P, E>): (r: Emplaced<P, E>)
    requires Distinct(decls) && Declares(decls, t)
    ensures Wf(decls, r.state)
    ensures r.destroyed.Some? <==> v.Active?
    ensures r.destroyed.Some? ==> r.destroyed.value == v.payload
    ensures built.Success? ==> r.raised.None? && HoldsOnly(decls, r.state, t, built.value)
    ensures built.Failure? ==> r.state.Empty? && r.raised == Some(built.error)
  {
    var cleared := DestroyCurrent(v);
    match built
    case Success(x) => Emplaced(Active(IndexOf(decls, t), x), cleared.destroyed, None)
    case Failure(e) => Emplaced(cleared.after, cleared.destroyed, Some(e))
  }

  /** Assignment from a value, `v = x`: `emplace` with a constructor that
      cannot fail. */
  function ConvertAssign<T(==), P(==)>(decls: seq<Alt<T>>, v: Variant<P>, t: T, x: P): (r: Variant<P>)
    requires Distinct(decls) && Declares(decls, t)
    ensures HoldsOnly(decls, r, t, x)
  {
    Emplace<T, P, ()>(decls, v, t, Success(x)).state
  }

  /** The private `copy(v)`, always called on an object that holds nothing:
      copy-constructs `src`'s payload, if any, and takes over its index. */
  function CopyInto<P>(dest: Variant<P>, src: Variant<P>): (r: Variant<P>)
    requires dest.Empty?
    ensures r.Empty? <==> src.Empty?
    ensures r.Active? ==> r.index == src.index && r.payload == src.payload
  {
    if src.Empty? then dest else Active(src.index, src.payload)
  }

  /** The private `move(v)`, always called on an object that holds nothing:
      move-constructs `src`'s payload, takes over its index and leaves `src`
      Empty. */
  function MoveInto<P>(dest: Variant<P>, src: Variant<P>): (r: Pair<P>)
    requires dest.Empty?
    ensures r.source.Empty?
    ensures r.target.Empty? <==> src.Empty?
    ensures r.target.Active? ==> r.target.index == src.index && r.target.payload == src.payload
  {
    if src.Empty? then Pair(dest, src) else Pair(Active(src.index, src.payload), Empty)
  }

  /** The copy constructor: Empty from Empty; from `Active(i, x)`, an
      independent `Active(i, x)`. The source is a value and cannot change. */
  function CopyConstruct<P>(src: Variant<P>): (r: Variant<P>)
    ensures r == src
  {
    CopyInto(Empty, src)
  }

  /** The move constructor: the new object takes the source's index and
      payload, and the source is left Empty. */
  function MoveConstruct<P>(src: Variant<P>): (r: Pair<P>)
    ensures r.target == src && r.source.Empty?
  {
    MoveInto(Empty, src)
  }

  /** `currently_recursive()`: something is active and it was declared
      through `recursive_helper`. On a well-formed state this is the
      source's test: `current` is not the sentinel and the alternative it
      designates is recursive. */
  function CurrentlyRecursive<T, P>(decls: seq<Alt<T>>, v: Variant<P>): (b: bool)
    ensures b ==> Wf(decls, v)
    ensures Wf(decls, v) ==>
      (b <==> Current(decls, v) != Invalid(decls) && decls[Current(decls, v)].recursive)
  {
    v.Active? && IsRecursive(decls, v.index)
  }

  /** Copy assignment. Self-assignment does nothing. When the destination
      currently holds a recursive alternative the operand is first copied
      into a temporary, the destination's occupant destroyed, and the
      temporary moved in; otherwise the occupant is destroyed and the operand
      copied in directly. Either way the destination ends equal to the
      operand. */
  function CopyAssign<T, P>(decls: seq<Alt<T>>, dest: Variant<P>, rhs: Rhs<P>): (r: Variant<P>)
    ensures rhs.Itself? ==> r == dest
    ensures rhs.Other? ==> r == rhs.value
  {
    match rhs
    case Itself => dest
    case Other(src) =>
      if CurrentlyRecursive(decls, dest) then
        var temp := CopyConstruct(src);
        var cleared := DestroyCurrent(dest).after;
        MoveInto(cleared, temp).target
      else
        CopyInto(DestroyCurrent(dest).after, src)
  }

  /** Move assignment. Self-assignment leaves the object as it was. Otherwise,
      on the recursive path the operand is moved into a temporary before the
      destination's occupant is destroyed, on the direct path it is moved
      straight in; either way the destination ends with the operand's index
      and payload and the operand ends Empty. */
  function MoveAssign<T, P>(decls: seq<Alt<T>>, dest: Variant<P>, rhs: Rhs<P>): (r: Pair<P>)
    ensures rhs.Itself? ==> r.target == dest && r.source == dest
    ensures rhs.Other? ==> r.target == rhs.value && r.source.Empty?
  {
    match rhs
    case Itself => Pair(dest, dest)
    case Other(src) =>
      if CurrentlyRecursive(decls, dest) then
        var temp := MoveConstruct(src);
        var cleared := DestroyCurrent(dest).after;
        Pair(MoveInto(cleared, temp.target).target, temp.source)
      else
        MoveInto(DestroyCurrent(dest).after, src)
  }

  /** The reference-returning `get<T>(v)`, const and mutable alike for
      reading: the payload when `T` is the active alternative, otherwise
      `invalid_get_error`. An Empty variant never matches. */
  function Get<T(==), P>(decls: seq<Alt<T>>, v: Variant<P>, t: T): (r: Result<P, Error>)
    requires Distinct(decls) && Declares(decls, t) && Wf(decls, v)
    ensures r.Success? <==> v.Active? && decls[v.index].tag == t
    ensures r.Success? ==> r.value == v.payload
    ensures r.Failure? ==> r.error == InvalidGetError
  {
    if Contains(decls, v, t) then Success(v.payload) else Failure(InvalidGetError)
  }

  /** The pointer-returning `get<T>(&v)`: the payload when `T` is the
      active alternative, otherwise null. It never raises. */
  function GetPtr<T(==), P>(decls: seq<Alt<T>>, v: Variant<P>, t: T): (r: Option<P>)
    requires Distinct(decls) && Declares(decls, t) && Wf(decls, v)
    ensures r.Some? <==> v.Active? && decls[v.index].tag == t
    ensures r.Some? ==> r.value == v.payload
  {
    if Contains(decls, v, t) then Some(v.payload) else None
  }

  /** Writing through the mutable reference form, `get<T>(v) = x`: when `T`
      is active its payload becomes `x` and the alternative is kept;
      otherwise `get` raises `invalid_get_error` before anything is
      written. */
  function UpdateRef<T(==), P(==)>(decls: seq<Alt<T>>, v: Variant<P>, t: T, x: P): (r: Result<Variant<P>, Error>)
    requires Distinct(decls) && Declares(decls, t) && Wf(decls, v)
    ensures r.Success? <==> v.Active? && decls[v.index].tag == t
    ensures r.Success? ==> r.value.Active? && r.value.index == v.index && HoldsOnly(decls, r.value, t, x)
    ensures r.Failure? ==> r.error == InvalidGetError
  {
    match Get(decls, v, t)
    case Success(_) => Success(Active(v.index, x))
    case Failure(e) => Failure(e)
  }

  /** Writing through the mutable pointer form,
      `if (auto p = get<T>(&v)) *p = x;`: the variant changes only when `T`
      is active, and then only in its payload. */
  function UpdatePtr<T(==), P(==)>(decls: seq<Alt<T>>, v: Variant<P>, t: T, x: P): (r: Variant<P>)
    requires Distinct(decls) && Declares(decls, t) && Wf(decls, v)
    ensures Wf(decls, r)
    ensures v.Active? && decls[v.index].tag == t ==> HoldsOnly(decls, r, t, x)
    ensures !(v.Active? && decls[v.index].tag == t) ==> r == v
  {
    match GetPtr(decls, v, t)
    case Some(_) => Active(v.index, x)
    case None => v
  }

  /** The member `v.apply_visitor(vis)`. `arms(i, p)` is the visitor's call
      form for alternative `i` applied to payload `p`. An Empty variant
      raises `empty_variant_error` without calling any arm. */
  function Visit<P, R>(v: Variant<P>, arms: (nat, P) -> R): (r: Result<R, Error>)
    ensures r.Failure? <==> v.Empty?
    ensures r.Failure? ==> r.error == EmptyVariantError
    ensures r.Success? ==> r.value == arms(v.index, v.payload)
  {
    if v.Empty? then Failure(EmptyVariantError) else Success(arms(v.index, v.payload))
  }

  /** The free function `apply_visitor(vis, v)`, which forwards to the
      member: it runs the arm of the active alternative, or raises
      `empty_variant_error` on an Empty variant. */
  function ApplyVisitor<P, R>(arms: (nat, P) -> R, v: Variant<P>): (r: Result<R, Error>)
    ensures v.Empty? ==> r == Failure(EmptyVariantError)
    ensures v.Active? ==> r == Success(arms(v.index, v.payload))
  {
    Visit(v, arms)
  }

  /** The two access forms and `contains` agree on every state: the
      reference form succeeds exactly when the pointer form is non-null,
      exactly when `contains<T>()` holds, and on an Empty variant all of
      them fail. */
  lemma AccessFormsAgree<T, P>(decls: seq<Alt<T>>, v: Variant<P>, t: T)
    requires Distinct(decls) && Declares(decls, t) && Wf(decls, v)
    ensures GetPtr(decls, v, t) == Get(decls, v, t).ToOption()
    ensures Get(decls, v, t).Success? <==> Contains(decls, v, t)
    ensures v.Empty? ==> Get(decls, v, t) == Failure(InvalidGetError) && GetPtr(decls, v, t).None?
  {
  }
}
