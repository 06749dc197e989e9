/** The class's two data members as the code manipulates them: the storage
    region `data` and the integer `current`. The members that write them
    (`destroy_current`, `emplace_impl`, the private `copy` and `move`) are
    modelled statement by statement, and each is shown to implement the
    corresponding transition of module Variants under the class invariant
    `Coherent`.

    The as-written `move` breaks that invariant: it resets the source's
    `current` without destroying the moved-from payload, whose destructor
    then never runs. `MoveFromAsWritten` is that code; `MoveFrom` is the
    corrected member, which the rest of the model uses. */
module Layout {
  import opened Wrappers
  import opened Alternatives
  import opened Variants

  /** What the storage region holds. `Spent(i)` is an object of alternative
      `i` that is still alive but whose resources have been moved out of
      it: its destructor has yet to run. */
  datatype Slot<+P> = Vacant | Live(index: nat, payload: P) | Spent(index: nat)

  /** A variant object: its storage and its `current` index. */
  datatype Object<+P> = Object(data: Slot<P>, current: int)

  /** The class invariant: an object lives in `data` exactly when `current`
      designates it, and then it is of that alternative. */
  predicate Coherent<T, P>(decls: seq<Alt<T>>, o: Object<P>)
  {
    if o.current == Invalid(decls) then o.data.Vacant?
    else 0 <= o.current < |decls| && o.data.Live? && o.data.index == o.current
  }

  /** The state a coherent object presents to its users. */
  function View<T, P>(decls: seq<Alt<T>>, o: Object<P>): (v: Variant<P>)
    requires Coherent(decls, o)
    ensures Wf(decls, v) && Current(decls, v) == o.current
    ensures v.Active? ==> o.data == Live(v.index, v.payload)
  {
    if o.current == Invalid(decls) then Empty else Active(o.current, o.data.payload)
  }

  /** The object that presents a given state. */
  function Embed<T, P>(decls: seq<Alt<T>>, v: Variant<P>): (o: Object<P>)
    requires Wf(decls, v)
    ensures Coherent(decls, o) && View(decls, o) == v
  {
    match v
    case Empty => Object(Vacant, Invalid(decls))
    case Active(i, x) => Object(Live(i, x), i)
  }

  /** A coherent object is determined by the state it presents, so `View`
      and `Embed` are inverse to each other. */
  lemma EmbedView<T, P>(decls: seq<Alt<T>>, o: Object<P>)
    requires Coherent(decls, o)
    ensures Embed(decls, View(decls, o)) == o
  {
    if o.current == Invalid(decls) {
    } else {
      assert o.data == Live(o.current as nat, o.data.payload);
    }
  }

  /** `variant() = default`: no storage is in use and `current` is the
      sentinel. */
  function Fresh<T, P>(decls: seq<Alt<T>>): (o: Object<P>)
    ensures Coherent(decls, o) && View(decls, o) == Empty
  {
    Object(Vacant, Invalid(decls))
  }

  /** `destroy_current`: returns at once when `current` is the sentinel;
      otherwise the occupant's destructor runs and `current` becomes the
      sentinel. Whatever the storage holds while `current` is the sentinel
      stays as it is. */
  function DestroyCurrent<T, P>(decls: seq<Alt<T>>, o: Object<P>): (r: Object<P>)
    ensures r.current == Invalid(decls)
    ensures o.current == Invalid(decls) ==> r.data == o.data
    ensures o.current != Invalid(decls) ==> r.data.Vacant?
  {
    if o.current == Invalid(decls) then o else Object(Vacant, Invalid(decls))
  }

  /** `~variant()`: what is still alive in the storage once the destructor
      has finished. A coherent object leaves nothing behind; an object whose
      `current` is the sentinel keeps whatever its storage holds, since the
      destructor has no index to destroy it by. */
  function Remains<T, P>(decls: seq<Alt<T>>, o: Object<P>): (r: Slot<P>)
    ensures Coherent(decls, o) ==> r.Vacant?
    ensures o.current == Invalid(decls) ==> r == o.data
    ensures o.current != Invalid(decls) ==> r.Vacant?
  {
    DestroyCurrent(decls, o).data
  }

  lemma DestroyCurrentRefines<T, P>(decls: seq<Alt<T>>, o: Object<P>)
    requires Coherent(decls, o)
    ensures Coherent(decls, DestroyCurrent(decls, o))
    ensures View(decls, DestroyCurrent(decls, o)) == Variants.DestroyCurrent(View(decls, o)).after
    ensures Remains(decls, o).Vacant?
  {
  }

  /** `emplace_impl`: `destroy_current`, then the payload is built in the
      storage, and only then is `current` set. `built` is the constructor's
      outcome; when it raises, the assignment to `current` is never reached
      and nothing was completed in the storage. */
  function EmplaceImpl<T(==), P, E>(decls: seq<Alt<T>>, o: Object<P>, t: T, built: Result<P, E>): (r: (Object<P>, Option<E>))
    requires Declares(decls, t)
    ensures built.Failure? ==> r.0.current == Invalid(decls) && r.1 == Some(built.error)
    ensures built.Success? ==> r.0 == Object(Live(IndexOf(decls, t), built.value), IndexOf(decls, t)) && r.1.None?
  {
    var cleared := DestroyCurrent(decls, o);
    match built
    case Failure(e) => (Object(Vacant, cleared.current), Some(e))
    case Success(x) =>
      var stored := Object(Live(IndexOf(decls, t), x), cleared.current);
      (Object(stored.data, IndexOf(decls, t)), None)
  }

  /** `emplace_impl` keeps the class invariant, and a constructor that raises
      leaves a coherent Empty object, as the state machine's `Emplace`
      says. */
  lemma EmplaceImplRefines<T, P, E>(decls: seq<Alt<T>>, o: Object<P>, t: T, built: Result<P, E>)
    requires Distinct(decls) && Declares(decls, t) && Coherent(decls, o)
    ensures Coherent(decls, EmplaceImpl(decls, o, t, built).0)
    ensures View(decls, EmplaceImpl(decls, o, t, built).0) == Emplace(decls, View(decls, o), t, built).state
    ensures EmplaceImpl(decls, o, t, built).1 == Emplace(decls, View(decls, o), t, built).raised
  {
  }

  /** The private `copy(v)`, called on an object whose `current` is the
      sentinel: when `v` holds something, its payload is copy-constructed
      into the storage and `current` takes `v.current`. */
  function CopyFrom<T, P>(decls: seq<Alt<T>>, dest: Object<P>, src: Object<P>): (r: Object<P>)
    requires Coherent(decls, src)
    ensures src.current == Invalid(decls) ==> r == dest
    ensures src.current != Invalid(decls) ==> r == src
  {
    if src.current == Invalid(decls) then dest
    else Object(Live(src.current as nat, src.data.payload), src.current)
  }

  lemma CopyFromRefines<T, P>(decls: seq<Alt<T>>, dest: Object<P>, src: Object<P>)
    requires Coherent(decls, dest) && dest.current == Invalid(decls) && Coherent(decls, src)
    ensures Coherent(decls, CopyFrom(decls, dest, src))
    ensures View(decls, CopyFrom(decls, dest, src)) == CopyInto(View(decls, dest), View(decls, src))
  {
  }

  /** The private `move(v)` as written: the payload is move-constructed into
      the storage, `current` takes `v.current`, and `v.current` is reset to
      the sentinel. The moved-from payload is left alive in `v`'s storage. */
  function MoveFromAsWritten<T, P>(decls: seq<Alt<T>>, dest: Object<P>, src: Object<P>): (r: (Object<P>, Object<P>))
    requires Coherent(decls, src)
  {
    if src.current == Invalid(decls) then (dest, src)
    else
      var i := src.current as nat;
      (Object(Live(i, src.data.payload), i), Object(Spent(i), Invalid(decls)))
  }

  /** The private `move(v)` corrected: after the payload has been
      move-constructed into the destination, the moved-from payload in `v`
      is destroyed before `v.current` is reset (`v.destroy_current()` in
      place of `v.current = invalid`). */
  function MoveFrom<T, P>(decls: seq<Alt<T>>, dest: Object<P>, src: Object<P>): (r: (Object<P>, Object<P>))
    requires Coherent(decls, src)
    ensures src.current == Invalid(decls) ==> r == (dest, src)
    ensures src.current != Invalid(decls) ==> r.0 == src && r.1 == Fresh(decls)
  {
    if src.current == Invalid(decls) then (dest, src)
    else
      var i := src.current as nat;
      var spent := Object(Spent(i), src.current);
      (Object(Live(i, src.data.payload), i), DestroyCurrent(decls, spent))
  }

  /** The as-written `move` leaves the source incoherent whenever it held
      something: its `current` is the sentinel while its storage still holds
      the moved-from object, so the source's destructor returns at once and
      that object's destructor never runs. */
  lemma MoveFromAsWrittenStrandsSource<T, P>(decls: seq<Alt<T>>, dest: Object<P>, src: Object<P>)
    requires Coherent(decls, src) && src.current != Invalid(decls)
    ensures !Coherent(decls, MoveFromAsWritten(decls, dest, src).1)
    ensures Remains(decls, MoveFromAsWritten(decls, dest, src).1) == Spent(src.current as nat)
  {
  }

  /** The corrected `move` keeps the class invariant on both objects,
      implements the state machine's `MoveInto` (destination takes the
      source's index and payload, source Empty), and leaves nothing alive in
      the source for its destructor to miss. */
  lemma MoveFromRefines<T, P>(decls: seq<Alt<T>>, dest: Object<P>, src: Object<P>)
    requires Coherent(decls, dest) && dest.current == Invalid(decls) && Coherent(decls, src)
    ensures Coherent(decls, MoveFrom(decls, dest, src).0) && Coherent(decls, MoveFrom(decls, dest, src).1)
    ensures View(decls, MoveFrom(decls, dest, src).0) == MoveInto(View(decls, dest), View(decls, src)).target
    ensures View(decls, MoveFrom(decls, dest, src).1) == MoveInto(View(decls, dest), View(decls, src)).source
    ensures Remains(decls, MoveFrom(decls, dest, src).1).Vacant?
  {
  }
}
