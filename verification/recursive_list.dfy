/** The recursive instantiation of the demonstration program,
    `var_list = variant<nil, recursive_helper<cell>>` with
    `struct cell { int head; var_list tail; }`: a linked list whose cells
    hold their tail as another variant. The heap box that `recursive_helper`
    puts around `cell` is not represented; a cell is a plain value.

    Modelled here: building lists with `cons`, the loop that walks a list by
    repeated `get<cell>(&val)` and `val = ptr->tail`, the summing visitor and
    the stateful counting visitor, why `val = ptr->tail` needs
    operator='s detour through a temporary, and why the converse
    assignment, of a list into one of its own `nil` tails, needs it too. */
module RecursiveList {
  import opened Wrappers
  import opened Alternatives
  import opened Variants

  /** A payload of `var_list`: `nil`, or a `cell` with its head and its
      tail. */
  datatype Node = Nil | Cell(head: int, tail: Variant<Node>)

  /** The alternative list `nil, recursive_helper<cell>`. */
  const Decls: seq<Alt<string>> := [Alt("nil", false), Alt("cell", true)]

  /** Failure of an assignment that reads its operand from storage the
      assignment itself has already released. */
  datatype Fault = ReadAfterRelease

  /** The counters of `stateful_sum_visitor`. */
  datatype Tally = Tally(visits: int, sum: int)

  /** A visit by `stateful_sum_visitor`: its counters afterwards, and the
      exception that cut the visit short, if any. The visitor is passed by
      reference, so counts made before an exception survive it. */
  datatype Counted = Counted(tally: Tally, raised: Option<Error>)

  /** Every payload is of the type of its alternative, down the whole list,
      as the C++ type system guarantees. */
  predicate Typed(v: Variant<Node>)
  {
    match v
    case Empty => true
    case Active(i, Nil) => i == 0
    case Active(i, Cell(_, tail)) => i == 1 && Typed(tail)
  }

  lemma DeclsFacts()
    ensures Distinct(Decls) && Declares(Decls, "nil") && Declares(Decls, "cell")
    ensures IndexOf(Decls, "nil") == 0 && IndexOf(Decls, "cell") == 1
  {
    assert Decls[0].tag == "nil" && Decls[1].tag == "cell";
    assert Decls[0].tag != Decls[1].tag by { assert |Decls[0].tag| != |Decls[1].tag|; }
  }

  /** `get<cell>(&v)` on a `var_list`: the cell when the recursive
      alternative is active, otherwise null. */
  function GetCell(v: Variant<Node>): (r: Option<Node>)
    requires Wf(Decls, v)
    ensures r.Some? <==> v.Active? && v.index == 1
    ensures r.Some? ==> r.value == v.payload
  {
    DeclsFacts();
    GetPtr(Decls, v, "cell")
  }

  /** `get<nil>(&v)` on a `var_list`. */
  function GetNil(v: Variant<Node>): (r: Option<Node>)
    requires Wf(Decls, v)
    ensures r.Some? <==> v.Active? && v.index == 0
    ensures r.Some? ==> r.value == v.payload
  {
    DeclsFacts();
    GetPtr(Decls, v, "nil")
  }

  /** The heads of the cells reached from `v` by following tails, up to the
      first variant that does not hold a cell. */
  function Elements(v: Variant<Node>): seq<int>
  {
    match v
    case Active(_, Cell(h, tail)) => [h] + Elements(tail)
    case _ => []
  }

  /** Following tails from `v` ends at a `nil`, never at an Empty variant. */
  predicate Proper(v: Variant<Node>)
  {
    match v
    case Empty => false
    case Active(_, Nil) => true
    case Active(_, Cell(_, tail)) => Proper(tail)
  }

  function Sum(s: seq<int>): int
  {
    if |s| == 0 then 0 else s[0] + Sum(s[1..])
  }

  lemma SumCons(h: int, s: seq<int>)
    ensures Sum([h] + s) == h + Sum(s)
  {
    assert ([h] + s)[1..] == s;
  }

  /** `var_list` converted from `nil{}`. */
  function NilList(): (v: Variant<Node>)
    ensures Typed(v) && Proper(v) && Elements(v) == []
    ensures GetNil(v) == Some(Nil)
  {
    DeclsFacts();
    Convert(Decls, "nil", Nil)
  }

  /** The demonstration's `cons(i, v)`: a `var_list` converted from
      `cell{i, v}`, which puts the cell in the recursive alternative. */
  function Cons(h: int, tail: Variant<Node>): (v: Variant<Node>)
    ensures Typed(v) <==> Typed(tail)
    ensures Proper(v) <==> Proper(tail)
    ensures Elements(v) == [h] + Elements(tail)
    ensures CurrentlyRecursive(Decls, v)
    ensures GetCell(v) == Some(Cell(h, tail))
  {
    DeclsFacts();
    Convert(Decls, "cell", Cell(h, tail))
  }

  /** The list whose cells hold `xs` in order, built with `cons` onto
      `nil`. */
  function FromSeq(xs: seq<int>): (v: Variant<Node>)
    ensures Typed(v) && Proper(v) && Elements(v) == xs
  {
    if |xs| == 0 then NilList() else Cons(xs[0], FromSeq(xs[1..]))
  }

  /** The variant reached from `v` by following `depth` tails, if every
      variant on the way holds a cell. */
  function Nested(v: Variant<Node>, depth: nat): Option<Variant<Node>>
  {
    if depth == 0 then Some(v)
    else
      match v
      case Active(_, Cell(_, tail)) => Nested(tail, depth - 1)
      case _ => None
  }

  /** `v` with the variant `depth` tails down replaced by `w`; the cells
      above it keep their heads. When the path breaks before `depth`,
      there is nothing to replace. */
  function Replace(v: Variant<Node>, depth: nat, w: Variant<Node>): Variant<Node>
  {
    if depth == 0 then w
    else
      match v
      case Active(i, Cell(h, tail)) => Active(i, Cell(h, Replace(tail, depth - 1, w)))
      case _ => v
  }

  /** Following `depth` tails from a variant that has them leads to a
      variant whose list is well typed and proper exactly when the whole
      list is. */
  lemma {:induction false} NestedKeeps(v: Variant<Node>, depth: nat)
    requires Nested(v, depth).Some?
    ensures Typed(v) ==> Typed(Nested(v, depth).value)
    ensures Proper(v) <==> Proper(Nested(v, depth).value)
  {
    if depth > 0 {
      NestedKeeps(v.payload.tail, depth - 1);
    }
  }

  /** After a replacement, `depth` tails down holds the new variant; the
      list is the first `depth` heads followed by the new variant's list,
      and it is proper exactly when the new variant is. */
  lemma {:induction false} ReplaceFacts(v: Variant<Node>, depth: nat, w: Variant<Node>)
    requires Nested(v, depth).Some?
    ensures Nested(Replace(v, depth, w), depth) == Some(w)
    ensures Typed(v) && Typed(w) ==> Typed(Replace(v, depth, w))
    ensures Proper(Replace(v, depth, w)) <==> Proper(w)
    ensures depth <= |Elements(v)|
    ensures Elements(Replace(v, depth, w)) == Elements(v)[..depth] + Elements(w)
  {
    if depth == 0 {
      assert Elements(v)[..0] + Elements(w) == Elements(w);
    } else {
      var h, tail := v.payload.head, v.payload.tail;
      ReplaceFacts(tail, depth - 1, w);
      assert Elements(v) == [h] + Elements(tail);
      assert Elements(v)[..depth] == [h] + Elements(tail)[..depth - 1];
    }
  }

  /** operator='s direct path, `destroy_current(); copy(v);`, for an operand
      that sits `depth` tails down inside `val`. The operand is found through
      `val` at the moment `copy` reads it; by then `val`'s occupant, and the
      cells the operand lived in, have been destroyed. */
  function DirectAssignFromWithin(val: Variant<Node>, depth: nat): Result<Variant<Node>, Fault>
  {
    var cleared := Variants.DestroyCurrent(val).after;
    match Nested(cleared, depth)
    case None => Failure(ReadAfterRelease)
    case Some(src) => Success(CopyInto(cleared, src))
  }

  /** Copy assignment `val = *q` where `q` points `depth` tails down inside
      `val` itself; `depth == 1` is the demonstration's `val = ptr->tail`,
      `depth == 0` is `val = val`. The steps are those of
      `Variants.CopyAssign`, with the operand found through `val` at each
      read. Because a variant holding a cell holds the recursive
      alternative, the operand is copied into the temporary before anything
      is destroyed, and the assignment yields exactly the operand. The last
      branch mirrors operator='s direct path; under `Typed` with
      `depth >= 1` the destination holds a cell, so that branch is never
      taken here (`SelfAssignTakesTemporary`). */
  function AssignFromWithin(val: Variant<Node>, depth: nat): (r: Result<Variant<Node>, Fault>)
    requires Typed(val) && Nested(val, depth).Some?
    ensures r == Success(Nested(val, depth).value)
  {
    if depth == 0 then Success(val)
    else if CurrentlyRecursive(Decls, val) then
      var temp := CopyConstruct(Nested(val, depth).value);
      var cleared := Variants.DestroyCurrent(val).after;
      Success(MoveInto(cleared, temp).target)
    else
      DirectAssignFromWithin(val, depth)
  }

  /** Without the detour through a temporary, `val = ptr->tail` and every
      deeper self-assignment would read a released operand: the recursive
      branch of operator= is what makes the demonstration's loop sound.
      This holds by the way `DirectAssignFromWithin` finds its operand:
      through the destination, after `destroy_current` has left it Empty. */
  lemma DirectPathReadsReleased(val: Variant<Node>, depth: nat)
    requires depth >= 1 && Nested(val, depth).Some?
    ensures DirectAssignFromWithin(val, depth) == Failure(ReadAfterRelease)
  {
  }

  /** A self-assignment from one or more tails down always finds the
      destination holding a cell, so operator= takes its recursive path. */
  lemma SelfAssignTakesTemporary(val: Variant<Node>, depth: nat)
    requires Typed(val) && depth >= 1 && Nested(val, depth).Some?
    ensures CurrentlyRecursive(Decls, val)
  {
  }

  /** operator='s temporary path, `auto v2(v); destroy_current();
      move(std::move(v2));`, for a destination that sits `depth` tails
      down inside the operand `val`: the whole operand is copied before
      the destination's occupant is destroyed, and the copy moves in. */
  function TemporaryAssignInto(val: Variant<Node>, depth: nat): Variant<Node>
  {
    match Nested(val, depth)
    case None => val
    case Some(dest) =>
      var temp := CopyConstruct(val);
      Replace(val, depth, MoveInto(Variants.DestroyCurrent(dest).after, temp).target)
  }

  /** operator='s direct path, `destroy_current(); copy(v);`, for a
      destination that sits `depth` tails down inside the operand `val`.
      Destroying the destination's occupant changes the operand too, so
      `copy` reads an operand whose chain now ends in that Empty
      destination. */
  function DirectAssignIntoWithin(val: Variant<Node>, depth: nat): Variant<Node>
  {
    match Nested(val, depth)
    case None => val
    case Some(dest) =>
      var released := Variants.DestroyCurrent(dest).after;
      var cleared := Replace(val, depth, released);
      Replace(cleared, depth, CopyInto(released, cleared))
  }

  /** Copy assignment `*q = val` where `q` points `depth` tails down inside
      `val`, as written: operator= picks the temporary by the destination's
      alternative alone, so a destination holding `nil` takes the direct
      path even though the operand holds a cell. */
  function AssignIntoWithinAsWritten(val: Variant<Node>, depth: nat): (r: Variant<Node>)
    requires Typed(val) && Nested(val, depth).Some?
    ensures depth == 0 ==> r == val
    ensures depth > 0 && CurrentlyRecursive(Decls, Nested(val, depth).value) ==>
      Nested(r, depth) == Some(val)
  {
    if depth == 0 then val
    else if CurrentlyRecursive(Decls, Nested(val, depth).value) then
      ReplaceFacts(val, depth, val);
      TemporaryAssignInto(val, depth)
    else
      DirectAssignIntoWithin(val, depth)
  }

  /** Copy assignment `*q = val` with the temporary taken whenever the
      destination or the operand holds the recursive alternative
      (`if (currently_recursive() || v.currently_recursive())`). The
      destination ends equal to the operand as it was before the
      assignment, and the cells above it are untouched: the list is its
      first `depth` heads followed by the whole old list. The direct path
      is never reached from one or more tails down, since the operand then
      holds a cell. */
  function AssignIntoWithin(val: Variant<Node>, depth: nat): (r: Variant<Node>)
    requires Typed(val) && Nested(val, depth).Some?
    ensures Nested(r, depth) == Some(val)
    ensures Typed(r)
    ensures Proper(r) <==> Proper(val)
    ensures depth <= |Elements(val)| && Elements(r) == Elements(val)[..depth] + Elements(val)
  {
    ReplaceFacts(val, depth, val);
    if depth == 0 then
      assert Elements(val)[..0] + Elements(val) == Elements(val);
      val
    else if CurrentlyRecursive(Decls, Nested(val, depth).value) || CurrentlyRecursive(Decls, val) then
      TemporaryAssignInto(val, depth)
    else
      DirectAssignIntoWithin(val, depth)
  }

  /** As written, assigning a list into one of its own `nil` tails breaks
      it: the copy is taken after the tail was destroyed, so the new list
      ends in an Empty variant and the summing visitor raises
      `empty_variant_error`. With the temporary taken for a recursive
      operand, the same assignment leaves a proper list. */
  lemma AssignIntoNilTailBreaksList(val: Variant<Node>, depth: nat)
    requires Typed(val) && depth >= 1 && Nested(val, depth).Some?
    requires Nested(val, depth).value.Active? && !CurrentlyRecursive(Decls, Nested(val, depth).value)
    ensures !Proper(AssignIntoWithinAsWritten(val, depth))
    ensures ListSum(AssignIntoWithinAsWritten(val, depth)) == Failure(EmptyVariantError)
    ensures Proper(AssignIntoWithin(val, depth))
    ensures AssignIntoWithinAsWritten(val, depth) != AssignIntoWithin(val, depth)
  {
    var dest := Nested(val, depth).value;
    NestedKeeps(val, depth);
    DeclsFacts();
    assert dest.payload.Nil?;
    ReplaceFacts(val, depth, Empty);
    var cleared := Replace(val, depth, Empty);
    ReplaceFacts(cleared, depth, CopyInto(Empty, cleared));
  }

  /** `val = cons(1, nil{}); *get<cell>(&val)->tail = val;` (the tail is
      the cell's own `tail` member): as written the list becomes
      `cons(1, cons(1, <Empty>))` and summing it raises; with the
      temporary it becomes `cons(1, cons(1, nil{}))`, which sums to 2. */
  lemma TailAssignDemo()
    ensures AssignIntoWithinAsWritten(Cons(1, NilList()), 1) == Cons(1, Cons(1, Empty))
    ensures ListSum(AssignIntoWithinAsWritten(Cons(1, NilList()), 1)) == Failure(EmptyVariantError)
    ensures AssignIntoWithin(Cons(1, NilList()), 1) == Cons(1, Cons(1, NilList()))
    ensures ListSum(AssignIntoWithin(Cons(1, NilList()), 1)) == Success(2)
  {
    DeclsFacts();
    SumCons(1, []);
    SumCons(1, [1]);
  }

  /** The demonstration's loop:
      `while (auto ptr = get<cell>(&val)) { total += ptr->head; val = ptr->tail; }`.
      It adds up the heads of the cells it walks through and stops at the
      first variant that does not hold a cell. */
  method UnwrapSum(start: Variant<Node>) returns (total: int, rest: Variant<Node>)
    requires Typed(start)
    ensures total == Sum(Elements(start))
    ensures Typed(rest) && Elements(rest) == []
    ensures GetCell(rest).None?
  {
    DeclsFacts();
    total := 0;
    var val := start;
    while true
      invariant Typed(val)
      invariant total + Sum(Elements(val)) == Sum(Elements(start))
      decreases val
    {
      var ptr := GetCell(val);
      if ptr.None? {
        break;
      }
      var cell := ptr.value;
      SumCons(cell.head, Elements(cell.tail));
      total := total + cell.head;
      var next := AssignFromWithin(val, 1);
      val := next.value;
    }
    rest := val;
  }

  /** `auto val = cons(5, cons(6, cons(7, nil{})))` walked by the loop
      totals 18. */
  method UnwrapDemo() returns (total: int)
    ensures total == 18
  {
    var val := Cons(5, Cons(6, Cons(7, NilList())));
    var rest;
    total, rest := UnwrapSum(val);
    SumCons(7, []);
    SumCons(6, [7]);
    SumCons(5, [6, 7]);
  }

  /** `apply_visitor(list_sum_visitor{}, v)`: the `nil` arm answers 0 and
      the `cell` arm adds its head to the visit of its tail. Reaching an
      Empty variant raises `empty_variant_error`, which propagates out of
      every enclosing visit. */
  function ListSum(v: Variant<Node>): (r: Result<int, Error>)
    ensures r.Success? <==> Proper(v)
    ensures r.Success? ==> r.value == Sum(Elements(v))
    ensures r.Failure? ==> r.error == EmptyVariantError
  {
    match v
    case Empty => Failure(EmptyVariantError)
    case Active(_, Nil) => Success(0)
    case Active(_, Cell(h, tail)) =>
      SumCons(h, Elements(tail));
      match ListSum(tail)
      case Success(s) => Success(h + s)
      case Failure(e) => Failure(e)
  }

  /** `apply_visitor(visitor, v)` with a `stateful_sum_visitor` whose
      counters start at `st`: every `nil` and every cell counts one visit,
      every cell adds its head to `sum`, and a cell's arm visits its tail.
      On a proper list there is one visit per cell plus one for `nil`;
      otherwise the cells before the Empty variant are still counted and
      `empty_variant_error` is raised. */
  function Count(v: Variant<Node>, st: Tally): (r: Counted)
    ensures r.raised.None? <==> Proper(v)
    ensures r.raised.Some? ==> r.raised.value == EmptyVariantError
    ensures r.tally.sum == st.sum + Sum(Elements(v))
    ensures r.tally.visits == st.visits + |Elements(v)| + (if Proper(v) then 1 else 0)
  {
    match v
    case Empty => Counted(st, Some(EmptyVariantError))
    case Active(_, Nil) => Counted(Tally(st.visits + 1, st.sum), None)
    case Active(_, Cell(h, tail)) =>
      SumCons(h, Elements(tail));
      Count(tail, Tally(st.visits + 1, st.sum + h))
  }

  /** The arms of `list_sum_visitor`, chosen by the index of the active
      alternative as `apply_visitor`'s dispatch chooses them: alternative 0
      is `nil` and answers 0; alternative 1 is `cell` and adds its head to
      the visit of its tail. */
  function SumArms(i: nat, p: Node): Result<int, Error>
  {
    if i == 0 then Success(0)
    else
      match p
      case Nil => Success(0)
      case Cell(h, tail) =>
        match ListSum(tail)
        case Success(s) => Success(h + s)
        case Failure(e) => Failure(e)
  }

  /** An arm's own `empty_variant_error` propagates out of the enclosing
      visit just as the visit's own would. */
  function Flatten<R>(r: Result<Result<R, Error>, Error>): Result<R, Error>
  {
    match r
    case Success(inner) => inner
    case Failure(e) => Failure(e)
  }

  /** The summing visitor is `apply_visitor` with the arms of
      `list_sum_visitor`: on every list the C++ type system admits, running
      the arm that `Visit` dispatches to gives the same answer, and the same
      error on an Empty variant. */
  lemma ListSumIsVisit(v: Variant<Node>)
    requires Typed(v)
    ensures ListSum(v) == Flatten(ApplyVisitor(SumArms, v))
  {
  }

  /** The arms of `stateful_sum_visitor` with counters `st`, chosen by the
      index of the active alternative: each counts one visit; the `cell`
      arm also adds its head and visits its tail. */
  function CountArms(st: Tally): (nat, Node) -> Counted
  {
    (i: nat, p: Node) =>
      if i == 0 || p.Nil? then Counted(Tally(st.visits + 1, st.sum), None)
      else Count(p.tail, Tally(st.visits + 1, st.sum + p.head))
  }

  /** How a visit by `stateful_sum_visitor` ends: with the dispatched arm's
      outcome, or, when the visit itself raises, with the counters as they
      were. */
  function Settle(st: Tally, r: Result<Counted, Error>): Counted
  {
    match r
    case Success(c) => c
    case Failure(e) => Counted(st, Some(e))
  }

  /** The counting visitor is `apply_visitor` with the arms of
      `stateful_sum_visitor`: on a variant the type system admits, it is
      the dispatched arm's outcome, and on an Empty variant the counters
      are untouched and `empty_variant_error` is raised. */
  lemma CountIsVisit(v: Variant<Node>, st: Tally)
    requires Typed(v)
    ensures Count(v, st) == Settle(st, ApplyVisitor(CountArms(st), v))
  {
  }

  /** On `cons(1, cons(4, nil{}))` the summing visitor answers 5, and the
      stateful visitor counts 3 visits and a sum of 5. */
  lemma VisitorDemo()
    ensures ListSum(Cons(1, Cons(4, NilList()))) == Success(5)
    ensures Count(Cons(1, Cons(4, NilList())), Tally(0, 0)) == Counted(Tally(3, 5), None)
  {
    SumCons(4, []);
    SumCons(1, [4]);
  }
}
