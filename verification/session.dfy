/** The first part of the demonstration program, on
    `var = variant<int, B, broken>`: `B` is an instrumented class and
    `broken`'s constructor always throws. Payloads are reduced to what the
    program observes of them. */
module Session {
  import opened Wrappers
  import opened Alternatives
  import opened Variants
  import Layout

  /** A payload of `var`. */
  datatype Value = IntValue(n: int) | BValue | BrokenValue

  /** The exception `broken()` throws. */
  datatype Thrown = BrokenException

  const Decls: seq<Alt<string>> := [Alt("int", false), Alt("B", false), Alt("broken", false)]

  lemma DeclsFacts()
    ensures Distinct(Decls)
    ensures Declares(Decls, "int") && Declares(Decls, "B") && Declares(Decls, "broken")
    ensures IndexOf(Decls, "int") == 0 && IndexOf(Decls, "B") == 1 && IndexOf(Decls, "broken") == 2
  {
    assert Decls[0].tag == "int" && Decls[1].tag == "B" && Decls[2].tag == "broken";
    assert |Decls[0].tag| != |Decls[1].tag| && |Decls[0].tag| != |Decls[2].tag| && |Decls[1].tag| != |Decls[2].tag|;
  }

  /** The statements of the demonstration on `var`, in order, with what each
      observation yields:
      `get<B>(v)` while `v` holds 5 raises `invalid_get_error`;
      `get<int>(v)` then yields 5;
      `v2.emplace<broken>()` propagates `broken`'s exception and leaves `v2`
      Empty;
      after `v = v2` both hold a `B`;
      after `v2 = 7`, `get<int>(v2)` yields 7;
      `v2 = std::move(v)` leaves `v2` holding `B` and `v` Empty;
      `var v3(i)` with `int const i = 1` and `get<int>(&v3)` yields a non-null
      pointer to 1. */
  method Demo() returns (wrongGet: Result<Value, Error>, firstInt: Result<Value, Error>,
                         failedEmplace: Emplaced<Value, Thrown>, afterCopy: Variant<Value>,
                         secondInt: Result<Value, Error>, moved: Pair<Value>, ptr: Option<Value>)
    ensures wrongGet == Failure(InvalidGetError)
    ensures firstInt == Success(IntValue(5))
    ensures failedEmplace.state.Empty? && failedEmplace.raised == Some(BrokenException)
    ensures afterCopy == Active(1, BValue)
    ensures secondInt == Success(IntValue(7))
    ensures moved.target == Active(1, BValue) && moved.source.Empty?
    ensures ptr == Some(IntValue(1))
  {
    DeclsFacts();
    var v := Default<string, Value>(Decls);
    v := Emplace<string, Value, Thrown>(Decls, v, "int", Success(IntValue(5))).state;
    wrongGet := Get(Decls, v, "B");
    firstInt := Get(Decls, v, "int");
    v := Emplace<string, Value, Thrown>(Decls, v, "B", Success(BValue)).state;
    var v2 := Convert(Decls, "B", BValue);
    failedEmplace := Emplace(Decls, v2, "broken", Failure(BrokenException));
    v2 := failedEmplace.state;
    v2 := Emplace<string, Value, Thrown>(Decls, v2, "B", Success(BValue)).state;
    v := CopyAssign(Decls, v, Other(v2));
    afterCopy := v;
    v2 := ConvertAssign(Decls, v2, "int", IntValue(7));
    secondInt := Get(Decls, v2, "int");
    moved := MoveAssign(Decls, v2, Other(v));
    var v3 := Convert(Decls, "int", IntValue(1));
    ptr := GetPtr(Decls, v3, "int");
  }

  /** `v2 = std::move(v)` in the demonstration: `v2` holds 7, which is not
      recursive, so operator= runs `destroy_current()` and then the
      as-written `move(std::move(v))` with `v` holding a `B`. The moved-from
      `B` stays alive in `v`'s storage after `v`'s destructor has run. With
      the corrected `move` nothing is left. */
  lemma MovedFromBNeverDestroyed()
    ensures var v2 := Layout.DestroyCurrent(Decls, Layout.Object(Layout.Live(0, IntValue(7)), 0));
            var v := Layout.Object(Layout.Live(1, BValue), 1);
            && Layout.MoveFromAsWritten(Decls, v2, v).0 == v
            && Layout.Remains(Decls, Layout.MoveFromAsWritten(Decls, v2, v).1) == Layout.Spent(1)
            && Layout.Remains(Decls, Layout.MoveFrom(Decls, v2, v).1) == Layout.Vacant
  {
  }
}
