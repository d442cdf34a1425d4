/** The outcomes the demonstration calls in pattern-match.js expect, stated
    against the earlier variant. */
module JsExamples {
  import opened Values
  import opened PatternMatchJs

  /** A clause of one pattern followed by its callback. */
  function Clause(p: JsPattern): JsClause
  {
    JsClause(p, [])
  }

  /** The clause order decides, and a literal binds the value it matched:
      "Hello world" picks the exact literal before `_`, `_` when no literal
      matches, and `_` again when `_` comes before the exact literal. */
  lemma FirstMatchWins()
    ensures Select(Str("Hello world"),
                   [Clause(Const(Str("Hello"))), Clause(Const(Str("Hello world"))), Clause(Wildcard)])
      == Ok(Selection(1, [Str("Hello world")]))
    ensures Select(Str("Hello world"),
                   [Clause(Const(Str("hello"))), Clause(Const(Str("hello world"))), Clause(Wildcard)])
      == Ok(Selection(2, []))
    ensures Select(Str("Hello world"),
                   [Clause(Const(Str("hello"))), Clause(Wildcard), Clause(Const(Str("Hello world")))])
      == Ok(Selection(1, []))
    ensures Select(Str("Hello world"), [Clause(Variable()), Clause(Wildcard)])
      == Ok(Selection(0, [Str("Hello world")]))
  {
    var v := Str("Hello world");
    assert Str("Hello") != v && Str("hello") != v && Str("hello world") != v;
    ConstMatches(v, Str("Hello"));
    ConstMatches(v, Str("hello"));
    ConstMatches(v, Str("hello world"));
    ConstMatches(v, v);
    WildcardMatchesAll(v);
    VariableBindsValue(v);
    SelectIsFirstMatch(v, [Clause(Const(Str("Hello"))), Clause(Const(v)), Clause(Wildcard)], 1);
    SelectIsFirstMatch(v, [Clause(Const(Str("hello"))), Clause(Const(Str("hello world"))), Clause(Wildcard)], 2);
    SelectIsFirstMatch(v, [Clause(Const(Str("hello"))), Clause(Wildcard), Clause(Const(v))], 1);
    SelectIsFirstMatch(v, [Clause(Variable()), Clause(Wildcard)], 0);
  }

  /** `Cons('h','t')` splits `[x, ...rest]` into `x` and `rest`, even when
      `rest` is empty. */
  lemma ConsTwoSlots(x: int, rest: seq<int>)
    ensures Matches(Arr(Nums([x] + rest)), Cons(["h", "t"])) == Some([Num(x), Arr(Nums(rest))])
  {
    var xs := Nums([x] + rest);
    assert xs[1..] == Nums(rest);
    ConsNonEmpty(xs, 2);
    assert xs[..1] + [Arr(xs[1..])] == [Num(x)] + [Arr(Nums(rest))] == [Num(x), Arr(Nums(rest))];
  }

  /** `[1,2,3]` against `Cons()` then `Cons('h','t')` binds `1` and `[2,3]`;
      `[]` picks `Cons()` with no bindings. */
  lemma ConsExamples()
    ensures Select(Arr(Nums([1, 2, 3])), [Clause(Cons([])), Clause(Cons(["h", "t"]))])
      == Ok(Selection(1, [Num(1), Arr(Nums([2, 3]))]))
    ensures Select(Arr([]), [Clause(Cons([])), Clause(Cons(["h", "t"]))]) == Ok(Selection(0, []))
  {
    var x := Nums([1, 2, 3]);
    ConsEmpty(x);
    assert [1] + [2, 3] == [1, 2, 3];
    ConsTwoSlots(1, [2, 3]);
    SelectIsFirstMatch(Arr(x), [Clause(Cons([])), Clause(Cons(["h", "t"]))], 1);
    ConsEmpty([]);
    SelectIsFirstMatch(Arr([]), [Clause(Cons([])), Clause(Cons(["h", "t"]))], 0);
  }

  /** The tuple value `([1,2,3], [4,5,6])`. */
  function ExampleTuple(): Value
  {
    Tup([Arr(Nums([1, 2, 3])), Arr(Nums([4, 5, 6]))])
  }

  /** A tuple pattern that asks either component to be empty fails. */
  lemma EmptyComponentFails()
    ensures Matches(ExampleTuple(), ArrayP([Cons([]), Wildcard])) == None
    ensures Matches(ExampleTuple(), ArrayP([Wildcard, Cons([])])) == None
  {
    var vs := ExampleTuple().comps;
    ConsEmpty(vs[0].elems);
    ConsEmpty(vs[1].elems);
    TupleMatches(vs, [Cons([]), Wildcard]);
    TupleMatches(vs, [Wildcard, Cons([])]);
  }

  /** Two `Cons('h','t')` components bind head and tail of each array in turn. */
  lemma HeadTailComponents()
    ensures Matches(ExampleTuple(), ArrayP([Cons(["ha", "ta"]), Cons(["hb", "tb"])]))
      == Some([Num(1), Arr(Nums([2, 3])), Num(4), Arr(Nums([5, 6]))])
  {
    var vs := ExampleTuple().comps;
    var ps := [Cons(["ha", "ta"]), Cons(["hb", "tb"])];
    assert [1] + [2, 3] == [1, 2, 3] && [4] + [5, 6] == [4, 5, 6];
    ConsTwoSlots(1, [2, 3]);
    ConsTwoSlots(4, [5, 6]);
    assert Matches(vs[0], ps[0]) == Some([Num(1), Arr(Nums([2, 3]))]);
    assert Matches(vs[1], ps[1]) == Some([Num(4), Arr(Nums([5, 6]))]);
    TupleMatches(vs, ps);
    var cb := ComponentBindings(vs, ps);
    assert cb == [Matches(vs[0], ps[0]).value, Matches(vs[1], ps[1]).value];
    ConcatPair(cb[0], cb[1]);
    assert [Num(1), Arr(Nums([2, 3]))] + [Num(4), Arr(Nums([5, 6]))]
      == [Num(1), Arr(Nums([2, 3])), Num(4), Arr(Nums([5, 6]))];
  }

  /** Written flat in a clause, `Cons(), _` and `_, Cons()` fail on the tuple
      `([1,2,3], [4,5,6])` and `Cons('ha','ta'), Cons('hb','tb')` binds
      `1, [2,3], 4, [5,6]`. */
  lemma TupleExample()
    ensures Tuple([Arr(Nums([1, 2, 3])), Arr(Nums([4, 5, 6]))]) == Ok(ExampleTuple())
    ensures Select(ExampleTuple(),
                   [JsClause(Cons([]), [Wildcard]), JsClause(Wildcard, [Cons([])]),
                    JsClause(Cons(["ha", "ta"]), [Cons(["hb", "tb"])])])
      == Ok(Selection(2, [Num(1), Arr(Nums([2, 3])), Num(4), Arr(Nums([5, 6]))]))
  {
    var clauses := [JsClause(Cons([]), [Wildcard]), JsClause(Wildcard, [Cons([])]),
                    JsClause(Cons(["ha", "ta"]), [Cons(["hb", "tb"])])];
    EmptyComponentFails();
    HeadTailComponents();
    assert ClausePattern(clauses[0]) == ArrayP([Cons([]), Wildcard]);
    assert ClausePattern(clauses[1]) == ArrayP([Wildcard, Cons([])]);
    assert ClausePattern(clauses[2]) == ArrayP([Cons(["ha", "ta"]), Cons(["hb", "tb"])]);
    SelectIsFirstMatch(ExampleTuple(), clauses, 2);
  }
}
