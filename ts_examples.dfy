/** Clients of the later variant: the recursive `non_decreasing` check and the
    outcomes the demonstration calls in pattern-match.ts expect. */
module TsExamples {
  import opened Values
  import opened PatternMatchTs

  /** The three clauses of `non_decreasing`, in order. */
  const NonDecreasingClauses: seq<Pattern> := [Cons([]), Cons(["_"]), Cons(["h", "n", "t"])]

  /** JS `<=` as the third handler applies it to two numbers; it is false on
      any binding that is not a number. */
  function LessEq(a: Value, b: Value): bool
  {
    a.Num? && b.Num? && a.n <= b.n
  }

  /** Every pair of elements, not only adjacent ones, is in order. */
  ghost predicate Sorted(xs: seq<int>)
  {
    forall i, j :: 0 <= i <= j < |xs| ==> xs[i] <= xs[j]
  }

  /** `non_decreasing(x)`: dispatch on `x`; the empty and one-element arrays
      give true, and `[h, n, ...t]` gives `h <= n && non_decreasing([n, ...t])`. */
  function NonDecreasing(x: seq<Value>): Result<bool>
    decreases |x|
  {
    match Select(Arr(x), NonDecreasingClauses)
    case Throw(message) => Throw(message)
    case Ok(Selection(index, bindings)) =>
      if index == 0 || index == 1 then Ok(true)
      else
        ConsLongArity(x, 3);
        var h, n, t := bindings[0], bindings[1], bindings[2];
        if !LessEq(h, n) then Ok(false) else NonDecreasing([n] + t.elems)
  }

  /** On an array of numbers, `non_decreasing` never throws and answers
      whether the array is sorted. */
  lemma {:induction false} NonDecreasingIsSorted(xs: seq<int>)
    ensures NonDecreasing(Nums(xs)) == Ok(Sorted(xs))
    decreases |xs|
  {
    var x := Nums(xs);
    var r := Select(Arr(x), NonDecreasingClauses);
    if |xs| <= 1 {
      ConsShortArity(x, |xs|);
      assert r.Ok? && r.value.index <= 1;
    } else {
      ConsShortArity(x, 0);
      ConsShortArity(x, 1);
      ConsLongArity(x, 3);
      assert r.Ok? && r.value.index == 2;
      var b := r.value.bindings;
      assert b == x[..2] + [Arr(x[2..])];
      assert [b[1]] + b[2].elems == Nums(xs[1..]);
      NonDecreasingIsSorted(xs[1..]);
      if xs[0] <= xs[1] {
        if Sorted(xs[1..]) {
          forall i, j | 0 <= i <= j < |xs| ensures xs[i] <= xs[j] {
            if 0 < i {
              assert xs[i] == xs[1..][i - 1] && xs[j] == xs[1..][j - 1];
            } else if 0 < j {
              assert xs[1] <= xs[1..][j - 1];
            }
          }
        } else {
          var i, j :| 0 <= i <= j < |xs[1..]| && xs[1..][i] > xs[1..][j];
          assert xs[i + 1] > xs[j + 1];
        }
      } else {
        assert xs[0] > xs[1];
      }
    }
  }

  /** `non_decreasing([1,1,2,3])` is true and `non_decreasing([1,2,1])` is false. */
  lemma NonDecreasingExamples()
    ensures NonDecreasing(Nums([1, 1, 2, 3])) == Ok(true)
    ensures NonDecreasing(Nums([1, 2, 1])) == Ok(false)
  {
    NonDecreasingIsSorted([1, 1, 2, 3]);
    NonDecreasingIsSorted([1, 2, 1]);
    assert [1, 2, 1][1] > [1, 2, 1][2];
  }

  /** The clause order decides: "Hello world" picks the exact literal when it
      comes before `_`, `_` when no literal matches, and `_` again when `_`
      comes before the exact literal. */
  lemma FirstMatchWins()
    ensures Select(Str("Hello world"), [Const(Str("Hello")), Const(Str("Hello world")), Wildcard])
      == Ok(Selection(1, []))
    ensures Select(Str("Hello world"), [Const(Str("hello")), Const(Str("hello world")), Wildcard])
      == Ok(Selection(2, []))
    ensures Select(Str("Hello world"), [Const(Str("hello")), Wildcard, Const(Str("Hello world"))])
      == Ok(Selection(1, []))
    ensures Select(Str("Hello world"), [Variable("x"), Wildcard])
      == Ok(Selection(0, [Str("Hello world")]))
  {
    var v := Str("Hello world");
    assert Str("Hello") != v && Str("hello") != v && Str("hello world") != v;
    ConstMatches(v, Str("Hello"));
    ConstMatches(v, Str("hello"));
    ConstMatches(v, Str("hello world"));
    ConstMatches(v, v);
    WildcardMatchesAll(v);
    VariableBindsValue(v, "x");
    SelectIsFirstMatch(v, [Const(Str("Hello")), Const(v), Wildcard], 1);
    SelectIsFirstMatch(v, [Const(Str("hello")), Const(Str("hello world")), Wildcard], 2);
    SelectIsFirstMatch(v, [Const(Str("hello")), Wildcard, Const(v)], 1);
    SelectIsFirstMatch(v, [Variable("x"), Wildcard], 0);
  }

  /** `[1,2,3]` against `Cons()` then `Cons('h','t')` binds `1` and `[2,3]`;
      `[]` picks `Cons()` with no bindings. */
  lemma ConsExamples()
    ensures Select(Arr(Nums([1, 2, 3])), [Cons([]), Cons(["h", "t"])])
      == Ok(Selection(1, [Num(1), Arr(Nums([2, 3]))]))
    ensures Select(Arr([]), [Cons([]), Cons(["h", "t"])]) == Ok(Selection(0, []))
  {
    var x := Nums([1, 2, 3]);
    assert x[..1] == [Num(1)] && x[1..] == Nums([2, 3]);
    ConsShortArity(x, 0);
    ConsLongArity(x, 2);
    assert x[..1] + [Arr(x[1..])] == [Num(1)] + [Arr(Nums([2, 3]))] == [Num(1), Arr(Nums([2, 3]))];
    SelectIsFirstMatch(Arr(x), [Cons([]), Cons(["h", "t"])], 1);
    ConsShortArity([], 0);
    SelectIsFirstMatch(Arr([]), [Cons([]), Cons(["h", "t"])], 0);
  }

  /** `Cons('h','t')` splits `[x, ...rest]` into `x` and `rest` when `rest`
      is not empty. */
  lemma ConsTwoSlots(x: int, rest: seq<int>)
    requires |rest| >= 1
    ensures Matches(Arr(Nums([x] + rest)), Cons(["h", "t"])) == Some([Num(x), Arr(Nums(rest))])
  {
    var xs := Nums([x] + rest);
    assert xs[1..] == Nums(rest);
    ConsLongArity(xs, 2);
    assert xs[..1] + [Arr(xs[1..])] == [Num(x)] + [Arr(Nums(rest))] == [Num(x), Arr(Nums(rest))];
  }

  /** The tuple value `MakeTuple([1,2,3], [4,5,6])`. */
  function ExampleTuple(): Value
  {
    Tup([Arr(Nums([1, 2, 3])), Arr(Nums([4, 5, 6]))])
  }

  /** A tuple pattern that asks either component to be empty fails. */
  lemma EmptyComponentFails()
    ensures Matches(ExampleTuple(), Tuple([Cons([]), Wildcard])) == None
    ensures Matches(ExampleTuple(), Tuple([Wildcard, Cons([])])) == None
  {
    var vs := ExampleTuple().comps;
    ConsShortArity(vs[0].elems, 0);
    ConsShortArity(vs[1].elems, 0);
    TupleMatches(vs, [Cons([]), Wildcard]);
    TupleMatches(vs, [Wildcard, Cons([])]);
  }

  /** Two `Cons('h','t')` components bind head and tail of each array in turn. */
  lemma HeadTailComponents()
    ensures Matches(ExampleTuple(), Tuple([Cons(["ha", "ta"]), Cons(["hb", "tb"])]))
      == Some([Num(1), Arr(Nums([2, 3])), Num(4), Arr(Nums([5, 6]))])
  {
    var vs := ExampleTuple().comps;
    var ps := [Cons(["ha", "ta"]), Cons(["hb", "tb"])];
    assert [1] + [2, 3] == [1, 2, 3] && [4] + [5, 6] == [4, 5, 6];
    ConsTwoSlots(1, [2, 3]);
    ConsTwoSlots(4, [5, 6]);
    assert Matches(vs[0], ps[0]) == Some([Num(1), Arr(Nums([2, 3]))]);
    assert Matches(vs[1], ps[1]) == Some([Num(4), Arr(Nums([5, 6]))]);
    TupleMatches(vs, ps);
    var cb := ComponentBindings(vs, ps);
    assert cb == [Matches(vs[0], ps[0]).value, Matches(vs[1], ps[1]).value];
    ConcatPair(cb[0], cb[1]);
    assert [Num(1), Arr(Nums([2, 3]))] + [Num(4), Arr(Nums([5, 6]))]
      == [Num(1), Arr(Nums([2, 3])), Num(4), Arr(Nums([5, 6]))];
  }

  /** The tuple `([1,2,3], [4,5,6])` skips the two clauses that need an empty
      component and binds `1, [2,3], 4, [5,6]` in the third. */
  lemma TupleExample()
    ensures MakeTuple([Arr(Nums([1, 2, 3])), Arr(Nums([4, 5, 6]))]) == Ok(ExampleTuple())
    ensures Select(ExampleTuple(),
                   [Tuple([Cons([]), Wildcard]), Tuple([Wildcard, Cons([])]),
                    Tuple([Cons(["ha", "ta"]), Cons(["hb", "tb"])])])
      == Ok(Selection(2, [Num(1), Arr(Nums([2, 3])), Num(4), Arr(Nums([5, 6]))]))
  {
    EmptyComponentFails();
    HeadTailComponents();
    var clauses := [Tuple([Cons([]), Wildcard]), Tuple([Wildcard, Cons([])]),
                    Tuple([Cons(["ha", "ta"]), Cons(["hb", "tb"])])];
    SelectIsFirstMatch(ExampleTuple(), clauses, 2);
  }
}
