/** The earlier variant of the engine (pattern-match.js): patterns are
    closures recognised by their function `name` and `length`, a tuple value is
    a closure named `TupleP`, and a tuple pattern is an array of patterns. */
module PatternMatchJs {
  import opened Values

  /** A pattern as the matcher receives it. The first five are the closures
      the factories return (or `_` itself), each with `length` 0;
      `ArrayP` is an array of patterns, which is what a clause with more than
      one pattern entry turns into. */
  datatype JsPattern =
    | WildP                          // the function `_`
    | VariableP                      // function VariableP
    | UnitP                          // function UnitP
    | ConstP(literal: Value)         // function ConstP, returning the literal
    | ConsP(arity: nat)              // function ConsP, returning the slot count
    | ArrayP(entries: seq<JsPattern>)

  /** What `determinePatternType` returns: the closure's `name`, `'tuple'`
      for arrays of two or more entries, and `undefined` (`Unnamed`) for
      shorter arrays, which have no `name`. */
  datatype PatternType = WildcardType | VariableType | UnitType | ConstType | ConsType | TuplePatternType | Unnamed

  /** A clause: its pattern entries in order; the trailing callback is left
      out. At least one pattern entry precedes the callback. */
  datatype JsClause = JsClause(first: JsPattern, rest: seq<JsPattern>)

  // ---------------------------------------------------------------------------
  // Pattern factories and the tuple value constructor

  /** The wildcard is the factory `_` itself, whose `name` is `_`. */
  const Wildcard: JsPattern := WildP

  function Const(a: Value): JsPattern
  {
    ConstP(a)
  }

  function Variable(): JsPattern
  {
    VariableP
  }

  function Unit(): JsPattern
  {
    UnitP
  }

  function Cons(slots: seq<string>): JsPattern
  {
    ConsP(|slots|)
  }

  /** Builds a tuple value; fewer than two components is a construction error,
      and the result is a tuple to the classifier. */
  function Tuple(args: seq<Value>): (r: Result<Value>)
    ensures r.Throw? <==> |args| <= 1
    ensures r.Throw? ==> r.message == TupleArityMessage
    ensures r.Ok? ==> DetermineValueType(r.value) == TupleType && r.value.comps == args
  {
    if |args| <= 1 then Throw(TupleArityMessage) else Ok(Tup(args))
  }

  // ---------------------------------------------------------------------------
  // Classifiers

  /** A closure named `TupleP` is a tuple; anything else is its `typeof`. */
  function DetermineValueType(value: Value): (r: ValueType)
    ensures r == TupleType <==> value.Tup?
    ensures r == ObjectType <==> value.Arr? || value.Obj?
    ensures r == NumberType <==> value.Num?
    ensures r == StringType <==> value.Str?
    ensures r == BooleanType <==> value.Bool?
  {
    match value
    case Num(_) => NumberType
    case Str(_) => StringType
    case Bool(_) => BooleanType
    case Arr(_) => ObjectType
    case Tup(_) => TupleType
    case Obj => ObjectType
    case Other => OtherType
  }

  /** A pattern of `length` at most 1 is told by its `name`; a longer one
      (an array of two or more patterns) is a tuple pattern. */
  function DeterminePatternType(pattern: JsPattern): (r: PatternType)
    ensures r == TuplePatternType <==> pattern.ArrayP? && |pattern.entries| >= 2
    ensures r == Unnamed <==> pattern.ArrayP? && |pattern.entries| <= 1
    ensures r == WildcardType <==> pattern.WildP?
    ensures r == VariableType <==> pattern.VariableP?
    ensures r == UnitType <==> pattern.UnitP?
    ensures r == ConstType <==> pattern.ConstP?
    ensures r == ConsType <==> pattern.ConsP?
  {
    match pattern
    case WildP => WildcardType
    case VariableP => VariableType
    case UnitP => UnitType
    case ConstP(_) => ConstType
    case ConsP(_) => ConsType
    case ArrayP(entries) => if |entries| <= 1 then Unnamed else TuplePatternType
  }

  // ---------------------------------------------------------------------------
  // Matcher

  /** The bindings of `pattern` against `value`, or `None` for `null`. */
  function Matches(value: Value, pattern: JsPattern): Option<seq<Value>>
    decreases pattern, 1, 0
  {
    var patternType := DeterminePatternType(pattern);
    var valueType := DetermineValueType(value);
    if patternType == WildcardType then Some([])
    else if patternType == VariableType then Some([value])
    else
      match valueType
      case NumberType | StringType =>
        if patternType == ConstType && pattern.literal == value then Some([value]) else None
      case ObjectType =>
        if value.Arr? && patternType == ConsType then MatchCons(value.elems, pattern.arity) else None
      case TupleType =>
        if patternType == TuplePatternType && |pattern.entries| == |value.comps| then
          ReduceComponents(pattern, value.comps, 0, Some([]))
        else None
      case _ => None
  }

  /** The `ConsP` branch on an array `value` and a pattern of `k` slots. */
  function MatchCons(value: seq<Value>, k: nat): Option<seq<Value>>
  {
    if |value| == 0 && k == 0 then Some([])
    else if |value| > 0 && k > 0 && |value| >= k - 1 then
      Some(value[..k - 1] + [Arr(value[k - 1..])])
    else None
  }

  /** The `reduce` over the tuple's values from index `i` on, with
      accumulator `acc`, matching value `i` against pattern entry `i`; once
      the accumulator is `null` it stays `null` without matching. */
  function ReduceComponents(pattern: JsPattern, tupleVals: seq<Value>, i: nat, acc: Option<seq<Value>>): Option<seq<Value>>
    requires pattern.ArrayP? && |pattern.entries| == |tupleVals| && i <= |tupleVals|
    decreases pattern, 0, |tupleVals| - i
  {
    if i == |tupleVals| then acc
    else
      var next :=
        if acc.Some? then
          var newBindings := Matches(tupleVals[i], pattern.entries[i]);
          if newBindings.Some? then Some(acc.value + newBindings.value) else None
        else None;
      ReduceComponents(pattern, tupleVals, i + 1, next)
  }

  /** The bindings of each component, when every component matches. */
  function ComponentBindings(vs: seq<Value>, ps: seq<JsPattern>): seq<seq<Value>>
    requires |vs| == |ps|
    requires forall i :: 0 <= i < |vs| ==> Matches(vs[i], ps[i]).Some?
  {
    seq(|vs|, i requires 0 <= i < |vs| => Matches(vs[i], ps[i]).value)
  }

  // ---------------------------------------------------------------------------
  // Properties of the matcher

  /** `_` accepts every value and binds nothing. */
  lemma WildcardMatchesAll(v: Value)
    ensures Matches(v, Wildcard) == Some([])
  {
  }

  /** `Variable()` accepts every value and binds exactly that value. */
  lemma VariableBindsValue(v: Value)
    ensures Matches(v, Variable()) == Some([v])
  {
  }

  /** `Const(c)` accepts exactly the number or string equal to `c` and, unlike
      the later variant, binds that value. */
  lemma ConstMatches(v: Value, c: Value)
    ensures Matches(v, Const(c)) == if (v.Num? || v.Str?) && v == c then Some([v]) else None
  {
  }

  /** `Unit()` matches nothing: no branch of the matcher accepts `UnitP`. */
  lemma UnitMatchesNothing(v: Value)
    ensures Matches(v, Unit()) == None
  {
  }

  /** `Cons()` matches only the empty array and binds nothing. */
  lemma ConsEmpty(xs: seq<Value>)
    ensures Matches(Arr(xs), ConsP(0)) == if xs == [] then Some([]) else None
  {
  }

  /** `Cons` with `k >= 1` slots matches a non-empty array of `n >= k - 1`
      elements, binding its first `k - 1` elements and the array of the rest,
      which together give back the array; so `Cons(x)` binds the whole array. */
  lemma ConsNonEmpty(xs: seq<Value>, k: nat)
    requires k >= 1
    ensures Matches(Arr(xs), ConsP(k)).Some? <==> |xs| >= 1 && |xs| >= k - 1
    ensures Matches(Arr(xs), ConsP(k)).Some? ==>
      var b := Matches(Arr(xs), ConsP(k)).value;
      b == xs[..k - 1] + [Arr(xs[k - 1..])] &&
      |b| == k && b[k - 1].Arr? && b[..k - 1] + b[k - 1].elems == xs
    ensures k == 1 && xs != [] ==> Matches(Arr(xs), ConsP(k)) == Some([Arr(xs)])
  {
  }

  /** Only arrays match `Cons`, only tuples match an array pattern, and an
      array pattern of fewer than two entries matches nothing. */
  lemma ShapeRequired(v: Value, p: JsPattern)
    ensures p.ConsP? && !v.Arr? ==> Matches(v, p) == None
    ensures p.ArrayP? && (!v.Tup? || |p.entries| <= 1) ==> Matches(v, p) == None
  {
  }

  /** Once the accumulator is `null` the fold stays `null`. */
  lemma {:induction false} ReduceStaysNull(p: JsPattern, data: seq<Value>, i: nat)
    requires p.ArrayP? && |p.entries| == |data| && i <= |data|
    ensures ReduceComponents(p, data, i, None) == None
    decreases |data| - i
  {
    if i < |data| {
      ReduceStaysNull(p, data, i + 1);
    }
  }

  /** A component that fails at or after index `i` makes the fold `null`. */
  lemma {:induction false} ReduceFailsAt(p: JsPattern, data: seq<Value>, i: nat, acc: Option<seq<Value>>, j: nat)
    requires p.ArrayP? && |p.entries| == |data| && i <= j < |data|
    requires Matches(data[j], p.entries[j]).None?
    ensures ReduceComponents(p, data, i, acc) == None
    decreases |data| - i
  {
    if i == j {
      ReduceStaysNull(p, data, i + 1);
    } else {
      var next :=
        if acc.Some? && Matches(data[i], p.entries[i]).Some? then
          Some(acc.value + Matches(data[i], p.entries[i]).value)
        else None;
      ReduceFailsAt(p, data, i + 1, next, j);
    }
  }

  /** When every component matches, the fold appends the component bindings
      from index `i` on, in order, to the accumulator. */
  lemma {:induction false} ReduceAllMatch(p: JsPattern, data: seq<Value>, i: nat, acc: seq<Value>)
    requires p.ArrayP? && |p.entries| == |data| && i <= |data|
    requires forall j :: 0 <= j < |data| ==> Matches(data[j], p.entries[j]).Some?
    ensures ReduceComponents(p, data, i, Some(acc)) == Some(acc + Concat(ComponentBindings(data, p.entries)[i..]))
    decreases |data| - i
  {
    var cb := ComponentBindings(data, p.entries);
    if i == |data| {
      assert cb[i..] == [];
      assert acc + Concat(cb[i..]) == acc;
    } else {
      assert cb[i..] == [cb[i]] + cb[i + 1..];
      assert Concat(cb[i..]) == cb[i] + Concat(cb[i + 1..]);
      assert cb[i] == Matches(data[i], p.entries[i]).value;
      assert ReduceComponents(p, data, i, Some(acc)) == ReduceComponents(p, data, i + 1, Some(acc + cb[i]));
      ReduceAllMatch(p, data, i + 1, acc + cb[i]);
      assert acc + cb[i] + Concat(cb[i + 1..]) == acc + Concat(cb[i..]);
    }
  }

  /** An array pattern of two or more entries matches a tuple value iff they
      have as many components and every component matches; the bindings are
      the component bindings concatenated in order. */
  lemma TupleMatches(vs: seq<Value>, ps: seq<JsPattern>)
    requires |ps| >= 2
    ensures Matches(Tup(vs), ArrayP(ps)).Some? <==>
      |vs| == |ps| && forall i :: 0 <= i < |vs| ==> Matches(vs[i], ps[i]).Some?
    ensures |vs| == |ps| && (forall i :: 0 <= i < |vs| ==> Matches(vs[i], ps[i]).Some?) ==>
      Matches(Tup(vs), ArrayP(ps)) == Some(Concat(ComponentBindings(vs, ps)))
  {
    var p := ArrayP(ps);
    if |vs| == |ps| {
      if forall i :: 0 <= i < |vs| ==> Matches(vs[i], ps[i]).Some? {
        ReduceAllMatch(p, vs, 0, []);
        var cb := ComponentBindings(vs, ps);
        assert cb[0..] == cb;
        assert [] + Concat(cb) == Concat(cb);
        assert Matches(Tup(vs), p) == ReduceComponents(p, vs, 0, Some([]));
      } else {
        var j :| 0 <= j < |vs| && Matches(vs[j], ps[j]).None?;
        ReduceFailsAt(p, vs, 0, Some([]), j);
      }
    }
  }

  // ---------------------------------------------------------------------------
  // Dispatcher

  /** How `_with` reads a clause: with more than two entries, every entry but
      the callback forms a tuple pattern; with two, the first entry is the
      pattern. */
  function ClausePattern(clause: JsClause): (p: JsPattern)
    ensures clause.rest == [] ==> p == clause.first
    ensures clause.rest != [] ==>
      DeterminePatternType(p) == TuplePatternType && p.entries == [clause.first] + clause.rest
  {
    if |clause.rest| == 0 then clause.first else ArrayP([clause.first] + clause.rest)
  }

  /** The first clause from index `from` on whose pattern matches `value`. */
  function SelectFrom(value: Value, clauses: seq<JsClause>, from: nat): (r: Result<Selection>)
    requires from <= |clauses|
    ensures r.Ok? ==>
      from <= r.value.index < |clauses| &&
      Matches(value, ClausePattern(clauses[r.value.index])) == Some(r.value.bindings) &&
      forall j :: from <= j < r.value.index ==> Matches(value, ClausePattern(clauses[j])).None?
    ensures r.Throw? ==>
      r.message == MatchFailedMessage &&
      forall j :: from <= j < |clauses| ==> Matches(value, ClausePattern(clauses[j])).None?
    decreases |clauses| - from
  {
    if from == |clauses| then Throw(MatchFailedMessage)
    else
      match Matches(value, ClausePattern(clauses[from]))
      case Some(bindings) => Ok(Selection(from, bindings))
      case None => SelectFrom(value, clauses, from + 1)
  }

  /** `match(value)._with(...clauses)`: the callback invoked is the one of
      the lowest-index clause that matches, applied to its bindings; when no
      clause matches, the exhaustion error. */
  function Select(value: Value, clauses: seq<JsClause>): (r: Result<Selection>)
    ensures r.Ok? ==>
      r.value.index < |clauses| &&
      Matches(value, ClausePattern(clauses[r.value.index])) == Some(r.value.bindings) &&
      forall j :: 0 <= j < r.value.index ==> Matches(value, ClausePattern(clauses[j])).None?
    ensures r.Throw? <==> forall j :: 0 <= j < |clauses| ==> Matches(value, ClausePattern(clauses[j])).None?
    ensures r.Throw? ==> r.message == MatchFailedMessage
  {
    SelectFrom(value, clauses, 0)
  }

  /** Conversely, a clause that matches when every earlier one fails is the
      one selected, with its own bindings. */
  lemma SelectIsFirstMatch(value: Value, clauses: seq<JsClause>, i: nat)
    requires i < |clauses| && Matches(value, ClausePattern(clauses[i])).Some?
    requires forall j :: 0 <= j < i ==> Matches(value, ClausePattern(clauses[j])).None?
    ensures Select(value, clauses) == Ok(Selection(i, Matches(value, ClausePattern(clauses[i])).value))
  {
  }

  /** `_with`: a `findIndex` whose test invokes the clause's callback as soon
      as its pattern matches and then stops. `r` is the one callback invoked,
      or the error thrown after no clause matched. */
  method With(value: Value, clauses: seq<JsClause>) returns (r: Result<Selection>)
    ensures r == Select(value, clauses)
  {
    var invoked: Option<Selection> := None;
    var found := -1;
    var i := 0;
    while found == -1 && i < |clauses|
      invariant 0 <= i <= |clauses|
      invariant -1 <= found < i
      invariant found == -1 <==> invoked.None?
      invariant found == -1 ==> forall j :: 0 <= j < i ==> Matches(value, ClausePattern(clauses[j])).None?
      invariant found != -1 ==>
        invoked.value.index == found &&
        Matches(value, ClausePattern(clauses[found])) == Some(invoked.value.bindings) &&
        forall j :: 0 <= j < found ==> Matches(value, ClausePattern(clauses[j])).None?
    {
      var pattern := ClausePattern(clauses[i]);
      var bindings := Matches(value, pattern);
      if bindings.Some? {
        invoked := Some(Selection(i, bindings.value));
        found := i;
      }
      i := i + 1;
    }
    if found == -1 {
      return Throw(MatchFailedMessage);
    }
    r := Ok(invoked.value);
  }
}
