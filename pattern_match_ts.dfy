/** The later variant of the engine (pattern-match.ts): patterns are records
    tagged by `_patternType`, tuple values are records tagged by `_valueType`. */
module PatternMatchTs {
  import opened Values

  /** A pattern descriptor; each constructor is one `_patternType` tag. A
      `Cons` pattern keeps only the number of its slot names. */
  datatype Pattern =
    | WildP                            // '_'
    | VariableP                        // 'VariableP'
    | ConstP(literal: Value)           // 'ConstP'
    | ConsP(arity: nat)                // 'ConsP'
    | TupleP(components: seq<Pattern>) // 'TupleP'

  /** What `determineValueAndType` returns: a type tag and the data to inspect. */
  datatype Classified = Classified(valueType: ValueType, data: Value)

  // ---------------------------------------------------------------------------
  // Pattern constructors

  /** The shared wildcard pattern `_`. */
  const Wildcard: Pattern := WildP

  function Const(a: Value): Pattern
  {
    ConstP(a)
  }

  /** The name is for the reader only; bindings are positional. */
  function Variable(name: string): Pattern
  {
    VariableP
  }

  /** Only the number of slot names matters: `k - 1` heads and one tail. */
  function Cons(slots: seq<string>): Pattern
  {
    ConsP(|slots|)
  }

  function Tuple(components: seq<Pattern>): Pattern
  {
    TupleP(components)
  }

  /** Builds a tuple value; fewer than two components is a construction error.
      The result is a tuple to the classifier, not an array. */
  function MakeTuple(args: seq<Value>): (r: Result<Value>)
    ensures r.Throw? <==> |args| <= 1
    ensures r.Throw? ==> r.message == TupleArityMessage
    ensures r.Ok? ==> DetermineValueAndType(r.value) == Classified(TupleType, Arr(args))
  {
    if |args| <= 1 then Throw(TupleArityMessage) else Ok(Tup(args))
  }

  // ---------------------------------------------------------------------------
  // Value classifier

  /** A tagged tuple is returned as it is (its data is its component list);
      every other value is paired with its `typeof`. */
  function DetermineValueAndType(value: Value): (r: Classified)
    ensures r.valueType == NumberType <==> value.Num?
    ensures r.valueType == StringType <==> value.Str?
    ensures r.valueType == BooleanType <==> value.Bool?
    ensures r.valueType == TupleType <==> value.Tup?
    ensures r.valueType == ObjectType <==> value.Arr? || value.Obj?
    ensures value.Tup? ==> r.data == Arr(value.comps)
    ensures !value.Tup? ==> r.data == value
  {
    match value
    case Num(_) => Classified(NumberType, value)
    case Str(_) => Classified(StringType, value)
    case Bool(_) => Classified(BooleanType, value)
    case Arr(_) => Classified(ObjectType, value)
    case Tup(comps) => Classified(TupleType, Arr(comps))
    case Obj => Classified(ObjectType, value)
    case Other => Classified(OtherType, value)
  }

  // ---------------------------------------------------------------------------
  // Matcher

  /** The bindings of `pattern` against `value`, or `None` for `null`. */
  function Matches(value: Value, pattern: Pattern): Option<seq<Value>>
    decreases pattern, 1, 0
  {
    var Classified(valueType, data) := DetermineValueAndType(value);
    if pattern.WildP? then Some([])
    else if pattern.VariableP? then Some([value])
    else
      match valueType
      case NumberType | StringType =>
        if pattern.ConstP? && pattern.literal == data then Some([]) else None
      case ObjectType =>
        if data.Arr? && pattern.ConsP? then MatchCons(data.elems, pattern.arity) else None
      case TupleType =>
        if pattern.TupleP? && |pattern.components| == |data.elems| then
          ReduceComponents(pattern, data.elems, 0, Some([]))
        else None
      case _ => None
  }

  /** The `ConsP` branch on an array of `|data|` elements and a pattern of
      `length` slots. */
  function MatchCons(data: seq<Value>, length: nat): Option<seq<Value>>
  {
    if |data| <= 1 && length <= 1 && |data| == length then Some(data)
    else if |data| > 1 && length > 1 && |data| >= length - 1 then
      Some(data[..length - 1] + [Arr(data[length - 1..])])
    else None
  }

  /** The `reduce` over a tuple's components from index `i` on, with
      accumulator `acc`: each step matches one component and appends its
      bindings; once the accumulator is `null` the remaining steps keep it
      `null` without matching. */
  function ReduceComponents(pattern: Pattern, data: seq<Value>, i: nat, acc: Option<seq<Value>>): Option<seq<Value>>
    requires pattern.TupleP? && |pattern.components| == |data| && i <= |data|
    decreases pattern, 0, |data| - i
  {
    if i == |data| then acc
    else
      var next :=
        if acc.Some? then
          var newBindings := Matches(data[i], pattern.components[i]);
          if newBindings.Some? then Some(acc.value + newBindings.value) else None
        else None;
      ReduceComponents(pattern, data, i + 1, next)
  }

  /** The bindings of each component, when every component matches. */
  function ComponentBindings(vs: seq<Value>, ps: seq<Pattern>): seq<seq<Value>>
    requires |vs| == |ps|
    requires forall i :: 0 <= i < |vs| ==> Matches(vs[i], ps[i]).Some?
  {
    seq(|vs|, i requires 0 <= i < |vs| => Matches(vs[i], ps[i]).value)
  }

  // ---------------------------------------------------------------------------
  // Properties of the matcher

  /** `_` accepts every value and binds nothing. */
  lemma WildcardMatchesAll(v: Value)
    ensures Matches(v, Wildcard) == Some([])
  {
  }

  /** `Variable` accepts every value and binds exactly that value. */
  lemma VariableBindsValue(v: Value, name: string)
    ensures Matches(v, Variable(name)) == Some([v])
  {
  }

  /** `Const(c)` accepts exactly the number or string equal to `c` and binds
      nothing; arrays, tuples, booleans and other values never match. */
  lemma ConstMatches(v: Value, c: Value)
    ensures Matches(v, Const(c)) == if (v.Num? || v.Str?) && v == c then Some([]) else None
  {
  }

  /** `Cons` with at most one slot: arity 0 matches only `[]`, arity 1 only a
      one-element array, binding its element; no array of two or more
      elements matches. */
  lemma ConsShortArity(xs: seq<Value>, k: nat)
    requires k <= 1
    ensures Matches(Arr(xs), ConsP(k)).Some? <==> |xs| == k
    ensures |xs| == k ==> Matches(Arr(xs), ConsP(k)) == Some(xs)
  {
  }

  /** `Cons` with `k >= 2` slots matches an array of `n` elements iff
      `n >= 2` and `n >= k - 1`; it then binds the first `k - 1` elements and
      the array of the rest, which together give back the array. */
  lemma ConsLongArity(xs: seq<Value>, k: nat)
    requires k >= 2
    ensures Matches(Arr(xs), ConsP(k)).Some? <==> |xs| >= 2 && |xs| >= k - 1
    ensures Matches(Arr(xs), ConsP(k)).Some? ==>
      var b := Matches(Arr(xs), ConsP(k)).value;
      b == xs[..k - 1] + [Arr(xs[k - 1..])] &&
      |b| == k && b[k - 1].Arr? && b[..k - 1] + b[k - 1].elems == xs
  {
  }

  /** Only arrays match `Cons` and only tuples match `Tuple`. */
  lemma ShapeRequired(v: Value, p: Pattern)
    ensures p.ConsP? && !v.Arr? ==> Matches(v, p) == None
    ensures p.TupleP? && !v.Tup? ==> Matches(v, p) == None
  {
  }

  /** Once the accumulator is `null` the fold stays `null`. */
  lemma {:induction false} ReduceStaysNull(p: Pattern, data: seq<Value>, i: nat)
    requires p.TupleP? && |p.components| == |data| && i <= |data|
    ensures ReduceComponents(p, data, i, None) == None
    decreases |data| - i
  {
    if i < |data| {
      ReduceStaysNull(p, data, i + 1);
    }
  }

  /** A component that fails at or after index `i` makes the fold `null`. */
  lemma {:induction false} ReduceFailsAt(p: Pattern, data: seq<Value>, i: nat, acc: Option<seq<Value>>, j: nat)
    requires p.TupleP? && |p.components| == |data| && i <= j < |data|
    requires Matches(data[j], p.components[j]).None?
    ensures ReduceComponents(p, data, i, acc) == None
    decreases |data| - i
  {
    if i == j {
      ReduceStaysNull(p, data, i + 1);
    } else {
      var next :=
        if acc.Some? && Matches(data[i], p.components[i]).Some? then
          Some(acc.value + Matches(data[i], p.components[i]).value)
        else None;
      ReduceFailsAt(p, data, i + 1, next, j);
    }
  }

  /** When every component matches, the fold appends the component bindings
      from index `i` on, in order, to the accumulator. */
  lemma {:induction false} ReduceAllMatch(p: Pattern, data: seq<Value>, i: nat, acc: seq<Value>)
    requires p.TupleP? && |p.components| == |data| && i <= |data|
    requires forall j :: 0 <= j < |data| ==> Matches(data[j], p.components[j]).Some?
    ensures ReduceComponents(p, data, i, Some(acc)) == Some(acc + Concat(ComponentBindings(data, p.components)[i..]))
    decreases |data| - i
  {
    var cb := ComponentBindings(data, p.components);
    if i == |data| {
      assert cb[i..] == [];
      assert acc + Concat(cb[i..]) == acc;
    } else {
      assert cb[i..] == [cb[i]] + cb[i + 1..];
      assert Concat(cb[i..]) == cb[i] + Concat(cb[i + 1..]);
      assert cb[i] == Matches(data[i], p.components[i]).value;
      assert ReduceComponents(p, data, i, Some(acc)) == ReduceComponents(p, data, i + 1, Some(acc + cb[i]));
      ReduceAllMatch(p, data, i + 1, acc + cb[i]);
      assert acc + cb[i] + Concat(cb[i + 1..]) == acc + Concat(cb[i..]);
    }
  }

  /** A tuple pattern matches a tuple value iff they have as many components
      and every component matches; the bindings are the component bindings
      concatenated in order. */
  lemma TupleMatches(vs: seq<Value>, ps: seq<Pattern>)
    ensures Matches(Tup(vs), Tuple(ps)).Some? <==>
      |vs| == |ps| && forall i :: 0 <= i < |vs| ==> Matches(vs[i], ps[i]).Some?
    ensures |vs| == |ps| && (forall i :: 0 <= i < |vs| ==> Matches(vs[i], ps[i]).Some?) ==>
      Matches(Tup(vs), Tuple(ps)) == Some(Concat(ComponentBindings(vs, ps)))
  {
    var p := TupleP(ps);
    if |vs| == |ps| {
      if forall i :: 0 <= i < |vs| ==> Matches(vs[i], ps[i]).Some? {
        ReduceAllMatch(p, vs, 0, []);
        var cb := ComponentBindings(vs, ps);
        assert cb[0..] == cb;
        assert [] + Concat(cb) == Concat(cb);
        assert Matches(Tup(vs), p) == ReduceComponents(p, vs, 0, Some([]));
      } else {
        var j :| 0 <= j < |vs| && Matches(vs[j], ps[j]).None?;
        ReduceFailsAt(p, vs, 0, Some([]), j);
      }
    }
  }

  // ---------------------------------------------------------------------------
  // Dispatcher

  /** The first clause from index `from` on whose pattern matches `value`. */
  function SelectFrom(value: Value, clauses: seq<Pattern>, from: nat): (r: Result<Selection>)
    requires from <= |clauses|
    ensures r.Ok? ==>
      from <= r.value.index < |clauses| &&
      Matches(value, clauses[r.value.index]) == Some(r.value.bindings) &&
      forall j :: from <= j < r.value.index ==> Matches(value, clauses[j]).None?
    ensures r.Throw? ==>
      r.message == MatchFailedMessage &&
      forall j :: from <= j < |clauses| ==> Matches(value, clauses[j]).None?
    decreases |clauses| - from
  {
    if from == |clauses| then Throw(MatchFailedMessage)
    else
      match Matches(value, clauses[from])
      case Some(bindings) => Ok(Selection(from, bindings))
      case None => SelectFrom(value, clauses, from + 1)
  }

  /** `match(value)._with(...clauses)` with each handler replaced by its
      position: the lowest-index clause that matches, with its bindings, or
      the exhaustion error when none does. */
  function Select(value: Value, clauses: seq<Pattern>): (r: Result<Selection>)
    ensures r.Ok? ==>
      r.value.index < |clauses| &&
      Matches(value, clauses[r.value.index]) == Some(r.value.bindings) &&
      forall j :: 0 <= j < r.value.index ==> Matches(value, clauses[j]).None?
    ensures r.Throw? <==> forall j :: 0 <= j < |clauses| ==> Matches(value, clauses[j]).None?
    ensures r.Throw? ==> r.message == MatchFailedMessage
  {
    SelectFrom(value, clauses, 0)
  }

  /** Conversely, a clause that matches when every earlier one fails is the
      one selected, with its own bindings. */
  lemma SelectIsFirstMatch(value: Value, clauses: seq<Pattern>, i: nat)
    requires i < |clauses| && Matches(value, clauses[i]).Some?
    requires forall j :: 0 <= j < i ==> Matches(value, clauses[j]).None?
    ensures Select(value, clauses) == Ok(Selection(i, Matches(value, clauses[i]).value))
  {
  }

  /** `_with`: a `findIndex` over the clauses that reassigns `bindings` at
      every clause it tries, then throws or applies the found handler to the
      last bindings it computed. */
  method With(value: Value, clauses: seq<Pattern>) returns (r: Result<Selection>)
    ensures r == Select(value, clauses)
  {
    var bindings: Option<seq<Value>> := None;
    var found := -1;
    var i := 0;
    while found == -1 && i < |clauses|
      invariant 0 <= i <= |clauses|
      invariant -1 <= found < i
      invariant found == -1 ==> forall j :: 0 <= j < i ==> Matches(value, clauses[j]).None?
      invariant found != -1 ==>
        found == i - 1 && bindings == Matches(value, clauses[found]) && bindings.Some? &&
        forall j :: 0 <= j < found ==> Matches(value, clauses[j]).None?
    {
      bindings := Matches(value, clauses[i]);
      if bindings.Some? {
        found := i;
      }
      i := i + 1;
    }
    if found == -1 {
      return Throw(MatchFailedMessage);
    }
    var args := match bindings case Some(b) => b case None => [];
    r := Ok(Selection(found, args));
  }
}
