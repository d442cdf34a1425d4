/** Runtime values as the matcher sees them, and the result shapes shared by
    both variants of the engine (pattern-match.ts and pattern-match.js). */
module Values {

  /** A runtime value. `Arr` is a JS array; `Tup` is a tuple wrapper (an
      object tagged `_valueType: 'tuple'` in the TS variant, a closure named
      `TupleP` in the JS variant); `Obj` is an object that is not an array
      (a plain object, or `null` in the JS variant), whose `typeof` is
      `'object'`; `Other` stands for every remaining runtime value
      (undefined, a function that is not a tuple). */
  datatype Value =
    | Num(n: int)
    | Str(s: string)
    | Bool(b: bool)
    | Arr(elems: seq<Value>)
    | Tup(comps: seq<Value>)
    | Obj
    | Other

  /** What `typeof` reports for a value, with the tuple wrapper told apart.
      `OtherType` covers every `typeof` answer no branch of the matcher
      inspects. */
  datatype ValueType = NumberType | StringType | BooleanType | ObjectType | TupleType | OtherType

  /** `null` is `None`. */
  datatype Option<T> = None | Some(value: T)

  /** A computation that returns a value or throws an `Error` with a message. */
  datatype Result<T> = Ok(value: T) | Throw(message: string)

  /** The clause a dispatch chose (its position in the argument list) and the
      bindings its handler is applied to. */
  datatype Selection = Selection(index: nat, bindings: seq<Value>)

  const TupleArityMessage := "Tuple should have more than 1 arg"
  const MatchFailedMessage := "Pattern match failed. Maybe you forgot _?"

  /** The binding lists of several sub-matches joined in order. */
  function Concat(bs: seq<seq<Value>>): seq<Value>
  {
    if bs == [] then [] else bs[0] + Concat(bs[1..])
  }

  /** Two binding lists joined. */
  lemma ConcatPair(a: seq<Value>, b: seq<Value>)
    ensures Concat([a, b]) == a + b
  {
    assert [a, b][1..] == [b];
    assert [b][1..] == [];
    assert Concat([b]) == b + Concat([]) == b;
  }

  /** A JS array of numbers. */
  function Nums(xs: seq<int>): (r: seq<Value>)
    ensures |r| == |xs|
    ensures forall i :: 0 <= i < |xs| ==> r[i] == Num(xs[i])
  {
    if xs == [] then [] else [Num(xs[0])] + Nums(xs[1..])
  }
}
