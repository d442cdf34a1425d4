/** How the two variants of the matcher relate: the patterns on which their
    rules coincide, and the inputs that tell them apart. */
module VariantComparison {
  import opened Values
  import Ts = PatternMatchTs
  import Js = PatternMatchJs

  /** A later-variant pattern written in the earlier variant's terms; a tuple
      pattern becomes the array of its components. */
  function ToJs(p: Ts.Pattern): Js.JsPattern
  {
    match p
    case WildP => Js.WildP
    case VariableP => Js.VariableP
    case ConstP(c) => Js.ConstP(c)
    case ConsP(k) => Js.ConsP(k)
    case TupleP(ps) => Js.ArrayP(seq(|ps|, i requires 0 <= i < |ps| => ToJs(ps[i])))
  }

  /** Patterns that avoid every rule on which the variants differ: no
      literal (the earlier one binds it), no `Cons` of one or two slots (the
      earlier one accepts shorter arrays), no tuple of fewer than two
      components (the earlier one has no such pattern). */
  predicate Portable(p: Ts.Pattern)
  {
    match p
    case WildP => true
    case VariableP => true
    case ConstP(_) => false
    case ConsP(k) => k == 0 || k >= 3
    case TupleP(ps) => |ps| >= 2 && forall i :: 0 <= i < |ps| ==> Portable(ps[i])
  }

  /** On portable patterns both variants give the same result on every value. */
  lemma {:induction false} PortableAgree(v: Value, p: Ts.Pattern)
    requires Portable(p)
    ensures Ts.Matches(v, p) == Js.Matches(v, ToJs(p))
    decreases p
  {
    match p
    case WildP =>
    case VariableP =>
    case ConsP(k) =>
      if v.Arr? {
        if k == 0 {
          Ts.ConsShortArity(v.elems, 0);
          Js.ConsEmpty(v.elems);
        } else {
          Ts.ConsLongArity(v.elems, k);
          Js.ConsNonEmpty(v.elems, k);
        }
      } else {
        Ts.ShapeRequired(v, p);
        Js.ShapeRequired(v, ToJs(p));
      }
    case TupleP(ps) =>
      var qs := ToJs(p).entries;
      if v.Tup? {
        var vs := v.comps;
        Ts.TupleMatches(vs, ps);
        Js.TupleMatches(vs, qs);
        if |vs| == |ps| {
          forall i | 0 <= i < |vs|
            ensures Ts.Matches(vs[i], ps[i]) == Js.Matches(vs[i], qs[i])
          {
            PortableAgree(vs[i], ps[i]);
          }
          if forall i :: 0 <= i < |vs| ==> Ts.Matches(vs[i], ps[i]).Some? {
            assert Ts.ComponentBindings(vs, ps) == Js.ComponentBindings(vs, qs);
          }
        }
      } else {
        Ts.ShapeRequired(v, p);
        Js.ShapeRequired(v, ToJs(p));
      }
  }

  /** A literal matches the same values in both variants; only the later one
      drops the matched value from the bindings. */
  lemma ConstBindingDiffers(v: Value)
    requires v.Num? || v.Str?
    ensures Ts.Matches(v, Ts.Const(v)) == Some([])
    ensures Js.Matches(v, Js.Const(v)) == Some([v])
  {
  }

  /** On a one-element array, `Cons('h','t')` fails in the later variant and
      binds the element and `[]` in the earlier one. */
  lemma TwoSlotsOnSingleton(x: Value)
    ensures Ts.Matches(Arr([x]), Ts.Cons(["h", "t"])) == None
    ensures Js.Matches(Arr([x]), Js.Cons(["h", "t"])) == Some([x, Arr([])])
  {
    Ts.ConsLongArity([x], 2);
    Js.ConsNonEmpty([x], 2);
    assert [x][..1] + [Arr([x][1..])] == [x] + [Arr([])] == [x, Arr([])];
  }

  /** With one slot, the later variant accepts only a one-element array and
      binds its element; the earlier one accepts any non-empty array and
      binds the whole array. */
  lemma OneSlotDiffers(xs: seq<Value>)
    requires |xs| >= 1
    ensures Ts.Matches(Arr(xs), Ts.Cons(["x"])) == if |xs| == 1 then Some(xs) else None
    ensures Js.Matches(Arr(xs), Js.Cons(["x"])) == Some([Arr(xs)])
  {
    Ts.ConsShortArity(xs, 1);
    Js.ConsNonEmpty(xs, 1);
  }
}
