/**
 The factory operations that build expressions, one per operator. Each
 factory's contract states the operator's meaning for every operand, in terms
 independent of how `Eval` computes it.
 */
module Operators {
  import opened Values
  import C = Counting
  import E = Expressions

  /** A field value handed to `Doc`: either an expression or anything else. */
  datatype Candidate = Expression(expr: E.Expr) | Plain(value: Value)

  /** Construction failure: the named fields were given values that are not
      expressions. */
  datatype BuildError = NotAnExpression(fields: set<string>)

  /** The outcome of building a `doc` expression. */
  datatype BuildResult = Success(value: E.Expr) | Failure(error: BuildError)

  /* ---------------- doc ---------------- */

  /** `doc(fields)`: fails to build unless every field value is an
      expression; once built, holds on a mapping exactly when every declared
      field is present and its expression holds on that field's value. */
  function Doc(fields: map<string, Candidate>): (r: BuildResult)
    ensures r.Failure? <==> exists k :: k in fields && fields[k].Plain?
    ensures r.Failure? ==> forall k :: k in r.error.fields <==> k in fields && fields[k].Plain?
    ensures r.Success? ==> forall v: Value :: !v.Mapping? ==> !E.Eval(r.value, v)
    ensures r.Success? ==> forall m, k :: k in fields && k !in m ==> !E.Eval(r.value, Mapping(m))
    ensures r.Success? ==> forall m :: E.Eval(r.value, Mapping(m)) <==>
      forall k :: k in fields ==> k in m && E.Eval(fields[k].expr, m[k])
  {
    if exists k :: k in fields && fields[k].Plain? then
      Failure(NotAnExpression(set k | k in fields && fields[k].Plain?))
    else
      Success(E.Doc(map k | k in fields :: fields[k].expr))
  }

  /* ---------------- leaf operators ---------------- */

  /** `exists()`: holds on every operand. */
  function Exists(): (r: E.Expr)
    ensures forall v :: E.Eval(r, v)
  {
    E.Exists
  }

  /** `not(e)`: holds exactly where `e` fails. */
  function Not(e: E.Expr): (r: E.Expr)
    ensures forall v :: E.Eval(r, v) <==> !E.Eval(e, v)
  {
    E.Not(e)
  }

  /** `type(name)`: holds exactly on the values of the variant `name` names;
      an unknown name holds nowhere. */
  function Type(name: string): (r: E.Expr)
    ensures forall v, w :: E.Eval(r, v) && E.Eval(r, w) ==> KindOf(v) == KindOf(w)
    ensures name == "null" ==> forall v :: E.Eval(r, v) <==> v.Null?
    ensures name == "bool" || name == "boolean" ==> forall v :: E.Eval(r, v) <==> v.Bool?
    ensures name == "int" || name == "integer" ==> forall v :: E.Eval(r, v) <==> v.Int?
    ensures name == "string" ==> forall v :: E.Eval(r, v) <==> v.Str?
    ensures name == "array" ==> forall v :: E.Eval(r, v) <==> v.List? || v.Mapping?
    ensures name == "object" ==> forall v :: E.Eval(r, v) <==> v.Object?
    ensures name !in {"null", "bool", "boolean", "int", "integer", "string", "array", "object"} ==>
      forall v :: !E.Eval(r, v)
  {
    E.Type(name)
  }

  /** `in(candidates)`: holds exactly when the operand structurally equals
      some candidate. */
  function In(candidates: seq<Value>): (r: E.Expr)
    ensures forall v :: E.Eval(r, v) <==> exists i :: 0 <= i < |candidates| && Similar(v, candidates[i])
  {
    InMeaning(candidates);
    E.In(candidates)
  }

  lemma InMeaning(candidates: seq<Value>)
    ensures forall v :: E.Eval(E.In(candidates), v) <==>
      exists i :: 0 <= i < |candidates| && Similar(v, candidates[i])
  {
    forall v ensures E.Eval(E.In(candidates), v) <==>
      exists i :: 0 <= i < |candidates| && Similar(v, candidates[i])
    {
      forall i | 0 <= i < |candidates| {
        ContentEqualIffSimilar(v, candidates[i]);
      }
    }
  }

  /** `regexp(pattern)`, with `matches` the caller-supplied compiled form of
      `pattern`: holds on a string exactly when it matches, never on any
      other operand. */
  function Regexp(pattern: string, matches: string -> bool): (r: E.Expr)
    ensures forall v: Value :: !v.Str? ==> !E.Eval(r, v)
    ensures forall s :: E.Eval(r, Str(s)) <==> matches(s)
  {
    E.Regexp(pattern, matches)
  }

  /** `equals(target)`: holds exactly on the operands structurally equal to
      `target`, whatever their object identities. */
  function Equals(target: Value): (r: E.Expr)
    ensures forall v :: E.Eval(r, v) <==> Similar(v, target)
  {
    EqualsMeaning(target);
    E.Equals(target)
  }

  lemma EqualsMeaning(target: Value)
    ensures forall v :: E.Eval(E.Equals(target), v) <==> Similar(v, target)
  {
    forall v ensures E.Eval(E.Equals(target), v) <==> Similar(v, target) {
      ContentEqualIffSimilar(v, target);
    }
  }

  /** `same(target)`: holds only on `target` itself; it implies structural
      equality, and an object with another identity is never the same, even
      with equal properties. */
  function Same(target: Value): (r: E.Expr)
    ensures E.Eval(r, target)
    ensures forall v :: E.Eval(r, v) ==> Similar(v, target)
    ensures forall v: Value :: v.Object? && target.Object? && v.id != target.id ==> !E.Eval(r, v)
    ensures forall v :: E.Eval(r, v) ==> v == target
  {
    SimilarIsEquivalence(target, target, target);
    E.Same(target)
  }

  /* ---------------- ordering comparisons ---------------- */

  /** `greaterThan(bound)`: integer or lexicographic `operand > bound`; false
      on operands that cannot be compared with `bound`. */
  function GreaterThan(bound: Value): (r: E.Expr)
    ensures forall v :: !Comparable(v, bound) ==> !E.Eval(r, v)
    ensures bound.Int? ==> forall n :: E.Eval(r, Int(n)) <==> n > bound.i
    ensures bound.Str? ==> forall s :: E.Eval(r, Str(s)) <==> LexLess(bound.s, s)
  {
    E.Compare(E.Greater, bound)
  }

  /** `greaterThanOrEquals(bound)`: `operand >= bound`. */
  function GreaterThanOrEquals(bound: Value): (r: E.Expr)
    ensures forall v :: !Comparable(v, bound) ==> !E.Eval(r, v)
    ensures bound.Int? ==> forall n :: E.Eval(r, Int(n)) <==> n >= bound.i
    ensures bound.Str? ==> forall s :: E.Eval(r, Str(s)) <==> LexLess(bound.s, s) || s == bound.s
  {
    StringOrderMeaning(bound);
    E.Compare(E.GreaterOrEqual, bound)
  }

  /** `lessThan(bound)`: `operand < bound`. */
  function LessThan(bound: Value): (r: E.Expr)
    ensures forall v :: !Comparable(v, bound) ==> !E.Eval(r, v)
    ensures bound.Int? ==> forall n :: E.Eval(r, Int(n)) <==> n < bound.i
    ensures bound.Str? ==> forall s :: E.Eval(r, Str(s)) <==> LexLess(s, bound.s)
  {
    E.Compare(E.Less, bound)
  }

  /** `lessThanOrEquals(bound)`: `operand <= bound`. */
  function LessThanOrEquals(bound: Value): (r: E.Expr)
    ensures forall v :: !Comparable(v, bound) ==> !E.Eval(r, v)
    ensures bound.Int? ==> forall n :: E.Eval(r, Int(n)) <==> n <= bound.i
    ensures bound.Str? ==> forall s :: E.Eval(r, Str(s)) <==> LexLess(s, bound.s) || s == bound.s
  {
    StringOrderMeaning(bound);
    E.Compare(E.LessOrEqual, bound)
  }

  /** On strings, "not below" is "above or equal". */
  lemma StringOrderMeaning(bound: Value)
    ensures bound.Str? ==> forall s :: !LexLess(s, bound.s) <==> LexLess(bound.s, s) || s == bound.s
  {
    if bound.Str? {
      forall s ensures !LexLess(s, bound.s) <==> LexLess(bound.s, s) || s == bound.s {
        LexLessTrichotomy(s, bound.s);
        LexLessIrreflexive(s);
      }
    }
  }

  /* ---------------- logical combinators ---------------- */

  /** `all(children)`: every child holds (vacuously true with no children). */
  function All(children: seq<E.Expr>): (r: E.Expr)
    ensures forall v :: E.Eval(r, v) <==> forall i :: 0 <= i < |children| ==> E.Eval(children[i], v)
  {
    E.CombineMeaning(C.AllOf, children);
    E.Combine(C.AllOf, children)
  }

  /** `atLeastOne(children)`: some child holds (false with no children). */
  function AtLeastOne(children: seq<E.Expr>): (r: E.Expr)
    ensures forall v :: E.Eval(r, v) <==> exists i :: 0 <= i < |children| && E.Eval(children[i], v)
  {
    E.CombineMeaning(C.AtLeastOne, children);
    E.Combine(C.AtLeastOne, children)
  }

  /** The positions of the children that hold on `v`. */
  ghost function Holding(children: seq<E.Expr>, v: Value): set<int>
  {
    set i | 0 <= i < |children| && E.Eval(children[i], v)
  }

  /** `exactly(k, children)`: the number of children that hold is `k`. */
  function Exactly(k: int, children: seq<E.Expr>): (r: E.Expr)
    ensures forall v :: E.Eval(r, v) <==> |Holding(children, v)| == k
  {
    ExactlyMeaning(k, children);
    E.Combine(C.ExactlyN(k), children)
  }

  lemma ExactlyMeaning(k: int, children: seq<E.Expr>)
    ensures forall v :: E.Eval(E.Combine(C.ExactlyN(k), children), v) <==>
      |Holding(children, v)| == k
  {
    forall v ensures E.Eval(E.Combine(C.ExactlyN(k), children), v) <==>
      |Holding(children, v)| == k
    {
      var bs := E.Verdicts(children, v);
      C.AggregateMeaning(C.ExactlyN(k), bs);
      assert C.TrueIndices(bs) == Holding(children, v);
    }
  }

  /** `none(children)`: no child holds. */
  function None(children: seq<E.Expr>): (r: E.Expr)
    ensures forall v :: E.Eval(r, v) <==> forall i :: 0 <= i < |children| ==> !E.Eval(children[i], v)
  {
    E.CombineMeaning(C.NoneOf, children);
    E.Combine(C.NoneOf, children)
  }

  /** `one(children)`: exactly one child holds. */
  function One(children: seq<E.Expr>): (r: E.Expr)
    ensures forall v :: E.Eval(r, v) <==>
      exists i :: 0 <= i < |children| && E.Eval(children[i], v) &&
        forall j :: 0 <= j < |children| && E.Eval(children[j], v) ==> j == i
  {
    E.CombineMeaning(C.OneOf, children);
    E.Combine(C.OneOf, children)
  }

  /* ---------------- list quantifiers ---------------- */

  /** `listAll(each)`: the operand is a list and `each` holds on every
      element (vacuously true on the empty list). */
  function ListAll(each: E.Expr): (r: E.Expr)
    ensures forall v: Value :: !v.List? ==> !E.Eval(r, v)
    ensures forall xs :: E.Eval(r, List(xs)) <==> forall i :: 0 <= i < |xs| ==> E.Eval(each, xs[i])
  {
    E.ListMeaning(C.AllOf, each);
    E.ListOf(C.AllOf, each)
  }

  /** `listAtLeastOne(each)`: the operand is a list with an element on which
      `each` holds. */
  function ListAtLeastOne(each: E.Expr): (r: E.Expr)
    ensures forall v: Value :: !v.List? ==> !E.Eval(r, v)
    ensures forall xs :: E.Eval(r, List(xs)) <==> exists i :: 0 <= i < |xs| && E.Eval(each, xs[i])
  {
    E.ListMeaning(C.AtLeastOne, each);
    E.ListOf(C.AtLeastOne, each)
  }

  /** The positions of the elements on which `each` holds. */
  ghost function HoldingElements(each: E.Expr, xs: seq<Value>): set<int>
  {
    set i | 0 <= i < |xs| && E.Eval(each, xs[i])
  }

  /** `listExactly(k, each)`: the operand is a list with exactly `k`
      elements on which `each` holds. */
  function ListExactly(k: int, each: E.Expr): (r: E.Expr)
    ensures forall v: Value :: !v.List? ==> !E.Eval(r, v)
    ensures forall xs :: E.Eval(r, List(xs)) <==> |HoldingElements(each, xs)| == k
  {
    ListExactlyMeaning(k, each);
    E.ListOf(C.ExactlyN(k), each)
  }

  lemma ListExactlyMeaning(k: int, each: E.Expr)
    ensures forall xs :: E.Eval(E.ListOf(C.ExactlyN(k), each), List(xs)) <==>
      |HoldingElements(each, xs)| == k
  {
    forall xs ensures E.Eval(E.ListOf(C.ExactlyN(k), each), List(xs)) <==>
      |HoldingElements(each, xs)| == k
    {
      var bs := E.Mapped(each, xs);
      C.AggregateMeaning(C.ExactlyN(k), bs);
      assert C.TrueIndices(bs) == HoldingElements(each, xs);
    }
  }

  /** `listNone(each)`: the operand is a list and `each` holds on none of
      its elements. */
  function ListNone(each: E.Expr): (r: E.Expr)
    ensures forall v: Value :: !v.List? ==> !E.Eval(r, v)
    ensures forall xs :: E.Eval(r, List(xs)) <==> forall i :: 0 <= i < |xs| ==> !E.Eval(each, xs[i])
  {
    E.ListMeaning(C.NoneOf, each);
    E.ListOf(C.NoneOf, each)
  }

  /** `listOne(each)`: the operand is a list and `each` holds on exactly one
      of its elements. */
  function ListOne(each: E.Expr): (r: E.Expr)
    ensures forall v: Value :: !v.List? ==> !E.Eval(r, v)
    ensures forall xs :: E.Eval(r, List(xs)) <==>
      exists i :: 0 <= i < |xs| && E.Eval(each, xs[i]) &&
        forall j :: 0 <= j < |xs| && E.Eval(each, xs[j]) ==> j == i
  {
    E.ListMeaning(C.OneOf, each);
    E.ListOf(C.OneOf, each)
  }
}
