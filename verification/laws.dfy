/**
 Laws relating the operators to one another: negation, equality versus
 identity, the exact-count combinator versus the others, the list
 quantifiers on degenerate operands, and the ordering comparisons.
 */
module Laws {
  import opened Values
  import C = Counting
  import E = Expressions
  import opened Operators

  /* ---------------- exists and not ---------------- */

  /** `not(exists())` holds nowhere. */
  lemma NotExistsNeverHolds(v: Value)
    ensures !E.Eval(Not(Exists()), v)
  {
  }

  /** `not(not(e))` agrees with `e` on every operand. */
  lemma DoubleNegation(e: E.Expr, v: Value)
    ensures E.Eval(Not(Not(e)), v) == E.Eval(e, v)
  {
  }

  /* ---------------- equals, same and in ---------------- */

  /** Structural equality is an equivalence relation on operands. */
  lemma EqualsIsEquivalence(x: Value, y: Value, z: Value)
    ensures E.Eval(Equals(x), x)
    ensures E.Eval(Equals(x), y) ==> E.Eval(Equals(y), x)
    ensures E.Eval(Equals(x), y) && E.Eval(Equals(y), z) ==> E.Eval(Equals(x), z)
  {
  }

  /** Whatever is the same as `x` also equals `x`. */
  lemma SameImpliesEquals(x: Value, v: Value)
    ensures E.Eval(Same(x), v) ==> E.Eval(Equals(x), v)
  {
  }

  /** Two distinct instances with the same properties are equal but not the same. */
  lemma DistinctInstancesEqualButNotSame(a: Value, b: Value)
    requires a.Object? && b.Object? && a.props == b.props && a.id != b.id
    ensures E.Eval(Equals(a), b)
    ensures !E.Eval(Same(a), b)
  {
  }

  /** `in(candidates)` is the disjunction of `equals` over the candidates. */
  lemma InIsSomeEquals(candidates: seq<Value>, v: Value)
    ensures E.Eval(In(candidates), v) <==> exists i :: 0 <= i < |candidates| && E.Eval(Equals(candidates[i]), v)
  {
  }

  /* ---------------- counting combinators ---------------- */

  /** The children that hold, as counted by the shared counting routine. */
  lemma HoldingIsCounted(children: seq<E.Expr>, v: Value)
    ensures |Holding(children, v)| == C.CountTrue(E.Verdicts(children, v))
    ensures |Holding(children, v)| <= |children|
  {
    var bs := E.Verdicts(children, v);
    assert C.TrueIndices(bs) == Holding(children, v);
    C.CountIsCardinality(bs);
    C.CountIsTotalIffAll(bs);
  }

  /** `exactly(n, children)` with `n` the number of children is `all(children)`. */
  lemma ExactlyAllIsAll(children: seq<E.Expr>, v: Value)
    ensures E.Eval(Exactly(|children|, children), v) == E.Eval(All(children), v)
  {
  }

  /** `exactly(0, children)` is `none(children)`. */
  lemma ExactlyZeroIsNone(children: seq<E.Expr>, v: Value)
    ensures E.Eval(Exactly(0, children), v) == E.Eval(None(children), v)
  {
  }

  /** `exactly(1, children)` is `one(children)`. */
  lemma ExactlyOneIsOne(children: seq<E.Expr>, v: Value)
    ensures E.Eval(Exactly(1, children), v) == E.Eval(One(children), v)
  {
    var h := Holding(children, v);
    if i :| 0 <= i < |children| && E.Eval(children[i], v) {
      assert i in h;
      C.SizeOneIsSingleton(h, i);
      if |h| == 1 {
        forall j | 0 <= j < |children| && E.Eval(children[j], v) ensures j == i {
          assert j in h;
        }
      }
      if E.Eval(One(children), v) {
        assert h == {i};
      }
    } else {
      assert h == {};
    }
  }

  /** `none` is the negation of `atLeastOne`. */
  lemma NoneIsNotAtLeastOne(children: seq<E.Expr>, v: Value)
    ensures E.Eval(None(children), v) == !E.Eval(AtLeastOne(children), v)
  {
  }

  /** With no children, `all` and `none` hold and the others fail. */
  lemma EmptyCombinators(v: Value)
    ensures E.Eval(All([]), v) && E.Eval(None([]), v)
    ensures !E.Eval(AtLeastOne([]), v) && !E.Eval(One([]), v)
  {
  }

  /* ---------------- list quantifiers ---------------- */

  /** On an operand that is not a list, every list quantifier fails,
      whatever the inner expression and count. */
  lemma ListQuantifiersRejectNonLists(each: E.Expr, k: int, v: Value)
    requires !v.List?
    ensures !E.Eval(ListAll(each), v)
    ensures !E.Eval(ListAtLeastOne(each), v)
    ensures !E.Eval(ListExactly(k, each), v)
    ensures !E.Eval(ListNone(each), v)
    ensures !E.Eval(ListOne(each), v)
  {
  }

  /** On the empty list, `listAll` and `listNone` hold vacuously and
      `listAtLeastOne` and `listOne` fail. */
  lemma ListQuantifiersOnEmptyList(each: E.Expr)
    ensures E.Eval(ListAll(each), List([]))
    ensures E.Eval(ListNone(each), List([]))
    ensures !E.Eval(ListAtLeastOne(each), List([]))
    ensures !E.Eval(ListOne(each), List([]))
  {
  }

  /** `listExactly(n, each)` on a list of length `n` is `listAll(each)`. */
  lemma ListExactlyLengthIsListAll(each: E.Expr, xs: seq<Value>)
    ensures E.Eval(ListExactly(|xs|, each), List(xs)) == E.Eval(ListAll(each), List(xs))
  {
  }

  /** For every policy, a list quantifier over a list agrees with the
      combinator of the same policy over any children whose verdicts on `v`
      are the element verdicts: both go through one counting routine. */
  lemma ListMirrorsCombinator(p: C.Policy, each: E.Expr, xs: seq<Value>, children: seq<E.Expr>, v: Value)
    requires |children| == |xs|
    requires forall i :: 0 <= i < |xs| ==> (E.Eval(children[i], v) <==> E.Eval(each, xs[i]))
    ensures E.Eval(E.ListOf(p, each), List(xs)) == E.Eval(E.Combine(p, children), v)
  {
    assert E.Mapped(each, xs) == E.Verdicts(children, v);
  }

  /* ---------------- doc ---------------- */

  /** `doc` looks only at its declared fields: two mappings that agree on
      them get the same verdict. */
  lemma DocIgnoresUndeclaredFields(fields: map<string, Candidate>, m: map<string, Value>, m': map<string, Value>)
    requires Doc(fields).Success?
    requires forall k :: k in fields ==> (k in m <==> k in m')
    requires forall k :: k in fields && k in m ==> m[k] == m'[k]
    ensures E.Eval(Doc(fields).value, Mapping(m)) == E.Eval(Doc(fields).value, Mapping(m'))
  {
  }

  /* ---------------- type ---------------- */

  /** Every operand has a type name that `type` accepts for it. */
  lemma EveryValueHasAType(v: Value)
    ensures exists name :: E.Eval(Type(name), v)
  {
    match v
    case Null => assert E.Eval(Type("null"), v);
    case Bool(_) => assert E.Eval(Type("bool"), v);
    case Int(_) => assert E.Eval(Type("int"), v);
    case Str(_) => assert E.Eval(Type("string"), v);
    case List(_) => assert E.Eval(Type("array"), v);
    case Mapping(_) => assert E.Eval(Type("array"), v);
    case Object(_, _) => assert E.Eval(Type("object"), v);
  }

  /* ---------------- ordering comparisons ---------------- */

  /** `greaterThanOrEquals` is `greaterThan` or equal. */
  lemma GreaterOrEqualSplits(x: Value, v: Value)
    ensures E.Eval(GreaterThanOrEquals(x), v) <==>
      E.Eval(GreaterThan(x), v) || (Comparable(v, x) && v == x)
  {
  }

  /** `lessThanOrEquals` is `lessThan` or equal. */
  lemma LessOrEqualSplits(x: Value, v: Value)
    ensures E.Eval(LessThanOrEquals(x), v) <==>
      E.Eval(LessThan(x), v) || (Comparable(v, x) && v == x)
  {
  }

  /** On comparable operands, `lessThan` is the complement of `greaterThanOrEquals`. */
  lemma LessIsNotGreaterOrEqual(x: Value, v: Value)
    requires Comparable(v, x)
    ensures E.Eval(LessThan(x), v) <==> !E.Eval(GreaterThanOrEquals(x), v)
  {
  }

  /** The strict comparisons are irreflexive and mirror each other. */
  lemma StrictComparisons(x: Value, y: Value)
    ensures !E.Eval(LessThan(x), x) && !E.Eval(GreaterThan(x), x)
    ensures E.Eval(LessThan(x), y) <==> E.Eval(GreaterThan(y), x)
  {
    if Comparable(x, x) {
      BelowIsStrictTotalOrder(x, x, x);
    }
  }

  /** `greaterThan` chains. */
  lemma GreaterThanTransitive(x: Value, y: Value, z: Value)
    requires E.Eval(GreaterThan(x), y) && E.Eval(GreaterThan(y), z)
    ensures E.Eval(GreaterThan(x), z)
  {
    BelowIsStrictTotalOrder(x, y, z);
  }
}
