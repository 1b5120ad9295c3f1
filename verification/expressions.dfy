/**
 The expression tree and its evaluation against a runtime value. Every
 operator is a variant of `Expr`; `Eval` is total and never fails: an operand
 of the wrong shape makes the operator false.
 */
module Expressions {
  import opened Values
  import opened Counting

  /** The four ordering comparisons, as `operand <relation> bound`. */
  datatype Relation = Greater | GreaterOrEqual | Less | LessOrEqual

  datatype Expr =
    | Exists
    | Not(inner: Expr)
    | Type(name: string)
    | In(candidates: seq<Value>)
      /** `matches` is the compiled form of `pattern`; the pattern engine
          itself is not part of this model. */
    | Regexp(pattern: string, matches: string -> bool)
    | Equals(target: Value)
    | Same(target: Value)
    | Compare(relation: Relation, bound: Value)
      /** all, atLeastOne, exactly, none and one over child expressions. */
    | Combine(policy: Policy, children: seq<Expr>)
    | Doc(fields: map<string, Expr>)
      /** listAll, listAtLeastOne, listExactly, listNone and listOne. */
    | ListOf(policy: Policy, each: Expr)

  /** Does `operand <rel> bound` hold for two comparable values? */
  predicate Related(rel: Relation, operand: Value, bound: Value)
    requires Comparable(operand, bound)
  {
    match rel
    case Greater => Below(bound, operand)
    case GreaterOrEqual => !Below(operand, bound)
    case Less => Below(operand, bound)
    case LessOrEqual => !Below(bound, operand)
  }

  /** `evaluate`: the verdict of `e` on the operand `v`. An operand of the
      shape an operator does not expect makes that operator false. */
  function Eval(e: Expr, v: Value): (r: bool)
    ensures e.Regexp? && !v.Str? ==> !r
    ensures e.Compare? && !Comparable(v, e.bound) ==> !r
    ensures e.Doc? && !v.Mapping? ==> !r
    ensures e.ListOf? && !v.List? ==> !r
    ensures e.Not? ==> r != Eval(e.inner, v)
    decreases e, 1
  {
    match e
    case Exists => true
    case Not(inner) => !Eval(inner, v)
    case Type(name) => name in TypeNames(KindOf(v))
    case In(candidates) => exists c :: c in candidates && Content(v) == Content(c)
    case Regexp(_, matches) => v.Str? && matches(v.s)
    case Equals(target) => Content(v) == Content(target)
    case Same(target) => v == target
    case Compare(rel, bound) => Comparable(v, bound) && Related(rel, v, bound)
    case Combine(policy, children) => Aggregate(policy, Verdicts(children, v))
    case Doc(fields) =>
      v.Mapping? && forall k :: k in fields ==> k in v.entries && Eval(fields[k], v.entries[k])
    case ListOf(policy, each) => v.List? && Aggregate(policy, Mapped(each, v.items))
  }

  /** The verdict of every child against the same operand. */
  function Verdicts(children: seq<Expr>, v: Value): (bs: seq<bool>)
    ensures |bs| == |children|
    ensures forall i :: 0 <= i < |children| ==> bs[i] == Eval(children[i], v)
    decreases children, 0
  {
    seq(|children|, i requires 0 <= i < |children| => Eval(children[i], v))
  }

  /** The verdict of one expression against each element in turn. */
  function Mapped(each: Expr, items: seq<Value>): (bs: seq<bool>)
    ensures |bs| == |items|
    ensures forall i :: 0 <= i < |items| ==> bs[i] == Eval(each, items[i])
    decreases each, 2
  {
    seq(|items|, i requires 0 <= i < |items| => Eval(each, items[i]))
  }

  /** A combinator's verdict is its policy's meaning over the children's verdicts. */
  lemma CombineMeaning(p: Policy, children: seq<Expr>)
    ensures forall v :: Eval(Combine(p, children), v) <==> Meant(p, Verdicts(children, v))
  {
  }

  /** A list quantifier's verdict on a list is its policy's meaning over the
      per-element verdicts. */
  lemma ListMeaning(p: Policy, each: Expr)
    ensures forall xs :: Eval(ListOf(p, each), List(xs)) <==> Meant(p, Mapped(each, xs))
  {
  }
}
