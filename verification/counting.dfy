/**
 The one aggregation routine shared by the logical combinators and the list
 quantifiers: count the true verdicts, then compare the count against a policy.
 */
module Counting {

  /** The required-count policy of a counting combinator. */
  datatype Policy =
    | AllOf            // every verdict true
    | AtLeastOne       // one or more true
    | ExactlyN(k: int) // precisely k true
    | NoneOf           // no verdict true
    | OneOf            // precisely one true

  /** Number of `true` entries. */
  function CountTrue(bs: seq<bool>): (n: nat)
    ensures n <= |bs|
  {
    if |bs| == 0 then 0
    else CountTrue(bs[..|bs| - 1]) + (if bs[|bs| - 1] then 1 else 0)
  }

  /** The positions holding `true`. */
  ghost function TrueIndices(bs: seq<bool>): set<int>
  {
    set i | 0 <= i < |bs| && bs[i]
  }

  /** Does a count of `count` true verdicts out of `total` satisfy the policy? */
  predicate Accepts(p: Policy, count: nat, total: nat)
  {
    match p
    case AllOf => count == total
    case AtLeastOne => count >= 1
    case ExactlyN(k) => count == k
    case NoneOf => count == 0
    case OneOf => count == 1
  }

  /** The verdict of a counting combinator over the verdicts of its parts. */
  predicate Aggregate(p: Policy, bs: seq<bool>): (r: bool)
    ensures r <==> Meant(p, bs)
  {
    AggregateMeaning(p, bs);
    Accepts(p, CountTrue(bs), |bs|)
  }

  /** What each policy means, stated by quantifiers over positions. */
  ghost predicate Meant(p: Policy, bs: seq<bool>)
  {
    match p
    case AllOf => forall i :: 0 <= i < |bs| ==> bs[i]
    case AtLeastOne => exists i :: 0 <= i < |bs| && bs[i]
    case ExactlyN(k) => |TrueIndices(bs)| == k
    case NoneOf => forall i :: 0 <= i < |bs| ==> !bs[i]
    case OneOf => exists i :: 0 <= i < |bs| && bs[i] && forall j :: 0 <= j < |bs| && bs[j] ==> j == i
  }

  /** The count is the number of true positions. */
  lemma {:induction false} CountIsCardinality(bs: seq<bool>)
    ensures CountTrue(bs) == |TrueIndices(bs)|
    decreases |bs|
  {
    if |bs| > 0 {
      var n := |bs| - 1;
      var init := bs[..n];
      CountIsCardinality(init);
      assert TrueIndices(init) == set i | 0 <= i < n && bs[i];
      if bs[n] {
        assert TrueIndices(bs) == TrueIndices(init) + {n};
        assert n !in TrueIndices(init);
      } else {
        assert TrueIndices(bs) == TrueIndices(init);
      }
    }
  }

  /** The count reaches the length exactly when every verdict is true. */
  lemma {:induction false} CountIsTotalIffAll(bs: seq<bool>)
    ensures CountTrue(bs) <= |bs|
    ensures CountTrue(bs) == |bs| <==> forall i :: 0 <= i < |bs| ==> bs[i]
    decreases |bs|
  {
    if |bs| > 0 {
      var n := |bs| - 1;
      var init := bs[..n];
      CountIsTotalIffAll(init);
      if CountTrue(bs) == |bs| {
        forall i | 0 <= i < |bs| ensures bs[i] {
          if i < n {
            assert init[i] == bs[i];
          }
        }
      }
      if forall i :: 0 <= i < |bs| ==> bs[i] {
        assert forall i :: 0 <= i < |init| ==> init[i];
      }
    }
  }

  /** A set of size one holding `i` is exactly `{i}`. */
  lemma SizeOneIsSingleton(s: set<int>, i: int)
    requires i in s
    ensures |s| == 1 <==> s == {i}
  {
    if |s| == 1 {
      assert |s - {i}| == 0;
      assert s - {i} == {};
    }
  }

  /** A count of zero means no position holds `true`. */
  lemma {:induction false} CountZeroMeaning(bs: seq<bool>)
    ensures CountTrue(bs) == 0 <==> forall i :: 0 <= i < |bs| ==> !bs[i]
    decreases |bs|
  {
    if |bs| > 0 {
      var init := bs[..|bs| - 1];
      CountZeroMeaning(init);
      assert forall i :: 0 <= i < |init| ==> init[i] == bs[i];
    }
  }

  /** A count of one means exactly one position holds `true`. */
  lemma CountOneMeaning(bs: seq<bool>)
    ensures CountTrue(bs) == 1 <==>
      exists i :: 0 <= i < |bs| && bs[i] && forall j :: 0 <= j < |bs| && bs[j] ==> j == i
  {
    CountIsCardinality(bs);
    var t := TrueIndices(bs);
    if exists i :: 0 <= i < |bs| && bs[i] {
      var i :| 0 <= i < |bs| && bs[i];
      assert i in t;
      SizeOneIsSingleton(t, i);
      if |t| == 1 {
        forall j | 0 <= j < |bs| && bs[j] ensures j == i {
          assert j in t;
        }
      }
      if exists i' :: 0 <= i' < |bs| && bs[i'] && forall j :: 0 <= j < |bs| && bs[j] ==> j == i' {
        assert t == {i};
      }
    }
  }

  /** Counting against a policy agrees with the policy's meaning. */
  lemma AggregateMeaning(p: Policy, bs: seq<bool>)
    ensures Accepts(p, CountTrue(bs), |bs|) <==> Meant(p, bs)
  {
    match p
    case AllOf =>
      CountIsTotalIffAll(bs);
    case AtLeastOne =>
      CountZeroMeaning(bs);
    case ExactlyN(_) =>
      CountIsCardinality(bs);
    case NoneOf =>
      CountZeroMeaning(bs);
    case OneOf =>
      CountOneMeaning(bs);
  }

  /** The executable counterpart of `Aggregate`: a one-pass counting loop
      decides the same verdict as `Aggregate`. `Eval` itself uses the
      recursive `CountTrue`. */
  method Decide(p: Policy, bs: seq<bool>) returns (verdict: bool)
    ensures verdict <==> Meant(p, bs)
  {
    var count := 0;
    var i := 0;
    while i < |bs|
      invariant 0 <= i <= |bs|
      invariant count == CountTrue(bs[..i])
    {
      assert bs[..i + 1][..i] == bs[..i];
      if bs[i] {
        count := count + 1;
      }
      i := i + 1;
    }
    assert bs[..|bs|] == bs;
    verdict := Accepts(p, count, |bs|);
    AggregateMeaning(p, bs);
  }
}
