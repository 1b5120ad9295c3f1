/**
 The concrete cases of the operator test suite, stated as lemmas. The
 expressions that return a fixed verdict are `exists()` (always true) and
 `not(exists())` (always false).
 */
module Scenarios {
  import opened Values
  import E = Expressions
  import opened Operators
  import Laws

  function Yes(): E.Expr { Exists() }
  function No(): E.Expr { Not(Exists()) }

  lemma DocCases()
    ensures Doc(map["key" := Expression(Yes())]).Success?
    ensures E.Eval(Doc(map["key" := Expression(Yes())]).value, Mapping(map["key" := Str("void")]))
    ensures !E.Eval(Doc(map["key" := Expression(Yes())]).value, Mapping(map[]))
    ensures !E.Eval(Doc(map["key" := Expression(Yes())]).value, Str("string"))
    ensures Doc(map["key" := Expression(No())]).Success?
    ensures !E.Eval(Doc(map["key" := Expression(No())]).value, Mapping(map["key" := Str("void")]))
  {
    assert "key" in map["key" := Expression(Yes())];
    assert "key" in map["key" := Expression(No())];
  }

  lemma DocRejectsPlainField()
    ensures Doc(map["key" := Plain(Str("not-an-expression"))]).Failure?
  {
    assert "key" in map["key" := Plain(Str("not-an-expression"))];
  }

  lemma ExistsAndNotCases()
    ensures E.Eval(Exists(), Str(""))
    ensures !E.Eval(Not(Exists()), Str(""))
  {
  }

  lemma TypeCases()
    ensures E.Eval(Type("string"), Str("asdf"))
    ensures !E.Eval(Type("int"), Str("sf"))
  {
  }

  lemma InCases()
    ensures E.Eval(In([Str("foo"), Str("bar")]), Str("foo"))
    ensures !E.Eval(In([Str("foo"), Str("bar")]), Str("foobar"))
  {
    assert Similar(Str("foo"), [Str("foo"), Str("bar")][0]);
  }

  lemma RegexpCases(matches: string -> bool)
    requires matches("foo") && !matches("bar")
    ensures E.Eval(Regexp("/foo/", matches), Str("foo"))
    ensures !E.Eval(Regexp("/foo/", matches), Str("bar"))
  {
  }

  lemma EqualsAndSameCases()
    ensures E.Eval(Equals(Object(1, map["foo" := Str("bar")])), Object(2, map["foo" := Str("bar")]))
    ensures !E.Eval(Same(Object(1, map["foo" := Str("bar")])), Object(2, map["foo" := Str("bar")]))
  {
  }

  lemma ComparisonCases()
    ensures E.Eval(GreaterThan(Int(5)), Int(6))
    ensures E.Eval(GreaterThanOrEquals(Int(5)), Int(5))
    ensures E.Eval(LessThan(Int(5)), Int(4))
    ensures !E.Eval(LessThan(Int(5)), Int(5))
    ensures E.Eval(LessThanOrEquals(Int(5)), Int(5))
  {
  }

  lemma AllCases(v: Value)
    ensures E.Eval(All([Yes(), Yes()]), v)
    ensures !E.Eval(All([Yes(), No()]), v)
  {
  }

  lemma AtLeastOneCases(v: Value)
    ensures E.Eval(AtLeastOne([Yes(), No()]), v)
    ensures !E.Eval(AtLeastOne([No(), No()]), v)
  {
    assert E.Eval([Yes(), No()][0], v);
  }

  lemma ExactlyCases(v: Value)
    ensures E.Eval(Exactly(2, [Yes(), Yes()]), v)
    ensures !E.Eval(Exactly(2, [Yes(), No()]), v)
  {
    Laws.ExactlyAllIsAll([Yes(), Yes()], v);
    Laws.ExactlyAllIsAll([Yes(), No()], v);
    AllCases(v);
  }

  lemma NoneCases(v: Value)
    ensures E.Eval(None([No(), No()]), v)
    ensures !E.Eval(None([Yes(), No()]), v)
  {
    assert E.Eval([Yes(), No()][0], v);
  }

  lemma OneCases(v: Value)
    ensures E.Eval(One([Yes(), No()]), v)
    ensures !E.Eval(One([Yes(), Yes()]), v)
  {
    var cs := [Yes(), No()];
    assert E.Eval(cs[0], v) && !E.Eval(cs[1], v);
    assert forall j :: 0 <= j < |cs| && E.Eval(cs[j], v) ==> j == 0;
    var ds := [Yes(), Yes()];
    assert E.Eval(ds[0], v) && E.Eval(ds[1], v);
  }

  lemma ListAllCases()
    ensures E.Eval(ListAll(Type("string")), List([Str("a string"), Str("another string")]))
    ensures !E.Eval(ListAll(Type("string")), List([Str("a string"), Int(1233)]))
    ensures !E.Eval(ListAll(Type("string")), Str("not-a-string"))
  {
    var xs := [Str("a string"), Str("another string")];
    forall i | 0 <= i < |xs| ensures E.Eval(Type("string"), xs[i]) {
      assert xs[i].Str?;
    }
    assert !E.Eval(Type("string"), [Str("a string"), Int(1233)][1]);
  }

  lemma ListAtLeastOneCases()
    ensures E.Eval(ListAtLeastOne(Type("string")), List([Str("a string"), Str("another string")]))
    ensures !E.Eval(ListAtLeastOne(Type("string")), List([Int(1234), Int(1233)]))
    ensures !E.Eval(ListAtLeastOne(Type("string")), Str("not-a-string"))
  {
    assert E.Eval(Type("string"), [Str("a string"), Str("another string")][0]);
  }

  lemma ListExactlyCases()
    ensures E.Eval(ListExactly(2, Type("string")), List([Str("a string"), Str("another string")]))
    ensures !E.Eval(ListExactly(2, Type("string")), List([Str("a string"), Int(1233)]))
    ensures !E.Eval(ListExactly(2, Type("string")), Str("not-a-string"))
  {
    Laws.ListExactlyLengthIsListAll(Type("string"), [Str("a string"), Str("another string")]);
    Laws.ListExactlyLengthIsListAll(Type("string"), [Str("a string"), Int(1233)]);
    ListAllCases();
  }

  lemma ListNoneCases()
    ensures E.Eval(ListNone(Type("string")), List([Int(1231), Int(23423)]))
    ensures !E.Eval(ListNone(Type("string")), List([Str("a string"), Int(1233)]))
  {
    assert E.Eval(Type("string"), [Str("a string"), Int(1233)][0]);
  }

  lemma ListOneCases()
    ensures E.Eval(ListOne(Type("string")), List([Str("a string"), Int(23423)]))
    ensures !E.Eval(ListOne(Type("string")), List([Str("a string"), Str("another string")]))
  {
    var xs := [Str("a string"), Int(23423)];
    assert E.Eval(Type("string"), xs[0]) && !E.Eval(Type("string"), xs[1]);
    var ys := [Str("a string"), Str("another string")];
    assert E.Eval(Type("string"), ys[0]) && E.Eval(Type("string"), ys[1]);
  }
}
