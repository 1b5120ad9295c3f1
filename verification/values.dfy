/**
 The runtime values an expression is evaluated against, and the three ways
 the engine compares them: structural equality, identity, and order.
 */
module Values {

  /** A runtime operand. PHP lists and string-keyed arrays are kept apart as
      `List` and `Mapping`; an object is an instance identity `id` together
      with its properties. */
  datatype Value =
    | Null
    | Bool(b: bool)
    | Int(i: int)
    | Str(s: string)
    | List(items: seq<Value>)
    | Mapping(entries: map<string, Value>)
    | Object(id: nat, props: map<string, Value>)

  /** The variant of a value, as the `type` operator sees it: lists and
      mappings are both PHP arrays. */
  datatype Kind = NullKind | BoolKind | IntKind | StringKind | ArrayKind | ObjectKind

  function KindOf(v: Value): Kind
  {
    match v
    case Null => NullKind
    case Bool(_) => BoolKind
    case Int(_) => IntKind
    case Str(_) => StringKind
    case List(_) => ArrayKind
    case Mapping(_) => ArrayKind
    case Object(_, _) => ObjectKind
  }

  /** The type names that the `type` operator accepts for a kind. */
  function TypeNames(k: Kind): set<string>
  {
    match k
    case NullKind => {"null"}
    case BoolKind => {"bool", "boolean"}
    case IntKind => {"int", "integer"}
    case StringKind => {"string"}
    case ArrayKind => {"array"}
    case ObjectKind => {"object"}
  }

  /** No type name is shared by two kinds, so a name picks out one variant. */
  lemma TypeNamesDisjoint(name: string, j: Kind, k: Kind)
    requires name in TypeNames(j) && name in TypeNames(k)
    ensures j == k
  {
  }

  /* ---------------- structural equality ---------------- */

  /** Every object inside `v`, at any depth, has identity 0. */
  predicate Anonymous(v: Value)
  {
    match v
    case List(items) => forall i :: 0 <= i < |items| ==> Anonymous(items[i])
    case Mapping(m) => forall k :: k in m ==> Anonymous(m[k])
    case Object(id, p) => id == 0 && forall k :: k in p ==> Anonymous(p[k])
    case _ => true
  }

  /** `v` with every object identity erased: two values are structurally
      equal exactly when their contents coincide. */
  function Content(v: Value): (r: Value)
    ensures Anonymous(r)
    ensures KindOf(r) == KindOf(v)
    ensures v.List? ==> r.List? && |r.items| == |v.items|
    ensures v.Mapping? ==> r.Mapping? && r.entries.Keys == v.entries.Keys
    ensures v.Object? ==> r.Object? && r.id == 0 && r.props.Keys == v.props.Keys
  {
    match v
    case List(items) => List(seq(|items|, i requires 0 <= i < |items| => Content(items[i])))
    case Mapping(m) => Mapping(map k | k in m :: Content(m[k]))
    case Object(_, p) => Object(0, map k | k in p :: Content(p[k]))
    case _ => v
  }

  /** Erasing identities changes nothing else: a value whose objects all
      have identity 0 is its own content, so erasing twice is erasing once. */
  lemma {:induction false} ContentFixesAnonymous(v: Value)
    requires Anonymous(v)
    ensures Content(v) == v
    decreases v
  {
    match v
    case List(items) =>
      forall i | 0 <= i < |items| ensures Content(items[i]) == items[i] {
        ContentFixesAnonymous(items[i]);
      }
      assert Content(v).items == items;
    case Mapping(m) =>
      forall k | k in m ensures Content(m[k]) == m[k] {
        ContentFixesAnonymous(m[k]);
      }
      assert Content(v).entries == m;
    case Object(_, p) =>
      forall k | k in p ensures Content(p[k]) == p[k] {
        ContentFixesAnonymous(p[k]);
      }
      assert Content(v).props == p;
    case _ =>
  }

  lemma ContentIdempotent(v: Value)
    ensures Content(Content(v)) == Content(v)
  {
    ContentFixesAnonymous(Content(v));
  }

  /** Structural equality stated directly: same variant, equal scalars, and
      pointwise equal elements, fields and properties; object identity is
      not looked at. */
  predicate Similar(a: Value, b: Value): (r: bool)
    ensures r ==> KindOf(a) == KindOf(b)
  {
    match a
    case List(xs) =>
      b.List? && |xs| == |b.items| &&
      forall i :: 0 <= i < |xs| ==> Similar(xs[i], b.items[i])
    case Mapping(m) =>
      b.Mapping? && m.Keys == b.entries.Keys &&
      forall k :: k in m ==> Similar(m[k], b.entries[k])
    case Object(_, p) =>
      b.Object? && p.Keys == b.props.Keys &&
      forall k :: k in p ==> Similar(p[k], b.props[k])
    case _ => a == b
  }

  /** Comparing contents is exactly structural equality. */
  lemma {:induction false} ContentEqualIffSimilar(a: Value, b: Value)
    ensures Content(a) == Content(b) <==> Similar(a, b)
    decreases a, 1
  {
    match a
    case List(_) => if b.List? { ListContentIffSimilar(a, b); }
    case Mapping(_) => if b.Mapping? { MappingContentIffSimilar(a, b); }
    case Object(_, _) => if b.Object? { ObjectContentIffSimilar(a, b); }
    case _ =>
  }

  lemma {:induction false} ListContentIffSimilar(a: Value, b: Value)
    requires a.List? && b.List?
    ensures Content(a) == Content(b) <==> Similar(a, b)
    decreases a, 0
  {
    var xs, ys := a.items, b.items;
    if |xs| == |ys| {
      forall i | 0 <= i < |xs|
        ensures Content(xs[i]) == Content(ys[i]) <==> Similar(xs[i], ys[i])
      {
        ContentEqualIffSimilar(xs[i], ys[i]);
      }
      if Similar(a, b) {
        assert Content(a).items == Content(b).items;
      }
      if Content(a) == Content(b) {
        forall i | 0 <= i < |xs| ensures Similar(xs[i], ys[i]) {
          assert Content(a).items[i] == Content(b).items[i];
        }
      }
    }
  }

  lemma {:induction false} MappingContentIffSimilar(a: Value, b: Value)
    requires a.Mapping? && b.Mapping?
    ensures Content(a) == Content(b) <==> Similar(a, b)
    decreases a, 0
  {
    var m, m' := a.entries, b.entries;
    if m.Keys == m'.Keys {
      forall k | k in m
        ensures Content(m[k]) == Content(m'[k]) <==> Similar(m[k], m'[k])
      {
        ContentEqualIffSimilar(m[k], m'[k]);
      }
      if Similar(a, b) {
        assert Content(a).entries == Content(b).entries;
      }
      if Content(a) == Content(b) {
        forall k | k in m ensures Similar(m[k], m'[k]) {
          assert Content(a).entries[k] == Content(b).entries[k];
        }
      }
    }
  }

  lemma {:induction false} ObjectContentIffSimilar(a: Value, b: Value)
    requires a.Object? && b.Object?
    ensures Content(a) == Content(b) <==> Similar(a, b)
    decreases a, 0
  {
    var p, p' := a.props, b.props;
    if p.Keys == p'.Keys {
      forall k | k in p
        ensures Content(p[k]) == Content(p'[k]) <==> Similar(p[k], p'[k])
      {
        ContentEqualIffSimilar(p[k], p'[k]);
      }
      if Similar(a, b) {
        assert Content(a).props == Content(b).props;
      }
      if Content(a) == Content(b) {
        forall k | k in p ensures Similar(p[k], p'[k]) {
          assert Content(a).props[k] == Content(b).props[k];
        }
      }
    }
  }

  /** Structural equality is an equivalence relation. */
  lemma SimilarIsEquivalence(a: Value, b: Value, c: Value)
    ensures Similar(a, a)
    ensures Similar(a, b) ==> Similar(b, a)
    ensures Similar(a, b) && Similar(b, c) ==> Similar(a, c)
  {
    ContentEqualIffSimilar(a, a);
    ContentEqualIffSimilar(a, b);
    ContentEqualIffSimilar(b, a);
    ContentEqualIffSimilar(b, c);
    ContentEqualIffSimilar(a, c);
  }

  /* ---------------- ordering ---------------- */

  /** Lexicographic order on strings by character code. */
  predicate LexLess(s: string, t: string)
  {
    if |s| == 0 then |t| > 0
    else |t| > 0 && (s[0] < t[0] || (s[0] == t[0] && LexLess(s[1..], t[1..])))
  }

  /** Two values can be ordered when both are integers or both are strings. */
  predicate Comparable(a: Value, b: Value)
  {
    (a.Int? && b.Int?) || (a.Str? && b.Str?)
  }

  /** `a` comes strictly before `b`. */
  predicate Below(a: Value, b: Value)
    requires Comparable(a, b)
  {
    if a.Int? then a.i < b.i else LexLess(a.s, b.s)
  }

  lemma {:induction false} LexLessIrreflexive(s: string)
    ensures !LexLess(s, s)
    decreases |s|
  {
    if |s| > 0 {
      LexLessIrreflexive(s[1..]);
    }
  }

  /** Exactly one of `s < t`, `s == t`, `t < s` holds. */
  lemma {:induction false} LexLessTrichotomy(s: string, t: string)
    ensures LexLess(s, t) || s == t || LexLess(t, s)
    ensures !(LexLess(s, t) && LexLess(t, s))
    decreases |s|
  {
    if |s| > 0 && |t| > 0 {
      LexLessTrichotomy(s[1..], t[1..]);
      if s[0] == t[0] && s[1..] == t[1..] {
        assert s == [s[0]] + s[1..] && t == [t[0]] + t[1..];
      }
    }
  }

  lemma {:induction false} LexLessTransitive(s: string, t: string, u: string)
    requires LexLess(s, t) && LexLess(t, u)
    ensures LexLess(s, u)
    decreases |s|
  {
    if |s| > 0 && s[0] == t[0] && t[0] == u[0] {
      LexLessTransitive(s[1..], t[1..], u[1..]);
    }
  }

  /** `Below` is a strict total order on each comparable class. */
  lemma BelowIsStrictTotalOrder(a: Value, b: Value, c: Value)
    requires Comparable(a, b) && Comparable(b, c)
    ensures !Below(a, a)
    ensures Below(a, b) || a == b || Below(b, a)
    ensures !(Below(a, b) && Below(b, a))
    ensures Below(a, b) && Below(b, c) ==> Below(a, c)
  {
    if a.Str? {
      LexLessIrreflexive(a.s);
      LexLessTrichotomy(a.s, b.s);
      if Below(a, b) && Below(b, c) {
        LexLessTransitive(a.s, b.s, c.s);
      }
    }
  }
}
