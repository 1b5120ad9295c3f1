# yaysondb expression operators in Dafny

This project models the predicate-evaluation engine of the yaysondb document
store. Filters are built from the `Operators` factory as expression trees and
evaluated against a value, usually a document, to give a boolean.

- `Values` holds the operand model. A value is null, a bool, an int, a string,
  a list, a string-keyed mapping, or an object. An object is an instance
  identity plus its properties. This module also defines structural
  equality (`Content`, `Similar`), the type names, and the ordering of ints and
  strings.
- `Counting` holds the single counting routine that every counting operator
  shares. It counts the true verdicts (`CountTrue`) and compares the count with
  a policy (`AllOf`, `AtLeastOne`, `ExactlyN(k)`, `NoneOf`, `OneOf`). `Meant`
  states each policy again with quantifiers, and `AggregateMeaning` proves that
  the two definitions agree. `Decide` is the one-pass loop version.
- `Expressions` holds the `Expr` tree and the total evaluator `Eval`. An
  operand of the wrong shape makes an operator false; evaluation never fails.
- `Operators` holds one factory per operator: `doc`, `exists`, `not`, `type`,
  `in`, `regexp`, `equals`, `same`, the four ordering comparisons, `all`,
  `atLeastOne`, `exactly`, `none`, `one`, `listAll`, `listAtLeastOne`,
  `listExactly`, `listNone` and `listOne`. Each factory's contract states the
  operator's meaning for every operand. For the combinators, the list
  quantifiers, `type`, `in` and `equals`, that meaning is given in terms that
  do not depend on how `Eval` computes it. `doc` is the only factory that can fail: it returns a
  `BuildResult`, and a field value that is not an expression gives `NotAnExpression`.
- `Laws` holds properties that link operators to each other, for example
  double negation, `same` implying `equals`, and `exactly(n)` being the same as
  `all` when `n` is the number of children.
- `Scenarios` holds every case of the operator test suite as a lemma.

The model states the behaviour that tests/OperatosTest.php asserts. The code
of the production `Operators` class is not modelled. The tests' expression
mocks that always return true or always return false are replaced by
`exists()` and `not(exists())`. Where the tests say nothing, for example type
names other than `string` and `int`, or `same` on scalars, the model makes its
own choice; those choices are listed under "## Left out".

## Model

| member | source | states |
|---|---|---|
| Operators.Doc | tests/OperatosTest.php:13-40 | Construction fails exactly when some field value is not an expression, and the error names those fields. A built doc is false on anything that is not a mapping and false when a declared key is absent. On a mapping it holds exactly when every declared field is present and its expression holds on that field's value. |
| Operators.Exists | tests/OperatosTest.php:42-47 | `exists()` holds on every operand. |
| Operators.Not | tests/OperatosTest.php:48-51 | `not(e)` holds exactly where `e` fails. |
| Operators.Type | tests/OperatosTest.php:54-62 | Each type name accepts exactly one variant: `string` accepts strings only, `int`/`integer` accepts ints only, and so on. An unknown name accepts nothing. Two operands accepted by the same name have the same kind. |
| Operators.In | tests/OperatosTest.php:64-72 | `in(cs)` holds exactly when the operand is structurally equal to some candidate. |
| Operators.Regexp | tests/OperatosTest.php:74-82 | A non-string operand never matches. A string operand matches exactly when the compiled pattern accepts it. |
| Operators.Equals | tests/OperatosTest.php:84-89 | `equals(t)` holds exactly on operands structurally equal to `t`. Object identities are ignored. |
| Operators.Same | tests/OperatosTest.php:90-93 | `same(t)` holds on `t` and only on `t`. It implies structural equality. An object with a different identity is never the same. |
| Operators.GreaterThan | tests/OperatosTest.php:98-101 | Gives false when the operand cannot be compared with the bound. For ints it means `n > bound`. For strings it means lexicographically above the bound. |
| Operators.GreaterThanOrEquals | tests/OperatosTest.php:102-105 | Gives false when the operand cannot be compared. For ints it means `n >= bound`. For strings it means above or equal. |
| Operators.LessThan | tests/OperatosTest.php:106-113 | Gives false when the operand cannot be compared. For ints it means `n < bound`, so the bound itself is excluded. For strings it means lexicographically below. |
| Operators.LessThanOrEquals | tests/OperatosTest.php:114-117 | Gives false when the operand cannot be compared. For ints it means `n <= bound`. For strings it means below or equal. |
| Operators.All | tests/OperatosTest.php:120-128 | Holds exactly when every child holds on the same operand. |
| Operators.AtLeastOne | tests/OperatosTest.php:130-138 | Holds exactly when some child holds. |
| Operators.Exactly | tests/OperatosTest.php:140-148 | Holds exactly when the set of children that hold has `k` members. |
| Operators.None | tests/OperatosTest.php:150-158 | Holds exactly when no child holds. |
| Operators.One | tests/OperatosTest.php:160-168 | Holds exactly when one child holds and every child that holds is that one. |
| Operators.ListAll | tests/OperatosTest.php:170-188 | False on every non-list. On a list it holds exactly when the inner expression holds on every element. |
| Operators.ListAtLeastOne | tests/OperatosTest.php:190-208 | False on every non-list. On a list it holds exactly when the inner expression holds on some element. |
| Operators.ListExactly | tests/OperatosTest.php:210-228 | False on every non-list. On a list it holds exactly when `k` elements satisfy the inner expression. |
| Operators.ListNone | tests/OperatosTest.php:230-244 | False on every non-list. On a list it holds exactly when no element satisfies the inner expression. |
| Operators.ListOne | tests/OperatosTest.php:246-260 | False on every non-list. On a list it holds exactly when one element satisfies the inner expression. |
| Expressions.Eval | tests/OperatosTest.php:13-260 | `evaluate` for every operator. An operand of the wrong shape makes the operator false: a non-string for regexp, an incomparable operand for the ordering comparisons, a non-mapping for doc and a non-list for the list quantifiers. `not` gives the opposite verdict of its inner expression. |
| Counting.CountTrue | tests/OperatosTest.php:120-260 | The shared count of true verdicts. It never exceeds the number of verdicts. |
| Counting.CountZeroMeaning | tests/OperatosTest.php:150-158 | A count of zero means no verdict is true. |
| Counting.Aggregate | tests/OperatosTest.php:120-260 | The shared count-and-compare routine of all combinators and list quantifiers. Its verdict is the policy's quantifier meaning over the verdicts. |
| Counting.CountOneMeaning | tests/OperatosTest.php:160-168 | A count of one means exactly one verdict is true. |
| Values.Content | tests/OperatosTest.php:84-89 | The result has identity 0 on every object at every depth. The outermost value keeps its kind, list length, mapping keys and object property names. |
| Values.ContentFixesAnonymous | tests/OperatosTest.php:84-89 | A value whose objects all have identity 0, at every depth, is its own content. So erasing changes nothing but identities. |
| Values.ContentIdempotent | tests/OperatosTest.php:84-89 | Erasing identities twice gives the same result as erasing once. |
| Values.Similar | tests/OperatosTest.php:84-89 | Structural equality, defined recursively. Similar values have the same kind. |
| Counting.AggregateMeaning | tests/OperatosTest.php:120-168 | Comparing the true-count with a policy agrees with that policy's quantifier meaning: all, some, exactly k, none, exactly one. |
| Counting.CountIsCardinality | tests/OperatosTest.php:140-148 | The shared count equals the number of true positions. |
| Counting.CountIsTotalIffAll | tests/OperatosTest.php:120-128 | The count never exceeds the length. It equals the length exactly when every verdict is true. |
| Counting.Decide | tests/OperatosTest.php:120-168 | The one-pass counting loop returns the policy's meaning over the verdicts. |
| Expressions.CombineMeaning | tests/OperatosTest.php:120-168 | Every logical combinator evaluates all of its children against the same operand and applies its policy to their verdicts. |
| Expressions.ListMeaning | tests/OperatosTest.php:170-260 | Every list quantifier applies its policy to the inner expression's verdicts on the elements. |
| Values.ContentEqualIffSimilar | tests/OperatosTest.php:84-89 | Two values have equal contents (identities erased) exactly when they are structurally equal, recursively through lists, mappings and objects. |
| Values.SimilarIsEquivalence | tests/OperatosTest.php:84-89 | Structural equality is reflexive, symmetric and transitive. |
| Values.TypeNamesDisjoint | tests/OperatosTest.php:54-62 | No type name belongs to two kinds. |
| Values.LexLessTrichotomy | tests/OperatosTest.php:96-118 | For any two strings, exactly one of below, equal, above holds. |
| Values.BelowIsStrictTotalOrder | tests/OperatosTest.php:96-118 | The comparison order is irreflexive, total, asymmetric and transitive on ints and on strings. |
| Laws.NotExistsNeverHolds | tests/OperatosTest.php:48-51 | `not(exists())` holds on no operand. |
| Laws.DoubleNegation | tests/OperatosTest.php:42-52 | `not(not(e))` agrees with `e` on every operand. |
| Laws.EqualsIsEquivalence | tests/OperatosTest.php:84-89 | `equals` is reflexive, symmetric and transitive over operands. |
| Laws.SameImpliesEquals | tests/OperatosTest.php:84-94 | Whatever is `same` as `x` also `equals` `x`. |
| Laws.DistinctInstancesEqualButNotSame | tests/OperatosTest.php:84-94 | Two objects with equal properties and different identities satisfy `equals` but not `same`. |
| Laws.InIsSomeEquals | tests/OperatosTest.php:64-72 | `in(cs)` holds exactly when `equals(c)` holds for some candidate `c`. |
| Laws.HoldingIsCounted | tests/OperatosTest.php:140-148 | The number of children that hold is the shared count, and it is at most the number of children. |
| Laws.ExactlyAllIsAll | tests/OperatosTest.php:120-148 | `exactly(n, cs)` with `n = |cs|` agrees with `all(cs)`. |
| Laws.ExactlyZeroIsNone | tests/OperatosTest.php:140-158 | `exactly(0, cs)` agrees with `none(cs)`. |
| Laws.ExactlyOneIsOne | tests/OperatosTest.php:140-168 | `exactly(1, cs)` agrees with `one(cs)`. |
| Laws.NoneIsNotAtLeastOne | tests/OperatosTest.php:130-158 | `none` is the negation of `atLeastOne`. |
| Laws.EmptyCombinators | tests/OperatosTest.php:120-168 | With no children, `all` and `none` hold, and `atLeastOne` and `one` fail. |
| Laws.ListQuantifiersRejectNonLists | tests/OperatosTest.php:184-227 | On a non-list operand, all five list quantifiers are false, whatever the inner expression and count. |
| Laws.ListQuantifiersOnEmptyList | tests/OperatosTest.php:170-260 | On the empty list, `listAll` and `listNone` hold vacuously, and `listAtLeastOne` and `listOne` fail. |
| Laws.ListExactlyLengthIsListAll | tests/OperatosTest.php:170-228 | `listExactly(n)` on a list of length `n` agrees with `listAll`. |
| Laws.ListMirrorsCombinator | tests/OperatosTest.php:120-260 | For every policy, a list quantifier over a list agrees with the same-policy combinator over any children whose verdicts on the operand are the element verdicts. |
| Laws.DocIgnoresUndeclaredFields | tests/OperatosTest.php:13-34 | `doc` gives the same verdict on two mappings that agree on its declared fields. Other fields are ignored. |
| Laws.EveryValueHasAType | tests/OperatosTest.php:54-62 | Every operand is accepted by `type` under some name. |
| Laws.GreaterOrEqualSplits | tests/OperatosTest.php:96-105 | `greaterThanOrEquals(x)` means `greaterThan(x)` or comparable and equal to `x`. |
| Laws.LessOrEqualSplits | tests/OperatosTest.php:106-117 | `lessThanOrEquals(x)` means `lessThan(x)` or comparable and equal to `x`. |
| Laws.LessIsNotGreaterOrEqual | tests/OperatosTest.php:106-113 | On comparable operands, `lessThan(x)` is the complement of `greaterThanOrEquals(x)`. |
| Laws.StrictComparisons | tests/OperatosTest.php:96-113 | The strict comparisons never hold on their own bound, and `lessThan(x)` on `y` is `greaterThan(y)` on `x`. |
| Laws.GreaterThanTransitive | tests/OperatosTest.php:96-101 | `greaterThan` chains: x < y < z gives x < z. |
| Scenarios.DocCases | tests/OperatosTest.php:13-34 | The four doc cases: a present key with a true expression holds; a missing key, a non-mapping and a false field expression do not. |
| Scenarios.DocRejectsPlainField | tests/OperatosTest.php:36-40 | Building doc with a string field value fails. |
| Scenarios.ExistsAndNotCases | tests/OperatosTest.php:42-52 | `exists()` holds on `""`; `not(exists())` does not. |
| Scenarios.TypeCases | tests/OperatosTest.php:54-62 | `type("string")` holds on `"asdf"`; `type("int")` fails on `"sf"`. |
| Scenarios.InCases | tests/OperatosTest.php:64-72 | `"foo"` is in `["foo", "bar"]`; `"foobar"` is not. |
| Scenarios.RegexpCases | tests/OperatosTest.php:74-82 | With a compiled `/foo/` that accepts `"foo"` and rejects `"bar"`, regexp agrees. |
| Scenarios.EqualsAndSameCases | tests/OperatosTest.php:84-94 | Two objects with the property `foo: bar` are equal but not the same. |
| Scenarios.ComparisonCases | tests/OperatosTest.php:96-118 | 6 > 5, 5 >= 5, 4 < 5, not 5 < 5, 5 <= 5. |
| Scenarios.AllCases | tests/OperatosTest.php:120-128 | all(true, true) holds; all(true, false) does not. |
| Scenarios.AtLeastOneCases | tests/OperatosTest.php:130-138 | atLeastOne(true, false) holds; atLeastOne(false, false) does not. |
| Scenarios.ExactlyCases | tests/OperatosTest.php:140-148 | exactly(2, true, true) holds; exactly(2, true, false) does not. |
| Scenarios.NoneCases | tests/OperatosTest.php:150-158 | none(false, false) holds; none(true, false) does not. |
| Scenarios.OneCases | tests/OperatosTest.php:160-168 | one(true, false) holds; one(true, true) does not. |
| Scenarios.ListAllCases | tests/OperatosTest.php:170-188 | listAll(type string) holds on two strings, fails on a string and an int, and fails on a non-list. |
| Scenarios.ListAtLeastOneCases | tests/OperatosTest.php:190-208 | listAtLeastOne(type string) holds on two strings, fails on two ints, and fails on a non-list. |
| Scenarios.ListExactlyCases | tests/OperatosTest.php:210-228 | listExactly(2, type string) holds on two strings, fails on a string and an int, and fails on a non-list. |
| Scenarios.ListNoneCases | tests/OperatosTest.php:230-244 | listNone(type string) holds on two ints and fails on a string and an int. |
| Scenarios.ListOneCases | tests/OperatosTest.php:246-260 | listOne(type string) holds on a string and an int and fails on two strings. |

## Left out

- The regular-expression engine: PCRE delimiters, flags and matching. A `regexp` expression carries a caller-supplied compiled matcher `string -> bool`.
- Floats, and comparisons that mix ints and floats. Ordering covers int with int and string with string. Every other pair of operands is incomparable, so the comparison is false.
- PHP's loose comparison rules. These include `5 == "5"`, numeric strings compared as numbers, and `null == false`. `equals` and `in` are structural equality with object identity ignored, and never convert between types. String ordering is plain lexicographic by character code.
- PHP arrays with integer keys, and arrays that mix list and map keys. A list is `List` and a string-keyed array is `Mapping`, so a list quantifier on a `Mapping` is false and `doc` on a `List` is false. The empty array `[]` can be written as either `List([])` or `Mapping(map[])`, and the two writings behave differently. They are not equal under `equals`, `in` or `same`. `doc(...)` with no fields holds on `Mapping(map[])` but not on `List([])`. `listAll(e)` holds on `List([])` but not on `Mapping(map[])`. So neither writing gives both results that PHP gives for `[]`.
- Element order in mappings and object properties. These are unordered maps, so `same` on two mappings ignores key order, unlike PHP's `===`.
- Object classes. Objects are an integer identity plus properties, and `equals` compares properties only.
- Heap consistency. `same` is value identity on values that carry object identities. The model does not rule out two objects with one identity and different properties, which no real PHP heap can contain.
- Operators.Type — the accepted names are this model's choice. The tests use only `string` and `int`. The model accepts `null`, `bool`/`boolean`, `int`/`integer`, `string`, `array` and `object`, where `array` covers both lists and mappings. It rejects other spellings, such as `NULL`, `long`, `numeric`, `scalar`, `iterable`, `float` or `sequence`.
- Operators.Same — on scalars, lists and mappings `same` is value equality; this is the model's choice, since the tests call `same` only on two objects. On objects it compares identity, as the tests show.
- The exception class and message raised by a failed `doc` construction. These are modelled only as `NotAnExpression` with the offending field names.
- The document and collection layer, storage, serialisation, and concurrent evaluation of one expression tree.
