/**
 * The `contains_all` array expression. Despite its name it holds when every
 * element of the document's array is among the declared values, i.e. when
 * the document array is a subset of `values`, computed by comparing the size
 * of the intersection with the size of the document's element set.
 */
module ContainsAll {
  import opened Wrappers
  import opened JsonNode
  import PreOperations

  /** The discriminator this expression is written with. */
  const TypeTag := "contains_all"

  /** The expression's configuration as its builder stores it. */
  datatype ContainsAllExpression<V> = ContainsAllExpression(
    exprType: string,
    path: Option<string>,
    values: set<V>,
    extractValues: bool,
    valuesPath: Option<string>,
    defaultResult: bool,
    preoperation: Option<PreOperations.PreOperation>)

  /**
   * The builder constructor. It accepts a pre-operation but does not keep it:
   * the expression is always built without one, and without failing.
   */
  function Build<V>(path: Option<string>, values: set<V>, extractValues: bool, valuesPath: Option<string>,
                    defaultResult: bool, preoperation: Option<PreOperations.PreOperation>): (e: ContainsAllExpression<V>)
    ensures e.exprType == TypeTag && e.preoperation.None?
    ensures e.path == path && e.values == values && e.extractValues == extractValues
    ensures e.valuesPath == valuesPath && e.defaultResult == defaultResult
  {
    ContainsAllExpression(TypeTag, path, values, extractValues, valuesPath, defaultResult, None)
  }

  /** Whatever pre-operation is handed to the builder, the same expression results. */
  lemma BuildIgnoresPreOperation<V>(path: Option<string>, values: set<V>, extractValues: bool, valuesPath: Option<string>,
                                    defaultResult: bool, p: Option<PreOperations.PreOperation>)
    ensures Build(path, values, extractValues, valuesPath, defaultResult, p)
         == Build(path, values, extractValues, valuesPath, defaultResult, None)
  {
  }

  /** The distinct elements of a document array. */
  function ElementSet<V>(elements: seq<V>): set<V>
  {
    set x | x in elements
  }

  /** A finite subset as large as its superset is the superset. */
  lemma {:induction false} SubsetOfSameSize<V>(a: set<V>, b: set<V>)
    requires a <= b && |a| == |b|
    ensures a == b
  {
    if x :| x in b && x !in a {
      SubsetCardinality(a, b - {x});
      assert false;
    }
  }

  /** A subset is no larger than its superset. */
  lemma {:induction false} SubsetCardinality<V>(a: set<V>, b: set<V>)
    requires a <= b
    ensures |a| <= |b|
    decreases b
  {
    if a != {} {
      var x :| x in a;
      SubsetCardinality(a - {x}, b - {x});
    }
  }

  /** The intersection test used by the code decides inclusion. */
  lemma CommonSizeDecidesSubset<V>(values: set<V>, pathValues: set<V>)
    ensures |values * pathValues| == |pathValues| <==> pathValues <= values
  {
    if |values * pathValues| == |pathValues| {
      SubsetOfSameSize(values * pathValues, pathValues);
    }
    if pathValues <= values {
      assert values * pathValues == pathValues;
    }
  }

  /**
   * `evaluate(node, values)`: `false` for a node that is not an array;
   * otherwise whether the document's elements all lie in `values`.
   */
  function Evaluate<V>(node: Node<V>, values: set<V>): (r: bool)
    ensures r <==> node.IsArray() && forall i :: 0 <= i < |node.elements| ==> node.elements[i] in values
  {
    if !node.IsArray() then false
    else
      var pathValues := ElementSet(node.elements);
      var common := values * pathValues;
      CommonSizeDecidesSubset(values, pathValues);
      |common| == |pathValues|
  }

  /** Only the set of elements matters: order and repetition in the document array do not. */
  lemma DependsOnlyOnElementSet<V>(a: seq<V>, b: seq<V>, values: set<V>)
    requires ElementSet(a) == ElementSet(b)
    ensures Evaluate(Array(a), values) == Evaluate(Array(b), values)
  {
  }

  /** The empty document array satisfies every declared set, even the empty one. */
  lemma EmptyArrayHolds<V>(values: set<V>)
    ensures Evaluate(Array([]), values)
  {
  }

  /** Declaring more values can only turn a `false` into `true`, never the reverse. */
  lemma Monotone<V>(node: Node<V>, values: set<V>, more: set<V>)
    requires values <= more
    ensures Evaluate(node, values) ==> Evaluate(node, more)
  {
  }

  /** A node that is not an array never matches. */
  lemma NonArrayNeverHolds<V>(node: Node<V>, values: set<V>)
    requires !node.IsArray()
    ensures !Evaluate(node, values)
  {
  }

  /**
   * The two documented examples, and the asymmetry with the name: `[1]`
   * matches `{1, 2}` although the document lacks the declared `2`, while
   * `[1, 2, 3]` does not match `{1, 2}` although it has every declared value.
   */
  lemma Examples()
    ensures Evaluate(Array([1, 2]), {1, 2, 3})
    ensures !Evaluate(Array([1, 2, 4]), {1, 2, 3})
    ensures Evaluate(Array([1]), {1, 2})
    ensures !Evaluate(Array([1, 2, 3]), {1, 2})
  {
    assert 4 in [1, 2, 4];
    assert 3 in [1, 2, 3];
  }
}
