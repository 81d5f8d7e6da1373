/** The `sub_str_before` pre-operation. */
module SubstringBefore {
  import opened Wrappers
  import opened JsonNode
  import opened JavaString
  import opened PreOperationOutcome

  /** Its configuration: an optional delimiter and the local failure policy. */
  datatype SubstringBeforeOperation = SubstringBeforeOperation(delimiter: Option<string>, suppressExceptions: bool)

  /** The no-argument constructor (also what an empty builder yields): no delimiter, faults propagate. */
  const Default := SubstringBeforeOperation(None, false)

  /**
   * `compute`: the text preceding the first occurrence of the delimiter. An
   * unset or absent delimiter leaves the text unchanged; a non-textual node
   * follows the `NotTextual` policy.
   */
  function Compute<V>(op: SubstringBeforeOperation, node: Node<V>): (r: Outcome)
    ensures !node.IsTextual() ==> r == NotTextual(op.suppressExceptions)
    ensures node.IsTextual() ==> r.Ok? && |r.value| <= |node.text| && r.value == node.text[..|r.value|]
    ensures node.IsTextual() && (op.delimiter.None? || !Contains(node.text, op.delimiter.value)) ==> r == Ok(node.text)
    ensures forall i :: node.IsTextual() && op.delimiter.Some? && FirstOccurrence(node.text, op.delimiter.value, i)
                        ==> r == Ok(node.text[..i])
  {
    if node.IsTextual() then
      var text := node.text;
      match op.delimiter
      case Some(d) =>
        var index := IndexOf(text, d);
        if index == -1 then Ok(text) else Ok(text[..index])
      case None => Ok(text)
    else NotTextual(op.suppressExceptions)
  }

  /** On textual input the operation never faults, whatever `suppressExceptions` says. */
  lemma TextIgnoresSuppression<V>(delimiter: Option<string>, node: Node<V>)
    requires node.IsTextual()
    ensures Compute(SubstringBeforeOperation(delimiter, true), node)
         == Compute(SubstringBeforeOperation(delimiter, false), node)
    ensures Compute(SubstringBeforeOperation(delimiter, false), node).Ok?
  {
  }

  /** The empty delimiter matches at index 0, so nothing precedes it. */
  lemma EmptyDelimiterGivesEmpty<V>(suppressExceptions: bool, node: Node<V>)
    requires node.IsTextual()
    ensures Compute(SubstringBeforeOperation(Some(""), suppressExceptions), node) == Ok("")
  {
    assert FirstOccurrence(node.text, "", 0);
  }

  /**
   * When a non-empty delimiter is found, the text cut off before it holds no
   * occurrence of the delimiter: any such occurrence would be an earlier one
   * in the whole text.
   */
  lemma {:induction false} ResultFreeOfDelimiter<V>(d: string, suppressExceptions: bool, t: string)
    requires |d| > 0 && Contains(t, d)
    ensures Compute<V>(SubstringBeforeOperation(Some(d), suppressExceptions), Text(t)).Ok?
    ensures !Contains(Compute<V>(SubstringBeforeOperation(Some(d), suppressExceptions), Text(t)).value, d)
  {
    var i := IndexOf(t, d);
    var r := Compute<V>(SubstringBeforeOperation(Some(d), suppressExceptions), Text(t));
    assert r.value == t[..i];
    if j :| OccursAt(t[..i], d, j) {
      OccursInPrefix(t, i, d, j);
      assert false;
    }
  }

  /** The cases exercised on the document field holding `"Hello"`. */
  lemma HelloCases<V>()
    ensures Compute<V>(SubstringBeforeOperation(Some("H"), false), Text("Hello")) == Ok("")
    ensures Compute<V>(SubstringBeforeOperation(Some("Hello2"), false), Text("Hello")) == Ok("Hello")
  {
    assert FirstOccurrence("Hello", "H", 0);
  }

  /** An array or a null node faults unless exceptions are suppressed, in which case it yields `""`. */
  lemma NonTextualCases<V>(elements: seq<V>)
    ensures Compute(SubstringBeforeOperation(Some("Hell"), false), Array(elements)) == Unsupported
    ensures Compute<V>(SubstringBeforeOperation(Some("Hell"), false), Null) == Unsupported
    ensures Compute(SubstringBeforeOperation(Some("Hell"), true), Array(elements)) == Ok("")
    ensures Compute<V>(SubstringBeforeOperation(Some("Hell"), true), Null) == Ok("")
  {
  }
}
