/** The `sub_str_after` pre-operation. */
module SubstringAfter {
  import opened Wrappers
  import opened JsonNode
  import opened JavaString
  import opened PreOperationOutcome

  /** Its configuration: an optional delimiter and the local failure policy. */
  datatype SubstringAfterOperation = SubstringAfterOperation(delimiter: Option<string>, suppressExceptions: bool)

  /** The no-argument constructor (also what an empty builder yields): no delimiter, faults propagate. */
  const Default := SubstringAfterOperation(None, false)

  /**
   * `compute`: the text following the first occurrence of the delimiter. An
   * unset or absent delimiter leaves the text unchanged; a non-textual node
   * follows the `NotTextual` policy.
   */
  function Compute<V>(op: SubstringAfterOperation, node: Node<V>): (r: Outcome)
    ensures !node.IsTextual() ==> r == NotTextual(op.suppressExceptions)
    ensures node.IsTextual() ==> r.Ok? && |r.value| <= |node.text| && r.value == node.text[|node.text| - |r.value|..]
    ensures node.IsTextual() && (op.delimiter.None? || !Contains(node.text, op.delimiter.value)) ==> r == Ok(node.text)
    ensures forall i :: node.IsTextual() && op.delimiter.Some? && FirstOccurrence(node.text, op.delimiter.value, i)
                        ==> node.text == node.text[..i] + op.delimiter.value + r.value
  {
    if node.IsTextual() then
      var text := node.text;
      match op.delimiter
      case Some(d) =>
        var index := IndexOf(text, d);
        if index == -1 then Ok(text)
        else
          assert text == text[..index] + d + text[index + |d|..];
          Ok(text[index + |d|..])
      case None => Ok(text)
    else NotTextual(op.suppressExceptions)
  }

  /** On textual input the operation never faults, whatever `suppressExceptions` says. */
  lemma TextIgnoresSuppression<V>(delimiter: Option<string>, node: Node<V>)
    requires node.IsTextual()
    ensures Compute(SubstringAfterOperation(delimiter, true), node)
         == Compute(SubstringAfterOperation(delimiter, false), node)
    ensures Compute(SubstringAfterOperation(delimiter, false), node).Ok?
  {
  }

  /** The empty delimiter matches at index 0, so the whole text comes back. */
  lemma EmptyDelimiterKeepsText<V>(suppressExceptions: bool, node: Node<V>)
    requires node.IsTextual()
    ensures Compute(SubstringAfterOperation(Some(""), suppressExceptions), node) == Ok(node.text)
  {
    assert FirstOccurrence(node.text, "", 0);
  }

  /** `d` first occurs in `t` at index `i`, so the result is what follows that occurrence. */
  lemma AfterFirstOccurrence<V>(d: string, suppressExceptions: bool, t: string, i: nat)
    requires FirstOccurrence(t, d, i)
    ensures Compute<V>(SubstringAfterOperation(Some(d), suppressExceptions), Text(t)) == Ok(t[i + |d|..])
  {
    var r := Compute<V>(SubstringAfterOperation(Some(d), suppressExceptions), Text(t));
    assert t == t[..i] + d + r.value;
    assert t[i + |d|..] == (t[..i] + d + r.value)[i + |d|..];
  }

  /** The cases exercised on the document field holding `"Hello"`. */
  lemma HelloCases<V>()
    ensures Compute<V>(Default, Text("Hello")) == Ok("Hello")
    ensures Compute<V>(SubstringAfterOperation(Some("H"), false), Text("Hello")) == Ok("ello")
    ensures Compute<V>(SubstringAfterOperation(Some("Hell"), false), Text("Hello")) == Ok("o")
    ensures Compute<V>(SubstringAfterOperation(Some("Hel"), false), Text("Hello")) == Ok("lo")
  {
    AfterFirstOccurrence<V>("H", false, "Hello", 0);
    AfterFirstOccurrence<V>("Hell", false, "Hello", 0);
    AfterFirstOccurrence<V>("Hel", false, "Hello", 0);
  }

  /** The delimiter equal to the whole text `"9886098860"` leaves nothing after it. */
  lemma WholeTextCase<V>()
    ensures Compute<V>(SubstringAfterOperation(Some("9886098860"), false), Text("9886098860")) == Ok("")
  {
    AfterFirstOccurrence<V>("9886098860", false, "9886098860", 0);
  }

  /** A delimiter longer than the text cannot occur in it, so `"Hello2"` leaves `"Hello"` unchanged. */
  lemma AbsentDelimiterCase<V>()
    ensures Compute<V>(SubstringAfterOperation(Some("Hello2"), false), Text("Hello")) == Ok("Hello")
  {
  }

  /** An array or a null node faults unless exceptions are suppressed, in which case it yields `""`. */
  lemma NonTextualCases<V>(elements: seq<V>)
    ensures Compute(SubstringAfterOperation(Some("Hell"), false), Array(elements)) == Unsupported
    ensures Compute<V>(SubstringAfterOperation(Some("Hell"), false), Null) == Unsupported
    ensures Compute(SubstringAfterOperation(Some("Hell"), true), Array(elements)) == Ok("")
    ensures Compute<V>(SubstringAfterOperation(Some("Hell"), true), Null) == Ok("")
  {
  }
}
