/**
 * The string pre-operations as one closed family, dispatched on their tag,
 * and the law tying `sub_str_before` and `sub_str_after` together.
 */
module PreOperations {
  import opened Wrappers
  import opened JsonNode
  import opened JavaString
  import opened PreOperationOutcome
  import SubstringAfter
  import SubstringBefore

  datatype PreOperation =
    | After(after: SubstringAfter.SubstringAfterOperation)
    | Before(before: SubstringBefore.SubstringBeforeOperation)
  {
    /** The `operation` tag written for this pre-operation. */
    function Operation(): string {
      match this
      case After(_) => "sub_str_after"
      case Before(_) => "sub_str_before"
    }

    function SuppressExceptions(): bool {
      match this
      case After(op) => op.suppressExceptions
      case Before(op) => op.suppressExceptions
    }
  }

  /** `compute` of whichever operation `p` is. */
  function Compute<V>(p: PreOperation, node: Node<V>): (r: Outcome)
    ensures !node.IsTextual() ==> r == NotTextual(p.SuppressExceptions())
    ensures node.IsTextual() ==> r.Ok?
  {
    match p
    case After(op) => SubstringAfter.Compute(op, node)
    case Before(op) => SubstringBefore.Compute(op, node)
  }

  /**
   * Split law: when `d` occurs in `t`, the part before its first occurrence,
   * `d` itself, and the part after it put back together give `t`.
   */
  lemma SplitLaw<V>(t: string, d: string, suppressBefore: bool, suppressAfter: bool)
    requires Contains(t, d)
    ensures var before := SubstringBefore.Compute<V>(SubstringBefore.SubstringBeforeOperation(Some(d), suppressBefore), Text(t));
            var after := SubstringAfter.Compute<V>(SubstringAfter.SubstringAfterOperation(Some(d), suppressAfter), Text(t));
            before.Ok? && after.Ok? && before.value + d + after.value == t
  {
    var i := IndexOf(t, d);
    assert FirstOccurrence(t, d, i);
  }

  /** When `d` is absent (or unset) both operations return `t` itself. */
  lemma AbsentDelimiter<V>(t: string, delimiter: Option<string>, suppressBefore: bool, suppressAfter: bool)
    requires delimiter.None? || !Contains(t, delimiter.value)
    ensures SubstringBefore.Compute<V>(SubstringBefore.SubstringBeforeOperation(delimiter, suppressBefore), Text(t)) == Ok(t)
    ensures SubstringAfter.Compute<V>(SubstringAfter.SubstringAfterOperation(delimiter, suppressAfter), Text(t)) == Ok(t)
  {
  }
}
