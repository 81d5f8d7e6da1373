/**
 * What a string pre-operation's `compute` delivers: the transformed text, or
 * the unsupported-operation fault it raises when the addressed node is not
 * textual and exceptions are not suppressed.
 */
module PreOperationOutcome {

  datatype Outcome = Ok(value: string) | Unsupported

  /**
   * The shared local failure policy for a non-textual node: with
   * `suppressExceptions` set the fault becomes the empty string, otherwise it
   * propagates.
   */
  function NotTextual(suppressExceptions: bool): (r: Outcome)
    ensures r.Unsupported? <==> !suppressExceptions
    ensures r.Ok? ==> r.value == ""
  {
    if suppressExceptions then Ok("") else Unsupported
  }
}
