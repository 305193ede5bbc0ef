/**
 * The action's pre step: validate the `message` and `timeout` inputs before
 * the main step runs. The message is checked first; the first failure is the
 * one reported.
 */
module Pre {
  import opened Common
  import opened JsText

  datatype InputError = MissingMessage | InvalidTimeout

  /** The step passes, or fails with exactly one error. */
  datatype Validation = Pass | Fail(error: InputError)

  /**
   * `preprocess`: a message with no character other than whitespace fails;
   * then a non-empty timeout must `parseInt` to a number that is not NaN and
   * not negative. An empty timeout is accepted without being parsed.
   */
  function Preprocess(message: string, timeout: string): (v: Validation)
    ensures v == Fail(MissingMessage) <==> AllWhitespace(message)
    ensures v == Fail(InvalidTimeout) <==>
      !AllWhitespace(message) && timeout != [] && (ParseInt(timeout).None? || ParseInt(timeout).value < 0)
    ensures v == Pass <==>
      !AllWhitespace(message) && (timeout == [] || (ParseInt(timeout).Some? && ParseInt(timeout).value >= 0))
  {
    if message == [] || Trim(message) == [] then Fail(MissingMessage)
    else if timeout != [] then
      var t := ParseInt(timeout);
      if t.None? || t.value < 0 then Fail(InvalidTimeout) else Pass
    else Pass
  }

  /** Every decimal numeral of a non-negative number is a valid timeout; a negative one is not. */
  lemma NumeralTimeouts(message: string, n: int)
    requires !AllWhitespace(message)
    ensures Preprocess(message, ShowInt(n)) == if n >= 0 then Pass else Fail(InvalidTimeout)
  {
    assert ShowInt(n) + [] == ShowInt(n);
    ParseIntOfNumeral(n, []);
  }
}
