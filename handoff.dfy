/**
 * How the two steps read the same `timeout` input: the pre step only rejects
 * NaN and negative values, and the main step turns every value that is not
 * positive into an unlimited wait.
 */
module Handoff {
  import opened Common
  import opened JsText
  import opened Pre
  import opened Gate

  /**
   * A timeout that `parseInt` reads as zero passes validation, yet the main step
   * gives it no deadline at all, the same as an empty or non-numeric timeout.
   */
  lemma ZeroTimeoutMeansUnlimited(message: string, timeout: string)
    requires !AllWhitespace(message)
    requires timeout != [] && ParseInt(timeout) == Some(0)
    ensures Preprocess(message, timeout) == Pass
    ensures NormalizeTimeout(timeout) == None
  {
  }

  /** Some of the inputs `parseInt` reads as zero: `00`, `-0`, `0.5` and `0x0`. */
  lemma ZeroNumerals()
    ensures ParseInt("00") == Some(0) && ParseInt("-0") == Some(0)
    ensures ParseInt("0.5") == Some(0) && ParseInt("0x0") == Some(0)
  {
    DoubleZero();
    NegativeZero();
    ZeroFraction();
    HexZero();
  }

  lemma DoubleZero()
    ensures ParseInt("00") == Some(0)
  {
    var ds := "00";
    assert "" + "" + ds + "" == ds;
    assert ds[..1] == "0" && ds[..1][..0] == "";
    assert DigitsValue(ds, 10) == 0;
    ParseIntOfDecimal("", "", ds, "");
  }

  lemma NegativeZero()
    ensures ParseInt("-0") == Some(0)
  {
    assert "" + "-" + "0" + "" == "-0";
    assert "0"[..0] == "";
    assert DigitsValue("0", 10) == 0;
    ParseIntOfDecimal("", "-", "0", "");
  }

  lemma ZeroFraction()
    ensures ParseInt("0.5") == Some(0)
  {
    assert "" + "" + "0" + ".5" == "0.5";
    assert "0"[..0] == "";
    assert DigitsValue("0", 10) == 0;
    ParseIntOfDecimal("", "", "0", ".5");
  }

  lemma HexZero()
    ensures ParseInt("0x0") == Some(0)
  {
    assert "" + "" + ['0', 'x'] + "0" + "" == "0x0";
    assert "0"[..0] == "";
    assert DigitsValue("0", 16) == 0;
    ParseIntOfHex("", "", 'x', "0", "");
  }

  /**
   * A timeout that passes validation parses to a number, and the main step gets
   * a deadline from it exactly when that number is positive.
   */
  lemma AcceptedTimeoutHasDeadlineIffPositive(message: string, timeout: string)
    requires Preprocess(message, timeout) == Pass && timeout != []
    ensures ParseInt(timeout).Some? && ParseInt(timeout).value >= 0
    ensures NormalizeTimeout(timeout).Some? <==> ParseInt(timeout).value > 0
  {
  }
}
