/** mcp_mulesoft_assistant/mulesoft_utils.py: the second copy of the three
    version-string helpers, written out as that file has them, and proved to
    agree with the first copy, from which it inherits every property. */
module McpMulesoftUtils {
  import opened PyStrings
  import opened VersionRegex
  import U = MulesoftUtils

  function ParseJdkVersions(jdkString: string): seq<int> {
    if jdkString == [] then []
    else
      var s := Strip(ReplaceAll(jdkString, "and", ","));
      var numbers := DigitRuns(s);
      U.RunValues(numbers)
  }

  predicate IsVersionString(text: string) {
    PairAt(text, 0)
  }

  function ExtractVersionNumber(text: string): string {
    match Search(text, 0)
    case None => ""
    case Some(s) =>
      Strip(ReplaceAll(ReplaceAll(text[s..MatchEnd(text, s)], "Version", ""), "version", ""))
  }

  /** The two copies agree on every input. */
  lemma CopiesAgree(text: string)
    ensures ParseJdkVersions(text) == U.ParseJdkVersions(text)
    ensures IsVersionString(text) == U.IsVersionString(text)
    ensures ExtractVersionNumber(text) == U.ExtractVersionNumber(text)
  {
  }

  /** An empty JDK string gives no versions; otherwise the result is the
      maximal digit runs of the input, in order, as integers. */
  lemma ParseJdkVersionsIsDigitRuns(jdkString: string)
    ensures jdkString == [] ==> ParseJdkVersions(jdkString) == []
    ensures ParseJdkVersions(jdkString) == U.RunValues(DigitRuns(jdkString))
  {
    CopiesAgree(jdkString);
    U.ParseJdkVersionsIsDigitRuns(jdkString);
  }

  /** `is_version_string` holds exactly when the text starts with digits, a
      dot and a digit. */
  lemma IsVersionStringIff(t: string)
    ensures IsVersionString(t) <==>
      exists n | 1 <= n && n + 1 < |t| :: AllDigits(t[..n]) && t[n] == '.' && IsDigit(t[n + 1])
  {
    CopiesAgree(t);
    U.IsVersionStringIff(t);
  }

  /** The result is "" exactly when no `\d+\.\d+` occurs in the text. */
  lemma ExtractVersionNumberEmptyIff(text: string)
    ensures ExtractVersionNumber(text) == "" <==>
      forall p | 0 <= p <= |text| :: !IsVersionString(text[p..])
  {
    CopiesAgree(text);
    forall p | 0 <= p <= |text| ensures IsVersionString(text[p..]) == U.IsVersionString(text[p..]) {
      CopiesAgree(text[p..]);
    }
    U.ExtractVersionNumberEmptyIff(text);
  }

  /** A non-empty result holds digits and dots only: no "Version"/"version"
      text and no surrounding white space. */
  lemma ExtractVersionNumberShape(text: string)
    requires ExtractVersionNumber(text) != ""
    ensures var r := ExtractVersionNumber(text);
      && (forall i | 0 <= i < |r| :: IsDigit(r[i]) || r[i] == '.')
      && IsDigit(r[0]) && IsDigit(r[|r| - 1])
  {
    CopiesAgree(text);
    U.ExtractVersionNumberShape(text);
  }
}
