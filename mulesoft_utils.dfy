/** mulesoft_assistant/mulesoft_utils.py: the three version-string helpers
    shared by every scraper. */
module MulesoftUtils {
  import opened Wrappers
  import opened PyStrings
  import opened VersionRegex

  /** `[int(num) for num in numbers]` for runs of ASCII digits. */
  function RunValues(runs: seq<string>): (vs: seq<int>)
    ensures |vs| == |runs|
    ensures forall k | 0 <= k < |runs| :: vs[k] == DigitsValue(runs[k])
  {
    seq(|runs|, k requires 0 <= k < |runs| => DigitsValue(runs[k]))
  }

  /** `parse_jdk_versions(jdk_string)`: "8, 11, and 17" becomes [8, 11, 17]. */
  function ParseJdkVersions(jdkString: string): seq<int> {
    if jdkString == [] then []
    else
      var s := Strip(ReplaceAll(jdkString, "and", ","));
      var numbers := DigitRuns(s);
      RunValues(numbers)
  }

  /** `is_version_string(text)`: `re.match(r'^\d+\.\d+', text)`. */
  predicate IsVersionString(text: string) {
    PairAt(text, 0)
  }

  /** `extract_version_number(text)`: the leftmost match of
      `(?:[Vv]ersion\s*)?\d+\.\d+(?:\.\d+)?` with "Version" and "version"
      removed and the result stripped; "" when nothing matches. */
  function ExtractVersionNumber(text: string): string {
    match Search(text, 0)
    case None => ""
    case Some(s) =>
      CleanMatch(text[s..MatchEnd(text, s)])
  }

  // ---------------------------------------------------------------------------
  // parse_jdk_versions
  // ---------------------------------------------------------------------------

  /** The result is exactly the maximal digit runs of the input, in order of
      appearance, as non-negative integers: replacing "and" by "," and
      stripping white space never add, remove, split or join a run. */
  lemma ParseJdkVersionsIsDigitRuns(jdkString: string)
    ensures ParseJdkVersions(jdkString) == RunValues(DigitRuns(jdkString))
    ensures forall k | 0 <= k < |ParseJdkVersions(jdkString)| :: ParseJdkVersions(jdkString)[k] >= 0
  {
    if jdkString != [] {
      assert NoDigits("and") && NoDigits(",");
      DigitRunsReplaceAll(jdkString, "and", ",");
      DigitRunsStrip(ReplaceAll(jdkString, "and", ","));
    }
  }

  /** The documented examples: "8, 11, and 17", "8 and 11" and "". */
  lemma ParseJdkVersionsExamples(three: string, two: string)
    requires three == "8, 11, and 17" && two == "8 and 11"
    ensures ParseJdkVersions(three) == [8, 11, 17]
    ensures ParseJdkVersions(two) == [8, 11]
    ensures ParseJdkVersions("") == []
  {
    JdkExampleThree(three);
    JdkExampleTwo(two);
  }

  lemma JdkExampleThree(s: string)
    requires s == "8, 11, and 17"
    ensures ParseJdkVersions(s) == [8, 11, 17]
  {
    ParseJdkVersionsIsDigitRuns(s);
    JdkExampleThreeRuns(s);
    JdkExampleValues();
  }

  lemma JdkExampleTwo(s: string)
    requires s == "8 and 11"
    ensures ParseJdkVersions(s) == [8, 11]
  {
    ParseJdkVersionsIsDigitRuns(s);
    JdkExampleTwoRuns(s);
    JdkExampleValues();
  }

  lemma JdkExampleValues()
    ensures RunValues(["8", "11", "17"]) == [8, 11, 17]
    ensures RunValues(["8", "11"]) == [8, 11]
  {
    assert DigitsValue("8") == 8 && DigitsValue("11") == 11 && DigitsValue("17") == 17;
  }

  lemma JdkExampleThreeRuns(s: string)
    requires s == "8, 11, and 17"
    ensures DigitRuns(s) == ["8", "11", "17"]
  {
    assert s == "8" + (", " + ("11" + (", and " + ("17" + ""))));
    DigitRunsRun("17", "");
    DigitRunsSkip(", and ", "17" + "");
    DigitRunsRun("11", ", and " + ("17" + ""));
    DigitRunsSkip(", ", "11" + (", and " + ("17" + "")));
    DigitRunsRun("8", ", " + ("11" + (", and " + ("17" + ""))));
  }

  lemma JdkExampleTwoRuns(s: string)
    requires s == "8 and 11"
    ensures DigitRuns(s) == ["8", "11"]
  {
    assert s == "8" + (" and " + ("11" + ""));
    DigitRunsRun("11", "");
    DigitRunsSkip(" and ", "11" + "");
    DigitRunsRun("8", " and " + ("11" + ""));
  }

  // ---------------------------------------------------------------------------
  // is_version_string
  // ---------------------------------------------------------------------------

  /** `is_version_string(t)` holds exactly when `t` starts with one or more
      digits, a '.', and a digit; nothing is trimmed first. */
  lemma IsVersionStringIff(t: string)
    ensures IsVersionString(t) <==>
      exists k | 1 <= k && k + 1 < |t| :: AllDigits(t[..k]) && t[k] == '.' && IsDigit(t[k + 1])
  {
    if IsVersionString(t) {
      var k := RunEnd(t, 0);
      assert AllDigits(t[..k]);
    }
    if exists k | 1 <= k && k + 1 < |t| :: AllDigits(t[..k]) && t[k] == '.' && IsDigit(t[k + 1]) {
      var k :| 1 <= k && k + 1 < |t| && AllDigits(t[..k]) && t[k] == '.' && IsDigit(t[k + 1]);
      assert forall i | 0 <= i < k :: t[i] == t[..k][i];
      RunEndUnique(t, 0, k);
    }
  }

  /** "4.4.0" is a version string; "4", "Edge" and " 4.4" are not. */
  lemma IsVersionStringExamples()
    ensures IsVersionString("4.4.0")
    ensures !IsVersionString("4") && !IsVersionString("Edge") && !IsVersionString(" 4.4")
  {
    RunEndUnique("4.4.0", 0, 1);
    RunEndUnique("4", 0, 1);
    RunEndUnique("Edge", 0, 0);
    RunEndUnique(" 4.4", 0, 0);
  }

  // ---------------------------------------------------------------------------
  // extract_version_number
  // ---------------------------------------------------------------------------

  /** The clean-up applied to a matched text. */
  function CleanMatch(group: string): string {
    Strip(ReplaceAll(ReplaceAll(group, "Version", ""), "version", ""))
  }

  predicate NoVs(x: string) { forall i | 0 <= i < |x| :: x[i] != 'V' && x[i] != 'v' }

  /** What the clean-up needs to know of a dotted number. */
  predicate Trimmed(c: string) {
    c != [] && NoVs(c) && !IsSpace(c[0]) && !IsSpace(c[|c| - 1])
  }

  lemma DottedTrimmed(c: string)
    requires IsDottedNumber(c)
    ensures Trimmed(c)
  {
    DottedNumberChars(c);
  }

  lemma SpacesThenTrimmed(sp: string, c: string)
    requires forall i | 0 <= i < |sp| :: IsSpace(sp[i])
    requires Trimmed(c)
    ensures NoVs(sp + c) && Strip(sp + c) == c
  {
    var x := sp + c;
    forall i | 0 <= i < |x| ensures x[i] != 'V' && x[i] != 'v' {
      if i < |sp| { assert IsSpace(sp[i]); } else { assert x[i] == c[i - |sp|]; }
    }
    StripAfterSpaces(sp, c);
  }

  lemma CleanMatchUpper(x: string)
    requires NoVs(x)
    ensures CleanMatch("Version" + x) == Strip(x)
  {
    ReplaceAllAtStart("Version", x, "");
    ReplaceAllAbsent(x, "Version", "");
    assert ReplaceAll("Version" + x, "Version", "") == x;
    ReplaceAllAbsent(x, "version", "");
    assert ReplaceAll(x, "version", "") == x;
  }

  lemma CleanMatchLower(x: string)
    requires NoVs(x)
    ensures CleanMatch("version" + x) == Strip(x)
  {
    var z := "ersion" + x;
    assert "version" + x == ['v'] + z;
    assert forall i | 0 <= i < |z| :: z[i] != 'V' by {
      forall i | 0 <= i < |z| ensures z[i] != 'V' {
        if i >= 6 { assert z[i] == x[i - 6]; }
      }
    }
    ReplaceAllKeepsHead('v', z, "Version", "");
    ReplaceAllAbsent(z, "Version", "");
    assert ReplaceAll("version" + x, "Version", "") == "version" + x;
    ReplaceAllAtStart("version", x, "");
    ReplaceAllAbsent(x, "version", "");
    assert ReplaceAll("version" + x, "version", "") == x;
  }

  /** Removing "Version"/"version" and stripping a matched text leaves its
      dotted number. */
  lemma CleanGroup(w: string, c: string)
    requires w == [] || IsVersionWord(w)
    requires IsDottedNumber(c)
    ensures CleanMatch(w + c) == c
  {
    DottedTrimmed(c);
    if w == [] {
      assert w + c == c;
      CleanTrimmed(c);
    } else {
      CleanWord(w, c);
    }
  }

  lemma CleanTrimmed(c: string)
    requires Trimmed(c)
    ensures CleanMatch(c) == c
  {
    ReplaceAllAbsent(c, "Version", "");
    assert ReplaceAll(c, "Version", "") == c;
    ReplaceAllAbsent(c, "version", "");
    assert ReplaceAll(c, "version", "") == c;
    StripUnchanged(c);
  }

  lemma CleanWord(w: string, c: string)
    requires IsVersionWord(w)
    requires Trimmed(c)
    ensures CleanMatch(w + c) == c
  {
    var sp := w[7..];
    WordParts(w);
    AppendAssoc(w[..7], sp, c);
    SpacesThenTrimmed(sp, c);
    if w[0] == 'V' {
      CleanMatchUpper(sp + c);
      CleanMatchOfEqual(w + c, "Version" + (sp + c), c);
    } else {
      CleanMatchLower(sp + c);
      CleanMatchOfEqual(w + c, "version" + (sp + c), c);
    }
  }

  lemma AppendAssoc(a: string, b: string, c: string)
    ensures (a + b) + c == a + (b + c)
  {
  }

  lemma CleanMatchOfEqual(u: string, v: string, r: string)
    requires u == v && CleanMatch(v) == r
    ensures CleanMatch(u) == r
  {
  }

  /** A version word is "Version" or "version" followed by white space. */
  lemma WordParts(w: string)
    requires IsVersionWord(w)
    ensures w == w[..7] + w[7..]
    ensures w[..7] == (if w[0] == 'V' then "Version" else "version")
    ensures forall i | 0 <= i < |w[7..]| :: IsSpace(w[7..][i])
  {
    forall i | 0 <= i < |w[7..]| ensures IsSpace(w[7..][i]) { assert w[7..][i] == w[7 + i]; }
  }

  /** The cleaned text of the match `re.search` finds. */
  lemma ExtractIsCleanMatch(text: string)
    requires Search(text, 0).Some?
    ensures var s := Search(text, 0).value;
      ExtractVersionNumber(text) == CleanMatch(text[s..MatchEnd(text, s)])
  {
  }

  /** The cleaned match is the dotted number after the optional version word. */
  lemma CleanMatchAt(text: string, s: nat)
    requires s <= |text| && MatchAt(text, s).Some?
    ensures var p := MatchAt(text, s).value;
      && CleanMatch(text[s..MatchEnd(text, s)]) == text[p..MatchEnd(text, s)]
      && IsDottedNumber(text[p..MatchEnd(text, s)])
  {
    var p := MatchAt(text, s).value;
    var e := MatchEnd(text, s);
    MatchedText(text, s);
    var w, c := text[s..p], text[p..e];
    CleanGroup(w, c);
    assert text[s..e] == w + c;
  }

  /** What `extract_version_number` returns when `re.search` finds a match. */
  lemma ExtractFromMatch(text: string)
    requires Search(text, 0).Some?
    ensures var s := Search(text, 0).value;
      var p := MatchAt(text, s).value;
      && ExtractVersionNumber(text) == text[p..MatchEnd(text, s)]
      && IsDottedNumber(ExtractVersionNumber(text))
      && forall q | 0 <= q < p :: !PairAt(text, q)
  {
    var s := Search(text, 0).value;
    ExtractIsCleanMatch(text);
    CleanMatchAt(text, s);
    SearchFindsFirstPair(text, 0);
  }

  /** Whether a version string starts at each position of the text. */
  lemma VersionStringAt(text: string)
    ensures forall q | 0 <= q <= |text| :: IsVersionString(text[q..]) <==> PairAt(text, q)
  {
    forall q | 0 <= q <= |text| ensures IsVersionString(text[q..]) <==> PairAt(text, q) {
      PairAtSuffix(text, q);
    }
  }

  /** The result is "" exactly when no `\d+\.\d+` occurs anywhere in the text,
      that is when `is_version_string` holds at no position of it. */
  lemma ExtractVersionNumberEmptyIff(text: string)
    ensures ExtractVersionNumber(text) == "" <==>
      forall p | 0 <= p <= |text| :: !IsVersionString(text[p..])
  {
    SearchNoneIff(text, 0);
    VersionStringAt(text);
    if Search(text, 0).Some? {
      ExtractFromMatch(text);
    }
  }

  /** A non-empty result is the `\d+\.\d+(\.\d+)?` text matched at the leftmost
      position where a `\d+\.\d+` starts (where `is_version_string` of the
      rest holds, by VersionStringAt), with the optional third component
      taken whenever present. */
  lemma ExtractVersionNumberLeftmost(text: string)
    requires ExtractVersionNumber(text) != ""
    ensures exists p | 0 <= p < |text| ::
      && PairAt(text, p)
      && (forall q | 0 <= q < p :: !PairAt(text, q))
      && ExtractVersionNumber(text) == text[p..VersionEnd(text, p)]
  {
    var s := Search(text, 0).value;
    var p := MatchAt(text, s).value;
    ExtractFromMatch(text);
    assert PairAt(text, p);
  }

  /** A non-empty result has the shape `\d+\.\d+(\.\d+)?`: digits and dots only
      (so no "Version"/"version" text and no surrounding white space), and it
      is itself a version string. */
  lemma ExtractVersionNumberShape(text: string)
    requires ExtractVersionNumber(text) != ""
    ensures var r := ExtractVersionNumber(text);
      && IsDottedNumber(r) && IsVersionString(r)
      && (forall i | 0 <= i < |r| :: IsDigit(r[i]) || r[i] == '.')
      && IsDigit(r[0]) && IsDigit(r[|r| - 1])
  {
    ExtractFromMatch(text);
    DottedNumberChars(ExtractVersionNumber(text));
  }

  /** A text without any digit has no version number. */
  lemma ExtractVersionNumberNoDigits(text: string)
    requires NoDigits(text)
    ensures ExtractVersionNumber(text) == ""
  {
    SearchNoneIff(text, 0);
    forall q | 0 <= q <= |text| ensures !PairAt(text, q) {
      if q < |text| { assert !IsDigit(text[q]); }
    }
  }

  /** Where the leftmost dotted pair is known, the result is the text matched there. */
  lemma ExtractAt(text: string, p: nat)
    requires p <= |text| && PairAt(text, p)
    requires forall q | 0 <= q < p :: !PairAt(text, q)
    ensures ExtractVersionNumber(text) == text[p..VersionEnd(text, p)]
  {
    ExtractVersionNumberEmptyIff(text);
    VersionStringAt(text);
    ExtractVersionNumberLeftmost(text);
  }

  /** The documented examples. */
  lemma ExtractVersionNumberExamples(heading: string, plain: string)
    requires heading == "DataWeave Version 2.10.0 Release Notes"
    requires plain == "no version here"
    ensures ExtractVersionNumber(heading) == "2.10.0"
    ensures ExtractVersionNumber(plain) == ""
  {
    assert NoDigits(plain);
    ExtractVersionNumberNoDigits(plain);
    HeadingExamplePositions(heading);
    ExtractAt(heading, 18);
  }

  lemma HeadingExamplePositions(t: string)
    requires t == "DataWeave Version 2.10.0 Release Notes"
    ensures PairAt(t, 18) && VersionEnd(t, 18) == 24
    ensures forall q | 0 <= q < 18 :: !PairAt(t, q)
    ensures t[18..24] == "2.10.0"
  {
    HeadingExampleRuns(t);
    HeadingExampleNoEarlierPair(t);
    HeadingExampleSlice(t);
  }

  lemma HeadingExampleRuns(t: string)
    requires t == "DataWeave Version 2.10.0 Release Notes"
    ensures PairAt(t, 18) && VersionEnd(t, 18) == 24
  {
    RunEndUnique(t, 18, 19);
    RunEndUnique(t, 20, 22);
    RunEndUnique(t, 23, 24);
  }

  lemma HeadingExampleNoEarlierPair(t: string)
    requires t == "DataWeave Version 2.10.0 Release Notes"
    ensures forall q | 0 <= q < 18 :: !PairAt(t, q)
  {
    forall q | 0 <= q < 18 ensures !PairAt(t, q) {
      assert !IsDigit(t[q]);
    }
  }

  lemma HeadingExampleSlice(t: string)
    requires t == "DataWeave Version 2.10.0 Release Notes"
    ensures t[18..24] == "2.10.0"
  {
  }
}
