/** ASCII models of the Python string operations the scraper relies on:
    character classes, `lower`/`upper`/`capitalize`, `in`, `startswith`,
    `replace`, `strip`, `split()`, `split(sep)`, `int(...)` and slicing
    `s[:n]`. Characters outside ASCII are not given any special treatment. */
module PyStrings {
  import opened Wrappers

  /** `str.isdigit` restricted to ASCII, i.e. the class `\d` of `re`. */
  predicate IsDigit(c: char) { '0' <= c <= '9' }

  /** `str.isspace` restricted to ASCII, i.e. the class `\s` of `re`. */
  predicate IsSpace(c: char) {
    c == ' ' || c == '\t' || c == '\n' || c == '\r' || c == '\U{B}' || c == '\U{C}'
    || ('\U{1C}' <= c <= '\U{1F}')
  }

  predicate AllDigits(s: string) { forall i | 0 <= i < |s| :: IsDigit(s[i]) }

  predicate NoDigits(s: string) { forall i | 0 <= i < |s| :: !IsDigit(s[i]) }

  function LowerChar(c: char): char {
    if 'A' <= c <= 'Z' then (c as int + 32) as char else c
  }

  function UpperChar(c: char): char {
    if 'a' <= c <= 'z' then (c as int - 32) as char else c
  }

  /** `s.lower()` */
  function Lower(s: string): (r: string)
    ensures |r| == |s|
    ensures forall i | 0 <= i < |s| :: r[i] == LowerChar(s[i])
  {
    seq(|s|, i requires 0 <= i < |s| => LowerChar(s[i]))
  }

  /** `s.upper()` */
  function Upper(s: string): (r: string)
    ensures |r| == |s|
    ensures forall i | 0 <= i < |s| :: r[i] == UpperChar(s[i])
  {
    seq(|s|, i requires 0 <= i < |s| => UpperChar(s[i]))
  }

  /** `s.capitalize()`: the first character upper-cased, the rest lower-cased. */
  function Capitalize(s: string): (r: string)
    ensures |r| == |s|
  {
    if s == [] then [] else [UpperChar(s[0])] + Lower(s[1..])
  }

  lemma LowerAppend(a: string, b: string)
    ensures Lower(a + b) == Lower(a) + Lower(b)
  {
    assert forall i | 0 <= i < |a + b| :: Lower(a + b)[i] == (Lower(a) + Lower(b))[i];
  }

  lemma LowerIdempotent(s: string)
    ensures Lower(Lower(s)) == Lower(s)
  {
    assert forall i | 0 <= i < |s| :: Lower(Lower(s))[i] == Lower(s)[i];
  }

  lemma LowerOfUpper(s: string)
    ensures Lower(Upper(s)) == Lower(s)
  {
    assert forall i | 0 <= i < |s| :: Lower(Upper(s))[i] == Lower(s)[i];
  }

  lemma LowerOfCapitalize(s: string)
    ensures Lower(Capitalize(s)) == Lower(s)
  {
    if s != [] {
      LowerAppend([UpperChar(s[0])], Lower(s[1..]));
      LowerIdempotent(s[1..]);
      LowerAppend([s[0]], s[1..]);
      assert s == [s[0]] + s[1..];
    }
  }

  /** Python's `sub in s`. */
  function Contains(s: string, sub: string): (b: bool)
    ensures b <==> exists i | 0 <= i <= |s| :: sub <= s[i..]
    decreases |s|
  {
    if sub <= s then
      assert sub <= s[0..];
      true
    else if s == [] then
      false
    else
      var b := Contains(s[1..], sub);
      assert forall i | 1 <= i <= |s| :: s[i..] == s[1..][i - 1..];
      b
  }

  /** `sub in s` is false when no two adjacent characters of `s` spell the
      first two of `sub`. */
  lemma NotContainsByPairs(s: string, sub: string)
    requires |sub| >= 2
    requires forall i | 0 <= i < |s| - 1 :: s[i] != sub[0] || s[i + 1] != sub[1]
    ensures !Contains(s, sub)
  {
    forall i | 0 <= i <= |s|
      ensures !(sub <= s[i..])
    {
      if i < |s| - 1 {
        assert s[i..][0] == s[i] && s[i..][1] == s[i + 1];
      }
    }
  }

  /** `s.replace(pat, rep)` for a non-empty `pat`: occurrences are replaced
      left to right without overlapping. */
  function ReplaceAll(s: string, pat: string, rep: string): string
    requires pat != []
    decreases |s|
  {
    if pat <= s then rep + ReplaceAll(s[|pat|..], pat, rep)
    else if s == [] then []
    else [s[0]] + ReplaceAll(s[1..], pat, rep)
  }

  /** Replacing never alters a string in which the pattern's first character
      does not occur. */
  lemma {:induction false} ReplaceAllAbsent(s: string, pat: string, rep: string)
    requires pat != []
    requires forall i | 0 <= i < |s| :: s[i] != pat[0]
    ensures ReplaceAll(s, pat, rep) == s
  {
    if s != [] {
      assert !(pat <= s) by { assert s[0] != pat[0]; }
      ReplaceAllAbsent(s[1..], pat, rep);
    }
  }

  /** A string that begins with the pattern has that first occurrence replaced. */
  lemma ReplaceAllAtStart(pat: string, x: string, rep: string)
    requires pat != []
    ensures ReplaceAll(pat + x, pat, rep) == rep + ReplaceAll(x, pat, rep)
  {
    assert pat <= pat + x;
    assert (pat + x)[|pat|..] == x;
  }

  /** A first character that does not start the pattern is kept. */
  lemma ReplaceAllKeepsHead(c: char, x: string, pat: string, rep: string)
    requires pat != [] && c != pat[0]
    ensures ReplaceAll([c] + x, pat, rep) == [c] + ReplaceAll(x, pat, rep)
  {
    assert !(pat <= [c] + x) by { assert ([c] + x)[0] == c; }
    assert ([c] + x)[1..] == x;
  }

  /** The number of white-space characters `s` starts with. */
  function LeadingSpaces(s: string): (n: nat)
    ensures n <= |s|
    ensures forall i | 0 <= i < n :: IsSpace(s[i])
    ensures n < |s| ==> !IsSpace(s[n])
  {
    if s != [] && IsSpace(s[0]) then 1 + LeadingSpaces(s[1..]) else 0
  }

  /** `s.lstrip()` */
  function StripLeft(s: string): (r: string)
    ensures |r| <= |s| && r == s[|s| - |r|..]
    ensures r == [] || !IsSpace(r[0])
    ensures forall i | 0 <= i < |s| - |r| :: IsSpace(s[i])
  {
    s[LeadingSpaces(s)..]
  }

  /** `s.rstrip()` */
  function StripRight(s: string): (r: string)
    ensures |r| <= |s| && r == s[..|r|]
    ensures r == [] || !IsSpace(r[|r| - 1])
    ensures forall i | |r| <= i < |s| :: IsSpace(s[i])
  {
    if s != [] && IsSpace(s[|s| - 1]) then StripRight(s[..|s| - 1]) else s
  }

  /** `s.strip()` */
  function Strip(s: string): string {
    StripRight(StripLeft(s))
  }

  /** A string that neither starts nor ends with white space is its own strip. */
  lemma StripUnchanged(s: string)
    requires s == [] || (!IsSpace(s[0]) && !IsSpace(s[|s| - 1]))
    ensures Strip(s) == s
  {
  }

  /** Stripping leaves a string alone when it neither starts nor ends with white space, whatever white space precedes it. */
  lemma StripAfterSpaces(w: string, s: string)
    requires forall i | 0 <= i < |w| :: IsSpace(w[i])
    requires s != [] && !IsSpace(s[0]) && !IsSpace(s[|s| - 1])
    ensures Strip(w + s) == s
  {
    StripLeftSpaces(w, s);
  }

  lemma {:induction false} StripLeftSpaces(w: string, s: string)
    requires forall i | 0 <= i < |w| :: IsSpace(w[i])
    requires s == [] || !IsSpace(s[0])
    ensures StripLeft(w + s) == s
  {
    if w != [] {
      assert (w + s)[1..] == w[1..] + s;
      StripLeftSpaces(w[1..], s);
    }
  }

  /** Number of leading characters of `s` that are not white space. */
  function LeadingNonSpace(s: string): (n: nat)
    ensures n <= |s|
    ensures forall i | 0 <= i < n :: !IsSpace(s[i])
    ensures n < |s| ==> IsSpace(s[n])
  {
    if s == [] || IsSpace(s[0]) then 0 else 1 + LeadingNonSpace(s[1..])
  }

  /** `s.split()`: the maximal runs of non-white-space characters, in order. */
  function Words(s: string): (ws: seq<string>)
    ensures forall k | 0 <= k < |ws| :: ws[k] != []
    decreases |s|
  {
    var t := StripLeft(s);
    if t == [] then []
    else
      var n := LeadingNonSpace(t);
      [t[..n]] + Words(t[n..])
  }

  /** Index of the first `c` in `s`, or `|s|` when there is none. */
  function IndexOf(s: string, c: char): (i: nat)
    ensures i <= |s|
    ensures forall k | 0 <= k < i :: s[k] != c
    ensures i < |s| ==> s[i] == c
  {
    if s == [] then 0 else if s[0] == c then 0 else 1 + IndexOf(s[1..], c)
  }

  /** `s.split(sep)` for a one-character separator: always at least one piece,
      and empty pieces are kept. */
  function SplitOn(s: string, sep: char): (pieces: seq<string>)
    ensures |pieces| >= 1
    decreases |s|
  {
    var i := IndexOf(s, sep);
    if i == |s| then [s] else [s[..i]] + SplitOn(s[i + 1..], sep)
  }

  /** Value of a string of ASCII digits, leading zeros allowed (`int("007") == 7`). */
  function DigitsValue(d: string): (v: nat)
    decreases |d|
  {
    if d == [] then 0
    else DigitsValue(d[..|d| - 1]) * 10 + (d[|d| - 1] as int - '0' as int) % 10
  }

  /** The digits-and-underscores body that `int()` accepts: digits, with single
      underscores allowed between two digits. */
  predicate IsIntBody(b: string) {
    && b != [] && IsDigit(b[0]) && IsDigit(b[|b| - 1])
    && (forall i | 0 <= i < |b| :: IsDigit(b[i]) || b[i] == '_')
    && (forall i | 0 <= i < |b| - 1 :: !(b[i] == '_' && b[i + 1] == '_'))
  }

  function RemoveUnderscores(b: string): (r: string)
    ensures |r| <= |b|
  {
    if b == [] then [] else (if b[0] == '_' then [] else [b[0]]) + RemoveUnderscores(b[1..])
  }

  /** `int(s)` for a string argument, ASCII only: surrounding white space is
      ignored, one sign is allowed; `None` stands for the `ValueError`. */
  function PyInt(s: string): Option<int> {
    var t := Strip(s);
    var negative := t != [] && t[0] == '-';
    var body := if t != [] && (t[0] == '-' || t[0] == '+') then t[1..] else t;
    if IsIntBody(body) then
      var v: int := DigitsValue(RemoveUnderscores(body));
      Some(if negative then -v else v)
    else None
  }

  lemma {:induction false} RemoveUnderscoresOfDigits(d: string)
    requires AllDigits(d)
    ensures RemoveUnderscores(d) == d
  {
    if d != [] {
      RemoveUnderscoresOfDigits(d[1..]);
    }
  }

  /** `int()` of a plain digit string is its decimal value. */
  lemma PyIntOfDigits(d: string)
    requires d != [] && AllDigits(d)
    ensures PyInt(d) == Some(DigitsValue(d))
  {
    StripUnchanged(d);
    assert Strip(d) == d;
    assert !(d[0] == '-' || d[0] == '+') by { assert IsDigit(d[0]); }
    assert IsIntBody(d) by {
      assert forall i | 0 <= i < |d| :: IsDigit(d[i]);
      assert forall i | 0 <= i < |d| - 1 :: d[i] != '_';
    }
    RemoveUnderscoresOfDigits(d);
  }

  /** Python slicing `s[:n]` for `n >= 0`. */
  function Take<T>(s: seq<T>, n: nat): (r: seq<T>)
    ensures |r| == Min(n, |s|) && r == s[..|r|]
  {
    if |s| <= n then s else s[..n]
  }
}
