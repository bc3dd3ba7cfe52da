/** The regular expressions of the version utilities and of the connector
    scraper, stated as functions over ASCII strings:
      `\d+`                                     (DigitRuns, LeadingDigits)
      `\d+\.\d+` matched at a position           (DottedPairAt)
      `(?:[Vv]ersion\s*)?\d+\.\d+(?:\.\d+)?`     (MatchAt, Search, FindAll)
      `.*(?:[Vv]ersion\s*)?\d+\.\d+(?:\.\d+)?.*` (HeadingPatternFrom)
    Each one follows how Python's backtracking engine settles the match:
    leftmost start, then greedy repetition, then backtracking out of an
    optional group when what follows it fails. */
module VersionRegex {
  import opened Wrappers
  import opened PyStrings

  /** End (exclusive) of the maximal run of digits of `t` starting at `i`. */
  function RunEnd(t: string, i: nat): (e: nat)
    requires i <= |t|
    ensures i <= e <= |t|
    ensures forall k | i <= k < e :: IsDigit(t[k])
    ensures e < |t| ==> !IsDigit(t[e])
    decreases |t| - i
  {
    if i < |t| && IsDigit(t[i]) then RunEnd(t, i + 1) else i
  }

  /** The maximal digit run is determined by the two facts that define it. */
  lemma RunEndUnique(t: string, i: nat, e: nat)
    requires i <= e <= |t|
    requires forall k | i <= k < e :: IsDigit(t[k])
    requires e < |t| ==> !IsDigit(t[e])
    ensures RunEnd(t, i) == e
  {
  }

  /** A digit run seen through a window `t[lo..hi]` that holds all of it. */
  lemma RunEndInSlice(t: string, lo: nat, hi: nat, i: nat)
    requires lo <= i <= hi <= |t| && RunEnd(t, i) <= hi
    ensures RunEnd(t[lo..hi], i - lo) == RunEnd(t, i) - lo
  {
    var s := t[lo..hi];
    var e := RunEnd(t, i);
    forall k | i - lo <= k < e - lo ensures IsDigit(s[k]) {
      assert s[k] == t[lo + k];
    }
    if e - lo < |s| {
      assert s[e - lo] == t[e];
    }
    RunEndUnique(s, i - lo, e - lo);
  }

  /** Length of the maximal run of digits at the start of `s`. */
  function LeadingDigits(s: string): (n: nat)
    ensures n <= |s|
    ensures forall i | 0 <= i < n :: IsDigit(s[i])
    ensures n < |s| ==> !IsDigit(s[n])
  {
    RunEnd(s, 0)
  }

  lemma LeadingDigitsUnique(s: string, n: nat)
    requires n <= |s|
    requires forall i | 0 <= i < n :: IsDigit(s[i])
    requires n < |s| ==> !IsDigit(s[n])
    ensures LeadingDigits(s) == n
  {
    RunEndUnique(s, 0, n);
  }

  lemma LeadingDigitsAppend(d: string, s: string)
    requires AllDigits(d)
    ensures LeadingDigits(d + s) == |d| + LeadingDigits(s)
  {
    var n := LeadingDigits(s);
    assert forall i | 0 <= i < |d| + n :: IsDigit((d + s)[i]) by {
      forall i | 0 <= i < |d| + n ensures IsDigit((d + s)[i]) {
        if i >= |d| { assert (d + s)[i] == s[i - |d|]; }
      }
    }
    if |d| + n < |d + s| { assert (d + s)[|d| + n] == s[n]; }
    LeadingDigitsUnique(d + s, |d| + n);
  }

  /** End (exclusive) of the maximal run of white space of `t` starting at `i`. */
  function SpaceEnd(t: string, i: nat): (e: nat)
    requires i <= |t|
    ensures i <= e <= |t|
    ensures forall k | i <= k < e :: IsSpace(t[k])
    ensures e < |t| ==> !IsSpace(t[e])
    decreases |t| - i
  {
    if i < |t| && IsSpace(t[i]) then SpaceEnd(t, i + 1) else i
  }

  // ---------------------------------------------------------------------------
  // re.findall(r'\d+', s)
  // ---------------------------------------------------------------------------

  /** `re.findall(r'\d+', s)`: the maximal digit runs of `s`, left to right. */
  function DigitRuns(s: string): (runs: seq<string>)
    ensures forall k | 0 <= k < |runs| :: runs[k] != [] && AllDigits(runs[k])
    decreases |s|
  {
    if s == [] then []
    else if !IsDigit(s[0]) then DigitRuns(s[1..])
    else
      var n := LeadingDigits(s);
      [s[..n]] + DigitRuns(s[n..])
  }

  /** Characters that are not digits never start, end or join a run. */
  lemma {:induction false} DigitRunsSkip(w: string, s: string)
    requires NoDigits(w)
    ensures DigitRuns(w + s) == DigitRuns(s)
  {
    if w != [] {
      var x := w + s;
      assert x[0] == w[0] && !IsDigit(x[0]);
      assert x[1..] == w[1..] + s;
      assert DigitRuns(x) == DigitRuns(x[1..]);
      DigitRunsSkip(w[1..], s);
    } else {
      assert w + s == s;
    }
  }

  /** A run of digits followed by a non-digit (or by nothing) is one run. */
  lemma DigitRunsRun(d: string, s: string)
    requires d != [] && AllDigits(d)
    requires s == [] || !IsDigit(s[0])
    ensures DigitRuns(d + s) == [d] + DigitRuns(s)
  {
    LeadingDigitsAppend(d, s);
    assert (d + s)[0] == d[0];
    assert (d + s)[..|d|] == d;
    assert (d + s)[|d|..] == s;
  }

  /** Non-digits at the end never add a run. */
  lemma {:induction false} DigitRunsTrailing(s: string, w: string)
    requires NoDigits(w)
    ensures DigitRuns(s + w) == DigitRuns(s)
    decreases |s|
  {
    if s == [] {
      assert w + [] == w;
      DigitRunsSkip(w, []);
      assert [] + w == w;
    } else if !IsDigit(s[0]) {
      assert (s + w)[1..] == s[1..] + w;
      DigitRunsTrailing(s[1..], w);
    } else {
      var n := LeadingDigits(s);
      var d := s[..n];
      assert s == d + s[n..];
      assert s + w == d + (s[n..] + w);
      DigitRunsRun(d, s[n..] + w);
      DigitRunsRun(d, s[n..]);
      DigitRunsTrailing(s[n..], w);
    }
  }

  /** Replacing a digit-free pattern by a non-empty digit-free text keeps every
      digit run: the runs before and after the replaced text stay separated. */
  lemma {:induction false} DigitRunsReplaceAll(s: string, pat: string, rep: string)
    requires pat != [] && NoDigits(pat)
    requires rep != [] && NoDigits(rep)
    ensures DigitRuns(ReplaceAll(s, pat, rep)) == DigitRuns(s)
    decreases |s|
  {
    if pat <= s {
      var rest := s[|pat|..];
      assert s == pat + rest;
      DigitRunsReplaceAll(rest, pat, rep);
      DigitRunsSkip(rep, ReplaceAll(rest, pat, rep));
      DigitRunsSkip(pat, rest);
    } else if s == [] {
    } else if !IsDigit(s[0]) {
      DigitRunsReplaceAll(s[1..], pat, rep);
      DigitRunsSkip([s[0]], ReplaceAll(s[1..], pat, rep));
    } else {
      var n := LeadingDigits(s);
      var d, rest := s[..n], s[n..];
      assert s == d + rest;
      ReplaceAllDigitsPrefix(d, rest, pat, rep);
      var r := ReplaceAll(rest, pat, rep);
      assert r == [] || !IsDigit(r[0]) by {
        if rest != [] {
          if pat <= rest { assert r[0] == rep[0]; } else { assert r[0] == rest[0]; }
        }
      }
      DigitRunsRun(d, r);
      DigitRunsReplaceAll(rest, pat, rep);
    }
  }

  lemma {:induction false} ReplaceAllDigitsPrefix(d: string, rest: string, pat: string, rep: string)
    requires pat != [] && NoDigits(pat) && AllDigits(d)
    ensures ReplaceAll(d + rest, pat, rep) == d + ReplaceAll(rest, pat, rep)
  {
    if d != [] {
      var x := d + rest;
      assert x[0] == d[0] && IsDigit(x[0]) && !IsDigit(pat[0]);
      assert !(pat <= x);
      assert x[1..] == d[1..] + rest;
      assert ReplaceAll(x, pat, rep) == [x[0]] + ReplaceAll(x[1..], pat, rep);
      ReplaceAllDigitsPrefix(d[1..], rest, pat, rep);
      assert d == [d[0]] + d[1..];
    } else {
      assert d + rest == rest;
    }
  }

  /** Stripping white space never changes the digit runs. */
  lemma DigitRunsStrip(s: string)
    ensures DigitRuns(Strip(s)) == DigitRuns(s)
  {
    DigitRunsStripLeft(s);
    DigitRunsStripRight(StripLeft(s));
  }

  lemma DigitRunsStripLeft(s: string)
    ensures DigitRuns(StripLeft(s)) == DigitRuns(s)
  {
    var t := StripLeft(s);
    var lead := s[..|s| - |t|];
    assert s == lead + t;
    assert NoDigits(lead) by {
      forall i | 0 <= i < |lead| ensures !IsDigit(lead[i]) { assert IsSpace(s[i]); }
    }
    DigitRunsSkip(lead, t);
  }

  lemma DigitRunsStripRight(t: string)
    ensures DigitRuns(StripRight(t)) == DigitRuns(t)
  {
    var u := StripRight(t);
    var trail := t[|u|..];
    assert t == u + trail;
    assert NoDigits(trail) by {
      forall i | 0 <= i < |trail| ensures !IsDigit(trail[i]) { assert IsSpace(t[|u| + i]); }
    }
    DigitRunsTrailing(u, trail);
  }

  // ---------------------------------------------------------------------------
  // \d+\.\d+(?:\.\d+)?
  // ---------------------------------------------------------------------------

  /** `\d+\.\d+` matches at position `i` of `t`. The first `\d+` has to take
      its whole digit run, since the '.' that must follow it is not a digit. */
  predicate PairAt(t: string, i: nat)
    requires i <= |t|
  {
    var n := RunEnd(t, i);
    i < n && n + 1 < |t| && t[n] == '.' && IsDigit(t[n + 1])
  }

  /** A pair at position `q` is a pair at the start of the suffix from `q`. */
  lemma PairAtSuffix(t: string, q: nat)
    requires q <= |t|
    ensures PairAt(t, q) <==> PairAt(t[q..], 0)
  {
    RunEndInSlice(t, q, |t|, q);
    var n := RunEnd(t, q);
    if n + 1 < |t| {
      assert t[q..][n - q] == t[n] && t[q..][n + 1 - q] == t[n + 1];
    }
  }

  /** End (exclusive) of the text `\d+\.\d+(?:\.\d+)?` matches at `i`: both
      digit runs are maximal, and the optional third component is taken
      whenever a '.' and a digit follow. */
  function VersionEnd(t: string, i: nat): (e: nat)
    requires i <= |t| && PairAt(t, i)
    ensures i + 3 <= e <= |t|
  {
    var b := RunEnd(t, RunEnd(t, i) + 1);
    if b + 1 < |t| && t[b] == '.' && IsDigit(t[b + 1]) then RunEnd(t, b + 1) else b
  }

  /** The whole of `v` is matched by `\d+\.\d+(?:\.\d+)?`. */
  predicate IsDottedNumber(v: string) {
    PairAt(v, 0) && VersionEnd(v, 0) == |v|
  }

  /** The text matched at `p` is a dotted number on its own. */
  lemma MatchedDottedNumber(t: string, p: nat)
    requires p <= |t| && PairAt(t, p)
    ensures IsDottedNumber(t[p..VersionEnd(t, p)])
  {
    var e := VersionEnd(t, p);
    var a := RunEnd(t, p);
    var b := RunEnd(t, a + 1);
    WindowRuns(t, p, e, a, b);
    WindowFacts(t, p, e, a, b);
  }

  lemma WindowRuns(t: string, p: nat, e: nat, a: nat, b: nat)
    requires p <= |t| && PairAt(t, p) && e == VersionEnd(t, p)
    requires a == RunEnd(t, p) && b == RunEnd(t, a + 1)
    ensures RunEnd(t[p..e], 0) == a - p && RunEnd(t[p..e], a + 1 - p) == b - p
    ensures b < e ==> b + 1 <= e && RunEnd(t[p..e], b + 1 - p) == e - p
  {
    var third := b + 1 < |t| && t[b] == '.' && IsDigit(t[b + 1]);
    assert e == if third then RunEnd(t, b + 1) else b;
    assert a < b <= e;
    RunEndInSlice(t, p, e, p);
    RunEndInSlice(t, p, e, a + 1);
    if b < e {
      assert third;
      RunEndInSlice(t, p, e, b + 1);
    }
  }

  /** The positions that decide the match, seen through the window `t[p..e]`. */
  lemma WindowFacts(t: string, p: nat, e: nat, a: nat, b: nat)
    requires p <= |t| && PairAt(t, p) && e == VersionEnd(t, p)
    requires a == RunEnd(t, p) && b == RunEnd(t, a + 1)
    requires RunEnd(t[p..e], 0) == a - p && RunEnd(t[p..e], a + 1 - p) == b - p
    requires b < e ==> b + 1 <= e && RunEnd(t[p..e], b + 1 - p) == e - p
    ensures IsDottedNumber(t[p..e])
  {
    var v := t[p..e];
    assert v[a - p] == t[a] && v[a + 1 - p] == t[a + 1];
    if b < e {
      assert v[b - p] == t[b] && v[b + 1 - p] == t[b + 1];
    }
  }

  /** A dotted number holds digits and dots only, and starts and ends with a digit. */
  lemma DottedNumberChars(v: string)
    requires IsDottedNumber(v)
    ensures forall i | 0 <= i < |v| :: IsDigit(v[i]) || v[i] == '.'
    ensures IsDigit(v[0]) && IsDigit(v[|v| - 1])
  {
    var a := RunEnd(v, 0);
    var b := RunEnd(v, a + 1);
    if b < |v| {
      var c := RunEnd(v, b + 1);
      assert c == |v|;
    }
  }

  // ---------------------------------------------------------------------------
  // (?:[Vv]ersion\s*)?\d+\.\d+(?:\.\d+)?
  // ---------------------------------------------------------------------------

  /** `[Vv]ersion` at position `i` of `t`. */
  predicate VersionWordAt(t: string, i: nat) {
    && i + 7 <= |t| && (t[i] == 'V' || t[i] == 'v')
    && t[i + 1] == 'e' && t[i + 2] == 'r' && t[i + 3] == 's'
    && t[i + 4] == 'i' && t[i + 5] == 'o' && t[i + 6] == 'n'
  }

  /** `[Vv]ersion` followed by white space only. */
  predicate IsVersionWord(x: string) {
    VersionWordAt(x, 0) && forall i | 7 <= i < |x| :: IsSpace(x[i])
  }

  /** Whether `(?:[Vv]ersion\s*)?\d+\.\d+(?:\.\d+)?` matches starting exactly at
      `i`, and if so where its digits begin: the optional group is tried first
      (with `\s*` taking all white space) and given up when no dotted pair
      follows it. */
  function MatchAt(t: string, i: nat): (r: Option<nat>)
    requires i <= |t|
    ensures r.Some? ==> i <= r.value < |t| && PairAt(t, r.value)
    ensures r.Some? && r.value != i ==>
      VersionWordAt(t, i) && i + 7 <= r.value && forall k | i + 7 <= k < r.value :: IsSpace(t[k])
    ensures r.None? ==> !PairAt(t, i)
  {
    if VersionWordAt(t, i) && PairAt(t, SpaceEnd(t, i + 7)) then Some(SpaceEnd(t, i + 7))
    else if PairAt(t, i) then Some(i)
    else None
  }

  /** End (exclusive) of the match that starts at `s`. */
  function MatchEnd(t: string, s: nat): (e: nat)
    requires s <= |t| && MatchAt(t, s).Some?
    ensures s < e <= |t|
  {
    VersionEnd(t, MatchAt(t, s).value)
  }

  /** `re.search` of the pattern in `t[i..]`: the leftmost start of a match. */
  function Search(t: string, i: nat): (r: Option<nat>)
    requires i <= |t|
    ensures r.Some? ==> i <= r.value <= |t| && MatchAt(t, r.value).Some?
    decreases |t| - i
  {
    if MatchAt(t, i).Some? then Some(i)
    else if i == |t| then None
    else Search(t, i + 1)
  }

  /** No dotted pair starts inside `[Vv]ersion\s*`. */
  lemma NoPairInVersionWord(t: string, i: nat, p: nat)
    requires i <= p <= |t| && VersionWordAt(t, i)
    requires forall k | i + 7 <= k < p :: IsSpace(t[k])
    ensures forall q | i <= q < p :: !PairAt(t, q)
  {
    forall q | i <= q < p ensures !PairAt(t, q) {
      assert !IsDigit(t[q]);
    }
  }

  /** The search fails exactly when no dotted pair starts at or after `i`. */
  lemma {:induction false} SearchNoneIff(t: string, i: nat)
    requires i <= |t|
    ensures Search(t, i).None? <==> forall q | i <= q <= |t| :: !PairAt(t, q)
    decreases |t| - i
  {
    if MatchAt(t, i).None? && i < |t| {
      SearchNoneIff(t, i + 1);
    }
  }

  /** The digits of the leftmost match begin at the leftmost dotted pair. */
  lemma {:induction false} SearchFindsFirstPair(t: string, i: nat)
    requires i <= |t| && Search(t, i).Some?
    ensures var p := MatchAt(t, Search(t, i).value).value;
      forall q | i <= q < p :: !PairAt(t, q)
    decreases |t| - i
  {
    var m := MatchAt(t, i);
    if m.Some? {
      if m.value > i {
        NoPairInVersionWord(t, i, m.value);
      }
    } else {
      SearchFindsFirstPair(t, i + 1);
    }
  }

  /** `re.findall` of the same pattern from position `i`: non-overlapping
      matches, each search resuming where the previous match ended. */
  function FindAll(t: string, i: nat): (ms: seq<string>)
    requires i <= |t|
    decreases |t| - i
  {
    match Search(t, i)
    case None => []
    case Some(s) =>
      var e := MatchEnd(t, s);
      [t[s..e]] + FindAll(t, e)
  }

  /** A matched text is an optional version word followed by a dotted number. */
  lemma MatchedText(t: string, s: nat)
    requires s <= |t| && MatchAt(t, s).Some?
    ensures var p := MatchAt(t, s).value;
      && t[s..MatchEnd(t, s)] == t[s..p] + t[p..MatchEnd(t, s)]
      && (p == s || IsVersionWord(t[s..p]))
      && IsDottedNumber(t[p..MatchEnd(t, s)])
  {
    var p := MatchAt(t, s).value;
    var e := MatchEnd(t, s);
    assert e == VersionEnd(t, p);
    MatchedDottedNumber(t, p);
    SliceSplit(t, s, p, e);
    if p != s {
      VersionWordSlice(t, s, p);
    }
  }

  lemma SliceSplit(t: string, s: nat, p: nat, e: nat)
    requires s <= p <= e <= |t|
    ensures t[s..e] == t[s..p] + t[p..e]
  {
  }

  /** `[Vv]ersion` at `s` followed by white space up to `p` is a version word. */
  lemma VersionWordSlice(t: string, s: nat, p: nat)
    requires s + 7 <= p <= |t| && VersionWordAt(t, s)
    requires forall k | s + 7 <= k < p :: IsSpace(t[k])
    ensures IsVersionWord(t[s..p])
  {
    var x := t[s..p];
    assert forall k | 0 <= k < |x| :: x[k] == t[s + k];
  }

  /** `re.compile(r'.*(?:[Vv]ersion\s*)?\d+\.\d+(?:\.\d+)?.*').match(t)` tried
      from `i`: the leading `.*` may consume any characters except a newline. */
  predicate HeadingPatternFrom(t: string, i: nat)
    requires i <= |t|
    decreases |t| - i
  {
    MatchAt(t, i).Some? || (i < |t| && t[i] != '\n' && HeadingPatternFrom(t, i + 1))
  }

  /** A heading that the pattern accepts contains a dotted pair; without a
      newline in it, the converse holds too. */
  lemma {:induction false} HeadingPatternFindsPair(t: string, i: nat)
    requires i <= |t|
    ensures HeadingPatternFrom(t, i) ==> Search(t, i).Some?
    ensures (forall k | i <= k < |t| :: t[k] != '\n') ==> (HeadingPatternFrom(t, i) <==> Search(t, i).Some?)
    decreases |t| - i
  {
    HeadingPatternSearch(t, i);
    if forall k | i <= k < |t| :: t[k] != '\n' {
      HeadingPatternWithoutNewline(t, i);
    }
  }

  lemma {:induction false} HeadingPatternSearch(t: string, i: nat)
    requires i <= |t|
    ensures HeadingPatternFrom(t, i) ==> Search(t, i).Some?
    decreases |t| - i
  {
    if i < |t| && MatchAt(t, i).None? {
      HeadingPatternSearch(t, i + 1);
    }
  }

  lemma {:induction false} HeadingPatternWithoutNewline(t: string, i: nat)
    requires i <= |t|
    requires forall k | i <= k < |t| :: t[k] != '\n'
    ensures Search(t, i).Some? ==> HeadingPatternFrom(t, i)
    decreases |t| - i
  {
    if i < |t| && MatchAt(t, i).None? {
      HeadingPatternWithoutNewline(t, i + 1);
    }
  }
}
