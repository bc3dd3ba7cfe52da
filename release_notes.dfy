/** The release-notes pages of the most recent DataWeave versions: for each
    page, the paragraphs under its "breaking", "what's new"/"new features"
    and "important"/"upgrade" headings, with warning paragraphs standing in
    for missing breaking changes. */
module ReleaseNotes {
  import opened Wrappers
  import opened PyStrings
  import opened OrderedMaps
  import opened DocPages

  /** The non-empty texts of the siblings from position `i` up to the next
      heading or the end of the page. */
  function Section(blocks: seq<Block>, i: nat): (content: seq<string>)
    requires i <= |blocks|
    decreases |blocks| - i
  {
    if i == |blocks| || IsHeading(blocks[i]) then []
    else (if blocks[i].text != [] then [blocks[i].text] else []) + Section(blocks, i + 1)
  }

  /** The position of the first heading at or after `i`, or the end. */
  function NextHeading(blocks: seq<Block>, i: nat): (e: nat)
    requires i <= |blocks|
    ensures i <= e <= |blocks|
    ensures forall k | i <= k < e :: !IsHeading(blocks[k])
    ensures e < |blocks| ==> IsHeading(blocks[e])
    decreases |blocks| - i
  {
    if i == |blocks| || IsHeading(blocks[i]) then i else NextHeading(blocks, i + 1)
  }

  /** A section holds exactly the non-empty texts of the blocks before the
      next heading. */
  lemma {:induction false} SectionIff(blocks: seq<Block>, i: nat, t: string)
    requires i <= |blocks|
    ensures t in Section(blocks, i) <==>
      t != [] && exists k | i <= k < NextHeading(blocks, i) :: blocks[k].text == t
    decreases |blocks| - i
  {
    if i < |blocks| && !IsHeading(blocks[i]) {
      SectionIff(blocks, i + 1, t);
    }
  }

  /** The `while sibling and sibling.name not in ['h2', 'h3', 'h4']` walk
      after the heading at position `h`. */
  method CollectSection(blocks: seq<Block>, h: nat) returns (content: seq<string>)
    requires h < |blocks|
    ensures content == Section(blocks, h + 1)
  {
    content := [];
    var j := h + 1;
    while j < |blocks| && !IsHeading(blocks[j])
      invariant h + 1 <= j <= |blocks|
      invariant content + Section(blocks, j) == Section(blocks, h + 1)
      decreases |blocks| - j
    {
      var text := blocks[j].text;
      SectionStep(blocks, j);
      if text != [] {
        AppendAssoc(content, [text], Section(blocks, j + 1));
        content := content + [text];
      }
      j := j + 1;
    }
  }

  lemma SectionStep(blocks: seq<Block>, j: nat)
    requires j < |blocks| && !IsHeading(blocks[j])
    ensures Section(blocks, j) ==
      if blocks[j].text != [] then [blocks[j].text] + Section(blocks, j + 1) else Section(blocks, j + 1)
  {
  }

  lemma AppendAssoc(a: seq<string>, b: seq<string>, c: seq<string>)
    ensures a + (b + c) == (a + b) + c
  {
  }

  datatype HeadingClass = Breaking | NewFeatures | Important | Other

  /** The `if`/`elif` tests on `heading_text`, the lower-cased heading. */
  function ClassOf(headingText: string): (c: HeadingClass)
    ensures c == Breaking <==> Contains(Lower(headingText), "breaking")
    ensures c == NewFeatures <==>
      var t := Lower(headingText);
      !Contains(t, "breaking") && (Contains(t, "what's new") || Contains(t, "new features"))
    ensures c == Important <==>
      var t := Lower(headingText);
      && !Contains(t, "breaking") && !Contains(t, "what's new") && !Contains(t, "new features")
      && (Contains(t, "important") || Contains(t, "upgrade"))
    ensures c == Other <==>
      var t := Lower(headingText);
      !(|| Contains(t, "breaking") || Contains(t, "what's new") || Contains(t, "new features")
        || Contains(t, "important") || Contains(t, "upgrade"))
  {
    var t := Lower(headingText);
    if Contains(t, "breaking") then Breaking
    else if Contains(t, "what's new") || Contains(t, "new features") then NewFeatures
    else if Contains(t, "important") || Contains(t, "upgrade") then Important
    else Other
  }

  /** A "What's New" heading is a new-features heading. */
  lemma ClassOfExample()
    ensures ClassOf("What's New") == NewFeatures
  {
    assert Lower("What's New") == "what's new";
    assert "what's new" <= "what's new"[0..];
    NotContainsByPairs("what's new", "breaking");
  }

  /** How many entries one heading contributes: `content[:2]` or `content[:3]`. */
  function PerHeading(c: HeadingClass): nat {
    match c
    case Breaking => 2
    case NewFeatures => 3
    case Important => 2
    case Other => 0
  }

  /** The entries of class `c` gathered from the headings among the first `n`
      blocks, in order. */
  function Collected(blocks: seq<Block>, n: nat, c: HeadingClass): (es: seq<string>)
    requires n <= |blocks|
  {
    if n == 0 then []
    else
      var b := blocks[n - 1];
      Collected(blocks, n - 1, c) +
        (if IsHeading(b) && ClassOf(b.text) == c then Take(Section(blocks, n), PerHeading(c)) else [])
  }

  /** The loop over `release_soup.find_all(['h2', 'h3', 'h4'])`. */
  method ScanHeadings(blocks: seq<Block>)
    returns (breakingChanges: seq<string>, newFeatures: seq<string>, importantNotes: seq<string>)
    ensures breakingChanges == Collected(blocks, |blocks|, Breaking)
    ensures newFeatures == Collected(blocks, |blocks|, NewFeatures)
    ensures importantNotes == Collected(blocks, |blocks|, Important)
  {
    breakingChanges, newFeatures, importantNotes := [], [], [];
    var i := 0;
    while i < |blocks|
      invariant 0 <= i <= |blocks|
      invariant breakingChanges == Collected(blocks, i, Breaking)
      invariant newFeatures == Collected(blocks, i, NewFeatures)
      invariant importantNotes == Collected(blocks, i, Important)
    {
      var heading := blocks[i];
      CollectedStep(blocks, i);
      if IsHeading(heading) {
        var headingText := Lower(heading.text);
        if Contains(headingText, "breaking") {
          var content := CollectSection(blocks, i);
          breakingChanges := breakingChanges + Take(content, 2);
        } else if Contains(headingText, "what's new") || Contains(headingText, "new features") {
          var content := CollectSection(blocks, i);
          newFeatures := newFeatures + Take(content, 3);
        } else if Contains(headingText, "important") || Contains(headingText, "upgrade") {
          var content := CollectSection(blocks, i);
          importantNotes := importantNotes + Take(content, 2);
        }
      }
      i := i + 1;
    }
  }

  lemma CollectedStep(blocks: seq<Block>, i: nat)
    requires i < |blocks|
    ensures forall c: HeadingClass :: (Collected(blocks, i + 1, c) ==
      Collected(blocks, i, c) +
        (if IsHeading(blocks[i]) && ClassOf(blocks[i].text) == c then Take(Section(blocks, i + 1), PerHeading(c)) else []))
  {
  }

  /** `'warning:' in text or 'caution:' in text or 'deprecated' in text` */
  predicate IsWarning(text: string) {
    Contains(text, "warning:") || Contains(text, "caution:") || Contains(text, "deprecated")
  }

  /** The texts of the `p` blocks among the first `n` whose lower-cased text
      warns, in order. */
  function Warnings(blocks: seq<Block>, n: nat): (ws: seq<string>)
    requires n <= |blocks|
    ensures |ws| <= n
  {
    if n == 0 then []
    else
      var b := blocks[n - 1];
      Warnings(blocks, n - 1) + (if b.tag == "p" && IsWarning(Lower(b.text)) then [b.text] else [])
  }

  /** Every warning is the text of a warning paragraph. */
  lemma {:induction false} WarningsFrom(blocks: seq<Block>, n: nat, t: string)
    requires n <= |blocks| && t in Warnings(blocks, n)
    ensures exists k | 0 <= k < n :: blocks[k].tag == "p" && IsWarning(Lower(blocks[k].text)) && blocks[k].text == t
  {
    var b := blocks[n - 1];
    if t in Warnings(blocks, n - 1) {
      WarningsFrom(blocks, n - 1, t);
    } else {
      assert b.tag == "p" && IsWarning(Lower(b.text)) && b.text == t;
    }
  }

  /** The loop over `release_soup.find_all('p')`. */
  method FindWarnings(blocks: seq<Block>) returns (warnings: seq<string>)
    ensures warnings == Warnings(blocks, |blocks|)
  {
    warnings := [];
    var i := 0;
    while i < |blocks|
      invariant 0 <= i <= |blocks|
      invariant warnings == Warnings(blocks, i)
    {
      var text := Lower(blocks[i].text);
      if blocks[i].tag == "p" && (Contains(text, "warning:") || Contains(text, "caution:") || Contains(text, "deprecated")) {
        warnings := warnings + [blocks[i].text];
      }
      i := i + 1;
    }
  }

  /** An entry of `release_notes_info`. */
  datatype ReleaseNote = ReleaseNote(
    breakingChanges: seq<string>,
    newFeatures: seq<string>,
    importantNotes: seq<string>,
    releaseNotesUrl: string)

  /** What one release-notes page yields. */
  function NoteOf(blocks: seq<Block>, url: string): (note: ReleaseNote)
    ensures |note.breakingChanges| <= 3 && |note.newFeatures| <= 5 && |note.importantNotes| <= 3
    ensures note.releaseNotesUrl == url
  {
    var breaking := Collected(blocks, |blocks|, Breaking);
    var breaking' := if breaking == [] then Warnings(blocks, |blocks|) else breaking;
    ReleaseNote(Take(breaking', 3), Take(Collected(blocks, |blocks|, NewFeatures), 5),
      Take(Collected(blocks, |blocks|, Important), 3), url)
  }

  /** The body of the inner `try` for one fetched page. */
  method ReadReleasePage(blocks: seq<Block>, url: string) returns (note: ReleaseNote)
    ensures note == NoteOf(blocks, url)
  {
    var breakingChanges, newFeatures, importantNotes := ScanHeadings(blocks);
    if breakingChanges == [] {
      breakingChanges := FindWarnings(blocks);
    }
    note := ReleaseNote(Take(breakingChanges, 3), Take(newFeatures, 5), Take(importantNotes, 3), url);
  }

  /** `release_notes_info` after the given DataWeave versions: a version whose
      page cannot be fetched is skipped, and a repeated version is assigned
      again. */
  function ReleaseNotesInfo(cfg: Config, fetch: Fetch, dwVersions: seq<string>): (info: Dict<ReleaseNote>)
    ensures UniqueKeys(info)
  {
    if dwVersions == [] then []
    else
      var n := |dwVersions| - 1;
      var front := ReleaseNotesInfo(cfg, fetch, dwVersions[..n]);
      var dw := dwVersions[n];
      var url := ReleaseNotesUrl(cfg, dw);
      match fetch(url)
      case Failure(_) => front
      case Success(page) =>
        PutSpec(front, dw, NoteOf(page.blocks, url));
        Put(front, dw, NoteOf(page.blocks, url))
  }

  /** The loop over the top three recent versions. */
  method CollectReleaseNotes(cfg: Config, fetch: Fetch, dwVersions: seq<string>) returns (info: Dict<ReleaseNote>)
    ensures info == ReleaseNotesInfo(cfg, fetch, dwVersions)
  {
    info := [];
    var i := 0;
    while i < |dwVersions|
      invariant 0 <= i <= |dwVersions|
      invariant info == ReleaseNotesInfo(cfg, fetch, dwVersions[..i])
    {
      var dwVer := dwVersions[i];
      var releaseNotesUrl := ReleaseNotesUrl(cfg, dwVer);
      assert dwVersions[..i + 1][..i] == dwVersions[..i];
      match fetch(releaseNotesUrl) {
        case Failure(_) =>
        case Success(page) =>
          var note := ReadReleasePage(page.blocks, releaseNotesUrl);
          info := Put(info, dwVer, note);
      }
      i := i + 1;
    }
    assert dwVersions[..i] == dwVersions;
  }

  /** A version has release notes exactly when it is one of the listed
      versions and its page could be fetched; the notes are those of that
      page. */
  lemma {:induction false} ReleaseNotesInfoIff(cfg: Config, fetch: Fetch, dwVersions: seq<string>, dw: string)
    ensures dw in Keys(ReleaseNotesInfo(cfg, fetch, dwVersions)) <==>
      dw in dwVersions && fetch(ReleaseNotesUrl(cfg, dw)).Success?
    ensures dw in Keys(ReleaseNotesInfo(cfg, fetch, dwVersions)) ==>
      Get(ReleaseNotesInfo(cfg, fetch, dwVersions), dw) ==
        Some(NoteOf(fetch(ReleaseNotesUrl(cfg, dw)).value.blocks, ReleaseNotesUrl(cfg, dw)))
  {
    if dwVersions != [] {
      var n := |dwVersions| - 1;
      var front := ReleaseNotesInfo(cfg, fetch, dwVersions[..n]);
      ReleaseNotesInfoIff(cfg, fetch, dwVersions[..n], dw);
      assert dwVersions == dwVersions[..n] + [dwVersions[n]];
      var url := ReleaseNotesUrl(cfg, dwVersions[n]);
      if fetch(url).Success? {
        PutSpec(front, dwVersions[n], NoteOf(fetch(url).value.blocks, url));
      }
    }
  }

  /** At most one entry per listed version: three versions give at most three
      entries. */
  lemma {:induction false} ReleaseNotesInfoSize(cfg: Config, fetch: Fetch, dwVersions: seq<string>)
    ensures |ReleaseNotesInfo(cfg, fetch, dwVersions)| <= |dwVersions|
  {
    if dwVersions != [] {
      var n := |dwVersions| - 1;
      var front := ReleaseNotesInfo(cfg, fetch, dwVersions[..n]);
      ReleaseNotesInfoSize(cfg, fetch, dwVersions[..n]);
      var url := ReleaseNotesUrl(cfg, dwVersions[n]);
      if fetch(url).Success? {
        PutSpec(front, dwVersions[n], NoteOf(fetch(url).value.blocks, url));
        assert |Keys(ReleaseNotesInfo(cfg, fetch, dwVersions))| <= |Keys(front)| + 1;
      }
    }
  }

  /** Breaking changes come from the sections under "breaking" headings, two
      per heading; only a page without any such entry falls back to its
      warning paragraphs. */
  lemma BreakingChangesFrom(blocks: seq<Block>, url: string)
    ensures var note := NoteOf(blocks, url);
      var fromHeadings := Collected(blocks, |blocks|, Breaking);
      note.breakingChanges == Take(if fromHeadings == [] then Warnings(blocks, |blocks|) else fromHeadings, 3)
    ensures forall t | t in NoteOf(blocks, url).breakingChanges ::
      t in Collected(blocks, |blocks|, Breaking) || t in Warnings(blocks, |blocks|)
  {
  }

  /** Every collected entry is a non-empty text from the section under a
      heading of its class. */
  lemma {:induction false} CollectedFrom(blocks: seq<Block>, n: nat, c: HeadingClass, t: string)
    requires n <= |blocks| && t in Collected(blocks, n, c)
    ensures exists h | 0 <= h < n ::
      IsHeading(blocks[h]) && ClassOf(blocks[h].text) == c && t in Section(blocks, h + 1)
  {
    var b := blocks[n - 1];
    if t in Collected(blocks, n - 1, c) {
      CollectedFrom(blocks, n - 1, c, t);
    } else {
      var m := Take(Section(blocks, n), PerHeading(c));
      assert t in m;
      var k :| 0 <= k < |m| && m[k] == t;
      assert Section(blocks, n)[k] == t;
    }
  }
}
