/** How the connector tool finds a connector's release-notes page: the eight
    spellings of the artifact id it tries, the link on the connector
    release-notes index it picks, and the absolute URL it makes of that
    link's `href`. */
module ConnectorLinks {
  import opened Wrappers
  import opened PyStrings
  import opened DocPages

  /** The spellings tried, in order. */
  function Variations(a: string): (vs: seq<string>)
    ensures |vs| == 8
    ensures vs[0] == Lower(a) && vs[3] == a
  {
    [ Lower(a),
      Lower(a) + " connector",
      Lower(a) + " connector release notes",
      a,
      a + " Connector",
      a + " Connector Release Notes",
      Upper(a) + " Connector Release Notes",
      Capitalize(a) + " Connector Release Notes" ]
  }

  /** `link_text.replace(" release notes", "").strip()` */
  function WithoutReleaseNotes(linkText: string): string {
    Strip(ReplaceAll(linkText, " release notes", ""))
  }

  /** `x in link_text or x == rest` */
  predicate MatchesText(x: string, linkText: string, rest: string) {
    Contains(linkText, x) || x == rest
  }

  /** `x in link_text or x == link_text.replace(" release notes", "").strip()`,
      where `linkText` is the link's stripped text, lower-cased. */
  predicate LoweredMatches(x: string, linkText: string) {
    MatchesText(x, linkText, WithoutReleaseNotes(linkText))
  }

  /** The test applied to `variation.lower()`. */
  predicate VariationMatches(variation: string, linkText: string) {
    LoweredMatches(Lower(variation), linkText)
  }

  /** Some variation matches the anchor's lower-cased text. */
  predicate AnchorMatches(vs: seq<string>, anchor: Anchor) {
    exists j | 0 <= j < |vs| :: VariationMatches(vs[j], Lower(anchor.text))
  }

  /** An anchor that ends the search: it matches and its `href` is not
      empty. A matching anchor with an empty `href` sets the link to "",
      which is false, so the search goes on with the next anchor. */
  predicate Selectable(vs: seq<string>, anchor: Anchor) {
    AnchorMatches(vs, anchor) && anchor.href != []
  }

  /** The link text without " Release Notes". */
  function LinkName(text: string): (name: string)
    ensures !Contains(text, " Release Notes") ==> name == text
  {
    if Contains(text, " Release Notes") then ReplaceAll(text, " Release Notes", "") else text
  }

  /** A text that ends in " Release Notes", with no earlier occurrence of
      it, is named by what comes before: "HTTP Connector Release Notes"
      gives "HTTP Connector". */
  lemma LinkNameDropsSuffix(n: string)
    requires !Contains(n, " Release Notes")
    ensures LinkName(n + " Release Notes") == n
  {
    assert " Release Notes" <= (n + " Release Notes")[|n|..];
    ReplaceSuffix(n);
  }

  lemma {:induction false} ReplaceSuffix(n: string)
    requires !Contains(n, " Release Notes")
    ensures ReplaceAll(n + " Release Notes", " Release Notes", "") == n
  {
    var pat := " Release Notes";
    if n == [] {
      assert (n + pat)[|pat|..] == [];
    } else {
      assert !(pat <= n + pat) by {
        if pat <= n + pat {
          if |n| < |pat| {
            assert pat[|n|..] == pat[..|pat| - |n|];
            NoBorder(|n|);
          }
        }
      }
      assert (n + pat)[1..] == n[1..] + pat;
      assert !Contains(n[1..], pat) by {
        assert forall i | 0 <= i <= |n[1..]| :: n[1..][i..] == n[i + 1..];
      }
      ReplaceSuffix(n[1..]);
      assert [n[0]] + n[1..] == n;
    }
  }

  /** No proper suffix of " Release Notes" is also a prefix of it. */
  lemma NoBorder(k: nat)
    requires 1 <= k < 14
    ensures " Release Notes"[k..] != " Release Notes"[..14 - k]
  {
    var pat := " Release Notes";
    if k == 8 {
      assert pat[k..][1] != pat[..14 - k][1];
    } else {
      assert pat[k..][0] != pat[..14 - k][0];
    }
  }

  /** The chosen link: its `href` and the connector's name taken from its text. */
  datatype Link = Link(href: string, name: string)

  function LinkOf(anchor: Anchor): Link {
    Link(anchor.href, LinkName(anchor.text))
  }

  /** Which anchors end the search, one flag per anchor. */
  function SelectableFlags(anchors: seq<Anchor>, vs: seq<string>): (flags: seq<bool>)
    ensures |flags| == |anchors|
    ensures forall k {:trigger Selectable(vs, anchors[k])} | 0 <= k < |anchors| ::
      flags[k] == Selectable(vs, anchors[k])
  {
    seq(|anchors|, k requires 0 <= k < |anchors| => Selectable(vs, anchors[k]))
  }

  /** The index of the first set flag. */
  function FirstSet(flags: seq<bool>): (r: Option<nat>)
    ensures r.None? <==> forall m | 0 <= m < |flags| :: !flags[m]
    ensures r.Some? ==> r.value < |flags| && flags[r.value]
    ensures r.Some? ==> forall m | 0 <= m < r.value :: !flags[m]
  {
    if flags == [] then None
    else if flags[0] then Some(0)
    else
      match FirstSet(flags[1..])
      case None => None
      case Some(k) => Some(k + 1)
  }

  /** A set flag with none before it is the first. */
  lemma FirstSetAt(flags: seq<bool>, k: nat)
    requires k < |flags| && flags[k]
    requires forall m | 0 <= m < k :: !flags[m]
    ensures FirstSet(flags) == Some(k)
  {
    var j := FirstSet(flags).value;
    assert !(j < k) by { assert flags[j]; }
  }

  /** The first selectable anchor, in document order. */
  function SelectLink(anchors: seq<Anchor>, vs: seq<string>): (r: Option<Link>)
  {
    match FirstSet(SelectableFlags(anchors, vs))
    case None => None
    case Some(k) => Some(LinkOf(anchors[k]))
  }

  /** The search finds nothing exactly when no anchor is selectable, and
      otherwise picks the first selectable one. */
  lemma SelectLinkIff(anchors: seq<Anchor>, vs: seq<string>)
    ensures SelectLink(anchors, vs).None? <==> forall k | 0 <= k < |anchors| :: !Selectable(vs, anchors[k])
    ensures SelectLink(anchors, vs).Some? ==>
      exists k | 0 <= k < |anchors| ::
        && Selectable(vs, anchors[k])
        && (forall m | 0 <= m < k :: !Selectable(vs, anchors[m]))
        && SelectLink(anchors, vs) == Some(LinkOf(anchors[k]))
  {
    var flags := SelectableFlags(anchors, vs);
    if FirstSet(flags).Some? {
      var k := FirstSet(flags).value;
      assert flags[k] == Selectable(vs, anchors[k]);
    } else {
      assert forall k | 0 <= k < |anchors| :: !flags[k];
    }
  }

  /** A selectable anchor with none before it is the one chosen. */
  lemma SelectLinkAt(anchors: seq<Anchor>, vs: seq<string>, k: nat)
    requires k < |anchors| && Selectable(vs, anchors[k])
    requires forall m | 0 <= m < k :: !Selectable(vs, anchors[m])
    ensures SelectLink(anchors, vs) == Some(LinkOf(anchors[k]))
  {
    var flags := SelectableFlags(anchors, vs);
    forall m | 0 <= m < k ensures !flags[m] {
      assert flags[m] == Selectable(vs, anchors[m]);
    }
    FirstSetAt(flags, k);
  }

  /** No anchor before `i` is selectable: the search continues past `i`. */
  lemma SelectLinkSkip(anchors: seq<Anchor>, vs: seq<string>, i: nat)
    requires i <= |anchors|
    requires forall m | 0 <= m < i :: !Selectable(vs, anchors[m])
    ensures SelectLink(anchors, vs) == SelectLink(anchors[i..], vs)
  {
    var flags, rest := SelectableFlags(anchors, vs), SelectableFlags(anchors[i..], vs);
    forall m | 0 <= m < i ensures !flags[m] {
      assert flags[m] == Selectable(vs, anchors[m]);
    }
    forall m | 0 <= m < |rest| ensures rest[m] == flags[i + m] {
      assert anchors[i..][m] == anchors[i + m];
      assert rest[m] == Selectable(vs, anchors[i..][m]);
      assert flags[i + m] == Selectable(vs, anchors[i + m]);
    }
    FirstSetSkip(flags, rest, i);
    if FirstSet(rest).Some? {
      assert anchors[i..][FirstSet(rest).value] == anchors[i + FirstSet(rest).value];
    }
  }

  /** Flags that are all clear before `i` have their first set flag where
      the flags from `i` on have it, shifted by `i`. */
  lemma FirstSetSkip(flags: seq<bool>, rest: seq<bool>, i: nat)
    requires i <= |flags| && |rest| == |flags| - i
    requires forall m | 0 <= m < i :: !flags[m]
    requires forall m | 0 <= m < |rest| :: rest[m] == flags[i + m]
    ensures FirstSet(rest).None? ==> FirstSet(flags).None?
    ensures FirstSet(rest).Some? ==> FirstSet(flags) == Some(i + FirstSet(rest).value)
  {
    if FirstSet(rest).Some? {
      var j := FirstSet(rest).value;
      assert flags[i + j];
      forall m | 0 <= m < i + j ensures !flags[m] {
        if m >= i { assert rest[m - i] == flags[m]; }
      }
      FirstSetAt(flags, i + j);
    } else {
      forall m | 0 <= m < |flags| ensures !flags[m] {
        if m >= i { assert rest[m - i] == flags[m]; }
      }
    }
  }

  /** The nested `for link ... for variation ... break` search. */
  method FindConnectorLink(anchors: seq<Anchor>, variations: seq<string>) returns (r: Option<Link>)
    ensures r == SelectLink(anchors, variations)
  {
    ghost var flags := SelectableFlags(anchors, variations);
    var i := 0;
    while i < |anchors|
      invariant 0 <= i <= |anchors|
      invariant forall m | 0 <= m < i :: !flags[m]
    {
      var linkText := Lower(anchors[i].text);
      var found := MatchVariations(variations, linkText, WithoutReleaseNotes(linkText));
      assert flags[i] == Selectable(variations, anchors[i]);
      if found && anchors[i].href != [] {
        FirstSetAt(flags, i);
        return Some(LinkOf(anchors[i]));
      }
      i := i + 1;
    }
    return None;
  }

  /** The inner loop over the variations, which stops at the first match;
      `rest` is the link text without " release notes". */
  method MatchVariations(variations: seq<string>, linkText: string, rest: string) returns (found: bool)
    ensures found <==> exists j | 0 <= j < |variations| :: MatchesText(Lower(variations[j]), linkText, rest)
  {
    found := false;
    var j := 0;
    while j < |variations|
      invariant 0 <= j <= |variations|
      invariant forall m | 0 <= m < j :: !MatchesText(Lower(variations[m]), linkText, rest)
    {
      var v := Lower(variations[j]);
      if Contains(linkText, v) || v == rest {
        found := true;
        break;
      }
      j := j + 1;
    }
  }

  lemma LowerConnector()
    ensures Lower(" Connector") == " connector"
    ensures Lower(" Connector Release Notes") == " connector release notes"
    ensures Lower(" connector") == " connector"
    ensures Lower(" connector release notes") == " connector release notes"
  {
  }

  /** The eight spellings lower-case to just three: the artifact id itself,
      with " connector" and with " connector release notes". The upper-cased
      and capitalized spellings add nothing to the search. */
  lemma VariationsLowered(a: string)
    ensures var vs := Variations(a); var l := Lower(a);
      && Lower(vs[0]) == l && Lower(vs[3]) == l
      && Lower(vs[1]) == l + " connector" && Lower(vs[4]) == l + " connector"
      && Lower(vs[2]) == l + " connector release notes"
      && Lower(vs[5]) == l + " connector release notes"
      && Lower(vs[6]) == l + " connector release notes"
      && Lower(vs[7]) == l + " connector release notes"
  {
    var l := Lower(a);
    LowerIdempotent(a);
    LowerConnector();
    LowerAppend(l, " connector");
    LowerAppend(l, " connector release notes");
    LowerAppend(a, " Connector");
    LowerAppend(a, " Connector Release Notes");
    LowerAppend(Upper(a), " Connector Release Notes");
    LowerAppend(Capitalize(a), " Connector Release Notes");
    LowerOfUpper(a);
    LowerOfCapitalize(a);
  }

  /** What a link must say to be picked for artifact id `a`: one of the
      three lower-cased spellings is in its lower-cased text or is all of it
      once " release notes" is removed. */
  lemma AnchorMatchesIff(a: string, anchor: Anchor)
    ensures var lt := Lower(anchor.text); var l := Lower(a);
      AnchorMatches(Variations(a), anchor) <==>
        (|| LoweredMatches(l, lt)
         || LoweredMatches(l + " connector", lt)
         || LoweredMatches(l + " connector release notes", lt))
  {
    var l := Lower(a);
    var lt := Lower(anchor.text);
    var ls := [l, l + " connector", l + " connector release notes",
      l, l + " connector", l + " connector release notes",
      l + " connector release notes", l + " connector release notes"];
    VariationsLowered(a);
    MatchesOfLowered(Variations(a), ls, lt, WithoutReleaseNotes(lt));
    ThreeForms(ls, lt, WithoutReleaseNotes(lt));
  }

  lemma MatchesOfLowered(vs: seq<string>, ls: seq<string>, lt: string, rest: string)
    requires |vs| == |ls|
    requires forall j | 0 <= j < |vs| :: Lower(vs[j]) == ls[j]
    ensures (exists j | 0 <= j < |vs| :: MatchesText(Lower(vs[j]), lt, rest)) <==>
      exists j | 0 <= j < |ls| :: MatchesText(ls[j], lt, rest)
  {
  }

  lemma ThreeForms(ls: seq<string>, lt: string, rest: string)
    requires |ls| == 8
    requires ls[3] == ls[0] && ls[4] == ls[1] && ls[5] == ls[2] && ls[6] == ls[2] && ls[7] == ls[2]
    ensures (exists j | 0 <= j < |ls| :: MatchesText(ls[j], lt, rest)) <==>
      (MatchesText(ls[0], lt, rest) || MatchesText(ls[1], lt, rest) || MatchesText(ls[2], lt, rest))
  {
    if exists j | 0 <= j < |ls| :: MatchesText(ls[j], lt, rest) {
      var j :| 0 <= j < |ls| && MatchesText(ls[j], lt, rest);
      assert ls[j] == ls[0] || ls[j] == ls[1] || ls[j] == ls[2];
    }
  }

  // ---------------------------------------------------------------------------
  // Absolute URLs
  // ---------------------------------------------------------------------------

  /** The connector page's URL made of the chosen `href`. */
  function ResolveUrl(cfg: Config, link: string): (url: string)
  {
    if "../../" <= link then
      if Contains(link, "/release-notes/connector/") then SiteRoot + link[5..]
      else cfg.connectors + link[6..]
    else if "../" <= link then cfg.connectors + "introduction/" + link[3..]
    else if "/" <= link then SiteRoot + link
    else if "http" <= link then link
    else cfg.connectors + "introduction/" + link
  }

  /** With a connectors URL that starts with "http", every link becomes a URL
      that starts with "http", and resolving it again changes nothing. */
  lemma ResolveUrlAbsolute(cfg: Config, link: string)
    requires "http" <= cfg.connectors
    ensures "http" <= ResolveUrl(cfg, link)
    ensures ResolveUrl(cfg, ResolveUrl(cfg, link)) == ResolveUrl(cfg, link)
  {
    var url := ResolveUrl(cfg, link);
    assert "http" <= SiteRoot;
    assert forall x: string :: "http" <= x ==> x[0] == 'h';
    assert url[0] == 'h';
  }

  /** A "../../" link into the connector release notes keeps its path from
      the "/" on, under the site root. */
  lemma ResolveUrlReleaseNotes(cfg: Config, rest: string)
    requires Contains("../../" + rest, "/release-notes/connector/")
    ensures ResolveUrl(cfg, "../../" + rest) == SiteRoot + "/" + rest
  {
    var l := "../../" + rest;
    assert "../../" <= l;
    assert l[5..] == "/" + rest;
  }

  /** The link the branch is written for: "../../release-notes/connector/…"
      becomes "/release-notes/connector/…" under the site root. */
  lemma ResolveUrlConnectorNotes(cfg: Config, rest: string)
    requires "release-notes/connector/" <= rest
    ensures ResolveUrl(cfg, "../../" + rest) == SiteRoot + "/" + rest
  {
    var l := "../../" + rest;
    assert l[5..] == "/" + rest;
    assert rest[..24] == "release-notes/connector/";
    assert ("/" + rest)[..25] == "/" + rest[..24];
    assert "/release-notes/connector/" <= l[5..];
    ResolveUrlReleaseNotes(cfg, rest);
  }

  /** Any other "../../" link is read under the connectors URL. */
  lemma ResolveUrlUpTwo(cfg: Config, rest: string)
    requires !Contains("../../" + rest, "/release-notes/connector/")
    ensures ResolveUrl(cfg, "../../" + rest) == cfg.connectors + rest
  {
    var l := "../../" + rest;
    assert "../../" <= l;
    assert l[6..] == rest;
  }

  /** A "../" link is read under the connectors URL's "introduction/". */
  lemma ResolveUrlUpOne(cfg: Config, rest: string)
    requires !("../" <= rest)
    ensures ResolveUrl(cfg, "../" + rest) == cfg.connectors + "introduction/" + rest
  {
    var m := "../" + rest;
    assert m[3..] == rest;
    assert !("../../" <= m);
  }

  /** A link that starts with "/" is read under the site root. */
  lemma ResolveUrlRooted(cfg: Config, rest: string)
    ensures ResolveUrl(cfg, "/" + rest) == SiteRoot + "/" + rest
  {
    var n := "/" + rest;
    assert n[0] == '/';
  }

  /** Any other link starting with "http" is kept as it is; the remaining
      links are read under the connectors URL's "introduction/". */
  lemma ResolveUrlOther(cfg: Config, link: string)
    requires !("../" <= link) && !("/" <= link)
    ensures "http" <= link ==> ResolveUrl(cfg, link) == link
    ensures !("http" <= link) ==> ResolveUrl(cfg, link) == cfg.connectors + "introduction/" + link
  {
  }
}
