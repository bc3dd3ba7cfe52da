/** The connector tool: without an artifact id, the Java compatibility map
    as one general entry per Mule version; with one, the versions found on
    that connector's release-notes page, or the reason none were. */
module ConnectorVersions {
  import opened Wrappers
  import opened PyStrings
  import opened OrderedMaps
  import opened VersionRegex
  import opened MulesoftUtils
  import opened DocPages
  import opened JavaSupport
  import opened ConnectorLinks
  import opened ConnectorPages

  /** An entry of `connector_compatibility` (its fixed note left out). */
  datatype GeneralEntry = GeneralEntry(muleVersion: string, jdkVersions: seq<int>)

  /** The tool's possible answers. */
  datatype ConnectorResult =
    | ConnectorSpecific(versions: seq<ConnectorVersion>, java: Dict<seq<int>>, sourceUrls: seq<string>)
      /** The page was read but had no version at all. */
    | NoVersionData(artifactId: string, connectorUrl: string, connectorName: string,
                    java: Dict<seq<int>>, sourceUrls: seq<string>)
      /** The connector's page could not be fetched. */
    | PageUnreachable(artifactId: string, connectorUrl: string, connectorName: string)
      /** No link on the release-notes index matched. */
    | NotFound(artifactId: string, attemptedVariations: seq<string>)
      /** The release-notes index could not be fetched. */
    | ReleaseNotesUnreachable(artifactId: string)
    | General(entries: seq<GeneralEntry>, java: Dict<seq<int>>, sourceUrls: seq<string>)

  /** `for mule_version, jdk_versions in java_data.items()` */
  function GeneralEntries(java: Dict<seq<int>>): (es: seq<GeneralEntry>)
    ensures |es| == |java|
  {
    seq(|java|, i requires 0 <= i < |java| => GeneralEntry(java[i].key, java[i].value))
  }

  /** The general entries list the Java map's keys in order, each with the
      value stored under it. */
  lemma GeneralEntriesOfJava(java: Dict<seq<int>>)
    requires UniqueKeys(java)
    ensures forall i | 0 <= i < |java| ::
      GeneralEntries(java)[i].muleVersion == Keys(java)[i]
      && Get(java, GeneralEntries(java)[i].muleVersion) == Some(GeneralEntries(java)[i].jdkVersions)
  {
    forall i | 0 <= i < |java|
      ensures Get(java, GeneralEntries(java)[i].muleVersion) == Some(GeneralEntries(java)[i].jdkVersions)
    {
      GetOfEntry(java, i);
    }
  }

  /** The loop that builds `connector_info`. */
  method CollectGeneralEntries(java: Dict<seq<int>>) returns (es: seq<GeneralEntry>)
    ensures es == GeneralEntries(java)
  {
    es := [];
    var i := 0;
    while i < |java|
      invariant 0 <= i <= |java|
      invariant es == GeneralEntries(java)[..i]
    {
      es := es + [GeneralEntry(java[i].key, java[i].value)];
      i := i + 1;
    }
  }

  /** The answer once the connector's page has been read from `url`. */
  function PageResult(cfg: Config, a: string, url: string, name: string, page: Page, java: Dict<seq<int>>): (r: ConnectorResult)
    ensures r.ConnectorSpecific? || r.NoVersionData?
  {
    var c := DefaultCompat(CompatTables(page.tables));
    var cv := HeadingVersions(page.blocks, c, a, name);
    if cv != [] then ConnectorSpecific(cv, java, [url, cfg.javaSupport])
    else
      var ms := FindAll(page.text, 0);
      if ms != [] then ConnectorSpecific(FallbackVersions(ms, a, name), java, [url, cfg.javaSupport])
      else NoVersionData(a, url, name, java, [url, cfg.javaSupport])
  }

  /** The answer for a non-empty artifact id. */
  function SpecificResult(cfg: Config, fetch: Fetch, a: string, java: Dict<seq<int>>): ConnectorResult {
    match fetch(cfg.connectorReleaseNotes)
    case Failure(_) => ReleaseNotesUnreachable(a)
    case Success(index) =>
      match SelectLink(index.anchors, Variations(a))
      case None => NotFound(a, Variations(a))
      case Some(link) =>
        var url := ResolveUrl(cfg, link.href);
        match fetch(url)
        case Failure(_) => PageUnreachable(a, url, link.name)
        case Success(page) => PageResult(cfg, a, url, link.name, page, java)
  }

  /** `_extract_connector_versions(connectors_soup, java_soup, artifactId)` on
      the Java support page's tables; the connectors page itself is not read. */
  function ConnectorVersionsOf(cfg: Config, fetch: Fetch, javaTables: seq<Table>, artifactId: Option<string>): ConnectorResult {
    var java := JavaCompatibility(javaTables);
    if artifactId.Some? && artifactId.value != [] then SpecificResult(cfg, fetch, artifactId.value, java)
    else General(GeneralEntries(java), java, [cfg.connectors, cfg.javaSupport])
  }

  /** The same, step by step as the source does it. */
  method ExtractConnectorVersions(cfg: Config, fetch: Fetch, javaTables: seq<Table>, artifactId: Option<string>)
    returns (r: ConnectorResult)
    ensures r == ConnectorVersionsOf(cfg, fetch, javaTables, artifactId)
  {
    var java, _ := BuildJavaMap(javaTables);
    if artifactId.Some? && artifactId.value != [] {
      var a := artifactId.value;
      var index := fetch(cfg.connectorReleaseNotes);
      if index.Failure? {
        return ReleaseNotesUnreachable(a);
      }
      var variations := Variations(a);
      var link := FindConnectorLink(index.value.anchors, variations);
      if link.None? {
        return NotFound(a, variations);
      }
      var url := ResolveUrl(cfg, link.value.href);
      var page := fetch(url);
      if page.Failure? {
        return PageUnreachable(a, url, link.value.name);
      }
      r := ReadConnectorPage(cfg, a, url, link.value.name, page.value, java);
    } else {
      var entries := CollectGeneralEntries(java);
      r := General(entries, java, [cfg.connectors, cfg.javaSupport]);
    }
  }

  /** The work done on the connector's page. */
  method ReadConnectorPage(cfg: Config, a: string, url: string, name: string, page: Page, java: Dict<seq<int>>)
    returns (r: ConnectorResult)
    ensures r == PageResult(cfg, a, url, name, page, java)
  {
    var ct := FindCompatibilityTables(page.tables);
    var c := NoCompat;
    if ct != [] {
      c := ct[0].compat;
    }
    var cv := ScanVersionHeadings(page.blocks, c, a, name);
    if cv != [] {
      return ConnectorSpecific(cv, java, [url, cfg.javaSupport]);
    }
    var ms := FindAll(page.text, 0);
    if ms != [] {
      var simple := CollectFallbackVersions(ms, a, name);
      return ConnectorSpecific(simple, java, [url, cfg.javaSupport]);
    }
    return NoVersionData(a, url, name, java, [url, cfg.javaSupport]);
  }

  /** `get_connector_versions(artifactId)`: the connectors page and the Java
      support page are fetched first, and a failure of either is the answer. */
  function GetConnectorVersions(cfg: Config, fetch: Fetch, artifactId: Option<string>): (r: Result<ConnectorResult, ScrapeError>)
    ensures r.Failure? <==> FetchTwo(fetch, cfg.connectors, cfg.javaSupport).Failure?
    ensures r.Failure? ==> r.error == FetchTwo(fetch, cfg.connectors, cfg.javaSupport).error
    ensures fetch(cfg.connectors).Success? && fetch(cfg.javaSupport).Success? ==>
      r == Success(ConnectorVersionsOf(cfg, fetch, fetch(cfg.javaSupport).value.tables, artifactId))
  {
    match FetchTwo(fetch, cfg.connectors, cfg.javaSupport)
    case Failure(e) => Failure(e)
    case Success(pages) => Success(ConnectorVersionsOf(cfg, fetch, pages.1.tables, artifactId))
  }

  // ---------------------------------------------------------------------------
  // What the answers mean
  // ---------------------------------------------------------------------------

  /** Without an artifact id (or with an empty one) the answer is general:
      one entry per Mule version of the Java map, in order, and the two
      documentation URLs. */
  lemma GeneralAnswer(cfg: Config, fetch: Fetch, javaTables: seq<Table>, artifactId: Option<string>)
    requires artifactId.None? || artifactId.value == []
    ensures var java := JavaCompatibility(javaTables); var r := ConnectorVersionsOf(cfg, fetch, javaTables, artifactId);
      && r.General? && r.java == java && r.sourceUrls == [cfg.connectors, cfg.javaSupport]
      && |r.entries| == |java|
      && (forall i | 0 <= i < |java| ::
           r.entries[i].muleVersion == Keys(java)[i]
           && Get(java, r.entries[i].muleVersion) == Some(r.entries[i].jdkVersions))
  {
    var java := JavaCompatibility(javaTables);
    KeysOfMapValues(JavaStrings(DataRowCells(javaTables)), ParseJdkVersions);
    assert UniqueKeys(java);
    GeneralEntriesOfJava(java);
  }

  /** With a non-empty artifact id the answer is never the general one. */
  lemma SpecificNotGeneral(cfg: Config, fetch: Fetch, javaTables: seq<Table>, a: string)
    requires a != []
    ensures ConnectorVersionsOf(cfg, fetch, javaTables, Some(a)) == SpecificResult(cfg, fetch, a, JavaCompatibility(javaTables))
    ensures !ConnectorVersionsOf(cfg, fetch, javaTables, Some(a)).General?
  {
  }

  /** The release-notes index is unreachable exactly when its fetch fails. */
  lemma IndexFailure(cfg: Config, fetch: Fetch, a: string, java: Dict<seq<int>>)
    ensures SpecificResult(cfg, fetch, a, java).ReleaseNotesUnreachable? <==> fetch(cfg.connectorReleaseNotes).Failure?
  {
    var index := fetch(cfg.connectorReleaseNotes);
    if index.Success? {
      var link := SelectLink(index.value.anchors, Variations(a));
      if link.Some? {
        var url := ResolveUrl(cfg, link.value.href);
        if fetch(url).Success? {
          assert SpecificResult(cfg, fetch, a, java) == PageResult(cfg, a, url, link.value.name, fetch(url).value, java);
        }
      }
    }
  }

  /** The connector is not found exactly when the index was read and none of
      its links is selectable; the answer lists the eight spellings tried. */
  lemma NotFoundIff(cfg: Config, fetch: Fetch, a: string, java: Dict<seq<int>>)
    ensures var r := SpecificResult(cfg, fetch, a, java);
      && (r.NotFound? <==>
           fetch(cfg.connectorReleaseNotes).Success?
           && forall k | 0 <= k < |fetch(cfg.connectorReleaseNotes).value.anchors| ::
                !Selectable(Variations(a), fetch(cfg.connectorReleaseNotes).value.anchors[k]))
      && (r.NotFound? ==> r.attemptedVariations == Variations(a))
  {
    NotFoundWhenNoLink(cfg, fetch, a, java);
    if fetch(cfg.connectorReleaseNotes).Success? {
      SelectLinkIff(fetch(cfg.connectorReleaseNotes).value.anchors, Variations(a));
    }
  }

  lemma NotFoundWhenNoLink(cfg: Config, fetch: Fetch, a: string, java: Dict<seq<int>>)
    ensures var r := SpecificResult(cfg, fetch, a, java);
      && (r.NotFound? <==>
           fetch(cfg.connectorReleaseNotes).Success?
           && SelectLink(fetch(cfg.connectorReleaseNotes).value.anchors, Variations(a)).None?)
      && (r.NotFound? ==> r.attemptedVariations == Variations(a))
  {
  }

  /** An unreachable connector page is the one the chosen link resolves to,
      and the answer names the connector as that link does. */
  lemma PageFailure(cfg: Config, fetch: Fetch, a: string, java: Dict<seq<int>>)
    ensures var r := SpecificResult(cfg, fetch, a, java);
      r.PageUnreachable? ==>
        && fetch(cfg.connectorReleaseNotes).Success?
        && var link := SelectLink(fetch(cfg.connectorReleaseNotes).value.anchors, Variations(a));
        && link.Some?
        && r.connectorUrl == ResolveUrl(cfg, link.value.href)
        && fetch(r.connectorUrl).Failure?
        && r.connectorName == link.value.name
        && r.artifactId == a
  {
    var index := fetch(cfg.connectorReleaseNotes);
    if index.Success? {
      var link := SelectLink(index.value.anchors, Variations(a));
      if link.Some? {
        var url := ResolveUrl(cfg, link.value.href);
        if fetch(url).Success? {
          assert SpecificResult(cfg, fetch, a, java) == PageResult(cfg, a, url, link.value.name, fetch(url).value, java);
        }
      }
    }
  }

  /** Every version found carries the artifact id, its Maven artifact id
      `mule-{artifactId}-connector` and a non-empty dotted version number;
      the source URLs are the connector's page and the Java support page. */
  lemma SpecificVersionsSound(cfg: Config, a: string, url: string, name: string, page: Page, java: Dict<seq<int>>)
    ensures var r := PageResult(cfg, a, url, name, page, java);
      r.ConnectorSpecific? ==>
        && r.sourceUrls == [url, cfg.javaSupport] && r.java == java
        && forall k | 0 <= k < |r.versions| ::
             && r.versions[k].artifactId == a
             && r.versions[k].mavenArtifactId == "mule-" + a + "-connector"
             && r.versions[k].connectorName == name
             && r.versions[k].connectorVersion != ""
             && IsDottedNumber(r.versions[k].connectorVersion)
  {
    var r := PageResult(cfg, a, url, name, page, java);
    MavenArtifactIdUniform(a);
    var c := DefaultCompat(CompatTables(page.tables));
    var cv := HeadingVersions(page.blocks, c, a, name);
    if cv != [] {
      forall k | 0 <= k < |cv|
        ensures cv[k].artifactId == a && cv[k].mavenArtifactId == "mule-" + a + "-connector"
        ensures cv[k].connectorName == name
        ensures cv[k].connectorVersion != "" && IsDottedNumber(cv[k].connectorVersion)
      {
        HeadingVersionsFrom(page.blocks, c, a, name, k);
        var i :| 0 <= i < |page.blocks| && IsVersionHeading(page.blocks[i]) &&
          cv[k] == VersionOf(ExtractVersionNumber(page.blocks[i].text), c, a, name);
        VersionHeadingNumber(page.blocks[i]);
      }
    } else {
      var ms := FindAll(page.text, 0);
      FindAllVersionNumbers(page.text, 0);
      forall k | 0 <= k < Min(5, |ms|)
        ensures FallbackVersions(ms, a, name)[k] == VersionOf(ExtractVersionNumber(ms[k]), NoCompat, a, name)
      {
        FallbackVersionAt(ms, a, name, k);
      }
    }
  }

  /** Which of the three page answers is given: heading versions when some
      heading is a version heading, each with the first compatibility
      table's values; otherwise at most five versions from the text with
      unknown compatibility; and no version data only when the text holds
      no version at all. */
  lemma PageResultCases(cfg: Config, a: string, url: string, name: string, page: Page, java: Dict<seq<int>>)
    ensures var r := PageResult(cfg, a, url, name, page, java);
      var c := DefaultCompat(CompatTables(page.tables));
      && ((exists i | 0 <= i < |page.blocks| :: IsVersionHeading(page.blocks[i])) ==>
           r.ConnectorSpecific? && r.versions == HeadingVersions(page.blocks, c, a, name)
           && forall k | 0 <= k < |r.versions| ::
                r.versions[k].muleVersion == c.muleVersion && r.versions[k].jdkVersions == c.jdkVersions)
      && ((forall i | 0 <= i < |page.blocks| :: !IsVersionHeading(page.blocks[i])) ==>
           (r.NoVersionData? <==> FindAll(page.text, 0) == [])
           && (r.ConnectorSpecific? ==>
                |r.versions| == Min(5, |FindAll(page.text, 0)|)
                && forall k | 0 <= k < |r.versions| ::
                     r.versions[k].muleVersion == "Unknown" && r.versions[k].jdkVersions == []))
  {
    var c := DefaultCompat(CompatTables(page.tables));
    HeadingVersionsEmptyIff(page.blocks, c, a, name);
    if exists i | 0 <= i < |page.blocks| :: IsVersionHeading(page.blocks[i]) {
      HeadingCase(cfg, a, url, name, page, java);
    } else {
      FallbackCase(cfg, a, url, name, page, java);
    }
  }

  lemma HeadingCase(cfg: Config, a: string, url: string, name: string, page: Page, java: Dict<seq<int>>)
    requires HeadingVersions(page.blocks, DefaultCompat(CompatTables(page.tables)), a, name) != []
    ensures var r := PageResult(cfg, a, url, name, page, java);
      var c := DefaultCompat(CompatTables(page.tables));
      && r.ConnectorSpecific? && r.versions == HeadingVersions(page.blocks, c, a, name)
      && forall k | 0 <= k < |r.versions| ::
           r.versions[k].muleVersion == c.muleVersion && r.versions[k].jdkVersions == c.jdkVersions
  {
    var c := DefaultCompat(CompatTables(page.tables));
    var cv := HeadingVersions(page.blocks, c, a, name);
    forall k | 0 <= k < |cv| ensures cv[k].muleVersion == c.muleVersion && cv[k].jdkVersions == c.jdkVersions {
      HeadingVersionsFrom(page.blocks, c, a, name, k);
    }
  }

  lemma FallbackCase(cfg: Config, a: string, url: string, name: string, page: Page, java: Dict<seq<int>>)
    requires HeadingVersions(page.blocks, DefaultCompat(CompatTables(page.tables)), a, name) == []
    ensures var r := PageResult(cfg, a, url, name, page, java);
      && (r.NoVersionData? <==> FindAll(page.text, 0) == [])
      && (r.ConnectorSpecific? ==>
           |r.versions| == Min(5, |FindAll(page.text, 0)|)
           && forall k | 0 <= k < |r.versions| ::
                r.versions[k].muleVersion == "Unknown" && r.versions[k].jdkVersions == [])
  {
    var ms := FindAll(page.text, 0);
    if ms != [] {
      forall k | 0 <= k < Min(5, |ms|)
        ensures FallbackVersions(ms, a, name)[k] == VersionOf(ExtractVersionNumber(ms[k]), NoCompat, a, name)
      {
        FallbackVersionAt(ms, a, name, k);
      }
    }
  }
}
