# MuleSoft documentation scraper and RSS title search, modelled in Dafny

This project models the logic of the MuleSoft assistant. The assistant scrapes
the MuleSoft documentation site for four answers:

- the Mule runtime versions, split into Edge and LTS releases, with the JDK
  versions each supports;
- the latest Edge and LTS release only;
- the DataWeave versions, each with its Mule runtime and JDKs, plus release
  notes for the newest three;
- the versions and compatibility of one Anypoint connector, or the general
  compatibility matrix when no connector is named.

It also models the title filter of the `search_youtube` RSS tool.

The network and HTML layers are not part of the model. A fetched page is plain
data (`DocPages.Page`) with these parts:

- its tables: rows of `th`/`td` cells, whose texts are already stripped;
- its heading and sibling elements, as one flat sequence of `(tag, text)` blocks;
- its anchors, as `(text, href)` pairs;
- its whole text.

A fetch is a function parameter from URL to `Result<Page, FetchError>`. The
documentation URLs form one `Config` value. Python's `str` methods are
modelled on ASCII in `PyStrings`. The regular expressions are modelled in
`VersionRegex`, including their backtracking choices. A Python `dict` whose
order matters is an association list with unique keys in `OrderedMaps`.
Python's `sorted(..., reverse=True)` is a stable insertion sort in `PySorted`.

Every loop of the source is a Dafny `method` with loop invariants. Each such
method is proved equal to a function of its inputs, and the properties the
source promises are lemmas about those functions. The error-wrapping tools
(`try` … `except requests.RequestException` / `except Exception`) return
`Result` values. The connector extractor's error dictionaries are variants
of `ConnectorVersions.ConnectorResult`.

Module layout, one module per file:

- `wrappers.dfy`: `Option` and `Result`.
- `py_strings.dfy`: `PyStrings`.
- `version_regex.dfy`: `VersionRegex`.
- `mulesoft_utils.dfy`: `MulesoftUtils`, the three version-string helpers of
  `mulesoft_assistant/mulesoft_utils.py`.
- `mcp_mulesoft_utils.dfy`: `McpMulesoftUtils`, the identical copy in
  `mcp_mulesoft_assistant/mulesoft_utils.py`, proved equal to the first.
- `ordered_maps.dfy`: `OrderedMaps`.
- `doc_pages.dfy`: `DocPages`, the page model, configuration, fetch errors and
  row helpers.
- `java_support.dfy`: `JavaSupport`, the Java support table loop. The source
  writes it three times; the model writes it once.
- `runtime_versions.dfy`: `RuntimeVersions`, covering `_extract_versions_from_tables`,
  `_scrape_mulesoft_versions` and `get_latest_mulesoft_versions`.
- `py_sorted.dfy`: `PySorted`.
- `dataweave_versions.dfy`: `DataWeaveVersions`, covering `_extract_dataweave_versions`
  and `get_dataweave_versions`.
- `release_notes.dfy`: `ReleaseNotes`, the DataWeave release-notes sections.
- `connector_links.dfy`: `ConnectorLinks`, the name variations, link search and
  URL resolution.
- `connector_pages.dfy`: `ConnectorPages`, the compatibility tables, version
  headings and text fallback of a connector page.
- `connector_versions.dfy`: `ConnectorVersions`, covering `_extract_connector_versions`
  and `get_connector_versions`.
- `rss_feed.dfy`: `RssFeed`, `search_youtube` of `rssfeed_stdio.py`.
- `quickstart_rss_feed.dfy`: `QuickstartRssFeed`, the identical copy in
  `quickstart/rssfeed_stdio.py`, proved equal to the first.

Where the code and its descriptions differ, the model follows the code:

- In the connector link search, a matching anchor whose `href` is empty sets
  `connector_link` to `""`. That value is false, so the outer loop does not
  stop. The selected link is therefore the first matching anchor with a
  non-empty `href` (`ConnectorLinks.Selectable`).
- The connector heading pattern is applied with `re.match` and starts with
  `.*`, which does not cross a line break. A heading is used exactly when the
  rest of the pattern matches from some position of its first line. The
  optional `Version` followed by white space can carry the match past a line
  break: "Version\n1.2" is used, while "x\n1.2" is not. For headings without
  a line break, a heading is used exactly when a version number can be
  extracted (`ConnectorPages.VersionHeadingIff`).
- `max_results <= 0` does not give an empty answer. The cap test runs after
  each entry, so the loop stops after the first entry and returns that
  entry's match, if any.

## Model

| member | source | states |
|---|---|---|
| MulesoftUtils.ParseJdkVersionsIsDigitRuns | mulesoft_assistant/mulesoft_utils.py:19-26 | `parse_jdk_versions` gives exactly the values of the input's maximal digit runs, in order: replacing "and" by "," and stripping add, remove, split or join no run |
| MulesoftUtils.ParseJdkVersionsExamples | mulesoft_assistant/mulesoft_utils.py:14-26 | "8, 11, and 17" gives [8, 11, 17], "8 and 11" gives [8, 11], "" gives [] |
| MulesoftUtils.IsVersionStringIff | mulesoft_assistant/mulesoft_utils.py:38 | `is_version_string(t)` holds iff t starts with one or more digits, a '.', and a digit |
| MulesoftUtils.IsVersionStringExamples | mulesoft_assistant/mulesoft_utils.py:38 | "4.4.0" is version-like; "4", "Edge" and " 4.4" are not, because nothing is trimmed |
| MulesoftUtils.ExtractVersionNumberEmptyIff | mulesoft_assistant/mulesoft_utils.py:50-53 | the result is "" iff no suffix of the text is version-like, that is iff the text has no `digits.digit` substring |
| MulesoftUtils.ExtractVersionNumberLeftmost | mulesoft_assistant/mulesoft_utils.py:50-52 | a non-empty result is the dotted number at the leftmost `digits.digits` position, with the optional third part taken greedily |
| MulesoftUtils.ExtractVersionNumberShape | mulesoft_assistant/mulesoft_utils.py:38-52 | a non-empty result is a dotted number of digits and dots that begins and ends with a digit, so it holds no "Version" and no white space, and it is itself version-like |
| MulesoftUtils.ExtractVersionNumberNoDigits | mulesoft_assistant/mulesoft_utils.py:50-53 | a text without digits gives "" |
| MulesoftUtils.ExtractAt | mulesoft_assistant/mulesoft_utils.py:50-52 | where the first dotted pair starts at p, the result is the dotted number that starts at p |
| MulesoftUtils.ExtractFromMatch | mulesoft_assistant/mulesoft_utils.py:50-52 | removing "Version"/"version" and stripping leave exactly the digits of the matched group, and no dotted pair starts before them |
| MulesoftUtils.CleanGroup | mulesoft_assistant/mulesoft_utils.py:52 | an optional `[Vv]ersion\s*` prefix followed by a dotted number cleans to that number |
| MulesoftUtils.ExtractVersionNumberExamples | mulesoft_assistant/mulesoft_utils.py:50-52 | "DataWeave Version 2.10.0 Release Notes" gives "2.10.0", and "no version here" gives "" |
| McpMulesoftUtils.CopiesAgree | mcp_mulesoft_assistant/mulesoft_utils.py:9-53 | the second copy's three functions agree with the first copy on every input |
| McpMulesoftUtils.ParseJdkVersionsIsDigitRuns | mcp_mulesoft_assistant/mulesoft_utils.py:19-26 | "" gives [], and every input gives the values of its maximal digit runs in order |
| McpMulesoftUtils.IsVersionStringIff | mcp_mulesoft_assistant/mulesoft_utils.py:38 | version-like iff the text starts with digits, '.', and a digit |
| McpMulesoftUtils.ExtractVersionNumberEmptyIff | mcp_mulesoft_assistant/mulesoft_utils.py:50-53 | "" exactly when no `digits.digit` substring exists |
| McpMulesoftUtils.ExtractVersionNumberShape | mcp_mulesoft_assistant/mulesoft_utils.py:52 | a non-empty result has only digits and dots and begins and ends with a digit, so it holds no "Version"/"version" text and no surrounding white space |
| VersionRegex.DigitRuns | mulesoft_assistant/mulesoft_utils.py:24 | `re.findall(r'\d+', s)`: every run is a non-empty string of digits |
| VersionRegex.DigitRunsReplaceAll | mulesoft_assistant/mulesoft_utils.py:22-24 | replacing a digit-free pattern by a non-empty digit-free text keeps the digit runs |
| VersionRegex.DigitRunsStrip | mulesoft_assistant/mulesoft_utils.py:22-24 | stripping white space keeps the digit runs |
| VersionRegex.Search | mulesoft_assistant/mulesoft_utils.py:50 | `re.search` reports a position where the pattern matches |
| VersionRegex.SearchNoneIff | mulesoft_assistant/mulesoft_utils.py:50-53 | the search fails iff no dotted pair starts at or after the start position |
| VersionRegex.SearchFindsFirstPair | mulesoft_assistant/mulesoft_utils.py:50 | the digits of the leftmost match begin at the leftmost dotted pair |
| VersionRegex.MatchedText | mulesoft_assistant/mulesoft_utils.py:50 | a match is an optional `[Vv]ersion\s*` prefix followed by a dotted number |
| VersionRegex.HeadingPatternFindsPair | mulesoft_assistant/mulesoft_server.py:427-442 | a heading the `.*` pattern accepts contains a dotted pair; for text without a line break the converse holds too |
| OrderedMaps.PutSpec | mulesoft_assistant/mulesoft_server.py:279-280 | `d[k] = v` makes k map to v, leaves other keys alone, keeps the key order (a new key goes last) and keeps keys unique |
| OrderedMaps.GetMapValues | mulesoft_assistant/mulesoft_server.py:279 | mapping values over a dictionary maps each lookup |
| DocPages.ErrorOf | mulesoft_assistant/mulesoft_server.py:196-199 | a request failure becomes the fetch error and any other failure the parse error |
| DocPages.DataRowCellsFrom | mulesoft_assistant/mulesoft_server.py:221-227 | every scanned row is a non-header row of one of the tables |
| DocPages.ReleaseNotesUrl | mulesoft_assistant/mulesoft_constants.py:14 | the release-notes template with the version put in place of `{version}` |
| DocPages.FetchTwo | mulesoft_assistant/mulesoft_server.py:184-199 | both pages or the first failure, mapped to its error kind |
| JavaSupport.JavaStrings | mulesoft_assistant/mulesoft_server.py:264-280 | `java_data_strings` has unique keys, all version-like |
| JavaSupport.BuildJavaMap | mulesoft_assistant/mulesoft_server.py:264-280 | the loop builds `java_data_strings` and `java_data` over every data row of every table |
| JavaSupport.ScanJavaTable | mulesoft_assistant/mulesoft_server.py:270-280 | one table's rows update both maps row by row |
| JavaSupport.JavaKeysIff | mulesoft_assistant/mulesoft_server.py:274-280 | a key is in the map iff some row has at least 2 cells and that key, version-like, in its first cell |
| JavaSupport.JavaLastRowWins | mulesoft_assistant/mulesoft_server.py:279-280 | a key's value is the second cell of the last row with that key |
| JavaSupport.JavaDataOfStrings | mulesoft_assistant/mulesoft_server.py:279-280 | `java_data` and `java_data_strings` have the same keys in the same order, and each value is the parsed string |
| RuntimeVersions.Classify | mulesoft_assistant/mulesoft_server.py:239-253 | "Edge" in the version gives Edge; otherwise "LTS" gives LTS; otherwise Unknown |
| RuntimeVersions.VersionDataShape | mulesoft_assistant/mulesoft_server.py:221-240 | each record has a version-like version, the type its version classifies to, and JDKs parsed from its JDK string |
| RuntimeVersions.Summary | mulesoft_assistant/mulesoft_server.py:243-253 | the short Edge/LTS entry keeps the record's version |
| RuntimeVersions.ExtractVersionsFromTables | mulesoft_assistant/mulesoft_server.py:201-291 | the method computes the specification's answer for the two pages' tables |
| RuntimeVersions.ScanRuntimeTables | mulesoft_assistant/mulesoft_server.py:221-253 | the loop yields `version_data` over every data row, and the Edge and LTS lists are its records of those kinds in order |
| RuntimeVersions.ScanRuntimeTable | mulesoft_assistant/mulesoft_server.py:222-253 | one table's rows extend the three lists row by row |
| RuntimeVersions.ApplyFallback | mulesoft_assistant/mulesoft_server.py:256-261 | the fallback step yields the specification's Edge and LTS lists |
| RuntimeVersions.VersionDataIff | mulesoft_assistant/mulesoft_server.py:221-240 | a record is in `version_data` iff some data row has at least 3 cells, a version-like first cell and that record |
| RuntimeVersions.BriefsIff | mulesoft_assistant/mulesoft_server.py:242-253 | an entry is in the Edge (LTS) list iff it summarises a record of that kind |
| RuntimeVersions.KindsPartition | mulesoft_assistant/mulesoft_server.py:239-253 | every record is of exactly one kind |
| RuntimeVersions.FallbackIff | mulesoft_assistant/mulesoft_server.py:256-261 | no Edge and no LTS entry iff every record is Unknown; then, with records present, the Edge list is the first min(3, n) records in full and the LTS list is the last record in full |
| RuntimeVersions.ListsEmptyIff | mulesoft_assistant/mulesoft_server.py:256-261 | both final lists are empty iff `version_data` is empty |
| RuntimeVersions.EdgeEntriesAreEdge | mulesoft_assistant/mulesoft_server.py:242-247 | a short Edge entry's version contains "Edge" |
| RuntimeVersions.LtsEntriesAreLts | mulesoft_assistant/mulesoft_server.py:248-253 | a short LTS entry's version contains "LTS" and not "Edge" |
| RuntimeVersions.FallbackEntriesAreFull | mulesoft_assistant/mulesoft_server.py:256-261 | short entries come only from classification, never from the fallback |
| RuntimeVersions.EntryRecord | mulesoft_assistant/mulesoft_server.py:243-261 | every listed entry stands for a record of `version_data` with the same version |
| RuntimeVersions.EntryFromRow | mulesoft_assistant/mulesoft_server.py:225-261 | every listed version is the first cell of a version row |
| RuntimeVersions.ScrapeMulesoftVersions | mulesoft_assistant/mulesoft_server.py:184-199 | the answer exists iff both pages were fetched and is then the tables' answer; a failed first fetch gives its error |
| RuntimeVersions.First | mulesoft_assistant/mulesoft_server.py:77-78 | element 0 of the list, or None for an empty list |
| RuntimeVersions.GetLatestMulesoftVersions | mulesoft_assistant/mulesoft_server.py:71-95 | an error of the full scrape is passed on unchanged, and there is no other error; on success the answer is the latest Edge and LTS entries with the Java map narrowed to them |
| RuntimeVersions.LatestJavaIff | mulesoft_assistant/mulesoft_server.py:81-89 | the projected Java map is the full map restricted to the latest Edge and latest LTS versions |
| RuntimeVersions.LatestJavaSize | mulesoft_assistant/mulesoft_server.py:81-89 | the projected Java map has at most two keys |
| PySorted.LexLessTotal | mulesoft_assistant/mulesoft_server.py:632 | Python's list comparison is total |
| PySorted.LexLessTrans | mulesoft_assistant/mulesoft_server.py:632 | Python's list comparison is transitive |
| PySorted.SortDescSorted | mulesoft_assistant/mulesoft_server.py:631-633 | the insertion sort orders by descending key, with ties in input order |
| PySorted.SortedReverseSpec | mulesoft_assistant/mulesoft_server.py:631-633 | `sorted(..., reverse=True)` is a permutation of the input, non-increasing by key and stable for equal keys |
| DataWeaveVersions.CompatibilityData | mulesoft_assistant/mulesoft_server.py:584-606 | both versions of every pair are version-like |
| DataWeaveVersions.ExtractCompatibility | mulesoft_assistant/mulesoft_server.py:584-606 | the table loop yields the pairs of the Mule/runtime tables' rows |
| DataWeaveVersions.ScanCompatRows | mulesoft_assistant/mulesoft_server.py:596-606 | the row loop yields the pairs of one table's data rows |
| DataWeaveVersions.CompatibilityDataFrom | mulesoft_assistant/mulesoft_server.py:585-606 | every pair is the first two cells of a data row, both version-like, of a table whose header names "mule" or "runtime" |
| DataWeaveVersions.CompatItemFrom | mulesoft_assistant/mulesoft_server.py:596-606 | every pair comes from a row with two version-like cells |
| DataWeaveVersions.SortKeys | mulesoft_assistant/mulesoft_server.py:631-633 | one key per item, when every key can be computed |
| DataWeaveVersions.SortKeyOfDigits | mulesoft_assistant/mulesoft_server.py:632 | a dotted version of digit runs has the runs' values as its key |
| DataWeaveVersions.SortFailsOnBadPiece | mulesoft_assistant/mulesoft_server.py:631-633 | one piece that `int` rejects makes the sort fail |
| DataWeaveVersions.SortedDataNoneIff | mulesoft_assistant/mulesoft_server.py:631-633 | the sort fails iff some Mule version has no key |
| DataWeaveVersions.SortedDataSpec | mulesoft_assistant/mulesoft_server.py:631-633 | the sorted data is a permutation of the pairs, non-increasing by key, with equal keys in input order |
| DataWeaveVersions.FirstPrefixed | mulesoft_assistant/mulesoft_server.py:646-649 | no value iff no key starts with the Mule version |
| DataWeaveVersions.FirstPrefixedAt | mulesoft_assistant/mulesoft_server.py:646-649 | the value of the first key in insertion order that starts with the Mule version |
| DataWeaveVersions.JdkForSpec | mulesoft_assistant/mulesoft_server.py:641-649 | the exact key's value if present, else the first prefixed key's value, else [] |
| DataWeaveVersions.LookupJdkVersions | mulesoft_assistant/mulesoft_server.py:641-649 | the lookup loop computes that value |
| DataWeaveVersions.CombineWithJava | mulesoft_assistant/mulesoft_server.py:636-664 | the loop builds `combined_data` and keeps its first five entries as `recent_versions` |
| DataWeaveVersions.ExtractDataweaveVersions | mulesoft_assistant/mulesoft_server.py:568-747 | the method computes the specification's answer |
| DataWeaveVersions.GetDataWeaveVersions | mulesoft_assistant/mulesoft_server.py:115-130 | a failed DataWeave or Java fetch gives that fetch's error kind; when both succeed, the answer is the extraction from their tables, so the parse error of a bad Mule version reaches the tool |
| DataWeaveVersions.DataWeaveFailsIff | mulesoft_assistant/mulesoft_server.py:631-633 | the extraction fails iff some Mule version has no sort key, and the error is then the parse error |
| DataWeaveVersions.DataWeaveInfoSpec | mulesoft_assistant/mulesoft_server.py:636-747 | one entry per pair in sorted order with its JDK lookup; the recent list is the first min(5, n) entries; at most 3 release notes |
| ReleaseNotes.NextHeading | mulesoft_assistant/mulesoft_server.py:691-695 | the sibling walk stops at the next `h2`/`h3`/`h4` or at the end |
| ReleaseNotes.SectionIff | mulesoft_assistant/mulesoft_server.py:690-695 | a text is in a section iff it is non-empty and is the text of a sibling before the next heading |
| ReleaseNotes.CollectSection | mulesoft_assistant/mulesoft_server.py:690-695 | the `while sibling` loop collects that section |
| ReleaseNotes.ClassOf | mulesoft_assistant/mulesoft_server.py:688-706 | breaking iff the lower-cased text contains "breaking"; new features iff not that and it contains "what's new" or "new features"; important iff neither of those and it contains "important" or "upgrade"; otherwise the heading contributes nothing |
| ReleaseNotes.ClassOfExample | mulesoft_assistant/mulesoft_server.py:697-697 | a "What's New" heading is a new-features heading |
| ReleaseNotes.ScanHeadings | mulesoft_assistant/mulesoft_server.py:686-714 | the heading loop gathers the first 2, 3 and 2 texts under each breaking, new-feature and important heading |
| ReleaseNotes.WarningsFrom | mulesoft_assistant/mulesoft_server.py:717-721 | every warning is the text of a `p` whose lower-cased text holds "warning:", "caution:" or "deprecated" |
| ReleaseNotes.FindWarnings | mulesoft_assistant/mulesoft_server.py:717-721 | the paragraph loop collects those warnings |
| ReleaseNotes.NoteOf | mulesoft_assistant/mulesoft_server.py:723-728 | at most 3 breaking changes, 5 new features and 3 important notes, with the page's URL |
| ReleaseNotes.ReadReleasePage | mulesoft_assistant/mulesoft_server.py:680-728 | the method computes the note of one release page |
| ReleaseNotes.ReleaseNotesInfo | mulesoft_assistant/mulesoft_server.py:667-736 | the release-notes map has unique keys |
| ReleaseNotes.CollectReleaseNotes | mulesoft_assistant/mulesoft_server.py:667-736 | the loop over the top three versions builds that map |
| ReleaseNotes.ReleaseNotesInfoIff | mulesoft_assistant/mulesoft_server.py:670-732 | a version has a note iff it is one of the given versions and its page was fetched; a failed fetch only omits that key |
| ReleaseNotes.ReleaseNotesInfoSize | mulesoft_assistant/mulesoft_server.py:670 | there are no more notes than versions |
| ReleaseNotes.BreakingChangesFrom | mulesoft_assistant/mulesoft_server.py:696-724 | the breaking changes are the first 3 heading entries, or the warnings when there are none |
| ReleaseNotes.CollectedFrom | mulesoft_assistant/mulesoft_server.py:686-714 | every gathered text lies in the section of a heading of its class |
| ConnectorLinks.Variations | mulesoft_assistant/mulesoft_server.py:336-345 | eight spellings, the lower-cased id first and the id itself fourth |
| ConnectorLinks.VariationsLowered | mulesoft_assistant/mulesoft_server.py:336-354 | lower-cased, the eight spellings are the id, the id + " connector" and the id + " connector release notes" |
| ConnectorLinks.AnchorMatchesIff | mulesoft_assistant/mulesoft_server.py:349-354 | an anchor matches iff one of those three lower-cased forms occurs in its lower-cased text or equals it without " release notes" |
| ConnectorLinks.MatchVariations | mulesoft_assistant/mulesoft_server.py:353-363 | the inner loop finds a match iff some variation matches |
| ConnectorLinks.LinkName | mulesoft_assistant/mulesoft_server.py:356-361 | a text without " Release Notes" is its own name |
| ConnectorLinks.LinkNameDropsSuffix | mulesoft_assistant/mulesoft_server.py:356-361 | a text ending in its only " Release Notes" is named by what precedes it ("HTTP Connector Release Notes" gives "HTTP Connector") |
| ConnectorLinks.FindConnectorLink | mulesoft_assistant/mulesoft_server.py:348-366 | the nested loop selects the specification's link |
| ConnectorLinks.SelectLinkIff | mulesoft_assistant/mulesoft_server.py:348-366 | none iff no anchor matches with a non-empty `href`; otherwise the first such anchor in document order |
| ConnectorLinks.SelectLinkAt | mulesoft_assistant/mulesoft_server.py:348-366 | the first matching anchor with a non-empty `href` is selected |
| ConnectorLinks.SelectLinkSkip | mulesoft_assistant/mulesoft_server.py:348-366 | anchors that cannot be selected do not change the result |
| ConnectorLinks.ResolveUrlReleaseNotes | mulesoft_assistant/mulesoft_server.py:371-374 | a "../../" link that contains `/release-notes/connector/` anywhere becomes the site root plus the link without its first 5 characters |
| ConnectorLinks.ResolveUrlConnectorNotes | mulesoft_assistant/mulesoft_server.py:371-374 | a "../../release-notes/connector/…" link becomes the site root plus "/release-notes/connector/…" |
| ConnectorLinks.ResolveUrlUpTwo | mulesoft_assistant/mulesoft_server.py:371-376 | any other "../../" link becomes the connectors URL plus the link without its first 6 characters |
| ConnectorLinks.ResolveUrlUpOne | mulesoft_assistant/mulesoft_server.py:377-378 | a "../" link becomes the connectors URL + "introduction/" + the rest |
| ConnectorLinks.ResolveUrlRooted | mulesoft_assistant/mulesoft_server.py:379-380 | a "/" link becomes the site root plus the link |
| ConnectorLinks.ResolveUrlOther | mulesoft_assistant/mulesoft_server.py:381-385 | an "http" link is kept; anything else becomes the connectors URL + "introduction/" + the link |
| ConnectorLinks.ResolveUrlAbsolute | mulesoft_assistant/mulesoft_server.py:371-385 | with an "http" connectors URL every result starts with "http", and resolving again changes nothing |
| ConnectorPages.CompatLastRowWins | mulesoft_assistant/mulesoft_server.py:408-416 | the Mule version is the second cell of the last "Mule" row |
| ConnectorPages.CompatDefaults | mulesoft_assistant/mulesoft_server.py:405-416 | without a Mule row the version is "Unknown", and without a JDK row the JDKs are [] |
| ConnectorPages.JdkTest | mulesoft_assistant/mulesoft_server.py:415 | "OpenJDK" or "JDK" in the text iff "JDK" in it |
| ConnectorPages.CompatTablesUpTo | mulesoft_assistant/mulesoft_server.py:397-423 | every entry names a compatibility table with more than one row, by increasing index, with that table's values |
| ConnectorPages.CompatTablesOrdered | mulesoft_assistant/mulesoft_server.py:397-423 | the table indices strictly increase along the list |
| ConnectorPages.CompatTableEntry | mulesoft_assistant/mulesoft_server.py:397-423 | every compatibility table has an entry |
| ConnectorPages.CompatTablesIff | mulesoft_assistant/mulesoft_server.py:397-403 | a table has an entry iff it has at least 2 rows and its header holds "software" and "version" |
| ConnectorPages.DefaultCompatFirst | mulesoft_assistant/mulesoft_server.py:432-438 | the default compatibility is that of the first compatibility table |
| ConnectorPages.CompatTablesEmptyIff | mulesoft_assistant/mulesoft_server.py:432-438 | no entries iff no compatibility table, and then the default is "Unknown" and [] |
| ConnectorPages.FindCompatibilityTables | mulesoft_assistant/mulesoft_server.py:394-423 | the table loop builds that list |
| ConnectorPages.ReadCompatTable | mulesoft_assistant/mulesoft_server.py:405-416 | the row loop computes a table's values |
| ConnectorPages.MavenArtifactIdUniform | mulesoft_assistant/mulesoft_server.py:452-458 | the Maven id is always "mule-" + id + "-connector", the three named cases included |
| ConnectorPages.ScanVersionHeadings | mulesoft_assistant/mulesoft_server.py:440-467 | the heading loop builds one record per version heading |
| ConnectorPages.HeadingVersionsEmptyIff | mulesoft_assistant/mulesoft_server.py:440-442 | no heading records iff no heading is a version heading |
| ConnectorPages.HeadingVersionsFrom | mulesoft_assistant/mulesoft_server.py:440-467 | every record is built from a version heading with the version extracted from its text |
| ConnectorPages.VersionHeadingNumber | mulesoft_assistant/mulesoft_server.py:442-444 | a version heading yields a non-empty dotted version number |
| ConnectorPages.VersionHeadingIff | mulesoft_assistant/mulesoft_server.py:426-444 | for a heading without a line break, the pattern accepts it iff a version number can be extracted |
| ConnectorPages.FallbackVersions | mulesoft_assistant/mulesoft_server.py:487-504 | at most the first five matches, one record each |
| ConnectorPages.FallbackVersionAt | mulesoft_assistant/mulesoft_server.py:487-504 | the k-th fallback record carries the version number extracted from the k-th match, "Unknown" and [] as compatibility, the artifact id and the connector's name |
| ConnectorPages.CollectFallbackVersions | mulesoft_assistant/mulesoft_server.py:486-504 | the fallback loop builds those records |
| ConnectorPages.FindAllVersionNumbers | mulesoft_assistant/mulesoft_server.py:483-498 | every `findall` match yields a non-empty dotted version number |
| ConnectorVersions.GeneralEntries | mulesoft_assistant/mulesoft_server.py:549-557 | one general entry per Java-map key |
| ConnectorVersions.GeneralEntriesOfJava | mulesoft_assistant/mulesoft_server.py:552-557 | the entries follow the map's keys in order, each with that key's JDKs |
| ConnectorVersions.CollectGeneralEntries | mulesoft_assistant/mulesoft_server.py:552-557 | the loop builds those entries |
| ConnectorVersions.ExtractConnectorVersions | mulesoft_assistant/mulesoft_server.py:293-566 | the method computes the specification's answer |
| ConnectorVersions.ReadConnectorPage | mulesoft_assistant/mulesoft_server.py:390-525 | the page's answer: heading records, else the text fallback, else the no-data message |
| ConnectorVersions.GetConnectorVersions | mulesoft_assistant/mulesoft_server.py:155-170 | it fails iff fetching the connectors or Java page fails, with that fetch's error kind; when both succeed, the answer is the extraction from the Java page's tables |
| ConnectorVersions.GeneralAnswer | mulesoft_assistant/mulesoft_server.py:548-566 | with no or an empty id, the general matrix: one entry per Java key with its JDKs, and the two source URLs |
| ConnectorVersions.SpecificNotGeneral | mulesoft_assistant/mulesoft_server.py:324 | a non-empty id always gets the connector-specific answer or one of its errors |
| ConnectorVersions.IndexFailure | mulesoft_assistant/mulesoft_server.py:541-546 | the release-notes error is returned iff that page cannot be fetched |
| ConnectorVersions.NotFoundIff | mulesoft_assistant/mulesoft_server.py:534-540 | "not found" iff no anchor matches with a non-empty `href`, and it then lists the eight variations |
| ConnectorVersions.PageFailure | mulesoft_assistant/mulesoft_server.py:526-533 | a page error names the resolved URL of the selected link, whose fetch failed, and the link's name |
| ConnectorVersions.SpecificVersionsSound | mulesoft_assistant/mulesoft_server.py:460-512 | every record carries the id, "mule-" + id + "-connector", the connector's name and a non-empty dotted version, with the page and Java URLs as sources |
| ConnectorVersions.PageResultCases | mulesoft_assistant/mulesoft_server.py:431-525 | with a version heading, the heading records with the first table's values; otherwise at most 5 fallback records with "Unknown" and [], and the no-data answer iff the text has no match |
| RssFeed.SearchResults | rssfeed_stdio.py:45-53 | at most `max_results` results when `max_results >= 1`, and at most one otherwise |
| RssFeed.SearchYoutube | rssfeed_stdio.py:29-55 | the append-and-break loop computes those results |
| RssFeed.SearchYoutubeDefault | rssfeed_stdio.py:11-11 | leaving `max_results` out gives its default, 10: the first ten matches |
| RssFeed.AllWordsMatch | rssfeed_stdio.py:43 | true iff every query word occurs in the title |
| RssFeed.MatchesPrefix | rssfeed_stdio.py:33-49 | the matches of a prefix of the feed are a prefix of its matches |
| RssFeed.MatchesSubsequence | rssfeed_stdio.py:33-49 | the matches are the matching entries at strictly increasing positions, each with its own title and link, and every matching entry is among them |
| RssFeed.SearchResultsPrefix | rssfeed_stdio.py:45-53 | the results are a prefix of the matches, of length min(`max_results`, matches) when `max_results >= 1` |
| RssFeed.EmptyQueryMatchesAll | rssfeed_stdio.py:30-39 | an empty query matches every entry, in order |
| QuickstartRssFeed.SearchYoutube | quickstart/rssfeed_stdio.py:29-55 | the second copy's loop computes the first copy's results, capped the same way |

## Left out

- HTTP fetching, BeautifulSoup parsing, `get_text(strip=True)` and timeouts (`http_client.py`). A page is given as already parsed data, and a fetch is a function parameter.
- Heading and sibling elements are one flat sequence of blocks. The model does not capture nesting: a sibling walk that the real tree would end earlier because the heading sits inside another element.
- Python's Unicode `lower()`, `upper()`, `capitalize()`, `isspace()` and `split()`, and the `re` classes `\d` and `\s`, which in Python 3 also match Unicode digits and white space (in `parse_jdk_versions`, `extract_version_number` and both version patterns of the connector tool): the model uses ASCII only.
- The text of error and information messages, and the constant `note` of each general connector entry.
- The `table_element` field of a connector compatibility table: it holds a parsed HTML object.
- The connectors page fetched by `get_connector_versions`: its content is never read. Only the success or failure of its fetch counts.
- `print` logging, the FastMCP decorators and prompts, `mcp.run`, and feedparser's fetch of the RSS feed. The feed's entries are an input.
- The calculators (`calculator_api_http.py`, `calculator_stdio.py`, `quickstart/calculator_stdio.py`): floating-point arithmetic behind web endpoints.
- The URL table (`mulesoft_constants.py`, both copies) is the `Config` value `DocPages.DefaultConfig`. The lemmas hold for any configuration.
- An exception raised while building the answer surfaces as `except Exception`. The model raises only one: `int()` rejecting a piece of a Mule version during the DataWeave sort. That exception is the parse error.
- DataWeaveVersions.PyInts: Python `int()` accepts Unicode digits, which the model does not.
