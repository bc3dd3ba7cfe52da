/** The Mule runtime release-cadence scrape: the version rows of the LTS/Edge
    page, classified as Edge or LTS, the Java map of the Java support page,
    and the projection onto the latest Edge and LTS versions. */
module RuntimeVersions {
  import opened Wrappers
  import opened PyStrings
  import opened OrderedMaps
  import opened MulesoftUtils
  import opened DocPages
  import opened JavaSupport

  /** The `'type'` field: "Edge", "LTS" or "Unknown". */
  datatype Kind = Edge | Lts | Unknown

  /** `'Edge' if 'Edge' in version_text else 'LTS' if 'LTS' in version_text else 'Unknown'` */
  function Classify(versionText: string): (k: Kind)
    ensures k == Edge <==> Contains(versionText, "Edge")
    ensures k == Lts <==> !Contains(versionText, "Edge") && Contains(versionText, "LTS")
  {
    if Contains(versionText, "Edge") then Edge
    else if Contains(versionText, "LTS") then Lts
    else Unknown
  }

  /** An entry of `version_data`. */
  datatype VersionRecord = VersionRecord(
    version: string,
    releaseDate: string,
    jdkVersions: seq<int>,
    jdkVersionsString: string,
    kind: Kind)

  /** An entry of `edge_versions` or `lts_versions`: the three-field summary
      the scan appends, or a whole `version_data` record put there by the
      fallback. */
  datatype VersionEntry =
    | Brief(version: string, releaseDate: string, jdkVersions: seq<int>)
    | Full(record: VersionRecord)
  {
    function Version(): string {
      match this
      case Brief(v, _, _) => v
      case Full(r) => r.version
    }
  }

  /** `len(cells) >= 3` and `is_version_string(cells[0])` */
  predicate IsRuntimeRow(cells: seq<string>) {
    |cells| >= 3 && IsVersionString(cells[0])
  }

  function RecordOf(cells: seq<string>): (r: VersionRecord)
    requires IsRuntimeRow(cells)
  {
    VersionRecord(cells[0], cells[1], ParseJdkVersions(cells[2]), cells[2], Classify(cells[0]))
  }

  /** `version_data` after scanning `rows` in order. */
  function VersionData(rows: seq<seq<string>>): (recs: seq<VersionRecord>)
    ensures |recs| <= |rows|
  {
    if rows == [] then []
    else
      var cells := rows[|rows| - 1];
      VersionData(rows[..|rows| - 1]) + (if IsRuntimeRow(cells) then [RecordOf(cells)] else [])
  }

  /** The three-field summary of a record. */
  function Summary(r: VersionRecord): (e: VersionEntry)
    ensures e.Brief? && e.Version() == r.version
  {
    Brief(r.version, r.releaseDate, r.jdkVersions)
  }

  /** The summaries the scan appends for the records of kind `k`. */
  function BriefsOf(recs: seq<VersionRecord>, k: Kind): (es: seq<VersionEntry>)
    ensures |es| <= |recs|
  {
    if recs == [] then []
    else
      var r := recs[|recs| - 1];
      BriefsOf(recs[..|recs| - 1], k) + (if r.kind == k then [Summary(r)] else [])
  }

  function Fulls(recs: seq<VersionRecord>): (es: seq<VersionEntry>)
    ensures |es| == |recs|
    ensures forall i | 0 <= i < |recs| :: es[i] == Full(recs[i])
  {
    seq(|recs|, i requires 0 <= i < |recs| => Full(recs[i]))
  }

  /** The Edge and LTS lists after the fallback: when no row was classified,
      the first three records count as Edge and the last as LTS. */
  function EdgeAndLts(recs: seq<VersionRecord>): (lists: (seq<VersionEntry>, seq<VersionEntry>)) {
    var edge := BriefsOf(recs, Edge);
    var lts := BriefsOf(recs, Lts);
    if edge == [] && lts == [] && recs != [] then (Fulls(Take(recs, 3)), [Full(recs[|recs| - 1])])
    else (edge, lts)
  }

  /** The dictionary `_extract_versions_from_tables` returns. */
  datatype RuntimeInfo = RuntimeInfo(
    edgeVersions: seq<VersionEntry>,
    ltsVersions: seq<VersionEntry>,
    javaCompatibility: Dict<seq<int>>,
    javaCompatibilityStrings: Dict<string>,
    sourceUrls: seq<string>)

  function RuntimeInfoOf(cfg: Config, ltsEdgeTables: seq<Table>, javaTables: seq<Table>): RuntimeInfo {
    var lists := EdgeAndLts(VersionData(DataRowCells(ltsEdgeTables)));
    RuntimeInfo(lists.0, lists.1, JavaCompatibility(javaTables), JavaStrings(DataRowCells(javaTables)),
      [cfg.ltsEdgeReleaseCadence, cfg.javaSupport])
  }

  /** `_extract_versions_from_tables` */
  method ExtractVersionsFromTables(cfg: Config, ltsEdgeTables: seq<Table>, javaTables: seq<Table>)
    returns (info: RuntimeInfo)
    ensures info == RuntimeInfoOf(cfg, ltsEdgeTables, javaTables)
  {
    var versionData, edgeVersions, ltsVersions := ScanRuntimeTables(ltsEdgeTables);
    edgeVersions, ltsVersions := ApplyFallback(versionData, edgeVersions, ltsVersions);
    var javaData, javaDataStrings := BuildJavaMap(javaTables);
    info := RuntimeInfo(edgeVersions, ltsVersions, javaData, javaDataStrings,
      [cfg.ltsEdgeReleaseCadence, cfg.javaSupport]);
  }

  /** The loop over the LTS/Edge page's tables. */
  method ScanRuntimeTables(tables: seq<Table>)
    returns (versionData: seq<VersionRecord>, edgeVersions: seq<VersionEntry>, ltsVersions: seq<VersionEntry>)
    ensures versionData == VersionData(DataRowCells(tables))
    ensures edgeVersions == BriefsOf(versionData, Edge) && ltsVersions == BriefsOf(versionData, Lts)
  {
    versionData, edgeVersions, ltsVersions := [], [], [];
    var ti := 0;
    while ti < |tables|
      invariant 0 <= ti <= |tables|
      invariant versionData == VersionData(DataRowCells(tables[..ti]))
      invariant edgeVersions == BriefsOf(versionData, Edge) && ltsVersions == BriefsOf(versionData, Lts)
    {
      DataRowCellsSnoc(tables, ti);
      versionData, edgeVersions, ltsVersions :=
        ScanRuntimeTable(tables[ti], DataRowCells(tables[..ti]), versionData, edgeVersions, ltsVersions);
      ti := ti + 1;
    }
    assert tables[..ti] == tables;
  }

  /** `if not edge_versions and not lts_versions and version_data: ...` */
  method ApplyFallback(versionData: seq<VersionRecord>, edge0: seq<VersionEntry>, lts0: seq<VersionEntry>)
    returns (edgeVersions: seq<VersionEntry>, ltsVersions: seq<VersionEntry>)
    requires edge0 == BriefsOf(versionData, Edge) && lts0 == BriefsOf(versionData, Lts)
    ensures edgeVersions == EdgeAndLts(versionData).0 && ltsVersions == EdgeAndLts(versionData).1
  {
    edgeVersions, ltsVersions := edge0, lts0;
    if edgeVersions == [] && ltsVersions == [] && versionData != [] {
      var i := 0;
      while i < |versionData| && i < 3
        invariant 0 <= i <= Min(3, |versionData|)
        invariant |edgeVersions| == i
        invariant forall k | 0 <= k < i :: edgeVersions[k] == Full(versionData[k])
      {
        edgeVersions := edgeVersions + [Full(versionData[i])];
        i := i + 1;
      }
      assert edgeVersions == Fulls(Take(versionData, 3));
      ltsVersions := ltsVersions + [Full(versionData[|versionData| - 1])];
    }
  }

  /** The row loop over `rows[1:]` of one table with more than one row. */
  method ScanRuntimeTable(rows: Table, ghost before: seq<seq<string>>,
      versionData0: seq<VersionRecord>, edge0: seq<VersionEntry>, lts0: seq<VersionEntry>)
    returns (versionData: seq<VersionRecord>, edgeVersions: seq<VersionEntry>, ltsVersions: seq<VersionEntry>)
    requires versionData0 == VersionData(before)
    requires edge0 == BriefsOf(versionData0, Edge) && lts0 == BriefsOf(versionData0, Lts)
    ensures versionData == VersionData(before + RowCells(DataRows(rows)))
    ensures edgeVersions == BriefsOf(versionData, Edge) && ltsVersions == BriefsOf(versionData, Lts)
  {
    versionData, edgeVersions, ltsVersions := versionData0, edge0, lts0;
    if |rows| > 1 {
      var ri := 1;
      assert before + RowCells(rows[1..ri]) == before;
      while ri < |rows|
        invariant 1 <= ri <= |rows|
        invariant versionData == VersionData(before + RowCells(rows[1..ri]))
        invariant edgeVersions == BriefsOf(versionData, Edge) && ltsVersions == BriefsOf(versionData, Lts)
      {
        var cells := TdTexts(rows[ri]);
        RuntimeRowStep(before, rows, ri);
        if |cells| >= 3 {
          var versionText := cells[0];
          if IsVersionString(versionText) {
            var jdkString := cells[2];
            var jdkArray := ParseJdkVersions(jdkString);
            var rec := VersionRecord(versionText, cells[1], jdkArray, jdkString, Classify(versionText));
            BriefsSnoc(versionData, rec, Edge);
            BriefsSnoc(versionData, rec, Lts);
            versionData := versionData + [rec];
            if Contains(versionText, "Edge") {
              edgeVersions := edgeVersions + [Brief(versionText, cells[1], jdkArray)];
            } else if Contains(versionText, "LTS") {
              ltsVersions := ltsVersions + [Brief(versionText, cells[1], jdkArray)];
            }
          }
        }
        ri := ri + 1;
      }
      assert rows[1..ri] == DataRows(rows);
    } else {
      assert before + RowCells(DataRows(rows)) == before;
    }
  }

  lemma RuntimeRowStep(before: seq<seq<string>>, rows: Table, ri: nat)
    requires 1 <= ri < |rows|
    ensures VersionData(before + RowCells(rows[1..ri + 1])) ==
      var cells := TdTexts(rows[ri]);
      VersionData(before + RowCells(rows[1..ri])) + (if IsRuntimeRow(cells) then [RecordOf(cells)] else [])
  {
    var front := before + RowCells(rows[1..ri]);
    RowCellsSnoc(rows, ri);
    AppendAssocRows(before, RowCells(rows[1..ri]), [TdTexts(rows[ri])]);
    assert (front + [TdTexts(rows[ri])])[..|front|] == front;
  }

  lemma BriefsSnoc(recs: seq<VersionRecord>, r: VersionRecord, k: Kind)
    ensures BriefsOf(recs + [r], k) ==
      BriefsOf(recs, k) + (if r.kind == k then [Summary(r)] else [])
  {
    assert (recs + [r])[..|recs|] == recs;
  }

  /** A record is in `version_data` exactly when a scanned row with at least
      three cells and a version-like first cell produced it. */
  lemma VersionDataIff(rows: seq<seq<string>>, r: VersionRecord)
    ensures r in VersionData(rows) <==> exists i | 0 <= i < |rows| :: IsRuntimeRow(rows[i]) && r == RecordOf(rows[i])
  {
    if r in VersionData(rows) {
      var i := VersionDataFrom(rows, r);
    }
    if exists i | 0 <= i < |rows| :: IsRuntimeRow(rows[i]) && r == RecordOf(rows[i]) {
      var i :| 0 <= i < |rows| && IsRuntimeRow(rows[i]) && r == RecordOf(rows[i]);
      VersionDataHas(rows, i);
    }
  }

  /** The row a record of `version_data` came from. */
  lemma {:induction false} VersionDataFrom(rows: seq<seq<string>>, r: VersionRecord) returns (i: nat)
    requires r in VersionData(rows)
    ensures i < |rows| && IsRuntimeRow(rows[i]) && r == RecordOf(rows[i])
  {
    var n := |rows| - 1;
    VersionDataSnoc(rows);
    if r in VersionData(rows[..n]) {
      i := VersionDataFrom(rows[..n], r);
      assert rows[..n][i] == rows[i];
    } else {
      i := n;
    }
  }

  /** Every version row contributes its record. */
  lemma {:induction false} VersionDataHas(rows: seq<seq<string>>, i: nat)
    requires i < |rows| && IsRuntimeRow(rows[i])
    ensures RecordOf(rows[i]) in VersionData(rows)
  {
    var n := |rows| - 1;
    VersionDataSnoc(rows);
    if i < n {
      assert rows[..n][i] == rows[i];
      VersionDataHas(rows[..n], i);
    }
  }

  /** Every record has a version-like version, the kind that version
      classifies to, and the JDK versions parsed from its JDK string. */
  lemma {:induction false} VersionDataShape(rows: seq<seq<string>>)
    ensures forall r | r in VersionData(rows) :: IsVersionString(r.version) && r.kind == Classify(r.version)
    ensures forall r | r in VersionData(rows) :: r.jdkVersions == ParseJdkVersions(r.jdkVersionsString)
  {
    if rows != [] {
      VersionDataShape(rows[..|rows| - 1]);
      VersionDataSnoc(rows);
    }
  }

  lemma VersionDataSnoc(rows: seq<seq<string>>)
    requires rows != []
    ensures VersionData(rows) ==
      VersionData(rows[..|rows| - 1]) + (if IsRuntimeRow(rows[|rows| - 1]) then [RecordOf(rows[|rows| - 1])] else [])
  {
  }

  /** The list of kind `k` holds exactly the summaries of the records of that
      kind. */
  lemma {:induction false} BriefsIff(recs: seq<VersionRecord>, k: Kind, e: VersionEntry)
    ensures e in BriefsOf(recs, k) <==> exists r | r in recs :: r.kind == k && e == Summary(r)
  {
    if recs != [] {
      var n := |recs| - 1;
      var front := recs[..n];
      BriefsIff(front, k, e);
      assert recs == front + [recs[n]];
      BriefsSnoc(front, recs[n], k);
    }
  }

  /** Every record lands in exactly one of the Edge, LTS and Unknown groups. */
  lemma {:induction false} KindsPartition(recs: seq<VersionRecord>)
    ensures |BriefsOf(recs, Edge)| + |BriefsOf(recs, Lts)| + |BriefsOf(recs, Unknown)| == |recs|
  {
    if recs != [] {
      var n := |recs| - 1;
      KindsPartition(recs[..n]);
      assert recs == recs[..n] + [recs[n]];
      BriefsSnoc(recs[..n], recs[n], Edge);
      BriefsSnoc(recs[..n], recs[n], Lts);
      BriefsSnoc(recs[..n], recs[n], Unknown);
    }
  }

  /** The fallback applies exactly when there are records and none of them
      mentions Edge or LTS; it takes the first three records as Edge and the
      last as LTS. */
  lemma FallbackIff(recs: seq<VersionRecord>)
    ensures (BriefsOf(recs, Edge) == [] && BriefsOf(recs, Lts) == []) <==> forall r | r in recs :: r.kind == Unknown
    ensures (recs != [] && forall r | r in recs :: r.kind == Unknown) ==>
      EdgeAndLts(recs).0 == Fulls(recs[..Min(3, |recs|)]) && EdgeAndLts(recs).1 == [Full(recs[|recs| - 1])]
  {
    forall r | r in recs && r.kind != Unknown
      ensures BriefsOf(recs, r.kind) != []
    {
      BriefsIff(recs, r.kind, Summary(r));
    }
    if BriefsOf(recs, Edge) != [] {
      BriefsIff(recs, Edge, BriefsOf(recs, Edge)[0]);
    }
    if BriefsOf(recs, Lts) != [] {
      BriefsIff(recs, Lts, BriefsOf(recs, Lts)[0]);
    }
  }

  /** The Edge and LTS lists are empty only when no row was a version row. */
  lemma ListsEmptyIff(recs: seq<VersionRecord>)
    ensures (EdgeAndLts(recs).0 == [] && EdgeAndLts(recs).1 == []) <==> recs == []
  {
  }

  /** Outside the fallback, Edge entries name Edge versions. */
  lemma EdgeEntriesAreEdge(rows: seq<seq<string>>, e: VersionEntry)
    requires e in EdgeAndLts(VersionData(rows)).0 && e.Brief?
    ensures Contains(e.Version(), "Edge")
  {
    var recs := VersionData(rows);
    VersionDataShape(rows);
    FallbackEntriesAreFull(recs, e);
    BriefsIff(recs, Edge, e);
    var r :| r in recs && r.kind == Edge && e == Summary(r);
  }

  /** Outside the fallback, LTS entries name LTS versions that are not Edge. */
  lemma LtsEntriesAreLts(rows: seq<seq<string>>, e: VersionEntry)
    requires e in EdgeAndLts(VersionData(rows)).1 && e.Brief?
    ensures Contains(e.Version(), "LTS") && !Contains(e.Version(), "Edge")
  {
    var recs := VersionData(rows);
    VersionDataShape(rows);
    FallbackEntriesAreFull(recs, e);
    BriefsIff(recs, Lts, e);
    var r :| r in recs && r.kind == Lts && e == Summary(r);
  }

  lemma FallbackEntriesAreFull(recs: seq<VersionRecord>, e: VersionEntry)
    requires e in EdgeAndLts(recs).0 + EdgeAndLts(recs).1 && e.Brief?
    ensures e in BriefsOf(recs, Edge) + BriefsOf(recs, Lts)
  {
  }

  /** Every entry of either list stands for a record of `version_data`. */
  lemma EntryRecord(recs: seq<VersionRecord>, e: VersionEntry) returns (r: VersionRecord)
    requires e in EdgeAndLts(recs).0 + EdgeAndLts(recs).1
    ensures r in recs && e.Version() == r.version
  {
    if e.Brief? {
      FallbackEntriesAreFull(recs, e);
      BriefsIff(recs, Edge, e);
      BriefsIff(recs, Lts, e);
      assert exists r | r in recs :: e == Summary(r);
      r :| r in recs && e == Summary(r);
      assert e.Version() == r.version;
    } else {
      BriefsIff(recs, Edge, e);
      BriefsIff(recs, Lts, e);
      r := e.record;
      var fs := Fulls(Take(recs, 3));
      if e in fs {
        var i :| 0 <= i < |fs| && fs[i] == e;
        assert r == recs[i];
      } else {
        assert e == Full(recs[|recs| - 1]);
      }
    }
  }

  /** Every entry's version is the first cell of a version row of the page. */
  lemma EntryFromRow(rows: seq<seq<string>>, e: VersionEntry)
    requires e in EdgeAndLts(VersionData(rows)).0 + EdgeAndLts(VersionData(rows)).1
    ensures exists i | 0 <= i < |rows| :: IsRuntimeRow(rows[i]) && rows[i][0] == e.Version()
  {
    var r := EntryRecord(VersionData(rows), e);
    VersionDataIff(rows, r);
  }

  /** `_scrape_mulesoft_versions`: fetch the LTS/Edge page, then the Java
      support page, then read their tables. */
  function ScrapeMulesoftVersions(cfg: Config, fetch: Fetch): (r: Result<RuntimeInfo, ScrapeError>)
    ensures r.Success? <==> fetch(cfg.ltsEdgeReleaseCadence).Success? && fetch(cfg.javaSupport).Success?
    ensures r.Success? ==>
      r.value == RuntimeInfoOf(cfg, fetch(cfg.ltsEdgeReleaseCadence).value.tables, fetch(cfg.javaSupport).value.tables)
    ensures r.Failure? && fetch(cfg.ltsEdgeReleaseCadence).Failure? ==>
      r.error == ErrorOf(fetch(cfg.ltsEdgeReleaseCadence).error)
  {
    match FetchTwo(fetch, cfg.ltsEdgeReleaseCadence, cfg.javaSupport)
    case Failure(e) => Failure(e)
    case Success(pages) => Success(RuntimeInfoOf(cfg, pages.0.tables, pages.1.tables))
  }

  /** The dictionary `get_latest_mulesoft_versions` returns. */
  datatype LatestVersions = LatestVersions(
    latestEdge: Option<VersionEntry>,
    latestLts: Option<VersionEntry>,
    javaCompatibility: Dict<seq<int>>)

  function First(es: seq<VersionEntry>): (r: Option<VersionEntry>)
    ensures r.Some? <==> es != []
    ensures r.Some? ==> r.value == es[0]
  {
    if es == [] then None else Some(es[0])
  }

  /** Copy the Java entry of a latest version, when the full map has one. */
  function CopyJava(full: Dict<seq<int>>, latest: Option<VersionEntry>, acc: Dict<seq<int>>): Dict<seq<int>> {
    match latest
    case None => acc
    case Some(e) =>
      match Get(full, e.Version())
      case None => acc
      case Some(jdks) => Put(acc, e.Version(), jdks)
  }

  /** The first Edge and first LTS entries, with the Java map narrowed to
      their versions. */
  function LatestOf(info: RuntimeInfo): LatestVersions {
    var edge := First(info.edgeVersions);
    var lts := First(info.ltsVersions);
    LatestVersions(edge, lts, CopyJava(info.javaCompatibility, lts, CopyJava(info.javaCompatibility, edge, [])))
  }

  /** `get_latest_mulesoft_versions`: an error of the full scrape is returned
      as it is. */
  function GetLatestMulesoftVersions(cfg: Config, fetch: Fetch): (r: Result<LatestVersions, ScrapeError>)
    ensures r.Failure? <==> ScrapeMulesoftVersions(cfg, fetch).Failure?
    ensures r.Failure? ==> r.error == ScrapeMulesoftVersions(cfg, fetch).error
    ensures ScrapeMulesoftVersions(cfg, fetch).Success? ==>
      r == Success(LatestOf(ScrapeMulesoftVersions(cfg, fetch).value))
  {
    match ScrapeMulesoftVersions(cfg, fetch)
    case Failure(e) => Failure(e)
    case Success(info) => Success(LatestOf(info))
  }

  /** The narrowed Java map holds, for exactly the latest Edge and LTS
      versions that the full map knows, the full map's JDK lists. */
  lemma LatestJavaIff(info: RuntimeInfo, k: string)
    ensures var latest := LatestOf(info);
      Get(latest.javaCompatibility, k) ==
        if (info.edgeVersions != [] && info.edgeVersions[0].Version() == k) ||
           (info.ltsVersions != [] && info.ltsVersions[0].Version() == k)
        then Get(info.javaCompatibility, k)
        else None
  {
    var edge := First(info.edgeVersions);
    var lts := First(info.ltsVersions);
    var acc := CopyJava(info.javaCompatibility, edge, []);
    CopyJavaGet(info.javaCompatibility, edge, [], k);
    CopyJavaGet(info.javaCompatibility, lts, acc, k);
  }

  lemma CopyJavaGet(full: Dict<seq<int>>, latest: Option<VersionEntry>, acc: Dict<seq<int>>, k: string)
    ensures Get(CopyJava(full, latest, acc), k) ==
      if latest.Some? && latest.value.Version() == k && Get(full, k).Some? then Get(full, k) else Get(acc, k)
  {
    if latest.Some? && Get(full, latest.value.Version()).Some? {
      PutSpec(acc, latest.value.Version(), Get(full, latest.value.Version()).value);
    }
  }

  /** The narrowed map has at most the two latest versions as keys. */
  lemma LatestJavaSize(info: RuntimeInfo)
    ensures |LatestOf(info).javaCompatibility| <= 2
  {
    var edge := First(info.edgeVersions);
    var acc := CopyJava(info.javaCompatibility, edge, []);
    CopyJavaSize(info.javaCompatibility, edge, []);
    CopyJavaSize(info.javaCompatibility, First(info.ltsVersions), acc);
  }

  lemma CopyJavaSize(full: Dict<seq<int>>, latest: Option<VersionEntry>, acc: Dict<seq<int>>)
    ensures |CopyJava(full, latest, acc)| <= |acc| + 1
  {
    if latest.Some? && Get(full, latest.value.Version()).Some? {
      PutSpec(acc, latest.value.Version(), Get(full, latest.value.Version()).value);
      assert |Keys(CopyJava(full, latest, acc))| <= |Keys(acc)| + 1;
    }
  }
}
