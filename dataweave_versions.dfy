/** The DataWeave compatibility scrape: (Mule, DataWeave) version pairs from
    the compatibility tables of the DataWeave page, sorted newest Mule version
    first, each with the JDK versions the Java support page gives its Mule
    version. */
module DataWeaveVersions {
  import opened Wrappers
  import opened PyStrings
  import opened OrderedMaps
  import opened MulesoftUtils
  import opened DocPages
  import opened PySorted
  import opened JavaSupport
  import opened ReleaseNotes

  /** An entry of `compatibility_data`. */
  datatype Compat = Compat(muleVersion: string, dataweaveVersion: string)

  /** An entry of `combined_data` and `recent_versions`. */
  datatype DwEntry = DwEntry(muleVersion: string, dataweaveVersion: string, jdkVersions: seq<int>)

  /** `any('mule' in text or 'runtime' in text for text in header_texts)` */
  predicate MentionsMule(headerTexts: seq<string>) {
    exists i | 0 <= i < |headerTexts| :: Contains(headerTexts[i], "mule") || Contains(headerTexts[i], "runtime")
  }

  /** A table with more than one row whose first row names Mule or the runtime. */
  predicate IsCompatTable(t: Table) {
    |t| > 1 && MentionsMule(HeaderTexts(t[0]))
  }

  /** At least two `td` cells, both version-like. */
  predicate IsCompatRow(cells: seq<string>) {
    |cells| >= 2 && IsVersionString(cells[0]) && IsVersionString(cells[1])
  }

  /** The pairs of the given rows, in order. */
  function CompatItems(rows: seq<seq<string>>): (items: seq<Compat>)
    ensures |items| <= |rows|
    ensures forall c | c in items :: IsVersionString(c.muleVersion) && IsVersionString(c.dataweaveVersion)
  {
    if rows == [] then []
    else
      var cells := rows[|rows| - 1];
      CompatItems(rows[..|rows| - 1]) + (if IsCompatRow(cells) then [Compat(cells[0], cells[1])] else [])
  }

  /** `compatibility_data` after scanning `tables` in order. */
  function CompatibilityData(tables: seq<Table>): (items: seq<Compat>)
    ensures forall c | c in items :: IsVersionString(c.muleVersion) && IsVersionString(c.dataweaveVersion)
  {
    if tables == [] then []
    else
      var t := tables[|tables| - 1];
      CompatibilityData(tables[..|tables| - 1]) + (if IsCompatTable(t) then CompatItems(RowCells(t[1..])) else [])
  }

  /** The table loop of `_extract_dataweave_versions`. */
  method ExtractCompatibility(tables: seq<Table>) returns (data: seq<Compat>)
    ensures data == CompatibilityData(tables)
  {
    data := [];
    var ti := 0;
    while ti < |tables|
      invariant 0 <= ti <= |tables|
      invariant data == CompatibilityData(tables[..ti])
    {
      var rows := tables[ti];
      assert tables[..ti + 1][..ti] == tables[..ti];
      if |rows| > 1 {
        var headerTexts := HeaderTexts(rows[0]);
        if MentionsMule(headerTexts) {
          var items := ScanCompatRows(rows);
          data := data + items;
        }
      }
      ti := ti + 1;
    }
    assert tables[..ti] == tables;
  }

  /** The row loop over `rows[1:]` of a compatibility table. */
  method ScanCompatRows(rows: Table) returns (items: seq<Compat>)
    requires |rows| > 1
    ensures items == CompatItems(RowCells(rows[1..]))
  {
    items := [];
    var ri := 1;
    while ri < |rows|
      invariant 1 <= ri <= |rows|
      invariant items == CompatItems(RowCells(rows[1..ri]))
    {
      var cells := TdTexts(rows[ri]);
      CompatRowStep(rows, ri);
      if |cells| >= 2 {
        var muleVersion := cells[0];
        var dataweaveVersion := cells[1];
        if IsVersionString(muleVersion) && IsVersionString(dataweaveVersion) {
          items := items + [Compat(muleVersion, dataweaveVersion)];
        }
      }
      ri := ri + 1;
    }
    assert rows[1..ri] == rows[1..];
  }

  lemma CompatRowStep(rows: Table, ri: nat)
    requires 1 <= ri < |rows|
    ensures CompatItems(RowCells(rows[1..ri + 1])) ==
      var cells := TdTexts(rows[ri]);
      CompatItems(RowCells(rows[1..ri])) + (if IsCompatRow(cells) then [Compat(cells[0], cells[1])] else [])
  {
    var cs := RowCells(rows[1..ri + 1]);
    assert cs[..|cs| - 1] == RowCells(rows[1..ri]);
  }

  /** Each pair is the first two cells of a version row, other than the
      first, of a table whose header names Mule or the runtime. */
  lemma {:induction false} CompatibilityDataFrom(tables: seq<Table>, c: Compat)
    requires c in CompatibilityData(tables)
    ensures exists ti, ri | 0 <= ti < |tables| && 1 <= ri < |tables[ti]| ::
      IsCompatTable(tables[ti]) && IsCompatRow(TdTexts(tables[ti][ri])) &&
      c == Compat(TdTexts(tables[ti][ri])[0], TdTexts(tables[ti][ri])[1])
  {
    var n := |tables| - 1;
    var t := tables[n];
    if c in CompatibilityData(tables[..n]) {
      CompatibilityDataFrom(tables[..n], c);
      var ti, ri :| 0 <= ti < n && 1 <= ri < |tables[..n][ti]| &&
        IsCompatTable(tables[..n][ti]) && IsCompatRow(TdTexts(tables[..n][ti][ri])) &&
        c == Compat(TdTexts(tables[..n][ti][ri])[0], TdTexts(tables[..n][ti][ri])[1]);
      assert tables[..n][ti] == tables[ti];
    } else {
      assert IsCompatTable(t) && c in CompatItems(RowCells(t[1..]));
      var k := CompatItemFrom(RowCells(t[1..]), c);
      assert RowCells(t[1..])[k] == TdTexts(t[k + 1]);
    }
  }

  lemma {:induction false} CompatItemFrom(rows: seq<seq<string>>, c: Compat) returns (k: nat)
    requires c in CompatItems(rows)
    ensures k < |rows| && IsCompatRow(rows[k]) && c == Compat(rows[k][0], rows[k][1])
  {
    var n := |rows| - 1;
    if c in CompatItems(rows[..n]) {
      k := CompatItemFrom(rows[..n], c);
      assert rows[..n][k] == rows[k];
    } else {
      k := n;
    }
  }

  // ---------------------------------------------------------------------------
  // The sort
  // ---------------------------------------------------------------------------

  /** `int(v)` of every piece, or `None` when one raises `ValueError`. */
  function PyInts(pieces: seq<string>): (r: Option<seq<int>>)
    ensures r.Some? ==> |r.value| == |pieces|
  {
    if forall i | 0 <= i < |pieces| :: PyInt(pieces[i]).Some? then
      Some(seq(|pieces|, i requires 0 <= i < |pieces| => PyInt(pieces[i]).value))
    else None
  }

  /** The sort key: `[int(v) for v in mule_version.split('.')] if '.' in
      mule_version else [0]`. */
  function SortKey(muleVersion: string): Option<seq<int>> {
    if Contains(muleVersion, ".") then PyInts(SplitOn(muleVersion, '.')) else Some([0])
  }

  /** `sorted` computes every key before comparing, so one bad key fails the
      whole call. */
  function SortKeys(items: seq<Compat>): (r: Option<seq<seq<int>>>)
    ensures r.Some? ==> |r.value| == |items|
  {
    if forall i | 0 <= i < |items| :: SortKey(items[i].muleVersion).Some? then
      Some(seq(|items|, i requires 0 <= i < |items| => SortKey(items[i].muleVersion).value))
    else None
  }

  /** `sorted(compatibility_data, key=..., reverse=True)`, or `None` for the
      `ValueError` of a key. */
  function SortedData(items: seq<Compat>): Option<seq<Compat>> {
    match SortKeys(items)
    case None => None
    case Some(keys) => Some(SortedReverse(items, keys))
  }

  /** A Mule version made of digit runs separated by single dots, such as
      "4.4.0", has the list of its runs' values as its key. */
  lemma SortKeyOfDigits(muleVersion: string)
    requires Contains(muleVersion, ".")
    requires forall i | 0 <= i < |SplitOn(muleVersion, '.')| ::
      var piece := SplitOn(muleVersion, '.')[i]; piece != [] && AllDigits(piece)
    ensures SortKey(muleVersion).Some?
    ensures |SortKey(muleVersion).value| == |SplitOn(muleVersion, '.')|
    ensures forall i | 0 <= i < |SplitOn(muleVersion, '.')| ::
      SortKey(muleVersion).value[i] == DigitsValue(SplitOn(muleVersion, '.')[i])
  {
    var pieces := SplitOn(muleVersion, '.');
    forall i | 0 <= i < |pieces| ensures PyInt(pieces[i]) == Some(DigitsValue(pieces[i]) as int) {
      PyIntOfDigits(pieces[i]);
    }
  }

  /** A piece that `int` rejects, such as the "6 Edge" of "4.6 Edge", fails
      the sort and with it the whole scrape. */
  lemma SortFailsOnBadPiece(items: seq<Compat>, i: nat)
    requires i < |items| && Contains(items[i].muleVersion, ".")
    requires exists j | 0 <= j < |SplitOn(items[i].muleVersion, '.')| :: PyInt(SplitOn(items[i].muleVersion, '.')[j]).None?
    ensures SortedData(items).None?
  {
  }

  /** The sorted data is a rearrangement of the input with non-increasing keys
      in which items with equal keys keep their order. */
  lemma SortedDataSpec(items: seq<Compat>)
    requires SortedData(items).Some?
    ensures var keys := SortKeys(items).value;
      var s := SortDesc(Tag(items, keys));
      && SortedData(items).value == Items(s)
      && multiset(s) == multiset(Tag(items, keys))
      && (forall i, j | 0 <= i < j < |s| :: !LexLess(s[i].key, s[j].key))
      && (forall i, j | 0 <= i < j < |s| && s[i].key == s[j].key :: s[i].index < s[j].index)
  {
    SortedReverseSpec(items, SortKeys(items).value);
  }

  // ---------------------------------------------------------------------------
  // The JDK lookup
  // ---------------------------------------------------------------------------

  /** The value of the first key, in insertion order, that starts with `mule`. */
  function FirstPrefixed(java: Dict<seq<int>>, mule: string): (r: Option<seq<int>>)
    ensures r.None? <==> forall i | 0 <= i < |java| :: !(mule <= java[i].key)
  {
    if java == [] then None
    else if mule <= java[0].key then Some(java[0].value)
    else
      var r := FirstPrefixed(java[1..], mule);
      assert forall i | 1 <= i < |java| :: java[i] == java[1..][i - 1];
      r
  }

  /** `jdk_versions`: the exact key's value, else the first key that starts
      with the Mule version, else []. */
  function JdkFor(java: Dict<seq<int>>, mule: string): seq<int> {
    match Get(java, mule)
    case Some(v) => v
    case None =>
      match FirstPrefixed(java, mule)
      case Some(v) => v
      case None => []
  }

  /** A prefixed key that no earlier key shares gives its value. */
  lemma {:induction false} FirstPrefixedAt(java: Dict<seq<int>>, mule: string, i: nat)
    requires i < |java| && mule <= java[i].key
    requires forall j | 0 <= j < i :: !(mule <= java[j].key)
    ensures FirstPrefixed(java, mule) == Some(java[i].value)
  {
    if i > 0 {
      assert java[1..][i - 1] == java[i];
      forall j | 0 <= j < i - 1 ensures !(mule <= java[1..][j].key) {
        assert java[1..][j] == java[j + 1];
      }
      FirstPrefixedAt(java[1..], mule, i - 1);
    }
  }

  /** The exact key wins; without it, the first key that starts with the Mule
      version; without either, no JDK versions. */
  lemma JdkForSpec(java: Dict<seq<int>>, mule: string)
    ensures mule in Keys(java) ==> JdkFor(java, mule) == Get(java, mule).value
    ensures mule !in Keys(java) && (forall i | 0 <= i < |java| :: !(mule <= java[i].key)) ==> JdkFor(java, mule) == []
    ensures forall i | 0 <= i < |java| && mule !in Keys(java) && mule <= java[i].key &&
      (forall j | 0 <= j < i :: !(mule <= java[j].key)) :: JdkFor(java, mule) == java[i].value
  {
    forall i | 0 <= i < |java| && mule !in Keys(java) && mule <= java[i].key &&
      (forall j | 0 <= j < i :: !(mule <= java[j].key))
      ensures JdkFor(java, mule) == java[i].value
    {
      FirstPrefixedAt(java, mule, i);
    }
  }

  /** The lookup of one Mule version: the `in` test, then the `for ... break`
      loop over the map's items. */
  method LookupJdkVersions(java: Dict<seq<int>>, mule: string) returns (jdkVersions: seq<int>)
    ensures jdkVersions == JdkFor(java, mule)
  {
    jdkVersions := [];
    if mule in Keys(java) {
      jdkVersions := Get(java, mule).value;
    } else {
      var i := 0;
      while i < |java|
        invariant 0 <= i <= |java|
        invariant forall j | 0 <= j < i :: !(mule <= java[j].key)
        invariant jdkVersions == []
      {
        if mule <= java[i].key {
          FirstPrefixedAt(java, mule, i);
          jdkVersions := java[i].value;
          break;
        }
        i := i + 1;
      }
    }
  }

  /** `combined_data`: every sorted pair with its JDK versions. */
  function Combined(sorted: seq<Compat>, java: Dict<seq<int>>): (es: seq<DwEntry>)
    ensures |es| == |sorted|
    ensures forall i | 0 <= i < |sorted| ::
      es[i] == DwEntry(sorted[i].muleVersion, sorted[i].dataweaveVersion, JdkFor(java, sorted[i].muleVersion))
  {
    seq(|sorted|, i requires 0 <= i < |sorted| =>
      DwEntry(sorted[i].muleVersion, sorted[i].dataweaveVersion, JdkFor(java, sorted[i].muleVersion)))
  }

  /** The loop over `sorted_data` filling `combined_data` and, up to five
      entries, `recent_versions`. */
  method CombineWithJava(sorted: seq<Compat>, java: Dict<seq<int>>)
    returns (combined: seq<DwEntry>, recent: seq<DwEntry>)
    ensures combined == Combined(sorted, java)
    ensures recent == Take(combined, 5)
  {
    combined := [];
    recent := [];
    var i := 0;
    while i < |sorted|
      invariant 0 <= i <= |sorted|
      invariant combined == Combined(sorted[..i], java)
      invariant recent == Take(combined, 5)
    {
      var muleVer := sorted[i].muleVersion;
      var dwVer := sorted[i].dataweaveVersion;
      var jdkVersions := LookupJdkVersions(java, muleVer);
      assert sorted[..i + 1][..i] == sorted[..i];
      combined := combined + [DwEntry(muleVer, dwVer, jdkVersions)];
      if |recent| < 5 {
        recent := recent + [DwEntry(muleVer, dwVer, jdkVersions)];
      }
      i := i + 1;
    }
    assert sorted[..i] == sorted;
  }

  // ---------------------------------------------------------------------------
  // The whole scrape
  // ---------------------------------------------------------------------------

  /** The dictionary `_extract_dataweave_versions` returns. */
  datatype DataWeaveInfo = DataWeaveInfo(
    recentDataweaveVersions: seq<DwEntry>,
    allCompatibilityData: seq<DwEntry>,
    releaseNotes: Dict<ReleaseNote>,
    javaCompatibility: Dict<seq<int>>,
    sourceUrls: seq<string>)

  function DwVersions(es: seq<DwEntry>): (vs: seq<string>)
    ensures |vs| == |es|
    ensures forall i | 0 <= i < |es| :: vs[i] == es[i].dataweaveVersion
  {
    seq(|es|, i requires 0 <= i < |es| => es[i].dataweaveVersion)
  }

  /** `_extract_dataweave_versions` on the two pages' tables; the `ValueError`
      of a sort key escapes it. */
  function DataWeaveInfoOf(cfg: Config, fetch: Fetch, dwTables: seq<Table>, javaTables: seq<Table>)
    : Result<DataWeaveInfo, ScrapeError>
  {
    var java := JavaCompatibility(javaTables);
    match SortedData(CompatibilityData(dwTables))
    case None => Failure(ParseFailed)
    case Some(sorted) =>
      var combined := Combined(sorted, java);
      var recent := Take(combined, 5);
      Success(DataWeaveInfo(recent, combined, ReleaseNotesInfo(cfg, fetch, DwVersions(Take(recent, 3))),
        java, [cfg.dataweave, cfg.javaSupport]))
  }

  /** `_extract_dataweave_versions` */
  method ExtractDataweaveVersions(cfg: Config, fetch: Fetch, dwTables: seq<Table>, javaTables: seq<Table>)
    returns (r: Result<DataWeaveInfo, ScrapeError>)
    ensures r == DataWeaveInfoOf(cfg, fetch, dwTables, javaTables)
  {
    var compatibilityData := ExtractCompatibility(dwTables);
    var javaData, _ := BuildJavaMap(javaTables);
    match SortedData(compatibilityData) {
      case None =>
        r := Failure(ParseFailed);
      case Some(sortedData) =>
        var combinedData, recentVersions := CombineWithJava(sortedData, javaData);
        var releaseNotesInfo := CollectReleaseNotes(cfg, fetch, DwVersions(Take(recentVersions, 3)));
        r := Success(DataWeaveInfo(recentVersions, combinedData, releaseNotesInfo, javaData,
          [cfg.dataweave, cfg.javaSupport]));
    }
  }

  /** `get_dataweave_versions`: fetch the DataWeave page, then the Java support
      page, then extract. */
  function GetDataWeaveVersions(cfg: Config, fetch: Fetch): (r: Result<DataWeaveInfo, ScrapeError>)
    ensures fetch(cfg.dataweave).Failure? ==> r == Failure(ErrorOf(fetch(cfg.dataweave).error))
    ensures fetch(cfg.dataweave).Success? && fetch(cfg.javaSupport).Failure? ==>
      r == Failure(ErrorOf(fetch(cfg.javaSupport).error))
    ensures fetch(cfg.dataweave).Success? && fetch(cfg.javaSupport).Success? ==>
      r == DataWeaveInfoOf(cfg, fetch, fetch(cfg.dataweave).value.tables, fetch(cfg.javaSupport).value.tables)
  {
    match FetchTwo(fetch, cfg.dataweave, cfg.javaSupport)
    case Failure(e) => Failure(e)
    case Success(pages) => DataWeaveInfoOf(cfg, fetch, pages.0.tables, pages.1.tables)
  }

  /** Once both pages are fetched, the scrape fails exactly when some pair's
      Mule version has a piece `int` rejects. */
  lemma DataWeaveFailsIff(cfg: Config, fetch: Fetch, dwTables: seq<Table>, javaTables: seq<Table>)
    ensures DataWeaveInfoOf(cfg, fetch, dwTables, javaTables).Failure? <==>
      exists c | c in CompatibilityData(dwTables) :: SortKey(c.muleVersion).None?
    ensures DataWeaveInfoOf(cfg, fetch, dwTables, javaTables).Failure? ==>
      DataWeaveInfoOf(cfg, fetch, dwTables, javaTables).error == ParseFailed
  {
    SortedDataNoneIff(CompatibilityData(dwTables));
  }

  lemma SortedDataNoneIff(items: seq<Compat>)
    ensures SortedData(items).None? <==> exists c | c in items :: SortKey(c.muleVersion).None?
  {
    if exists c | c in items :: SortKey(c.muleVersion).None? {
      var c :| c in items && SortKey(c.muleVersion).None?;
      var i :| 0 <= i < |items| && items[i] == c;
    }
  }

  /** A successful scrape lists every pair once, sorted, each with its JDK
      lookup; the recent list is its first five entries, and at most three
      versions have release notes. */
  lemma DataWeaveInfoSpec(cfg: Config, fetch: Fetch, dwTables: seq<Table>, javaTables: seq<Table>)
    requires DataWeaveInfoOf(cfg, fetch, dwTables, javaTables).Success?
    ensures var info := DataWeaveInfoOf(cfg, fetch, dwTables, javaTables).value;
      var sorted := SortedData(CompatibilityData(dwTables)).value;
      && |info.allCompatibilityData| == |CompatibilityData(dwTables)|
      && (forall i | 0 <= i < |sorted| ::
            info.allCompatibilityData[i].muleVersion == sorted[i].muleVersion &&
            info.allCompatibilityData[i].dataweaveVersion == sorted[i].dataweaveVersion &&
            info.allCompatibilityData[i].jdkVersions == JdkFor(JavaCompatibility(javaTables), sorted[i].muleVersion))
      && |info.recentDataweaveVersions| == Min(5, |info.allCompatibilityData|)
      && info.recentDataweaveVersions == info.allCompatibilityData[..|info.recentDataweaveVersions|]
      && |info.releaseNotes| <= 3
  {
    var items := CompatibilityData(dwTables);
    var keys := SortKeys(items).value;
    SortedReverseSpec(items, keys);
    var s := SortDesc(Tag(items, keys));
    assert |multiset(s)| == |multiset(Tag(items, keys))|;
    var info := DataWeaveInfoOf(cfg, fetch, dwTables, javaTables).value;
    var recent := info.recentDataweaveVersions;
    ReleaseNotesInfoSize(cfg, fetch, DwVersions(Take(recent, 3)));
  }
}
