/** What the connector tool reads off a connector's release-notes page: the
    compatibility tables, the version headings, and, when there are none,
    the first version numbers anywhere in the page's text. */
module ConnectorPages {
  import opened Wrappers
  import opened PyStrings
  import opened VersionRegex
  import opened MulesoftUtils
  import opened DocPages
  import opened JavaSupport

  // ---------------------------------------------------------------------------
  // Compatibility tables
  // ---------------------------------------------------------------------------

  /** A table with at least two rows whose first row has a "Software" and a
      "Version" cell (compared lower-cased). */
  predicate IsCompatTable(t: Table) {
    |t| >= 2 && "software" in HeaderTexts(t[0]) && "version" in HeaderTexts(t[0])
  }

  /** A data row whose first cell is exactly "Mule". */
  predicate IsMuleRow(cells: seq<string>) {
    |cells| >= 2 && cells[0] == "Mule"
  }

  /** A data row, not a Mule row, whose first cell mentions "OpenJDK" or "JDK". */
  predicate IsJdkRow(cells: seq<string>) {
    |cells| >= 2 && cells[0] != "Mule" && (Contains(cells[0], "OpenJDK") || Contains(cells[0], "JDK"))
  }

  /** The Mule version and JDK versions a compatibility table states. */
  datatype Compat = Compat(muleVersion: string, jdkVersions: seq<int>)

  /** `mule_version = "Unknown"` and `jdk_versions = []` */
  const NoCompat: Compat := Compat("Unknown", [])

  /** The values after reading the `td` texts of data rows in order. */
  function CompatValues(rows: seq<seq<string>>): Compat {
    if rows == [] then NoCompat
    else
      var c := CompatValues(rows[..|rows| - 1]);
      var cells := rows[|rows| - 1];
      if IsMuleRow(cells) then c.(muleVersion := cells[1])
      else if IsJdkRow(cells) then c.(jdkVersions := ParseJdkVersions(cells[1]))
      else c
  }

  /** The Mule version is the second cell of the last Mule row, and the JDK
      versions are parsed from the last JDK row. */
  lemma {:induction false} CompatLastRowWins(rows: seq<seq<string>>, i: nat)
    requires i < |rows|
    ensures IsMuleRow(rows[i]) && (forall k | i < k < |rows| :: !IsMuleRow(rows[k])) ==>
      CompatValues(rows).muleVersion == rows[i][1]
    ensures IsJdkRow(rows[i]) && (forall k | i < k < |rows| :: !IsJdkRow(rows[k])) ==>
      CompatValues(rows).jdkVersions == ParseJdkVersions(rows[i][1])
  {
    var n := |rows| - 1;
    if i < n {
      CompatLastRowWins(rows[..n], i);
      assert rows[..n][i] == rows[i];
      assert forall k | i < k < n :: rows[..n][k] == rows[k];
    }
  }

  /** Without a Mule row the Mule version stays "Unknown", and without a
      JDK row the JDK versions stay empty. */
  lemma {:induction false} CompatDefaults(rows: seq<seq<string>>)
    ensures (forall k | 0 <= k < |rows| :: !IsMuleRow(rows[k])) ==> CompatValues(rows).muleVersion == "Unknown"
    ensures (forall k | 0 <= k < |rows| :: !IsJdkRow(rows[k])) ==> CompatValues(rows).jdkVersions == []
  {
    if rows != [] {
      var n := |rows| - 1;
      CompatDefaults(rows[..n]);
      assert forall k | 0 <= k < n :: rows[..n][k] == rows[k];
    }
  }

  /** `'OpenJDK' in software or 'JDK' in software` is just `'JDK' in software`. */
  lemma JdkTest(s: string)
    ensures (Contains(s, "OpenJDK") || Contains(s, "JDK")) <==> Contains(s, "JDK")
  {
    if Contains(s, "OpenJDK") {
      var i :| 0 <= i <= |s| && "OpenJDK" <= s[i..];
      assert "JDK" <= s[i + 4..];
    }
  }

  /** A table's values, read from its rows after the first. */
  function CompatOf(t: Table): Compat
    requires |t| >= 1
  {
    CompatValues(RowCells(t[1..]))
  }

  /** An entry of `compatibility_tables`: the table's position among the
      page's tables and its values. */
  datatype CompatTable = CompatTable(tableIndex: nat, compat: Compat)

  /** `compatibility_tables` after the first `n` tables: one entry per
      compatibility table among them, in order. */
  function CompatTablesUpTo(tables: seq<Table>, n: nat): (ct: seq<CompatTable>)
    requires n <= |tables|
    ensures forall k | 0 <= k < |ct| ::
      && ct[k].tableIndex < n
      && IsCompatTable(tables[ct[k].tableIndex])
      && ct[k].compat == CompatOf(tables[ct[k].tableIndex])
    ensures forall k | 0 < k < |ct| :: ct[k - 1].tableIndex < ct[k].tableIndex
  {
    if n == 0 then []
    else
      CompatTablesUpTo(tables, n - 1)
        + (if IsCompatTable(tables[n - 1]) then [CompatTable(n - 1, CompatOf(tables[n - 1]))] else [])
  }

  /** `compatibility_tables` of a page with these tables. */
  function CompatTables(tables: seq<Table>): seq<CompatTable> {
    CompatTablesUpTo(tables, |tables|)
  }

  /** The table indices increase along the entries. */
  lemma {:induction false} CompatTablesOrdered(tables: seq<Table>, n: nat, k: nat, m: nat)
    requires n <= |tables| && k < m < |CompatTablesUpTo(tables, n)|
    ensures CompatTablesUpTo(tables, n)[k].tableIndex < CompatTablesUpTo(tables, n)[m].tableIndex
    decreases m - k
  {
    if k + 1 < m {
      CompatTablesOrdered(tables, n, k + 1, m);
    }
  }

  /** Every compatibility table among the first `n` has an entry: the one
      returned. */
  lemma {:induction false} CompatTableEntry(tables: seq<Table>, n: nat, i: nat) returns (k: nat)
    requires i < n <= |tables| && IsCompatTable(tables[i])
    ensures k < |CompatTablesUpTo(tables, n)| && CompatTablesUpTo(tables, n)[k].tableIndex == i
  {
    var front := CompatTablesUpTo(tables, n - 1);
    var ct := CompatTablesUpTo(tables, n);
    assert ct == front + (if IsCompatTable(tables[n - 1]) then [CompatTable(n - 1, CompatOf(tables[n - 1]))] else []);
    if i < n - 1 {
      k := CompatTableEntry(tables, n - 1, i);
      assert ct[k] == front[k];
    } else {
      k := |front|;
    }
  }

  /** Every compatibility table of the page has an entry. */
  lemma CompatTablesIff(tables: seq<Table>, i: nat)
    requires i < |tables|
    ensures IsCompatTable(tables[i]) <==>
      exists k | 0 <= k < |CompatTables(tables)| :: CompatTables(tables)[k].tableIndex == i
  {
    if IsCompatTable(tables[i]) {
      var k := CompatTableEntry(tables, |tables|, i);
      assert CompatTables(tables)[k].tableIndex == i;
    }
  }

  /** The compatibility every version heading is given: the first
      compatibility table's, or "Unknown" and no JDK versions. */
  function DefaultCompat(ct: seq<CompatTable>): Compat {
    if ct == [] then NoCompat else ct[0].compat
  }

  /** The default is the first compatibility table of the page. */
  lemma DefaultCompatFirst(tables: seq<Table>, i: nat)
    requires i < |tables| && IsCompatTable(tables[i])
    requires forall j | 0 <= j < i :: !IsCompatTable(tables[j])
    ensures DefaultCompat(CompatTables(tables)) == CompatOf(tables[i])
  {
    var ct := CompatTables(tables);
    CompatTablesIff(tables, i);
    var k :| 0 <= k < |ct| && ct[k].tableIndex == i;
    if k > 0 {
      CompatTablesOrdered(tables, |tables|, 0, k);
    }
  }

  /** There is no entry exactly when the page has no compatibility table,
      and then the default is "Unknown" with no JDK versions. */
  lemma CompatTablesEmptyIff(tables: seq<Table>)
    ensures CompatTables(tables) == [] <==> forall j | 0 <= j < |tables| :: !IsCompatTable(tables[j])
    ensures CompatTables(tables) == [] ==> DefaultCompat(CompatTables(tables)) == NoCompat
  {
    var ct := CompatTables(tables);
    if ct == [] {
      forall j | 0 <= j < |tables| ensures !IsCompatTable(tables[j]) {
        CompatTablesIff(tables, j);
      }
    } else {
      assert IsCompatTable(tables[ct[0].tableIndex]);
    }
  }

  /** The loop `for i, table in enumerate(tables)`. */
  method FindCompatibilityTables(tables: seq<Table>) returns (ct: seq<CompatTable>)
    ensures ct == CompatTables(tables)
  {
    ct := [];
    var i := 0;
    while i < |tables|
      invariant 0 <= i <= |tables|
      invariant ct == CompatTablesUpTo(tables, i)
    {
      var rows := tables[i];
      if |rows| >= 2 {
        var header := HeaderTexts(rows[0]);
        if "software" in header && "version" in header {
          var c := ReadCompatTable(rows);
          ct := ct + [CompatTable(i, c)];
        }
      }
      i := i + 1;
    }
  }

  /** The loop over one compatibility table's data rows. */
  method ReadCompatTable(rows: Table) returns (c: Compat)
    requires |rows| >= 1
    ensures c == CompatOf(rows)
  {
    c := NoCompat;
    var ri := 1;
    while ri < |rows|
      invariant 1 <= ri <= |rows|
      invariant c == CompatValues(RowCells(rows[1..ri]))
    {
      var cells := TdTexts(rows[ri]);
      CompatRowStep(rows, ri);
      if |cells| >= 2 {
        var software := cells[0];
        if software == "Mule" {
          c := c.(muleVersion := cells[1]);
        } else if Contains(software, "OpenJDK") || Contains(software, "JDK") {
          c := c.(jdkVersions := ParseJdkVersions(cells[1]));
        }
      }
      ri := ri + 1;
    }
    assert rows[1..ri] == rows[1..];
  }

  lemma CompatRowStep(rows: Table, ri: nat)
    requires 1 <= ri < |rows|
    ensures CompatValues(RowCells(rows[1..ri + 1])) ==
      var c := CompatValues(RowCells(rows[1..ri]));
      var cells := TdTexts(rows[ri]);
      if IsMuleRow(cells) then c.(muleVersion := cells[1])
      else if IsJdkRow(cells) then c.(jdkVersions := ParseJdkVersions(cells[1]))
      else c
  {
    RowCellsSnoc(rows, ri);
    CompatValuesSnoc(RowCells(rows[1..ri]), TdTexts(rows[ri]));
  }

  lemma CompatValuesSnoc(rows: seq<seq<string>>, cells: seq<string>)
    ensures CompatValues(rows + [cells]) ==
      var c := CompatValues(rows);
      if IsMuleRow(cells) then c.(muleVersion := cells[1])
      else if IsJdkRow(cells) then c.(jdkVersions := ParseJdkVersions(cells[1]))
      else c
  {
    assert (rows + [cells])[..|rows|] == rows;
  }

  // ---------------------------------------------------------------------------
  // Version records
  // ---------------------------------------------------------------------------

  /** The Maven artifact id: three connectors are named explicitly, all
      others by the `mule-{artifactId}-connector` pattern. */
  function MavenArtifactId(a: string): string {
    if a == "http" then "mule-http-connector"
    else if a == "email" then "mule-email-connector"
    else if a == "sockets" then "mule-sockets-connector"
    else "mule-" + a + "-connector"
  }

  /** The three named connectors follow the pattern too. */
  lemma MavenArtifactIdUniform(a: string)
    ensures MavenArtifactId(a) == "mule-" + a + "-connector"
  {
    NamedArtifacts();
  }

  lemma NamedArtifacts()
    ensures "mule-http-connector" == "mule-" + "http" + "-connector"
    ensures "mule-email-connector" == "mule-" + "email" + "-connector"
    ensures "mule-sockets-connector" == "mule-" + "sockets" + "-connector"
  {
  }

  /** One entry of `connector_specific`. */
  datatype ConnectorVersion = ConnectorVersion(
    connectorVersion: string,
    muleVersion: string,
    jdkVersions: seq<int>,
    artifactId: string,
    mavenArtifactId: string,
    connectorName: string)

  function VersionOf(v: string, c: Compat, a: string, name: string): ConnectorVersion {
    ConnectorVersion(v, c.muleVersion, c.jdkVersions, a, MavenArtifactId(a), name)
  }

  /** An `h2`, `h3` or `h4` whose text the version pattern matches
      (`re.match` of `.*(?:[Vv]ersion\s*)?\d+\.\d+(?:\.\d+)?.*`). */
  predicate IsVersionHeading(b: Block) {
    IsHeading(b) && HeadingPatternFrom(b.text, 0)
  }

  /** `connector_versions`: one record per version heading, in order, each
      with the default compatibility. */
  function HeadingVersions(blocks: seq<Block>, c: Compat, a: string, name: string): seq<ConnectorVersion> {
    if blocks == [] then []
    else
      var n := |blocks| - 1;
      HeadingVersions(blocks[..n], c, a, name)
        + (if IsVersionHeading(blocks[n]) then [VersionOf(ExtractVersionNumber(blocks[n].text), c, a, name)] else [])
  }

  /** The loop `for heading in headings`. */
  method ScanVersionHeadings(blocks: seq<Block>, c: Compat, a: string, name: string) returns (cv: seq<ConnectorVersion>)
    ensures cv == HeadingVersions(blocks, c, a, name)
  {
    cv := [];
    var i := 0;
    while i < |blocks|
      invariant 0 <= i <= |blocks|
      invariant cv == HeadingVersions(blocks[..i], c, a, name)
    {
      assert blocks[..i + 1][..i] == blocks[..i];
      var b := blocks[i];
      if IsHeading(b) && HeadingPatternFrom(b.text, 0) {
        cv := cv + [VersionOf(ExtractVersionNumber(b.text), c, a, name)];
      }
      i := i + 1;
    }
    assert blocks[..i] == blocks;
  }

  /** There are heading records exactly when some heading is a version heading. */
  lemma {:induction false} HeadingVersionsEmptyIff(blocks: seq<Block>, c: Compat, a: string, name: string)
    ensures HeadingVersions(blocks, c, a, name) == [] <==> forall i | 0 <= i < |blocks| :: !IsVersionHeading(blocks[i])
  {
    if blocks != [] {
      var n := |blocks| - 1;
      HeadingVersionsEmptyIff(blocks[..n], c, a, name);
      assert forall i | 0 <= i < n :: blocks[..n][i] == blocks[i];
    }
  }

  /** Each record comes from a version heading: its version is that
      heading's, and its compatibility and names are the given ones. */
  lemma {:induction false} HeadingVersionsFrom(blocks: seq<Block>, c: Compat, a: string, name: string, k: nat)
    requires k < |HeadingVersions(blocks, c, a, name)|
    ensures exists i | 0 <= i < |blocks| ::
      (IsVersionHeading(blocks[i]) &&
       HeadingVersions(blocks, c, a, name)[k] == VersionOf(ExtractVersionNumber(blocks[i].text), c, a, name))
  {
    var n := |blocks| - 1;
    var front := HeadingVersions(blocks[..n], c, a, name);
    if k < |front| {
      HeadingVersionsFrom(blocks[..n], c, a, name, k);
      var i :| 0 <= i < n && IsVersionHeading(blocks[..n][i]) &&
        front[k] == VersionOf(ExtractVersionNumber(blocks[..n][i].text), c, a, name);
      assert blocks[..n][i] == blocks[i];
    } else {
      assert IsVersionHeading(blocks[n]);
    }
  }

  /** A version heading's version number is never empty: the pattern only
      accepts a text with a dotted pair, so the number is a dotted number. */
  lemma VersionHeadingNumber(b: Block)
    requires IsVersionHeading(b)
    ensures ExtractVersionNumber(b.text) != ""
    ensures IsDottedNumber(ExtractVersionNumber(b.text))
  {
    HasVersionNumber(b.text);
    ExtractVersionNumberShape(b.text);
  }

  /** For a heading without a line break, the `.*` pattern accepts it exactly
      when a version number can be extracted from it. */
  lemma VersionHeadingIff(b: Block)
    requires forall k | 0 <= k < |b.text| :: b.text[k] != '\n'
    ensures IsVersionHeading(b) <==> IsHeading(b) && ExtractVersionNumber(b.text) != ""
  {
    HeadingPatternFindsPair(b.text, 0);
    SearchNoneIff(b.text, 0);
    VersionStringAt(b.text);
    ExtractVersionNumberEmptyIff(b.text);
  }

  /** A text the version pattern accepts has a version number. */
  lemma HasVersionNumber(t: string)
    requires HeadingPatternFrom(t, 0)
    ensures ExtractVersionNumber(t) != ""
  {
    HeadingPatternFindsPair(t, 0);
    SearchNoneIff(t, 0);
    var q :| 0 <= q <= |t| && PairAt(t, q);
    VersionStringAt(t);
    ExtractVersionNumberEmptyIff(t);
  }

  // ---------------------------------------------------------------------------
  // Version numbers anywhere in the text
  // ---------------------------------------------------------------------------

  /** One record per version number, in order, each with unknown compatibility. */
  function FallbackList(versions: seq<string>, a: string, name: string): (cv: seq<ConnectorVersion>)
    ensures |cv| == |versions|
  {
    if versions == [] then []
    else
      var n := |versions| - 1;
      FallbackList(versions[..n], a, name) + [VersionOf(versions[n], NoCompat, a, name)]
  }

  /** `extract_version_number` of every match. */
  function Extracted(ms: seq<string>): (vs: seq<string>)
    ensures |vs| == |ms|
    ensures forall k | 0 <= k < |ms| :: vs[k] == ExtractVersionNumber(ms[k])
  {
    seq(|ms|, k requires 0 <= k < |ms| => ExtractVersionNumber(ms[k]))
  }

  /** `simple_versions`: the first five of the page's matches, each with
      unknown compatibility. */
  function FallbackVersions(matches: seq<string>, a: string, name: string): (cv: seq<ConnectorVersion>)
    ensures |cv| == Min(5, |matches|)
  {
    FallbackList(Extracted(Take(matches, 5)), a, name)
  }

  /** The loop over `version_matches[:5]`. */
  method CollectFallbackVersions(matches: seq<string>, a: string, name: string) returns (cv: seq<ConnectorVersion>)
    ensures cv == FallbackVersions(matches, a, name)
  {
    var first := Take(matches, 5);
    ghost var versions := Extracted(first);
    cv := [];
    var i := 0;
    while i < |first|
      invariant 0 <= i <= |first|
      invariant cv == FallbackList(versions[..i], a, name)
    {
      assert versions[..i + 1][..i] == versions[..i];
      var v := ExtractVersionNumber(first[i]);
      assert v == versions[i];
      cv := cv + [VersionOf(v, NoCompat, a, name)];
      i := i + 1;
    }
    assert versions[..i] == versions;
  }

  /** The `k`-th record carries the `k`-th version number. */
  lemma {:induction false} FallbackListAt(versions: seq<string>, a: string, name: string, k: nat)
    requires k < |versions|
    ensures FallbackList(versions, a, name)[k] == VersionOf(versions[k], NoCompat, a, name)
  {
    var n := |versions| - 1;
    if k < n {
      FallbackListAt(versions[..n], a, name, k);
    }
  }

  /** The `k`-th fallback record is built from the `k`-th match. */
  lemma FallbackVersionAt(matches: seq<string>, a: string, name: string, k: nat)
    requires k < Min(5, |matches|)
    ensures FallbackVersions(matches, a, name)[k] == VersionOf(ExtractVersionNumber(matches[k]), NoCompat, a, name)
  {
    FallbackListAt(Extracted(Take(matches, 5)), a, name, k);
  }

  /** Every text `re.findall` returns holds a version number, which is a
      dotted number. */
  lemma {:induction false} FindAllVersionNumbers(t: string, i: nat)
    requires i <= |t|
    ensures forall k | 0 <= k < |FindAll(t, i)| ::
      ExtractVersionNumber(FindAll(t, i)[k]) != "" && IsDottedNumber(ExtractVersionNumber(FindAll(t, i)[k]))
    decreases |t| - i
  {
    match Search(t, i)
    case None =>
    case Some(s) =>
      var e := MatchEnd(t, s);
      var ms := FindAll(t, i);
      FindAllVersionNumbers(t, e);
      MatchHasVersionNumber(t, s);
      assert ms == [t[s..e]] + FindAll(t, e);
      forall k | 0 <= k < |ms|
        ensures ExtractVersionNumber(ms[k]) != "" && IsDottedNumber(ExtractVersionNumber(ms[k]))
      {
        if k > 0 {
          assert ms[k] == FindAll(t, e)[k - 1];
        }
      }
  }

  /** The text matched at `s` has a version number. */
  lemma MatchHasVersionNumber(t: string, s: nat)
    requires s <= |t| && MatchAt(t, s).Some?
    ensures ExtractVersionNumber(t[s..MatchEnd(t, s)]) != ""
    ensures IsDottedNumber(ExtractVersionNumber(t[s..MatchEnd(t, s)]))
  {
    var p := MatchAt(t, s).value;
    var e := MatchEnd(t, s);
    var m := t[s..e];
    MatchedText(t, s);
    assert m[p - s..] == t[p..e];
    PairAtSuffix(m, p - s);
    VersionStringAt(m);
    assert IsVersionString(m[p - s..]);
    ExtractVersionNumberEmptyIff(m);
    ExtractVersionNumberShape(m);
  }
}
