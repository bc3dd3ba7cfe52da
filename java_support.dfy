/** The Java support page: every data row whose first `td` names a Mule
    version maps that version to the JDK versions of its second `td`. The
    runtime, DataWeave and connector scrapers build this map with the same
    loop. */
module JavaSupport {
  import opened Wrappers
  import opened OrderedMaps
  import opened MulesoftUtils
  import opened DocPages

  /** `len(cells) >= 2` and `is_version_string(cells[0])` */
  predicate IsJavaRow(cells: seq<string>) {
    |cells| >= 2 && IsVersionString(cells[0])
  }

  /** `java_data_strings` after scanning `rows` in order: each Java row
      assigns its second cell to its first. */
  function JavaStrings(rows: seq<seq<string>>): (d: Dict<string>)
    ensures UniqueKeys(d)
    ensures forall k | k in Keys(d) :: IsVersionString(k)
  {
    if rows == [] then []
    else
      var front := JavaStrings(rows[..|rows| - 1]);
      var cells := rows[|rows| - 1];
      if IsJavaRow(cells) then
        PutSpec(front, cells[0], cells[1]);
        Put(front, cells[0], cells[1])
      else front
  }

  /** `java_data`: the same keys, each JDK string parsed. */
  function JavaData(rows: seq<seq<string>>): Dict<seq<int>> {
    MapValues(JavaStrings(rows), ParseJdkVersions)
  }

  /** The Java compatibility map of the Java support page's tables. */
  function JavaCompatibility(tables: seq<Table>): Dict<seq<int>> {
    JavaData(DataRowCells(tables))
  }

  /** The loop over the Java support tables. */
  method BuildJavaMap(tables: seq<Table>) returns (data: Dict<seq<int>>, strings: Dict<string>)
    ensures strings == JavaStrings(DataRowCells(tables))
    ensures data == JavaCompatibility(tables)
  {
    data := [];
    strings := [];
    var ti := 0;
    while ti < |tables|
      invariant 0 <= ti <= |tables|
      invariant strings == JavaStrings(DataRowCells(tables[..ti]))
      invariant data == MapValues(strings, ParseJdkVersions)
    {
      DataRowCellsSnoc(tables, ti);
      data, strings := ScanJavaTable(tables[ti], DataRowCells(tables[..ti]), data, strings);
      ti := ti + 1;
    }
    assert tables[..ti] == tables;
  }

  /** The inner loop over `rows[1:]` of one table with more than one row. */
  method ScanJavaTable(rows: Table, ghost before: seq<seq<string>>, data0: Dict<seq<int>>, strings0: Dict<string>)
    returns (data: Dict<seq<int>>, strings: Dict<string>)
    requires strings0 == JavaStrings(before)
    requires data0 == MapValues(strings0, ParseJdkVersions)
    ensures strings == JavaStrings(before + RowCells(DataRows(rows)))
    ensures data == MapValues(strings, ParseJdkVersions)
  {
    data, strings := data0, strings0;
    if |rows| > 1 {
      var ri := 1;
      assert before + RowCells(rows[1..ri]) == before;
      while ri < |rows|
        invariant 1 <= ri <= |rows|
        invariant strings == JavaStrings(before + RowCells(rows[1..ri]))
        invariant data == MapValues(strings, ParseJdkVersions)
      {
        var cells := TdTexts(rows[ri]);
        JavaRowStep(before, rows, ri);
        ghost var next := JavaStrings(before + RowCells(rows[1..ri + 1]));
        if |cells| >= 2 {
          var version := cells[0];
          var jdkSupport := cells[1];
          if IsVersionString(version) {
            assert next == Put(strings, version, jdkSupport);
            MapValuesPut(strings, version, jdkSupport, ParseJdkVersions);
            data := Put(data, version, ParseJdkVersions(jdkSupport));
            strings := Put(strings, version, jdkSupport);
          } else {
            assert next == strings;
          }
        } else {
          assert next == strings;
        }
        ri := ri + 1;
      }
      assert rows[1..ri] == DataRows(rows);
    } else {
      assert before + RowCells(DataRows(rows)) == before;
    }
  }

  lemma JavaRowStep(before: seq<seq<string>>, rows: Table, ri: nat)
    requires 1 <= ri < |rows|
    ensures JavaStrings(before + RowCells(rows[1..ri + 1])) ==
      var cells := TdTexts(rows[ri]);
      if IsJavaRow(cells) then Put(JavaStrings(before + RowCells(rows[1..ri])), cells[0], cells[1])
      else JavaStrings(before + RowCells(rows[1..ri]))
  {
    RowCellsSnoc(rows, ri);
    AppendAssocRows(before, RowCells(rows[1..ri]), [TdTexts(rows[ri])]);
    JavaStringsSnoc(before + RowCells(rows[1..ri]), TdTexts(rows[ri]));
  }

  lemma JavaStringsSnoc(rows: seq<seq<string>>, cells: seq<string>)
    ensures JavaStrings(rows + [cells]) ==
      if IsJavaRow(cells) then Put(JavaStrings(rows), cells[0], cells[1]) else JavaStrings(rows)
  {
    assert (rows + [cells])[..|rows|] == rows;
  }

  lemma RowCellsSnoc(rows: seq<Row>, ri: nat)
    requires 1 <= ri < |rows|
    ensures RowCells(rows[1..ri + 1]) == RowCells(rows[1..ri]) + [TdTexts(rows[ri])]
  {
  }

  lemma AppendAssocRows(a: seq<seq<string>>, b: seq<seq<string>>, c: seq<seq<string>>)
    ensures a + (b + c) == (a + b) + c
  {
  }

  lemma DataRowCellsSnoc(tables: seq<Table>, ti: nat)
    requires ti < |tables|
    ensures DataRowCells(tables[..ti + 1]) == DataRowCells(tables[..ti]) + RowCells(DataRows(tables[ti]))
  {
    assert tables[..ti + 1][..ti] == tables[..ti];
  }

  /** A version is a key exactly when some Java row names it. */
  lemma {:induction false} JavaKeysIff(rows: seq<seq<string>>, k: string)
    ensures k in Keys(JavaStrings(rows)) <==>
      exists i | 0 <= i < |rows| :: IsJavaRow(rows[i]) && rows[i][0] == k
  {
    if rows != [] {
      var n := |rows| - 1;
      var front := rows[..n];
      JavaKeysIff(front, k);
      JavaStringsSnoc(front, rows[n]);
      assert rows == front + [rows[n]];
      if IsJavaRow(rows[n]) {
        PutSpec(JavaStrings(front), rows[n][0], rows[n][1]);
      }
      if exists i | 0 <= i < |rows| :: IsJavaRow(rows[i]) && rows[i][0] == k {
        var i :| 0 <= i < |rows| && IsJavaRow(rows[i]) && rows[i][0] == k;
        if i < n {
          assert front[i] == rows[i];
        }
      }
      if exists i | 0 <= i < n :: IsJavaRow(front[i]) && front[i][0] == k {
        var i :| 0 <= i < n && IsJavaRow(front[i]) && front[i][0] == k;
        assert rows[i] == front[i];
      }
    }
  }

  /** When a version appears in several rows, the last of them wins. */
  lemma {:induction false} JavaLastRowWins(rows: seq<seq<string>>, i: nat)
    requires i < |rows| && IsJavaRow(rows[i])
    requires forall j | i < j < |rows| :: !(IsJavaRow(rows[j]) && rows[j][0] == rows[i][0])
    ensures Get(JavaStrings(rows), rows[i][0]) == Some(rows[i][1])
  {
    var n := |rows| - 1;
    var front := rows[..n];
    JavaStringsSnoc(front, rows[n]);
    assert rows == front + [rows[n]];
    if i == n {
      PutSpec(JavaStrings(front), rows[n][0], rows[n][1]);
    } else {
      assert front[i] == rows[i];
      JavaLastRowWins(front, i);
      if IsJavaRow(rows[n]) {
        PutSpec(JavaStrings(front), rows[n][0], rows[n][1]);
      }
    }
  }

  /** The parsed map has the same versions, in the same order, as the map of
      JDK strings, and each value is its string parsed. */
  lemma JavaDataOfStrings(rows: seq<seq<string>>, k: string)
    ensures Keys(JavaData(rows)) == Keys(JavaStrings(rows))
    ensures Get(JavaData(rows), k) ==
      if Get(JavaStrings(rows), k).Some? then Some(ParseJdkVersions(Get(JavaStrings(rows), k).value)) else None
  {
    KeysOfMapValues(JavaStrings(rows), ParseJdkVersions);
    GetMapValues(JavaStrings(rows), ParseJdkVersions, k);
  }
}
