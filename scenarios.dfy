/**
 * One directory followed end to end: a dataset file beside the legacy
 * specification file, one line of which records the dataset's only
 * column (for instance `demo.xpt` with column `USUBJID` beside the line
 * `H$0$DM$USUBJID$Subject ID$Char`).
 */
module Scenarios {
  import opened Wrappers
  import opened Text
  import opened Tables
  import opened Sequences
  import opened SpecParser
  import opened Catalog
  import opened Matcher
  import opened Describer

  /** A legacy file of one record line adds that line's table. */
  lemma LegacyKeptOne(line: string, src: Sources)
    requires src.readLines(LEGACY_SPEC_NAME) == Some([line])
    requires ParseLine(line).Some?
    ensures Kept(LEGACY_SPEC_NAME, src) == [Entry(LEGACY_SPEC_NAME, ParsedTable(Some([line])).value)]
    ensures ParsedTable(Some([line])).value == Frame(SPEC_COLUMNS, [ParseLine(line).value])
  {
    ParsedRowsOfLine(line);
    LegacyKept(src);
    assert LoadSpec(LEGACY_SPEC_NAME, src) == ParsedTable(Some([line]));
  }

  /** The catalog of a directory holding a data file and the legacy file
      with one record line is that line's table alone. */
  lemma LegacyCatalog(dataFile: string, line: string, src: Sources)
    requires !IsSpecFile(dataFile)
    requires src.readLines(LEGACY_SPEC_NAME) == Some([line])
    requires ParseLine(line).Some?
    ensures CatalogOf([dataFile, LEGACY_SPEC_NAME], src) == [Entry(LEGACY_SPEC_NAME, ParsedTable(Some([line])).value)]
    ensures ParsedTable(Some([line])).value == Frame(SPEC_COLUMNS, [ParseLine(line).value])
  {
    LegacyIsSpecFile();
    assert SpecFiles([dataFile, LEGACY_SPEC_NAME]) == [LEGACY_SPEC_NAME] by {
      assert [dataFile, LEGACY_SPEC_NAME] == [dataFile] + [LEGACY_SPEC_NAME];
      FilterAppend([dataFile], [LEGACY_SPEC_NAME], IsSpecFile);
    }
    GatherOne(LEGACY_SPEC_NAME, Keeper(src));
    LegacyKeptOne(line, src);
  }

  /** A table with the specification columns takes part in matching. */
  lemma SpecColumnsCandidate(t: Table)
    requires t.columns == SPEC_COLUMNS
    ensures HasColumnContaining(t, "variable")
  {
    assert t.columns[1] == "Variable";
    assert Lower("Variable") == "variable";
    assert OccursAt("variable", "variable", 0);
  }

  /** A table with the specification columns has a `dataset` column for
      rule 2 and a `Variable` column for rule 3. */
  lemma SpecColumnsDataset(t: Table)
    requires t.columns == SPEC_COLUMNS
    ensures HasColumnIgnoringCase(t, "dataset")
    ensures "Dataset" in t.columns && "Variable" in t.columns
  {
    assert t.columns[0] == "Dataset" && t.columns[1] == "Variable";
    assert Lower("Dataset") == "dataset";
  }

  /** The `Variable` values of a one-row table are its row's. */
  lemma OneRowValues(t: Table)
    requires "Variable" in t.columns && |t.rows| == 1 && "Variable" in t.rows[0]
    ensures VariableValues(t) == {t.rows[0]["Variable"]}
  {
    var values := VariableValues(t);
    assert t.rows[0] in t.rows;
    forall x | x in values ensures x == t.rows[0]["Variable"] {
      var row :| row in t.rows && row["Variable"] == x;
      assert row == t.rows[0];
    }
  }

  /** Rule 2 finds nothing in a one-row table whose `Dataset` value does
      not hold the base name. */
  lemma OneRowNoDatasetHit(t: Table, base: string)
    requires "Dataset" in t.columns && |t.rows| == 1 && "Dataset" in t.rows[0]
    requires !Contains(Lower(t.rows[0]["Dataset"]), base)
    ensures !DatasetValueHit(t, base)
  {
    forall row | row in t.rows ensures !Contains(Lower(row["Dataset"]), base) {
      assert row == t.rows[0];
    }
  }

  /** Rules 1 and 2 pass by a one-row candidate whose name and
      `Dataset` value do not hold the base name. */
  lemma OneRowFallsToOverlap(base: string, columns: seq<string>, e: Entry)
    requires "Dataset" in e.table.columns && |e.table.rows| == 1
    requires !Contains(Lower(e.name), base)
    requires "Dataset" in e.table.rows[0] && !Contains(Lower(e.table.rows[0]["Dataset"]), base)
    ensures ByName(base, columns, [e]) == ByOverlap(columns, [e])
  {
    assert NameRule(base)(e) == Skip;
    assert ScanFrom([e], NameRule(base), 0) == Miss;
    OneRowNoDatasetHit(e.table, base);
    assert DatasetRule(base)(e) == Skip;
    assert ScanFrom([e], DatasetRule(base), 0) == Miss;
  }

  /** Rule 3 takes a one-row table for a dataset whose only column is the
      row's variable: it names all of the dataset's columns. */
  lemma OneRowOverlaps(e: Entry)
    requires "Variable" in e.table.columns && |e.table.rows| == 1 && "Variable" in e.table.rows[0]
    ensures ByOverlap([e.table.rows[0]["Variable"]], [e]) == Ok(Some(e.table))
  {
    var v := e.table.rows[0]["Variable"];
    OneRowValues(e.table);
    assert Common(e.table, [v]) == {v};
    assert OverlapRule([v])(e) == Take;
    ScanStopsAt([e], OverlapRule([v]), 0);
  }

  /** A one-row candidate with `Dataset` and `Variable` columns, whose file
      name and `Dataset` value do not hold the base name, is matched by
      rule 3 to a dataset whose only column is the row's variable. */
  lemma OneRowMatchedByOverlap(dataFile: string, e: Entry)
    requires IsCandidate(e)
    requires "Dataset" in e.table.columns && "Variable" in e.table.columns && |e.table.rows| == 1
    requires !Contains(Lower(e.name), BaseName(dataFile))
    requires "Dataset" in e.table.rows[0] && !Contains(Lower(e.table.rows[0]["Dataset"]), BaseName(dataFile))
    requires "Variable" in e.table.rows[0]
    ensures Match(dataFile, [e.table.rows[0]["Variable"]], [e]) == Ok(Some(e.table))
  {
    var columns := [e.table.rows[0]["Variable"]];
    assert Candidates([e]) == [e];
    OneRowFallsToOverlap(BaseName(dataFile), columns, e);
    OneRowOverlaps(e);
  }

  /** Rule 3 passes by a one-row table for a dataset of four or more
      columns: the table names at most one of them, not more than 30%. */
  lemma OneRowTooNarrow(e: Entry, columns: seq<string>)
    requires "Variable" in e.table.columns && |e.table.rows| == 1 && "Variable" in e.table.rows[0]
    requires |columns| >= 4
    ensures ByOverlap(columns, [e]) == Ok(None)
  {
    var v := e.table.rows[0]["Variable"];
    OneRowValues(e.table);
    var common := Common(e.table, columns);
    if v in ColumnSet(columns) {
      assert common == {v};
    } else {
      assert common == {};
    }
    assert OverlapRule(columns)(e) == Skip;
  }

  /** The row found for a variable is the table's only row that names it. */
  lemma OnlyRowDescribes(t: Table, meta: Option<NativeMeta>)
    requires "Variable" in t.columns && |t.rows| == 1 && "Variable" in t.rows[0]
    ensures Describe(t.rows[0]["Variable"], Some(t), meta) == Some(t.rows[0])
  {
    assert VariableIs(t.rows[0]["Variable"])(t.rows[0]) == Take;
  }

  /** End to end: the legacy line recording variable `v` of dataset `ds`
      describes the column `v` of a data file `dataFile` that is not
      itself a specification, when neither the legacy file name nor `ds`
      holds the data file's base name; the description is the line's
      row, whatever native metadata there is. */
  lemma LegacyLineDescribesColumn(dataFile: string, line: string, src: Sources, meta: Option<NativeMeta>)
    requires !IsSpecFile(dataFile)
    requires src.readLines(LEGACY_SPEC_NAME) == Some([line])
    requires ParseLine(line).Some?
    requires !Contains(Lower(LEGACY_SPEC_NAME), BaseName(dataFile))
    requires !Contains(Lower(ParseLine(line).value["Dataset"]), BaseName(dataFile))
    ensures var row := ParseLine(line).value;
      var specs := CatalogOf([dataFile, LEGACY_SPEC_NAME], src);
      var t := ParsedTable(Some([line])).value;
      && specs == [Entry(LEGACY_SPEC_NAME, t)]
      && Match(dataFile, [row["Variable"]], specs) == Ok(Some(t))
      && Describe(row["Variable"], Some(t), meta) == Some(row)
  {
    var row := ParseLine(line).value;
    var t := ParsedTable(Some([line])).value;
    LegacyCatalog(dataFile, line, src);
    SpecColumnsCandidate(t);
    SpecColumnsDataset(t);
    OneRowMatchedByOverlap(dataFile, Entry(LEGACY_SPEC_NAME, t));
    OnlyRowDescribes(t, meta);
  }

  /** The other side of the same directory: a dataset of four or more
      columns is matched to nothing, since the legacy table names only
      one of them and neither the file name nor the `Dataset` value holds
      the base name; its columns are then described from the native
      metadata alone. */
  lemma LegacyLineMissesWide(dataFile: string, line: string, src: Sources, columns: seq<string>)
    requires !IsSpecFile(dataFile)
    requires src.readLines(LEGACY_SPEC_NAME) == Some([line])
    requires ParseLine(line).Some?
    requires !Contains(Lower(LEGACY_SPEC_NAME), BaseName(dataFile))
    requires !Contains(Lower(ParseLine(line).value["Dataset"]), BaseName(dataFile))
    requires |columns| >= 4
    ensures Match(dataFile, columns, CatalogOf([dataFile, LEGACY_SPEC_NAME], src)) == Ok(None)
  {
    var t := ParsedTable(Some([line])).value;
    var e := Entry(LEGACY_SPEC_NAME, t);
    LegacyCatalog(dataFile, line, src);
    SpecColumnsCandidate(t);
    SpecColumnsDataset(t);
    assert Candidates([e]) == [e];
    OneRowFallsToOverlap(BaseName(dataFile), columns, e);
    OneRowTooNarrow(e, columns);
  }

  /** The fields of the line `H$0$DM$USUBJID$Subject ID$Char`. */
  const DEMO_FIELDS: seq<string> := ["H", "0", "DM", "USUBJID", "Subject ID", "Char"]

  /** The line, as `readlines` gives it with its line end, records
      variable `USUBJID` of dataset `DM`, labelled `Subject ID`, of type
      `Char`. */
  lemma DemoLineParses()
    ensures ParseLine(Join(DEMO_FIELDS, DELIMITER) + "\n") == Some(SpecRow("DM", "USUBJID", "Subject ID", "Char"))
  {
    assert forall i | 0 <= i < |DEMO_FIELDS| :: DELIMITER !in DEMO_FIELDS[i];
    assert DEMO_FIELDS[0][0] == 'H' && DEMO_FIELDS[5][3] == 'r';
    assert [] + Join(DEMO_FIELDS, DELIMITER) + "\n" == Join(DEMO_FIELDS, DELIMITER) + "\n";
    ParseRecord([], DEMO_FIELDS, "\n");
  }

  /** `demo.xpt` is not a specification file. */
  lemma DemoFileIsData()
    ensures !IsSpecFile("demo.xpt")
  {
    assert "demo.xpt"[4..] == ".xpt";
    assert "demo.xpt"[3..] == "o.xpt";
  }

  /** The legacy file name does not hold `demo`. */
  lemma LegacyNameLacksDemo()
    ensures !Contains(Lower(LEGACY_SPEC_NAME), "demo")
  {
    var n := LEGACY_SPEC_NAME;
    assert forall i | 0 <= i < |n| :: n[i] != 'o' && n[i] != 'O';
    assert "demo"[3] == 'o';
    MissingChar(Lower(n), "demo", 3);
  }

  /** `DM` does not hold `demo`. */
  lemma DatasetLacksDemo()
    ensures !Contains(Lower("DM"), "demo")
  {
  }

  /** A directory holding `demo.xpt` and the legacy file with the single
      line `H$0$DM$USUBJID$Subject ID$Char` and its line end: the catalog
      is the legacy table, the dataset with column `USUBJID` is matched to
      it, and the column is described with label `Subject ID` and type
      `Char`. */
  lemma DemoScenario(src: Sources, meta: Option<NativeMeta>)
    requires src.readLines(LEGACY_SPEC_NAME) == Some([Join(DEMO_FIELDS, DELIMITER) + "\n"])
    ensures var specs := CatalogOf(["demo.xpt", LEGACY_SPEC_NAME], src);
      && |specs| == 1
      && Match("demo.xpt", ["USUBJID"], specs) == Ok(Some(specs[0].table))
      && Describe("USUBJID", Some(specs[0].table), meta) == Some(SpecRow("DM", "USUBJID", "Subject ID", "Char"))
  {
    var line := Join(DEMO_FIELDS, DELIMITER) + "\n";
    DemoLineParses();
    DemoFileIsData();
    DemoBaseName();
    LegacyNameLacksDemo();
    DatasetLacksDemo();
    LegacyLineDescribesColumn("demo.xpt", line, src, meta);
  }

  /** `demo.xpt` with four or more columns, beside the same legacy line,
      is matched to nothing. */
  lemma DemoWideMisses(src: Sources, columns: seq<string>)
    requires src.readLines(LEGACY_SPEC_NAME) == Some([Join(DEMO_FIELDS, DELIMITER) + "\n"])
    requires |columns| >= 4
    ensures Match("demo.xpt", columns, CatalogOf(["demo.xpt", LEGACY_SPEC_NAME], src)) == Ok(None)
  {
    var line := Join(DEMO_FIELDS, DELIMITER) + "\n";
    DemoLineParses();
    DemoFileIsData();
    DemoBaseName();
    LegacyNameLacksDemo();
    DatasetLacksDemo();
    LegacyLineMissesWide("demo.xpt", line, src, columns);
  }
}
