/**
 * The catalog of specification tables (`load_all_metadata`): every
 * visible `.csv` or `.xlsx` file of the data directory is loaded, the
 * legacy `$`-file through its own parser, and kept, under its file name,
 * when it describes variables.
 */
module Catalog {
  import opened Wrappers
  import opened Text
  import opened Tables
  import opened Sequences
  import opened SpecParser

  /** The one file read by the legacy parser rather than as a CSV table. */
  const LEGACY_SPEC_NAME := "SDTM_spec_Variables" + ".csv"

  /** A retained specification: its file name and its table. */
  datatype Entry = Entry(name: string, table: Table)

  /** What reading a file of the data directory gives: its lines, or its
      table as CSV or as Excel; None when the read fails (the loop skips
      such a file). */
  datatype Sources = Sources(
    readLines: string -> Option<seq<string>>,
    readCsv: string -> Option<Table>,
    readExcel: string -> Option<Table>)

  /** A file is considered when its name ends in `.csv` or `.xlsx`, with
      that exact case, and it is not hidden. */
  predicate IsSpecFile(name: string)
  {
    (EndsWith(name, ".csv") || EndsWith(name, ".xlsx")) && !StartsWith(name, ".")
  }

  /** The files considered, in directory order. */
  function SpecFiles(files: seq<string>): seq<string>
  {
    Filter(files, IsSpecFile)
  }

  /** The table a considered file loads to, None when loading fails. */
  function LoadSpec(name: string, src: Sources): Option<Table>
  {
    if name == LEGACY_SPEC_NAME then ParsedTable(src.readLines(name))
    else if EndsWith(name, ".csv") then src.readCsv(name)
    else if EndsWith(name, ".xlsx") then src.readExcel(name)
    else None
  }

  /** A table describes variables when some column, lowercased, is
      `variable` or `label`. */
  predicate Describes(t: Table)
  {
    HasColumnIgnoringCase(t, "variable") || HasColumnIgnoringCase(t, "label")
  }

  /** What one considered file adds to the catalog: its entry, or nothing. */
  function Kept(name: string, src: Sources): seq<Entry>
  {
    match LoadSpec(name, src)
    case Some(t) => if Describes(t) then [Entry(name, t)] else []
    case None => []
  }

  function Keeper(src: Sources): string -> seq<Entry>
  {
    name => Kept(name, src)
  }

  /** The catalog of a directory listing, in listing order. */
  function CatalogOf(files: seq<string>, src: Sources): seq<Entry>
  {
    Gather(SpecFiles(files), Keeper(src))
  }

  /** `load_all_metadata`: loads every considered file and keeps those
      whose table describes variables. */
  method LoadAllMetadata(files: seq<string>, src: Sources) returns (specs: seq<Entry>)
    ensures specs == CatalogOf(files, src)
  {
    var metadataFiles := SpecFiles(files);
    specs := [];
    var i := 0;
    assert metadataFiles[..i] == [];
    while i < |metadataFiles|
      invariant 0 <= i <= |metadataFiles|
      invariant specs == Gather(metadataFiles[..i], Keeper(src))
    {
      var file := metadataFiles[i];
      var df: Option<Table>;
      if file == LEGACY_SPEC_NAME {
        df := ParseSdtmMetadata(src.readLines(file));
      } else if EndsWith(file, ".csv") {
        df := src.readCsv(file);
      } else if EndsWith(file, ".xlsx") {
        df := src.readExcel(file);
      } else {
        df := None;
      }
      if df.Some? && Describes(df.value) {
        specs := specs + [Entry(file, df.value)];
      }
      GatherStep(metadataFiles, i, Keeper(src));
      i := i + 1;
    }
    assert metadataFiles[..i] == metadataFiles;
  }

  /** Every catalog entry is a considered file of the listing whose table
      loaded and describes variables. */
  lemma CatalogSound(files: seq<string>, src: Sources, e: Entry)
    requires e in CatalogOf(files, src)
    ensures e.name in files && IsSpecFile(e.name)
    ensures LoadSpec(e.name, src) == Some(e.table) && Describes(e.table)
  {
    var specFiles := SpecFiles(files);
    GatherMember(specFiles, Keeper(src), e);
    var i :| 0 <= i < |specFiles| && e in Keeper(src)(specFiles[i]);
    assert specFiles[i] in specFiles;
  }

  /** Every considered file of the listing whose table loads and
      describes variables is in the catalog. */
  lemma CatalogComplete(files: seq<string>, src: Sources, name: string, t: Table)
    requires name in files && IsSpecFile(name)
    requires LoadSpec(name, src) == Some(t) && Describes(t)
    ensures Entry(name, t) in CatalogOf(files, src)
  {
    var specFiles := SpecFiles(files);
    assert name in specFiles;
    var i :| 0 <= i < |specFiles| && specFiles[i] == name;
    assert Entry(name, t) in Keeper(src)(specFiles[i]);
    GatherCollects(specFiles, Keeper(src), i, Entry(name, t));
  }

  /** The catalog keeps listing order: the catalog of two blocks of files
      is the first block's catalog followed by the second's. */
  lemma CatalogAppend(files: seq<string>, more: seq<string>, src: Sources)
    ensures CatalogOf(files + more, src) == CatalogOf(files, src) + CatalogOf(more, src)
  {
    FilterAppend(files, more, IsSpecFile);
    GatherAppend(SpecFiles(files), SpecFiles(more), Keeper(src));
  }

  /** The legacy file is one of the files considered. */
  lemma LegacyIsSpecFile()
    ensures IsSpecFile(LEGACY_SPEC_NAME)
  {
    EndsWithAppended("SDTM_spec_Variables", ".csv");
    assert LEGACY_SPEC_NAME[0] == 'S';
  }

  /** The four specification columns describe variables. */
  lemma SpecColumnsDescribe(t: Table)
    requires t.columns == SPEC_COLUMNS
    ensures Describes(t)
  {
    assert t.columns[1] == "Variable";
    assert Lower("Variable") == "variable";
  }

  /** The legacy file is retained exactly when it can be read and some
      line of it has at least five fields; its entry then holds the
      parsed rows under the four specification columns. */
  lemma LegacyKept(src: Sources)
    ensures var lines := src.readLines(LEGACY_SPEC_NAME);
      Kept(LEGACY_SPEC_NAME, src) != [] <==> lines.Some? && ParsedRows(lines.value) != []
    ensures var lines := src.readLines(LEGACY_SPEC_NAME);
      Kept(LEGACY_SPEC_NAME, src) != [] ==>
        Kept(LEGACY_SPEC_NAME, src)[0].table == Frame(SPEC_COLUMNS, ParsedRows(lines.value))
  {
    var lines := src.readLines(LEGACY_SPEC_NAME);
    assert LoadSpec(LEGACY_SPEC_NAME, src) == ParsedTable(lines);
    if lines.Some? {
      var t := ParsedTable(lines).value;
      if ParsedRows(lines.value) != [] {
        SpecColumnsDescribe(t);
      } else {
        assert t.columns == [];
      }
    }
  }

  /** A listing without repeated names gives a catalog without repeated
      names, so the catalog is the dictionary the loop fills. */
  lemma {:induction false} CatalogNamesDistinct(files: seq<string>, src: Sources)
    requires forall i, j | 0 <= i < j < |files| :: files[i] != files[j]
    ensures forall i, j | 0 <= i < j < |CatalogOf(files, src)| ::
      CatalogOf(files, src)[i].name != CatalogOf(files, src)[j].name
  {
    if files != [] {
      var init := files[..|files| - 1];
      var last := files[|files| - 1];
      assert files == init + [last];
      assert last !in init;
      CatalogNamesDistinct(init, src);
      CatalogAppend(init, [last], src);
      var front := CatalogOf(init, src);
      var tail := CatalogOf([last], src);
      var whole := CatalogOf(files, src);
      assert whole == front + tail;
      LastNameOnly(last, src);
      forall i, j | 0 <= i < j < |whole| ensures whole[i].name != whole[j].name {
        if j >= |front| {
          assert whole[j] in tail;
          assert whole[i] in front;
          CatalogSound(init, src, whole[i]);
        }
      }
    }
  }

  /** The catalog of a single file holds at most its own entry. */
  lemma LastNameOnly(name: string, src: Sources)
    ensures |CatalogOf([name], src)| <= 1
    ensures forall e | e in CatalogOf([name], src) :: e.name == name
  {
    if IsSpecFile(name) {
      assert SpecFiles([name]) == [name];
      GatherOne(name, Keeper(src));
    } else {
      assert SpecFiles([name]) == [];
    }
  }
}
