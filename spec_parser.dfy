/**
 * The parser of the legacy `$`-delimited specification file
 * (`parse_sdtm_metadata`): one record per line, fields 2 to 5 giving a
 * variable's dataset, name, label and type.
 */
module SpecParser {
  import opened Wrappers
  import opened Text
  import opened Tables
  import opened Sequences

  const DELIMITER := '$'

  /** A line needs this many fields to be a record. */
  const MIN_FIELDS := 5

  /** The columns of a parsed specification, in the order its rows list them. */
  const SPEC_COLUMNS: seq<string> := ["Dataset", "Variable", "Label", "Type"]

  /** The keys of every parsed row. */
  const SPEC_KEYS: set<string> := {"Dataset", "Variable", "Label", "Type"}

  /** The fields of one line: stripped of surrounding whitespace, then
      split on every `$`. */
  function Fields(line: string): seq<string>
  {
    Split(Strip(line), DELIMITER)
  }

  /** The row recorded for one variable. */
  function SpecRow(dataset: string, variable: string, caption: string, kind: string): (r: Row)
    ensures r.Keys == SPEC_KEYS
    ensures r["Dataset"] == dataset && r["Variable"] == variable
    ensures r["Label"] == caption && r["Type"] == kind
  {
    map["Dataset" := dataset, "Variable" := variable, "Label" := caption, "Type" := kind]
  }

  /** The row a line contributes, if it has enough fields. */
  function ParseLine(line: string): (r: Option<Row>)
    ensures r.Some? <==> |Fields(line)| >= MIN_FIELDS
  {
    var parts := Fields(line);
    if |parts| >= MIN_FIELDS then
      Some(SpecRow(parts[2], parts[3], parts[4], if |parts| > 5 then parts[5] else ""))
    else None
  }

  /** The rows one line contributes: its row, or none. */
  function LineRows(line: string): (rows: seq<Row>)
    ensures |rows| <= 1
    ensures forall r | r in rows :: r.Keys == SPEC_KEYS
  {
    match ParseLine(line)
    case Some(r) => [r]
    case None => []
  }

  /** The rows of all lines, in line order. */
  function ParsedRows(lines: seq<string>): seq<Row>
  {
    Gather(lines, LineRows)
  }

  /** The frame pandas builds from a list of row dictionaries: it has no
      column at all when the list is empty. */
  function ParsedTable(lines: Option<seq<string>>): (t: Option<Table>)
    ensures t.Some? <==> lines.Some?
    ensures t.Some? ==> t.value.rows == ParsedRows(lines.value)
    ensures t.Some? ==> t.value.columns == if t.value.rows == [] then [] else SPEC_COLUMNS
  {
    assert ColumnSet(SPEC_COLUMNS) == SPEC_KEYS;
    match lines
    case None => None
    case Some(ls) =>
      var rows := ParsedRows(ls);
      ParsedRowKeys(ls);
      if rows == [] then Some(Frame([], [])) else Some(Frame(SPEC_COLUMNS, rows))
  }

  /** Parsing is line by line: the rows of two blocks of lines are the
      rows of the first followed by those of the second. */
  lemma ParsedRowsAppend(a: seq<string>, b: seq<string>)
    ensures ParsedRows(a + b) == ParsedRows(a) + ParsedRows(b)
  {
    GatherAppend(a, b, LineRows);
  }

  lemma ParsedRowsStep(lines: seq<string>, i: nat)
    requires i < |lines|
    ensures ParsedRows(lines[..i + 1]) == ParsedRows(lines[..i]) + LineRows(lines[i])
  {
    GatherStep(lines, i, LineRows);
  }

  /** Every parsed row has exactly the four specification keys. */
  lemma ParsedRowKeys(lines: seq<string>)
    ensures forall r | r in ParsedRows(lines) :: r.Keys == SPEC_KEYS
  {
    forall r | r in ParsedRows(lines) ensures r.Keys == SPEC_KEYS {
      GatherMember(lines, LineRows, r);
    }
  }

  /** One line gives one row when it has at least five fields, else none. */
  lemma ParsedRowsOfLine(line: string)
    ensures |Fields(line)| >= MIN_FIELDS ==> ParsedRows([line]) == [ParseLine(line).value]
    ensures |Fields(line)| < MIN_FIELDS ==> ParsedRows([line]) == []
  {
    GatherOne(line, LineRows);
  }

  /** A record written as its fields joined by `$`, with any whitespace
      around it (the line end `readlines` keeps, say), parses back to the
      row of fields 2, 3, 4 and, if there is one, 5; a record of fewer
      than five fields is skipped. Only the outer ends of the first and
      the last field may not be whitespace, since stripping would take
      them off. */
  lemma ParseRecord(pre: string, fields: seq<string>, post: string)
    requires fields != []
    requires forall i | 0 <= i < |fields| :: DELIMITER !in fields[i]
    requires forall k | 0 <= k < |pre| :: IsSpace(pre[k])
    requires forall k | 0 <= k < |post| :: IsSpace(post[k])
    requires fields[0] != [] ==> !IsSpace(fields[0][0])
    requires var l := fields[|fields| - 1]; l != [] ==> !IsSpace(l[|l| - 1])
    ensures ParseLine(pre + Join(fields, DELIMITER) + post) ==
      if |fields| >= MIN_FIELDS then
        Some(SpecRow(fields[2], fields[3], fields[4], if |fields| > 5 then fields[5] else ""))
      else None
  {
    var core := Join(fields, DELIMITER);
    JoinStart(fields, DELIMITER);
    JoinEnd(fields, DELIMITER);
    StripAround(pre, core, post);
    SplitJoin(fields, DELIMITER);
  }

  /** `parse_sdtm_metadata`: reads the lines (None when the file cannot be
      read) and collects the row of every line of at least five fields. */
  method ParseSdtmMetadata(lines: Option<seq<string>>) returns (t: Option<Table>)
    ensures t == ParsedTable(lines)
  {
    if lines.None? {
      return None;
    }
    var ls := lines.value;
    var parsed: seq<Row> := [];
    var i := 0;
    assert ls[..i] == [];
    while i < |ls|
      invariant 0 <= i <= |ls|
      invariant parsed == ParsedRows(ls[..i])
    {
      ParsedRowsStep(ls, i);
      match ParseLine(ls[i]) {
        case Some(row) => parsed := parsed + [row];
        case None =>
      }
      i := i + 1;
    }
    assert ls[..i] == ls;
    if parsed == [] {
      t := Some(Frame([], []));
    } else {
      assert ColumnSet(SPEC_COLUMNS) == SPEC_KEYS;
      ParsedRowKeys(ls);
      t := Some(Frame(SPEC_COLUMNS, parsed));
    }
  }
}
