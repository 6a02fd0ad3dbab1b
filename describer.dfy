/**
 * The description of one dataset column (`describe_column`): the
 * matched specification's row for the column when there is one,
 * otherwise what the dataset's own metadata records about it.
 */
module Describer {
  import opened Wrappers
  import opened Tables
  import opened Sequences

  /** The metadata a SAS transport or SAS7BDAT file carries: each of its
      four per-column dictionaries may be absent. Storage widths are
      written as text. */
  datatype NativeMeta = NativeMeta(
    labels: Option<map<string, string>>,
    types: Option<map<string, string>>,
    widths: Option<map<string, string>>,
    formats: Option<map<string, string>>)

  /** `d.get(key, "")`. */
  function Lookup(d: map<string, string>, key: string): (v: string)
    ensures key in d ==> v == d[key]
    ensures key !in d ==> v == ""
  {
    if key in d then d[key] else ""
  }

  /** A row describes the column `col` when its `Variable` cell is `col`. */
  function VariableIs(col: string): Row -> Verdict
  {
    (row: Row) => if "Variable" in row && row["Variable"] == col then Take else Skip
  }

  /** The first row of the specification whose `Variable` cell is `col`,
      if the specification has a `Variable` column. */
  function SpecRowFor(col: string, spec: Option<Table>): (r: Option<Row>)
    ensures r.Some? ==>
      && spec.Some? && "Variable" in spec.value.columns
      && exists i | 0 <= i < |spec.value.rows| ::
        && spec.value.rows[i] == r.value && r.value["Variable"] == col
        && forall j | 0 <= j < i :: spec.value.rows[j]["Variable"] != col
    ensures r.None? <==>
      || spec.None? || "Variable" !in spec.value.columns
      || forall row | row in spec.value.rows :: row["Variable"] != col
  {
    match spec
    case None => None
    case Some(t) =>
      if "Variable" !in t.columns then None
      else
        CellsPresent(t, "Variable");
        match ScanFrom(t.rows, VariableIs(col), 0)
        case Hit(i) => Some(t.rows[i])
        case _ => None
  }

  /** The native description: one entry per dictionary present, each the
      column's value there or "". */
  function NativeDescription(col: string, meta: NativeMeta): (desc: Row)
    ensures "Label" in desc <==> meta.labels.Some?
    ensures "Type" in desc <==> meta.types.Some?
    ensures "Length" in desc <==> meta.widths.Some?
    ensures "Format" in desc <==> meta.formats.Some?
    ensures desc.Keys <= {"Label", "Type", "Length", "Format"}
    ensures meta.labels.Some? ==> desc["Label"] == Lookup(meta.labels.value, col)
    ensures meta.types.Some? ==> desc["Type"] == Lookup(meta.types.value, col)
    ensures meta.widths.Some? ==> desc["Length"] == Lookup(meta.widths.value, col)
    ensures meta.formats.Some? ==> desc["Format"] == Lookup(meta.formats.value, col)
  {
    var d0: Row := map[];
    var d1 := if meta.labels.Some? then d0["Label" := Lookup(meta.labels.value, col)] else d0;
    var d2 := if meta.types.Some? then d1["Type" := Lookup(meta.types.value, col)] else d1;
    var d3 := if meta.widths.Some? then d2["Length" := Lookup(meta.widths.value, col)] else d2;
    if meta.formats.Some? then d3["Format" := Lookup(meta.formats.value, col)] else d3
  }

  /** The description of column `col`: the specification row if there is
      one, else the native description unless it is empty. */
  function Describe(col: string, spec: Option<Table>, meta: Option<NativeMeta>): Option<Row>
  {
    match SpecRowFor(col, spec)
    case Some(row) => Some(row)
    case None =>
      var desc := if meta.Some? then NativeDescription(col, meta.value) else map[];
      if desc == map[] then None else Some(desc)
  }

  /** `describe_column`: looks the column up in the specification, then
      fills the description from the native metadata field by field. */
  method DescribeColumn(col: string, spec: Option<Table>, meta: Option<NativeMeta>) returns (r: Option<Row>)
    ensures r == Describe(col, spec, meta)
  {
    var row := SpecRowFor(col, spec);
    if row.Some? {
      return row;
    }
    var desc: Row := map[];
    if meta.Some? {
      var m := meta.value;
      if m.labels.Some? {
        desc := desc["Label" := Lookup(m.labels.value, col)];
      }
      if m.types.Some? {
        desc := desc["Type" := Lookup(m.types.value, col)];
      }
      if m.widths.Some? {
        desc := desc["Length" := Lookup(m.widths.value, col)];
      }
      if m.formats.Some? {
        desc := desc["Format" := Lookup(m.formats.value, col)];
      }
    }
    if desc != map[] {
      return Some(desc);
    }
    return None;
  }

  /** A specification row for the column wins: the native metadata is
      then not consulted. */
  lemma SpecRowWins(col: string, spec: Option<Table>, meta: Option<NativeMeta>)
    requires SpecRowFor(col, spec).Some?
    ensures Describe(col, spec, meta) == SpecRowFor(col, spec)
    ensures Describe(col, spec, meta) == Describe(col, spec, None)
  {
  }

  /** Without a specification row, the description is absent exactly when
      there is no native metadata or it has none of the four fields. */
  lemma DescribeNone(col: string, spec: Option<Table>, meta: Option<NativeMeta>)
    requires SpecRowFor(col, spec).None?
    ensures Describe(col, spec, meta).None? <==>
      || meta.None?
      || (meta.value.labels.None? && meta.value.types.None? &&
          meta.value.widths.None? && meta.value.formats.None?)
  {
    if meta.Some? {
      var desc := NativeDescription(col, meta.value);
      if meta.value.labels.Some? { assert "Label" in desc; }
      if meta.value.types.Some? { assert "Type" in desc; }
      if meta.value.widths.Some? { assert "Length" in desc; }
      if meta.value.formats.Some? { assert "Format" in desc; }
    }
  }
}
