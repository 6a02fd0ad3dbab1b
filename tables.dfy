/**
 * Data frames as the metadata scan sees them: column names in order and
 * rows mapping each column name to its cell text.
 */
module Tables {
  import opened Text
  import opened Sequences

  /** One row of a frame: column name to cell text. */
  type Row = map<string, string>

  datatype Frame = Frame(columns: seq<string>, rows: seq<Row>)

  /** The column names of a frame, as a set. */
  function ColumnSet(columns: seq<string>): set<string>
  {
    set c | c in columns
  }

  /** Every row holds a cell for exactly the frame's columns. */
  predicate WellFormed(f: Frame)
  {
    forall r | r in f.rows :: r.Keys == ColumnSet(f.columns)
  }

  /** A frame whose rows agree with its columns, as every data frame does. */
  type Table = f: Frame | WellFormed(f) witness Frame([], [])

  /** Some column name, lowercased, equals `name` (pandas'
      `name in df.columns.str.lower()`). */
  predicate HasColumnIgnoringCase(t: Frame, name: string)
  {
    exists c | c in t.columns :: Lower(c) == name
  }

  /** Some column name, lowercased, contains `fragment`. */
  predicate HasColumnContaining(t: Frame, fragment: string)
  {
    exists c | c in t.columns :: Contains(Lower(c), fragment)
  }

  /** How many of `rows` have a `column` cell that, lowercased, equals `key`. */
  ghost function MatchCount(rows: seq<Row>, column: string, key: string): nat
    requires forall row | row in rows :: column in row
  {
    if rows == [] then 0
    else
      var init := rows[..|rows| - 1];
      MatchCount(init, column, key) + if Lower(rows[|rows| - 1][column]) == key then 1 else 0
  }

  /** The rows whose cell in `column`, lowercased, equals `key`, in their
      order (pandas' `df[df[column].str.lower() == key]`). */
  function SelectRows(rows: seq<Row>, column: string, key: string): (r: seq<Row>)
    requires forall row | row in rows :: column in row
    ensures IsSubsequence(r, rows)
    ensures forall row | row in r :: row in rows && Lower(row[column]) == key
    ensures |r| == MatchCount(rows, column, key)
  {
    if rows == [] then []
    else
      var init := rows[..|rows| - 1];
      var last := rows[|rows| - 1];
      assert forall row | row in init :: row in rows;
      var front := SelectRows(init, column, key);
      var r := front + if Lower(last[column]) == key then [last] else [];
      assert Lower(last[column]) == key ==> r[..|r| - 1] == front && r[|r| - 1] == last;
      assert Lower(last[column]) != key ==> r == front;
      r
  }

  /** A column present in a well-formed frame has a cell in every row. */
  lemma CellsPresent(t: Table, column: string)
    requires column in t.columns
    ensures forall row | row in t.rows :: column in row
  {
    forall row | row in t.rows ensures column in row {
      assert column in ColumnSet(t.columns);
    }
  }

  /** `sel` is the selection of the rows of `t` whose `column` cell,
      lowercased, equals `key`: the same columns, a subsequence of the
      rows in which every row matches, as long as the number of matching
      rows (so no matching row is left out). */
  ghost predicate IsSelection(sel: Table, t: Table, column: string, key: string)
    requires column in t.columns
  {
    CellsPresent(t, column);
    && sel.columns == t.columns
    && IsSubsequence(sel.rows, t.rows)
    && (forall row | row in sel.rows :: row in t.rows && Lower(row[column]) == key)
    && |sel.rows| == MatchCount(t.rows, column, key)
  }

  /** The table of the rows of `t` whose `column` cell, lowercased, equals
      `key`. */
  function Select(t: Table, column: string, key: string): (sel: Table)
    requires column in t.columns
    ensures IsSelection(sel, t, column, key)
  {
    CellsPresent(t, column);
    Frame(t.columns, SelectRows(t.rows, column, key))
  }
}
