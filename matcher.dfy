/**
 * The choice of the specification table for a loaded dataset
 * (`find_matching_metadata`): among the catalog entries with a
 * variable-like column, by file name first, then by the values of a
 * `Dataset` column, then by how many of the dataset's columns the
 * table's `Variable` column names.
 */
module Matcher {
  import opened Wrappers
  import opened Text
  import opened Tables
  import opened Sequences
  import opened Catalog

  /** The exceptions the matching raises on some tables. */
  datatype MatchError = KeyError(key: string) | ZeroDivisionError

  /** The data file name without its extension, lowercased. */
  function BaseName(dataFilename: string): string
  {
    Lower(SplitExtRoot(dataFilename))
  }

  /** An entry takes part in matching when some column name, lowercased,
      contains `variable`. */
  predicate IsCandidate(e: Entry)
  {
    HasColumnContaining(e.table, "variable")
  }

  /** The entries taking part in matching, in catalog order. */
  function Candidates(specs: seq<Entry>): seq<Entry>
  {
    Filter(specs, IsCandidate)
  }

  /** Rule 1: the entry's file name, lowercased, contains the base name. */
  predicate NameHit(base: string, e: Entry)
  {
    Contains(Lower(e.name), base)
  }

  function NameRule(base: string): Entry -> Verdict
  {
    (e: Entry) => if NameHit(base, e) then Take else Skip
  }

  /** Some `Dataset` cell, lowercased, contains the base name. */
  predicate DatasetValueHit(t: Table, base: string)
    requires "Dataset" in t.columns
  {
    CellsPresent(t, "Dataset");
    exists row | row in t.rows :: Contains(Lower(row["Dataset"]), base)
  }

  /** Rule 2: the guard looks for a `dataset` column in any case, the
      lookup needs the column `Dataset` exactly (a KeyError otherwise). */
  function DatasetRule(base: string): Entry -> Verdict
  {
    (e: Entry) =>
      if !HasColumnIgnoringCase(e.table, "dataset") then Skip
      else if "Dataset" !in e.table.columns then Fail
      else if DatasetValueHit(e.table, base) then Take
      else Skip
  }

  /** The distinct values of the `Variable` column. */
  function VariableValues(t: Table): set<string>
    requires "Variable" in t.columns
  {
    CellsPresent(t, "Variable");
    set row | row in t.rows :: row["Variable"]
  }

  /** The dataset columns that the table's `Variable` column names. */
  function Common(t: Table, columns: seq<string>): set<string>
    requires "Variable" in t.columns
  {
    VariableValues(t) * ColumnSet(columns)
  }

  /** More than 30% of the dataset's columns are named by the table:
      `|common| / |columns| > 0.3` with both sides multiplied out. */
  predicate Overlaps(t: Table, columns: seq<string>)
    requires "Variable" in t.columns
  {
    10 * |Common(t, columns)| > 3 * |columns|
  }

  /** Rule 3: a table with a `Variable` column matches on overlap; the
      ratio divides by zero when the dataset has no column. */
  function OverlapRule(columns: seq<string>): Entry -> Verdict
  {
    (e: Entry) =>
      if "Variable" !in e.table.columns then Skip
      else if |columns| == 0 then Fail
      else if Overlaps(e.table, columns) then Take
      else Skip
  }

  /** The table matched to the data file `dataFilename` with the given
      columns: the first candidate matched by rule 1, else the matching
      rows of the first candidate matched by rule 2, else the first
      candidate matched by rule 3, else none. */
  function Match(dataFilename: string, columns: seq<string>, specs: seq<Entry>): Result<Option<Table>, MatchError>
  {
    ByName(BaseName(dataFilename), columns, Candidates(specs))
  }

  /** Rule 1, falling back on rules 2 and 3. */
  function ByName(base: string, columns: seq<string>, candidates: seq<Entry>): Result<Option<Table>, MatchError>
  {
    match ScanFrom(candidates, NameRule(base), 0)
    case Hit(i) => Ok(Some(candidates[i].table))
    case _ => ByDataset(base, columns, candidates)
  }

  /** Rule 2, falling back on rule 3. */
  function ByDataset(base: string, columns: seq<string>, candidates: seq<Entry>): Result<Option<Table>, MatchError>
  {
    match ScanFrom(candidates, DatasetRule(base), 0)
    case Hit(i) => Ok(Some(Select(candidates[i].table, "Dataset", base)))
    case Raise(_) => Err(KeyError("Dataset"))
    case Miss => ByOverlap(columns, candidates)
  }

  /** Rule 3, else no match. */
  function ByOverlap(columns: seq<string>, candidates: seq<Entry>): Result<Option<Table>, MatchError>
  {
    match ScanFrom(candidates, OverlapRule(columns), 0)
    case Hit(i) => Ok(Some(candidates[i].table))
    case Raise(_) => Err(ZeroDivisionError)
    case Miss => Ok(None)
  }

  /** The loop collecting the candidates. */
  method CollectCandidates(specs: seq<Entry>) returns (candidates: seq<Entry>)
    ensures candidates == Candidates(specs)
  {
    candidates := [];
    for i := 0 to |specs|
      invariant candidates == Filter(specs[..i], IsCandidate)
    {
      assert specs[..i + 1][..i] == specs[..i];
      if HasColumnContaining(specs[i].table, "variable") {
        candidates := candidates + [specs[i]];
      }
    }
    assert specs[..|specs|] == specs;
  }

  /** Rule 1's loop: the first candidate whose name contains the base name. */
  method ScanNames(base: string, candidates: seq<Entry>) returns (s: Scan)
    ensures s == ScanFrom(candidates, NameRule(base), 0)
  {
    for i := 0 to |candidates|
      invariant ScanFrom(candidates, NameRule(base), 0) == ScanFrom(candidates, NameRule(base), i)
    {
      if Contains(Lower(candidates[i].name), base) {
        return Hit(i);
      }
    }
    return Miss;
  }

  /** Rule 2's loop: the first candidate with a `dataset` column, which
      fails without an exact `Dataset` column and otherwise matches when
      one of its values contains the base name. */
  method ScanDatasets(base: string, candidates: seq<Entry>) returns (s: Scan)
    ensures s == ScanFrom(candidates, DatasetRule(base), 0)
  {
    for i := 0 to |candidates|
      invariant ScanFrom(candidates, DatasetRule(base), 0) == ScanFrom(candidates, DatasetRule(base), i)
    {
      var t := candidates[i].table;
      if HasColumnIgnoringCase(t, "dataset") {
        if "Dataset" !in t.columns {
          return Raise(i);
        }
        if DatasetValueHit(t, base) {
          return Hit(i);
        }
      }
    }
    return Miss;
  }

  /** Rule 3's loop: the first candidate with a `Variable` column naming
      more than 30% of the dataset's columns; the division fails on a
      dataset without columns. */
  method ScanOverlaps(columns: seq<string>, candidates: seq<Entry>) returns (s: Scan)
    ensures s == ScanFrom(candidates, OverlapRule(columns), 0)
  {
    for i := 0 to |candidates|
      invariant ScanFrom(candidates, OverlapRule(columns), 0) == ScanFrom(candidates, OverlapRule(columns), i)
    {
      var t := candidates[i].table;
      if "Variable" in t.columns {
        var common := Common(t, columns);
        if |columns| == 0 {
          return Raise(i);
        }
        if 10 * |common| > 3 * |columns| {
          return Hit(i);
        }
      }
    }
    return Miss;
  }

  /** `find_matching_metadata`: the three rules tried in turn, each over
      the candidates in order, returning at the first match. */
  method FindMatchingMetadata(dataFilename: string, columns: seq<string>, specs: seq<Entry>)
    returns (r: Result<Option<Table>, MatchError>)
    ensures r == Match(dataFilename, columns, specs)
  {
    var base := BaseName(dataFilename);
    var candidates := CollectCandidates(specs);
    var byName := ScanNames(base, candidates);
    if byName.Hit? {
      return Ok(Some(candidates[byName.index].table));
    }
    var byDataset := ScanDatasets(base, candidates);
    match byDataset {
      case Hit(i) =>
        return Ok(Some(Select(candidates[i].table, "Dataset", base)));
      case Raise(_) =>
        return Err(KeyError("Dataset"));
      case Miss =>
    }
    var byOverlap := ScanOverlaps(columns, candidates);
    match byOverlap {
      case Hit(i) =>
        return Ok(Some(candidates[i].table));
      case Raise(_) =>
        return Err(ZeroDivisionError);
      case Miss =>
        return Ok(None);
    }
  }

  /** Rule 1 comes first: when the first candidate in catalog order whose
      name contains the base name is `specs[k]`, its whole table is the
      match, whatever the other rules would find. */
  lemma MatchPrefersName(dataFilename: string, columns: seq<string>, specs: seq<Entry>, k: nat)
    requires k < |specs| && IsCandidate(specs[k]) && NameHit(BaseName(dataFilename), specs[k])
    requires forall j | 0 <= j < k :: !(IsCandidate(specs[j]) && NameHit(BaseName(dataFilename), specs[j]))
    ensures Match(dataFilename, columns, specs) == Ok(Some(specs[k].table))
  {
    var base := BaseName(dataFilename);
    var candidates := Candidates(specs);
    var m := FilterFirst(specs, IsCandidate, (e: Entry) => NameHit(base, e), k);
    ScanStopsAt(candidates, NameRule(base), m);
  }

  /** Every table the matching returns is a candidate's table, or the
      selection of the rows of a candidate's table whose `Dataset` value,
      lowercased, is the base name. */
  lemma MatchFromCandidate(dataFilename: string, columns: seq<string>, specs: seq<Entry>, t: Table)
    requires Match(dataFilename, columns, specs) == Ok(Some(t))
    ensures exists e | e in specs ::
      && IsCandidate(e)
      && (|| t == e.table
          || ("Dataset" in e.table.columns && IsSelection(t, e.table, "Dataset", BaseName(dataFilename))))
  {
    var base := BaseName(dataFilename);
    var candidates := Candidates(specs);
    var byName := ScanFrom(candidates, NameRule(base), 0);
    var byDataset := ScanFrom(candidates, DatasetRule(base), 0);
    var byOverlap := ScanFrom(candidates, OverlapRule(columns), 0);
    if byName.Hit? {
      assert candidates[byName.index] in candidates;
    } else if byDataset.Hit? {
      assert candidates[byDataset.index] in candidates;
    } else {
      assert byOverlap.Hit?;
      assert candidates[byOverlap.index] in candidates;
    }
  }

  /** Rule 3 fails only by dividing by zero, on a dataset without
      columns and a candidate with a `Variable` column. */
  lemma OverlapError(columns: seq<string>, candidates: seq<Entry>)
    requires ByOverlap(columns, candidates).Err?
    ensures ByOverlap(columns, candidates).error == ZeroDivisionError
    ensures |columns| == 0 && exists e | e in candidates :: "Variable" in e.table.columns
  {
    var byOverlap := ScanFrom(candidates, OverlapRule(columns), 0);
    assert candidates[byOverlap.index] in candidates;
  }

  /** Rule 2 fails only with a KeyError, on a candidate with a `dataset`
      column in some other case and no `Dataset` column. */
  lemma DatasetError(base: string, columns: seq<string>, candidates: seq<Entry>)
    requires ScanFrom(candidates, DatasetRule(base), 0).Raise?
    ensures ByDataset(base, columns, candidates).error == KeyError("Dataset")
    ensures exists e | e in candidates :: HasColumnIgnoringCase(e.table, "dataset") && "Dataset" !in e.table.columns
  {
    var byDataset := ScanFrom(candidates, DatasetRule(base), 0);
    assert candidates[byDataset.index] in candidates;
  }

  /** The matching fails only on the two tables Python raises on: a
      KeyError for a candidate with a `dataset` column in some other case
      but no `Dataset` column, a division by zero for a dataset without
      columns once a candidate with a `Variable` column is reached. */
  lemma MatchErrors(dataFilename: string, columns: seq<string>, specs: seq<Entry>)
    requires Match(dataFilename, columns, specs).Err?
    ensures var err := Match(dataFilename, columns, specs).error;
      || (err == KeyError("Dataset") &&
          exists e | e in specs :: IsCandidate(e) && HasColumnIgnoringCase(e.table, "dataset") && "Dataset" !in e.table.columns)
      || (err == ZeroDivisionError && |columns| == 0 &&
          exists e | e in specs :: IsCandidate(e) && "Variable" in e.table.columns)
  {
    var base := BaseName(dataFilename);
    var candidates := Candidates(specs);
    assert ByName(base, columns, candidates) == ByDataset(base, columns, candidates);
    if ScanFrom(candidates, DatasetRule(base), 0).Raise? {
      DatasetError(base, columns, candidates);
    } else {
      assert ByDataset(base, columns, candidates) == ByOverlap(columns, candidates);
      OverlapError(columns, candidates);
    }
  }

  /** When no candidate's name holds the base name and every candidate
      with a `dataset` column has the exact `Dataset` column with no value
      holding the base name, rule 3 alone decides. */
  lemma OnlyOverlapDecides(base: string, columns: seq<string>, candidates: seq<Entry>)
    requires forall e | e in candidates :: !NameHit(base, e)
    requires forall e | e in candidates && HasColumnIgnoringCase(e.table, "dataset") ::
      "Dataset" in e.table.columns && !DatasetValueHit(e.table, base)
    ensures ByName(base, columns, candidates) == ByOverlap(columns, candidates)
  {
    forall j | 0 <= j < |candidates| ensures NameRule(base)(candidates[j]) == Skip {
      assert candidates[j] in candidates;
    }
    forall j | 0 <= j < |candidates| ensures DatasetRule(base)(candidates[j]) == Skip {
      assert candidates[j] in candidates;
    }
  }

  /** Rule 3 over the candidates: the first one in order with a
      `Variable` column naming strictly more than 30% of a dataset's
      columns, and none exactly when no candidate does. */
  lemma OverlapOutcome(columns: seq<string>, candidates: seq<Entry>)
    requires |columns| > 0
    ensures ByOverlap(columns, candidates).Ok?
    ensures ByOverlap(columns, candidates).value.Some? ==>
      exists k | 0 <= k < |candidates| ::
        && ByOverlap(columns, candidates).value.value == candidates[k].table
        && "Variable" in candidates[k].table.columns && Overlaps(candidates[k].table, columns)
        && forall j | 0 <= j < k ::
          "Variable" !in candidates[j].table.columns || !Overlaps(candidates[j].table, columns)
    ensures ByOverlap(columns, candidates).value.None? <==>
      forall e | e in candidates :: "Variable" !in e.table.columns || !Overlaps(e.table, columns)
  {
    var byOverlap := ScanFrom(candidates, OverlapRule(columns), 0);
    if byOverlap.Hit? {
      var k := byOverlap.index;
      forall j | 0 <= j < k
        ensures "Variable" !in candidates[j].table.columns || !Overlaps(candidates[j].table, columns)
      {
        assert OverlapRule(columns)(candidates[j]) == Skip;
      }
    } else {
      forall e | e in candidates ensures "Variable" !in e.table.columns || !Overlaps(e.table, columns) {
        var j :| 0 <= j < |candidates| && candidates[j] == e;
        assert OverlapRule(columns)(candidates[j]) == Skip;
      }
    }
  }

  /** When neither names nor `Dataset` values decide, the match is the
      first candidate in catalog order with a `Variable` column naming
      strictly more than 30% of the dataset's columns, and there is none
      exactly when no candidate does. */
  lemma MatchByOverlap(dataFilename: string, columns: seq<string>, specs: seq<Entry>)
    requires |columns| > 0
    requires forall e | e in specs && IsCandidate(e) :: !NameHit(BaseName(dataFilename), e)
    requires forall e | e in specs && IsCandidate(e) && HasColumnIgnoringCase(e.table, "dataset") ::
      "Dataset" in e.table.columns && !DatasetValueHit(e.table, BaseName(dataFilename))
    ensures Match(dataFilename, columns, specs).Ok?
    ensures var candidates := Candidates(specs);
      Match(dataFilename, columns, specs).value.Some? ==>
        exists k | 0 <= k < |candidates| ::
          && Match(dataFilename, columns, specs).value.value == candidates[k].table
          && "Variable" in candidates[k].table.columns && Overlaps(candidates[k].table, columns)
          && forall j | 0 <= j < k ::
            "Variable" !in candidates[j].table.columns || !Overlaps(candidates[j].table, columns)
    ensures Match(dataFilename, columns, specs).value.None? <==>
      forall e | e in specs && IsCandidate(e) :: "Variable" !in e.table.columns || !Overlaps(e.table, columns)
  {
    var candidates := Candidates(specs);
    OnlyOverlapDecides(BaseName(dataFilename), columns, candidates);
    OverlapOutcome(columns, candidates);
  }

  /** Rule 2 over the candidates, once rule 1 has passed by all of them:
      the first candidate rule 2 does not pass by decides. */
  lemma DatasetDecides(base: string, columns: seq<string>, candidates: seq<Entry>, m: nat)
    requires forall j | 0 <= j < |candidates| :: NameRule(base)(candidates[j]) == Skip
    requires m < |candidates| && DatasetRule(base)(candidates[m]) == Take
    requires forall j | 0 <= j < m :: DatasetRule(base)(candidates[j]) == Skip
    ensures ByName(base, columns, candidates) == Ok(Some(Select(candidates[m].table, "Dataset", base)))
  {
    ScanStopsAt(candidates, DatasetRule(base), m);
  }

  /** Rule 2 comes before rule 3: when no candidate's name holds the base
      name and `specs[k]` is the first candidate with a `dataset` column
      that rule 2 does not pass by, and it has the exact `Dataset` column
      with a value holding the base name, the match is the selection of
      its rows whose `Dataset` value, lowercased, is the base name. */
  lemma MatchByDataset(dataFilename: string, columns: seq<string>, specs: seq<Entry>, k: nat)
    requires k < |specs| && IsCandidate(specs[k])
    requires forall e | e in specs && IsCandidate(e) :: !NameHit(BaseName(dataFilename), e)
    requires HasColumnIgnoringCase(specs[k].table, "dataset") && "Dataset" in specs[k].table.columns
    requires DatasetValueHit(specs[k].table, BaseName(dataFilename))
    requires forall j | 0 <= j < k && IsCandidate(specs[j]) && HasColumnIgnoringCase(specs[j].table, "dataset") ::
      "Dataset" in specs[j].table.columns && !DatasetValueHit(specs[j].table, BaseName(dataFilename))
    ensures Match(dataFilename, columns, specs) == Ok(Some(Select(specs[k].table, "Dataset", BaseName(dataFilename))))
  {
    var base := BaseName(dataFilename);
    var rule := DatasetRule(base);
    var candidates := Candidates(specs);
    assert rule(specs[k]) == Take;
    forall j | 0 <= j < k ensures !(IsCandidate(specs[j]) && rule(specs[j]) != Skip) {
    }
    var m := FilterFirst(specs, IsCandidate, (e: Entry) => rule(e) != Skip, k);
    forall j | 0 <= j < |candidates| ensures NameRule(base)(candidates[j]) == Skip {
      assert candidates[j] in candidates;
    }
    DatasetDecides(base, columns, candidates, m);
  }

  /** A dataset of which the table names exactly 30% of the columns is not
      matched by rule 3. */
  lemma ExactlyThirtyPercent(e: Entry, columns: seq<string>)
    requires "Variable" in e.table.columns
    requires 10 * |Common(e.table, columns)| == 3 * |columns|
    ensures OverlapRule(columns)(e) != Take
  {
  }

  /** The base name of `demo.xpt` is `demo`. */
  lemma DemoBaseName()
    ensures BaseName("demo.xpt") == "demo"
  {
    assert "demo.xpt" == "demo" + ['.'] + "xpt";
    assert "demo"[0] != '.';
    StemOfFileName("demo", "xpt");
    assert Lower("demo") == "demo";
  }

  /** `demo_vars.csv` holds the name `demo`. */
  lemma DemoNameHit(demo: Table)
    ensures NameHit("demo", Entry("demo_vars.csv", demo))
  {
    var name := "demo_vars.csv";
    assert forall i | 0 <= i < |name| :: !('A' <= name[i] <= 'Z');
    assert OccursAt(name, "demo", 0);
    LowerWithoutCapitals(name);
  }

  /** `other_vars.csv` does not hold the name `demo`. */
  lemma OtherNameMiss(other: Table)
    ensures !NameHit("demo", Entry("other_vars.csv", other))
  {
    var name := "other_vars.csv";
    assert forall i | 0 <= i < |name| :: name[i] != 'd' && !('A' <= name[i] <= 'Z');
    MissingChar(name, "demo", 0);
    LowerWithoutCapitals(name);
  }

  /** Of two candidates, the second is matched when only its name holds
      the base name: file order does not outweigh rule 1. */
  lemma NameOutweighsOrder(dataFilename: string, columns: seq<string>, first: Entry, second: Entry)
    requires IsCandidate(second) && NameHit(BaseName(dataFilename), second)
    requires !NameHit(BaseName(dataFilename), first)
    ensures Match(dataFilename, columns, [first, second]) == Ok(Some(second.table))
  {
    MatchPrefersName(dataFilename, columns, [first, second], 1);
  }

  /** `demo.xpt` is matched to `demo_vars.csv` by name, even when
      `other_vars.csv`, also describing variables, comes first. */
  lemma DemoMatchesByName(columns: seq<string>, demo: Table, other: Table)
    requires HasColumnContaining(demo, "variable") && HasColumnContaining(other, "variable")
    ensures Match("demo.xpt", columns, [Entry("other_vars.csv", other), Entry("demo_vars.csv", demo)]) ==
      Ok(Some(demo))
  {
    DemoBaseName();
    DemoNameHit(demo);
    OtherNameMiss(other);
    NameOutweighsOrder("demo.xpt", columns, Entry("other_vars.csv", other), Entry("demo_vars.csv", demo));
  }
}
