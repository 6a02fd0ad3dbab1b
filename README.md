# TabularViewer metadata scan, modelled in Dafny

TabularViewer shows a clinical dataset (SAS transport, SAS7BDAT, CSV or
Excel) next to the description of each of its columns. The descriptions
come from two places. One is a *specification table* found in the same
directory as the data. The other is the metadata the dataset file
carries itself. This project models the four functions of `main.py`
that produce those descriptions:

- `parse_sdtm_metadata` reads the legacy `$`-delimited file
  `SDTM_spec_Variables.csv`. Each line is stripped and split on `$`. A
  line with at least five fields becomes a row holding `Dataset`,
  `Variable`, `Label` and `Type` (`SpecParser`, a loop proved against
  the recursive `ParsedRows`).
- `load_all_metadata` builds the *catalog*. It takes every visible
  `.csv`/`.xlsx` file of the directory and loads it, sending the legacy
  file to the parser. It keeps, in listing order, each table with a
  column named `variable` or `label` in any case (`Catalog`).
- `find_matching_metadata` chooses the specification for a data file.
  Only catalog entries with a column containing `variable` take part.
  - Rule 1 takes the first entry whose file name contains the data
    file's lowercased stem.
  - Rule 2 takes the matching rows of the first entry whose `Dataset`
    values contain the stem.
  - Rule 3 takes the first entry whose `Variable` column names more than
    30% of the dataset's columns.

  `Matcher` models this. Each rule's loop is a method proved against the
  generic first-match search `Sequences.ScanFrom`.
- `describe_column` prefers the first specification row naming the
  column. Otherwise it builds a description from the native labels,
  types, storage widths and formats that are present (`Describer`).

`Text` models the Python string operations these functions use:
- `strip`
- `split` on one character
- `lower`
- `in`
- `startswith` and `endswith`
- `os.path.splitext`

`Tables` models data frames as column names plus rows mapping column
names to cell text, together with the row filter
`df[df[c].str.lower() == key]`. `Scenarios` follows one directory from
the file listing to a column description.

The code raises an exception in two places. Both are modelled as `Err`
results of the matching:
- A candidate has a `dataset` column in some other case (for example
  `DATASET`) but no `Dataset` column. The guard of rule 2 is
  case-insensitive, but its lookup is exact, so it raises `KeyError`.
- The dataset has no columns when rule 3 reaches a candidate with a
  `Variable` column, so the ratio divides by zero.

Some outcomes follow the code where a reader of its design might expect
otherwise:
- A legacy file without a single valid line yields a frame with no
  columns, so the catalog drops it.
- Catalog file selection is case-sensitive (`DM.CSV` is not
  considered), unlike the case-insensitive dispatch of the dataset
  loader.
- A legacy table is found for a dataset only through rule 3 unless its
  file name or `Dataset` values hold the stem. A one-record legacy file
  then describes only datasets of at most three columns
  (`Scenarios.LegacyLineMissesWide`). For `demo.xpt` rule 2 misses,
  since `dm` does not contain `demo` (`Scenarios.DemoWideMisses`).

## Model

| member | source | states |
|---|---|---|
| Text.Strip | main.py:73 | the result is a slice of the line with only whitespace removed before and after it, and it neither starts nor ends with whitespace |
| Text.Split | main.py:73 | `k` separators give `k + 1` fields, none of which holds the separator |
| Text.JoinSplit | main.py:73 | joining the fields of a split with the separator gives back the line |
| Text.StripAround | main.py:73 | whitespace added before and after a text that neither starts nor ends with whitespace is stripped off again, and nothing else |
| Text.SplitJoin | main.py:73 | splitting separator-free fields joined by the separator gives back the fields |
| Text.Lower | main.py:107 | lowercasing keeps the length and lowercases each ASCII capital, leaving every other character as it is |
| Text.SplitExtRoot | main.py:107 | the stem is a prefix of the name; when shorter, it stops at a dot after which there is no other dot or `/` |
| Text.StemOfFileName | main.py:107 | a file name with an extension loses exactly that extension |
| Tables.SelectRows | main.py:122 | the selected rows are a subsequence of the rows, each matching, and as many as there are matching rows |
| Tables.Select | main.py:122 | the filtered frame keeps the columns and is the selection of the matching rows |
| SpecParser.ParseLine | main.py:73-80 | a line gives a row exactly when its stripped `$`-split has at least five fields |
| SpecParser.LineRows | main.py:74-80 | a line contributes at most one row, keyed by the four specification columns |
| SpecParser.ParsedTable | main.py:67-83 | an unreadable file gives no table; otherwise the rows are the lines' rows in order, with the four columns, or no column when there is no row |
| SpecParser.ParsedRowsAppend | main.py:72-80 | the rows of two blocks of lines are the first block's rows followed by the second's |
| SpecParser.ParsedRowKeys | main.py:75-80 | every parsed row has exactly the four specification keys |
| SpecParser.ParsedRowsOfLine | main.py:74-80 | one line gives its row when it has at least five fields, and nothing otherwise |
| SpecParser.ParseRecord | main.py:73-80 | a record written as `$`-joined fields, with any whitespace (such as the line end) around it, parses to fields 2, 3, 4 and 5 (or ""), and is skipped with fewer than five fields; only the first field may not start, and the last not end, with whitespace |
| SpecParser.ParseSdtmMetadata | main.py:67-83 | the parsing loop computes `ParsedTable` of the file's lines |
| Catalog.LoadAllMetadata | main.py:86-103 | the loading loop computes the catalog of the listing |
| Catalog.CatalogSound | main.py:87-101 | every catalog entry is a listed, visible `.csv`/`.xlsx` file whose table loaded and has a `variable` or `label` column |
| Catalog.CatalogComplete | main.py:87-101 | every such file, with the table it loads to, is in the catalog |
| Catalog.CatalogAppend | main.py:88-101 | the catalog keeps listing order |
| Catalog.LegacyIsSpecFile | main.py:87 | the legacy file passes the file selection |
| Catalog.SpecColumnsDescribe | main.py:100 | a table with the four specification columns passes the filter |
| Catalog.LegacyKept | main.py:92-93 | the legacy file is kept exactly when it reads and has a line of at least five fields, as the table of its rows under the four columns |
| Catalog.CatalogNamesDistinct | main.py:101 | a listing without repeated names gives a catalog without repeated names, as the dictionary holds |
| Matcher.CollectCandidates | main.py:108-112 | the candidates are the catalog entries with a column containing `variable`, in catalog order |
| Matcher.ScanNames | main.py:114-116 | rule 1's loop stops at the first candidate whose lowercased name contains the stem |
| Matcher.ScanDatasets | main.py:118-122 | rule 2's loop passes by candidates without a `dataset` column and those whose exact `Dataset` column has no value containing the stem; it stops at the first other candidate, failing when it lacks an exact `Dataset` column and matching otherwise |
| Matcher.ScanOverlaps | main.py:124-128 | rule 3's loop passes by candidates without a `Variable` column and, for a dataset with columns, those at or below 30% overlap; it stops at the first other candidate, failing when the dataset has no columns and matching otherwise |
| Matcher.FindMatchingMetadata | main.py:106-130 | the matching computes `Match`: rule 1, else rule 2, else rule 3, else none, with the two exceptions as errors |
| Matcher.MatchPrefersName | main.py:114-116 | when the first candidate whose name holds the stem is `specs[k]`, its whole table is returned |
| Matcher.MatchFromCandidate | main.py:108-130 | a returned table is a candidate's table, or the selection of a candidate's rows whose lowercased `Dataset` is the stem |
| Matcher.DatasetError | main.py:120-121 | rule 2 fails only with KeyError `Dataset`, on a candidate with a `dataset` column in another case |
| Matcher.OverlapError | main.py:126-127 | rule 3 fails only by dividing by zero, on a dataset without columns |
| Matcher.MatchErrors | main.py:118-128 | the matching fails only with those two exceptions, each on a candidate that causes it |
| Matcher.OnlyOverlapDecides | main.py:114-122 | when no name holds the stem and every candidate with a `dataset` column has an exact `Dataset` column with no value holding the stem, rule 3 alone decides |
| Matcher.OverlapOutcome | main.py:124-130 | rule 3 returns the first candidate in order with a `Variable` column naming more than 30% of the columns, and nothing exactly when no candidate does |
| Matcher.MatchByOverlap | main.py:114-130 | for the whole matching, given a dataset with columns, no name holding the stem and no `Dataset` value holding it (legacy tables included), the match is the first candidate in catalog order above 30% overlap, and none exactly when no candidate is |
| Matcher.DatasetDecides | main.py:118-122 | once rule 1 passes by every candidate, the first candidate rule 2 does not pass by, when it has a `Dataset` value holding the stem, gives the match as its selected rows |
| Matcher.MatchByDataset | main.py:114-122 | for the whole matching, with no name holding the stem, the first candidate with a `dataset` column that rule 2 does not pass by, when its `Dataset` values hold the stem, gives the match: its rows whose lowercased `Dataset` is the stem, whatever rule 3 would find |
| Matcher.ExactlyThirtyPercent | main.py:127 | an overlap of exactly 30% does not match |
| Matcher.NameOutweighsOrder | main.py:114-116 | of two candidates, the second is returned when only its name holds the stem |
| Matcher.DemoMatchesByName | main.py:114-116 | `demo.xpt` is matched to `demo_vars.csv` even when `other_vars.csv` comes first |
| Describer.SpecRowFor | main.py:135-138 | the row found is the first row whose `Variable` is the column; there is none exactly when the table is absent, has no `Variable` column or no row names the column |
| Describer.NativeDescription | main.py:141-151 | the description has a `Label`, `Type`, `Length` or `Format` entry exactly when that dictionary is present, holding the column's value there or "" |
| Describer.DescribeColumn | main.py:133-152 | the method computes `Describe`: the specification row, else the native description unless empty |
| Describer.SpecRowWins | main.py:135-138 | a specification row is returned whatever the native metadata |
| Describer.DescribeNone | main.py:141-152 | without a specification row, there is no description exactly when there is no native metadata or it has none of the four dictionaries |
| Scenarios.LegacyCatalog | main.py:86-103 | a directory with a data file and a one-record legacy file catalogs that record's table alone |
| Scenarios.SpecColumnsCandidate | main.py:110-111 | the specification columns make a table a candidate |
| Scenarios.OneRowFallsToOverlap | main.py:114-122 | rules 1 and 2 pass by such a one-row candidate |
| Scenarios.OneRowOverlaps | main.py:124-128 | rule 3 takes a one-row table for a dataset whose only column is its variable |
| Scenarios.OneRowMatchedByOverlap | main.py:106-130 | such a candidate is the match |
| Scenarios.OnlyRowDescribes | main.py:135-138 | the only row naming a column describes it |
| Scenarios.LegacyLineDescribesColumn | main.py:67-152 | beside a data file whose stem neither the legacy file name nor the record's `Dataset` value holds, a legacy record of variable `v` is cataloged, matched by rule 3 to a dataset whose only column is `v`, and describes `v` |
| Scenarios.OneRowTooNarrow | main.py:124-128 | rule 3 passes by a one-row table for a dataset of four or more columns |
| Scenarios.LegacyLineMissesWide | main.py:106-130 | under the same conditions, a dataset of four or more columns is matched to nothing, so the legacy record reaches only datasets of at most three columns |
| Scenarios.DemoLineParses | main.py:73-80 | `H$0$DM$USUBJID$Subject ID$Char` followed by a line end records `USUBJID` of `DM`, labelled `Subject ID`, of type `Char` |
| Scenarios.DemoScenario | main.py:67-152 | `demo.xpt` whose only column is `USUBJID`, beside that legacy line, gets `USUBJID` described with label `Subject ID` and type `Char` |
| Scenarios.DemoWideMisses | main.py:106-130 | `demo.xpt` with four or more columns, beside the same line, is matched to nothing (`DM` does not hold `demo`, and one column of four is below 30%) |

The literal facts the scenarios rest on are lemmas of their own:
`Matcher.DemoBaseName` (the stem of `demo.xpt` is `demo`),
`Matcher.DemoNameHit` and `Matcher.OtherNameMiss` (`demo_vars.csv` holds
`demo`, `other_vars.csv` does not), `Scenarios.DemoFileIsData`
(`demo.xpt` is not a specification file), `Scenarios.LegacyNameLacksDemo`
and `Scenarios.DatasetLacksDemo` (neither the legacy file name nor `DM`
holds `demo`). So are their one-step building blocks:
`Scenarios.SpecColumnsDataset` (the specification columns include
`Dataset` and `Variable`), `Scenarios.OneRowValues` (the `Variable`
values of a one-row table are its row's) and
`Scenarios.OneRowNoDatasetHit` (rule 2 finds nothing when the only
`Dataset` value lacks the stem).

## Left out

- The Streamlit page, sidebar, tabs and the tkinter folder dialog are
  user interface. `@st.cache_data` memoisation is left out too.
  `describe_column` names its metadata parameter `_meta`, which the
  cache does not hash, so a second data file with a column of the same
  name and the same matched table (or none) is shown the first file's
  native description; `Describer.Describe` depends on the metadata and
  does not capture this.
- `load_data_with_meta` is not part of this model. The dataset is given
  by its column names and its native metadata.
- File system and library reads are inputs of the model (`Sources`):
  `os.listdir`, `open`/`readlines`, `pd.read_csv`, `pd.read_excel` and
  `pyreadstat`. The listing is a sequence in the order given, and a read
  that raises is `None`.
- Matching uses literal substring search. `re.search` (main.py:115) and
  `str.contains` (main.py:121) treat the stem as a regular expression,
  so the model differs when the stem holds regex metacharacters, or is
  not a valid pattern and Python raises `re.error`.
- Text.Lower: models `str.lower` for the ASCII letters only. Every
  lowercasing inherits this: the `variable`/`label` column filter of the
  catalog, the candidate test, the stem, and rules 1 and 2. A Cyrillic
  file name, column name or `Dataset` value is therefore not lowercased
  as main.py:100, 107, 110, 115, 119 and 121 would lowercase it.
- Rule 3 compares integers: `10 * |common| > 3 * |columns|`. Floating
  point would differ from this only for datasets with more than about
  10^15 columns.
- pandas dtypes are not modelled. Every cell and column name is text, so
  `astype(str)`, NaN cells and non-text column headers (on which `.str`
  raises) are out of scope.
- Storage widths are text, where `pyreadstat` gives integers.
- `describe_column` tests `if _meta:` for presence; the model reads it
  as "not None". `hasattr` is the presence of an optional dictionary.
- The catalog dictionary is a sequence of entries in insertion order.
  They agree because a directory listing never repeats a name
  (`Catalog.CatalogNamesDistinct`).
- `os.path.splitext` is modelled with POSIX separators only.
