# Roster parser, modelled in Dafny

`roster-parser.py` turns a directory of team roster CSV files into three
things:

- one sqlite table `roster` holding every dancer of every team;
- per-team metrics: roster size, afterparty count, and shirt, pant, dietary
  and allergy distributions;
- a one-row-per-team metrics report.

This project models that pipeline on values and proves what it promises.
The model starts from the table `pd.read_csv` has parsed, with its label
row dropped. Each step of the source is a module:

- `Text`: the `str`/`os.path` operations the script relies on. These are
  `strip()`, ASCII `upper()`/`lower()`, `basename`, `splitext` and the
  string `<` used by `sorted`.
- `Tables`: a parsed table is a header plus rows. Each row maps a column to
  an optional cell, where `None` is pandas' NaN. The module also has the
  order-preserving `Filter` and its lemmas.
- `Cleaning`: `load_and_clean_data`. The specification function `Clean`
  gives the result. The method `LoadAndCleanData` is the source's loop,
  proved equal to it.
- `Metrics`: `calculate_team_metrics`, a pure function, with `value_counts`
  as `Counts`.
- `Store`: `create_database` and `insert_data`. The database is the
  sequence of statements it is sent.
- `Report`: `save_all_metrics_to_csv` up to the DataFrame. The methods
  flatten a team's metrics column by column and sort keys by insertion.
  They are proved equal to `FlatRow`, whose layout and ordering are proved
  as lemmas.
- `Pipeline`: `main()`. `RunPipeline` and its loop `ProcessFiles` are proved
  against folds over the cleaned tables. Lemmas state what the driver
  promises about the schema, the inserts, the metrics list and the report.

## Model

| member | source | states |
|---|---|---|
| Text.StripFacts | roster-parser.py:8 | a stripped label is empty exactly when the label is all whitespace, and otherwise neither starts nor ends with whitespace |
| Text.TrimStartFacts | roster-parser.py:8 | `lstrip` removes exactly a whitespace prefix and stops at the first non-space character |
| Text.TrimEndFacts | roster-parser.py:8 | `rstrip` removes exactly a whitespace suffix and stops at the last non-space character |
| Text.StripIdempotent | roster-parser.py:8 | stripping a stripped label changes nothing |
| Text.TrimStart | roster-parser.py:8 | `lstrip` never lengthens a label, and what it leaves does not start with whitespace (TrimStartFacts adds that only a whitespace prefix goes) |
| Text.TrimEnd | roster-parser.py:8 | `rstrip` never lengthens a label, and what it leaves does not end with whitespace (TrimEndFacts adds that only a whitespace suffix goes) |
| Text.Strip | roster-parser.py:34 | `strip()` never lengthens its text; StripFacts states when the result is empty and that it has no whitespace at either end |
| Text.Upper | roster-parser.py:36 | the upper-cased name has the same length, no lower-case ASCII letter, and lower-cases to the same text as the original |
| Text.Lower | roster-parser.py:77 | lower-casing keeps the length and leaves no upper-case ASCII letter; with LowerThenUpper this fixes every character |
| Text.LowerThenUpper | roster-parser.py:77 | upper-casing a lower-cased text gives the upper-cased text, so each ASCII letter becomes its lower-case form and every other character stays |
| Text.UpperIsNotNan | roster-parser.py:36-37 | no team name can be the text "nan" |
| Text.BaseName | roster-parser.py:36 | the base name is the suffix of the path after its last '/', holding no '/' |
| Text.LastIndexOf | roster-parser.py:36 | the index found holds the character, and no later index does; -1 when there is none |
| Text.SplitExtRoot | roster-parser.py:36 | the root is a prefix of the name, cut at the last '.', unless every character before that '.' is a dot |
| Text.TeamName | roster-parser.py:36 | the team name is no longer than the path and holds no lower-case ASCII letter; CleanRowsTagged puts it on every row |
| Text.StrLt | roster-parser.py:116 | Python's string `<`: lexicographic by code point, a proper prefix first; a string is never below itself, and the four lemmas below make it a strict total order |
| Text.StrLtIrreflexive | roster-parser.py:116 | no string sorts before itself |
| Text.StrLtTransitive | roster-parser.py:116 | the string order is transitive |
| Text.StrLtTotal | roster-parser.py:116 | two different strings are ordered one way or the other |
| Text.StrLtAsymmetric | roster-parser.py:116 | two strings are never ordered both ways |
| Tables.Filter | roster-parser.py:33-34 | the kept rows are no more than the input and all satisfy the condition |
| Tables.Str | roster-parser.py:77 | `str(cell)`, as `astype(str)` at line 77 and `str(k)` at lines 116-121 apply it: a present cell's text, and "nan" for a missing one |
| Tables.Coalesce | roster-parser.py:67 | `fillna('')` on one cell: a present cell's text, and "" for a missing one |
| Tables.FilterIsSubsequence | roster-parser.py:33-34 | filtering keeps rows in their order: the result is a subsequence of the input |
| Tables.FilterMembership | roster-parser.py:33-34 | an element is kept exactly when it occurs in the input and satisfies the condition |
| Tables.FilterMultiplicity | roster-parser.py:33-34 | a kept element occurs as often as in the input, and a dropped one not at all |
| Tables.FilterSnoc | roster-parser.py:147-153 | filtering a sequence with one more element appends that element exactly when it is kept |
| Tables.FilterNone | roster-parser.py:34 | when no element satisfies the condition, nothing is kept |
| Tables.FilterFilter | roster-parser.py:33-34 | filtering by one condition and then another is filtering by both |
| Cleaning.CanonicalColumns | roster-parser.py:9-25 | the fifteen canonical names, in the lookup table's order |
| Cleaning.RenameFrom | roster-parser.py:9-26 | the lookup table scanned from entry `i`: the value of the first key equal to the label, or the label itself; RenameFromFinds and RenameFromMisses state both cases |
| Cleaning.Rename | roster-parser.py:26 | the lookup of one label; RenameFromFinds and RenameFromMisses state that it yields the first matching key's canonical name, or the label itself when no key matches |
| Cleaning.NormaliseLabel | roster-parser.py:8-26 | strip, then look up; NormaliseRecognised and NormaliseUnrecognised state its result for every label |
| Cleaning.NormalisedHeader | roster-parser.py:8 | each label is normalised on its own, in place |
| Cleaning.NormaliseIgnoresPadding | roster-parser.py:8 | a label and its stripped text normalise alike |
| Cleaning.RenameFromFinds | roster-parser.py:26 | the lookup from entry `i` returns the value of the first key equal to the label |
| Cleaning.RenameFromMisses | roster-parser.py:26 | a label equal to no key is returned unchanged |
| Cleaning.NormaliseRecognised | roster-parser.py:8-26 | a label whose stripped text is the `i`-th key becomes exactly the `i`-th canonical name |
| Cleaning.NormaliseUnrecognised | roster-parser.py:8-26 | any other label keeps its stripped text |
| Cleaning.Relabel | roster-parser.py:26 | one row with each old label's cell moved to its new label; RelabelCells states its columns and cells |
| Cleaning.RenameRow | roster-parser.py:26 | one parsed row relabelled with its normalised header |
| Cleaning.RelabelCells | roster-parser.py:26 | a relabelled row has exactly the new labels as columns, each holding the cell of its old label |
| Cleaning.NormaliseColumns | roster-parser.py:8-26 | the header is normalised, and each row keeps its cells under the normalised labels |
| Cleaning.SetColumn | roster-parser.py:28-37 | `data[c] = v` writes `v` into every row, and appends `c` to the header only when it is new |
| Cleaning.MissingCells | roster-parser.py:28-30 | the "" cells `data[col] = ""` adds to a row, one for each canonical column the header lacks; MissingCellsStep states one turn of the loop |
| Cleaning.AddMissing | roster-parser.py:28-30 | the loop over the canonical columns keeps the table well formed and its number of rows; AddMissingSnoc, AddMissingHeader and AddMissingRows state what each turn adds |
| Cleaning.MissingCellsStep | roster-parser.py:28-30 | one more canonical column adds "" for it exactly when the table lacks it |
| Cleaning.AddMissingSnoc | roster-parser.py:28-30 | one more turn of the loop leaves the table as it is or adds a "" column |
| Cleaning.AddMissingHeader | roster-parser.py:28-30 | the loop keeps the existing header in front and adds exactly the missing canonical columns |
| Cleaning.AddMissingRows | roster-parser.py:28-30 | each row keeps its cells and gains "" exactly in the columns it lacked |
| Cleaning.HasNames | roster-parser.py:33 | a row passes `dropna(subset=[first_name, last_name])` exactly when both cells exist and are present |
| Cleaning.NotBlank | roster-parser.py:34 | a row passes the strip test on a column exactly when that cell is not present with blank text |
| Cleaning.NamesNotBlank | roster-parser.py:34 | the strip test on both the first-name and last-name cells |
| Cleaning.Keep | roster-parser.py:33-34 | the two filters together: both names present and non-blank after stripping; CleanOnlyRemovesRows shows the cleaning keeps exactly these rows |
| Cleaning.DropRows | roster-parser.py:33-34 | dropping rows keeps the header and the table well formed |
| Cleaning.Clean | roster-parser.py:8-37 | the value of `load_and_clean_data` is a well-formed table; CleanRows, CleanColumns and CleanAbsentColumnsEmpty state its rows, columns and cells |
| Cleaning.LoadAndCleanData | roster-parser.py:5-39 | the method's result is `Clean(path, raw)` |
| Cleaning.Widened | roster-parser.py:8-30 | one widened row per parsed row, in order |
| Cleaning.WidenRow | roster-parser.py:26-30 | one parsed row after renaming and the added columns: its cells under the normalised labels plus the added "" cells; WidenRowCells states them |
| Cleaning.CleanRows | roster-parser.py:33-37 | the cleaned rows are, in input order, the widened rows with both names present and non-blank, each with the team cell written |
| Cleaning.CleanRowsHaveNames | roster-parser.py:33-34 | every cleaned row has a first and a last name, present and non-empty after stripping |
| Cleaning.CleanRowsTagged | roster-parser.py:36-37 | every cleaned row's team is the file's base name without extension, upper-cased, so it is the same for all rows of a file |
| Cleaning.CleanOnlyRemovesRows | roster-parser.py:33-34 | rows are only removed, never reordered: the kept rows are a subsequence of the widened rows (renamed, with the missing columns filled), and a widened row is kept exactly when it has both names; CleanRows adds that each kept row then gets its team cell |
| Cleaning.WidenRowCells | roster-parser.py:26-30 | a widened row keeps every parsed cell under its normalised label and holds "" in each added canonical column |
| Cleaning.CleanColumns | roster-parser.py:8-37 | the cleaned header starts with the normalised input labels, in order; it holds every canonical column and `team`, and nothing else |
| Cleaning.CleanColumnsPrefix | roster-parser.py:8-30 | the cleaned header starts with the normalised input labels |
| Cleaning.CleanColumnsMembers | roster-parser.py:8-37 | the cleaned header holds exactly the normalised labels, the canonical columns and `team` |
| Cleaning.WidenedColumns | roster-parser.py:8-30 | the header after the loop is the normalised labels followed by the missing canonical columns |
| Cleaning.CleanHeader | roster-parser.py:33-37 | dropping rows leaves the header, and writing the team appends `team` when it is new |
| Cleaning.TeamIsNotCanonical | roster-parser.py:9-25 | `team` is not one of the canonical columns |
| Cleaning.WidenedAbsentColumn | roster-parser.py:28-30 | a widened row holds "" in a canonical column the file lacks |
| Cleaning.CleanAbsentColumnsEmpty | roster-parser.py:28-30 | a canonical column the file lacks holds "" in every cleaned row |
| Cleaning.NoFirstNameColumnNoRows | roster-parser.py:28-34 | a file without a first-name header keeps no row, since its first names are all the added "" |
| Cleaning.WidenRowOrigin | roster-parser.py:26-30 | each cell of a widened row is "" or a cell of the parsed row |
| Cleaning.WidenedCellOrigin | roster-parser.py:26-30 | each cell of a widened row is "" or a cell of some parsed row |
| Cleaning.CleanCellOrigin | roster-parser.py:5-39 | cleaning invents no value: every cell is a parsed cell, the "" of an added column, or the team name |
| Metrics.Column | roster-parser.py:75-82 | `data[c]` has one cell per row, the row's cell in order |
| Metrics.Get | roster-parser.py:110 | `d.get(k, 0)`, as at lines 77, 110 and 113: the count of `k`, or 0 when it is not a key |
| Metrics.IsEmpty | roster-parser.py:72 | `data.empty`: the table has no rows or no columns |
| Metrics.LowerTexts | roster-parser.py:77 | `astype(str).str.lower()` on a column: one lower-cased text per cell, in order; YesCount relates it to the cells that read "yes" |
| Metrics.Counts | roster-parser.py:77-82 | `value_counts()` has exactly the values that occur as keys, each mapped to its number of occurrences, at least 1 |
| Metrics.YesCount | roster-parser.py:77 | the count of "yes" among the lower-cased texts is the number of cells reading "yes" in any case |
| Metrics.ApCount | roster-parser.py:77 | the afterparty count is the number of cells that read "yes" in any case, at most the number of cells |
| Metrics.IsYes | roster-parser.py:77 | a cell counts for the afterparty when its text, lower-cased, is "yes" |
| Metrics.IsYesSpec | roster-parser.py:77 | independently of the case mapping: a cell counts exactly when it is a present three-letter text spelling y, e, s, each in either case; a missing cell never counts |
| Metrics.ColumnCounts | roster-parser.py:79-82 | every count in a distribution is at least 1, a `dropna` distribution has no missing-value key, and a table without the column gives no keys |
| Metrics.CalculateTeamMetrics | roster-parser.py:71-93 | the result is empty exactly when the table is; otherwise the team is row 0's team, the total roster is the row count, and the afterparty count is the number of "yes" cells, between 0 and the roster |
| Metrics.MetricsDistributions | roster-parser.py:79-82 | on a team's metrics: every count in the four distributions is at least 1; over distinct keys the shirt and pant counts sum to at most the roster size; over keys that cover it, a dietary or allergy distribution of a table with that column sums to exactly the roster size |
| Metrics.PresentCounts | roster-parser.py:79-80 | a distribution that skips missing cells has counts of at least 1, summing to at most the number of rows |
| Metrics.AllCounts | roster-parser.py:81-82 | a distribution that counts missing cells has counts of at least 1, summing to the number of rows over keys that cover it |
| Metrics.SumCountsIsOccurrences | roster-parser.py:79-82 | summing a distribution over keys counts the occurrences of those keys |
| Metrics.OccurrencesSnoc | roster-parser.py:79-82 | one more element adds its multiplicity among the keys |
| Metrics.DistinctMultiplicity | roster-parser.py:79-82 | a distinct key list lists each key once |
| Metrics.OccurrencesBound | roster-parser.py:79-82 | over distinct keys each value is counted at most once, and exactly once when every value is a key |
| Metrics.CountsSumToRoster | roster-parser.py:81-82 | the dietary and allergy distributions count missing cells too, so their counts add up to the roster size |
| Metrics.PresentCountsBound | roster-parser.py:79-80 | the shirt and pant distributions skip missing cells, so they add up to at most the roster size, and to the number of present cells over all keys |
| Metrics.ColumnCountsKeys | roster-parser.py:79-82 | a distribution's keys are the column's values, with missing ones only under `dropna=False`, each counted at least once |
| Metrics.CountedColumnHasKeys | roster-parser.py:81-82 | a `dropna=False` distribution of a table with a row has a key |
| Store.NonKeyColumns | roster-parser.py:51 | the non-key columns are the columns other than `id` |
| Store.CreateDatabase | roster-parser.py:42-55 | the table is created with exactly the given columns other than `id` |
| Store.RowValuesAligned | roster-parser.py:67 | the `i`-th value is the cell of the `i`-th non-key column, with missing cells as "" |
| Store.RowValues | roster-parser.py:67 | `tuple(row.drop('id').fillna(''))` has at most one value per column; RowValuesAligned lines them up with the non-key columns |
| Store.InsertStatement | roster-parser.py:62-67 | one insert names every column except `id`, and gives each its row's cell, with a missing one as "" |
| Store.InsertStatements | roster-parser.py:61-67 | one insert per row |
| Store.InsertStatementsAt | roster-parser.py:61-67 | the `k`-th insert is that of the `k`-th row |
| Store.InsertData | roster-parser.py:58-68 | the method sends one insert per row, in row order, each for its row |
| Report.StrInjective | roster-parser.py:116-121 | keys that do not clash have different texts |
| Report.MinExists | roster-parser.py:116 | a non-empty set of keys has a least key by text |
| Report.SortedKeysSpec | roster-parser.py:116-120 | `sorted(keys, key=str)` holds exactly the keys, in strictly ascending order of their text |
| Report.SortedKeys | roster-parser.py:116 | `sorted(keys, key=str)`, the least key by text first; SortedKeysSpec and SortedUnique state that it is the one strictly ascending listing of the keys |
| Report.MinKey | roster-parser.py:116 | the key `sorted` puts first: a key of the set whose text is below every other key's |
| Report.SortedUnique | roster-parser.py:116 | two strictly sorted sequences with the same elements are equal |
| Report.TailMember | roster-parser.py:116 | an element of a strictly sorted sequence other than its head is in its tail |
| Report.InsertByText | roster-parser.py:116 | insertion adds exactly the one key |
| Report.InsertByTextSorted | roster-parser.py:116 | insertion into a sorted sequence keeps it strictly sorted |
| Report.SortByText | roster-parser.py:116-120 | the insertion sort yields the keys in ascending order of text |
| Report.SizeColumns | roster-parser.py:109-113 | one column per listed size, in list order, holding the count or 0 |
| Report.KeyColumns | roster-parser.py:116-121 | one column per key, in the given order, labelled with its text and holding its count |
| Report.FixedColumns | roster-parser.py:103-113 | the team, its two totals, then the shirt and the pant columns; FlatRowFixed states each position |
| Report.FlatRowOf | roster-parser.py:103-121 | a team's row with its dietary and allergy keys in given orders; FlatRowLayout states every position |
| Report.AddSizeColumns | roster-parser.py:109-113 | the loop appends the size columns |
| Report.AddKeyColumns | roster-parser.py:115-121 | the loop appends a column per key, in ascending order of text |
| Report.AppendKeyColumns | roster-parser.py:116-121 | the loop body over keys already in order appends one column per key, in that order |
| Report.FlattenTeamMetrics | roster-parser.py:103-121 | the row built column by column is `FlatRow(m)` |
| Report.FlatRow | roster-parser.py:103-121 | one team's `flat_metrics`; FlatRowFixed and FlatRowSorted state its columns and their order |
| Report.FlatRows | roster-parser.py:102-123 | `flattened_metrics`: one FlatRow per metrics entry, in order |
| Report.FlattenAllMetrics | roster-parser.py:100-123 | one flattened row per metrics entry, in input order |
| Report.FlatRowLayout | roster-parser.py:103-121 | where each column sits: team and totals, the five shirt sizes, the six pant sizes, then the dietary keys and the allergy keys in their orders |
| Report.FlatRowFixed | roster-parser.py:97-113 | a report row starts with Team, Total Roster Count and Total Afterparty Count, then `T-Shirt Size - X` for XS,S,M,L,XL and `Pant Size - X` for N,XS,S,M,L,XL, each the count or 0; its length is 14 plus the number of dietary and allergy keys |
| Report.SortedKeysLength | roster-parser.py:116 | sorting keeps the number of keys |
| Report.FlatRowSorted | roster-parser.py:115-121 | for `dk` and `ak` the sorted dietary and allergy keys: they hold exactly the distributions' keys, in strictly ascending order of text; after the 14 fixed columns come `Dietary - k` for each `k` of `dk` in order with its count, then `Dancer Allergy - k` for each `k` of `ak` likewise |
| Report.FlatRowOfKeys | roster-parser.py:115-121 | for any key orders listing exactly the team's keys, each once in ascending order of text, the row built with them has one column per key, in that order, holding its count |
| Report.UnlistedSizesIgnored | roster-parser.py:109-113 | sizes outside the two lists, "" included, never get a column |
| Pipeline.CleanHasMetricColumns | roster-parser.py:75-77 | a cleaned table has the team and afterparty columns the metrics read |
| Pipeline.CleanNoNanText | roster-parser.py:28-37 | cleaning adds no "nan" text |
| Pipeline.CleanIsGood | roster-parser.py:5-39 | a cleaned table has the metric columns, no "nan" text, and present, non-blank names in every row |
| Pipeline.CleanAll | roster-parser.py:147-148 | one cleaned table per file, in order |
| Pipeline.CleanFile | roster-parser.py:148 | `load_and_clean_data(file_path)` on one listed file |
| Pipeline.TeamFlattenable | roster-parser.py:116-121 | a team's dietary and allergy keys can be told apart by their text |
| Pipeline.Teams | roster-parser.py:151-153 | the tables with rows are cleaned tables too |
| Pipeline.HasRows | roster-parser.py:152 | `if metrics:` holds for a cleaned table exactly when it has a row, since a cleaned table always has columns |
| Pipeline.TeamsMetrics | roster-parser.py:140-153 | one metrics entry per table with a row |
| Pipeline.TeamsFlattenable | roster-parser.py:116-121 | every team's metrics can be flattened |
| Pipeline.Schema | roster-parser.py:143-145 | the one CREATE statement for the first file, or none without files; SchemaFirst states its columns |
| Pipeline.Inserts | roster-parser.py:147-150 | every file's inserts, file after file; InsertsSnoc, InsertedNamesNotBlank and InsertNames state what they carry |
| Pipeline.TeamReport | roster-parser.py:151-159 | the report rows of the files with rows, or no report; ReportIffSomeTeam and ReportRowHead state when and what |
| Pipeline.InsertsSnoc | roster-parser.py:147-150 | a file's inserts follow those of the files before it |
| Pipeline.TeamsMetricsSnoc | roster-parser.py:151-153 | a file's metrics are appended exactly when its table has a row |
| Pipeline.ProcessFiles | roster-parser.py:147-153 | the loop sends every file's inserts in file order, and keeps the metrics of the files with rows, in order |
| Pipeline.RunPipeline | roster-parser.py:129-161 | `main()` creates the schema from the first file, then sends the inserts, and reports exactly `TeamReport` |
| Pipeline.ReportIffSomeTeam | roster-parser.py:155-159 | a report is produced exactly when some file keeps a row |
| Pipeline.ReportRowHead | roster-parser.py:151-156 | the `i`-th report row flattens the `i`-th team with rows: it names that table's team and gives its row count and "yes" count |
| Pipeline.CleanAllTagged | roster-parser.py:36-37 | every cleaned table's rows carry their own file's team name |
| Pipeline.SchemaFirst | roster-parser.py:143-145 | the first statement creates the table from the first file's columns without `id`, in their order |
| Pipeline.InsertedNamesNotBlank | roster-parser.py:61-67 | every inserted tuple has a non-blank first and last name |
| Pipeline.InsertNames | roster-parser.py:61-67 | the `k`-th insert of a cleaned table carries its row's non-blank names |

## Left out

- Reading the CSV (`pd.read_csv(..., skiprows=1)` and `drop(index=0)`, lines 6-7) is not modelled. The model starts from the parsed table, and every cell is a string or missing (no dtype inference).
- Writing the report (`pd.DataFrame(...).to_csv`, lines 125-126) is not modelled. The model stops at the list of flattened rows, each an ordered list of (label, value) pairs. Filling holes between rows with different columns is part of the DataFrame step and is left out with it.
- sqlite is not modelled: connecting, `commit`, `close`, and building the query strings. The database is the list of statements sent. Errors sqlite would raise, such as a later file with a column the first file's table lacks, are not modelled.
- `main()`'s paths and `os.listdir` (lines 130-135) are not modelled, and neither are the two `print` messages. The files arrive as a sequence of (path, table) pairs in listing order.
- Text.Upper and Text.Lower map ASCII letters only. Python's case mapping of other scripts ('é' to 'É', 'ß' to "SS") is not modelled.
- Parsed: the cleaning requires labels that are still distinct after stripping and renaming. pandas would allow duplicate column labels, which the model's row-as-map cannot hold.
- Pipeline.ValidFile asks that no parsed cell be the text "nan". `read_csv` reads "nan" as missing, so such a cell does not reach the code. The requirement also lets the report tell a missing dietary key apart from the text "nan" (`str` prints both as "nan").
- Metrics.CalculateTeamMetrics requires the `team` and `afterparty` columns on a non-empty table, where the source would raise `KeyError`. Cleaned tables always have both.
- Headers that match no key of the lookup table are kept, stripped, in the cleaned table. That is what the code does, not a removal.
- Metrics.Counts: pandas orders `value_counts()` by count. The model's distributions are unordered maps, since the report re-sorts the keys by text anyway.
