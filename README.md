# clean_surveys.py in Dafny

`clean_surveys.py` culls old survey results from a CDC Chronic Disease
Indicators CSV file. Its `main` runs four stages. Each stage reads a file and
writes the next one.

1. `most_recent_years` maps every question (column 6) to the greatest year
   (column 1) seen for it. Years compare as Python strings.
2. `clean_file` copies the header. It then keeps the lines whose year is the
   year the map holds for their question.
3. `append_year_to_different_column` copies the header. It then rewrites
   every data line so that its question field reads `question (year)`.
4. `filter_csv` copies the header. It then keeps the lines whose category
   (column 17) is in an accepted list. `main` asks for `["Overall"]`,
   ignoring case.

The model works on files as the sequence of lines `readlines()` returns. Each
line keeps its `"\n"`.

- **Stage methods.** Each stage is a method whose loop follows the source
  loop. Each method is proved equal to a specification function:
  `RecentYears`, `CleanedLines`, `AugmentedLines`, `FilteredLines`.
- **Properties.** Lemmas state what those functions mean:
  - the most-recent-year map;
  - a selection of lines that keeps their order;
  - the split/join round trip;
  - the augmented line and its inverse.
- **Pipeline.** `main` is `Run`. Between stages, the written lines pass
  through `Reread`: they are concatenated into a file and read back with
  `readlines()`. `PipelineKeepsOnlyHeader` proves what `main` produces as
  written. `CorrectedPipelineResult` proves what it produces once both
  findings below are corrected.

Modules:

- `Text` (text.dfy) holds:
  - `split(",")` and the comma-join;
  - Python's string order, with `max`;
  - Python 2 `str.lower()`.
- `Seqs` (seqs.dfy) holds the order-preserving filter and its index-level
  characterisation.
- `Files` (files.dfy) holds writing a file and reading it back with
  `readlines()`.
- `CleanSurveys` (surveys.dfy) holds the four stages, `main`, and the
  findings.

In two places the code does not do what its own docstrings promise. The model
follows the code.

- **The header in `most_recent_years`.** The `header` parameter is documented
  as "True if there is a header line" (line 22), so that line should be
  skipped. Line 26 names `f.readline` but never calls it, so the header line
  is folded into the map like a data line.
- **The case-insensitive filter.** `filter_csv` is documented to copy a line
  exactly when its field is in the accepted list (lines 103-104). Its
  `case_sensitive` flag only chooses how the match is made (line 112). In
  the case-insensitive branch, line 131 compares the bound method `lower`
  with strings, so no data line is kept. That comparison is modelled by the
  `Value` datatype, where a method value never equals a string value.

## Model

| member | source | states |
|---|---|---|
| `Text.JoinOfSplit` | clean_surveys.py:88-94 | comma-joining the fields of `line.split(",")` gives back the line |
| `Text.SplitOfJoin` | clean_surveys.py:88-94 | splitting the comma-join of comma-free fields gives back those fields |
| `Text.SplitFieldsCommaFree` | clean_surveys.py:31 | no field returned by `split(",")` contains a comma |
| `Text.JoinOmits` | clean_surveys.py:90-94 | a character other than a comma occurs in a comma-join exactly when it occurs in some field |
| `Text.LexMax` | clean_surveys.py:34 | `max` of two strings is one of them and is not less than either |
| `Text.LexTotal` | clean_surveys.py:34 | two different strings are ordered one way or the other |
| `Text.LexTransitive` | clean_surveys.py:34 | Python's string order is transitive |
| `Text.LexIrreflexive` | clean_surveys.py:34 | no string is less than itself |
| `Text.LexAtLeastTransitive` | clean_surveys.py:34 | a running maximum stays at least every year it has absorbed |
| `Text.LowerEqualIffIgnoringCase` | clean_surveys.py:128 | two strings lower-case to the same string exactly when they are equal up to the case of ASCII letters |
| `Text.LowerInLowerAll` | clean_surveys.py:128 | a lowered string is in the lowered accepted list exactly when it equals some accepted string up to case |
| `Seqs.FilterIsSelection` | clean_surveys.py:59-62 | a filtered copy is the subsequence at increasing positions, holding a position exactly when its line passes the test |
| `Seqs.FilterMembers` | clean_surveys.py:59-62 | a line is kept exactly when it is an input line that passes the test |
| `Seqs.FilterIdempotent` | clean_surveys.py:123-126 | filtering twice with the same test equals filtering once |
| `Seqs.FilterFilter` | clean_surveys.py:59-62 | filtering by one test and then by another equals one filter by both tests |
| `Files.RereadLines` | clean_surveys.py:151-155 | a file written as a sequence of `readlines()`-shaped lines reads back as those lines |
| `Files.RereadKeepsFirst` | clean_surveys.py:56-57 | a proper first line that ends in "\n", or is the last thing written, reads back first, followed by what the rest reads back as |
| `Files.ConcatOfReadLines` | clean_surveys.py:57-62 | writing back every line `readlines()` returned reproduces the file |
| `Files.ReadLinesAreLines` | clean_surveys.py:59 | `readlines()` returns lines that each end in "\n", except possibly the last |
| `Files.LineSeqFilter` | clean_surveys.py:59-62 | copying some lines in order leaves a well-formed file |
| `Text.Split` | clean_surveys.py:31 | `line.split(",")`, also used at lines 60, 88, 124 and 130: the pieces between commas, in order, never an empty list |
| `Text.Join` | clean_surveys.py:90-94 | the comma-join of a list of fields |
| `Text.LexLess` | clean_surveys.py:34 | Python's `<` on strings, by character code, that `max` uses |
| `Text.Lower` | clean_surveys.py:128 | Python 2 `str.lower()`, changing ASCII letters only |
| `Text.LowerAll` | clean_surveys.py:128 | the list of lower-cased accepted strings |
| `Files.Concat` | clean_surveys.py:57-62 | the text of a file after writing these strings in order |
| `Files.ReadLines` | clean_surveys.py:59 | `readlines()`: the text cut after every newline, each line keeping its "\n" |
| `Files.Reread` | clean_surveys.py:151-155 | a file written with these strings, then read back with `readlines()` |
| `Seqs.Filter` | clean_surveys.py:59-62 | the copy-if loops of lines 59-62, 123-126 and 129-132: the lines that pass the test, unchanged and in order |
| `CleanSurveys.HeaderOf` | clean_surveys.py:56-57 | what `write(readline())` copies when `header` is set (also at lines 84-85 and 119-120): the first line, or nothing for an empty file |
| `CleanSurveys.Body` | clean_surveys.py:59 | what the following `readlines()` returns (also at lines 87 and 123): the lines after the header |
| `CleanSurveys.HasField` | clean_surveys.py:32-33 | `parts[col]` exists, so it raises no `IndexError` (also at lines 60-61, 89, 125 and 131) |
| `CleanSurveys.Field` | clean_surveys.py:32-33 | `parts[col]`, the field at a column of a split line (also at lines 60-61, 89, 125 and 131) |
| `CleanSurveys.Strs` | clean_surveys.py:128-131 | the lowered accepted list as the Python string values (`Value.Str`) that line 131 compares against |
| `CleanSurveys.FoldedIn` | clean_surveys.py:131 | the corrected test of line 131: the lower-cased field is in the lowered accepted list |
| `CleanSurveys.CorrectedPipelineDefined` | clean_surveys.py:149-155 | no stage of the corrected `main` raises an index error |
| `CleanSurveys.CorrectedPipeline` | clean_surveys.py:149-155 | what `main` writes with the header skipped at line 26 and the field lower-cased at line 131 |
| `CleanSurveys.NoteYear` | clean_surveys.py:34 | `yrs[q] = max(yrs[q], y)`, an absent key taking y |
| `CleanSurveys.RecentYears` | clean_surveys.py:28-34 | the map once the loop has seen every line |
| `CleanSurveys.MatchesEntry` | clean_surveys.py:61 | the question is a key of the map holding the line's year |
| `CleanSurveys.CleanedLines` | clean_surveys.py:56-62 | what clean_file writes |
| `CleanSurveys.WithYear` | clean_surveys.py:89 | the question field with " (year)" appended |
| `CleanSurveys.AugmentedLine` | clean_surveys.py:88-94 | the line written for one data line |
| `CleanSurveys.AugmentAll` | clean_surveys.py:87-96 | the augmented data lines, in order |
| `CleanSurveys.AugmentedLines` | clean_surveys.py:84-96 | what append_year_to_different_column writes |
| `CleanSurveys.FieldIn` | clean_surveys.py:125 | the field is in the accepted list |
| `CleanSurveys.LowerMethodIn` | clean_surveys.py:131 | the field's bound method `lower` is among the values |
| `CleanSurveys.FilterTest` | clean_surveys.py:122-132 | line 125's test when matching is case-sensitive, otherwise line 131's |
| `CleanSurveys.FilteredLines` | clean_surveys.py:119-132 | what filter_csv writes |
| `CleanSurveys.PipelineDefined` | clean_surveys.py:149-155 | no stage of `main` raises an index error |
| `CleanSurveys.Pipeline` | clean_surveys.py:149-155 | what `main` writes, with every temporary file read back |
| `CleanSurveys.RecentOverallInOnePass` | clean_surveys.py:151-155 | the greatest-year filter followed by the corrected category filter selects, in one pass, the lines passing both |
| `CleanSurveys.MostRecentYears` | clean_surveys.py:13-38 | the loop builds the map of every question of every line, the header included, to the greatest year among the lines of that question, and holds no other key |
| `CleanSurveys.RecentYearsIsMostRecent` | clean_surveys.py:28-34 | the folded map holds every question, at least as great as each of its years, each value attained by a line of that question, and no other key |
| `CleanSurveys.MostRecentUnique` | clean_surveys.py:14-16 | the most-recent-year map of a file is unique |
| `CleanSurveys.HeaderIsFoldedIn` | clean_surveys.py:25-26 | the header's question text is a key of the map, at least as great as the header's year text |
| `CleanSurveys.MostRecentDataYears` | clean_surveys.py:25-26 | with the header skipped, the map is the most-recent-year map of the data lines alone |
| `CleanSurveys.CleanFile` | clean_surveys.py:40-65 | the output is the header when requested, then exactly the data lines whose question is a key mapping to their year, unchanged and in order |
| `CleanSurveys.MatchesIsGreatestOn` | clean_surveys.py:59-62 | filtering lines of a file against the file's own map keeps exactly those carrying their question's greatest year |
| `CleanSurveys.SemiJoinKeepsGreatest` | clean_surveys.py:149-151 | cleaning a file against its own map keeps exactly the data lines that carry the greatest year of their question |
| `CleanSurveys.CleanKeepsGreatestPerQuestion` | clean_surveys.py:149-151 | every kept line carries its question's greatest year, and every data line that attains its question's entry is kept |
| `CleanSurveys.JoinFields` | clean_surveys.py:90-94 | appending each part and a comma, then dropping the last character, yields the comma-join of the parts |
| `CleanSurveys.AppendYearToDifferentColumn` | clean_surveys.py:67-99 | the output is the header, then one augmented line per data line, in order |
| `CleanSurveys.AugmentAllPointwise` | clean_surveys.py:87-96 | the i-th output line is the i-th data line augmented |
| `CleanSurveys.AugmentedLinesShape` | clean_surveys.py:84-96 | the header is copied verbatim, with as many data lines out as in, each the augmented input line |
| `CleanSurveys.AugmentedLineFields` | clean_surveys.py:88-94 | an augmented line re-splits into the same number of fields; each field other than the question is unchanged, and the question field becomes original + " (" + year + ")" |
| `CleanSurveys.AugmentedLineInverse` | clean_surveys.py:89 | when the year and question columns differ, removing the " (year)" suffix yields the original line again |
| `CleanSurveys.AugmentedLineInjective` | clean_surveys.py:89 | different input lines give different augmented lines |
| `CleanSurveys.AugmentedLineLastField` | clean_surveys.py:88-94 | when a field follows both columns, the line and its augmented line end in the same comma and last field |
| `CleanSurveys.AugmentedLineKeepsLineEnd` | clean_surveys.py:88-96 | when neither the year nor the question is the last field, an augmented line ends in "\n" exactly when its input did, and has no other newline when its input had none |
| `CleanSurveys.KeepAccepted` | clean_surveys.py:123-126 | the case-sensitive loop keeps exactly the lines whose field is in the accepted list |
| `CleanSurveys.KeepLowerMethodMatches` | clean_surveys.py:129-132 | the case-insensitive loop keeps the lines whose `lower` method is among the values; against a list of strings it keeps none |
| `CleanSurveys.FilterCsv` | clean_surveys.py:101-135 | the output is the header when requested, then the data lines passing the mode's test, in order; ignoring case, it is the header alone |
| `CleanSurveys.NoMethodAmongStrings` | clean_surveys.py:131 | a bound method never equals any element of a list of strings |
| `CleanSurveys.FilteredLinesIdempotent` | clean_surveys.py:101-132 | running the filter on its own output changes nothing |
| `CleanSurveys.KeepFolded` | clean_surveys.py:129-132 | the corrected loop keeps exactly the lines whose lower-cased field is in the lowered list |
| `CleanSurveys.FilterCsvIgnoringCase` | clean_surveys.py:127-132 | the corrected filter outputs the header, then the data lines whose lower-cased field is in the lowered list |
| `CleanSurveys.FoldedInIgnoresCase` | clean_surveys.py:127-132 | the corrected test passes exactly when the field equals some accepted string up to case |
| `CleanSurveys.KeptHaveField` | clean_surveys.py:59-62 | lines kept by a filter carry every field that all input lines carry |
| `CleanSurveys.HeaderAndKeptAreLines` | clean_surveys.py:56-62 | a header followed by kept data lines is a well-formed file |
| `CleanSurveys.AugmentAllAreLines` | clean_surveys.py:87-96 | augmented data lines form a well-formed file when neither the year nor the question is the last field |
| `CleanSurveys.AugmentedLinesAreLines` | clean_surveys.py:84-96 | the header followed by the augmented data lines is a well-formed file when neither the year nor the question is the last field |
| `CleanSurveys.AugmentAllHasField` | clean_surveys.py:88-94 | augmentation keeps every field a line has |
| `CleanSurveys.FilterAugmentCommute` | clean_surveys.py:153-155 | the corrected case-insensitive category test (`FoldedIn`) on a column other than the question column commutes with augmentation |
| `CleanSurveys.Run` | clean_surveys.py:149-155 | `main`'s four stages, with every temporary file read back, compute `Pipeline` |
| `CleanSurveys.SurveyFileHasFields` | clean_surveys.py:149 | on a survey file, every line has the year and question columns |
| `CleanSurveys.SurveyFileRunsMain` | clean_surveys.py:149-155 | on a well-formed survey file, no stage of `main` raises an index error |
| `CleanSurveys.PipelineKeepsOnlyHeader` | clean_surveys.py:149-155 | whenever `main` runs without an index error on lines `readlines()` can return, it writes only the header line |
| `CleanSurveys.MatchesRecentIsGreatest` | clean_surveys.py:149-151 | cleaning data lines against their own map keeps those with the greatest year of their question |
| `CleanSurveys.CorrectedStageOne` | clean_surveys.py:149-151 | for any file of proper lines whose data lines reach the category column, whatever its header, the corrected first temporary file reads back as the header and the data lines carrying their question's greatest year |
| `CleanSurveys.AugmentedReread` | clean_surveys.py:153 | the second temporary file reads back as the header and the augmented lines |
| `CleanSurveys.CorrectedPipelineResult` | clean_surveys.py:149-155 | for any file of proper lines whose data lines reach the category column, whatever its header, the corrected `main` runs without an index error and writes the header, then each data line that carries its question's greatest year and whose category is "Overall" up to case, augmented with its year, in input order |
| `CleanSurveys.HeaderKeyIsExtra` | clean_surveys.py:24-26 | when the header's question text is not a data question, the map is not the most-recent-year map of the data lines |
| `CleanSurveys.TwoLineHeaderFold` | clean_surveys.py:24-34 | for a header and a data line with different questions, the header's question becomes a key that no data line asks |
| `CleanSurveys.HeaderFoldExample` | clean_surveys.py:149 | on a concrete two-line file, "Question" becomes a key of the map although no data line asks it |
| `CleanSurveys.IgnoringCaseDropsOverall` | clean_surveys.py:155 | a data line whose category is exactly "Overall" is dropped as written and kept by the corrected filter |

## Left out

- Argument handling and the usage message (lines 138-144) are left out. They are command-line plumbing.
- `open`, `close`, the temporary file names and `os.remove` (lines 146-158) are left out. Each file is a sequence of lines, and writing then reading a file is `Reread`. Errors from the file system are not modelled.
- Reading a missing key at line 61 inserts a `0` entry into the defaultdict. The model does not insert it. A later line with the same question reads `0` again, exactly as it would have without the insertion, so no result changes. In `main` the map is built from the same file, so no missing key is read at all.
- `defaultdict(int)` starts every entry at the integer `0`. Python 2 orders that `0` below every string, so at line 34 a question's first year replaces it; the model treats such an entry as absent. Line 61 compares the default `0` with a string whenever clean_file meets a question that is not in the map. That comparison is never true, and `MatchesEntry` treats the absent key as not kept. Python 2's cross-type ordering itself is not modelled.
- Python 2 `str` is a byte string. Characters model bytes. `lower()` changes only the ASCII letters, as in the C locale.
- MostRecentYears, CleanFile, AppendYearToDifferentColumn, FilterCsv: each requires every line it splits to have the columns it reads. Where the source would raise `IndexError`, the model has a precondition instead of an error path.
- Run: requires `PipelineDefined`, which says that no stage of `main` raises `IndexError`. `SurveyFileRunsMain` proves that every survey file meets it.
- When the question is the last field, the year is appended after the line's "\n". When the year is the last field, its "\n" is carried into the question field, as in "Q (2016\n)". The model computes both cases exactly as the code does. The lemmas about line ends require a field after both columns.
- Lexicographic year order makes "9" greater than "10". This is the code's behaviour and is modelled as such.

## Findings

| source | as written | input that shows it | evidently intended | confidence | as-written member | corrected member |
|---|---|---|---|---|---|---|
| clean_surveys.py:26 | `f.readline` is named but not called, so the header line is folded into the map | a header whose question column reads "Question" and a data line whose question is "Obesity": "Question" becomes a key | the header is skipped when `header` is set, so the map covers the data lines only | high, not executed | `CleanSurveys.HeaderFoldExample` | `CleanSurveys.MostRecentDataYears` |
| clean_surveys.py:131 | `parts[col].lower` is a bound method, compared with strings, so the case-insensitive filter keeps no data line | a data line whose category is "Overall", filtered with `["Overall"]` ignoring case, is dropped | the field is lower-cased before the membership test | high, not executed | `CleanSurveys.IgnoringCaseDropsOverall` | `CleanSurveys.FilterCsvIgnoringCase` |
