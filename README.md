# Animal shelter intake/outcome pairing, modelled in Dafny

The Austin Animal Center publishes two tables: one row for each time an animal comes in (an
*intake*), and one row for each time an animal leaves (an *outcome*). The pipeline has two
stages:

- `clean_dataset` (src/clean_raw_data.py) cleans each raw table.
- `create_paired_records` (src/transform_data.py) pairs every intake of an animal with the outcome
  that ends that stay. It produces one record per stay.

This project models both stages and proves what they guarantee.

**Pairing** (modules `Sorting`, `Ranking`, `Selection`, `Pairing`, `PairingTimeline`,
`PairingJoin`, `PairingScenarios`):

- The intakes and outcomes are appended into one timeline and sorted stably by
  (animal-id, datetime).
- Each event gets a per-animal `record-number`. This is pandas' `rank(method='first')`, modelled
  as one plus the number of events of the same animal that come first.
- An outcome with an outcome type and record-number 1 has no earlier intake. These *orphan*
  outcomes are dropped by their index label.
- The intakes and the surviving outcomes are each sorted and numbered per animal.
- A left merge on (animal-id, number) joins the two tables. The helper columns are dropped and
  the 14 published columns are selected.

`CreatePairedRecords` does these steps in sequence. It sorts an array in place, computes ranks
with counting loops, and gathers and drops labels with loops. Its contract equals the reference
function `PairedRecords`, and the lemmas state what that function guarantees:

- one record per intake, sorted by (animal-id, intake-date);
- pairing by position: the k-th intake of an animal goes with its k-th surviving outcome;
- pairs never cross;
- no outcome is used twice;
- excess outcomes are dropped;
- a record without an outcome-date has all its outcome columns null;
- the output schema.

**Cleaning** (modules `Strings`, `Frames`, `Cleaning`, `CleaningProperties`):

- A frame is a header row plus rows of cells. A cell is missing, text, or a timestamp.
- Each step of `clean_dataset` is a function that returns either the new frame or the error
  pandas would raise:
  - IndexError when there is no sex column;
  - KeyError when a column is absent;
  - a parse error from `pd.to_datetime`.
- The class `Cleaning.DataFrame` holds `columns` and `rows` fields. Its methods change the frame
  in place, as the `inplace=True` calls do. Each method's contract ties the new state to the step
  function.
- `CleanDataset` chains the methods and equals the reference function `Clean`.

On success, the cleaned frame is guaranteed to have:

- lower-kebab-case headers;
- a sex column with no missing values;
- only midnight timestamps (or missing) under datetime;
- no monthyear column;
- unique (animal-id, datetime) keys;
- no more rows than the input;
- rows that are all raw rows, in their raw order. In each, the sex column is filled, datetime
  (and, in an outcome file, date-of-birth) is converted from the raw cell, and every other
  column the pass keeps reads as it did in the raw frame.

Intake files also lose found-location. Outcome files have no missing outcome-type and hold only
days under date-of-birth.

## Model

| member | source | states |
|---|---|---|
| Timestamps.NormalizeSameDay | src/clean_raw_data.py:35 | `.dt.normalize()` gives two timestamps the same value exactly when they fall on the same day, and the result is at midnight |
| Timestamps.NormalizeIdempotent | src/clean_raw_data.py:50 | normalizing a normalized date-of-birth changes nothing |
| Timestamps.NormalizeMonotone | src/clean_raw_data.py:35 | normalizing never moves a timestamp later and never reverses the order of two timestamps |
| Timestamps.BeforeTotal | src/transform_data.py:19 | the datetime order the sorts use is a strict total order: irreflexive, asymmetric, transitive and total |
| Sorting.Insert | src/transform_data.py:19 | inserting a row into the sorted run adds exactly that row |
| Sorting.StableSort | src/transform_data.py:19 | the sorted table is a permutation of the input: same length, same multiset of rows |
| Sorting.StableSortSorted | src/transform_data.py:19 | the sorted table is ordered by (animal-id, datetime) |
| Sorting.StableSortWithKey | src/transform_data.py:19 | stability: rows with equal (animal-id, datetime) keep their input order |
| Sorting.SortByKey | src/transform_data.py:27 | sorting an array in place leaves exactly the stable sort of its old contents |
| Sorting.InsertInPlace | src/transform_data.py:27 | one insertion step leaves the prefix alone and turns the sorted run into the insertion of the moved row |
| Ranking.RankMonotone | src/transform_data.py:20 | a row numbered before another of its animal gets a strictly smaller rank |
| Ranking.RankOrder | src/transform_data.py:20 | within one animal the smaller rank goes exactly to the earlier (datetime, position) row |
| Ranking.RankBounds | src/transform_data.py:20 | the ranks of an animal lie in 1..n, n being that animal's number of rows |
| Ranking.RankOneIffFirst | src/transform_data.py:23 | rank 1 goes exactly to a row no row of its animal comes before |
| Ranking.SortedRankIncreasing | src/transform_data.py:28 | on a sorted table, the ranks of one animal grow with the position |
| Ranking.RankSurjective | src/transform_data.py:20 | every number in 1..n is the rank of a row of the animal, so ranks are a permutation of 1..n |
| Ranking.GroupSizeSorted | src/transform_data.py:29 | sorting keeps the number of rows of each animal |
| Ranking.RankFirst | src/transform_data.py:20 | the computed rank column holds the rank of each row |
| Pairing.JoinOne | src/transform_data.py:46-51 | a left merge yields at least one row for every left row |
| Pairing.LeftJoin | src/transform_data.py:46-51 | a left merge yields at least as many rows as the left table |
| Pairing.CreatePairedRecords | src/transform_data.py:3-72 | the in-place pipeline returns exactly the reference result PairedRecords |
| Pairing.RemoveOrphans | src/transform_data.py:18-24 | timeline, record-numbers, first_outs and the drop yield exactly subsequent_outs |
| Pairing.NumberIntakes | src/transform_data.py:27-28 | sorting the intakes in place and ranking them yields the left table of the merge |
| Pairing.NumberOutcomes | src/transform_data.py:29-30 | sorting the survivors in place and ranking them yields the right table of the merge |
| Pairing.FirstOutcomeLabels | src/transform_data.py:23 | the loop collects exactly the labels of timeline rows with an outcome-type and record-number 1 |
| Pairing.Drop | src/transform_data.py:24 | `outs.drop(labels)` keeps, in order, the rows whose label is not listed |
| PairingTimeline.TimelineGroupSize | src/transform_data.py:18 | each animal's events in the timeline are its intakes plus its outcomes |
| PairingTimeline.RecordNumbersInRange | src/transform_data.py:20 | record-number lies in 1..n within each animal |
| PairingTimeline.RecordNumbersDistinct | src/transform_data.py:20 | no two events of one animal share a record-number |
| PairingTimeline.RecordNumbersCover | src/transform_data.py:20 | every number in 1..n is the record-number of one of the animal's events |
| PairingTimeline.RecordNumbersChronological | src/transform_data.py:19-20 | record-number follows datetime within an animal; on equal datetimes an intake comes before an outcome |
| PairingTimeline.OrphanLabelsExact | src/transform_data.py:23 | first_outs holds exactly the outcome labels whose timeline row has an outcome-type and record-number 1, and never an intake's label |
| PairingTimeline.OrphanIsFirstEvent | src/transform_data.py:22-23 | an outcome is dropped iff it has an outcome-type, every intake of its animal is strictly later, and it is the animal's first outcome |
| PairingTimeline.IntakeNoLaterKeepsOutcome | src/transform_data.py:22-24 | an outcome with an intake of its animal at the same datetime or earlier is never dropped |
| PairingTimeline.AtMostOneOrphanPerAnimal | src/transform_data.py:23-24 | at most one outcome per animal is dropped |
| PairingTimeline.SurvivorsAreNonOrphans | src/transform_data.py:24 | subsequent_outs keeps every non-orphan outcome, invents none and keeps their order |
| PairingTimeline.NoOrphansWhenIntakeFirst | src/transform_data.py:22-24 | when every outcome has an intake of its animal no later than itself, nothing is dropped |
| PairingJoin.MatchesEmpty | src/transform_data.py:46-51 | the merge finds no right row exactly when no right row has the left key |
| PairingJoin.MatchesUnique | src/transform_data.py:46-51 | with unique right keys, the match of a key is the one row holding it |
| PairingJoin.JoinOneSingle | src/transform_data.py:46-51 | with unique right keys each left row yields exactly one merged row |
| PairingJoin.MatchesSound | src/transform_data.py:46-51 | every row the merge matches to a key is a right row holding that key |
| PairingJoin.JoinOneSound | src/transform_data.py:46-51 | every row a left row yields carries that left row and either a right row with its key or, when none has it, an empty right side |
| PairingJoin.LeftJoinKeepsLeft | src/transform_data.py:46-51 | for any right table, every left row appears in the merge, and in left order |
| PairingJoin.LeftJoinRowsSound | src/transform_data.py:46-51 | for any right table, every merged row comes from a left row, with a right row holding its key or an empty right side when no right row holds it |
| PairingJoin.LeftJoinOneToOne | src/transform_data.py:46-51 | with unique right keys, merged row i is left row i, completed by the right row with its key or by nulls |
| PairingJoin.RightKeysUnique | src/transform_data.py:30 | (animal-id, outcome-number) is unique in the right table |
| PairingJoin.JoinedShape | src/transform_data.py:46-51 | ins_and_outs has one row per sorted intake, each completed by the survivor with the same animal and outcome-number equal to its intake-number |
| PairingJoin.OneRowPerIntake | src/transform_data.py:46-72 | the result has one record per intake: the sorted intakes, none lost, none repeated |
| PairingJoin.OutputSorted | src/transform_data.py:27 | the result is ordered by animal-id, then intake-date |
| PairingJoin.ResultRow | src/transform_data.py:46-72 | result row i is the projection of merged row i, which pairs sorted intake i |
| PairingJoin.PairedIffPartner | src/transform_data.py:46-51 | a record carries an outcome iff a surviving outcome of its animal has outcome-number equal to its intake-number |
| PairingJoin.PairedCarriesPartner | src/transform_data.py:36-51 | a paired record carries its partner's outcome-date, date-of-birth, outcome-type, subtype and sex |
| PairingJoin.UnpairedIsOpen | src/transform_data.py:46-51 | a record without a partner has every outcome column null |
| PairingJoin.PairsNeverCross | src/transform_data.py:28-30 | for two records of one animal, the later intake is paired with the later outcome |
| PairingJoin.OutcomeUsedAtMostOnce | src/transform_data.py:46-51 | no surviving outcome is paired with two records |
| PairingJoin.ExcessOutcomeUnpaired | src/transform_data.py:46-51 | an outcome whose outcome-number exceeds its animal's intake count appears in no record |
| PairingJoin.SortedPrecedes | src/transform_data.py:27-30 | in a sorted table, a row of an animal is ranked before another exactly when it comes first |
| PairingJoin.IntakeNumbersSequential | src/transform_data.py:27-28 | intake-number counts each animal's intakes 1, 2, ... in sorted order |
| PairingJoin.OutcomeNumbersSequential | src/transform_data.py:29-30 | outcome-number counts each animal's surviving outcomes 1, 2, ... in sorted order |
| PairingJoin.ProjectionSchema | src/transform_data.py:53-72 | the record lists exactly the new_order cells of the merged row, in that order; the helper columns exist before the drop and not after it |
| PairingScenarios.TwoStays | src/transform_data.py:18-72 | two stays of one animal (in, out, in, out) give two records, first intake with first outcome, second with second |
| PairingScenarios.EarlyOutcomeIsPaired | src/transform_data.py:18-72 | with two outcomes before the only intake, the first is dropped and the second is paired with the later intake |
| Strings.Prefix | src/clean_raw_data.py:31 | `col[:3]` is the first three characters, or the whole header when shorter |
| Strings.KebabCaseChars | src/clean_raw_data.py:28 | the header rewrite keeps the length, turns each space into '-' and each ASCII capital into its small letter |
| Strings.KebabCaseIsClean | src/clean_raw_data.py:28 | a rewritten header has no space and no capital |
| Strings.KebabCaseKeepsClean | src/clean_raw_data.py:28 | a header with no space and no capital is left unchanged |
| Strings.KebabCaseIdempotent | src/clean_raw_data.py:28 | rewriting a header twice is rewriting it once |
| Strings.ContainsAt | src/clean_raw_data.py:44 | `sub in s` holds exactly when sub occurs at some position of s |
| Frames.Lookup | src/clean_raw_data.py:35 | `df[name]` reads the first column with that name; absent exactly when no header is that name |
| Selection.PositionsSpec | src/clean_raw_data.py:49 | a boolean mask keeps, in ascending order, exactly the positions it selects |
| Selection.PositionsLength | src/clean_raw_data.py:41 | a mask never keeps more rows than it is given |
| Cleaning.FirstSexColumn | src/clean_raw_data.py:31 | finds the first header whose first three characters lower-case to "sex", or reports that there is none |
| Cleaning.ConvertCells | src/clean_raw_data.py:35 | converting one row keeps its length |
| Cleaning.ConvertRows | src/clean_raw_data.py:35 | converting the column keeps the number of rows |
| Cleaning.DataFrame.constructor | src/clean_raw_data.py:24 | the frame holds the table that was read |
| Cleaning.DataFrame.RenameColumns | src/clean_raw_data.py:28 | the headers become their lower-kebab-case rewrite |
| Cleaning.DataFrame.FillSexColumn | src/clean_raw_data.py:31-32 | raises IndexError and leaves the frame when no sex column exists, else fills it as FillSex does |
| Cleaning.DataFrame.ConvertDates | src/clean_raw_data.py:35 | raises and leaves the frame, or converts the column as ConvertColumn does |
| Cleaning.DataFrame.Drop | src/clean_raw_data.py:38 | raises KeyError and leaves the frame, or drops the column as DropColumn does |
| Cleaning.DataFrame.DropDuplicateRows | src/clean_raw_data.py:41 | one pass keeping a set of seen keys leaves exactly the rows DropDuplicates keeps |
| Cleaning.DataFrame.DropNa | src/clean_raw_data.py:49 | raises KeyError and leaves the frame, or keeps the rows DropMissing keeps |
| Cleaning.CleanDataset | src/clean_raw_data.py:6-52 | the in-place pass returns exactly the reference result Clean, the same frame or the same error |
| CleaningProperties.HeadersRewritten | src/clean_raw_data.py:28 | every header is rewritten character by character into lower-kebab-case; rows untouched |
| CleaningProperties.HeadersIdempotent | src/clean_raw_data.py:28 | rewriting already rewritten headers changes nothing |
| CleaningProperties.FillSexSpec | src/clean_raw_data.py:31-32 | IndexError iff no sex column; else missing cells of the first sex column become 'Unknown', present ones stay, other columns unchanged |
| CleaningProperties.ConvertCellSpec | src/clean_raw_data.py:35 | a cell fails iff it is unreadable text; otherwise it becomes a day missing exactly when the cell was, the parsed day of a text |
| CleaningProperties.ConvertCellsSpec | src/clean_raw_data.py:35 | a row fails iff a cell under the column is unreadable, naming its text; else cells under the column convert and others stay |
| CleaningProperties.ConvertRowsSpec | src/clean_raw_data.py:35 | the column fails iff some row has an unreadable cell, naming its text; else every row converts cell by cell |
| CleaningProperties.ConvertColumnSpec | src/clean_raw_data.py:35 | KeyError when absent, failure iff an unreadable cell; else each cell of the column is its own cell converted (a day, missing where it was), and other columns keep their values |
| CleaningProperties.KeptLookup | src/clean_raw_data.py:38 | after a drop, a remaining name is found at the column it was first found at before |
| CleaningProperties.DropColumnSpec | src/clean_raw_data.py:38 | KeyError iff absent; else the name is gone, every other name stays and reads the same cells |
| CleaningProperties.KeysBeforeSpec | src/clean_raw_data.py:41 | the set of keys seen before row n is exactly the keys of rows 0..n-1 |
| CleaningProperties.FirstOccurrence | src/clean_raw_data.py:41 | every row has a first row with its key at or before it |
| CleaningProperties.SelectGet | src/clean_raw_data.py:41 | keeping rows by position: row k of the cut frame reads, under every name and in its key, what row ps[k] of the original reads |
| CleaningProperties.DedupKeepsFirsts | src/clean_raw_data.py:41 | drop_duplicates keeps, in order, exactly the rows no earlier row shares a key with |
| CleaningProperties.DedupUnique | src/clean_raw_data.py:41 | after drop_duplicates no two rows share an (animal-id, datetime) key |
| CleaningProperties.DedupCovers | src/clean_raw_data.py:41 | drop_duplicates loses no key |
| CleaningProperties.DedupFails | src/clean_raw_data.py:41 | KeyError iff a key column is absent, naming exactly the absent ones |
| CleaningProperties.DropMissingSpec | src/clean_raw_data.py:49 | KeyError iff absent; else keeps, in order, exactly the rows with a value in the column |
| CleaningProperties.DuplicateBeforeMissing | src/clean_raw_data.py:41-49 | a key whose first row has no outcome-type vanishes, even if a later duplicate had one |
| CleaningProperties.SexStep | src/clean_raw_data.py:28-32 | after headers and fill: clean headers, a sex column, and no missing sex cells in a rectangular frame |
| CleaningProperties.DateStep | src/clean_raw_data.py:35-38 | after the datetime conversion and the monthyear drop: days under datetime, no monthyear, sex column kept |
| CleaningProperties.DedupStep | src/clean_raw_data.py:41 | after the duplicate drop the keys are unique and the earlier guarantees hold |
| CleaningProperties.UniversalGuarantees | src/clean_raw_data.py:26-41 | what the universal changes leave: clean headers, no monthyear, unique keys, days under datetime, a filled sex column |
| CleaningProperties.IntakeStep | src/clean_raw_data.py:44-45 | an intake file loses found-location and keeps the universal guarantees |
| CleaningProperties.OutcomeStep | src/clean_raw_data.py:48-50 | an outcome file keeps only rows with an outcome-type and gets days under date-of-birth |
| CleaningProperties.FileSpecificGuarantees | src/clean_raw_data.py:43-50 | intake files (checked first) lose found-location, outcome files are as OutcomeStep says, others stay as they are |
| CleaningProperties.CleanGuarantees | src/clean_raw_data.py:6-52 | a successful clean_dataset returns clean headers, no monthyear, unique keys, days under datetime, a sex column (filled for a rectangular frame), no more rows than the input, and the file-specific guarantees |
| CleaningProperties.ThenSame | src/clean_raw_data.py:28-50 | a step that keeps every row and changes one column keeps what is known of where the rows came from, and of the other columns |
| CleaningProperties.ThenSelect | src/clean_raw_data.py:41-49 | a step that keeps some rows, in order, composes with where the earlier rows came from |
| CleaningProperties.ThenConvert | src/clean_raw_data.py:35-50 | converting a column no earlier step changed leaves each of its cells converted from the original row's cell |
| CleaningProperties.SexRows | src/clean_raw_data.py:28-32 | the header rewrite and the sex fill keep every row; only the first sex column changes, filled with 'Unknown' in a rectangular frame |
| CleaningProperties.DateRows | src/clean_raw_data.py:35-38 | converting datetime and dropping monthyear keep every row; datetime holds each row's own cell converted |
| CleaningProperties.UniversalRows | src/clean_raw_data.py:28-41 | after the universal changes, the rows are raw rows in raw order, with the sex column filled and datetime converted; no other column changes except that monthyear is gone |
| CleaningProperties.FileSpecificRows | src/clean_raw_data.py:44-50 | an intake file keeps every row; an outcome file keeps some rows in order, with date-of-birth converted |
| CleaningProperties.CleanProvenance | src/clean_raw_data.py:6-52 | clean_dataset invents no row and reorders none: its rows are raw rows, ascending, with the sex fill, the date conversions and the drops applied, and every other column as read |
| CleaningProperties.UniversalNoSex | src/clean_raw_data.py:31 | the universal changes raise IndexError exactly when the sex column is missing |
| CleaningProperties.FileSpecificNoSex | src/clean_raw_data.py:43-50 | the file-specific steps never raise IndexError |
| CleaningProperties.CleanFailsWithoutSex | src/clean_raw_data.py:31 | clean_dataset raises IndexError exactly when no rewritten header starts with "sex" |
| CleaningProperties.NoSexErrorFromConvert | src/clean_raw_data.py:35 | a date conversion raises KeyError or a parse error, never IndexError |

The reference functions that the rows above characterize, and the source lines each one
models:

- `Ranking.Rank`: `rank(method='first')` per animal, src/transform_data.py:20, 28, 30.
- `Pairing.Timeline`: the appended table unpaired_append, src/transform_data.py:18.
- `Pairing.OrphanLabels`: the index of first_outs, src/transform_data.py:23.
- `Pairing.DropLabels` and `Pairing.SubsequentOuts`: `outs.drop(first_outs.index)`, src/transform_data.py:24.
- `Pairing.LeftTable` and `Pairing.RightTable`: the sorted, numbered intakes and survivors, src/transform_data.py:27-30.
- `Pairing.Joined`: the merge ins_and_outs, src/transform_data.py:46-51.
- `Pairing.Project`: the drop of helper columns and the new_order selection, src/transform_data.py:53-72.
- `Pairing.PairedRecords`: create_paired_records as a whole, src/transform_data.py:3-72.
- `Cleaning.NormalizeHeaders`: src/clean_raw_data.py:28.
- `Cleaning.FillSex`: src/clean_raw_data.py:31-32.
- `Cleaning.ConvertColumn`: src/clean_raw_data.py:35 and 50.
- `Cleaning.DropColumn`: src/clean_raw_data.py:38 and 45.
- `Cleaning.DropDuplicates`: src/clean_raw_data.py:41.
- `Cleaning.DropMissing`: src/clean_raw_data.py:49.
- `Cleaning.UniversalChanges`: src/clean_raw_data.py:26-41.
- `Cleaning.FileSpecific`: src/clean_raw_data.py:43-50.
- `Cleaning.Clean`: clean_dataset as a whole, src/clean_raw_data.py:6-52.

## Left out

- CSV reading and writing (`pd.read_csv`, `to_csv`), the loop over the raw data directory and the
  module-level call that runs the pairing: these are file I/O. Each cleaning step takes the table
  that was read as a value.
- `pd.to_datetime`'s grammar of date texts: it is a parameter `parse`, with a missing value for a
  text it cannot read. `parse_dates` in the pairing reads the timestamps already parsed.
- Source defects, modelled as evidently intended:
  - line 23 of src/transform_data.py reads `temp_append`, a name that does not exist; the model
    reads `unpaired_append`;
  - src/transform_data.py never imports `pd`;
  - its line 74 passes DataFrames where file paths are expected.
- The merged timeline is ranked as pandas ranks it, but its row order after the in-place sort is
  never materialised. The ranks, and so first_outs, do not depend on that order.
- The renames of lines 32-33 are not a separate step: the merged row reads intake-date and
  outcome-date out of the rows' datetime fields.
- Outcome columns the merge does not select (age-upon-outcome, name, breed, ...) are not part of
  the outcome row.
- Pairing takes animal-id as an integer, because it is only compared for equality and order.
  Cleaning keeps it as a cell.
- Pairing rows always have an animal-id and a datetime, and both tables always have every column
  the pairing reads. Three behaviours of the code are therefore not modelled:
  - a missing (NaT) datetime sorts last and gets no rank (NaN), so it is never an orphan;
  - the merge matches a NaN intake-number with a NaN outcome-number of the same animal;
  - groupby leaves out a missing animal-id, and an absent column (such as the helper columns
    dropped at line 53 of src/transform_data.py) raises KeyError.
  The cleaning model can hand a missing datetime on, since `pd.to_datetime` keeps a missing value.
- Lower-casing maps only ASCII capitals; pandas' Unicode case mapping is not modelled.
- Duplicate header names:
  - reading a column, and the deduplication key, use the first column of that name;
  - filling, converting and dropping act on every column of that name;
  - pandas' behaviour on duplicate labels is not modelled further.
- All of a frame's rows are assumed to have one cell per column (`Rectangular`). The
  missing-value fill guarantees hold only for such frames.
- `df[sex_col].fillna(..., inplace=True)` works through a chained assignment, which some pandas
  versions apply only to a copy. The model applies the fill to the frame, as the docstring says it
  does.
- The docstring says intake-location is dropped; the code drops found-location, and the model
  follows the code.
- The code raises no error for a row without an animal-id or for a repeated rank, and the model
  raises none either.
- CleaningProperties.ConvertCellsSpec: only says the error names an unreadable cell, not that it
  is the first in row order.
- CleaningProperties.ConvertRowsSpec: only says the error names an unreadable cell, not that it is
  the first in row order.
