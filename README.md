# epic_to_bed in Dafny

A model of the EPIC methylation-array to BED converter `epic_to_bed.py`. The
converter reads a tab-separated methylation profile. Its header row names the
columns, and every column whose header holds `AVG_Beta` is one sample's beta
value.

The converter does three things:

- **Header scan.** It builds the dictionary `beta_columns`, which maps each
  sample name to its column. The sample name is the header text before the
  first `.`. A later column with the same name replaces the earlier one.
- **Fan-out.** For each data row, and for each sample in dictionary order, it
  appends one BED line to that sample's `unsorted.bed` file:
  `chr \t pos \t pos \t TargetID \t beta \n`. The fields come from columns
  163 (CHR), 164 (MAPINFO), 1 (TargetID) and the sample's beta column.
- **Sort.** For each sample, it reads the unsorted file back, sorts its lines
  by `(chromosome text, int(MAPINFO))` and writes them to `sorted.bed`.

The output directory is modelled as a map from sample name to the lines of
its file (`Fanout.Files`). One object, `EpicToBed.BedFiles`, holds the
unsorted and the sorted files. Its methods mirror the script's loops and
update the two maps in place. Each method is proved against
specification functions, and lemmas prove the properties of those functions.

Python's exceptions are modelled as `Failure` values. The ones modelled are:

- an `IndexError` from a short row or from a line without a tab;
- a `ValueError` from a non-integer MAPINFO;
- a `FileNotFoundError` for a missing unsorted file;
- a `StopIteration` for an empty input.

A run that raises leaves behind exactly the files written before the raise.

The project has six modules:

- `Wrappers`: Option, Result and the failure kinds.
- `Text`: `split`, `join`, Python string order and `int()` on text.
- `Columns`: the header scan.
- `Fanout`: the line format and the append loops, as functions.
- `BedSort`: the sort key and the stable sort.
- `EpicToBed`: the `BedFiles` class and the whole run.

## Model

| member | source | states |
|---|---|---|
| Columns.ScanHeader | epic_to_bed.py:14-20 | The samples are the distinct beta-column names in the order of their first occurrence. A name is a key exactly when some `AVG_Beta` column yields it. Its stored column is the last column that yields it, so a repeated name silently overwrites the earlier one. |
| Columns.IsBetaHeader | epic_to_bed.py:18 | `"AVG_Beta" in value`, through `Text.Contains`. Its use in `Columns.BetaNamesRegistered` and `Columns.ScanHeader` carries its contract. |
| Columns.MarkerAnywhere | epic_to_bed.py:18 | Any header with the marker somewhere in it, whatever text comes before and after, is a beta column. |
| Columns.BetaHeaderExamples | epic_to_bed.py:18 | Examples: "R01C01.AVG_Beta" and "AVG_Beta" are beta columns. "R01C01.Detection Pval" (no marker) and "AVG_Bet" (marker cut short) are not. |
| Columns.SampleName | epic_to_bed.py:19 | The name is a prefix of the header without a `.`. It is followed by a `.` when shorter than the header, and it is the whole header exactly when the header has no `.`. |
| Columns.BetaNames | epic_to_bed.py:15-19 | The sample names of the `AVG_Beta` columns in header order, repeats kept. `Columns.BetaNamesRegistered` states which names occur. |
| Columns.BetaNamesRegistered | epic_to_bed.py:15-20 | A name is among the beta names exactly when some column holds `AVG_Beta` and yields that name. |
| Columns.FirstOccurrences | epic_to_bed.py:20 | The dict's key order contains exactly the assigned names, each once. |
| Columns.FirstOccurrencesOrder | epic_to_bed.py:20 | A key earlier in dict order occurs in the assigned names before every occurrence of a later key. Reassigning a key does not move it. |
| Columns.LastRegisteredStep | epic_to_bed.py:20 | Scanning one more column either makes it the name's last column or leaves the name's last column as it was. |
| Fanout.BedLine | epic_to_bed.py:43 | The five-field BED line. `Fanout.BedLineIsJoin` proves it is the tab-join of its fields. |
| Fanout.RowText | epic_to_bed.py:35-46 | The text written for one row and beta column, newline included. When no field holds a tab, `Fanout.RowTextFields` proves that it splits back into CHR, MAPINFO, MAPINFO, TargetID and the beta text followed by "\n". |
| Fanout.BedLineIsJoin | epic_to_bed.py:43 | A BED line is the tab-join of chromosome, position, position, TargetID and beta. |
| Fanout.RowTextFields | epic_to_bed.py:35-46 | For tab-free fields, splitting the written text at tabs gives back the fields CHR, MAPINFO, MAPINFO, TargetID and beta followed by the newline. |
| Fanout.Append | epic_to_bed.py:45-46 | One append-mode write. `Fanout.AppendEffect` states its effect on every file. |
| Fanout.AppendEffect | epic_to_bed.py:45-46 | Appending creates the file if it is missing. It adds exactly one line to that sample's file and leaves every other file unchanged. |
| Fanout.Reach | epic_to_bed.py:41-43 | The samples written before `row[beta_col]` raises are exactly the leading samples whose beta column is inside the row. The first sample not written has its column outside the row. |
| Fanout.ReachAt | epic_to_bed.py:41-43 | Any count with those properties is the Reach count. |
| Fanout.FanOut | epic_to_bed.py:41-46 | The sample loop for one row, over its first `k` samples. `Fanout.FanOutStep`, `Fanout.FanOutAppends` and `Fanout.FanOutKeeps` state its effect. |
| Fanout.FanOutStep | epic_to_bed.py:41-46 | Writing one more sample appends that sample's line to the files written so far. |
| Fanout.FanOutAppends | epic_to_bed.py:41-46 | After the loop for one row, each sample it reached has its earlier content followed by exactly that row's line. |
| Fanout.FanOutKeeps | epic_to_bed.py:41-46 | A file the loop did not reach keeps both its presence and its content. |
| Fanout.RowFitsAllSamples | epic_to_bed.py:35-43 | A row that holds the fixed columns and every beta column lets the loop reach every sample. |
| Fanout.PrefixRowsFit | epic_to_bed.py:34 | Every row of a prefix of fitting rows also fits. |
| Fanout.RowsReachColumn | epic_to_bed.py:35-43 | If every row fits, then every row holds the fixed columns and each sample's beta column. |
| Fanout.FanOutRows | epic_to_bed.py:34-46 | The row loop over fitting rows. `Fanout.FanOutRowsAppends` and `Fanout.FanOutRowsKeeps` state its effect. |
| Fanout.SampleLines | epic_to_bed.py:34-46 | A sample gets one line per row, the i-th being row i's line for its beta column. |
| Fanout.FanOutRowsAppends | epic_to_bed.py:34-46 | After all rows, each sample's file is its earlier content followed by one line per row, in row order. The file exists when it existed before or there is at least one row. |
| Fanout.FanOutRowsKeeps | epic_to_bed.py:34-46 | Files of names that are not samples are untouched by the row loop. |
| BedSort.KeyOf | epic_to_bed.py:56 | The key lambda, as a value or the exception it raises. `BedSort.KeyOfSound` and `EpicToBed.KeyOfRowText` state its contract. |
| BedSort.KeyLeq | epic_to_bed.py:56 | Python's tuple order on `(chromosome, start)`. `BedSort.KeyLeqTotal`, `BedSort.KeyLeqTransitive` and `BedSort.KeyLeqAntisymmetric` prove it is a total order. |
| BedSort.KeyOfSound | epic_to_bed.py:56 | Computing a key raises IndexError exactly when the line has no tab. Otherwise the chromosome is the text before the first tab. |
| BedSort.KeyLeqReflexive | epic_to_bed.py:56 | The tuple order on keys is reflexive. |
| BedSort.KeyLeqTotal | epic_to_bed.py:56 | Any two keys are comparable. |
| BedSort.KeyLeqAntisymmetric | epic_to_bed.py:56 | Keys ordered both ways are equal. |
| BedSort.KeyLeqTransitive | epic_to_bed.py:56 | The key order is transitive. |
| BedSort.ChromosomesOrderAsText | epic_to_bed.py:56 | For all positions p and q, chr10 at p sorts before chr2 at q: chromosomes compare as text. Within chr1, p sorts before q exactly when p <= q as integers. |
| BedSort.Decorate | epic_to_bed.py:56 | Computing every line's key before sorting, stopping at the first failure. `BedSort.DecorateSound` and `BedSort.DecorateFailure` state its contract. |
| BedSort.DecorateSound | epic_to_bed.py:56 | All keys are computed exactly when every line has one. The decorated entries carry the lines unchanged, each with its own key. |
| BedSort.DecorateKeyed | epic_to_bed.py:56 | Key computation succeeds exactly when every line is keyed. |
| BedSort.DecorateKeeps | epic_to_bed.py:56 | Successful key computation keeps the lines and pairs each with its key. |
| BedSort.DecorateFailure | epic_to_bed.py:56 | A failed key computation reports the exception of the first line whose key cannot be computed. |
| BedSort.Insert | epic_to_bed.py:56 | One insertion step of the stable sort. `BedSort.InsertPermutes`, `BedSort.InsertKeepsSorted` and `BedSort.InsertWithKey` state its contract. |
| BedSort.InsertionSort | epic_to_bed.py:56 | The stable sort of keyed entries. `BedSort.InsertionSortPermutes`, `BedSort.InsertionSortSorts` and `BedSort.InsertionSortStable` state its contract. |
| BedSort.InsertPermutes | epic_to_bed.py:56 | Inserting an entry adds exactly that entry. |
| BedSort.InsertionSortPermutes | epic_to_bed.py:56 | The sort is a permutation of its input. |
| BedSort.SortedTail | epic_to_bed.py:56 | The tail of a sorted sequence is sorted. |
| BedSort.SortedCons | epic_to_bed.py:56 | Putting a least entry in front of a sorted sequence keeps it sorted. |
| BedSort.InsertKeepsSorted | epic_to_bed.py:56 | Insertion keeps a sequence sorted. |
| BedSort.InsertionSortSorts | epic_to_bed.py:56 | The sort's output is ordered by key. |
| BedSort.InsertWithKey | epic_to_bed.py:56 | Insertion places a new entry before every entry with its key. |
| BedSort.InsertWithKeyLater | epic_to_bed.py:56 | The same holds when the insertion point lies past the first entry. |
| BedSort.InsertionSortStable | epic_to_bed.py:56 | For every key, the entries with that key keep their input order. |
| BedSort.InsertionSortOfSorted | epic_to_bed.py:56 | Sorting an already sorted sequence changes nothing. |
| BedSort.SortLines | epic_to_bed.py:56 | `sorted(lines, key=…)`. `BedSort.SortLinesSound`, `BedSort.SortLinesStable` and `BedSort.StableSortIsUnique` state its contract. |
| BedSort.SortLinesSound | epic_to_bed.py:55-56 | `sorted(lines, key=…)` succeeds exactly when every line has a key. It then returns a permutation of the lines, ordered by key. Otherwise it raises the first failing line's exception. |
| BedSort.InsertLines | epic_to_bed.py:56 | Inserting an entry adds exactly its line to the lines. |
| BedSort.InsertionSortLines | epic_to_bed.py:56 | The sorted lines are a permutation of the input lines. |
| BedSort.ConsistentLinesKeyed | epic_to_bed.py:56 | Lines taken from correctly keyed entries have those keys. |
| BedSort.ConsistentTail | epic_to_bed.py:56 | Correct keying survives dropping the first entry. |
| BedSort.LinesOfAppend | epic_to_bed.py:56 | Taking lines distributes over concatenation. |
| BedSort.SortedEntriesGiveSortedLines | epic_to_bed.py:56 | Sorted, correctly keyed entries give lines sorted by key. |
| BedSort.LinesWithKeyOf | epic_to_bed.py:56 | The lines with a given key are the lines of the entries with that key. |
| BedSort.DecorateLinesOf | epic_to_bed.py:56 | Re-keying the lines of correctly keyed entries gives back those entries. |
| BedSort.InsertionSortConsistent | epic_to_bed.py:56 | Sorting keeps every entry paired with its key. |
| BedSort.SortLinesStable | epic_to_bed.py:56 | `sorted` is stable: for every key, lines with that key keep their input order. |
| BedSort.SortLinesIdempotent | epic_to_bed.py:56 | Sorting an already sorted file changes nothing. |
| BedSort.WithKeyMembers | epic_to_bed.py:56 | The entries selected for a key come from the input and carry that key. |
| BedSort.FirstIsLeast | epic_to_bed.py:56 | The first entry of a sorted sequence has the least key. |
| BedSort.SortedByKeyIsUnique | epic_to_bed.py:56 | Two sorted sequences with the same per-key subsequences are equal. |
| BedSort.LinesOfInjective | epic_to_bed.py:56 | Correctly keyed entries are determined by their lines. |
| BedSort.WithKeyConsistent | epic_to_bed.py:56 | Selecting by key keeps entries correctly keyed. |
| BedSort.StableSortIsUnique | epic_to_bed.py:56 | Any sorted output that keeps each key's lines in input order is what the model's sort returns. So every stable sort, Python's Timsort included, produces the same file. |
| Text.Split | epic_to_bed.py:56 | Python's `str.split(sep)`. `Text.SplitSound` and `Text.JoinSplit` determine it completely. |
| Text.Join | epic_to_bed.py:43 | Python's `sep.join(pieces)`. `Text.JoinSplit` and `Text.SplitJoin` make it the inverse of `Text.Split`. |
| Text.Contains | epic_to_bed.py:18 | Python's substring test `needle in s`: some position of `s` starts a copy of the needle. `Columns.BetaHeaderExamples` exercises it. |
| Text.MissingFirstCharacter | epic_to_bed.py:18 | A needle whose first character is absent from the text is not contained in it. |
| Text.SplitSound | epic_to_bed.py:56 | `split` gives one piece exactly when the separator is absent. No piece holds the separator. The first piece is the prefix before the first separator. |
| Text.JoinSplit | epic_to_bed.py:43 | Joining the pieces of a split gives back the text. |
| Text.SplitWithout | epic_to_bed.py:19 | Text without the separator splits into itself. |
| Text.SplitAfterPiece | epic_to_bed.py:56 | A separator-free piece followed by the separator splits off as the first piece. |
| Text.SplitJoin | epic_to_bed.py:56 | Splitting the join of separator-free pieces gives back the pieces. |
| Text.Less | epic_to_bed.py:56 | Python's `<` on strings. `Text.LessIsLessAt`, `Text.LessTotal` and `Text.LessTransitive` state its contract. |
| Text.LessIsLessAt | epic_to_bed.py:56 | Python's string `<` holds exactly when the first difference favours the left side or the left side is a proper prefix. |
| Text.LessGivesLessAt | epic_to_bed.py:56 | `<` implies a favourable first difference or a proper prefix. |
| Text.LessAtGivesLess | epic_to_bed.py:56 | A favourable first difference or a proper prefix implies `<`. |
| Text.LessIrreflexive | epic_to_bed.py:56 | No string is less than itself. |
| Text.LessTransitive | epic_to_bed.py:56 | String order is transitive. |
| Text.LessTotal | epic_to_bed.py:56 | Any two distinct strings are ordered exactly one way. |
| Text.Digits | epic_to_bed.py:56 | The value of a string of decimal digits. `Text.DigitsDefined` and `Text.DigitsOfNatText` state its contract. |
| Text.ParseInt | epic_to_bed.py:56 | The optionally signed ASCII decimal parse that stands in for `int()` on MAPINFO text. `Text.ParseIntDefined`, `Text.ParseIntText` and `Text.ParseIntExamples` state its contract. |
| Text.DigitsDefined | epic_to_bed.py:56 | A digit string has a value exactly when it is made of ASCII digits only. |
| Text.ParseIntDefined | epic_to_bed.py:56 | The model's signed-decimal parse succeeds exactly on non-empty ASCII digits with an optional leading sign. |
| Text.NatText | epic_to_bed.py:56 | The decimal text of a number is non-empty digits without a leading zero. |
| Text.DigitsOfNatText | epic_to_bed.py:56 | Reading the decimal text of a number gives the number back. |
| Text.ParseIntText | epic_to_bed.py:56 | The model's signed-decimal parse inverts the decimal text of every integer. |
| Text.ParseIntExamples | epic_to_bed.py:56 | The parse rejects "", "-", "12.5" and "chr1" and accepts "+007" and "-42", as `int()` does. |
| EpicToBed.FittingRows | epic_to_bed.py:34-43 | The number of rows written before the first short row: every earlier row fits, and the row at that index does not. |
| EpicToBed.FittingRowsAt | epic_to_bed.py:34-43 | Any index with those properties is that number. |
| EpicToBed.PartialRow | epic_to_bed.py:35-43 | The files after the loop for a short row raised IndexError. `EpicToBed.BedFiles.WriteRow` establishes it. |
| EpicToBed.WrittenRows | epic_to_bed.py:34-46 | The files after the row loop, including the partial writes of the first short row. `EpicToBed.BedFiles.WriteRows` establishes it. |
| EpicToBed.FanOutRowsStep | epic_to_bed.py:34-46 | Writing one more fitting row runs the sample loop on it. |
| EpicToBed.KeyOfRowText | epic_to_bed.py:43-56 | A written line keys on its row's CHR and the integer of its MAPINFO. A non-integer MAPINFO makes the sort raise ValueError. |
| EpicToBed.SortOutcome | epic_to_bed.py:54-56 | Reading a sample's unsorted file and sorting it: FileNotFoundError when the file is missing, otherwise `BedSort.SortLines`. `EpicToBed.BedFiles.SortSample` establishes it. |
| EpicToBed.SortableSamples | epic_to_bed.py:50-58 | The number of samples sorted before the first failure: every earlier sample sorts, and the sample at that index fails. |
| EpicToBed.SortableSamplesAt | epic_to_bed.py:50-58 | Any index with those properties is that number. |
| EpicToBed.WriteSorted | epic_to_bed.py:57-58 | The sorted files after the sort loop wrote the given samples. `EpicToBed.WriteSortedWrites` and `EpicToBed.WriteSortedKeeps` state its effect. |
| EpicToBed.WriteSortedStep | epic_to_bed.py:57-58 | Sorting one more sample overwrites that sample's sorted file. |
| EpicToBed.WriteSortedWrites | epic_to_bed.py:57-58 | Each handled sample's sorted file holds exactly its sorted lines. |
| EpicToBed.WriteSortedKeeps | epic_to_bed.py:57-58 | Sorted files of other names are untouched. |
| EpicToBed.SortReportAt | epic_to_bed.py:50-58 | Stopping at the first failing sample, or after all samples, gives the sort loop's reported outcome. |
| EpicToBed.BedFiles.constructor | epic_to_bed.py:5 | The output directory starts with the given files. |
| EpicToBed.BedFiles.AppendText | epic_to_bed.py:45-46 | Opening in append mode and writing adds the text as a line of that sample's unsorted file. |
| EpicToBed.BedFiles.WriteSamples | epic_to_bed.py:41-46 | The sample loop writes the reached samples' lines in dict order and stops at the first out-of-range beta column. |
| EpicToBed.BedFiles.WriteRow | epic_to_bed.py:35-46 | A row succeeds exactly when it holds the fixed columns and every beta column. Otherwise it raises IndexError: a missing fixed column means nothing was written, and a missing beta column means the earlier samples got their line. |
| EpicToBed.BedFiles.WriteRows | epic_to_bed.py:34-46 | The row loop succeeds exactly when every row fits. The files are every fitting row's lines, plus the partial writes of the first short row. Sorted files are untouched. |
| EpicToBed.BedFiles.SortSample | epic_to_bed.py:51-58 | A missing unsorted file raises FileNotFoundError. Otherwise the sample's sorted file is overwritten with the sorted lines, or the key error is raised and nothing is written. |
| EpicToBed.BedFiles.SortAll | epic_to_bed.py:50-58 | The sort loop writes the sorted file of each sample in dict order. It stops at, and reports, the first sample whose file is missing or has an unkeyable line. |
| EpicToBed.BedFiles.Convert | epic_to_bed.py:11-58 | The whole run. An empty input raises before anything is written. A short row raises IndexError before any sorting. On success each sample's unsorted file gained one line per row and its sorted file holds those lines sorted. |
| EpicToBed.RunEffect | epic_to_bed.py:34-58 | When neither loop raised, every sample's unsorted file is its earlier content plus one line per row, and its sorted file is that sorted. |
| EpicToBed.RunEffectAt | epic_to_bed.py:34-58 | The same fact for one sample. |
| EpicToBed.SortedFileContents | epic_to_bed.py:55-58 | A sorted file is a permutation of the unsorted one, ordered by key, with each key's lines in their original order. |

## Left out

- File access and the path constants (`EPIC_DIR`, `EPIC_TSV`, `OUT_DIR`): the
  output directory is a map from sample name to file lines, and the input is
  the already-read table.
- CSV tokenizing by `csv.reader`: the input is given as rows of fields. Quoting
  and embedded newlines are not modelled.
- The debug print of every header column (epic_to_bed.py:16-17): it has no
  effect on the files.
- `int()` accepts more than the model: surrounding whitespace, `_` between
  digits and non-ASCII digits. The model accepts an optional sign and ASCII
  digits only.
- Text.ParseInt: `int()` also rejects a decimal text of more than 4300 digits,
  Python's default integer string-conversion limit. The model accepts any
  length, so a line whose MAPINFO has 4301 digits sorts in the model, where the
  script raises ValueError. The same limit makes `str(n)` refuse such numbers,
  which `Text.ParseIntText` does not reflect.
- `readlines()` splitting at embedded newlines: a field containing "\n" would
  split a written line into several on reading back. The model treats each
  write as one line and assumes any earlier file content is whole lines.
- Python's Timsort: the model sorts by a stable insertion sort. Any stable
  sort gives the same result, so this does not change the output.
- Opening `sorted.bed` in "w" mode: this is modelled as replacing that
  sample's entry in the map.
- The CpG-island column (174): it is never read, because its use is commented
  out (epic_to_bed.py:30-38).
- Operating-system failures such as permissions, a full disk or a missing
  output directory: these come from the file system, which is not modelled.
