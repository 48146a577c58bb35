# PlexReport: collection log aggregation, modelled in Dafny

PlexReport is a small Tkinter tool. It reads the log files that a Plex
collection manager writes, one folder per collection, and writes a CSV report.
The report has a header and then one row per selected collection: the number of
movies processed and the number of movies missing. This project models the
tool's core:

- `read_collection_logs` (`PlexReport.py:38-62`). For each folder, in the order
  given, it derives the collection name as `basename(normpath(folder))`. It
  skips folders whose name is not selected. For a selected folder it starts two
  counters at zero and reads every line of every `.log` file. A line containing
  `Movies Processed` adds the last whitespace-separated word before that marker,
  read with `int()`, to the processed count. Otherwise, a line containing
  `Movies Missing` adds the same kind of count to the missing count. The
  folder's row is then appended.
- The table that `save_to_csv` writes (`PlexReport.py:64-68`): the header
  cells `Collection`, `Processed Movies` and `Missing Movies`, then one record
  per row.

The modules follow the layers of that code:

- `PyText` holds the Python string builtins the routine relies on:
  - `str.split()` on whitespace, as defined by `str.isspace`
  - substring `in` and `split(marker)[0]`
  - `int()` of a token and `str()` of an integer
- `PosixPath` holds `posixpath.normpath` and `basename`.
- `LogScan` holds the rule for one line and the running totals over a sequence
  of lines.
- `PlexReport` holds the folder loop: the specification function `ReadLogs`,
  and the imperative `ReadCollectionLogs`, `CountFolder` and `CountLine`.
  `ReadCollectionLogs` is proved equal to `ReadLogs`, `CountFolder` to
  `FolderTotals`, and `CountLine`, the body of the line loop, to `ClassifyLine`.
- `CsvReport` holds the report table and its inverse.
- `Outcomes` holds `Option` and `Result`.
- `SeqLemmas` holds generic facts about sequence concatenation.

The filesystem is given as data. A `Folder` is its path and the lines of each
of the files that `glob.glob(os.path.join(folder, '*.log'))` lists, in the
order it lists them. A `ValueError` from `int()` or an `IndexError` from
`[-1]` becomes an `Err`. No `try` surrounds the loop, so such an exception
ends the whole routine.

Four points of the code's behaviour are easy to misread:

- **`elif`, not two independent checks.** A line that holds both markers
  counts only as processed (`PlexReport.py:55-58`).
- **A bad count aborts; it is not skipped.** A marker whose preceding word is
  not an integer, or that has no word before it, raises `ValueError` or
  `IndexError`. That exception ends the whole report (`Err`).
- **Counts may be negative.** `int("-4")` is accepted and added as it stands.
- **Row order is folder order.** Rows come in the order the folders are given.
  There is no alphabetical sort.

## Model

| member | source | states |
|---|---|---|
| PlexReport.ReadCollectionLogs | PlexReport.py:38-62 | The nested loops return exactly `ReadLogs`: the rows of the selected folders in folder order, or the error of the first failing marker line. |
| PlexReport.CountFolder | PlexReport.py:45-58 | The file and line loops, started from two zero counters, give the scan of all of the folder's lines in listing order. |
| PlexReport.CountLine | PlexReport.py:55-58 | The `if`/`elif` on the two markers gives exactly `ClassifyLine` of the line, including both error cases. |
| PlexReport.ReadLogsStep | PlexReport.py:41-60 | One folder iteration: an unselected folder leaves the rows unchanged; a selected folder whose scan succeeds appends exactly its row. |
| PlexReport.ReadLogsAbort | PlexReport.py:41-58 | Once the folders so far have failed, no later folder changes the outcome. |
| PlexReport.ReadLogsFolderFails | PlexReport.py:44-58 | A selected folder whose scan fails, after folders that succeeded, makes the routine fail with that folder's error. |
| PlexReport.FolderLinesAppend | PlexReport.py:50-54 | The lines of two runs of log files are the lines of the first run followed by those of the second. |
| PlexReport.FolderLinesAt | PlexReport.py:50-54 | A folder's lines are the lines of the files before file `f`, then file `f`, then the files after it. |
| PlexReport.AbortInFile | PlexReport.py:50-58 | A failing line `j` of file `f`, after lines that parse, is the error of the whole folder. |
| PlexReport.SelectedIndices | PlexReport.py:41-44 | The positions of the selected folders are valid folder positions. |
| PlexReport.SelectedIndicesOrdered | PlexReport.py:41-44 | The selected positions strictly increase: each folder gives at most one row, and folder order is kept. |
| PlexReport.SelectedIndicesExact | PlexReport.py:42-44 | A position is selected if and only if the name of the folder at that position is in the selection. |
| PlexReport.ReadLogsOkIff | PlexReport.py:44-60 | The routine succeeds if and only if the scan of every selected folder succeeds. |
| PlexReport.ReadLogsRows | PlexReport.py:41-62 | On success there are exactly as many rows as selected folders. Row `k` carries the name of the `k`-th selected folder and the totals of its scan. |
| PlexReport.ReadLogsFirstError | PlexReport.py:41-58 | On failure, the error comes from a selected folder whose scan fails and before which the routine still succeeds. |
| PlexReport.RowsAreSelected | PlexReport.py:44-60 | On success there are no more rows than folders, and every row's name is in the selection. |
| PlexReport.OnlySelectedRead | PlexReport.py:44-48 | The logs of unselected folders never affect the result. |
| PlexReport.QuietFolder | PlexReport.py:45-58 | A folder with no log files, or whose lines hold neither marker, totals zero and zero. |
| PlexReport.QuietFolderRow | PlexReport.py:45-60 | Such a folder, when selected, still gets a row `(name, 0, 0)`. |
| PlexReport.OneFileExample | PlexReport.py:50-58 | A file with `12 Movies Processed` and `-4 Movies Missing` totals `(12, -4)`. |
| PlexReport.TwoFilesExample | PlexReport.py:50-58 | Two files with `12 Movies Processed` each total `(24, 0)`: counts add up across files. |
| PlexReport.BadFileExample | PlexReport.py:54-58 | A file with `x Movies Processed` fails with an invalid count `"x"`. |
| PlexReport.SelectionExample | PlexReport.py:41-62 | Selecting only "Foo" gives its single row and never reads the bad folder "Bar". Selecting both fails with Bar's error. |
| LogScan.BeforeSpec | PlexReport.py:56 | `split(marker)[0]` is the prefix of the line that ends where the first occurrence of the marker begins. |
| LogScan.CountBeforeIsSplit | PlexReport.py:56 | The index-based count reading equals `int()` of the last word of `split()` of the text before the marker. |
| LogScan.NoCountIffBlank | PlexReport.py:56 | The `IndexError` case happens exactly when only whitespace precedes the marker. |
| LogScan.MarkerPrecedence | PlexReport.py:55-58 | A line counts nothing if and only if it holds neither marker. It counts as missing only if it lacks the processed marker, and as processed only if it holds that marker. |
| LogScan.ScanLinesSnoc | PlexReport.py:54-58 | Scanning one more line either adds its count to the right total or fails with that line's error. |
| LogScan.ScanLinesIsSum | PlexReport.py:45-58 | The scan succeeds if and only if every line parses. Its totals are then the sums of the processed and missing counts over all lines. On failure the error is that of the first line that does not parse. |
| LogScan.ScanLinesAbort | PlexReport.py:54-58 | After a failing prefix, the remaining lines are not looked at. |
| LogScan.ScanLinesFailsAt | PlexReport.py:54-58 | A line that does not parse, after lines that do, is the error of the whole scan, whatever follows. |
| LogScan.ScanLinesAppend | PlexReport.py:50-58 | Scanning two runs of lines one after the other adds up their totals, so a folder's totals are the sum of its files' totals. |
| LogScan.NoMarkerLinesCountZero | PlexReport.py:45-58 | Lines holding neither marker leave both totals at zero. |
| LogScan.CountField | PlexReport.py:56 | With no `M` before it, a marker written after `lead + token + " "` is the first occurrence, and `token` is the word that is read. |
| LogScan.ProcessedLineToken | PlexReport.py:55-56 | `<lead><token> Movies Processed<rest>` counts `int(token)` as processed, or fails as `int(token)` does. |
| LogScan.MissingLineToken | PlexReport.py:57-58 | `<lead><token> Movies Missing<rest>`, with no processed marker anywhere on the line, counts `int(token)` as missing. |
| LogScan.CountedLines | PlexReport.py:55-58 | A count written as `str(n)` before either marker is read back as `n`. |
| LogScan.BlankBeforeMarker | PlexReport.py:56 | A processed marker with only whitespace before it fails with the no-count (`IndexError`) error. |
| LogScan.ProcessedExample | PlexReport.py:55-56 | `12 Movies Processed` is a processed count of 12. |
| LogScan.NegativeMissingExample | PlexReport.py:57-58 | `-4 Movies Missing` is a missing count of -4. |
| LogScan.BothMarkersExample | PlexReport.py:55-58 | `1 Movies Processed, 2 Movies Missing` counts only as processed, 1. |
| LogScan.InvalidCountExample | PlexReport.py:56 | `x Movies Processed` fails with an invalid count `"x"`. |
| LogScan.NoCountExample | PlexReport.py:56 | ` Movies Processed` fails with no count. |
| LogScan.NoMarkerExample | PlexReport.py:55-58 | A line without markers counts nothing. |
| PyText.WordStart | PlexReport.py:56 | The start of the word that ends at `e` lies before `e`. |
| PyText.WordStartSpec | PlexReport.py:56 | That word holds no whitespace and is preceded by whitespace or by the start of the text. |
| PyText.WordsSpec | PlexReport.py:56 | `split()` gives non-empty words without whitespace, and gives no words exactly when the text is all whitespace. |
| PyText.WordsTrailingSpace | PlexReport.py:56 | Trailing whitespace does not change `split()`. |
| PyText.WordsAppendWord | PlexReport.py:56 | A word after whitespace becomes the last element of `split()`. |
| PyText.WordEnd | PlexReport.py:56 | The end of the last word before position `n` is at most `n`, and the character before it is not whitespace. |
| PyText.LastWord | PlexReport.py:56 | `split()` of the text before `n` is empty exactly when there is no word end. Otherwise its last element is the text between `WordStart` and `WordEnd`. |
| PyText.MatchesAtIff | PlexReport.py:55 | The index-based match agrees with slice equality. |
| PyText.IndexFrom | PlexReport.py:55-56 | A found position lies inside the text together with the whole pattern. |
| PyText.IndexFromSpec | PlexReport.py:55-56 | A found position is an occurrence and no earlier position is. When nothing is found, there is no occurrence at all. |
| PyText.ContainsIff | PlexReport.py:55 | `pat in s` holds exactly when the pattern occurs at some position. |
| PyText.FirstOccurrence | PlexReport.py:56 | An occurrence with no earlier occurrence of the pattern's first character is the one `split` cuts at. |
| PyText.DigitRunChars | PlexReport.py:56 | A digit run that `int()` accepts holds only ASCII digits and underscores. |
| PyText.ParseSpanSlice | PlexReport.py:56 | Parsing a span in place equals `int()` of the token cut out of it. |
| PyText.ShowNat | PlexReport.py:68 | `str(n)` for `n >= 0` is non-empty, all digits, and has no leading zero. |
| PyText.ShowInt | PlexReport.py:68 | `str(n)` is non-empty and holds no whitespace. Its characters are digits, with a leading `-` only for a negative `n`. |
| PyText.ShowNatIsRun | PlexReport.py:56 | `str(n)` is a digit run whose value is `n`. |
| PyText.ParseShowInt | PlexReport.py:56 | `int(str(n)) == n` for every integer. |
| PyText.ParseIntRejectsOther | PlexReport.py:56 | A token holding a character other than a digit, `_`, `+` or `-` is not an integer. |
| PosixPath.LastSlash | PlexReport.py:42 | The last separator: a `/`, with none after it. |
| PosixPath.SplitPath | PlexReport.py:42 | Splitting a path on `/` gives at least one part. |
| PosixPath.JoinSplitPath | PlexReport.py:42 | Joining the parts with `/` gives the path back. |
| PosixPath.SplitPathParts | PlexReport.py:42 | No part holds a separator. |
| PosixPath.SplitPathAppend | PlexReport.py:42 | `parent/name` splits into the parts of `parent` followed by `name`. |
| PosixPath.NormComponentsClean | PlexReport.py:42 | `normpath` keeps no empty, `.` or separator-holding component, and no `..` in an absolute path. |
| PosixPath.CollectionNameIsComponent | PlexReport.py:42 | The collection name holds no `/`. It is empty exactly for an absolute path that normalises to the root. |
| PosixPath.TrailingSeparatorIgnored | PlexReport.py:42 | A trailing `/` does not change the collection name. |
| PosixPath.ChildFolderName | PlexReport.py:42 | `parent/name` and `parent/name/` both have the collection name `name`. |
| PosixPath.LogsFooExample | PlexReport.py:42 | `logs/Foo/` and `logs/Foo` are both the collection `Foo`. |
| CsvReport.RecordOf | PlexReport.py:68 | A row's record has three cells: the name, then two counts with no whitespace. |
| CsvReport.RecordsOf | PlexReport.py:68 | `writerows` gives one three-cell record per row, in row order, each led by the row's name. |
| CsvReport.ReportTable | PlexReport.py:64-68 | The file is one record longer than the rows, starts with the header, and record `k + 1` is row `k`'s. |
| CsvReport.ReadRecord | PlexReport.py:68 | A record read back as a row has three cells, and the row's name is the first. |
| CsvReport.ReadRecords | PlexReport.py:68 | Reading records back gives one row per record. |
| CsvReport.ReadTable | PlexReport.py:64-68 | A table read back starts with the header and gives one row per record after it. |
| CsvReport.RecordRoundTrip | PlexReport.py:68 | Reading a row's record gives the row back. |
| CsvReport.RecordsRoundTrip | PlexReport.py:68 | Reading the records of the rows gives the rows back. |
| CsvReport.ReportRoundTrip | PlexReport.py:64-68 | Reading the report gives back exactly the rows it was written from: name, processed and missing. |
| CsvReport.ReportInjective | PlexReport.py:64-68 | Different rows give different reports. |
| CsvReport.ReportOfRun | PlexReport.py:38-68 | The report of a successful run starts with the header and has one record per selected folder. |

## Left out

- The Tkinter user interface (`PlexReport.py:70-149`) and the configuration file (`PlexReport.py:10-36`): they hold no aggregation logic.
- `glob`, `open` and `readlines`: a folder is its path and the lines of whatever files `glob.glob(os.path.join(folder, '*.log'))` lists. Which files that is, is not modelled: the listing skips hidden files, and it reads `[`, `*` and `?` in the folder path as pattern syntax. The folder's logs are then those of every folder the path matches as a pattern. For `logs/Saga [1977]/` that is `Saga 1`, `Saga 7` or `Saga 9`, usually none, so the row is `(name, 0, 0)`. For a name with `*` or `?`, such as `logs/What?/`, it is the folder itself plus any matching siblings (`Whats`, `What!`, ...), whose counts are added to this collection's row.
- Unreadable files and decoding errors are not modelled; in the code they raise and end the routine.
- Opening and writing the output file in `save_to_csv`: the model gives the sequence of records written to it.
- CsvReport.ReportTable: gives the cells as texts before CSV quoting. The quoting of cells that hold commas, quotes or line breaks, and the line terminators, are not modelled.
- PyText.ParseSpan: accepts an optional sign and ASCII digits with single underscores between digits. Non-ASCII decimal digits, which `int()` also accepts, are left out. Surrounding whitespace cannot occur, because the token comes from `split()`. The limit on the length of integer strings in recent Python releases (3.11 and later, and patched 3.7-3.10: by default `int()` raises `ValueError` for more than 4300 digits) is left out, so the model accepts a count token of any length where such an interpreter ends the routine with an error.
- PyText.ShowInt: writes a count of any size. Under the same limit, `str()` of a count of more than 4300 digits raises `ValueError` when `csv.writer` writes the row (`PlexReport.py:68`); the model does not capture that failure.
- PyText.IsSpace: the whitespace set is the ASCII and Unicode whitespace characters that `str.isspace` accepts, listed explicitly. No Unicode database is consulted.
- PosixPath.CollectionName: models `posixpath` only. The Windows rules of `ntpath` (drive letters, `\` separators) are left out.
- The counters are unbounded integers, as Python's are. Nothing bounds them and nothing claims they are non-negative.
