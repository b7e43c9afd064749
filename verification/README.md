# Log search tool: verified model of its core logic

The tool is a desktop application (`TestApp.py`) with two jobs.

- **Error-code help.** It loads an error-code mapping table from the newest `mapping_table<N>.xlsx` workbook. The "Sample" sheet lists an error code, a cause and a corrective action per row. An empty Cause cell means "same cause as the row above". The Help window resolves a code to its cause and to every corrective action recorded for that cause.
- **Log search.** It searches a set of selected log files for a query, one line per timer tick. The query is a phrase, or a list of alternatives separated by `,` or `;`. Matching ignores case. The matches go into a result table, and clicking a result shows the lines around it, with the clicked line marked.

This project models five pieces of that logic in Dafny and proves what they promise: the choice of the newest mapping file together with the forward-fill load of its sheet, the code resolver, the incremental scan, the term matcher it applies to each line, and the context pane shown for a clicked result. The window code around them is left out.

| module | file | models |
|---|---|---|
| `Wrappers` | `wrappers.dfy` | `Option` |
| `Text` | `text.dfy` | Python `str.strip`, `lower`, `in`, `re.split('[;,]')`, `str.join`, `str(n)`, `int(s)`, `replace(pat, "")`, `os.path.basename` |
| `Order` | `order.dfy` | Python string order and `sorted()` of a set of strings |
| `Mapping` | `mapping.dfy` | the mapping-file version picker, the forward-fill row loop, the shared table (`BaseWindow.__init__`) |
| `Resolver` | `resolver.dfy` | `HelpWindow.perform_search` |
| `Scan` | `scan.dfy` | the term matcher and the incremental scan (`AnalyzingWindow.__init__`, `step_analysis`, `open_result`, `cancel_analysis`) as the class `Analysis` |
| `LogContext` | `context.dfy` | `FoundResultWindow.show_log_context` |

The inputs arrive as values:

- A directory listing is a `seq<string>` of names.
- A sheet is a `seq<SheetRow>`. Each row holds an optional code, cause and action.
- A log file is its path plus its lines, as `readlines()` returns them.
- What `os.path.exists` and `open` find at a path is a `LogSource`.

Behaviour of the code worth knowing, which the model follows:

- **Resolver guard order.** An empty code is rejected before the check that the table is loaded.
- **Retry after a failed load.** A failed load leaves the shared table `None`, so the next window tries again.
- **Cause text.** `cause or "None"` turns an empty cause into `"None"` as well as an absent one.
- **Causes that stay `None`.** The action filter (line 447) compares the text `"None"` with each row's loaded, forward-filled cause, and a cause that stayed `None` is not that text. So a code whose row has no cause lists only the actions of rows whose loaded cause is the text `None`.
- **Version match.** `re.search` takes the leftmost `mapping_table<digits>.xlsx` in a name. The name must also start with `mapping_table` and end with `.xlsx`.

## Model

| member | source | states |
|---|---|---|
| Mapping.FillForward | TestApp.py:163-183 | One table row per sheet row, in sheet order. Code and action are the stripped cell text, or "" for an absent cell. The cause is the forward-filled cause (`LoadedRow`). |
| Mapping.FilledFromAbove | TestApp.py:174-177 | A row's own cause is kept. An absent cause takes the loaded cause of the row above. In the first row it stays absent. |
| Mapping.NearestCause | TestApp.py:163-183 | A loaded cause is absent exactly when no row at or above has a cause. Otherwise it is the cause of the nearest row at or above that has one. |
| Mapping.DigitRun | TestApp.py:146 | The greedy `\d+`: the run of digits from the given offset, followed by the end of the name or by a non-digit. |
| Mapping.VersionOfTableFileName | TestApp.py:145-148 | The name `mapping_table<N>.xlsx` passes both name tests, and its captured version reads back as N. |
| Mapping.PickLatest | TestApp.py:141-153 | No file is picked exactly when no entry has a version. Otherwise the picked entry has the largest version, and every earlier entry has a smaller one: on a tie the first in listing order is kept. |
| Mapping.KeptDespite | TestApp.py:149-151 | An entry whose version is not larger than `latest_version` leaves the kept entry in place. |
| Mapping.KeptByNewMaximum | TestApp.py:149-151 | An entry whose version beats `latest_version` becomes the kept entry. |
| Mapping.LatestUnique | TestApp.py:149 | At most one entry of a listing is the one the strict `>` keeps. |
| Mapping.SharedTable.constructor | TestApp.py:131 | The shared table starts as `None`. |
| Mapping.SharedTable.Acquire | TestApp.py:137-192 | A table that is already loaded is kept. With no versioned entry the table stays `None`. Otherwise the newest file's sheet decides: if the sheet cannot be read the table stays `None`; if it can, the table is that sheet forward-filled, row for row. A load attempted while some entry has a version always has a newest entry to read. |
| Resolver.FirstWithCode | TestApp.py:435 | The index of the first row whose code equals the input exactly, or `None` when no row has that code. |
| Resolver.ActionsForMembers | TestApp.py:445-448 | An action is collected if and only if it is non-empty and some row with the target cause carries it. |
| Resolver.Resolve | TestApp.py:420-453 | The checks run in order. An empty stripped code gives `InvalidInput`. A missing or empty table gives `NotLoaded`. No row with the code gives `NotFound`. Otherwise the result is the first such row's cause, with `None` or "" read as "None", and a strictly ascending list holding exactly the non-empty actions of the rows with that cause. |
| Resolver.ResolutionDetermined | TestApp.py:450 | Two results that meet `Resolve`'s `Found` contract for the same cause are equal, so the action list is fully determined. |
| Resolver.ActionPanelOfFound | TestApp.py:450-453 | With no actions, the action panel shows "No corrective action available.". Otherwise it shows the actions joined by newlines. |
| Order.LessIrreflexive | TestApp.py:450 | No string sorts before itself. |
| Order.LessTransitive | TestApp.py:450 | Python's string order is transitive. |
| Order.LessTotal | TestApp.py:450 | Of two different strings, one sorts before the other. |
| Order.LessAsymmetric | TestApp.py:450 | Two strings never sort before each other. |
| Order.LeastExists | TestApp.py:450 | Every non-empty set of strings has a least element. |
| Order.SortedDistinct | TestApp.py:450 | `sorted()` of a set is strictly ascending and holds exactly the set's elements. |
| Order.SortedUnique | TestApp.py:450 | Two strictly ascending lists with the same elements are equal. |
| Text.TrimStartSpec | TestApp.py:421 | `lstrip` leaves a suffix that does not start with white space, and it drops only white space. |
| Text.TrimEndSpec | TestApp.py:421 | `rstrip` leaves a prefix that does not end with white space, and it drops only white space. |
| Text.StripSpec | TestApp.py:421 | `strip` leaves an infix surrounded only by white space, and the infix neither starts nor ends with white space. |
| Text.LowerIdempotent | TestApp.py:740-741 | Lowering twice is lowering once. |
| Text.TrimStartLower | TestApp.py:741 | `lstrip` commutes with lowering. |
| Text.TrimEndLower | TestApp.py:741 | `rstrip` commutes with lowering. |
| Text.StripLower | TestApp.py:741 | `strip().lower()` equals `lower().strip()`. |
| Text.ContainsFromOffset | TestApp.py:748 | An occurrence at any offset makes `needle in hay` true. |
| Text.ContainsOffset | TestApp.py:748 | `needle in hay` yields an offset at which `needle` occurs. |
| Text.ContainsAt | TestApp.py:748 | `needle in hay` holds if and only if `needle` occurs at some offset. |
| Text.ContainsEmpty | TestApp.py:746 | The empty string occurs in every line. |
| Text.SplitOn | TestApp.py:745 | `re.split('[;,]')` gives at least one piece, and no piece holds a delimiter. |
| Text.SplitFirst | TestApp.py:745 | Text with no delimiter is a single piece. The text before a first delimiter is the first piece, and the rest is split again. |
| Text.SplitJoin | TestApp.py:745 | For a single delimiter, joining the pieces with it gives back the original text. |
| Text.JoinNonEmpty | TestApp.py:453 | Joining a list whose first string is non-empty gives non-empty text. |
| Text.Decimal | TestApp.py:894 | `str(n)` of a natural number is a non-empty run of digits. |
| Text.DecimalRoundTrip | TestApp.py:148 | The digits of `str(n)` have the value `n`. |
| Text.ParseDecimal | TestApp.py:931 | `int(str(n)) == n`. |
| Text.RemoveAllAbsent | TestApp.py:931 | `replace("Line", "")` leaves text that never contains 'L' unchanged. |
| Text.BasenameSpec | TestApp.py:752 | `basename` is the longest suffix of the path that contains no '/'. |
| Scan.MatchIgnoresCase | TestApp.py:740-748 | Lowering the line or the query does not change whether the line matches. |
| Scan.EmptyTermMatchesAll | TestApp.py:744-746 | A list query with an empty term, such as `"a,"`, matches every line. |
| Scan.EntriesAt | TestApp.py:726-737 | Line `j` of file `k` is read at position `LinesBefore(files, k) + j` of the scan (the lines of the files before it, plus `j`), with line number `j + 1` and that file's path. |
| Scan.EntryOrigin | TestApp.py:726-737 | Every position of the scan is line `j` of some file `k`. |
| Scan.RecordOfMatchIn | TestApp.py:750-756 | A matching line among those read so far has its record among the results. |
| Scan.RecordOrigin | TestApp.py:750-756 | Every result is the record of a matching line read so far. |
| Scan.RecordsComplete | TestApp.py:750-756 | A record is produced if and only if it is the record of a matching line read so far. |
| Scan.MatchingLineReported | TestApp.py:726-756 | Every matching line of every file yields a record: the file's base name, the 1-based line number, the stripped text and the path. |
| Scan.ReportedLineMatches | TestApp.py:750-756 | Every record is a matching line of one of the files: its path, a line number within that file, its base name and its stripped text. |
| Scan.RecordsGrow | TestApp.py:751 | Reading on only appends records. |
| Scan.RecordsInOrder | TestApp.py:762-771 | The record of an earlier matching line stands before the record of a later one. |
| Scan.RecordsOfLine | TestApp.py:735-756 | Reading line `j` of file `k` appends its record, numbered `j + 1`, exactly when the line matches. |
| Scan.RecordsAdvance | TestApp.py:750-756 | When the results so far are the records of the lines read, appending the next line's record exactly when it matches gives the records of one more line. |
| Scan.ReadLineKeeps | TestApp.py:735-760 | Reading one more line of the current file, and appending its record exactly when it matches, keeps the results equal to the records of the lines read, and the progress does not decrease. |
| Scan.PercentMonotone | TestApp.py:759 | Progress never decreases, never exceeds 100, and is 100 once every line is read. |
| Scan.CountLines | TestApp.py:706 | `total_lines` is the sum of the files' line counts. |
| Scan.Analysis.constructor | TestApp.py:705-713 | The scan starts before the first file, with no line read, no results and progress 0. |
| Scan.Analysis.OpenNext | TestApp.py:726-732 | The next file becomes the current one, with none of its lines read. Counters and results are unchanged. |
| Scan.Analysis.ReadLine | TestApp.py:735-760 | One more line is read. The global counter rises by one. Results only grow, by at most one record. Progress does not decrease. |
| Scan.Analysis.CloseFile | TestApp.py:762-763 | An exhausted file is let go. After the last file, the counter equals `total_lines`. |
| Scan.Analysis.Step | TestApp.py:721-774 | With lines left, one tick reads exactly one line, passing over exhausted and empty files. With none left, the scan finishes. The results are always the records of the lines read so far, in scan order. Progress never decreases and never exceeds 100. A stopped scan does not change. |
| Scan.Analysis.Cancel | TestApp.py:789-793 | Cancelling stops the scan and keeps the lines read and the results. |
| Scan.RunToCompletion | TestApp.py:772-786 | Driven to the end, the scan takes one tick per line plus a last tick. It shows "nothing found" exactly when no line of any file matches. Otherwise it shows every matching line's record, in file order and then line order. |
| LogContext.LocationRoundTrip | TestApp.py:929-931 | The number in a `"Line N"` cell (line 894) reads back as N. |
| LogContext.SliceBound | TestApp.py:947 | A Python slice bound is clamped to the sequence. A bound already in range is kept. |
| LogContext.Highlight | TestApp.py:945-954 | The loop's lines are the numbered, marked window `ContextLines`. |
| LogContext.ShowLogContext | TestApp.py:928-959 | The checks run in order. An unparsable cell gives "Invalid line number format.". A missing path or file gives "File not found.". A failed read gives "Error reading file". Otherwise the pane shows the window around the parsed line. |
| LogContext.ContextWindow | TestApp.py:945-950 | For line `n` the window holds lines `max(1, n-5)` to `min(len, n+5)`, at most 11 of them, each under its own 1-based number. |
| LogContext.MarkedLine | TestApp.py:951-954 | A pane line carries the `">>> "` marker exactly when its number is the clicked one. |
| LogContext.ContextMarks | TestApp.py:945-954 | Exactly the clicked line is marked. Some line is marked if and only if line `n` exists, and that line shows line `n`'s stripped text. |
| LogContext.ClickedRecordMarked | TestApp.py:928-956 | Clicking any reported record shows a pane in which the marked line carries the record's number and text. |

## Left out

- The Qt user interface is not modelled: widgets, layouts, styles, dragging, window navigation and message boxes. Message boxes appear only as result values.
- The workbook is not modelled: reading it through openpyxl, its header row, and the mapping from column names to cells. A sheet arrives as rows of three optional cells.
- Directory and file access are not modelled: `os.listdir`, the `sys._MEIPASS` base path, and `open` with UTF-8 decoding (`errors='ignore'`). Files arrive as line sequences.
- Cells with non-string values (numbers, dates) and their `str()` rendering are not modelled. Cells are strings.
- Mid-scan read errors are not modelled. They are not caught in the code.
- `QTimer` scheduling is the caller's concern. `RunToCompletion` calls `Step` in a loop instead.
- `print` logging is not modelled.
- Scan.Percent: progress is the integer `current * 100 / total`. The code computes `int(current / total * 100)` in floating point, which can be one lower (29 of 100 gives 28).
- Text.LowerChar: lowering covers ASCII letters only. Python's `lower()` also folds other Unicode letters.
- Text.IsDigit, Mapping.DigitRun, Mapping.MatchAt: ASCII digits only. Python's `\d` in the version pattern (line 146) and `int()` also accept other Unicode decimal digits, and `int()` accepts `_` separators.
- Text.Basename: only the POSIX separator `/` is modelled. On Windows `\` also separates.
- LogContext.PaneText: the read-error text omits the exception's own message.
- Scan.Analysis.Step: the recursion over empty files is unbounded here. In Python it is bounded by the interpreter's recursion limit.
- The skip counter `skip_ahead` is set up but never read, so it is not modelled.
