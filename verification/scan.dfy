/** The log scan (`AnalyzingWindow`): a cursor over the selected files that
    reads one line per timer tick, tests it against the search text, and
    appends a record for every line that matches. */
module Scan {
  import opened Wrappers
  import opened Text

  /** A selected log file: its path and its lines, as `readlines()` gives them. */
  datatype LogFile = LogFile(path: string, lines: seq<string>)

  /** One row of the result table: the file's base name, the 1-based line
      number, the stripped line, and the full path. */
  datatype MatchRecord = MatchRecord(file: string, line: nat, text: string, path: string)

  const TermDelimiters: set<char> := {',', ';'}

  /** The stripped pieces of a query, split at every ',' and ';'. */
  function Terms(query: string): seq<string> {
    var parts := SplitOn(query, TermDelimiters);
    seq(|parts|, k requires 0 <= k < |parts| => Strip(parts[k]))
  }

  /** The test `step_analysis` applies to a line: case-insensitive, on the
      stripped query. */
  predicate LineMatches(searchText: string, line: string) {
    MatchesLowered(Lower(Strip(searchText)), Lower(line))
  }

  /** The test on the lowered query and line: a query holding ',' or ';' is
      a list of alternatives, any of which may occur in the line; otherwise
      the whole query must occur in it. */
  predicate MatchesLowered(searchInput: string, lineLower: string) {
    if ',' in searchInput || ';' in searchInput then
      var terms := Terms(searchInput);
      exists k :: 0 <= k < |terms| && Contains(lineLower, terms[k])
    else
      Contains(lineLower, searchInput)
  }

  /** Matching ignores the case of the line and of the query. */
  lemma MatchIgnoresCase(searchText: string, line: string)
    ensures LineMatches(searchText, Lower(line)) == LineMatches(searchText, line)
    ensures LineMatches(Lower(searchText), line) == LineMatches(searchText, line)
  {
    LowerIdempotent(line);
    StripLower(searchText);
    LowerIdempotent(Strip(searchText));
  }

  /** A list query with an empty alternative (`"a,"`, `"a,,b"`, `";"`)
      matches every line. */
  lemma EmptyTermMatchesAll(searchText: string, line: string)
    requires var q := Lower(Strip(searchText)); (',' in q || ';' in q) && "" in Terms(q)
    ensures LineMatches(searchText, line)
  {
    var terms := Terms(Lower(Strip(searchText)));
    var k :| 0 <= k < |terms| && terms[k] == "";
    ContainsEmpty(Lower(line));
  }

  /** One line in scan order: its file's path, its 1-based number in that
      file, and its text. */
  datatype Entry = Entry(path: string, line: nat, text: string)

  function FileEntries(f: LogFile): seq<Entry> {
    seq(|f.lines|, k requires 0 <= k < |f.lines| => Entry(f.path, k + 1, f.lines[k]))
  }

  /** The entries of the first `k` files: the files in the order selected,
      each file's lines in file order. */
  function EntriesUpTo(files: seq<LogFile>, k: nat): seq<Entry>
    requires k <= |files|
  {
    if k == 0 then [] else EntriesUpTo(files, k - 1) + FileEntries(files[k - 1])
  }

  /** Every line of every file, in scan order. */
  function Entries(files: seq<LogFile>): seq<Entry> {
    EntriesUpTo(files, |files|)
  }

  /** The number of lines in the first `k` files. */
  function LinesBefore(files: seq<LogFile>, k: nat): nat
    requires k <= |files|
  {
    if k == 0 then 0 else LinesBefore(files, k - 1) + |files[k - 1].lines|
  }

  /** `total_lines`: the number of lines over all files. */
  function TotalLines(files: seq<LogFile>): nat {
    LinesBefore(files, |files|)
  }

  /** More files hold at least as many lines. */
  lemma {:induction false} LinesBeforeGrow(files: seq<LogFile>, k: nat, n: nat)
    requires k <= n <= |files|
    ensures LinesBefore(files, k) <= LinesBefore(files, n)
    decreases n - k
  {
    if k < n {
      LinesBeforeGrow(files, k, n - 1);
    }
  }

  /** The first `k` files give one entry per line. */
  lemma {:induction false} EntriesLength(files: seq<LogFile>, k: nat)
    requires k <= |files|
    ensures |EntriesUpTo(files, k)| == LinesBefore(files, k)
  {
    if k > 0 {
      EntriesLength(files, k - 1);
    }
  }

  /** The entries of fewer files are a prefix of those of more. */
  lemma {:induction false} EntriesGrow(files: seq<LogFile>, k: nat, n: nat)
    requires k <= n <= |files|
    ensures EntriesUpTo(files, k) <= EntriesUpTo(files, n)
    decreases n - k
  {
    if k < n {
      EntriesGrow(files, k, n - 1);
    }
  }

  /** Line `j` (0-based) of file `k` is the entry at the global position
      `LinesBefore(files, k) + j`, numbered `j + 1`: the per-file number
      starts again at 1 in every file. */
  lemma EntriesAt(files: seq<LogFile>, k: nat, j: nat)
    requires k < |files| && j < |files[k].lines|
    ensures LinesBefore(files, k) + j < |Entries(files)| == TotalLines(files)
    ensures Entries(files)[LinesBefore(files, k) + j] == Entry(files[k].path, j + 1, files[k].lines[j])
  {
    var upTo := EntriesUpTo(files, k + 1);
    EntriesLength(files, k);
    EntriesLength(files, |files|);
    EntriesGrow(files, k + 1, |files|);
    assert upTo[LinesBefore(files, k) + j] == FileEntries(files[k])[j];
  }

  /** Every entry is some line of some file. */
  lemma EntryOrigin(files: seq<LogFile>, i: nat) returns (k: nat, j: nat)
    requires i < |Entries(files)|
    ensures k < |files| && j < |files[k].lines| && i == LinesBefore(files, k) + j
    ensures Entries(files)[i] == Entry(files[k].path, j + 1, files[k].lines[j])
  {
    k, j := EntryOriginUpTo(files, |files|, i);
    EntriesAt(files, k, j);
  }

  /** Every position among the entries of the first `n` files falls in one of them. */
  lemma {:induction false} EntryOriginUpTo(files: seq<LogFile>, n: nat, i: nat) returns (k: nat, j: nat)
    requires n <= |files| && i < |EntriesUpTo(files, n)|
    ensures k < n && j < |files[k].lines| && i == LinesBefore(files, k) + j
  {
    EntriesLength(files, n - 1);
    if i < LinesBefore(files, n - 1) {
      k, j := EntryOriginUpTo(files, n - 1, i);
    } else {
      k, j := n - 1, i - LinesBefore(files, n - 1);
      EntriesLength(files, n);
    }
  }

  function RecordOf(e: Entry): MatchRecord {
    MatchRecord(Basename(e.path), e.line, Strip(e.text), e.path)
  }

  /** The records appended while the first `n` entries of `es` are read,
      in order. */
  function Records(searchText: string, es: seq<Entry>, n: nat): seq<MatchRecord>
    requires n <= |es|
  {
    if n == 0 then []
    else
      Records(searchText, es, n - 1)
        + (if LineMatches(searchText, es[n - 1].text) then [RecordOf(es[n - 1])] else [])
  }

  /** A record is produced for exactly the matching entries. */
  lemma {:induction false} RecordsComplete(searchText: string, es: seq<Entry>, n: nat, r: MatchRecord)
    requires n <= |es|
    ensures r in Records(searchText, es, n) <==>
      exists i :: 0 <= i < n && LineMatches(searchText, es[i].text) && r == RecordOf(es[i])
  {
    if n > 0 {
      RecordsComplete(searchText, es, n - 1, r);
    }
  }

  /** Every matching line of every file is reported, with its file's base
      name, its 1-based number and its stripped text. */
  lemma MatchingLineReported(searchText: string, files: seq<LogFile>, k: nat, j: nat)
    requires k < |files| && j < |files[k].lines|
    requires LineMatches(searchText, files[k].lines[j])
    ensures MatchRecord(Basename(files[k].path), j + 1, Strip(files[k].lines[j]), files[k].path)
              in Records(searchText, Entries(files), |Entries(files)|)
  {
    var es := Entries(files);
    var i := LinesBefore(files, k) + j;
    EntriesAt(files, k, j);
    assert RecordOf(es[i]) == MatchRecord(Basename(files[k].path), j + 1, Strip(files[k].lines[j]), files[k].path);
    RecordOfMatchIn(searchText, es, |es|, i);
  }

  /** A matching entry among the first `n` contributes its record. */
  lemma {:induction false} RecordOfMatchIn(searchText: string, es: seq<Entry>, n: nat, i: nat)
    requires i < n <= |es| && LineMatches(searchText, es[i].text)
    ensures RecordOf(es[i]) in Records(searchText, es, n)
    decreases n
  {
    var prev := Records(searchText, es, n - 1);
    assert Records(searchText, es, n)
        == prev + (if LineMatches(searchText, es[n - 1].text) then [RecordOf(es[n - 1])] else []);
    if i < n - 1 {
      RecordOfMatchIn(searchText, es, n - 1, i);
      assert RecordOf(es[i]) in prev;
    } else {
      assert Records(searchText, es, n)[|prev|] == RecordOf(es[i]);
    }
  }

  /** Record `r` is a matching line of file `k`: the record's path is the
      file's, its number is within the file, and its text is that line
      stripped. */
  predicate ReportedFrom(searchText: string, files: seq<LogFile>, k: int, r: MatchRecord) {
    && 0 <= k < |files|
    && r.path == files[k].path
    && 1 <= r.line <= |files[k].lines|
    && r.file == Basename(r.path)
    && r.text == Strip(files[k].lines[r.line - 1])
    && LineMatches(searchText, files[k].lines[r.line - 1])
  }

  /** Every reported record is a matching line of one of the files: the
      record's path is the file's, its number is within the file, and its
      text is that line stripped. */
  lemma ReportedLineMatches(searchText: string, files: seq<LogFile>, r: MatchRecord)
    requires r in Records(searchText, Entries(files), |Entries(files)|)
    ensures exists k :: ReportedFrom(searchText, files, k, r)
  {
    var es := Entries(files);
    var i := RecordOrigin(searchText, es, |es|, r);
    var k, j := EntryOrigin(files, i);
    assert r == MatchRecord(Basename(files[k].path), j + 1, Strip(files[k].lines[j]), files[k].path);
    assert ReportedFrom(searchText, files, k, r);
  }

  /** A record among those of the first `n` entries comes from a matching one of them. */
  lemma {:induction false} RecordOrigin(searchText: string, es: seq<Entry>, n: nat, r: MatchRecord) returns (i: nat)
    requires n <= |es| && r in Records(searchText, es, n)
    ensures i < n && LineMatches(searchText, es[i].text) && r == RecordOf(es[i])
    decreases n
  {
    if r in Records(searchText, es, n - 1) {
      i := RecordOrigin(searchText, es, n - 1, r);
    } else {
      i := n - 1;
    }
  }

  /** Reading further only appends: the records of fewer entries are a
      prefix of the records of more. */
  lemma {:induction false} RecordsGrow(searchText: string, es: seq<Entry>, m: nat, n: nat)
    requires m <= n <= |es|
    ensures Records(searchText, es, m) <= Records(searchText, es, n)
    decreases n - m
  {
    if m < n {
      RecordsGrow(searchText, es, m, n - 1);
    }
  }

  /** Records come in scan order: the record of an earlier matching entry
      stands before the record of a later one. */
  lemma {:induction false} RecordsInOrder(searchText: string, es: seq<Entry>, i: nat, j: nat)
    requires i < j < |es|
    requires LineMatches(searchText, es[i].text) && LineMatches(searchText, es[j].text)
    ensures |Records(searchText, es, i)| < |Records(searchText, es, j)|
    ensures Records(searchText, es, j + 1)[|Records(searchText, es, i)|] == RecordOf(es[i])
    ensures Records(searchText, es, j + 1)[|Records(searchText, es, j)|] == RecordOf(es[j])
  {
    var before, upTo := Records(searchText, es, i), Records(searchText, es, i + 1);
    var last, all := Records(searchText, es, j), Records(searchText, es, j + 1);
    assert upTo == before + [RecordOf(es[i])];
    assert all == last + [RecordOf(es[j])];
    RecordsGrow(searchText, es, i + 1, j);
    assert upTo <= last;
    assert all[|before|] == last[|before|] == upTo[|before|];
  }

  /** Reading line `j` of file `k` appends that line's record, numbered
      `j + 1` and carrying the file's base name, exactly when it matches. */
  lemma RecordsOfLine(searchText: string, files: seq<LogFile>, k: nat, j: nat)
    requires k < |files| && j < |files[k].lines|
    ensures LinesBefore(files, k) + j < TotalLines(files) == |Entries(files)|
    ensures var n := LinesBefore(files, k) + j;
      var line := files[k].lines[j];
      Records(searchText, Entries(files), n + 1) == Records(searchText, Entries(files), n)
        + (if LineMatches(searchText, line) then [MatchRecord(Basename(files[k].path), j + 1, Strip(line), files[k].path)] else [])
  {
    EntriesAt(files, k, j);
  }

  /** The progress bar value after `current` of `total` lines:
      `int((current / total) * 100)`. */
  function Percent(current: nat, total: nat): nat {
    if total == 0 then 0 else current * 100 / total
  }

  lemma MulSucc(d: nat, q: nat)
    ensures d * (q + 1) == d * q + d
  {
  }

  lemma DivMonotone(a: nat, b: nat, d: nat)
    requires a <= b && d > 0
    ensures a / d <= b / d
  {
    var qa, qb := a / d, b / d;
    assert a == d * qa + a % d;
    assert b == d * qb + b % d && b % d < d;
    MulLe(d, qb + 1, qa);
    MulSucc(d, qb);
  }

  /** Multiplication by a natural number keeps order. */
  lemma {:induction false} MulLe(d: nat, x: nat, y: nat)
    ensures x <= y ==> d * x <= d * y
    decreases if x <= y then y - x else 0
  {
    if x < y {
      MulLe(d, x, y - 1);
      MulSucc(d, y - 1);
    }
  }

  /** Progress never moves backwards and never passes 100; it is 100 once
      every line has been read. */
  lemma PercentMonotone(c: nat, d: nat, total: nat)
    requires c <= d <= total
    ensures Percent(c, total) <= Percent(d, total) <= 100
    ensures total > 0 ==> Percent(total, total) == 100
  {
    if total > 0 {
      var x, y, z := c * 100, d * 100, total * 100;
      DivMonotone(x, y, total);
      DivMonotone(y, z, total);
      WholeDiv(total);
    }
  }

  lemma WholeDiv(total: nat)
    requires total > 0
    ensures total * 100 / total == 100
  {
  }

  /** `sum(1 for f in selected_files for _ in open(f))`. */
  method CountLines(files: seq<LogFile>) returns (total: nat)
    ensures total == TotalLines(files)
  {
    total := 0;
    for k := 0 to |files|
      invariant total == LinesBefore(files, k)
    {
      total := total + |files[k].lines|;
    }
  }

  /** `Analysis.Positioned` on the values of the fields. */
  ghost predicate PositionedAt(files: seq<LogFile>, searchText: string, totalLines: nat, fileIndex: nat,
                               currentFile: Option<string>, lines: seq<string>, lineNum: nat,
                               currentLine: nat, resultData: seq<MatchRecord>, progress: nat)
  {
    && totalLines == TotalLines(files)
    && fileIndex <= |files|
    && currentLine <= totalLines
    && |Entries(files)| == totalLines
    && resultData == Records(searchText, Entries(files), currentLine)
    && progress == Percent(currentLine, totalLines) <= 100
    && (currentFile.Some? ==>
          && 1 <= fileIndex
          && currentFile.value == files[fileIndex - 1].path
          && lines == files[fileIndex - 1].lines
          && lineNum <= |lines|
          && currentLine == LinesBefore(files, fileIndex - 1) + lineNum)
    && (currentFile.None? ==> currentLine == LinesBefore(files, fileIndex))
  }

  /** Reading one more line of the current file keeps the cursor positioned:
      the record of the line, if it matches, is the next record of the scan
      order, and the progress does not move backwards. */
  lemma ReadLineKeeps(files: seq<LogFile>, searchText: string, totalLines: nat, fileIndex: nat,
                      currentFile: Option<string>, lines: seq<string>, lineNum: nat,
                      currentLine: nat, resultData: seq<MatchRecord>, progress: nat, appended: seq<MatchRecord>)
    requires PositionedAt(files, searchText, totalLines, fileIndex, currentFile, lines, lineNum, currentLine, resultData, progress)
    requires currentFile.Some? && lineNum < |lines|
    requires var line := lines[lineNum];
      var path := currentFile.value;
      appended == if LineMatches(searchText, line)
        then resultData + [MatchRecord(Basename(path), lineNum + 1, Strip(line), path)]
        else resultData
    ensures PositionedAt(files, searchText, totalLines, fileIndex, currentFile, lines, lineNum + 1,
                         currentLine + 1, appended, Percent(currentLine + 1, totalLines))
    ensures progress <= Percent(currentLine + 1, totalLines) <= 100
  {
    RecordsAdvance(searchText, files, fileIndex - 1, lineNum, resultData, appended);
    PercentMonotone(currentLine, currentLine + 1, totalLines);
  }

  /** `RecordsOfLine` for a scan that has read the records `prev` so far. */
  lemma RecordsAdvance(searchText: string, files: seq<LogFile>, k: nat, j: nat,
                       prev: seq<MatchRecord>, next: seq<MatchRecord>)
    requires k < |files| && j < |files[k].lines| && LinesBefore(files, k) + j <= |Entries(files)|
    requires prev == Records(searchText, Entries(files), LinesBefore(files, k) + j)
    requires var line := files[k].lines[j];
      next == if LineMatches(searchText, line)
        then prev + [MatchRecord(Basename(files[k].path), j + 1, Strip(line), files[k].path)]
        else prev
    ensures LinesBefore(files, k) + j < |Entries(files)|
    ensures next == Records(searchText, Entries(files), LinesBefore(files, k) + j + 1)
  {
    RecordsOfLine(searchText, files, k, j);
  }

  datatype Phase = Scanning | Finished | Cancelled

  /** The scanning state of an `AnalyzingWindow`. `fileIndex` is how far
      `file_iter` has advanced, `currentFile`/`lines`/`lineNum` are the file
      being read and how many of its lines were read, `currentLine` counts
      the lines read over all files. */
  class Analysis {
    const files: seq<LogFile>
    const searchText: string
    const totalLines: nat
    var fileIndex: nat
    var currentFile: Option<string>
    var lines: seq<string>
    var lineNum: nat
    var currentLine: nat
    var resultData: seq<MatchRecord>
    var progress: nat
    var phase: Phase

    /** The cursor sits after the first `currentLine` entries of the scan
        order, inside file `fileIndex - 1` or between files, and the results
        are the records of exactly those entries. */
    ghost predicate Positioned()
      reads this
    {
      PositionedAt(files, searchText, totalLines, fileIndex, currentFile, lines, lineNum, currentLine, resultData, progress)
    }

    /** A scan that has not opened a file has not started; a finished scan
        has gone through every file. */
    ghost predicate Valid()
      reads this
    {
      && Positioned()
      && (phase == Scanning && currentFile.None? ==> fileIndex == 0)
      && (phase == Finished ==> currentFile.None? && fileIndex == |files|)
    }

    /** The window's constructor: count the lines up front, nothing read yet. */
    constructor (files: seq<LogFile>, searchText: string)
      ensures Valid()
      ensures this.files == files && this.searchText == searchText
      ensures phase == Scanning && currentFile.None? && fileIndex == 0
      ensures currentLine == 0 && resultData == [] && progress == 0
    {
      this.files := files;
      this.searchText := searchText;
      var total := CountLines(files);
      totalLines := total;
      fileIndex := 0;
      currentFile := None;
      lines := [];
      lineNum := 0;
      currentLine := 0;
      resultData := [];
      progress := 0;
      phase := Scanning;
      new;
      EntriesLength(files, |files|);
    }

    /** `next(self.file_iter)` and `readlines()`: the next file becomes the
        current one, with none of its lines read. */
    method OpenNext()
      requires Positioned() && currentFile.None? && fileIndex < |files|
      modifies this
      ensures Positioned() && currentFile.Some? && lineNum == 0
      ensures fileIndex == old(fileIndex) + 1 && phase == old(phase)
      ensures currentLine == old(currentLine) && resultData == old(resultData) && progress == old(progress)
    {
      var file := files[fileIndex];
      fileIndex := fileIndex + 1;
      currentFile := Some(file.path);
      lines := file.lines;
      lineNum := 0;
    }

    /** `next(self.lines_iter)` succeeding: one more line is read, its record
        appended when it matches, and the progress bar moved. */
    method ReadLine()
      requires Positioned() && currentFile.Some? && lineNum < |lines|
      modifies this
      ensures Positioned() && currentFile == old(currentFile) && fileIndex == old(fileIndex)
      ensures phase == old(phase) && currentLine == old(currentLine) + 1
      ensures old(resultData) <= resultData && |resultData| <= |old(resultData)| + 1
      ensures old(progress) <= progress <= 100
    {
      var line := lines[lineNum];
      var path := currentFile.value;
      var records := resultData;
      if LineMatches(searchText, line) {
        records := records + [MatchRecord(Basename(path), lineNum + 1, Strip(line), path)];
      }
      ReadLineKeeps(files, searchText, totalLines, fileIndex, currentFile, lines,
                    lineNum, currentLine, resultData, progress, records);
      lineNum, currentLine, resultData, progress := lineNum + 1, currentLine + 1, records, Percent(currentLine + 1, totalLines);
    }

    /** `next(self.lines_iter)` raising `StopIteration`: the exhausted file
        is let go. */
    method CloseFile()
      requires Positioned() && currentFile.Some? && lineNum == |lines|
      modifies this
      ensures Positioned() && currentFile.None? && fileIndex == old(fileIndex) && phase == old(phase)
      ensures currentLine == old(currentLine) && resultData == old(resultData) && progress == old(progress)
      ensures fileIndex == |files| ==> currentLine == totalLines
    {
      currentFile := None;
    }

    /** `step_analysis`, one timer tick: read the next line of the scan order
        (opening files and passing over exhausted or empty ones within the
        same tick), or, when no line is left, stop. */
    method Step()
      requires Valid()
      modifies this
      decreases |files| - fileIndex
      ensures Valid()
      ensures old(phase) != Scanning ==> unchanged(this)
      ensures old(phase) == Scanning && old(currentLine) < totalLines ==>
                phase == Scanning && currentLine == old(currentLine) + 1
      ensures old(phase) == Scanning && old(currentLine) == totalLines ==>
                phase == Finished && currentLine == old(currentLine)
      ensures old(resultData) <= resultData && |resultData| <= |old(resultData)| + 1
      ensures old(progress) <= progress <= 100
    {
      if phase != Scanning {
        return;
      }
      if currentFile.None? {
        if fileIndex == |files| {
          assert files == [];
          phase := Finished;
          return;
        }
        OpenNext();
      }
      if lineNum < |lines| {
        ReadLine();
      } else {
        CloseFile();
        if fileIndex == |files| {
          phase := Finished;
          return;
        }
        OpenNext();
        Step();
      }
    }

    /** `cancel_analysis`: the timer stops, so no further tick reads a line;
        the results gathered so far are not handed on. */
    method Cancel()
      requires Valid()
      modifies this
      ensures Valid() && phase == Cancelled
      ensures currentLine == old(currentLine) && resultData == old(resultData)
    {
      phase := Cancelled;
    }
  }

  /** What `open_result` shows once the scan has stopped by itself. */
  datatype ScanOutcome = NothingFound | Results(records: seq<MatchRecord>)

  /** The timer driving a fresh scan until it stops by itself: one tick per
      line, and one last tick that finds nothing left to read. The records
      are those of every matching line, in file order and then line order. */
  method RunToCompletion(files: seq<LogFile>, searchText: string)
    returns (outcome: ScanOutcome, ticks: nat)
    ensures var all := Records(searchText, Entries(files), |Entries(files)|);
      outcome == if all == [] then NothingFound else Results(all)
    ensures ticks == TotalLines(files) + 1
  {
    var analysis := new Analysis(files, searchText);
    ticks := 0;
    while analysis.phase == Scanning
      invariant analysis.Valid()
      invariant analysis.files == files && analysis.searchText == searchText
      invariant analysis.phase != Cancelled
      invariant analysis.phase == Scanning ==> ticks == analysis.currentLine
      invariant analysis.phase == Finished ==> ticks == analysis.totalLines + 1
      decreases analysis.totalLines - analysis.currentLine, if analysis.phase == Scanning then 1 else 0
    {
      analysis.Step();
      ticks := ticks + 1;
    }
    var records := analysis.resultData;
    outcome := if records == [] then NothingFound else Results(records);
  }
}
