/** The context pane of the results window (`FoundResultWindow.show_log_context`):
    clicking a result reads the line number back from its "Line N" cell and
    shows the lines around line N of the file, numbered, with line N marked. */
module LogContext {
  import opened Wrappers
  import opened Text
  import opened Scan

  /** The text of a result's Location cell: `f"Line {line}"`. */
  function LocationLabel(line: nat): string {
    "Line " + Decimal(line)
  }

  /** `int(cell.replace("Line", "").strip())`, `None` for a `ValueError`. */
  function ParseLocation(cell: string): Option<int> {
    ParseInt(Strip(RemoveAll(cell, "Line")))
  }

  /** The number a Location cell shows is the number read back from it. */
  lemma LocationRoundTrip(line: nat)
    ensures ParseLocation(LocationLabel(line)) == Some(line)
  {
    var ds := Decimal(line);
    var cell := LocationLabel(line);
    assert cell[..4] == "Line";
    assert cell[4..] == " " + ds;
    assert RemoveAll(cell, "Line") == RemoveAll(" " + ds, "Line");
    forall k | 0 <= k < |" " + ds|
      ensures (" " + ds)[k] != 'L'
    {
      if k > 0 {
        assert IsDigit(ds[k - 1]);
      }
    }
    RemoveAllAbsent(" " + ds, "Line");
    assert IsDigit(ds[0]) && IsDigit(ds[|ds| - 1]);
    TrimEndSpec(" " + ds);
    assert TrimEnd(" " + ds) == " " + ds;
    assert (" " + ds)[1..] == ds;
    assert TrimStart(ds) == ds;
    assert Strip(" " + ds) == ds;
    ParseDecimal(line);
  }

  /** Python's normalisation of a slice bound `i` for a sequence of length
      `len`: a negative bound counts from the end, and the result is clamped
      to `0..len`. */
  function SliceBound(i: int, len: nat): (b: nat)
    ensures b <= len
    ensures 0 <= i <= len ==> b == i
  {
    if i < 0 then (if i + len < 0 then 0 else i + len)
    else if i > len then len
    else i
  }

  /** `s[i:j]`. */
  function PySlice<T>(s: seq<T>, i: int, j: int): seq<T> {
    var a := SliceBound(i, |s|);
    var b := SliceBound(j, |s|);
    if a < b then s[a..b] else []
  }

  /** `max(0, line_num - 6)` */
  function WindowStart(n: int): nat {
    if n - 6 < 0 then 0 else n - 6
  }

  /** `min(len(lines), line_num + 5)` */
  function WindowEnd(len: nat, n: int): int {
    if len < n + 5 then len else n + 5
  }

  const Marker := ">>> "
  const NoMarker := "    "

  /** One line of the pane: marked when it is the clicked line. */
  function NumberedLine(idx: nat, target: int, text: string): string {
    (if idx == target then Marker else NoMarker) + ("Line " + Decimal(idx) + ": " + Strip(text))
  }

  /** The pane's lines for line number `n`: the slice `lines[start:end]`,
      numbered from `start + 1`. */
  function ContextLines(lines: seq<string>, n: int): (c: seq<string>) {
    var start := WindowStart(n);
    var context := PySlice(lines, start, WindowEnd(|lines|, n));
    seq(|context|, k requires 0 <= k < |context| => NumberedLine(start + 1 + k, n, context[k]))
  }

  /** What `os.path.exists` and `open` find at a result's path. */
  datatype LogSource = Absent | Unreadable | Readable(lines: seq<string>)

  /** What the pane shows after a click. */
  datatype ContextView =
    | InvalidLineNumber
    | FileNotFound
    | ReadError
    | Context(lines: seq<string>)

  /** The pane's text. The message of a read error also carries the
      exception's text, which is not modelled. */
  function PaneText(v: ContextView): string {
    match v
    case InvalidLineNumber => "Invalid line number format."
    case FileNotFound => "File not found."
    case ReadError => "Error reading file: "
    case Context(lines) => JoinWith(lines, "\n")
  }

  /** `show_log_context` for the clicked row's Location cell and path. The
      checks run in the source's order: the cell, then the path, then the
      read. */
  method ShowLogContext(cell: string, path: string, source: LogSource) returns (view: ContextView)
    ensures ParseLocation(cell).None? ==> view == InvalidLineNumber
    ensures ParseLocation(cell).Some? && (path == "" || source.Absent?) ==> view == FileNotFound
    ensures ParseLocation(cell).Some? && path != "" && source.Unreadable? ==> view == ReadError
    ensures ParseLocation(cell).Some? && path != "" && source.Readable? ==>
              view == Context(ContextLines(source.lines, ParseLocation(cell).value))
  {
    var parsed := ParseLocation(cell);
    if parsed.None? {
      return InvalidLineNumber;
    }
    var lineNum := parsed.value;
    if path == "" || source.Absent? {
      return FileNotFound;
    }
    if source.Unreadable? {
      return ReadError;
    }
    var highlighted := Highlight(source.lines, lineNum);
    view := Context(highlighted);
  }

  /** The body of the read: cut the window out of the file's lines and
      number each of them, marking line `lineNum`. */
  method Highlight(lines: seq<string>, lineNum: int) returns (highlighted: seq<string>)
    ensures highlighted == ContextLines(lines, lineNum)
  {
    var start := WindowStart(lineNum);
    var end := WindowEnd(|lines|, lineNum);
    var context := PySlice(lines, start, end);
    highlighted := [];
    for k := 0 to |context|
      invariant |highlighted| == k
      invariant forall m :: 0 <= m < k ==> highlighted[m] == NumberedLine(start + 1 + m, lineNum, context[m])
    {
      var idx := start + 1 + k;
      var line := context[k];
      var shown: string;
      if idx == lineNum {
        shown := Marker + ("Line " + Decimal(idx) + ": " + Strip(line));
      } else {
        shown := NoMarker + ("Line " + Decimal(idx) + ": " + Strip(line));
      }
      assert shown == NumberedLine(idx, lineNum, line);
      highlighted := highlighted + [shown];
    }
  }

  /** For a line number `n` of at least 1 the pane shows the lines numbered
      `max(1, n - 5)` to `min(len(lines), n + 5)`, in order, each under its
      own number: at most five before the clicked line and five after it. */
  lemma ContextWindow(lines: seq<string>, n: int)
    requires n >= 1
    ensures var c := ContextLines(lines, n);
      var first := if n - 5 < 1 then 1 else n - 5;
      var last := if |lines| < n + 5 then |lines| else n + 5;
      && |c| == (if first <= last then last - first + 1 else 0)
      && |c| <= 11
      && forall k :: 0 <= k < |c| ==> first + k <= |lines| && c[k] == NumberedLine(first + k, n, lines[first + k - 1])
  {
  }

  predicate IsMarked(l: string) {
    Marker <= l
  }

  lemma MarkedLine(idx: nat, target: int, text: string)
    ensures IsMarked(NumberedLine(idx, target, text)) <==> idx == target
  {
    var l := NumberedLine(idx, target, text);
    if idx == target {
      assert l[..4] == Marker;
    } else {
      assert l[0] == ' ' != Marker[0];
    }
  }

  /** Exactly the clicked line is marked: a pane line carries the marker
      if and only if its number is `n`, and one does if and only if line
      `n` exists; that line shows the stripped text of line `n`. */
  lemma ContextMarks(lines: seq<string>, n: int)
    requires n >= 1
    ensures var c := ContextLines(lines, n);
      var first := if n - 5 < 1 then 1 else n - 5;
      && (forall k :: 0 <= k < |c| ==> (IsMarked(c[k]) <==> first + k == n))
      && ((exists k :: 0 <= k < |c| && IsMarked(c[k])) <==> n <= |lines|)
      && (n <= |lines| ==> c[n - first] == Marker + ("Line " + Decimal(n) + ": " + Strip(lines[n - 1])))
  {
    var c := ContextLines(lines, n);
    var first := if n - 5 < 1 then 1 else n - 5;
    ContextWindow(lines, n);
    forall k | 0 <= k < |c|
      ensures IsMarked(c[k]) <==> first + k == n
    {
      MarkedLine(first + k, n, lines[first + k - 1]);
    }
    if n <= |lines| {
      assert IsMarked(c[n - first]);
    }
  }

  /** Clicking a reported record shows its own line marked: the number in
      its Location cell reads back unchanged, and the marked pane line
      carries that number and the record's text. */
  lemma ClickedRecordMarked(searchText: string, files: seq<LogFile>, k: nat, r: MatchRecord)
    requires ReportedFrom(searchText, files, k, r)
    ensures ParseLocation(LocationLabel(r.line)) == Some(r.line)
    ensures var c := ContextLines(files[k].lines, r.line);
      exists m :: 0 <= m < |c| && IsMarked(c[m]) && c[m] == Marker + ("Line " + Decimal(r.line) + ": " + r.text)
  {
    LocationRoundTrip(r.line);
    ContextMarks(files[k].lines, r.line);
  }
}
