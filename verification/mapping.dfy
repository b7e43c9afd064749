/** Loading the error-code mapping table (`BaseWindow.__init__`): choosing the
    newest `mapping_table<N>.xlsx` in the data directory, turning the rows of
    its "Sample" sheet into table rows with the Cause column filled forward,
    and keeping the result in the table every window shares. */
module Mapping {
  import opened Wrappers
  import opened Text

  /** One data row of the "Sample" sheet, reduced to its "Err Code", "Cause"
      and "Action" cells; an empty cell (or a missing column) is `None`. */
  datatype SheetRow = SheetRow(code: Option<string>, cause: Option<string>, action: Option<string>)

  /** One row of the loaded table. The cause stays `None` when neither this
      row nor any earlier one had a cause. */
  datatype MappingRow = MappingRow(code: string, cause: Option<string>, action: string)

  /** `str(cell).strip()` for a present cell, "" for an absent one. */
  function CellText(cell: Option<string>): string {
    match cell
    case None => ""
    case Some(v) => Strip(v)
  }

  /** The cause of the last row in `rows` that has one. */
  function LastCause(rows: seq<SheetRow>): Option<string> {
    if rows == [] then None
    else if rows[|rows| - 1].cause.Some? then rows[|rows| - 1].cause
    else LastCause(rows[..|rows| - 1])
  }

  /** Row `i` of the table as loaded from `rows`. */
  function LoadedRow(rows: seq<SheetRow>, i: nat): MappingRow
    requires i < |rows|
  {
    MappingRow(CellText(rows[i].code), LastCause(rows[..i + 1]), CellText(rows[i].action))
  }

  /** The row-reading loop: one table row per sheet row, in sheet order, with
      an absent cause replaced by `previous_cause`. */
  method FillForward(rows: seq<SheetRow>) returns (data: seq<MappingRow>)
    ensures |data| == |rows|
    ensures forall i :: 0 <= i < |rows| ==> data[i] == LoadedRow(rows, i)
  {
    data := [];
    var previousCause: Option<string> := None;
    for i := 0 to |rows|
      invariant |data| == i
      invariant forall k :: 0 <= k < i ==> data[k] == LoadedRow(rows, k)
      invariant previousCause == LastCause(rows[..i])
    {
      var code := CellText(rows[i].code);
      var cause := rows[i].cause;
      var action := CellText(rows[i].action);
      if cause.None? {
        cause := previousCause;
      } else {
        previousCause := cause;
      }
      assert rows[..i + 1][..i] == rows[..i];
      data := data + [MappingRow(code, cause, action)];
    }
  }

  /** Forward fill, one row at a time: a row's own cause is kept; an absent
      one takes the filled cause of the row above, and the first row has no
      row above. */
  lemma FilledFromAbove(rows: seq<SheetRow>, i: nat)
    requires i < |rows|
    ensures rows[i].cause.Some? ==> LoadedRow(rows, i).cause == rows[i].cause
    ensures rows[i].cause.None? && i == 0 ==> LoadedRow(rows, i).cause.None?
    ensures rows[i].cause.None? && i > 0 ==> LoadedRow(rows, i).cause == LoadedRow(rows, i - 1).cause
  {
    assert rows[..i + 1][..i] == rows[..i];
    assert rows[..i + 1][i] == rows[i];
    assert LastCause(rows[..0]) == None by {
      assert rows[..0] == [];
    }
  }

  /** Forward fill as a whole: the loaded cause is the cause of the nearest
      row at or above `i` that has one, and absent exactly when no such row
      exists. */
  lemma {:induction false} NearestCause(rows: seq<SheetRow>, i: nat)
    requires i < |rows|
    ensures LoadedRow(rows, i).cause.None? <==> forall j :: 0 <= j <= i ==> rows[j].cause.None?
    ensures LoadedRow(rows, i).cause.Some? ==>
      exists j :: 0 <= j <= i && rows[j].cause == LoadedRow(rows, i).cause
        && forall k :: j < k <= i ==> rows[k].cause.None?
  {
    FilledFromAbove(rows, i);
    if rows[i].cause.None? && i > 0 {
      NearestCause(rows, i - 1);
    }
  }

  const TablePrefix := "mapping_table"
  const TableSuffix := ".xlsx"

  /** The length of the run of ASCII digits that starts at `p`. */
  function DigitRun(s: string, p: nat): (n: nat)
    requires p <= |s|
    ensures p + n <= |s| && AllDigits(s[p..p + n])
    ensures p + n == |s| || !IsDigit(s[p + n])
    decreases |s| - p
  {
    if p < |s| && IsDigit(s[p]) then
      var m := DigitRun(s, p + 1);
      assert s[p..p + 1 + m] == [s[p]] + s[p + 1..p + 1 + m];
      1 + m
    else 0
  }

  /** The version `mapping_table(\d+)\.xlsx` captures when it matches at
      offset `p`. The greedy `\d+` takes the whole digit run: giving digits
      back cannot help, since a digit is never the '.' that must follow. */
  function MatchAt(s: string, p: nat): Option<nat>
    requires p <= |s|
  {
    var q := p + |TablePrefix|;
    if q <= |s| && s[p..q] == TablePrefix then
      var n := DigitRun(s, q);
      if n >= 1 && TableSuffix <= s[q + n..] then Some(DigitsValue(s[q..q + n])) else None
    else None
  }

  /** `re.search`: the match at the leftmost offset at or after `p`. */
  function SearchFrom(s: string, p: nat): Option<nat>
    requires p <= |s|
    decreases |s| - p
  {
    match MatchAt(s, p)
    case Some(v) => Some(v)
    case None => if p == |s| then None else SearchFrom(s, p + 1)
  }

  /** The version a directory entry offers, or `None` when the picker skips it. */
  function Version(name: string): Option<nat> {
    if TablePrefix <= name && EndsWith(name, TableSuffix) then SearchFrom(name, 0) else None
  }

  function TableFileName(version: nat): string {
    TablePrefix + Decimal(version) + TableSuffix
  }

  lemma {:induction false} DigitRunIs(s: string, p: nat, n: nat)
    requires p + n <= |s| && AllDigits(s[p..p + n])
    requires p + n == |s| || !IsDigit(s[p + n])
    ensures DigitRun(s, p) == n
    decreases n
  {
    if n > 0 {
      assert IsDigit(s[p..p + n][0]);
      assert s[p + 1..p + n] == s[p..p + n][1..];
      DigitRunIs(s, p + 1, n - 1);
    }
  }

  /** The name `mapping_table<N>.xlsx` is read back as version N. */
  lemma VersionOfTableFileName(version: nat)
    ensures Version(TableFileName(version)) == Some(version)
  {
    var ds := Decimal(version);
    var name := TableFileName(version);
    var q := |TablePrefix|;
    assert name[..q] == TablePrefix;
    assert name[q..q + |ds|] == ds;
    assert name[q + |ds|..] == TableSuffix;
    DigitRunIs(name, q, |ds|);
    DecimalRoundTrip(version);
    assert MatchAt(name, 0) == Some(version);
  }

  /** The version of every entry of a listing, in listing order. */
  ghost function Versions(names: seq<string>): (vs: seq<Option<nat>>)
    ensures |vs| == |names| && forall j :: 0 <= j < |names| ==> vs[j] == Version(names[j])
  {
    seq(|names|, j requires 0 <= j < |names| => Version(names[j]))
  }

  /** Entry `i` is the one the picker keeps: it has a version, no entry has
      a larger one, and every earlier entry has a smaller one (on a tie the
      first in listing order wins). */
  ghost predicate IsLatest(names: seq<string>, i: int) {
    KeptAmong(Versions(names), |names|, i)
  }

  /** Among the first `n` versions of `vs`, entry `i` is the first maximal one. */
  ghost predicate KeptAmong(vs: seq<Option<nat>>, n: int, i: int)
    requires n <= |vs|
  {
    && 0 <= i < n
    && vs[i].Some?
    && (forall j :: 0 <= j < n && vs[j].Some? ==> vs[j].value <= vs[i].value)
    && (forall j :: 0 <= j < i && vs[j].Some? ==> vs[j].value < vs[i].value)
  }

  /** The listing loop over the data directory, keeping the entry with the
      highest version seen so far (`latest_version`, `latest_file`). */
  method PickLatest(names: seq<string>) returns (latest: Option<string>)
    ensures latest.None? <==> forall j :: 0 <= j < |names| ==> Version(names[j]).None?
    ensures latest.Some? ==> exists i :: IsLatest(names, i) && names[i] == latest.value
  {
    ghost var vs := Versions(names);
    var latestVersion: int := -1;
    latest := None;
    ghost var at: int := -1;
    for i := 0 to |names|
      invariant latest.None? <==> forall j :: 0 <= j < i ==> vs[j].None?
      invariant latest.None? ==> latestVersion == -1
      invariant latest.Some? ==> KeptAmong(vs, i, at) && names[at] == latest.value
                                 && latestVersion == vs[at].value
    {
      var name := names[i];
      if TablePrefix <= name && EndsWith(name, TableSuffix) {
        var found := SearchFrom(name, 0);
        if found.Some? {
          var version := found.value;
          assert vs[i] == Some(version);
          if version > latestVersion {
            KeptByNewMaximum(vs, i, at);
            latestVersion := version;
            latest := Some(name);
            at := i;
          } else if latest.Some? {
            KeptDespite(vs, i, at);
          }
        } else if latest.Some? {
          KeptDespite(vs, i, at);
        }
      } else if latest.Some? {
        assert vs[i].None?;
        KeptDespite(vs, i, at);
      }
    }
  }

  /** A further entry without a larger version leaves the kept entry in place. */
  lemma KeptDespite(vs: seq<Option<nat>>, n: int, at: int)
    requires 0 <= n < |vs|
    requires KeptAmong(vs, n, at) && (vs[n].None? || vs[n].value <= vs[at].value)
    ensures KeptAmong(vs, n + 1, at)
  {
  }

  /** A further entry whose version beats every earlier one becomes the kept entry. */
  lemma KeptByNewMaximum(vs: seq<Option<nat>>, n: int, at: int)
    requires 0 <= n < |vs| && vs[n].Some?
    requires (forall j :: 0 <= j < n ==> vs[j].None?) || (KeptAmong(vs, n, at) && vs[at].value < vs[n].value)
    ensures KeptAmong(vs, n + 1, n)
  {
  }

  /** `BaseWindow.shared_df`: the table every window shares. It stays `None`
      while no load has succeeded. */
  class SharedTable {
    var table: Option<seq<MappingRow>>

    constructor ()
      ensures table.None?
    {
      table := None;
    }

    /** What each window's constructor does: when no earlier load succeeded,
        pick the newest mapping file in `listing` and load its sheet.
        `readSheet(name)` is the "Sample" sheet of that workbook, or `None`
        when the workbook cannot be opened or has no such sheet. A failed
        load leaves the table `None`, so the next window tries again. */
    method Acquire(listing: seq<string>, readSheet: string -> Option<seq<SheetRow>>)
      returns (df: Option<seq<MappingRow>>)
      modifies this
      ensures old(table).Some? ==> table == old(table)
      ensures old(table).None? && (forall j :: 0 <= j < |listing| ==> Version(listing[j]).None?)
              ==> table.None?
      ensures old(table).None? ==> forall i :: IsLatest(listing, i) ==>
                (table.None? <==> readSheet(listing[i]).None?)
                && (table.Some? ==>
                      && |table.value| == |readSheet(listing[i]).value|
                      && forall k :: 0 <= k < |table.value| ==>
                           table.value[k] == LoadedRow(readSheet(listing[i]).value, k))
      ensures old(table).None? && (exists j :: 0 <= j < |listing| && Version(listing[j]).Some?)
              ==> exists i :: IsLatest(listing, i)
      ensures df == table
    {
      if table.None? {
        var latest := PickLatest(listing);
        if latest.Some? {
          var sheet := readSheet(latest.value);
          if sheet.Some? {
            var data := FillForward(sheet.value);
            table := Some(data);
          }
        }
        forall i | IsLatest(listing, i)
          ensures latest == Some(listing[i])
        {
          var i' :| IsLatest(listing, i') && listing[i'] == latest.value;
          LatestUnique(listing, i, i');
        }
      }
      df := table;
    }
  }

  lemma LatestUnique(names: seq<string>, i: int, j: int)
    requires IsLatest(names, i) && IsLatest(names, j)
    ensures i == j
  {
  }
}
