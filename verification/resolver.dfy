/** The Help window's lookup (`HelpWindow.perform_search`): an error code is
    resolved against the shared mapping table to the cause of its first row
    and every corrective action recorded for that cause. */
module Resolver {
  import opened Wrappers
  import opened Text
  import opened Order
  import opened Mapping

  /** The outcome of one lookup. `InvalidInput` and `NotLoaded` are the two
      message boxes; `actions` is the sorted, repeat-free list the action
      panel shows one per line. */
  datatype Resolution =
    | InvalidInput
    | NotLoaded
    | NotFound
    | Found(cause: string, actions: seq<string>)

  const NoMatchText := "No matching error code found."
  const NoActionText := "No corrective action available."

  /** `next((row for row in df if row["Err Code"] == code), None)`: the index
      of the first row whose code is exactly `code`. */
  function FirstWithCode(rows: seq<MappingRow>, code: string): (r: Option<nat>)
    ensures r.Some? ==> r.value < |rows| && rows[r.value].code == code
                        && forall j :: 0 <= j < r.value ==> rows[j].code != code
    ensures r.None? ==> forall j :: 0 <= j < |rows| ==> rows[j].code != code
  {
    if rows == [] then None
    else if rows[0].code == code then Some(0)
    else
      match FirstWithCode(rows[1..], code)
      case None => None
      case Some(k) => Some(k + 1)
  }

  /** `target_row["Cause"] or "None"`: an absent or empty cause reads "None". */
  function CauseText(cause: Option<string>): string {
    if cause.None? || cause.value == "" then "None" else cause.value
  }

  /** The non-empty actions of the rows whose cause equals `cause`. */
  function ActionsFor(rows: seq<MappingRow>, cause: string): set<string> {
    if rows == [] then {}
    else
      var last := rows[|rows| - 1];
      ActionsFor(rows[..|rows| - 1], cause)
        + (if last.cause == Some(cause) && last.action != "" then {last.action} else {})
  }

  /** An action is collected exactly when some row with that cause carries it. */
  lemma {:induction false} ActionsForMembers(rows: seq<MappingRow>, cause: string, a: string)
    ensures a in ActionsFor(rows, cause) <==>
      a != "" && exists j :: 0 <= j < |rows| && rows[j].cause == Some(cause) && rows[j].action == a
  {
    if rows != [] {
      var init := rows[..|rows| - 1];
      ActionsForMembers(init, cause, a);
      if exists j :: 0 <= j < |rows| && rows[j].cause == Some(cause) && rows[j].action == a {
        var j :| 0 <= j < |rows| && rows[j].cause == Some(cause) && rows[j].action == a;
        if j < |rows| - 1 {
          assert init[j] == rows[j];
        }
      }
      if exists j :: 0 <= j < |init| && init[j].cause == Some(cause) && init[j].action == a {
        var j :| 0 <= j < |init| && init[j].cause == Some(cause) && init[j].action == a;
        assert rows[j] == init[j];
      }
    }
  }

  /** The lookup behind the Search button. `table` is `shared_df`: `None`
      when loading failed. The checks run in the source's order: the
      stripped code must be non-empty, then the table must be loaded and
      non-empty, then the first row with exactly that code decides the cause,
      and the actions are those of every row with that cause. */
  method Resolve(table: Option<seq<MappingRow>>, input: string) returns (r: Resolution)
    ensures Strip(input) == "" ==> r == InvalidInput
    ensures Strip(input) != "" && (table.None? || table.value == []) ==> r == NotLoaded
    ensures Strip(input) != "" && table.Some? && table.value != [] ==>
      var rows := table.value;
      match FirstWithCode(rows, Strip(input))
      case None => r == NotFound
      case Some(i) =>
        && r.Found?
        && r.cause == CauseText(rows[i].cause)
        && StrictlySorted(r.actions)
        && forall a :: a in r.actions <==>
             a != "" && exists j :: 0 <= j < |rows| && rows[j].cause == Some(r.cause) && rows[j].action == a
  {
    var code := Strip(input);
    if code == "" {
      return InvalidInput;
    }
    if table.None? || table.value == [] {
      return NotLoaded;
    }
    var rows := table.value;
    var target := FirstWithCode(rows, code);
    if target.None? {
      return NotFound;
    }
    var causeValue := CauseText(rows[target.value].cause);
    var matched: set<string> := {};
    for i := 0 to |rows|
      invariant matched == ActionsFor(rows[..i], causeValue)
    {
      assert rows[..i + 1][..i] == rows[..i];
      if rows[i].cause == Some(causeValue) && rows[i].action != "" {
        matched := matched + {rows[i].action};
      }
    }
    assert rows[..|rows|] == rows;
    var actions := SortedDistinct(matched);
    r := Found(causeValue, actions);
    forall a
      ensures a in r.actions <==>
        a != "" && exists j :: 0 <= j < |rows| && rows[j].cause == Some(r.cause) && rows[j].action == a
    {
      ActionsForMembers(rows, causeValue, a);
    }
  }

  /** The same code against the same table always resolves the same way:
      two results that both meet the `Found` part of `Resolve`'s contract
      (same cause, sorted lists with the same actions) are equal. */
  lemma ResolutionDetermined(r1: Resolution, r2: Resolution)
    requires r1.Found? && r2.Found? && r1.cause == r2.cause
    requires StrictlySorted(r1.actions) && StrictlySorted(r2.actions)
    requires forall a :: a in r1.actions <==> a in r2.actions
    ensures r1 == r2
  {
    SortedUnique(r1.actions, r2.actions);
  }

  /** The text of the cause panel after a lookup. */
  function CausePanel(r: Resolution): string {
    match r
    case Found(cause, _) => cause
    case NotFound => NoMatchText
    case _ => ""
  }

  /** The text of the action panel: the actions one per line, or the
      fallback text when there are none. */
  function ActionPanel(r: Resolution): string {
    match r
    case Found(_, actions) =>
      var text := JoinWith(actions, "\n");
      if text != "" then text else NoActionText
    case NotFound => NoActionText
    case _ => ""
  }

  /** The action panel falls back to the fixed text exactly when no action
      was found, and otherwise lists the actions joined by newlines. */
  lemma ActionPanelOfFound(cause: string, actions: seq<string>)
    requires forall k :: 0 <= k < |actions| ==> actions[k] != ""
    ensures actions == [] ==> ActionPanel(Found(cause, actions)) == NoActionText
    ensures actions != [] ==> ActionPanel(Found(cause, actions)) == JoinWith(actions, "\n")
  {
    if actions != [] {
      JoinNonEmpty(actions, "\n");
    }
  }
}
