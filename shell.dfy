/** The decision rules of the interactive shell in src/main.rs that involve no terminal I/O: reading a
    task name, rendering a task's label, interpreting a list selection and the main-menu choice. */
module Shell {
  import opened Results
  import opened Tasks

  /** The two `std::io::ErrorKind`s the shell reports: an empty task name, and a wrapped store error. */
  datatype IoError = InvalidInput | Other

  // ---------------------------------------------------------------------------------------------
  // Task names: `read_line()?.trim()` and the emptiness check of `add_tasks`

  /** The 25 code points Unicode's PropList.txt gives the White_Space property, one by one. */
  const WhiteSpace: set<char> := {
    '\t', '\n', '\U{000B}', '\U{000C}', '\r', ' ', '\U{0085}', '\U{00A0}', '\U{1680}',
    '\U{2000}', '\U{2001}', '\U{2002}', '\U{2003}', '\U{2004}', '\U{2005}', '\U{2006}', '\U{2007}',
    '\U{2008}', '\U{2009}', '\U{200A}', '\U{2028}', '\U{2029}', '\U{202F}', '\U{205F}', '\U{3000}'
  }

  /** Rust's `char::is_whitespace`, written as its ranges: it holds of exactly the White_Space
      characters. */
  predicate IsWhitespace(c: char): (b: bool)
    ensures b <==> c in WhiteSpace
  {
    ('\t' <= c <= '\r') || c == ' ' || c == '\U{0085}' || c == '\U{00A0}' || c == '\U{1680}' ||
    ('\U{2000}' <= c <= '\U{200A}') || c == '\U{2028}' || c == '\U{2029}' || c == '\U{202F}' ||
    c == '\U{205F}' || c == '\U{3000}'
  }

  /** Where `trim_start_matches` cuts: the first index from `i` on whose char does not match, or the
      end of `s`. */
  function TrimStartIndex(s: string, matches: char -> bool, i: nat): (j: nat)
    requires i <= |s|
    ensures i <= j <= |s|
    ensures forall k :: i <= k < j ==> matches(s[k])
    ensures j < |s| ==> !matches(s[j])
    decreases |s| - i
  {
    if i < |s| && matches(s[i]) then TrimStartIndex(s, matches, i + 1) else i
  }

  /** Where `trim_end_matches` cuts, searching back from `j` but not below `lo`: just after the last
      char that does not match, or `lo`. */
  function TrimEndIndex(s: string, matches: char -> bool, lo: nat, j: nat): (e: nat)
    requires lo <= j <= |s|
    ensures lo <= e <= j
    ensures forall k :: e <= k < j ==> matches(s[k])
    ensures e > lo ==> !matches(s[e - 1])
    decreases j
  {
    if j > lo && matches(s[j - 1]) then TrimEndIndex(s, matches, lo, j - 1) else j
  }

  /** `trim_matches`: the slice of `s` between its leading and its trailing matching chars. Everything
      cut from either end matches; the result is empty exactly when every char matches, and otherwise
      starts and ends with a char that does not. */
  function TrimMatches(s: string, matches: char -> bool): (r: string)
    ensures var lo := TrimStartIndex(s, matches, 0);
      lo + |r| <= |s| && r == s[lo..lo + |r|] &&
      (forall k :: 0 <= k < lo ==> matches(s[k])) &&
      (forall k :: lo + |r| <= k < |s| ==> matches(s[k]))
    ensures r == [] <==> forall k :: 0 <= k < |s| ==> matches(s[k])
    ensures r != [] ==> !matches(r[0]) && !matches(r[|r| - 1])
  {
    var lo := TrimStartIndex(s, matches, 0);
    s[lo..TrimEndIndex(s, matches, lo, |s|)]
  }

  /** `str::trim`, which is `trim_matches` with `char::is_whitespace`. The trimmed line is no longer
      than the line, and trimming it again leaves it as it is. */
  function Trim(s: string): (r: string)
    ensures |r| <= |s|
    ensures TrimMatches(r, IsWhitespace) == r
  {
    TrimIdempotent(s, IsWhitespace);
    TrimMatches(s, IsWhitespace)
  }

  /** Trimming is idempotent: a trimmed string is its own trim. */
  lemma TrimIdempotent(s: string, matches: char -> bool)
    ensures TrimMatches(TrimMatches(s, matches), matches) == TrimMatches(s, matches)
  {
    var r := TrimMatches(s, matches);
    if r != [] {
      assert TrimStartIndex(r, matches, 0) == 0;
      assert TrimEndIndex(r, matches, 0, |r|) == |r|;
    }
  }

  /** The name check and `Task::new` of `add_tasks`: the trimmed line, as an open task, or
      `InvalidInput` when nothing but whitespace was typed. */
  function TaskFromLine(line: string): (r: Result<Task, IoError>)
    ensures r.Err? <==> forall k :: 0 <= k < |line| ==> IsWhitespace(line[k])
    ensures r.Err? ==> r.error == InvalidInput
    ensures r.Ok? ==> r.value.name == Trim(line) && !r.value.status && r.value.name != []
  {
    var name := Trim(line);
    if name == [] then Err(InvalidInput) else Ok(NewTask(name))
  }

  // ---------------------------------------------------------------------------------------------
  // Labels: the strikethrough rendering of complete tasks

  /** U+0336 COMBINING LONG STROKE OVERLAY, written after every character of a complete task's name. */
  const StrokeOverlay: char := '\U{0336}'

  /** `name.chars().map(|c| format!("{}{}", c, '\u{0336}')).collect()`. */
  function Strike(name: string): (r: string)
    ensures |r| == 2 * |name|
    ensures forall j :: 0 <= j < |name| ==> r[2 * j] == name[j] && r[2 * j + 1] == StrokeOverlay
  {
    if name == [] then [] else [name[0], StrokeOverlay] + Strike(name[1..])
  }

  /** The characters at even positions: what a reader sees once the overlays are dropped. */
  function Unstrike(s: string): (r: string)
    decreases |s|
  {
    if |s| < 2 then [] else [s[0]] + Unstrike(s[2..])
  }

  /** Striking a name loses nothing: dropping the overlays gives the name back. */
  lemma {:induction false} UnstrikeStrike(name: string)
    ensures Unstrike(Strike(name)) == name
  {
    if name != [] {
      var s := Strike(name);
      assert s[2..] == Strike(name[1..]);
      UnstrikeStrike(name[1..]);
      assert name == [name[0]] + name[1..];
    }
  }

  /** The label a task is listed under: an open task's name verbatim, or, for a complete task, its
      struck name, twice as long. */
  function Label(task: Task): (shown: string)
    ensures !task.status ==> shown == task.name
    ensures task.status ==> shown == Strike(task.name) && |shown| == 2 * |task.name|
  {
    if task.status then Strike(task.name) else task.name
  }

  /** The label of every task, in order: an open task's name, or a complete task's struck name. */
  function Labels(tasks: seq<Task>): (shown: seq<string>)
    ensures |shown| == |tasks|
    ensures forall i {:trigger shown[i]} :: 0 <= i < |tasks| && !tasks[i].status ==> shown[i] == tasks[i].name
    ensures forall i {:trigger shown[i]} :: 0 <= i < |tasks| && tasks[i].status ==>
      shown[i] == Strike(tasks[i].name)
  {
    seq(|tasks|, i requires 0 <= i < |tasks| => Label(tasks[i]))
  }

  /** A label shows its task: the name itself, or, for a complete task, the name with an overlay after
      each character, from which the name is recoverable. */
  lemma LabelShowsName(task: Task)
    ensures !task.status ==> Label(task) == task.name
    ensures task.status ==> |Label(task)| == 2 * |task.name| && Unstrike(Label(task)) == task.name
  {
    if task.status {
      UnstrikeStrike(task.name);
    }
  }

  const Rule := "-----------"
  const TodoHeading := "Todo tasks:"
  const NoTasks := "No tasks!"

  /** The lines `display_tasks` writes for a listing: a heading, "No tasks!" when there is nothing to
      show, then one label per task. */
  function ViewLines(tasks: seq<Task>): (lines: seq<string>)
    ensures |lines| == 3 + (if tasks == [] then 1 else |tasks|)
    ensures lines[..3] == [Rule, TodoHeading, Rule]
    ensures tasks == [] ==> lines[3] == NoTasks
    ensures forall i :: 0 <= i < |tasks| ==> lines[3 + i] == Label(tasks[i])
  {
    [Rule, TodoHeading, Rule] + (if tasks == [] then [NoTasks] else []) + Labels(tasks)
  }

  // ---------------------------------------------------------------------------------------------
  // Selections

  /** What a choice in a task list asks for: go back ("Continue", item 0), act on the named task, or
      nothing because the index does not name an item. */
  datatype Choice = Back | Target(name: string) | OutOfRange

  const IndexOutOfRange := "Index out of range."

  /** The `match selection` of `display_tasks_and_select`: item 0 is "Continue", item i in 1..=n is
      task i-1, and anything else, including a cancelled selection, is out of range. */
  function SelectionOf(items: seq<Task>, selection: Option<nat>): (c: Choice)
    ensures c == Back <==> selection == Some(0)
    ensures c.Target? <==> selection.Some? && 1 <= selection.value <= |items|
    ensures c.Target? ==> c.name == items[selection.value - 1].name
    ensures c == OutOfRange <==> selection.None? || selection.value > |items|
  {
    if selection == Some(0) then Back
    else if selection.Some? && selection.value <= |items| then Target(items[selection.value - 1].name)
    else OutOfRange
  }

  /** The five main-menu items, in the order the selection indexes them. */
  const MenuItems := ["1. Add a task", "2. View tasks", "3. Remove tasks", "4. Mark as complete", "5. Exit"]

  /** What the main menu runs next. */
  datatype Command = AddCommand | ViewCommand | RemoveCommand | MarkCommand | ExitCommand | InvalidCommand

  const InvalidChoice := "Invalid choice!"

  /** The `match selection` of `main`: indexes 0 to 4 run the five menu items; a cancelled selection or
      any larger index is an invalid choice. */
  function Dispatch(selection: Option<nat>): (c: Command)
    ensures c == InvalidCommand <==> selection.None? || selection.value >= |MenuItems|
    ensures c == ExitCommand <==> selection == Some(4)
  {
    match selection
    case None => InvalidCommand
    case Some(i) =>
      if i == 0 then AddCommand
      else if i == 1 then ViewCommand
      else if i == 2 then RemoveCommand
      else if i == 3 then MarkCommand
      else if i == 4 then ExitCommand
      else InvalidCommand
  }

  /** Each valid index runs the item listed at that index. */
  lemma DispatchFollowsMenu(i: nat)
    requires i < |MenuItems|
    ensures MenuItems[i] == "1. Add a task" ==> Dispatch(Some(i)) == AddCommand
    ensures MenuItems[i] == "2. View tasks" ==> Dispatch(Some(i)) == ViewCommand
    ensures MenuItems[i] == "3. Remove tasks" ==> Dispatch(Some(i)) == RemoveCommand
    ensures MenuItems[i] == "4. Mark as complete" ==> Dispatch(Some(i)) == MarkCommand
    ensures MenuItems[i] == "5. Exit" ==> Dispatch(Some(i)) == ExitCommand
  {
  }
}
