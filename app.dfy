/** The interactive flow of src/main.rs, step by step against an open `Database`. What the user types
    or selects arrives as parameters (an `Input` per turn of the main loop), and so does whether each
    store statement fails. Each menu item is a method; `MenuTurn` and `Run` state what one turn and a
    whole session do to the table. */
module App {
  import opened Results
  import opened Tasks
  import opened Store
  import opened Shell

  /** The store call `display_tasks_and_select` is handed as `action_fn`. */
  datatype Action = RemoveAction | MarkAction

  /** The table after the action runs on the named task: a remove may shrink it, a mark keeps every
      row. */
  function Applied(action: Action, rows: seq<Row>, name: string): (r: seq<Row>)
    ensures |r| <= |rows|
    ensures action == MarkAction ==> |r| == |rows|
  {
    match action
    case RemoveAction => Deleted(rows, name)
    case MarkAction => Completed(rows, name)
  }

  /** Either action leaves no open task with the name: a remove drops every such row and a mark
      completes it. A name no row carries changes nothing. */
  lemma AppliedClearsName(action: Action, rows: seq<Row>, name: string)
    ensures forall i :: 0 <= i < |Applied(action, rows, name)| && Applied(action, rows, name)[i].name == name ==>
      action == MarkAction && Applied(action, rows, name)[i].status
    ensures (forall i :: 0 <= i < |rows| ==> rows[i].name != name) ==> Applied(action, rows, name) == rows
  {
    if forall i :: 0 <= i < |rows| ==> rows[i].name != name {
      match action
      case RemoveAction => DeletedAbsent(rows, name);
      case MarkAction => CompletedProperties(rows, name);
    }
  }

  /** How one turn of the main loop ends: back to the menu, out of the loop through "5. Exit", or out of
      the program with the error a menu item returned through `?`. `Unavailable` is `Database::new`
      failing before the loop starts. */
  datatype Outcome = Looping | Exited | Failed(error: IoError) | Unavailable

  /** One turn of the main loop as the user drives it: the menu selection, the line typed for
      "Add a task", the selection made in the task list, and whether the store's read and write
      statements fail during the turn. */
  datatype Input = Input(menu: Option<nat>, line: string, pick: Option<nat>, readFails: bool, writeFails: bool)

  /** What one turn leaves: its outcome, the table, and the lines written besides the fixed menu. */
  datatype Turn = Turn(outcome: Outcome, rows: seq<Row>, printed: seq<string>)

  /** The outcome of a menu item that returned `r`. */
  function OutcomeOf(r: Result<(), IoError>): Outcome
  {
    match r
    case Ok(_) => Looping
    case Err(e) => Failed(e)
  }

  /** A remove or mark turn: list the tasks, then do what the selection in that list asks. It goes back
      to the menu or fails with `Other`; the table changes only when the selection names a task, never
      grows, and a failing turn leaves it as it was. */
  function ActTurn(rows: seq<Row>, action: Action, input: Input): (t: Turn)
    ensures t.outcome == Looping || t.outcome == Failed(Other)
    ensures |t.rows| <= |rows|
    ensures t.outcome.Failed? ==> t.rows == rows
    ensures !(input.pick.Some? && 1 <= input.pick.value <= |rows|) ==> t.rows == rows
  {
    if input.readFails then Turn(Failed(Other), rows, [])
    else
      match SelectionOf(TasksOf(rows), input.pick)
      case Back => Turn(Looping, rows, [])
      case OutOfRange => Turn(Looping, rows, [IndexOutOfRange])
      case Target(name) =>
        if input.writeFails then Turn(Failed(Other), rows, [])
        else Turn(Looping, Applied(action, rows, name), [])
  }

  /** One turn of `main`'s loop, from the table before it. Only "5. Exit" leaves the loop, and a turn
      that fails or exits leaves the table as it was. */
  function MenuTurn(rows: seq<Row>, input: Input): (t: Turn)
    ensures t.outcome == Exited <==> input.menu == Some(4)
    ensures t.outcome != Unavailable
    ensures t.outcome != Looping ==> t.rows == rows
  {
    match Dispatch(input.menu)
    case AddCommand =>
      (match TaskFromLine(input.line)
       case Err(e) => Turn(Failed(e), rows, [])
       case Ok(task) =>
         if input.writeFails then Turn(Failed(Other), rows, [])
         else Turn(Looping, Inserted(rows, task), []))
    case ViewCommand =>
      if input.readFails then Turn(Failed(Other), rows, [Rule, TodoHeading, Rule])
      else Turn(Looping, rows, ViewLines(TasksOf(rows)))
    case RemoveCommand => ActTurn(rows, RemoveAction, input)
    case MarkCommand => ActTurn(rows, MarkAction, input)
    case ExitCommand => Turn(Exited, rows, [])
    case InvalidCommand => Turn(Looping, rows, [InvalidChoice])
  }

  /** Where a session stands: how it ended (or `Looping` if it is still waiting for input), the table,
      everything written, and how many turns it took. */
  datatype Session = Session(outcome: Outcome, rows: seq<Row>, printed: seq<string>, turns: nat)

  /** A session preceded by `turns` earlier turns that wrote `printed`. */
  function After(printed: seq<string>, turns: nat, s: Session): Session
  {
    Session(s.outcome, s.rows, printed + s.printed, turns + s.turns)
  }

  /** Earlier turns accumulate: their writes concatenate and their counts add up. */
  lemma AfterAfter(printed: seq<string>, turns: nat, said: seq<string>, s: Session)
    ensures After(printed, turns, After(said, 1, s)) == After(printed + said, turns + 1, s)
  {
    assert printed + (said + s.printed) == (printed + said) + s.printed;
  }

  /** The first turn of a session, taken on its own. */
  lemma RunUnfold(rows: seq<Row>, inputs: seq<Input>, t: Turn)
    requires inputs != [] && t == MenuTurn(rows, inputs[0])
    ensures Run(rows, inputs) ==
      if t.outcome != Looping then Session(t.outcome, t.rows, t.printed, 1)
      else After(t.printed, 1, Run(t.rows, inputs[1..]))
  {
  }

  /** `main`'s loop over a script of turns: it stops at the first turn that exits or fails, and is
      still looping when the script runs out. */
  function Run(rows: seq<Row>, inputs: seq<Input>): (s: Session)
    decreases inputs
    ensures s.turns <= |inputs|
    ensures s.outcome == Looping ==> s.turns == |inputs|
    ensures s.outcome != Looping ==> 1 <= s.turns && s.outcome != Unavailable
  {
    if inputs == [] then Session(Looping, rows, [], 0)
    else
      var t := MenuTurn(rows, inputs[0]);
      if t.outcome != Looping then Session(t.outcome, t.rows, t.printed, 1)
      else After(t.printed, 1, Run(t.rows, inputs[1..]))
  }

  // ---------------------------------------------------------------------------------------------
  // Properties of a turn and of a session

  /** Only "5. Exit" leaves the loop, and leaving changes nothing. */
  lemma ExitOnlyOnFive(rows: seq<Row>, input: Input)
    ensures MenuTurn(rows, input).outcome == Exited <==> input.menu == Some(4)
    ensures input.menu == Some(4) ==> MenuTurn(rows, input) == Turn(Exited, rows, [])
  {
  }

  /** A cancelled menu or an index past the five items writes "Invalid choice!" and loops again. */
  lemma InvalidChoiceLoops(rows: seq<Row>, input: Input)
    requires input.menu.None? || input.menu.value > 4
    ensures MenuTurn(rows, input) == Turn(Looping, rows, [InvalidChoice])
  {
  }

  /** A blank task name never reaches the store: the turn ends with `InvalidInput` and the table as it
      was. A typed name is stored trimmed and open, last in the table. */
  lemma AddTurnStoresTrimmedName(rows: seq<Row>, input: Input)
    requires input.menu == Some(0)
    ensures Trim(input.line) == [] ==> MenuTurn(rows, input) == Turn(Failed(InvalidInput), rows, [])
    ensures Trim(input.line) != [] && !input.writeFails ==>
      MenuTurn(rows, input).outcome == Looping &&
      TasksOf(MenuTurn(rows, input).rows) == TasksOf(rows) + [Task(Trim(input.line), false)]
  {
    if Trim(input.line) != [] && !input.writeFails {
      var after := Inserted(rows, NewTask(Trim(input.line)));
      assert TasksOf(after) == TasksOf(rows) + [Task(Trim(input.line), false)];
    }
  }

  /** In a remove or mark list, "Continue" and an index past the list leave the table alone; an index
      i in 1..=n acts on the name of task i-1 of the listing. */
  lemma ListTurn(rows: seq<Row>, input: Input, action: Action)
    requires !input.readFails
    ensures input.pick == Some(0) ==> ActTurn(rows, action, input) == Turn(Looping, rows, [])
    ensures input.pick.None? || input.pick.value > |rows| ==>
      ActTurn(rows, action, input) == Turn(Looping, rows, [IndexOutOfRange])
    ensures input.pick.Some? && 1 <= input.pick.value <= |rows| && !input.writeFails ==>
      ActTurn(rows, action, input) ==
        Turn(Looping, Applied(action, rows, rows[input.pick.value - 1].name), [])
  {
    if input.pick.Some? && 1 <= input.pick.value <= |rows| {
      assert SelectionOf(TasksOf(rows), input.pick) == Target(rows[input.pick.value - 1].name);
    }
  }

  /** No turn breaks the primary key, renames a stored task, or reopens a complete one. */
  lemma TurnKeepsKeys(rows: seq<Row>, input: Input)
    requires UniqueIds(rows)
    ensures UniqueIds(MenuTurn(rows, input).rows) && Retains(rows, MenuTurn(rows, input).rows)
  {
    var t := MenuTurn(rows, input);
    if t.rows != rows {
      match Dispatch(input.menu)
      case AddCommand => InsertedAppends(rows, TaskFromLine(input.line).value);
      case RemoveCommand =>
        DeletedKeepsKeys(rows, SelectionOf(TasksOf(rows), input.pick).name);
      case MarkCommand =>
        CompletedKeepsKeys(rows, SelectionOf(TasksOf(rows), input.pick).name);
    } else {
      assert Retains(rows, rows);
    }
  }

  /** A session keeps the primary key unique from turn to turn. */
  lemma {:induction false} RunKeepsKeys(rows: seq<Row>, inputs: seq<Input>)
    requires UniqueIds(rows)
    ensures UniqueIds(Run(rows, inputs).rows)
    decreases inputs
  {
    if inputs != [] {
      TurnKeepsKeys(rows, inputs[0]);
      var t := MenuTurn(rows, inputs[0]);
      if t.outcome == Looping {
        RunKeepsKeys(t.rows, inputs[1..]);
      }
    }
  }

  /** A session that exits does so at its last turn, the first one whose menu selection was
      "5. Exit". */
  lemma {:induction false} RunExitsAtFirstFive(rows: seq<Row>, inputs: seq<Input>)
    ensures var s := Run(rows, inputs);
      s.outcome == Exited ==>
        1 <= s.turns && inputs[s.turns - 1].menu == Some(4) &&
        forall i :: 0 <= i < s.turns - 1 ==> inputs[i].menu != Some(4)
    decreases inputs
  {
    if inputs != [] {
      var t := MenuTurn(rows, inputs[0]);
      RunUnfold(rows, inputs, t);
      if t.outcome == Looping {
        var rest := Run(t.rows, inputs[1..]);
        RunExitsAtFirstFive(t.rows, inputs[1..]);
        if rest.outcome == Exited {
          FirstFiveShifts(inputs, rest.turns);
        }
      }
    }
  }

  /** The first "5. Exit" of the inputs after a turn that did not exit is the first of all of them, one
      place later. */
  lemma FirstFiveShifts(inputs: seq<Input>, n: nat)
    requires 1 <= n < |inputs| && inputs[0].menu != Some(4)
    requires inputs[1..][n - 1].menu == Some(4) && forall i :: 0 <= i < n - 1 ==> inputs[1..][i].menu != Some(4)
    ensures inputs[n].menu == Some(4) && forall i :: 0 <= i < n ==> inputs[i].menu != Some(4)
  {
    forall i | 0 < i < n ensures inputs[i].menu != Some(4) {
      assert inputs[i] == inputs[1..][i - 1];
    }
  }

  /** A blank name typed for "Add a task" ends the whole session, at whichever turn k it is typed: the
      error returned by `add_tasks` propagates out of `main`, and the table and output are those the
      k turns before it left. */
  lemma {:induction false} BlankNameEndsSession(rows: seq<Row>, inputs: seq<Input>, k: nat)
    requires k < |inputs| && inputs[k].menu == Some(0) && Trim(inputs[k].line) == []
    requires Run(rows, inputs[..k]).outcome == Looping
    ensures var before := Run(rows, inputs[..k]);
      Run(rows, inputs) == Session(Failed(InvalidInput), before.rows, before.printed, k + 1)
    decreases k
  {
    if k == 0 {
      BlankNameFirst(rows, inputs);
    } else {
      var t := MenuTurn(rows, inputs[0]);
      RunUnfold(rows, inputs[..k], t);
      RunUnfold(rows, inputs, t);
      assert inputs[..k][1..] == inputs[1..][..k - 1];
      BlankNameEndsSession(t.rows, inputs[1..], k - 1);
    }
  }

  /** A blank name typed at the first turn ends the session there, with the table untouched. */
  lemma BlankNameFirst(rows: seq<Row>, inputs: seq<Input>)
    requires inputs != [] && inputs[0].menu == Some(0) && Trim(inputs[0].line) == []
    ensures Run(rows, inputs) == Session(Failed(InvalidInput), rows, [], 1)
  {
    AddTurnStoresTrimmedName(rows, inputs[0]);
  }

  // ---------------------------------------------------------------------------------------------
  // The menu items, against the open database

  /** `add_tasks`: trim the typed line; a blank name is `InvalidInput` and the store is not called;
      otherwise the trimmed name is stored as a new open task, a store failure becoming `Other`. */
  method AddTasks(db: Database, line: string, fails: bool) returns (r: Result<(), IoError>)
    requires db.Valid()
    modifies db.file
    ensures db.Valid()
    ensures Trim(line) == [] ==> r == Err(InvalidInput) && db.Rows() == old(db.Rows())
    ensures Trim(line) != [] && fails ==> r == Err(Other) && db.Rows() == old(db.Rows())
    ensures Trim(line) != [] && !fails ==>
      r == Ok(()) && db.Rows() == Inserted(old(db.Rows()), Task(Trim(line), false))
  {
    var parsed := TaskFromLine(line);
    if parsed.Err? {
      return Err(parsed.error);
    }
    var task := parsed.value;
    var stored := db.AddTask(task, fails);
    if stored.Err? {
      return Err(Other);
    }
    return Ok(());
  }

  /** The labels of the first k+1 tasks are those of the first k, then task k's. */
  lemma LabelsGrow(tasks: seq<Task>, k: nat)
    requires k < |tasks|
    ensures Labels(tasks)[..k + 1] == Labels(tasks)[..k] + [if tasks[k].status then Strike(tasks[k].name) else tasks[k].name]
  {
    assert Labels(tasks)[k] == Label(tasks[k]);
  }

  /** `display_tasks`: the heading, then the listing (or "No tasks!"), each complete task struck
      through. The table is only read; a read failure becomes `Other` after the heading is written. */
  method DisplayTasks(db: Database, readFails: bool) returns (r: Result<(), IoError>, printed: seq<string>)
    requires db.Valid()
    ensures readFails ==> r == Err(Other) && printed == [Rule, TodoHeading, Rule]
    ensures !readFails ==> r == Ok(()) && printed == ViewLines(TasksOf(db.Rows()))
  {
    printed := [Rule, TodoHeading, Rule];
    var listing := db.GetTasks(readFails);
    if listing.Err? {
      return Err(Other), printed;
    }
    var tasks := listing.value;
    if |tasks| == 0 {
      printed := printed + [NoTasks];
    }
    ghost var head := printed;
    for k := 0 to |tasks|
      invariant printed == head + Labels(tasks)[..k]
    {
      var shown := if tasks[k].status then Strike(tasks[k].name) else tasks[k].name;
      LabelsGrow(tasks, k);
      assert head + Labels(tasks)[..k + 1] == (head + Labels(tasks)[..k]) + [shown];
      printed := printed + [shown];
    }
    assert Labels(tasks)[..|tasks|] == Labels(tasks);
    assert printed == ViewLines(tasks);
    return Ok(()), printed;
  }

  /** The `for task in task_items` loop of `display_tasks_and_select`: one label per task, in order,
      struck through exactly for the complete ones. */
  method DisplayedCollections(items: seq<Task>) returns (labels: seq<string>)
    ensures |labels| == |items|
    ensures forall i {:trigger labels[i]} :: 0 <= i < |items| ==>
      labels[i] == (if items[i].status then Strike(items[i].name) else items[i].name)
  {
    labels := [];
    for k := 0 to |items|
      invariant |labels| == k
      invariant forall i {:trigger labels[i]} :: 0 <= i < k ==> labels[i] == Label(items[i])
    {
      if items[k].status {
        labels := labels + [Strike(items[k].name)];
      } else {
        labels := labels + [items[k].name];
      }
    }
  }

  /** `display_tasks_and_select`: label the tasks, then act on the selection. "Continue" does nothing;
      item i in 1..=n runs the action once, on the name of task i-1; anything else writes
      "Index out of range." and does nothing. None of these is an error except a failing action. */
  method DisplayTasksAndSelect(db: Database, items: seq<Task>, selection: Option<nat>, action: Action, fails: bool)
    returns (r: Result<(), IoError>, labels: seq<string>, printed: seq<string>)
    requires db.Valid()
    modifies db.file
    ensures db.Valid()
    ensures |labels| == |items| && forall i {:trigger labels[i]} :: 0 <= i < |items| ==> labels[i] == Label(items[i])
    ensures selection == Some(0) ==> r == Ok(()) && printed == [] && db.Rows() == old(db.Rows())
    ensures selection.None? || selection.value > |items| ==>
      r == Ok(()) && printed == [IndexOutOfRange] && db.Rows() == old(db.Rows())
    ensures selection.Some? && 1 <= selection.value <= |items| ==>
      printed == [] &&
      (fails ==> r == Err(Other) && db.Rows() == old(db.Rows())) &&
      (!fails ==> r == Ok(()) && db.Rows() == Applied(action, old(db.Rows()), items[selection.value - 1].name))
  {
    labels := DisplayedCollections(items);
    printed := [];
    match SelectionOf(items, selection)
    case Back =>
      r := Ok(());
    case Target(name) =>
      var done;
      match action {
        case RemoveAction => done := db.RemoveTask(name, fails);
        case MarkAction => done := db.MarkComplete(name, fails);
      }
      r := if done.Err? then Err(Other) else Ok(());
    case OutOfRange =>
      printed := [IndexOutOfRange];
      r := Ok(());
  }

  /** `remove_tasks` and `mark_complete` of the shell: list the tasks afresh, then let the user pick
      one for the action. A failing listing is `Other` and leaves the table alone. */
  method ActOnSelection(db: Database, action: Action, input: Input) returns (r: Result<(), IoError>, printed: seq<string>)
    requires db.Valid()
    modifies db.file
    ensures db.Valid()
    ensures Turn(OutcomeOf(r), db.Rows(), printed) == ActTurn(old(db.Rows()), action, input)
  {
    var listing := db.GetTasks(input.readFails);
    if listing.Err? {
      return Err(Other), [];
    }
    var items := listing.value;
    ghost var rows := db.Rows();
    var labels;
    r, labels, printed := DisplayTasksAndSelect(db, items, input.pick, action, input.writeFails);
    if input.pick.Some? && 1 <= input.pick.value <= |items| {
      assert items[input.pick.value - 1].name == rows[input.pick.value - 1].name;
    }
    SelectedTurn(rows, action, input, r, db.Rows(), printed);
  }

  /** What `display_tasks_and_select` did with a fresh listing of `rows` is the turn `ActTurn` gives. */
  lemma SelectedTurn(rows: seq<Row>, action: Action, input: Input, r: Result<(), IoError>, after: seq<Row>, printed: seq<string>)
    requires !input.readFails
    requires input.pick == Some(0) ==> r == Ok(()) && printed == [] && after == rows
    requires input.pick.None? || input.pick.value > |rows| ==>
      r == Ok(()) && printed == [IndexOutOfRange] && after == rows
    requires input.pick.Some? && 1 <= input.pick.value <= |rows| ==>
      printed == [] &&
      (input.writeFails ==> r == Err(Other) && after == rows) &&
      (!input.writeFails ==> r == Ok(()) && after == Applied(action, rows, rows[input.pick.value - 1].name))
    ensures Turn(OutcomeOf(r), after, printed) == ActTurn(rows, action, input)
  {
    ListTurn(rows, input, action);
  }

  /** One turn of `main`'s loop: dispatch on the menu selection. */
  method MenuIteration(db: Database, input: Input) returns (outcome: Outcome, printed: seq<string>)
    requires db.Valid()
    modifies db.file
    ensures db.Valid()
    ensures Turn(outcome, db.Rows(), printed) == MenuTurn(old(db.Rows()), input)
  {
    var r: Result<(), IoError>;
    match Dispatch(input.menu) {
      case AddCommand =>
        r := AddTasks(db, input.line, input.writeFails);
        printed := [];
      case ViewCommand =>
        r, printed := DisplayTasks(db, input.readFails);
      case RemoveCommand =>
        r, printed := ActOnSelection(db, RemoveAction, input);
      case MarkCommand =>
        r, printed := ActOnSelection(db, MarkAction, input);
      case ExitCommand =>
        return Exited, [];
      case InvalidCommand =>
        return Looping, [InvalidChoice];
    }
    outcome := OutcomeOf(r);
  }

  /** `main`'s loop over a script of turns, stopping at the first that exits or fails. */
  method RunMenu(db: Database, inputs: seq<Input>) returns (outcome: Outcome, printed: seq<string>, turns: nat)
    requires db.Valid()
    modifies db.file
    ensures db.Valid()
    ensures Session(outcome, db.Rows(), printed, turns) == Run(old(db.Rows()), inputs)
  {
    ghost var start := db.Rows();
    outcome, printed, turns := Looping, [], 0;
    while turns < |inputs| && outcome == Looping
      invariant db.Valid()
      invariant turns <= |inputs|
      invariant outcome == Looping ==> Run(start, inputs) == After(printed, turns, Run(db.Rows(), inputs[turns..]))
      invariant outcome != Looping ==> Run(start, inputs) == Session(outcome, db.Rows(), printed, turns)
      decreases |inputs| - turns
    {
      ghost var before := db.Rows();
      ghost var rest := inputs[turns..];
      assert rest[0] == inputs[turns] && rest[1..] == inputs[turns + 1..];
      var said;
      outcome, said := MenuIteration(db, inputs[turns]);
      RunUnfold(before, rest, Turn(outcome, db.Rows(), said));
      if outcome == Looping {
        AfterAfter(printed, turns, said, Run(db.Rows(), inputs[turns + 1..]));
      }
      printed := printed + said;
      turns := turns + 1;
    }
    if outcome == Looping {
      assert inputs[turns..] == [];
    }
  }

  /** `main`: open the store, then run the menu loop. If the store cannot be opened the program ends
      before the menu with the file untouched. */
  method Launch(file: DbFile, openFails: bool, inputs: seq<Input>) returns (outcome: Outcome, printed: seq<string>, turns: nat)
    requires file.Valid()
    modifies file
    ensures openFails ==> outcome == Unavailable && printed == [] && turns == 0 && file.table == old(file.table)
    ensures !openFails ==> (file.table.Some? &&
      Session(outcome, file.table.value, printed, turns) == Run(CreateIfNotExists(old(file.table)).value, inputs))
  {
    var connection := Database.New(file, openFails);
    if connection.Err? {
      return Unavailable, [], 0;
    }
    var db := connection.value;
    outcome, printed, turns := RunMenu(db, inputs);
  }

  /** `main` on a first run, when `data/tasks.db` does not exist yet: opening it creates the table
      empty, so the session starts from no tasks; if it cannot be opened nothing runs. */
  method FirstLaunch(openFails: bool, inputs: seq<Input>) returns (file: DbFile, outcome: Outcome, printed: seq<string>, turns: nat)
    ensures openFails ==> outcome == Unavailable && printed == [] && turns == 0 && file.table.None?
    ensures !openFails ==> file.table.Some? && Session(outcome, file.table.value, printed, turns) == Run([], inputs)
  {
    file := new DbFile();
    outcome, printed, turns := Launch(file, openFails, inputs);
  }
}
