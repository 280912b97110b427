/** The task store of src/db.rs: one SQLite table `tasks (id, name, status)` behind four statements.
    The table is a sequence of rows in the order the engine returns them (insertion order); each SQL
    statement is a pure function on that sequence, and `Database` applies them to the file in place. */
module Store {
  import opened Results
  import opened Tasks

  /** One row of `tasks`: the INTEGER PRIMARY KEY, the `name` column and the `status` column (0 or 1). */
  datatype Row = Row(id: int, name: string, status: bool)

  /** What a failing rusqlite call reports, by the operation that failed. */
  datatype DbError = StorageUnavailable | StorageReadError | StorageWriteError

  /** The primary-key constraint: no two rows share an id. */
  ghost predicate UniqueIds(rows: seq<Row>)
  {
    forall i, j :: 0 <= i < j < |rows| ==> rows[i].id != rows[j].id
  }

  /** The largest id in a non-empty table. */
  function MaxId(rows: seq<Row>): (m: int)
    requires rows != []
    ensures forall i :: 0 <= i < |rows| ==> rows[i].id <= m
    ensures exists i :: 0 <= i < |rows| && rows[i].id == m
  {
    if |rows| == 1 then rows[0].id
    else
      var m := MaxId(rows[1..]);
      if rows[0].id > m then rows[0].id else m
  }

  /** The rowid SQLite gives a row inserted without one: one more than the largest id in the table,
      and 1 when the table is empty. */
  function NextId(rows: seq<Row>): (id: int)
    ensures forall i :: 0 <= i < |rows| ==> rows[i].id < id
    ensures rows == [] ==> id == 1
  {
    if rows == [] then 1 else MaxId(rows) + 1
  }

  /** The table after `INSERT INTO tasks (name, status) VALUES (?1, ?2)`. */
  function Inserted(rows: seq<Row>, task: Task): (r: seq<Row>)
    ensures |r| == |rows| + 1 && r[..|rows|] == rows
    ensures r[|rows|].name == task.name && r[|rows|].status == task.status
    ensures forall i :: 0 <= i < |rows| ==> r[i].id < r[|rows|].id
  {
    rows + [Row(NextId(rows), task.name, task.status)]
  }

  /** The table after `DELETE FROM tasks WHERE name = ?1`: the comparison is exact (BINARY collation),
      every matching row goes, and the others keep their order. */
  function Deleted(rows: seq<Row>, name: string): (r: seq<Row>)
    ensures |r| <= |rows|
    ensures forall i :: 0 <= i < |r| ==> r[i].name != name && r[i] in rows
  {
    if rows == [] then []
    else if rows[0].name == name then Deleted(rows[1..], name)
    else [rows[0]] + Deleted(rows[1..], name)
  }

  /** One row under `SET status = 1 WHERE name = ?1`. */
  function Marked(row: Row, name: string): (r: Row)
    ensures r.id == row.id && r.name == row.name
    ensures r.status == (row.status || row.name == name)
  {
    if row.name == name then row.(status := true) else row
  }

  /** The table after `UPDATE tasks SET STATUS = 1 WHERE name = ?1`: same rows in the same order, the
      matching ones complete, everything else untouched. */
  function Completed(rows: seq<Row>, name: string): (r: seq<Row>)
    ensures |r| == |rows|
    ensures forall i :: 0 <= i < |r| ==>
      r[i].id == rows[i].id && r[i].name == rows[i].name &&
      r[i].status == (rows[i].status || rows[i].name == name)
  {
    if rows == [] then [] else [Marked(rows[0], name)] + Completed(rows[1..], name)
  }

  /** What `SELECT name, status FROM tasks` yields, one task per row. */
  function TasksOf(rows: seq<Row>): (tasks: seq<Task>)
    ensures |tasks| == |rows|
    ensures forall i {:trigger tasks[i]} :: 0 <= i < |rows| ==>
      tasks[i].name == rows[i].name && tasks[i].status == rows[i].status
  {
    seq(|rows|, i requires 0 <= i < |rows| => Task(rows[i].name, rows[i].status))
  }

  /** `CREATE TABLE IF NOT EXISTS tasks (...)` on a file whose table may be missing (None). */
  function CreateIfNotExists(table: Option<seq<Row>>): (t: Option<seq<Row>>)
    ensures t.Some?
    ensures table.Some? ==> t == table
    ensures table.None? ==> t.value == []
  {
    if table.Some? then table else Some([])
  }

  /** A row of `after` that has the key of a row of `before` kept that row's name and, if that row was
      complete, is still complete: no statement renames a task or reopens it. */
  ghost predicate Retains(before: seq<Row>, after: seq<Row>)
  {
    forall i, j :: 0 <= i < |before| && 0 <= j < |after| && before[i].id == after[j].id ==>
      after[j].name == before[i].name && (before[i].status ==> after[j].status)
  }

  // ---------------------------------------------------------------------------------------------
  // Properties of the statements

  /** Schema setup is idempotent and never touches an existing table. */
  lemma SchemaIdempotent(table: Option<seq<Row>>)
    ensures CreateIfNotExists(table).Some?
    ensures CreateIfNotExists(CreateIfNotExists(table)) == CreateIfNotExists(table)
    ensures table.Some? ==> CreateIfNotExists(table) == table
    ensures table.None? ==> CreateIfNotExists(table) == Some([])
  {
  }

  /** An insert adds exactly one row, last, with the task's name and status and a fresh key, and
      leaves every existing row as it was. */
  lemma InsertedAppends(rows: seq<Row>, task: Task)
    requires UniqueIds(rows)
    ensures var r := Inserted(rows, task);
      |r| == |rows| + 1 && r[..|rows|] == rows &&
      r[|rows|].name == task.name && r[|rows|].status == task.status &&
      UniqueIds(r) && Retains(rows, r)
  {
    var r := Inserted(rows, task);
    assert r[..|rows|] == rows;
    forall i, j | 0 <= i < j < |r| ensures r[i].id != r[j].id {
      if j == |rows| {
        assert r[i] == rows[i];
      }
    }
  }

  /** A row survives a delete exactly as often as it was there, unless it carries the deleted name. */
  lemma {:induction false} DeletedMultiplicity(rows: seq<Row>, name: string, x: Row)
    ensures multiset(Deleted(rows, name))[x] == if x.name == name then 0 else multiset(rows)[x]
  {
    if rows != [] {
      DeletedMultiplicity(rows[1..], name, x);
      assert rows == [rows[0]] + rows[1..];
      assert multiset(rows) == multiset([rows[0]]) + multiset(rows[1..]);
      if rows[0].name != name {
        assert multiset(Deleted(rows, name)) == multiset([rows[0]]) + multiset(Deleted(rows[1..], name));
      }
    }
  }

  /** Deleting a name no row carries leaves the table exactly as it was. */
  lemma {:induction false} DeletedAbsent(rows: seq<Row>, name: string)
    requires forall i :: 0 <= i < |rows| ==> rows[i].name != name
    ensures Deleted(rows, name) == rows
  {
    if rows != [] {
      DeletedAbsent(rows[1..], name);
      assert rows == [rows[0]] + rows[1..];
    }
  }

  /** Deleting the same name twice is the same as deleting it once. */
  lemma DeletedIdempotent(rows: seq<Row>, name: string)
    ensures Deleted(Deleted(rows, name), name) == Deleted(rows, name)
  {
    DeletedAbsent(Deleted(rows, name), name);
  }

  /** A delete keeps the primary key unique and reopens or renames nothing. */
  lemma {:induction false} DeletedKeepsKeys(rows: seq<Row>, name: string)
    requires UniqueIds(rows)
    ensures UniqueIds(Deleted(rows, name)) && Retains(rows, Deleted(rows, name))
  {
    var r := Deleted(rows, name);
    if rows != [] {
      var tail := rows[1..];
      DeletedKeepsKeys(tail, name);
      if rows[0].name != name {
        forall j | 0 < j < |r| ensures r[0].id != r[j].id {
          assert r[j] in tail;
        }
      }
    }
    forall i, j | 0 <= i < |rows| && 0 <= j < |r| && rows[i].id == r[j].id
      ensures r[j] == rows[i]
    {
      var k :| 0 <= k < |rows| && rows[k] == r[j];
      assert k == i;
    }
  }

  /** After a mark every row with that name is complete; nothing else changes, and a name no row
      carries leaves the table exactly as it was. */
  lemma CompletedProperties(rows: seq<Row>, name: string)
    ensures forall i :: 0 <= i < |rows| && rows[i].name == name ==> Completed(rows, name)[i].status
    ensures forall i :: 0 <= i < |rows| && rows[i].name != name ==> Completed(rows, name)[i] == rows[i]
    ensures (forall i :: 0 <= i < |rows| ==> rows[i].name != name) ==> Completed(rows, name) == rows
  {
  }

  /** Marking the same name twice is the same as marking it once. */
  lemma CompletedIdempotent(rows: seq<Row>, name: string)
    ensures Completed(Completed(rows, name), name) == Completed(rows, name)
  {
  }

  /** A mark keeps the primary key unique and reopens or renames nothing. */
  lemma CompletedKeepsKeys(rows: seq<Row>, name: string)
    requires UniqueIds(rows)
    ensures UniqueIds(Completed(rows, name)) && Retains(rows, Completed(rows, name))
  {
  }

  /** What a listing shows after each statement: an added task last, no task with a removed name, and
      every task with a marked name complete. */
  lemma ListingAfterStatements(rows: seq<Row>, task: Task, name: string)
    ensures TasksOf(Inserted(rows, task)) == TasksOf(rows) + [task]
    ensures forall t :: t in TasksOf(Deleted(rows, name)) ==> t.name != name
    ensures forall t :: t in TasksOf(Completed(rows, name)) && t.name == name ==> t.status
  {
    var added := TasksOf(Inserted(rows, task));
    assert added[|rows|] == task;
    assert added == TasksOf(rows) + [task];
  }

  /** The walk-through of a fresh store: two adds, a mark and a remove, listed after each step. */
  lemma Walkthrough()
    ensures var t1 := Inserted(Inserted([], NewTask("Buy milk")), NewTask("Write report"));
      var t2 := Completed(t1, "Buy milk");
      var t3 := Deleted(t2, "Write report");
      TasksOf([]) == [] &&
      TasksOf(t1) == [Task("Buy milk", false), Task("Write report", false)] &&
      TasksOf(t2) == [Task("Buy milk", true), Task("Write report", false)] &&
      TasksOf(t3) == [Task("Buy milk", true)]
  {
    var t0: seq<Row> := [];
    var t01 := Inserted(t0, NewTask("Buy milk"));
    assert t01 == [Row(1, "Buy milk", false)];
    var t1 := Inserted(t01, NewTask("Write report"));
    assert t1 == [Row(1, "Buy milk", false), Row(2, "Write report", false)];
    var t2 := Completed(t1, "Buy milk");
    assert t2 == [Row(1, "Buy milk", true), Row(2, "Write report", false)];
    var t3 := Deleted(t2, "Write report");
    assert t3 == [Row(1, "Buy milk", true)] by {
      assert t2[0].name != "Write report" by { assert t2[0].name[0] != "Write report"[0]; }
      assert t2[1..] == [Row(2, "Write report", false)];
      assert Deleted(t2[1..], "Write report") == [] by { assert t2[1..][1..] == []; }
    }
  }

  // ---------------------------------------------------------------------------------------------
  // The database file and the connection to it

  /** The file `data/tasks.db`; `table` is None until the `tasks` table has been created in it. */
  class DbFile {
    var table: Option<seq<Row>>

    /** The engine enforces the primary key on whatever table the file holds. */
    ghost predicate Valid()
      reads this
    {
      table.Some? ==> UniqueIds(table.value)
    }

    /** A file that does not exist yet: opening it creates it empty. */
    constructor ()
      ensures Valid() && table == None
    {
      table := None;
    }
  }

  /** `struct Database`: an open connection to the file, whose table the methods change in place. */
  class Database {
    const file: DbFile

    ghost predicate Valid()
      reads this, file
    {
      file.table.Some? && UniqueIds(file.table.value)
    }

    /** The rows of the `tasks` table, in the order the engine returns them. */
    function Rows(): seq<Row>
      reads this, file
      requires Valid()
    {
      file.table.value
    }

    constructor Connect(file: DbFile)
      ensures this.file == file
    {
      this.file := file;
    }

    /** `Database::new`: open the file and create the table unless it exists. A failure to open the
        file or run the schema statement leaves the file as it was. */
    static method New(file: DbFile, fails: bool) returns (r: Result<Database, DbError>)
      requires file.Valid()
      modifies file
      ensures fails ==> r == Err(StorageUnavailable) && file.table == old(file.table)
      ensures !fails ==> (r.Ok? && r.value.file == file && r.value.Valid() &&
                          file.table == CreateIfNotExists(old(file.table)))
      ensures !fails && old(file.table).Some? ==> file.table == old(file.table)
    {
      if fails {
        return Err(StorageUnavailable);
      }
      file.table := CreateIfNotExists(file.table);
      var db := new Database.Connect(file);
      return Ok(db);
    }

    /** `add_task`: insert one row with the task's name and status. */
    method AddTask(task: Task, fails: bool) returns (r: Result<(), DbError>)
      requires Valid()
      modifies file
      ensures Valid()
      ensures fails ==> r == Err(StorageWriteError) && Rows() == old(Rows())
      ensures !fails ==> r == Ok(()) && Rows() == Inserted(old(Rows()), task)
    {
      if fails {
        return Err(StorageWriteError);
      }
      InsertedAppends(Rows(), task);
      file.table := Some(Inserted(Rows(), task));
      return Ok(());
    }

    /** `get_tasks`: one task per row, with that row's name and status, in the engine's order; an empty
        table gives an empty list. */
    method GetTasks(fails: bool) returns (r: Result<seq<Task>, DbError>)
      requires Valid()
      ensures fails ==> r == Err(StorageReadError)
      ensures !fails ==> r == Ok(TasksOf(Rows()))
    {
      if fails {
        return Err(StorageReadError);
      }
      var rows := Rows();
      var collection: seq<Task> := [];
      for k := 0 to |rows|
        invariant |collection| == k
        invariant forall i :: 0 <= i < k ==>
          collection[i].name == rows[i].name && collection[i].status == rows[i].status
      {
        var task := Task(rows[k].name, rows[k].status);
        collection := collection + [task];
      }
      assert collection == TasksOf(rows);
      return Ok(collection);
    }

    /** `remove_task`: delete every row with exactly that name; no match is not an error. */
    method RemoveTask(name: string, fails: bool) returns (r: Result<(), DbError>)
      requires Valid()
      modifies file
      ensures Valid()
      ensures fails ==> r == Err(StorageWriteError) && Rows() == old(Rows())
      ensures !fails ==> r == Ok(()) && Rows() == Deleted(old(Rows()), name)
    {
      if fails {
        return Err(StorageWriteError);
      }
      DeletedKeepsKeys(Rows(), name);
      file.table := Some(Deleted(Rows(), name));
      return Ok(());
    }

    /** `mark_complete`: set status 1 on every row with exactly that name; no match is not an error. */
    method MarkComplete(name: string, fails: bool) returns (r: Result<(), DbError>)
      requires Valid()
      modifies file
      ensures Valid()
      ensures fails ==> r == Err(StorageWriteError) && Rows() == old(Rows())
      ensures !fails ==> r == Ok(()) && Rows() == Completed(old(Rows()), name)
    {
      if fails {
        return Err(StorageWriteError);
      }
      CompletedKeepsKeys(Rows(), name);
      file.table := Some(Completed(Rows(), name));
      return Ok(());
    }
  }
}
