/**
 * The task-list bookkeeping of `main()`: the `tasks` table of the open todo.db
 * connection and the in-memory `tasks` list, kept in step by load_tasks,
 * add_task, the checkbox trace callbacks and delete_selected.
 */
module App {
  import opened Text
  import opened Store
  import opened Tasks

  datatype Option<T> = None | Some(value: T)

  class TaskList {
    /** The `tasks` table. */
    var table: Table
    /** The AUTOINCREMENT counter SQLite keeps in sqlite_sequence: the
        largest id the table has ever issued. */
    var lastId: int
    /** The ids stored at start-up plus every id issued since, deleted ones
        included; any id issued before start-up is at most the counter. */
    ghost var issued: set<int>
    /** The in-memory list, one entry per Checkbutton. */
    var tasks: seq<Task>

    /** What AUTOINCREMENT guarantees of the stored table: every id is
        positive, was issued, and no issued id exceeds the counter. */
    ghost predicate StoreValid()
      reads this
    {
      && 0 <= lastId <= MaxRowId
      && (forall k :: k in table ==> 1 <= k && k in issued)
      && (forall k :: k in issued ==> k <= lastId)
    }

    ghost predicate Valid()
      reads this
    {
      StoreValid() && Mirrors(tasks, table)
    }

    /** Start-up: the table as todo.db holds it (empty when the file is new,
        with counter 0), then load_tasks on an empty list. */
    constructor (stored: Table, sequence: int)
      requires 0 <= sequence <= MaxRowId
      requires forall k :: k in stored ==> 1 <= k <= sequence
      ensures Valid()
      ensures table == stored && lastId == sequence
    {
      table := stored;
      lastId := sequence;
      issued := stored.Keys;
      tasks := [];
      new;
      Load();
    }

    /** load_tasks: clear the list, then append one entry per row in id
        order, at grid rows 0, 1, 2, ... The result depends on the table
        alone (see Tasks.MirrorsUnique), so loading twice is loading once. */
    method Load()
      requires StoreValid()
      modifies this`tasks
      ensures Valid()
    {
      tasks := [];
      var db := table;
      var cursor := OrderedIds(db, 1, lastId);
      OrderedIdsInTable(db, 1, lastId);
      var rowIndex := 0;
      while rowIndex < |cursor|
        invariant 0 <= rowIndex <= |cursor| && |tasks| == rowIndex
        invariant forall i :: 0 <= i < rowIndex ==> tasks[i] == Loaded(db, cursor, i)
      {
        var id := cursor[rowIndex];
        var row := db[id];
        tasks := tasks + [Task(id, row.description, row.completed != 0, rowIndex)];
        rowIndex := rowIndex + 1;
      }
      CursorCoversTable(db, lastId);
      LoadedMirrors(tasks, db, cursor);
    }

    /** add_task: ignore input that strips to nothing; otherwise insert a row
        with completed = 0 under the next AUTOINCREMENT id and append its entry
        at grid row len(tasks). Once the counter has reached the largest
        rowid the INSERT fails, is rolled back, and nothing changes. */
    method Add(input: string) returns (id: Option<int>)
      requires Valid()
      modifies this
      ensures Valid()
      ensures Strip(input) == [] || old(lastId) == MaxRowId ==>
        && id == None
        && table == old(table) && lastId == old(lastId) && issued == old(issued) && tasks == old(tasks)
      ensures Strip(input) != [] && old(lastId) < MaxRowId ==>
        && id == Some(lastId)
        && lastId == old(lastId) + 1
        && (forall k :: k in old(issued) ==> k < lastId)
        && issued == old(issued) + {lastId}
        && table == old(table)[lastId := Row(Strip(input), 0)]
        && tasks == old(tasks) + [Task(lastId, Strip(input), false, |old(tasks)|)]
    {
      var text := Strip(input);
      if text == [] {
        return None;
      }
      if lastId == MaxRowId {
        return None;
      }
      var newId := lastId + 1;
      AppendKeepsMirror(tasks, table, newId, text);
      table := table[newId := Row(text, 0)];
      lastId := newId;
      issued := issued + {newId};
      tasks := tasks + [Task(newId, text, false, |tasks|)];
      id := Some(newId);
    }

    /** A checkbox click: its BooleanVar becomes `v` and the trace callback
        runs update_completed, storing 1 or 0 in that row. An id with no
        row and no entry changes nothing. */
    method Toggle(id: int, v: bool)
      requires Valid()
      modifies this`table, this`tasks
      ensures Valid()
      ensures tasks == SetFlag(old(tasks), id, v)
      ensures table == SetCompleted(old(table), id, v)
    {
      ToggleKeepsMirror(tasks, table, id, v);
      tasks := SetFlag(tasks, id, v);
      table := SetCompleted(table, id, v);
    }

    /** delete_selected: walk the list backwards, deleting the row and
        popping the entry of every checked task, then re-grid the survivors
        at rows 0..k-1. */
    method DeleteChecked()
      requires Valid()
      modifies this`table, this`tasks
      ensures Valid()
      ensures tasks == Regrid(Unchecked(old(tasks)))
      ensures Deleted(table, old(table), old(tasks))
    {
      var kept, db := PopChecked(tasks, table);
      var list := RegridRows(kept);
      DeleteKeepsMirror(tasks, table, db);
      tasks, table := list, db;
    }
  }

  /** The reverse walk of delete_selected: from the last entry down to the
      first, a checked entry loses its row and is popped from the list, so
      the indexes still to be visited never shift. */
  method PopChecked(ts: seq<Task>, t: Table) returns (list: seq<Task>, db: Table)
    ensures list == Unchecked(ts)
    ensures Deleted(db, t, ts)
  {
    list, db := ts, t;
    var i := |list|;
    while i > 0
      invariant 0 <= i <= |ts|
      invariant list == ts[..i] + Unchecked(ts[i..])
      invariant forall k :: k in db <==> k in t && !CheckedFrom(ts, i, k)
      invariant forall k :: k in db ==> db[k] == t[k]
    {
      PopStep(ts, list, i);
      i := i - 1;
      forall k
        ensures CheckedFrom(ts, i, k) <==> (ts[i].id == k && ts[i].checked) || CheckedFrom(ts, i + 1, k)
      {
        CheckedFromStep(ts, i, k);
      }
      var task := list[i];
      if task.checked {
        db := db - {task.id};
        list := list[..i] + list[i + 1..];
      }
    }
    assert ts[0..] == ts;
  }

  /** The second loop of delete_selected: the survivors are put back on the
      grid at rows 0, 1, 2, ... in list order. */
  method RegridRows(kept: seq<Task>) returns (list: seq<Task>)
    ensures list == Regrid(kept)
  {
    list := kept;
    var row := 0;
    while row < |list|
      invariant 0 <= row <= |list| == |kept|
      invariant forall j :: 0 <= j < |list| ==> list[j] == kept[j].(row := if j < row then j else kept[j].row)
    {
      list := list[row := list[row].(row := row)];
      row := row + 1;
    }
  }

  /** Closing the application and starting it again reloads exactly the
      list that was on screen. */
  method Reload(app: TaskList)
    requires app.Valid()
    modifies app`tasks
    ensures app.Valid() && app.tasks == old(app.tasks)
  {
    ghost var before := app.tasks;
    app.Load();
    MirrorsUnique(app.tasks, before, app.table);
  }

  /** The start of a session on a new todo.db: blank input is ignored, the
      text is stripped, and ids count up from 1. The three inputs stand for
      what is typed, e.g. " \t \n", "  buy milk  " and "task2" (see
      Text.StripBlank, Text.StripPadded and Text.StripPlain). */
  method FirstTwo(blank: string, milk: string, other: string) returns (app: TaskList)
    requires Strip(blank) == [] && Strip(milk) == "buy milk" && Strip(other) == "task2"
    ensures app.Valid()
    ensures app.tasks == [Task(1, "buy milk", false, 0), Task(2, "task2", false, 1)]
  {
    app := new TaskList(map[], 0);
    MirrorsUnique(app.tasks, [], map[]);
    var none := app.Add(blank);
    assert none == None && app.tasks == [];
    AddTwo(app, milk, other);
  }

  /** Two adds on an empty list get ids 1 and 2 and rows 0 and 1. */
  method AddTwo(app: TaskList, milk: string, other: string)
    requires app.Valid() && app.tasks == [] && app.lastId == 0
    requires Strip(milk) == "buy milk" && Strip(other) == "task2"
    modifies app
    ensures app.Valid()
    ensures app.tasks == [Task(1, "buy milk", false, 0), Task(2, "task2", false, 1)]
  {
    var first := app.Add(milk);
    assert first == Some(1) && app.lastId == 1;
    var second := app.Add(other);
    assert second == Some(2);
  }

  /** Then checking the first task and deleting leaves the second one alone
      at row 0, in the list and in the table. */
  method CheckFirstAndDelete(app: TaskList)
    requires app.Valid()
    requires app.tasks == [Task(1, "buy milk", false, 0), Task(2, "task2", false, 1)]
    modifies app
    ensures app.Valid()
    ensures app.tasks == [Task(2, "task2", false, 0)]
    ensures forall k :: k in app.table <==> k == 2
    ensures forall k :: k in app.table ==> k in old(app.table) && app.table[k] == old(app.table)[k]
  {
    assert Ids(app.tasks)[1] == 2;
    app.Toggle(1, true);
    assert 2 in app.table && app.table[2] == old(app.table)[2];
    assert app.tasks == [Task(1, "buy milk", true, 0), Task(2, "task2", false, 1)];
    DeleteFirst(app);
  }

  /** Deleting with only the first of two tasks checked. */
  method DeleteFirst(app: TaskList)
    requires app.Valid()
    requires app.tasks == [Task(1, "buy milk", true, 0), Task(2, "task2", false, 1)]
    modifies app
    ensures app.Valid()
    ensures app.tasks == [Task(2, "task2", false, 0)]
    ensures forall k :: k in app.table <==> k == 2
    ensures forall k :: k in app.table ==> k in old(app.table) && app.table[k] == old(app.table)[k]
  {
    ghost var before := app.tasks;
    app.DeleteChecked();
    assert Unchecked(before) == [before[1]] by {
      assert before[1..][1..] == [];
    }
    assert CheckedFrom(before, 0, 1) && !CheckedFrom(before, 0, 2);
  }
}
