/**
 * The task board module's state and its handlers. The module-level variables of the board
 * (the task sequence, the id counter, the host context, the drag and add-form state, the
 * listener scope) are the fields of one `Board`; the browser's local storage is modelled by
 * the two fields the board reads and writes. What the host receives through `emit` is kept
 * in `emitted`, oldest first.
 */
module TaskBoard {
  import opened Optional
  import opened JsText
  import opened TaskStore
  import opened DropPoint

  /** A command a host sends to `onAction`; a missing payload reads as an empty one. */
  datatype Action =
    | AddTaskAction(add: Option<AddPayload>)
    | MoveTaskAction(move: Option<MovePayload>)
    | OtherAction(kind: string)

  function AddFields(p: Option<AddPayload>): AddPayload {
    if p.Some? then p.value else AddPayload(None, None, None, None, None)
  }

  function MoveFields(p: Option<MovePayload>): MovePayload {
    if p.Some? then p.value else MovePayload(None, None, None)
  }

  class Board {
    var tasks: seq<Task>
    var nextId: nat
    /** Whether the host context supplies an `emit` callback. */
    var canEmit: bool
    var emitted: seq<Event>
    var draggedTaskId: Option<string>
    var addFormColumn: Option<string>
    /** Whether the listeners registered by `Init` are attached (their abort signal not yet fired). */
    var listening: bool
    /** The stored version marker read as a number; `None` when absent or not a number. */
    var storedVersion: Option<int>
    /** The stored task list; `None` when absent, empty or unreadable. */
    var storedTasks: Option<seq<Task>>
    /** The tasks a board starts from when nothing usable is saved. */
    const seed: seq<Task>

    /** The counter is never below its start and stays above the number of every id in the store. */
    ghost predicate Valid()
      reads this`nextId, this`tasks
    {
      nextId >= InitialNextId && IdsBelow(tasks, nextId) && IdsBelow(seed, InitialNextId)
    }

    /** Local storage holds the current version and exactly the tasks in memory. */
    predicate Persisted()
      reads this`storedVersion, this`storedTasks, this`tasks
    {
      storedVersion == Some(DataVersion) && storedTasks == Some(tasks)
    }

    /** The module as loaded into a page whose local storage holds `version` and `saved`. */
    constructor (version: Option<int>, saved: Option<seq<Task>>)
      ensures Valid()
      ensures tasks == [] && nextId == InitialNextId && emitted == []
      ensures !canEmit && draggedTaskId == None && addFormColumn == None && !listening
      ensures storedVersion == version && storedTasks == saved
      ensures seed == SeedTasks()
    {
      seed := SeedTasks();
      SeedIdsFresh();
      tasks, nextId := [], InitialNextId;
      canEmit, emitted := false, [];
      draggedTaskId, addFormColumn, listening := None, None, false;
      storedVersion, storedTasks := version, saved;
    }

    /** `saveTasks`: write the whole sequence. */
    method Save()
      modifies this`storedTasks
      ensures storedTasks == Some(tasks)
    {
      storedTasks := Some(tasks);
    }

    /**
     * `loadTasks`: take the saved tasks when the version matches and a list is saved, moving
     * the counter past every id's number; otherwise start from the seed, leave the counter
     * alone, and save the seed under the current version.
     */
    method Load()
      requires Valid()
      modifies this`tasks, this`nextId, this`storedVersion, this`storedTasks
      ensures Valid() && Persisted()
      ensures nextId >= old(nextId)
      ensures old(storedVersion) == Some(DataVersion) && old(storedTasks).Some? ==>
        tasks == old(storedTasks).value && nextId == RecoverNextId(tasks, old(nextId))
      ensures !(old(storedVersion) == Some(DataVersion) && old(storedTasks).Some?) ==>
        tasks == seed && nextId == old(nextId)
      ensures old(Persisted()) ==> tasks == old(tasks) && nextId == old(nextId)
    {
      if storedVersion == Some(DataVersion) && storedTasks.Some? {
        if tasks == storedTasks.value {
          RecoverNextIdStable(tasks, nextId);
        }
        tasks := storedTasks.value;
        RecoverNextIdClears(tasks, nextId);
        nextId := RecoverNextId(tasks, nextId);
        return;
      }
      tasks := seed;
      assert IdsBelow(tasks, nextId) by {
        forall k | 0 <= k < |tasks| ensures NumberBelow(tasks[k].id, nextId) {
          assert NumberBelow(tasks[k].id, InitialNextId);
        }
      }
      storedVersion := Some(DataVersion);
      Save();
    }

    /** `init(context)`: adopt the host context, attach the listeners, load the tasks. */
    method Init(hostEmits: bool)
      requires Valid()
      modifies this`canEmit, this`listening, this`tasks, this`nextId, this`storedVersion, this`storedTasks
      ensures Valid() && Persisted()
      ensures canEmit == hostEmits && listening
      ensures old(storedVersion) == Some(DataVersion) && old(storedTasks).Some? ==>
        tasks == old(storedTasks).value && nextId == RecoverNextId(tasks, old(nextId))
      ensures !(old(storedVersion) == Some(DataVersion) && old(storedTasks).Some?) ==>
        tasks == seed && nextId == old(nextId)
    {
      canEmit := hostEmits;
      listening := true;
      Load();
    }

    /**
     * `destroy()`: detach the listeners and reset the in-memory state; local storage and the
     * host context are left as they are.
     */
    method Destroy()
      requires Valid()
      modifies this`listening, this`tasks, this`nextId, this`draggedTaskId, this`addFormColumn
      ensures Valid()
      ensures !listening && tasks == [] && nextId == InitialNextId
      ensures draggedTaskId == None && addFormColumn == None
    {
      listening := false;
      tasks := [];
      nextId := InitialNextId;
      draggedTaskId := None;
      addFormColumn := None;
    }

    /** A click on a column's add button opens the add form in that column. */
    method AddClick(col: string)
      modifies this`addFormColumn
      ensures addFormColumn == Some(col)
    {
      addFormColumn := Some(col);
    }

    /** The add form's cancel button closes the form. */
    method AddCancel()
      modifies this`addFormColumn
      ensures addFormColumn == None
    {
      addFormColumn := None;
    }

    /**
     * `handleAddSubmit`: append a task with the next id, the given column, title and
     * description, no assignee and `priority || 'medium'`; save; close the form; tell the host.
     */
    method AddSubmit(col: string, title: string, desc: string, priority: string)
      requires Valid()
      modifies this`tasks, this`nextId, this`storedTasks, this`addFormColumn, this`emitted
      ensures Valid()
      ensures var t := FormTask(IdFor(old(nextId)), col, title, desc, priority);
        && tasks == old(tasks) + [t]
        && emitted == old(emitted) + (if canEmit then [TaskAdded(t.id, title, desc, col, priority)] else [])
      ensures nextId == old(nextId) + 1
      ensures TasksForColumn(tasks, col) == TasksForColumn(old(tasks), col) + [FormTask(IdFor(old(nextId)), col, title, desc, priority)]
      ensures !HasId(old(tasks), IdFor(old(nextId)))
      ensures old(UniqueIds(tasks)) ==> UniqueIds(tasks)
      ensures storedTasks == Some(tasks) && addFormColumn == None
    {
      var id := IdFor(nextId);
      var t := FormTask(id, col, title, desc, priority);
      AppendFresh(tasks, nextId, t);
      FreshIdUnused(tasks, nextId);
      LastOfColumn(tasks, t);
      nextId := nextId + 1;
      tasks := tasks + [t];
      Save();
      addFormColumn := None;
      if canEmit {
        emitted := emitted + [TaskAdded(id, title, t.desc, col, priority)];
      }
    }

    /**
     * The add form's submit listener: trim the title and stop if nothing is left; otherwise
     * add the task with the trimmed title and trimmed description.
     */
    method SubmitAddForm(col: string, rawTitle: string, rawDesc: string, priority: string)
      requires Valid()
      modifies this`tasks, this`nextId, this`storedTasks, this`addFormColumn, this`emitted
      ensures Valid()
      ensures AllSpace(rawTitle) ==>
        && tasks == old(tasks) && nextId == old(nextId) && emitted == old(emitted)
        && storedTasks == old(storedTasks) && addFormColumn == old(addFormColumn)
      ensures !AllSpace(rawTitle) ==>
        && tasks == old(tasks) + [FormTask(IdFor(old(nextId)), col, Trim(rawTitle), Trim(rawDesc), priority)]
        && nextId == old(nextId) + 1 && storedTasks == Some(tasks) && addFormColumn == None
        && emitted == old(emitted) + (if canEmit then [TaskAdded(IdFor(old(nextId)), Trim(rawTitle), Trim(rawDesc), col, priority)] else [])
    {
      var title := Trim(rawTitle);
      TrimEmptyIff(rawTitle);
      if title == "" {
        return;
      }
      var desc := Trim(rawDesc);
      AddSubmit(col, title, desc, priority);
    }

    /**
     * `moveTask`: nothing if no task has the id; otherwise rearrange the sequence as `Moved`
     * says, save, and tell the host when the status changed.
     */
    method MoveTask(taskId: string, newStatus: string, before: Option<string>)
      requires Valid()
      modifies this`tasks, this`storedTasks, this`emitted
      ensures Valid()
      ensures tasks == Moved(old(tasks), taskId, newStatus, before)
      ensures emitted == old(emitted) + (if canEmit then MovedEvents(old(tasks), taskId, newStatus) else [])
      ensures storedTasks == if HasId(old(tasks), taskId) then Some(tasks) else old(storedTasks)
      ensures old(UniqueIds(tasks)) ==> UniqueIds(tasks)
    {
      var found := FirstWithId(tasks, taskId);
      if found.None? {
        assert MovedEvents(tasks, taskId, newStatus) == [];
        return;
      }
      var task := tasks[found.value];
      var oldStatus := task.status;
      var rest := Without(tasks, taskId);
      task := task.(status := newStatus);
      var next := rest + [task];
      if Truthy(before) {
        var idx := FirstWithId(rest, before.value);
        if idx.Some? {
          next := InsertAt(rest, idx.value, task);
        }
      }
      assert next == Moved(tasks, taskId, newStatus, before);
      ghost var events := if oldStatus != newStatus then [TaskMoved(taskId, task.title, oldStatus, newStatus)] else [];
      assert events == MovedEvents(tasks, taskId, newStatus);
      assert IdsBelow(next, nextId) by {
        MoveKeepsIdsBelow(tasks, taskId, newStatus, before, nextId);
      }
      assert UniqueIds(tasks) ==> UniqueIds(next) by {
        if UniqueIds(tasks) {
          MovePermutes(tasks, found.value, newStatus, before);
        }
      }
      tasks := next;
      Save();
      if canEmit && oldStatus != newStatus {
        emitted := emitted + [TaskMoved(taskId, task.title, oldStatus, newStatus)];
      }
    }

    /** A click on a task's priority badge: the first task with the id moves to the next priority, and the store is saved. */
    method ClickPriorityBadge(taskId: string)
      requires Valid()
      modifies this`tasks, this`storedTasks
      ensures Valid()
      ensures tasks == PriorityCycled(old(tasks), taskId)
      ensures storedTasks == if HasId(old(tasks), taskId) then Some(tasks) else old(storedTasks)
      ensures old(UniqueIds(tasks)) ==> UniqueIds(tasks)
    {
      var found := FirstWithId(tasks, taskId);
      if found.None? {
        return;
      }
      var i := found.value;
      PriorityCycledChangesOnlyPriority(tasks, taskId);
      SameIdsKeep(tasks, PriorityCycled(tasks, taskId), nextId);
      tasks := tasks[i := tasks[i].(priority := NextPriority(tasks[i].priority))];
      Save();
    }

    /**
     * `onAction`: an `add-task` appends a task built from the payload with defaults and saves,
     * without telling the host; a `move-task` finds the first task matching the payload's id
     * or title and, when a non-empty target status is given, moves it to the end; anything
     * else is ignored.
     */
    method OnAction(a: Action)
      requires Valid()
      modifies this`tasks, this`nextId, this`storedTasks, this`emitted
      ensures Valid()
      ensures old(UniqueIds(tasks)) ==> UniqueIds(tasks)
      ensures a.AddTaskAction? ==>
        && tasks == old(tasks) + [ActionTask(IdFor(old(nextId)), AddFields(a.add))]
        && nextId == old(nextId) + 1 && storedTasks == Some(tasks) && emitted == old(emitted)
      ensures a.MoveTaskAction? ==>
        var p := MoveFields(a.move);
        var f := FirstByIdOrTitle(old(tasks), p);
        && nextId == old(nextId)
        && if f.Some? && Truthy(p.to) then
             var id := old(tasks)[f.value].id;
             && tasks == Moved(old(tasks), id, p.to.value, None) && storedTasks == Some(tasks)
             && emitted == old(emitted) + (if canEmit then MovedEvents(old(tasks), id, p.to.value) else [])
           else
             tasks == old(tasks) && storedTasks == old(storedTasks) && emitted == old(emitted)
      ensures a.OtherAction? ==>
        tasks == old(tasks) && nextId == old(nextId) && storedTasks == old(storedTasks) && emitted == old(emitted)
    {
      match a
      case AddTaskAction(payload) =>
        var p := AddFields(payload);
        var t := ActionTask(IdFor(nextId), p);
        AppendFresh(tasks, nextId, t);
        nextId := nextId + 1;
        tasks := tasks + [t];
        Save();
      case MoveTaskAction(payload) =>
        var p := MoveFields(payload);
        var f := FirstByIdOrTitle(tasks, p);
        if f.Some? && Truthy(p.to) {
          var id := tasks[f.value].id;
          assert HasId(tasks, id);
          MoveTask(id, p.to.value, None);
        }
      case OtherAction(_) =>
    }

    /** Drag start on a card records the dragged task's id. */
    method DragStart(taskId: string)
      modifies this`draggedTaskId
      ensures draggedTaskId == Some(taskId)
    {
      draggedTaskId := Some(taskId);
    }

    /** Drag end forgets the dragged task without touching the store. */
    method DragEnd()
      modifies this`draggedTaskId
      ensures draggedTaskId == None
    {
      draggedTaskId := None;
    }

    /**
     * Drop on a column: when a (non-empty) task id is being dragged, move that task into the
     * column, before the card that followed the placeholder if there was one, and forget it.
     */
    method Drop(col: string, before: Option<string>)
      requires Valid()
      modifies this`tasks, this`storedTasks, this`emitted, this`draggedTaskId
      ensures Valid()
      ensures !Truthy(old(draggedTaskId)) ==>
        tasks == old(tasks) && storedTasks == old(storedTasks) && emitted == old(emitted) && draggedTaskId == old(draggedTaskId)
      ensures Truthy(old(draggedTaskId)) ==>
        var id := old(draggedTaskId).value;
        && tasks == Moved(old(tasks), id, col, before)
        && emitted == old(emitted) + (if canEmit then MovedEvents(old(tasks), id, col) else [])
        && storedTasks == (if HasId(old(tasks), id) then Some(tasks) else old(storedTasks))
        && draggedTaskId == None
      ensures old(UniqueIds(tasks)) ==> UniqueIds(tasks)
    {
      if !Truthy(draggedTaskId) {
        return;
      }
      MoveTask(draggedTaskId.value, col, before);
      draggedTaskId := None;
    }

    /**
     * A drop at pointer height `y` over a column whose body holds `cards`: the placeholder
     * stands where the drag-over search put it, so the task goes before the card the search
     * chose, or to the end of the whole sequence when it chose none.
     */
    method DropAt(col: string, cards: seq<Card>, y: real)
      requires Valid()
      modifies this`tasks, this`storedTasks, this`emitted, this`draggedTaskId
      ensures Valid()
      ensures Truthy(old(draggedTaskId)) ==>
        var id := old(draggedTaskId).value;
        var cs := Candidates(cards);
        || (exists k :: 0 <= k < |cs| && y < Midpoint(cs[k]) && (forall j :: 0 <= j < k ==> Midpoint(cs[j]) <= y)
              && tasks == Moved(old(tasks), id, col, Some(cs[k].taskId)))
        || ((forall k :: 0 <= k < |cs| ==> Midpoint(cs[k]) <= y) && tasks == Moved(old(tasks), id, col, None))
      ensures Truthy(old(draggedTaskId)) ==>
        var id := old(draggedTaskId).value;
        && emitted == old(emitted) + (if canEmit then MovedEvents(old(tasks), id, col) else [])
        && storedTasks == (if HasId(old(tasks), id) then Some(tasks) else old(storedTasks))
        && draggedTaskId == None
      ensures !Truthy(old(draggedTaskId)) ==>
        tasks == old(tasks) && storedTasks == old(storedTasks) && emitted == old(emitted) && draggedTaskId == old(draggedTaskId)
      ensures old(UniqueIds(tasks)) ==> UniqueIds(tasks)
    {
      var k := InsertBefore(cards, y);
      var before := if k.Some? then Some(Candidates(cards)[k.value].taskId) else None;
      Drop(col, before);
    }
  }
}
