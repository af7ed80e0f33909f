# Task board: the in-memory task store

This project models the kanban task board in `client/task-board.js`. The board has:

- one ordered sequence of tasks;
- an id counter;
- four fixed columns (`pending`, `inprogress`, `blocked`, `done`) that show the tasks whose status matches them, in sequence order;
- a small versioned copy of the sequence in the browser's local storage;
- an optional host that receives `task:added` and `task:moved` notifications and sends `add-task` / `move-task` commands.

The model has five modules:

- `Optional`: `Option`, standing for a JavaScript value that may be `undefined`.
- `JsText` (`jstext.dfy`): the ECMAScript string built-ins the board relies on:
  - `trim`, with the full ECMAScript white-space set;
  - `parseInt(s, 10)`: white space, optional sign, longest digit run, and `NaN` as `None`;
  - `String(n)` for a natural number;
  - `replace` with a one-character pattern, which replaces only the first occurrence;
  - the truthiness of a string and `s || fallback`.
- `TaskStore` (`taskstore.dfy`): the pure part. It holds:
  - the task record, the seed data and the notification payloads;
  - the id scheme `t<n>` and the `reduce` that recovers the counter on load;
  - `tasksForColumn`;
  - the sequence after a move and the notification a move sends;
  - the tasks the add paths build;
  - the priority cycle.

  Lemmas state what these operations promise.
- `DropPoint` (`droppoint.dfy`): the drag-over search for the card a dropped task goes in front of. It is a method with the source's `for … break` loop.
- `TaskBoard` (`board.dfy`): the module's state as a class `Board`.
  - Its fields are:
    - `tasks` and `nextId`;
    - whether the host supplies `emit`, and the notifications sent so far;
    - the dragged task id and the column with an open add form;
    - whether the listeners are attached;
    - the two local-storage entries.
  - Each handler is a method with a `modifies` clause naming the fields it writes. Its `ensures` ties the new state to the `TaskStore` functions.
  - The invariant `Valid()` holds in every state the handlers produce. It says the counter is at least 100 and above the number of every id in the store, so the next id is always fresh.

Assigning a field of a task in place (`task.status = …`, `task.priority = …`) is modelled by replacing that task's record in the sequence. The core holds no other reference to a task object.

Four rules of the code are easy to misread; the model states each as the code has it:

- **Pointer exactly at a midpoint.** The drag-over comparison is `e.clientY < rect.top + rect.height / 2`, a strict `<`. So a pointer exactly at a card's midpoint does not choose that card; the search goes on to the next card. `DropPoint.InsertBefore` states this rule.
- **How `move-task` picks its task.** The command runs a single `find` with `t.id === p.taskId || t.title === p.title`. It takes the first task in sequence order that matches either way, so a title match earlier in the sequence wins over an id match later on. `TaskStore.FirstByIdOrTitle` states this rule.
- **Statuses outside the four columns.** An `add-task` command may set any non-empty string as status, and a `move-task` command may move to one. So "every status is a column" is not an invariant of the code. `TaskStore.ColumnsPartition` assumes it explicitly.
- **Duplicate ids.** Ids are unique only for what the board itself creates. Saved storage may hold duplicates, and `moveTask`'s `filter` then drops every task with the moved id. The model keeps this behaviour. Uniqueness is stated as preserved (`old(UniqueIds(tasks)) ==> UniqueIds(tasks)`), and the permutation lemmas assume it.

## Model

| member | source | states |
|---|---|---|
| JsText.Trim | client/task-board.js:300-302 | `trim` is the input without its leading and trailing white space; its shape is stated by the two lemmas below |
| JsText.TrimStartShape | client/task-board.js:300 | the leading part `trim` removes is all white space, and what is kept is a suffix of the input that does not start with white space |
| JsText.TrimEndShape | client/task-board.js:300 | the trailing part `trim` removes is all white space, and what is kept is a prefix of the input that does not end with white space |
| JsText.TrimEmptyIff | client/task-board.js:300-301 | a title is rejected (trims to `''`) exactly when it consists only of white space |
| JsText.TrimIdempotent | client/task-board.js:300-302 | trimming an already trimmed title or description changes nothing |
| JsText.OrElse | client/task-board.js:135 | `s \|\| fallback` is the given string when it is defined and non-empty, and the fallback otherwise; it is empty only if the fallback is |
| JsText.Decimal | client/task-board.js:134 | `String(n)` is a non-empty run of decimal digits |
| JsText.DecimalValue | client/task-board.js:134 | reading the digits of `String(n)` back gives `n` |
| JsText.DecimalInjective | client/task-board.js:134 | distinct counter values render as distinct digit strings |
| JsText.ParseInt | client/task-board.js:34 | `parseInt(s, 10)`: skip leading white space, take an optional sign, read the longest digit run; `NaN` (here `None`) when there are no digits |
| JsText.LeadingDigitsShape | client/task-board.js:34 | the digits `parseInt` reads are the longest prefix made of decimal digits |
| JsText.ParseDecimal | client/task-board.js:34 | `parseInt(String(n), 10)` is `n` |
| JsText.RemoveFirst | client/task-board.js:34 | `replace('t', '')` with a string pattern: only the first `t` goes; its shape is stated by `RemoveFirstShape` |
| JsText.RemoveFirstShape | client/task-board.js:34 | `replace('t', '')` removes exactly one `t`, the first, when there is one: the result is the string with the character at the first `t`'s position cut out. Otherwise the string comes back unchanged |
| TaskStore.SeedTasks | client/task-board.js:8-16 | the seven seed tasks with their ids, titles, descriptions, statuses, assignees and priorities |
| TaskStore.IdFor | client/task-board.js:134 | the id of counter value `n` is `t` followed by `String(n)` |
| TaskStore.IdNumber | client/task-board.js:34 | the number the load scan reads from an id: `parseInt` of the id with its first `t` removed |
| TaskStore.IdNumberOfIdFor | client/task-board.js:34 | the load scan reads the id `t<n>` as the number `n` |
| TaskStore.IdForInjective | client/task-board.js:134 | ids made from distinct counter values are distinct |
| TaskStore.FreshIdUnused | client/task-board.js:134 | while the counter is above every id's number, no task has the id `t<nextId>` |
| TaskStore.AppendFresh | client/task-board.js:134-135 | appending the task with id `t<nextId>` keeps ids unique and keeps every id's number below the incremented counter |
| TaskStore.ScanStep | client/task-board.js:34-35 | one step of the `reduce` never lowers the running maximum, and leaves it above the id's number if there is one; it changes the maximum only to one past that number |
| TaskStore.RecoverNextId | client/task-board.js:33-36 | the counter after a load is never below its value before the load |
| TaskStore.RecoverNextIdClears | client/task-board.js:33-36 | after the scan, the counter is above the number of every loaded id |
| TaskStore.RecoverNextIdReached | client/task-board.js:33-36 | the scan leaves the counter where it was, or one past the number of some loaded id |
| TaskStore.RecoverNextIdStable | client/task-board.js:33-36 | when the counter already clears every id, the scan does not move it |
| TaskStore.FirstWithId | client/task-board.js:150 | `find` by id is absent exactly when no task has the id; otherwise it is the first position holding the id |
| TaskStore.Without | client/task-board.js:154 | the `filter` that drops every task with the moved id; it never lengthens the sequence |
| TaskStore.WithoutMembers | client/task-board.js:154 | the `filter` keeps exactly the tasks whose id differs from the moved one |
| TaskStore.WithoutAt | client/task-board.js:154 | when only one task has the id, the `filter` removes exactly that position |
| TaskStore.TasksForColumn | client/task-board.js:59-61 | `tasksForColumn`: the tasks whose status is the column id, in sequence order; never more than the whole sequence |
| TaskStore.ColumnMembers | client/task-board.js:59-61 | a column shows exactly the tasks whose status is its id |
| TaskStore.ColumnOfConcat | client/task-board.js:59-61 | the column filter keeps sequence order: the column of a concatenation is the concatenation of the columns |
| TaskStore.LastOfColumn | client/task-board.js:135 | a task appended to the sequence is the last card of its column |
| TaskStore.ColumnsPartition | client/task-board.js:67-68 | when every status names one of the four columns, the column sizes add up to the number of tasks |
| TaskStore.Moved | client/task-board.js:149-163 | `moveTask` on the sequence: find the task, filter its id out, set its status, and splice it in before the first task with `beforeTaskId` or push it to the end; its properties are the lemmas below |
| TaskStore.InsertAt | client/task-board.js:159 | `splice(idx, 0, task)` inserts one task at the index, lengthening the sequence by one |
| TaskStore.MoveUnknown | client/task-board.js:150-151 | moving an id that no task has leaves the sequence as it was |
| TaskStore.MoveKeepsOthersInOrder | client/task-board.js:153-163 | after any move, the tasks other than the moved one are exactly the same, in the same relative order |
| TaskStore.MovedUnique | client/task-board.js:153-163 | with unique ids, a move removes the one task at its position and re-inserts it with its new status, before the first task with `beforeTaskId` or at the end |
| TaskStore.MovePermutes | client/task-board.js:153-163 | with unique ids, a move keeps the length and the ids unique, and the multiset of tasks changes only in the moved task's status |
| TaskStore.MoveBefore | client/task-board.js:157-159 | a move before a task still present puts the moved task immediately in front of it |
| TaskStore.MoveToEnd | client/task-board.js:157-163 | without a usable `beforeTaskId`, the moved task goes to the end of the whole sequence, after all the other tasks in their order |
| TaskStore.MovedLastInColumn | client/task-board.js:160-163 | a move to the end leaves the task as the last card of its new column |
| TaskStore.MovedEvents | client/task-board.js:166-168 | a move sends at most one `task:moved` notification; it sends one exactly when the task exists and its status changes, and it carries the old and the new status |
| TaskStore.MovedMembers | client/task-board.js:153-163 | every task after a move is a task from before, or carries the moved id |
| TaskStore.MoveKeepsIdsBelow | client/task-board.js:153-163 | a move keeps every id's number below the counter |
| TaskStore.FormTask | client/task-board.js:135 | the form's task has the new id, the column, the title and description, no assignee, and the given priority, or `medium` exactly when that is empty |
| TaskStore.ActionTask | client/task-board.js:323-330 | an `add-task` task takes each payload field that is present and non-empty, and otherwise `New Task`, `''`, `pending`, `''` and `medium` |
| TaskStore.FirstByIdOrTitle | client/task-board.js:335 | `move-task` targets the first task whose id or title matches, and none when no task matches either |
| TaskStore.IndexOf | client/task-board.js:290 | `indexOf` is -1 exactly when the value is absent, and otherwise is its first position |
| TaskStore.NextPriority | client/task-board.js:289-291 | the badge cycle takes low to medium, medium to high, high to low, and anything else to low |
| TaskStore.PriorityCycled | client/task-board.js:287-291 | the badge click on the sequence: the first task with the id gets the next priority, in place, so the length stays |
| TaskStore.PriorityCycledChangesOnlyPriority | client/task-board.js:287-291 | a badge click gives the first task with the id the next priority and changes no other position; ids, order and all other fields stay. With no such task the sequence is unchanged |
| TaskStore.SeedIds | client/task-board.js:9-15 | the seed ids are `t1` to `t7`, the ids the counter gives for 1 to 7 |
| TaskStore.SeedIdsFresh | client/task-board.js:8-20 | the seed ids are unique, and all lie below the initial counter 100 |
| TaskStore.SeedInColumns | client/task-board.js:1-16 | every seed task sits in one of the four columns and has a priority from the cycle |
| DropPoint.Candidates | client/task-board.js:213 | the search looks at exactly the cards other than the dragged one: every card it looks at is in the column and not dragged, and every card in the column that is not dragged is looked at |
| DropPoint.CandidatesConcat | client/task-board.js:213 | the cards looked at keep document order: the candidates of two runs of cards are the candidates of the first followed by those of the second |
| DropPoint.InsertBefore | client/task-board.js:213-218 | the chosen card is the first whose midpoint lies strictly below the pointer, and every earlier card's midpoint is at or above it; with no choice, every midpoint is at or above the pointer |
| TaskBoard.Board.constructor | client/task-board.js:18-24 | the module starts with no tasks, counter 100, no drag, no open form and no listeners |
| TaskBoard.Board.Save | client/task-board.js:48-51 | the stored list becomes the current sequence |
| TaskBoard.Board.Load | client/task-board.js:26-46 | with version 1 and a saved list, the tasks are the saved list and the counter is recovered. Otherwise the tasks are the seed, the counter is unchanged, and the seed is saved under version 1. Loading what is persisted changes neither tasks nor counter, and the invariant holds |
| TaskBoard.Board.Init | client/task-board.js:256-263 | adopts the host, attaches the listeners and loads as above |
| TaskBoard.Board.Destroy | client/task-board.js:308-317 | detaches the listeners and empties tasks, counter, drag and form state, leaving storage and host alone |
| TaskBoard.Board.AddClick | client/task-board.js:126-127 | opens the add form in the clicked column |
| TaskBoard.Board.AddCancel | client/task-board.js:143-145 | closes the add form |
| TaskBoard.Board.AddSubmit | client/task-board.js:133-142 | appends the form task with the fresh id `t<nextId>` and increments the counter. The new task is the last card of its column. It saves, closes the form and sends one `task:added` when a host listens. The invariant and unique ids are kept |
| TaskBoard.Board.SubmitAddForm | client/task-board.js:296-305 | an all-white-space title changes nothing; any other title adds the trimmed title and description as `AddSubmit` does |
| TaskBoard.Board.MoveTask | client/task-board.js:149-169 | the sequence becomes the moved sequence. It saves only when the task exists, notifies as `MovedEvents` says, and keeps the invariant and unique ids |
| TaskBoard.Board.ClickPriorityBadge | client/task-board.js:287-293 | the first task with the id gets the next priority, and the store is saved only when such a task exists; the invariant and unique ids are kept |
| TaskBoard.Board.OnAction | client/task-board.js:319-340 | `add-task` appends the action task with a fresh id and saves without notifying. `move-task` with a matching task and a non-empty target moves that task to the end; otherwise nothing changes. Other commands are ignored |
| TaskBoard.Board.DragStart | client/task-board.js:175-178 | records the dragged task's id |
| TaskBoard.Board.DragEnd | client/task-board.js:184-187 | forgets the dragged task |
| TaskBoard.Board.Drop | client/task-board.js:233-253 | with no dragged id, nothing changes. Otherwise the dragged task is moved into the column before the given task, and the drag is forgotten |
| TaskBoard.Board.DropAt | client/task-board.js:213-251 | a drop at a pointer height moves the dragged task before the card the drag-over search chose, or to the end when it chose none. It notifies as `MovedEvents` says, saves only when the task exists, forgets the drag and keeps unique ids. With no dragged id nothing changes |

## Left out

- Rendering (`renderBoard`, `renderTaskCard`, `renderAddForm`) and `escapeHtml`: markup generation and a call into the browser's DOM.
- JSON: the model's storage holds an already parsed task list. A missing or empty saved entry, and a parse or scan that throws (text that is not JSON, a value that is not an array, an entry without a string `id`), make the code fall back to the seed; the model folds all of these into an absent list (`storedTasks == None`). A list that parses and scans without throwing is kept as it is even when its entries lack fields or hold non-string values (`[{"id":"t1"}]`, a numeric title). Such lists cannot be represented by the model's `Task`, which has six string fields.
- `Number(v)` on the stored version string is not modelled. `storedVersion` holds its result, `None` when it is not a number.
- Storage write failures: `saveTasks` swallows them, and the model treats every write as successful. The version write in `loadTasks` is outside the `try` in the code and could throw; the model does not capture that.
- The DOM side of drag and drop is not modelled: the placeholder element, the `drag-over` class, `dragleave`, `dataTransfer`, and the lookup of the column under the pointer. `DropAt` assumes the placeholder stands where the last drag-over search put it.
- Card geometry comes in as real numbers, so the rounding of browser floating-point midpoints is not modelled.
- `RecoverNextId`: the counter is a JavaScript number, a double. Above 2^53 the code's `n + 1` (line 35) and `nextId++` (line 134) no longer step by one. A saved id `t9007199254740991` sets the counter to 2^53, `nextId++` then sticks there, and two adds both get the id `t9007199254740992`. The model's counter is an unbounded integer.
- `FreshIdUnused` and `AddSubmit`: the fresh-id and unique-id guarantees hold for the unbounded counter only; once a loaded id's number reaches 2^53 - 1 the code can hand out the same id twice.
- The focus call in `handleAddClick` and the host's `emit` callback are not modelled; notifications are appended to `emitted` instead.
- `onMessage` is not modelled: it only writes to the console.
- `server.js`, `client/app.js`, `client/standalone.js` and `vite.config.module.js` are not part of this model. They are HTTP/WebSocket plumbing, a help modal, a log beacon and build configuration.
- Object identity of tasks: the code's `JSON.parse(JSON.stringify(SEED_TASKS))` deep copy and in-place mutation of task objects are modelled on values, so aliasing is not captured.
