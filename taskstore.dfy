/**
 * The task store of the board: task records, the seed data, id numbering, and the pure
 * functions that say what each store operation does to the ordered task sequence.
 * The class in board.dfy applies them to its state; the lemmas here say what they mean.
 */
module TaskStore {
  import opened Optional
  import opened JsText

  /** One card on the board. `status` names its column; `priority` is shown as a badge. */
  datatype Task = Task(id: string, title: string, desc: string, status: string, assignee: string, priority: string)

  /** A notification passed to the host's `emit` callback. */
  datatype Event =
    | TaskAdded(taskId: string, title: string, desc: string, status: string, priority: string)
    | TaskMoved(taskId: string, title: string, from: string, to: string)

  /** The column ids, in display order. */
  const Columns: seq<string> := ["pending", "inprogress", "blocked", "done"]

  /** The schema version written beside the saved tasks. */
  const DataVersion: int := 1

  /** The id counter's value when the module is loaded and after a reset. */
  const InitialNextId: nat := 100

  /** The order in which a click on a priority badge advances the priority. */
  const PriorityCycle: seq<string> := ["low", "medium", "high"]

  /** The tasks a board starts with when nothing usable is saved. */
  function SeedTasks(): seq<Task> {
    [ Task("t1", "Run final staging smoke tests", "Execute the full regression suite against staging before the 10 AM deploy.", "pending", "Alex R.", "high"),
      Task("t2", "Prepare rollback runbook", "Document step-by-step rollback procedure including feature flag and DB migration revert.", "pending", "Alex R.", "high"),
      Task("t3", "Send customer notification email", "Notify enterprise customers about the upcoming v2.0 release and expected downtime window.", "done", "Marketing", "medium"),
      Task("t4", "Update API documentation", "Add docs for new endpoints introduced in v2.0.", "inprogress", "Jordan K.", "medium"),
      Task("t5", "Review onboarding flow copy", "Final copy review for the updated first-run experience.", "done", "Sarah C.", "low"),
      Task("t6", "Deploy marketing landing page", "Blocked on engineering go/no-go decision at 9 AM.", "blocked", "Marketing", "medium"),
      Task("t7", "Post launch announcement in #general", "Prepare Slack message for all-hands after successful deploy.", "pending", "Sarah C.", "low") ]
  }

  /** Some task has the id. */
  predicate HasId(ts: seq<Task>, id: string) {
    exists k :: 0 <= k < |ts| && ts[k].id == id
  }

  /** No two tasks share an id. */
  predicate UniqueIds(ts: seq<Task>) {
    forall i, j :: 0 <= i < j < |ts| ==> ts[i].id != ts[j].id
  }

  // ---------------------------------------------------------------- ids

  /** The id given to the task created when the counter stands at `n`: `t<n>`. */
  function IdFor(n: nat): string {
    "t" + Decimal(n)
  }

  /** The number the load scan reads from an id: `parseInt(id.replace('t', ''), 10)`. */
  function IdNumber(id: string): Option<int> {
    ParseInt(RemoveFirst(id, 't'))
  }

  lemma IdNumberOfIdFor(n: nat)
    ensures IdNumber(IdFor(n)) == Some(n)
  {
    assert RemoveFirst(IdFor(n), 't') == Decimal(n);
    ParseDecimal(n);
  }

  /** Ids made from distinct counter values are distinct. */
  lemma IdForInjective(m: nat, n: nat)
    ensures IdFor(m) == IdFor(n) ==> m == n
  {
    if IdFor(m) == IdFor(n) {
      IdNumberOfIdFor(m);
      IdNumberOfIdFor(n);
    }
  }

  predicate NumberBelow(id: string, bound: int) {
    match IdNumber(id)
    case None => true
    case Some(k) => k < bound
  }

  /** Every id that reads as a number reads as one below `bound`: the counter invariant. */
  predicate IdsBelow(ts: seq<Task>, bound: int) {
    forall k :: 0 <= k < |ts| ==> NumberBelow(ts[k].id, bound)
  }

  /** While the counter is above every id's number, the id it hands out next is unused. */
  lemma FreshIdUnused(ts: seq<Task>, n: nat)
    requires IdsBelow(ts, n)
    ensures !HasId(ts, IdFor(n))
  {
    IdNumberOfIdFor(n);
  }

  /** Appending the task numbered by the counter keeps the ids unique and the counter invariant. */
  lemma AppendFresh(ts: seq<Task>, n: nat, t: Task)
    requires IdsBelow(ts, n) && t.id == IdFor(n)
    ensures UniqueIds(ts) ==> UniqueIds(ts + [t])
    ensures IdsBelow(ts + [t], n + 1)
  {
    FreshIdUnused(ts, n);
    IdNumberOfIdFor(n);
  }

  /** One step of the load scan: `Math.max(max, n + 1)` when the id reads as `n`, else `max`. */
  function ScanStep(max: int, t: Task): (r: int)
    ensures r >= max && NumberBelow(t.id, r)
    ensures r == max || IdNumber(t.id) == Some(r - 1)
  {
    match IdNumber(t.id)
    case None => max
    case Some(n) => if max < n + 1 then n + 1 else max
  }

  /**
   * The counter after loading saved tasks: the scan folded left over the tasks, starting
   * from the counter's current value.
   */
  function RecoverNextId(ts: seq<Task>, start: int): (r: int)
    ensures r >= start
    decreases |ts|
  {
    if ts == [] then start else RecoverNextId(ts[1..], ScanStep(start, ts[0]))
  }

  /** The recovered counter clears every id's number: the counter invariant holds after a load. */
  lemma {:induction false} RecoverNextIdClears(ts: seq<Task>, start: int)
    ensures IdsBelow(ts, RecoverNextId(ts, start))
    decreases |ts|
  {
    if ts != [] {
      var m := ScanStep(start, ts[0]);
      var tail := ts[1..];
      var r := RecoverNextId(tail, m);
      assert RecoverNextId(ts, start) == r;
      RecoverNextIdClears(tail, m);
      forall k | 0 <= k < |ts| ensures NumberBelow(ts[k].id, r) {
        if k == 0 {
          match IdNumber(ts[0].id)
          case None =>
          case Some(n) =>
        } else {
          assert ts[k] == tail[k - 1];
        }
      }
    }
  }

  /**
   * The recovered counter is either where it started or one past some id's number, so the
   * scan never moves the counter further than the ids demand.
   */
  lemma {:induction false} RecoverNextIdReached(ts: seq<Task>, start: int)
    ensures var r := RecoverNextId(ts, start);
      r == start || exists k :: 0 <= k < |ts| && IdNumber(ts[k].id) == Some(r - 1)
    decreases |ts|
  {
    if ts != [] {
      var m := ScanStep(start, ts[0]);
      var tail := ts[1..];
      var r := RecoverNextId(tail, m);
      assert RecoverNextId(ts, start) == r;
      RecoverNextIdReached(tail, m);
      if r != start {
        var w := 0;
        if r != m {
          var k :| 0 <= k < |tail| && IdNumber(tail[k].id) == Some(r - 1);
          w := k + 1;
          assert ts[w] == tail[k];
        }
        assert IdNumber(ts[w].id) == Some(r - 1);
      }
    }
  }

  /** When the counter already clears every id's number, the load scan leaves it where it is. */
  lemma {:induction false} RecoverNextIdStable(ts: seq<Task>, start: int)
    requires IdsBelow(ts, start)
    ensures RecoverNextId(ts, start) == start
    decreases |ts|
  {
    if ts != [] {
      assert NumberBelow(ts[0].id, start);
      assert ScanStep(start, ts[0]) == start;
      assert IdsBelow(ts[1..], start) by {
        forall k | 0 <= k < |ts| - 1 ensures NumberBelow(ts[1..][k].id, start) {
          assert ts[1..][k] == ts[k + 1];
        }
      }
      RecoverNextIdStable(ts[1..], start);
    }
  }

  // ---------------------------------------------------------------- searching and filtering

  /** `ts.findIndex(t => t.id === id)`, with `None` for -1; `find` returns the task at that index. */
  function FirstWithId(ts: seq<Task>, id: string): (r: Option<nat>)
    ensures r.None? <==> !HasId(ts, id)
    ensures r.Some? ==> r.value < |ts| && ts[r.value].id == id
    ensures r.Some? ==> forall k :: 0 <= k < r.value ==> ts[k].id != id
  {
    if ts == [] then None
    else if ts[0].id == id then Some(0)
    else
      assert forall k :: 1 <= k < |ts| ==> ts[k] == ts[1..][k - 1];
      match FirstWithId(ts[1..], id)
      case None => None
      case Some(k) => Some(k + 1)
  }

  /** `ts.filter(t => t.id !== id)` */
  function Without(ts: seq<Task>, id: string): (r: seq<Task>)
    ensures |r| <= |ts|
  {
    if ts == [] then []
    else (if ts[0].id == id then [] else [ts[0]]) + Without(ts[1..], id)
  }

  /** The filter keeps exactly the tasks whose id differs. */
  lemma {:induction false} WithoutMembers(ts: seq<Task>, id: string)
    ensures forall t :: t in Without(ts, id) <==> t in ts && t.id != id
  {
    if ts != [] {
      WithoutMembers(ts[1..], id);
      assert ts == [ts[0]] + ts[1..];
    }
  }

  lemma {:induction false} WithoutConcat(a: seq<Task>, b: seq<Task>, id: string)
    ensures Without(a + b, id) == Without(a, id) + Without(b, id)
  {
    if a == [] {
      assert a + b == b;
    } else {
      var head := if a[0].id == id then [] else [a[0]];
      assert (a + b)[0] == a[0];
      assert (a + b)[1..] == a[1..] + b;
      WithoutConcat(a[1..], b, id);
      calc {
        Without(a + b, id);
        head + Without(a[1..] + b, id);
        head + (Without(a[1..], id) + Without(b, id));
        (head + Without(a[1..], id)) + Without(b, id);
      }
    }
  }

  lemma {:induction false} WithoutAbsent(ts: seq<Task>, id: string)
    requires !HasId(ts, id)
    ensures Without(ts, id) == ts
  {
    if ts != [] {
      assert ts[0].id != id;
      assert !HasId(ts[1..], id) by {
        forall k | 0 <= k < |ts| - 1 ensures ts[1..][k].id != id { assert ts[1..][k] == ts[k + 1]; }
      }
      WithoutAbsent(ts[1..], id);
      assert ts == [ts[0]] + ts[1..];
    }
  }

  lemma WithoutSingle(x: Task, id: string)
    ensures Without([x], id) == if x.id == id then [] else [x]
  {
    assert [x][1..] == [];
  }

  /** The task at `i` is the only one with its id. */
  predicate OnlyAt(ts: seq<Task>, i: nat)
    requires i < |ts|
  {
    forall k :: 0 <= k < |ts| && k != i ==> ts[k].id != ts[i].id
  }

  /** If only the task at `i` has its id, filtering that id out removes exactly that task. */
  lemma WithoutAt(ts: seq<Task>, i: nat)
    requires i < |ts| && OnlyAt(ts, i)
    ensures Without(ts, ts[i].id) == ts[..i] + ts[i + 1..]
  {
    var id := ts[i].id;
    var front, back := ts[..i], ts[i + 1..];
    var upTo := front + [ts[i]];
    assert ts == upTo + back;
    assert !HasId(front, id) by {
      forall k | 0 <= k < |front| ensures front[k].id != id { assert front[k] == ts[k]; }
    }
    assert !HasId(back, id) by {
      forall k | 0 <= k < |back| ensures back[k].id != id { assert back[k] == ts[i + 1 + k]; }
    }
    WithoutAbsent(front, id);
    WithoutAbsent(back, id);
    WithoutSingle(ts[i], id);
    WithoutConcat(front, [ts[i]], id);
    assert Without(upTo, id) == front;
    WithoutConcat(upTo, back, id);
  }

  // ---------------------------------------------------------------- columns

  /** `tasksForColumn(col)`: the tasks of one column, in their order in the whole sequence. */
  function TasksForColumn(ts: seq<Task>, col: string): (r: seq<Task>)
    ensures |r| <= |ts|
  {
    if ts == [] then []
    else (if ts[0].status == col then [ts[0]] else []) + TasksForColumn(ts[1..], col)
  }

  /** A column shows exactly the tasks whose status is its id. */
  lemma {:induction false} ColumnMembers(ts: seq<Task>, col: string)
    ensures forall t :: t in TasksForColumn(ts, col) <==> t in ts && t.status == col
  {
    if ts != [] {
      ColumnMembers(ts[1..], col);
      assert ts == [ts[0]] + ts[1..];
    }
  }

  /** A column of a concatenation is the concatenation of the columns: the filter keeps order. */
  lemma {:induction false} ColumnOfConcat(a: seq<Task>, b: seq<Task>, col: string)
    ensures TasksForColumn(a + b, col) == TasksForColumn(a, col) + TasksForColumn(b, col)
  {
    if a == [] {
      assert a + b == b;
    } else {
      var head := if a[0].status == col then [a[0]] else [];
      assert (a + b)[0] == a[0];
      assert (a + b)[1..] == a[1..] + b;
      ColumnOfConcat(a[1..], b, col);
      calc {
        TasksForColumn(a + b, col);
        head + TasksForColumn(a[1..] + b, col);
        head + (TasksForColumn(a[1..], col) + TasksForColumn(b, col));
        (head + TasksForColumn(a[1..], col)) + TasksForColumn(b, col);
      }
    }
  }

  /** A task appended to the sequence is the last card of its column. */
  lemma LastOfColumn(ts: seq<Task>, t: Task)
    ensures TasksForColumn(ts + [t], t.status) == TasksForColumn(ts, t.status) + [t]
  {
    ColumnOfConcat(ts, [t], t.status);
    assert [t][1..] == [];
  }

  /** The number of cards in each of `cols`, added up. */
  function ColumnSizes(ts: seq<Task>, cols: seq<string>): nat {
    if cols == [] then 0 else |TasksForColumn(ts, cols[0])| + ColumnSizes(ts, cols[1..])
  }

  lemma {:induction false} ColumnSizesOfCons(t: Task, ts: seq<Task>, cols: seq<string>)
    requires forall i, j :: 0 <= i < j < |cols| ==> cols[i] != cols[j]
    ensures ColumnSizes([t] + ts, cols) == ColumnSizes(ts, cols) + (if t.status in cols then 1 else 0)
  {
    if cols != [] {
      assert ([t] + ts)[0] == t && ([t] + ts)[1..] == ts;
      ColumnSizesOfCons(t, ts, cols[1..]);
      assert t.status in cols <==> t.status == cols[0] || t.status in cols[1..];
      assert cols[0] !in cols[1..];
    }
  }

  lemma {:induction false} NoTasksNoCards(cols: seq<string>)
    ensures ColumnSizes([], cols) == 0
  {
    if cols != [] {
      NoTasksNoCards(cols[1..]);
    }
  }

  /** When every status names a column, the columns show every task exactly once between them. */
  lemma {:induction false} ColumnsPartition(ts: seq<Task>)
    requires forall t :: t in ts ==> t.status in Columns
    ensures ColumnSizes(ts, Columns) == |ts|
  {
    if ts != [] {
      ColumnsPartition(ts[1..]);
      assert ts == [ts[0]] + ts[1..];
      assert ts[0] in ts;
      assert forall i, j :: 0 <= i < j < |Columns| ==> Columns[i] != Columns[j];
      ColumnSizesOfCons(ts[0], ts[1..], Columns);
      assert ColumnSizes(ts, Columns) == ColumnSizes(ts[1..], Columns) + 1;
    } else {
      NoTasksNoCards(Columns);
    }
  }

  // ---------------------------------------------------------------- moving

  /**
   * `moveTask(taskId, newStatus, beforeTaskId)` on the sequence: nothing if no task has the
   * id; otherwise every task with the id is filtered out, the first one found comes back
   * with the new status, inserted before the first task whose id is `beforeTaskId` if that
   * is a non-empty string still present, and at the very end of the sequence otherwise.
   */
  function Moved(ts: seq<Task>, taskId: string, newStatus: string, before: Option<string>): seq<Task> {
    match FirstWithId(ts, taskId)
    case None => ts
    case Some(i) =>
      var moved := ts[i].(status := newStatus);
      var rest := Without(ts, taskId);
      if Truthy(before) then
        match FirstWithId(rest, before.value)
        case Some(j) => InsertAt(rest, j, moved)
        case None => rest + [moved]
      else rest + [moved]
  }

  /** Moving an id no task has leaves the sequence as it was. */
  lemma MoveUnknown(ts: seq<Task>, taskId: string, newStatus: string, before: Option<string>)
    requires !HasId(ts, taskId)
    ensures Moved(ts, taskId, newStatus, before) == ts
  {
  }

  /** `s` with `t` inserted at position `j`: `s.splice(j, 0, t)`. */
  function InsertAt(s: seq<Task>, j: nat, t: Task): (r: seq<Task>)
    requires j <= |s|
    ensures |r| == |s| + 1
  {
    s[..j] + [t] + s[j..]
  }

  lemma AppendIsInsertAtEnd(s: seq<Task>, t: Task)
    ensures s + [t] == InsertAt(s, |s|, t)
  {
    assert s[..|s|] == s;
  }

  /** Inserting a task whose id nobody else has, then filtering that id out, gives back the sequence. */
  lemma InsertThenWithout(s: seq<Task>, j: nat, t: Task)
    requires j <= |s| && !HasId(s, t.id)
    ensures Without(InsertAt(s, j, t), t.id) == s
  {
    var front, back := s[..j], s[j..];
    assert !HasId(front, t.id) by {
      forall k | 0 <= k < |front| ensures front[k].id != t.id { assert front[k] == s[k]; }
    }
    assert !HasId(back, t.id) by {
      forall k | 0 <= k < |back| ensures back[k].id != t.id { assert back[k] == s[j + k]; }
    }
    assert Without(front + [t], t.id) == front by {
      WithoutAbsent(front, t.id);
      WithoutSingle(t, t.id);
      WithoutConcat(front, [t], t.id);
    }
    assert Without(back, t.id) == back by {
      WithoutAbsent(back, t.id);
    }
    WithoutConcat(front + [t], back, t.id);
    assert InsertAt(s, j, t) == (front + [t]) + back;
    assert front + back == s;
  }

  /** After the filter, no task has the id. */
  lemma WithoutRemovesId(ts: seq<Task>, id: string)
    ensures !HasId(Without(ts, id), id)
  {
    var rest := Without(ts, id);
    WithoutMembers(ts, id);
    forall k | 0 <= k < |rest| ensures rest[k].id != id { assert rest[k] in rest; }
  }

  /** Whatever the target, the tasks other than the moved one keep their relative order. */
  lemma MoveKeepsOthersInOrder(ts: seq<Task>, taskId: string, newStatus: string, before: Option<string>)
    ensures Without(Moved(ts, taskId, newStatus, before), taskId) == Without(ts, taskId)
  {
    match FirstWithId(ts, taskId)
    case None =>
    case Some(i) =>
      var moved := ts[i].(status := newStatus);
      var rest := Without(ts, taskId);
      WithoutRemovesId(ts, taskId);
      AppendIsInsertAtEnd(rest, moved);
      if Truthy(before) && FirstWithId(rest, before.value).Some? {
        InsertThenWithout(rest, FirstWithId(rest, before.value).value, moved);
      } else {
        InsertThenWithout(rest, |rest|, moved);
      }
  }

  lemma InsertKeepsUnique(s: seq<Task>, j: nat, t: Task)
    requires UniqueIds(s) && j <= |s| && !HasId(s, t.id)
    ensures UniqueIds(InsertAt(s, j, t))
    ensures multiset(InsertAt(s, j, t)) == multiset(s) + multiset{t}
  {
    var r := InsertAt(s, j, t);
    forall a, b | 0 <= a < b < |r| ensures r[a].id != r[b].id {
      if a == j {
        assert r[b] == s[b - 1];
      } else if b == j {
        assert r[a] == s[a];
      } else {
        var a' := if a < j then a else a - 1;
        var b' := if b < j then b else b - 1;
        assert r[a] == s[a'] && r[b] == s[b'];
      }
    }
    assert s == s[..j] + s[j..];
  }

  /** Removing the task at `i` from a sequence with unique ids leaves unique ids, without its id. */
  lemma RemoveAtUnique(ts: seq<Task>, i: nat)
    requires UniqueIds(ts) && i < |ts|
    ensures UniqueIds(ts[..i] + ts[i + 1..]) && !HasId(ts[..i] + ts[i + 1..], ts[i].id)
    ensures OnlyAt(ts, i)
    ensures multiset(ts[..i] + ts[i + 1..]) == multiset(ts) - multiset{ts[i]}
  {
    var rest := ts[..i] + ts[i + 1..];
    forall a, b | 0 <= a < b < |rest| ensures rest[a].id != rest[b].id {
      var a' := if a < i then a else a + 1;
      var b' := if b < i then b else b + 1;
      assert rest[a] == ts[a'] && rest[b] == ts[b'];
    }
    forall k | 0 <= k < |rest| ensures rest[k].id != ts[i].id {
      assert rest[k] == ts[if k < i then k else k + 1];
    }
    assert ts == ts[..i] + [ts[i]] + ts[i + 1..];
  }

  /**
   * With unique ids, a move is a permutation that changes one status: the result holds the
   * same tasks except that the moved one now has `newStatus`; the ids stay unique.
   */
  lemma MovePermutes(ts: seq<Task>, i: nat, newStatus: string, before: Option<string>)
    requires UniqueIds(ts) && i < |ts|
    ensures var r := Moved(ts, ts[i].id, newStatus, before);
      && |r| == |ts|
      && multiset(r) == multiset(ts) - multiset{ts[i]} + multiset{ts[i].(status := newStatus)}
      && UniqueIds(r)
  {
    var id := ts[i].id;
    var moved := ts[i].(status := newStatus);
    RemoveAtUnique(ts, i);
    assert FirstWithId(ts, id) == Some(i);
    WithoutAt(ts, i);
    var rest := ts[..i] + ts[i + 1..];
    AppendIsInsertAtEnd(rest, moved);
    if Truthy(before) && FirstWithId(rest, before.value).Some? {
      InsertKeepsUnique(rest, FirstWithId(rest, before.value).value, moved);
    } else {
      InsertKeepsUnique(rest, |rest|, moved);
    }
  }

  /** With unique ids, the filter in a move takes out exactly the moved task. */
  lemma MovedUnique(ts: seq<Task>, i: nat, newStatus: string, before: Option<string>)
    requires UniqueIds(ts) && i < |ts|
    ensures var rest := ts[..i] + ts[i + 1..];
      var moved := ts[i].(status := newStatus);
      && UniqueIds(rest)
      && Moved(ts, ts[i].id, newStatus, before)
         == if Truthy(before) && FirstWithId(rest, before.value).Some?
            then InsertAt(rest, FirstWithId(rest, before.value).value, moved)
            else rest + [moved]
  {
    var id := ts[i].id;
    assert UniqueIds(ts[..i] + ts[i + 1..]) && OnlyAt(ts, i) by {
      RemoveAtUnique(ts, i);
    }
    assert FirstWithId(ts, id) == Some(i) by {
      FirstInUnique(ts, i);
    }
    WithoutAt(ts, i);
  }

  /**
   * A move before a task that is still there after the removal puts the moved task
   * immediately in front of it.
   */
  lemma MoveBefore(ts: seq<Task>, i: nat, k: nat, newStatus: string)
    requires UniqueIds(ts) && i < |ts| && k < |ts| && k != i && ts[k].id != ""
    ensures var r := Moved(ts, ts[i].id, newStatus, Some(ts[k].id));
      var p := if k < i then k else k - 1;
      p + 1 < |r| && r[p] == ts[i].(status := newStatus) && r[p + 1] == ts[k]
  {
    var moved := ts[i].(status := newStatus);
    var rest := ts[..i] + ts[i + 1..];
    var p := if k < i then k else k - 1;
    assert rest[p] == ts[k];
    MovedUnique(ts, i, newStatus, Some(ts[k].id));
    FirstInUnique(rest, p);
    InsertAtPlaces(rest, p, moved);
  }

  /** After `InsertAt(s, j, t)`, `t` stands at `j` and what stood at `j` follows it. */
  lemma InsertAtPlaces(s: seq<Task>, j: nat, t: Task)
    requires j < |s|
    ensures InsertAt(s, j, t)[j] == t && InsertAt(s, j, t)[j + 1] == s[j]
  {
  }

  /** In a sequence with unique ids, the search for a task's id finds that task. */
  lemma FirstInUnique(s: seq<Task>, p: nat)
    requires UniqueIds(s) && p < |s|
    ensures FirstWithId(s, s[p].id) == Some(p)
  {
    var q := FirstWithId(s, s[p].id).value;
    assert s[q].id == s[p].id;
  }

  /**
   * A move without a usable `beforeTaskId` (none, empty, the moved task's own id, or an id no
   * task has) sends the task to the end of the whole sequence, not of its column.
   */
  lemma MoveToEnd(ts: seq<Task>, i: nat, newStatus: string, before: Option<string>)
    requires i < |ts| && forall k :: 0 <= k < i ==> ts[k].id != ts[i].id
    requires !Truthy(before) || before.value == ts[i].id || !HasId(ts, before.value)
    ensures Moved(ts, ts[i].id, newStatus, before) == Without(ts, ts[i].id) + [ts[i].(status := newStatus)]
  {
    var id := ts[i].id;
    var rest := Without(ts, id);
    assert FirstWithId(ts, id) == Some(i);
    if Truthy(before) {
      WithoutMembers(ts, id);
      forall k | 0 <= k < |rest| ensures rest[k].id != before.value {
        assert rest[k] in rest;
        var m :| 0 <= m < |ts| && ts[m] == rest[k];
      }
    }
  }

  /** A move that ends at the end of the sequence leaves the task as the last card of its new column. */
  lemma MovedLastInColumn(ts: seq<Task>, i: nat, newStatus: string, before: Option<string>)
    requires i < |ts| && forall k :: 0 <= k < i ==> ts[k].id != ts[i].id
    requires !Truthy(before) || before.value == ts[i].id || !HasId(ts, before.value)
    ensures var col := TasksForColumn(Moved(ts, ts[i].id, newStatus, before), newStatus);
      |col| > 0 && col[|col| - 1] == ts[i].(status := newStatus)
  {
    MoveToEnd(ts, i, newStatus, before);
    LastOfColumn(Without(ts, ts[i].id), ts[i].(status := newStatus));
  }

  /**
   * The notification a move sends when the host listens: one `task:moved` naming the old and
   * the new status when a task with the id exists and its status changes, and nothing otherwise.
   */
  function MovedEvents(ts: seq<Task>, taskId: string, newStatus: string): (r: seq<Event>)
    ensures |r| <= 1
    ensures r != [] <==> FirstWithId(ts, taskId).Some? && ts[FirstWithId(ts, taskId).value].status != newStatus
    ensures r != [] ==> var t := ts[FirstWithId(ts, taskId).value];
      r[0] == TaskMoved(taskId, t.title, t.status, newStatus)
  {
    match FirstWithId(ts, taskId)
    case None => []
    case Some(i) => if ts[i].status == newStatus then [] else [TaskMoved(taskId, ts[i].title, ts[i].status, newStatus)]
  }

  /** Every task after a move is one of the tasks before, or carries the moved id. */
  lemma MovedMembers(ts: seq<Task>, taskId: string, newStatus: string, before: Option<string>)
    ensures forall t :: t in Moved(ts, taskId, newStatus, before) ==> t in ts || (HasId(ts, taskId) && t.id == taskId)
  {
    match FirstWithId(ts, taskId)
    case None =>
    case Some(i) =>
      var moved := ts[i].(status := newStatus);
      var rest := Without(ts, taskId);
      WithoutMembers(ts, taskId);
      AppendIsInsertAtEnd(rest, moved);
      var j := if Truthy(before) && FirstWithId(rest, before.value).Some? then FirstWithId(rest, before.value).value else |rest|;
      var r := InsertAt(rest, j, moved);
      assert Moved(ts, taskId, newStatus, before) == r;
      forall t | t in r ensures t in ts || (HasId(ts, taskId) && t.id == taskId) {
        var p :| 0 <= p < |r| && r[p] == t;
        if p < j {
          assert r[p] == rest[p];
        } else if p > j {
          assert r[p] == rest[p - 1];
        }
      }
  }

  /** A move keeps the counter invariant. */
  lemma MoveKeepsIdsBelow(ts: seq<Task>, taskId: string, newStatus: string, before: Option<string>, bound: int)
    requires IdsBelow(ts, bound)
    ensures IdsBelow(Moved(ts, taskId, newStatus, before), bound)
  {
    var r := Moved(ts, taskId, newStatus, before);
    MovedMembers(ts, taskId, newStatus, before);
    forall p | 0 <= p < |r| ensures NumberBelow(r[p].id, bound) {
      assert r[p] in r;
      var k :| 0 <= k < |ts| && (ts[k] == r[p] || ts[k].id == taskId == r[p].id);
    }
  }

  /** Two sequences with the same ids position by position. */
  predicate SameIds(a: seq<Task>, b: seq<Task>) {
    |a| == |b| && forall k :: 0 <= k < |a| ==> a[k].id == b[k].id
  }

  lemma SameIdsKeep(a: seq<Task>, b: seq<Task>, bound: int)
    requires SameIds(a, b)
    ensures UniqueIds(a) ==> UniqueIds(b)
    ensures IdsBelow(a, bound) ==> IdsBelow(b, bound)
  {
    if IdsBelow(a, bound) {
      forall k | 0 <= k < |b| ensures NumberBelow(b[k].id, bound) {
        assert a[k].id == b[k].id;
      }
    }
  }

  // ---------------------------------------------------------------- adding

  /** The task a submitted add form creates: `desc || ''`, no assignee, `priority || 'medium'`. */
  function FormTask(id: string, col: string, title: string, desc: string, priority: string): (t: Task)
    ensures t.id == id && t.title == title && t.status == col && t.assignee == ""
    ensures t.desc == desc && t.priority == if priority == "" then "medium" else priority
  {
    Task(id, title, OrElse(Some(desc), ""), col, "", OrElse(Some(priority), "medium"))
  }

  /** The fields an `add-task` action may carry; each may be absent. */
  datatype AddPayload = AddPayload(title: Option<string>, desc: Option<string>, status: Option<string>,
                                   assignee: Option<string>, priority: Option<string>)

  /** The fields a `move-task` action may carry; each may be absent. */
  datatype MovePayload = MovePayload(taskId: Option<string>, title: Option<string>, to: Option<string>)

  /**
   * The task an `add-task` action creates: every missing or empty field takes its default,
   * `'New Task'`, `''`, `'pending'`, `''` and `'medium'`.
   */
  function ActionTask(id: string, p: AddPayload): (t: Task)
    ensures t.id == id && t.title != "" && t.status != "" && t.priority != ""
    ensures t.title == (if Truthy(p.title) then p.title.value else "New Task")
    ensures t.status == (if Truthy(p.status) then p.status.value else "pending")
    ensures t.priority == (if Truthy(p.priority) then p.priority.value else "medium")
    ensures t.desc == (if Truthy(p.desc) then p.desc.value else "")
    ensures t.assignee == (if Truthy(p.assignee) then p.assignee.value else "")
  {
    Task(id, OrElse(p.title, "New Task"), OrElse(p.desc, ""), OrElse(p.status, "pending"),
         OrElse(p.assignee, ""), OrElse(p.priority, "medium"))
  }

  /**
   * The task a `move-task` action targets: `tasks.find(t => t.id === p.taskId || t.title === p.title)`,
   * the first task whose id is the given id or whose title is the given title.
   */
  function FirstByIdOrTitle(ts: seq<Task>, p: MovePayload): (r: Option<nat>)
    ensures r.None? ==> forall k :: 0 <= k < |ts| ==> Some(ts[k].id) != p.taskId && Some(ts[k].title) != p.title
    ensures r.Some? ==> r.value < |ts| && (Some(ts[r.value].id) == p.taskId || Some(ts[r.value].title) == p.title)
    ensures r.Some? ==> forall k :: 0 <= k < r.value ==> Some(ts[k].id) != p.taskId && Some(ts[k].title) != p.title
  {
    if ts == [] then None
    else if Some(ts[0].id) == p.taskId || Some(ts[0].title) == p.title then Some(0)
    else
      assert forall k :: 1 <= k < |ts| ==> ts[k] == ts[1..][k - 1];
      match FirstByIdOrTitle(ts[1..], p)
      case None => None
      case Some(k) => Some(k + 1)
  }

  // ---------------------------------------------------------------- priority

  /** `xs.indexOf(x)`: the first position of `x`, or -1. */
  function IndexOf(xs: seq<string>, x: string): (r: int)
    ensures -1 <= r < |xs|
    ensures r == -1 <==> x !in xs
    ensures r >= 0 ==> xs[r] == x && x !in xs[..r]
  {
    if xs == [] then -1
    else if xs[0] == x then 0
    else
      var k := IndexOf(xs[1..], x);
      assert xs == [xs[0]] + xs[1..];
      assert k >= 0 ==> xs[..k + 1] == [xs[0]] + xs[1..][..k];
      if k == -1 then -1 else k + 1
  }

  /**
   * The badge click: `cycle[(cycle.indexOf(p) + 1) % cycle.length]`. It advances low to
   * medium, medium to high, high to low, and sends anything else (index -1) to low.
   */
  function NextPriority(p: string): (r: string)
    ensures r in PriorityCycle
    ensures p == "low" ==> r == "medium"
    ensures p == "medium" ==> r == "high"
    ensures p == "high" ==> r == "low"
    ensures p !in PriorityCycle ==> r == "low"
  {
    PriorityCycle[(IndexOf(PriorityCycle, p) + 1) % |PriorityCycle|]
  }

  /** Three clicks on a badge bring a recognised priority back to where it was. */
  lemma PriorityCycleReturns(p: string)
    requires p in PriorityCycle
    ensures NextPriority(NextPriority(NextPriority(p))) == p
  {
  }

  /** The badge click on the sequence: the first task with the id gets the next priority. */
  function PriorityCycled(ts: seq<Task>, id: string): (r: seq<Task>)
    ensures |r| == |ts|
  {
    match FirstWithId(ts, id)
    case None => ts
    case Some(i) => ts[i := ts[i].(priority := NextPriority(ts[i].priority))]
  }

  /** A badge click changes one task's priority and nothing else: same ids, same statuses, same order. */
  lemma PriorityCycledChangesOnlyPriority(ts: seq<Task>, id: string)
    ensures var r := PriorityCycled(ts, id);
      && SameIds(ts, r)
      && (forall k :: 0 <= k < |ts| ==> r[k] == ts[k].(priority := r[k].priority))
      && (forall k :: 0 <= k < |ts| && r[k] != ts[k] ==> ts[k].id == id && r[k].priority == NextPriority(ts[k].priority))
      && (forall k :: 0 <= k < |ts| && r[k] != ts[k] ==> FirstWithId(ts, id) == Some(k))
      && (FirstWithId(ts, id).Some? ==> var i := FirstWithId(ts, id).value;
            i < |ts| && r[i].priority == NextPriority(ts[i].priority))
      && (!HasId(ts, id) ==> r == ts)
  {
  }

  // ---------------------------------------------------------------- seed

  /** The seed ids are the ids the counter would give for 1 to 7. */
  lemma SeedIds()
    ensures forall k :: 0 <= k < |SeedTasks()| ==> SeedTasks()[k].id == IdFor(k + 1)
  {
    var s := SeedTasks();
    assert |s| == 7;
    forall k | 0 <= k < 7 ensures s[k].id == IdFor(k + 1) {
      assert Decimal(k + 1) == [DigitChar(k + 1)];
    }
  }

  /** The seed ids are unique and all numbered below the initial counter. */
  lemma SeedIdsFresh()
    ensures UniqueIds(SeedTasks())
    ensures IdsBelow(SeedTasks(), InitialNextId)
  {
    var s := SeedTasks();
    SeedIds();
    forall a, b | 0 <= a < b < |s| ensures s[a].id != s[b].id {
      IdForInjective(a + 1, b + 1);
    }
    forall k | 0 <= k < |s| ensures NumberBelow(s[k].id, InitialNextId) {
      IdNumberOfIdFor(k + 1);
    }
  }

  /** Every seed task sits in one of the four columns and has a recognised priority. */
  lemma SeedInColumns()
    ensures forall k :: 0 <= k < |SeedTasks()| ==> SeedTasks()[k].status in Columns && SeedTasks()[k].priority in PriorityCycle
  {
    var s := SeedTasks();
    assert s[0].status == Columns[0] && s[0].priority == PriorityCycle[2];
    assert s[1].status == Columns[0] && s[1].priority == PriorityCycle[2];
    assert s[2].status == Columns[3] && s[2].priority == PriorityCycle[1];
    assert s[3].status == Columns[1] && s[3].priority == PriorityCycle[1];
    assert s[4].status == Columns[3] && s[4].priority == PriorityCycle[0];
    assert s[5].status == Columns[2] && s[5].priority == PriorityCycle[1];
    assert s[6].status == Columns[0] && s[6].priority == PriorityCycle[0];
  }
}
