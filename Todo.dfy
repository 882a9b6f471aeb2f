// The list and task collection of the Clarity to-do app: the records it keeps,
// the transformations its event handlers apply to the array of lists, the
// event-log descriptions, and the query behind "incomplete from other lists".
// Every handler is a pure step from one application state to the next; the
// class in App.dfy stores the result.

module Todo {
  import opened Wrappers
  import opened Text

  /** One reading of the clock: `Date.now()` in milliseconds and the matching
      `new Date().toISOString()` text. */
  datatype Clock = Clock(millis: nat, iso: string)

  datatype Task = Task(id: string, text: string, completed: bool, createdAt: string)

  /** A named list; `recurrence` is one of "none", "daily", "weekly", "monthly"
      as chosen in the form, `scheduledTime` a time of day such as "06:00". */
  datatype TodoList = TodoList(
    id: string,
    name: string,
    recurrence: string,
    scheduledTime: string,
    dateCreated: string,
    tasks: seq<Task>)

  datatype EventKind = ListCreated | TaskAdded | TaskCompleted | TaskDeleted | TaskRecycled

  /** An audit-log record; `id` is the clock reading as a number and `kind`
      stands for the stored `type` string (`list_created`, `task_added`,
      `task_completed`, `task_deleted`, `task_recycled`). */
  datatype Event = Event(
    id: nat,
    kind: EventKind,
    description: string,
    timestamp: string,
    listName: string,
    taskName: string)

  /** A task shown under "incomplete from other lists": the task's own fields
      plus the name and id of the list it lives in. */
  datatype Incomplete = Incomplete(task: Task, fromList: string, fromListId: string)

  /** The list name and task text an event is logged with. */
  datatype Mention = Mention(listName: string, taskText: string)

  /** The state the handlers read and replace. */
  datatype AppState = AppState(lists: seq<TodoList>, currentListId: Option<string>, events: seq<Event>)

  // ---------------------------------------------------------------------------
  // Event log

  function Quoted(s: string): string {
    "\"" + s + "\""
  }

  predicate EndsWith(s: string, suffix: string) {
    |suffix| <= |s| && s[|s| - |suffix|..] == suffix
  }

  /** The words every narrative of a kind opens with. */
  function Opening(k: EventKind): string {
    match k
    case ListCreated => "made new list "
    case TaskAdded => "added task "
    case TaskCompleted => "completed task "
    case TaskDeleted => "deleted task "
    case TaskRecycled => "moved incomplete task "
  }

  /** The words between the quoted task text and the quoted list name: a task
      goes "to" a list when added or copied there, and "from" it when
      completed or deleted. A list creation names no task and has none. */
  function Link(k: EventKind): string {
    match k
    case ListCreated => ""
    case TaskAdded => " to list "
    case TaskCompleted => " from list "
    case TaskDeleted => " from list "
    case TaskRecycled => " to list "
  }

  /** The human-readable narrative of an event: its opening words, the quoted
      task text and its link words where there is a task, and the quoted list
      name it ends with. */
  function Describe(k: EventKind, listName: string, taskName: string): (d: string)
    ensures Opening(k) <= d
    ensures k != ListCreated ==> Opening(k) + Quoted(taskName) <= d
    ensures k == ListCreated ==> d == Opening(k) + Quoted(listName)
    ensures k != ListCreated ==> d == Opening(k) + Quoted(taskName) + Link(k) + Quoted(listName)
    ensures EndsWith(d, Quoted(listName))
  {
    if k == ListCreated then
      SuffixOfAppend(Opening(k), Quoted(listName));
      Opening(k) + Quoted(listName)
    else
      var words := Link(k);
      var lead := Opening(k) + Quoted(taskName);
      PrefixOfAppend(Opening(k), Quoted(taskName));
      PrefixOfAppend(lead, words + Quoted(listName));
      SuffixOfAppend(lead + words, Quoted(listName));
      AppendAssociative(lead, words, Quoted(listName));
      lead + (words + Quoted(listName))
  }

  lemma PrefixOfAppend<T>(p: seq<T>, q: seq<T>)
    ensures p <= p + q
  {
    assert (p + q)[..|p|] == p;
  }

  lemma SuffixOfAppend<T>(p: seq<T>, q: seq<T>)
    ensures |q| <= |p + q| && (p + q)[|p + q| - |q|..] == q
  {
    assert (p + q)[|p|..] == q;
  }

  /** Recovers the kind of event from the opening words of its narrative. */
  function KindOfDescription(d: string): Option<EventKind> {
    if Opening(ListCreated) <= d then Some(ListCreated)
    else if Opening(TaskAdded) <= d then Some(TaskAdded)
    else if Opening(TaskCompleted) <= d then Some(TaskCompleted)
    else if Opening(TaskDeleted) <= d then Some(TaskDeleted)
    else if Opening(TaskRecycled) <= d then Some(TaskRecycled)
    else None
  }

  /** The narrative determines the kind of event it was written for. */
  lemma DescribeDeterminesKind(k: EventKind, listName: string, taskName: string)
    ensures KindOfDescription(Describe(k, listName, taskName)) == Some(k)
  {
    var d := Describe(k, listName, taskName);
    var p := Opening(k);
    assert d[0] == p[0] && d[1] == p[1];
    match k
    case ListCreated =>
    case TaskAdded =>
      Mismatch(Opening(ListCreated), d, 0);
    case TaskCompleted =>
      Mismatch(Opening(ListCreated), d, 0);
      Mismatch(Opening(TaskAdded), d, 0);
    case TaskDeleted =>
      Mismatch(Opening(ListCreated), d, 0);
      Mismatch(Opening(TaskAdded), d, 0);
      Mismatch(Opening(TaskCompleted), d, 0);
    case TaskRecycled =>
      Mismatch(Opening(ListCreated), d, 1);
      Mismatch(Opening(TaskAdded), d, 0);
      Mismatch(Opening(TaskCompleted), d, 0);
      Mismatch(Opening(TaskDeleted), d, 0);
  }

  /** Two texts that differ at a position inside both are not prefix-related. */
  lemma Mismatch(p: string, d: string, i: nat)
    requires i < |p| && i < |d| && p[i] != d[i]
    ensures !(p <= d)
  {
  }

  function NewEvent(k: EventKind, listName: string, taskName: string, clock: Clock): Event {
    Event(clock.millis, k, Describe(k, listName, taskName), clock.iso, listName, taskName)
  }

  /** A handler step grows the log by at most one record, keeping earlier
      records as they were. (Loading stored values replaces the log.) */
  predicate LogGrows(before: seq<Event>, after: seq<Event>) {
    |before| <= |after| <= |before| + 1 && after[..|before|] == before
  }

  // ---------------------------------------------------------------------------
  // Lookups

  /** `currentListId` used as a JavaScript condition: null and "" are falsy. */
  predicate Truthy(id: Option<string>) {
    id.Some? && id.value != ""
  }

  /** `lists.find(l => l.id === id)`: the first list with that id. */
  function FindList(lists: seq<TodoList>, id: Option<string>): (r: Option<TodoList>)
    ensures r.Some? <==> exists i :: 0 <= i < |lists| && Some(lists[i].id) == id
    ensures r.Some? ==> exists i :: 0 <= i < |lists| && Some(lists[i].id) == id && r.value == lists[i] &&
                                    forall k :: 0 <= k < i ==> Some(lists[k].id) != id
  {
    if lists == [] then None
    else if Some(lists[0].id) == id then Some(lists[0])
    else
      var r := FindList(lists[1..], id);
      assert forall i :: 1 <= i < |lists| ==> lists[i] == lists[1..][i - 1];
      r
  }

  /** `tasks.find(t => t.id === id)`: the first task with that id. */
  function FindTask(tasks: seq<Task>, id: string): (r: Option<Task>)
    ensures r.Some? <==> exists j :: 0 <= j < |tasks| && tasks[j].id == id
    ensures r.Some? ==> exists j :: 0 <= j < |tasks| && tasks[j].id == id && r.value == tasks[j] &&
                                    forall k :: 0 <= k < j ==> tasks[k].id != id
  {
    if tasks == [] then None
    else if tasks[0].id == id then Some(tasks[0])
    else
      var r := FindTask(tasks[1..], id);
      assert forall j :: 1 <= j < |tasks| ==> tasks[j] == tasks[1..][j - 1];
      r
  }

  /** The last list with that id: the one whose logged event survives when a
      handler logs once per matching list (each `logEvent` call replaces the
      log with the handler's starting log plus its own record). */
  function LastList(lists: seq<TodoList>, id: string): (r: Option<TodoList>)
    ensures r.Some? <==> exists i :: 0 <= i < |lists| && lists[i].id == id
    ensures r.Some? ==> exists i :: 0 <= i < |lists| && lists[i].id == id && r.value == lists[i] &&
                                    forall k :: i < k < |lists| ==> lists[k].id != id
  {
    if lists == [] then None
    else
      var n := |lists| - 1;
      if lists[n].id == id then Some(lists[n])
      else
        var r := LastList(lists[..n], id);
        assert forall i :: 0 <= i < n ==> lists[i] == lists[..n][i];
        r
  }

  /** The task a handler logs for: it has the id and, when `onlyIncomplete`,
      is not completed. */
  predicate Matches(t: Task, id: string, onlyIncomplete: bool) {
    t.id == id && (onlyIncomplete ==> !t.completed)
  }

  /** The last task with that id (and, when `onlyIncomplete`, not completed). */
  function LastTask(tasks: seq<Task>, id: string, onlyIncomplete: bool): (r: Option<Task>)
    ensures r.Some? <==> exists j :: 0 <= j < |tasks| && tasks[j].id == id && (onlyIncomplete ==> !tasks[j].completed)
    ensures r.Some? ==> exists j :: 0 <= j < |tasks| && Matches(tasks[j], id, onlyIncomplete) && r.value == tasks[j] &&
                                    forall k :: j < k < |tasks| ==> !Matches(tasks[k], id, onlyIncomplete)
  {
    if tasks == [] then None
    else
      var n := |tasks| - 1;
      var t := tasks[n];
      if Matches(t, id, onlyIncomplete) then Some(t)
      else
        var r := LastTask(tasks[..n], id, onlyIncomplete);
        assert forall j :: 0 <= j < n ==> tasks[j] == tasks[..n][j];
        r
  }

  /** Task `j` of list `i` is one the handler logs for. */
  predicate MentionAt(lists: seq<TodoList>, listId: string, taskId: string, onlyIncomplete: bool, i: int, j: int) {
    0 <= i < |lists| && lists[i].id == listId && 0 <= j < |lists[i].tasks| && Matches(lists[i].tasks[j], taskId, onlyIncomplete)
  }

  /** The list name and task text of the last (list, task) pair the handler
      logs for: lists with `listId`, tasks with `taskId` and, when
      `onlyIncomplete`, tasks not yet completed. */
  function LastMention(lists: seq<TodoList>, listId: string, taskId: string, onlyIncomplete: bool): (r: Option<Mention>)
    ensures r.Some? <==> exists i, j :: MentionAt(lists, listId, taskId, onlyIncomplete, i, j)
    ensures r.Some? ==> exists i, j :: MentionAt(lists, listId, taskId, onlyIncomplete, i, j) &&
                                      r.value == Mention(lists[i].name, lists[i].tasks[j].text) &&
                                      forall i2, j2 :: MentionAt(lists, listId, taskId, onlyIncomplete, i2, j2) ==>
                                                         i2 < i || (i2 == i && j2 <= j)
  {
    if lists == [] then None
    else
      var n := |lists| - 1;
      var l := lists[n];
      var t := if l.id == listId then LastTask(l.tasks, taskId, onlyIncomplete) else None;
      if t.Some? then
        var j :| 0 <= j < |l.tasks| && Matches(l.tasks[j], taskId, onlyIncomplete) && t.value == l.tasks[j] &&
                 forall k :: j < k < |l.tasks| ==> !Matches(l.tasks[k], taskId, onlyIncomplete);
        assert MentionAt(lists, listId, taskId, onlyIncomplete, n, j);
        Some(Mention(l.name, t.value.text))
      else
        var init := lists[..n];
        MentionsBeforeLast(lists, init, listId, taskId, onlyIncomplete);
        LastMention(init, listId, taskId, onlyIncomplete)
  }

  /** When the last list holds no mention, the mentions are exactly those of the lists before it. */
  lemma MentionsBeforeLast(lists: seq<TodoList>, init: seq<TodoList>, listId: string, taskId: string, onlyIncomplete: bool)
    requires lists != [] && init == lists[..|lists| - 1]
    requires var l := lists[|lists| - 1];
             l.id == listId ==> LastTask(l.tasks, taskId, onlyIncomplete).None?
    ensures forall i, j :: MentionAt(lists, listId, taskId, onlyIncomplete, i, j) <==>
                           MentionAt(init, listId, taskId, onlyIncomplete, i, j)
    ensures (exists i, j :: MentionAt(lists, listId, taskId, onlyIncomplete, i, j)) <==>
            (exists i, j :: MentionAt(init, listId, taskId, onlyIncomplete, i, j))
  {
    assert forall i :: 0 <= i < |init| ==> lists[i] == init[i];
    if exists i, j :: MentionAt(lists, listId, taskId, onlyIncomplete, i, j) {
      var i, j :| MentionAt(lists, listId, taskId, onlyIncomplete, i, j);
      assert MentionAt(init, listId, taskId, onlyIncomplete, i, j);
    }
    if exists i, j :: MentionAt(init, listId, taskId, onlyIncomplete, i, j) {
      var i, j :| MentionAt(init, listId, taskId, onlyIncomplete, i, j);
      assert MentionAt(lists, listId, taskId, onlyIncomplete, i, j);
    }
  }

  predicate UniqueListIds(lists: seq<TodoList>) {
    forall i, k :: 0 <= i < k < |lists| ==> lists[i].id != lists[k].id
  }

  /** With unique ids, the list `find` returns is the one the log names. */
  lemma FindIsLastWhenUnique(lists: seq<TodoList>, id: string)
    requires UniqueListIds(lists)
    ensures FindList(lists, Some(id)) == LastList(lists, id)
  {
    var f := FindList(lists, Some(id));
    var l := LastList(lists, id);
    if f.Some? {
      var i :| 0 <= i < |lists| && lists[i].id == id && f.value == lists[i];
      var k :| 0 <= k < |lists| && lists[k].id == id && l.value == lists[k];
      assert i == k;
    }
  }

  // ---------------------------------------------------------------------------
  // Collection transformations

  /** `lists.map(list => list.id === id ? f(list) : list)`. */
  function UpdateLists(lists: seq<TodoList>, id: string, f: TodoList -> TodoList): (r: seq<TodoList>)
    ensures |r| == |lists|
    ensures forall i :: 0 <= i < |lists| ==> r[i] == (if lists[i].id == id then f(lists[i]) else lists[i])
  {
    if lists == [] then []
    else [if lists[0].id == id then f(lists[0]) else lists[0]] + UpdateLists(lists[1..], id, f)
  }

  /** `tasks.map(task => task.id === id ? f(task) : task)`. */
  function UpdateTasks(tasks: seq<Task>, id: string, f: Task -> Task): (r: seq<Task>)
    ensures |r| == |tasks|
    ensures forall j :: 0 <= j < |tasks| ==> r[j] == (if tasks[j].id == id then f(tasks[j]) else tasks[j])
  {
    if tasks == [] then []
    else [if tasks[0].id == id then f(tasks[0]) else tasks[0]] + UpdateTasks(tasks[1..], id, f)
  }

  /** `tasks.filter(t => t.id !== id)`: exactly the tasks with another id stay. */
  function RemoveTasks(tasks: seq<Task>, id: string): (r: seq<Task>)
    ensures |r| <= |tasks|
    ensures forall t :: t in r <==> t in tasks && t.id != id
    ensures (forall j :: 0 <= j < |tasks| ==> tasks[j].id != id) ==> r == tasks
  {
    if tasks == [] then []
    else (if tasks[0].id == id then [] else [tasks[0]]) + RemoveTasks(tasks[1..], id)
  }

  /** Filtering keeps the order of what remains: it distributes over
      concatenation. */
  lemma {:induction false} RemoveTasksAppend(a: seq<Task>, b: seq<Task>, id: string)
    ensures RemoveTasks(a + b, id) == RemoveTasks(a, id) + RemoveTasks(b, id)
  {
    if a != [] {
      var head := if a[0].id == id then [] else [a[0]];
      assert (a + b)[0] == a[0] && (a + b)[1..] == a[1..] + b;
      assert RemoveTasks(a + b, id) == head + RemoveTasks(a[1..] + b, id);
      RemoveTasksAppend(a[1..], b, id);
      assert RemoveTasks(a, id) == head + RemoveTasks(a[1..], id);
    } else {
      assert a + b == b;
    }
  }

  function Flip(t: Task): Task {
    t.(completed := !t.completed)
  }

  function MarkDone(t: Task): Task {
    t.(completed := true)
  }

  /** The list part of toggleTaskCompletion: in lists with `listId`, tasks with
      `taskId` have `completed` negated; nothing else changes. */
  function ToggleLists(lists: seq<TodoList>, listId: string, taskId: string): (r: seq<TodoList>)
    ensures |r| == |lists|
    ensures forall i :: 0 <= i < |lists| ==> r[i].(tasks := lists[i].tasks) == lists[i] && |r[i].tasks| == |lists[i].tasks|
    ensures forall i, j :: 0 <= i < |lists| && 0 <= j < |lists[i].tasks| ==>
              r[i].tasks[j] == if lists[i].id == listId && lists[i].tasks[j].id == taskId
                               then lists[i].tasks[j].(completed := !lists[i].tasks[j].completed)
                               else lists[i].tasks[j]
  {
    UpdateLists(lists, listId, (l: TodoList) => l.(tasks := UpdateTasks(l.tasks, taskId, Flip)))
  }

  /** The list part of completeIncompleteTask: in lists with `listId`, tasks
      with `taskId` become completed; nothing else changes. */
  function CompleteLists(lists: seq<TodoList>, listId: string, taskId: string): (r: seq<TodoList>)
    ensures |r| == |lists|
    ensures forall i :: 0 <= i < |lists| ==> r[i].(tasks := lists[i].tasks) == lists[i] && |r[i].tasks| == |lists[i].tasks|
    ensures forall i, j :: 0 <= i < |lists| && 0 <= j < |lists[i].tasks| ==>
              r[i].tasks[j] == if lists[i].id == listId && lists[i].tasks[j].id == taskId
                               then lists[i].tasks[j].(completed := true)
                               else lists[i].tasks[j]
  {
    UpdateLists(lists, listId, (l: TodoList) => l.(tasks := UpdateTasks(l.tasks, taskId, MarkDone)))
  }

  /** The list part of deleteTask: lists with `listId` lose their tasks with
      `taskId`; every other list is unchanged. */
  function DeleteFromLists(lists: seq<TodoList>, listId: string, taskId: string): (r: seq<TodoList>)
    ensures |r| == |lists|
    ensures forall i :: 0 <= i < |lists| ==>
              r[i] == if lists[i].id == listId then lists[i].(tasks := RemoveTasks(lists[i].tasks, taskId)) else lists[i]
  {
    UpdateLists(lists, listId, (l: TodoList) => l.(tasks := RemoveTasks(l.tasks, taskId)))
  }

  /** The list part of addTaskToList and addIncompleteTaskHere: lists with
      `listId` gain `t` at the end; every other list is unchanged. */
  function AppendToLists(lists: seq<TodoList>, listId: string, t: Task): (r: seq<TodoList>)
    ensures |r| == |lists|
    ensures forall i :: 0 <= i < |lists| ==>
              r[i] == if lists[i].id == listId then lists[i].(tasks := lists[i].tasks + [t]) else lists[i]
  {
    UpdateLists(lists, listId, (l: TodoList) => l.(tasks := l.tasks + [t]))
  }

  /** Toggling the same task twice gives back the lists it started from. */
  lemma ToggleInvolution(lists: seq<TodoList>, listId: string, taskId: string)
    ensures ToggleLists(ToggleLists(lists, listId, taskId), listId, taskId) == lists
  {
    var once := ToggleLists(lists, listId, taskId);
    var twice := ToggleLists(once, listId, taskId);
    forall i | 0 <= i < |lists| ensures twice[i] == lists[i] {
      assert twice[i].tasks == lists[i].tasks;
    }
  }

  /** Completing is not a toggle: doing it twice is doing it once. */
  lemma CompleteIdempotent(lists: seq<TodoList>, listId: string, taskId: string)
    ensures CompleteLists(CompleteLists(lists, listId, taskId), listId, taskId) == CompleteLists(lists, listId, taskId)
  {
    var once := CompleteLists(lists, listId, taskId);
    var twice := CompleteLists(once, listId, taskId);
    forall i | 0 <= i < |lists| ensures twice[i] == once[i] {
      assert twice[i].tasks == once[i].tasks;
    }
  }

  /** Deleting a task id a second time changes nothing. */
  lemma DeleteIdempotent(lists: seq<TodoList>, listId: string, taskId: string)
    ensures DeleteFromLists(DeleteFromLists(lists, listId, taskId), listId, taskId) == DeleteFromLists(lists, listId, taskId)
  {
    var once := DeleteFromLists(lists, listId, taskId);
    forall i | 0 <= i < |lists| && lists[i].id == listId
      ensures RemoveTasks(once[i].tasks, taskId) == once[i].tasks
    {
      var ts := once[i].tasks;
      assert forall j :: 0 <= j < |ts| ==> ts[j] in ts;
    }
  }

  // ---------------------------------------------------------------------------
  // Incomplete tasks from other lists

  /** The tasks of one list that are not completed, in order, tagged with the
      list's name and id. */
  function IncompleteOf(tasks: seq<Task>, name: string, id: string): seq<Incomplete> {
    if tasks == [] then []
    else
      var t := tasks[|tasks| - 1];
      IncompleteOf(tasks[..|tasks| - 1], name, id) + (if t.completed then [] else [Incomplete(t, name, id)])
  }

  /** What one list contributes: nothing when it is the current list. */
  function OfferedBy(l: TodoList, current: Option<string>): seq<Incomplete> {
    if Some(l.id) != current then IncompleteOf(l.tasks, l.name, l.id) else []
  }

  /** getIncompleteTasksFromOtherLists: the incomplete tasks of every list
      whose id is not the current one, list by list and task by task. */
  function IncompleteFromOthers(lists: seq<TodoList>, current: Option<string>): seq<Incomplete> {
    if lists == [] then []
    else IncompleteFromOthers(lists[..|lists| - 1], current) + OfferedBy(lists[|lists| - 1], current)
  }

  /** The item is the incomplete task `j` of list `i`, which is not current. */
  ghost predicate OfferedAt(lists: seq<TodoList>, current: Option<string>, x: Incomplete, i: int, j: int) {
    && 0 <= i < |lists| && Some(lists[i].id) != current
    && 0 <= j < |lists[i].tasks| && !lists[i].tasks[j].completed
    && x == Incomplete(lists[i].tasks[j], lists[i].name, lists[i].id)
  }

  lemma {:induction false} IncompleteOfMembership(tasks: seq<Task>, name: string, id: string, x: Incomplete)
    ensures x in IncompleteOf(tasks, name, id) <==>
            exists j :: 0 <= j < |tasks| && !tasks[j].completed && x == Incomplete(tasks[j], name, id)
  {
    if tasks != [] {
      var init := tasks[..|tasks| - 1];
      IncompleteOfMembership(init, name, id, x);
      assert forall j :: 0 <= j < |init| ==> init[j] == tasks[j];
    }
  }

  /** Everything offered is an incomplete task of a list that is not current. */
  lemma {:induction false} IncompleteSound(lists: seq<TodoList>, current: Option<string>, x: Incomplete)
    requires x in IncompleteFromOthers(lists, current)
    ensures exists i, j :: OfferedAt(lists, current, x, i, j)
    decreases |lists|
  {
    var n := |lists| - 1;
    var init, l := lists[..n], lists[n];
    assert IncompleteFromOthers(lists, current) == IncompleteFromOthers(init, current) + OfferedBy(l, current);
    if x in IncompleteFromOthers(init, current) {
      IncompleteSound(init, current, x);
      var i, j :| OfferedAt(init, current, x, i, j);
      assert init[i] == lists[i];
      assert OfferedAt(lists, current, x, i, j);
    } else {
      assert x in OfferedBy(l, current);
      IncompleteOfMembership(l.tasks, l.name, l.id, x);
      var j :| 0 <= j < |l.tasks| && !l.tasks[j].completed && x == Incomplete(l.tasks[j], l.name, l.id);
      assert OfferedAt(lists, current, x, n, j);
    }
  }

  /** Every incomplete task of a list that is not current is offered. */
  lemma {:induction false} IncompleteComplete(lists: seq<TodoList>, current: Option<string>, x: Incomplete, i: int, j: int)
    requires OfferedAt(lists, current, x, i, j)
    ensures x in IncompleteFromOthers(lists, current)
    decreases |lists|
  {
    var n := |lists| - 1;
    var init, l := lists[..n], lists[n];
    assert IncompleteFromOthers(lists, current) == IncompleteFromOthers(init, current) + OfferedBy(l, current);
    if i < n {
      assert init[i] == lists[i];
      assert OfferedAt(init, current, x, i, j);
      IncompleteComplete(init, current, x, i, j);
    } else {
      assert Some(l.id) != current && x == Incomplete(l.tasks[j], l.name, l.id);
      IncompleteOfMembership(l.tasks, l.name, l.id, x);
    }
  }

  /** An item is offered exactly when it is an incomplete task of a list other
      than the current one, tagged with that list's name and id. */
  lemma IncompleteMembership(lists: seq<TodoList>, current: Option<string>, x: Incomplete)
    ensures x in IncompleteFromOthers(lists, current) <==> exists i, j :: OfferedAt(lists, current, x, i, j)
  {
    if x in IncompleteFromOthers(lists, current) {
      IncompleteSound(lists, current, x);
    }
    if exists i, j :: OfferedAt(lists, current, x, i, j) {
      var i, j :| OfferedAt(lists, current, x, i, j);
      IncompleteComplete(lists, current, x, i, j);
    }
  }

  /** The current list's tasks are never offered. */
  lemma NeverFromCurrent(lists: seq<TodoList>, current: Option<string>)
    ensures forall x :: x in IncompleteFromOthers(lists, current) ==> Some(x.fromListId) != current && !x.task.completed
  {
    forall x | x in IncompleteFromOthers(lists, current)
      ensures Some(x.fromListId) != current && !x.task.completed
    {
      IncompleteMembership(lists, current, x);
    }
  }

  lemma {:induction false} IncompleteOfAppend(a: seq<Task>, b: seq<Task>, name: string, id: string)
    ensures IncompleteOf(a + b, name, id) == IncompleteOf(a, name, id) + IncompleteOf(b, name, id)
    decreases |b|
  {
    if b == [] {
      assert a + b == a;
    } else {
      var ab := a + b;
      assert ab[..|ab| - 1] == a + b[..|b| - 1];
      assert ab[|ab| - 1] == b[|b| - 1];
      IncompleteOfAppend(a, b[..|b| - 1], name, id);
    }
  }

  lemma OffersOfSnoc(lists: seq<TodoList>, l: TodoList, current: Option<string>)
    ensures IncompleteFromOthers(lists + [l], current) == IncompleteFromOthers(lists, current) + OfferedBy(l, current)
  {
    assert (lists + [l])[..|lists|] == lists;
  }

  /** One more task visited by the inner loop of the query. */
  lemma IncompleteOfStep(tasks: seq<Task>, j: nat, name: string, id: string)
    requires j < |tasks|
    ensures IncompleteOf(tasks[..j + 1], name, id) ==
            IncompleteOf(tasks[..j], name, id) + (if tasks[j].completed then [] else [Incomplete(tasks[j], name, id)])
  {
    assert tasks[..j + 1][..j] == tasks[..j];
  }

  /** One more list visited by the outer loop of the query. */
  lemma OffersOfPrefix(lists: seq<TodoList>, i: nat, current: Option<string>)
    requires i < |lists|
    ensures IncompleteFromOthers(lists[..i + 1], current) == IncompleteFromOthers(lists[..i], current) + OfferedBy(lists[i], current)
  {
    assert lists[..i + 1] == lists[..i] + [lists[i]];
    OffersOfSnoc(lists[..i], lists[i], current);
  }

  /** The result is in list-then-task order: it distributes over
      concatenation of the lists. */
  lemma {:induction false} IncompleteAppend(a: seq<TodoList>, b: seq<TodoList>, current: Option<string>)
    ensures IncompleteFromOthers(a + b, current) == IncompleteFromOthers(a, current) + IncompleteFromOthers(b, current)
    decreases |b|
  {
    if b == [] {
      assert a + b == a;
    } else {
      var front := b[..|b| - 1];
      OffersOfLast(a, b, current);
      IncompleteAppend(a, front, current);
      AppendAssociative(IncompleteFromOthers(a, current), IncompleteFromOthers(front, current), OfferedBy(b[|b| - 1], current));
    }
  }

  /** Appending a nonempty run of lists adds the last one's offers last. */
  lemma OffersOfLast(a: seq<TodoList>, b: seq<TodoList>, current: Option<string>)
    requires b != []
    ensures IncompleteFromOthers(a + b, current) ==
            IncompleteFromOthers(a + b[..|b| - 1], current) + OfferedBy(b[|b| - 1], current)
  {
    assert a + b == (a + b[..|b| - 1]) + [b[|b| - 1]];
    OffersOfSnoc(a + b[..|b| - 1], b[|b| - 1], current);
  }

  lemma AppendAssociative<T>(x: seq<T>, y: seq<T>, z: seq<T>)
    ensures (x + y) + z == x + (y + z)
  {
  }

  // ---------------------------------------------------------------------------
  // Handlers as state steps

  /** createList: a blank name changes nothing; otherwise a new empty list is
      appended, selected, and a `list_created` event is logged with the name as
      typed (untrimmed). */
  function CreateList(s: AppState, name: string, recurrence: string, scheduledTime: string, clock: Clock): (r: AppState)
    ensures IsBlank(name) ==> r == s
    ensures !IsBlank(name) ==>
              && |r.lists| == |s.lists| + 1
              && r.lists[..|s.lists|] == s.lists
              && r.lists[|s.lists|] == TodoList(Decimal(clock.millis), name, recurrence, scheduledTime, clock.iso, [])
              && r.currentListId == Some(r.lists[|s.lists|].id)
              && Truthy(r.currentListId)
              && r.events == s.events + [NewEvent(ListCreated, name, "", clock)]
  {
    if IsBlank(name) then s
    else
      var list := TodoList(Decimal(clock.millis), name, recurrence, scheduledTime, clock.iso, []);
      AppState(s.lists + [list], Some(list.id), s.events + [NewEvent(ListCreated, name, "", clock)])
  }

  /** When no earlier list has the new id, the list shown as current after
      createList is the one just created. */
  lemma CreateListSelectsNewList(s: AppState, name: string, recurrence: string, scheduledTime: string, clock: Clock)
    requires !IsBlank(name)
    requires forall i :: 0 <= i < |s.lists| ==> s.lists[i].id != Decimal(clock.millis)
    ensures var r := CreateList(s, name, recurrence, scheduledTime, clock);
            FindList(r.lists, r.currentListId) == Some(r.lists[|r.lists| - 1])
  {
    var r := CreateList(s, name, recurrence, scheduledTime, clock);
    assert forall k :: 0 <= k < |s.lists| ==> r.lists[k] == r.lists[..|s.lists|][k] == s.lists[k];
  }

  /** addTaskToList: nothing happens when the text is blank or no list is
      selected; otherwise every list with the current id gains a new
      incomplete task holding the text as typed, and `task_added` is logged
      when such a list exists. */
  function AddTaskToList(s: AppState, text: string, clock: Clock): (r: AppState)
    ensures IsBlank(text) || !Truthy(s.currentListId) ==> r == s
    ensures r.currentListId == s.currentListId
    ensures LogGrows(s.events, r.events)
    ensures !IsBlank(text) && Truthy(s.currentListId) ==>
              && r.lists == AppendToLists(s.lists, s.currentListId.value, Task(Decimal(clock.millis), text, false, clock.iso))
              && (|r.events| == |s.events| + 1 <==> exists i :: 0 <= i < |s.lists| && Some(s.lists[i].id) == s.currentListId)
              && (|r.events| == |s.events| + 1 ==> r.events[|s.events|].kind == TaskAdded && r.events[|s.events|].taskName == text)
    ensures !IsBlank(text) && Truthy(s.currentListId) ==>
              var logged := LastList(s.lists, s.currentListId.value);
              logged.Some? ==> r.events == s.events + [NewEvent(TaskAdded, logged.value.name, text, clock)]
  {
    if IsBlank(text) || !Truthy(s.currentListId) then s
    else
      var id := s.currentListId.value;
      var task := Task(Decimal(clock.millis), text, false, clock.iso);
      var logged := LastList(s.lists, id);
      AppState(
        AppendToLists(s.lists, id, task),
        s.currentListId,
        if logged.Some? then s.events + [NewEvent(TaskAdded, logged.value.name, text, clock)] else s.events)
  }

  /** toggleTaskCompletion: flips the matching tasks and logs
      `task_completed` exactly when some matching task was incomplete, that is
      when a new value is true. */
  function ToggleTaskCompletion(s: AppState, listId: string, taskId: string, clock: Clock): (r: AppState)
    ensures r.lists == ToggleLists(s.lists, listId, taskId)
    ensures r.currentListId == s.currentListId
    ensures LogGrows(s.events, r.events)
    ensures |r.events| == |s.events| + 1 <==> exists i, j :: MentionAt(s.lists, listId, taskId, true, i, j)
    ensures |r.events| == |s.events| + 1 ==> r.events[|s.events|].kind == TaskCompleted
    ensures var logged := LastMention(s.lists, listId, taskId, true);
            logged.Some? ==> r.events == s.events + [NewEvent(TaskCompleted, logged.value.listName, logged.value.taskText, clock)]
  {
    var logged := LastMention(s.lists, listId, taskId, true);
    AppState(
      ToggleLists(s.lists, listId, taskId),
      s.currentListId,
      if logged.Some? then s.events + [NewEvent(TaskCompleted, logged.value.listName, logged.value.taskText, clock)]
      else s.events)
  }

  /** deleteTask: lists with the current id lose the tasks with `taskId`;
      `task_deleted` is logged only when the first current list has such a
      task. */
  function DeleteTask(s: AppState, taskId: string, clock: Clock): (r: AppState)
    ensures |r.lists| == |s.lists|
    ensures forall i :: 0 <= i < |s.lists| && Some(s.lists[i].id) != s.currentListId ==> r.lists[i] == s.lists[i]
    ensures forall i :: 0 <= i < |s.lists| && Some(s.lists[i].id) == s.currentListId ==>
              r.lists[i] == s.lists[i].(tasks := RemoveTasks(s.lists[i].tasks, taskId))
    ensures r.currentListId == s.currentListId
    ensures LogGrows(s.events, r.events)
    ensures var current := FindList(s.lists, s.currentListId);
            |r.events| == |s.events| + 1 <==> current.Some? && exists j :: 0 <= j < |current.value.tasks| && current.value.tasks[j].id == taskId
    ensures |r.events| == |s.events| + 1 ==> r.events[|s.events|].kind == TaskDeleted
    ensures var current := FindList(s.lists, s.currentListId);
            current.Some? && FindTask(current.value.tasks, taskId).Some? ==>
              r.events == s.events + [NewEvent(TaskDeleted, current.value.name, FindTask(current.value.tasks, taskId).value.text, clock)]
  {
    var current := FindList(s.lists, s.currentListId);
    var task := if current.Some? then FindTask(current.value.tasks, taskId) else None;
    var lists := DeleteFromCurrent(s.lists, s.currentListId, taskId);
    AppState(
      lists,
      s.currentListId,
      if task.Some? then s.events + [NewEvent(TaskDeleted, current.value.name, task.value.text, clock)] else s.events)
  }

  /** The list part of deleteTask, with no list selected or one selected. */
  function DeleteFromCurrent(lists: seq<TodoList>, currentListId: Option<string>, taskId: string): (r: seq<TodoList>)
    ensures |r| == |lists|
    ensures forall i :: 0 <= i < |lists| && Some(lists[i].id) != currentListId ==> r[i] == lists[i]
    ensures forall i :: 0 <= i < |lists| && Some(lists[i].id) == currentListId ==>
              r[i] == lists[i].(tasks := RemoveTasks(lists[i].tasks, taskId))
  {
    if currentListId.Some? then DeleteFromLists(lists, currentListId.value, taskId) else lists
  }

  /** completeIncompleteTask: marks the matching tasks of `fromListId`
      completed and logs `task_completed` when any task matched. */
  function CompleteIncompleteTask(s: AppState, fromListId: string, taskId: string, clock: Clock): (r: AppState)
    ensures r.lists == CompleteLists(s.lists, fromListId, taskId)
    ensures r.currentListId == s.currentListId
    ensures LogGrows(s.events, r.events)
    ensures |r.events| == |s.events| + 1 <==> exists i, j :: MentionAt(s.lists, fromListId, taskId, false, i, j)
    ensures |r.events| == |s.events| + 1 ==> r.events[|s.events|].kind == TaskCompleted
    ensures var logged := LastMention(s.lists, fromListId, taskId, false);
            logged.Some? ==> r.events == s.events + [NewEvent(TaskCompleted, logged.value.listName, logged.value.taskText, clock)]
  {
    var logged := LastMention(s.lists, fromListId, taskId, false);
    AppState(
      CompleteLists(s.lists, fromListId, taskId),
      s.currentListId,
      if logged.Some? then s.events + [NewEvent(TaskCompleted, logged.value.listName, logged.value.taskText, clock)]
      else s.events)
  }

  /** addIncompleteTaskHere: with no list selected nothing happens; otherwise
      the current list gains a fresh incomplete task with the item's text and
      `task_recycled` is logged when that list exists. */
  function AddIncompleteTaskHere(s: AppState, item: Incomplete, clock: Clock): (r: AppState)
    ensures !Truthy(s.currentListId) ==> r == s
    ensures r.currentListId == s.currentListId
    ensures LogGrows(s.events, r.events)
    ensures Truthy(s.currentListId) ==>
              && r.lists == AppendToLists(s.lists, s.currentListId.value, Task(Decimal(clock.millis), item.task.text, false, clock.iso))
              && (|r.events| == |s.events| + 1 <==> exists i :: 0 <= i < |s.lists| && Some(s.lists[i].id) == s.currentListId)
              && (|r.events| == |s.events| + 1 ==> r.events[|s.events|].kind == TaskRecycled)
    ensures Truthy(s.currentListId) ==>
              var logged := LastList(s.lists, s.currentListId.value);
              logged.Some? ==> r.events == s.events + [NewEvent(TaskRecycled, logged.value.name, item.task.text, clock)]
  {
    if !Truthy(s.currentListId) then s
    else
      var id := s.currentListId.value;
      var task := Task(Decimal(clock.millis), item.task.text, false, clock.iso);
      var logged := LastList(s.lists, id);
      AppState(
        AppendToLists(s.lists, id, task),
        s.currentListId,
        if logged.Some? then s.events + [NewEvent(TaskRecycled, logged.value.name, item.task.text, clock)] else s.events)
  }

  /** The load-time effect: stored lists (when a blob was stored) replace the
      lists, and the first stored list is selected when nothing is selected;
      stored events replace the log. */
  function LoadState(s: AppState, savedLists: Option<seq<TodoList>>, savedEvents: Option<seq<Event>>): (r: AppState)
    ensures r.lists == (if savedLists.Some? then savedLists.value else s.lists)
    ensures r.events == (if savedEvents.Some? then savedEvents.value else s.events)
    ensures r.currentListId == s.currentListId ||
            (savedLists.Some? && savedLists.value != [] && !Truthy(s.currentListId) && r.currentListId == Some(savedLists.value[0].id))
    ensures savedLists.Some? && savedLists.value != [] && !Truthy(s.currentListId) ==> r.currentListId == Some(savedLists.value[0].id)
  {
    var current :=
      if savedLists.Some? && |savedLists.value| > 0 && !Truthy(s.currentListId) then Some(savedLists.value[0].id)
      else s.currentListId;
    AppState(
      if savedLists.Some? then savedLists.value else s.lists,
      current,
      if savedEvents.Some? then savedEvents.value else s.events)
  }

  // ---------------------------------------------------------------------------
  // Properties relating several handlers

  /** Toggling the same task twice restores the lists and the selection. */
  lemma ToggleTwiceRestoresLists(s: AppState, listId: string, taskId: string, c1: Clock, c2: Clock)
    ensures var r := ToggleTaskCompletion(ToggleTaskCompletion(s, listId, taskId, c1), listId, taskId, c2);
            r.lists == s.lists && r.currentListId == s.currentListId
  {
    ToggleInvolution(s.lists, listId, taskId);
  }

  /** Completing an offered task from another list's view marks it done where
      it lives, so it is no longer offered, and no task is added or removed. */
  lemma CompletedIsNoLongerOffered(s: AppState, fromListId: string, taskId: string, clock: Clock, current: Option<string>)
    ensures var r := CompleteIncompleteTask(s, fromListId, taskId, clock);
            && (forall i :: 0 <= i < |s.lists| ==> |r.lists[i].tasks| == |s.lists[i].tasks|)
            && forall x :: x in IncompleteFromOthers(r.lists, current) ==> !(x.fromListId == fromListId && x.task.id == taskId)
  {
    var lists := CompleteLists(s.lists, fromListId, taskId);
    assert CompleteIncompleteTask(s, fromListId, taskId, clock).lists == lists;
    forall x | x in IncompleteFromOthers(lists, current)
      ensures !(x.fromListId == fromListId && x.task.id == taskId)
    {
      IncompleteSound(lists, current, x);
      var i, j :| OfferedAt(lists, current, x, i, j);
      assert lists[i].id == s.lists[i].id && lists[i].tasks[j].id == s.lists[i].tasks[j].id;
    }
  }

  /** Pulling an offered task into the current list copies it: the list it came
      from is untouched and still holds the task. */
  lemma RecycleCopiesNotMoves(s: AppState, item: Incomplete, clock: Clock)
    requires item in IncompleteFromOthers(s.lists, s.currentListId)
    ensures var r := AddIncompleteTaskHere(s, item, clock);
            && (forall i :: 0 <= i < |s.lists| && s.lists[i].id == item.fromListId ==> r.lists[i] == s.lists[i])
            && exists i :: 0 <= i < |r.lists| && r.lists[i].id == item.fromListId && item.task in r.lists[i].tasks
  {
    IncompleteSound(s.lists, s.currentListId, item);
    var i, j :| OfferedAt(s.lists, s.currentListId, item, i, j);
    var r := AddIncompleteTaskHere(s, item, clock);
    assert r.lists[i] == s.lists[i];
    assert item.task == r.lists[i].tasks[j];
  }

  /** From a fresh app: create a list, add a task to it and tick the task. The
      one list holds the one task, completed, with the text as typed, and the
      log narrates the three steps, all with the list's name. */
  lemma CreateAddToggleScenario(name: string, recurrence: string, scheduledTime: string, text: string,
                                c1: Clock, c2: Clock, c3: Clock)
    requires !IsBlank(name) && !IsBlank(text)
    ensures var s1 := CreateList(AppState([], None, []), name, recurrence, scheduledTime, c1);
            var s2 := AddTaskToList(s1, text, c2);
            var s3 := ToggleTaskCompletion(s2, s1.lists[0].id, s2.lists[0].tasks[0].id, c3);
            && |s3.lists| == 1
            && s3.lists[0].name == name && s3.lists[0].recurrence == recurrence && s3.lists[0].scheduledTime == scheduledTime
            && |s3.lists[0].tasks| == 1 && s3.lists[0].tasks[0].text == text && s3.lists[0].tasks[0].completed
            && |s3.events| == 3
            && s3.events[0].kind == ListCreated && s3.events[1].kind == TaskAdded && s3.events[2].kind == TaskCompleted
            && s3.events[0].listName == name && s3.events[1].listName == name && s3.events[2].listName == name
            && s3.events[2].taskName == text
  {
    var s1 := CreateList(AppState([], None, []), name, recurrence, scheduledTime, c1);
    var l := s1.lists[0];
    var task := Task(Decimal(c2.millis), text, false, c2.iso);
    var s2 := AddTaskToList(s1, text, c2);
    assert s2.lists[0] == l.(tasks := [task]);
    assert LastList(s1.lists, l.id) == Some(l);
    assert s2.events[1] == NewEvent(TaskAdded, name, text, c2);
    var s3 := ToggleTaskCompletion(s2, l.id, task.id, c3);
    assert s3.lists[0].tasks[0] == task.(completed := true);
    assert LastTask(s2.lists[0].tasks, task.id, true) == Some(task);
    assert LastMention(s2.lists, l.id, task.id, true) == Some(Mention(name, text));
  }
}
