// The ZenTodo component as an object: the state React keeps for it (the lists,
// the selected list, the event log and the form inputs the handlers read) and
// one method per event handler. Each handler runs as one atomic step whose new
// state is the matching pure step of module Todo.

module App {
  import opened Wrappers
  import opened Text
  import opened Todo

  class ZenTodo {
    var lists: seq<TodoList>
    var currentListId: Option<string>
    var events: seq<Event>

    // Form inputs the handlers read and reset.
    var newListName: string
    var newTaskText: string
    var recurFreq: string
    var recurTime: string
    var showNewListForm: bool

    function State(): AppState
      reads this
    {
      AppState(lists, currentListId, events)
    }

    /** The initial `useState` values. */
    constructor ()
      ensures State() == AppState([], None, [])
      ensures newListName == "" && newTaskText == "" && !showNewListForm
      ensures recurFreq == "none" && recurTime == "06:00"
    {
      lists, currentListId, events := [], None, [];
      newListName, newTaskText, showNewListForm := "", "", false;
      recurFreq, recurTime := "none", "06:00";
    }

    /** The mount-time load of the stored lists and events (already parsed). */
    method Load(savedLists: Option<seq<TodoList>>, savedEvents: Option<seq<Event>>)
      modifies this`lists, this`currentListId, this`events
      ensures State() == LoadState(old(State()), savedLists, savedEvents)
    {
      if savedLists.Some? {
        lists := savedLists.value;
        if |savedLists.value| > 0 && !Truthy(currentListId) {
          currentListId := Some(savedLists.value[0].id);
        }
      }
      if savedEvents.Some? {
        events := savedEvents.value;
      }
    }

    /** Clicking a list in the sidebar selects it. */
    method SelectList(id: string)
      modifies this`currentListId
      ensures currentListId == Some(id)
    {
      currentListId := Some(id);
    }

    method CreateList(clock: Clock)
      modifies this`lists, this`currentListId, this`events
      modifies this`newListName, this`showNewListForm, this`recurFreq, this`recurTime
      ensures State() == Todo.CreateList(old(State()), old(newListName), old(recurFreq), old(recurTime), clock)
      ensures IsBlank(old(newListName)) ==>
                newListName == old(newListName) && showNewListForm == old(showNewListForm) &&
                recurFreq == old(recurFreq) && recurTime == old(recurTime)
      ensures !IsBlank(old(newListName)) ==>
                newListName == "" && !showNewListForm && recurFreq == "none" && recurTime == "06:00"
    {
      var next := Todo.CreateList(State(), newListName, recurFreq, recurTime, clock);
      if !IsBlank(newListName) {
        newListName, showNewListForm := "", false;
        recurFreq, recurTime := "none", "06:00";
      }
      lists, currentListId, events := next.lists, next.currentListId, next.events;
    }

    method AddTaskToList(clock: Clock)
      modifies this`lists, this`events, this`newTaskText
      ensures State() == Todo.AddTaskToList(old(State()), old(newTaskText), clock)
      ensures IsBlank(old(newTaskText)) || !Truthy(currentListId) ==> newTaskText == old(newTaskText)
      ensures !IsBlank(old(newTaskText)) && Truthy(currentListId) ==> newTaskText == ""
    {
      var accepted := !IsBlank(newTaskText) && Truthy(currentListId);
      var next := Todo.AddTaskToList(State(), newTaskText, clock);
      if accepted {
        newTaskText := "";
      }
      lists, events := next.lists, next.events;
    }

    method ToggleTaskCompletion(listId: string, taskId: string, clock: Clock)
      modifies this`lists, this`events
      ensures State() == Todo.ToggleTaskCompletion(old(State()), listId, taskId, clock)
    {
      var next := Todo.ToggleTaskCompletion(State(), listId, taskId, clock);
      lists, events := next.lists, next.events;
    }

    method DeleteTask(taskId: string, clock: Clock)
      modifies this`lists, this`events
      ensures State() == Todo.DeleteTask(old(State()), taskId, clock)
    {
      var next := Todo.DeleteTask(State(), taskId, clock);
      lists, events := next.lists, next.events;
    }

    /** The nested loops that collect the incomplete tasks of the other lists. */
    method IncompleteTasksFromOtherLists() returns (incomplete: seq<Incomplete>)
      ensures incomplete == IncompleteFromOthers(lists, currentListId)
      ensures forall x :: x in incomplete ==> Some(x.fromListId) != currentListId && !x.task.completed
    {
      var all, current := lists, currentListId;
      incomplete := [];
      var i := 0;
      while i < |all|
        invariant 0 <= i <= |all|
        invariant incomplete == IncompleteFromOthers(all[..i], current)
      {
        var list := all[i];
        OffersOfPrefix(all, i, current);
        if Some(list.id) != current {
          ghost var before := incomplete;
          var j := 0;
          while j < |list.tasks|
            invariant 0 <= j <= |list.tasks|
            invariant incomplete == before + IncompleteOf(list.tasks[..j], list.name, list.id)
          {
            var task := list.tasks[j];
            IncompleteOfStep(list.tasks, j, list.name, list.id);
            if !task.completed {
              AppendAssociative(before, IncompleteOf(list.tasks[..j], list.name, list.id), [Incomplete(task, list.name, list.id)]);
              incomplete := incomplete + [Incomplete(task, list.name, list.id)];
            }
            j := j + 1;
          }
          assert list.tasks[..j] == list.tasks;
        }
        i := i + 1;
      }
      assert all[..i] == all;
      NeverFromCurrent(all, current);
    }

    method CompleteIncompleteTask(fromListId: string, taskId: string, clock: Clock)
      modifies this`lists, this`events
      ensures State() == Todo.CompleteIncompleteTask(old(State()), fromListId, taskId, clock)
    {
      var next := Todo.CompleteIncompleteTask(State(), fromListId, taskId, clock);
      lists, events := next.lists, next.events;
    }

    method AddIncompleteTaskHere(item: Incomplete, clock: Clock)
      modifies this`lists, this`events
      ensures State() == Todo.AddIncompleteTaskHere(old(State()), item, clock)
    {
      if !Truthy(currentListId) {
        return;
      }
      var next := Todo.AddIncompleteTaskHere(State(), item, clock);
      lists, events := next.lists, next.events;
    }
  }
}
