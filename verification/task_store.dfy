/**
 * The task store of the application component: the visible task list and the
 * "tasks" slot of local storage, and the six handlers that act on them.
 *
 * `Step` gives the effect of each handler on a `Store` snapshot; the class
 * `TaskStore` performs the handlers on its two fields, and each method's
 * postcondition ties the new fields to `Step` of the old ones, so the lemmas
 * about runs of `Step` hold of any sequence of method calls.
 */
module TaskStoreModel {
  import opened Wrappers
  import opened Tasks
  import opened Sorting

  /** The visible list and the storage slot (absent until first written). */
  datatype Store = Store(tasks: seq<Task>, stored: Option<seq<Task>>)

  /** A user action, one per handler that the view invokes. */
  datatype Action =
    | Create(task: Task)
    | Delete(index: int)
    | Load
    | SortBy(criteria: string)
    | FilterBy(state: Option<TaskState>)

  /** The handlers that write the storage slot. */
  predicate IsEdit(a: Action)
  {
    a.Create? || a.Delete?
  }

  /** The visible list equals what the slot holds. */
  predicate InSync(s: Store)
  {
    s.stored == Some(s.tasks)
  }

  /**
   * The list after sorting by `criteria`: stable by state label for "state",
   * stable by deadline for "deadline", and unchanged for anything else.
   */
  function SortView(tasks: seq<Task>, criteria: string): (r: seq<Task>)
    ensures multiset(r) == multiset(tasks)
    ensures criteria == "state" ==> IsSorted(r, ByState)
    ensures criteria == "deadline" ==> IsSorted(r, ByDeadline)
    ensures criteria != "state" && criteria != "deadline" ==> r == tasks
  {
    if criteria == "state" then Sort(tasks, ByState)
    else if criteria == "deadline" then Sort(tasks, ByDeadline)
    else tasks
  }

  /** The list after reloading: the stored list if there is one, else the current list. */
  function Reloaded(s: Store): (r: seq<Task>)
    ensures InSync(s) ==> r == s.tasks
    ensures s.stored.None? ==> r == s.tasks
  {
    match s.stored
    case Some(saved) => saved
    case None => s.tasks
  }

  /** The effect of one handler on the store. */
  function Step(s: Store, a: Action): (r: Store)
    ensures IsEdit(a) ==> InSync(r)
    ensures !IsEdit(a) ==> r.stored == s.stored
    ensures a.Create? ==> |r.tasks| == |s.tasks| + 1 && r.tasks[|s.tasks|] == a.task
                          && r.tasks[..|s.tasks|] == s.tasks
    ensures a.Delete? && 0 <= a.index < |s.tasks| ==> |r.tasks| == |s.tasks| - 1
    ensures a.Delete? && !(0 <= a.index < |s.tasks|) ==> r.tasks == s.tasks
    ensures a.FilterBy? && a.state.Some? ==> forall i :: 0 <= i < |r.tasks| ==> r.tasks[i].state == a.state.value
  {
    match a
    case Create(t) =>
      var updated := s.tasks + [t];
      Store(updated, Some(updated))
    case Delete(i) =>
      var updated := WithoutIndex(s.tasks, i);
      Store(updated, Some(updated))
    case Load =>
      Store(Reloaded(s), s.stored)
    case SortBy(criteria) =>
      Store(SortView(s.tasks, criteria), s.stored)
    case FilterBy(state) =>
      if state.Some? then Store(OfState(s.tasks, state.value), s.stored)
      else Store(Reloaded(s), s.stored)
  }

  /** The store after the actions, in order. */
  function Run(s: Store, actions: seq<Action>): Store
    decreases |actions|
  {
    if actions == [] then s else Run(Step(s, actions[0]), actions[1..])
  }

  /** Running two traces one after the other is running them joined. */
  lemma {:induction false} RunAppend(s: Store, xs: seq<Action>, ys: seq<Action>)
    ensures Run(s, xs + ys) == Run(Run(s, xs), ys)
    decreases |xs|
  {
    if xs == [] {
      assert xs + ys == ys;
    } else {
      assert (xs + ys)[0] == xs[0] && (xs + ys)[1..] == xs[1..] + ys;
      RunAppend(Step(s, xs[0]), xs[1..], ys);
    }
  }

  /**
   * Whatever came before, after a create or a delete the slot holds exactly
   * the visible list, even when that list was a sorted or filtered view.
   */
  lemma {:induction false} EditLeavesInSync(s: Store, actions: seq<Action>)
    requires actions != [] && IsEdit(actions[|actions| - 1])
    ensures InSync(Run(s, actions))
    decreases |actions|
  {
    if |actions| > 1 {
      EditLeavesInSync(Step(s, actions[0]), actions[1..]);
    }
  }

  /**
   * The length a list of `n` tasks reaches after the edits: one more per
   * create, one fewer per delete whose index lies inside the list.
   */
  function EditedLength(n: nat, edits: seq<Action>): int
    decreases |edits|
  {
    if edits == [] then n
    else match edits[0]
      case Create(_) => EditedLength(n + 1, edits[1..])
      case Delete(i) => EditedLength(if 0 <= i < n then n - 1 else n, edits[1..])
      case _ => EditedLength(n, edits[1..])
  }

  /** Over creates and deletes, the length counts creates minus successful deletes. */
  lemma {:induction false} EditsCountLength(s: Store, edits: seq<Action>)
    requires forall i :: 0 <= i < |edits| ==> IsEdit(edits[i])
    ensures |Run(s, edits).tasks| == EditedLength(|s.tasks|, edits)
    decreases |edits|
  {
    if edits != [] {
      assert IsEdit(edits[0]);
      EditsCountLength(Step(s, edits[0]), edits[1..]);
    }
  }

  /** Sorting, filtering and reloading never write the slot. */
  lemma {:induction false} ViewsKeepSlot(s: Store, views: seq<Action>)
    requires forall i :: 0 <= i < |views| ==> !IsEdit(views[i])
    ensures Run(s, views).stored == s.stored
    decreases |views|
  {
    if views != [] {
      ViewsKeepSlot(Step(s, views[0]), views[1..]);
    }
  }

  /**
   * Round trip: after a create or a delete, reloading gives back exactly the
   * list that the edit produced, however it was sorted or filtered since.
   */
  lemma ReloadRestoresLastEdit(s: Store, edit: Action, views: seq<Action>)
    requires IsEdit(edit)
    requires forall i :: 0 <= i < |views| ==> !IsEdit(views[i])
    ensures Step(Run(Step(s, edit), views), Load) == Step(s, edit)
  {
    ViewsKeepSlot(Step(s, edit), views);
  }

  /** Filtering with no state is reloading. */
  lemma FilterWithoutStateReloads(s: Store)
    ensures Step(s, FilterBy(None)) == Step(s, Load)
    ensures s.stored.Some? ==> Step(s, FilterBy(None)).tasks == s.stored.value
    ensures s.stored.None? ==> Step(s, FilterBy(None)).tasks == s.tasks
  {
  }

  /**
   * Creating while a filtered view is showing persists that view plus the new
   * task: every stored task of another state (other than the new one) is
   * then gone from storage.
   */
  lemma CreateAfterFilterPersistsView(s: Store, st: TaskState, t: Task)
    ensures Step(Step(s, FilterBy(Some(st))), Create(t)).stored == Some(OfState(s.tasks, st) + [t])
    ensures forall u :: u in s.tasks && u.state != st && u != t ==>
      u !in Step(Step(s, FilterBy(Some(st))), Create(t)).stored.value
  {
    var view := OfState(s.tasks, st);
    forall u | u in s.tasks && u.state != st && u != t
      ensures u !in view + [t]
    {
      assert multiset(view)[u] == 0;
    }
  }

  /**
   * Deleting while a filtered view is showing persists the view minus the
   * deleted entry; tasks of other states are gone from storage.
   */
  lemma DeleteAfterFilterPersistsView(s: Store, st: TaskState, index: int)
    ensures Step(Step(s, FilterBy(Some(st))), Delete(index)).stored
         == Some(WithoutIndex(OfState(s.tasks, st), index))
    ensures forall u :: u in s.tasks && u.state != st ==>
      u !in Step(Step(s, FilterBy(Some(st))), Delete(index)).stored.value
  {
    var view := OfState(s.tasks, st);
    var kept := WithoutIndex(view, index);
    if 0 <= index < |view| {
      WithoutIndexRemovesOne(view, index);
    }
    forall u | u in s.tasks && u.state != st
      ensures u !in kept
    {
      assert multiset(view)[u] == 0;
    }
  }

  /** Two creates on an empty store persist both tasks in creation order. */
  lemma CreateTwo(first: Task, second: Task)
    ensures Run(Store([], None), [Create(first), Create(second)])
         == Store([first, second], Some([first, second]))
  {
    var actions := [Create(first), Create(second)];
    var one := Store([first], Some([first]));
    assert Step(Store([], None), Create(first)) == one;
    assert [first] + [second] == [first, second];
    assert actions[1..] == [Create(second)] && actions[1..][1..] == [];
    assert Run(one, actions[1..]) == Run(Step(one, Create(second)), []);
  }

  /** Sorting two tasks swaps them exactly when the second sorts strictly before the first. */
  lemma SortTwo(first: Task, second: Task, crit: Criterion)
    ensures Before(crit, second, first) ==> Sort([first, second], crit) == [second, first]
    ensures !Before(crit, second, first) ==> Sort([first, second], crit) == [first, second]
  {
    SortSingle(first, crit);
    SortPair(first, second, crit);
    assert [first][1..] == [];
  }

  lemma SortSingle(x: Task, crit: Criterion)
    ensures Sort([x], crit) == [x]
  {
    assert [x][..0] == [];
  }

  lemma SortPair(first: Task, second: Task, crit: Criterion)
    ensures Sort([first, second], crit) == Insert(Sort([first], crit), second, crit)
  {
    assert [first, second][..1] == [first];
  }

  /**
   * Two tasks created on an empty store; sorting by state puts the "Done"
   * task first, and filtering by "Done" keeps only it.
   */
  lemma TwoTaskScenario()
    ensures var report := Task("Write report", "Q3 summary", NotDone, "2024-01-15");
            var review := Task("Review PR", "", Done, "");
            var s := Run(Store([], None), [Create(report), Create(review)]);
            s == Store([report, review], Some([report, review]))
            && Step(s, SortBy("state")).tasks == [review, report]
            && Step(s, FilterBy(Some(Done))).tasks == [review]
  {
    var report := Task("Write report", "Q3 summary", NotDone, "2024-01-15");
    var review := Task("Review PR", "", Done, "");
    CreateTwo(report, review);
    SortTwo(report, review, ByState);
    assert OfState([report, review], Done) == [review];
  }

  /** The visible task list and the storage slot, updated by the handlers. */
  class TaskStore {
    var tasks: seq<Task>
    var stored: Option<seq<Task>>

    function State(): Store
      reads this
    {
      Store(tasks, stored)
    }

    /** Mounting: the list starts empty and is then loaded from the given slot. */
    constructor (storage: Option<seq<Task>>)
      ensures stored == storage
      ensures tasks == (if storage.Some? then storage.value else [])
      ensures State() == Step(Store([], storage), Load)
    {
      tasks := [];
      stored := storage;
      new;
      LoadTasks();
    }

    /** Overwrites the slot with `list`. */
    method SaveTasks(list: seq<Task>)
      modifies this`stored
      ensures stored == Some(list)
    {
      stored := Some(list);
    }

    /** Appends a task built from the form's four fields and persists the list. */
    method CreateTask(title: string, summary: string, state: TaskState, deadline: string)
      modifies this
      ensures tasks == old(tasks) + [Task(title, summary, state, deadline)]
      ensures stored == Some(tasks)
      ensures State() == Step(old(State()), Create(Task(title, summary, state, deadline)))
    {
      var newTask := Task(title, summary, state, deadline);
      var updatedTasks := tasks + [newTask];
      tasks := updatedTasks;
      SaveTasks(updatedTasks);
    }

    /**
     * Removes the task at `index` and persists the list; an index outside the
     * list removes nothing, but the list is persisted all the same.
     */
    method DeleteTask(index: int)
      modifies this
      ensures 0 <= index < |old(tasks)| ==> tasks == old(tasks)[..index] + old(tasks)[index + 1..]
      ensures !(0 <= index < |old(tasks)|) ==> tasks == old(tasks)
      ensures stored == Some(tasks)
      ensures State() == Step(old(State()), Delete(index))
    {
      var updatedTasks := WithoutIndex(tasks, index);
      tasks := updatedTasks;
      SaveTasks(updatedTasks);
    }

    /** Replaces the list with the stored one, if the slot holds one; never writes. */
    method LoadTasks()
      modifies this`tasks
      ensures old(stored).Some? ==> tasks == old(stored).value
      ensures old(stored).None? ==> tasks == old(tasks)
      ensures State() == Step(old(State()), Load)
    {
      match stored {
        case Some(loadedTasks) =>
          tasks := loadedTasks;
        case None =>
      }
    }

    /**
     * Sorts a copy of the list by state label ("state") or by deadline
     * ("deadline") and shows it; any other criterion shows the list unchanged.
     * Storage is not written.
     */
    method SortTasks(criteria: string)
      modifies this`tasks
      ensures multiset(tasks) == multiset(old(tasks))
      ensures criteria == "state" ==> tasks == Sort(old(tasks), ByState)
      ensures criteria == "deadline" ==> tasks == Sort(old(tasks), ByDeadline)
      ensures criteria != "state" && criteria != "deadline" ==> tasks == old(tasks)
      ensures State() == Step(old(State()), SortBy(criteria))
    {
      var sortedTasks := tasks;
      if criteria == "state" {
        sortedTasks := SortedCopy(tasks, ByState);
      } else if criteria == "deadline" {
        sortedTasks := SortedCopy(tasks, ByDeadline);
      }
      tasks := sortedTasks;
    }

    /**
     * With a state, shows only the tasks in that state, in their order; storage
     * is not written. Without one, reloads from storage.
     */
    method FilterTasks(state: Option<TaskState>)
      modifies this`tasks
      ensures state.Some? ==> tasks == OfState(old(tasks), state.value)
      ensures state.None? && old(stored).Some? ==> tasks == old(stored).value
      ensures state.None? && old(stored).None? ==> tasks == old(tasks)
      ensures State() == Step(old(State()), FilterBy(state))
    {
      if state.Some? {
        var filteredTasks := OfState(tasks, state.value);
        tasks := filteredTasks;
      } else {
        LoadTasks();
      }
    }
  }
}
