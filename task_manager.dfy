/** The in-memory task store: an ordered list of tasks and the counter that
    hands out ids. Each operation reports its outcome as a value instead of a
    console message. */
module TaskManagement {
  import opened Tasks

  datatype AddOutcome = Added(id: int) | InvalidInput | IdsExhausted
  datatype CompleteOutcome = Completed | AlreadyCompleted | NotFound
  datatype DeleteOutcome = Deleted | NotFound

  class TaskManager {
    var tasks: seq<Task>
    var nextId: int
    /** Every id this manager has ever handed out, deleted or not. */
    ghost var issued: set<int>

    ghost predicate Valid()
      reads this
    {
      && Inv(tasks, nextId)
      && (forall x :: x in issued <==> 1 <= x < nextId)
    }

    /** A new manager has no tasks and will hand out id 1 first. */
    constructor ()
      ensures Valid()
      ensures tasks == [] && nextId == 1 && issued == {}
    {
      tasks := [];
      nextId := 1;
      issued := {};
    }

    /** Rejects a blank description; otherwise appends a new, open task that
        gets the next id. The counter is checked: once it would pass
        int.MaxValue the add is refused instead of wrapping. */
    method AddTask(description: string) returns (r: AddOutcome)
      requires Valid()
      modifies this
      ensures Valid()
      ensures IsBlank(description) ==> r == InvalidInput
      ensures !IsBlank(description) && old(nextId) == Int32Max ==> r == IdsExhausted
      ensures !IsBlank(description) && old(nextId) < Int32Max ==> r == Added(old(nextId))
      ensures r.Added? ==>
        && tasks == old(tasks) + [Task(r.id, description, false)]
        && nextId == old(nextId) + 1
        && issued == old(issued) + {r.id}
      ensures r.Added? ==> r.id !in old(issued)
      ensures r.Added? ==> forall i :: 0 <= i < |old(tasks)| ==> old(tasks)[i].id < r.id
      ensures !r.Added? ==> tasks == old(tasks) && nextId == old(nextId) && issued == old(issued)
    {
      if IsBlank(description) {
        return InvalidInput;
      }
      if nextId == Int32Max {
        return IdsExhausted;
      }
      AppendKeepsInv(tasks, nextId, description);
      var id := nextId;
      nextId := nextId + 1;
      tasks := tasks + [Task(id, description, false)];
      issued := issued + {id};
      r := Added(id);
    }

    /** Marks the first task with this id completed. A missing id and an
        already completed task change nothing. */
    method CompleteTask(id: int) returns (r: CompleteOutcome)
      requires Valid()
      modifies this
      ensures Valid()
      ensures nextId == old(nextId) && issued == old(issued)
      ensures match old(FirstMatch(tasks, id))
        case None => r == CompleteOutcome.NotFound && tasks == old(tasks)
        case Some(i) =>
          if old(tasks[i].completed) then r == AlreadyCompleted && tasks == old(tasks)
          else r == Completed && tasks == MarkCompleted(old(tasks), i)
      ensures r.NotFound? <==> !IsCompletedId(tasks, id)
      ensures CompletionNeverReverses(old(tasks), tasks)
    {
      match FirstMatch(tasks, id)
      case None =>
        r := CompleteOutcome.NotFound;
      case Some(i) =>
        MarkedIdIsCompleted(tasks, id, i);
        if tasks[i].completed {
          r := AlreadyCompleted;
        } else {
          MarkKeepsInv(tasks, nextId, i);
          MarkNeverReverses(tasks, i);
          tasks := MarkCompleted(tasks, i);
          r := Completed;
        }
    }

    /** Removes the first task with this id, keeping the others in order. The
        counter is not touched, so the id is never handed out again. */
    method DeleteTask(id: int) returns (r: DeleteOutcome)
      requires Valid()
      modifies this
      ensures Valid()
      ensures nextId == old(nextId) && issued == old(issued)
      ensures match old(FirstMatch(tasks, id))
        case None => r == DeleteOutcome.NotFound && tasks == old(tasks)
        case Some(i) => r == Deleted && tasks == RemoveAt(old(tasks), i)
      ensures FirstMatch(tasks, id) == None
      ensures CompletionNeverReverses(old(tasks), tasks)
    {
      match FirstMatch(tasks, id)
      case None =>
        r := DeleteOutcome.NotFound;
      case Some(i) =>
        RemoveKeepsInv(tasks, nextId, i);
        RemovedIdIsGone(tasks, id, i);
        RemoveNeverReverses(tasks, i);
        tasks := RemoveAt(tasks, i);
        r := Deleted;
    }

    /** All tasks in list order, with the total and completed counts shown
        beneath them. */
    method ViewTasks() returns (all: seq<Task>, total: nat, completed: nat)
      requires Valid()
      ensures all == tasks && total == |tasks|
      ensures completed == CompletedCount(tasks) && completed <= total
      ensures total - completed == |Pending(tasks)|
    {
      all := tasks;
      total := |tasks|;
      completed := CompletedCount(tasks);
    }

    /** The tasks that are not completed, in the order they were added. */
    method ViewPendingTasks() returns (pending: seq<Task>)
      requires Valid()
      ensures pending == Pending(tasks)
      ensures forall t :: t in pending <==> t in tasks && !t.completed
      ensures IdsIncreasing(pending)
    {
      PendingMembers(tasks);
      PendingKeepsOrder(tasks);
      pending := Pending(tasks);
    }
  }
}
