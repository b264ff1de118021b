/** Short sessions against a fresh manager, proved from the operations'
    contracts alone. */
module Scenarios {
  import opened Tasks
  import opened TaskManagement

  /** Empty and all-space descriptions are refused and use up no id: the
      first real task still gets id 1. */
  method BlankDescriptionsAreRefused() returns (r1: AddOutcome, r2: AddOutcome, r3: AddOutcome, total: nat)
    ensures r1 == InvalidInput && r2 == InvalidInput
    ensures r3 == Added(1) && total == 1
  {
    var m := new TaskManager();
    r1 := m.AddTask("");
    r2 := m.AddTask("   ");
    NotBlank("x");
    r3 := m.AddTask("x");
    var all, completed;
    all, total, completed := m.ViewTasks();
  }

  /** Ids go up by one per successful add, also after a delete, and a
      deleted id is never handed out again. */
  method IdsAreNotReused() returns (a: AddOutcome, b: AddOutcome, d: DeleteOutcome, c: AddOutcome)
    ensures a == Added(1) && b == Added(2) && d == Deleted && c == Added(3)
  {
    var m := new TaskManager();
    NotBlank("a");
    NotBlank("b");
    NotBlank("c");
    a := m.AddTask("a");
    b := m.AddTask("b");
    d := m.DeleteTask(2);
    c := m.AddTask("c");
  }

  /** Completing an id works once; from the second call on it is reported
      as already completed. Completing an id in an empty store fails. */
  method CompleteTwice() returns (missing: CompleteOutcome, first: CompleteOutcome, second: CompleteOutcome)
    ensures missing == CompleteOutcome.NotFound
    ensures first == Completed && second == AlreadyCompleted
  {
    var m := new TaskManager();
    missing := m.CompleteTask(999);
    NotBlank("a");
    var a := m.AddTask("a");
    first := m.CompleteTask(1);
    second := m.CompleteTask(1);
  }

  /** After a delete, completing or deleting the same id finds nothing. */
  method DeleteThenLookUp() returns (d: DeleteOutcome, c: CompleteOutcome, d2: DeleteOutcome)
    ensures d == Deleted && c == CompleteOutcome.NotFound && d2 == DeleteOutcome.NotFound
  {
    var m := new TaskManager();
    NotBlank("a");
    var a := m.AddTask("a");
    d := m.DeleteTask(1);
    c := m.CompleteTask(1);
    d2 := m.DeleteTask(1);
  }

  /** Add "a", add "b", complete "a": the pending view is exactly ["b"]. */
  method PendingAfterCompletingFirst() returns (pending: seq<Task>)
    ensures pending == [Task(2, "b", false)]
  {
    var m := new TaskManager();
    NotBlank("a");
    NotBlank("b");
    var a := m.AddTask("a");
    var b := m.AddTask("b");
    var c := m.CompleteTask(1);
    assert m.tasks == [Task(1, "a", true), Task(2, "b", false)];
    pending := m.ViewPendingTasks();
    assert [Task(2, "b", false)][1..] == [];
  }

  /** Add, add, complete the first, delete the second: one task is left and
      it is completed. */
  method AddCompleteDelete() returns (all: seq<Task>, total: nat, completed: nat)
    ensures all == [Task(1, "Buy milk", true)]
    ensures total == 1 && completed == 1
  {
    var m := new TaskManager();
    NotBlank("Buy milk");
    NotBlank("Pay bills");
    var a := m.AddTask("Buy milk");
    var b := m.AddTask("Pay bills");
    var c := m.CompleteTask(1);
    var d := m.DeleteTask(2);
    assert m.tasks == [Task(1, "Buy milk", true)];
    all, total, completed := m.ViewTasks();
    assert m.tasks[1..] == [];
  }
}
