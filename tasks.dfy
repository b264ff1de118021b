/** The values the task manager works on: the task record, the description
    check, the first-match lookup by id, the two queries over the list, the
    invariant the manager keeps, and the 32-bit identifier counter. */
module Tasks {

  datatype Option<+T> = None | Some(value: T)

  const Int32Min: int := -0x8000_0000
  const Int32Max: int := 0x7FFF_FFFF

  predicate InInt32(n: int) {
    Int32Min <= n <= Int32Max
  }

  /** One to-do item. Its creation timestamp is read from the clock and used
      only for display, so it is not part of the model. */
  datatype Task = Task(id: int, description: string, completed: bool)

  /** The characters that .NET's `char.IsWhiteSpace` accepts: the Unicode
      space, line and paragraph separators, U+0009 to U+000D and U+0085. */
  predicate IsWhiteSpace(c: char): (r: bool)
    ensures c == ' ' || c == '\t' || c == '\n' || c == '\r' ==> r
    ensures ('0' <= c <= '9') || ('A' <= c <= 'Z') || ('a' <= c <= 'z') ==> !r
  {
    || ('\t' <= c <= '\r')
    || c == ' '
    || c == '\U{0085}'
    || c == '\U{00A0}'
    || c == '\U{1680}'
    || ('\U{2000}' <= c <= '\U{200A}')
    || c == '\U{2028}'
    || c == '\U{2029}'
    || c == '\U{202F}'
    || c == '\U{205F}'
    || c == '\U{3000}'
  }

  /** `string.IsNullOrWhiteSpace`; a null string is modelled as the empty one. */
  predicate IsBlank(s: string): (b: bool)
    ensures |s| == 0 ==> b
    ensures b <==> forall c | c in s :: IsWhiteSpace(c)
  {
    forall i | 0 <= i < |s| :: IsWhiteSpace(s[i])
  }

  /** A description whose first character is visible is not blank. */
  lemma NotBlank(s: string)
    requires |s| > 0 && !IsWhiteSpace(s[0])
    ensures !IsBlank(s)
  {
  }

  /** The empty string and strings of spaces, tabs and line breaks are
      blank; a string with a letter among spaces is not. */
  lemma BlankExamples()
    ensures IsBlank("") && IsBlank("   ") && IsBlank(" \t\r\n")
    ensures !IsBlank("  x ")
  {
    assert !IsWhiteSpace("  x "[2]);
  }

  /** `FirstOrDefault(t => t.Id == id)`: the position of the first task with
      that id, or None. */
  function FirstMatch(tasks: seq<Task>, id: int): (r: Option<nat>)
    ensures r.Some? ==> r.value < |tasks| && tasks[r.value].id == id
    ensures r.Some? ==> forall j :: 0 <= j < r.value ==> tasks[j].id != id
    ensures r.None? <==> forall j :: 0 <= j < |tasks| ==> tasks[j].id != id
  {
    if |tasks| == 0 then None
    else if tasks[0].id == id then Some(0)
    else match FirstMatch(tasks[1..], id)
      case None => None
      case Some(k) => Some(k + 1)
  }

  /** `tasks.Where(t => !t.IsCompleted)`, in list order. */
  function Pending(tasks: seq<Task>): (r: seq<Task>)
    ensures |r| <= |tasks|
  {
    if tasks == [] then []
    else (if tasks[0].completed then [] else [tasks[0]]) + Pending(tasks[1..])
  }

  /** `tasks.Count(t => t.IsCompleted)`. */
  function CompletedCount(tasks: seq<Task>): (n: nat)
    ensures n <= |tasks|
    ensures n + |Pending(tasks)| == |tasks|
    ensures n == |tasks| <==> Pending(tasks) == []
  {
    if tasks == [] then 0
    else (if tasks[0].completed then 1 else 0) + CompletedCount(tasks[1..])
  }

  /** Whether the first task with this id exists and is completed. */
  predicate IsCompletedId(tasks: seq<Task>, id: int) {
    match FirstMatch(tasks, id)
    case None => false
    case Some(i) => tasks[i].completed
  }

  /** `task.IsCompleted = true` on the task at position i. */
  function MarkCompleted(tasks: seq<Task>, i: nat): (r: seq<Task>)
    requires i < |tasks|
    ensures |r| == |tasks|
    ensures r[i].completed && r[i].id == tasks[i].id && r[i].description == tasks[i].description
    ensures forall j :: 0 <= j < |tasks| && j != i ==> r[j] == tasks[j]
  {
    tasks[i := tasks[i].(completed := true)]
  }

  /** `tasks.Remove(task)` for the task at position i. */
  function RemoveAt(tasks: seq<Task>, i: nat): (r: seq<Task>)
    requires i < |tasks|
    ensures |r| == |tasks| - 1
    ensures forall j :: 0 <= j < i ==> r[j] == tasks[j]
    ensures forall j :: i <= j < |r| ==> r[j] == tasks[j + 1]
  {
    tasks[..i] + tasks[i + 1..]
  }

  ghost predicate IdsIncreasing(tasks: seq<Task>) {
    forall i, j :: 0 <= i < j < |tasks| ==> tasks[i].id < tasks[j].id
  }

  /** What the manager keeps true of its list and counter: ids are positive,
      strictly increasing in list order and below the next id, the next id
      fits a C# `int`, and no stored description is blank. */
  ghost predicate Inv(tasks: seq<Task>, nextId: int) {
    && IdsIncreasing(tasks)
    && (forall i :: 0 <= i < |tasks| ==> 1 <= tasks[i].id < nextId)
    && (forall i :: 0 <= i < |tasks| ==> !IsBlank(tasks[i].description))
    && 1 <= nextId <= Int32Max
  }

  /** Completion never reverses and a description never changes: a task that
      is still present after an operation has the description it had before,
      and is completed if it was completed before. */
  ghost predicate CompletionNeverReverses(before: seq<Task>, after: seq<Task>) {
    forall i, j | 0 <= i < |before| && 0 <= j < |after| && before[i].id == after[j].id ::
      after[j].description == before[i].description && (before[i].completed ==> after[j].completed)
  }

  // ---- The lookup and the invariant

  /** Since ids are unique, the first match is the only match. */
  lemma FirstMatchIsOnlyMatch(tasks: seq<Task>, id: int, j: nat)
    requires IdsIncreasing(tasks)
    requires j < |tasks| && tasks[j].id == id
    ensures FirstMatch(tasks, id) == Some(j)
  {
  }

  /** The lookup looks only at ids, so it finds the same position after a
      task's flag changes. */
  lemma {:induction false} FirstMatchSeesOnlyIds(a: seq<Task>, b: seq<Task>, id: int)
    requires |a| == |b|
    requires forall k :: 0 <= k < |a| ==> a[k].id == b[k].id
    ensures FirstMatch(a, id) == FirstMatch(b, id)
  {
    if |a| > 0 && a[0].id != id {
      FirstMatchSeesOnlyIds(a[1..], b[1..], id);
    }
  }

  /** A successful add keeps the invariant. */
  lemma AppendKeepsInv(tasks: seq<Task>, nextId: int, description: string)
    requires Inv(tasks, nextId)
    requires !IsBlank(description) && nextId < Int32Max
    ensures Inv(tasks + [Task(nextId, description, false)], nextId + 1)
  {
    var r := tasks + [Task(nextId, description, false)];
    assert forall i :: 0 <= i < |tasks| ==> r[i] == tasks[i];
  }

  /** Completing a task keeps the invariant. */
  lemma MarkKeepsInv(tasks: seq<Task>, nextId: int, i: nat)
    requires Inv(tasks, nextId) && i < |tasks|
    ensures Inv(MarkCompleted(tasks, i), nextId)
  {
  }

  /** Deleting a task keeps the invariant; the next id is not touched. */
  lemma RemoveKeepsInv(tasks: seq<Task>, nextId: int, i: nat)
    requires Inv(tasks, nextId) && i < |tasks|
    ensures Inv(RemoveAt(tasks, i), nextId)
  {
    var r := RemoveAt(tasks, i);
    forall a, b | 0 <= a < b < |r| ensures r[a].id < r[b].id {
      var a' := if a < i then a else a + 1;
      var b' := if b < i then b else b + 1;
      assert r[a] == tasks[a'] && r[b] == tasks[b'];
    }
  }

  /** After the deleted task is gone, no task carries its id any more. */
  lemma RemovedIdIsGone(tasks: seq<Task>, id: int, i: nat)
    requires IdsIncreasing(tasks)
    requires FirstMatch(tasks, id) == Some(i)
    ensures FirstMatch(RemoveAt(tasks, i), id) == None
  {
    var r := RemoveAt(tasks, i);
    forall j | 0 <= j < |r| ensures r[j].id != id {
      if j < i {
        assert r[j] == tasks[j];
      } else {
        assert r[j] == tasks[j + 1];
      }
    }
  }

  /** After completing, the same id is found completed, so completing it again
      is reported as already done. */
  lemma MarkedIdIsCompleted(tasks: seq<Task>, id: int, i: nat)
    requires FirstMatch(tasks, id) == Some(i)
    ensures FirstMatch(MarkCompleted(tasks, i), id) == Some(i)
    ensures IsCompletedId(MarkCompleted(tasks, i), id)
  {
    FirstMatchSeesOnlyIds(tasks, MarkCompleted(tasks, i), id);
  }

  lemma MarkNeverReverses(tasks: seq<Task>, i: nat)
    requires IdsIncreasing(tasks) && i < |tasks|
    ensures CompletionNeverReverses(tasks, MarkCompleted(tasks, i))
  {
  }

  lemma RemoveNeverReverses(tasks: seq<Task>, i: nat)
    requires IdsIncreasing(tasks) && i < |tasks|
    ensures CompletionNeverReverses(tasks, RemoveAt(tasks, i))
    ensures forall a, b | 0 <= a < |tasks| && 0 <= b < |RemoveAt(tasks, i)| && tasks[a].id == RemoveAt(tasks, i)[b].id ::
      RemoveAt(tasks, i)[b] == tasks[a]
  {
    var r := RemoveAt(tasks, i);
    forall a, b | 0 <= a < |tasks| && 0 <= b < |r| && tasks[a].id == r[b].id
      ensures r[b] == tasks[a]
    {
      var b' := if b < i then b else b + 1;
      assert r[b] == tasks[b'];
    }
  }

  // ---- The queries

  /** The pending view distributes over concatenation: filtering keeps each
      pending task, drops each completed one, and keeps list order. */
  lemma {:induction false} PendingAppend(a: seq<Task>, b: seq<Task>)
    ensures Pending(a + b) == Pending(a) + Pending(b)
  {
    if a == [] {
      assert a + b == b;
    } else {
      assert (a + b)[0] == a[0];
      assert (a + b)[1..] == a[1..] + b;
      PendingAppend(a[1..], b);
    }
  }

  /** A task is in the pending view exactly when it is in the list and not
      completed. */
  lemma {:induction false} PendingMembers(tasks: seq<Task>)
    ensures forall t :: t in Pending(tasks) <==> t in tasks && !t.completed
  {
    if tasks != [] {
      assert tasks == [tasks[0]] + tasks[1..];
      PendingMembers(tasks[1..]);
    }
  }

  /** The pending view lists tasks in increasing id order, i.e. in the order
      they were added. */
  lemma {:induction false} PendingKeepsOrder(tasks: seq<Task>)
    requires IdsIncreasing(tasks)
    ensures IdsIncreasing(Pending(tasks))
  {
    if tasks != [] {
      var rest := tasks[1..];
      assert IdsIncreasing(rest) by {
        forall i, j | 0 <= i < j < |rest| ensures rest[i].id < rest[j].id {
          assert rest[i] == tasks[i + 1] && rest[j] == tasks[j + 1];
        }
      }
      PendingKeepsOrder(rest);
      PendingMembers(rest);
      forall t | t in Pending(rest) ensures tasks[0].id < t.id {
        var k :| 0 <= k < |rest| && rest[k] == t;
        assert rest[k] == tasks[k + 1];
      }
    }
  }

  /** Appending a task adds one to the completed count exactly when it is
      completed. */
  lemma CompletedCountAppend(tasks: seq<Task>, t: Task)
    ensures CompletedCount(tasks + [t]) == CompletedCount(tasks) + (if t.completed then 1 else 0)
  {
    PendingAppend(tasks, [t]);
    PendingOne(t);
  }

  /** The completed count is the number of positions holding a completed
      task. */
  lemma {:induction false} CompletedCountCountsCompleted(tasks: seq<Task>)
    ensures CompletedCount(tasks) == |set k | 0 <= k < |tasks| && tasks[k].completed|
  {
    if tasks != [] {
      var n := |tasks| - 1;
      var front := tasks[..n];
      assert tasks == front + [tasks[n]];
      CompletedCountCountsCompleted(front);
      CompletedCountAppend(front, tasks[n]);
      var before := set k | 0 <= k < |front| && front[k].completed;
      var after := set k | 0 <= k < |tasks| && tasks[k].completed;
      if tasks[n].completed {
        assert after == before + {n};
      } else {
        assert after == before;
      }
    }
  }

  /** Adding a task appends it to the pending view and leaves the completed
      count as it was. */
  lemma PendingAfterAdd(tasks: seq<Task>, t: Task)
    requires !t.completed
    ensures Pending(tasks + [t]) == Pending(tasks) + [t]
    ensures CompletedCount(tasks + [t]) == CompletedCount(tasks)
  {
    PendingAppend(tasks, [t]);
    PendingOne(t);
  }

  /** The pending view of a list split around one task. */
  lemma PendingThree(front: seq<Task>, t: Task, back: seq<Task>)
    ensures Pending(front + [t] + back) == Pending(front) + Pending([t]) + Pending(back)
  {
    PendingAppend(front + [t], back);
    PendingAppend(front, [t]);
    var x, y, z := Pending(front), Pending([t]), Pending(back);
    assert Pending(front + [t] + back) == (x + y) + z;
  }

  lemma SplitAt(tasks: seq<Task>, i: nat)
    requires i < |tasks|
    ensures tasks == tasks[..i] + [tasks[i]] + tasks[i + 1..]
    ensures MarkCompleted(tasks, i) == tasks[..i] + [tasks[i].(completed := true)] + tasks[i + 1..]
  {
  }

  lemma PendingOne(t: Task)
    ensures Pending([t]) == if t.completed then [] else [t]
  {
    assert [t][1..] == [];
  }

  lemma PendingAroundOpen(tasks: seq<Task>, i: nat)
    requires i < |tasks| && !tasks[i].completed
    ensures Pending(tasks) == Pending(tasks[..i]) + [tasks[i]] + Pending(tasks[i + 1..])
  {
    SplitAt(tasks, i);
    PendingThree(tasks[..i], tasks[i], tasks[i + 1..]);
    PendingOne(tasks[i]);
  }

  lemma PendingAroundMarked(tasks: seq<Task>, i: nat)
    requires i < |tasks|
    ensures Pending(MarkCompleted(tasks, i)) == Pending(tasks[..i]) + Pending(tasks[i + 1..])
  {
    var t' := tasks[i].(completed := true);
    SplitAt(tasks, i);
    PendingThree(tasks[..i], t', tasks[i + 1..]);
    PendingOne(t');
  }

  /** Completing a pending task takes exactly that task out of the pending
      view and adds one to the completed count. */
  lemma PendingAfterComplete(tasks: seq<Task>, i: nat)
    requires i < |tasks| && !tasks[i].completed
    ensures Pending(tasks) == Pending(tasks[..i]) + [tasks[i]] + Pending(tasks[i + 1..])
    ensures Pending(MarkCompleted(tasks, i)) == Pending(tasks[..i]) + Pending(tasks[i + 1..])
    ensures CompletedCount(MarkCompleted(tasks, i)) == CompletedCount(tasks) + 1
  {
    PendingAroundOpen(tasks, i);
    PendingAroundMarked(tasks, i);
    var x, z := Pending(tasks[..i]), Pending(tasks[i + 1..]);
    assert |Pending(tasks)| == |x| + 1 + |z|;
    assert |Pending(MarkCompleted(tasks, i))| == |x| + |z|;
  }

  // ---- The identifier counter as written

  /** `nextId++` on a C# `int` in an unchecked context (the C# default): the
      result is the 32-bit two's-complement successor. */
  function IncrementUnchecked(n: int): (r: int)
    requires InInt32(n)
    ensures InInt32(r)
    ensures (r - (n + 1)) % 0x1_0000_0000 == 0
  {
    if n == Int32Max then Int32Min else n + 1
  }

  /** `AddTask` as written, with the unchecked counter: a blank description
      changes nothing; otherwise the open task with id `nextId` is appended
      and the counter takes its 32-bit successor. */
  function AddUnchecked(tasks: seq<Task>, nextId: int, description: string): (r: (seq<Task>, int))
    requires InInt32(nextId)
    ensures InInt32(r.1)
    ensures IsBlank(description) ==> r == (tasks, nextId)
    ensures !IsBlank(description) ==>
      && |r.0| == |tasks| + 1 && r.0[..|tasks|] == tasks
      && r.0[|tasks|] == Task(nextId, description, false)
      && (r.1 - (nextId + 1)) % 0x1_0000_0000 == 0
  {
    if IsBlank(description) then (tasks, nextId)
    else (tasks + [Task(nextId, description, false)], IncrementUnchecked(nextId))
  }

  /** Starting from an empty list whose counter has reached int.MaxValue
      (the invariant holds there), the first unchecked add issues
      int.MaxValue and leaves the counter below that issued id; the second
      issues int.MinValue, so ids are no longer increasing. */
  lemma UncheckedIdsWrap()
    ensures Inv([], Int32Max)
    ensures var s1 := AddUnchecked([], Int32Max, "a");
      && s1.0 == [Task(Int32Max, "a", false)]
      && s1.1 < Int32Max
      && !Inv(s1.0, s1.1)
    ensures var s1 := AddUnchecked([], Int32Max, "a");
      var s2 := AddUnchecked(s1.0, s1.1, "b");
      && s2.0 == [Task(Int32Max, "a", false), Task(Int32Min, "b", false)]
      && !IdsIncreasing(s2.0)
  {
    NotBlank("a");
    NotBlank("b");
    var s1 := AddUnchecked([], Int32Max, "a");
    assert s1.0 == [Task(Int32Max, "a", false)];
    var s2 := AddUnchecked(s1.0, s1.1, "b");
    assert s2.0 == [Task(Int32Max, "a", false), Task(Int32Min, "b", false)];
    assert s2.0[0].id > s2.0[1].id;
  }
}
