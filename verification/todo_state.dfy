/** The in-memory registry: an immutable value holding the next id to issue
    and the map from id to task. Every operation returns a new state together
    with its result and leaves its argument as it was. */
module Registry {
  import opened Wrappers
  import opened Errors
  import opened Items

  datatype TodoState = TodoState(nextId: Int32, items: map<Int32, TodoItem>)

  /** The result of an operation that may fail. */
  type Outcome = Either<TodoError, TodoItem>

  /** The registry's invariant: ids start at 1 and every stored id was issued
      before the current counter. */
  predicate Valid(s: TodoState) {
    && 1 <= s.nextId
    && forall id :: id in s.items ==> 1 <= id < s.nextId
  }

  /** `TodoState()`: the default state, counter at 1 and no tasks. */
  function Empty(): (s: TodoState)
    ensures Valid(s) && s.nextId == 1 && |s.items| == 0
  {
    TodoState(1, map[])
  }

  /** `getItem`: the task stored under `id`, if any. */
  function GetItem(s: TodoState, id: Int32): (r: Option<TodoItem>)
    ensures r.Some? <==> id in s.items
    ensures r.Some? ==> r.value == s.items[id]
  {
    if id in s.items then Some(s.items[id]) else None
  }

  /** `getAll`: every `(id, task)` entry; lookups in it agree with `GetItem`. */
  function GetAll(s: TodoState): (all: map<Int32, TodoItem>)
    ensures forall id :: GetItem(s, id) == (if id in all then Some(all[id]) else None)
  {
    s.items
  }

  /** `addItem`: stores `item` under the current counter, returns that id and
      advances the counter with `Next`. */
  function AddItem(s: TodoState, item: TodoItem): (r: (TodoState, Int32))
    ensures r.1 == s.nextId && r.0.nextId == Next(r.1)
    ensures GetItem(r.0, r.1) == Some(item)
    ensures forall id :: id != r.1 ==> GetItem(r.0, id) == GetItem(s, id)
  {
    var id := s.nextId;
    (TodoState(Next(id), s.items[id := item]), id)
  }

  /** `changeItem`: looks `id` up and applies `change` to the task found.
      A missing id gives `NotFound` and a failing change gives its error, in
      both cases with the state untouched; otherwise the entry is replaced by
      the changed task, which is also returned. */
  function ChangeItem(s: TodoState, id: Int32, change: TodoItem -> Outcome): (r: (TodoState, Outcome))
    ensures id !in s.items ==> r == (s, Left(NotFound))
    ensures id in s.items && change(s.items[id]).Left? ==> r == (s, change(s.items[id]))
    ensures id in s.items && change(s.items[id]).Right? ==>
      r.1 == change(s.items[id]) && r.0 == TodoState(s.nextId, s.items[id := r.1.right])
  {
    match GetItem(s, id)
    case None => (s, Left(NotFound))
    case Some(item) =>
      match change(item)
      case Left(e) => (s, Left(e))
      case Right(changed) => (TodoState(s.nextId, s.items[id := changed]), Right(changed))
  }

  /** The change `markDone` passes to `changeItem`. */
  function DoneChange(item: TodoItem): Outcome {
    if IsActive(item) then Right(Complete(item)) else Left(InvalidState)
  }

  /** The change `markCancelled` passes to `changeItem`. */
  function CancelChange(item: TodoItem): Outcome {
    if IsActive(item) then Right(Cancel(item)) else Left(InvalidState)
  }

  /** `markDone`: `NotFound` for a missing id, `InvalidState` for a task that
      is no longer active (state unchanged in both cases); otherwise the task
      becomes `Done` with its title and creation instant, and nothing else in
      the state changes. */
  function MarkDone(s: TodoState, id: Int32): (r: (TodoState, Outcome))
    ensures GetItem(s, id).None? ==> r == (s, Left(NotFound))
    ensures GetItem(s, id).Some? && !IsActive(s.items[id]) ==> r == (s, Left(InvalidState))
    ensures GetItem(s, id).Some? && IsActive(s.items[id]) ==>
      && r.1 == Right(Done(s.items[id].title, s.items[id].created))
      && GetItem(r.0, id) == Some(r.1.right)
      && r.0.nextId == s.nextId
      && forall other :: other != id ==> GetItem(r.0, other) == GetItem(s, other)
  {
    ChangeItem(s, id, DoneChange)
  }

  /** `markCancelled`: as `MarkDone`, with `Cancelled` as the new stage. */
  function MarkCancelled(s: TodoState, id: Int32): (r: (TodoState, Outcome))
    ensures GetItem(s, id).None? ==> r == (s, Left(NotFound))
    ensures GetItem(s, id).Some? && !IsActive(s.items[id]) ==> r == (s, Left(InvalidState))
    ensures GetItem(s, id).Some? && IsActive(s.items[id]) ==>
      && r.1 == Right(Cancelled(s.items[id].title, s.items[id].created))
      && GetItem(r.0, id) == Some(r.1.right)
      && r.0.nextId == s.nextId
      && forall other :: other != id ==> GetItem(r.0, other) == GetItem(s, other)
  {
    ChangeItem(s, id, CancelChange)
  }

  /** While the counter is below the top of the `Int` range, `addItem` keeps
      the invariant, stores under a fresh id and so never overwrites a task. */
  lemma AddItemKeepsValid(s: TodoState, item: TodoItem)
    requires Valid(s) && s.nextId < I32Max
    ensures s.nextId !in s.items
    ensures Valid(AddItem(s, item).0)
    ensures |AddItem(s, item).0.items| == |s.items| + 1
  {
  }

  /** At the top of the `Int` range the counter wraps to the most negative
      id and the invariant no longer holds. */
  lemma AddItemWrapsAtTop(s: TodoState, item: TodoItem)
    requires s.nextId == I32Max
    ensures AddItem(s, item).0.nextId == I32Min
    ensures !Valid(AddItem(s, item).0)
  {
  }

  lemma MarkDoneKeepsValid(s: TodoState, id: Int32)
    requires Valid(s)
    ensures Valid(MarkDone(s, id).0)
  {
  }

  lemma MarkCancelledKeepsValid(s: TodoState, id: Int32)
    requires Valid(s)
    ensures Valid(MarkCancelled(s, id).0)
  {
  }

  /** Terminal absorption: once `markDone` has succeeded for `id`, a second
      `markDone` and a `markCancelled` of it both fail with `InvalidState`
      and change nothing. */
  lemma DoneIsTerminal(s: TodoState, id: Int32)
    requires MarkDone(s, id).1.Right?
    ensures var s' := MarkDone(s, id).0;
      && MarkDone(s', id) == (s', Left(InvalidState))
      && MarkCancelled(s', id) == (s', Left(InvalidState))
  {
  }

  /** Terminal absorption after a successful `markCancelled`. */
  lemma CancelledIsTerminal(s: TodoState, id: Int32)
    requires MarkCancelled(s, id).1.Right?
    ensures var s' := MarkCancelled(s, id).0;
      && MarkDone(s', id) == (s', Left(InvalidState))
      && MarkCancelled(s', id) == (s', Left(InvalidState))
  {
  }

  /** Adds the tasks one after the other, collecting the ids issued. */
  function AddAll(s: TodoState, items: seq<TodoItem>): (TodoState, seq<Int32>)
    decreases |items|
  {
    if items == [] then (s, [])
    else
      var (s1, id) := AddItem(s, items[0]);
      var (s2, ids) := AddAll(s1, items[1..]);
      (s2, [id] + ids)
  }

  /** Successive adds issue consecutive ids from the counter on, each task
      can be found under its id, the tasks already there stay, and no other
      id is used. */
  lemma {:induction false} AddAllIssuesConsecutiveIds(s: TodoState, items: seq<TodoItem>)
    requires Valid(s) && s.nextId + |items| <= I32Max
    ensures var (s', ids) := AddAll(s, items);
      && Valid(s')
      && |ids| == |items|
      && s'.nextId == s.nextId + |items|
      && (forall i :: 0 <= i < |ids| ==> ids[i] == s.nextId + i)
      && (forall i :: 0 <= i < |ids| ==> GetItem(s', ids[i]) == Some(items[i]))
      && (forall id :: id in s.items ==> GetItem(s', id) == GetItem(s, id))
      && (forall id :: id in s'.items <==> id in s.items || s.nextId <= id < s'.nextId)
    decreases |items|
  {
    if items != [] {
      var (s1, id) := AddItem(s, items[0]);
      AddItemKeepsValid(s, items[0]);
      AddAllIssuesConsecutiveIds(s1, items[1..]);
      var (s2, ids) := AddAll(s1, items[1..]);
      var all := [id] + ids;
      assert AddAll(s, items) == (s2, all);
      forall i | 0 <= i < |all|
        ensures GetItem(s2, all[i]) == Some(items[i])
      {
        if i > 0 {
          assert all[i] == ids[i - 1] && items[i] == items[1..][i - 1];
        }
      }
    }
  }

  /** From the empty state, `n` adds issue exactly the ids `1..n`, each once,
      and those are the only ids stored. */
  lemma FromEmptyIssuesOneToN(items: seq<TodoItem>)
    requires |items| < I32Max
    ensures var (s', ids) := AddAll(Empty(), items);
      && |ids| == |items|
      && (forall i :: 0 <= i < |ids| ==> ids[i] == i + 1)
      && (forall i, j :: 0 <= i < j < |ids| ==> ids[i] != ids[j])
      && (forall id :: id in s'.items <==> 1 <= id <= |items|)
  {
    AddAllIssuesConsecutiveIds(Empty(), items);
  }

  /** Adding one task to the empty state gives it id 1; marking it done
      returns and stores `Done` with its title, after which it is the only
      entry and is not active. */
  lemma AddThenMarkDone(title: string, now: Instant)
    ensures var (s1, id) := AddItem(Empty(), Active(title, now));
      && id == 1
      && MarkDone(s1, id).1 == Right(Done(title, now))
      && MarkDone(s1, id).0.items == map[1 := Done(title, now)]
  {
  }
}
