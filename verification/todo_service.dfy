/** `TodoService`: the in-memory part (the `state` cell, `cancelItem`,
    `findDone`, `findCancelled`) and the pure steps of the database-backed
    `findItem` and `markDone`. The two parts share no data. */
module Service {
  import opened Wrappers
  import opened Errors
  import opened Items
  import opened Registry

  /** A row of the all-items view: the active record's fields and the done
      marker column, `None` when the column is null. */
  datatype ViewRecord = ViewRecord(id: int, title: string, created: Instant, done: Option<int>)

  /** The mapping inside `findItem`: an `Active` task from the record's
      fields, turned `Done` when the done marker is present. */
  function ItemOfRecord(rec: ViewRecord): (item: TodoItem)
    ensures item.title == rec.title && item.created == rec.created
    ensures item.Done? <==> rec.done.Some?
    ensures IsActive(item) <==> rec.done.None?
    ensures !item.Cancelled?
  {
    var active := Active(rec.title, rec.created);
    if rec.done.Some? then AsDone(active) else active
  }

  /** `findItem` after the view lookup: no row gives no task (not an error). */
  function FindItem(row: Option<ViewRecord>): (r: Option<TodoItem>)
    ensures r.Some? <==> row.Some?
    ensures r.Some? ==> r.value == ItemOfRecord(row.value)
  {
    match row
    case None => None
    case Some(rec) => Some(ItemOfRecord(rec))
  }

  /** What the database-backed `markDone` yields, and whether it inserted a
      done row. */
  datatype MarkDoneStep = MarkDoneStep(result: Either<TodoError, TodoItem>, insertsDoneRow: bool)

  /** `markDone` on the database: `lookup` is the outcome of the view query
      and `insertFailure` the failure text, if any, of the insert transaction;
      every transaction failure reaches the caller as `InternalError` with
      that text. A failed lookup is passed on; no row gives `NotFound` with
      no insert; a row found leads to an insert and, if that succeeds, to
      `Done` of the task found, whatever its stage. `InvalidState` is never
      returned. */
  function MarkDoneInDb(lookup: Either<string, Option<ViewRecord>>, insertFailure: Option<string>): (r: MarkDoneStep)
    ensures lookup.Left? ==> r == MarkDoneStep(Left(InternalError(lookup.left)), false)
    ensures lookup == Right(None) ==> r == MarkDoneStep(Left(NotFound), false)
    ensures r.insertsDoneRow <==> lookup.Right? && lookup.right.Some?
    ensures r.insertsDoneRow && insertFailure.Some? ==> r.result == Left(InternalError(insertFailure.value))
    ensures r.insertsDoneRow && insertFailure.None? ==>
      && r.result.Right? && r.result.right.Done?
      && r.result.right.title == lookup.right.value.title
      && r.result.right.created == lookup.right.value.created
    ensures r.result != Left(InvalidState)
  {
    match lookup
    case Left(msg) => MarkDoneStep(Left(InternalError(msg)), false)
    case Right(row) =>
      match FindItem(row)
      case None => MarkDoneStep(Left(NotFound), false)
      case Some(item) =>
        match insertFailure
        case Some(msg) => MarkDoneStep(Left(InternalError(msg)), true)
        case None => MarkDoneStep(Right(AsDone(item)), true)
  }

  /** A second `markDone` on the database, after the first inserted a done
      row, does not report `InvalidState`: the row now reads as `Done`, and
      the outcome is either that same `Done` task again or the insert
      transaction's failure. */
  lemma SecondMarkDoneInDbNotInvalidState(rec: ViewRecord, insertFailure: Option<string>)
    requires rec.done.Some?
    ensures var r := MarkDoneInDb(Right(Some(rec)), insertFailure);
      && r.insertsDoneRow
      && r.result != Left(InvalidState)
      && (insertFailure.None? ==> r.result == Right(ItemOfRecord(rec)))
  {
  }

  /** The entries of a state whose task is `Done`. */
  function DoneEntries(s: TodoState): (done: map<Int32, TodoItem>)
    ensures forall id :: id in done <==> id in s.items && s.items[id].Done?
    ensures forall id :: id in done ==> done[id] == s.items[id]
  {
    map id | id in s.items && s.items[id].Done? :: s.items[id]
  }

  /** The entries of a state whose task is `Cancelled`. */
  function CancelledEntries(s: TodoState): (cancelled: map<Int32, TodoItem>)
    ensures forall id :: id in cancelled <==> id in s.items && s.items[id].Cancelled?
    ensures forall id :: id in cancelled ==> cancelled[id] == s.items[id]
  {
    map id | id in s.items && s.items[id].Cancelled? :: s.items[id]
  }

  /** No id is both done and cancelled, and no active task is in either. */
  lemma DoneAndCancelledDisjoint(s: TodoState)
    ensures DoneEntries(s).Keys !! CancelledEntries(s).Keys
    ensures forall id :: id in s.items && IsActive(s.items[id]) ==>
      id !in DoneEntries(s) && id !in CancelledEntries(s)
  {
  }

  /** A successful cancellation moves the id into the cancelled entries and
      leaves the done entries as they were. */
  lemma CancelMovesToCancelled(s: TodoState, id: Int32)
    requires MarkCancelled(s, id).1.Right?
    ensures var s' := MarkCancelled(s, id).0;
      && CancelledEntries(s') == CancelledEntries(s)[id := s'.items[id]]
      && DoneEntries(s') == DoneEntries(s)
  {
  }

  class TodoService {
    /** The `AtomicRef<TodoState>` cell, replaced in one step. */
    var state: TodoState

    ghost predicate Valid()
      reads this
    {
      Registry.Valid(state)
    }

    /** A new service holds the default, empty state. */
    constructor ()
      ensures Valid() && state == Empty()
    {
      state := Empty();
    }

    /** `cancelItem`: swaps the state for the first component of
        `markCancelled` and returns the second; on failure the state is the
        same as before. */
    method CancelItem(id: Int32) returns (r: Either<TodoError, TodoItem>)
      requires Valid()
      modifies this
      ensures Valid()
      ensures (state, r) == MarkCancelled(old(state), id)
      ensures r.Left? ==> state == old(state) && (r.left == NotFound || r.left == InvalidState)
      ensures r.Right? ==> state.items.Keys == old(state).items.Keys && CancelledEntries(state)[id] == r.right
    {
      MarkCancelledKeepsValid(state, id);
      var (next, result) := MarkCancelled(state, id);
      state := next;
      r := result;
    }

    /** `findDone`: the done entries of one snapshot of the state. */
    method FindDone() returns (done: map<Int32, TodoItem>)
      ensures forall id :: id in done <==> GetItem(state, id).Some? && GetItem(state, id).value.Done?
      ensures forall id :: id in done ==> Some(done[id]) == GetItem(state, id)
    {
      var snapshot := state;
      done := DoneEntries(snapshot);
    }

    /** `findCancelled`: the cancelled entries of one snapshot of the state. */
    method FindCancelled() returns (cancelled: map<Int32, TodoItem>)
      ensures forall id :: id in cancelled <==> GetItem(state, id).Some? && GetItem(state, id).value.Cancelled?
      ensures forall id :: id in cancelled ==> Some(cancelled[id]) == GetItem(state, id)
    {
      var snapshot := state;
      cancelled := CancelledEntries(snapshot);
    }
  }
}
