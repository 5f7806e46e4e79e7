/** Task identifiers and the three stages of a task's life. */
module Items {
  import opened Wrappers

  const I32Min: int := -0x8000_0000
  const I32Max: int := 0x7FFF_FFFF

  /** A Kotlin `Int`: the width of `TodoId`. */
  type Int32 = x: int | I32Min <= x <= I32Max

  /** `TodoId.next()`: the following id, with Kotlin's two's-complement
      wrap-around at the top of the `Int` range. */
  function Next(id: Int32): (r: Int32)
    ensures id < I32Max ==> r == id + 1
    ensures id == I32Max ==> r == I32Min
  {
    if id == I32Max then I32Min else id + 1
  }

  /** Below the top of the range, `Next` strictly increases. */
  lemma NextIncreases(a: Int32, b: Int32)
    requires a < b < I32Max
    ensures a < Next(a) < Next(b)
  {
  }

  /** An uninterpreted instant; the model only copies it. */
  type Instant = int

  /** The sealed `TodoItem` hierarchy: every stage carries the title and the
      creation instant. */
  datatype TodoItem =
    | Active(title: string, created: Instant)
    | Done(title: string, created: Instant)
    | Cancelled(title: string, created: Instant)

  /** `isActive()`: overridden to `true` in `Active` only. */
  predicate IsActive(item: TodoItem)
    ensures IsActive(item) <==> !(item.Done? || item.Cancelled?)
  {
    match item
    case Active(_, _) => true
    case _ => false
  }

  /** The `Done(todoItem)` constructor: keeps the fields of any item. */
  function AsDone(item: TodoItem): (r: TodoItem)
    ensures r.Done? && !IsActive(r)
    ensures r.title == item.title && r.created == item.created
  {
    Done(item.title, item.created)
  }

  /** The `Cancelled(todoItem)` constructor: keeps the fields of any item. */
  function AsCancelled(item: TodoItem): (r: TodoItem)
    ensures r.Cancelled? && !IsActive(r)
    ensures r.title == item.title && r.created == item.created
  {
    Cancelled(item.title, item.created)
  }

  /** `Active.done()`: declared on `Active` only. */
  function Complete(item: TodoItem): (r: TodoItem)
    requires IsActive(item)
    ensures r == AsDone(item) && r != item
  {
    AsDone(item)
  }

  /** `Active.cancel()`: declared on `Active` only. */
  function Cancel(item: TodoItem): (r: TodoItem)
    requires IsActive(item)
    ensures r == AsCancelled(item) && r != item
  {
    AsCancelled(item)
  }

  /** The two transition methods of the hierarchy. */
  datatype Transition = DoneStep | CancelStep

  /** The transition relation: a transition applies exactly where the
      hierarchy declares it, on `Active`; anywhere else there is no method. */
  function Apply(item: TodoItem, t: Transition): (r: Option<TodoItem>)
    ensures r.Some? <==> IsActive(item)
    ensures r.Some? ==> !IsActive(r.value)
    ensures r.Some? ==> r.value.title == item.title && r.value.created == item.created
    ensures r.Some? ==> (r.value.Done? <==> t == DoneStep) && (r.value.Cancelled? <==> t == CancelStep)
  {
    if !IsActive(item) then None
    else match t
      case DoneStep => Some(Complete(item))
      case CancelStep => Some(Cancel(item))
  }

  /** Applies transitions one after the other, stopping at the first that
      does not exist. */
  function Run(item: TodoItem, ts: seq<Transition>): Option<TodoItem>
    decreases |ts|
  {
    if ts == [] then Some(item)
    else match Apply(item, ts[0])
      case None => None
      case Some(next) => Run(next, ts[1..])
  }

  /** From a terminal stage no sequence of transitions leads anywhere. */
  lemma TerminalIsAbsorbing(item: TodoItem, ts: seq<Transition>)
    requires !IsActive(item) && ts != []
    ensures Run(item, ts) == None
  {
  }

  /** Along any sequence of transitions, at most one succeeds, and a task that
      has left `Active` never returns to it: a run of one or more transitions
      either fails or ends in a terminal stage with the original fields. */
  lemma AtMostOneTransition(item: TodoItem, ts: seq<Transition>)
    requires ts != []
    ensures Run(item, ts).Some? <==> IsActive(item) && |ts| == 1
    ensures Run(item, ts).Some? ==>
      !IsActive(Run(item, ts).value) &&
      Run(item, ts).value.title == item.title && Run(item, ts).value.created == item.created
  {
  }
}
