/**
 * A file-system change waiting in the queue: what happened, and the action
 * to run for it. The action is a closure in the program; here it is any
 * value of type `A` that the owner of the queue knows how to run.
 */
module ChangeEvent {
  import opened Wrappers

  /** The four kinds of change the compiler reacts to. */
  datatype EventKind = Add | Change | Unlink | UnlinkDir

  /** Kind and action are fixed when the event is built and never reassigned. */
  datatype ChangeEvent<A> = ChangeEvent(kind: EventKind, action: A)

  /** The watcher's name for each kind. */
  function KindName(k: EventKind): string
  {
    match k
    case Add => "add"
    case Change => "change"
    case Unlink => "unlink"
    case UnlinkDir => "unlinkDir"
  }

  /** The kind a watcher event name stands for; any other name (`addDir`, `error`, ...) has none. */
  function KindOf(name: string): (k: Option<EventKind>)
    ensures k.Some? ==> KindName(k.value) == name
  {
    if name == "add" then Some(Add)
    else if name == "change" then Some(Change)
    else if name == "unlink" then Some(Unlink)
    else if name == "unlinkDir" then Some(UnlinkDir)
    else None
  }

  /** Every kind is named by exactly one name, and reading the name gives the kind back. */
  lemma KindNameRoundTrip(k: EventKind)
    ensures KindOf(KindName(k)) == Some(k)
  {
  }

  /**
   * `process()`: runs the stored action once and settles as it settles.
   * There is no catch, so a failing action makes `process` fail with the
   * action's own error.
   */
  function Process<A, E>(e: ChangeEvent<A>, run: A -> Outcome<E>): (r: Outcome<E>)
    ensures r.Resolved? <==> run(e.action).Resolved?
    ensures r.Rejected? ==> r.error == run(e.action).error
  {
    run(e.action)
  }
}
