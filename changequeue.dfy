/**
 * The change queue: events are pushed as the watcher reports them, and a
 * timer takes them off the front one at a time, never starting the next
 * before the one in flight has settled.
 *
 * The timer body is the explicit step `Tick`; the settling of the event in
 * flight (the `finally` of its promise) is the explicit step `Settle`.
 */
module ChangeQueue {
  import opened Wrappers
  import opened ChangeEvent

  /** The queue's state: pending events, whether one is in flight, whether the timer is set. */
  datatype QueueState<A> = QueueState(queue: seq<ChangeEvent<A>>, processing: bool, armed: bool)

  /** A new queue: empty, idle, and its timer already started. */
  function Started<A>(): QueueState<A>
  {
    QueueState([], false, true)
  }

  /** `push(event)`: the event joins at the tail. */
  function Pushed<A>(q: QueueState<A>, e: ChangeEvent<A>): QueueState<A>
  {
    q.(queue := q.queue + [e])
  }

  /** The timer body takes an event only when it is set, idle, and something is waiting. */
  predicate Fires<A>(q: QueueState<A>)
  {
    q.armed && !q.processing && |q.queue| > 0
  }

  /** One run of the timer body: the new state and the event it started, if any. */
  function Ticked<A>(q: QueueState<A>): (r: (QueueState<A>, Option<ChangeEvent<A>>))
    ensures r.1.Some? <==> Fires(q)
    ensures Fires(q) ==> r.1.value == q.queue[0] && [r.1.value] + r.0.queue == q.queue && r.0.processing
    ensures !Fires(q) ==> r.0 == q
  {
    if Fires(q) then (q.(queue := q.queue[1..], processing := true), Some(q.queue[0]))
    else (q, None)
  }

  /** The event in flight has settled, whether it resolved or rejected; it is not queued again. */
  function Settled<A>(q: QueueState<A>): QueueState<A>
  {
    q.(processing := false)
  }

  /** `stop()`: the timer is cleared; pending events stay where they are. */
  function Stopped<A>(q: QueueState<A>): QueueState<A>
  {
    q.(armed := false)
  }

  /** What can happen to a queue, one step at a time. */
  datatype Step<A> = PushStep(e: ChangeEvent<A>) | TickStep | SettleStep | StopStep

  /** The outcome of a sequence of steps from a new queue. */
  datatype Trace<A> = Trace(state: QueueState<A>, dispatched: seq<ChangeEvent<A>>, settled: nat)

  /** A settle step only exists for an event in flight; without one it is no step at all. */
  function Apply<A>(t: Trace<A>, s: Step<A>): Trace<A>
  {
    match s
    case PushStep(e) => t.(state := Pushed(t.state, e))
    case TickStep =>
      var (q, started) := Ticked(t.state);
      if started.Some? then Trace(q, t.dispatched + [started.value], t.settled) else t.(state := q)
    case SettleStep =>
      if t.state.processing then Trace(Settled(t.state), t.dispatched, t.settled + 1) else t
    case StopStep => t.(state := Stopped(t.state))
  }

  function Run<A>(steps: seq<Step<A>>): Trace<A>
  {
    if steps == [] then Trace(Started(), [], 0)
    else Apply(Run(steps[..|steps| - 1]), steps[|steps| - 1])
  }

  /** Every event pushed, in push order. */
  function PushedEvents<A>(steps: seq<Step<A>>): seq<ChangeEvent<A>>
  {
    if steps == [] then []
    else PushedEvents(steps[..|steps| - 1]) + (if steps[|steps| - 1].PushStep? then [steps[|steps| - 1].e] else [])
  }

  /**
   * First in, first out: the events started so far, followed by those still
   * waiting, are exactly the events pushed, in push order.
   */
  lemma {:induction false} RunFifo<A>(steps: seq<Step<A>>)
    ensures Run(steps).dispatched + Run(steps).state.queue == PushedEvents(steps)
  {
    if steps != [] {
      var init := steps[..|steps| - 1];
      RunFifo(init);
      var t := Run(init);
      match steps[|steps| - 1]
      case PushStep(e) =>
        assert t.dispatched + (t.state.queue + [e]) == (t.dispatched + t.state.queue) + [e];
      case TickStep =>
        if Fires(t.state) {
          var q := Ticked(t.state).0;
          assert t.state.queue == [t.state.queue[0]] + q.queue;
          assert (t.dispatched + [t.state.queue[0]]) + q.queue == t.dispatched + t.state.queue;
        }
      case SettleStep =>
      case StopStep =>
    }
  }

  /**
   * At most one event is in flight, and `processing` says exactly whether
   * one is: every event started has settled except possibly the last.
   */
  lemma {:induction false} RunAtMostOne<A>(steps: seq<Step<A>>)
    ensures Run(steps).settled <= |Run(steps).dispatched| <= Run(steps).settled + 1
    ensures Run(steps).state.processing <==> |Run(steps).dispatched| == Run(steps).settled + 1
  {
    if steps != [] {
      RunAtMostOne(steps[..|steps| - 1]);
    }
  }

  /** Once stopped, the queue stays stopped and starts no more events, whatever is pushed. */
  lemma {:induction false} StoppedStaysIdle<A>(steps: seq<Step<A>>, more: seq<Step<A>>)
    requires !Run(steps).state.armed
    ensures !Run(steps + more).state.armed
    ensures Run(steps + more).dispatched == Run(steps).dispatched
  {
    if more != [] {
      var init := more[..|more| - 1];
      StoppedStaysIdle(steps, init);
      assert (steps + more)[..|steps + more| - 1] == steps + init;
    } else {
      assert steps + more == steps;
    }
  }

  /** The queue the program keeps: the three fields of `QueueState`, updated in place. */
  class ChangeQueue<A> {
    var queue: seq<ChangeEvent<A>>
    var processing: bool
    var armed: bool

    function State(): QueueState<A>
      reads this
    {
      QueueState(queue, processing, armed)
    }

    /** Building a queue starts its timer. */
    constructor()
      ensures State() == Started()
    {
      queue := [];
      processing := false;
      armed := true;
    }

    method Push(e: ChangeEvent<A>)
      modifies this
      ensures State() == Pushed(old(State()), e)
    {
      queue := queue + [e];
    }

    /** The timer fires once; returns the event it started, which the caller runs. */
    method Tick() returns (started: Option<ChangeEvent<A>>)
      modifies this
      ensures (State(), started) == Ticked(old(State()))
    {
      started := None;
      if armed && !processing && |queue| > 0 {
        processing := true;
        started := Some(queue[0]);
        queue := queue[1..];
      }
    }

    /** The `finally` of the event in flight. */
    method Settle()
      modifies this
      ensures State() == Settled(old(State()))
    {
      processing := false;
    }

    method Stop()
      modifies this
      ensures State() == Stopped(old(State()))
    {
      if armed {
        armed := false;
      }
    }
  }
}
