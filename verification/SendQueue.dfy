/** The outgoing queue of one websocket session: `on_send` and `on_write`. */
module SendQueue {
  import opened Json

  datatype WriteResult = Ok | Closed | Error

  /** `queue` as in the session; `inFlight` is the message of the asynchronous write that has been
      started and not completed; `wire` holds the messages of the completed writes, in order. */
  datatype Queue<M> = Queue(queue: seq<M>, inFlight: Option<M>, wire: seq<M>)

  function Empty<M>(): Queue<M> {
    Queue([], None, [])
  }

  /** `on_send`: always enqueue; start a write only when nothing else is queued. */
  function Enqueued<M>(q: Queue<M>, m: M): Queue<M> {
    var queued := q.(queue := q.queue + [m]);
    if |queued.queue| > 1 then queued else queued.(inFlight := Some(queued.queue[0]))
  }

  /** `on_write`, the completion handler of the write in flight. After a failure nothing is erased or started. */
  function Completed<M>(q: Queue<M>, r: WriteResult): Queue<M>
    requires q.inFlight.Some? && q.queue != []
  {
    if !r.Ok? then q.(inFlight := None)
    else
      var rest := q.queue[1..];
      Queue(rest, if rest == [] then None else Some(rest[0]), q.wire + [q.inFlight.value])
  }

  // ---- Runs ----

  datatype Event<M> = Send(m: M) | Complete(r: WriteResult)

  /** A completion handler runs only for a write that was started. */
  predicate Enabled<M>(q: Queue<M>, e: Event<M>) {
    e.Complete? ==> q.inFlight.Some? && q.queue != []
  }

  function Step<M>(q: Queue<M>, e: Event<M>): Queue<M>
    requires Enabled(q, e)
  {
    match e
    case Send(m) => Enqueued(q, m)
    case Complete(r) => Completed(q, r)
  }

  /** The state after a run from the empty queue; None when the run is impossible. */
  function After<M>(run: seq<Event<M>>): Option<Queue<M>> {
    if run == [] then Some(Empty())
    else
      match After(run[..|run| - 1])
      case None => None
      case Some(q) => var e := run[|run| - 1]; if Enabled(q, e) then Some(Step(q, e)) else None
  }

  /** The messages given to `on_send`, in order. */
  function Accepted<M>(run: seq<Event<M>>): seq<M> {
    if run == [] then []
    else Accepted(run[..|run| - 1]) + (if run[|run| - 1].Send? then [run[|run| - 1].m] else [])
  }

  predicate HasFailed<M>(run: seq<Event<M>>) {
    exists i :: 0 <= i < |run| && run[i].Complete? && !run[i].r.Ok?
  }

  /** The invariant that ties a queue to the messages it accepted and to whether a write failed. */
  ghost predicate Consistent<M>(q: Queue<M>, accepted: seq<M>, failed: bool) {
    && q.wire + q.queue == accepted
    && (!failed ==> q.inFlight == if q.queue == [] then None else Some(q.queue[0]))
    && (failed ==> q.inFlight == None && q.queue != [])
  }

  /** The queue is a FIFO channel: written messages, then queued ones, are the accepted ones in order;
      until a failure the queue is non-empty exactly when the write of its front is in flight. */
  lemma {:induction false} QueueIsFifo<M>(run: seq<Event<M>>)
    requires After(run).Some?
    ensures Consistent(After(run).value, Accepted(run), HasFailed(run))
  {
    if run != [] {
      var before, e := run[..|run| - 1], run[|run| - 1];
      QueueIsFifo(before);
      var q := After(before).value;
      StepKeepsConsistent(q, Accepted(before), HasFailed(before), e);
      FailedSplit(before, e);
      assert run == before + [e];
    }
  }

  lemma FailedSplit<M>(before: seq<Event<M>>, e: Event<M>)
    ensures HasFailed(before + [e]) == (HasFailed(before) || (e.Complete? && !e.r.Ok?))
  {
    var run := before + [e];
    if HasFailed(before) {
      var i :| 0 <= i < |before| && before[i].Complete? && !before[i].r.Ok?;
      assert run[i] == before[i];
    }
    if e.Complete? && !e.r.Ok? { assert run[|before|] == e; }
  }

  lemma StepKeepsConsistent<M>(q: Queue<M>, accepted: seq<M>, failed: bool, e: Event<M>)
    requires Consistent(q, accepted, failed) && Enabled(q, e)
    ensures Consistent(Step(q, e), accepted + (if e.Send? then [e.m] else []), failed || (e.Complete? && !e.r.Ok?))
  {
    match e
    case Send(m) =>
      assert q.wire + (q.queue + [m]) == accepted + [m];
    case Complete(r) =>
      assert accepted + [] == accepted;
      if r.Ok? {
        assert q.queue == [q.queue[0]] + q.queue[1..];
        assert q.wire + [q.queue[0]] + q.queue[1..] == q.wire + q.queue;
      }
  }

  /** Once a write has failed, no write is ever started again, so the wire never grows. */
  lemma {:induction false} NoWriteAfterFailure<M>(run: seq<Event<M>>, more: seq<Event<M>>)
    requires After(run + more).Some? && HasFailed(run)
    ensures After(run).Some?
    ensures After(run + more).value.inFlight == None
    ensures After(run + more).value.wire == After(run).value.wire
    decreases |more|
  {
    if more == [] {
      assert run + more == run;
      QueueIsFifo(run);
    } else {
      var init, e := more[..|more| - 1], more[|more| - 1];
      assert (run + more)[..|run + more| - 1] == run + init;
      NoWriteAfterFailure(run, init);
      var q := After(run + init).value;
      QueueIsFifo(run + init);
      assert HasFailed(run + init) by {
        var i :| 0 <= i < |run| && run[i].Complete? && !run[i].r.Ok?;
        assert (run + init)[i] == run[i];
      }
      assert e.Send?;
    }
  }

  /** The writes of the run that completed without an error. */
  function Successes<M>(run: seq<Event<M>>): nat {
    if run == [] then 0 else Successes(run[..|run| - 1]) + if run[|run| - 1] == Complete(Ok) then 1 else 0
  }

  /** Progress: the wire holds exactly as many messages as writes have succeeded, the first ones accepted. */
  lemma {:induction false} WireIsSuccesses<M>(run: seq<Event<M>>)
    requires After(run).Some?
    ensures var wire := After(run).value.wire;
      |wire| == Successes(run) <= |Accepted(run)| && wire == Accepted(run)[..Successes(run)]
  {
    QueueIsFifo(run);
    if run != [] {
      WireIsSuccesses(run[..|run| - 1]);
    }
  }

  /** A successful completion moves the message in flight from the front of the queue to the wire, and puts
      the new front in flight; a failed one moves nothing. */
  lemma CompletionMovesOne<M>(run: seq<Event<M>>, r: WriteResult)
    requires After(run + [Complete(r)]).Some?
    ensures After(run).Some? && After(run).value.inFlight.Some?
    ensures var q, next := After(run).value, After(run + [Complete(r)]).value;
      if r.Ok? then
        q.queue == [q.inFlight.value] + next.queue && next.wire == q.wire + [q.inFlight.value] &&
        next.inFlight == if next.queue == [] then None else Some(next.queue[0])
      else next.queue == q.queue && next.wire == q.wire && next.inFlight == None
  {
    var longer := run + [Complete(r)];
    assert longer[..|longer| - 1] == run;
    QueueIsFifo(run);
    var q := After(run).value;
    assert q.queue == [q.queue[0]] + q.queue[1..];
  }

  // ---- The session object ----

  class WebsocketSession<M> {
    var queue: seq<M>
    var inFlight: Option<M>  // what the started asynchronous write is sending
    ghost var wire: seq<M>   // what completed writes have sent

    ghost function State(): Queue<M>
      reads this
    {
      Queue(queue, inFlight, wire)
    }

    /** The write in flight, if any, is that of the front of the queue. */
    ghost predicate Valid()
      reads this
    {
      (inFlight.Some? ==> queue != [] && inFlight == Some(queue[0])) && (queue == [] ==> inFlight == None)
    }

    constructor ()
      ensures Valid() && State() == Empty()
    {
      queue, inFlight, wire := [], None, [];
    }

    /** One write at a time. */
    method AsyncWrite(m: M)
      requires inFlight == None
      modifies this`inFlight
      ensures inFlight == Some(m)
    {
      inFlight := Some(m);
    }

    method OnSend(m: M)
      requires Valid()
      modifies this
      ensures Valid() && State() == Enqueued(old(State()), m)
      ensures queue == old(queue) + [m] && wire == old(wire)
      ensures inFlight == if old(queue) == [] then Some(m) else old(inFlight)
    {
      queue := queue + [m];
      if |queue| > 1 {
        return;
      }
      AsyncWrite(queue[0]);
    }

    method OnWrite(r: WriteResult)
      requires Valid() && inFlight.Some?
      modifies this
      ensures Valid() && State() == Completed(old(State()), r)
      ensures r.Ok? ==> old(queue) == [old(queue)[0]] + queue && wire == old(wire) + [old(queue)[0]]
      ensures r.Ok? ==> inFlight == if queue == [] then None else Some(queue[0])
      ensures !r.Ok? ==> queue == old(queue) && wire == old(wire) && inFlight == None
    {
      var sent := inFlight.value;
      inFlight := None;
      if r.Closed? || r.Error? {
        return;
      }
      wire := wire + [sent];
      queue := queue[1..];
      if queue != [] {
        AsyncWrite(queue[0]);
      }
    }
  }
}
