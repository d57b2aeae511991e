/**
 The write side of a socket shared by sender threads and the completion handler
 (module/networking_websocket/src/BeastSocket.cpp:60-78, 99-118, 151-161): a queue and a buffer
 under a mutex, and one atomic flag that says whether nobody owns the right to write.

 Each step below is one critical section or one atomic operation; a run interleaves the steps of any
 number of senders and of the handler in any order.
 */
module SocketProtocol {

  type Data = seq<bv8>
  type Tid = int

  /** How far a thread has come inside `send`, or the handler inside `_on_async_write`. */
  datatype Pc =
    | Idle
    | Pushed   // message queued, compare-exchange to come (senders)
    | Woken    // write completed, queue still to be inspected (handler)
    | Claimed  // owner, about to fill the buffer
    | Filled   // owner, about to hand the buffer to async_write

  /** A thread that can run `_do_async_write`. */
  datatype Writer = Sender(t: Tid) | Handler

  /** Who may hold the right to write: a thread, the wire, or after a failed write nobody ever again. */
  datatype Owner = Nobody | Thread(w: Writer) | Wire | Lost

  datatype State = State(
    queue: seq<Data>,
    buffer: Data,
    writeFinished: bool,
    senders: map<Tid, Pc>,
    handler: Pc,
    inFlight: bool,
    failed: bool,
    // history, read by no step:
    pushed: seq<Data>,   // every message queued so far, in order
    written: seq<Data>,  // every message handed to async_write so far, in order
    owner: Owner,        // who the right to write passed to last
    missed: bool)        // nobody has claimed since an exchange failed although the flag was set and messages waited
  {
    ghost function PcOf(w: Writer): Pc {
      match w
      case Sender(t) => if t in senders then senders[t] else Idle
      case Handler => handler
    }

    ghost function At(w: Writer, pc: Pc): State {
      match w
      case Sender(t) => this.(senders := senders[t := pc])
      case Handler => this.(handler := pc)
    }
  }

  const INITIAL := State([], [], true, map[], Idle, false, false, [], [], Nobody, false)

  datatype Step =
    | Push(t: Tid, data: Data)
    | CompareExchange(t: Tid)
    | FailSpuriously(t: Tid)  // what compare_exchange_weak may do instead, whatever the flag
    | FillBuffer(w: Writer)
    | AsyncWrite(w: Writer)
    | Complete(error: bool)
    | Inspect

  ghost predicate Enabled(s: State, step: Step) {
    match step
    case Push(t, _) => s.PcOf(Sender(t)) == Idle
    case CompareExchange(t) => s.PcOf(Sender(t)) == Pushed
    case FailSpuriously(t) => s.PcOf(Sender(t)) == Pushed
    case FillBuffer(w) => s.PcOf(w) == Claimed && s.queue != []
    case AsyncWrite(w) => s.PcOf(w) == Filled
    case Complete(_) => s.inFlight
    case Inspect => s.handler == Woken
  }

  ghost function Apply(s: State, step: Step): State
    requires Enabled(s, step)
  {
    match step
    case Push(t, data) => s.At(Sender(t), Pushed).(queue := s.queue + [data], pushed := s.pushed + [data])
    case CompareExchange(t) =>
      if !s.writeFinished then s.At(Sender(t), Idle)
      else s.At(Sender(t), Claimed).(writeFinished := false, owner := Thread(Sender(t)), missed := false)
    case FailSpuriously(t) =>
      s.At(Sender(t), Idle).(missed := s.missed || (s.writeFinished && s.queue != []))
    case FillBuffer(w) => s.At(w, Filled).(buffer := s.queue[0], queue := s.queue[1..])
    case AsyncWrite(w) => s.At(w, Idle).(inFlight := true, written := s.written + [s.buffer], owner := Wire)
    case Complete(error) =>
      if error then s.(inFlight := false, failed := true, owner := Lost)
      else s.(inFlight := false, handler := Woken, owner := Thread(Handler))
    case Inspect =>
      if s.queue == [] then s.(handler := Idle, writeFinished := true, owner := Nobody) else s.(handler := Claimed)
  }

  // ----- Runs --------------------------------------------------------------------------------------

  ghost predicate IsRun(s: State, steps: seq<Step>)
    decreases |steps|
  {
    steps == [] || (Enabled(s, steps[0]) && IsRun(Apply(s, steps[0]), steps[1..]))
  }

  ghost function After(s: State, steps: seq<Step>): State
    requires IsRun(s, steps)
    decreases |steps|
  {
    if steps == [] then s else After(Apply(s, steps[0]), steps[1..])
  }

  // ----- The invariant -----------------------------------------------------------------------------

  /** A thread is inside the part of the code that only one may be in. */
  ghost predicate MayWrite(s: State, w: Writer) {
    s.PcOf(w) == Claimed || s.PcOf(w) == Filled || s.PcOf(w) == Woken
  }

  /** The right to write is where the history says, and free exactly when the flag is set. */
  ghost predicate Owned(s: State) {
    && (s.writeFinished <==> s.owner == Nobody)
    && (s.inFlight <==> s.owner == Wire)
    && (s.failed <==> s.owner == Lost)
    && (forall w :: MayWrite(s, w) <==> s.owner == Thread(w))
    && s.handler != Pushed
    && forall t :: s.PcOf(Sender(t)) != Woken
  }

  ghost predicate BufferFull(s: State) {
    s.owner.Thread? && s.PcOf(s.owner.w) == Filled
  }

  /** Nothing is lost, duplicated or reordered between being queued and being handed to the socket. */
  ghost predicate InOrder(s: State) {
    s.pushed == s.written + (if BufferFull(s) then [s.buffer] else []) + s.queue
  }

  /** While a write is in flight the buffer holds what was handed over. */
  ghost predicate BufferStable(s: State) {
    s.inFlight ==> s.written != [] && s.buffer == s.written[|s.written| - 1]
  }

  /** With nobody writing and messages waiting, some sender has yet to try for the flag, or has missed it. */
  ghost predicate SomebodyWillWrite(s: State) {
    && (s.writeFinished && s.queue != [] ==> s.missed || exists t :: s.PcOf(Sender(t)) == Pushed)
    && (s.missed ==> s.writeFinished && s.queue != [])
  }

  /** The handler only goes on to write when there is something to write. */
  ghost predicate HandlerHasWork(s: State) {
    s.handler == Claimed ==> s.queue != []
  }

  ghost predicate Inv(s: State) {
    Owned(s) && InOrder(s) && BufferStable(s) && SomebodyWillWrite(s) && HandlerHasWork(s)
  }

  /** Only an owner fills or hands over the buffer or inspects the queue. */
  lemma ActorOwns(s: State, step: Step)
    requires Inv(s) && Enabled(s, step)
    ensures step.FillBuffer? || step.AsyncWrite? ==> s.owner == Thread(step.w)
    ensures step.Inspect? ==> s.owner == Thread(Handler)
    ensures s.handler == Claimed ==> s.owner == Thread(Handler)
  {
  }

  lemma StepKeepsOwned(s: State, step: Step)
    requires Inv(s) && Enabled(s, step)
    ensures Owned(Apply(s, step))
  {
    ActorOwns(s, step);
  }

  lemma StepKeepsOrder(s: State, step: Step)
    requires Inv(s) && Enabled(s, step)
    ensures InOrder(Apply(s, step)) && BufferStable(Apply(s, step))
  {
    ActorOwns(s, step);
    assert step.FillBuffer? ==> s.queue == [s.queue[0]] + s.queue[1..];
  }

  lemma StepKeepsProgress(s: State, step: Step)
    requires Inv(s) && Enabled(s, step)
    ensures SomebodyWillWrite(Apply(s, step)) && HandlerHasWork(Apply(s, step))
  {
    var s' := Apply(s, step);
    ActorOwns(s, step);
    assert step.Push? ==> s'.PcOf(Sender(step.t)) == Pushed;
  }

  lemma StepKeepsInv(s: State, step: Step)
    requires Inv(s) && Enabled(s, step)
    ensures Inv(Apply(s, step))
  {
    StepKeepsOwned(s, step);
    StepKeepsOrder(s, step);
    StepKeepsProgress(s, step);
  }

  lemma {:induction false} RunKeepsInv(s: State, steps: seq<Step>)
    requires Inv(s) && IsRun(s, steps)
    ensures Inv(After(s, steps))
    decreases |steps|
  {
    if steps != [] {
      StepKeepsInv(s, steps[0]);
      RunKeepsInv(Apply(s, steps[0]), steps[1..]);
    }
  }

  // ----- What every run from the start satisfies ------------------------------------------------------

  /** Some run, of any length and any interleaving, leads to s. */
  ghost predicate Reachable(s: State) {
    exists run :: IsRun(INITIAL, run) && After(INITIAL, run) == s
  }

  lemma ReachableInv(s: State)
    requires Reachable(s)
    ensures Inv(s)
  {
    var run :| IsRun(INITIAL, run) && After(INITIAL, run) == s;
    RunKeepsInv(INITIAL, run);
  }

  /** At most one thread is in the write path, and then no write is in flight and the flag is clear. */
  lemma AtMostOneWrite(s: State)
    requires Reachable(s)
    ensures forall w, x :: MayWrite(s, w) && MayWrite(s, x) ==> w == x
    ensures forall w :: MayWrite(s, w) ==> !s.inFlight && !s.writeFinished
    ensures s.inFlight ==> !s.writeFinished
  {
    ReachableInv(s);
  }

  /** From the hand-over of a buffer to its completion no step changes the buffer. */
  lemma BufferUntouchedInFlight(s: State, step: Step)
    requires Reachable(s) && Enabled(s, step)
    ensures s.inFlight ==> s.written != [] && Apply(s, step).buffer == s.buffer == s.written[|s.written| - 1]
    ensures step.AsyncWrite? ==> !s.inFlight
  {
    ReachableInv(s);
    ActorOwns(s, step);
  }

  /** Every message queued is handed over, in the buffer, or in the queue, in the order they were queued. */
  lemma PushedInOrder(s: State)
    requires Inv(s)
    ensures exists current: seq<Data> :: |current| <= 1 && s.written + current + s.queue == s.pushed
    ensures s.inFlight || s.writeFinished ==> s.written + s.queue == s.pushed
  {
    var current := if BufferFull(s) then [s.buffer] else [];
    assert s.written + current + s.queue == s.pushed;
  }

  // ----- What a run has sent and handed over -------------------------------------------------------

  /** The messages the senders of a run have sent, in the order they locked the queue. */
  ghost function Sent(steps: seq<Step>): seq<Data> {
    if steps == [] then []
    else if steps[0].Push? then [steps[0].data] + Sent(steps[1..])
    else Sent(steps[1..])
  }

  /** What the socket was asked to write: the buffer as it is at each hand-over. */
  ghost function HandedOver(s: State, steps: seq<Step>): seq<Data>
    requires IsRun(s, steps)
    decreases |steps|
  {
    if steps == [] then []
    else
      var rest := HandedOver(Apply(s, steps[0]), steps[1..]);
      if steps[0].AsyncWrite? then [s.buffer] + rest else rest
  }

  lemma StepHistory(s: State, step: Step)
    requires Enabled(s, step)
    ensures var s' := Apply(s, step);
            && s'.pushed == (if step.Push? then s.pushed + [step.data] else s.pushed)
            && s'.written == (if step.AsyncWrite? then s.written + [s.buffer] else s.written)
            && (s'.failed <==> s.failed || step == Complete(true))
  {
    match step
    case Push(t, data) =>
    case CompareExchange(t) =>
    case FailSpuriously(t) =>
    case FillBuffer(w) =>
    case AsyncWrite(w) =>
    case Complete(error) =>
    case Inspect =>
  }

  /** The history is that of the run. */
  lemma {:induction false} HistoryIsTheRun(s: State, steps: seq<Step>)
    requires IsRun(s, steps)
    ensures After(s, steps).pushed == s.pushed + Sent(steps)
    ensures After(s, steps).written == s.written + HandedOver(s, steps)
    ensures After(s, steps).failed <==> s.failed || Complete(true) in steps
    decreases |steps|
  {
    hide Apply, Enabled;
    if steps != [] {
      assert steps == [steps[0]] + steps[1..];
      StepHistory(s, steps[0]);
      HistoryIsTheRun(Apply(s, steps[0]), steps[1..]);
    }
  }

  ghost predicate NoExchange(steps: seq<Step>) {
    forall k :: 0 <= k < |steps| ==> !steps[k].CompareExchange?
  }

  /** Somewhere in the run an exchange fails spuriously over a set flag and waiting messages, and none follows. */
  ghost predicate LeavesBehind(s: State, steps: seq<Step>)
    requires IsRun(s, steps)
    decreases |steps|
  {
    && steps != []
    && (|| (steps[0].FailSpuriously? && s.writeFinished && s.queue != [] && NoExchange(steps[1..]))
        || LeavesBehind(Apply(s, steps[0]), steps[1..]))
  }

  lemma {:induction false} MissedIffLeftBehind(s: State, steps: seq<Step>)
    requires Inv(s) && IsRun(s, steps)
    ensures After(s, steps).missed <==> (s.missed && NoExchange(steps)) || LeavesBehind(s, steps)
    decreases |steps|
  {
    if steps != [] {
      StepKeepsInv(s, steps[0]);
      MissedIffLeftBehind(Apply(s, steps[0]), steps[1..]);
      assert NoExchange(steps) <==> !steps[0].CompareExchange? && NoExchange(steps[1..]) by {
        assert steps == [steps[0]] + steps[1..];
      }
    }
  }

  /** Messages reach the socket in the order they were sent; those missing are still to come. */
  lemma MessagesInOrder(run: seq<Step>)
    requires IsRun(INITIAL, run)
    ensures var s := After(INITIAL, run);
            && (exists current: seq<Data> ::
                  |current| <= 1 && HandedOver(INITIAL, run) + current + s.queue == Sent(run))
            && (s.inFlight || s.writeFinished ==> HandedOver(INITIAL, run) + s.queue == Sent(run))
  {
    RunKeepsInv(INITIAL, run);
    HistoryIsTheRun(INITIAL, run);
    PushedInOrder(After(INITIAL, run));
    assert INITIAL.pushed + Sent(run) == Sent(run);
    assert INITIAL.written + HandedOver(INITIAL, run) == HandedOver(INITIAL, run);
  }

  /**
   When every thread has returned, no write is in flight and none has failed, all messages sent have been
   handed over, unless an exchange has failed spuriously while messages waited and none has followed: then,
   and only then, some are left in the queue.
   */
  lemma QuietMeansDelivered(run: seq<Step>)
    requires IsRun(INITIAL, run) && Complete(true) !in run
    requires var s := After(INITIAL, run); (forall w :: s.PcOf(w) == Idle) && !s.inFlight
    ensures After(INITIAL, run).writeFinished && HandedOver(INITIAL, run) + After(INITIAL, run).queue == Sent(run)
    ensures HandedOver(INITIAL, run) == Sent(run) <==> !LeavesBehind(INITIAL, run)
  {
    var s := After(INITIAL, run);
    RunKeepsInv(INITIAL, run);
    HistoryIsTheRun(INITIAL, run);
    assert s.owner.Thread? ==> MayWrite(s, s.owner.w);
    MessagesInOrder(run);
    MissedIffLeftBehind(INITIAL, run);
  }

  /** With the flag set and messages waiting, a sender is still to exchange, or one has missed the flag. */
  lemma FlagSetMeansSenderComing(run: seq<Step>)
    requires IsRun(INITIAL, run)
    ensures var s := After(INITIAL, run);
            s.writeFinished && s.queue != [] ==>
              LeavesBehind(INITIAL, run) || exists t :: s.PcOf(Sender(t)) == Pushed
  {
    RunKeepsInv(INITIAL, run);
    MissedIffLeftBehind(INITIAL, run);
  }

  /** Without spurious failures nothing is left behind. */
  lemma {:induction false} StrongExchangeMissesNothing(s: State, steps: seq<Step>)
    requires IsRun(s, steps)
    requires forall k :: 0 <= k < |steps| ==> !steps[k].FailSpuriously?
    ensures !LeavesBehind(s, steps)
    decreases |steps|
  {
    if steps != [] {
      StrongExchangeMissesNothing(Apply(s, steps[0]), steps[1..]);
    }
  }

  /** Nobody is ever stuck, except over the empty queue: whoever is under way has a step to take. */
  lemma NobodyIsStuck(s: State, t: Tid, data: Data)
    requires Reachable(s)
    ensures Enabled(s, Push(t, data)) || Enabled(s, CompareExchange(t)) || Enabled(s, FillBuffer(Sender(t)))
            || Enabled(s, AsyncWrite(Sender(t))) || (s.PcOf(Sender(t)) == Claimed && s.queue == [])
    ensures s.handler == Idle || Enabled(s, Inspect) || Enabled(s, FillBuffer(Handler))
            || Enabled(s, AsyncWrite(Handler))
    ensures s.inFlight ==> Enabled(s, Complete(false)) && Enabled(s, Complete(true))
  {
    ReachableInv(s);
  }

  // ----- The late compare-exchange -----------------------------------------------------------------

  lemma {:induction false} RunSnoc(s: State, run: seq<Step>, step: Step)
    requires IsRun(s, run) && Enabled(After(s, run), step)
    ensures IsRun(s, run + [step]) && After(s, run + [step]) == Apply(After(s, run), step)
    decreases |run|
  {
    if run == [] {
      assert (run + [step])[1..] == [];
    } else {
      assert (run + [step])[1..] == run[1..] + [step];
      RunSnoc(Apply(s, run[0]), run[1..], step);
    }
  }

  lemma Extend(s: State, step: Step, s': State)
    requires Reachable(s) && Enabled(s, step) && Apply(s, step) == s'
    ensures Reachable(s')
  {
    var run :| IsRun(INITIAL, run) && After(INITIAL, run) == s;
    RunSnoc(INITIAL, run, step);
  }

  /** Two senders and the handler at the given places, nothing failed. */
  ghost function Two(pc0: Pc, pc1: Pc, handler: Pc, owner: Owner,
                     queue: seq<Data>, buffer: Data, written: seq<Data>, pushed: seq<Data>): State
  {
    var senders := map[0 := pc0, 1 := pc1];
    State(queue, buffer, owner == Nobody, senders, handler, owner == Wire, false, pushed, written, owner, false)
  }

  lemma BothPushed(a: Data, b: Data)
    ensures Reachable(Two(Pushed, Pushed, Idle, Nobody, [a, b], [], [], [a, b]))
  {
    assert IsRun(INITIAL, []) && After(INITIAL, []) == INITIAL;
    var s := State([a], [], true, map[0 := Pushed], Idle, false, false, [a], [], Nobody, false);
    Extend(INITIAL, Push(0, a), s);
    Extend(s, Push(1, b), Two(Pushed, Pushed, Idle, Nobody, [a, b], [], [], [a, b]));
  }

  lemma SenderWrites(a: Data, b: Data)
    ensures Reachable(Two(Pushed, Idle, Idle, Wire, [b], a, [a], [a, b]))
  {
    hide Reachable;
    BothPushed(a, b);
    var me := Thread(Sender(1));
    var s0 := Two(Pushed, Pushed, Idle, Nobody, [a, b], [], [], [a, b]);
    var s1 := Two(Pushed, Claimed, Idle, me, [a, b], [], [], [a, b]);
    var s2 := Two(Pushed, Filled, Idle, me, [b], a, [], [a, b]);
    Extend(s0, CompareExchange(1), s1);
    Extend(s1, FillBuffer(Sender(1)), s2);
    Extend(s2, AsyncWrite(Sender(1)), Two(Pushed, Idle, Idle, Wire, [b], a, [a], [a, b]));
  }

  lemma HandlerWrites(a: Data, b: Data)
    ensures Reachable(Two(Pushed, Idle, Idle, Wire, [], b, [a, b], [a, b]))
  {
    hide Reachable;
    SenderWrites(a, b);
    var me := Thread(Handler);
    var s0 := Two(Pushed, Idle, Idle, Wire, [b], a, [a], [a, b]);
    var s1 := Two(Pushed, Idle, Woken, me, [b], a, [a], [a, b]);
    var s2 := Two(Pushed, Idle, Claimed, me, [b], a, [a], [a, b]);
    var s3 := Two(Pushed, Idle, Filled, me, [], b, [a], [a, b]);
    Extend(s0, Complete(false), s1);
    Extend(s1, Inspect, s2);
    Extend(s2, FillBuffer(Handler), s3);
    Extend(s3, AsyncWrite(Handler), Two(Pushed, Idle, Idle, Wire, [], b, [a, b], [a, b]));
  }

  /** A weak exchange outside a loop can strand a message: the only sender fails spuriously and returns. */
  lemma SpuriousFailureStrands(a: Data)
    ensures exists s :: Reachable(s) && s.writeFinished && s.queue == [a] && s.written == []
                        && forall w :: s.PcOf(w) == Idle
  {
    assert IsRun(INITIAL, []) && After(INITIAL, []) == INITIAL;
    var s := State([a], [], true, map[0 := Pushed], Idle, false, false, [a], [], Nobody, false);
    var s' := State([a], [], true, map[0 := Idle], Idle, false, false, [a], [], Nobody, true);
    Extend(INITIAL, Push(0, a), s);
    Extend(s, FailSpuriously(0), s');
    assert Reachable(s') && s'.writeFinished && s'.queue == [a] && s'.written == [] && forall w :: s'.PcOf(w) == Idle;
  }

  /**
   `_do_async_write` reads the front of the queue without asking whether there is one.  A sender
   whose compare-exchange comes after others have drained its message claims the right to write over
   an empty queue: here sender 0, whose message sender 1 and the handler have written.
   */
  lemma LateClaimFindsNothing(a: Data, b: Data)
    ensures exists s :: Reachable(s) && s.PcOf(Sender(0)) == Claimed && s.queue == [] && s.written == [a, b]
  {
    hide Reachable;
    HandlerWrites(a, b);
    var me := Thread(Handler);
    var s := Two(Claimed, Idle, Idle, Thread(Sender(0)), [], b, [a, b], [a, b]);
    var s1 := Two(Pushed, Idle, Woken, me, [], b, [a, b], [a, b]);
    var s2 := Two(Pushed, Idle, Idle, Nobody, [], b, [a, b], [a, b]);
    Extend(Two(Pushed, Idle, Idle, Wire, [], b, [a, b], [a, b]), Complete(false), s1);
    Extend(s1, Inspect, s2);
    Extend(s2, CompareExchange(0), s);
    assert Reachable(s) && s.PcOf(Sender(0)) == Claimed && s.queue == [] && s.written == [a, b];
  }

  /** Exactly when that happens: a sender wins over an empty queue once all that was sent has been handed over. */
  lemma WinsOverNothingIff(run: seq<Step>, t: Tid)
    requires IsRun(INITIAL, run)
    requires var s := After(INITIAL, run); Enabled(s, CompareExchange(t)) && s.writeFinished
    ensures var s' := Apply(After(INITIAL, run), CompareExchange(t));
            && s'.PcOf(Sender(t)) == Claimed
            && (s'.queue == [] <==> HandedOver(INITIAL, run) == Sent(run))
  {
    MessagesInOrder(run);
  }

  /**
   And it finds nothing unless more is pushed: as long as a thread that has claimed the right to write has not filled
   the buffer, the queue is what it claimed over followed by what was pushed since.  So it finds the
   queue empty if and only if it was empty at the claim and nothing was pushed in between.
   */
  lemma {:induction false} ClaimKeepsQueue(s: State, steps: seq<Step>, w: Writer)
    requires Inv(s) && IsRun(s, steps) && s.PcOf(w) == Claimed
    requires FillBuffer(w) !in steps
    ensures var s' := After(s, steps);
            && s'.PcOf(w) == Claimed
            && s.pushed <= s'.pushed
            && s'.queue == s.queue + s'.pushed[|s.pushed|..]
            && (s'.queue == [] <==> s.queue == [] && s'.pushed == s.pushed)
    decreases |steps|
  {
    if steps != [] {
      var s1 := Apply(s, steps[0]);
      assert steps[0] in steps;
      StepKeepsInv(s, steps[0]);
      assert MayWrite(s, w);
      ActorOwns(s, steps[0]);
      ClaimKeepsQueue(s1, steps[1..], w);
    }
  }
}

module BeastSockets {
  import opened SocketProtocol

  /**
   The socket's own fields, and as ghosts the places of the threads that call it.  Every method is
   one atomic section of the source and carries out one step of the protocol.
   */
  class BeastSocket {
    var writeQueue: seq<Data>
    var writeBuffer: Data
    var writeFinished: bool
    ghost var senders: map<Tid, Pc>
    ghost var handler: Pc
    ghost var inFlight: bool
    ghost var failed: bool
    ghost var pushed: seq<Data>
    ghost var written: seq<Data>
    ghost var owner: Owner
    ghost var missed: bool

    ghost function State(): State
      reads this
    {
      SocketProtocol.State.State(
        writeQueue, writeBuffer, writeFinished, senders, handler, inFlight, failed, pushed, written, owner, missed)
    }

    constructor ()
      ensures State() == INITIAL
    {
      writeQueue, writeBuffer, writeFinished := [], [], true;
      senders, handler, inFlight, failed, pushed, written, owner := map[], Idle, false, false, [], [], Nobody;
      missed := false;
    }

    ghost method Move(w: Writer, pc: Pc)
      modifies this`senders, this`handler
      ensures State() == old(State()).At(w, pc)
    {
      match w
      case Sender(t) => senders := senders[t := pc];
      case Handler => handler := pc;
    }

    /** The locked push at the start of `send`. */
    method PushMessage(ghost t: Tid, data: Data)
      requires Enabled(State(), Push(t, data))
      modifies this
      ensures State() == Apply(old(State()), Push(t, data))
    {
      writeQueue := writeQueue + [data];
      pushed := pushed + [data];
      Move(Sender(t), Pushed);
    }

    /** The compare-exchange of `send`, which may fail spuriously: whether the caller goes on to write. */
    method ClaimWrite(ghost t: Tid, spurious: bool) returns (won: bool)
      requires Enabled(State(), CompareExchange(t))
      modifies this
      ensures State() == Apply(old(State()), if spurious then FailSpuriously(t) else CompareExchange(t))
      ensures won == (old(writeFinished) && !spurious)
    {
      won := writeFinished && !spurious;
      if won {
        writeFinished := false;
        owner, missed := Thread(Sender(t)), false;
        Move(Sender(t), Claimed);
      } else {
        missed := missed || (spurious && writeFinished && writeQueue != []);
        Move(Sender(t), Idle);
      }
    }

    /** The locked part of `_do_async_write`. */
    method FillWriteBuffer(ghost w: Writer)
      requires Enabled(State(), FillBuffer(w))
      modifies this
      ensures State() == Apply(old(State()), FillBuffer(w))
    {
      writeBuffer := writeQueue[0];
      writeQueue := writeQueue[1..];
      Move(w, Filled);
    }

    /** The hand-over of the buffer at the end of `_do_async_write`. */
    method StartAsyncWrite(ghost w: Writer)
      requires Enabled(State(), AsyncWrite(w))
      modifies this
      ensures State() == Apply(old(State()), AsyncWrite(w))
    {
      inFlight, written, owner := true, written + [writeBuffer], Wire;
      Move(w, Idle);
    }

    /** Entry into `_on_async_write`, which gives up for good on an error. */
    method OnAsyncWrite(ec: bool)
      requires Enabled(State(), Complete(ec))
      modifies this
      ensures State() == Apply(old(State()), Complete(ec))
    {
      inFlight := false;
      if ec {
        failed, owner := true, Lost;
        return;
      }
      owner := Thread(Handler);
      Move(Handler, Woken);
    }

    /** The locked part of `_on_async_write`: whether to do another write. */
    method InspectQueue() returns (doWrite: bool)
      requires Enabled(State(), Inspect)
      modifies this
      ensures State() == Apply(old(State()), Inspect) && doWrite == (old(writeQueue) != [])
    {
      doWrite := writeQueue != [];
      if doWrite {
        Move(Handler, Claimed);
      } else {
        writeFinished := true;
        owner := Nobody;
        Move(Handler, Idle);
      }
    }
  }
}
