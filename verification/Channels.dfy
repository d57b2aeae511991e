/**
 Channels: module/common_communication/include/ChannelSingleQueue.hpp:28-127 and
 module/common_communication/include/ChannelMultiQueue.hpp:63-90, over the locked vector of consumers in
 module/common_collections/include/WeakVector.hpp.

 BroadcastProtocol lets any number of threads broadcast, create, drop and receive in any order: every
 step is what one thread does between two points where others can come in.  Channels has the classes.
 */
module BroadcastProtocol {
  import opened Wrappers

  /** A filter is a pure function; without one a queue takes everything. */
  type Filter<!T(!new)> = Option<T -> bool>

  predicate Accepts<T(!new)>(filter: Filter<T>, message: T) {
    filter.Some? ==> filter.value(message)
  }

  /** The messages a queue takes, in order. */
  function Accepted<T(!new)>(filter: Filter<T>, messages: seq<T>): seq<T> {
    if messages == [] then []
    else
      var before, last := Accepted(filter, messages[..|messages| - 1]), messages[|messages| - 1];
      if Accepts(filter, last) then before + [last] else before
  }

  lemma AcceptedNext<T(!new)>(filter: Filter<T>, messages: seq<T>, message: T)
    ensures Accepted(filter, messages + [message]) ==
              if Accepts(filter, message) then Accepted(filter, messages) + [message] else Accepted(filter, messages)
  {
  }

  lemma {:induction false} AcceptedConcat<T(!new)>(filter: Filter<T>, s: seq<T>, t: seq<T>)
    ensures Accepted(filter, s + t) == Accepted(filter, s) + Accepted(filter, t)
  {
    if t == [] {
      assert s + t == s;
    } else {
      var n := |t| - 1;
      AcceptedConcat(filter, s, t[..n]);
      assert t == t[..n] + [t[n]] && s + t == s + t[..n] + [t[n]];
      AcceptedNext(filter, s + t[..n], t[n]);
    }
  }

  /** One message is taken as a whole or not at all; with AcceptedConcat this says what is taken of any stream. */
  lemma AcceptedOne<T(!new)>(filter: Filter<T>, message: T)
    ensures Accepted(filter, [message]) == if filter.None? || filter.value(message) then [message] else []
    ensures Accepted(filter, []) == []
  {
    AcceptedNext(filter, [], message);
    assert [] + [message] == [message];
  }

  /** Filtering twice is filtering by both, in either order. */
  lemma {:induction false} FiltersCommute<T(!new)>(f: Filter<T>, g: Filter<T>, s: seq<T>)
    ensures Accepted(g, Accepted(f, s)) == Accepted(f, Accepted(g, s))
  {
    if s != [] {
      var n := |s| - 1;
      FiltersCommute(f, g, s[..n]);
      AcceptedNext(g, Accepted(f, s[..n]), s[n]);
      AcceptedNext(f, Accepted(g, s[..n]), s[n]);
    }
  }

  /** From every stream a queue takes exactly the messages that pass its filter, and all of them if it has none. */
  lemma {:induction false} TakenAreAccepted<T(!new)>(filter: Filter<T>, messages: seq<T>, message: T)
    ensures message in Accepted(filter, messages) <==>
              message in messages && (filter.None? || filter.value(message))
  {
    if messages != [] {
      var n := |messages| - 1;
      assert messages == messages[..n] + [messages[n]];
      TakenAreAccepted(filter, messages[..n], message);
    }
  }

  lemma TakesWhatItAccepts<T(!new)>(filter: Filter<T>, message: T)
    ensures filter.None? || filter.value(message) <==> exists messages :: message in Accepted(filter, messages)
  {
    forall messages | message in Accepted(filter, messages)
      ensures filter.None? || filter.value(message)
    {
      TakenAreAccepted(filter, messages, message);
    }
    TakenAreAccepted(filter, [message], message);
  }

  // ----- States and steps --------------------------------------------------------------------------

  type Id = nat

  /** A queue, what has been taken out of it, and how many messages had been broadcast when it was created. */
  datatype Consumer<!T(!new)> = Consumer(filter: Filter<T>, held: seq<T>, received: seq<T>, since: nat) {
    function Total(): seq<T> { received + held }
  }

  /** The broadcast that holds the lock: the queue it has come to, and whether that queue's filter has let it pass. */
  datatype Broadcast<T> = Broadcast(message: T, next: nat, passed: bool)

  /** `sent` is the messages in the order their broadcasts took the lock. */
  datatype State<!T(!new)> = State(
    queues: seq<Id>,
    consumers: map<Id, Consumer<T>>,
    sending: Option<Broadcast<T>>,
    sent: seq<T>)

  datatype Step<!T(!new)> =
    | Lock(message: T)
    | Check
    | Push
    | Unlock
    | Create(id: Id, filter: Filter<T>)
    | Drop(position: nat)
    | Receive(id: Id)

  ghost function Initial<T(!new)>(): State<T> {
    State([], map[], None, [])
  }

  ghost predicate Enabled<T(!new)>(s: State<T>, step: Step<T>) {
    match step
    case Lock(_) => s.sending.None?
    case Check => s.sending.Some? && !s.sending.value.passed && s.sending.value.next < |s.queues|
    case Push => s.sending.Some? && s.sending.value.passed && s.sending.value.next < |s.queues|
    case Unlock => s.sending.Some? && !s.sending.value.passed && s.sending.value.next == |s.queues|
    case Create(id, _) => s.sending.None? && id !in s.consumers
    case Drop(position) => s.sending.None? && position < |s.queues|
    case Receive(id) => id in s.consumers
  }

  ghost predicate Distinct(queues: seq<Id>) {
    forall i, j :: 0 <= i < j < |queues| ==> queues[i] != queues[j]
  }

  ghost function Erased(queues: seq<Id>, position: nat): (rest: seq<Id>)
    requires position < |queues| && Distinct(queues)
    ensures Distinct(rest) && forall id :: id in rest <==> id in queues && id != queues[position]
  {
    queues[..position] + queues[position + 1..]
  }

  ghost function Taken<T(!new)>(c: Consumer<T>): Consumer<T> {
    if c.held == [] then c else c.(held := c.held[1..], received := c.received + [c.held[0]])
  }

  ghost predicate Wired<T(!new)>(s: State<T>) {
    Distinct(s.queues) && forall id :: id in s.consumers <==> id in s.queues
  }

  ghost function Do<T(!new)>(s: State<T>, step: Step<T>): (s': State<T>)
    requires Enabled(s, step) && Wired(s)
    ensures Wired(s')
  {
    match step
    case Lock(message) => s.(sending := Some(Broadcast(message, 0, false)), sent := s.sent + [message])
    case Check =>
      var b := s.sending.value;
      if Accepts(s.consumers[s.queues[b.next]].filter, b.message) then s.(sending := Some(b.(passed := true)))
      else s.(sending := Some(b.(next := b.next + 1)))
    case Push =>
      var b, id := s.sending.value, s.queues[s.sending.value.next];
      var c := s.consumers[id];
      s.(consumers := s.consumers[id := c.(held := c.held + [b.message])],
         sending := Some(Broadcast(b.message, b.next + 1, false)))
    case Unlock => s.(sending := None)
    case Create(id, filter) =>
      s.(queues := s.queues + [id], consumers := s.consumers[id := Consumer(filter, [], [], |s.sent|)])
    case Drop(position) =>
      s.(queues := Erased(s.queues, position), consumers := s.consumers - {s.queues[position]})
    case Receive(id) => s.(consumers := s.consumers[id := Taken(s.consumers[id])])
  }

  // ----- Invariant ---------------------------------------------------------------------------------

  /** How many of the messages have been through with the queue at position i: all, or all but the one on its way. */
  ghost function Passed<T(!new)>(s: State<T>, i: int): int {
    if s.sending.Some? && s.sending.value.next <= i then |s.sent| - 1 else |s.sent|
  }

  /** What the consumer has received and still holds is what it accepts of the messages sent since it was created. */
  ghost predicate Complete<T(!new)>(c: Consumer<T>, sent: seq<T>, upTo: int) {
    c.since <= upTo <= |sent| && c.Total() == Accepted(c.filter, sent[c.since..upTo])
  }

  ghost predicate OnItsWay<T(!new)>(s: State<T>) {
    s.sending.Some? ==>
      var b := s.sending.value;
      && s.sent != [] && s.sent[|s.sent| - 1] == b.message && b.next <= |s.queues|
      && (b.passed ==> b.next < |s.queues| && s.queues[b.next] in s.consumers
                       && Accepts(s.consumers[s.queues[b.next]].filter, b.message))
  }

  ghost predicate Inv<T(!new)>(s: State<T>) {
    && Wired(s) && OnItsWay(s)
    && forall i :: 0 <= i < |s.queues| ==> Served(s, i)
  }

  ghost predicate Served<T(!new)>(s: State<T>, i: int)
    requires 0 <= i < |s.queues|
  {
    s.queues[i] in s.consumers && Complete(s.consumers[s.queues[i]], s.sent, Passed(s, i))
  }

  lemma OneMore<T(!new)>(c: Consumer<T>, sent: seq<T>)
    requires sent != [] && Complete(c, sent, |sent| - 1)
    ensures !Accepts(c.filter, sent[|sent| - 1]) ==> Complete(c, sent, |sent|)
    ensures Accepts(c.filter, sent[|sent| - 1]) ==> Complete(c.(held := c.held + [sent[|sent| - 1]]), sent, |sent|)
  {
    var n := |sent| - 1;
    assert sent[c.since..|sent|] == sent[c.since..n] + [sent[n]];
    AcceptedNext(c.filter, sent[c.since..n], sent[n]);
    assert c.received + (c.held + [sent[n]]) == c.received + c.held + [sent[n]];
  }

  lemma LaterMessage<T(!new)>(c: Consumer<T>, sent: seq<T>, message: T)
    requires Complete(c, sent, |sent|)
    ensures Complete(c, sent + [message], |sent|)
  {
    assert (sent + [message])[..|sent|] == sent == sent[..|sent|];
  }

  lemma TakingKeepsTotal<T(!new)>(c: Consumer<T>)
    ensures Taken(c).Total() == c.Total()
  {
  }

  lemma NothingYet<T(!new)>(filter: Filter<T>, sent: seq<T>)
    ensures Complete(Consumer(filter, [], [], |sent|), sent, |sent|)
  {
  }

  lemma StepKeepsCourse<T(!new)>(s: State<T>, step: Step<T>)
    requires Wired(s) && OnItsWay(s) && Enabled(s, step)
    ensures OnItsWay(Do(s, step))
  {
  }

  lemma StepServes<T(!new)>(s: State<T>, step: Step<T>, i: nat)
    requires Inv(s) && Enabled(s, step) && i < |Do(s, step).queues|
    ensures Served(Do(s, step), i)
  {
    hide Complete, Accepted, Accepts, Distinct;
    match step
    case Lock(message) =>
      assert Served(s, i);
      LaterMessage(s.consumers[s.queues[i]], s.sent, message);
    case Check => CheckServes(s, i);
    case Push => PushServes(s, i);
    case Unlock => assert Served(s, i);
    case Create(id, filter) =>
      if i == |s.queues| {
        NothingYet(filter, s.sent);
      } else {
        assert Served(s, i);
      }
    case Drop(position) => assert Served(s, if i < position then i else i + 1);
    case Receive(id) => ReceiveServes(s, id, i);
  }

  lemma CheckServes<T(!new)>(s: State<T>, i: nat)
    requires Inv(s) && Enabled(s, Check) && i < |s.queues|
    ensures Served(Do(s, Check), i)
  {
    hide Complete, Accepted, Distinct;
    assert Served(s, i);
    if i == s.sending.value.next {
      OneMore(s.consumers[s.queues[i]], s.sent);
    }
  }

  lemma PushServes<T(!new)>(s: State<T>, i: nat)
    requires Inv(s) && Enabled(s, Push) && i < |s.queues|
    ensures Served(Do(s, Push), i)
  {
    hide Complete, Accepted;
    assert Served(s, i);
    if i == s.sending.value.next {
      OneMore(s.consumers[s.queues[i]], s.sent);
    }
  }

  lemma ReceiveServes<T(!new)>(s: State<T>, id: Id, i: nat)
    requires Inv(s) && id in s.consumers && i < |s.queues|
    ensures Served(Do(s, Receive(id)), i)
  {
    hide Accepted, Distinct;
    assert Served(s, i);
    TakingKeepsTotal(s.consumers[id]);
  }

  lemma StepKeepsInv<T(!new)>(s: State<T>, step: Step<T>)
    requires Inv(s) && Enabled(s, step)
    ensures Inv(Do(s, step))
  {
    StepKeepsCourse(s, step);
    hide Served, Wired, OnItsWay, Do, Enabled;
    forall i | 0 <= i < |Do(s, step).queues|
      ensures Served(Do(s, step), i)
    {
      StepServes(s, step, i);
    }
  }

  // ----- Every interleaving ------------------------------------------------------------------------

  ghost predicate IsRun<T(!new)>(s: State<T>, steps: seq<Step<T>>)
    requires Wired(s)
    decreases |steps|
  {
    steps == [] || (Enabled(s, steps[0]) && IsRun(Do(s, steps[0]), steps[1..]))
  }

  ghost function After<T(!new)>(s: State<T>, steps: seq<Step<T>>): State<T>
    requires Wired(s) && IsRun(s, steps)
    decreases |steps|
  {
    if steps == [] then s else After(Do(s, steps[0]), steps[1..])
  }

  lemma {:induction false} RunKeepsInv<T(!new)>(s: State<T>, steps: seq<Step<T>>)
    requires Inv(s) && IsRun(s, steps)
    ensures Inv(After(s, steps))
    decreases |steps|
  {
    if steps != [] {
      StepKeepsInv(s, steps[0]);
      RunKeepsInv(Do(s, steps[0]), steps[1..]);
    }
  }

  /** The messages of the broadcasts of a run, in the order they took the lock. */
  ghost function BroadcastsOf<T(!new)>(steps: seq<Step<T>>): seq<T> {
    if steps == [] then []
    else if steps[0].Lock? then [steps[0].message] + BroadcastsOf(steps[1..])
    else BroadcastsOf(steps[1..])
  }

  lemma {:induction false} SentAreBroadcasts<T(!new)>(s: State<T>, steps: seq<Step<T>>)
    requires Wired(s) && IsRun(s, steps)
    ensures After(s, steps).sent == s.sent + BroadcastsOf(steps)
    decreases |steps|
  {
    if steps != [] {
      SentAreBroadcasts(Do(s, steps[0]), steps[1..]);
    }
  }

  /** A consumer keeps the filter it was created with, and the number of messages broadcast before that. */
  lemma ConsumerStaysItself<T(!new)>(s: State<T>, step: Step<T>, id: Id)
    requires Wired(s) && Enabled(s, step) && id in Do(s, step).consumers
    ensures var c' := Do(s, step).consumers[id];
            if id in s.consumers then c'.filter == s.consumers[id].filter && c'.since == s.consumers[id].since
            else step == Create(id, c'.filter) && c'.since == |s.sent| && c'.Total() == []
  {
  }

  /** A receive takes the oldest message, if the consumer holds any; consumers are created and dropped one by one. */
  lemma WhatStepsDo<T(!new)>(s: State<T>, step: Step<T>, id: Id)
    requires Wired(s) && Enabled(s, step)
    ensures step == Receive(id) ==>
              var c, c' := s.consumers[id], Do(s, step).consumers[id];
              && c'.Total() == c.Total()
              && |c'.received| == if c.held == [] then |c.received| else |c.received| + 1
    ensures step.Create? ==> Do(s, step).consumers.Keys == s.consumers.Keys + {step.id}
    ensures step.Drop? ==> Do(s, step).consumers.Keys == s.consumers.Keys - {s.queues[step.position]}
    ensures !step.Create? && !step.Drop? ==> Do(s, step).consumers.Keys == s.consumers.Keys
  {
    if step == Receive(id) {
      TakingKeepsTotal(s.consumers[id]);
    }
  }

  /** A broadcast under way can always go on, and nothing else waits for more than its end. */
  lemma NobodyIsStuck<T(!new)>(s: State<T>, message: T, id: Id)
    requires Inv(s)
    ensures s.sending.Some? ==> Enabled(s, Check) || Enabled(s, Push) || Enabled(s, Unlock)
    ensures s.sending.None? ==> Enabled(s, Lock(message)) && (id in s.consumers || Enabled(s, Create(id, None)))
    ensures id in s.consumers ==> Enabled(s, Receive(id))
  {
  }

  /**
   Over every interleaving: what a live consumer has received, followed by what it holds, is what it accepts
   of the messages broadcast since it was created, short of one that is still on its way to it.
   */
  lemma EveryConsumerIsComplete<T(!new)>(steps: seq<Step<T>>, i: nat)
    requires IsRun(Initial<T>(), steps) && i < |After(Initial<T>(), steps).queues|
    ensures var s := After(Initial<T>(), steps);
            && s.queues[i] in s.consumers
            && s.sent == BroadcastsOf(steps)
            && var c, upTo := s.consumers[s.queues[i]], Passed(s, i);
               && c.since <= upTo <= |s.sent|
               && c.received + c.held == Accepted(c.filter, BroadcastsOf(steps)[c.since..upTo])
               && (upTo == |s.sent| || (upTo == |s.sent| - 1 && s.sending.Some? && s.sending.value.next <= i))
  {
    RunKeepsInv(Initial<T>(), steps);
    SentAreBroadcasts(Initial<T>(), steps);
    assert [] + BroadcastsOf(steps) == BroadcastsOf(steps);
    assert Served(After(Initial<T>(), steps), i);
  }

  /**
   Two consumers have seen what both accept in one order: between broadcasts, what the later one took of it
   is a final part of what the earlier one took.
   */
  lemma SharedOrder<T(!new)>(s: State<T>, i: nat, j: nat)
    requires Inv(s) && s.sending.None? && i < |s.queues| && j < |s.queues|
    requires s.consumers[s.queues[i]].since <= s.consumers[s.queues[j]].since
    ensures var c, d := s.consumers[s.queues[i]], s.consumers[s.queues[j]];
            exists first :: Accepted(d.filter, c.Total()) == first + Accepted(c.filter, d.Total())
  {
    var c, d := s.consumers[s.queues[i]], s.consumers[s.queues[j]];
    assert Served(s, i) && Served(s, j);
    var early, late := s.sent[c.since..d.since], s.sent[d.since..];
    assert s.sent[c.since..|s.sent|] == early + late && s.sent[d.since..|s.sent|] == late;
    AcceptedConcat(c.filter, early, late);
    AcceptedConcat(d.filter, Accepted(c.filter, early), Accepted(c.filter, late));
    FiltersCommute(c.filter, d.filter, late);
  }
}

module Channels {
  import opened BroadcastProtocol
  import opened Wrappers

  class ChannelSingleQueue<!T(!new)> {
    const filter: Filter<T>
    var queue: seq<T>

    constructor (filter: Filter<T>)
      ensures this.filter == filter && queue == []
    {
      this.filter, queue := filter, [];
    }

    /** Whether the queue would take the message from no stream of messages whatever. */
    predicate IsRejected(message: T): (rejected: bool)
      ensures rejected <==> forall messages :: message !in Accepted(filter, messages)
      ensures rejected <==> filter.Some? && !filter.value(message)
    {
      TakesWhatItAccepts(filter, message);
      if filter.None? then false else !filter.value(message)
    }

    method Send(message: T)
      modifies this
      ensures queue == old(queue) + Accepted(filter, [message])
      ensures queue == if filter.None? || filter.value(message) then old(queue) + [message] else old(queue)
    {
      AcceptedOne(filter, message);
      if IsRejected(message) {
        return;
      }
      queue := queue + [message];
    }

    /** Pops the oldest message, if there is one: the same messages are received and held as before. */
    method Receive() returns (message: Option<T>)
      modifies this
      ensures message.None? <==> old(queue) == []
      ensures message.None? ==> queue == []
      ensures message.Some? ==> old(queue) == [message.value] + queue
    {
      if queue == [] {
        return None;
      }
      message := Some(queue[0]);
      queue := queue[1..];
    }
  }

  class ChannelMultiQueue<!T(!new)> {
    var queues: seq<ChannelSingleQueue<T>>

    ghost predicate Valid()
      reads this
    {
      forall i, j :: 0 <= i < j < |queues| ==> queues[i] != queues[j]
    }

    constructor ()
      ensures Valid() && queues == []
    {
      queues := [];
    }

    method CreateConsumer(filter: Filter<T>) returns (consumer: ChannelSingleQueue<T>)
      requires Valid()
      modifies this
      ensures Valid() && fresh(consumer) && queues == old(queues) + [consumer]
      ensures consumer.filter == filter && consumer.queue == []
    {
      consumer := new ChannelSingleQueue(filter);
      queues := queues + [consumer];
    }

    /** Every queue gets the message if its filter accepts it. */
    method Send(message: T)
      requires Valid()
      modifies queues
      ensures forall q :: q in queues ==>
                q.queue == if q.filter.None? || q.filter.value(message) then old(q.queue) + [message] else old(q.queue)
    {
      for i := 0 to |queues|
        invariant forall k :: 0 <= k < i ==>
          queues[k].queue == if queues[k].filter.None? || queues[k].filter.value(message)
                             then old(queues[k].queue) + [message] else old(queues[k].queue)
        invariant forall k :: i <= k < |queues| ==> queues[k].queue == old(queues[k].queue)
      {
        queues[i].Send(message);
      }
    }
  }
}
