/**
 One producer and one consumer of the message queue, sharing a condition variable. Waiting releases
 the lock and sleeps in one step; the signal comes after the lock is released, in a step of its own.
 A sleeper may also wake up for no reason.
 */
module MsgQueueThreads {
  import opened Bytes
  import opened MsgQueue

  datatype Producer = Producing | SendAsleep(msg: seq<Byte>) | SendAwake(msg: seq<Byte>) | SendSignals
  datatype Consumer = Consuming | RecvAsleep(size: nat) | RecvAwake(size: nat) | RecvSignals

  /** `sent` logs the messages enqueued, `received` what the consumer copied out of the slots. */
  datatype State = State(
    slots: Slots,
    producer: Producer,
    consumer: Consumer,
    sent: seq<seq<Byte>>,
    received: seq<seq<Byte>>)

  datatype Action =
    | Send(msg: seq<Byte>)
    | SendRetries
    | SendSignal
    | Recv(size: nat, noWait: bool)
    | RecvRetries
    | RecvSignal
    | SpuriousWake(producer: bool)

  function Start(slots: Slots): State
  {
    State(slots, Producing, Consuming, [], [])
  }

  predicate Enabled(s: State, a: Action)
  {
    match a
    case Send(_) => s.producer.Producing?
    case SendRetries => s.producer.SendAwake?
    case SendSignal => s.producer.SendSignals?
    case Recv(_, _) => s.consumer.Consuming?
    case RecvRetries => s.consumer.RecvAwake?
    case RecvSignal => s.consumer.RecvSignals?
    case SpuriousWake(p) => if p then s.producer.SendAsleep? else s.consumer.RecvAsleep?
  }

  /** The loop test of msg_q_send and what follows it, lock held. */
  function SendPass(s: State, msg: seq<Byte>): State
    requires Valid(s.slots) && |msg| <= s.slots.eachSize
  {
    if s.slots.filled >= |s.slots.data| then s.(producer := SendAsleep(msg))
    else s.(slots := Insert(s.slots, msg), producer := SendSignals, sent := s.sent + [msg])
  }

  /** The loop test of msg_q_recv for `size` bytes and what follows it, lock held. */
  function RecvPass(s: State, size: nat, noWait: bool): State
    requires Valid(s.slots) && size <= s.slots.eachSize
  {
    if s.slots.filled == 0 then s.(consumer := if noWait then Consuming else RecvAsleep(size))
    else
      s.(slots := Remove(s.slots), consumer := RecvSignals,
         received := s.received + [s.slots.data[s.slots.cur][..size]])
  }

  function Apply(s: State, a: Action): State
    requires Inv(s) && Enabled(s, a)
  {
    match a
    case Send(msg) => if |msg| > s.slots.eachSize then s else SendPass(s, msg)
    case SendRetries => SendPass(s, s.producer.msg)
    case SendSignal =>
      s.(producer := Producing, consumer := if s.consumer.RecvAsleep? then RecvAwake(s.consumer.size) else s.consumer)
    case Recv(size, noWait) => if size > s.slots.eachSize then s else RecvPass(s, size, noWait)
    case RecvRetries => RecvPass(s, s.consumer.size, false)
    case RecvSignal =>
      s.(consumer := Consuming,
         producer := if s.producer.SendAsleep? then SendAwake(s.producer.msg) else s.producer)
    case SpuriousWake(p) =>
      if p then s.(producer := SendAwake(s.producer.msg)) else s.(consumer := RecvAwake(s.consumer.size))
  }

  /** The bytes `a` and `b` have in common agree: one is the beginning of the other. */
  predicate Agree(a: seq<Byte>, b: seq<Byte>)
  {
    a <= b || b <= a
  }

  /** The slots in use begin with the messages not yet received, oldest first. */
  predicate Holds(slots: Slots, msgs: seq<seq<Byte>>)
    requires Valid(slots)
  {
    |msgs| == slots.filled && forall k :: 0 <= k < |msgs| ==> msgs[k] <= Contents(slots)[k]
  }

  /** What was received is what was sent, in order, cut or padded to the size asked for. */
  predicate Delivered(sent: seq<seq<Byte>>, received: seq<seq<Byte>>)
  {
    |received| <= |sent| && forall i :: 0 <= i < |received| ==> Agree(sent[i], received[i])
  }

  predicate Inv(s: State)
  {
    && Valid(s.slots)
    && (s.producer.SendAsleep? || s.producer.SendAwake? ==> |s.producer.msg| <= s.slots.eachSize)
    && (s.consumer.RecvAsleep? || s.consumer.RecvAwake? ==> s.consumer.size <= s.slots.eachSize)
    // a sleeper whose condition holds is about to be signalled
    && (s.consumer.RecvAsleep? && s.slots.filled > 0 ==> s.producer.SendSignals?)
    && (s.producer.SendAsleep? && s.slots.filled < |s.slots.data| ==> s.consumer.RecvSignals?)
    && Delivered(s.sent, s.received) && Holds(s.slots, s.sent[|s.received|..])
  }

  lemma StartInv(slots: Slots)
    requires Valid(slots) && slots.filled == 0
    ensures Inv(Start(slots))
  {
  }

  lemma InsertHolds(slots: Slots, msgs: seq<seq<Byte>>, msg: seq<Byte>)
    requires Valid(slots) && slots.filled < |slots.data| && |msg| <= slots.eachSize && Holds(slots, msgs)
    ensures Valid(Insert(slots, msg)) && Holds(Insert(slots, msg), msgs + [msg])
  {
    InsertAppends(slots, msg);
    var stored := Stored(slots.data[SlotOf(slots, slots.filled)], msg);
    assert msg <= stored;
    hide Contents, Valid, Stored, SlotOf;
  }

  lemma RemoveHolds(slots: Slots, msgs: seq<seq<Byte>>)
    requires Valid(slots) && 0 < slots.filled && Holds(slots, msgs)
    ensures Valid(Remove(slots)) && Holds(Remove(slots), msgs[1..]) && msgs[0] <= slots.data[slots.cur]
  {
    RemoveTakesOldest(slots);
    hide Contents, Valid;
  }

  lemma TwoPrefixes(a: seq<Byte>, slot: seq<Byte>, size: nat)
    requires a <= slot && size <= |slot|
    ensures Agree(a, slot[..size])
  {
  }

  lemma SendInv(s: State, msg: seq<Byte>)
    requires Inv(s) && |msg| <= s.slots.eachSize && (s.producer.Producing? || s.producer.SendAwake?)
    ensures Inv(SendPass(s, msg))
  {
    if s.slots.filled < |s.slots.data| {
      InsertHolds(s.slots, s.sent[|s.received|..], msg);
      hide Holds, Valid, Agree;
      assert (s.sent + [msg])[|s.received|..] == s.sent[|s.received|..] + [msg];
    }
  }

  lemma RecvInv(s: State, size: nat, noWait: bool)
    requires Inv(s) && size <= s.slots.eachSize && (s.consumer.Consuming? || s.consumer.RecvAwake?)
    ensures Inv(RecvPass(s, size, noWait))
  {
    if s.slots.filled > 0 {
      var n := |s.received|;
      RemoveHolds(s.slots, s.sent[n..]);
      TwoPrefixes(s.sent[n], s.slots.data[s.slots.cur], size);
      hide Holds, Agree;
      assert s.sent[n + 1..] == s.sent[n..][1..];
    }
  }

  lemma StepInv(s: State, a: Action)
    requires Inv(s) && Enabled(s, a)
    ensures Inv(Apply(s, a))
  {
    hide Holds, Delivered, SendPass, RecvPass;
    match a
    case Send(msg) =>
      if |msg| <= s.slots.eachSize {
        SendInv(s, msg);
      }
    case SendRetries => SendInv(s, s.producer.msg);
    case Recv(size, noWait) =>
      if size <= s.slots.eachSize {
        RecvInv(s, size, noWait);
      }
    case RecvRetries => RecvInv(s, s.consumer.size, false);
    case _ =>
  }

  predicate Feasible(s: State, trace: seq<Action>)
    requires Inv(s)
    decreases |trace|
  {
    trace == [] || (Enabled(s, trace[0]) && (StepInv(s, trace[0]); Feasible(Apply(s, trace[0]), trace[1..])))
  }

  function Run(s: State, trace: seq<Action>): State
    requires Inv(s) && Feasible(s, trace)
    decreases |trace|
  {
    if trace == [] then s else StepInv(s, trace[0]); Run(Apply(s, trace[0]), trace[1..])
  }

  lemma {:induction false} RunInv(s: State, trace: seq<Action>)
    requires Inv(s) && Feasible(s, trace)
    ensures Inv(Run(s, trace))
    decreases |trace|
  {
    hide Inv, Apply, Enabled;
    if trace != [] {
      StepInv(s, trace[0]);
      RunInv(Apply(s, trace[0]), trace[1..]);
    }
  }

  /**
   Over every interleaving the queue is a bounded FIFO: the i-th message received is the i-th sent
   (exactly, when it is asked for at its own size), the rest is in the slots in order. And no
   wake-up is lost: a sleeping thread whose condition holds has the other between its unlock and its
   signal, and never do both sleep.
   */
  lemma RunIsBoundedFifo(slots: Slots, trace: seq<Action>)
    requires Valid(slots) && slots.filled == 0 && Inv(Start(slots)) && Feasible(Start(slots), trace)
    ensures var t := Run(Start(slots), trace);
            && Inv(t) && 0 <= |t.sent| - |t.received| <= |t.slots.data|
            && (forall i :: 0 <= i < |t.received| ==>
                  Agree(t.sent[i], t.received[i])
                  && (|t.sent[i]| == |t.received[i]| ==> t.sent[i] == t.received[i]))
            && Holds(t.slots, t.sent[|t.received|..])
            && (t.consumer.RecvAsleep? && |t.received| < |t.sent| ==> t.producer.SendSignals?)
            && (t.producer.SendAsleep? && |t.sent| - |t.received| < |t.slots.data| ==> t.consumer.RecvSignals?)
            && !(t.consumer.RecvAsleep? && t.producer.SendAsleep?)
  {
    RunInv(Start(slots), trace);
    hide Feasible, Run;
  }

  // ---------------------------------------------------------------------------------------
  // What each call ends with
  // ---------------------------------------------------------------------------------------

  /** The message a pass of msg_q_send is about. */
  function Outgoing(s: State, a: Action): seq<Byte>
    requires a.Send? || (a.SendRetries? && s.producer.SendAwake?)
  {
    if a.Send? then a.msg else s.producer.msg
  }

  /**
   msg_q_send, first pass or after a wait: refused for its size, or enqueued exactly when there is a
   slot, and asleep with its message exactly when there is none.
   */
  lemma SendEnqueuesOrSleeps(s: State, a: Action)
    requires Inv(s) && Enabled(s, a) && (a.Send? || a.SendRetries?)
    ensures var t, msg := Apply(s, a), Outgoing(s, a);
            if |msg| > s.slots.eachSize then a.Send? && t == s
            else if |s.sent| - |s.received| < |s.slots.data| then t.sent == s.sent + [msg] && t.producer.SendSignals?
            else t.sent == s.sent && t.slots == s.slots && t.producer == SendAsleep(msg)
    ensures Apply(s, a).received == s.received && Apply(s, a).consumer == s.consumer
  {
    hide Contents, Agree, Insert;
  }

  /** The bytes a pass of msg_q_recv asks for. */
  function Wanted(s: State, a: Action): nat
    requires a.Recv? || (a.RecvRetries? && s.consumer.RecvAwake?)
  {
    if a.Recv? then a.size else s.consumer.size
  }

  /** msg_q_recv: the first `size` bytes of the oldest slot exactly when there is a message; else 1 or a sleep. */
  lemma RecvTakesOrSleeps(s: State, a: Action)
    requires Inv(s) && Enabled(s, a) && (a.Recv? || a.RecvRetries?)
    ensures var t, size := Apply(s, a), Wanted(s, a);
            if size > s.slots.eachSize then a.Recv? && t == s
            else if |s.received| < |s.sent| then
              && |t.received| == |s.received| + 1 && t.received[..|s.received|] == s.received
              && |t.received[|s.received|]| == size && Agree(t.received[|s.received|], s.sent[|s.received|])
              && t.consumer.RecvSignals?
            else
              && t.received == s.received && t.slots == s.slots
              && t.consumer == (if a == Recv(size, true) then Consuming else RecvAsleep(size))
    ensures Apply(s, a).sent == s.sent && Apply(s, a).producer == s.producer
  {
    if s.slots.filled > 0 {
      RemoveHolds(s.slots, s.sent[|s.received|..]);
      TwoPrefixes(s.sent[|s.received|], s.slots.data[s.slots.cur], if a.Recv? && a.size > s.slots.eachSize then 0 else Wanted(s, a));
    }
    hide Contents, Remove;
  }

  /** A signal ends the call and wakes the other side if it sleeps; it changes nothing else. */
  lemma SignalWakes(s: State, a: Action)
    requires Inv(s) && Enabled(s, a) && (a.SendSignal? || a.RecvSignal?)
    ensures var t := Apply(s, a);
            && t.slots == s.slots && t.sent == s.sent && t.received == s.received
            && (a.SendSignal? ==> t.producer.Producing? && !t.consumer.RecvAsleep?)
            && (a.RecvSignal? ==> t.consumer.Consuming? && !t.producer.SendAsleep?)
  {
    hide Contents;
  }

  /** A sleeper that wakes for no reason tries again with what it was called with. */
  lemma SpuriousWakeRetries(s: State, p: bool)
    requires Inv(s) && Enabled(s, SpuriousWake(p))
    ensures var t := Apply(s, SpuriousWake(p));
            if p then t.producer == SendAwake(s.producer.msg) && Enabled(t, SendRetries)
            else t.consumer == RecvAwake(s.consumer.size) && Enabled(t, RecvRetries)
  {
    hide Inv;
  }
}
