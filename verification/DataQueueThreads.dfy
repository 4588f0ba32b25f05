/**
 The data queue as one writer thread, one reader thread and one caller of data_queue_wakeup run
 it. A step is one critical section under the queue's lock, one store through the writer's
 pointer, or one half of a wait: `_WAIT_BITS` waits for its bit and then clears it, in two steps
 and with the lock released.
 */
module DataQueueThreads {
  import opened Bytes
  import opened DataQueueSpec

  /** Where the writer is; `n` is the payload size it asked for. */
  datatype Writer =
    | WriterIdle
    | WriterParked(n: int)   // waiting for the CONSUME bit
    | WriterWoken(n: int)    // the wait is over, the bit not cleared yet
    | WriterCleared(n: int)  // about to take the lock again
    | Writing(addr: int, n: int, draft: seq<Byte>)  // holds a pointer; `draft` is what it has stored there

  /** Where the reader is. */
  datatype Reader =
    | ReaderIdle
    | ReaderParked
    | ReaderWoken
    | ReaderCleared
    | Reading(addr: int, len: int)

  /** Where the caller of data_queue_wakeup is. */
  datatype Waker = WakerIdle | WakerParked | WakerWoken | WakerCleared

  /**
   `sent` logs every block as its writer last saw it, `taken` every consumed block as its reader
   saw it through the raw pointer. `peeked` records a peek_unlock since the last wakeup began.
   */
  datatype State = State(
    ring: Ring,
    quit: bool,
    user: int,
    arrive: bool,
    consume: bool,
    userFree: bool,
    writer: Writer,
    reader: Reader,
    waker: Waker,
    sent: seq<seq<Byte>>,
    taken: seq<seq<Byte>>,
    peeked: bool)

  datatype Action =
    | GetBuffer(n: int)
    | WriterWakes
    | WriterClears
    | WriterRetries
    | StoreByte(i: int, v: Byte)
    | SendBuffer(m: int)
    | ReadLock
    | ReaderWakes
    | ReaderClears
    | ReaderRetries
    | ReadUnlock
    | PeekUnlock
    | ConsumeAll
    | Wakeup
    | WakerWakes
    | WakerClears
    | WakerRetries

  function Start(buf: seq<Byte>): State
  {
    State(Init(buf), false, 0, false, false, false, WriterIdle, ReaderIdle, WakerIdle, [], [], false)
  }

  // ---------------------------------------------------------------------------------------
  // Steps
  // ---------------------------------------------------------------------------------------

  predicate Enabled(s: State, a: Action)
  {
    match a
    case GetBuffer(n) => s.writer.WriterIdle? && 0 <= n <= INT_MAX - HEAD
    case WriterWakes => s.writer.WriterParked? && s.consume
    case WriterClears => s.writer.WriterWoken?
    case WriterRetries => s.writer.WriterCleared?
    case StoreByte(i, _) => s.writer.Writing? && 0 <= i < s.writer.n
    case SendBuffer(m) => s.writer.Writing? && 0 <= m <= s.writer.n
    case ReadLock => s.reader.ReaderIdle?
    case ReaderWakes => s.reader.ReaderParked? && s.arrive
    case ReaderClears => s.reader.ReaderWoken?
    case ReaderRetries => s.reader.ReaderCleared?
    case ReadUnlock => s.reader.Reading?
    case PeekUnlock => s.reader.Reading?
    case ConsumeAll => s.reader.ReaderIdle? && Valid(s.ring) && (s.quit || !ConsumeAllTraps(s.ring))
    case Wakeup => s.waker.WakerIdle?
    case WakerWakes => s.waker.WakerParked? && s.userFree
    case WakerClears => s.waker.WakerWoken?
    case WakerRetries => s.waker.WakerCleared?
  }

  /** One pass of the get_buffer loop, lock held, quit not set. */
  function WriterPass(s: State, n: int): State
    requires Valid(s.ring) && 0 <= n
  {
    var ring := Wrap(s.ring, n + HEAD);
    WrapKeepsQueue(s.ring, n + HEAD);
    if n + HEAD <= Available(ring) then
      ReservedRegionIsFree(ring, n + HEAD);
      var addr := ring.wp + HEAD;
      s.(ring := ring, user := s.user + 1, writer := Writing(addr, n, ring.buf[addr..addr + n]))
    else
      s.(ring := ring, user := s.user + 1, writer := WriterParked(n))
  }

  /** One pass of the read_lock loop, lock held, quit not set. */
  function ReaderPass(s: State): State
    requires Valid(s.ring)
  {
    if s.ring.filled == 0 then
      s.(user := s.user + 1, reader := ReaderParked)
    else
      var p := DerivedReadPos(s.ring);
      DerivedReadPosIsOldest(s.ring);
      s.(user := s.user + 1, reader := Reading(p + HEAD, ReadInt(s.ring.buf, p) - HEAD))
  }

  /** The end of a wait: the user count drops, and the USER_FREE bit is set. */
  function EndWait(s: State): State
  {
    s.(user := s.user - 1, userFree := true)
  }

  /** The writer stores one byte through its pointer, without the lock. */
  function Store(s: State, i: int, v: Byte): State
    requires WriterOk(s) && s.writer.Writing? && 0 <= i < s.writer.n
  {
    s.(ring := s.ring.(buf := s.ring.buf[s.writer.addr + i := v]),
       writer := s.writer.(draft := s.writer.draft[i := v]))
  }

  function Send(s: State, m: int): State
    requires Valid(s.ring) && s.writer.Writing? && 0 <= m <= |s.writer.draft|
  {
    var t := s.(user := s.user - 1, userFree := true, writer := WriterIdle);
    if m == 0 then t
    else if Available(s.ring) >= m + HEAD then
      t.(ring := Commit(s.ring, m), arrive := true, sent := s.sent + [s.writer.draft[..m]])
    else t
  }

  /** The bytes the reader finds behind its raw pointer. */
  function Observed(s: State): seq<Byte>
    requires s.reader.Reading?
    requires 0 <= s.reader.addr && 0 <= s.reader.len && s.reader.addr + s.reader.len <= |s.ring.buf|
  {
    s.ring.buf[s.reader.addr..s.reader.addr + s.reader.len]
  }

  function Unlock(s: State): State
    requires Valid(s.ring) && ReaderOk(s) && s.reader.Reading?
  {
    if HaveData(s.ring) then
      s.(ring := Pop(s.ring), user := s.user - 1, consume := true, userFree := true,
         reader := ReaderIdle, taken := s.taken + [Observed(s)])
    else
      s.(reader := ReaderIdle)
  }

  function Discard(s: State): State
    requires Valid(s.ring)
  {
    if s.quit || !HaveData(s.ring) then s
    else s.(ring := Drain(s.ring), consume := true, taken := s.taken + Queue(s.ring))
  }

  function Apply(s: State, a: Action): State
    requires Inv(s) && Enabled(s, a)
  {
    match a
    case GetBuffer(n) =>
      if n + HEAD > |s.ring.buf| || s.quit then s else WriterPass(s, n)
    case WriterWakes => s.(writer := WriterWoken(s.writer.n))
    case WriterClears => s.(consume := false, writer := WriterCleared(s.writer.n))
    case WriterRetries =>
      var t := EndWait(s).(writer := WriterIdle);
      if s.quit then t else WriterPass(t, s.writer.n)
    case StoreByte(i, v) => Store(s, i, v)
    case SendBuffer(m) => Send(s, m)
    case ReadLock => if s.quit then s else ReaderPass(s)
    case ReaderWakes => s.(reader := ReaderWoken)
    case ReaderClears => s.(arrive := false, reader := ReaderCleared)
    case ReaderRetries =>
      var t := EndWait(s).(reader := ReaderIdle);
      if s.quit then t else ReaderPass(t)
    case ReadUnlock => Unlock(s)
    case PeekUnlock => s.(user := s.user - 1, reader := ReaderIdle, peeked := true)
    case ConsumeAll => Discard(s)
    case Wakeup =>
      s.(quit := true, arrive := true, consume := true, peeked := false,
         waker := if s.user != 0 then WakerParked else WakerIdle,
         userFree := s.userFree)
    case WakerWakes => s.(waker := WakerWoken)
    case WakerClears => s.(userFree := false, waker := WakerCleared)
    case WakerRetries => s.(waker := if s.user != 0 then WakerParked else WakerIdle)
  }

  // ---------------------------------------------------------------------------------------
  // The invariant
  // ---------------------------------------------------------------------------------------

  /** The writer's region is reserved for it and holds exactly what it stored there. */
  predicate WriterOk(s: State)
  {
    match s.writer
    case WriterIdle => true
    case Writing(addr, n, draft) =>
      && 0 <= n && |draft| == n && addr == s.ring.wp + HEAD && 0 <= s.ring.wp
      && addr + n <= |s.ring.buf| && n + HEAD <= Available(s.ring)
      && s.ring.buf[addr..addr + n] == draft
    case _ => 0 <= s.writer.n && s.writer.n + HEAD <= |s.ring.buf|
  }

  /** The reader's pointer designates the oldest block, byte for byte. */
  predicate ReaderOk(s: State)
    requires Valid(s.ring)
  {
    s.reader.Reading? ==>
      && Queue(s.ring) != []
      && 0 <= s.reader.addr == s.ring.rp + HEAD && s.reader.len == |Queue(s.ring)[0]|
      && s.reader.addr + s.reader.len <= |s.ring.buf|
      && Observed(s) == Queue(s.ring)[0]
  }

  /** `user` counts the threads that wait or hold a pointer. */
  predicate UserOk(s: State)
  {
    s.user == (if s.writer.WriterIdle? then 0 else 1) + (if s.reader.ReaderIdle? then 0 else 1)
  }

  /** No wake-up is lost: a thread parked on a clear bit really has to wait. */
  predicate WakeOk(s: State)
  {
    && (s.reader.ReaderParked? && !s.arrive ==> s.ring.filled == 0 && !s.quit)
    && (s.writer.WriterParked? && !s.consume ==> !Grants(s.ring, s.writer.n) && !s.quit)
    && (s.waker.WakerParked? && !s.userFree && !s.peeked ==> s.user > 0)
  }

  predicate Inv(s: State)
  {
    && Valid(s.ring)
    && WriterOk(s)
    && ReaderOk(s)
    && UserOk(s)
    && WakeOk(s)
    && s.sent == s.taken + Queue(s.ring)
  }

  lemma StartInv(buf: seq<Byte>)
    requires |buf| <= INT_MAX
    ensures Inv(Start(buf))
  {
    NoBlocks(buf, 0);
  }

  /** A pass of the get_buffer loop keeps the reader's block and never parks without cause. */
  lemma PassInv(s: State, n: int)
    requires Valid(s.ring) && 0 <= n && n + HEAD <= |s.ring.buf| && !s.quit && s.writer.WriterIdle?
    requires ReaderOk(s) && UserOk(s) && WakeOk(s) && s.sent == s.taken + Queue(s.ring)
    ensures Inv(WriterPass(s, n))
  {
    hide Valid, Queue, HaveData, Available, Wrap;
    WrapKeepsQueue(s.ring, n + HEAD);
    if !Grants(s.ring, n) {
      FailedPass(s.ring, n);
    } else {
      ReservedRegionIsFree(Wrap(s.ring, n + HEAD), n + HEAD);
    }
  }

  lemma ReaderPassInv(s: State)
    requires Valid(s.ring) && !s.quit && s.reader.ReaderIdle?
    requires WriterOk(s) && UserOk(s) && WakeOk(s) && s.sent == s.taken + Queue(s.ring)
    ensures Inv(ReaderPass(s))
  {
    hide Valid, Queue, ReadInt, DerivedReadPos, Grants, Available;
    if s.ring.filled != 0 {
      DerivedReadPosIsOldest(s.ring);
    }
  }

  /** Storing through the writer's pointer leaves every block and the reader's view alone. */
  lemma StoreInv(s: State, i: int, v: Byte)
    requires Inv(s) && s.writer.Writing? && 0 <= i < s.writer.n
    ensures Inv(Store(s, i, v))
  {
    hide Valid, Queue, Grants, Available;
    var r, addr, n, t := s.ring, s.writer.addr, s.writer.n, Store(s, i, v);
    StoreKeepsQueue(r, n + HEAD, addr + i, v);
    assert WriterOk(t) by {
      StoreInWindow(r.buf, addr, n, i, v);
    }
    assert ReaderOk(t) by {
      if s.reader.Reading? {
        ReservedAvoidsOldest(r, n + HEAD);
        StoreOutsideWindow(r.buf, s.reader.addr, s.reader.len, addr + i, v);
      }
    }
  }

  /** Sending no more than was asked for always succeeds, whatever the reader did meanwhile. */
  lemma SendWithinRequestSucceeds(s: State, m: int)
    requires Inv(s) && s.writer.Writing? && 0 <= m <= s.writer.n
    ensures Inv(Send(s, m))
    ensures m > 0 ==>
              var block := s.writer.draft[..m];
              && Send(s, m).sent == s.sent + [block] && Send(s, m).arrive
              && Queue(Send(s, m).ring) == Queue(s.ring) + [block]
  {
    hide Valid, Queue, Wrap, HaveData, ReadInt, Grants, Commit;
    var r := s.ring;
    if m > 0 {
      CommitAppends(r, m);
      CommitShape(r, m);
      assert r.buf[r.wp + HEAD..r.wp + HEAD + m] == s.writer.draft[..m];
      if s.reader.Reading? {
        ReservedAvoidsOldest(r, m + HEAD);
        SameSlice(Commit(r, m).buf, r.buf, s.reader.addr, s.reader.len);
      }
    }
  }

  lemma SameSlice(a: seq<Byte>, b: seq<Byte>, p: int, n: int)
    requires |a| == |b| && 0 <= p && 0 <= n && p + n <= |a|
    requires forall i :: p <= i < p + n ==> a[i] == b[i]
    ensures a[p..p + n] == b[p..p + n]
  {
  }

  lemma UnlockInv(s: State)
    requires Inv(s) && s.reader.Reading?
    ensures Inv(Unlock(s))
    ensures Unlock(s).taken == s.taken + [Queue(s.ring)[0]] && Unlock(s).consume
  {
    hide Valid, Queue, Wrap, HaveData, ReadInt, Grants, Pop;
    EmptinessTestsAgree(s.ring);
    PopRemovesOldest(s.ring);
    var q := Queue(s.ring);
    assert q == [q[0]] + q[1..];
    assert s.ring.filled != 0;
  }

  lemma DiscardInv(s: State)
    requires Inv(s) && s.reader.ReaderIdle?
    ensures Inv(Discard(s))
    ensures !s.quit ==> Queue(Discard(s).ring) == []
  {
    hide Valid, Queue, Wrap, ReadInt, Grants, Drain;
    EmptinessTestsAgree(s.ring);
    DrainEmpties(s.ring);
    assert s.ring.buf == Drain(s.ring).buf;
  }

  lemma WriterStepInv(s: State, a: Action)
    requires Inv(s) && Enabled(s, a)
    requires a.GetBuffer? || a.WriterRetries? || a.StoreByte? || a.SendBuffer?
    ensures Inv(Apply(s, a))
  {
    hide Valid, Queue, HaveData, Grants, Available, WriterPass, ReaderPass, Store, Send, Unlock, Discard;
    match a
    case GetBuffer(n) =>
      if n + HEAD <= |s.ring.buf| && !s.quit {
        PassInv(s, n);
      }
    case WriterRetries =>
      if !s.quit {
        PassInv(EndWait(s).(writer := WriterIdle), s.writer.n);
      }
    case StoreByte(i, v) => StoreInv(s, i, v);
    case SendBuffer(m) => SendWithinRequestSucceeds(s, m);
  }

  lemma ReaderStepInv(s: State, a: Action)
    requires Inv(s) && Enabled(s, a)
    requires a.ReadLock? || a.ReaderRetries? || a.ReadUnlock? || a.PeekUnlock? || a.ConsumeAll?
    ensures Inv(Apply(s, a))
  {
    hide Valid, Queue, HaveData, Grants, Available, WriterPass, ReaderPass, Store, Send, Unlock, Discard;
    match a
    case ReadLock =>
      if !s.quit {
        ReaderPassInv(s);
      }
    case ReaderRetries =>
      if !s.quit {
        ReaderPassInv(EndWait(s).(reader := ReaderIdle));
      }
    case ReadUnlock => UnlockInv(s);
    case PeekUnlock =>
    case ConsumeAll => DiscardInv(s);
  }

  /** Every step keeps the invariant. */
  lemma StepInv(s: State, a: Action)
    requires Inv(s) && Enabled(s, a)
    ensures Inv(Apply(s, a))
  {
    hide Valid, Queue, HaveData, Grants, Available, WriterPass, ReaderPass, Store, Send, Unlock, Discard;
    if a.GetBuffer? || a.WriterRetries? || a.StoreByte? || a.SendBuffer? {
      WriterStepInv(s, a);
    } else if a.ReadLock? || a.ReaderRetries? || a.ReadUnlock? || a.PeekUnlock? || a.ConsumeAll? {
      ReaderStepInv(s, a);
    }
  }

  // ---------------------------------------------------------------------------------------
  // Runs
  // ---------------------------------------------------------------------------------------

  /** `trace` is an interleaving the three threads can take from `s`. */
  predicate Feasible(s: State, trace: seq<Action>)
    requires Inv(s)
    decreases |trace|
  {
    trace == [] || (Enabled(s, trace[0]) && (StepInv(s, trace[0]); Feasible(Apply(s, trace[0]), trace[1..])))
  }

  function Run(s: State, trace: seq<Action>): State
    requires Inv(s) && Feasible(s, trace)
    decreases |trace|
  {
    if trace == [] then s else StepInv(s, trace[0]); Run(Apply(s, trace[0]), trace[1..])
  }

  lemma StepExtendsLogs(s: State, a: Action)
    requires Inv(s) && Enabled(s, a)
    ensures s.sent <= Apply(s, a).sent && s.taken <= Apply(s, a).taken
  {
    hide Valid, Queue, HaveData, Grants, Available, Wrap, Inv, Commit, Pop, Drain, WriterOk, ReaderOk, DerivedReadPos;
    match a
    case SendBuffer(m) =>
    case ReadUnlock =>
    case ConsumeAll =>
    case _ =>
  }

  lemma {:induction false} RunInv(s: State, trace: seq<Action>)
    requires Inv(s) && Feasible(s, trace)
    ensures Inv(Run(s, trace)) && s.sent <= Run(s, trace).sent && s.taken <= Run(s, trace).taken
    decreases |trace|
  {
    hide Inv, Apply, Enabled;
    if trace != [] {
      StepInv(s, trace[0]);
      StepExtendsLogs(s, trace[0]);
      RunInv(Apply(s, trace[0]), trace[1..]);
    }
  }

  /**
   Over every interleaving the ring is a FIFO of byte blocks: what the reader consumed is a prefix
   of what the writer sent, what remains is what the headers in the ring spell out, and a reader
   holding a pointer sees exactly the block that is next in order, whatever has happened since it
   was sent.
   */
  lemma RunIsFifo(buf: seq<Byte>, trace: seq<Action>)
    requires |buf| <= INT_MAX && Inv(Start(buf)) && Feasible(Start(buf), trace)
    ensures var t := Run(Start(buf), trace);
            && Inv(t)
            && t.taken <= t.sent
            && t.sent[|t.taken|..] == Queue(t.ring)
            && (t.reader.Reading? ==> |t.taken| < |t.sent| && Observed(t) == t.sent[|t.taken|])
  {
    RunInv(Start(buf), trace);
    hide Valid, Queue, Feasible, Run;
  }

  /** Reader and writer are never both asleep without a wake-up pending. */
  lemma NeverBothStuck(s: State)
    requires Inv(s)
    ensures !(s.reader.ReaderParked? && !s.arrive && s.writer.WriterParked? && !s.consume)
  {
    if s.reader.ReaderParked? && !s.arrive && s.writer.WriterParked? && !s.consume {
      FailedPass(s.ring, s.writer.n);
      EmptinessTestsAgree(s.ring);
      assert false;
    }
  }

  // ---------------------------------------------------------------------------------------
  // A blocked writer's progress
  // ---------------------------------------------------------------------------------------

  predicate Waiting(w: Writer)
  {
    w.WriterParked? || w.WriterWoken? || w.WriterCleared?
  }

  /** The writer is still waiting after every step of the run. */
  predicate WaitsThroughout(s: State, trace: seq<Action>)
    requires Inv(s) && Feasible(s, trace)
    decreases |trace|
  {
    Waiting(s.writer) &&
    (trace != [] ==> (StepInv(s, trace[0]); WaitsThroughout(Apply(s, trace[0]), trace[1..])))
  }

  function Unlocks(trace: seq<Action>): (n: nat)
  {
    if trace == [] then 0 else (if trace[0].ReadUnlock? then 1 else 0) + Unlocks(trace[1..])
  }

  lemma WaitingStep(s: State, a: Action)
    requires Inv(s) && Enabled(s, a) && Waiting(s.writer)
    ensures Waiting(Apply(s, a).writer) ==> Apply(s, a).writer.n == s.writer.n
    ensures Inv(Apply(s, a))
    ensures |Queue(Apply(s, a).ring)| + (if a.ReadUnlock? then 1 else 0) <= |Queue(s.ring)|
  {
    hide Valid, Queue, HaveData, Grants, Available, Wrap, Pop, Drain, Commit, WakeOk, UserOk;
    StepInv(s, a);
    match a
    case ReadUnlock =>
      UnlockInv(s);
      assert s.sent == Apply(s, a).sent;
    case ConsumeAll => DrainEmpties(s.ring);
    case WriterRetries => WrapKeepsQueue(s.ring, s.writer.n + HEAD);
    case _ =>
  }

  /**
   However the run goes, a waiting writer outlasts at most as many read_unlocks as there were
   blocks when the run began; once they are all gone its next pass is granted, and it cannot be
   parked on a clear bit.
   */
  lemma {:induction false} BlockedWriterBound(s: State, trace: seq<Action>)
    requires Inv(s) && Feasible(s, trace) && WaitsThroughout(s, trace)
    ensures var t := Run(s, trace); Inv(t) && Waiting(t.writer) && t.writer.n == s.writer.n
    ensures Unlocks(trace) + |Queue(Run(s, trace).ring)| <= |Queue(s.ring)|
    ensures Unlocks(trace) == |Queue(s.ring)| ==>
              var t := Run(s, trace); Grants(t.ring, s.writer.n) && (t.writer.WriterParked? ==> t.consume)
    decreases |trace|
  {
    if trace == [] {
      if !Grants(s.ring, s.writer.n) {
        FailedPass(s.ring, s.writer.n);
      }
    } else {
      hide Apply, Enabled, Valid, Queue, Grants, Inv;
      WaitingStep(s, trace[0]);
      BlockedWriterBound(Apply(s, trace[0]), trace[1..]);
    }
  }

  // ---------------------------------------------------------------------------------------
  // What each call ends with
  // ---------------------------------------------------------------------------------------

  /** The size the writer's pass is about. */
  function Request(s: State, a: Action): int
    requires a.GetBuffer? || (a.WriterRetries? && s.writer.WriterCleared?)
  {
    if a.GetBuffer? then a.n else s.writer.n
  }

  lemma PassOutcome(s: State, n: int)
    requires Valid(s.ring) && 0 <= n
    ensures var t := WriterPass(s, n);
            if Grants(s.ring, n) then
              t.writer.Writing? && t.writer.n == n && t.writer.addr == t.ring.wp + HEAD
            else
              t.writer == WriterParked(n)
    ensures var t := WriterPass(s, n);
            && t.reader == s.reader && t.waker == s.waker && t.quit == s.quit
            && t.sent == s.sent && t.taken == s.taken
            && t.arrive == s.arrive && t.consume == s.consume && t.userFree == s.userFree
  {
    hide Valid, Wrap, Available;
  }

  /**
   A pass of data_queue_get_buffer, the first one or one after a wait: NULL only for quit or, at
   the start, a request that cannot fit; otherwise a pointer with the requested room exactly when
   the request is granted, and a wait exactly when it is not.
   */
  lemma WriterGetsWhatIsGranted(s: State, a: Action)
    requires Inv(s) && Enabled(s, a) && (a.GetBuffer? || a.WriterRetries?)
    ensures var t, n := Apply(s, a), Request(s, a);
            if s.quit || (a.GetBuffer? && n + HEAD > |s.ring.buf|) then t.writer.WriterIdle?
            else if Grants(s.ring, n) then
              && t.writer.Writing? && t.writer.n == |t.writer.draft| == n
              && t.writer.addr == t.ring.wp + HEAD && t.writer.addr + n <= |t.ring.buf|
            else t.writer == WriterParked(n)
  {
    StepInv(s, a);
    hide Valid, Queue, Grants, Available, Wrap, ReaderOk, UserOk, WakeOk, WriterPass;
    if a.GetBuffer? {
      if !(s.quit || a.n + HEAD > |s.ring.buf|) {
        PassOutcome(s, a.n);
      }
    } else if !s.quit {
      PassOutcome(EndWait(s).(writer := WriterIdle), s.writer.n);
    }
  }

  lemma ReadOutcome(s: State)
    requires Valid(s.ring)
    ensures var t := ReaderPass(s);
            && (t.reader.Reading? <==> s.ring.filled != 0) && (t.reader == ReaderParked <==> s.ring.filled == 0)
            && t.writer == s.writer && t.waker == s.waker && t.quit == s.quit
            && t.arrive == s.arrive && t.consume == s.consume && t.userFree == s.userFree
  {
    hide Valid, DerivedReadPos, ReadInt;
  }

  /** A pass of data_queue_read_lock: -1 only for quit; otherwise the oldest block, or a wait if there is none. */
  lemma ReaderGetsWhatIsThere(s: State, a: Action)
    requires Inv(s) && Enabled(s, a) && (a.ReadLock? || a.ReaderRetries?)
    ensures var t := Apply(s, a);
            if s.quit then t.reader.ReaderIdle?
            else if Queue(s.ring) != [] then
              && t.reader.Reading? && Valid(t.ring) && Queue(t.ring) != []
              && t.reader.len == |Queue(t.ring)[0]| && 0 <= t.reader.addr && t.reader.addr + t.reader.len <= |t.ring.buf|
              && t.ring == s.ring && Observed(t) == Queue(t.ring)[0]
            else t.reader == ReaderParked
  {
    StepInv(s, a);
    EmptinessTestsAgree(s.ring);
    ReaderRing(s, a);
    hide Valid, Queue, HaveData, Grants, Available, WriterOk, UserOk, WakeOk, ReaderPass;
    if !s.quit {
      ReadOutcome(if a.ReadLock? then s else EndWait(s).(reader := ReaderIdle));
    }
  }

  lemma ReaderRing(s: State, a: Action)
    requires Inv(s) && Enabled(s, a) && (a.ReadLock? || a.ReaderRetries?)
    ensures Apply(s, a).ring == s.ring
  {
    hide Valid, Queue, DerivedReadPos, ReadInt, Grants, Available;
  }

  predicate ByWriter(a: Action)
  {
    a.GetBuffer? || a.WriterWakes? || a.WriterClears? || a.WriterRetries? || a.StoreByte? || a.SendBuffer?
  }

  predicate ByReader(a: Action)
  {
    a.ReadLock? || a.ReaderWakes? || a.ReaderClears? || a.ReaderRetries? || a.ReadUnlock? || a.PeekUnlock? || a.ConsumeAll?
  }

  /** Nobody but the writer moves the writer, and nobody but the reader the reader. */
  lemma OnlyOwnSteps(s: State, a: Action)
    requires Inv(s) && Enabled(s, a)
    ensures !ByWriter(a) ==> Apply(s, a).writer == s.writer
    ensures !ByReader(a) ==> Apply(s, a).reader == s.reader
    ensures ByWriter(a) || ByReader(a) ==> Apply(s, a).waker == s.waker && Apply(s, a).quit == s.quit
    ensures s.quit ==> Apply(s, a).quit
  {
    hide Valid, Queue, Grants, Available, Wrap, Pop, Drain, Commit, HaveData, DerivedReadPos, ReadInt, ReaderOk, UserOk, WakeOk;
  }

  /** A wait is over in three steps, and none of the first two changes what is asked for. */
  lemma WaitSteps(s: State, a: Action)
    requires Inv(s) && Enabled(s, a)
    ensures a.WriterWakes? ==> Apply(s, a).writer == WriterWoken(s.writer.n) && Apply(s, a).consume
    ensures a.WriterClears? ==> Apply(s, a).writer == WriterCleared(s.writer.n) && !Apply(s, a).consume
    ensures a.ReaderWakes? ==> Apply(s, a).reader == ReaderWoken && Apply(s, a).arrive
    ensures a.ReaderClears? ==> Apply(s, a).reader == ReaderCleared && !Apply(s, a).arrive
    ensures a.WakerWakes? ==> Apply(s, a).waker == WakerWoken
    ensures a.WakerClears? ==> Apply(s, a).waker == WakerCleared && !Apply(s, a).userFree
  {
    hide Inv;
  }

  /** The steps that end a hold: a send or a cancel, a consuming unlock, a peek. */
  lemma HoldsEnd(s: State, a: Action)
    requires Inv(s) && Enabled(s, a)
    ensures a.SendBuffer? ==> Apply(s, a).writer.WriterIdle? && Apply(s, a).userFree
    ensures a == SendBuffer(0) ==> Apply(s, a).ring == s.ring && Apply(s, a).sent == s.sent
    ensures a.ReadUnlock? ==>
              Apply(s, a).reader.ReaderIdle? && Apply(s, a).consume && Apply(s, a).userFree
    ensures a.PeekUnlock? ==>
              Apply(s, a).reader.ReaderIdle? && Apply(s, a).ring == s.ring && Apply(s, a).taken == s.taken
  {
    if a.ReadUnlock? {
      EmptinessTestsAgree(s.ring);
    }
    hide Valid, Queue, Grants, Available, HaveData, Pop, Commit, WriterOk, WakeOk;
  }

  /** A store puts the byte where the writer's pointer says, and the writer sees it there. */
  lemma StoreStores(s: State, a: Action)
    requires Inv(s) && Enabled(s, a) && a.StoreByte?
    ensures var t, k := Apply(s, a), s.writer.addr + a.i;
            && t.writer.Writing? && t.writer.addr == s.writer.addr && t.writer.draft == s.writer.draft[a.i := a.v]
            && 0 <= k < |s.ring.buf| && t.ring.buf == s.ring.buf[k := a.v]
  {
    hide Valid, Queue, Grants, Available;
  }

  lemma PassSignals(s: State, a: Action)
    requires Inv(s) && Enabled(s, a) && (a.GetBuffer? || a.WriterRetries? || a.ReadLock? || a.ReaderRetries?)
    ensures var t := Apply(s, a);
            && t.arrive == s.arrive && t.consume == s.consume
            && (t.userFree <==> s.userFree || a.WriterRetries? || a.ReaderRetries?)
  {
    hide Valid, Queue, Grants, WriterOk, ReaderOk, UserOk, WakeOk, WriterPass, ReaderPass;
    NotNegative(s, a);
    match a
    case GetBuffer(n) => PassOutcome(s, n);
    case WriterRetries => PassOutcome(EndWait(s).(writer := WriterIdle), s.writer.n);
    case ReadLock => ReadOutcome(s);
    case ReaderRetries => ReadOutcome(EndWait(s).(reader := ReaderIdle));
  }

  lemma NotNegative(s: State, a: Action)
    requires Inv(s) && Enabled(s, a)
    ensures a.WriterRetries? ==> 0 <= s.writer.n
  {
    hide Valid, Queue, Grants;
  }

  lemma OtherSignals(s: State, a: Action)
    requires Inv(s) && Enabled(s, a) && !a.GetBuffer? && !a.WriterRetries? && !a.ReadLock? && !a.ReaderRetries?
    ensures var t := Apply(s, a);
            && (t.arrive <==> (s.arrive && !a.ReaderClears?) || (a.SendBuffer? && a.m > 0) || a.Wakeup?)
            && (t.consume <==>
                  (s.consume && !a.WriterClears?) || a.ReadUnlock? || a.Wakeup?
                  || (a.ConsumeAll? && !s.quit && Queue(s.ring) != []))
            && (t.userFree <==> (s.userFree && !a.WakerClears?) || a.SendBuffer? || a.ReadUnlock?)
  {
    EmptinessTestsAgree(s.ring);
    hide Valid, Queue, Grants, HaveData, Pop, Drain, Commit, WakeOk;
  }

  /**
   Who signals: ARRIVE a send, CONSUME a consuming reader, both of them also a wakeup, USER_FREE the
   end of a hold or of a wait, but not a peek; and who clears.
   */
  lemma WhoSignals(s: State, a: Action)
    requires Inv(s) && Enabled(s, a)
    ensures Apply(s, a).arrive <==>
            (s.arrive && !a.ReaderClears?) || (a.SendBuffer? && a.m > 0) || a.Wakeup?
    ensures Apply(s, a).consume <==>
            (s.consume && !a.WriterClears?) || a.ReadUnlock? || a.Wakeup?
            || (a.ConsumeAll? && !s.quit && Queue(s.ring) != [])
    ensures Apply(s, a).userFree <==>
            (s.userFree && !a.WakerClears?) || a.SendBuffer? || a.ReadUnlock? || a.WriterRetries? || a.ReaderRetries?
  {
    hide Inv, Apply, Enabled, Queue;
    if a.GetBuffer? || a.WriterRetries? || a.ReadLock? || a.ReaderRetries? {
      PassSignals(s, a);
    } else {
      OtherSignals(s, a);
    }
  }

  /** data_queue_wakeup shuts the queue down and returns exactly when no thread waits or holds a pointer. */
  lemma WakeupReturnsIffUnused(s: State, a: Action)
    requires Inv(s) && Enabled(s, a) && (a.Wakeup? || a.WakerRetries?)
    ensures Apply(s, a).waker.WakerIdle? <==> s.writer.WriterIdle? && s.reader.ReaderIdle?
    ensures !Apply(s, a).waker.WakerIdle? ==> Apply(s, a).waker.WakerParked?
    ensures a.Wakeup? ==> Apply(s, a).quit
  {
    hide Valid, Queue, WriterOk, ReaderOk, WakeOk;
  }

  /** data_queue_consume_all takes every block, or none when the queue is shut down. */
  lemma ConsumeAllTakesAll(s: State)
    requires Inv(s) && Enabled(s, ConsumeAll)
    ensures var t := Apply(s, ConsumeAll);
            if s.quit then t == s
            else t.taken == s.sent && t.sent == s.sent && Valid(t.ring) && Queue(t.ring) == []
  {
    DrainEmpties(s.ring);
    EmptinessTestsAgree(s.ring);
    hide Valid, Queue, HaveData, Drain, WriterOk, ReaderOk, WakeOk;
  }

  // ---------------------------------------------------------------------------------------
  // A granted writer is served
  // ---------------------------------------------------------------------------------------

  /** Reading never takes a grant away. */
  lemma PopKeepsGrant(r: Ring, n: int)
    requires Valid(r) && HaveData(r) && 0 <= n && Grants(r, n)
    ensures Valid(Pop(r)) && Grants(Pop(r), n)
  {
    PopRemovesOldest(r);
    DerivedReadPosIsOldest(r);
    EmptinessTestsAgree(r);
    EmptinessTestsAgree(Pop(r));
    hide Queue, Tiled, ReadInt;
    GrantsIff(r, n);
    GrantsIff(Pop(r), n);
  }

  lemma {:induction false} DrainKeepsGrant(r: Ring, n: int)
    requires Valid(r) && 0 <= n && Grants(r, n)
    ensures Valid(Drain(r)) && Grants(Drain(r), n)
    decreases r.filled
  {
    hide Valid, Queue, Grants, Pop;
    if HaveData(r) {
      PopKeepsGrant(r, n);
      ConsumeStep(r);
      DrainKeepsGrant(Pop(r), n);
    }
  }

  lemma GrantStays(s: State, a: Action, n: int)
    requires Inv(s) && Enabled(s, a) && !ByWriter(a) && 0 <= n && Grants(s.ring, n)
    ensures Valid(Apply(s, a).ring) && Grants(Apply(s, a).ring, n)
  {
    if a.ReadUnlock? {
      EmptinessTestsAgree(s.ring);
      PopKeepsGrant(s.ring, n);
    } else if a.ConsumeAll? {
      DrainKeepsGrant(s.ring, n);
    }
    hide Valid, Queue, Grants, Available, HaveData, Pop, Drain, DerivedReadPos, ReadInt, WriterOk, UserOk, WakeOk;
  }

  /** Own steps until a waiting writer has made its next pass. */
  function ToPass(w: Writer): nat
  {
    match w
    case WriterParked(_) => 3
    case WriterWoken(_) => 2
    case WriterCleared(_) => 1
    case _ => 0
  }

  function WriterSteps(trace: seq<Action>): nat
  {
    if trace == [] then 0 else (if ByWriter(trace[0]) then 1 else 0) + WriterSteps(trace[1..])
  }

  /** The writer's step that is next in a wait. */
  function NextOfWait(w: Writer): Action
    requires Waiting(w)
  {
    match w
    case WriterParked(_) => WriterWakes
    case WriterWoken(_) => WriterClears
    case WriterCleared(_) => WriterRetries
  }

  /** A waiting writer whose request is granted can always take its next step. */
  lemma GrantedWriterCanMove(s: State)
    requires Inv(s) && Waiting(s.writer) && Grants(s.ring, s.writer.n)
    ensures Enabled(s, NextOfWait(s.writer))
    ensures 0 <= s.writer.n
  {
    hide Valid, Queue, Grants;
  }

  lemma WriterStepOfWait(s: State, a: Action)
    requires Inv(s) && Enabled(s, a) && Waiting(s.writer) && ByWriter(a)
    ensures a == NextOfWait(s.writer)
    ensures !a.WriterRetries? ==>
              && Waiting(Apply(s, a).writer) && Apply(s, a).writer.n == s.writer.n
              && ToPass(Apply(s, a).writer) < ToPass(s.writer)
              && Apply(s, a).ring == s.ring && Apply(s, a).quit == s.quit
  {
    hide Inv;
  }

  /** The writer has got what it asked for. */
  predicate Holds(s: State, n: int)
  {
    s.writer.Writing? && s.writer.n == n
  }

  /**
   Once a waiting writer's request is granted, nothing takes that away: on every run without a
   shutdown the writer holds a pointer for its request after at most three steps of its own.
   */
  lemma {:induction false} GrantedWriterIsServed(s: State, trace: seq<Action>)
    requires Inv(s) && Feasible(s, trace) && Waiting(s.writer) && Grants(s.ring, s.writer.n)
    requires !Run(s, trace).quit && WriterSteps(trace) >= ToPass(s.writer)
    ensures exists k :: 0 < k <= |trace| && Feasible(s, trace[..k]) && Holds(Run(s, trace[..k]), s.writer.n)
    decreases |trace|
  {
    var a, n := trace[0], s.writer.n;
    var t := Apply(s, a);
    StepInv(s, a);
    QuitOnTheWay(s, trace);
    GrantedWriterCanMove(s);
    OnlyOwnSteps(s, a);
    if ByWriter(a) {
      WriterStepOfWait(s, a);
      if a.WriterRetries? {
        WriterGetsWhatIsGranted(s, a);
        assert trace[1..][..0] == [];
        RunPrefix(s, trace, 0);
        return;
      }
    } else {
      GrantStays(s, a, n);
    }
    hide Inv, Apply, Enabled, Grants, Holds;
    GrantedWriterIsServed(t, trace[1..]);
    var k :| 0 < k <= |trace[1..]| && Feasible(t, trace[1..][..k]) && Holds(Run(t, trace[1..][..k]), n);
    RunPrefix(s, trace, k);
  }

  lemma RunPrefix(s: State, trace: seq<Action>, k: nat)
    requires Inv(s) && trace != [] && k < |trace| && Enabled(s, trace[0])
    requires Inv(Apply(s, trace[0])) && Feasible(Apply(s, trace[0]), trace[1..][..k])
    ensures Feasible(s, trace[..k + 1]) && Run(s, trace[..k + 1]) == Run(Apply(s, trace[0]), trace[1..][..k])
  {
    hide Inv, Enabled, Apply;
    assert trace[..k + 1][1..] == trace[1..][..k];
  }

  /** The steps of a reader's wait. */
  predicate ReaderWaits(r: Reader)
  {
    r.ReaderParked? || r.ReaderWoken? || r.ReaderCleared?
  }

  function ToLock(r: Reader): nat
  {
    match r
    case ReaderParked => 3
    case ReaderWoken => 2
    case ReaderCleared => 1
    case _ => 0
  }

  function NextOfReaderWait(r: Reader): Action
    requires ReaderWaits(r)
  {
    match r
    case ReaderParked => ReaderWakes
    case ReaderWoken => ReaderClears
    case ReaderCleared => ReaderRetries
  }

  function ReaderSteps(trace: seq<Action>): nat
  {
    if trace == [] then 0 else (if ByReader(trace[0]) then 1 else 0) + ReaderSteps(trace[1..])
  }

  /** Blocks that were sent and not taken are what the queue holds. */
  lemma DataIffUntaken(s: State)
    requires Inv(s)
    ensures Valid(s.ring) && (Queue(s.ring) != [] <==> |s.taken| < |s.sent|)
  {
    hide Valid, Queue, WriterOk, ReaderOk, UserOk, WakeOk;
  }

  /** Only the reader takes blocks out. */
  lemma DataStays(s: State, a: Action)
    requires Inv(s) && Enabled(s, a) && !ByReader(a) && |s.taken| < |s.sent|
    ensures |Apply(s, a).taken| < |Apply(s, a).sent|
  {
    StepExtendsLogs(s, a);
    TakenStays(s, a);
    hide Inv, Apply, Enabled;
  }

  lemma TakenStays(s: State, a: Action)
    requires Inv(s) && Enabled(s, a) && !ByReader(a)
    ensures Apply(s, a).taken == s.taken
  {
    NotNegative(s, a);
    hide Valid, Queue, Grants, Commit, WriterOk, ReaderOk, UserOk, WakeOk, WriterPass;
    if a.GetBuffer? {
      PassOutcome(s, a.n);
    } else if a.WriterRetries? {
      PassOutcome(EndWait(s).(writer := WriterIdle), s.writer.n);
    }
  }

  lemma ReaderCanMove(s: State)
    requires Inv(s) && ReaderWaits(s.reader) && Queue(s.ring) != []
    ensures Enabled(s, NextOfReaderWait(s.reader))
  {
    EmptinessTestsAgree(s.ring);
    hide Valid, Queue, Grants;
  }

  lemma ReaderStepOfWait(s: State, a: Action)
    requires Inv(s) && Enabled(s, a) && ReaderWaits(s.reader) && ByReader(a)
    ensures a == NextOfReaderWait(s.reader)
    ensures !a.ReaderRetries? ==>
              && ReaderWaits(Apply(s, a).reader) && ToLock(Apply(s, a).reader) < ToLock(s.reader)
              && Apply(s, a).sent == s.sent && Apply(s, a).taken == s.taken
  {
    hide Inv;
  }

  /** A waiting reader holds the oldest block after at most three steps of its own, once there is one. */
  lemma {:induction false} ReaderIsServed(s: State, trace: seq<Action>)
    requires Inv(s) && Feasible(s, trace) && ReaderWaits(s.reader) && |s.taken| < |s.sent|
    requires !Run(s, trace).quit && ReaderSteps(trace) >= ToLock(s.reader)
    ensures exists k :: 0 < k <= |trace| && Feasible(s, trace[..k]) && Run(s, trace[..k]).reader.Reading?
    decreases |trace|
  {
    var a := trace[0];
    var t := Apply(s, a);
    StepInv(s, a);
    QuitOnTheWay(s, trace);
    DataIffUntaken(s);
    OnlyOwnSteps(s, a);
    if ByReader(a) {
      ReaderStepOfWait(s, a);
      if a.ReaderRetries? {
        ReaderGetsWhatIsThere(s, a);
        assert trace[1..][..0] == [];
        RunPrefix(s, trace, 0);
        return;
      }
    } else {
      DataStays(s, a);
    }
    hide Inv, Apply, Enabled, Valid, Queue;
    ReaderIsServed(t, trace[1..]);
    var k :| 0 < k <= |trace[1..]| && Feasible(t, trace[1..][..k]) && Run(t, trace[1..][..k]).reader.Reading?;
    RunPrefix(s, trace, k);
  }

  /** A queue that is not shut down at the end of a run was not shut down at any point of it. */
  lemma {:induction false} QuitOnTheWay(s: State, trace: seq<Action>)
    requires Inv(s) && Feasible(s, trace) && !Run(s, trace).quit
    ensures !s.quit
    decreases |trace|
  {
    if trace != [] {
      StepInv(s, trace[0]);
      OnlyOwnSteps(s, trace[0]);
      hide Inv, Apply, Enabled;
      QuitOnTheWay(Apply(s, trace[0]), trace[1..]);
    }
  }

  /** No step but a shutdown makes a writer give up: it goes on waiting for what it asked for, or holds it. */
  lemma WriterNeverGivesUp(s: State, a: Action)
    requires Inv(s) && Enabled(s, a) && !s.writer.WriterIdle?
    ensures Apply(s, a).writer.WriterIdle? <==> a.SendBuffer? || (a.WriterRetries? && s.quit)
    ensures !Apply(s, a).writer.WriterIdle? ==> Apply(s, a).writer.n == s.writer.n
  {
    OnlyOwnSteps(s, a);
    if a.WriterRetries? {
      WriterGetsWhatIsGranted(s, a);
    }
    hide Inv, WriterPass;
  }

  /** Nor a reader: it waits until there is a block or a shutdown, and holds it until it gives it back. */
  lemma ReaderNeverGivesUp(s: State, a: Action)
    requires Inv(s) && Enabled(s, a) && !s.reader.ReaderIdle?
    ensures Apply(s, a).reader.ReaderIdle? <==>
            a.ReadUnlock? || a.PeekUnlock? || (a.ReaderRetries? && s.quit)
  {
    OnlyOwnSteps(s, a);
    if a.ReaderRetries? {
      ReaderGetsWhatIsThere(s, a);
    } else if a.ReadUnlock? {
      EmptinessTestsAgree(s.ring);
    }
    hide Valid, Queue, WriterOk, WakeOk, UserOk, ReaderPass, Pop, HaveData;
  }

  // ---------------------------------------------------------------------------------------
  // data_queue_wakeup
  // ---------------------------------------------------------------------------------------

  /** The queue is shut down and unused, yet the caller of wakeup is parked on a clear bit. */
  predicate Stranded(s: State)
  {
    && s.quit && s.user == 0 && s.waker.WakerParked? && !s.userFree
    && s.writer.WriterIdle? && s.reader.ReaderIdle?
  }

  ghost predicate Reachable(buf: seq<Byte>, s: State)
    requires Inv(Start(buf))
  {
    exists trace :: Feasible(Start(buf), trace) && Run(Start(buf), trace) == s
  }

  lemma {:induction false} RunSnoc(s: State, trace: seq<Action>, a: Action)
    requires Inv(s) && Feasible(s, trace) && Inv(Run(s, trace)) && Enabled(Run(s, trace), a)
    ensures Feasible(s, trace + [a]) && Run(s, trace + [a]) == Apply(Run(s, trace), a)
    decreases |trace|
  {
    hide Inv, Enabled, Apply;
    if trace == [] {
      assert trace + [a] == [a];
      StepInv(s, a);
      assert Feasible(Apply(s, a), [a][1..]);
    } else {
      assert (trace + [a])[1..] == trace[1..] + [a];
      StepInv(s, trace[0]);
      RunSnoc(Apply(s, trace[0]), trace[1..], a);
    }
  }

  lemma ReachStep(buf: seq<Byte>, s: State, a: Action)
    requires Inv(Start(buf)) && Reachable(buf, s) && Inv(s) && Enabled(s, a)
    ensures Reachable(buf, Apply(s, a)) && Inv(Apply(s, a))
  {
    var trace :| Feasible(Start(buf), trace) && Run(Start(buf), trace) == s;
    hide Inv, Enabled, Apply, Feasible, Run;
    StepInv(s, a);
    RunSnoc(Start(buf), trace, a);
  }

  /** A wakeup whose users never peek is always signalled when the last of them leaves. */
  lemma StrandedOnlyAfterPeek(s: State)
    requires Inv(s) && Stranded(s)
    ensures s.peeked
  {
  }

  lemma StrandedStep(s: State, a: Action)
    requires Inv(s) && Stranded(s) && Enabled(s, a)
    ensures Stranded(Apply(s, a))
  {
    hide Valid, Queue, WriterPass, ReaderPass, Store, Send, Unlock, WriterOk, ReaderOk, WakeOk;
  }

  /** Once stranded, data_queue_wakeup never returns. */
  lemma {:induction false} StrandedForever(s: State, trace: seq<Action>)
    requires Inv(s) && Stranded(s) && Feasible(s, trace)
    ensures Stranded(Run(s, trace))
    decreases |trace|
  {
    hide Inv, Enabled, Apply, Stranded;
    if trace != [] {
      StepInv(s, trace[0]);
      StrandedStep(s, trace[0]);
      StrandedForever(Apply(s, trace[0]), trace[1..]);
    }
  }

  /** The one step that strands a wakeup: its last user leaves by peek_unlock after the bit was cleared. */
  predicate LosingPeek(s: State, a: Action)
  {
    a.PeekUnlock? && s.quit && s.waker.WakerParked? && !s.userFree && s.writer.WriterIdle?
  }

  lemma PeekStrandsExactly(s: State)
    requires Inv(s) && s.reader.Reading? && !Stranded(s)
    ensures Stranded(Apply(s, PeekUnlock)) <==> LosingPeek(s, PeekUnlock)
  {
    hide Valid, WriterOk, WakeOk, Queue, ReaderOk;
  }

  lemma StoreKeepsThreads(s: State, a: Action)
    requires Inv(s) && a.StoreByte? && Enabled(s, a)
    ensures Apply(s, a).writer.Writing?
  {
    hide Valid, Queue, WakeOk;
  }

  lemma OthersNeverStrand(s: State, a: Action)
    requires Inv(s) && Enabled(s, a) && !a.PeekUnlock? && !Stranded(s)
    ensures !Stranded(Apply(s, a))
  {
    hide Valid, WriterOk, WakeOk, Queue, HaveData, Pop, Commit, Drain, Wrap, Available, DerivedReadPos, ReadInt, Store;
    match a
    case ReadUnlock => EmptinessTestsAgree(s.ring);
    case StoreByte(_, _) => StoreKeepsThreads(s, a);
    case _ =>
  }

  /** Some step of the run is such a peek. */
  predicate LosesWakeup(s: State, trace: seq<Action>)
    requires Inv(s) && Feasible(s, trace)
    decreases |trace|
  {
    trace != [] && (
      || LosingPeek(s, trace[0])
      || (StepInv(s, trace[0]); LosesWakeup(Apply(s, trace[0]), trace[1..])))
  }

  /** A run leaves wakeup stranded exactly when one of its steps is such a peek. */
  lemma {:induction false} StrandedIffLosingPeek(s: State, trace: seq<Action>)
    requires Inv(s) && Feasible(s, trace) && !Stranded(s)
    ensures Stranded(Run(s, trace)) <==> LosesWakeup(s, trace)
    decreases |trace|
  {
    hide Inv, Enabled, Apply, Stranded;
    if trace != [] {
      var a, t := trace[0], trace[1..];
      StepInv(s, a);
      StrandsExactly(s, a);
      if LosingPeek(s, a) {
        StrandedForever(Apply(s, a), t);
      } else {
        StrandedIffLosingPeek(Apply(s, a), t);
      }
    }
  }

  lemma StrandsExactly(s: State, a: Action)
    requires Inv(s) && Enabled(s, a) && !Stranded(s)
    ensures Stranded(Apply(s, a)) <==> LosingPeek(s, a)
  {
    if a.PeekUnlock? {
      PeekStrandsExactly(s);
    } else {
      OthersNeverStrand(s, a);
    }
    hide Inv, Enabled, Apply, Stranded;
  }

  /** In a run from `buf`'s empty queue. */
  ghost predicate At(buf: seq<Byte>, s: State)
  {
    Inv(Start(buf)) && Inv(s) && Reachable(buf, s)
  }

  lemma AtStart(buf: seq<Byte>)
    requires |buf| <= INT_MAX
    ensures At(buf, Start(buf))
  {
    StartInv(buf);
    hide Inv;
    assert Feasible(Start(buf), []) && Run(Start(buf), []) == Start(buf);
  }

  lemma AtStep(buf: seq<Byte>, s: State, a: Action)
    requires At(buf, s) && Enabled(s, a)
    ensures Inv(s) && At(buf, Apply(s, a))
  {
    hide Inv, Apply, Enabled, Reachable;
    ReachStep(buf, s, a);
  }

  /** The waker's steps of a wakeup that begins while only the reader uses the queue. */
  lemma WakerParksAgain(buf: seq<Byte>, s: State) returns (t: State)
    requires At(buf, s) && s.reader.Reading? && s.writer.WriterIdle? && s.waker.WakerIdle? && s.userFree
    ensures At(buf, t) && t.quit && t.user == 1 && t.waker.WakerParked? && !t.userFree
    ensures t.writer.WriterIdle? && t.reader.Reading?
  {
    assert s.user == 1;
    hide At, Inv, WriterPass, ReaderPass, Store, Send, Unlock, Discard, EndWait;
    AtStep(buf, s, Wakeup);
    var s1 := Apply(s, Wakeup);
    AtStep(buf, s1, WakerWakes);
    var s2 := Apply(s1, WakerWakes);
    AtStep(buf, s2, WakerClears);
    var s3 := Apply(s2, WakerClears);
    AtStep(buf, s3, WakerRetries);
    t := Apply(s3, WakerRetries);
  }

  lemma PeekStrands(buf: seq<Byte>, s: State) returns (t: State)
    requires At(buf, s) && s.quit && s.user == 1 && s.waker.WakerParked? && !s.userFree
    requires s.writer.WriterIdle? && s.reader.Reading?
    ensures At(buf, t) && Stranded(t)
  {
    hide At, Inv, WriterPass, ReaderPass, Store, Send, Unlock, Discard, EndWait;
    AtStep(buf, s, PeekUnlock);
    t := Apply(s, PeekUnlock);
  }

  /** In an empty queue every request that fits is granted at once. */
  lemma BlockGranted(buf: seq<Byte>, n: int) returns (s: State)
    requires 0 < n && n + HEAD <= |buf| <= INT_MAX
    ensures At(buf, s) && s.writer.Writing? && s.writer.n == |s.writer.draft| == n && s.ring.buf == buf
    ensures Queue(s.ring) == []
    ensures !s.quit && s.reader.ReaderIdle? && s.waker.WakerIdle?
  {
    AtStart(buf);
    var s0 := Start(buf);
    GrantsIff(s0.ring, n);
    WrapKeepsQueue(s0.ring, n + HEAD);
    NoBlocks(buf, 0);
    AtStep(buf, s0, GetBuffer(n));
    s := Apply(s0, GetBuffer(n));
    hide At, Inv, ReaderPass, Store, Send, Unlock, Discard, EndWait, Valid, Queue, Available;
  }

  lemma BlockSent(buf: seq<Byte>, s: State) returns (t: State)
    requires At(buf, s) && s.writer.Writing? && s.writer.n == |s.writer.draft| > 0 && Queue(s.ring) == []
    requires !s.quit && s.reader.ReaderIdle? && s.waker.WakerIdle?
    ensures At(buf, t) && Queue(t.ring) == [s.writer.draft] && |t.ring.buf| == |s.ring.buf| && t.userFree
    ensures !t.quit && t.reader.ReaderIdle? && t.waker.WakerIdle? && t.writer.WriterIdle?
  {
    var n := s.writer.n;
    SendWithinRequestSucceeds(s, n);
    CommitShape(s.ring, n);
    AtStep(buf, s, SendBuffer(n));
    assert Apply(s, SendBuffer(n)) == Send(s, n);
    assert s.writer.draft[..n] == s.writer.draft;
    hide At, Inv, WriterPass, ReaderPass, Store, Unlock, Discard, EndWait, Valid, Queue, Available, Apply, Commit;
    t := Send(s, n);
  }

  /**
   The deliberate crash of data_queue_consume_all is no dead code: in a queue of any usable size one
   block that fills the buffer, granted and sent, makes the next call crash.
   */
  lemma TrapIsReachable(buf: seq<Byte>)
    requires HEAD < |buf| <= INT_MAX
    ensures Inv(Start(buf))
    ensures exists s :: Reachable(buf, s) && Inv(s) && !s.quit && s.reader.ReaderIdle? && ConsumeAllTraps(s.ring)
  {
    var s := BlockGranted(buf, |buf| - HEAD);
    var t := BlockSent(buf, s);
    assert ConsumeAllTraps(t.ring);
    hide Inv, Queue, ConsumeAllTraps, Start, Reachable;
  }

  lemma OneByteHeld(buf: seq<Byte>, s: State) returns (t: State)
    requires At(buf, s) && Queue(s.ring) != [] && s.userFree
    requires !s.quit && s.reader.ReaderIdle? && s.waker.WakerIdle? && s.writer.WriterIdle?
    ensures At(buf, t) && t.reader.Reading? && t.writer.WriterIdle? && t.waker.WakerIdle? && t.userFree
  {
    EmptinessTestsAgree(s.ring);
    hide Inv, WriterPass, Store, Send, Unlock, Discard, EndWait, Valid, Queue, HaveData, DerivedReadPos, ReadInt;
    AtStep(buf, s, ReadLock);
    t := Apply(s, ReadLock);
  }

  /** So one peek_unlock is enough to strand wakeup, in a queue of any usable size. */
  lemma PeekCanStrandWakeup(buf: seq<Byte>)
    requires HEAD < |buf| <= INT_MAX
    ensures Inv(Start(buf)) && exists s :: Reachable(buf, s) && Stranded(s)
  {
    hide Inv, Stranded, Queue, Start, Reachable;
    var s := BlockGranted(buf, 1);
    s := BlockSent(buf, s);
    s := OneByteHeld(buf, s);
    s := WakerParksAgain(buf, s);
    s := PeekStrands(buf, s);
  }
}
