/**
 Who frees a pool buffer (`av_render.c`): the path of every data pointer from the caller of
 av_render_add_audio_data or av_render_add_video_data to the pool's free callback, through the
 synchronous decoder, the decoder thread, a failed enqueue, flushing and closing. API calls are
 serialised and the pool is registered before streams are added.
 */
module RenderPool {
  import opened Bytes

  /** A queued record; the zeroed record that wakes a decoder thread carries no buffer. */
  datatype Rec = Rec(data: Option<int>, eos: bool)

  const WAKE := Rec(None, false)

  // ---------------------------------------------------------------------------------------
  // Records as bytes
  // ---------------------------------------------------------------------------------------

  /** sizeof(av_render_audio_data_t) or sizeof(av_render_video_data_t). */
  function HeadSize(video: bool): nat
  {
    if video then 20 else 16
  }

  /** What put_to_adec or put_to_vdec copies into the queue: pts, key_frame, data, size, eos. */
  function HeadBytes(video: bool, pts: int, key: bool, data: int, size: int, eos: bool): (s: seq<Byte>)
    requires 0 <= pts < UINT32 && 0 <= data < UINT32 && 0 <= size < UINT32
    ensures |s| == HeadSize(video)
  {
    IntBytes(pts) + (if video then [if key then 1 else 0, 0, 0, 0] else []) + IntBytes(data) + IntBytes(size)
    + [if eos then 1 else 0, 0, 0, 0]
  }

  /** What read_for_adec or read_for_vdec makes of a record when the pool is in use. */
  function RecordOf(video: bool, bytes: seq<Byte>): Rec
    requires |bytes| == HeadSize(video)
  {
    var data := ReadU32(bytes, if video then 8 else 4);
    Rec(if data == 0 then None else Some(data), bytes[if video then 16 else 12] != 0)
  }

  /** The decoder sees the pointer and the flag that were handed in. */
  lemma RecordReadsBack(video: bool, pts: int, key: bool, data: int, size: int, eos: bool)
    requires 0 <= pts < UINT32 && 0 <= data < UINT32 && 0 <= size < UINT32
    ensures RecordOf(video, HeadBytes(video, pts, key, data, size, eos)) ==
            Rec(if data == 0 then None else Some(data), eos)
  {
    hide IntBytes, ReadU32;
    var s, p := HeadBytes(video, pts, key, data, size, eos), if video then 8 else 4;
    assert s[p..p + 4] == IntBytes(data);
    ReadBackU32(s, p, data);
  }

  /** The record that send_msg_to_thread zeroes to wake the decoder thread up. */
  lemma ZeroedIsWake(video: bool, bytes: seq<Byte>)
    requires |bytes| == HeadSize(video) && forall i :: 0 <= i < |bytes| ==> bytes[i] == 0
    ensures RecordOf(video, bytes) == WAKE
  {
  }

  datatype Msg = MsgPause | MsgResume | MsgFlush | MsgClose

  /** Why the decoder thread is emptying its queue, if it is. */
  datatype Drain = NoDrain | FlushDrain | FinalDrain

  /** Where the decoder thread is. */
  datatype Decoder =
    | Absent
    | Top                              // before msg_q_recv
    | Reading                          // the body, before data_queue_read_lock
    | Draining(why: Drain)             // the loop of render_consume_all
    | Holding(rec: Rec, why: Drain)    // record locked, buffer not freed yet
    | Freed(rec: Rec, why: Drain)      // buffer freed, record still in the queue
    | Quitting                         // left the loop, thread handle still set
    | Signalling                       // about to set the CLOSED bit

  /** What the API thread goes on with after a message. */
  datatype Next = Done | AwaitFlushed | Open(threaded: bool) | Teardown

  /** Where the API thread is. */
  datatype Api =
    | Idle
    | Putting(rec: Rec)                // in put_to_adec, the API lock released
    | Syncing(data: Option<int>)       // decoding in the caller's thread
    | Waking(next: Next)               // message sent, the wake-up record not yet
    | Waiting(next: Next)              // waiting for the FLUSHED or CLOSED bit
    | Finishing(next: Next)

  /**
   The buffers handed to the API, those given back to the pool, and the records that a torn-down
   queue still held.
   */
  datatype Log = Log(handed: seq<Option<int>>, freed: seq<Option<int>>, abandoned: seq<Rec>)

  /** `wrecked`: a decoder thread still runs on resources that were torn down or taken over. */
  datatype State = State(
    quitWhenEos: bool,
    queue: seq<Rec>,
    msgs: seq<Msg>,
    stream: bool,
    thread: bool,      // thread_res.thread is not NULL
    paused: bool,
    flushed: bool,
    closed: bool,
    dec: Decoder,
    api: Api,
    wrecked: bool,
    log: Log)

  datatype Action =
    | DecoderStep
    | AddStream(threaded: bool)
    | HandIn(data: Option<int>, eos: bool)
    | PutEnds(ok: bool)
    | SyncEnds
    | Pause(on: bool)
    | Flush
    | Close
    | WakeEnds(ok: bool)
    | WaitEnds
    | Finish

  function Init(quitWhenEos: bool): State
  {
    State(quitWhenEos, [], [], false, false, false, false, false, Absent, Idle, false,
          Log([], [], []))
  }

  /** 1 if the pointer is buffer `b`. */
  function One(data: Option<int>, b: int): nat
  {
    if data == Some(b) then 1 else 0
  }

  /** How often buffer `b` occurs in a log of pointers. */
  function Times(log: seq<Option<int>>, b: int): nat
  {
    if log == [] then 0 else Times(log[..|log| - 1], b) + One(log[|log| - 1], b)
  }

  /** How often queued records carry buffer `b`. */
  function Carried(q: seq<Rec>, b: int): nat
  {
    if q == [] then 0 else One(q[0].data, b) + Carried(q[1..], b)
  }

  // ---------------------------------------------------------------------------------------
  // Steps
  // ---------------------------------------------------------------------------------------

  predicate DecoderEnabled(s: State)
  {
    match s.dec
    case Absent => false
    case Top => s.msgs != [] || !s.paused
    case Reading => s.queue != []
    case _ => true
  }

  predicate Enabled(s: State, a: Action)
  {
    !s.wrecked &&
    match a
    case DecoderStep => DecoderEnabled(s)
    case PutEnds(_) => s.api.Putting?
    case SyncEnds => s.api.Syncing?
    case WakeEnds(_) => s.api.Waking?
    case WaitEnds => s.api.Waiting? && (if s.api.next.AwaitFlushed? then s.flushed else s.closed)
    case Finish => s.api.Finishing?
    case _ => s.api.Idle?
  }

  /** Where a message, or the lack of one, sends the decoder. */
  function AfterMessage(msgs: seq<Msg>): Decoder
  {
    if msgs == [] then Reading
    else
      match msgs[0]
      case MsgClose => Quitting
      case MsgFlush => Draining(FlushDrain)
      case MsgPause => Top
      case MsgResume => Reading
  }

  function PausedBy(msgs: seq<Msg>, paused: bool): bool
  {
    if msgs == [] then paused
    else if msgs[0].MsgPause? then true
    else if msgs[0].MsgResume? then false
    else paused
  }

  /** Where the decoder goes once a record is consumed: an end of stream may end the thread. */
  function AfterRecord(rec: Rec, why: Drain, quitWhenEos: bool): Decoder
  {
    if !why.NoDrain? then Draining(why)
    else if rec.eos && quitWhenEos then Quitting
    else Top
  }

  /** One round of render_consume_all, or what follows it. */
  function AfterDrain(queue: seq<Rec>, why: Drain, paused: bool): Decoder
  {
    if queue != [] then Holding(queue[0], why)
    else if why.FinalDrain? then Signalling
    else if paused then Top
    else Reading
  }

  function StepDecoder(s: State): State
    requires Structured(s)
  {
    match s.dec
    case Absent => s
    case Top =>
      s.(msgs := if s.msgs == [] then [] else s.msgs[1..], paused := PausedBy(s.msgs, s.paused),
         dec := AfterMessage(s.msgs))
    case Reading => if s.queue == [] then s else s.(dec := Holding(s.queue[0], NoDrain))
    case Draining(why) =>
      s.(flushed := s.flushed || (s.queue == [] && !why.FinalDrain?), dec := AfterDrain(s.queue, why, s.paused))
    case Holding(rec, why) => s.(dec := Freed(rec, why), log := s.log.(freed := s.log.freed + [rec.data]))
    case Freed(rec, why) =>
      s.(queue := s.queue[1..], paused := s.paused || (rec.eos && !s.quitWhenEos),
         dec := AfterRecord(rec, why, s.quitWhenEos))
    case Quitting => s.(thread := false, dec := Draining(FinalDrain))
    case Signalling => s.(closed := true, dec := Absent)
  }

  /** send_msg_to_thread, up to the message itself; without a thread nothing is sent. */
  function Send(s: State, m: Msg, next: Api, otherwise: Api): State
  {
    s.(msgs := if s.thread then s.msgs + [m] else s.msgs, api := if s.thread then next else otherwise)
  }

  function AddData(s: State, data: Option<int>, eos: bool): State
  {
    s.(log := s.log.(handed := s.log.handed + [data]),
       api := if s.stream && s.thread then Putting(Rec(data, eos)) else Syncing(data))
  }

  /** The end of put_to_adec: enqueued, or refused and freed at once. */
  function PutDone(s: State, ok: bool): State
    requires s.api.Putting?
  {
    var rec := s.api.rec;
    s.(queue := if ok then s.queue + [rec] else s.queue,
       log := if ok then s.log else s.log.(freed := s.log.freed + [rec.data]),
       api := Idle)
  }

  /** The end of decoding in the caller's thread. */
  function SyncDone(s: State): State
    requires s.api.Syncing?
  {
    s.(log := s.log.(freed := s.log.freed + [s.api.data]), api := Idle)
  }

  function WakeDone(s: State, ok: bool): State
    requires s.api.Waking?
  {
    s.(queue := if s.queue == [] && ok then [WAKE] else s.queue,
       api := if s.api.next.Done? then Idle else Waiting(s.api.next))
  }

  function WaitDone(s: State): State
    requires s.api.Waiting?
  {
    var flush := s.api.next.AwaitFlushed?;
    s.(flushed := s.flushed && !flush, closed := s.closed && flush,
       api := if flush then Idle else Finishing(s.api.next))
  }

  function OpenStream(s: State, threaded: bool): State
  {
    s.(stream := true, thread := s.thread || threaded, dec := if threaded then Top else s.dec, api := Idle,
       wrecked := threaded && !s.dec.Absent?)
  }

  function TearDown(s: State): State
  {
    s.(stream := false, thread := false, paused := false, queue := [], msgs := [], api := Idle,
       log := s.log.(abandoned := s.log.abandoned + s.queue), wrecked := !s.dec.Absent?)
  }

  function Apply(s: State, a: Action): State
    requires Structured(s) && Enabled(s, a)
  {
    match a
    case DecoderStep => StepDecoder(s)
    case AddStream(threaded) => Send(s, MsgClose, Waking(Open(threaded)), Finishing(Open(threaded)))
    case HandIn(data, eos) => AddData(s, data, eos)
    case PutEnds(ok) => PutDone(s, ok)
    case SyncEnds => SyncDone(s)
    case Pause(on) => Send(s, if on then MsgPause else MsgResume, Waking(Done), Idle)
    case Flush => Send(s, MsgFlush, Waking(AwaitFlushed), Idle)
    case Close => Send(s, MsgClose, Waking(Teardown), Finishing(Teardown))
    case WakeEnds(ok) => WakeDone(s, ok)
    case WaitEnds => WaitDone(s)
    case Finish =>
      match s.api.next
      case Open(threaded) => OpenStream(s, threaded)
      case Teardown => TearDown(s)
      case _ => s
  }

  // ---------------------------------------------------------------------------------------
  // Conservation, on every run
  // ---------------------------------------------------------------------------------------

  /** The record the decoder holds is the oldest one in the queue. */
  predicate Structured(s: State)
  {
    s.dec.Holding? || s.dec.Freed? ==> s.queue != [] && s.queue[0] == s.dec.rec
  }

  /** How often buffer `b` is in the queue and still to be freed. */
  function Outstanding(s: State, b: int): nat
  {
    if s.dec.Freed? && s.queue != [] then Carried(s.queue[1..], b) else Carried(s.queue, b)
  }

  function InApi(api: Api, b: int): nat
  {
    match api
    case Putting(rec) => One(rec.data, b)
    case Syncing(data) => One(data, b)
    case _ => 0
  }

  /** Every time buffer `b` was handed in it has been freed, abandoned, or is in exactly one place. */
  predicate Conserved(s: State, b: int)
  {
    Times(s.log.handed, b) == Times(s.log.freed, b) + Carried(s.log.abandoned, b) + Outstanding(s, b) + InApi(s.api, b)
  }

  lemma {:induction false} CarriedConcat(q: seq<Rec>, q': seq<Rec>, b: int)
    ensures Carried(q + q', b) == Carried(q, b) + Carried(q', b)
  {
    if q == [] {
      assert q + q' == q';
    } else {
      assert (q + q')[1..] == q[1..] + q';
      CarriedConcat(q[1..], q', b);
    }
  }

  lemma TimesAppend(log: seq<Option<int>>, data: Option<int>, b: int)
    ensures Times(log + [data], b) == Times(log, b) + One(data, b)
  {
    assert (log + [data])[..|log|] == log;
  }

  /** Neither the queue nor any log changes, and the API thread stays where it is. */
  predicate SameBuffers(s: State, t: State)
  {
    t.queue == s.queue && t.log == s.log && t.api == s.api
  }

  lemma MessagesLead(msgs: seq<Msg>)
    ensures !AfterMessage(msgs).Holding? && !AfterMessage(msgs).Freed?
  {
  }

  lemma DrainLeads(queue: seq<Rec>, why: Drain, paused: bool)
    ensures var d := AfterDrain(queue, why, paused);
            !d.Freed? && (d.Holding? ==> queue != [] && d.rec == queue[0])
  {
  }

  lemma DrainKeeps(s: State)
    requires s.dec.Draining?
    ensures SameBuffers(s, StepDecoder(s)) && Structured(StepDecoder(s)) && !StepDecoder(s).dec.Freed?
  {
    hide AfterDrain;
    DrainLeads(s.queue, s.dec.why, s.paused);
  }

  lemma TopKeeps(s: State)
    requires s.dec.Top?
    ensures SameBuffers(s, StepDecoder(s)) && Structured(StepDecoder(s)) && !StepDecoder(s).dec.Freed?
  {
    hide AfterMessage, PausedBy;
    MessagesLead(s.msgs);
  }

  lemma ReadingKeeps(s: State)
    requires s.dec.Reading?
    ensures SameBuffers(s, StepDecoder(s)) && Structured(StepDecoder(s)) && !StepDecoder(s).dec.Freed?
  {
  }

  lemma ExitKeeps(s: State)
    requires s.dec.Absent? || s.dec.Quitting? || s.dec.Signalling?
    ensures SameBuffers(s, StepDecoder(s)) && Structured(StepDecoder(s)) && !StepDecoder(s).dec.Freed?
  {
  }

  lemma QuietDecoder(s: State)
    requires Structured(s) && !s.dec.Holding? && !s.dec.Freed?
    ensures SameBuffers(s, StepDecoder(s)) && Structured(StepDecoder(s)) && !StepDecoder(s).dec.Freed?
  {
    hide StepDecoder, SameBuffers, Structured;
    if s.dec.Top? {
      TopKeeps(s);
    } else if s.dec.Draining? {
      DrainKeeps(s);
    } else if s.dec.Reading? {
      ReadingKeeps(s);
    } else {
      ExitKeeps(s);
    }
  }

  lemma CarriedHead(q: seq<Rec>, b: int)
    requires q != []
    ensures Carried(q, b) == One(q[0].data, b) + Carried(q[1..], b)
  {
  }

  lemma FreeConserves(s: State, b: int)
    requires Structured(s) && Conserved(s, b) && s.dec.Holding?
    ensures Structured(StepDecoder(s)) && Conserved(StepDecoder(s), b)
  {
    hide One, InApi, Times, Carried;
    TimesAppend(s.log.freed, s.dec.rec.data, b);
    CarriedHead(s.queue, b);
  }

  lemma UnlockConserves(s: State, b: int)
    requires Structured(s) && Conserved(s, b) && s.dec.Freed?
    ensures Structured(StepDecoder(s)) && Conserved(StepDecoder(s), b)
  {
    hide One, InApi, Carried, Times;
  }

  lemma DecoderConserves(s: State, b: int)
    requires Structured(s) && Conserved(s, b)
    ensures Structured(StepDecoder(s)) && Conserved(StepDecoder(s), b)
  {
    hide One, InApi, Carried, Times, StepDecoder;
    if s.dec.Holding? {
      FreeConserves(s, b);
    } else if s.dec.Freed? {
      UnlockConserves(s, b);
    } else {
      QuietDecoder(s);
    }
  }

  lemma OneMore(q: seq<Rec>, rec: Rec, b: int)
    ensures Carried(q + [rec], b) == Carried(q, b) + One(rec.data, b)
    ensures q != [] ==> Carried((q + [rec])[1..], b) == Carried(q[1..], b) + One(rec.data, b)
    ensures q != [] ==> (q + [rec])[0] == q[0]
  {
    hide One, Carried;
    NoneCarried(b);
    CarriedHead([rec], b);
    CarriedConcat(q, [rec], b);
    if q != [] {
      CarriedConcat(q[1..], [rec], b);
      assert (q + [rec])[1..] == q[1..] + [rec];
    }
  }

  lemma PutConserves(s: State, ok: bool, b: int)
    requires Structured(s) && Conserved(s, b) && s.api.Putting?
    ensures Structured(PutDone(s, ok)) && Conserved(PutDone(s, ok), b)
  {
    hide One, Carried, Times;
    OneMore(s.queue, s.api.rec, b);
    TimesAppend(s.log.freed, s.api.rec.data, b);
  }

  lemma NoneCarried(b: int)
    ensures Carried([], b) == 0 && Carried([WAKE], b) == 0
    ensures forall r: Rec :: [r][1..] == []
  {
  }

  /**
   The wake-up record only wakes: the decoder consumes it without giving anything back to the pool,
   pausing or quitting, whatever quit_when_eos says.
   */
  lemma WakeUpFreesNothing(s: State, b: int)
    requires Structured(s) && s.dec.Holding? && s.dec.rec == WAKE
    ensures Structured(StepDecoder(s))
    ensures var t := StepDecoder(StepDecoder(s));
            && Times(t.log.freed, b) == Times(s.log.freed, b)
            && t.queue == s.queue[1..] && t.paused == s.paused
            && t.dec == (if s.dec.why.NoDrain? then Top else Draining(s.dec.why))
  {
    hide Times, One, AfterMessage, AfterDrain, PausedBy;
    TimesAppend(s.log.freed, None, b);
    NoneIsNotOne(b);
  }

  lemma NoneIsNotOne(b: int)
    ensures One(None, b) == 0
  {
  }

  lemma HandInConserves(s: State, data: Option<int>, eos: bool, b: int)
    requires Structured(s) && Conserved(s, b) && s.api.Idle?
    ensures Structured(AddData(s, data, eos)) && Conserved(AddData(s, data, eos), b)
  {
    hide One, Carried, Times;
    TimesAppend(s.log.handed, data, b);
  }

  lemma SyncConserves(s: State, b: int)
    requires Structured(s) && Conserved(s, b) && s.api.Syncing?
    ensures Structured(SyncDone(s)) && Conserved(SyncDone(s), b)
  {
    hide One, Carried, Times;
    TimesAppend(s.log.freed, s.api.data, b);
  }

  lemma WakeConserves(s: State, ok: bool, b: int)
    requires Structured(s) && Conserved(s, b) && s.api.Waking?
    ensures Structured(WakeDone(s, ok)) && Conserved(WakeDone(s, ok), b)
  {
    hide One, Carried, Times;
    NoneCarried(b);
  }

  lemma TearDownConserves(s: State, b: int)
    requires Structured(s) && Conserved(s, b) && s.api.Finishing? && s.dec.Absent?
    ensures Structured(TearDown(s)) && Conserved(TearDown(s), b)
  {
    hide One, Carried, Times;
    NoneCarried(b);
    CarriedConcat(s.log.abandoned, s.queue, b);
  }

  lemma SendConserves(s: State, m: Msg, next: Api, otherwise: Api, b: int)
    requires Structured(s) && Conserved(s, b) && InApi(s.api, b) == InApi(next, b) == InApi(otherwise, b) == 0
    ensures Structured(Send(s, m, next, otherwise)) && Conserved(Send(s, m, next, otherwise), b)
  {
    hide One, Carried, Times, InApi;
  }

  lemma OtherConserves(s: State, threaded: bool, b: int)
    requires Structured(s) && Conserved(s, b)
    ensures s.api.Waiting? ==> Structured(WaitDone(s)) && Conserved(WaitDone(s), b)
    ensures s.api.Finishing? && (s.dec.Absent? || !threaded) ==>
              Structured(OpenStream(s, threaded)) && Conserved(OpenStream(s, threaded), b)
  {
    hide One, Carried, Times;
  }

  lemma ApiConserves(s: State, a: Action, b: int)
    requires Structured(s) && Conserved(s, b) && Enabled(s, a) && !a.DecoderStep? && !a.PutEnds?
    ensures !Apply(s, a).wrecked ==> Structured(Apply(s, a)) && Conserved(Apply(s, a), b)
  {
    hide Structured, Conserved, StepDecoder, Send, AddData, SyncDone, WakeDone, WaitDone;
    match a
    case HandIn(data, eos) => HandInConserves(s, data, eos, b);
    case SyncEnds => SyncConserves(s, b);
    case WakeEnds(ok) => WakeConserves(s, ok, b);
    case WaitEnds => OtherConserves(s, false, b);
    case AddStream(threaded) => SendConserves(s, MsgClose, Waking(Open(threaded)), Finishing(Open(threaded)), b);
    case Pause(on) => SendConserves(s, if on then MsgPause else MsgResume, Waking(Done), Idle, b);
    case Flush => SendConserves(s, MsgFlush, Waking(AwaitFlushed), Idle, b);
    case Close => SendConserves(s, MsgClose, Waking(Teardown), Finishing(Teardown), b);
    case Finish =>
      if s.api.next.Open? && !OpenStream(s, s.api.next.threaded).wrecked {
        OtherConserves(s, s.api.next.threaded, b);
      } else if s.api.next.Teardown? && s.dec.Absent? {
        TearDownConserves(s, b);
      }
  }

  /** Every step keeps every buffer accounted for. */
  lemma StepConserves(s: State, a: Action, b: int)
    requires Structured(s) && Conserved(s, b) && Enabled(s, a)
    ensures !Apply(s, a).wrecked ==> Structured(Apply(s, a)) && Conserved(Apply(s, a), b)
  {
    hide Conserved, Structured, StepDecoder, PutDone;
    match a
    case DecoderStep => DecoderConserves(s, b);
    case PutEnds(ok) => PutConserves(s, ok, b);
    case _ => ApiConserves(s, a, b);
  }

  // ---------------------------------------------------------------------------------------
  // No buffer is lost, when the decoder outlives the end of a stream
  // ---------------------------------------------------------------------------------------

  /** The decoder is on its way out. */
  predicate Leaving(d: Decoder)
  {
    d.Quitting? || d.Signalling? || (d.Draining? && d.why.FinalDrain?)
    || ((d.Holding? || d.Freed?) && d.why.FinalDrain?)
  }

  /** The API thread has asked the decoder to close and waits for it. */
  predicate AwaitsClose(api: Api)
  {
    (api.Waking? || api.Waiting?) && (api.next.Open? || api.next.Teardown?)
  }

  predicate DataFree(q: seq<Rec>)
  {
    forall i :: 0 <= i < |q| ==> q[i].data.None?
  }

  /** Only a close request ends the decoder thread, and nobody enqueues data meanwhile. */
  predicate Orderly(s: State)
  {
    && Structured(s) && !s.quitWhenEos && !s.wrecked
    && DataFree(s.log.abandoned)
    && (Leaving(s.dec) || MsgClose in s.msgs || s.closed ==> AwaitsClose(s.api))
    && (s.closed ==> s.dec.Absent?)
    && (Leaving(s.dec) ==> MsgClose !in s.msgs)
    && (MsgClose in s.msgs ==> !s.dec.Absent?)
    && (s.dec.Absent? ==> DataFree(s.queue) && MsgClose !in s.msgs)
    && (s.dec.Signalling? ==> DataFree(s.queue))
    && (s.thread ==> !s.dec.Absent? && (Leaving(s.dec) ==> s.dec.Quitting?))
    && (!s.dec.Absent? && !Leaving(s.dec) ==> s.thread)
    && (s.api.Putting? ==> s.thread)
    && (s.api.Finishing? ==> s.dec.Absent? && !s.thread)
    && (forall i :: 0 <= i < |s.msgs| - 1 ==> s.msgs[i] != MsgClose)
  }

  lemma InitOrderly()
    ensures Orderly(Init(false))
  {
  }

  lemma ApiOrderly(s: State, a: Action)
    requires Orderly(s) && Enabled(s, a) && !a.DecoderStep?
    ensures Orderly(Apply(s, a))
  {
  }

  lemma TopOrderly(s: State)
    requires Orderly(s) && s.dec.Top?
    ensures Orderly(StepDecoder(s))
  {
  }

  lemma RecordOrderly(s: State)
    requires Orderly(s) && (s.dec.Holding? || s.dec.Freed?)
    ensures Orderly(StepDecoder(s))
  {
  }

  lemma LoopOrderly(s: State)
    requires Orderly(s) && (s.dec.Reading? || s.dec.Draining?)
    ensures Orderly(StepDecoder(s))
  {
  }

  lemma ExitOrderly(s: State)
    requires Orderly(s) && (s.dec.Absent? || s.dec.Quitting? || s.dec.Signalling?)
    ensures Orderly(StepDecoder(s))
  {
  }

  lemma StepOrderly(s: State, a: Action)
    requires Orderly(s) && Enabled(s, a)
    ensures Orderly(Apply(s, a))
  {
    hide Orderly, StepDecoder;
    if !a.DecoderStep? {
      ApiOrderly(s, a);
    } else if s.dec.Top? {
      TopOrderly(s);
    } else if s.dec.Holding? || s.dec.Freed? {
      RecordOrderly(s);
    } else if s.dec.Reading? || s.dec.Draining? {
      LoopOrderly(s);
    } else {
      ExitOrderly(s);
    }
  }

  // ---------------------------------------------------------------------------------------
  // Runs
  // ---------------------------------------------------------------------------------------

  /** A run; it stops for good when a decoder thread is left on torn-down resources. */
  predicate Feasible(s: State, trace: seq<Action>)
    decreases |trace|
  {
    Structured(s) &&
    (trace != [] ==> Enabled(s, trace[0]) && Feasible(Apply(s, trace[0]), trace[1..]))
  }

  function Run(s: State, trace: seq<Action>): State
    requires Feasible(s, trace)
    decreases |trace|
  {
    if trace == [] then s else Run(Apply(s, trace[0]), trace[1..])
  }

  lemma {:induction false} RunConserves(s: State, trace: seq<Action>, b: int)
    requires Structured(s) && Conserved(s, b) && Feasible(s, trace)
    ensures !Run(s, trace).wrecked ==> Conserved(Run(s, trace), b)
    decreases |trace|
  {
    hide Structured, Conserved, Apply;
    if trace != [] {
      StepConserves(s, trace[0], b);
      var t := Apply(s, trace[0]);
      if !t.wrecked {
        RunConserves(t, trace[1..], b);
      } else {
        assert trace[1..] == [];
      }
    }
  }

  /**
   Over every run a buffer is given back to the pool at most as often as it was handed in, and what
   is missing is abandoned or still under way.
   */
  lemma NeverFreedTwice(quitWhenEos: bool, trace: seq<Action>, b: int)
    requires Feasible(Init(quitWhenEos), trace)
    ensures var t := Run(Init(quitWhenEos), trace);
            !t.wrecked ==> Conserved(t, b) && Times(t.log.freed, b) <= Times(t.log.handed, b)
  {
    NoneCarried(b);
    RunConserves(Init(quitWhenEos), trace, b);
    hide Feasible, Run;
  }

  lemma {:induction false} RunOrderly(s: State, trace: seq<Action>)
    requires Orderly(s) && Feasible(s, trace)
    ensures Orderly(Run(s, trace))
    decreases |trace|
  {
    hide Orderly, Apply, Structured;
    if trace != [] {
      StepOrderly(s, trace[0]);
      RunOrderly(Apply(s, trace[0]), trace[1..]);
    }
  }

  lemma {:induction false} DataFreeCarriesNothing(q: seq<Rec>, b: int)
    requires DataFree(q)
    ensures Carried(q, b) == 0
  {
    if q != [] {
      DataFreeCarriesNothing(q[1..], b);
    }
  }

  /** Nothing is under way: the API thread is idle and no decoder is left. */
  predicate Quiet(s: State)
  {
    s.api.Idle? && s.dec.Absent?
  }

  /**
   With quit_when_eos off, every buffer is freed exactly as often as it was handed in, whatever mix
   of synchronous and threaded decoding, failed enqueues, flushes, pauses and closes led here.
   */
  lemma FreedExactlyOnce(trace: seq<Action>, b: int)
    requires Feasible(Init(false), trace)
    ensures var t := Run(Init(false), trace);
            && !t.wrecked && DataFree(t.log.abandoned)
            && (Quiet(t) ==> Times(t.log.freed, b) == Times(t.log.handed, b))
  {
    NeverFreedTwice(false, trace, b);
    InitOrderly();
    RunOrderly(Init(false), trace);
    var t := Run(Init(false), trace);
    DataFreeCarriesNothing(t.log.abandoned, b);
    hide Feasible, Run, Times, DataFree;
    if Quiet(t) {
      DataFreeCarriesNothing(t.queue, b);
    }
  }

  // ---------------------------------------------------------------------------------------
  // quit_when_eos loses buffers
  // ---------------------------------------------------------------------------------------

  ghost predicate Leads(s: State, t: State)
  {
    exists trace :: Feasible(s, trace) && Run(s, trace) == t
  }

  lemma LeadsStep(s: State, a: Action, t: State)
    requires Structured(s) && Enabled(s, a) && Leads(Apply(s, a), t)
    ensures Leads(s, t)
  {
    var trace :| Feasible(Apply(s, a), trace) && Run(Apply(s, a), trace) == t;
    hide Enabled, Apply;
    assert ([a] + trace)[1..] == trace;
    assert Feasible(s, [a] + trace) && Run(s, [a] + trace) == t;
  }

  lemma Short<T>(x: T, y: T)
    ensures [] + [x] == [x] && [x] + [y] == [x, y] && [x][1..] == []
  {
  }

  /** A threaded stream that has got an end-of-stream record and then, in the API, one more buffer. */
  function EosQueued(b: int): State
  {
    State(true, [Rec(None, true)], [], true, true, false, false, false, Top, Putting(Rec(Some(b), false)), false,
          Log([None, Some(b)], [], []))
  }

  /** The decoder thread has quit and drained its queue; the API is still about to enqueue. */
  function DecoderGone(b: int): State
  {
    State(true, [], [], true, false, false, false, true, Absent, Putting(Rec(Some(b), false)), false,
          Log([None, Some(b)], [None], []))
  }

  function BufferLost(b: int): State
  {
    State(true, [], [], false, false, false, false, true, Absent, Idle, false,
          Log([None, Some(b)], [None], [Rec(Some(b), false)]))
  }

  lemma LateBufferIsLost(b: int)
    ensures Leads(DecoderGone(b), BufferLost(b))
  {
    var s0, t := DecoderGone(b), BufferLost(b);
    assert Feasible(t, []) && Run(t, []) == t;
    var s1 := s0.(queue := [Rec(Some(b), false)], api := Idle);
    var s2 := s1.(api := Finishing(Teardown));
    assert Leads(t, t);
    hide Leads;
    Short(Rec(Some(b), false), WAKE);
    LeadsStep(s2, Finish, t);
    LeadsStep(s1, Close, t);
    LeadsStep(s0, PutEnds(true), t);
  }

  lemma DecoderQuits(b: int, t: State)
    requires Leads(DecoderGone(b), t)
    ensures Leads(EosQueued(b), t)
  {
    hide Leads;
    var rec := Rec(None, true);
    Short(rec, rec);
    Short(rec.data, rec.data);
    var s0 := EosQueued(b);
    var s1 := s0.(dec := Reading);
    var s2 := s0.(dec := Holding(rec, NoDrain));
    var s3 := s0.(dec := Freed(rec, NoDrain), log := Log([None, Some(b)], [None], []));
    var s4 := s3.(dec := Quitting, queue := []);
    var s5 := s4.(dec := Draining(FinalDrain), thread := false);
    var s6 := s5.(dec := Signalling);
    LeadsStep(s6, DecoderStep, t);
    LeadsStep(s5, DecoderStep, t);
    LeadsStep(s4, DecoderStep, t);
    LeadsStep(s3, DecoderStep, t);
    LeadsStep(s2, DecoderStep, t);
    LeadsStep(s1, DecoderStep, t);
    LeadsStep(s0, DecoderStep, t);
  }

  lemma StreamGetsEos(b: int, t: State)
    requires Leads(EosQueued(b), t)
    ensures Leads(Init(true), t)
  {
    hide Leads;
    Short(Rec(None, true), WAKE);
    Short(None, Some(b));
    var s0 := Init(true);
    var s1 := s0.(api := Finishing(Open(true)));
    var s2 := s0.(stream := true, thread := true, dec := Top);
    var s3 := s2.(api := Putting(Rec(None, true)), log := Log([None], [], []));
    var s4 := s3.(queue := [Rec(None, true)], api := Idle);
    LeadsStep(s4, HandIn(Some(b), false), t);
    LeadsStep(s3, PutEnds(true), t);
    LeadsStep(s2, HandIn(None, true), t);
    LeadsStep(s1, Finish, t);
    LeadsStep(s0, AddStream(true), t);
  }

  /** `b` was handed in, everything is closed, and `b` was never given back. */
  predicate Lost(s: State, b: int)
  {
    Quiet(s) && !s.stream && Times(s.log.freed, b) < Times(s.log.handed, b)
  }

  lemma LostCounts(b: int)
    ensures Lost(BufferLost(b), b)
  {
    Short(None, Some(b));
    TimesAppend([], None, b);
    TimesAppend([None], Some(b), b);
  }

  // ---------------------------------------------------------------------------------------
  // Which buffers are lost
  // ---------------------------------------------------------------------------------------

  /** The decoder thread has tested its queue for the last time, or there is none. */
  predicate Gone(d: Decoder)
  {
    d.Absent? || d.Signalling?
  }

  predicate TearsDown(s: State, a: Action)
  {
    a.Finish? && s.api == Finishing(Teardown)
  }

  /**
   The records enqueued too late, after a step: those put once the decoder is gone, until another
   decoder thread takes the queue over or the queue is torn down.
   */
  function LateAfter(s: State, late: seq<Rec>, a: Action): seq<Rec>
  {
    if a == PutEnds(true) && s.api.Putting? && Gone(s.dec) then late + [s.api.rec]
    else if TearsDown(s, a) || (a.Finish? && s.api == Finishing(Open(true))) then []
    else late
  }

  /** How often a run tears down a queue with buffer `b` enqueued too late. */
  function TornLate(s: State, late: seq<Rec>, trace: seq<Action>, b: int): nat
    requires Feasible(s, trace)
    decreases |trace|
  {
    if trace == [] then 0
    else
      (if TearsDown(s, trace[0]) then Carried(late, b) else 0)
      + TornLate(Apply(s, trace[0]), LateAfter(s, late, trace[0]), trace[1..], b)
  }

  /** Behind a decoder that is gone, the queue carries exactly what came too late. */
  predicate Tracked(s: State, late: seq<Rec>, b: int)
  {
    && (Gone(s.dec) ==> Carried(s.queue, b) == Carried(late, b))
    && (!Gone(s.dec) ==> late == [])
    && (s.api.Putting? ==> s.stream)
    && (!s.stream ==> Carried(s.queue, b) == 0)
  }

  lemma TailCarries(q: seq<Rec>, b: int)
    ensures q != [] ==> Carried(q[1..], b) <= Carried(q, b)
  {
  }

  lemma DrainTracked(s: State, late: seq<Rec>, b: int)
    requires Tracked(s, late, b) && s.dec.Draining?
    ensures Tracked(StepDecoder(s), late, b) && StepDecoder(s).log == s.log
  {
    hide Carried;
    NoneCarried(b);
  }

  lemma TopTracked(s: State, late: seq<Rec>, b: int)
    requires Tracked(s, late, b) && s.dec.Top?
    ensures Tracked(StepDecoder(s), late, b) && StepDecoder(s).log == s.log
  {
    hide Carried, PausedBy;
  }

  lemma RecordTracked(s: State, late: seq<Rec>, b: int)
    requires Structured(s) && Tracked(s, late, b) && (s.dec.Holding? || s.dec.Freed?)
    ensures Tracked(StepDecoder(s), late, b) && StepDecoder(s).log.abandoned == s.log.abandoned
  {
    TailCarries(s.queue, b);
    hide Carried;
  }

  lemma ExitTracked(s: State, late: seq<Rec>, b: int)
    requires Tracked(s, late, b) && (s.dec.Reading? || s.dec.Absent? || s.dec.Quitting? || s.dec.Signalling?)
    ensures Tracked(StepDecoder(s), late, b) && StepDecoder(s).log == s.log
  {
    hide Carried;
  }

  lemma DecoderTracked(s: State, late: seq<Rec>, b: int)
    requires Structured(s) && Tracked(s, late, b)
    ensures Tracked(StepDecoder(s), late, b) && StepDecoder(s).log.abandoned == s.log.abandoned
  {
    hide Structured, Tracked, StepDecoder;
    if s.dec.Draining? {
      DrainTracked(s, late, b);
    } else if s.dec.Top? {
      TopTracked(s, late, b);
    } else if s.dec.Holding? || s.dec.Freed? {
      RecordTracked(s, late, b);
    } else {
      ExitTracked(s, late, b);
    }
  }

  lemma PutTracked(s: State, late: seq<Rec>, ok: bool, b: int)
    requires Tracked(s, late, b) && s.api.Putting?
    ensures Tracked(PutDone(s, ok), LateAfter(s, late, PutEnds(ok)), b)
    ensures PutDone(s, ok).log.abandoned == s.log.abandoned
  {
    OneMore(s.queue, s.api.rec, b);
    OneMore(late, s.api.rec, b);
    hide Carried, One;
  }

  lemma FinishTracked(s: State, late: seq<Rec>, b: int)
    requires Structured(s) && Tracked(s, late, b) && Enabled(s, Finish)
    ensures var t := Apply(s, Finish);
            !t.wrecked ==>
              && Tracked(t, LateAfter(s, late, Finish), b)
              && Carried(t.log.abandoned, b)
                 == Carried(s.log.abandoned, b) + (if TearsDown(s, Finish) then Carried(late, b) else 0)
  {
    hide Carried, One, StepDecoder;
    NoneCarried(b);
    CarriedConcat(s.log.abandoned, s.queue, b);
  }

  lemma WakeTracked(s: State, late: seq<Rec>, ok: bool, b: int)
    requires Tracked(s, late, b) && s.api.Waking?
    ensures Tracked(WakeDone(s, ok), late, b) && WakeDone(s, ok).log == s.log
  {
    hide Carried;
    NoneCarried(b);
  }

  lemma CallTracked(s: State, late: seq<Rec>, a: Action, b: int)
    requires Structured(s) && Tracked(s, late, b) && Enabled(s, a)
    requires a.AddStream? || a.HandIn? || a.SyncEnds? || a.Pause? || a.Flush? || a.Close? || a.WaitEnds?
    ensures Tracked(Apply(s, a), late, b) && Apply(s, a).log.abandoned == s.log.abandoned
  {
    hide Carried, StepDecoder;
  }

  lemma ApiTracked(s: State, late: seq<Rec>, a: Action, b: int)
    requires Structured(s) && Tracked(s, late, b) && Enabled(s, a) && !a.DecoderStep? && !a.PutEnds?
    ensures var t := Apply(s, a);
            !t.wrecked ==>
              && Tracked(t, LateAfter(s, late, a), b)
              && Carried(t.log.abandoned, b)
                 == Carried(s.log.abandoned, b) + (if TearsDown(s, a) then Carried(late, b) else 0)
  {
    hide Structured, Tracked, Carried, StepDecoder, Enabled, WakeDone;
    if a.Finish? {
      FinishTracked(s, late, b);
    } else if a.WakeEnds? {
      WakesOnly(s, a);
      WakeTracked(s, late, a.ok, b);
    } else {
      CallTracked(s, late, a, b);
    }
  }

  lemma WakesOnly(s: State, a: Action)
    requires Enabled(s, a) && a.WakeEnds?
    ensures s.api.Waking?
  {
  }

  lemma StepTracked(s: State, late: seq<Rec>, a: Action, b: int)
    requires Structured(s) && Tracked(s, late, b) && Enabled(s, a)
    ensures var t := Apply(s, a);
            !t.wrecked ==>
              && Tracked(t, LateAfter(s, late, a), b)
              && Carried(t.log.abandoned, b)
                 == Carried(s.log.abandoned, b) + (if TearsDown(s, a) then Carried(late, b) else 0)
  {
    hide Tracked, Structured, Carried, StepDecoder, PutDone;
    match a
    case DecoderStep => DecoderTracked(s, late, b);
    case PutEnds(ok) => PutTracked(s, late, ok, b);
    case _ => ApiTracked(s, late, a, b);
  }

  lemma {:induction false} RunTracked(s: State, late: seq<Rec>, trace: seq<Action>, b: int)
    requires Feasible(s, trace) && Tracked(s, late, b)
    ensures var t := Run(s, trace);
            !t.wrecked ==>
              && Carried(t.log.abandoned, b) == Carried(s.log.abandoned, b) + TornLate(s, late, trace, b)
              && (!t.stream ==> Carried(t.queue, b) == 0)
    decreases |trace|
  {
    hide Apply, Carried, LateAfter, TearsDown;
    if trace != [] {
      StepTracked(s, late, trace[0], b);
      var t := Apply(s, trace[0]);
      hide Tracked;
      if !t.wrecked {
        RunTracked(t, LateAfter(s, late, trace[0]), trace[1..], b);
      } else {
        assert trace[1..] == [];
      }
    }
  }

  /**
   A run loses a buffer exactly when it tears down a queue in which that buffer came too late:
   enqueued after the decoder's last test for emptiness, with no decoder thread started on that
   queue in between.
   */
  lemma LostIffTornLate(quitWhenEos: bool, trace: seq<Action>, b: int)
    requires Feasible(Init(quitWhenEos), trace)
    ensures var t := Run(Init(quitWhenEos), trace);
            !t.wrecked && Quiet(t) && !t.stream ==>
              (Lost(t, b) <==> TornLate(Init(quitWhenEos), [], trace, b) > 0)
  {
    NoneCarried(b);
    NeverFreedTwice(quitWhenEos, trace, b);
    RunTracked(Init(quitWhenEos), [], trace, b);
    hide Feasible, Run, TornLate, Carried, Times;
  }

  /**
   Buffers are safe on every run exactly when quit_when_eos is off: with it on, the decoder thread
   may quit and drain its queue while the API, having seen the thread alive, still enqueues.
   */
  lemma PoolIsSafeIffDecoderOutlivesEos(quitWhenEos: bool, b: int)
    ensures (exists trace :: Feasible(Init(quitWhenEos), trace) && Lost(Run(Init(quitWhenEos), trace), b))
            <==> quitWhenEos
  {
    hide Feasible, Run, Init;
    if quitWhenEos {
      LateBufferIsLost(b);
      DecoderQuits(b, BufferLost(b));
      StreamGetsEos(b, BufferLost(b));
      var trace :| Feasible(Init(true), trace) && Run(Init(true), trace) == BufferLost(b);
      LostCounts(b);
      assert Feasible(Init(quitWhenEos), trace) && Lost(Run(Init(quitWhenEos), trace), b);
    } else {
      forall trace | Feasible(Init(false), trace) ensures !Lost(Run(Init(false), trace), b) {
        FreedExactlyOnce(trace, b);
      }
    }
  }

  // ---------------------------------------------------------------------------------------
  // Flushing and pausing
  // ---------------------------------------------------------------------------------------

  /** FLUSHED is set by the decoder alone, when it finds its queue empty while it is flushing. */
  lemma FlushedMeansEmpty(s: State, a: Action)
    requires Structured(s) && Enabled(s, a) && !s.flushed
    ensures Apply(s, a).flushed <==>
            a.DecoderStep? && s.dec.Draining? && !s.dec.why.FinalDrain? && s.queue == []
    ensures Apply(s, a).flushed ==> Apply(s, a).queue == []
  {
    if a.DecoderStep? {
      DecoderFlushes(s);
    }
    hide StepDecoder;
  }

  lemma DecoderFlushes(s: State)
    requires Structured(s) && !s.flushed
    ensures StepDecoder(s).flushed <==> s.dec.Draining? && !s.dec.why.FinalDrain? && s.queue == []
    ensures StepDecoder(s).flushed ==> StepDecoder(s).queue == []
  {
    hide StepDecoder, Structured;
    if s.dec.Top? {
      TopPauses(s);
    } else if s.dec.Holding? || s.dec.Freed? {
      RecordPauses(s);
    } else if s.dec.Draining? {
      DrainKeeps(s);
      DrainPauses(s);
    } else {
      OtherPauses(s);
    }
  }

  predicate Flushing(d: Decoder)
  {
    (d.Draining? || d.Holding? || d.Freed?) && d.why.FlushDrain?
  }

  /** Steps the decoder needs at most until it finds its queue empty; a wake-up record may still come. */
  function FlushSteps(s: State): int
  {
    (match s.dec
     case Draining(_) => 3 * |s.queue| + 1
     case Holding(_, _) => 3 * |s.queue|
     case _ => 3 * |s.queue| - 1)
    + (if s.api.Waking? then 3 else 0)
  }

  /** The API thread is in a flush call. */
  predicate InFlush(api: Api)
  {
    (api.Waking? || api.Waiting?) && api.next.AwaitFlushed?
  }

  lemma FlushDrainStep(s: State)
    requires s.dec == Draining(FlushDrain) && InFlush(s.api)
    ensures var t := StepDecoder(s);
            && FlushSteps(s) > 0
            && (t.flushed || (t.api == s.api && Flushing(t.dec) && FlushSteps(t) < FlushSteps(s)))
  {
  }

  lemma FlushRecordStep(s: State)
    requires Structured(s) && (s.dec.Holding? || s.dec.Freed?) && s.dec.why.FlushDrain? && InFlush(s.api)
    ensures var t := StepDecoder(s);
            FlushSteps(s) > 0 && t.api == s.api && Flushing(t.dec) && FlushSteps(t) < FlushSteps(s)
  {
  }

  lemma FlushDecoderStep(s: State)
    requires Structured(s) && Flushing(s.dec) && InFlush(s.api)
    ensures Structured(StepDecoder(s)) && FlushSteps(s) > 0 && DecoderEnabled(s)
    ensures var t := StepDecoder(s);
            t.flushed || (t.api == s.api && Flushing(t.dec) && FlushSteps(t) < FlushSteps(s))
  {
    if s.dec.Draining? {
      FlushDrainStep(s);
      DrainKeeps(s);
    } else {
      FlushRecordStep(s);
      RecordStepStructured(s);
    }
    hide StepDecoder, FlushSteps, InFlush;
  }

  lemma RecordStepStructured(s: State)
    requires Structured(s) && (s.dec.Holding? || s.dec.Freed?)
    ensures Structured(StepDecoder(s))
  {
  }

  lemma FlushApiStep(s: State, a: Action)
    requires Structured(s) && Flushing(s.dec) && InFlush(s.api) && !s.flushed && Enabled(s, a) && !a.DecoderStep?
    ensures var t := Apply(s, a);
            Structured(t) && !t.flushed && Flushing(t.dec) && InFlush(t.api) && FlushSteps(t) <= FlushSteps(s)
  {
  }

  function DecoderSteps(trace: seq<Action>): nat
  {
    if trace == [] then 0 else (if trace[0].DecoderStep? then 1 else 0) + DecoderSteps(trace[1..])
  }

  /**
   A flush ends: as long as FLUSHED is not set the decoder can always go on, and after three steps
   for each record it is, whatever the API thread does meanwhile.
   */
  lemma {:induction false} FlushEnds(s: State, trace: seq<Action>)
    requires Feasible(s, trace) && Flushing(s.dec) && InFlush(s.api) && !s.flushed
    requires DecoderSteps(trace) >= FlushSteps(s)
    ensures DecoderEnabled(s) && FlushSteps(s) <= 3 * |s.queue| + 4
    ensures exists n :: 0 < n <= |trace| && Feasible(s, trace[..n]) && Run(s, trace[..n]).flushed
                        && Run(s, trace[..n]).queue == []
    decreases |trace|
  {
    FlushDecoderStep(s);
    var a := trace[0];
    var t := Apply(s, a);
    FlushedMeansEmpty(s, a);
    if a.DecoderStep? && t.flushed {
      assert trace[1..][..0] == [];
      assert Structured(t);
      PrefixRun(s, trace, 0);
    } else {
      if !a.DecoderStep? {
        FlushApiStep(s, a);
      }
      hide Apply, Structured, Flushing, InFlush, FlushSteps, Enabled;
      FlushEnds(t, trace[1..]);
      var n :| 0 < n <= |trace[1..]| && Feasible(t, trace[1..][..n]) && Run(t, trace[1..][..n]).flushed
               && Run(t, trace[1..][..n]).queue == [];
      PrefixRun(s, trace, n);
    }
  }

  /** A drained flush takes the decoder back to its loop, to rest there if it is paused. */
  lemma AfterFlush(s: State)
    requires Structured(s) && s.dec == Draining(FlushDrain) && s.queue == []
    ensures var t := StepDecoder(s);
            t.flushed && t.paused == s.paused && t.dec == (if s.paused then Top else Reading)
  {
  }

  /** A flush returns exactly on FLUSHED, a close on CLOSED, and each takes its bit down for the next one. */
  lemma WaitsReturn(s: State)
    requires Structured(s) && s.api.Waiting? && !s.wrecked
    ensures Enabled(s, WaitEnds) <==> if s.api.next.AwaitFlushed? then s.flushed else s.closed
    ensures Enabled(s, WaitEnds) ==>
              var t := Apply(s, WaitEnds);
              if s.api.next.AwaitFlushed? then t.api.Idle? && !t.flushed && t.closed == s.closed
              else t.api == Finishing(s.api.next) && !t.closed && t.flushed == s.flushed
  {
  }

  /** CLOSED is set by the decoder alone, after it has found its queue empty for the last time. */
  lemma ClosedIff(s: State, a: Action)
    requires Structured(s) && Enabled(s, a) && !s.closed
    ensures Apply(s, a).closed <==> a.DecoderStep? && s.dec.Signalling?
    ensures Apply(s, a).closed ==> Apply(s, a).dec.Absent?
  {
    if a.DecoderStep? {
      DecoderCloses(s);
    }
    hide StepDecoder;
  }

  lemma DecoderCloses(s: State)
    requires Structured(s) && !s.closed
    ensures StepDecoder(s).closed <==> s.dec.Signalling?
    ensures StepDecoder(s).closed ==> StepDecoder(s).dec.Absent?
  {
    hide PausedBy, AfterMessage, AfterDrain, AfterRecord;
  }

  /** Steps a leaving decoder needs at most until it has set CLOSED. */
  function CloseSteps(s: State): int
  {
    (match s.dec
     case Quitting => 3 * |s.queue| + 3
     case Draining(_) => 3 * |s.queue| + 2
     case Holding(_, _) => 3 * |s.queue| + 1
     case Freed(_, _) => 3 * |s.queue|
     case _ => 1)
    + (if s.api.Waking? then 3 else 0)
  }

  lemma LeavingDrain(s: State)
    requires s.dec == Draining(FinalDrain) && AwaitsClose(s.api)
    ensures var t := StepDecoder(s);
            CloseSteps(s) > 0 && t.api == s.api && Leaving(t.dec) && CloseSteps(t) < CloseSteps(s)
  {
  }

  lemma LeavingRecord(s: State)
    requires Structured(s) && (s.dec.Holding? || s.dec.Freed?) && s.dec.why.FinalDrain? && AwaitsClose(s.api)
    ensures var t := StepDecoder(s);
            CloseSteps(s) > 0 && t.api == s.api && Leaving(t.dec) && CloseSteps(t) < CloseSteps(s)
  {
  }

  lemma LeavingExit(s: State)
    requires (s.dec.Quitting? || s.dec.Signalling?) && AwaitsClose(s.api)
    ensures var t := StepDecoder(s);
            CloseSteps(s) > 0 && (t.closed || (t.api == s.api && Leaving(t.dec) && CloseSteps(t) < CloseSteps(s)))
  {
  }

  lemma LeavingStep(s: State)
    requires Structured(s) && Leaving(s.dec) && AwaitsClose(s.api)
    ensures DecoderEnabled(s) && CloseSteps(s) > 0
    ensures var t := StepDecoder(s);
            t.closed || (t.api == s.api && Leaving(t.dec) && CloseSteps(t) < CloseSteps(s))
  {
    if s.dec.Draining? {
      LeavingDrain(s);
    } else if s.dec.Holding? || s.dec.Freed? {
      LeavingRecord(s);
    } else {
      LeavingExit(s);
    }
    hide StepDecoder, CloseSteps, AwaitsClose;
  }

  lemma LeavingApiStep(s: State, a: Action)
    requires Structured(s) && Leaving(s.dec) && AwaitsClose(s.api) && !s.closed && Enabled(s, a) && !a.DecoderStep?
    ensures var t := Apply(s, a);
            Structured(t) && !t.closed && Leaving(t.dec) && AwaitsClose(t.api)
            && CloseSteps(t) <= CloseSteps(s)
  {
    hide StepDecoder;
  }

  /**
   A decoder thread that has left its loop gets CLOSED set: it can always go on, and needs three steps
   for each record and three more, whatever the API thread, which waits for the bit, does meanwhile.
   */
  lemma {:induction false} ClosingEnds(s: State, trace: seq<Action>)
    requires Feasible(s, trace) && Leaving(s.dec) && AwaitsClose(s.api) && !s.closed
    requires DecoderSteps(trace) >= CloseSteps(s)
    ensures DecoderEnabled(s) && CloseSteps(s) <= 3 * |s.queue| + 6
    ensures exists n :: 0 < n <= |trace| && Feasible(s, trace[..n]) && Run(s, trace[..n]).closed
                        && Run(s, trace[..n]).dec.Absent?
    decreases |trace|
  {
    LeavingStep(s);
    var a := trace[0];
    var t := Apply(s, a);
    ClosedIff(s, a);
    if a.DecoderStep? && t.closed {
      assert trace[1..][..0] == [];
      assert Structured(t);
      PrefixRun(s, trace, 0);
    } else {
      if !a.DecoderStep? {
        LeavingApiStep(s, a);
      }
      hide Apply, Structured, Leaving, AwaitsClose, CloseSteps, Enabled;
      ClosingEnds(t, trace[1..]);
      var n :| 0 < n <= |trace[1..]| && Feasible(t, trace[1..][..n]) && Run(t, trace[1..][..n]).closed
               && Run(t, trace[1..][..n]).dec.Absent?;
      PrefixRun(s, trace, n);
    }
  }

  lemma PrefixRun(s: State, trace: seq<Action>, n: nat)
    requires trace != [] && n < |trace| && Structured(s) && Enabled(s, trace[0])
    requires Feasible(Apply(s, trace[0]), trace[1..][..n])
    ensures Feasible(s, trace[..n + 1]) && Run(s, trace[..n + 1]) == Run(Apply(s, trace[0]), trace[1..][..n])
  {
    hide Apply, Enabled, Structured;
    assert trace[..n + 1][1..] == trace[1..][..n];
  }

  /** What the decoder does with each message. */
  lemma MessagesAct(s: State)
    requires Structured(s) && s.dec.Top? && s.msgs != []
    ensures var t := StepDecoder(s);
            && t.msgs == s.msgs[1..] && t.queue == s.queue && t.log == s.log
            && (s.msgs[0].MsgPause? ==> t.paused && t.dec.Top?)
            && (s.msgs[0].MsgResume? ==> !t.paused && t.dec.Reading?)
            && (s.msgs[0].MsgFlush? ==> t.paused == s.paused && t.dec == Draining(FlushDrain))
            && (s.msgs[0].MsgClose? ==> t.paused == s.paused && t.dec.Quitting?)
  {
  }

  /** The decoder reads from its queue exactly when it is at the top, unpaused and without a message. */
  lemma ReadsWhenUnpaused(s: State)
    requires Structured(s) && s.dec.Top? && s.msgs == []
    ensures DecoderEnabled(s) <==> !s.paused
    ensures StepDecoder(s).dec.Reading? && StepDecoder(s).paused == s.paused && StepDecoder(s).queue == s.queue
  {
  }

  /** The pause flag: set by a pause message or a consumed end of stream, cleared by a resume or a teardown. */
  lemma PausedIff(s: State, a: Action)
    requires Structured(s) && Enabled(s, a)
    ensures Apply(s, a).paused <==>
            if a.DecoderStep? && s.dec.Top? && s.msgs != [] && s.msgs[0].MsgPause? then true
            else if a.DecoderStep? && s.dec.Top? && s.msgs != [] && s.msgs[0].MsgResume? then false
            else if a.DecoderStep? && s.dec.Freed? && s.dec.rec.eos && !s.quitWhenEos then true
            else s.paused && !TearsDown(s, a)
  {
    if a.DecoderStep? {
      DecoderPauses(s);
    } else {
      hide StepDecoder;
    }
  }

  lemma TopPauses(s: State)
    requires s.dec.Top?
    ensures StepDecoder(s).flushed == s.flushed
    ensures StepDecoder(s).paused <==>
            if s.msgs != [] && s.msgs[0].MsgPause? then true
            else if s.msgs != [] && s.msgs[0].MsgResume? then false
            else s.paused
  {
    hide AfterMessage;
  }

  lemma RecordPauses(s: State)
    requires Structured(s) && (s.dec.Holding? || s.dec.Freed?)
    ensures StepDecoder(s).paused <==> (s.dec.Freed? && s.dec.rec.eos && !s.quitWhenEos) || s.paused
    ensures StepDecoder(s).flushed == s.flushed
  {
  }

  lemma DrainPauses(s: State)
    requires s.dec.Draining?
    ensures StepDecoder(s).paused == s.paused
    ensures StepDecoder(s).flushed <==> s.flushed || (!s.dec.why.FinalDrain? && s.queue == [])
  {
    hide AfterDrain;
  }

  lemma OtherPauses(s: State)
    requires s.dec.Reading? || s.dec.Absent? || s.dec.Quitting? || s.dec.Signalling?
    ensures StepDecoder(s).paused == s.paused && StepDecoder(s).flushed == s.flushed
  {
  }

  lemma DecoderPauses(s: State)
    requires Structured(s)
    ensures StepDecoder(s).paused <==>
            if s.dec.Top? && s.msgs != [] && s.msgs[0].MsgPause? then true
            else if s.dec.Top? && s.msgs != [] && s.msgs[0].MsgResume? then false
            else if s.dec.Freed? && s.dec.rec.eos && !s.quitWhenEos then true
            else s.paused
  {
    hide StepDecoder, Structured;
    if s.dec.Top? {
      TopPauses(s);
    } else if s.dec.Holding? || s.dec.Freed? {
      RecordPauses(s);
    } else if s.dec.Draining? {
      DrainPauses(s);
    } else {
      OtherPauses(s);
    }
  }

  /** A call that sends the decoder a message. */
  predicate SendsMessage(a: Action)
  {
    a.Pause? || a.Flush? || a.Close? || a.AddStream?
  }

  /** At rest: paused, at the top of its loop, with no message. */
  predicate Resting(s: State)
  {
    s.dec.Top? && s.paused && s.msgs == [] && !s.api.Finishing?
  }

  lemma RestingStep(s: State, a: Action)
    requires Structured(s) && Resting(s) && Enabled(s, a) && !SendsMessage(a)
    requires s.api.Waiting? ==> s.api.next.AwaitFlushed?
    requires s.api.Waking? ==> s.api.next.Done? || s.api.next.AwaitFlushed?
    ensures a != DecoderStep && s.queue <= Apply(s, a).queue
    ensures Resting(Apply(s, a))
    ensures Apply(s, a).api.Waiting? ==> Apply(s, a).api.next.AwaitFlushed?
    ensures Apply(s, a).api.Waking? ==> Apply(s, a).api.next.Done? || Apply(s, a).api.next.AwaitFlushed?
  {
    hide StepDecoder;
  }

  /** A paused decoder consumes nothing until it is sent a message, however much is enqueued. */
  lemma {:induction false} PausedDecoderRests(s: State, trace: seq<Action>)
    requires Feasible(s, trace) && Resting(s)
    requires s.api.Waiting? ==> s.api.next.AwaitFlushed?
    requires s.api.Waking? ==> s.api.next.Done? || s.api.next.AwaitFlushed?
    requires forall i :: 0 <= i < |trace| ==> !SendsMessage(trace[i])
    ensures Resting(Run(s, trace)) && s.queue <= Run(s, trace).queue
    ensures forall i :: 0 <= i < |trace| ==> trace[i] != DecoderStep
    decreases |trace|
  {
    if trace != [] {
      var t := Apply(s, trace[0]);
      RestingStep(s, trace[0]);
      hide Apply, Structured, Resting, SendsMessage, Enabled;
      PausedDecoderRests(t, trace[1..]);
      forall i | 0 <= i < |trace| ensures trace[i] != DecoderStep {
        if i > 0 {
          assert trace[1..][i - 1] == trace[i];
        }
      }
    }
  }

  // ---------------------------------------------------------------------------------------
  // What each call ends with
  // ---------------------------------------------------------------------------------------

  /** Data goes to the decoder thread if there is a threaded stream, and is decoded by the caller if not. */
  lemma HandInPath(s: State, data: Option<int>, eos: bool)
    requires Structured(s) && Enabled(s, HandIn(data, eos))
    ensures var t := Apply(s, HandIn(data, eos));
            t.api == if s.stream && s.thread then Putting(Rec(data, eos)) else Syncing(data)
  {
  }

  /** What was handed in becomes the newest record, or, when refused or decoded, is given back at once. */
  lemma HandInEnds(s: State, a: Action)
    requires Structured(s) && Enabled(s, a) && (a.PutEnds? || a.SyncEnds?)
    ensures var t, data := Apply(s, a), if s.api.Putting? then s.api.rec.data else s.api.data;
            && t.api.Idle?
            && t.queue == (if a == PutEnds(true) then s.queue + [s.api.rec] else s.queue)
            && t.log.freed == (if a == PutEnds(true) then s.log.freed else s.log.freed + [data])
  {
  }

  /** A consumed end of stream ends the thread or pauses it, as configured, unless the queue is being drained. */
  lemma EndOfStream(s: State)
    requires Structured(s) && s.dec.Freed? && s.dec.why.NoDrain? && s.dec.rec.eos
    ensures var t := StepDecoder(s);
            t.queue == s.queue[1..] && (if s.quitWhenEos then t.dec.Quitting? else t.dec.Top? && t.paused)
  {
  }

  /** A finished AddStream or Close leaves a stream, with or without a decoder thread, or none and nothing queued. */
  lemma CallEnds(s: State, a: Action)
    requires Structured(s) && Enabled(s, a) && a.Finish?
    ensures s.api.next.Open? ==>
              var t := Apply(s, a);
              t.stream && t.api.Idle? && t.queue == s.queue
              && (s.api.next.threaded ==> t.thread && t.dec.Top?)
              && (!s.api.next.threaded ==> t.thread == s.thread && t.dec == s.dec)
    ensures s.api.next.Teardown? ==>
              var t := Apply(s, a); !t.stream && !t.thread && !t.paused && t.queue == [] && t.msgs == [] && t.api.Idle?
  {
  }

  /** A message reaches a decoder thread if there is one, and wakes it through an empty queue. */
  lemma MessageIsSent(s: State, a: Action)
    requires Structured(s) && Enabled(s, a) && SendsMessage(a)
    ensures var t := Apply(s, a);
            var m := if a.Flush? then MsgFlush else if a.Pause? && a.on then MsgPause
                     else if a.Pause? then MsgResume else MsgClose;
            if s.thread then t.msgs == s.msgs + [m] && t.api.Waking?
            else t.msgs == s.msgs && (if a.Pause? || a.Flush? then t.api.Idle? else t.api.Finishing?)
  {
  }

  lemma WakeUpIsQueued(s: State, ok: bool)
    requires Structured(s) && Enabled(s, WakeEnds(ok))
    ensures Apply(s, WakeEnds(ok)).queue == if s.queue == [] && ok then [WAKE] else s.queue
    ensures Apply(s, WakeEnds(ok)).api == if s.api.next.Done? then Idle else Waiting(s.api.next)
  {
  }
}
