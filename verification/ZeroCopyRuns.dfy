/**
 The zero-copy path of `av_render.c` over whole runs of the data queue: decoder thread and renderer
 thread do as they please between the moment a frame is sent and the moment it is read.
 */
module ZeroCopyRuns {
  import opened Arith
  import opened Bytes
  import opened DataQueueSpec
  import opened DataQueueThreads
  import opened RenderFraming

  // ---------------------------------------------------------------------------------------
  // Blocks stay where they are
  // ---------------------------------------------------------------------------------------

  /** Block number `n` of all that were sent is still queued, in the record at offset `p`. */
  predicate Placed(s: State, n: nat, p: int)
    requires Inv(s)
  {
    |s.taken| <= n < |s.sent| && n - |s.taken| <= |Queue(s.ring)| && OffsetOf(s.ring, n - |s.taken|) == p
  }

  lemma InvParts(s: State)
    requires Inv(s)
    ensures Valid(s.ring) && |s.sent| == |s.taken| + |Queue(s.ring)|
    ensures s.writer.WriterCleared? ==> 0 <= s.writer.n
    ensures s.writer.Writing? ==>
              && 0 <= s.writer.n == |s.writer.draft| && s.writer.addr == s.ring.wp + HEAD && 0 <= s.ring.wp
              && s.writer.n + HEAD <= Available(s.ring) && s.writer.addr + s.writer.n <= |s.ring.buf|
              && s.ring.buf[s.writer.addr..s.writer.addr + s.writer.n] == s.writer.draft
  {
    hide Valid, Queue, Available, ReaderOk, UserOk, WakeOk;
  }

  lemma WriterPassRing(s: State, n: int)
    requires Valid(s.ring) && 0 <= n
    ensures var t := WriterPass(s, n);
            t.ring == Wrap(s.ring, n + HEAD) && t.sent == s.sent && t.taken == s.taken
  {
    hide Valid, Wrap, Available;
  }

  /** What the writer's pass does to ring and logs. */
  lemma PassRing(s: State, a: Action)
    requires Inv(s) && Enabled(s, a) && (a.GetBuffer? || a.WriterRetries?)
    ensures a.WriterRetries? ==> s.writer.WriterCleared?
    ensures var t, need := Apply(s, a), (if a.GetBuffer? then a.n else s.writer.n) + HEAD;
            && 0 < need && (t.ring == s.ring || t.ring == Wrap(s.ring, need))
            && t.sent == s.sent && t.taken == s.taken
  {
    InvParts(s);
    hide Inv, Valid, Queue, Wrap, Available, WriterPass;
    if a.GetBuffer? {
      WriterPassRing(s, a.n);
    } else {
      WriterPassRing(EndWait(s).(writer := WriterIdle), s.writer.n);
    }
  }

  lemma WritePlaced(s: State, a: Action, n: nat, p: int)
    requires Inv(s) && Enabled(s, a) && Placed(s, n, p) && (a.GetBuffer? || a.WriterRetries?)
    ensures Inv(Apply(s, a)) && Placed(Apply(s, a), n, p) && |Apply(s, a).ring.buf| == |s.ring.buf|
  {
    hide Inv, Valid, Queue, Wrap, Available, OffsetOf, Apply, Enabled;
    PassRing(s, a);
    StepInv(s, a);
    InvParts(s);
    var need := (if a.GetBuffer? then a.n else s.writer.n) + HEAD;
    WrapKeepsOffsets(s.ring, need, n - |s.taken|);
    WrapKeepsQueue(s.ring, need);
  }

  /** What a store through the writer's pointer does to ring and logs. */
  lemma StoreRing(s: State, a: Action)
    requires Inv(s) && Enabled(s, a) && a.StoreByte?
    ensures s.writer.Writing? && 0 <= a.i < s.writer.n
    ensures var t := Apply(s, a);
            && s.ring.wp <= s.writer.addr + a.i < s.ring.wp + s.writer.n + HEAD
            && 0 <= s.writer.addr + a.i < |s.ring.buf|
            && t.ring == s.ring.(buf := s.ring.buf[s.writer.addr + a.i := a.v])
            && t.sent == s.sent && t.taken == s.taken
  {
    InvParts(s);
    hide Inv, Valid, Queue, Available;
  }

  lemma SameQueueSameOffset(r: Ring, r': Ring, j: nat)
    requires Valid(r) && Valid(r') && j <= |Queue(r)| && Queue(r') == Queue(r)
    requires r'.rp == r.rp && r'.fillEnd == r.fillEnd
    ensures OffsetOf(r', j) == OffsetOf(r, j)
  {
    hide Valid, Queue, Footprint;
  }

  lemma StorePlaced(s: State, a: Action, n: nat, p: int)
    requires Inv(s) && Enabled(s, a) && Placed(s, n, p) && a.StoreByte?
    ensures Inv(Apply(s, a)) && Placed(Apply(s, a), n, p) && |Apply(s, a).ring.buf| == |s.ring.buf|
  {
    hide Inv, Valid, Queue, Available, OffsetOf, Apply, Enabled;
    StoreRing(s, a);
    StepInv(s, a);
    InvParts(s);
    StoreKeepsQueue(s.ring, s.writer.n + HEAD, s.writer.addr + a.i, a.v);
    SameQueueSameOffset(s.ring, Apply(s, a).ring, n - |s.taken|);
  }

  /** What a send that is within the request does to ring and logs. */
  lemma SendRing(s: State, m: int)
    requires Inv(s) && Enabled(s, SendBuffer(m))
    ensures s.writer.Writing? && 0 <= m <= s.writer.n == |s.writer.draft|
    ensures m == 0 ==> var t := Apply(s, SendBuffer(m)); t.ring == s.ring && t.sent == s.sent && t.taken == s.taken
    ensures m > 0 ==> Valid(s.ring) && m + HEAD <= Available(s.ring)
    ensures m > 0 ==>
              var t := Apply(s, SendBuffer(m));
              t.ring == Commit(s.ring, m) && t.sent == s.sent + [s.writer.draft[..m]] && t.taken == s.taken
  {
    InvParts(s);
    hide Inv, Valid, Queue, Available, Commit;
  }

  lemma SendPlaced(s: State, a: Action, n: nat, p: int)
    requires Inv(s) && Enabled(s, a) && Placed(s, n, p) && a.SendBuffer?
    ensures Inv(Apply(s, a)) && Placed(Apply(s, a), n, p) && |Apply(s, a).ring.buf| == |s.ring.buf|
  {
    hide Inv, Valid, Queue, Commit, OffsetOf, Available, Apply, Enabled;
    SendRing(s, a.m);
    StepInv(s, a);
    InvParts(s);
    if a.m > 0 {
      CommitOffsets(s.ring, a.m);
      CommitShape(s.ring, a.m);
    }
  }

  /** What read_unlock does to ring and logs. */
  lemma UnlockRing(s: State)
    requires Inv(s) && Enabled(s, ReadUnlock)
    ensures Valid(s.ring) && HaveData(s.ring)
    ensures var t := Apply(s, ReadUnlock);
            t.ring == Pop(s.ring) && t.sent == s.sent && |t.taken| == |s.taken| + 1
  {
    EmptinessTestsAgree(s.ring);
    hide Valid, Queue, HaveData, Pop, WriterOk, WakeOk, Available;
  }

  lemma UnlockPlaced(s: State, n: nat, p: int)
    requires Inv(s) && Enabled(s, ReadUnlock) && Placed(s, n, p)
    ensures Inv(Apply(s, ReadUnlock)) && |Apply(s, ReadUnlock).ring.buf| == |s.ring.buf|
    ensures n < |Apply(s, ReadUnlock).taken| || Placed(Apply(s, ReadUnlock), n, p)
  {
    hide Inv, Valid, Queue, Pop, OffsetOf, Available, HaveData, Apply, Enabled;
    UnlockRing(s);
    StepInv(s, ReadUnlock);
    InvParts(s);
    PopRemovesOldest(s.ring);
    if n > |s.taken| {
      PopOffsets(s.ring, n - |s.taken| - 1);
    }
  }

  /** consume_all takes every block, unless it does nothing. */
  lemma DiscardRing(s: State)
    requires Inv(s) && Enabled(s, ConsumeAll)
    ensures var t := Apply(s, ConsumeAll);
            && |t.ring.buf| == |s.ring.buf|
            && ((t.ring == s.ring && t.sent == s.sent && t.taken == s.taken) || |t.taken| >= |s.sent|)
  {
    InvParts(s);
    DrainEmpties(s.ring);
    hide Inv, Valid, Queue, Drain, HaveData;
  }

  lemma DiscardPlaced(s: State, n: nat, p: int)
    requires Inv(s) && Enabled(s, ConsumeAll) && Placed(s, n, p)
    ensures Inv(Apply(s, ConsumeAll)) && |Apply(s, ConsumeAll).ring.buf| == |s.ring.buf|
    ensures n < |Apply(s, ConsumeAll).taken| || Placed(Apply(s, ConsumeAll), n, p)
  {
    hide Inv, Valid, Queue, OffsetOf, Apply, Enabled;
    DiscardRing(s);
    StepInv(s, ConsumeAll);
  }

  lemma ReaderPassRing(s: State)
    requires Valid(s.ring)
    ensures var t := ReaderPass(s); t.ring == s.ring && t.sent == s.sent && t.taken == s.taken
  {
    hide Valid, DerivedReadPos, ReadInt;
  }

  /** Locking, peeking, waiting and waking leave ring and logs alone. */
  lemma OtherRing(s: State, a: Action)
    requires Inv(s) && Enabled(s, a)
    requires !a.GetBuffer? && !a.WriterRetries? && !a.StoreByte? && !a.SendBuffer? && !a.ReadUnlock? && !a.ConsumeAll?
    ensures var t := Apply(s, a); t.ring == s.ring && t.sent == s.sent && t.taken == s.taken
  {
    InvParts(s);
    hide Inv, Valid, Queue, ReaderPass;
    if a.ReadLock? {
      ReaderPassRing(s);
    } else if a.ReaderRetries? {
      ReaderPassRing(EndWait(s).(reader := ReaderIdle));
    }
  }

  lemma OtherPlaced(s: State, a: Action, n: nat, p: int)
    requires Inv(s) && Enabled(s, a) && Placed(s, n, p)
    requires !a.GetBuffer? && !a.WriterRetries? && !a.StoreByte? && !a.SendBuffer? && !a.ReadUnlock? && !a.ConsumeAll?
    ensures Inv(Apply(s, a)) && Placed(Apply(s, a), n, p) && |Apply(s, a).ring.buf| == |s.ring.buf|
  {
    hide Inv, Valid, Queue, OffsetOf, Apply, Enabled;
    OtherRing(s, a);
    StepInv(s, a);
  }

  /** No step moves a queued block; only the reader's side takes it out. */
  lemma StepPlaced(s: State, a: Action, n: nat, p: int)
    requires Inv(s) && Enabled(s, a) && Placed(s, n, p)
    ensures Inv(Apply(s, a)) && |Apply(s, a).ring.buf| == |s.ring.buf|
    ensures n < |Apply(s, a).taken| || Placed(Apply(s, a), n, p)
  {
    hide *;
    StepInv(s, a);
    match a
    case GetBuffer(_) => WritePlaced(s, a, n, p);
    case WriterRetries => WritePlaced(s, a, n, p);
    case StoreByte(_, _) => StorePlaced(s, a, n, p);
    case SendBuffer(_) => SendPlaced(s, a, n, p);
    case ReadUnlock => UnlockPlaced(s, n, p);
    case ConsumeAll => DiscardPlaced(s, n, p);
    case _ => OtherPlaced(s, a, n, p);
  }

  /** A block stays in its place on every run until it is taken. */
  lemma {:induction false} BlockStays(s: State, trace: seq<Action>, n: nat, p: int)
    requires Inv(s) && Feasible(s, trace) && Placed(s, n, p)
    ensures Inv(Run(s, trace))
    ensures n < |Run(s, trace).taken| ||
            (Placed(Run(s, trace), n, p) && |Run(s, trace).ring.buf| == |s.ring.buf|)
    decreases |trace|
  {
    hide Inv, Apply, Enabled, Placed;
    RunInv(s, trace);
    if trace != [] {
      StepPlaced(s, trace[0], n, p);
      var t := Apply(s, trace[0]);
      if n < |t.taken| {
        RunInv(t, trace[1..]);
      } else {
        BlockStays(t, trace[1..], n, p);
      }
    }
  }

  /** A block that is sent lies where the writer's pointer was. */
  lemma SentIsPlaced(s: State, m: int)
    requires Inv(s) && s.writer.Writing? && 0 < m <= s.writer.n
    ensures Enabled(s, SendBuffer(m)) && Inv(Apply(s, SendBuffer(m)))
    ensures 0 <= s.writer.addr && s.writer.addr + m <= |s.ring.buf|
    ensures Placed(Apply(s, SendBuffer(m)), |s.sent|, s.writer.addr - HEAD)
    ensures Apply(s, SendBuffer(m)).sent == s.sent + [s.ring.buf[s.writer.addr..s.writer.addr + m]]
    ensures |Apply(s, SendBuffer(m)).ring.buf| == |s.ring.buf|
  {
    hide Inv, Valid, Queue, Commit, OffsetOf, Available, Apply, Enabled;
    SendEnabled(s, m);
    InvParts(s);
    SendRing(s, m);
    StepInv(s, SendBuffer(m));
    CommitOffsets(s.ring, m);
    CommitShape(s.ring, m);
    SubSlice(s.ring.buf, s.writer.addr, s.writer.n, 0, m);
  }

  lemma SendEnabled(s: State, m: int)
    requires s.writer.Writing? && 0 <= m <= s.writer.n
    ensures Enabled(s, SendBuffer(m))
  {
  }

  /** A reader that holds a placed block reads it where it was placed. */
  lemma ReaderFindsPlaced(t: State, p: int)
    requires Inv(t) && t.reader.Reading? && Placed(t, |t.taken|, p)
    ensures t.reader.addr == p + HEAD && 0 <= t.reader.addr && 0 <= t.reader.len
    ensures t.reader.addr + t.reader.len <= |t.ring.buf|
    ensures t.ring.buf[t.reader.addr..t.reader.addr + t.reader.len] == t.sent[|t.taken|]
  {
    OldestOffset(t.ring);
    assert t.sent[|t.taken|] == Queue(t.ring)[0];
    hide Valid, Queue, OffsetOf, WriterOk;
  }

  // ---------------------------------------------------------------------------------------
  // A frame from decoder to renderer
  // ---------------------------------------------------------------------------------------

  lemma PreparedCarries(base: int, buf: seq<Byte>, buf': seq<Byte>, p: int, k: nat, f: Frame, frame: seq<Byte>, len: int)
    requires Prepared(base, buf, p, Pow2(k), f, frame) && |buf'| == |buf|
    requires len == ReleasedSize(base, p, Pow2(k), |frame|) && 0 <= p && p + len <= |buf| && 0 <= len
    requires buf'[p..p + len] == buf[p..p + len]
    ensures Prepared(base, buf', p, Pow2(k), f, frame)
  {
    hide ReadFrame, Pow2, FrameOffset;
    var d := FrameOffset(base, p, Pow2(k));
    forall i | p <= i < p + FRAME_HDR ensures buf'[i] == buf[i] {
      assert buf'[i] == buf'[p..p + len][i - p] && buf[i] == buf[p..p + len][i - p];
    }
    SameHeader(buf, buf', p);
    SubSlice(buf, p, len, d - p, len);
    SubSlice(buf', p, len, d - p, len);
  }

  /** The part of ZeroCopyRead that concerns the record alone. */
  lemma FrameInRecord(base: int, buf: seq<Byte>, p: int, k: nat, f: Frame, frame: seq<Byte>)
    requires Prepared(base, buf, p, Pow2(k), f, frame)
    ensures p <= f.data - base && f.data - base + f.size == p + ReleasedSize(base, p, Pow2(k), |frame|)
  {
    FrameOffsetInRange(base, p, k);
    hide Pow2, FrameOffset, FrameBytes;
  }

  /**
   A frame that the decoder has prepared within its request and that av_render_release_vid_fb sends
   is read back by the renderer as that frame, at an aligned address inside the record the renderer
   holds, whatever both threads have done in between.
   */
  lemma ZeroCopyOverRuns(s: State, base: int, k: nat, request: int, f: Frame, frame: seq<Byte>, trace: seq<Action>)
    requires Inv(s) && s.writer.Writing? && s.writer.n == Reserved(request, Pow2(k))
    requires 0 <= request && |frame| <= request && Mapped(base, |s.ring.buf|)
    requires Prepared(base, s.ring.buf, s.writer.addr, Pow2(k), f, frame)
    requires var send := SendBuffer(ReleasedSize(base, s.writer.addr, Pow2(k), |frame|));
             && Enabled(s, send) && Inv(Apply(s, send)) && Feasible(Apply(s, send), trace)
             && var t := Run(Apply(s, send), trace);
                t.reader.Reading? && |t.taken| == |s.sent|
    ensures var t := Run(Apply(s, SendBuffer(ReleasedSize(base, s.writer.addr, Pow2(k), |frame|))), trace);
            && 0 <= t.reader.addr && FRAME_HDR <= t.reader.len && t.reader.addr + t.reader.len <= |t.ring.buf|
            && ReadForVRender(base, t.ring.buf, t.reader.addr, t.reader.len) == Some(f)
            && f.data % Pow2(k) == 0
            && t.reader.addr <= f.data - base && f.data - base + f.size <= t.reader.addr + t.reader.len
            && t.ring.buf[f.data - base..f.data - base + f.size] == frame
  {
    hide Inv, Feasible, Run, Placed, Apply, Enabled, Pow2, FrameOffset, ReadForVRender, ReleasedSize;
    hide FrameBytes;
    var p := s.writer.addr;
    var m := ReleasedSize(base, p, Pow2(k), |frame|);
    ReleaseWithinReservation(base, p, k, request, |frame|);
    SentIsPlaced(s, m);
    var s1 := Apply(s, SendBuffer(m));
    BlockStays(s1, trace, |s.sent|, p - HEAD);
    RunInv(s1, trace);
    var t := Run(s1, trace);
    ReaderFindsPlaced(t, p - HEAD);
    assert t.sent[|s.sent|] == s.ring.buf[p..p + m];
    assert t.reader.addr == p && t.reader.len == |t.sent[|t.taken|]| == m;
    PreparedCarries(base, s.ring.buf, t.ring.buf, p, k, f, frame, m);
    ZeroCopyRead(base, t.ring.buf, p, k, f, frame);
    FrameInRecord(base, t.ring.buf, p, k, f, frame);
  }
}
