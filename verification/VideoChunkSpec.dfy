/**
 Video frames over a data channel (`esp_webrtc.c`): a frame is cut into numbered chunks, and the
 receiver joins chunks numbered 0, 1, ... up to one with the END bit.
 */
module VideoChunkSpec {
  import opened Arith
  import opened Bytes

  const CHUNK_HDR := 5
  const CHUNK_END := 0x80
  const DEFAULT_CHUNK := 10000
  const REASM_MAX := 512 * 1024
  const MAX_CHUNKS := 128

  /** The chunk size in force for the configured 16-bit value. */
  function ChunkSize(configured: int): (n: int)
    requires 0 <= configured < 0x1_0000
    ensures 0 < n < 0x1_0000
  {
    if configured != 0 then configured else DEFAULT_CHUNK
  }

  /** A configured size is the one used, and 0 stands for 10000. */
  lemma ConfiguredSizeIsUsed(configured: int)
    requires 0 <= configured < 0x1_0000
    ensures 0 < configured ==> ChunkSize(configured) == configured
    ensures ChunkSize(0) == 10000
  {
  }

  // ---------------------------------------------------------------------------------------
  // Sending
  // ---------------------------------------------------------------------------------------

  function BigEndian(n: int): (s: seq<Byte>)
    requires 0 <= n < UINT32
    ensures |s| == 4
  {
    [n / 0x100_0000, n / 0x1_0000 % 0x100, n / 0x100 % 0x100, n % 0x100]
  }

  /** One chunk on the wire. */
  function Encode(seqNo: int, isEnd: bool, payload: seq<Byte>): (c: seq<Byte>)
    requires 0 <= seqNo < MAX_CHUNKS && |payload| < UINT32
    ensures |c| == CHUNK_HDR + |payload|
  {
    [if isEnd then seqNo + CHUNK_END else seqNo] + BigEndian(|payload|) + payload
  }

  /** The chunks of `frame`, numbered from `seqNo`. */
  function Chunks(frame: seq<Byte>, size: int, seqNo: int): (cs: seq<seq<Byte>>)
    requires 0 < size < 0x1_0000 && 0 <= seqNo && |frame| <= size * (MAX_CHUNKS - seqNo)
    decreases |frame|
  {
    if frame == [] then []
    else
      RoomForOne(|frame|, size, seqNo);
      if |frame| <= size then [Encode(seqNo, true, frame)]
      else [Encode(seqNo, false, frame[..size])] + Chunks(frame[size..], size, seqNo + 1)
  }

  lemma RoomForOne(n: int, size: int, seqNo: int)
    requires 0 < n <= size * (MAX_CHUNKS - seqNo) && 0 < size && 0 <= seqNo
    ensures seqNo < MAX_CHUNKS
    ensures n - size <= size * (MAX_CHUNKS - (seqNo + 1))
  {
    assert size * (MAX_CHUNKS - seqNo) - size == size * (MAX_CHUNKS - (seqNo + 1));
  }

  /** The sender accepts exactly the frames that 128 chunks can hold. */
  predicate Sendable(n: int, size: int)
  {
    n <= size * MAX_CHUNKS
  }

  // ---------------------------------------------------------------------------------------
  // Receiving
  // ---------------------------------------------------------------------------------------

  /** `body` is what has been joined so far, `cap` the capacity of the reassembly buffer. */
  datatype Receiver = Receiver(active: bool, next: int, body: seq<Byte>, cap: int)

  predicate Valid(r: Receiver)
  {
    && |r.body| <= r.cap <= REASM_MAX
    && 0 <= r.next <= MAX_CHUNKS
    && (!r.active ==> r.next == 0 && r.body == [])
    && (r.active ==> 0 < r.next)
  }

  function Reset(r: Receiver): Receiver
  {
    r.(active := false, next := 0, body := [])
  }

  function SeqNo(c: seq<Byte>): (n: int)
    requires |c| >= CHUNK_HDR
    ensures 0 <= n < MAX_CHUNKS
  {
    c[0] % CHUNK_END
  }

  predicate IsEnd(c: seq<Byte>)
    requires |c| >= CHUNK_HDR
  {
    c[0] / CHUNK_END == 1
  }

  function LengthField(c: seq<Byte>): int
    requires |c| >= CHUNK_HDR
  {
    Join(c[4], c[3], c[2], c[1])
  }

  function Payload(c: seq<Byte>): seq<Byte>
    requires |c| >= CHUNK_HDR
  {
    c[CHUNK_HDR..]
  }

  /** The length check, in the 32-bit arithmetic of the source. */
  predicate LengthOk(c: seq<Byte>)
    requires |c| >= CHUNK_HDR
  {
    (LengthField(c) + CHUNK_HDR) % UINT32 == |c|
  }

  /** Wrap-around lets no wrong length through: a message shorter than a header never gets here. */
  lemma LengthOkExact(c: seq<Byte>)
    requires CHUNK_HDR <= |c| <= INT_MAX
    ensures 0 <= LengthField(c) < UINT32
    ensures LengthOk(c) <==> LengthField(c) == |Payload(c)|
  {
  }

  /** Which state a well-sized chunk is appended to; None drops it. */
  function Accept(r: Receiver, seqNo: int): Option<Receiver>
  {
    if seqNo == 0 then Some(Receiver(true, 1, [], r.cap))
    else if !r.active || seqNo != r.next then None
    else Some(r.(next := (r.next + 1) % 0x100))
  }

  /** The buffer capacity after the doubling loop, starting from `cap`. */
  function Doubled(cap: int, need: int): (c: int)
    requires 0 < cap
    ensures need <= c && cap <= c
    ensures cap < need ==> c < 2 * need
    decreases need - cap
  {
    if cap < need then Doubled(cap * 2, need) else cap
  }

  /** The new capacity when `need` exceeds `cap`. */
  function Grown(cap: int, need: int): (c: int)
    requires 0 <= cap < need <= REASM_MAX
    ensures need <= c <= REASM_MAX
  {
    var c := Doubled(if cap != 0 then cap * 2 else DEFAULT_CHUNK * 2, need);
    if c > REASM_MAX then REASM_MAX else c
  }

  lemma {:induction false} DoubledIsPower(cap: int, need: int) returns (k: nat)
    requires 0 < cap
    ensures Doubled(cap, need) == cap * Pow2(k) && (k > 0 ==> cap * Pow2(k - 1) < need)
    decreases need - cap
  {
    if cap < need {
      k := DoubledIsPower(cap * 2, need);
      DoubleTimes(cap, k);
      if k > 0 {
        DoubleTimes(cap, k - 1);
      }
      k := k + 1;
    } else {
      k := 0;
    }
  }

  lemma DoubleTimes(cap: int, k: nat)
    ensures (cap * 2) * Pow2(k) == cap * Pow2(k + 1)
  {
    var p := Pow2(k);
    assert Pow2(k + 1) == 2 * p;
    assert (cap * 2) * p == cap * (2 * p);
  }

  /** The capacity is doubled, from 10000 on if there is none, as often as needed and at least once, up to the cap. */
  lemma GrownByDoubling(cap: int, need: int) returns (k: nat)
    requires 0 <= cap < need <= 512 * 1024
    ensures k >= 1
    ensures var c := (if cap != 0 then cap else 10000) * Pow2(k);
            Grown(cap, need) == if c > 512 * 1024 then 512 * 1024 else c
    ensures k > 1 ==> (if cap != 0 then cap else 10000) * Pow2(k - 1) < need
  {
    var base := if cap != 0 then cap else 10000;
    k := DoubledIsPower(base * 2, need);
    DoubleTimes(base, k);
    if k > 0 {
      DoubleTimes(base, k - 1);
    }
    k := k + 1;
  }

  /** What handling one message leads to: the new state, the frame fed to the player, no-memory. */
  datatype Outcome = Outcome(rx: Receiver, frame: Option<seq<Byte>>, noMem: bool)

  /** Joining the payload of an accepted chunk. */
  function AppendTo(t: Receiver, payload: seq<Byte>, isEnd: bool, alloc: bool): Outcome
    requires |t.body| <= t.cap <= REASM_MAX
  {
    var need := |t.body| + |payload|;
    if need > REASM_MAX then Outcome(Reset(t), None, false)
    else if need > t.cap && !alloc then Outcome(Reset(t).(cap := 0), None, true)
    else
      var t' := t.(body := t.body + payload, cap := if need > t.cap then Grown(t.cap, need) else t.cap);
      if isEnd then Outcome(Reset(t'), Some(t'.body), false) else Outcome(t', None, false)
  }

  /** handle_chunked_video_dc; `alloc` says whether a realloc succeeds. */
  function Receive(r: Receiver, c: seq<Byte>, alloc: bool): Outcome
    requires Valid(r)
  {
    if |c| < CHUNK_HDR then Outcome(r, None, false)
    else if !LengthOk(c) then Outcome(Reset(r), None, false)
    else
      var a := Accept(r, SeqNo(c));
      if a.None? then Outcome(Reset(r), None, false)
      else
        AppendTo(a.value, Payload(c), IsEnd(c), alloc)
  }

  lemma ReceiveValid(r: Receiver, c: seq<Byte>, alloc: bool)
    requires Valid(r)
    ensures Valid(Receive(r, c, alloc).rx)
  {
    hide LengthField, LengthOk, SeqNo, IsEnd, Payload, Grown, Doubled;
  }

  /**
   Running out of memory: exactly when a chunk is well sized, in its turn, within the cap and beyond
   the capacity, and no memory can be had; the frame and the buffer are given up.
   */
  lemma NoMemoryIff(r: Receiver, c: seq<Byte>, alloc: bool)
    requires Valid(r)
    ensures Receive(r, c, alloc).noMem <==>
            && !alloc && 5 <= |c| && LengthOk(c)
            && (SeqNo(c) == 0 || (r.active && SeqNo(c) == r.next))
            && var need := (if SeqNo(c) == 0 then 0 else |r.body|) + |Payload(c)|;
               r.cap < need <= 512 * 1024
    ensures Receive(r, c, alloc).noMem ==> Receive(r, c, alloc) == Outcome(Receiver(false, 0, [], 0), None, true)
  {
    hide LengthOk, SeqNo, Payload, IsEnd, Grown;
  }

  // ---------------------------------------------------------------------------------------
  // Round trip
  // ---------------------------------------------------------------------------------------

  lemma BigEndianReadsBack(n: int)
    requires 0 <= n < UINT32
    ensures var s := BigEndian(n); Join(s[3], s[2], s[1], s[0]) == n
  {
    var q1 := n / 0x100;
    var q2 := q1 / 0x100;
    assert n / 0x1_0000 == q2;
    assert n / 0x100_0000 == q2 / 0x100;
  }

  lemma HeaderByte(seqNo: int, isEnd: bool)
    requires 0 <= seqNo < MAX_CHUNKS
    ensures var b := if isEnd then seqNo + CHUNK_END else seqNo;
            b % CHUNK_END == seqNo && (b / CHUNK_END == 1 <==> isEnd)
  {
  }

  lemma EncodeReadsBack(seqNo: int, isEnd: bool, payload: seq<Byte>)
    requires 0 <= seqNo < MAX_CHUNKS && |payload| < INT_MAX - CHUNK_HDR
    ensures var c := Encode(seqNo, isEnd, payload);
            && |c| >= CHUNK_HDR && SeqNo(c) == seqNo && IsEnd(c) == isEnd
            && LengthOk(c) && Payload(c) == payload
  {
    hide BigEndian, Join, LengthOk;
    var c := Encode(seqNo, isEnd, payload);
    var s := BigEndian(|payload|);
    HeaderByte(seqNo, isEnd);
    BigEndianReadsBack(|payload|);
    assert c[1] == s[0] && c[2] == s[1] && c[3] == s[2] && c[4] == s[3];
    LengthOkExact(c);
  }

  /** A chunk byte by byte: number and END bit, the length most significant byte first, the payload. */
  lemma ChunkOnTheWire(seqNo: int, isEnd: bool, payload: seq<Byte>)
    requires 0 <= seqNo < 128 && |payload| < 0x1_0000_0000
    ensures var c := Encode(seqNo, isEnd, payload);
            && |c| == 5 + |payload| && c[5..] == payload
            && c[0] == (if isEnd then 0x80 + seqNo else seqNo)
            && c[1] == |payload| / 0x100_0000 && c[4] == |payload| % 0x100
            && 0x100_0000 * c[1] as int + 0x1_0000 * c[2] as int + 0x100 * c[3] as int + c[4] as int == |payload|
  {
    BigEndianReadsBack(|payload|);
    var c := Encode(seqNo, isEnd, payload);
    var s := BigEndian(|payload|);
    assert c[1] == s[0] && c[2] == s[1] && c[3] == s[2] && c[4] == s[3];
  }

  /** 128 chunks are what a frame may take. */
  lemma SendableIff(n: int, size: int)
    ensures Sendable(n, size) <==> n <= 128 * size
  {
  }

  /** Feeding messages in order, memory never failing: the final state and the frames delivered. */
  function ReceiveAll(r: Receiver, cs: seq<seq<Byte>>): (Receiver, seq<seq<Byte>>)
    requires Valid(r)
    decreases |cs|
  {
    if cs == [] then (r, [])
    else
      ReceiveValid(r, cs[0], true);
      var o := Receive(r, cs[0], true);
      var (r', frames) := ReceiveAll(o.rx, cs[1..]);
      (r', (if o.frame.Some? then [o.frame.value] else []) + frames)
  }

  /** Without its first chunk a frame is ignored. */
  lemma {:induction false} TailIgnored(r: Receiver, rest: seq<Byte>, size: int, k: int)
    requires Valid(r) && !r.active && 0 < size < 0x1_0000 && 0 < k && |rest| <= size * (MAX_CHUNKS - k)
    ensures ReceiveAll(r, Chunks(rest, size, k)).0 == r && ReceiveAll(r, Chunks(rest, size, k)).1 == []
    decreases |rest|
  {
    hide Encode, Receive;
    if rest != [] {
      RoomForOne(|rest|, size, k);
      if |rest| <= size {
        StrayChunk(r, rest, k, true);
        assert Chunks(rest, size, k)[1..] == [];
      } else {
        StrayChunk(r, rest[..size], k, false);
        TailIgnored(r, rest[size..], size, k + 1);
      }
    }
  }

  lemma StrayChunk(r: Receiver, payload: seq<Byte>, k: int, isEnd: bool)
    requires Valid(r) && !r.active && 0 < k < MAX_CHUNKS && |payload| < 0x1_0000
    ensures Receive(r, Encode(k, isEnd, payload), true) == Outcome(r, None, false)
  {
    EncodeReadsBack(k, isEnd, payload);
  }

  /** The receiver is where the first `k` chunks of a frame, carrying `done`, have put it. */
  predicate MidFrame(r: Receiver, done: seq<Byte>, k: int)
  {
    (k == 0 && done == []) || (k > 0 && r.active && r.next == k && r.body == done)
  }

  /** One chunk of a frame, in its turn. */
  lemma NextChunk(r: Receiver, done: seq<Byte>, payload: seq<Byte>, k: int, isEnd: bool)
    requires Valid(r) && MidFrame(r, done, k) && 0 <= k < MAX_CHUNKS && |payload| < 0x1_0000
    ensures var o := Receive(r, Encode(k, isEnd, payload), true);
            && Valid(o.rx)
            && if |done| + |payload| > REASM_MAX then o.frame.None? && !o.rx.active
               else if isEnd then o.frame == Some(done + payload) && !o.rx.active
               else o.frame.None? && MidFrame(o.rx, done + payload, k + 1)
  {
    hide Encode, LengthOk, SeqNo, IsEnd, Payload, Grown, Doubled;
    EncodeReadsBack(k, isEnd, payload);
    ReceiveValid(r, Encode(k, isEnd, payload), true);
  }

  lemma ReceiveFirst(r: Receiver, c: seq<Byte>, cs: seq<seq<Byte>>)
    requires Valid(r)
    ensures var o := Receive(r, c, true);
            && Valid(o.rx)
            && ReceiveAll(r, [c] + cs) == (ReceiveAll(o.rx, cs).0,
                                           (if o.frame.Some? then [o.frame.value] else []) + ReceiveAll(o.rx, cs).1)
  {
    hide Valid, Receive;
    ReceiveValid(r, c, true);
    assert ([c] + cs)[1..] == cs;
  }

  lemma FrameEnds(r: Receiver, done: seq<Byte>, rest: seq<Byte>, size: int, k: int)
    requires Valid(r) && MidFrame(r, done, k) && |done| <= REASM_MAX
    requires 0 < |rest| <= size < 0x1_0000 && 0 <= k < MAX_CHUNKS
    ensures ReceiveAll(r, [Encode(k, true, rest)]) ==
            (Receive(r, Encode(k, true, rest), true).rx, if |done| + |rest| <= REASM_MAX then [done + rest] else [])
    ensures !Receive(r, Encode(k, true, rest), true).rx.active
  {
    hide Encode, Receive, Valid, MidFrame;
    NextChunk(r, done, rest, k, true);
    assert [Encode(k, true, rest)] == [Encode(k, true, rest)] + [];
    ReceiveFirst(r, Encode(k, true, rest), []);
    var o := Receive(r, Encode(k, true, rest), true);
    assert ReceiveAll(o.rx, []) == (o.rx, []);
    var frames: seq<seq<Byte>> := if o.frame.Some? then [o.frame.value] else [];
    assert ReceiveAll(r, [Encode(k, true, rest)]).1 == frames + [] == frames;
  }

  lemma {:induction false} FrameJoins(r: Receiver, done: seq<Byte>, rest: seq<Byte>, size: int, k: int)
    requires Valid(r) && MidFrame(r, done, k) && |done| <= REASM_MAX
    requires 0 < size < 0x1_0000 && 0 <= k && rest != [] && |rest| <= size * (MAX_CHUNKS - k)
    ensures var (r', frames) := ReceiveAll(r, Chunks(rest, size, k));
            && !r'.active
            && frames == if |done| + |rest| <= REASM_MAX then [done + rest] else []
    decreases |rest|
  {
    hide Encode, Receive, Valid, MidFrame, ReceiveAll;
    RoomForOne(|rest|, size, k);
    if |rest| <= size {
      FrameEnds(r, done, rest, size, k);
    } else {
      var payload := rest[..size];
      NextChunk(r, done, payload, k, false);
      ReceiveFirst(r, Encode(k, false, payload), Chunks(rest[size..], size, k + 1));
      var o := Receive(r, Encode(k, false, payload), true);
      if |done| + size > REASM_MAX {
        TailIgnored(o.rx, rest[size..], size, k + 1);
      } else {
        FrameJoins(o.rx, done + payload, rest[size..], size, k + 1);
        assert done + payload + rest[size..] == done + rest;
      }
    }
  }

  /**
   Sender and receiver undo each other: whatever the receiver was doing before, the chunks of a
   sendable frame deliver that frame, once and byte for byte, exactly when it fits 512 KiB.
   */
  lemma RoundTrip(r: Receiver, frame: seq<Byte>, size: int)
    requires Valid(r) && 0 < size < 0x1_0000 && 0 < |frame| && Sendable(|frame|, size)
    ensures ReceiveAll(r, Chunks(frame, size, 0)).1 == if |frame| <= REASM_MAX then [frame] else []
    ensures !ReceiveAll(r, Chunks(frame, size, 0)).0.active
  {
    FrameJoins(r, [], frame, size, 0);
    assert [] + frame == frame;
  }

  lemma TwoChunks(frame: seq<Byte>, size: int)
    requires 0 < size < 0x1_0000 && size < |frame| <= 2 * size
    ensures Chunks(frame, size, 0) == [Encode(0, false, frame[..size]), Encode(1, true, frame[size..])]
  {
    hide Encode;
    RoomForOne(|frame|, size, 0);
    assert Chunks(frame[size..], size, 1) == [Encode(1, true, frame[size..])];
  }

  /**
   Numbers restart with every frame, so losing the end of one two-chunk frame and the start of the
   next splices the two: the frame delivered is neither of them, unless they agree on the first
   `size` bytes or behind them.
   */
  lemma LossCanSplice(r: Receiver, a: seq<Byte>, b: seq<Byte>, size: int)
    requires Valid(r) && 0 < size < 0x1_0000 && size < |a| <= 2 * size && size < |b| <= 2 * size
    ensures |Chunks(a, size, 0)| == 2 && |Chunks(b, size, 0)| == 2
    ensures var v := a[..size] + b[size..];
            && ReceiveAll(r, [Chunks(a, size, 0)[0], Chunks(b, size, 0)[1]]).1 == [v]
            && (v == a <==> a[size..] == b[size..])
            && (v == b <==> a[..size] == b[..size])
  {
    hide Encode, Receive, Valid, Chunks, ReceiveAll;
    TwoChunks(a, size);
    TwoChunks(b, size);
    NextChunk(r, [], a[..size], 0, false);
    var t := Receive(r, Encode(0, false, a[..size]), true).rx;
    assert [] + a[..size] == a[..size];
    NextChunk(t, a[..size], b[size..], 1, true);
    ReceivesTwo(r, Encode(0, false, a[..size]), Encode(1, true, b[size..]));
    SpliceEquals(a, b, size);
  }

  lemma SpliceEquals(a: seq<Byte>, b: seq<Byte>, size: int)
    requires 0 <= size <= |a| && size <= |b|
    ensures a[..size] + b[size..] == a <==> a[size..] == b[size..]
    ensures a[..size] + b[size..] == b <==> a[..size] == b[..size]
  {
    var v := a[..size] + b[size..];
    assert v[..size] == a[..size] && v[size..] == b[size..];
    assert a == a[..size] + a[size..] && b == b[..size] + b[size..];
  }

  lemma ReceivesTwo(r: Receiver, c: seq<Byte>, d: seq<Byte>)
    requires Valid(r) && Valid(Receive(r, c, true).rx)
    requires Receive(r, c, true).frame.None? && Receive(Receive(r, c, true).rx, d, true).frame.Some?
    ensures ReceiveAll(r, [c, d]).1 == [Receive(Receive(r, c, true).rx, d, true).frame.value]
  {
    hide Receive, Valid;
    var t := Receive(r, c, true).rx;
    ReceiveValid(t, d, true);
    assert [c, d][1..] == [d] && [d][1..] == [];
    assert ReceiveAll(t, [d]).1 == [Receive(t, d, true).frame.value];
  }

  // ---------------------------------------------------------------------------------------
  // Arbitrary streams
  // ---------------------------------------------------------------------------------------

  datatype Message = Message(bytes: seq<Byte>, alloc: bool)

  function Start(cap: int): Receiver
  {
    Receiver(false, 0, [], cap)
  }

  /** The receiver after a stream of messages. */
  function After(cap: int, ms: seq<Message>): (r: Receiver)
    requires 0 <= cap <= REASM_MAX
    ensures Valid(r)
    decreases |ms|
  {
    if ms == [] then Start(cap)
    else
      var n := |ms| - 1;
      ReceiveValid(After(cap, ms[..n]), ms[n].bytes, ms[n].alloc);
      Receive(After(cap, ms[..n]), ms[n].bytes, ms[n].alloc).rx
  }

  /** The messages that are long enough to be chunks. */
  function Kept(ms: seq<Message>): (cs: seq<seq<Byte>>)
    ensures forall i :: 0 <= i < |cs| ==> |cs[i]| >= CHUNK_HDR
    decreases |ms|
  {
    if ms == [] then []
    else
      var n := |ms| - 1;
      Kept(ms[..n]) + if |ms[n].bytes| < CHUNK_HDR then [] else [ms[n].bytes]
  }

  predicate AllLong(cs: seq<seq<Byte>>)
  {
    forall i :: 0 <= i < |cs| ==> |cs[i]| >= CHUNK_HDR
  }

  function JoinPayloads(cs: seq<seq<Byte>>): seq<Byte>
    requires AllLong(cs)
    decreases |cs|
  {
    if cs == [] then [] else JoinPayloads(cs[..|cs| - 1]) + Payload(cs[|cs| - 1])
  }

  /** From index `j` on, the chunks are well formed and numbered 0, 1, 2, ... and fit the cap. */
  predicate Numbered(cs: seq<seq<Byte>>, j: int)
    requires AllLong(cs)
  {
    && 0 <= j < |cs|
    && (forall i :: j <= i < |cs| ==> LengthOk(cs[i]) && SeqNo(cs[i]) == i - j)
    && |JoinPayloads(cs[j..])| <= REASM_MAX
  }

  /** An unfinished frame: numbered chunks, none with the END bit. */
  predicate OpenFrame(cs: seq<seq<Byte>>, j: int)
    requires AllLong(cs)
  {
    Numbered(cs, j) && forall i :: j <= i < |cs| ==> !IsEnd(cs[i])
  }

  /** A frame: numbered chunks with the END bit on the last and only there. */
  predicate WholeFrame(cs: seq<seq<Byte>>, j: int)
    requires AllLong(cs)
  {
    Numbered(cs, j) && forall i :: j <= i < |cs| ==> (IsEnd(cs[i]) <==> i == |cs| - 1)
  }

  lemma NumberedSnoc(cs: seq<seq<Byte>>, c: seq<Byte>, j: int)
    requires AllLong(cs) && |c| >= CHUNK_HDR && 0 <= j <= |cs|
    ensures AllLong(cs + [c])
    ensures JoinPayloads((cs + [c])[j..]) == JoinPayloads(cs[j..]) + Payload(c)
    ensures Numbered(cs + [c], j) <==>
            && (j == |cs| || Numbered(cs, j)) && LengthOk(c) && SeqNo(c) == |cs| - j
            && |JoinPayloads(cs[j..])| + |Payload(c)| <= REASM_MAX
  {
    hide LengthOk, SeqNo, Payload;
    var cs' := cs + [c];
    assert cs'[j..] == cs[j..] + [c];
    assert cs'[j..][..|cs| - j] == cs[j..];
    assert cs'[|cs|] == c;
    assert forall i :: j <= i < |cs| ==> cs'[i] == cs[i];
  }

  lemma EndsSnoc(cs: seq<seq<Byte>>, c: seq<Byte>, j: int)
    requires AllLong(cs) && |c| >= CHUNK_HDR && 0 <= j <= |cs|
    ensures AllLong(cs + [c])
    ensures OpenFrame(cs + [c], j) <==>
            Numbered(cs + [c], j) && (j == |cs| || OpenFrame(cs, j)) && !IsEnd(c)
    ensures WholeFrame(cs + [c], j) <==>
            Numbered(cs + [c], j) && (j == |cs| || OpenFrame(cs, j)) && IsEnd(c)
  {
    NumberedSnoc(cs, c, j);
    hide Numbered;
    var cs' := cs + [c];
    assert cs'[|cs|] == c;
    assert forall i :: j <= i < |cs| ==> cs'[i] == cs[i];
  }

  /** An active receiver holds exactly the open frame at the end of the stream. */
  predicate Sound(r: Receiver, cs: seq<seq<Byte>>)
    requires AllLong(cs)
  {
    r.active ==>
      && r.next <= |cs| && OpenFrame(cs, |cs| - r.next)
      && r.body == JoinPayloads(cs[|cs| - r.next..])
  }

  /** Every open frame at the end of the stream is the one the receiver holds. */
  ghost predicate Alert(r: Receiver, cs: seq<seq<Byte>>)
    requires AllLong(cs)
  {
    forall j :: OpenFrame(cs, j) ==> r.active && r.next == |cs| - j
  }

  /** The start of the frame a chunk belongs to, if the receiver accepts it. */
  function FrameStart(r: Receiver, cs: seq<seq<Byte>>, c: seq<Byte>): int
    requires CHUNK_HDR <= |c|
  {
    if SeqNo(c) == 0 then |cs| else |cs| - r.next
  }

  /** A chunk the receiver accepts extends the frame it holds, or starts a new one. */
  lemma AcceptedChunk(r: Receiver, cs: seq<seq<Byte>>, c: seq<Byte>)
    requires Valid(r) && AllLong(cs) && CHUNK_HDR <= |c| && Sound(r, cs) && Accept(r, SeqNo(c)).Some?
    ensures var t, j := Accept(r, SeqNo(c)).value, FrameStart(r, cs, c);
            && 0 <= j <= |cs| && AllLong(cs + [c]) && t.active && t.next == |cs| + 1 - j
            && (j == |cs| || (OpenFrame(cs, j) && Numbered(cs, j)))
            && SeqNo(c) == |cs| - j
            && t.body + Payload(c) == JoinPayloads((cs + [c])[j..])
  {
    hide OpenFrame, JoinPayloads, Numbered, Payload, SeqNo;
    var j := FrameStart(r, cs, c);
    NumberedSnoc(cs, c, j);
    if j == |cs| {
      NothingJoined(cs);
    } else {
      NumberedBounds(cs, j);
    }
  }

  lemma NothingJoined(cs: seq<seq<Byte>>)
    requires AllLong(cs)
    ensures JoinPayloads(cs[|cs|..]) == []
  {
  }

  /** One long message keeps the receiver sound, and a delivered frame is a whole frame. */
  lemma SoundStep(r: Receiver, cs: seq<seq<Byte>>, c: seq<Byte>, alloc: bool)
    requires Valid(r) && AllLong(cs) && CHUNK_HDR <= |c| && Sound(r, cs)
    ensures AllLong(cs + [c]) && Sound(Receive(r, c, alloc).rx, cs + [c])
    ensures var f := Receive(r, c, alloc).frame;
            f.Some? ==> exists j :: WholeFrame(cs + [c], j) && f.value == JoinPayloads((cs + [c])[j..])
  {
    hide Numbered, OpenFrame, WholeFrame, LengthOk, IsEnd, JoinPayloads, Payload, SeqNo;
    if LengthOk(c) && Accept(r, SeqNo(c)).Some? {
      AcceptedChunk(r, cs, c);
      var j := FrameStart(r, cs, c);
      NumberedSnoc(cs, c, j);
      EndsSnoc(cs, c, j);
    }
  }

  /** The numbered chunks at the end of a stream start in one place only. */
  lemma OneStart(cs: seq<seq<Byte>>, j: int, j': int)
    requires AllLong(cs) && Numbered(cs, j) && Numbered(cs, j')
    ensures j == j'
  {
    assert SeqNo(cs[|cs| - 1]) == |cs| - 1 - j;
  }

  /** While memory lasts, no open frame is missed, and a whole frame is delivered. */
  lemma AlertStep(r: Receiver, cs: seq<seq<Byte>>, c: seq<Byte>, j: int)
    requires Valid(r) && AllLong(cs) && CHUNK_HDR <= |c| && Sound(r, cs) && Alert(r, cs) && AllLong(cs + [c])
    ensures var o := Receive(r, c, true);
            && (OpenFrame(cs + [c], j) ==> o.rx.active && o.rx.next == |cs| + 1 - j)
            && (WholeFrame(cs + [c], j) ==> o.frame == Some(JoinPayloads((cs + [c])[j..])))
  {
    hide Numbered, OpenFrame, WholeFrame, LengthOk, IsEnd, JoinPayloads, Payload, SeqNo;
    if OpenFrame(cs + [c], j) || WholeFrame(cs + [c], j) {
      NumberedBounds(cs + [c], j);
      NumberedSnoc(cs, c, j);
      EndsSnoc(cs, c, j);
      assert j == |cs| || (r.active && r.next == |cs| - j);
      AcceptedChunk(r, cs, c);
      assert FrameStart(r, cs, c) == j;
    }
  }

  lemma NumberedBounds(cs: seq<seq<Byte>>, j: int)
    requires AllLong(cs) && (OpenFrame(cs, j) || WholeFrame(cs, j))
    ensures 0 <= j < |cs| && Numbered(cs, j)
  {
  }

  /** The invariant of every run. */
  lemma {:induction false} StreamInv(cap: int, ms: seq<Message>)
    requires 0 <= cap <= REASM_MAX
    ensures Sound(After(cap, ms), Kept(ms))
    ensures (forall i :: 0 <= i < |ms| ==> ms[i].alloc) ==> Alert(After(cap, ms), Kept(ms))
    decreases |ms|
  {
    hide OpenFrame, Valid, Receive;
    if ms == [] {
      EmptyStream(cap);
    } else {
      var n := |ms| - 1;
      var r, cs, c := After(cap, ms[..n]), Kept(ms[..n]), ms[n].bytes;
      StreamInv(cap, ms[..n]);
      if |c| < CHUNK_HDR {
        ShortIgnored(r, c, ms[n].alloc);
        assert cs + [] == cs;
      } else {
        SoundStep(r, cs, c, ms[n].alloc);
        if forall i :: 0 <= i < |ms| ==> ms[i].alloc {
          forall j | OpenFrame(cs + [c], j) ensures After(cap, ms).active && After(cap, ms).next == |cs| + 1 - j {
            AlertStep(r, cs, c, j);
          }
        }
      }
    }
  }

  lemma EmptyStream(cap: int)
    requires 0 <= cap <= REASM_MAX
    ensures Sound(After(cap, []), Kept([])) && Alert(After(cap, []), Kept([]))
  {
  }

  lemma ShortIgnored(r: Receiver, c: seq<Byte>, alloc: bool)
    requires Valid(r) && |c| < CHUNK_HDR
    ensures Receive(r, c, alloc) == Outcome(r, None, false)
  {
  }

  /**
   For every stream of messages, good or bad: a frame is delivered only as the concatenation of
   chunks numbered 0, 1, ..., E since the last number 0, with the END bit on the last one only, and
   there is just one way to read the stream like that.
   */
  lemma DeliveredFramesAreWhole(cap: int, ms: seq<Message>, m: Message)
    requires 0 <= cap <= REASM_MAX
    ensures var f := Receive(After(cap, ms), m.bytes, m.alloc).frame;
            f.Some? ==>
              && |m.bytes| >= CHUNK_HDR
              && exists j :: WholeFrame(Kept(ms) + [m.bytes], j)
                             && f.value == JoinPayloads((Kept(ms) + [m.bytes])[j..])
                             && forall k :: WholeFrame(Kept(ms) + [m.bytes], k) ==> k == j
  {
    StreamInv(cap, ms);
    hide WholeFrame, Sound, After, Kept, JoinPayloads, Numbered;
    if |m.bytes| >= CHUNK_HDR {
      SoundStep(After(cap, ms), Kept(ms), m.bytes, m.alloc);
      var cs := Kept(ms) + [m.bytes];
      forall j, k | WholeFrame(cs, j) && WholeFrame(cs, k) ensures j == k {
        NumberedBounds(cs, j);
        NumberedBounds(cs, k);
        OneStart(cs, j, k);
      }
    }
  }

  /** And while memory lasts every whole frame that fits the cap is delivered. */
  lemma WholeFramesAreDelivered(cap: int, ms: seq<Message>, c: seq<Byte>, j: int)
    requires 0 <= cap <= REASM_MAX && |c| >= CHUNK_HDR
    requires forall i :: 0 <= i < |ms| ==> ms[i].alloc
    requires AllLong(Kept(ms) + [c]) && WholeFrame(Kept(ms) + [c], j)
    ensures Receive(After(cap, ms), c, true).frame == Some(JoinPayloads((Kept(ms) + [c])[j..]))
  {
    StreamInv(cap, ms);
    hide WholeFrame, Sound, Alert, After, Kept, JoinPayloads, Numbered, Receive;
    AlertStep(After(cap, ms), Kept(ms), c, j);
  }
}
