/**
 Video frames inside ring-buffer records (`av_render.c`): a 16-byte `av_render_video_frame_t`
 whose data pointer either designates an aligned spot inside the same record (zero copy) or is
 replaced by the bytes behind the header.
 */
module RenderFraming {
  import opened Arith
  import opened Bytes
  import opened DataQueueSpec

  /** sizeof(av_render_video_frame_t): pts, data pointer, size, eos and its padding. */
  const FRAME_HDR := 16

  // ---------------------------------------------------------------------------------------
  // Alignment
  // ---------------------------------------------------------------------------------------

  /** `x & ~m`, bit by bit. */
  function AndNot(x: nat, m: nat): nat
    decreases x
  {
    if x == 0 then 0 else (if m % 2 == 1 then 0 else x % 2) + 2 * AndNot(x / 2, m / 2)
  }

  /** `(x + align - 1) & ~(align - 1)`, as av_render_fetch_vid_fb computes it. */
  function AlignUp(x: nat, align: nat): nat
    requires align > 0
  {
    AndNot(x + (align - 1), align - 1)
  }

  /** One bit at a time: the lowest bit of the mask `2p - 1` is set. */
  lemma AndNotStep(x: nat, p: nat)
    requires p > 0
    ensures AndNot(x, 2 * p - 1) == 2 * AndNot(x / 2, p - 1)
  {
    assert (2 * p - 1) / 2 == p - 1;
  }

  /** `x` rounded down to a multiple of `p`. */
  function RoundedDown(x: int, p: int): int
    requires p > 0
  {
    x - x % p
  }

  lemma RoundDouble(x: nat, p: nat)
    requires p > 0
    ensures RoundedDown(x, 2 * p) == 2 * RoundedDown(x / 2, p)
  {
    ModDouble(x, p);
  }

  lemma {:induction false} AndNotRoundsDown(x: nat, k: nat)
    ensures AndNot(x, Pow2(k) - 1) == RoundedDown(x, Pow2(k))
    decreases k
  {
    hide AndNot, RoundedDown;
    if k == 0 {
      AndNotZero(x);
      RoundOne(x);
    } else {
      var p := Pow2(k - 1);
      AndNotStep(x, p);
      AndNotRoundsDown(x / 2, k - 1);
      RoundDouble(x, p);
    }
  }

  lemma RoundOne(x: nat)
    ensures RoundedDown(x, 1) == x
  {
  }

  lemma {:induction false} AndNotZero(x: nat)
    ensures AndNot(x, 0) == x
  {
    if x != 0 {
      AndNotZero(x / 2);
    }
  }

  lemma ModDouble(x: nat, p: nat)
    requires p > 0
    ensures x % (2 * p) == 2 * (x / 2 % p) + x % 2
  {
    var h := x / 2;
    var q, m := h / p, h % p;
    assert h == q * p + m;
    assert x == q * (2 * p) + (2 * m + x % 2);
    DivUnique(x, 2 * p, q, 2 * m + x % 2);
  }

  lemma {:induction false} RoundedDownIsMultiple(x: nat, k: nat)
    ensures 0 <= RoundedDown(x, Pow2(k)) && RoundedDown(x, Pow2(k)) % Pow2(k) == 0
    decreases k
  {
    if k > 0 {
      var p := Pow2(k - 1);
      RoundedDownIsMultiple(x / 2, k - 1);
      RoundDouble(x, p);
      hide RoundedDown;
      DoubleIsMultiple(RoundedDown(x / 2, p), p);
    }
  }

  lemma DoubleIsMultiple(z: nat, p: nat)
    requires p > 0 && z % p == 0
    ensures (2 * z) % (2 * p) == 0
  {
    ModDouble(2 * z, p);
  }

  lemma RoundedDownNear(y: int, p: int)
    requires p > 0
    ensures y - p < RoundedDown(y, p) <= y
  {
  }

  /** For a power of two the result is the next multiple of it. */
  lemma AlignUpIsNextMultiple(x: nat, k: nat)
    ensures var a := Pow2(k); x <= AlignUp(x, a) < x + a && AlignUp(x, a) % a == 0
  {
    hide Pow2, AndNot, RoundedDown;
    var y := x + (Pow2(k) - 1);
    AndNotRoundsDown(y, k);
    RoundedDownIsMultiple(y, k);
    RoundedDownNear(y, Pow2(k));
  }

  // ---------------------------------------------------------------------------------------
  // The frame structure
  // ---------------------------------------------------------------------------------------

  /** `av_render_video_frame_t` with 32-bit pointers; `data` is an address. */
  datatype Frame = Frame(pts: int, data: int, size: int, eos: bool)

  predicate FrameOk(f: Frame)
  {
    0 <= f.pts < UINT32 && 0 <= f.data < UINT32 && 0 <= f.size <= INT_MAX
  }

  function FrameBytes(f: Frame): (s: seq<Byte>)
    requires FrameOk(f)
    ensures |s| == FRAME_HDR
  {
    IntBytes(f.pts) + IntBytes(f.data) + IntBytes(f.size) + [if f.eos then 1 else 0, 0, 0, 0]
  }

  function ReadFrame(buf: seq<Byte>, p: int): Frame
    requires 0 <= p && p + FRAME_HDR <= |buf|
  {
    Frame(ReadU32(buf, p), ReadU32(buf, p + 4), ReadInt(buf, p + 8), buf[p + 12] != 0)
  }

  lemma FourFields(a: seq<Byte>, b: seq<Byte>, c: seq<Byte>, d: seq<Byte>)
    requires |a| == |b| == |c| == 4
    ensures var w := a + b + c + d; w[..4] == a && w[4..8] == b && w[8..12] == c && w[12..] == d
  {
  }

  lemma SubSlice(buf: seq<Byte>, p: int, n: int, i: int, j: int)
    requires 0 <= p && p + n <= |buf| && 0 <= i <= j <= n
    ensures buf[p..p + n][i..j] == buf[p + i..p + j]
  {
    var a, b := buf[p..p + n][i..j], buf[p + i..p + j];
    forall k | 0 <= k < j - i ensures a[k] == b[k] {
      assert a[k] == buf[p..p + n][i + k];
    }
  }

  lemma SignedRead(buf: seq<Byte>, p: int)
    requires 0 <= p && p + 4 <= |buf|
    ensures ReadU32(buf, p) <= INT_MAX ==> ReadInt(buf, p) == ReadU32(buf, p)
  {
  }

  /** Where the fields of a header lie. */
  lemma FrameLayout(f: Frame)
    requires FrameOk(f)
    ensures var s := FrameBytes(f);
            && |s| == 16 && s[..4] == IntBytes(f.pts) && s[4..8] == IntBytes(f.data) && s[8..12] == IntBytes(f.size)
            && s[12] == if f.eos then 1 else 0
  {
    FourFields(IntBytes(f.pts), IntBytes(f.data), IntBytes(f.size), [if f.eos then 1 else 0, 0, 0, 0]);
    var s := FrameBytes(f);
    assert s[12] == s[12..][0];
    hide IntBytes;
  }

  lemma FrameReadsBack(buf: seq<Byte>, p: int, f: Frame)
    requires FrameOk(f) && 0 <= p && p + FRAME_HDR <= |buf| && buf[p..p + FRAME_HDR] == FrameBytes(f)
    ensures ReadFrame(buf, p) == f
  {
    hide IntBytes, ReadU32, ReadInt;
    var w := buf[p..p + FRAME_HDR];
    FourFields(IntBytes(f.pts), IntBytes(f.data), IntBytes(f.size), [if f.eos then 1 else 0, 0, 0, 0]);
    SubSlice(buf, p, FRAME_HDR, 0, 4);
    SubSlice(buf, p, FRAME_HDR, 4, 8);
    SubSlice(buf, p, FRAME_HDR, 8, 12);
    assert buf[p + 12] == w[12..][0];
    SignedRead(buf, p + 8);
    ReadBackU32(buf, p, f.pts);
    ReadBackU32(buf, p + 4, f.data);
    ReadBackU32(buf, p + 8, f.size);
  }

  /**
   read_for_v_render on a record whose payload of `len` bytes starts at offset `p` of a buffer that
   lives at address `base`. None is its error return.
   */
  function ReadForVRender(base: int, buf: seq<Byte>, p: int, len: int): Option<Frame>
    requires 0 <= p && FRAME_HDR <= len && p + len <= |buf|
  {
    var f := ReadFrame(buf, p);
    var b := base + p;
    if f.data > b && (f.data + f.size) % UINT32 == (b + len) % UINT32 then Some(f)
    else if f.size + FRAME_HDR != len then None
    else Some(f.(data := b + FRAME_HDR))
  }

  /** The ring's memory lies in the 32-bit address space. */
  predicate Mapped(base: int, n: int)
  {
    0 < base && base + n < UINT32
  }

  // ---------------------------------------------------------------------------------------
  // Zero copy
  // ---------------------------------------------------------------------------------------

  /** The payload av_render_fetch_vid_fb reserves for frames of up to `request` bytes. */
  function Reserved(request: int, align: int): int
  {
    FRAME_HDR + request + align
  }

  /** A header, the frame, and room to align it: one byte more than the worst alignment can use. */
  lemma ReservationIsTight(request: int, k: nat)
    ensures Reserved(request, Pow2(k)) == 16 + request + (Pow2(k) - 1) + 1
  {
  }

  /** Offset of the frame buffer in a record whose payload starts at offset `p`. */
  function FrameOffset(base: int, p: int, align: int): int
    requires 0 <= base + p + FRAME_HDR && 0 < align
  {
    AlignUp(base + p + FRAME_HDR, align) - base
  }

  lemma FrameOffsetInRange(base: int, p: int, k: nat)
    requires 0 <= base && 0 <= p
    ensures var d := FrameOffset(base, p, Pow2(k));
            p + FRAME_HDR <= d < p + FRAME_HDR + Pow2(k) && (base + d) % Pow2(k) == 0
  {
    AlignUpIsNextMultiple(base + p + FRAME_HDR, k);
  }

  /** The payload size av_render_release_vid_fb sends for a frame of `n` bytes. */
  function ReleasedSize(base: int, p: int, align: int, n: int): int
    requires 0 <= base + p + FRAME_HDR && 0 < align
  {
    n + (FrameOffset(base, p, align) - p)
  }

  /** Release never sends more than fetch reserved, whatever the alignment did. */
  lemma ReleaseWithinReservation(base: int, p: int, k: nat, request: int, n: int)
    requires 0 <= base && 0 <= p && 0 <= n <= request
    ensures FRAME_HDR <= ReleasedSize(base, p, Pow2(k), n) <= Reserved(request, Pow2(k))
  {
    FrameOffsetInRange(base, p, k);
  }

  /**
   What the buffer holds once the decoder has stored its frame and av_render_video_frame_reached
   has written the header, of a record whose payload starts at `p`; or, with an empty frame, what
   it holds right after av_render_fetch_vid_fb.
   */
  predicate Prepared(base: int, buf: seq<Byte>, p: int, align: int, f: Frame, frame: seq<Byte>)
  {
    && 0 <= base && 0 <= p && 0 < align && FrameOk(f) && f.size == |frame|
    && var d := FrameOffset(base, p, align);
    && p + FRAME_HDR <= d && d + |frame| <= |buf|
    && f.data == base + d
    && ReadFrame(buf, p) == f
    && buf[d..d + |frame|] == frame
  }

  /** The renderer gets back an aligned pointer inside the record, and behind it exactly the frame. */
  lemma ZeroCopyRead(base: int, buf: seq<Byte>, p: int, k: nat, f: Frame, frame: seq<Byte>)
    requires Prepared(base, buf, p, Pow2(k), f, frame) && Mapped(base, |buf|)
    ensures var len := ReleasedSize(base, p, Pow2(k), |frame|);
            && FRAME_HDR <= len && p + len <= |buf|
            && ReadForVRender(base, buf, p, len) == Some(f)
    ensures f.data % Pow2(k) == 0
    ensures 0 <= f.data - base && f.data - base + f.size <= |buf|
            && buf[f.data - base..f.data - base + f.size] == frame
  {
    hide FrameBytes, Pow2, FrameOffset, ReadFrame;
    FrameOffsetInRange(base, p, k);
  }

  lemma SameHeader(buf: seq<Byte>, buf': seq<Byte>, p: int)
    requires 0 <= p && p + FRAME_HDR <= |buf| && |buf'| == |buf|
    requires forall i :: p <= i < p + FRAME_HDR ==> buf'[i] == buf[i]
    ensures ReadFrame(buf', p) == ReadFrame(buf, p)
  {
  }

  /** A header whose size does not fit the record, and whose data does not end with it, is refused. */
  lemma BadHeaderIsRefused(base: int, buf: seq<Byte>, p: int, len: int)
    requires 0 <= p && FRAME_HDR <= len && p + len <= |buf| && Mapped(base, |buf|)
    requires ReadInt(buf, p + 8) != len - FRAME_HDR
    requires ReadU32(buf, p + 4) <= base + p
             || (ReadU32(buf, p + 4) + ReadInt(buf, p + 8)) % UINT32 != base + p + len
    ensures ReadForVRender(base, buf, p, len) == None
  {
    hide ReadInt, ReadU32;
  }

  /** A commit moves a prepared record into the queue without disturbing it. */
  lemma PreparedSurvivesCommit(r: Ring, base: int, align: int, f: Frame, frame: seq<Byte>, len: int)
    requires Valid(r) && 0 < len && len + HEAD <= Available(r)
    requires 0 <= r.wp && Prepared(base, r.buf, r.wp + HEAD, align, f, frame)
    ensures |Commit(r, len).buf| == |r.buf|
    ensures Prepared(base, Commit(r, len).buf, r.wp + HEAD, align, f, frame)
  {
    hide Valid, Available, Commit, ReadFrame, FrameOffset, FrameOk;
    CommitShape(r, len);
    var p, c := r.wp + HEAD, Commit(r, len);
    var d := FrameOffset(base, p, align);
    SameHeader(r.buf, c.buf, p);
    assert c.buf[d..d + |frame|] == r.buf[d..d + |frame|];
  }

  /** The record that av_render_release_vid_fb sends. */
  function Release(r: Ring, base: int, align: int, n: int): Ring
    requires Valid(r) && 0 <= r.wp && 0 <= base && 0 < align
    requires 0 < ReleasedSize(base, r.wp + HEAD, align, n)
    requires ReleasedSize(base, r.wp + HEAD, align, n) + HEAD <= Available(r)
  {
    Commit(r, ReleasedSize(base, r.wp + HEAD, align, n))
  }

  /**
   The whole path through the queue: a prepared frame within the request is sent whole, becomes the
   newest block, and is read back from that block as the same frame at an aligned address.
   */
  lemma ZeroCopyRoundTrip(r: Ring, base: int, k: nat, request: int, f: Frame, frame: seq<Byte>)
    requires Valid(r) && Mapped(base, |r.buf|) && 0 <= r.wp
    requires 0 <= request && Reserved(request, Pow2(k)) + HEAD <= Available(r)
    requires |frame| <= request && Prepared(base, r.buf, r.wp + HEAD, Pow2(k), f, frame)
    ensures var p := r.wp + HEAD;
            var len := ReleasedSize(base, p, Pow2(k), |frame|);
            && FRAME_HDR <= len && len + HEAD <= Available(r)
            && var c := Release(r, base, Pow2(k), |frame|);
            && p + len <= |c.buf| && Valid(c) && Queue(c) == Queue(r) + [c.buf[p..p + len]]
            && ReadForVRender(base, c.buf, p, len) == Some(f)
            && f.data % Pow2(k) == 0
            && 0 <= f.data - base && f.data - base + f.size <= |c.buf|
            && c.buf[f.data - base..f.data - base + f.size] == frame
  {
    hide Valid, Queue, Available, Commit, Pow2, FrameBytes, ReadForVRender, ReleasedSize, FrameOffset, Prepared;
    var p := r.wp + HEAD;
    var len := ReleasedSize(base, p, Pow2(k), |frame|);
    ReleaseWithinReservation(base, p, k, request, |frame|);
    CommitAppends(r, len);
    CommitShape(r, len);
    PreparedSurvivesCommit(r, base, Pow2(k), f, frame, len);
    var c := Commit(r, len);
    ZeroCopyRead(base, c.buf, p, k, f, frame);
    assert c.buf[p..p + len] == r.buf[p..p + len];
  }

  // ---------------------------------------------------------------------------------------
  // Copied frames
  // ---------------------------------------------------------------------------------------

  /**
   A frame copied in by put_to_v_render keeps its foreign data pointer in the header, and the
   reader is not fooled: unless the frame is empty it gets the copy behind the header.
   */
  lemma CopiedRead(base: int, buf: seq<Byte>, p: int, f: Frame, frame: seq<Byte>)
    requires FrameOk(f) && f.size == |frame| && Mapped(base, |buf|)
    requires 0 <= p && p + FRAME_HDR + |frame| <= |buf|
    requires buf[p..p + FRAME_HDR + |frame|] == FrameBytes(f) + frame
    requires f.data + f.size < UINT32 && (f.data + f.size <= base || base + |buf| <= f.data)
    ensures var o := ReadForVRender(base, buf, p, FRAME_HDR + |frame|);
            && o.Some? && o.value.(data := f.data) == f
            && (frame != [] ==> o.value.data == base + p + FRAME_HDR)
    ensures buf[p + FRAME_HDR..p + FRAME_HDR + |frame|] == frame
  {
    hide FrameBytes, ReadFrame, FrameOk;
    var w := buf[p..p + FRAME_HDR + |frame|];
    assert buf[p..p + FRAME_HDR] == w[..FRAME_HDR];
    assert buf[p + FRAME_HDR..p + FRAME_HDR + |frame|] == w[FRAME_HDR..];
    FrameReadsBack(buf, p, f);
  }
}
