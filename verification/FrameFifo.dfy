/** The zero-copy path of `av_render.c` over a real queue: fetch, fill, release, and read back. */
module FrameFifo {
  import opened Arith
  import opened Bytes
  import opened DataQueueSpec
  import opened RenderFraming
  import DataQueue

  datatype Fetched = FrameBuffer(addr: int) | NoFrameBuffer | FetchWaits

  class FrameFifo {
    const q: DataQueue.DataQueue
    const base: int          // where the queue's memory lies
    var fb: int              // offset of the record payload being prepared (fb_frame)

    ghost predicate Inv()
      reads this, q, q.buffer
    {
      q.Inv() && Mapped(base, q.buffer.Length)
    }

    /** A frame buffer for `request` bytes is out. */
    ghost predicate Fetching(k: nat, request: int)
      reads this, q, q.buffer
    {
      && Inv() && 0 <= request && 0 <= q.wp && fb == q.wp + HEAD
      && Reserved(request, Pow2(k)) + HEAD <= Available(q.View())
      && fb + Reserved(request, Pow2(k)) <= q.buffer.Length <= INT_MAX
      && fb + FRAME_HDR <= FrameOffset(base, fb, Pow2(k)) <= q.buffer.Length - request
    }

    /** The queue is not shut down, and large enough for such a frame. */
    ghost predicate Fits(request: int, align: int)
      reads this, q, q.buffer
    {
      !q.quit && Reserved(request, align) + HEAD <= q.buffer.Length
    }

    constructor (q: DataQueue.DataQueue, base: int)
      requires q.Inv() && Mapped(base, q.buffer.Length)
      ensures Inv() && this.q == q && this.base == base
    {
      this.q := q;
      this.base := base;
      fb := 0;
    }

    /** Stores into the fetched record disturb neither the queue nor the reservation. */
    method Store(k: nat, request: int, addr: int, data: seq<Byte>)
      requires Fetching(k, request) && fb <= addr && addr + |data| <= fb + Reserved(request, Pow2(k))
      modifies q.buffer
      ensures Fetching(k, request) && Queue(q.View()) == old(Queue(q.View()))
      ensures addr + |data| <= q.buffer.Length && q.buffer[..] == Overwrite(old(q.buffer[..]), addr, data)
    {
      hide Valid, Queue, Available, Overwrite, Pow2, FrameOffset;
      q.Fill(addr, data, Reserved(request, Pow2(k)) + HEAD);
    }

    /** The data pointer and a zero size, which fetch leaves in the header. */
    method InitHeader(k: nat, request: int, data: int)
      requires Fetching(k, request) && 0 <= data < UINT32
      modifies q.buffer
      ensures Inv() && Fetching(k, request) && Queue(q.View()) == old(Queue(q.View()))
      ensures 0 <= fb && fb + FRAME_HDR <= q.buffer.Length
      ensures ReadU32(q.buffer[..], fb + 4) == data && ReadInt(q.buffer[..], fb + 8) == 0
    {
      hide Queue, IntBytes, ReadU32, ReadInt, Inv, Pow2, FrameOffset, Available;
      Store(k, request, fb + 4, IntBytes(data) + IntBytes(0));
      ghost var buf := q.buffer[..];
      SubSlice(buf, fb + 4, 8, 0, 4);
      SubSlice(buf, fb + 4, 8, 4, 8);
      ReadBackU32(buf, fb + 4, data);
      ReadBackU32(buf, fb + 8, 0);
      SignedRead(buf, fb + 8);
    }

    /** The get_buffer call of fetch. */
    method Reserve(k: nat, request: int) returns (r: DataQueue.WriteGrant, data: int)
      requires Inv() && 0 < request && Reserved(request, Pow2(k)) + HEAD <= INT_MAX
      modifies this, q
      ensures Inv() && Queue(q.View()) == old(Queue(q.View()))
      ensures r.NoBuffer? <==> !old(Fits(request, Pow2(k)))
      ensures q.user == if r.Buffer? then old(q.user) + 1 else old(q.user)
      ensures r.Buffer? <==> old(Fits(request, Pow2(k)) && Grants(q.View(), Reserved(request, Pow2(k))))
      ensures r.Buffer? ==>
                && Fetching(k, request) && data == base + FrameOffset(base, fb, Pow2(k))
                && 0 <= data < UINT32 && data % Pow2(k) == 0
    {
      data := 0;
      hide Pow2, Valid, Queue, Wrap, Grants, FrameOffset, Live;
      r := q.GetBuffer(Reserved(request, Pow2(k)));
      if r.Buffer? {
        ReservedRegionIsFree(q.View(), Reserved(request, Pow2(k)) + HEAD);
        FrameOffsetInRange(base, r.addr, k);
        fb := r.addr;
        data := base + FrameOffset(base, fb, Pow2(k));
      }
    }

    /**
     av_render_fetch_vid_fb for alignment `2^k`: an aligned address with room for the frame exactly
     when the queue grants the reservation, a wait exactly when it only fits, and NULL otherwise.
     */
    method Fetch(k: nat, request: int) returns (r: Fetched)
      requires Inv() && 0 <= request && Reserved(request, Pow2(k)) + HEAD <= INT_MAX
      modifies this, q, q.buffer
      ensures Inv() && Queue(q.View()) == old(Queue(q.View()))
      ensures q.user == if r.FrameBuffer? then old(q.user) + 1 else old(q.user)
      ensures r.NoFrameBuffer? <==> request == 0 || !old(Fits(request, Pow2(k)))
      ensures r.FrameBuffer? <==>
                request > 0 && old(Fits(request, Pow2(k)) && Grants(q.View(), Reserved(request, Pow2(k))))
      ensures r.FrameBuffer? ==>
                && Fetching(k, request) && r.addr == base + FrameOffset(base, fb, Pow2(k))
                && r.addr % Pow2(k) == 0
                && ReadU32(q.buffer[..], fb + 4) == r.addr && ReadInt(q.buffer[..], fb + 8) == 0
                && fb + FRAME_HDR <= q.buffer.Length
                && Prepared(base, q.buffer[..], fb, Pow2(k), ReadFrame(q.buffer[..], fb), [])
    {
      hide *;
      if request == 0 {
        return NoFrameBuffer;
      }
      var g, data := Reserve(k, request);
      match g
      case NoBuffer => return NoFrameBuffer;
      case MustWait => return FetchWaits;
      case Buffer(_) =>
        InitHeader(k, request, data);
        EmptyFrame(k, request, data);
        return FrameBuffer(data);
    }

    /** An empty queue grants every frame it can hold at all. */
    lemma EmptyGrants(k: nat, request: int)
      requires Inv() && 0 < request && Fits(request, Pow2(k)) && Queue(q.View()) == []
      ensures Grants(q.View(), Reserved(request, Pow2(k)))
    {
      EmptinessTestsAgree(q.View());
      GrantsIff(q.View(), Reserved(request, Pow2(k)));
      hide Valid, Queue, Grants;
    }

    /** What fetch leaves in the record reads as a frame of no bytes. */
    lemma EmptyFrame(k: nat, request: int, data: int)
      requires Fetching(k, request) && data == base + FrameOffset(base, fb, Pow2(k)) && 0 <= data < UINT32
      requires fb + FRAME_HDR <= q.buffer.Length && 0 <= fb
      requires ReadU32(q.buffer[..], fb + 4) == data && ReadInt(q.buffer[..], fb + 8) == 0
      ensures Prepared(base, q.buffer[..], fb, Pow2(k), ReadFrame(q.buffer[..], fb), [])
    {
      hide ReadU32, ReadInt, Pow2, FrameOffset, Valid, Available;
    }

    /** The decoder stores its output at the address it was given. */
    method Decode(k: nat, request: int, frame: seq<Byte>)
      requires Fetching(k, request) && |frame| <= request
      modifies q.buffer
      ensures Fetching(k, request) && Queue(q.View()) == old(Queue(q.View()))
      ensures var d := FrameOffset(base, fb, Pow2(k)); q.buffer[d..d + |frame|] == frame
      ensures forall i :: fb <= i < fb + FRAME_HDR ==> q.buffer[i] == old(q.buffer[i])
    {
      hide Queue, Pow2, Available;
      FrameOffsetInRange(base, fb, k);
      hide FrameOffset;
      ghost var d := FrameOffset(base, fb, Pow2(k));
      Store(k, request, FrameOffset(base, fb, Pow2(k)), frame);
      assert q.buffer[d..d + |frame|] == q.buffer[..][d..d + |frame|];
    }

    /** av_render_video_frame_reached with a frame buffer out: the header, with its own data pointer. */
    method FrameReached(k: nat, request: int, pts: int, size: int, eos: bool) returns (ghost f: Frame)
      requires Fetching(k, request) && 0 <= size <= request && 0 <= pts < UINT32
      requires ReadU32(q.buffer[..], fb + 4) == base + FrameOffset(base, fb, Pow2(k))
      modifies q.buffer
      ensures Fetching(k, request) && Queue(q.View()) == old(Queue(q.View()))
      ensures f == Frame(pts, base + FrameOffset(base, fb, Pow2(k)), size, eos) && FrameOk(f)
      ensures var d := FrameOffset(base, fb, Pow2(k));
              old(q.buffer[d..d + size]) == q.buffer[d..d + size]
              && Prepared(base, q.buffer[..], fb, Pow2(k), f, q.buffer[d..d + size])
    {
      hide Queue, Pow2, Available, FrameOffset, Valid, FrameBytes, Prepared, ReadU32, Overwrite;
      var data := LoadPointer(fb + 4);
      f := Frame(pts, data, size, eos);
      ghost var d, was := FrameOffset(base, fb, Pow2(k)), q.buffer[..];
      HeaderPrepares(was, fb, k, f);
      Store(k, request, fb, FrameBytes(Frame(pts, data, size, eos)));
      assert q.buffer[..][d..d + size] == q.buffer[d..d + size] && was[d..d + size] == old(q.buffer[d..d + size]);
    }

    method LoadPointer(p: int) returns (n: int)
      requires 0 <= p && p + 4 <= q.buffer.Length
      ensures n == ReadU32(q.buffer[..], p)
    {
      n := Join(q.buffer[p], q.buffer[p + 1], q.buffer[p + 2], q.buffer[p + 3]);
    }

    /** A header written in front of the frame leaves the frame's bytes and makes them a record. */
    lemma HeaderPrepares(buf: seq<Byte>, p: int, k: nat, f: Frame)
      requires FrameOk(f) && 0 <= base && 0 <= p && f.data == base + FrameOffset(base, p, Pow2(k))
      requires p + FRAME_HDR <= f.data - base && f.data - base + f.size <= |buf|
      ensures var b, d := Overwrite(buf, p, FrameBytes(f)), f.data - base;
              b[d..d + f.size] == buf[d..d + f.size] && Prepared(base, b, p, Pow2(k), f, b[d..d + f.size])
    {
      hide FrameBytes, Pow2, FrameOffset, ReadFrame;
      FrameReadsBack(Overwrite(buf, p, FrameBytes(f)), p, f);
    }

    /**
     av_render_release_vid_fb. A frame that was prepared within the request, or is as fetch left
     it, is always sent, and the block it becomes is read back as that frame; a dropped one leaves
     the queue as it was.
     */
    method Release(k: nat, request: int, drop: bool, ghost f: Frame, ghost frame: seq<Byte>) returns (ret: int)
      requires Fetching(k, request)
      requires !drop ==> |frame| <= request && Prepared(base, q.buffer[..], fb, Pow2(k), f, frame)
      modifies q, q.buffer
      ensures Inv() && ret == 0
      ensures q.user == old(q.user) - 1 && q.userFreed && q.dataArrived == (old(q.dataArrived) || !drop)
      ensures drop ==> q.View() == old(q.View())
      ensures drop ==> Queue(q.View()) == old(Queue(q.View()))
      ensures var len := ReleasedSize(base, fb, Pow2(k), |frame|);
              !drop ==>
                && FRAME_HDR <= len && fb + len <= q.buffer.Length
                && Queue(q.View()) == old(Queue(q.View())) + [q.buffer[fb..fb + len]]
                && ReadForVRender(base, q.buffer[..], fb, len) == Some(f)
                && 0 <= f.data - base && f.data - base + f.size <= q.buffer.Length
                && q.buffer[f.data - base..f.data - base + f.size] == frame
    {
      hide Queue, Pow2, Available, FrameOffset, Valid, Commit, Prepared, ReadForVRender, ReadInt, Overwrite, IntBytes;
      if drop {
        ret := q.SendBuffer(0);
        return;
      }
      HeaderSize(q.buffer[..], fb, k, f, frame);
      var size := q.LoadInt(fb + 8);
      ReleaseWithinReservation(base, fb, k, request, size);
      ZeroCopyRoundTrip(q.View(), base, k, request, f, frame);
      ret := q.SendBuffer(ReleasedSize(base, fb, Pow2(k), size));
    }

    lemma HeaderSize(buf: seq<Byte>, p: int, k: nat, f: Frame, frame: seq<Byte>)
      requires Prepared(base, buf, p, Pow2(k), f, frame)
      ensures 0 <= p && p + FRAME_HDR <= |buf| && ReadInt(buf, p + 8) == |frame|
    {
      hide ReadU32, ReadInt, Pow2, FrameOffset;
    }
  }
}
