/**
 `data_queue_t` as a class over a byte array. Each method is one critical section of the source:
 everything between taking and releasing the queue's lock. Waiting, which happens outside the
 lock, is the business of DataQueueThreads.
 */
module DataQueue {
  import opened Bytes
  import opened DataQueueSpec

  /** How one pass of data_queue_get_buffer ends: a pointer, NULL, or a wait for the reader. */
  datatype WriteGrant = Buffer(addr: int) | NoBuffer | MustWait

  /** How one pass of data_queue_read_lock ends: a block, -1, or a wait for the writer. */
  datatype ReadGrant = Block(addr: int, size: int) | ReadFailed | NoData

  class DataQueue {
    const buffer: array<Byte>
    var fillEnd: int
    var wp: int
    var rp: int
    var filled: int
    var user: int
    var quit: bool
    var dataArrived: bool
    var dataConsumed: bool
    var userFreed: bool

    ghost function View(): Ring
      reads this, buffer
    {
      Ring(buffer[..], fillEnd, wp, rp, filled)
    }

    ghost predicate Inv()
      reads this, buffer
    {
      Valid(View())
    }

    /** data_queue_init: a zeroed control block around an uninitialised buffer. */
    constructor (size: nat)
      requires size <= INT_MAX
      ensures fresh(buffer) && buffer.Length == size && View() == Init(buffer[..])
      ensures Inv() && Queue(View()) == []
      ensures user == 0 && !quit && !dataArrived && !dataConsumed && !userFreed
    {
      buffer := new Byte[size];
      fillEnd, wp, rp, filled, user := 0, 0, 0, 0, 0;
      quit, dataArrived, dataConsumed, userFreed := false, false, false, false;
    }

    method LoadInt(p: int) returns (n: int)
      requires 0 <= p && p + HEAD <= buffer.Length
      ensures n == ReadInt(buffer[..], p)
    {
      var u: int := Join(buffer[p], buffer[p + 1], buffer[p + 2], buffer[p + 3]);
      n := if u <= INT_MAX then u else u - 0x1_0000_0000;
    }

    method StoreInt(p: int, n: int)
      requires 0 <= p && p + HEAD <= buffer.Length && 0 <= n <= INT_MAX
      modifies buffer
      ensures buffer[..] == Overwrite(old(buffer[..]), p, IntBytes(n))
    {
      var s := IntBytes(n);
      buffer[p], buffer[p + 1], buffer[p + 2], buffer[p + 3] := s[0], s[1], s[2], s[3];
    }

    method AvailableSize() returns (avail: int)
      ensures avail == Available(View())
    {
      if wp > rp {
        return buffer.Length - wp;
      }
      if wp == rp {
        if fillEnd != 0 {
          return 0;
        }
        return buffer.Length - wp;
      }
      return rp - wp;
    }

    /** data_queue_get_available: whatever it reports is granted without waiting. */
    method ReportAvailable() returns (avail: int)
      requires Inv()
      ensures avail == GetAvailable(View())
      ensures forall n :: 0 < n <= avail ==> Grants(View(), n)
    {
      if wp == rp && fillEnd == 0 {
        avail := buffer.Length;
      } else {
        avail := AvailableSize();
      }
      if avail >= HEAD {
        avail := avail - HEAD;
      } else {
        avail := 0;
      }
      forall n | 0 < n <= avail ensures Grants(View(), n) {
        ReportedSpaceNeverBlocks(View(), n);
      }
    }

    /** One pass of data_queue_get_buffer, for a request of `n` payload bytes. */
    method GetBuffer(n: int) returns (g: WriteGrant)
      requires Inv() && 0 <= n <= INT_MAX - HEAD
      modifies this
      ensures Inv() && Queue(View()) == old(Queue(View()))
      ensures quit == old(quit) && dataArrived == old(dataArrived) && dataConsumed == old(dataConsumed)
      ensures userFreed == old(userFreed)
      ensures g == if n + HEAD > buffer.Length || quit then NoBuffer
                   else if old(Grants(View(), n)) then Buffer(wp + HEAD) else MustWait
      ensures View() == if g.NoBuffer? then old(View()) else old(Wrap(View(), n + HEAD))
      ensures user == if g.Buffer? then old(user) + 1 else old(user)
      ensures g.Buffer? ==> n + HEAD <= Available(View())
      ensures g.MustWait? ==> Queue(View()) != [] && !Grants(View(), n)
    {
      hide Valid, Queue, Live, HaveData;
      var need := n + HEAD;
      if need > buffer.Length || quit {
        return NoBuffer;
      }
      WrapKeepsQueue(View(), need);
      if !Grants(View(), n) {
        FailedPass(View(), n);
      }
      var avail := AvailableSize();
      if avail < need && fillEnd == 0 {
        if wp == rp {
          wp := 0;
          rp := 0;
        }
        fillEnd := wp;
        wp := 0;
        avail := AvailableSize();
      }
      if avail >= need {
        user := user + 1;
        return Buffer(wp + HEAD);
      }
      return MustWait;
    }

    /** A memcpy into the ring's memory. */
    method CopyIn(addr: int, data: seq<Byte>)
      requires 0 <= addr && addr + |data| <= buffer.Length
      modifies buffer
      ensures buffer[..] == Overwrite(old(buffer[..]), addr, data)
    {
      for i := 0 to |data|
        invariant forall k :: 0 <= k < i ==> buffer[addr + k] == data[k]
        invariant forall k :: 0 <= k < buffer.Length && !(addr <= k < addr + i) ==> buffer[k] == old(buffer[k])
      {
        buffer[addr + i] := data[i];
      }
    }

    /** The writer's own stores through the pointer it was granted, outside the lock. */
    method Fill(addr: int, data: seq<Byte>, ghost need: int)
      requires Inv() && 0 < need <= Available(View()) && wp + HEAD <= addr && addr + |data| <= wp + need
      modifies buffer
      ensures 0 <= addr && addr + |data| <= buffer.Length
      ensures buffer[..] == Overwrite(old(buffer[..]), addr, data)
      ensures Inv() && Queue(View()) == old(Queue(View())) && Available(View()) == old(Available(View()))
    {
      ghost var r := View();
      ReservedRegionIsFree(r, need);
      hide Valid, Queue, Live;
      CopyIn(addr, data);
      ScribbleKeepsQueue(r, buffer[..]);
    }

    /** data_queue_send_buffer: 0 cancels, anything that fits appends one block. */
    method SendBuffer(n: int) returns (ret: int)
      requires Inv() && 0 <= n <= INT_MAX - HEAD
      modifies this, buffer
      ensures Inv()
      ensures ret == 0 <==> n == 0 || n + HEAD <= old(Available(View()))
      ensures View() == if n != 0 && ret == 0 then Commit(old(View()), n) else old(View())
      ensures n != 0 && ret == 0 ==>
                Queue(View()) == old(Queue(View())) + [old(buffer[wp + HEAD..wp + HEAD + n])]
      ensures user == old(user) - 1 && userFreed && quit == old(quit)
      ensures dataArrived == (old(dataArrived) || (n != 0 && ret == 0)) && dataConsumed == old(dataConsumed)
    {
      hide Valid, Queue, ReadInt, IntBytes, Live, Overwrite;
      if n == 0 {
        user := user - 1;
        userFreed := true;
        return 0;
      }
      var need := n + HEAD;
      var avail := AvailableSize();
      hide Available;
      if avail >= need {
        CommitAppends(View(), n);
        ReservedRegionIsFree(View(), need);
        StoreInt(wp, need);
        wp := wp + need;
        filled := filled + need;
        user := user - 1;
        dataArrived := true;
        userFreed := true;
        ret := 0;
      } else {
        user := user - 1;
        userFreed := true;
        ret := -1;
      }
    }

    /** The read position and total size of the oldest record. */
    method OldestRecord() returns (p: int, n: int)
      requires Inv() && filled != 0
      ensures 0 <= p && HEAD < n && p + n <= buffer.Length
      ensures Queue(View()) != [] && buffer[p + HEAD..p + n] == Queue(View())[0]
    {
      DerivedReadPosIsOldest(View());
      hide Valid, Queue, ReadInt;
      if filled <= wp {
        p := wp - filled;
      } else {
        p := wp + fillEnd - filled;
      }
      n := LoadInt(p);
      assert buffer[p + HEAD..p + n] == buffer[..][p + HEAD..p + n];
    }

    /** One pass of data_queue_read_lock: the oldest block, found without looking at `rp`. */
    method ReadLock() returns (g: ReadGrant)
      requires Inv()
      modifies this`user
      ensures View() == old(View())
      ensures quit ==> g == ReadFailed
      ensures !quit && Queue(View()) == [] ==> g == NoData
      ensures !quit && Queue(View()) != [] ==>
                g.Block? && 0 <= g.addr && 0 <= g.size && g.addr + g.size <= buffer.Length
                && buffer[g.addr..g.addr + g.size] == Queue(View())[0]
      ensures user == if g.Block? then old(user) + 1 else old(user)
    {
      if quit {
        return ReadFailed;
      }
      hide Valid, Queue, ReadInt, HaveData, Footprint;
      EmptinessTestsAgree(View());
      if filled == 0 {
        return NoData;
      }
      var curRp, dataSize := OldestRecord();
      assert 0 <= dataSize <= buffer.Length;  // the source's self-check never fires
      user := user + 1;
      g := Block(curRp + HEAD, dataSize - HEAD);
    }

    /** data_queue_peek_unlock: gives the block back without consuming it, and signals nobody. */
    method PeekUnlock()
      modifies this`user
      ensures user == old(user) - 1
    {
      user := user - 1;
    }

    /** The shared consuming step of read_unlock and consume_all. */
    method Advance(n: int)
      requires Inv() && HaveData(View()) && n == ReadInt(buffer[..], rp)
      modifies this`rp, this`filled, this`fillEnd
      ensures View() == Pop(old(View()))
    {
      rp := rp + n;
      filled := filled - n;
      if fillEnd != 0 && rp >= fillEnd {
        fillEnd := 0;
        rp := 0;
      }
    }

    /** data_queue_read_unlock: the oldest block leaves, everything else stays in order. */
    method ReadUnlock()
      requires Inv()
      modifies this`rp, this`filled, this`fillEnd, this`user, this`dataConsumed, this`userFreed
      ensures Inv()
      ensures old(Queue(View())) != [] ==>
                && View() == Pop(old(View())) && Queue(View()) == old(Queue(View()))[1..]
                && user == old(user) - 1 && dataConsumed && userFreed
      ensures old(Queue(View())) == [] ==>
                && View() == old(View()) && user == old(user)
                && dataConsumed == old(dataConsumed) && userFreed == old(userFreed)
    {
      hide Valid, Queue, ReadInt, Pop, PayloadSize;
      ghost var r := View();
      QueueSizes(r);
      if !(wp == rp && fillEnd == 0) {
        PopRemovesOldest(r);
        QueryStep(r);
        var n := LoadInt(rp);
        assert 0 <= n <= buffer.Length;  // the source's self-check never fires
        Advance(n);
        user := user - 1;
        dataConsumed := true;
        userFreed := true;
      }
    }

    /**
     data_queue_consume_all. `trapped` is the source's deliberate crash, which is reached exactly
     when the queue is one record as large as the buffer; otherwise the queue ends up empty.
     */
    method ConsumeAll() returns (trapped: bool)
      requires Inv()
      modifies this`rp, this`filled, this`fillEnd, this`dataConsumed
      ensures Inv()
      ensures trapped <==> !quit && old(ConsumeAllTraps(View()))
      ensures quit || trapped ==> View() == old(View())
      ensures !quit && !trapped ==> View() == Drain(old(View())) && Queue(View()) == []
      ensures dataConsumed == (old(dataConsumed) || (!quit && !trapped && old(Queue(View())) != []))
    {
      hide Valid, Queue, ReadInt, Pop, Drain, ConsumeAllTraps;
      ghost var r0, r := View(), View();
      DrainEmpties(r0);
      EmptinessTestsAgree(r0);
      while !(wp == rp && fillEnd == 0)
        invariant r == View() && Valid(r) && Drain(r) == Drain(r0)
        invariant r == r0 || (!quit && !ConsumeAllTraps(r0) && r.filled < r0.filled)
        invariant dataConsumed == (old(dataConsumed) || r != r0)
        decreases r.filled
      {
        if quit {
          break;
        }
        ConsumeStep(r);
        var n := LoadInt(rp);
        if n < 0 || n >= buffer.Length {
          return true;
        }
        Advance(n);
        r := Pop(r);
        dataConsumed := true;
      }
      if !HaveData(r) {
        DrainedAlready(r);
      }
      return false;
    }

    /** data_queue_query: the walk over the headers ends, and counts blocks and payload bytes. */
    method Query() returns (num: int, bytes: int)
      requires Inv()
      ensures num == |Queue(View())| && bytes == PayloadSize(Queue(View()))
      ensures bytes + HEAD * num == filled
    {
      hide Valid, Queue, ReadInt, Pop, PayloadSize, Footprint;
      num, bytes := 0, 0;
      ghost var r := View();
      QueueSizes(r);
      if !(wp == rp && fillEnd == 0) {
        var p, ring := rp, fillEnd;
        while p != wp || ring != 0
          invariant Valid(r) && r == Ring(buffer[..], ring, wp, p, r.filled)
          invariant num + |Queue(r)| == |Queue(View())|
          invariant bytes + PayloadSize(Queue(r)) == PayloadSize(Queue(View()))
          decreases r.filled
        {
          QueryStep(r);
          var n := LoadInt(p);
          assert 0 <= n <= buffer.Length;  // the source's self-check never fires
          r := Pop(r);
          p := p + n;
          if ring != 0 && p == ring {
            ring := 0;
            p := 0;
          }
          num := num + 1;
          bytes := bytes + (n - HEAD);
        }
        QueueSizes(r);
      }
    }
  }
}
