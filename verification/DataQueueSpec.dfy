/**
 The variable-record ring of `data_queue.c` on plain values: what each operation does to the
 buffer and to the four offsets while it holds the queue's lock, and why the result is a
 first-in first-out queue of byte blocks.
 */
module DataQueueSpec {
  import opened Bytes

  /** Size of the record header that stores the record's total size. */
  const HEAD := 4

  /** The fields of `data_queue_t` that describe the ring; `size` is the length of `buf`. */
  datatype Ring = Ring(buf: seq<Byte>, fillEnd: int, wp: int, rp: int, filled: int)

  // ---------------------------------------------------------------------------------------
  // Records
  // ---------------------------------------------------------------------------------------

  /** The size headers found by walking from `a` cover `[a, b)` exactly. */
  predicate Tiled(buf: seq<Byte>, a: int, b: int)
    requires 0 <= a <= b <= |buf|
    decreases b - a
  {
    a == b || (
      && HEAD < b - a
      && var n := ReadInt(buf, a);
      && HEAD < n <= b - a
      && Tiled(buf, a + n, b))
  }

  /** The payloads of the records that tile `[a, b)`, oldest first. */
  function Blocks(buf: seq<Byte>, a: int, b: int): seq<seq<Byte>>
    requires 0 <= a <= b <= |buf| && Tiled(buf, a, b)
    decreases b - a
  {
    if a == b then []
    else
      var n := ReadInt(buf, a);
      [buf[a + HEAD..a + n]] + Blocks(buf, a + n, b)
  }

  /** Total size of the blocks with their headers. */
  function Footprint(q: seq<seq<Byte>>): (n: nat)
  {
    if q == [] then 0 else HEAD + |q[0]| + Footprint(q[1..])
  }

  function PayloadSize(q: seq<seq<Byte>>): (n: nat)
  {
    if q == [] then 0 else |q[0]| + PayloadSize(q[1..])
  }

  lemma SameInt(buf: seq<Byte>, buf': seq<Byte>, a: int)
    requires 0 <= a && a + 4 <= |buf| && |buf'| == |buf|
    requires forall i :: a <= i < a + 4 ==> buf'[i] == buf[i]
    ensures ReadInt(buf', a) == ReadInt(buf, a)
  {
  }

  lemma {:induction false} TiledFrame(buf: seq<Byte>, buf': seq<Byte>, a: int, b: int)
    requires 0 <= a <= b <= |buf| && |buf'| == |buf| && Tiled(buf, a, b)
    requires forall i :: a <= i < b ==> buf'[i] == buf[i]
    ensures Tiled(buf', a, b) && Blocks(buf', a, b) == Blocks(buf, a, b)
    decreases b - a
  {
    if a < b {
      hide ReadInt;
      var n := ReadInt(buf, a);
      SameInt(buf, buf', a);
      assert buf'[a + HEAD..a + n] == buf[a + HEAD..a + n];
      TiledFrame(buf, buf', a + n, b);
    }
  }

  /** A header written at the end of a tiled region extends it by one record. */
  lemma {:induction false} TiledAppend(buf: seq<Byte>, a: int, b: int, n: int)
    requires 0 <= a <= b && HEAD < n && b + n <= |buf| && Tiled(buf, a, b)
    requires ReadInt(buf, b) == n
    ensures Tiled(buf, a, b + n)
    ensures Blocks(buf, a, b + n) == Blocks(buf, a, b) + [buf[b + HEAD..b + n]]
    decreases b - a
  {
    if a == b {
      assert Tiled(buf, b + n, b + n);
    } else {
      TiledAppend(buf, a + ReadInt(buf, a), b, n);
    }
  }

  lemma TiledStep(buf: seq<Byte>, a: int, b: int)
    requires 0 <= a < b <= |buf| && Tiled(buf, a, b)
    ensures HEAD < b - a
    ensures var n := ReadInt(buf, a);
            && HEAD < n <= b - a && Tiled(buf, a + n, b)
            && Blocks(buf, a, b) == [buf[a + HEAD..a + n]] + Blocks(buf, a + n, b)
  {
  }

  lemma NoBlocks(buf: seq<Byte>, a: int)
    requires 0 <= a <= |buf|
    ensures Tiled(buf, a, a) && Blocks(buf, a, a) == []
  {
  }

  lemma {:induction false} BlocksFootprint(buf: seq<Byte>, a: int, b: int)
    requires 0 <= a <= b <= |buf| && Tiled(buf, a, b)
    ensures Footprint(Blocks(buf, a, b)) == b - a
    ensures Blocks(buf, a, b) == [] <==> a == b
    decreases b - a
  {
    if a < b {
      BlocksFootprint(buf, a + ReadInt(buf, a), b);
    }
  }

  lemma {:induction false} FootprintConcat(q: seq<seq<Byte>>, q': seq<seq<Byte>>)
    ensures Footprint(q + q') == Footprint(q) + Footprint(q')
  {
    if q == [] {
      assert q + q' == q';
    } else {
      assert (q + q')[1..] == q[1..] + q';
      FootprintConcat(q[1..], q');
    }
  }

  lemma {:induction false} FootprintSplit(q: seq<seq<Byte>>)
    ensures Footprint(q) == PayloadSize(q) + HEAD * |q|
  {
    if q != [] {
      FootprintSplit(q[1..]);
    }
  }

  // ---------------------------------------------------------------------------------------
  // The ring's invariant and the queue it stands for
  // ---------------------------------------------------------------------------------------

  /**
   Either the records lie in `[rp, wp)`, or the writer has wrapped and they lie in
   `[rp, fillEnd)` followed by `[0, wp)`.
   */
  predicate Valid(r: Ring)
  {
    && |r.buf| <= INT_MAX
    && if r.fillEnd == 0 then
         && 0 <= r.rp <= r.wp <= |r.buf|
         && r.filled == r.wp - r.rp
         && Tiled(r.buf, r.rp, r.wp)
       else
         && 0 <= r.wp <= r.rp < r.fillEnd <= |r.buf|
         && r.filled == r.fillEnd - r.rp + r.wp
         && Tiled(r.buf, r.rp, r.fillEnd)
         && Tiled(r.buf, 0, r.wp)
  }

  /** The byte blocks in the queue, oldest first, read off the size headers. */
  function Queue(r: Ring): seq<seq<Byte>>
    requires Valid(r)
  {
    if r.fillEnd == 0 then Blocks(r.buf, r.rp, r.wp)
    else Blocks(r.buf, r.rp, r.fillEnd) + Blocks(r.buf, 0, r.wp)
  }

  /** Offset `i` belongs to a record that has not been consumed. */
  predicate Live(r: Ring, i: int)
  {
    if r.fillEnd == 0 then r.rp <= i < r.wp else r.rp <= i < r.fillEnd || 0 <= i < r.wp
  }

  function Init(buf: seq<Byte>): Ring
  {
    Ring(buf, 0, 0, 0, 0)
  }

  /** data_queue_have_data */
  predicate HaveData(r: Ring)
  {
    !(r.wp == r.rp && r.fillEnd == 0)
  }

  /** The two emptiness tests of the source agree with each other and with the queue. */
  lemma EmptinessTestsAgree(r: Ring)
    requires Valid(r)
    ensures HaveData(r) <==> r.filled != 0
    ensures HaveData(r) <==> Queue(r) != []
    ensures Footprint(Queue(r)) == r.filled <= |r.buf|
  {
    if r.fillEnd == 0 {
      BlocksFootprint(r.buf, r.rp, r.wp);
    } else {
      BlocksFootprint(r.buf, r.rp, r.fillEnd);
      BlocksFootprint(r.buf, 0, r.wp);
      FootprintConcat(Blocks(r.buf, r.rp, r.fillEnd), Blocks(r.buf, 0, r.wp));
    }
  }

  // ---------------------------------------------------------------------------------------
  // Writing
  // ---------------------------------------------------------------------------------------

  /** get_available_size */
  function Available(r: Ring): int
  {
    if r.wp > r.rp then |r.buf| - r.wp
    else if r.wp == r.rp then (if r.fillEnd != 0 then 0 else |r.buf| - r.wp)
    else r.rp - r.wp
  }

  /** data_queue_get_available */
  function GetAvailable(r: Ring): int
  {
    var avail := if r.wp == r.rp && r.fillEnd == 0 then |r.buf| else Available(r);
    if avail >= HEAD then avail - HEAD else 0
  }

  /** The part of a pass of data_queue_get_buffer that may wrap the write position. */
  function Wrap(r: Ring, need: int): Ring
  {
    if Available(r) < need && r.fillEnd == 0 then
      var r0 := if r.wp == r.rp then r.(wp := 0, rp := 0) else r;
      r0.(fillEnd := r0.wp, wp := 0)
    else r
  }

  /** One pass of the data_queue_get_buffer loop grants a request for `n` payload bytes. */
  predicate Grants(r: Ring, n: int)
  {
    Available(Wrap(r, n + HEAD)) >= n + HEAD
  }

  lemma WrapKeepsQueue(r: Ring, need: int)
    requires Valid(r) && 0 < need
    ensures Valid(Wrap(r, need)) && Queue(Wrap(r, need)) == Queue(r)
    ensures Wrap(r, need).buf == r.buf && Wrap(r, need).filled == r.filled
    ensures Queue(r) != [] ==> Wrap(r, need).rp == r.rp
  {
    var w := Wrap(r, need);
    if r.wp != r.rp {
      assert Tiled(r.buf, 0, 0);
      assert Blocks(r.buf, 0, 0) == [];
    }
  }

  /**
   Exactly when one pass succeeds: there is room behind the last record, or, before a wrap,
   in front of the first one; an empty queue grants all the buffer can hold.
   */
  lemma GrantsIff(r: Ring, n: int)
    requires Valid(r) && 0 <= n
    ensures Grants(r, n) <==>
            n + HEAD <= (if !HaveData(r) then |r.buf|
                         else if r.fillEnd != 0 then r.rp - r.wp
                         else if |r.buf| - r.wp < n + HEAD then r.rp else |r.buf| - r.wp)
  {
  }

  /** A pass that fails leaves a wrapped, non-empty ring in which the next pass fails too. */
  lemma FailedPass(r: Ring, n: int)
    requires Valid(r) && 0 <= n && n + HEAD <= |r.buf| && !Grants(r, n)
    ensures var w := Wrap(r, n + HEAD); w.fillEnd != 0 && HaveData(w) && !Grants(w, n)
    ensures Queue(r) != []
  {
    EmptinessTestsAgree(r);
  }

  /** What data_queue_get_available reports can be had without waiting. */
  lemma ReportedSpaceNeverBlocks(r: Ring, n: int)
    requires Valid(r) && 0 < n <= GetAvailable(r)
    ensures Grants(r, n)
  {
  }

  /**
   And no more can, unless the next pass would wrap into a larger gap in front of the oldest record;
   an empty queue reports all it can ever hold, wherever it is empty.
   */
  lemma ReportIsSharp(r: Ring)
    requires Valid(r)
    ensures var more := GetAvailable(r) + 1;
            && (!HaveData(r) ==> GetAvailable(r) == (if |r.buf| >= 4 then |r.buf| - 4 else 0) && !Grants(r, more))
            && (HaveData(r) ==>
                  (Grants(r, more) <==>
                     r.fillEnd == 0 && |r.buf| - r.wp < more + 4 && more + 4 <= r.rp))
  {
    GrantsIff(r, GetAvailable(r) + 1);
  }

  /** The region handed to the writer, header included, avoids every unread record. */
  lemma ReservedRegionIsFree(r: Ring, need: int)
    requires Valid(r) && 0 < need <= Available(r)
    ensures 0 <= r.wp && r.wp + need <= |r.buf| <= INT_MAX
    ensures forall i :: r.wp <= i < r.wp + need ==> !Live(r, i)
  {
  }

  /** The reserved region and the oldest record, which the reader may be holding, are apart. */
  lemma ReservedAvoidsOldest(r: Ring, need: int)
    requires Valid(r) && 0 < need <= Available(r) && Queue(r) != []
    ensures var end := r.rp + HEAD + |Queue(r)[0]|;
            0 <= r.rp && end <= |r.buf| && (end <= r.wp || r.wp + need <= r.rp)
  {
  }

  /** Storing through the writer's pointer touches no queued block. */
  lemma ScribbleKeepsQueue(r: Ring, buf': seq<Byte>)
    requires Valid(r) && |buf'| == |r.buf|
    requires forall i :: 0 <= i < |r.buf| && Live(r, i) ==> buf'[i] == r.buf[i]
    ensures Valid(r.(buf := buf')) && Queue(r.(buf := buf')) == Queue(r)
  {
    if r.fillEnd == 0 {
      TiledFrame(r.buf, buf', r.rp, r.wp);
    } else {
      TiledFrame(r.buf, buf', r.rp, r.fillEnd);
      TiledFrame(r.buf, buf', 0, r.wp);
    }
  }

  lemma StoreKeepsQueue(r: Ring, need: int, k: int, v: Byte)
    requires Valid(r) && 0 < need <= Available(r) && r.wp <= k < r.wp + need
    ensures 0 <= k < |r.buf|
    ensures var r' := r.(buf := r.buf[k := v]);
            Valid(r') && Queue(r') == Queue(r) && Available(r') == Available(r)
  {
    ReservedRegionIsFree(r, need);
    hide Valid, Queue, Live;
    ScribbleKeepsQueue(r, r.buf[k := v]);
  }

  /** The accepting branch of data_queue_send_buffer for `n` payload bytes. */
  function Commit(r: Ring, n: int): Ring
    requires Valid(r) && 0 < n && n + HEAD <= Available(r)
  {
    var need := n + HEAD;
    r.(buf := Overwrite(r.buf, r.wp, IntBytes(need)), wp := r.wp + need, filled := r.filled + need)
  }

  /** A record stored at the write position, in any buffer that keeps the live bytes, is appended. */
  lemma AppendRecord(r: Ring, buf': seq<Byte>, need: int)
    requires Valid(r) && HEAD < need <= Available(r) && |buf'| == |r.buf|
    requires ReadInt(buf', r.wp) == need
    requires forall i :: 0 <= i < |r.buf| && Live(r, i) ==> buf'[i] == r.buf[i]
    ensures var c := r.(buf := buf', wp := r.wp + need, filled := r.filled + need);
            Valid(c) && Queue(c) == Queue(r) + [buf'[r.wp + HEAD..r.wp + need]]
  {
    hide Tiled, Blocks, ReadInt;
    if r.fillEnd == 0 {
      TiledFrame(r.buf, buf', r.rp, r.wp);
      TiledAppend(buf', r.rp, r.wp, need);
    } else {
      TiledFrame(r.buf, buf', r.rp, r.fillEnd);
      TiledFrame(r.buf, buf', 0, r.wp);
      TiledAppend(buf', 0, r.wp, need);
    }
  }

  /** Sending appends the bytes that lie behind the header, and nothing else changes. */
  lemma CommitAppends(r: Ring, n: int)
    requires Valid(r) && 0 < n && n + HEAD <= Available(r)
    ensures Valid(Commit(r, n))
    ensures Queue(Commit(r, n)) == Queue(r) + [r.buf[r.wp + HEAD..r.wp + HEAD + n]]
  {
    hide Tiled, Blocks, ReadInt, IntBytes;
    var need := n + HEAD;
    var buf' := Overwrite(r.buf, r.wp, IntBytes(need));
    ReadBack(r.buf, r.wp, need);
    assert buf'[r.wp + HEAD..r.wp + need] == r.buf[r.wp + HEAD..r.wp + HEAD + n];
    AppendRecord(r, buf', need);
  }

  lemma CommitShape(r: Ring, n: int)
    requires Valid(r) && 0 < n && n + HEAD <= Available(r)
    ensures var c := Commit(r, n);
            && |c.buf| == |r.buf| && c.rp == r.rp && c.filled == r.filled + n + HEAD && 0 <= r.wp
            && r.wp + HEAD + n <= |r.buf|
            && forall i :: 0 <= i < |r.buf| && !(r.wp <= i < r.wp + HEAD) ==> c.buf[i] == r.buf[i]
  {
    ReservedRegionIsFree(r, n + HEAD);
  }

  // ---------------------------------------------------------------------------------------
  // Reading
  // ---------------------------------------------------------------------------------------

  /** The read position data_queue_read_lock derives from `filled`, `wp` and `fill_end`. */
  function DerivedReadPos(r: Ring): int
  {
    if r.filled <= r.wp then r.wp - r.filled else r.wp + r.fillEnd - r.filled
  }

  /** The derived position is the oldest record, whose header and bytes are the oldest block. */
  lemma DerivedReadPosIsOldest(r: Ring)
    requires Valid(r) && r.filled != 0
    ensures var p := DerivedReadPos(r);
            && 0 <= p == r.rp && Queue(r) != [] && p + HEAD <= |r.buf|
            && var n := ReadInt(r.buf, p);
            && HEAD < n && p + n <= |r.buf|
            && r.buf[p + HEAD..p + n] == Queue(r)[0]
  {
  }

  /** The consuming step shared by data_queue_read_unlock and data_queue_consume_all. */
  function Pop(r: Ring): Ring
    requires Valid(r) && HaveData(r)
  {
    var n := ReadInt(r.buf, r.rp);
    var r1 := r.(rp := r.rp + n, filled := r.filled - n);
    if r1.fillEnd != 0 && r1.rp >= r1.fillEnd then r1.(fillEnd := 0, rp := 0) else r1
  }

  lemma TailOfConcat<T>(x: T, s: seq<T>, t: seq<T>)
    ensures ([x] + s + t)[1..] == s + t
    ensures [] + t == t && s + [] == s
    ensures ([x] + s)[1..] == s
  {
  }

  lemma PopUnwrapped(r: Ring)
    requires Valid(r) && HaveData(r) && r.fillEnd == 0
    ensures Queue(r) != [] && Valid(Pop(r)) && Queue(Pop(r)) == Queue(r)[1..]
  {
    hide Tiled, Blocks, ReadInt;
    TiledStep(r.buf, r.rp, r.wp);
    var n := ReadInt(r.buf, r.rp);
    TailOfConcat(r.buf[r.rp + HEAD..r.rp + n], Blocks(r.buf, r.rp + n, r.wp), []);
    assert Queue(Pop(r)) == Blocks(r.buf, r.rp + n, r.wp);
  }

  lemma PopWrapped(r: Ring)
    requires Valid(r) && HaveData(r) && r.fillEnd != 0
    ensures Queue(r) != [] && Valid(Pop(r)) && Queue(Pop(r)) == Queue(r)[1..]
  {
    hide Tiled, Blocks, ReadInt;
    TiledStep(r.buf, r.rp, r.fillEnd);
    var n := ReadInt(r.buf, r.rp);
    TailOfConcat(r.buf[r.rp + HEAD..r.rp + n], Blocks(r.buf, r.rp + n, r.fillEnd), Blocks(r.buf, 0, r.wp));
    if r.rp + n == r.fillEnd {
      NoBlocks(r.buf, r.fillEnd);
      assert Pop(r) == r.(rp := 0, filled := r.filled - n, fillEnd := 0);
    } else {
      assert Pop(r) == r.(rp := r.rp + n, filled := r.filled - n);
    }
  }

  /** Consuming removes the oldest block, and the writer's space never shrinks. */
  lemma PopRemovesOldest(r: Ring)
    requires Valid(r) && HaveData(r)
    ensures Queue(r) != [] && Valid(Pop(r)) && Queue(Pop(r)) == Queue(r)[1..]
    ensures Pop(r).buf == r.buf && Pop(r).wp == r.wp
    ensures Available(Pop(r)) >= Available(r)
    ensures forall i :: Live(Pop(r), i) ==> Live(r, i)
    ensures Pop(r).filled < r.filled
  {
    TiledStep(r.buf, r.rp, if r.fillEnd == 0 then r.wp else r.fillEnd);
    if r.fillEnd == 0 {
      PopUnwrapped(r);
    } else {
      PopWrapped(r);
    }
    hide Tiled, Blocks, ReadInt, Queue;
  }

  // ---------------------------------------------------------------------------------------
  // Where records lie
  // ---------------------------------------------------------------------------------------

  /** Offset of the record of the `j`-th oldest block: records follow each other from `rp` on. */
  function OffsetOf(r: Ring, j: nat): int
    requires Valid(r) && j <= |Queue(r)|
  {
    var x := r.rp + Footprint(Queue(r)[..j]);
    if r.fillEnd != 0 && x >= r.fillEnd then x - r.fillEnd else x
  }

  lemma OldestOffset(r: Ring)
    requires Valid(r) && Queue(r) != []
    ensures OffsetOf(r, 0) == r.rp
  {
    assert Queue(r)[..0] == [];
    hide Queue;
    EmptinessTestsAgree(r);
  }

  lemma PrefixFootprint(q: seq<seq<Byte>>, j: nat)
    requires j <= |q|
    ensures Footprint(q[..j]) <= Footprint(q)
    ensures j < |q| ==> Footprint(q[..j]) < Footprint(q)
  {
    assert q[..j] + q[j..] == q;
    FootprintConcat(q[..j], q[j..]);
  }

  /** Wrapping early moves no record. */
  lemma WrapKeepsOffsets(r: Ring, need: int, j: nat)
    requires Valid(r) && 0 < need && j < |Queue(r)|
    ensures var w := Wrap(r, need); Valid(w) && j < |Queue(w)| && OffsetOf(w, j) == OffsetOf(r, j)
  {
    WrapKeepsQueue(r, need);
    EmptinessTestsAgree(r);
    PrefixFootprint(Queue(r), j);
    hide Queue, Footprint, Tiled;
  }

  /** A sent record lies where the writer was, and moves none of the others. */
  lemma CommitOffsets(r: Ring, n: int)
    requires Valid(r) && 0 < n && n + HEAD <= Available(r)
    ensures var c := Commit(r, n);
            && Valid(c) && |Queue(c)| == |Queue(r)| + 1
            && OffsetOf(c, |Queue(r)|) == r.wp
            && forall j: nat :: j < |Queue(r)| ==> OffsetOf(c, j) == OffsetOf(r, j)
  {
    CommitAppends(r, n);
    CommitShape(r, n);
    EmptinessTestsAgree(r);
    var q, c := Queue(r), Commit(r, n);
    assert Queue(c)[..|q|] == q;
    assert forall j: nat :: j < |q| ==> Queue(c)[..j] == q[..j];
    hide Queue, Footprint, Tiled;
  }

  /** Consuming the oldest record moves none of the others. */
  lemma PopOffsets(r: Ring, j: nat)
    requires Valid(r) && HaveData(r) && j + 1 < |Queue(r)|
    ensures Valid(Pop(r)) && j < |Queue(Pop(r))| && OffsetOf(Pop(r), j) == OffsetOf(r, j + 1)
  {
    PopRemovesOldest(r);
    DerivedReadPosIsOldest(r);
    EmptinessTestsAgree(r);
    EmptinessTestsAgree(Pop(r));
    var q := Queue(r);
    assert q[..j + 1][1..] == q[1..][..j] && q[..j + 1][0] == q[0];
    PrefixFootprint(Queue(Pop(r)), j);
    hide Queue, Tiled;
  }

  // ---------------------------------------------------------------------------------------
  // Draining and progress
  // ---------------------------------------------------------------------------------------

  /** data_queue_consume_all hits its size check on a record that fills the whole buffer. */
  predicate ConsumeAllTraps(r: Ring)
    requires Valid(r)
  {
    |Queue(r)| == 1 && HEAD + |Queue(r)[0]| == |r.buf|
  }

  /** The ring after data_queue_consume_all has consumed every record. */
  function Drain(r: Ring): Ring
    requires Valid(r)
    decreases r.filled
  {
    if HaveData(r) then
      PopRemovesOldest(r);
      EmptinessTestsAgree(Pop(r));
      Drain(Pop(r))
    else r
  }

  lemma {:induction false} DrainEmpties(r: Ring)
    requires Valid(r)
    ensures Valid(Drain(r)) && Queue(Drain(r)) == [] && Drain(r).filled == 0
    ensures Drain(r).buf == r.buf && Drain(r).wp == r.wp && Available(Drain(r)) >= Available(r)
    ensures forall i :: !Live(Drain(r), i)
    decreases r.filled
  {
    EmptinessTestsAgree(r);
    if HaveData(r) {
      PopRemovesOldest(r);
      EmptinessTestsAgree(Pop(r));
      DrainEmpties(Pop(r));
    }
  }

  /** The check trips on the first record exactly when that record is the whole buffer. */
  lemma TrapIffWholeBuffer(r: Ring)
    requires Valid(r) && HaveData(r)
    ensures ReadInt(r.buf, r.rp) >= |r.buf| <==> ConsumeAllTraps(r)
    ensures ConsumeAllTraps(r) ==> r.rp == 0 && r.filled == |r.buf|
  {
    EmptinessTestsAgree(r);
    PopRemovesOldest(r);
    EmptinessTestsAgree(Pop(r));
    var n := ReadInt(r.buf, r.rp);
    assert HEAD + |Queue(r)[0]| == n;
    assert Footprint(Queue(r)) == n + Footprint(Queue(Pop(r)));
    if ConsumeAllTraps(r) {
      assert Queue(Pop(r)) == [];
    }
  }

  lemma DrainedAlready(r: Ring)
    requires Valid(r) && !HaveData(r)
    ensures Drain(r) == r && Queue(r) == [] && !ConsumeAllTraps(r)
  {
    EmptinessTestsAgree(r);
  }

  /** One round of the data_queue_consume_all loop. */
  lemma ConsumeStep(r: Ring)
    requires Valid(r) && HaveData(r)
    ensures 0 <= r.rp && r.rp + HEAD <= |r.buf|
    ensures var n := ReadInt(r.buf, r.rp); n < 0 || n >= |r.buf| <==> ConsumeAllTraps(r)
    ensures ConsumeAllTraps(r) ==> r.filled == |r.buf|
    ensures Valid(Pop(r)) && Drain(Pop(r)) == Drain(r) && 0 <= Pop(r).filled < r.filled <= |r.buf|
  {
    PopRemovesOldest(r);
    TrapIffWholeBuffer(r);
    EmptinessTestsAgree(r);
    DerivedReadPosIsOldest(r);
    EmptinessTestsAgree(Pop(r));
    hide ReadInt, Queue;
  }

  lemma QueueSizes(r: Ring)
    requires Valid(r)
    ensures PayloadSize(Queue(r)) + HEAD * |Queue(r)| == r.filled
    ensures !HaveData(r) <==> Queue(r) == []
    ensures Queue(r) == [] ==> PayloadSize(Queue(r)) == 0
  {
    EmptinessTestsAgree(r);
    FootprintSplit(Queue(r));
  }

  /** One round of the data_queue_query walk; the walk's position is the read position of `r`. */
  lemma QueryStep(r: Ring)
    requires Valid(r) && HaveData(r)
    ensures 0 <= r.rp && r.rp + HEAD <= |r.buf|
    ensures var n := ReadInt(r.buf, r.rp);
            && HEAD < n <= |r.buf| && Valid(Pop(r)) && 0 <= Pop(r).filled < r.filled
            && Pop(r) == (if r.fillEnd != 0 && r.rp + n == r.fillEnd
                          then r.(fillEnd := 0, rp := 0, filled := r.filled - n)
                          else r.(rp := r.rp + n, filled := r.filled - n))
            && |Queue(r)| == |Queue(Pop(r))| + 1
            && PayloadSize(Queue(r)) == PayloadSize(Queue(Pop(r))) + n - HEAD
  {
    PopRemovesOldest(r);
    EmptinessTestsAgree(r);
    DerivedReadPosIsOldest(r);
    EmptinessTestsAgree(Pop(r));
    hide ReadInt, Queue, Tiled;
  }

  /** The writer's request succeeds after at most `k` rounds of "one read_unlock, one more pass". */
  predicate ServedWithin(r: Ring, n: int, k: nat)
    requires Valid(r) && 0 <= n
    decreases k
  {
    Grants(r, n) || (
      && k > 0
      && var w := Wrap(r, n + HEAD);
      WrapKeepsQueue(r, n + HEAD);
      && HaveData(w)
      && (PopRemovesOldest(w); ServedWithin(Pop(w), n, k - 1)))
  }

  /** A failed pass and one read_unlock leave the same queue without its oldest block. */
  lemma OneRound(r: Ring, n: int)
    requires Valid(r) && 0 <= n && n + HEAD <= |r.buf| && !Grants(r, n)
    ensures var w := Wrap(r, n + HEAD);
            && Valid(w) && HaveData(w) && Valid(Pop(w))
            && Queue(r) != [] && Queue(Pop(w)) == Queue(r)[1..] && Pop(w).buf == r.buf
  {
    FailedPass(r, n);
    WrapKeepsQueue(r, n + HEAD);
    hide Valid, Queue;
    PopRemovesOldest(Wrap(r, n + HEAD));
  }

  /** A request that fits the buffer waits for no more read_unlocks than there are records. */
  lemma {:induction false} BlockedWriterIsServed(r: Ring, n: int)
    requires Valid(r) && 0 <= n && n + HEAD <= |r.buf|
    ensures ServedWithin(r, n, |Queue(r)|)
    decreases |Queue(r)|
  {
    hide Valid, Queue, HaveData;
    if !Grants(r, n) {
      OneRound(r, n);
      hide Wrap, Pop, Grants;
      BlockedWriterIsServed(Pop(Wrap(r, n + HEAD)), n);
    }
  }
}
