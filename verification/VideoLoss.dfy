/**
 What the receiver of `esp_webrtc.c` makes of frames whose chunks may be lost. Chunks arrive in the
 order they were sent; any of them may be missing.
 */
module VideoLoss {
  import opened Bytes
  import opened VideoChunkSpec

  // ---------------------------------------------------------------------------------------
  // Pieces of a frame
  // ---------------------------------------------------------------------------------------

  /** The payloads a frame is cut into. */
  function Pieces(f: seq<Byte>, size: int): (ps: seq<seq<Byte>>)
    requires 0 < size
    ensures f != [] ==> ps != []
    decreases |f|
  {
    if f == [] then [] else if |f| <= size then [f] else [f[..size]] + Pieces(f[size..], size)
  }

  function Concat(ps: seq<seq<Byte>>): seq<Byte>
  {
    if ps == [] then [] else Concat(ps[..|ps| - 1]) + ps[|ps| - 1]
  }

  lemma {:induction false} ConcatFirst(p: seq<Byte>, ps: seq<seq<Byte>>)
    ensures Concat([p] + ps) == p + Concat(ps)
    decreases |ps|
  {
    if ps == [] {
      assert [p] + ps == [p] && [p][..0] == [];
      assert Concat([p]) == Concat([]) + p == p;
    } else {
      var n := |ps| - 1;
      assert ([p] + ps)[..n + 1] == [p] + ps[..n];
      ConcatFirst(p, ps[..n]);
    }
  }

  lemma {:induction false} PiecesJoin(f: seq<Byte>, size: int)
    requires 0 < size
    ensures Concat(Pieces(f, size)) == f
    decreases |f|
  {
    if 0 < |f| <= size {
      ConcatFirst(f, []);
      assert [f] + [] == [f] && Concat([]) == [];
    } else if f != [] {
      PiecesJoin(f[size..], size);
      ConcatFirst(f[..size], Pieces(f[size..], size));
      assert f[..size] + f[size..] == f;
    }
  }

  /** All pieces but the last are full. */
  lemma {:induction false} PieceSize(f: seq<Byte>, size: int, k: int)
    requires 0 < size && 0 <= k < |Pieces(f, size)|
    ensures 0 < |Pieces(f, size)[k]| <= size
    ensures k < |Pieces(f, size)| - 1 ==> |Pieces(f, size)[k]| == size
    decreases |f|
  {
    if |f| > size && k > 0 {
      PieceSize(f[size..], size, k - 1);
    }
  }

  /** The chunks on the wire carry the pieces, numbered, with END on the last. */
  lemma {:induction false} ChunkCarriesPiece(f: seq<Byte>, size: int, seqNo: int, k: int)
    requires 0 < size < 0x1_0000 && 0 <= seqNo && |f| <= size * (MAX_CHUNKS - seqNo)
    requires 0 <= k < |Pieces(f, size)|
    ensures |Chunks(f, size, seqNo)| == |Pieces(f, size)| && seqNo + k < MAX_CHUNKS && |Pieces(f, size)[k]| < UINT32
    ensures Chunks(f, size, seqNo)[k] == Encode(seqNo + k, k == |Pieces(f, size)| - 1, Pieces(f, size)[k])
    decreases |f|
  {
    hide Encode;
    RoomForOne(|f|, size, seqNo);
    if |f| > size {
      ChunkCarriesPiece(f[size..], size, seqNo + 1, if k > 0 then k - 1 else 0);
    }
  }

  // ---------------------------------------------------------------------------------------
  // What arrives
  // ---------------------------------------------------------------------------------------

  /** Chunk `chunk` of frame number `frame` reaches the receiver. */
  datatype Arrival = Arrival(frame: nat, chunk: nat)

  predicate Sent(frames: seq<seq<Byte>>, size: int)
  {
    && 0 < size < 0x1_0000
    && forall i :: 0 <= i < |frames| ==> frames[i] != [] && Sendable(|frames[i]|, size)
  }

  predicate IsSent(frames: seq<seq<Byte>>, size: int, a: Arrival)
    requires Sent(frames, size)
  {
    a.frame < |frames| && a.chunk < |Pieces(frames[a.frame], size)|
  }

  predicate Before(a: Arrival, b: Arrival)
  {
    a.frame < b.frame || (a.frame == b.frame && a.chunk < b.chunk)
  }

  /** Some of the chunks sent, in the order they were sent. */
  predicate InOrder(frames: seq<seq<Byte>>, size: int, got: seq<Arrival>)
    requires Sent(frames, size)
  {
    && (forall i :: 0 <= i < |got| ==> IsSent(frames, size, got[i]))
    && forall i, j :: 0 <= i < j < |got| ==> Before(got[i], got[j])
  }

  function Piece(frames: seq<seq<Byte>>, size: int, a: Arrival): seq<Byte>
    requires Sent(frames, size) && IsSent(frames, size, a)
  {
    Pieces(frames[a.frame], size)[a.chunk]
  }

  predicate EndsFrame(frames: seq<seq<Byte>>, size: int, a: Arrival)
    requires Sent(frames, size) && IsSent(frames, size, a)
  {
    a.chunk == |Pieces(frames[a.frame], size)| - 1
  }

  function Wire(frames: seq<seq<Byte>>, size: int, a: Arrival): (c: seq<Byte>)
    requires Sent(frames, size) && IsSent(frames, size, a)
  {
    ChunkCarriesPiece(frames[a.frame], size, 0, a.chunk);
    Chunks(frames[a.frame], size, 0)[a.chunk]
  }

  lemma WireReadsBack(frames: seq<seq<Byte>>, size: int, a: Arrival)
    requires Sent(frames, size) && IsSent(frames, size, a)
    ensures var c := Wire(frames, size, a);
            && CHUNK_HDR <= |c| && LengthOk(c) && SeqNo(c) == a.chunk
            && (IsEnd(c) <==> EndsFrame(frames, size, a)) && Payload(c) == Piece(frames, size, a)
  {
    hide Encode, LengthOk, SeqNo, IsEnd, Payload, Pieces, Chunks;
    var f := frames[a.frame];
    ChunkCarriesPiece(f, size, 0, a.chunk);
    PieceSize(f, size, a.chunk);
    EncodeReadsBack(a.chunk, a.chunk == |Pieces(f, size)| - 1, Pieces(f, size)[a.chunk]);
  }

  function Wires(frames: seq<seq<Byte>>, size: int, got: seq<Arrival>): (cs: seq<seq<Byte>>)
    requires Sent(frames, size) && InOrder(frames, size, got)
    ensures |cs| == |got|
  {
    seq(|got|, i requires 0 <= i < |got| => Wire(frames, size, got[i]))
  }

  /** The messages, with whether memory is available for each. */
  function Stream(frames: seq<seq<Byte>>, size: int, got: seq<Arrival>, allocs: seq<bool>): (ms: seq<Message>)
    requires Sent(frames, size) && InOrder(frames, size, got) && |allocs| == |got|
    ensures |ms| == |got|
  {
    seq(|got|, i requires 0 <= i < |got| => Message(Wire(frames, size, got[i]), allocs[i]))
  }

  function Splice(frames: seq<seq<Byte>>, size: int, got: seq<Arrival>): (ps: seq<seq<Byte>>)
    requires Sent(frames, size) && InOrder(frames, size, got)
    ensures |ps| == |got|
  {
    seq(|got|, i requires 0 <= i < |got| => Piece(frames, size, got[i]))
  }

  lemma {:induction false} KeptWires(ms: seq<Message>)
    requires forall i :: 0 <= i < |ms| ==> CHUNK_HDR <= |ms[i].bytes|
    ensures |Kept(ms)| == |ms| && forall i :: 0 <= i < |ms| ==> Kept(ms)[i] == ms[i].bytes
    decreases |ms|
  {
    if ms != [] {
      KeptWires(ms[..|ms| - 1]);
    }
  }

  lemma {:induction false} JoinIsConcat(cs: seq<seq<Byte>>, ps: seq<seq<Byte>>)
    requires AllLong(cs) && |cs| == |ps| && forall i :: 0 <= i < |cs| ==> Payload(cs[i]) == ps[i]
    ensures JoinPayloads(cs) == Concat(ps)
    decreases |cs|
  {
    hide Payload;
    if cs != [] {
      JoinIsConcat(cs[..|cs| - 1], ps[..|ps| - 1]);
    }
  }

  // ---------------------------------------------------------------------------------------
  // Runs of chunks that look like one frame
  // ---------------------------------------------------------------------------------------

  /** From index `j` on the chunks are numbered 0, 1, 2, ..., and only the last ends its frame. */
  predicate LooksWhole(frames: seq<seq<Byte>>, size: int, got: seq<Arrival>, j: int)
    requires Sent(frames, size) && InOrder(frames, size, got)
  {
    && 0 <= j < |got|
    && forall i :: j <= i < |got| ==>
         got[i].chunk == i - j && (EndsFrame(frames, size, got[i]) <==> i == |got| - 1)
  }

  lemma SuffixInOrder(frames: seq<seq<Byte>>, size: int, got: seq<Arrival>, j: int)
    requires Sent(frames, size) && InOrder(frames, size, got) && 0 <= j <= |got|
    ensures InOrder(frames, size, got[j..]) && InOrder(frames, size, got[..j])
  {
    hide IsSent, Before;
  }

  lemma WiresRead(frames: seq<seq<Byte>>, size: int, got: seq<Arrival>)
    requires Sent(frames, size) && InOrder(frames, size, got)
    ensures var cs := Wires(frames, size, got);
            && AllLong(cs)
            && forall i :: 0 <= i < |got| ==>
                 && LengthOk(cs[i]) && SeqNo(cs[i]) == got[i].chunk
                 && (IsEnd(cs[i]) <==> EndsFrame(frames, size, got[i]))
                 && Payload(cs[i]) == Piece(frames, size, got[i])
  {
    hide LengthOk, SeqNo, IsEnd, Payload, EndsFrame, Piece, Wire, Before;
    forall i | 0 <= i < |got|
      ensures var c := Wires(frames, size, got)[i];
              && CHUNK_HDR <= |c| && LengthOk(c) && SeqNo(c) == got[i].chunk
              && (IsEnd(c) <==> EndsFrame(frames, size, got[i])) && Payload(c) == Piece(frames, size, got[i])
    {
      WireReadsBack(frames, size, got[i]);
    }
  }

  lemma JoinedIsSplice(frames: seq<seq<Byte>>, size: int, got: seq<Arrival>, j: int)
    requires Sent(frames, size) && InOrder(frames, size, got) && 0 <= j <= |got|
    ensures AllLong(Wires(frames, size, got)) && InOrder(frames, size, got[j..])
    ensures JoinPayloads(Wires(frames, size, got)[j..]) == Concat(Splice(frames, size, got[j..]))
  {
    WiresRead(frames, size, got);
    SuffixInOrder(frames, size, got, j);
    hide LengthOk, SeqNo, IsEnd, Payload, EndsFrame, Piece, Wires, JoinPayloads, Concat, InOrder;
    JoinIsConcat(Wires(frames, size, got)[j..], Splice(frames, size, got[j..]));
  }

  /** The receiver's test on the messages is the same test on what was sent. */
  lemma WholeIffLooksWhole(frames: seq<seq<Byte>>, size: int, got: seq<Arrival>, j: int)
    requires Sent(frames, size) && InOrder(frames, size, got) && AllLong(Wires(frames, size, got))
    ensures WholeFrame(Wires(frames, size, got), j) <==>
            LooksWhole(frames, size, got, j) && |JoinPayloads(Wires(frames, size, got)[j..])| <= REASM_MAX
  {
    WiresRead(frames, size, got);
    hide LengthOk, SeqNo, IsEnd, Payload, EndsFrame, Piece, Wires, JoinPayloads, InOrder;
  }

  /** Between two chunks of one frame nothing else arrives. */
  lemma FrameIsContiguous(frames: seq<seq<Byte>>, size: int, got: seq<Arrival>, i: int, k: int, j: int)
    requires Sent(frames, size) && InOrder(frames, size, got)
    requires 0 <= i <= k <= j < |got| && got[i].frame == got[j].frame
    ensures got[k].frame == got[i].frame
  {
    hide IsSent;
  }

  /** The run consists of chunks of the frame it ends only. */
  predicate OneFrame(got: seq<Arrival>, j: int)
  {
    forall k :: 0 <= j <= k < |got| ==> got[k].frame == got[|got| - 1].frame
  }

  /** It does exactly when that frame's first chunk has arrived. */
  lemma OneFrameIffFirstArrived(frames: seq<seq<Byte>>, size: int, got: seq<Arrival>, j: int)
    requires Sent(frames, size) && InOrder(frames, size, got) && LooksWhole(frames, size, got, j)
    ensures OneFrame(got, j) <==> Arrival(got[|got| - 1].frame, 0) in got
  {
    hide EndsFrame, IsSent;
    var n := |got| - 1;
    var first := Arrival(got[n].frame, 0);
    assert got[j].chunk == 0;
    if OneFrame(got, j) {
      assert got[j] == first;
    }
    if first in got {
      var i :| 0 <= i < |got| && got[i] == first;
      if i > j {
        assert false;
      } else {
        forall k | 0 <= j <= k < |got| ensures got[k].frame == got[n].frame {
          FrameIsContiguous(frames, size, got, i, k, n);
        }
      }
    }
  }

  /** Every piece has the length of the piece it stands for. */
  lemma SameLengths(frames: seq<seq<Byte>>, size: int, got: seq<Arrival>, j: int)
    requires Sent(frames, size) && InOrder(frames, size, got) && LooksWhole(frames, size, got, j)
    ensures var ps := Pieces(frames[got[|got| - 1].frame], size);
            && InOrder(frames, size, got[j..])
            && |Splice(frames, size, got[j..])| == |ps|
            && forall k :: 0 <= k < |ps| ==> |Splice(frames, size, got[j..])[k]| == |ps[k]|
  {
    SuffixInOrder(frames, size, got, j);
    var n := |got| - 1;
    var ps := Pieces(frames[got[n].frame], size);
    hide Pieces;
    forall k | 0 <= k < |ps| ensures |Splice(frames, size, got[j..])[k]| == |ps[k]| {
      var a := got[j + k];
      assert a.chunk == k && IsSent(frames, size, a);
      PieceSize(frames[a.frame], size, k);
      PieceSize(frames[got[n].frame], size, k);
      if k < |ps| - 1 {
        assert !EndsFrame(frames, size, a);
      }
    }
  }

  lemma {:induction false} ConcatInjective(ps: seq<seq<Byte>>, qs: seq<seq<Byte>>)
    requires |ps| == |qs| && forall k :: 0 <= k < |ps| ==> |ps[k]| == |qs[k]|
    ensures |Concat(ps)| == |Concat(qs)|
    ensures Concat(ps) == Concat(qs) <==> ps == qs
    decreases |ps|
  {
    if ps != [] {
      var n := |ps| - 1;
      ConcatInjective(ps[..n], qs[..n]);
      var a, b := Concat(ps[..n]), Concat(qs[..n]);
      assert (a + ps[n])[..|a|] == a && (b + qs[n])[..|b|] == b;
      assert (a + ps[n])[|a|..] == ps[n] && (b + qs[n])[|b|..] == qs[n];
      assert ps == ps[..n] + [ps[n]] && qs == qs[..n] + [qs[n]];
    }
  }

  /** What such a run amounts to, compared with the frame whose END chunk closes it. */
  lemma SpliceAgainstFrame(frames: seq<seq<Byte>>, size: int, got: seq<Arrival>, j: int)
    requires Sent(frames, size) && InOrder(frames, size, got) && LooksWhole(frames, size, got, j)
    ensures InOrder(frames, size, got[j..])
    ensures var f, ps := frames[got[|got| - 1].frame], Splice(frames, size, got[j..]);
            && |Concat(ps)| == |f|
            && (Concat(ps) == f <==> ps == Pieces(f, size))
            && (OneFrame(got, j) ==> ps == Pieces(f, size))
  {
    SameLengths(frames, size, got, j);
    var f, ps := frames[got[|got| - 1].frame], Splice(frames, size, got[j..]);
    hide Pieces, Concat, InOrder, EndsFrame;
    ConcatInjective(ps, Pieces(f, size));
    PiecesJoin(f, size);
    if OneFrame(got, j) {
      forall k | 0 <= k < |ps| ensures ps[k] == Pieces(f, size)[k] {
        assert got[j..][k] == got[j + k] && got[j + k].frame == got[|got| - 1].frame;
      }
    }
  }

  // ---------------------------------------------------------------------------------------
  // Lossy reception
  // ---------------------------------------------------------------------------------------

  lemma LastIsSent(frames: seq<seq<Byte>>, size: int, got: seq<Arrival>)
    requires got != [] && Sent(frames, size) && InOrder(frames, size, got)
    ensures got[|got| - 1].frame < |frames| && IsSent(frames, size, got[|got| - 1])
  {
  }

  /** What the receiver feeds to the player at the last arrival. */
  function Delivered(cap: int, frames: seq<seq<Byte>>, size: int, got: seq<Arrival>, allocs: seq<bool>): Option<seq<Byte>>
    requires 0 <= cap <= REASM_MAX && got != [] && |allocs| == |got|
    requires Sent(frames, size) && InOrder(frames, size, got)
  {
    var ms := Stream(frames, size, got, allocs);
    var n := |ms| - 1;
    Receive(After(cap, ms[..n]), ms[n].bytes, ms[n].alloc).frame
  }

  lemma StreamKept(frames: seq<seq<Byte>>, size: int, got: seq<Arrival>, allocs: seq<bool>)
    requires |allocs| == |got| && got != [] && Sent(frames, size) && InOrder(frames, size, got)
    ensures var ms, n := Stream(frames, size, got, allocs), |got| - 1;
            CHUNK_HDR <= |ms[n].bytes| && Kept(ms[..n]) + [ms[n].bytes] == Wires(frames, size, got)
  {
    WiresRead(frames, size, got);
    hide LengthOk, SeqNo, IsEnd, Payload, EndsFrame, Piece, Wire, InOrder, Kept;
    var ms, n := Stream(frames, size, got, allocs), |got| - 1;
    forall i | 0 <= i < |got| ensures ms[i].bytes == Wires(frames, size, got)[i] {
    }
    KeptWires(ms[..n]);
  }

  /**
   Whatever is lost, and whatever memory does: a delivered frame has the length of the frame `f`
   whose END chunk just arrived, and is made of pieces of the frames sent, each in its own place.
   They are all `f`'s exactly when `f`'s first chunk arrived; otherwise it is a splice, which equals
   `f` only where the pieces happen to be the same.
   */
  lemma LossyDelivery(cap: int, frames: seq<seq<Byte>>, size: int, got: seq<Arrival>, allocs: seq<bool>)
    requires 0 <= cap <= REASM_MAX && got != [] && |allocs| == |got|
    requires Sent(frames, size) && InOrder(frames, size, got)
    ensures var last, d := got[|got| - 1], Delivered(cap, frames, size, got, allocs);
            d.Some? ==>
              && EndsFrame(frames, size, last)
              && |d.value| == |frames[last.frame]|
              && exists j :: LooksWhole(frames, size, got, j) && InOrder(frames, size, got[j..])
                             && var ps := Splice(frames, size, got[j..]);
                                && d.value == Concat(ps)
                                && (OneFrame(got, j) <==> Arrival(last.frame, 0) in got)
                                && (d.value == frames[last.frame] <==> ps == Pieces(frames[last.frame], size))
    ensures var last, d := got[|got| - 1], Delivered(cap, frames, size, got, allocs);
            d.Some? && Arrival(last.frame, 0) in got ==> d.value == frames[last.frame]
  {
    hide InOrder, Receive, After, Kept, Stream, Wires, WholeFrame, JoinPayloads, Splice, Concat, Pieces;
    hide LooksWhole, OneFrame, EndsFrame;
    var ms, n := Stream(frames, size, got, allocs), |got| - 1;
    StreamKept(frames, size, got, allocs);
    DeliveredFramesAreWhole(cap, ms[..n], ms[n]);
    if Delivered(cap, frames, size, got, allocs).Some? {
      var v := Delivered(cap, frames, size, got, allocs).value;
      WiresRead(frames, size, got);
      var cs := Wires(frames, size, got);
      var j :| WholeFrame(cs, j) && (NumberedBounds(cs, j); v == JoinPayloads(cs[j..]));
      WholeRun(frames, size, got, j);
    }
  }

  /** All there is to say about a run that the receiver takes for a frame. */
  lemma WholeRun(frames: seq<seq<Byte>>, size: int, got: seq<Arrival>, j: int)
    requires Sent(frames, size) && InOrder(frames, size, got)
    requires AllLong(Wires(frames, size, got)) && WholeFrame(Wires(frames, size, got), j)
    ensures LooksWhole(frames, size, got, j) && 0 <= j < |got| && InOrder(frames, size, got[j..])
    ensures var f, ps := frames[got[|got| - 1].frame], Splice(frames, size, got[j..]);
            && EndsFrame(frames, size, got[|got| - 1])
            && JoinPayloads(Wires(frames, size, got)[j..]) == Concat(ps)
            && |Concat(ps)| == |f|
            && (OneFrame(got, j) <==> Arrival(got[|got| - 1].frame, 0) in got)
            && (Concat(ps) == f <==> ps == Pieces(f, size))
            && (OneFrame(got, j) ==> Concat(ps) == f)
  {
    WholeIffLooksWhole(frames, size, got, j);
    hide InOrder, Wires, WholeFrame, JoinPayloads, Splice, Concat, Pieces, OneFrame, EndsFrame;
    JoinedIsSplice(frames, size, got, j);
    SpliceAgainstFrame(frames, size, got, j);
    OneFrameIffFirstArrived(frames, size, got, j);
  }

  predicate AllTrue(allocs: seq<bool>)
  {
    forall i :: 0 <= i < |allocs| ==> allocs[i]
  }

  /** While memory lasts, something is delivered exactly when the latest chunks look like a frame. */
  lemma LossyDeliveryIff(cap: int, frames: seq<seq<Byte>>, size: int, got: seq<Arrival>, allocs: seq<bool>)
    requires 0 <= cap <= REASM_MAX && got != [] && |allocs| == |got| && AllTrue(allocs)
    requires Sent(frames, size) && InOrder(frames, size, got)
    ensures Delivered(cap, frames, size, got, allocs).Some? <==>
            |frames[got[|got| - 1].frame]| <= REASM_MAX && exists j :: LooksWhole(frames, size, got, j)
  {
    hide InOrder, Receive, After, Kept, Wires, WholeFrame, JoinPayloads, Splice, Concat, Pieces;
    hide LooksWhole, EndsFrame, Wire;
    LastIsSent(frames, size, got);
    LossyDelivery(cap, frames, size, got, allocs);
    var ms, n := Stream(frames, size, got, allocs), |got| - 1;
    StreamKept(frames, size, got, allocs);
    WiresRead(frames, size, got);
    DeliveredFramesAreWhole(cap, ms[..n], ms[n]);
    if Delivered(cap, frames, size, got, allocs).Some? {
      var j :| WholeFrame(Wires(frames, size, got), j);
      WholeFits(frames, size, got, j);
    } else if |frames[got[n].frame]| <= REASM_MAX {
      forall j ensures !LooksWhole(frames, size, got, j) {
        if LooksWhole(frames, size, got, j) {
          FittingRun(frames, size, got, j);
          WholeFramesAreDelivered(cap, ms[..n], ms[n].bytes, j);
          assert false;
        }
      }
    }
  }

  lemma WholeFits(frames: seq<seq<Byte>>, size: int, got: seq<Arrival>, j: int)
    requires Sent(frames, size) && InOrder(frames, size, got)
    requires AllLong(Wires(frames, size, got)) && WholeFrame(Wires(frames, size, got), j)
    ensures LooksWhole(frames, size, got, j) && |frames[got[|got| - 1].frame]| <= REASM_MAX
  {
    hide InOrder, Wires, JoinPayloads, Splice, Concat, Pieces, OneFrame, EndsFrame;
    WholeIffLooksWhole(frames, size, got, j);
    WholeRun(frames, size, got, j);
  }

  lemma FittingRun(frames: seq<seq<Byte>>, size: int, got: seq<Arrival>, j: int)
    requires Sent(frames, size) && InOrder(frames, size, got) && AllLong(Wires(frames, size, got))
    requires LooksWhole(frames, size, got, j) && |frames[got[|got| - 1].frame]| <= REASM_MAX
    ensures WholeFrame(Wires(frames, size, got), j)
  {
    WholeIffLooksWhole(frames, size, got, j);
    hide InOrder, Wires, WholeFrame, JoinPayloads, Splice, Concat, Pieces, OneFrame, EndsFrame;
    JoinedIsSplice(frames, size, got, j);
    SpliceAgainstFrame(frames, size, got, j);
  }

  /** Chunk `k` of frame `i` arrived, for every `k`. */
  predicate AllArrived(frames: seq<seq<Byte>>, size: int, got: seq<Arrival>, i: nat)
    requires Sent(frames, size) && i < |frames|
  {
    forall k: nat :: k < |Pieces(frames[i], size)| ==> Arrival(i, k) in got
  }

  /**
   Once a frame's first chunk has arrived, its END chunk delivers it, and nothing else, exactly when
   all its chunks arrived and it fits 512 KiB.
   */
  lemma DeliveredIffAllArrived(cap: int, frames: seq<seq<Byte>>, size: int, got: seq<Arrival>, allocs: seq<bool>)
    requires 0 <= cap <= REASM_MAX && got != [] && |allocs| == |got| && AllTrue(allocs)
    requires Sent(frames, size) && InOrder(frames, size, got)
    requires EndsFrame(frames, size, got[|got| - 1]) && Arrival(got[|got| - 1].frame, 0) in got
    ensures var i := got[|got| - 1].frame;
            Delivered(cap, frames, size, got, allocs) ==
            if AllArrived(frames, size, got, i) && |frames[i]| <= REASM_MAX then Some(frames[i]) else None
  {
    hide Delivered, AllTrue, InOrder, Pieces, LooksWhole, AllArrived, EndsFrame, OneFrame, Splice, Concat;
    LastIsSent(frames, size, got);
    LossyDelivery(cap, frames, size, got, allocs);
    LossyDeliveryIff(cap, frames, size, got, allocs);
    var i := got[|got| - 1].frame;
    if exists j :: LooksWhole(frames, size, got, j) {
      var j :| LooksWhole(frames, size, got, j);
      RunHasAll(frames, size, got, j);
    } else if AllArrived(frames, size, got, i) {
      AllMakeRun(frames, size, got);
      assert false;
    }
  }

  lemma RunHasAll(frames: seq<seq<Byte>>, size: int, got: seq<Arrival>, j: int)
    requires Sent(frames, size) && InOrder(frames, size, got) && LooksWhole(frames, size, got, j)
    requires Arrival(got[|got| - 1].frame, 0) in got
    ensures AllArrived(frames, size, got, got[|got| - 1].frame)
  {
    OneFrameIffFirstArrived(frames, size, got, j);
    var n := |got| - 1;
    hide Pieces, Before;
    forall k: nat | k < |Pieces(frames[got[n].frame], size)| ensures Arrival(got[n].frame, k) in got {
      assert EndsFrame(frames, size, got[n]);
      assert got[j + k] == Arrival(got[n].frame, k);
    }
  }

  lemma InOrderAt(frames: seq<seq<Byte>>, size: int, got: seq<Arrival>, i: int, j: int)
    requires Sent(frames, size) && InOrder(frames, size, got) && 0 <= i < |got| && 0 <= j < |got|
    ensures i < j ==> Before(got[i], got[j])
  {
    hide IsSent, Before;
  }

  lemma Adjacent(frames: seq<seq<Byte>>, size: int, got: seq<Arrival>, i: int, j: int)
    requires Sent(frames, size) && InOrder(frames, size, got) && 0 <= i < |got| && 0 <= j < |got|
    requires got[i].frame == got[j].frame && got[i].chunk + 1 == got[j].chunk
    ensures j == i + 1
  {
    InOrderAt(frames, size, got, j, i);
    if i + 1 < j {
      InOrderAt(frames, size, got, i, i + 1);
      InOrderAt(frames, size, got, i + 1, j);
    }
    hide InOrder;
  }

  /** Chunks of one frame that have all arrived sit next to each other, counting back from the last. */
  lemma {:induction false} CountBack(frames: seq<seq<Byte>>, size: int, got: seq<Arrival>, k: nat)
    requires got != [] && Sent(frames, size) && InOrder(frames, size, got)
    requires AllArrived(frames, size, got, got[|got| - 1].frame) && k <= got[|got| - 1].chunk
    ensures k < |got| && got[|got| - 1 - k] == Arrival(got[|got| - 1].frame, got[|got| - 1].chunk - k)
    decreases k
  {
    if k > 0 {
      CountBack(frames, size, got, k - 1);
      var n := |got| - 1;
      var a := Arrival(got[n].frame, got[n].chunk - k);
      assert a in got by {
        assert IsSent(frames, size, got[n]);
        hide Pieces;
      }
      var x :| 0 <= x < |got| && got[x] == a;
      hide IsSent, AllArrived;
      Adjacent(frames, size, got, x, n - k + 1);
    }
  }

  lemma AllMakeRun(frames: seq<seq<Byte>>, size: int, got: seq<Arrival>)
    requires got != [] && Sent(frames, size) && InOrder(frames, size, got)
    requires EndsFrame(frames, size, got[|got| - 1]) && AllArrived(frames, size, got, got[|got| - 1].frame)
    ensures LooksWhole(frames, size, got, |got| - 1 - got[|got| - 1].chunk)
  {
    var n := |got| - 1;
    var j := n - got[n].chunk;
    CountBack(frames, size, got, got[n].chunk);
    hide Pieces, AllArrived;
    forall i | j <= i < |got|
      ensures got[i].chunk == i - j && (EndsFrame(frames, size, got[i]) <==> i == |got| - 1)
    {
      CountBack(frames, size, got, n - i);
    }
  }
}
