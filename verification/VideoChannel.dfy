/** The video-over-data-channel fields of `webrtc_t`, with the send and receive paths as written. */
module VideoChannel {
  import opened Bytes
  import opened VideoChunkSpec

  datatype SendResult = Sent | InvalidArg | NoMemory | PeerFailed

  /** ceil(n / size) exceeds 128 exactly when 128 chunks are too few. */
  lemma ChunkCountCheck(n: int, size: int)
    requires 0 <= n && 0 < size
    ensures (n + size - 1) / size > MAX_CHUNKS <==> !Sendable(n, size)
  {
    var q, m := (n + size - 1) / size, (n + size - 1) % size;
    assert n + size - 1 == q * size + m;
    if q > MAX_CHUNKS {
      assert (q - 1) * size >= MAX_CHUNKS * size;
      assert (q - 1) * size == q * size - size;
    } else {
      assert q * size <= MAX_CHUNKS * size;
    }
  }

  /** One round of the chunking loop. */
  lemma ChunksStep(data: seq<Byte>, offset: int, payload: int, size: int, seqNo: int)
    requires 0 <= offset < |data| && 0 < size < 0x1_0000 && 0 <= seqNo
    requires |data| - offset <= size * (MAX_CHUNKS - seqNo)
    requires payload == if |data| - offset > size then size else |data| - offset
    ensures seqNo < MAX_CHUNKS && |data| - (offset + payload) <= size * (MAX_CHUNKS - (seqNo + 1))
    ensures Chunks(data[offset..], size, seqNo) ==
            [Encode(seqNo, offset + payload >= |data|, data[offset..offset + payload])]
            + Chunks(data[offset + payload..], size, seqNo + 1)
  {
    hide Encode;
    RoomForOne(|data| - offset, size, seqNo);
    var rest := data[offset..];
    assert rest[..payload] == data[offset..offset + payload];
    assert rest[payload..] == data[offset + payload..];
    if offset + payload == |data| {
      RoomForRest(size, seqNo + 1);
      NoChunks(data, size, seqNo + 1);
      assert rest[..payload] == rest;
    }
  }

  lemma NoChunks(data: seq<Byte>, size: int, seqNo: int)
    requires 0 < size < 0x1_0000 && 0 <= seqNo && 0 <= size * (MAX_CHUNKS - seqNo)
    ensures Chunks(data[|data|..], size, seqNo) == []
  {
  }

  lemma RoomForRest(size: int, seqNo: int)
    requires 0 < size && 0 <= seqNo <= MAX_CHUNKS
    ensures 0 <= size * (MAX_CHUNKS - seqNo)
  {
  }

  class Channel {
    const chunked: bool
    const configuredChunk: int

    var sendBuf: array?<Byte>
    var reasm: array?<Byte>
    var reasmSize: int
    var reasmCap: int
    var nextSeq: int
    var active: bool

    ghost predicate Shape()
      reads this
    {
      && 0 <= configuredChunk < 0x1_0000
      && (if reasm == null then reasmCap == 0 else reasm.Length == reasmCap)
      && 0 <= reasmSize <= reasmCap
      && (sendBuf != null ==> sendBuf != reasm)
    }

    ghost function View(): Receiver
      requires Shape()
      reads this, reasm
    {
      Receiver(active, nextSeq, if reasm == null then [] else reasm[..reasmSize], reasmCap)
    }

    ghost predicate Inv()
      reads this, reasm
    {
      Shape() && Valid(View())
    }

    constructor (chunked: bool, configuredChunk: int)
      requires 0 <= configuredChunk < 0x1_0000
      ensures Inv() && View() == Start(0) && sendBuf == null
      ensures this.chunked == chunked && this.configuredChunk == configuredChunk
    {
      this.chunked := chunked;
      this.configuredChunk := configuredChunk;
      sendBuf, reasm := null, null;
      reasmSize, reasmCap, nextSeq := 0, 0, 0;
      active := false;
    }

    method Reset()
      requires Inv()
      modifies this`reasmSize, this`nextSeq, this`active
      ensures Inv() && View() == VideoChunkSpec.Reset(old(View()))
    {
      reasmSize := 0;
      nextSeq := 0;
      active := false;
    }

    /** Fills the reusable send buffer with one chunk and returns what the peer is handed. */
    method BuildChunk(data: seq<Byte>, offset: int, payload: int, seqNo: int, isEnd: bool) returns (c: seq<Byte>)
      requires sendBuf != null && CHUNK_HDR + payload <= sendBuf.Length
      requires 0 <= offset && 0 <= payload < 0x1_0000 && offset + payload <= |data| && 0 <= seqNo < MAX_CHUNKS
      modifies sendBuf
      ensures c == Encode(seqNo, isEnd, data[offset..offset + payload])
    {
      sendBuf[0] := if isEnd then seqNo + CHUNK_END else seqNo;
      sendBuf[1] := payload / 0x100_0000;
      sendBuf[2] := payload / 0x1_0000 % 0x100;
      sendBuf[3] := payload / 0x100 % 0x100;
      sendBuf[4] := payload % 0x100;
      for k := 0 to payload
        invariant sendBuf[..CHUNK_HDR] == [if isEnd then seqNo + CHUNK_END else seqNo] + BigEndian(payload)
        invariant sendBuf[CHUNK_HDR..CHUNK_HDR + k] == data[offset..offset + k]
      {
        sendBuf[CHUNK_HDR + k] := data[offset + k];
      }
      c := sendBuf[..CHUNK_HDR + payload];
      assert c == sendBuf[..CHUNK_HDR] + data[offset..offset + payload];
    }

    /**
     send_video_over_data_channel. The peer takes the first `accepts` messages and fails on the
     next; `alloc` says whether the send buffer can grow. `sent` is what the peer took.
     */
    method SendVideo(data: seq<Byte>, accepts: nat, alloc: bool) returns (ret: SendResult, sent: seq<seq<Byte>>)
      requires Inv() && |data| <= INT_MAX
      modifies this`sendBuf, sendBuf
      ensures Inv() && View() == old(View())
      ensures !chunked ==> (ret, sent) == (if accepts > 0 then (Sent, [data]) else (PeerFailed, []))
      ensures var size := ChunkSize(configuredChunk);
              chunked ==>
                && (ret == InvalidArg <==> !Sendable(|data|, size))
                && (ret == InvalidArg || ret == NoMemory ==> sent == [])
                && (ret == NoMemory <==>
                      Sendable(|data|, size) && !alloc
                      && old(sendBuf == null || sendBuf.Length < CHUNK_HDR + size))
                && (ret == Sent || ret == PeerFailed ==>
                      var all := Chunks(data, size, 0);
                      && (ret == Sent <==> |all| <= accepts)
                      && sent == if ret == Sent then all else all[..accepts])
    {
      if !chunked {
        if accepts > 0 {
          return Sent, [data];
        }
        return PeerFailed, [];
      }
      var chunkSize := ChunkSize(configuredChunk);
      ChunkCountCheck(|data|, chunkSize);
      if (|data| + chunkSize - 1) / chunkSize > MAX_CHUNKS {
        return InvalidArg, [];
      }
      if sendBuf == null || sendBuf.Length < CHUNK_HDR + chunkSize {
        if !alloc {
          return NoMemory, [];
        }
        sendBuf := new Byte[CHUNK_HDR + chunkSize];
      }
      ret, sent := SendChunks(data, chunkSize, accepts);
    }

    /** The chunking loop. */
    method SendChunks(data: seq<Byte>, chunkSize: int, accepts: nat) returns (ret: SendResult, sent: seq<seq<Byte>>)
      requires 0 < chunkSize < 0x1_0000 && Sendable(|data|, chunkSize)
      requires sendBuf != null && CHUNK_HDR + chunkSize <= sendBuf.Length
      modifies sendBuf
      ensures var all := Chunks(data, chunkSize, 0);
              if |all| <= accepts then ret == Sent && sent == all else ret == PeerFailed && sent == all[..accepts]
    {
      hide Encode, Chunks;
      ghost var all := Chunks(data, chunkSize, 0);
      var offset, seqNo := 0, 0;
      sent := [];
      assert data[0..] == data;
      while offset < |data|
        invariant 0 <= offset <= |data| && 0 <= seqNo == |sent| <= accepts
        invariant |data| - offset <= chunkSize * (MAX_CHUNKS - seqNo)
        invariant all == sent + Chunks(data[offset..], chunkSize, seqNo)
      {
        var payload := |data| - offset;
        if payload > chunkSize {
          payload := chunkSize;
        }
        ChunksStep(data, offset, payload, chunkSize, seqNo);
        var c := BuildChunk(data, offset, payload, seqNo, offset + payload >= |data|);
        if seqNo >= accepts {
          return PeerFailed, sent;
        }
        sent := sent + [c];
        offset := offset + payload;
        seqNo := seqNo + 1;
      }
      NoChunks(data, chunkSize, seqNo);
      ret := Sent;
    }

    /** The capacity-doubling loop and the realloc that follows it, which keeps the joined bytes. */
    method Grow(need: int)
      requires Inv() && reasmCap < need <= REASM_MAX
      modifies this`reasm, this`reasmCap
      ensures Shape() && reasm != null && fresh(reasm) && reasmCap == Grown(old(reasmCap), need)
      ensures reasm[..reasmSize] == old(View()).body
    {
      var newCap := if reasmCap != 0 then reasmCap * 2 else DEFAULT_CHUNK * 2;
      ghost var cap0 := newCap;
      while newCap < need
        invariant 0 < newCap && Doubled(newCap, need) == Doubled(cap0, need)
        decreases need - newCap
      {
        newCap := newCap * 2;
      }
      if newCap > REASM_MAX {
        newCap := REASM_MAX;
      }
      var buf := new Byte[newCap];
      for k := 0 to reasmSize
        modifies buf
        invariant reasm != null || reasmSize == 0
        invariant reasm != null ==> buf[..k] == reasm[..k]
      {
        buf[k] := reasm[k];
      }
      reasm := buf;
      reasmCap := newCap;
    }

    /** handle_chunked_video_dc: returns the frame fed to the player, if any. */
    method HandleChunk(data: seq<Byte>, alloc: bool) returns (frame: Option<seq<Byte>>, noMem: bool)
      requires Inv() && |data| <= INT_MAX
      modifies this`reasm, this`reasmSize, this`reasmCap, this`nextSeq, this`active, reasm
      ensures Inv() && Outcome(View(), frame, noMem) == old(Receive(View(), data, alloc))
    {
      hide AppendTo, Doubled, Grown;
      ReceiveValid(View(), data, alloc);
      if |data| < CHUNK_HDR {
        return None, false;
      }
      var seqNo := data[0] % CHUNK_END;
      var isEnd := data[0] / CHUNK_END == 1;
      var payloadLen := Join(data[4], data[3], data[2], data[1]);
      assert payloadLen == LengthField(data);
      if (payloadLen + CHUNK_HDR) % UINT32 != |data| {
        Reset();
        return None, false;
      }
      LengthOkExact(data);
      if seqNo == 0 {
        Reset();
        active := true;
        nextSeq := 1;
      } else if !active {
        return None, false;
      } else if seqNo != nextSeq {
        Reset();
        return None, false;
      } else {
        nextSeq := (nextSeq + 1) % 0x100;
      }
      frame, noMem := Append(data[CHUNK_HDR..], isEnd, alloc);
    }

    /** The rest of handle_chunked_video_dc, once the chunk is accepted. */
    method Append(payload: seq<Byte>, isEnd: bool, alloc: bool) returns (frame: Option<seq<Byte>>, noMem: bool)
      requires Inv() && active
      modifies this`reasm, this`reasmSize, this`reasmCap, this`nextSeq, this`active, reasm
      ensures Inv() && Outcome(View(), frame, noMem) == old(AppendTo(View(), payload, isEnd, alloc))
    {
      hide Doubled, Grown;
      var need := reasmSize + |payload|;
      if need > REASM_MAX {
        Reset();
        return None, false;
      }
      if need > reasmCap {
        if !alloc {
          Reset();
          reasm := null;
          reasmCap := 0;
          return None, true;
        }
        Grow(need);
      }
      CopyPayload(payload);
      reasmSize := reasmSize + |payload|;
      if isEnd {
        frame := Some(if reasm == null then [] else reasm[..reasmSize]);
        Reset();
        return frame, false;
      }
      return None, false;
    }

    method CopyPayload(payload: seq<Byte>)
      requires Shape() && reasmSize + |payload| <= reasmCap
      modifies reasm
      ensures Shape()
      ensures reasm != null ==> reasm[..reasmSize + |payload|] == old(reasm[..reasmSize]) + payload
      ensures reasm == null ==> payload == []
    {
      for k := 0 to |payload|
        invariant reasm != null ==> reasm[..reasmSize + k] == old(reasm[..reasmSize]) + payload[..k]
      {
        reasm[reasmSize + k] := payload[k];
      }
    }
  }
}
