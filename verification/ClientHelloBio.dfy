/**
 The reassembly BIO as the source lays it out: one heap buffer that holds the record header, the
 message body and, right behind the body, a bit mask of the offsets received so far.
 */
module ClientHelloBio {
  import opened Arith
  import opened Bytes
  import opened ClientHelloSpec

  const WANT_READ := -0x6900
  const BUFFER_TOO_SMALL := -0x6A00

  // ---------------------------------------------------------------------------------------
  // The coverage mask
  // ---------------------------------------------------------------------------------------

  /** `b & (1 << k)` is not zero. */
  predicate Bit(b: nat, k: nat)
    decreases k
  {
    if k == 0 then b % 2 == 1 else Bit(b / 2, k - 1)
  }

  /** `b | (1 << k)` */
  function WithBit(b: nat, k: nat): (r: nat)
    decreases k
  {
    if k == 0 then 2 * (b / 2) + 1 else b % 2 + 2 * WithBit(b / 2, k - 1)
  }

  lemma {:induction false} WithBitSetsOne(b: nat, k: nat, j: nat)
    ensures Bit(WithBit(b, k), j) <==> j == k || Bit(b, j)
    decreases k
  {
    if k > 0 && j > 0 {
      WithBitSetsOne(b / 2, k - 1, j - 1);
    }
  }

  lemma {:induction false} WithBitInRange(b: nat, k: nat, n: nat)
    requires b < Pow2(n) && k < n
    ensures WithBit(b, k) < Pow2(n)
    decreases k
  {
    if k > 0 {
      WithBitInRange(b / 2, k - 1, n - 1);
    }
  }

  lemma {:induction false} ZeroHasNoBit(j: nat)
    ensures !Bit(0, j)
  {
    if j > 0 {
      ZeroHasNoBit(j - 1);
    }
  }

  /** Where the mask bit of offset `i` lives. */
  function MaskPos(total: int, i: int): int
  {
    BODY + total + i / 8
  }

  predicate Marked(buf: seq<Byte>, total: int, i: int)
    requires 0 <= i < total && BufferNeed(total) <= |buf|
  {
    Bit(buf[MaskPos(total, i)], i % 8)
  }

  /** The cells that the body and the mask of a buffer stand for. */
  function Cells(buf: seq<Byte>, total: int): (cells: seq<Cell>)
    requires 0 <= total && BufferNeed(total) <= |buf|
    ensures |cells| == total
  {
    seq(total, i requires 0 <= i < total => if Marked(buf, total, i) then Some(buf[BODY + i]) else None)
  }

  /** Header, body and mask never overlap: each offset's byte and mask bit are its own. */
  lemma LayoutDisjoint(total: int, i: int, j: int)
    requires 0 <= i < total && 0 <= j < total
    ensures BODY <= BODY + i < BODY + total <= MaskPos(total, j) < BufferNeed(total)
    ensures MaskPos(total, i) == MaskPos(total, j) && i % 8 == j % 8 ==> i == j
  {
  }

  /** Marking an unmarked offset and storing its byte sets exactly that cell. */
  lemma MarkSetsCell(buf: seq<Byte>, buf': seq<Byte>, total: int, i: int, v: Byte)
    requires 0 <= i < total && BufferNeed(total) <= |buf| && !Marked(buf, total, i)
    requires var b := WithBit(buf[MaskPos(total, i)], i % 8);
             b < 256 && buf' == buf[MaskPos(total, i) := b][BODY + i := v]
    ensures Cells(buf', total) == Cells(buf, total)[i := Some(v)]
  {
    forall j | 0 <= j < total ensures Cells(buf', total)[j] == Cells(buf, total)[i := Some(v)][j] {
      LayoutDisjoint(total, i, j);
      LayoutDisjoint(total, j, i);
      WithBitSetsOne(buf[MaskPos(total, i)], i % 8, j % 8);
      hide Bit, WithBit;
    }
  }

  lemma BlankCells(buf: seq<Byte>, total: int)
    requires 0 <= total && BufferNeed(total) <= |buf|
    requires forall k :: BODY + total <= k < BufferNeed(total) ==> buf[k] == 0
    ensures Cells(buf, total) == Blank(total)
  {
    forall i | 0 <= i < total ensures !Marked(buf, total, i) {
      LayoutDisjoint(total, i, i);
      ZeroHasNoBit(i % 8);
    }
  }

  /** When every offset is marked, the body holds the message. */
  lemma BodyIsValues(buf: seq<Byte>, total: int)
    requires 0 <= total && BufferNeed(total) <= |buf| && AllSet(Cells(buf, total))
    ensures buf[BODY..BODY + total] == Values(Cells(buf, total))
  {
    forall i | 0 <= i < total ensures buf[BODY..BODY + total][i] == Values(Cells(buf, total))[i] {
      assert Cells(buf, total)[i].Some?;
    }
  }

  lemma AbsorbNothing(cells: seq<Cell>, off: int, data: seq<Byte>)
    requires 0 <= off <= |cells| && data == []
    ensures Absorb(cells, off, data) == cells
  {
  }

  lemma HeaderByBytes(s: seq<Byte>, hdr: seq<Byte>, msgSeq: int, total: int)
    requires |s| == BODY && |hdr| == REC_HDR && 0 <= msgSeq < 0x1_0000 && 0 < total <= MAX_MSG
    requires s[..11] == hdr[..11]
    requires s[11] == (HS_HDR + total) / 0x100 && s[12] == (HS_HDR + total) % 0x100 && s[13] == 0x01
    requires s[14] == s[22] == total / 0x1_0000 && s[15] == s[23] == total / 0x100 % 0x100
    requires s[16] == s[24] == total % 0x100
    requires s[17] == msgSeq / 0x100 && s[18] == msgSeq % 0x100 && s[19] == s[20] == s[21] == 0
    ensures s == RebuiltHeader(hdr, msgSeq, total)
  {
    assert s[11..13] == U16Bytes(HS_HDR + total) && s[13..14] == [0x01] && s[14..17] == U24Bytes(total);
    assert s[17..19] == U16Bytes(msgSeq) && s[19..22] == [0, 0, 0] && s[22..] == U24Bytes(total);
    hide U16Bytes, U24Bytes;
    assert s == s[..11] + s[11..13] + s[13..14] + s[14..17] + s[17..19] + s[19..22] + s[22..];
  }

  class Bio {
    var chBuf: array?<Byte>
    var chCap: int
    var chLen: int
    var chPos: int
    var chTotal: int
    var chGot: int
    var chMsgSeq: int
    var chRecHdr: seq<Byte>
    var chActive: bool

    ghost predicate Shape()
      reads this
    {
      && (if chBuf == null then chCap == 0 else 0 < chCap == chBuf.Length)
      && 0 <= chPos <= chLen <= chCap
      && (chActive ==>
          && chLen == chPos
          && 0 < chTotal <= MAX_MSG && BufferNeed(chTotal) <= chCap
          && 0 <= chMsgSeq < 0x1_0000
          && |chRecHdr| == REC_HDR && chRecHdr[0] == 0x16)
    }

    ghost function View(): Reasm
      requires Shape()
      reads this, chBuf
    {
      Reasm(
        if chActive then Gathering(chMsgSeq, chRecHdr, Cells(chBuf[..], chTotal)) else Idle,
        if chPos < chLen then Some(chBuf[chPos..chLen]) else None,
        chCap)
    }

    /** The byte counter is the number of set mask bits, and an open assembly lacks some byte. */
    ghost predicate Inv()
      reads this, chBuf
    {
      Shape() && Valid(View()) && (chActive ==> chGot == Count(Cells(chBuf[..], chTotal)))
    }

    constructor ()
      ensures Inv() && View() == Reasm(Idle, None, 0) && chBuf == null
    {
      chBuf := null;
      chCap, chLen, chPos, chTotal, chGot, chMsgSeq := 0, 0, 0, 0, 0, 0;
      chRecHdr := [];
      chActive := false;
    }

    method ReasmReset()
      modifies this`chTotal, this`chGot, this`chMsgSeq, this`chActive
      ensures !chActive
    {
      chTotal, chGot, chMsgSeq := 0, 0, 0;
      chActive := false;
    }

    method PendingClear()
      modifies this`chLen, this`chPos
      ensures chLen == 0 && chPos == 0
    {
      chLen, chPos := 0, 0;
    }

    method ReasmFree()
      modifies this
      ensures Inv() && View() == Reasm(Idle, None, 0) && chBuf == null
    {
      chBuf := null;
      chCap := 0;
      PendingClear();
      ReasmReset();
    }

    /** dtls_srtp_ch_ensure_msg_buf; `alloc` says whether malloc succeeds. */
    method EnsureMsgBuf(total: int, alloc: bool) returns (ok: bool)
      requires Inv() && 0 <= total
      modifies this`chBuf, this`chCap, this`chLen, this`chPos
      ensures ok <==> 0 < total <= MAX_MSG && (BufferNeed(total) <= old(chCap) || alloc)
      ensures !ok ==> unchanged(this)
      ensures ok ==>
                && chBuf != null && chBuf.Length == chCap && BufferNeed(total) <= chCap
                && chCap == (if old(chCap) < BufferNeed(total) then BufferNeed(total) else old(chCap))
                && (fresh(chBuf) || chBuf == old(chBuf))
                && 0 <= chPos <= chLen <= chCap
    {
      var need := BODY + total + (total + 7) / 8;
      if total == 0 || total > MAX_MSG {
        return false;
      }
      if chBuf != null && chCap >= need {
        return true;
      }
      if !alloc {
        return false;
      }
      chBuf := new Byte[need];
      chCap := need;
      PendingClear();
      return true;
    }

    /** The start of an assembly: header saved, body and mask cleared. */
    method StartAssembly(d: seq<Byte>, total: int, msgSeq: int)
      requires chBuf != null && chBuf.Length == chCap && 0 < total && BufferNeed(total) <= chCap
      requires |d| >= REC_HDR
      modifies this`chLen, this`chPos, this`chRecHdr, this`chTotal, this`chMsgSeq, this`chGot, this`chActive, chBuf
      ensures chLen == 0 && chPos == 0 && chRecHdr == d[..REC_HDR] && chTotal == total && chMsgSeq == msgSeq
      ensures chGot == 0 && chActive && Cells(chBuf[..], total) == Blank(total)
    {
      PendingClear();
      chRecHdr := d[..REC_HDR];
      chTotal := total;
      chMsgSeq := msgSeq;
      chGot := 0;
      chActive := true;
      for k := BODY to BufferNeed(total)
        modifies chBuf
        invariant forall j :: BODY <= j < k ==> chBuf[j] == 0
      {
        chBuf[k] := 0;
      }
      BlankCells(chBuf[..], total);
    }

    /** The byte loop of add_fragment: an offset that is already marked keeps its byte. */
    method CopyFragment(off: int, data: seq<Byte>)
      requires chBuf != null && 0 < chTotal && BufferNeed(chTotal) <= chBuf.Length
      requires 0 <= off && off + |data| <= chTotal
      requires chGot == Count(Cells(chBuf[..], chTotal))
      modifies this`chGot, chBuf
      ensures Cells(chBuf[..], chTotal) == Absorb(old(Cells(chBuf[..], chTotal)), off, data)
      ensures chGot == Count(Cells(chBuf[..], chTotal))
    {
      ghost var cells0 := Cells(chBuf[..], chTotal);
      AbsorbNothing(cells0, off, data[..0]);
      hide Absorb, Cells, Count;
      for i := 0 to |data|
        invariant Cells(chBuf[..], chTotal) == Absorb(cells0, off, data[..i])
        invariant chGot == Count(Cells(chBuf[..], chTotal))
      {
        CopyByte(off + i, data[i]);
        AbsorbStep(cells0, off, data, i);
      }
      assert data[..|data|] == data;
    }

    method CopyByte(idx: int, v: Byte)
      requires chBuf != null && BufferNeed(chTotal) <= chBuf.Length && 0 <= idx < chTotal
      modifies this`chGot, chBuf
      ensures var c := old(Cells(chBuf[..], chTotal));
              && Cells(chBuf[..], chTotal) == (if c[idx].None? then c[idx := Some(v)] else c)
              && chGot == old(chGot) + (if c[idx].None? then 1 else 0)
              && (old(chGot) == Count(c) ==> chGot == Count(Cells(chBuf[..], chTotal)))
    {
      LayoutDisjoint(chTotal, idx, idx);
      var pos, bit := BODY + chTotal + idx / 8, idx % 8;
      ghost var buf, c := chBuf[..], Cells(chBuf[..], chTotal);
      if !Bit(chBuf[pos], bit) {
        WithBitInRange(chBuf[pos], bit, 8);
        CountSet(c, idx, v);
        hide Bit, WithBit, Count;
        MarkSetsCell(buf, buf[pos := WithBit(buf[pos], bit)][BODY + idx := v], chTotal, idx, v);
        chBuf[pos] := WithBit(chBuf[pos], bit);
        chBuf[BODY + idx] := v;
        chGot := chGot + 1;
        assert chBuf[..] == buf[pos := WithBit(buf[pos], bit)][BODY + idx := v];
      }
    }

    /** dtls_srtp_ch_normalize_legacy_version on the first `len` bytes of the buffer. */
    method NormalizeLegacyVersion(len: int)
      requires chBuf != null && 0 <= len <= chBuf.Length
      modifies chBuf
      ensures chBuf[..len] == Normalize(old(chBuf[..len]))
    {
      if len < BODY + 2 || chBuf[0] != 0x16 {
        return;
      }
      if chBuf[REC_HDR] != 0x01 {
        return;
      }
      if chBuf[1] == 0xfe && chBuf[2] == 0xff {
        chBuf[2] := 0xfd;
      }
      if chBuf[BODY] == 0xfe && chBuf[BODY + 1] == 0xff {
        chBuf[BODY + 1] := 0xfd;
      }
    }

    method CopyRecordHeader()
      requires chBuf != null && BODY <= chBuf.Length && |chRecHdr| == REC_HDR
      modifies chBuf
      ensures chBuf[..REC_HDR] == chRecHdr
      ensures forall j :: REC_HDR <= j < chBuf.Length ==> chBuf[j] == old(chBuf[j])
    {
      for k := 0 to REC_HDR
        invariant chBuf[..k] == chRecHdr[..k]
        invariant forall j :: REC_HDR <= j < chBuf.Length ==> chBuf[j] == old(chBuf[j])
      {
        chBuf[k] := chRecHdr[k];
      }
    }

    /** The header bytes of dtls_srtp_ch_finish, written in front of the body. */
    method WriteHeader()
      requires chBuf != null && 0 < chTotal <= MAX_MSG && BODY + chTotal <= chBuf.Length
      requires |chRecHdr| == REC_HDR && 0 <= chMsgSeq < 0x1_0000
      modifies chBuf
      ensures chBuf[..BODY] == RebuiltHeader(chRecHdr, chMsgSeq, chTotal)
      ensures chBuf[BODY..] == old(chBuf[BODY..])
    {
      var hsLen := HS_HDR + chTotal;
      hide RebuiltHeader;
      CopyRecordHeader();
      chBuf[11] := hsLen / 0x100;
      chBuf[12] := hsLen % 0x100;
      chBuf[13] := 0x01;
      chBuf[14] := chTotal / 0x1_0000;
      chBuf[15] := chTotal / 0x100 % 0x100;
      chBuf[16] := chTotal % 0x100;
      chBuf[17] := chMsgSeq / 0x100;
      chBuf[18] := chMsgSeq % 0x100;
      chBuf[19], chBuf[20], chBuf[21] := 0, 0, 0;
      chBuf[22] := chBuf[14];
      chBuf[23] := chBuf[15];
      chBuf[24] := chBuf[16];
      HeaderByBytes(chBuf[..BODY], chRecHdr, chMsgSeq, chTotal);
    }

    /** dtls_srtp_ch_finish */
    method Finish()
      requires Shape() && chActive && AllSet(Cells(chBuf[..], chTotal))
      modifies this`chLen, this`chPos, this`chTotal, this`chGot, this`chMsgSeq, this`chActive, chBuf
      ensures Inv()
      ensures View() == old(Reasm(Idle, Some(FinishedRecord(chRecHdr, chMsgSeq, Values(Cells(chBuf[..], chTotal)))), chCap))
    {
      var recLen := BODY + chTotal;
      ghost var m := Values(Cells(chBuf[..], chTotal));
      BodyIsValues(chBuf[..], chTotal);
      WriteHeader();
      assert chBuf[..recLen] == chBuf[..BODY] + m;
      NormalizeLegacyVersion(recLen);
      chLen := recLen;
      chPos := 0;
      ReasmReset();
    }

    /** The restart branch of add_fragment. */
    method Prepare(d: seq<Byte>, total: int, msgSeq: int, alloc: bool) returns (ok: bool)
      requires Inv() && IsChFragment(d) && total == Total(d) && msgSeq == MsgSeq(d)
      modifies this, chBuf
      ensures Inv() && ok == old(Target(View(), d, alloc)).Some?
      ensures View() == if ok then old(Target(View(), d, alloc)).value else old(View())
      ensures ok ==> chActive && chTotal == total && chMsgSeq == msgSeq
      ensures chBuf == old(chBuf) || fresh(chBuf)
    {
      hide Count, Cells, Blank;
      if !chActive || chMsgSeq != msgSeq || chTotal != total {
        ok := EnsureMsgBuf(total, alloc);
        if ok {
          StartAssembly(d, total, msgSeq);
          CountBlank(total);
        }
      } else {
        ok := true;
      }
    }

    /** The merging part of add_fragment. */
    method MergeFragment(d: seq<Byte>, off: int, len: int)
      requires Inv() && IsChFragment(d) && FragmentFits(d) && Continues(View(), d)
      requires off == FragOff(d) && len == FragLen(d)
      modifies this`chGot, this`chLen, this`chPos, this`chTotal, this`chMsgSeq, this`chActive, chBuf
      ensures Inv() && View() == old(Merge(View(), d))
    {
      hide Count, Absorb, Cells, AllSet, Values, FinishedRecord;
      ghost var cells := Absorb(Cells(chBuf[..], chTotal), off, FragData(d));
      CopyFragment(off, d[BODY..BODY + len]);
      CountFull(cells);
      if chGot >= chTotal {
        Finish();
      }
    }

    /** dtls_srtp_ch_add_fragment: 0, or -1 for a rejected fragment, which changes nothing. */
    method AddFragment(d: seq<Byte>, alloc: bool) returns (ret: int)
      requires Inv() && IsChFragment(d)
      modifies this, chBuf
      ensures Inv()
      ensures ret == if old(ClientHelloSpec.AddFragment(View(), d, alloc)).Some? then 0 else -1
      ensures View() == if ret == 0 then old(ClientHelloSpec.AddFragment(View(), d, alloc)).value else old(View())
      ensures chBuf == old(chBuf) || fresh(chBuf)
    {
      hide Valid, Count, Cells, Merge, Restart;
      var payload := U16(d, 11);
      assert payload >= HS_HDR && d[REC_HDR] == 0x01;  // the source's re-check never fires
      var total, msgSeq, off, len := U24(d, 14), U16(d, 17), U24(d, 19), U24(d, 22);
      if total == 0 || off + len > total || HS_HDR + len > payload {
        return -1;
      }
      ghost var s0 := View();
      var ok := Prepare(d, total, msgSeq, alloc);
      if !ok {
        return -1;
      }
      BlankIsValid(s0, d, alloc);
      MergeFragment(d, off, len);
      return 0;
    }

    /** dtls_srtp_ch_queue_datagram */
    method QueueDatagram(d: seq<Byte>, alloc: bool) returns (ret: int)
      requires Inv() && !chActive
      modifies this`chBuf, this`chCap, this`chLen, this`chPos, chBuf
      ensures Shape() && !chActive
      ensures ret == if |d| == 0 || |d| > MAX_MSG || (old(chCap) < |d| && !alloc) then -1 else 0
      ensures ret == -1 ==> View() == old(View())
      ensures ret == 0 ==> chBuf != null && chLen == |d| && chPos == 0 && chBuf[..chLen] == d
                           && chCap == (if old(chCap) < |d| then |d| else old(chCap))
      ensures chBuf == old(chBuf) || fresh(chBuf)
    {
      if |d| == 0 || |d| > MAX_MSG {
        return -1;
      }
      if chBuf == null || chCap < |d| {
        if !alloc {
          return -1;
        }
        chBuf := new Byte[|d|];
        chCap := |d|;
      }
      for k := 0 to |d|
        modifies chBuf
        invariant forall j :: 0 <= j < k ==> chBuf[j] == d[j]
      {
        chBuf[k] := d[k];
      }
      chLen := |d|;
      chPos := 0;
      return 0;
    }

    /** dtls_srtp_ch_handle_datagram */
    method HandleDatagram(d: seq<Byte>, alloc: bool) returns (ret: int)
      requires Inv()
      modifies this, chBuf
      ensures Inv() && (View(), ret) == old(Handle(View(), d, alloc))
      ensures chBuf == old(chBuf) || fresh(chBuf)
    {
      HandleValid(View(), d, alloc);
      if !(|d| >= REC_HDR && d[0] > 19 && d[0] < 64) {
        return if chActive then 0 else -1;
      }
      var recLen := U16(d, 11);
      var recSize := REC_HDR + recLen;
      if recSize > |d| {
        return if chActive then 0 else -1;
      }
      if d[0] == 0x16 && recLen >= HS_HDR {
        var total, off, len := U24(d, 14), U24(d, 19), U24(d, 22);
        if d[REC_HDR] == 0x01 && (off != 0 || len != total) {
          var r := AddFragment(d, alloc);
          if r < 0 {
            return 0;
          }
          return if chLen > chPos then 1 else 0;
        }
      }
      ReasmReset();
      var r := QueueDatagram(d, alloc);
      if r != 0 {
        return -1;
      }
      NormalizeLegacyVersion(chLen);
      return 1;
    }

    /** dtls_srtp_bio_serve_pending */
    method ServePending(buf: array<Byte>) returns (ret: int)
      requires Inv() && buf != chBuf
      modifies this, buf
      ensures Inv()
      ensures View() == old(ClientHelloSpec.ServePending(View(), buf.Length)).0
      ensures match old(ClientHelloSpec.ServePending(View(), buf.Length)).1
              case Record(bytes) => ret == |bytes| <= buf.Length && buf[..ret] == bytes
              case BufferTooSmall => ret == BUFFER_TOO_SMALL && buf[..] == old(buf[..])
              case WantRead => ret == WANT_READ && buf[..] == old(buf[..])
              case RecvFailed(_) => true
    {
      if chBuf == null || chPos >= chLen {
        return WANT_READ;
      }
      var avail := chLen - chPos;
      if buf.Length < avail {
        return BUFFER_TOO_SMALL;
      }
      for k := 0 to avail
        modifies buf
        invariant forall j :: 0 <= j < k ==> buf[j] == chBuf[chPos + j]
      {
        buf[k] := chBuf[chPos + k];
      }
      assert buf[..avail] == chBuf[chPos..chLen];
      chPos := chLen;
      if !chActive {
        ReasmFree();
      }
      return avail;
    }

    /** The receive loop of dtls_srtp_bio_recv; `ret` is its error return unless `ready`. */
    method Receive(incoming: seq<Udp>) returns (ready: bool, ret: int, pulls: nat)
      requires Inv() && View().pending.None?
      modifies this, chBuf
      ensures Inv() && (chBuf == old(chBuf) || fresh(chBuf))
      ensures var goal := old(Pull(View(), incoming, MAX_ATTEMPTS));
              && View() == goal.0 && pulls == goal.2 && ready == goal.1.Ready?
              && (goal.1.NotReady? ==> ret == WANT_READ) && (goal.1.Broken? ==> ret == goal.1.code)
    {
      hide Valid, Handle, Cells, Count, Pull;
      ghost var goal := Pull(View(), incoming, MAX_ATTEMPTS);
      pulls := 0;
      while true
        invariant Inv() && View().pending.None? && pulls < MAX_ATTEMPTS && pulls <= |incoming|
        invariant chBuf == old(chBuf) || fresh(chBuf)
        invariant var rest := Pull(View(), incoming[pulls..], MAX_ATTEMPTS - pulls);
                  goal == (rest.0, rest.1, rest.2 + pulls)
        decreases MAX_ATTEMPTS - pulls
      {
        PullRound(View(), incoming, pulls, MAX_ATTEMPTS - pulls);
        if pulls == |incoming| {
          return false, WANT_READ, pulls;
        }
        match incoming[pulls]
        case Failed(code) => return false, code, pulls + 1;
        case Nothing => return false, WANT_READ, pulls + 1;
        case Datagram(pkt, alloc) =>
          HandlePending(View(), pkt, alloc);
          var proc := HandleDatagram(pkt, alloc);
          pulls := pulls + 1;
          if proc > 0 {
            return true, 0, pulls;
          }
          if pulls >= MAX_ATTEMPTS {
            return false, WANT_READ, pulls;
          }
      }
    }

    /** dtls_srtp_bio_recv. `incoming` is what the UDP callback delivers, call by call, then nothing. */
    method BioRecv(buf: array<Byte>, incoming: seq<Udp>) returns (ret: int, pulls: nat)
      requires Inv() && buf != chBuf
      modifies this, chBuf, buf
      ensures Inv() && pulls <= MAX_ATTEMPTS
      ensures var goal := old(ClientHelloSpec.BioRecv(View(), buf.Length, incoming));
              && View() == goal.0 && pulls == goal.2
              && match goal.1
                 case Record(bytes) => ret == |bytes| <= buf.Length && buf[..ret] == bytes
                 case BufferTooSmall => ret == BUFFER_TOO_SMALL
                 case WantRead => ret == WANT_READ
                 case RecvFailed(code) => ret == code
    {
      hide Valid, Cells, Count, Pull, AfterPulls;
      BioRecvWhole(View(), buf.Length, incoming);
      if chPos < chLen && chBuf != null {
        pulls := 0;
        ret := ServePending(buf);
        return;
      }
      var ready;
      ready, ret, pulls := Receive(incoming);
      if ready {
        ret := ServePending(buf);
      }
    }
  }
}
