/**
 The RTP wrap and unwrap callbacks of `doorbell_local/main/webrtc.c`: after the 12-byte RTP header
 come the payload size, the payload, the tail size and a tail string `TAIL_<count>`.
 */
module RtpTransform {
  import opened Bytes

  const RTP_HDR := 12
  const MTU := 1300
  const FIRST_VIDEO_TYPE := 96

  /** The text "TAIL_". */
  const TAIL: seq<Byte> := [84, 65, 73, 76, 95]

  /** `%u`: the decimal digits of a count. */
  function Decimal(n: nat): (s: seq<Byte>)
    ensures 1 <= |s|
  {
    if n < 10 then [48 + n] else Decimal(n / 10) + [48 + n % 10]
  }

  /** The number that decimal digits stand for. */
  function Number(s: seq<Byte>): int
  {
    if s == [] then 0 else 10 * Number(s[..|s| - 1]) + (s[|s| - 1] as int - 48)
  }

  /** The digits are those of the count, without leading zeros. */
  lemma {:induction false} DecimalReadsBack(n: nat)
    ensures var s := Decimal(n);
            && Number(s) == n && (forall i :: 0 <= i < |s| ==> 48 <= s[i] <= 57)
            && (|s| > 1 ==> s[0] != 48) && (n > 0 ==> s[0] != 48)
  {
    if n < 10 {
      assert [48 + n][..0] == [];
      assert Number([]) == 0;
    } else {
      DecimalReadsBack(n / 10);
      var s := Decimal(n / 10) + [48 + n % 10];
      assert s[..|s| - 1] == Decimal(n / 10);
    }
  }

  /** The tail string with its terminating NUL. */
  function TailText(count: nat): (s: seq<Byte>)
    ensures |s| > |TAIL|
  {
    TAIL + Decimal(count) + [0]
  }

  /** The frame the sender builds. */
  function Wrapped(orig: seq<Byte>, count: nat): (w: seq<Byte>)
    requires RTP_HDR <= |orig| < UINT32 && |TailText(count)| < UINT32
    ensures |w| == |orig| + 8 + |TailText(count)|
  {
    orig[..RTP_HDR] + IntBytes(|orig| - RTP_HDR) + orig[RTP_HDR..] + IntBytes(|TailText(count)|) + TailText(count)
  }

  /** How a callback ends; `OutOfFrame` is an access outside the frame or the buffer it is given. */
  datatype SizeResult = Encoded(size: int) | NotSupported | BadData | OutOfFrame

  /** rtp_sender_get_encoded_size */
  function SenderSize(payloadType: int, origSize: nat, count: nat): SizeResult
  {
    var size := origSize + 8 + |TailText(count)|;
    if payloadType >= FIRST_VIDEO_TYPE || size > MTU then NotSupported else Encoded(size)
  }

  /** The payload size a frame claims to have. */
  function Claimed(data: seq<Byte>): (n: int)
    requires RTP_HDR + 4 <= |data|
    ensures 0 <= n < UINT32
  {
    ReadU32(data, RTP_HDR)
  }

  /** The offset behind both size fields, as the source's 32-bit sizes and addresses give it. */
  function TailAt(data: seq<Byte>): (n: int)
    requires RTP_HDR + 4 <= |data|
    ensures 0 <= n < UINT32
  {
    (RTP_HDR + Claimed(data) + 8) % UINT32
  }

  /**
   rtp_receiver_get_encoded_size on a 32-bit machine, where the sum of the sizes and the address of
   the tail size wrap round alike.
   */
  function ReceiverSize(payloadType: int, data: seq<Byte>): SizeResult
  {
    if payloadType >= FIRST_VIDEO_TYPE then NotSupported
    else if |data| < RTP_HDR + 4 then OutOfFrame
    else
      var sizeAt := (RTP_HDR + Claimed(data) + 4) % UINT32;
      if TailAt(data) > |data| then BadData
      else if sizeAt + 4 > |data| then OutOfFrame
      else
        var tail := ReadU32(data, sizeAt);
        if (RTP_HDR + Claimed(data) + 8 + tail) % UINT32 != |data| then BadData
        else Encoded((RTP_HDR + Claimed(data)) % UINT32)
  }

  /** Where the pieces of a wrapped frame lie. */
  lemma WrappedLayout(orig: seq<Byte>, count: nat)
    requires RTP_HDR <= |orig| <= MTU && |TailText(count)| <= MTU
    ensures var w, n := Wrapped(orig, count), |orig| - RTP_HDR;
            && w[..RTP_HDR] == orig[..RTP_HDR]
            && w[RTP_HDR..RTP_HDR + 4] == IntBytes(n)
            && w[RTP_HDR + 4..RTP_HDR + 4 + n] == orig[RTP_HDR..]
            && w[RTP_HDR + 4 + n..RTP_HDR + 8 + n] == IntBytes(|TailText(count)|)
            && w[RTP_HDR + 8 + n..] == TailText(count)
  {
    hide TailText, IntBytes;
  }

  /** The frame on the wire: 12 bytes of RTP header, payload size, payload, tail size, tail. */
  lemma FrameOnTheWire(orig: seq<Byte>, count: nat)
    requires 12 <= |orig| <= 1300 && |TailText(count)| <= 1300
    ensures var w, n := Wrapped(orig, count), |orig| - 12;
            && |w| == 12 + 4 + n + 4 + |TailText(count)|
            && w[..12] == orig[..12] && w[12..16] == IntBytes(n) && w[16..16 + n] == orig[12..]
            && w[16 + n..20 + n] == IntBytes(|TailText(count)|) && w[20 + n..] == TailText(count)
  {
    hide TailText, IntBytes, Wrapped;
    WrappedLayout(orig, count);
  }

  /** The receiver accepts what the sender built, and announces the original size. */
  lemma ReceiverSizesWrapped(payloadType: int, orig: seq<Byte>, count: nat)
    requires payloadType < FIRST_VIDEO_TYPE && RTP_HDR <= |orig|
    requires SenderSize(payloadType, |orig|, count).Encoded?
    ensures ReceiverSize(payloadType, Wrapped(orig, count)) == Encoded(|orig|)
    ensures SenderSize(payloadType, |orig|, count) == Encoded(|Wrapped(orig, count)|)
  {
    hide TailText, IntBytes, ReadU32;
    WrappedLayout(orig, count);
    var w, n := Wrapped(orig, count), |orig| - RTP_HDR;
    ReadBackU32(w, RTP_HDR, n);
    ReadBackU32(w, RTP_HDR + 4 + n, |TailText(count)|);
    hide Wrapped;
  }

  /** The sender announces exactly the frame it builds, unless it is video or above 1300 bytes. */
  lemma SenderAnnouncesWrapped(payloadType: int, orig: seq<Byte>, count: nat)
    requires RTP_HDR <= |orig| < UINT32 && |TailText(count)| < UINT32
    ensures SenderSize(payloadType, |orig|, count) ==
            if payloadType < 96 && |Wrapped(orig, count)| <= 1300 then Encoded(|Wrapped(orig, count)|) else NotSupported
  {
    hide TailText;
  }

  /** The tail is the mark, the count in decimal, and a NUL. */
  lemma TailReads(count: nat)
    ensures var t := TailText(count);
            && |t| > 6 && t[..5] == [84, 65, 73, 76, 95] && t[|t| - 1] == 0
            && Number(t[5..|t| - 1]) == count && forall i :: 5 <= i < |t| - 1 ==> 48 <= t[i] <= 57
  {
    DecimalReadsBack(count);
    var t := TailText(count);
    assert t[5..|t| - 1] == Decimal(count);
    assert forall i :: 5 <= i < |t| - 1 ==> t[i] == t[5..|t| - 1][i - 5];
  }

  // ---------------------------------------------------------------------------------------
  // What the receiver accepts
  // ---------------------------------------------------------------------------------------

  /** Header, payload, both sizes and tail fill the frame one behind the other. */
  predicate HoldsPieces(data: seq<Byte>)
    requires RTP_HDR + 4 <= |data|
  {
    var n := Claimed(data);
    RTP_HDR + n + 8 <= |data| && RTP_HDR + n + 8 + ReadU32(data, RTP_HDR + n + 4) == |data|
  }

  /**
   The claimed size is `m - 20` modulo 2^32, with 4 <= m <= |data|: the address of the tail size
   has wrapped round to `m - 4`, inside the frame, and what is stored there adds up.
   */
  predicate HoldsWrapped(data: seq<Byte>)
    requires RTP_HDR + 4 <= |data|
  {
    var m := Claimed(data) + RTP_HDR + 8 - UINT32;
    4 <= m <= |data| && m + ReadU32(data, m - 4) == |data|
  }

  /**
   The size callback reads outside the frame for exactly two families: frames too short to hold a
   payload size, and claimed sizes 2^32 - 20 to 2^32 - 17, for which the read begins up to four
   bytes before the frame.
   */
  lemma OutsideIff(payloadType: int, data: seq<Byte>)
    requires |data| < UINT32
    ensures ReceiverSize(payloadType, data).OutOfFrame? <==>
            && payloadType < FIRST_VIDEO_TYPE
            && (|data| < RTP_HDR + 4 || UINT32 - RTP_HDR - 8 <= Claimed(data) < UINT32 - RTP_HDR - 4)
  {
    hide ReadU32, Claimed;
  }

  /** It accepts a frame that holds its pieces, and one whose claimed size wraps round into it. */
  lemma AcceptedIff(payloadType: int, data: seq<Byte>)
    requires |data| < UINT32
    ensures ReceiverSize(payloadType, data).Encoded? <==>
            && payloadType < FIRST_VIDEO_TYPE && RTP_HDR + 4 <= |data|
            && (HoldsPieces(data) || HoldsWrapped(data))
    ensures ReceiverSize(payloadType, data).Encoded? ==>
              && ReceiverSize(payloadType, data).size == (RTP_HDR + Claimed(data)) % UINT32
              && TailAt(data) <= |data|
              && (HoldsPieces(data) <==> RTP_HDR + Claimed(data) + 8 <= |data|)
              && (HoldsPieces(data) <==> !HoldsWrapped(data))
              && (HoldsPieces(data) ==> TailAt(data) == RTP_HDR + Claimed(data) + 8)
  {
    hide ReadU32, Claimed;
  }

  /** Sixteen bytes are enough to make it read outside the frame. */
  lemma OutsideExample(payloadType: int, data: seq<Byte>)
    requires payloadType < FIRST_VIDEO_TYPE && |data| == RTP_HDR + 4
    requires data[RTP_HDR] == 0xEC && data[13] == data[14] == data[15] == 0xFF
    ensures ReceiverSize(payloadType, data).OutOfFrame?
  {
    OutsideIff(payloadType, data);
  }

  /** A frame of 24 bytes that is accepted, as a frame of no bytes, without holding its pieces. */
  lemma WrappedExample(payloadType: int, data: seq<Byte>)
    requires payloadType < FIRST_VIDEO_TYPE && |data| == 24
    requires data[RTP_HDR] == 0xF4 && data[13] == data[14] == data[15] == 0xFF
    requires data[4] == 0x10 && data[5] == data[6] == data[7] == 0
    ensures ReceiverSize(payloadType, data) == Encoded(0) && !HoldsPieces(data)
  {
    assert Claimed(data) == UINT32 - 12 && ReadU32(data, 4) == 16;
    AcceptedIff(payloadType, data);
    hide ReadU32, Claimed;
  }

  class Transformer {
    var frameCount: nat
    var errorCount: nat

    constructor ()
      ensures frameCount == 0 && errorCount == 0
    {
      frameCount, errorCount := 0, 0;
    }

    /** rtp_sender_transform into the buffer `out`; the counter wraps at 32 bits. */
    method Wrap(payloadType: int, orig: seq<Byte>, out: array<Byte>) returns (ret: SizeResult)
      requires SenderSize(payloadType, |orig|, frameCount) == Encoded(out.Length)
      modifies this`frameCount, out
      ensures errorCount == old(errorCount)
      ensures if |orig| < RTP_HDR then ret == NotSupported && frameCount == old(frameCount)
              else ret == Encoded(out.Length) && out[..] == Wrapped(orig, old(frameCount))
                   && frameCount == (old(frameCount) + 1) % UINT32
    {
      if payloadType >= FIRST_VIDEO_TYPE || |orig| < RTP_HDR {
        return NotSupported;
      }
      hide IntBytes, TailText;
      var tail := TailText(frameCount);
      var n := |orig| - RTP_HDR;
      var ofst := Put(out, 0, orig[..RTP_HDR]);
      ofst := Put(out, ofst, IntBytes(n));
      ofst := Put(out, ofst, orig[RTP_HDR..]);
      ofst := Put(out, ofst, IntBytes(|tail|));
      ofst := Put(out, ofst, tail);
      assert out[..] == out[..ofst];
      ret := Encoded(ofst);
      frameCount := (frameCount + 1) % UINT32;
    }

    /** One memcpy at the running offset. */
    method Put(out: array<Byte>, ofst: int, s: seq<Byte>) returns (next: int)
      requires 0 <= ofst && ofst + |s| <= out.Length
      modifies out
      ensures next == ofst + |s| && out[..next] == old(out[..ofst]) + s
    {
      for k := 0 to |s|
        invariant out[..ofst + k] == old(out[..ofst]) + s[..k]
      {
        out[ofst + k] := s[k];
      }
      next := ofst + |s|;
    }

    method LoadU32(data: array<Byte>, p: int) returns (n: int)
      requires 0 <= p && p + 4 <= data.Length
      ensures n == ReadU32(data[..], p)
    {
      n := Join(data[p], data[p + 1], data[p + 2], data[p + 3]);
    }

    /** strncmp with the tail mark: the number of bytes that agree. */
    method MatchTail(data: array<Byte>, ofst: int) returns (k: int)
      requires 0 <= ofst <= data.Length
      ensures 0 <= k <= |TAIL| && ofst + k <= data.Length && data[ofst..ofst + k] == TAIL[..k]
      ensures k == |TAIL| || ofst + k == data.Length || data[ofst + k] != TAIL[k]
    {
      k := 0;
      while k < |TAIL| && ofst + k < data.Length && data[ofst + k] == TAIL[k]
        invariant 0 <= k <= |TAIL| && ofst + k <= data.Length && data[ofst..ofst + k] == TAIL[..k]
      {
        k := k + 1;
      }
    }

    /** The memmove of the payload over its size field, front to back. */
    method Slide(data: array<Byte>, n: int)
      requires 0 <= n && RTP_HDR + 4 + n <= data.Length
      modifies data
      ensures data[..RTP_HDR + n] == old(data[..RTP_HDR] + data[RTP_HDR + 4..RTP_HDR + 4 + n])
    {
      ghost var was := data[..];
      for i := 0 to n
        invariant data[..RTP_HDR] == was[..RTP_HDR]
        invariant data[RTP_HDR..RTP_HDR + i] == was[RTP_HDR + 4..RTP_HDR + 4 + i]
        invariant data[RTP_HDR + i..] == was[RTP_HDR + i..]
      {
        assert data[RTP_HDR + 4 + i] == data[RTP_HDR + i..][4];
        data[RTP_HDR + i] := data[RTP_HDR + 4 + i];
        assert data[RTP_HDR + (i + 1)..] == data[RTP_HDR + i..][1..];
      }
      assert data[..RTP_HDR + n] == data[..RTP_HDR] + data[RTP_HDR..RTP_HDR + n];
    }

    /** The shared beginning: where the frame fails, if it does, and the payload size otherwise. */
    method Check(data: array<Byte>) returns (ret: SizeResult, n: int)
      requires RTP_HDR + 4 <= data.Length < UINT32 && TailAt(data[..]) <= data.Length
      requires HoldsPieces(data[..]) <==> RTP_HDR + Claimed(data[..]) + 8 <= data.Length
      modifies this
      ensures frameCount == (old(frameCount) + 1) % UINT32
      ensures ret == UnwrapResult(data[..]) && n == Claimed(data[..])
      ensures errorCount == (if ret.BadData? then (old(errorCount) + 1) % UINT32 else old(errorCount))
    {
      hide ReadU32, HoldsPieces;
      n := LoadU32(data, RTP_HDR);
      frameCount := (frameCount + 1) % UINT32;
      var ofst := (RTP_HDR + 8 + n) % UINT32;
      var k := MatchTail(data, ofst);
      MarkFound(data[..], ofst, k);
      if k < |TAIL| {
        if ofst + k < data.Length {
          errorCount := (errorCount + 1) % UINT32;
          return BadData, n;
        }
        return OutOfFrame, n;
      }
      return if RTP_HDR + 8 + n > data.Length then OutOfFrame else Encoded(RTP_HDR + n), n;
    }

    static lemma MarkFound(data: seq<Byte>, ofst: int, k: int)
      requires 0 <= ofst && 0 <= k <= |TAIL| && ofst + k <= |data| && data[ofst..ofst + k] == TAIL[..k]
      requires k == |TAIL| || ofst + k == |data| || data[ofst + k] != TAIL[k]
      ensures TAIL <= data[ofst..] <==> k == |TAIL|
      ensures k < |TAIL| ==> (data[ofst..] <= TAIL <==> ofst + k == |data|)
    {
      var tail := data[ofst..];
      assert tail[..k] == TAIL[..k];
      if k < |TAIL| && ofst + k < |data| {
        assert tail[k] != TAIL[k];
      } else if k < |TAIL| {
        assert tail == TAIL[..k];
      }
    }

    /**
     rtp_receiver_transform in place, on a frame that rtp_receiver_get_encoded_size accepted. Of a
     frame accepted through wrap-around, the memmove would take nearly 2^32 bytes.
     */
    method UnwrapInPlace(payloadType: int, data: array<Byte>) returns (ret: SizeResult)
      requires ReceiverSize(payloadType, data[..]).Encoded? && data.Length < UINT32
      modifies this, data
      ensures frameCount == (old(frameCount) + 1) % UINT32
      ensures ret == old(UnwrapResult(data[..]))
      ensures errorCount == (if ret.BadData? then (old(errorCount) + 1) % UINT32 else old(errorCount))
      ensures ret.Encoded? ==>
                var n := ret.size - RTP_HDR;
                && old(HoldsPieces(data[..])) && 0 <= n && RTP_HDR + 4 + n <= data.Length
                && data[..RTP_HDR + n] == old(data[..RTP_HDR] + data[RTP_HDR + 4..RTP_HDR + 4 + n])
      ensures !ret.Encoded? ==> data[..] == old(data[..])
    {
      AcceptedIff(payloadType, data[..]);
      hide ReadU32, ReceiverSize, TailAt, Claimed, HoldsPieces, HoldsWrapped, UnwrapResult;
      var n;
      ret, n := Check(data);
      if ret.Encoded? {
        EncodedHolds(data[..]);
        Slide(data, n);
      }
    }

    static lemma EncodedHolds(data: seq<Byte>)
      requires RTP_HDR + 4 <= |data| && TailAt(data) <= |data| && UnwrapResult(data).Encoded?
      ensures HoldsPieces(data) && UnwrapResult(data) == Encoded(RTP_HDR + Claimed(data))
      ensures RTP_HDR + Claimed(data) + 8 <= |data|
      ensures |data| < UINT32 ==> (RTP_HDR + Claimed(data)) % UINT32 == RTP_HDR + Claimed(data)
    {
      hide ReadU32, Claimed;
    }

    /** rtp_receiver_transform when the peer library hands it another buffer. */
    method UnwrapInto(payloadType: int, data: array<Byte>, out: array<Byte>) returns (ret: SizeResult)
      requires ReceiverSize(payloadType, data[..]) == Encoded(out.Length) && data.Length < UINT32 && data != out
      modifies this, out
      ensures frameCount == (old(frameCount) + 1) % UINT32
      ensures ret == UnwrapResult(data[..])
      ensures errorCount == (if ret.BadData? then (old(errorCount) + 1) % UINT32 else old(errorCount))
      ensures ret.Encoded? ==>
                var n := ret.size - RTP_HDR;
                && HoldsPieces(data[..]) && 0 <= n && RTP_HDR + 4 + n <= data.Length
                && ret.size == out.Length && out[..] == data[..RTP_HDR] + data[RTP_HDR + 4..RTP_HDR + 4 + n]
      ensures !ret.Encoded? ==> out[..] == old(out[..])
    {
      AcceptedIff(payloadType, data[..]);
      hide ReadU32, ReceiverSize, TailAt, Claimed, HoldsPieces, HoldsWrapped, UnwrapResult;
      var n;
      ret, n := Check(data);
      if ret.Encoded? {
        EncodedHolds(data[..]);
        CopyPieces(data[..], n, out);
      }
    }

    /** The two memcpy calls. */
    method CopyPieces(data: seq<Byte>, n: int, out: array<Byte>)
      requires 0 <= n && RTP_HDR + 4 + n <= |data| && out.Length == RTP_HDR + n
      modifies out
      ensures out[..] == data[..RTP_HDR] + data[RTP_HDR + 4..RTP_HDR + 4 + n]
    {
      var ofst := Put(out, 0, data[..RTP_HDR]);
      ofst := Put(out, ofst, data[RTP_HDR + 4..RTP_HDR + 4 + n]);
      assert out[..] == out[..ofst];
    }
  }

  /** What rtp_receiver_transform answers on an accepted frame. */
  function UnwrapResult(data: seq<Byte>): SizeResult
    requires RTP_HDR + 4 <= |data| && TailAt(data) <= |data|
  {
    var tail := data[TailAt(data)..];
    if !(TAIL <= tail) then (if tail <= TAIL then OutOfFrame else BadData)
    else if HoldsPieces(data) then Encoded(RTP_HDR + Claimed(data))
    else OutOfFrame
  }

  /** A frame without the mark where its tail should be is never unwrapped. */
  lemma UnmarkedIsRefused(data: seq<Byte>)
    requires RTP_HDR + 4 <= |data| && TailAt(data) <= |data|
    requires TailAt(data) + 5 > |data| || data[TailAt(data)..TailAt(data) + 5] != [84, 65, 73, 76, 95]
    ensures UnwrapResult(data).BadData? || UnwrapResult(data).OutOfFrame?
    ensures TailAt(data) + 5 <= |data| ==> UnwrapResult(data).BadData?
  {
    var at := TailAt(data);
    var tail := data[at..];
    if at + 5 <= |data| {
      assert tail[..5] == data[at..at + 5];
      assert |tail| == 5 ==> tail == tail[..5];
    }
    hide HoldsPieces, TailAt, Claimed;
  }

  /** A frame that holds its pieces and has the mark is unwrapped. */
  lemma MarkedIsUnwrapped(data: seq<Byte>)
    requires RTP_HDR + 4 <= |data| && HoldsPieces(data) && |data| < UINT32
    requires TailAt(data) + 5 <= |data| && data[TailAt(data)..TailAt(data) + 5] == [84, 65, 73, 76, 95]
    ensures UnwrapResult(data) == Encoded(RTP_HDR + Claimed(data))
  {
    var tail := data[TailAt(data)..];
    assert tail[..5] == data[TailAt(data)..TailAt(data) + 5];
    hide HoldsPieces, TailAt, Claimed;
  }

  /** What the receiver reads off a frame the sender built. */
  lemma WrappedFields(orig: seq<Byte>, count: nat)
    requires RTP_HDR <= |orig| <= MTU && |TailText(count)| <= MTU
    ensures var w := Wrapped(orig, count);
            && Claimed(w) == |orig| - RTP_HDR && HoldsPieces(w) && TailAt(w) == |orig| + 8
            && w[TailAt(w)..] == TailText(count)
  {
    hide TailText, IntBytes, ReadU32, Wrapped, HoldsPieces, TailAt, Claimed;
    WrappedLayout(orig, count);
    var w, n := Wrapped(orig, count), |orig| - RTP_HDR;
    ReadBackU32(w, RTP_HDR, n);
    ReadBackU32(w, RTP_HDR + 4 + n, |TailText(count)|);
    FieldsMean(w, n, |TailText(count)|);
  }

  lemma FieldsMean(w: seq<Byte>, n: int, tail: int)
    requires 0 <= n <= MTU && 0 <= tail <= MTU && |w| == RTP_HDR + n + 8 + tail
    requires ReadU32(w, RTP_HDR) == n && ReadU32(w, RTP_HDR + 4 + n) == tail
    ensures Claimed(w) == n && HoldsPieces(w) && TailAt(w) == RTP_HDR + n + 8
  {
    hide ReadU32;
  }

  /**
   From end to end: what the sender builds within the limit is accepted by the size callback, and
   unwrapping it in either way gives the original frame back.
   */
  lemma WrappedIsUnwrapped(payloadType: int, orig: seq<Byte>, count: nat)
    requires payloadType < FIRST_VIDEO_TYPE && RTP_HDR <= |orig|
    requires SenderSize(payloadType, |orig|, count).Encoded?
    ensures |orig| <= MTU && |TailText(count)| <= MTU
    ensures var w := Wrapped(orig, count);
            && ReceiverSize(payloadType, w) == Encoded(|orig|)
            && UnwrapResult(w) == Encoded(|orig|)
            && w[..RTP_HDR] + w[RTP_HDR + 4..RTP_HDR + 4 + (|orig| - RTP_HDR)] == orig
  {
    ReceiverSizesWrapped(payloadType, orig, count);
    WrappedFields(orig, count);
    UnwrapUndoesWrap(orig, count);
    var w := Wrapped(orig, count);
    assert w[TailAt(w)..TailAt(w) + 5] == w[TailAt(w)..][..5] == TAIL by {
      assert TailText(count)[..5] == TAIL;
    }
    MarkedIsUnwrapped(w);
    hide *;
  }

  /** The callbacks of both ends, one after the other, in place: the original, and no error counted. */
  method SendAndReceive(payloadType: int, orig: seq<Byte>, data: array<Byte>, sender: Transformer, receiver: Transformer)
    returns (ret: SizeResult)
    requires payloadType < FIRST_VIDEO_TYPE && RTP_HDR <= |orig|
    requires SenderSize(payloadType, |orig|, sender.frameCount) == Encoded(data.Length)
    modifies sender, receiver, data
    ensures ret == Encoded(|orig|) && |orig| <= data.Length && data[..|orig|] == orig
    ensures receiver.errorCount == old(receiver.errorCount)
  {
    hide *;
    WrappedIsUnwrapped(payloadType, orig, sender.frameCount);
    var sent := sender.Wrap(payloadType, orig, data);
    WrappedFits(orig, data[..]);
    ret := receiver.UnwrapInPlace(payloadType, data);
  }

  /** The same into another buffer. */
  method SendAndReceiveInto(payloadType: int, orig: seq<Byte>, data: array<Byte>, out: array<Byte>,
                            sender: Transformer, receiver: Transformer)
    returns (ret: SizeResult)
    requires payloadType < FIRST_VIDEO_TYPE && RTP_HDR <= |orig| == out.Length && data != out
    requires SenderSize(payloadType, |orig|, sender.frameCount) == Encoded(data.Length)
    modifies sender, receiver, data, out
    ensures ret == Encoded(|orig|) && out[..] == orig
    ensures receiver.errorCount == old(receiver.errorCount)
  {
    hide *;
    WrappedIsUnwrapped(payloadType, orig, sender.frameCount);
    var sent := sender.Wrap(payloadType, orig, data);
    WrappedFits(orig, data[..]);
    ret := receiver.UnwrapInto(payloadType, data, out);
  }

  lemma WrappedFits(orig: seq<Byte>, w: seq<Byte>)
    requires exists count: nat :: RTP_HDR <= |orig| <= MTU && |TailText(count)| <= MTU && w == Wrapped(orig, count)
    ensures |w| < UINT32
  {
    hide TailText;
  }

  /** What unwrapping leaves of a wrapped frame is the original frame. */
  lemma UnwrapUndoesWrap(orig: seq<Byte>, count: nat)
    requires RTP_HDR <= |orig| <= MTU && |TailText(count)| <= MTU
    ensures var w, n := Wrapped(orig, count), |orig| - RTP_HDR;
            && w[..RTP_HDR] + w[RTP_HDR + 4..RTP_HDR + 4 + n] == orig
            && TAIL <= w[RTP_HDR + 8 + n..]
  {
    WrappedLayout(orig, count);
    assert orig[..RTP_HDR] + orig[RTP_HDR..] == orig;
    assert TailText(count)[..|TAIL|] == TAIL;
  }
}
