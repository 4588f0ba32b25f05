/**
 The DTLS ClientHello reassembly BIO of `dtls_common.h` on plain values: which state each datagram
 leads to, and why any arrival order of the fragments of one message yields that message
 (sections 4.2.2 and 4.2.3 of RFC 6347).
 */
module ClientHelloSpec {
  import opened Bytes

  const REC_HDR := 13
  const HS_HDR := 12
  const BODY := REC_HDR + HS_HDR
  const MAX_MSG := 4096
  const MAX_ATTEMPTS := 8

  /** A byte of the message body: the first one received for its offset, if any. */
  type Cell = Option<Byte>

  datatype Assembly = Idle | Gathering(msgSeq: int, hdr: seq<Byte>, cells: seq<Cell>)

  /** `pending` is a whole datagram waiting to be served, `cap` the size of the heap buffer. */
  datatype Reasm = Reasm(asm: Assembly, pending: Option<seq<Byte>>, cap: int)

  // ---------------------------------------------------------------------------------------
  // Wire format
  // ---------------------------------------------------------------------------------------

  function U16(d: seq<Byte>, p: int): (n: int)
    requires 0 <= p && p + 2 <= |d|
    ensures 0 <= n < 0x1_0000
  {
    0x100 * d[p] as int + d[p + 1] as int
  }

  function U24(d: seq<Byte>, p: int): (n: int)
    requires 0 <= p && p + 3 <= |d|
    ensures 0 <= n < 0x100_0000
  {
    0x1_0000 * d[p] as int + 0x100 * d[p + 1] as int + d[p + 2] as int
  }

  function U16Bytes(n: int): (s: seq<Byte>)
    requires 0 <= n < 0x1_0000
    ensures |s| == 2 && U16(s, 0) == n
  {
    [n / 0x100, n % 0x100]
  }

  function U24Bytes(n: int): (s: seq<Byte>)
    requires 0 <= n < 0x100_0000
    ensures |s| == 3 && U24(s, 0) == n
  {
    [n / 0x1_0000, n / 0x100 % 0x100, n % 0x100]
  }

  predicate IsDtlsRecord(d: seq<Byte>)
  {
    |d| >= REC_HDR && 19 < d[0] < 64
  }

  /** A complete DTLS record at the front of the datagram. */
  predicate HasRecord(d: seq<Byte>)
  {
    IsDtlsRecord(d) && REC_HDR + U16(d, 11) <= |d|
  }

  predicate HasHandshake(d: seq<Byte>)
  {
    HasRecord(d) && d[0] == 0x16 && U16(d, 11) >= HS_HDR
  }

  function Total(d: seq<Byte>): int
    requires |d| >= BODY
  {
    U24(d, 14)
  }

  function MsgSeq(d: seq<Byte>): int
    requires |d| >= BODY
  {
    U16(d, 17)
  }

  function FragOff(d: seq<Byte>): int
    requires |d| >= BODY
  {
    U24(d, 19)
  }

  function FragLen(d: seq<Byte>): int
    requires |d| >= BODY
  {
    U24(d, 22)
  }

  /** The datagram starts with a proper fragment of a ClientHello. */
  predicate IsChFragment(d: seq<Byte>)
  {
    HasHandshake(d) && d[REC_HDR] == 0x01 && (FragOff(d) != 0 || FragLen(d) != Total(d))
  }

  /** The fragment lies inside the message and inside its record. */
  predicate FragmentFits(d: seq<Byte>)
    requires IsChFragment(d)
  {
    && Total(d) != 0
    && FragOff(d) + FragLen(d) <= Total(d)
    && HS_HDR + FragLen(d) <= U16(d, 11)
  }

  function FragData(d: seq<Byte>): (s: seq<Byte>)
    requires IsChFragment(d) && FragmentFits(d)
    ensures |s| == FragLen(d)
  {
    d[BODY..BODY + FragLen(d)]
  }

  /** dtls_srtp_ch_normalize_legacy_version: DTLS 1.0 version bytes become DTLS 1.2 in a ClientHello. */
  function Normalize(rec: seq<Byte>): (r: seq<Byte>)
    ensures |r| == |rec|
  {
    if |rec| < BODY + 2 || rec[0] != 0x16 || rec[REC_HDR] != 0x01 then rec
    else
      var r1 := if rec[1] == 0xfe && rec[2] == 0xff then rec[2 := 0xfd] else rec;
      if r1[BODY] == 0xfe && r1[BODY + 1] == 0xff then r1[BODY + 1 := 0xfd] else r1
  }

  /** What the version rewrite does to a ClientHello message. */
  function NormalizeBody(m: seq<Byte>): seq<Byte>
  {
    if |m| >= 2 && m[0] == 0xfe && m[1] == 0xff then m[1 := 0xfd] else m
  }

  /** The header of the rebuilt record, before the version rewrite. */
  function RebuiltHeader(hdr: seq<Byte>, msgSeq: int, total: int): (s: seq<Byte>)
    requires |hdr| == REC_HDR && 0 <= msgSeq < 0x1_0000 && 0 <= total <= MAX_MSG
    ensures |s| == BODY
  {
    hdr[..11] + U16Bytes(HS_HDR + total) + [0x01] + U24Bytes(total) + U16Bytes(msgSeq)
    + [0, 0, 0] + U24Bytes(total)
  }

  /** dtls_srtp_ch_finish: the unfragmented record for message `m`. */
  function FinishedRecord(hdr: seq<Byte>, msgSeq: int, m: seq<Byte>): seq<Byte>
    requires |hdr| == REC_HDR && 0 <= msgSeq < 0x1_0000 && |m| <= MAX_MSG
  {
    Normalize(RebuiltHeader(hdr, msgSeq, |m|) + m)
  }

  // ---------------------------------------------------------------------------------------
  // Cells
  // ---------------------------------------------------------------------------------------

  function Count(cells: seq<Cell>): (n: nat)
    ensures n <= |cells|
  {
    if cells == [] then 0 else (if cells[0].Some? then 1 else 0) + Count(cells[1..])
  }

  predicate AllSet(cells: seq<Cell>)
  {
    forall i :: 0 <= i < |cells| ==> cells[i].Some?
  }

  function Values(cells: seq<Cell>): (s: seq<Byte>)
    requires AllSet(cells)
    ensures |s| == |cells|
  {
    seq(|cells|, i requires 0 <= i < |cells| => cells[i].value)
  }

  function Blank(n: nat): (cells: seq<Cell>)
    ensures |cells| == n
  {
    seq(n, _ => None)
  }

  /** Bytes `data` arriving for offset `off`: a cell that is already set keeps its first byte. */
  function Absorb(cells: seq<Cell>, off: int, data: seq<Byte>): (r: seq<Cell>)
    requires 0 <= off && off + |data| <= |cells|
    ensures |r| == |cells|
  {
    seq(|cells|, i requires 0 <= i < |cells| =>
      if cells[i].None? && off <= i < off + |data| then Some(data[i - off]) else cells[i])
  }

  lemma {:induction false} CountFull(cells: seq<Cell>)
    ensures Count(cells) == |cells| <==> AllSet(cells)
  {
    if cells != [] {
      CountFull(cells[1..]);
      assert AllSet(cells) <==> cells[0].Some? && AllSet(cells[1..]);
    }
  }

  lemma {:induction false} CountBlank(n: nat)
    ensures Count(Blank(n)) == 0
  {
    if n != 0 {
      assert Blank(n)[1..] == Blank(n - 1);
      CountBlank(n - 1);
    }
  }

  lemma {:induction false} CountSet(cells: seq<Cell>, i: int, v: Byte)
    requires 0 <= i < |cells| && cells[i].None?
    ensures Count(cells[i := Some(v)]) == Count(cells) + 1
  {
    var cells' := cells[i := Some(v)];
    if i == 0 {
      assert cells'[1..] == cells[1..];
    } else {
      assert cells'[1..] == cells[1..][i - 1 := Some(v)];
      CountSet(cells[1..], i - 1, v);
    }
  }

  /** One more byte of a fragment, as the copy loop takes it. */
  lemma AbsorbStep(cells: seq<Cell>, off: int, data: seq<Byte>, i: int)
    requires 0 <= off && 0 <= i < |data| && off + |data| <= |cells|
    ensures var c := Absorb(cells, off, data[..i]);
            Absorb(cells, off, data[..i + 1]) ==
            if c[off + i].None? then c[off + i := Some(data[i])] else c
  {
  }

  // ---------------------------------------------------------------------------------------
  // Steps
  // ---------------------------------------------------------------------------------------

  predicate Valid(s: Reasm)
  {
    && 0 <= s.cap
    && (s.asm.Gathering? ==>
        && s.pending.None?
        && 0 <= s.asm.msgSeq < 0x1_0000
        && |s.asm.hdr| == REC_HDR && s.asm.hdr[0] == 0x16
        && 0 < |s.asm.cells| <= MAX_MSG
        && BufferNeed(|s.asm.cells|) <= s.cap
        && Count(s.asm.cells) < |s.asm.cells|)
  }

  /** Header, body and coverage mask of a message of `total` bytes, one behind the other. */
  function BufferNeed(total: int): int
  {
    BODY + total + (total + 7) / 8
  }

  /** dtls_srtp_ch_ensure_msg_buf plus the initialisation of a new assembly; None is a rejection. */
  function Restart(s: Reasm, d: seq<Byte>, alloc: bool): Option<Reasm>
    requires IsChFragment(d)
  {
    var need := BufferNeed(Total(d));
    if Total(d) == 0 || Total(d) > MAX_MSG || (s.cap < need && !alloc) then None
    else Some(Reasm(Gathering(MsgSeq(d), d[..REC_HDR], Blank(Total(d))), None,
                    if s.cap < need then need else s.cap))
  }

  /** The assembly goes on only with the same message number and length. */
  predicate Continues(s: Reasm, d: seq<Byte>)
    requires IsChFragment(d)
  {
    s.asm.Gathering? && s.asm.msgSeq == MsgSeq(d) && |s.asm.cells| == Total(d)
  }

  /** The state whose cells a fitting fragment is merged into. */
  function Target(s: Reasm, d: seq<Byte>, alloc: bool): Option<Reasm>
    requires IsChFragment(d)
  {
    if Continues(s, d) then Some(s) else Restart(s, d, alloc)
  }

  /** Merging a fragment, and rebuilding the record when coverage is complete. */
  function Merge(t: Reasm, d: seq<Byte>): Reasm
    requires Valid(t) && IsChFragment(d) && FragmentFits(d) && Continues(t, d)
  {
    var cells := Absorb(t.asm.cells, FragOff(d), FragData(d));
    if Count(cells) >= |cells| then
      CountFull(cells);
      Reasm(Idle, Some(FinishedRecord(t.asm.hdr, t.asm.msgSeq, Values(cells))), t.cap)
    else
      t.(asm := t.asm.(cells := cells))
  }

  /** dtls_srtp_ch_add_fragment; None is a rejection. */
  function AddFragment(s: Reasm, d: seq<Byte>, alloc: bool): Option<Reasm>
    requires Valid(s) && IsChFragment(d)
  {
    if !FragmentFits(d) then None
    else
      var target := Target(s, d, alloc);
      if target.None? then None
      else
        BlankIsValid(s, d, alloc);
        Some(Merge(target.value, d))
  }

  lemma BlankIsValid(s: Reasm, d: seq<Byte>, alloc: bool)
    requires Valid(s) && IsChFragment(d) && Target(s, d, alloc).Some?
    ensures Valid(Target(s, d, alloc).value) && Continues(Target(s, d, alloc).value, d)
  {
    if !Continues(s, d) {
      CountBlank(Total(d));
    }
  }

  /** dtls_srtp_ch_queue_datagram followed by the version rewrite. */
  function QueueDatagram(s: Reasm, d: seq<Byte>, alloc: bool): (Reasm, int)
  {
    var s1 := s.(asm := Idle);
    if |d| == 0 || |d| > MAX_MSG || (s.cap < |d| && !alloc) then (s1, -1)
    else (s1.(pending := Some(Normalize(d)), cap := if s.cap < |d| then |d| else s.cap), 1)
  }

  /** dtls_srtp_ch_handle_datagram: 1 is "ready to serve", 0 "need more", -1 "ignore". */
  function Handle(s: Reasm, d: seq<Byte>, alloc: bool): (Reasm, int)
    requires Valid(s)
  {
    if !HasRecord(d) then (s, if s.asm.Gathering? then 0 else -1)
    else if IsChFragment(d) then
      var r := AddFragment(s, d, alloc);
      if r.None? then (s, 0) else (r.value, if r.value.pending.Some? then 1 else 0)
    else QueueDatagram(s, d, alloc)
  }

  lemma HandleValid(s: Reasm, d: seq<Byte>, alloc: bool)
    requires Valid(s)
    ensures Valid(Handle(s, d, alloc).0)
    ensures Handle(s, d, alloc).1 == 1 ==> Handle(s, d, alloc).0.pending.Some?
  {
    if IsChFragment(d) && FragmentFits(d) && Target(s, d, alloc).Some? {
      BlankIsValid(s, d, alloc);
    }
  }

  // ---------------------------------------------------------------------------------------
  // Runs of datagrams that carry one message
  // ---------------------------------------------------------------------------------------

  /** `d` carries a fragment of message `m`, numbered `q`. */
  predicate Carries(d: seq<Byte>, m: seq<Byte>, q: int)
  {
    && IsChFragment(d) && FragmentFits(d)
    && Total(d) == |m| && MsgSeq(d) == q
    && FragData(d) == m[FragOff(d)..FragOff(d) + FragLen(d)]
  }

  /** `d` is no DTLS record, a truncated one, or a fragment that is rejected whatever the state. */
  predicate Noise(d: seq<Byte>)
  {
    !HasRecord(d) || (IsChFragment(d) && (!FragmentFits(d) || Total(d) > MAX_MSG))
  }

  predicate AllAbout(ds: seq<seq<Byte>>, m: seq<Byte>, q: int)
  {
    forall i :: 0 <= i < |ds| ==> Carries(ds[i], m, q) || Noise(ds[i])
  }

  /** Byte `i` of the message has arrived. */
  predicate Covered(ds: seq<seq<Byte>>, m: seq<Byte>, q: int, i: int)
  {
    exists k :: 0 <= k < |ds| && Carries(ds[k], m, q) && FragOff(ds[k]) <= i < FragOff(ds[k]) + FragLen(ds[k])
  }

  predicate Complete(ds: seq<seq<Byte>>, m: seq<Byte>, q: int)
  {
    forall i :: 0 <= i < |m| ==> Covered(ds, m, q, i)
  }

  predicate Started(ds: seq<seq<Byte>>, m: seq<Byte>, q: int)
  {
    exists k :: 0 <= k < |ds| && Carries(ds[k], m, q)
  }

  /** The record header of the first fragment to arrive. */
  function FirstHeader(ds: seq<seq<Byte>>, m: seq<Byte>, q: int): (h: seq<Byte>)
    requires Started(ds, m, q)
    ensures |h| == REC_HDR
    decreases |ds|
  {
    if Carries(ds[0], m, q) then ds[0][..REC_HDR]
    else
      assert Started(ds[1..], m, q) by {
        var k :| 0 <= k < |ds| && Carries(ds[k], m, q);
        assert ds[1..][k - 1] == ds[k];
      }
      FirstHeader(ds[1..], m, q)
  }

  function CellsSoFar(ds: seq<seq<Byte>>, m: seq<Byte>, q: int): (cells: seq<Cell>)
    ensures |cells| == |m|
  {
    seq(|m|, i requires 0 <= i < |m| => if Covered(ds, m, q, i) then Some(m[i]) else None)
  }

  /** No assembly is open, or one for a message with another number or length. */
  predicate Unrelated(base: Assembly, m: seq<Byte>, q: int)
  {
    base.Gathering? ==> base.msgSeq != q || |base.cells| != |m|
  }

  /** What the assembly `base` must have become after `ds`, as long as coverage is not complete. */
  function Expected(base: Assembly, ds: seq<seq<Byte>>, m: seq<Byte>, q: int): Assembly
  {
    if Started(ds, m, q) then Gathering(q, FirstHeader(ds, m, q), CellsSoFar(ds, m, q)) else base
  }

  /** Feeds the datagrams in turn; allocations succeed. The int is the last result, or -1. */
  function Feed(s: Reasm, ds: seq<seq<Byte>>): (r: (Reasm, int))
    requires Valid(s)
    ensures Valid(r.0)
    decreases |ds|
  {
    if ds == [] then (s, -1)
    else
      var n := |ds| - 1;
      HandleValid(Feed(s, ds[..n]).0, ds[n], true);
      Handle(Feed(s, ds[..n]).0, ds[n], true)
  }

  lemma CoveredSnoc(ds: seq<seq<Byte>>, d: seq<Byte>, m: seq<Byte>, q: int, i: int)
    ensures Covered(ds + [d], m, q, i) <==>
            Covered(ds, m, q, i) || (Carries(d, m, q) && FragOff(d) <= i < FragOff(d) + FragLen(d))
  {
    var ds' := ds + [d];
    if Covered(ds, m, q, i) {
      var k :| 0 <= k < |ds| && Carries(ds[k], m, q) && FragOff(ds[k]) <= i < FragOff(ds[k]) + FragLen(ds[k]);
      assert ds'[k] == ds[k];
    }
    assert ds'[|ds|] == d;
    hide Carries;
  }

  lemma StartedSnoc(ds: seq<seq<Byte>>, d: seq<Byte>, m: seq<Byte>, q: int)
    ensures Started(ds + [d], m, q) <==> Started(ds, m, q) || Carries(d, m, q)
  {
    var ds' := ds + [d];
    if Started(ds, m, q) {
      var k :| 0 <= k < |ds| && Carries(ds[k], m, q);
      assert ds'[k] == ds[k];
    }
    assert ds'[|ds|] == d;
  }

  lemma {:induction false} FirstHeaderSnoc(ds: seq<seq<Byte>>, d: seq<Byte>, m: seq<Byte>, q: int)
    requires Started(ds + [d], m, q)
    ensures FirstHeader(ds + [d], m, q) ==
            if Started(ds, m, q) then FirstHeader(ds, m, q) else d[..REC_HDR]
    decreases |ds|
  {
    hide Carries;
    StartedSnoc(ds, d, m, q);
    if ds == [] {
      assert ds + [d] == [d];
    } else if !Carries(ds[0], m, q) {
      assert (ds + [d])[1..] == ds[1..] + [d];
      assert ds == [ds[0]] + ds[1..];
      StartedTail(ds, m, q);
      StartedTail(ds + [d], m, q);
      FirstHeaderSnoc(ds[1..], d, m, q);
    }
  }

  lemma StartedTail(ds: seq<seq<Byte>>, m: seq<Byte>, q: int)
    requires ds != [] && !Carries(ds[0], m, q)
    ensures Started(ds, m, q) <==> Started(ds[1..], m, q)
  {
    if Started(ds, m, q) {
      var k :| 0 <= k < |ds| && Carries(ds[k], m, q);
      assert ds[1..][k - 1] == ds[k];
    }
    if Started(ds[1..], m, q) {
      var k :| 0 <= k < |ds[1..]| && Carries(ds[1..][k], m, q);
      assert ds[k + 1] == ds[1..][k];
    }
  }

  /** Merging a fragment of the message extends coverage by exactly that fragment. */
  lemma CellsSnoc(ds: seq<seq<Byte>>, d: seq<Byte>, m: seq<Byte>, q: int)
    requires Carries(d, m, q)
    ensures Absorb(CellsSoFar(ds, m, q), FragOff(d), FragData(d)) == CellsSoFar(ds + [d], m, q)
  {
    var off, data := FragOff(d), FragData(d);
    var a, b := Absorb(CellsSoFar(ds, m, q), off, data), CellsSoFar(ds + [d], m, q);
    forall i | 0 <= i < |m| ensures a[i] == b[i] {
      CoveredSnoc(ds, d, m, q, i);
    }
  }

  lemma NothingCovered(ds: seq<seq<Byte>>, m: seq<Byte>, q: int)
    requires !Started(ds, m, q)
    ensures CellsSoFar(ds, m, q) == Blank(|m|)
    ensures Complete(ds, m, q) ==> m == []
  {
    forall i | 0 <= i < |m| ensures !Covered(ds, m, q, i) {
      hide Carries;
    }
    if m != [] {
      assert !Covered(ds, m, q, 0);
    }
  }

  lemma CompleteIsFull(ds: seq<seq<Byte>>, m: seq<Byte>, q: int)
    ensures Complete(ds, m, q) <==> Count(CellsSoFar(ds, m, q)) == |m|
    ensures Complete(ds, m, q) ==> AllSet(CellsSoFar(ds, m, q)) && Values(CellsSoFar(ds, m, q)) == m
  {
    hide Covered;
    var cells := CellsSoFar(ds, m, q);
    CountFull(cells);
    assert forall i :: 0 <= i < |m| ==> (cells[i].Some? <==> Covered(ds, m, q, i));
  }

  lemma NoiseChangesNothing(s: Reasm, d: seq<Byte>, alloc: bool)
    requires Valid(s) && Noise(d)
    ensures Handle(s, d, alloc).0 == s && Handle(s, d, alloc).1 <= 0
  {
  }

  lemma CompleteSnoc(ds: seq<seq<Byte>>, d: seq<Byte>, m: seq<Byte>, q: int)
    requires Complete(ds, m, q)
    ensures Complete(ds + [d], m, q)
  {
    forall i | 0 <= i < |m| ensures Covered(ds + [d], m, q, i) {
      CoveredSnoc(ds, d, m, q, i);
    }
  }

  lemma NoiseCarriesNothing(d: seq<Byte>, m: seq<Byte>, q: int)
    requires Noise(d) && |m| <= MAX_MSG
    ensures !Carries(d, m, q)
  {
  }

  /** A datagram that carries nothing leaves coverage, header and expectation alone. */
  lemma IdleSnoc(base: Assembly, ds: seq<seq<Byte>>, d: seq<Byte>, m: seq<Byte>, q: int)
    requires !Carries(d, m, q)
    ensures Expected(base, ds + [d], m, q) == Expected(base, ds, m, q)
    ensures Complete(ds + [d], m, q) <==> Complete(ds, m, q)
  {
    forall i ensures Covered(ds + [d], m, q, i) <==> Covered(ds, m, q, i) {
      CoveredSnoc(ds, d, m, q, i);
    }
    StartedSnoc(ds, d, m, q);
    if Started(ds, m, q) {
      FirstHeaderSnoc(ds, d, m, q);
    }
    hide Covered, Started, Carries, FirstHeader;
    assert CellsSoFar(ds + [d], m, q) == CellsSoFar(ds, m, q);
  }

  /** The first fragment opens the assembly, a later one finds it open. */
  lemma TargetIsExpected(base: Assembly, s: Reasm, ds: seq<seq<Byte>>, d: seq<Byte>, m: seq<Byte>, q: int)
    requires Valid(s) && s.asm == Expected(base, ds, m, q) && Unrelated(base, m, q) && Carries(d, m, q)
    requires 0 < |m| <= MAX_MSG && s.pending.None?
    ensures Started(ds + [d], m, q)
    ensures var t := Target(s, d, true);
            && t.Some? && t.value.pending.None?
            && t.value.asm == Gathering(q, FirstHeader(ds + [d], m, q), CellsSoFar(ds, m, q))
  {
    StartedSnoc(ds, d, m, q);
    FirstHeaderSnoc(ds, d, m, q);
    hide FirstHeader, Started, Blank;
    if !Started(ds, m, q) {
      NothingCovered(ds, m, q);
    }
  }

  lemma GatherStep(base: Assembly, s: Reasm, ds: seq<seq<Byte>>, d: seq<Byte>, m: seq<Byte>, q: int)
    requires Valid(s) && s.asm == Expected(base, ds, m, q) && Unrelated(base, m, q) && s.pending.None?
    requires 0 < |m| <= MAX_MSG && 0 <= q < 0x1_0000 && (Carries(d, m, q) || Noise(d))
    requires !Complete(ds, m, q)
    ensures var (t, ret) := Handle(s, d, true);
            if Complete(ds + [d], m, q) then
              && ret == 1 && t.asm.Idle? && Started(ds + [d], m, q)
              && t.pending == Some(FinishedRecord(FirstHeader(ds + [d], m, q), q, m))
            else
              ret <= 0 && t.pending.None? && t.asm == Expected(base, ds + [d], m, q)
  {
    hide Complete, Started, FirstHeader, CellsSoFar, FinishedRecord, Absorb, Count, Values;
    if Noise(d) {
      NoiseChangesNothing(s, d, true);
      NoiseCarriesNothing(d, m, q);
      IdleSnoc(base, ds, d, m, q);
    } else {
      TargetIsExpected(base, s, ds, d, m, q);
      BlankIsValid(s, d, true);
      CellsSnoc(ds, d, m, q);
      CompleteIsFull(ds + [d], m, q);
      hide Target;
      assert Handle(s, d, true).0 == Merge(Target(s, d, true).value, d);
    }
  }

  /**
   For any order, overlap and duplication of the fragments of `m`, mixed with noise, and whatever
   other message was being assembled before: a record is produced exactly when coverage first
   becomes complete, and it is the unfragmented record of `m`.
   */
  lemma {:induction false} ReassemblyExact(s: Reasm, ds: seq<seq<Byte>>, m: seq<Byte>, q: int)
    requires Valid(s) && Unrelated(s.asm, m, q) && s.pending.None?
    requires 0 < |m| <= MAX_MSG && 0 <= q < 0x1_0000 && AllAbout(ds, m, q)
    requires ds == [] || !Complete(ds[..|ds| - 1], m, q)
    ensures var (t, ret) := Feed(s, ds);
            && (ret == 1 <==> Complete(ds, m, q))
            && (if Complete(ds, m, q) then
                  && t.asm.Idle? && Started(ds, m, q)
                  && t.pending == Some(FinishedRecord(FirstHeader(ds, m, q), q, m))
                else
                  ret <= 0 && t.pending.None? && t.asm == Expected(s.asm, ds, m, q))
    decreases |ds|
  {
    hide Handle, Carries, Noise, Complete, Started, FirstHeader, FinishedRecord, Valid, CellsSoFar;
    if ds == [] {
      NothingSent(s.asm, m, q);
    } else {
      var n := |ds| - 1;
      var ds0, d := ds[..n], ds[n];
      assert ds == ds0 + [d];
      if n > 0 {
        var ds1, d1 := ds0[..n - 1], ds0[n - 1];
        assert ds0 == ds1 + [d1];
        if Complete(ds1, m, q) {
          CompleteSnoc(ds1, d1, m, q);
        }
      }
      ReassemblyExact(s, ds0, m, q);
      GatherStep(s.asm, Feed(s, ds0).0, ds0, d, m, q);
    }
  }

  lemma NothingSent(base: Assembly, m: seq<Byte>, q: int)
    requires m != []
    ensures !Started([], m, q) && !Complete([], m, q) && Expected(base, [], m, q) == base
  {
    NothingCovered([], m, q);
  }

  /** The finished record re-parses as one unfragmented ClientHello carrying the same message. */
  lemma FinishedReparses(hdr: seq<Byte>, q: int, m: seq<Byte>)
    requires |hdr| == REC_HDR && hdr[0] == 0x16 && 0 <= q < 0x1_0000 && 0 < |m| <= MAX_MSG
    ensures var r := FinishedRecord(hdr, q, m);
            && HasHandshake(r) && |r| == REC_HDR + U16(r, 11) == BODY + |m|
            && r[REC_HDR] == 0x01 && !IsChFragment(r)
            && Total(r) == |m| && MsgSeq(r) == q && FragOff(r) == 0 && FragLen(r) == |m|
            && r[BODY..] == NormalizeBody(m)
            && r[3..11] == hdr[3..11]
            && Normalize(r) == r
  {
  }

  // ---------------------------------------------------------------------------------------
  // Fragments that disagree
  // ---------------------------------------------------------------------------------------

  /** A datagram, and whether memory can be had when it needs some. */
  datatype Packet = Packet(bytes: seq<Byte>, alloc: bool)

  /** The state after the packets have been handled in turn. */
  function Through(s: Reasm, ps: seq<Packet>): (t: Reasm)
    requires Valid(s)
    ensures Valid(t)
    decreases |ps|
  {
    if ps == [] then s
    else
      var n := |ps| - 1;
      HandleValid(Through(s, ps[..n]), ps[n].bytes, ps[n].alloc);
      Handle(Through(s, ps[..n]), ps[n].bytes, ps[n].alloc).0
  }

  /** With memory for all, this is the run of the datagrams. */
  lemma {:induction false} FeedIsThrough(s: Reasm, ds: seq<seq<Byte>>, ps: seq<Packet>)
    requires Valid(s) && |ps| == |ds| && forall i :: 0 <= i < |ds| ==> ps[i] == Packet(ds[i], true)
    ensures Through(s, ps) == Feed(s, ds).0
    decreases |ds|
  {
    hide Valid, Handle;
    if ds != [] {
      FeedIsThrough(s, ds[..|ds| - 1], ps[..|ps| - 1]);
    }
  }

  /** A fragment of message number `q` of `n` bytes. */
  predicate BelongsTo(d: seq<Byte>, q: int, n: int)
  {
    IsChFragment(d) && FragmentFits(d) && MsgSeq(d) == q && Total(d) == n
  }

  /** The byte it brings for offset `i`, if any. */
  function ByteIn(d: seq<Byte>, q: int, n: int, i: int): Cell
  {
    if BelongsTo(d, q, n) && FragOff(d) <= i < FragOff(d) + FragLen(d) then Some(FragData(d)[i - FragOff(d)]) else None
  }

  /** The byte for offset `i` in the first fragment that has one. */
  function FirstByte(ps: seq<Packet>, q: int, n: int, i: int): Cell
  {
    if ps == [] then None
    else if ByteIn(ps[0].bytes, q, n, i).Some? then ByteIn(ps[0].bytes, q, n, i)
    else FirstByte(ps[1..], q, n, i)
  }

  lemma {:induction false} FirstByteSnoc(ps: seq<Packet>, p: Packet, q: int, n: int, i: int)
    ensures FirstByte(ps + [p], q, n, i) ==
            if FirstByte(ps, q, n, i).Some? then FirstByte(ps, q, n, i) else ByteIn(p.bytes, q, n, i)
  {
    hide ByteIn;
    if ps == [] {
      assert [] + [p] == [p] && [p][1..] == [];
    } else {
      assert (ps + [p])[1..] == ps[1..] + [p];
      FirstByteSnoc(ps[1..], p, q, n, i);
    }
  }

  /** The message numbered `q` of `n` bytes is being assembled. */
  predicate Open(a: Assembly, q: int, n: int)
  {
    a.Gathering? && a.msgSeq == q && |a.cells| == n
  }

  /** A fragment that would open an assembly for which there is no memory. */
  predicate Starved(s: Reasm, p: Packet)
  {
    && IsChFragment(p.bytes) && FragmentFits(p.bytes) && !Open(s.asm, MsgSeq(p.bytes), Total(p.bytes))
    && s.cap < BufferNeed(Total(p.bytes)) && !p.alloc
  }

  predicate Rejected(s: Reasm, p: Packet)
  {
    Noise(p.bytes) || Starved(s, p)
  }

  /** What the assembly had before the packets from `b` on: nothing, unless it is older than the run. */
  function Base(s: Reasm, ps: seq<Packet>, b: nat, q: int, n: nat): (cells: seq<Cell>)
    requires Valid(s) && b <= |ps|
    ensures |cells| == n
  {
    var a := Through(s, ps[..b]).asm;
    if Open(a, q, n) then a.cells else Blank(n)
  }

  /**
   The assembly of message `q` of `n` bytes under header `hdr` goes back to packet `b`, whose
   fragment opened it, or to before the run. It has been open ever since: every other packet was
   one of its fragments or rejected.
   */
  predicate OpenSince(s: Reasm, ps: seq<Packet>, b: nat, q: int, n: nat, hdr: seq<Byte>)
    requires Valid(s)
  {
    && b <= |ps|
    && (forall k :: b < k < |ps| ==> Open(Through(s, ps[..k]).asm, q, n))
    && (forall k :: b <= k < |ps| ==> BelongsTo(ps[k].bytes, q, n) || Rejected(Through(s, ps[..k]), ps[k]))
    && (if Open(Through(s, ps[..b]).asm, q, n) then b == 0 && hdr == s.asm.hdr
        else
          && b < |ps| && BelongsTo(ps[b].bytes, q, n) && !Rejected(Through(s, ps[..b]), ps[b])
          && hdr == ps[b].bytes[..REC_HDR])
  }

  /** Every cell is the first byte that came for its offset since `b`. */
  predicate FirstBytes(s: Reasm, ps: seq<Packet>, b: nat, q: int, cells: seq<Cell>)
    requires Valid(s) && b <= |ps|
  {
    forall i :: 0 <= i < |cells| ==>
      cells[i] == var was := Base(s, ps, b, q, |cells|)[i];
                  if was.Some? then was else FirstByte(ps[b..], q, |cells|, i)
  }

  /** The cells once fragment `d` is merged, complete or not, and the record header that goes with them. */
  function Merged(a: Assembly, d: seq<Byte>): (cells: seq<Cell>)
    requires IsChFragment(d) && FragmentFits(d)
    ensures |cells| == Total(d)
  {
    Absorb(if Open(a, MsgSeq(d), Total(d)) then a.cells else Blank(Total(d)), FragOff(d), FragData(d))
  }

  function HeaderKept(a: Assembly, d: seq<Byte>): seq<Byte>
    requires IsChFragment(d)
  {
    if Open(a, MsgSeq(d), Total(d)) then a.hdr else d[..REC_HDR]
  }

  /** A datagram either is rejected, or resets the assembly, or is merged. */
  lemma HandleCases(s: Reasm, p: Packet)
    requires Valid(s)
    ensures var d, (t, ret) := p.bytes, Handle(s, p.bytes, p.alloc);
            if Rejected(s, p) then t == s && ret <= 0
            else if !IsChFragment(d) then t.asm.Idle?
            else
              && FragmentFits(d) && Total(d) <= MAX_MSG
              && var cells := Merged(s.asm, d);
                 && |HeaderKept(s.asm, d)| == REC_HDR
                 && if AllSet(cells) then
                      && ret == 1 && t.asm.Idle?
                      && t.pending == Some(FinishedRecord(HeaderKept(s.asm, d), MsgSeq(d), Values(cells)))
                    else ret == 0 && t.asm == Gathering(MsgSeq(d), HeaderKept(s.asm, d), cells)
  {
    var d := p.bytes;
    if Noise(d) {
      NoiseChangesNothing(s, d, p.alloc);
    } else if Starved(s, p) {
      hide Count, Blank, Absorb, Values, FinishedRecord, AllSet;
    } else if IsChFragment(d) {
      BlankIsValid(s, d, p.alloc);
      CountFull(Merged(s.asm, d));
      hide Count, Blank, Absorb, Values, FinishedRecord, AllSet;
    }
  }

  lemma OpenSnoc(s: Reasm, ps: seq<Packet>, p: Packet, b: nat, q: int, n: nat, hdr: seq<Byte>)
    requires Valid(s) && OpenSince(s, ps, b, q, n, hdr) && Open(Through(s, ps).asm, q, n)
    requires BelongsTo(p.bytes, q, n) || Rejected(Through(s, ps), p)
    ensures OpenSince(s, ps + [p], b, q, n, hdr)
  {
    hide Through, BelongsTo, Rejected, Valid, Open;
    PrefixesKept(ps, p);
  }

  lemma FirstBytesSnoc(s: Reasm, ps: seq<Packet>, p: Packet, b: nat, q: int, cells: seq<Cell>, cells': seq<Cell>)
    requires Valid(s) && b <= |ps| && FirstBytes(s, ps, b, q, cells) && |cells'| == |cells|
    requires forall i :: 0 <= i < |cells| ==>
               cells'[i] == if cells[i].Some? then cells[i] else ByteIn(p.bytes, q, |cells|, i)
    ensures FirstBytes(s, ps + [p], b, q, cells')
  {
    hide Through, Valid, Open, FirstByte, ByteIn;
    assert (ps + [p])[..b] == ps[..b] && (ps + [p])[b..] == ps[b..] + [p];
    forall i | 0 <= i < |cells|
      ensures FirstByte((ps + [p])[b..], q, |cells|, i) ==
              if FirstByte(ps[b..], q, |cells|, i).Some? then FirstByte(ps[b..], q, |cells|, i)
              else ByteIn(p.bytes, q, |cells|, i)
    {
      FirstByteSnoc(ps[b..], p, q, |cells|, i);
    }
  }

  /** A packet that is rejected while the message is being assembled. */
  lemma RejectedKeepsFirst(s: Reasm, ps: seq<Packet>, p: Packet, b: nat, a: Assembly)
    requires Valid(s) && a == Through(s, ps).asm && a.Gathering? && Rejected(Through(s, ps), p)
    requires OpenSince(s, ps, b, a.msgSeq, |a.cells|, a.hdr) && FirstBytes(s, ps, b, a.msgSeq, a.cells)
    ensures OpenSince(s, ps + [p], b, a.msgSeq, |a.cells|, a.hdr)
    ensures FirstBytes(s, ps + [p], b, a.msgSeq, a.cells)
  {
    hide Through, BelongsTo, FirstBytes, FirstByte, ByteIn, Rejected, Valid;
    BoundsOfOpen(s, ps, b, a.msgSeq, |a.cells|, a.hdr);
    LimitOfOpen(Through(s, ps));
    OpenSnoc(s, ps, p, b, a.msgSeq, |a.cells|, a.hdr);
    hide OpenSince;
    forall i | 0 <= i < |a.cells| ensures ByteIn(p.bytes, a.msgSeq, |a.cells|, i).None? {
      RejectedBringsNothing(Through(s, ps), p, a.msgSeq, |a.cells|, i);
    }
    FirstBytesSnoc(s, ps, p, b, a.msgSeq, a.cells, a.cells);
  }

  lemma BoundsOfOpen(s: Reasm, ps: seq<Packet>, b: nat, q: int, n: nat, hdr: seq<Byte>)
    requires Valid(s) && OpenSince(s, ps, b, q, n, hdr)
    ensures b <= |ps|
  {
  }

  lemma LimitOfOpen(s: Reasm)
    requires Valid(s) && s.asm.Gathering?
    ensures |s.asm.cells| <= MAX_MSG
  {
  }

  lemma PrefixesKept(ps: seq<Packet>, p: Packet)
    ensures forall k :: 0 <= k <= |ps| ==> (ps + [p])[..k] == ps[..k]
    ensures (ps + [p])[..|ps|] == ps
  {
  }

  lemma RejectedBringsNothing(s: Reasm, p: Packet, q: int, n: int, i: int)
    requires Rejected(s, p) && Open(s.asm, q, n) && n <= MAX_MSG
    ensures ByteIn(p.bytes, q, n, i).None?
  {
  }

  /** A fragment of the message that is being assembled. */
  lemma MergeKeepsFirst(s: Reasm, ps: seq<Packet>, p: Packet, b: nat, a: Assembly)
    requires Valid(s) && a == Through(s, ps).asm
    requires IsChFragment(p.bytes) && FragmentFits(p.bytes) && Open(a, MsgSeq(p.bytes), Total(p.bytes))
    requires OpenSince(s, ps, b, a.msgSeq, |a.cells|, a.hdr) && FirstBytes(s, ps, b, a.msgSeq, a.cells)
    ensures OpenSince(s, ps + [p], b, a.msgSeq, |a.cells|, a.hdr)
    ensures FirstBytes(s, ps + [p], b, a.msgSeq, Merged(a, p.bytes))
  {
    assert BelongsTo(p.bytes, a.msgSeq, |a.cells|);
    hide Through, FirstByte, FirstBytes, IsChFragment, FragmentFits, BelongsTo, Rejected, ByteIn, OpenSince, Valid, Merged;
    BoundsOfOpen(s, ps, b, a.msgSeq, |a.cells|, a.hdr);
    MergedCell(a, p.bytes);
    OpenSnoc(s, ps, p, b, a.msgSeq, |a.cells|, a.hdr);
    FirstBytesSnoc(s, ps, p, b, a.msgSeq, a.cells, Merged(a, p.bytes));
  }

  lemma MergedCell(a: Assembly, d: seq<Byte>)
    requires IsChFragment(d) && FragmentFits(d) && Open(a, MsgSeq(d), Total(d))
    ensures forall i :: 0 <= i < Total(d) ==>
              Merged(a, d)[i] == if a.cells[i].Some? then a.cells[i] else ByteIn(d, MsgSeq(d), Total(d), i)
  {
    hide IsChFragment, FragmentFits;
  }

  lemma FreshMerge(a: Assembly, p: Packet, i: int)
    requires IsChFragment(p.bytes) && FragmentFits(p.bytes) && !Open(a, MsgSeq(p.bytes), Total(p.bytes))
    requires 0 <= i < Total(p.bytes)
    ensures Merged(a, p.bytes)[i] == ByteIn(p.bytes, MsgSeq(p.bytes), Total(p.bytes), i)
            == FirstByte([p], MsgSeq(p.bytes), Total(p.bytes), i)
  {
    hide Open;
    assert [p][1..] == [] && FirstByte([], MsgSeq(p.bytes), Total(p.bytes), i) == None;
  }

  /** A fragment that opens an assembly. */
  lemma OpeningIsFirst(s: Reasm, ps: seq<Packet>, p: Packet)
    requires Valid(s) && IsChFragment(p.bytes) && FragmentFits(p.bytes) && !Rejected(Through(s, ps), p)
    requires !Open(Through(s, ps).asm, MsgSeq(p.bytes), Total(p.bytes))
    ensures OpenSince(s, ps + [p], |ps|, MsgSeq(p.bytes), Total(p.bytes), p.bytes[..REC_HDR])
    ensures FirstBytes(s, ps + [p], |ps|, MsgSeq(p.bytes), Merged(Through(s, ps).asm, p.bytes))
  {
    var a, d := Through(s, ps).asm, p.bytes;
    assert BelongsTo(d, MsgSeq(d), Total(d));
    hide Through, FragmentFits, FragOff, FragLen, FragData, Open, Merged, ByteIn, FirstByte, BelongsTo, Rejected, Valid;
    assert (ps + [p])[..|ps|] == ps && (ps + [p])[|ps|..] == [p];
    forall i | 0 <= i < Total(d) ensures Merged(a, d)[i] == FirstByte([p], MsgSeq(d), Total(d), i) {
      FreshMerge(a, p, i);
    }
  }

  lemma {:induction false} MergedFirst(s: Reasm, ps: seq<Packet>, p: Packet) returns (b: nat)
    requires Valid(s) && IsChFragment(p.bytes) && FragmentFits(p.bytes) && !Rejected(Through(s, ps), p)
    ensures var a, d := Through(s, ps).asm, p.bytes;
            && OpenSince(s, ps + [p], b, MsgSeq(d), Total(d), HeaderKept(a, d))
            && FirstBytes(s, ps + [p], b, MsgSeq(d), Merged(a, d))
    decreases |ps|, 1
  {
    hide Through, Merged, OpenSince, FirstBytes, FragmentFits, Valid, HeaderKept, Rejected;
    var a, d := Through(s, ps).asm, p.bytes;
    HeaderCases(a, d);
    if Open(a, MsgSeq(d), Total(d)) {
      b := FirstByteWins(s, ps);
      MergeKeepsFirst(s, ps, p, b, a);
    } else {
      OpeningIsFirst(s, ps, p);
      b := |ps|;
    }
  }

  lemma HeaderCases(a: Assembly, d: seq<Byte>)
    requires IsChFragment(d)
    ensures HeaderKept(a, d) == if Open(a, MsgSeq(d), Total(d)) then a.hdr else d[..REC_HDR]
  {
  }

  lemma ThroughSnoc(s: Reasm, ps: seq<Packet>)
    requires Valid(s) && ps != []
    ensures var n := |ps| - 1;
            && ps == ps[..n] + [ps[n]] && Valid(Through(s, ps[..n]))
            && Through(s, ps) == Handle(Through(s, ps[..n]), ps[n].bytes, ps[n].alloc).0
  {
    hide Handle;
  }

  /**
   For every run of datagrams, with fragments that disagree, rejected ones, failing allocations,
   restarts, foreign datagrams and whole records in between: while a message is being assembled,
   each covered byte is the first one that came for its offset since this assembly began, at
   packet `b`.
   */
  lemma {:induction false} FirstByteWins(s: Reasm, ps: seq<Packet>) returns (b: nat)
    requires Valid(s) && Through(s, ps).asm.Gathering?
    ensures var a := Through(s, ps).asm;
            OpenSince(s, ps, b, a.msgSeq, |a.cells|, a.hdr) && FirstBytes(s, ps, b, a.msgSeq, a.cells)
    decreases |ps|, 0
  {
    if ps == [] {
      b := 0;
      AlreadyOpen(s);
    } else {
      hide Through, Handle, Merged, OpenSince, FirstBytes, Rejected, IsChFragment, FragmentFits, HeaderKept, AllSet;
      var n := |ps| - 1;
      var t, p := Through(s, ps[..n]), ps[n];
      ThroughSnoc(s, ps);
      HandleCases(t, p);
      if Rejected(t, p) {
        b := FirstByteWins(s, ps[..n]);
        RejectedKeepsFirst(s, ps[..n], p, b, t.asm);
      } else {
        b := MergedFirst(s, ps[..n], p);
      }
    }
  }

  lemma AlreadyOpen(s: Reasm)
    requires Valid(s) && s.asm.Gathering?
    ensures OpenSince(s, [], 0, s.asm.msgSeq, |s.asm.cells|, s.asm.hdr)
    ensures FirstBytes(s, [], 0, s.asm.msgSeq, s.asm.cells)
  {
    var none: seq<Packet> := [];
    assert none[..0] == [] && none[0..] == [];
    assert Through(s, []) == s;
    hide Through;
  }

  /** And the record rebuilt when a fragment completes the message is made of those first bytes. */
  lemma FinishedOfFirstBytes(s: Reasm, ps: seq<Packet>, p: Packet) returns (b: nat, hdr: seq<Byte>, m: seq<Byte>)
    requires Valid(s) && IsChFragment(p.bytes) && Handle(Through(s, ps), p.bytes, p.alloc).1 == 1
    ensures |hdr| == REC_HDR && |m| == Total(p.bytes) <= MAX_MSG
    ensures Handle(Through(s, ps), p.bytes, p.alloc).0.pending == Some(FinishedRecord(hdr, MsgSeq(p.bytes), m))
    ensures OpenSince(s, ps + [p], b, MsgSeq(p.bytes), Total(p.bytes), hdr)
    ensures FirstBytes(s, ps + [p], b, MsgSeq(p.bytes), seq(|m|, i requires 0 <= i < |m| => Some(m[i])))
  {
    var a, d := Through(s, ps).asm, p.bytes;
    HandleCases(Through(s, ps), p);
    hide Through, Handle, OpenSince, FirstBytes, Rejected, FragmentFits, HeaderKept, FinishedRecord, Merged;
    b := MergedFirst(s, ps, p);
    hdr, m := HeaderKept(a, d), Values(Merged(a, d));
    assert seq(|m|, i requires 0 <= i < |m| => Some(m[i])) == Merged(a, d);
  }

  // ---------------------------------------------------------------------------------------
  // Datagrams on the wire
  // ---------------------------------------------------------------------------------------

  /** A 16- and a 24-bit number, most significant byte first. */
  function Be16(n: int): (s: seq<Byte>)
    requires 0 <= n < 0x1_0000
    ensures |s| == 2
  {
    [n / 0x100, n % 0x100]
  }

  function Be24(n: int): (s: seq<Byte>)
    requires 0 <= n < 0x100_0000
    ensures |s| == 3
  {
    [n / 0x1_0000, n / 0x100 % 0x100, n % 0x100]
  }

  /**
   A handshake record as section 4.2.2 of RFC 6347 lays it out: `start` holds the content type, the
   version, the epoch and the sequence number; a ClientHello has message type 1.
   */
  function HandshakeRecord(start: seq<Byte>, kind: Byte, total: int, msgSeq: int, off: int, data: seq<Byte>): (d: seq<Byte>)
    requires |start| == 11 && 0 <= total < 0x100_0000 && 0 <= msgSeq < 0x1_0000 && 0 <= off < 0x100_0000
    requires |data| < 0x1_0000 - HS_HDR
    ensures |d| == BODY + |data|
  {
    start + Be16(HS_HDR + |data|) + [kind] + Be24(total) + Be16(msgSeq) + Be24(off) + Be24(|data|) + data
  }

  /** The fields read back. */
  lemma RecordFields(start: seq<Byte>, kind: Byte, total: int, msgSeq: int, off: int, data: seq<Byte>)
    requires |start| == 11 && 0 <= total < 0x100_0000 && 0 <= msgSeq < 0x1_0000 && 0 <= off < 0x100_0000
    requires |data| < 0x1_0000 - HS_HDR
    ensures var d := HandshakeRecord(start, kind, total, msgSeq, off, data);
            && d[..11] == start && U16(d, 11) == HS_HDR + |data| && d[REC_HDR] == kind
            && Total(d) == total && MsgSeq(d) == msgSeq && FragOff(d) == off && FragLen(d) == |data|
            && d[BODY..] == data
  {
    var d := HandshakeRecord(start, kind, total, msgSeq, off, data);
    assert d[11] == (HS_HDR + |data|) / 0x100 && d[12] == (HS_HDR + |data|) % 0x100;
    assert d[14] == total / 0x1_0000 && d[15] == total / 0x100 % 0x100 && d[16] == total % 0x100;
    assert d[17] == msgSeq / 0x100 && d[18] == msgSeq % 0x100;
    assert d[19] == off / 0x1_0000 && d[20] == off / 0x100 % 0x100 && d[21] == off % 0x100;
    assert d[22] == |data| / 0x1_0000 && d[23] == |data| / 0x100 % 0x100 && d[24] == |data| % 0x100;
    hide HandshakeRecord;
    Split24(total);
    Split24(off);
    Split24(|data|);
  }

  lemma Split24(n: int)
    requires 0 <= n < 0x100_0000
    ensures 0x1_0000 * (n / 0x1_0000) + 0x100 * (n / 0x100 % 0x100) + n % 0x100 == n
  {
    assert n / 0x1_0000 == n / 0x100 / 0x100;
  }

  /** Each proper part of a message, sent as a record of its own, carries that part of it. */
  lemma PartIsCarried(start: seq<Byte>, m: seq<Byte>, q: int, off: int, len: int)
    requires |start| == 11 && start[0] == 0x16 && 0 < |m| <= MAX_MSG && 0 <= q < 0x1_0000
    requires 0 <= off && 0 <= len && off + len <= |m| && len < |m|
    ensures var d := HandshakeRecord(start, 0x01, |m|, q, off, m[off..off + len]);
            && Carries(d, m, q) && FragOff(d) == off && FragLen(d) == len && d[..11] == start
  {
    RecordFields(start, 0x01, |m|, q, off, m[off..off + len]);
    hide HandshakeRecord, Total, MsgSeq, FragOff, FragLen, U16, U24;
    var d := HandshakeRecord(start, 0x01, |m|, q, off, m[off..off + len]);
    assert d[BODY..BODY + len] == d[BODY..][..len];
  }

  /** A fragment that runs over its message or its record, or of an empty or too long message. */
  predicate Misfit(d: seq<Byte>)
    requires |d| >= BODY
  {
    || Total(d) == 0 || Total(d) > MAX_MSG
    || FragOff(d) + FragLen(d) > Total(d) || HS_HDR + FragLen(d) > U16(d, 11)
  }

  /** What goes in is not a DTLS record, or is cut off, or a ClientHello fragment that does not fit: no effect. */
  lemma NoEffect(s: Reasm, d: seq<Byte>, alloc: bool)
    requires Valid(s)
    requires || |d| < 13 || d[0] <= 19 || d[0] >= 64
             || 13 + (0x100 * d[11] as int + d[12] as int) > |d|
             || (d[0] == 0x16 && 0x100 * d[11] as int + d[12] as int >= 12 && d[13] == 0x01
                 && (FragOff(d) != 0 || FragLen(d) != Total(d)) && Misfit(d))
    ensures Handle(s, d, alloc).0 == s && Handle(s, d, alloc).1 <= 0
    ensures Handle(s, d, alloc).1 == -1 ==> !s.asm.Gathering?
  {
    if !HasRecord(d) {
    } else {
      assert IsChFragment(d) && (!FragmentFits(d) || Total(d) > MAX_MSG);
      NoiseChangesNothing(s, d, alloc);
    }
  }

  /** The finished record byte by byte: the first 11 of the record header kept, the message behind 25. */
  lemma FinishedBytes(hdr: seq<Byte>, q: int, m: seq<Byte>)
    requires |hdr| == REC_HDR && hdr[0] == 0x16 && 0 <= q < 0x1_0000 && 0 < |m| <= MAX_MSG
    ensures var r := FinishedRecord(hdr, q, m);
            && |r| == 25 + |m|
            && (forall i :: 0 <= i < 11 ==>
                  r[i] == if i == 2 && |m| >= 2 && hdr[1] == 0xfe && hdr[2] == 0xff then 0xfd else hdr[i])
            && (forall i :: 0 <= i < |m| ==>
                  r[25 + i] == if i == 1 && m[0] == 0xfe && m[1] == 0xff then 0xfd else m[i])
  {
    var w := RebuiltHeader(hdr, q, |m|) + m;
    assert w[..11] == hdr[..11] && w[13] == 0x01 && w[25..] == m;
    NormalizeBytes(w);
    hide RebuiltHeader, Normalize;
    forall i | 0 <= i < 11 ensures w[i] == hdr[i] {
      assert w[..11][i] == hdr[..11][i];
    }
    forall i | 0 <= i < |m| ensures w[25 + i] == m[i] {
      assert w[25..][i] == m[i];
    }
  }

  /** A complete DTLS record that is no ClientHello fragment, read off its bytes. */
  predicate IsWhole(d: seq<Byte>)
  {
    && 13 <= |d| && 19 < d[0] < 64 && 13 + (0x100 * d[11] as int + d[12] as int) <= |d|
    && (d[0] == 0x16 && 0x100 * d[11] as int + d[12] as int >= 12 && d[13] == 0x01 ==> FragOff(d) == 0 && FragLen(d) == Total(d))
  }

  /** Byte `i` of a datagram once DTLS 1.0 has become DTLS 1.2 in record and message of a ClientHello. */
  function NewByte(d: seq<Byte>, i: int): Byte
    requires 0 <= i < |d|
  {
    if |d| >= 27 && d[0] == 0x16 && d[13] == 0x01
       && ((i == 2 && d[1] == 0xfe && d[2] == 0xff) || (i == 26 && d[25] == 0xfe && d[26] == 0xff)) then 0xfd
    else d[i]
  }

  lemma NormalizeBytes(d: seq<Byte>)
    ensures |Normalize(d)| == |d| && forall i :: 0 <= i < |d| ==> Normalize(d)[i] == NewByte(d, i)
  {
  }

  /**
   Such a datagram ends any assembly and becomes pending whole, with all the records in it and byte
   for byte but for the version rewrite, as long as it is no longer than 4096 bytes and memory can
   be had; if not, the result is -1 and what was pending stays.
   */
  lemma WholeDatagramIsQueued(s: Reasm, d: seq<Byte>, alloc: bool)
    requires Valid(s) && IsWhole(d)
    ensures var (t, ret) := Handle(s, d, alloc);
            && t.asm.Idle?
            && if |d| <= 4096 && (|d| <= s.cap || alloc) then
                 && ret == 1 && t.pending.Some? && |t.pending.value| == |d|
                 && forall i :: 0 <= i < |d| ==> t.pending.value[i] == NewByte(d, i)
               else
                 ret == -1 && t.pending == s.pending && t.cap == s.cap
  {
    assert HasRecord(d) && !IsChFragment(d);
    NormalizeBytes(d);
    hide Normalize, NewByte;
  }

  /** When a datagram is reported as ignored. */
  lemma IgnoredIff(s: Reasm, d: seq<Byte>, alloc: bool)
    requires Valid(s)
    ensures Handle(s, d, alloc).1 == -1 <==>
            if IsWhole(d) then |d| > 4096 || (|d| > s.cap && !alloc)
            else !HasRecord(d) && !s.asm.Gathering?
  {
    if IsWhole(d) {
      WholeDatagramIsQueued(s, d, alloc);
    } else if HasRecord(d) {
      assert IsChFragment(d);
    }
    hide Valid, Normalize;
  }

  // ---------------------------------------------------------------------------------------
  // The BIO
  // ---------------------------------------------------------------------------------------

  /** What one call of the UDP receive callback brings; `alloc` says whether memory was available. */
  datatype Udp = Failed(code: int) | Nothing | Datagram(bytes: seq<Byte>, alloc: bool)

  datatype Served = Record(bytes: seq<Byte>) | BufferTooSmall | WantRead | RecvFailed(code: int)

  /** dtls_srtp_bio_serve_pending */
  function ServePending(s: Reasm, len: nat): (Reasm, Served)
  {
    if s.pending.None? then (s, WantRead)
    else if len < |s.pending.value| then (s, BufferTooSmall)
    else (if s.asm.Idle? then Reasm(Idle, None, 0) else s.(pending := None), Record(s.pending.value))
  }

  /** How the receive loop ends. */
  datatype LoopEnd = Ready | NotReady | Broken(code: int)

  /** The receive loop of dtls_srtp_bio_recv with `left` attempts to go; also counts its pulls. */
  function Pull(s: Reasm, incoming: seq<Udp>, left: nat): (Reasm, LoopEnd, nat)
    requires Valid(s)
    decreases left
  {
    if left == 0 || incoming == [] then (s, NotReady, 0)
    else
      match incoming[0]
      case Failed(code) => (s, Broken(code), 1)
      case Nothing => (s, NotReady, 1)
      case Datagram(bytes, alloc) =>
        HandleValid(s, bytes, alloc);
        var (t, ret) := Handle(s, bytes, alloc);
        if ret > 0 then (t, Ready, 1)
        else
          var (t', end, n) := Pull(t, incoming[1..], left - 1);
          (t', end, n + 1)
  }

  /** One round of the receive loop, at position `n` of what arrives. */
  lemma PullRound(s: Reasm, incoming: seq<Udp>, n: nat, left: nat)
    requires Valid(s) && 0 < left && n <= |incoming|
    ensures n == |incoming| ==> Pull(s, incoming[n..], left) == (s, NotReady, 0)
    ensures n < |incoming| ==>
              match incoming[n]
              case Failed(code) => Pull(s, incoming[n..], left) == (s, Broken(code), 1)
              case Nothing => Pull(s, incoming[n..], left) == (s, NotReady, 1)
              case Datagram(bytes, alloc) =>
                var (t, ret) := Handle(s, bytes, alloc);
                && Valid(t)
                && var rest := Pull(t, incoming[n + 1..], left - 1);
                && (left == 1 ==> rest == (t, NotReady, 0))
                && Pull(s, incoming[n..], left) == if ret > 0 then (t, Ready, 1) else (rest.0, rest.1, rest.2 + 1)
  {
    hide Valid, Handle;
    if n < |incoming| {
      assert incoming[n..][1..] == incoming[n + 1..];
      if incoming[n].Datagram? {
        HandleValid(s, incoming[n].bytes, incoming[n].alloc);
      }
    }
  }

  /** dtls_srtp_bio_recv */
  function BioRecv(s: Reasm, len: nat, incoming: seq<Udp>): (Reasm, Served, nat)
    requires Valid(s)
  {
    if s.pending.Some? then
      var (t, out) := ServePending(s, len);
      (t, out, 0)
    else
      var (t, end, n) := Pull(s, incoming, MAX_ATTEMPTS);
      match end
      case Ready =>
        var (t', out) := ServePending(t, len);
        (t', out, n)
      case NotReady => (t, WantRead, n)
      case Broken(code) => (t, RecvFailed(code), n)
  }

  /** The state before the last call to serve: every pulled datagram handled, in order. */
  function AfterPulls(s: Reasm, incoming: seq<Udp>, n: nat): (t: Reasm)
    requires Valid(s) && n <= |incoming|
    ensures Valid(t)
    decreases n
  {
    if n == 0 then s
    else
      match incoming[0]
      case Datagram(bytes, alloc) =>
        HandleValid(s, bytes, alloc);
        AfterPulls(Handle(s, bytes, alloc).0, incoming[1..], n - 1)
      case _ => AfterPulls(s, incoming[1..], n - 1)
  }

  lemma {:induction false} PullWhole(s: Reasm, incoming: seq<Udp>, left: nat)
    requires Valid(s) && s.pending.None?
    ensures var (t, end, n) := Pull(s, incoming, left);
            && Valid(t) && n <= left && n <= |incoming| && t == AfterPulls(s, incoming, n)
            && (end.Ready? <==> t.pending.Some?)
            && (end.Broken? ==> n > 0 && incoming[n - 1] == Failed(end.code))
    decreases left
  {
    if left != 0 && incoming != [] && incoming[0].Datagram? {
      var d := incoming[0];
      HandleValid(s, d.bytes, d.alloc);
      HandlePending(s, d.bytes, d.alloc);
      var (t, ret) := Handle(s, d.bytes, d.alloc);
      hide Handle, Valid;
      if ret <= 0 {
        PullWhole(t, incoming[1..], left - 1);
      }
    }
  }

  /** The first `n` calls of the callback bring datagrams that leave nothing to serve. */
  predicate NothingYet(s: Reasm, incoming: seq<Udp>, n: nat)
    requires Valid(s) && n <= |incoming|
    decreases n
  {
    s.pending.None? && (n > 0 ==>
      && incoming[0].Datagram?
      && (HandleValid(s, incoming[0].bytes, incoming[0].alloc);
          NothingYet(Handle(s, incoming[0].bytes, incoming[0].alloc).0, incoming[1..], n - 1)))
  }

  /** Where the receive loop stops, in terms of what the callback brings. */
  lemma {:induction false} PullStops(s: Reasm, incoming: seq<Udp>, left: nat, n: nat)
    requires Valid(s) && n <= left && n <= |incoming| && NothingYet(s, incoming, n)
    ensures n == left || n == |incoming| ==> Pull(s, incoming, left) == (AfterPulls(s, incoming, n), NotReady, n)
    ensures n < left && n < |incoming| ==>
              match incoming[n]
              case Failed(code) => Pull(s, incoming, left) == (AfterPulls(s, incoming, n), Broken(code), n + 1)
              case Nothing => Pull(s, incoming, left) == (AfterPulls(s, incoming, n), NotReady, n + 1)
              case Datagram(bytes, alloc) =>
                var t := Handle(AfterPulls(s, incoming, n), bytes, alloc).0;
                t.pending.Some? ==> Pull(s, incoming, left) == (t, Ready, n + 1)
    decreases n
  {
    if n == 0 {
      PullFirst(s, incoming, left);
    } else {
      var d := incoming[0];
      HandleValid(s, d.bytes, d.alloc);
      HandlePending(s, d.bytes, d.alloc);
      var t := Handle(s, d.bytes, d.alloc).0;
      hide Handle, Valid;
      assert t.pending.None? by {
        assert NothingYet(t, incoming[1..], n - 1);
      }
      PullStops(t, incoming[1..], left - 1, n - 1);
    }
  }

  lemma PullFirst(s: Reasm, incoming: seq<Udp>, left: nat)
    requires Valid(s) && s.pending.None?
    ensures left == 0 || incoming == [] ==> Pull(s, incoming, left) == (s, NotReady, 0)
    ensures left > 0 && incoming != [] ==>
              match incoming[0]
              case Failed(code) => Pull(s, incoming, left) == (s, Broken(code), 1)
              case Nothing => Pull(s, incoming, left) == (s, NotReady, 1)
              case Datagram(bytes, alloc) =>
                var t := Handle(s, bytes, alloc).0;
                t.pending.Some? ==> Pull(s, incoming, left) == (t, Ready, 1)
  {
    if left > 0 && incoming != [] && incoming[0].Datagram? {
      HandlePending(s, incoming[0].bytes, incoming[0].alloc);
    }
    hide Handle, Valid;
  }

  /**
   How one call ends, with nothing pending before it: WANT_READ once eight datagrams, or all there
   are, leave nothing to serve, or the callback has nothing; the callback's own error as it is, never
   as WANT_READ; or the datagram that is ready first, if the caller has room for it.
   */
  lemma BioRecvEnds(s: Reasm, len: nat, incoming: seq<Udp>, n: nat)
    requires Valid(s) && n <= 8 && n <= |incoming| && NothingYet(s, incoming, n)
    ensures var r := AfterPulls(s, incoming, n);
            if n == 8 || n == |incoming| then BioRecv(s, len, incoming) == (r, WantRead, n)
            else
              match incoming[n]
              case Failed(code) => BioRecv(s, len, incoming) == (r, RecvFailed(code), n + 1)
              case Nothing => BioRecv(s, len, incoming) == (r, WantRead, n + 1)
              case Datagram(bytes, alloc) =>
                var t := Handle(r, bytes, alloc).0;
                t.pending.Some? ==>
                  BioRecv(s, len, incoming) ==
                  if |t.pending.value| <= len then (Reasm(Idle, None, 0), Record(t.pending.value), n + 1)
                  else (t, BufferTooSmall, n + 1)
  {
    PullStops(s, incoming, MAX_ATTEMPTS, n);
    assert s.pending.None?;
    if n < |incoming| && incoming[n].Datagram? {
      HandleValid(AfterPulls(s, incoming, n), incoming[n].bytes, incoming[n].alloc);
    }
    hide Pull, Handle, AfterPulls, NothingYet;
  }

  /** A pending datagram is served before anything is received. */
  lemma PendingIsServedFirst(s: Reasm, len: nat, incoming: seq<Udp>)
    requires Valid(s) && s.pending.Some?
    ensures BioRecv(s, len, incoming) ==
            if |s.pending.value| <= len then (Reasm(Idle, None, 0), Record(s.pending.value), 0)
            else (s, BufferTooSmall, 0)
  {
  }

  lemma HandlePending(s: Reasm, d: seq<Byte>, alloc: bool)
    requires Valid(s) && s.pending.None?
    ensures Handle(s, d, alloc).1 > 0 <==> Handle(s, d, alloc).0.pending.Some?
  {
    hide FragmentFits, Merge;
    if IsChFragment(d) && AddFragment(s, d, alloc).Some? {
      BlankIsValid(s, d, alloc);
    }
  }

  /**
   One call pulls at most eight datagrams and either hands over one whole pending datagram, never
   a slice, or reports an error that consumes nothing.
   */
  lemma BioRecvWhole(s: Reasm, len: nat, incoming: seq<Udp>)
    requires Valid(s)
    ensures var (t, out, n) := BioRecv(s, len, incoming);
            && Valid(t) && n <= 8 && n <= |incoming|
            && (s.pending.Some? ==> n == 0)
            && var r := AfterPulls(s, incoming, n);
            match out
            case Record(bytes) => r.pending == Some(bytes) && |bytes| <= len && t.pending.None?
            case BufferTooSmall => t == r && r.pending.Some? && len < |r.pending.value|
            case WantRead => t == r && r.pending.None?
            case RecvFailed(code) => t == r && n > 0 && incoming[n - 1] == Failed(code)
  {
    if s.pending.None? {
      PullWhole(s, incoming, MAX_ATTEMPTS);
    }
  }

  /** After BUFFER_TOO_SMALL a second call with room enough returns the very same datagram. */
  lemma RetryServes(s: Reasm, len: nat, incoming: seq<Udp>, len': nat, incoming': seq<Udp>)
    requires Valid(s) && BioRecv(s, len, incoming).1 == BufferTooSmall
    ensures var t := BioRecv(s, len, incoming).0;
            && Valid(t) && t.pending.Some?
            && (|t.pending.value| <= len' ==> BioRecv(t, len', incoming').1 == Record(t.pending.value))
  {
    BioRecvWhole(s, len, incoming);
  }

  function Datagrams(ds: seq<seq<Byte>>): (us: seq<Udp>)
  {
    seq(|ds|, i requires 0 <= i < |ds| => Datagram(ds[i], true))
  }

  lemma {:induction false} FeedCons(s: Reasm, ds: seq<seq<Byte>>)
    requires Valid(s) && ds != []
    ensures Valid(Handle(s, ds[0], true).0)
    ensures Feed(s, ds) == if |ds| == 1 then Handle(s, ds[0], true)
                           else Feed(Handle(s, ds[0], true).0, ds[1..])
    decreases |ds|
  {
    hide Handle, Valid;
    HandleValid(s, ds[0], true);
    if |ds| > 1 {
      var n := |ds| - 1;
      assert ds[..n][0] == ds[0] && ds[1..][..n - 1] == ds[..n][1..] && ds[1..][n - 1] == ds[n];
      FeedCons(s, ds[..n]);
      if n == 1 {
        assert ds[..n][1..] == [];
      }
    }
  }

  /** The receive loop is the run of its datagrams, cut at the first one that is ready to serve. */
  lemma {:induction false} PullFeeds(s: Reasm, ds: seq<seq<Byte>>, rest: seq<Udp>, left: nat)
    requires Valid(s) && ds != [] && |ds| <= left
    requires forall k :: 0 < k < |ds| ==> Feed(s, ds[..k]).1 <= 0
    requires Feed(s, ds).1 > 0
    ensures Pull(s, Datagrams(ds) + rest, left) == (Feed(s, ds).0, Ready, |ds|)
    decreases |ds|
  {
    hide Handle, Valid, Feed;
    var us := Datagrams(ds) + rest;
    assert us[0] == Datagram(ds[0], true);
    FeedCons(s, ds);
    var (t, ret) := Handle(s, ds[0], true);
    if |ds| > 1 {
      assert us[1..] == Datagrams(ds[1..]) + rest;
      FeedCons(s, ds[..1]);
      assert ds[..1][0] == ds[0];
      forall k | 0 < k < |ds| - 1 ensures Feed(t, ds[1..][..k]).1 <= 0 {
        FeedCons(s, ds[..k + 1]);
        assert ds[..k + 1][1..] == ds[1..][..k] && ds[..k + 1][0] == ds[0];
      }
      PullFeeds(t, ds[1..], rest, left - 1);
    }
  }

  /**
   The whole path: fragments that complete a ClientHello within one call's eight datagrams are
   served by that call as one unfragmented record.
   */
  lemma BioServesClientHello(s: Reasm, len: nat, ds: seq<seq<Byte>>, rest: seq<Udp>, m: seq<Byte>, q: int)
    requires Valid(s) && Unrelated(s.asm, m, q) && s.pending.None?
    requires 0 < |m| <= MAX_MSG && 0 <= q < 0x1_0000 && AllAbout(ds, m, q)
    requires 0 < |ds| <= 8 && BODY + |m| <= len
    requires Complete(ds, m, q) && !Complete(ds[..|ds| - 1], m, q)
    ensures Started(ds, m, q)
    ensures BioRecv(s, len, Datagrams(ds) + rest) ==
            (Reasm(Idle, None, 0), Record(FinishedRecord(FirstHeader(ds, m, q), q, m)), |ds|)
  {
    hide Complete, Carries, Noise, Started, FirstHeader, Feed, Pull, Valid, Expected, Normalize;
    ReassemblyExact(s, ds, m, q);
    forall k | 0 < k < |ds| ensures Feed(s, ds[..k]).1 <= 0 {
      PrefixIncomplete(ds, m, q, k);
      PrefixIncomplete(ds, m, q, k - 1);
      assert ds[..k][..k - 1] == ds[..k - 1];
      ReassemblyExact(s, ds[..k], m, q);
    }
    PullFeeds(s, ds, rest, MAX_ATTEMPTS);
  }

  /** One call with room serves such a datagram whole, and the heap buffer is released. */
  lemma BioServesWhole(s: Reasm, len: nat, d: seq<Byte>, alloc: bool, rest: seq<Udp>)
    requires Valid(s) && s.pending.None? && IsWhole(d) && |d| <= 4096 && |d| <= len && (|d| <= s.cap || alloc)
    ensures var (t, out, n) := BioRecv(s, len, [Datagram(d, alloc)] + rest);
            && t == Reasm(Idle, None, 0) && n == 1 && out.Record? && |out.bytes| == |d|
            && forall i :: 0 <= i < |d| ==> out.bytes[i] == NewByte(d, i)
  {
    var incoming := [Datagram(d, alloc)] + rest;
    assert incoming[0..] == incoming;
    WholeDatagramIsQueued(s, d, alloc);
    PullRound(s, incoming, 0, MAX_ATTEMPTS);
    hide Valid, Handle, IsWhole, NewByte, Pull;
  }

  lemma {:induction false} PrefixIncomplete(ds: seq<seq<Byte>>, m: seq<Byte>, q: int, k: nat)
    requires k < |ds| && !Complete(ds[..|ds| - 1], m, q)
    ensures !Complete(ds[..k], m, q)
    decreases |ds| - k
  {
    hide Complete;
    if k + 1 < |ds| {
      PrefixIncomplete(ds, m, q, k + 1);
      assert ds[..k + 1] == ds[..k] + [ds[k]];
      if Complete(ds[..k], m, q) {
        CompleteSnoc(ds[..k], ds[k], m, q);
      }
    }
  }
}
