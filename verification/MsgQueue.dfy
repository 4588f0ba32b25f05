/**
 The bounded message queue of `msg_q.c`: fixed-size slots used as a ring, one condition variable for
 a producer and a consumer, and signals sent after the lock is released.
 */
module MsgQueue {
  import opened Arith
  import opened Bytes

  // ---------------------------------------------------------------------------------------
  // The ring of slots
  // ---------------------------------------------------------------------------------------

  /** `number` is the number of slots, each of `eachSize` bytes. */
  datatype Slots = Slots(data: seq<seq<Byte>>, eachSize: nat, cur: int, filled: int)

  predicate Valid(s: Slots)
  {
    && 0 < |s.data| && 0 <= s.cur < |s.data| && 0 <= s.filled <= |s.data|
    && forall i :: 0 <= i < |s.data| ==> |s.data[i]| == s.eachSize
  }

  /** The slot that holds the k-th oldest message. */
  function SlotOf(s: Slots, k: int): (i: int)
    requires Valid(s) && 0 <= k
    ensures 0 <= i < |s.data|
    ensures k < |s.data| ==> i == if s.cur + k < |s.data| then s.cur + k else s.cur + k - |s.data|
  {
    assert k < |s.data| ==> (s.cur + k) % |s.data| == (if s.cur + k < |s.data| then s.cur + k else s.cur + k - |s.data|) by {
      if k < |s.data| {
        if s.cur + k < |s.data| {
          DivUnique(s.cur + k, |s.data|, 0, s.cur + k);
        } else {
          DivUnique(s.cur + k, |s.data|, 1, s.cur + k - |s.data|);
        }
      }
    }
    (s.cur + k) % |s.data|
  }

  /** The slots in use, oldest first. */
  function Contents(s: Slots): (q: seq<seq<Byte>>)
    requires Valid(s)
    ensures |q| == s.filled
  {
    seq(s.filled, k requires 0 <= k < s.filled => s.data[SlotOf(s, k)])
  }

  /** A message copied over the start of a slot. */
  function Stored(slot: seq<Byte>, msg: seq<Byte>): (r: seq<Byte>)
    requires |msg| <= |slot|
    ensures |r| == |slot| && r[..|msg|] == msg
  {
    msg + slot[|msg|..]
  }

  /** The inserting branch of msg_q_send. */
  function Insert(s: Slots, msg: seq<Byte>): Slots
    requires Valid(s) && s.filled < |s.data| && |msg| <= s.eachSize
  {
    var i := SlotOf(s, s.filled);
    s.(data := s.data[i := Stored(s.data[i], msg)], filled := s.filled + 1)
  }

  /** The removing branch of msg_q_recv. */
  function Remove(s: Slots): Slots
    requires Valid(s) && 0 < s.filled
  {
    s.(filled := s.filled - 1, cur := (s.cur + 1) % |s.data|)
  }

  lemma InsertAppends(s: Slots, msg: seq<Byte>)
    requires Valid(s) && s.filled < |s.data| && |msg| <= s.eachSize
    ensures Valid(Insert(s, msg))
    ensures Contents(Insert(s, msg)) == Contents(s) + [Stored(s.data[SlotOf(s, s.filled)], msg)]
  {
    var t := Insert(s, msg);
    forall k | 0 <= k < s.filled ensures Contents(t)[k] == Contents(s)[k] {
      assert SlotOf(t, k) == SlotOf(s, k) != SlotOf(s, s.filled);
    }
    assert SlotOf(t, s.filled) == SlotOf(s, s.filled);
  }

  lemma RemoveTakesOldest(s: Slots)
    requires Valid(s) && 0 < s.filled
    ensures Valid(Remove(s)) && Contents(Remove(s)) == Contents(s)[1..]
    ensures Contents(s)[0] == s.data[s.cur]
  {
    var t := Remove(s);
    assert SlotOf(s, 0) == s.cur;
    assert t.cur == SlotOf(s, 1) || |s.data| == 1;
    if |s.data| == 1 {
      assert (s.cur + 1) % 1 == 0;
    }
    forall k | 0 <= k < t.filled ensures Contents(t)[k] == Contents(s)[k + 1] {
      assert SlotOf(t, k) == SlotOf(s, k + 1);
    }
  }

  // ---------------------------------------------------------------------------------------
  // The code, one critical section a method
  // ---------------------------------------------------------------------------------------

  datatype SendPass = Sent | TooLarge | SendMustWait
  datatype RecvPass = Received(msg: seq<Byte>) | AskedTooMuch | Empty | RecvMustWait

  class MsgQueue {
    const data: array<seq<Byte>>
    const eachSize: nat
    var cur: int
    var filled: int

    ghost function View(): Slots
      reads this, data
    {
      Slots(data[..], eachSize, cur, filled)
    }

    /** msg_q_create */
    constructor (number: nat, msgSize: nat)
      requires 0 < number && 0 < msgSize
      ensures Valid(View()) && Contents(View()) == [] && data.Length == number && eachSize == msgSize
      ensures fresh(data)
    {
      data := new seq<Byte>[number](_ => seq(msgSize, _ => 0));
      eachSize := msgSize;
      cur, filled := 0, 0;
    }

    /** One pass of msg_q_send. */
    method Send(msg: seq<Byte>) returns (r: SendPass)
      requires Valid(View())
      modifies this`filled, data
      ensures Valid(View())
      ensures r == if |msg| > eachSize then TooLarge
                   else if old(filled) == data.Length then SendMustWait else Sent
      ensures r != Sent ==> View() == old(View())
      ensures r == Sent ==>
                && View() == Insert(old(View()), msg)
                && Contents(View())[..old(filled)] == old(Contents(View()))
                && Contents(View())[old(filled)][..|msg|] == msg
    {
      if |msg| > eachSize {
        return TooLarge;
      }
      if filled >= data.Length {
        return SendMustWait;
      }
      InsertAppends(View(), msg);
      var idx := (cur + filled) % data.Length;
      assert idx == SlotOf(View(), filled);
      data[idx] := Stored(data[idx], msg);
      filled := filled + 1;
      return Sent;
    }

    /** One pass of msg_q_recv for `size` bytes. */
    method Recv(size: nat, noWait: bool) returns (r: RecvPass)
      requires Valid(View())
      modifies this`filled, this`cur
      ensures Valid(View())
      ensures if size > eachSize then r == AskedTooMuch
              else if old(filled) == 0 then r == (if noWait then Empty else RecvMustWait)
              else r == Received(old(Contents(View())[0])[..size])
      ensures !r.Received? ==> View() == old(View())
      ensures r.Received? ==> View() == Remove(old(View())) && Contents(View()) == old(Contents(View()))[1..]
    {
      if size > eachSize {
        return AskedTooMuch;
      }
      if filled == 0 {
        return if noWait then Empty else RecvMustWait;
      }
      RemoveTakesOldest(View());
      r := Received(data[cur][..size]);
      filled := filled - 1;
      cur := cur + 1;
      cur := cur % data.Length;
    }

    /** msg_q_number */
    method Number() returns (n: int)
      requires Valid(View())
      ensures n == |Contents(View())| <= data.Length
    {
      n := filled;
    }
  }
}
