/** Bytes of a C buffer and the 32-bit integers stored in them. */
module Bytes {

  type Byte = x: int | 0 <= x < 256

  /** The largest value of the source's 32-bit `int`. */
  const INT_MAX := 0x7FFF_FFFF

  datatype Option<+T> = None | Some(value: T)

  const UINT32 := 0x1_0000_0000

  /** The four bytes of a 32-bit value, as a little-endian machine stores them. */
  function IntBytes(n: int): (s: seq<Byte>)
    requires 0 <= n < UINT32
    ensures |s| == 4
  {
    [n % 256, n / 0x100 % 256, n / 0x1_0000 % 256, n / 0x100_0000]
  }

  /** The C int stored at offset `p` (two's complement, little-endian). */
  function ReadInt(buf: seq<Byte>, p: int): int
    requires 0 <= p && p + 4 <= |buf|
  {
    var u := Join(buf[p], buf[p + 1], buf[p + 2], buf[p + 3]);
    if u <= INT_MAX then u else u - UINT32
  }

  /** The unsigned value of four bytes, least significant first. */
  function Join(b0: int, b1: int, b2: int, b3: int): int
  {
    b0 + 0x100 * b1 + 0x1_0000 * b2 + 0x100_0000 * b3
  }

  /** The unsigned 32-bit value stored at offset `p`. */
  function ReadU32(buf: seq<Byte>, p: int): (n: int)
    requires 0 <= p && p + 4 <= |buf|
    ensures 0 <= n < UINT32
  {
    Join(buf[p], buf[p + 1], buf[p + 2], buf[p + 3])
  }

  /** Least significant byte first. */
  lemma LittleEndian(n: int)
    requires 0 <= n < 0x1_0000_0000
    ensures IntBytes(n)[0] == n % 0x100 && IntBytes(n)[3] == n / 0x100_0000
    ensures forall buf, p :: 0 <= p && p + 4 <= |buf| && buf[p] == 1 && buf[p + 1] == buf[p + 2] == buf[p + 3] == 0 ==>
              ReadU32(buf, p) == 1
  {
  }

  lemma JoinIntBytes(n: int)
    requires 0 <= n < UINT32
    ensures var s := IntBytes(n); Join(s[0], s[1], s[2], s[3]) == n
  {
    var q1 := n / 0x100;
    var q2 := q1 / 0x100;
    assert n / 0x1_0000 == q2;
    assert n / 0x100_0000 == q2 / 0x100;
  }

  /** A store seen through a window that contains it, and through one that does not. */
  lemma StoreInWindow(buf: seq<Byte>, a: int, n: int, i: int, v: Byte)
    requires 0 <= a && 0 <= i < n && a + n <= |buf|
    ensures buf[a + i := v][a..a + n] == buf[a..a + n][i := v]
  {
  }

  lemma StoreOutsideWindow(buf: seq<Byte>, a: int, n: int, k: int, v: Byte)
    requires 0 <= a && 0 <= n && a + n <= |buf| && 0 <= k < |buf| && !(a <= k < a + n)
    ensures buf[k := v][a..a + n] == buf[a..a + n]
  {
  }

  /** Bytes `s` stored over `buf` starting at offset `p`: a memcpy. */
  function Overwrite(buf: seq<Byte>, p: int, s: seq<Byte>): (r: seq<Byte>)
    requires 0 <= p && p + |s| <= |buf|
    ensures |r| == |buf|
    ensures r[p..p + |s|] == s
    ensures forall i :: 0 <= i < |buf| && !(p <= i < p + |s|) ==> r[i] == buf[i]
  {
    buf[..p] + s + buf[p + |s|..]
  }

  lemma ReadBack(buf: seq<Byte>, p: int, n: int)
    requires 0 <= p && p + 4 <= |buf| && 0 <= n <= INT_MAX
    ensures ReadInt(Overwrite(buf, p, IntBytes(n)), p) == n
  {
    JoinIntBytes(n);
    var w := Overwrite(buf, p, IntBytes(n));
    var s := w[p..p + 4];
    assert w[p] == s[0] && w[p + 1] == s[1] && w[p + 2] == s[2] && w[p + 3] == s[3];
  }

  /** A 32-bit value written at `p` is read back wherever those four bytes survive. */
  lemma ReadBackU32(buf: seq<Byte>, p: int, n: int)
    requires 0 <= p && p + 4 <= |buf| && 0 <= n < UINT32 && buf[p..p + 4] == IntBytes(n)
    ensures ReadU32(buf, p) == n
  {
    JoinIntBytes(n);
    var s := buf[p..p + 4];
    assert buf[p] == s[0] && buf[p + 1] == s[1] && buf[p + 2] == s[2] && buf[p + 3] == s[3];
  }
}
