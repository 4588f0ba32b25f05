/** The table-driven YUV420 to RGB565 conversion of `color_convert.c`, software path. */
module ColorConvert {
  import opened Arith
  import opened Bytes

  type Pixel = x: int | 0 <= x < 0x1_0000

  const TABLE_SIZE := 64 * 1024

  // ---------------------------------------------------------------------------------------
  // The formula
  // ---------------------------------------------------------------------------------------

  function Clamp(a: int): (r: int)
    ensures 0 <= r <= 255
  {
    if a > 255 then 255 else if a < 0 then 0 else a
  }

  // `>> 8` of a negative sum rounds towards minus infinity, as Dafny's `/` does here.

  function Red(y: int, u: int, v: int): (r: int)
    ensures 0 <= r <= 255
  {
    Clamp((298 * (y - 16) + 409 * (v - 128) + 128) / 256)
  }

  function Green(y: int, u: int, v: int): (r: int)
    ensures 0 <= r <= 255
  {
    Clamp((298 * (y - 16) - 100 * (u - 128) - 208 * (v - 128) + 128) / 256)
  }

  function Blue(y: int, u: int, v: int): (r: int)
    ensures 0 <= r <= 255
  {
    Clamp((298 * (y - 16) + 516 * (u - 128) + 128) / 256)
  }

  /** RGB565(r, g, b): three fields of 5, 6 and 5 bits. */
  function Pack(r: int, g: int, b: int): (p: Pixel)
    requires 0 <= r < 32 && 0 <= g < 64 && 0 <= b < 32
  {
    (r * 64 + g) * 32 + b
  }

  function RedOf(p: Pixel): int
  {
    p / 0x800
  }

  function GreenOf(p: Pixel): int
  {
    p / 0x20 % 0x40
  }

  function BlueOf(p: Pixel): int
  {
    p % 0x20
  }

  /** The bytes of a pixel exchanged, for the big-endian variant. */
  function Swap(p: Pixel): Pixel
  {
    p / 0x100 + p % 0x100 * 0x100
  }

  // ---------------------------------------------------------------------------------------
  // The table
  // ---------------------------------------------------------------------------------------

  function Index(y0: int, u0: int, v0: int): int
  {
    y0 * 1024 + u0 * 32 + v0
  }

  /**
   The entry for the quantised pixel (y0, u0, v0). The low bits of `u` come from `y0`, not `u0`, as
   in the source.
   */
  function Entry(y0: int, u0: int, v0: int, bigEndian: bool): Pixel
  {
    var y, u, v := y0 * 4 + y0 % 4, u0 * 8 + y0 % 8, v0 * 8 + v0 % 8;
    var p := Pack(Red(y, u, v) / 8, Green(y, u, v) / 4, Blue(y, u, v) / 8);
    if bigEndian then Swap(p) else p
  }

  /** Every entry is initialised. */
  predicate Filled(table: seq<Pixel>, bigEndian: bool)
  {
    && |table| == TABLE_SIZE
    && forall y0, u0, v0 :: 0 <= y0 < 64 && 0 <= u0 < 32 && 0 <= v0 < 32 ==>
         table[Index(y0, u0, v0)] == Entry(y0, u0, v0, bigEndian)
  }

  /** What the conversion makes of one pixel. */
  function Convert(y: Byte, u: Byte, v: Byte, bigEndian: bool): Pixel
  {
    Entry(y / 4, u / 8, v / 8, bigEndian)
  }

  // ---------------------------------------------------------------------------------------
  // Accuracy
  // ---------------------------------------------------------------------------------------

  predicate Near(a: int, b: int, d: int)
  {
    a - d <= b <= a + d
  }

  lemma ClampNear(a: int, b: int, d: int)
    requires Near(a, b, d) && 0 <= d
    ensures Near(Clamp(a), Clamp(b), d)
  {
  }

  lemma Quantised(y: Byte, u: Byte, v: Byte)
    ensures var y0, u0, v0 := y / 4, u / 8, v / 8;
            && Near(y, y0 * 4 + y0 % 4, 3) && Near(u, u0 * 8 + y0 % 8, 7) && Near(v, v0 * 8 + v0 % 8, 7)
  {
  }

  lemma RedNear(y: int, u: int, v: int, y': int, u': int, v': int)
    requires Near(y, y', 3) && Near(v, v', 7)
    ensures Near(Red(y, u, v) / 8, Red(y', u', v') / 8, 2)
  {
    var a, b := 298 * (y - 16) + 409 * (v - 128) + 128, 298 * (y' - 16) + 409 * (v' - 128) + 128;
    assert Near(a, b, 3757);
    assert Near(a / 256, b / 256, 15);
    ClampNear(a / 256, b / 256, 15);
  }

  lemma GreenNear(y: int, u: int, v: int, y': int, u': int, v': int)
    requires Near(y, y', 3) && Near(u, u', 7) && Near(v, v', 7)
    ensures Near(Green(y, u, v) / 4, Green(y', u', v') / 4, 3)
  {
    var a := 298 * (y - 16) - 100 * (u - 128) - 208 * (v - 128) + 128;
    var b := 298 * (y' - 16) - 100 * (u' - 128) - 208 * (v' - 128) + 128;
    assert Near(a, b, 3050);
    assert Near(a / 256, b / 256, 12);
    ClampNear(a / 256, b / 256, 12);
  }

  lemma BlueNear(y: int, u: int, v: int, y': int, u': int, v': int)
    requires Near(y, y', 3) && Near(u, u', 7)
    ensures Near(Blue(y, u, v) / 8, Blue(y', u', v') / 8, 3)
  {
    var a, b := 298 * (y - 16) + 516 * (u - 128) + 128, 298 * (y' - 16) + 516 * (u' - 128) + 128;
    assert Near(a, b, 4506);
    assert Near(a / 256, b / 256, 18);
    ClampNear(a / 256, b / 256, 18);
  }

  lemma FieldsReadBack(r: int, g: int, b: int)
    requires 0 <= r < 32 && 0 <= g < 64 && 0 <= b < 32
    ensures var p := Pack(r, g, b); RedOf(p) == r && GreenOf(p) == g && BlueOf(p) == b
  {
  }

  lemma SwapTwice(p: Pixel)
    ensures Swap(Swap(p)) == p
  {
    DivUnique(Swap(p), 0x100, p % 0x100, p / 0x100);
  }

  /** In memory order: the big-endian pixel has the high byte where the other has the low one. */
  lemma SwapExchangesBytes(high: Byte, low: Byte)
    ensures Swap(0x100 * high as int + low) == 0x100 * low as int + high
  {
  }

  /** What an entry holds, field by field; the low bits of `u` come from the luma index. */
  lemma EntryFields(y0: int, u0: int, v0: int)
    requires 0 <= y0 < 64 && 0 <= u0 < 32 && 0 <= v0 < 32
    ensures var c, d, e := 4 * y0 + y0 % 4 - 16, 8 * u0 + y0 % 8 - 128, 8 * v0 + v0 % 8 - 128;
            var p := Entry(y0, u0, v0, false);
            && RedOf(p) == Clamp((298 * c + 409 * e + 128) / 256) / 8
            && GreenOf(p) == Clamp((298 * c - 100 * d - 208 * e + 128) / 256) / 4
            && BlueOf(p) == Clamp((298 * c + 516 * d + 128) / 256) / 8
            && Entry(y0, u0, v0, true) == Swap(p)
  {
    hide Clamp, Swap, RedOf, GreenOf, BlueOf, Pack;
    var y, u, v := y0 * 4 + y0 % 4, u0 * 8 + y0 % 8, v0 * 8 + v0 % 8;
    FieldsReadBack(Red(y, u, v) / 8, Green(y, u, v) / 4, Blue(y, u, v) / 8);
  }

  /**
   Quantising to 6, 5 and 5 bits, and the table's mixed-up low bits, cost at most 2 steps of red, 3
   of green and 3 of blue against the formula applied to the pixel itself, in either byte order.
   */
  lemma ConversionAccuracy(y: Byte, u: Byte, v: Byte, bigEndian: bool)
    ensures var c := Convert(y, u, v, bigEndian);
            var p := if bigEndian then Swap(c) else c;
            && Near(Red(y, u, v) / 8, RedOf(p), 2)
            && Near(Green(y, u, v) / 4, GreenOf(p), 3)
            && Near(Blue(y, u, v) / 8, BlueOf(p), 3)
  {
    hide Red, Green, Blue, Near, Swap, Pack, RedOf, GreenOf, BlueOf;
    var y0, u0, v0 := y / 4, u / 8, v / 8;
    var y', u', v' := y0 * 4 + y0 % 4, u0 * 8 + y0 % 8, v0 * 8 + v0 % 8;
    Quantised(y, u, v);
    RedNear(y, u, v, y', u', v');
    GreenNear(y, u, v, y', u', v');
    BlueNear(y, u, v, y', u', v');
    FieldsReadBack(Red(y', u', v') / 8, Green(y', u', v') / 4, Blue(y', u', v') / 8);
    SwapTwice(Pack(Red(y', u', v') / 8, Green(y', u', v') / 4, Blue(y', u', v') / 8));
  }

  // ---------------------------------------------------------------------------------------
  // Images
  // ---------------------------------------------------------------------------------------

  // Two pixels a round, whether or not the width is even; the chroma offset steps once a round and
  // is set back by half the width after every row of even number.

  function Rounds(w: int): (n: int)
    requires 0 <= w
    ensures w <= 2 * n <= w + 1
  {
    (w + 1) / 2
  }

  function RowStart(w: int, i: int): int
    requires 0 <= w
  {
    i * (2 * Rounds(w))
  }

  function ChromaRow(w: int, i: int): int
    requires 0 <= w
  {
    i * Rounds(w) - (i + 1) / 2 * (w / 2)
  }

  /** Offset of pixel `j` of row `i` in the luma plane and in the output. */
  function LumaAt(w: int, i: int, j: int): int
    requires 0 <= w
  {
    RowStart(w, i) + j
  }

  function UAt(w: int, h: int, i: int, j: int): int
    requires 0 <= w
  {
    w * h + ChromaRow(w, i) + j / 2
  }

  function VAt(w: int, h: int, i: int, j: int): int
    requires 0 <= w
  {
    w * h * 5 / 4 + ChromaRow(w, i) + j / 2
  }

  /** The three samples lie in a source of `n` bytes. */
  predicate SamplesIn(n: int, w: int, h: int, i: int, j: int)
    requires 0 <= w
  {
    0 <= LumaAt(w, i, j) < n && 0 <= UAt(w, h, i, j) < n && 0 <= VAt(w, h, i, j) < n
  }

  /** No pixel of the image makes the code leave its source or its output of `m` pixels. */
  predicate AllIn(n: int, m: int, w: int, h: int)
    requires 0 <= w
  {
    forall i, j :: 0 <= i < h && 0 <= j < 2 * Rounds(w) ==> SamplesIn(n, w, h, i, j) && LumaAt(w, i, j) < m
  }

  /** The pixel written for row `i`, column `j`. */
  function PixelAt(src: seq<Byte>, w: int, h: int, i: int, j: int, bigEndian: bool): Pixel
    requires 0 <= w && SamplesIn(|src|, w, h, i, j)
  {
    Convert(src[LumaAt(w, i, j)], src[UAt(w, h, i, j)], src[VAt(w, h, i, j)], bigEndian)
  }

  /** The chroma offset never goes back from one row to the next. */
  lemma NextRow(w: int, i: int)
    requires 0 <= i && 0 <= w
    ensures ChromaRow(w, i) + Rounds(w) - (if i % 2 == 0 then w / 2 else 0) == ChromaRow(w, i + 1)
    ensures RowStart(w, i) + 2 * Rounds(w) == RowStart(w, i + 1)
    ensures ChromaRow(w, i) <= ChromaRow(w, i + 1)
  {
    var c, d := Rounds(w), w / 2;
    assert (i + 1) * c == i * c + c;
    if i % 2 == 0 {
      assert (i + 2) / 2 == (i + 1) / 2 + 1;
      assert ((i + 1) / 2 + 1) * d == (i + 1) / 2 * d + d;
    } else {
      assert (i + 2) / 2 == (i + 1) / 2;
    }
  }

  lemma {:induction false} RowsOrdered(w: int, i: int, k: int)
    requires 0 <= w && 0 <= i <= k
    ensures RowStart(w, i) <= RowStart(w, k) && ChromaRow(w, i) <= ChromaRow(w, k)
    ensures i < k ==> RowStart(w, i) + 2 * Rounds(w) <= RowStart(w, k)
    decreases k
  {
    hide RowStart, ChromaRow;
    if i < k {
      RowsOrdered(w, i, k - 1);
      NextRow(w, k - 1);
    }
  }

  lemma FirstRow(w: int)
    requires 0 <= w
    ensures RowStart(w, 0) == 0 && ChromaRow(w, 0) == 0
  {
  }

  /** Only the last pixel matters: exactly when the code stays inside its buffers. */
  lemma AllInIff(n: int, m: int, w: int, h: int)
    requires 0 <= w && 0 <= h
    ensures AllIn(n, m, w, h) <==>
            w == 0 || h == 0
            || (RowStart(w, h) <= n && RowStart(w, h) <= m && VAt(w, h, h - 1, 2 * Rounds(w) - 1) < n)
  {
    hide RowStart, ChromaRow, SamplesIn, LumaAt, VAt;
    if w > 0 && h > 0 {
      LastPixel(n, m, w, h);
      if AllIn(n, m, w, h) {
        assert SamplesIn(n, w, h, h - 1, 2 * Rounds(w) - 1);
      } else if RowStart(w, h) <= n && RowStart(w, h) <= m && VAt(w, h, h - 1, 2 * Rounds(w) - 1) < n {
        forall i, j | 0 <= i < h && 0 <= j < 2 * Rounds(w)
          ensures SamplesIn(n, w, h, i, j) && LumaAt(w, i, j) < m
        {
          EarlierPixel(n, m, w, h, i, j);
        }
      }
    }
  }

  lemma LastPixel(n: int, m: int, w: int, h: int)
    requires 0 < w && 0 < h
    ensures SamplesIn(n, w, h, h - 1, 2 * Rounds(w) - 1) && LumaAt(w, h - 1, 2 * Rounds(w) - 1) < m ==>
              RowStart(w, h) <= n && RowStart(w, h) <= m && VAt(w, h, h - 1, 2 * Rounds(w) - 1) < n
  {
    hide ChromaRow, RowStart;
    NextRow(w, h - 1);
  }

  lemma EarlierPixel(n: int, m: int, w: int, h: int, i: int, j: int)
    requires 0 < w && 0 <= i < h && 0 <= j < 2 * Rounds(w)
    requires RowStart(w, h) <= n && RowStart(w, h) <= m && VAt(w, h, h - 1, 2 * Rounds(w) - 1) < n
    ensures SamplesIn(n, w, h, i, j) && LumaAt(w, i, j) < m
  {
    hide ChromaRow, RowStart, Rounds;
    FirstRow(w);
    NextRow(w, h - 1);
    RowsOrdered(w, 0, i);
    RowsOrdered(w, i, h - 1);
    MulMonotone(0, h, w);
    ChromaBound(w * h, ChromaRow(w, i), ChromaRow(w, h - 1), Rounds(w), j, n);
  }

  lemma ChromaBound(size: int, row: int, last: int, rounds: int, j: int, n: int)
    requires 0 <= size && 0 <= row <= last && 0 <= j < 2 * rounds
    requires size * 5 / 4 + last + (2 * rounds - 1) / 2 < n
    ensures 0 <= size + row + j / 2 < n && 0 <= size * 5 / 4 + row + j / 2 < n
  {
  }

  /** In an image of even width, pixel (i, j) lies at i * w + j and uses chroma sample (i/2, j/2). */
  lemma ChromaOfPixel(w: int, h: int, i: int, j: int)
    requires 0 <= w && w % 2 == 0
    ensures LumaAt(w, i, j) == i * w + j
    ensures UAt(w, h, i, j) == w * h + (i / 2) * (w / 2) + j / 2
    ensures VAt(w, h, i, j) == w * h * 5 / 4 + (i / 2) * (w / 2) + j / 2
  {
    var c := w / 2;
    assert Rounds(w) == c && 2 * c == w;
    assert i - (i + 1) / 2 == i / 2;
    SplitProduct(i, (i + 1) / 2, c);
  }

  lemma SplitProduct(x: int, y: int, c: int)
    ensures x * c - y * c == (x - y) * c
  {
  }

  lemma QuarterSize(a: int, b: int)
    ensures (2 * a) * (2 * b) == 4 * (b * a)
    ensures (2 * a) * (2 * b + 1) == 4 * (b * a) + 2 * a
  {
  }

  /** The last V sample of such an image is the last byte of its source. */
  lemma EvenCorner(w: int, h: int)
    requires 0 < w && 0 < h && w % 2 == 0 && h % 2 == 0
    ensures VAt(w, h, h - 1, 2 * Rounds(w) - 1) == w * h * 3 / 2 - 1
    ensures RowStart(w, h) == w * h <= w * h * 3 / 2
  {
    var a, b := w / 2, h / 2;
    ChromaOfPixel(w, h, h - 1, 2 * Rounds(w) - 1);
    hide VAt, UAt, LumaAt, ChromaRow;
    QuarterSize(a, b);
    MulMonotone(0, b, a);
    assert w * h == 4 * (b * a) by {
      assert w == 2 * a && h == 2 * b;
    }
    assert (h - 1) / 2 == b - 1;
    SplitProduct(b, 1, a);
  }

  /** All samples of an image of even width and height lie in an I420 source of the right size. */
  lemma EvenImageFits(w: int, h: int, m: int)
    requires 0 <= w && 0 <= h && w % 2 == 0 && h % 2 == 0 && w * h <= m
    ensures AllIn(w * h * 3 / 2, m, w, h)
  {
    hide RowStart, VAt, AllIn, Rounds;
    AllInIff(w * h * 3 / 2, m, w, h);
    if w > 0 && h > 0 {
      EvenCorner(w, h);
    }
  }

  /**
   The source does not check that width and height are even. With an output of the size it asks
   for, it stays inside its buffers exactly for even widths with an even height or width 2.
   */
  lemma StaysInsideIff(w: int, h: int)
    requires 0 < w && 0 < h
    ensures AllIn(w * h * 3 / 2, w * h, w, h) <==> w % 2 == 0 && (h % 2 == 0 || w == 2)
  {
    if w % 2 == 0 && h % 2 == 0 {
      EvenImageFits(w, h, w * h);
    } else if w % 2 == 0 {
      OddHeight(w, h);
    } else {
      AllInIff(w * h * 3 / 2, w * h, w, h);
      hide ChromaRow, AllIn, VAt;
      assert RowStart(w, h) == h * (w + 1) == w * h + h;
    }
  }

  /** With an odd height the last V sample lies a quarter of a row behind that. */
  lemma OddCorner(w: int, h: int)
    requires 0 < w && 0 < h && w % 2 == 0 && h % 2 == 1
    ensures VAt(w, h, h - 1, 2 * Rounds(w) - 1) == w * h * 3 / 2 - 1 + w / 4
    ensures RowStart(w, h) == w * h <= w * h * 3 / 2
  {
    var a, b := w / 2, h / 2;
    ChromaOfPixel(w, h, h - 1, 2 * Rounds(w) - 1);
    hide VAt, UAt, LumaAt, ChromaRow;
    MulMonotone(0, b, a);
    OddSize(w, h);
    Quarters(b * a, a);
    hide Rounds;
  }

  lemma OddSize(w: int, h: int)
    requires 0 < w && 0 < h && w % 2 == 0 && h % 2 == 1
    ensures w * h == 4 * (h / 2 * (w / 2)) + 2 * (w / 2) && (h - 1) / 2 == h / 2
    ensures w / 4 == w / 2 / 2 && (2 * Rounds(w) - 1) / 2 == w / 2 - 1 && 2 * Rounds(w) == w
  {
    QuarterSize(w / 2, h / 2);
    assert w == 2 * (w / 2) && h == 2 * (h / 2) + 1;
  }

  lemma Quarters(x: int, a: int)
    requires 0 <= x && 0 <= a
    ensures (4 * x + 2 * a) * 5 / 4 + x + a - 1 == (4 * x + 2 * a) * 3 / 2 - 1 + a / 2
    ensures 4 * x + 2 * a <= (4 * x + 2 * a) * 3 / 2
  {
  }

  lemma OddHeight(w: int, h: int)
    requires 0 < w && 0 < h && w % 2 == 0 && h % 2 == 1
    ensures AllIn(w * h * 3 / 2, w * h, w, h) <==> w == 2
  {
    hide RowStart, VAt, AllIn, Rounds;
    AllInIff(w * h * 3 / 2, w * h, w, h);
    OddCorner(w, h);
  }

  // ---------------------------------------------------------------------------------------
  // The code
  // ---------------------------------------------------------------------------------------

  datatype Format = Yuv420 | Rgb565 | Rgb565Be | OtherFormat

  /**
   How convert_color ends; `Crashed` is its deliberate crash on a source format it does not know,
   `OutOfBounds` an access outside the source or the output.
   */
  datatype ConvertResult = Converted | Rejected | Crashed | OutOfBounds

  lemma IndexInRange(y0: int, u0: int, v0: int)
    requires 0 <= y0 < 64 && 0 <= u0 < 32 && 0 <= v0 < 32
    ensures 0 <= Index(y0, u0, v0) < TABLE_SIZE
  {
  }

  lemma IndexInjective(y0: int, u0: int, v0: int, y1: int, u1: int, v1: int)
    requires 0 <= u0 < 32 && 0 <= v0 < 32 && 0 <= u1 < 32 && 0 <= v1 < 32
    requires Index(y0, u0, v0) == Index(y1, u1, v1)
    ensures y0 == y1 && u0 == u1 && v0 == v1
  {
  }

  /** (y0, u0, v0) comes before (y1, u1, v1) in the order the table is filled. */
  predicate Before(y0: int, u0: int, v0: int, y1: int, u1: int, v1: int)
  {
    u0 < u1 || (u0 == u1 && (v0 < v1 || (v0 == v1 && y0 < y1)))
  }

  /** y_idx + uv_idx */
  function TableIndex(y: int, u: int, v: int): int
  {
    y / 4 * 1024 + (u / 8 * 32 + v / 8)
  }

  class Converter {
    const from: Format
    const to: Format
    const width: int
    const height: int
    const table: array?<Pixel>

    ghost predicate Inv()
      reads this, table
    {
      && 0 <= width && 0 <= height
      && (from.Yuv420? && (to.Rgb565? || to.Rgb565Be?) ==> table != null && Filled(table[..], to.Rgb565Be?))
    }

    /** The triple loop of init_table. */
    method InitTable(t: array<Pixel>, bigEndian: bool)
      requires t.Length == TABLE_SIZE
      modifies t
      ensures Filled(t[..], bigEndian)
    {
      hide Entry;
      for u0 := 0 to 32
        invariant Done(t[..], 0, u0, 0, bigEndian)
      {
        for v0 := 0 to 32
          invariant Done(t[..], 0, u0, v0, bigEndian)
        {
          for y0 := 0 to 64
            invariant Done(t[..], y0, u0, v0, bigEndian)
          {
            IndexInRange(y0, u0, v0);
            ghost var was := t[..];
            t[Index(y0, u0, v0)] := Entry(y0, u0, v0, bigEndian);
            DoneStep(was, y0, u0, v0, bigEndian);
          }
          DoneRow(t[..], u0, v0, bigEndian);
        }
        DoneBlock(t[..], u0, bigEndian);
      }
    }

    /** Every entry that precedes (y1, u1, v1) in filling order is in place. */
    static ghost predicate Done(t: seq<Pixel>, y1: int, u1: int, v1: int, bigEndian: bool)
    {
      && |t| == TABLE_SIZE
      && forall y0, u0, v0 :: 0 <= y0 < 64 && 0 <= u0 < 32 && 0 <= v0 < 32 && Before(y0, u0, v0, y1, u1, v1) ==>
           t[Index(y0, u0, v0)] == Entry(y0, u0, v0, bigEndian)
    }

    static lemma DoneStep(t: seq<Pixel>, y1: int, u1: int, v1: int, bigEndian: bool)
      requires Done(t, y1, u1, v1, bigEndian) && 0 <= y1 < 64 && 0 <= u1 < 32 && 0 <= v1 < 32
      ensures 0 <= Index(y1, u1, v1) < |t|
      ensures Done(t[Index(y1, u1, v1) := Entry(y1, u1, v1, bigEndian)], y1 + 1, u1, v1, bigEndian)
    {
      IndexInRange(y1, u1, v1);
      hide Entry;
      var t' := t[Index(y1, u1, v1) := Entry(y1, u1, v1, bigEndian)];
      forall y0, u0, v0 | 0 <= y0 < 64 && 0 <= u0 < 32 && 0 <= v0 < 32 && Before(y0, u0, v0, y1 + 1, u1, v1)
        ensures t'[Index(y0, u0, v0)] == Entry(y0, u0, v0, bigEndian)
      {
        IndexInRange(y0, u0, v0);
        if Index(y0, u0, v0) == Index(y1, u1, v1) {
          IndexInjective(y0, u0, v0, y1, u1, v1);
        }
      }
    }

    static lemma DoneRow(t: seq<Pixel>, u1: int, v1: int, bigEndian: bool)
      requires Done(t, 64, u1, v1, bigEndian)
      ensures Done(t, 0, u1, v1 + 1, bigEndian)
    {
      hide Entry;
    }

    static lemma DoneBlock(t: seq<Pixel>, u1: int, bigEndian: bool)
      requires Done(t, 0, u1, 32, bigEndian)
      ensures Done(t, 0, u1 + 1, 0, bigEndian)
    {
      hide Entry;
    }

    constructor (from: Format, to: Format, width: int, height: int)
      requires 0 <= width && 0 <= height
      ensures Inv() && this.from == from && this.to == to && this.width == width && this.height == height
    {
      this.from := from;
      this.to := to;
      this.width := width;
      this.height := height;
      var t: array?<Pixel> := null;
      if from.Yuv420? && (to.Rgb565? || to.Rgb565Be?) {
        t := new Pixel[TABLE_SIZE];
      }
      table := t;
      new;
      if table != null {
        InitTable(table, to.Rgb565Be?);
      }
    }

    static lemma EntryFor(table: seq<Pixel>, y: Byte, u: Byte, v: Byte, bigEndian: bool)
      requires Filled(table, bigEndian)
      ensures var x := TableIndex(y, u, v);
              0 <= x < |table| && table[x] == Convert(y, u, v, bigEndian)
    {
      hide Entry;
      IndexInRange(y / 4, u / 8, v / 8);
      assert TableIndex(y, u, v) == Index(y / 4, u / 8, v / 8);
    }

    /** Every pixel before column `j1` of row `i1` was in bounds and is in place. */
    ghost predicate Written(dst: seq<Pixel>, src: seq<Byte>, i1: int, j1: int)
      requires 0 <= width
    {
      forall i, j :: 0 <= i < height && 0 <= j < 2 * Rounds(width) && (i < i1 || (i == i1 && j < j1)) ==>
        && SamplesIn(|src|, width, height, i, j) && LumaAt(width, i, j) < |dst|
        && dst[LumaAt(width, i, j)] == PixelAt(src, width, height, i, j, to.Rgb565Be?)
    }

    /** yuv420_to_rgb565; it stays inside its buffers if `ok`. */
    method ConvertImage(src: array<Byte>, dst: array<Pixel>) returns (ok: bool)
      requires Inv() && table != null && Filled(table[..], to.Rgb565Be?) && dst != table
      modifies dst
      ensures ok <==> AllIn(src.Length, dst.Length, width, height)
      ensures ok ==> Written(dst[..], src[..], height, 0)
    {
      hide PixelAt, Filled, SamplesIn, LumaAt, RowStart, ChromaRow, AllIn;
      FirstRow(width);
      var yPos, uPos, rgbIdx := 0, 0, 0;
      for i := 0 to height
        invariant yPos == rgbIdx == RowStart(width, i) && uPos == ChromaRow(width, i)
        invariant Written(dst[..], src[..], i, 0)
      {
        var fine;
        yPos, uPos, rgbIdx, fine := ConvertRow(src, dst, i, yPos, uPos);
        if !fine {
          return false;
        }
        NextRow(width, i);
        if i % 2 == 0 {
          uPos := uPos - width / 2;
        }
      }
      WrittenIsIn(dst[..], src[..]);
      return true;
    }

    lemma WrittenIsIn(dst: seq<Pixel>, src: seq<Byte>)
      requires 0 <= width && Written(dst, src, height, 0)
      ensures AllIn(|src|, |dst|, width, height)
    {
      hide SamplesIn, LumaAt, PixelAt;
    }

    method ConvertRow(src: array<Byte>, dst: array<Pixel>, i: int, y0: int, u0: int)
      returns (yPos: int, uPos: int, rgbIdx: int, ok: bool)
      requires Inv() && table != null && Filled(table[..], to.Rgb565Be?) && dst != table
      requires 0 <= i < height && y0 == RowStart(width, i) && u0 == ChromaRow(width, i)
      requires Written(dst[..], src[..], i, 0)
      modifies dst
      ensures ok ==> Written(dst[..], src[..], i + 1, 0)
      ensures ok ==> yPos == rgbIdx == RowStart(width, i) + 2 * Rounds(width)
      ensures ok ==> uPos == ChromaRow(width, i) + Rounds(width)
      ensures !ok ==> !AllIn(src.Length, dst.Length, width, height)
    {
      hide Filled, PixelAt, SamplesIn, LumaAt, RowStart, ChromaRow;
      yPos, uPos, rgbIdx := y0, u0, y0;
      var j := 0;
      while j < width
        invariant 0 <= j <= 2 * Rounds(width) && j % 2 == 0
        invariant yPos == rgbIdx == RowStart(width, i) + j && uPos == ChromaRow(width, i) + j / 2
        invariant Written(dst[..], src[..], i, j)
      {
        rgbIdx, ok := EmitPixel(src, dst, i, j, yPos, uPos, rgbIdx);
        if !ok {
          return;
        }
        rgbIdx, ok := EmitPixel(src, dst, i, j + 1, yPos + 1, uPos, rgbIdx);
        if !ok {
          return;
        }
        yPos := yPos + 2;
        uPos := uPos + 1;
        j := j + 2;
      }
      ok := true;
    }

    /** Each half of the inner loop's body: a luma sample, the shared chroma sample, a table entry. */
    method EmitPixel(src: array<Byte>, dst: array<Pixel>, i: int, j: int, yPos: int, uPos: int, rgbIdx: int)
      returns (next: int, ok: bool)
      requires Inv() && table != null && Filled(table[..], to.Rgb565Be?) && dst != table
      requires 0 <= i < height && 0 <= j < 2 * Rounds(width)
      requires yPos == rgbIdx == RowStart(width, i) + j && uPos == ChromaRow(width, i) + j / 2
      requires Written(dst[..], src[..], i, j)
      modifies dst
      ensures ok ==> next == rgbIdx + 1 && Written(dst[..], src[..], i, j + 1)
      ensures !ok ==> !AllIn(src.Length, dst.Length, width, height)
    {
      hide Filled, PixelAt, TableIndex, RowStart, ChromaRow, Written, AllIn;
      next := rgbIdx;
      var uAt, vAt := width * height + uPos, width * height * 5 / 4 + uPos;
      if !(0 <= yPos < src.Length && 0 <= uAt < src.Length && 0 <= vAt < src.Length && rgbIdx < dst.Length) {
        NotAllIn(src.Length, dst.Length, width, height, i, j);
        return next, false;
      }
      var y: int, u: int, v: int := src[yPos], src[uAt], src[vAt];
      EntryFor(table[..], y, u, v, to.Rgb565Be?);
      ghost var was := dst[..];
      dst[rgbIdx] := table[TableIndex(y, u, v)];
      assert dst[..] == was[rgbIdx := dst[rgbIdx]];
      PixelIs(src[..], i, j, y, u, v);
      WrittenStep(was, src[..], i, j);
      return rgbIdx + 1, true;
    }

    lemma NotAllIn(n: int, m: int, w: int, h: int, i: int, j: int)
      requires 0 <= w && 0 <= i < h && 0 <= j < 2 * Rounds(w)
      requires !(SamplesIn(n, w, h, i, j) && LumaAt(w, i, j) < m)
      ensures !AllIn(n, m, w, h)
    {
      hide SamplesIn, LumaAt;
    }

    lemma PixelIs(src: seq<Byte>, i: int, j: int, y: Byte, u: Byte, v: Byte)
      requires 0 <= width && SamplesIn(|src|, width, height, i, j)
      requires y == src[LumaAt(width, i, j)] && u == src[UAt(width, height, i, j)] && v == src[VAt(width, height, i, j)]
      ensures PixelAt(src, width, height, i, j, to.Rgb565Be?) == Convert(y, u, v, to.Rgb565Be?)
    {
      hide Convert, LumaAt, UAt, VAt;
    }

    /** Pixels are written in rising order, so one more leaves the others in place. */
    lemma WrittenStep(dst: seq<Pixel>, src: seq<Byte>, i1: int, j1: int)
      requires 0 <= width && 0 <= i1 < height && 0 <= j1 < 2 * Rounds(width) && Written(dst, src, i1, j1)
      requires SamplesIn(|src|, width, height, i1, j1) && LumaAt(width, i1, j1) < |dst|
      ensures 0 <= LumaAt(width, i1, j1)
      ensures Written(dst[LumaAt(width, i1, j1) := PixelAt(src, width, height, i1, j1, to.Rgb565Be?)], src, i1, j1 + 1)
    {
      var dst' := dst[LumaAt(width, i1, j1) := PixelAt(src, width, height, i1, j1, to.Rgb565Be?)];
      hide PixelAt, RowStart, ChromaRow;
      forall i, j | 0 <= i < height && 0 <= j < 2 * Rounds(width) && (i < i1 || (i == i1 && j < j1 + 1))
        ensures SamplesIn(|src|, width, height, i, j) && LumaAt(width, i, j) < |dst'|
        ensures dst'[LumaAt(width, i, j)] == PixelAt(src, width, height, i, j, to.Rgb565Be?)
      {
        if i <= i1 {
          RowsOrdered(width, i, i1);
        }
      }
    }

    /** convert_color; `dst` counts pixels, two bytes each. */
    method ConvertColor(src: array<Byte>, dst: array<Pixel>) returns (ret: ConvertResult)
      requires Inv() && dst != table
      modifies dst
      ensures ret == if !from.Yuv420? then Crashed
                     else if src.Length != width * height * 3 / 2 || dst.Length < width * height then Rejected
                     else if !(to.Rgb565? || to.Rgb565Be?) then Rejected
                     else if AllIn(src.Length, dst.Length, width, height) then Converted else OutOfBounds
      ensures width % 2 == 0 && height % 2 == 0 ==> ret != OutOfBounds
      ensures ret == Rejected || ret == Crashed ==> dst[..] == old(dst[..])
      ensures ret == Converted ==> Written(dst[..], src[..], height, 0)
    {
      hide AllIn, Written;
      if !from.Yuv420? {
        return Crashed;
      }
      if src.Length != width * height * 3 / 2 || dst.Length < width * height {
        return Rejected;
      }
      if !(to.Rgb565? || to.Rgb565Be?) {
        return Rejected;
      }
      if width % 2 == 0 && height % 2 == 0 {
        EvenImageFits(width, height, dst.Length);
      }
      var ok := ConvertImage(src, dst);
      return if ok then Converted else OutOfBounds;
    }
  }

  /** What a converted image of even width and height holds, pixel by pixel. */
  lemma EvenPixel(src: seq<Byte>, w: int, h: int, i: int, j: int, bigEndian: bool)
    requires 0 <= i < h && 0 <= j < w && w % 2 == 0 && h % 2 == 0 && |src| == w * h * 3 / 2
    ensures SamplesIn(|src|, w, h, i, j)
    ensures var c := (i / 2) * (w / 2) + j / 2;
            && 0 <= i * w + j < |src| && 0 <= w * h + c < |src| && 0 <= w * h * 5 / 4 + c < |src|
            && PixelAt(src, w, h, i, j, bigEndian) ==
               Convert(src[i * w + j], src[w * h + c], src[w * h * 5 / 4 + c], bigEndian)
  {
    EvenImageFits(w, h, w * h);
    ChromaOfPixel(w, h, i, j);
    assert SamplesIn(|src|, w, h, i, j);
    hide Convert, LumaAt, UAt, VAt, AllIn;
  }
}
