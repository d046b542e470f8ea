/** The luma plane of a packed YUYV frame and the 3x5 digit font
    (device/overlay.c:10-27). A frame of `width` x `height` pixels occupies
    `width * height * 2` bytes; pixel (x, y) keeps its luma at the even offset
    `(y * width + x) * 2` and the odd byte after it is chroma. */
module YuyvFrame {

  type byte = b: int | 0 <= b < 256

  /** A buffer that holds exactly one frame. */
  predicate FrameSized(buf: seq<byte>, width: nat, height: nat)
  {
    |buf| == width * height * 2
  }

  lemma MulLeftMono(a: nat, b: nat, w: nat)
    requires a <= b
    ensures a * w <= b * w
  {
  }

  /** The byte offset `yuyv_set_y` writes for pixel (x, y): even, and inside
      a frame of `width` x `height` pixels together with its chroma byte. */
  function LumaOffset(width: nat, height: nat, x: nat, y: nat): (off: nat)
    requires x < width && y < height
    ensures off % 2 == 0 && off + 1 < width * height * 2
  {
    MulLeftMono(y + 1, height, width);
    assert y * width + x < (y + 1) * width;
    (y * width + x) * 2
  }

  /** Row-major numbering of the pixels of a row `width` wide is one-to-one. */
  lemma RowMajorInjective(width: nat, x1: nat, y1: nat, x2: nat, y2: nat)
    requires x1 < width && x2 < width && y1 < y2
    ensures y1 * width + x1 < y2 * width + x2
  {
    MulLeftMono(y1 + 1, y2, width);
    assert (y1 + 1) * width == y1 * width + width;
  }

  /** Distinct pixels of a row-major frame have distinct luma bytes. */
  lemma LumaOffsetInjective(width: nat, height: nat, x1: nat, y1: nat, x2: nat, y2: nat)
    requires x1 < width && x2 < width && y1 < height && y2 < height
    requires LumaOffset(width, height, x1, y1) == LumaOffset(width, height, x2, y2)
    ensures x1 == x2 && y1 == y2
  {
    assert y1 * width + x1 == y2 * width + x2;
    if y1 < y2 {
      RowMajorInjective(width, x1, y1, x2, y2);
    } else if y2 < y1 {
      RowMajorInjective(width, x2, y2, x1, y1);
    }
  }

  lemma OtherPixelsElsewhere(width: nat, height: nat, x: nat, y: nat)
    requires x < width && y < height
    ensures forall xx: nat, yy: nat :: xx < width && yy < height && (xx != x || yy != y) ==>
      LumaOffset(width, height, xx, yy) != LumaOffset(width, height, x, y)
  {
    forall xx: nat, yy: nat | xx < width && yy < height && (xx != x || yy != y)
      ensures LumaOffset(width, height, xx, yy) != LumaOffset(width, height, x, y)
    {
      if LumaOffset(width, height, xx, yy) == LumaOffset(width, height, x, y) {
        LumaOffsetInjective(width, height, xx, yy, x, y);
      }
    }
  }

  /** Every even offset of a frame-sized buffer is the luma byte of a pixel,
      so a statement about every pixel's luma byte and every odd byte covers
      the whole buffer. */
  lemma EvenOffsetIsLuma(width: nat, height: nat, k: nat)
    requires k < width * height * 2 && k % 2 == 0
    ensures width > 0
    ensures (k / 2) % width < width && (k / 2) / width < height
    ensures k == LumaOffset(width, height, (k / 2) % width, (k / 2) / width)
  {
    var p := k / 2;
    assert p < width * height;
    if width == 0 {
      assert false;
    }
    var x, y := p % width, p / width;
    assert p == y * width + x;
    if y >= height {
      MulLeftMono(height, y, width);
      assert false;
    }
  }

  /** `yuyv_set_y`: overwrite the luma byte of pixel (x, y). */
  function SetLuma(buf: seq<byte>, width: nat, height: nat, x: nat, y: nat, v: byte): (buf': seq<byte>)
    requires FrameSized(buf, width, height) && x < width && y < height
    ensures FrameSized(buf', width, height)
    // the luma byte of (x, y) and nothing else
    ensures buf'[LumaOffset(width, height, x, y)] == v
    ensures forall xx: nat, yy: nat :: xx < width && yy < height && (xx != x || yy != y) ==>
      buf'[LumaOffset(width, height, xx, yy)] == buf[LumaOffset(width, height, xx, yy)]
    // chroma is never touched
    ensures forall k :: 0 <= k < |buf| && k % 2 == 1 ==> buf'[k] == buf[k]
  {
    OtherPixelsElsewhere(width, height, x, y);
    buf[LumaOffset(width, height, x, y) := v]
  }

  // ---------------------------------------------------------------------------
  // The font

  /** `font3x5`: five rows per digit, bit 2 of a row is its leftmost pixel. */
  const Font: seq<seq<bv8>> := [
    [0x07, 0x05, 0x05, 0x05, 0x07],  // 0
    [0x02, 0x06, 0x02, 0x02, 0x07],  // 1
    [0x07, 0x01, 0x07, 0x04, 0x07],  // 2
    [0x07, 0x01, 0x07, 0x01, 0x07],  // 3
    [0x05, 0x05, 0x07, 0x01, 0x01],  // 4
    [0x07, 0x04, 0x07, 0x01, 0x07],  // 5
    [0x07, 0x04, 0x07, 0x05, 0x07],  // 6
    [0x07, 0x01, 0x01, 0x01, 0x01],  // 7
    [0x07, 0x05, 0x07, 0x05, 0x07],  // 8
    [0x07, 0x05, 0x07, 0x01, 0x07]   // 9
  ]

  predicate IsDigit(c: char)
  {
    '0' <= c <= '9'
  }

  /** Whether font cell (rx, ry) of digit `c` is set: `row & (1u << (2 - rx))`. */
  predicate Lit(c: char, ry: nat, rx: nat)
    requires IsDigit(c) && ry < 5 && rx < 3
  {
    Font[(c as int) - ('0' as int)][ry] & ((1 as bv8) << (2 - rx)) != 0
  }

  /** Pixel (xx, yy) lies in the `w` x `h` rectangle at (x0, y0). */
  predicate InRect(xx: int, yy: int, x0: int, y0: int, w: int, h: int)
  {
    x0 <= xx < x0 + w && y0 <= yy < y0 + h
  }

  /** The font cell, along one axis, that pixel coordinate `p` falls in when
      cells are `scale` pixels wide and start at `origin`. */
  function CellIndex(origin: nat, scale: nat, p: nat): nat
    requires scale > 0 && origin <= p
  {
    (p - origin) / scale
  }

  /** What `draw_char_3x5` paints: for a digit and a nonzero scale, the pixels
      of its 3*scale x 5*scale box whose font cell is set. */
  predicate CharCovers(x0: nat, y0: nat, c: char, scale: nat, xx: nat, yy: nat)
  {
    && IsDigit(c) && scale > 0
    && InRect(xx, yy, x0, y0, 3 * scale, 5 * scale)
    && CellIndex(y0, scale, yy) < 5 && CellIndex(x0, scale, xx) < 3
    && Lit(c, CellIndex(y0, scale, yy), CellIndex(x0, scale, xx))
  }

  /** What `draw_comma` paints: the scale x scale square at
      (x0 + scale, y0 + 4 * scale). */
  predicate CommaCovers(x0: nat, y0: nat, scale: nat, xx: nat, yy: nat)
  {
    InRect(xx, yy, x0 + scale, y0 + 4 * scale, scale, scale)
  }
}
