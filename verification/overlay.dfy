/** The glyph painter that stamps the crop rectangle and the capture time
    onto a YUYV frame (device/overlay.c:29-138). Every drawing routine is
    described by the set of pixels whose luma it sets: `Painted` says the
    result differs from the input exactly on the luma bytes of those pixels,
    which now hold the drawing value, and never on a chroma byte. */
module CropOverlay {
  import opened CropTypes
  import opened YuyvFrame

  /** `out` is `buf` with the luma of every pixel `covered` selects set to
      `v`; all other bytes, chroma included, are those of `buf`. */
  predicate Painted(out: seq<byte>, buf: seq<byte>, width: nat, height: nat, v: byte,
                    covered: (nat, nat) -> bool)
    requires FrameSized(buf, width, height)
  {
    && FrameSized(out, width, height)
    && (forall k :: 0 <= k < |buf| && k % 2 == 1 ==> out[k] == buf[k])
    && forall xx: nat, yy: nat :: xx < width && yy < height ==>
         out[LumaOffset(width, height, xx, yy)]
           == if covered(xx, yy) then v else buf[LumaOffset(width, height, xx, yy)]
  }

  /** Painting `Q` over a painting of `P` paints their union. */
  lemma PaintedThen(a: seq<byte>, b: seq<byte>, c: seq<byte>, width: nat, height: nat, v: byte,
                    p: (nat, nat) -> bool, q: (nat, nat) -> bool)
    requires FrameSized(a, width, height)
    requires Painted(b, a, width, height, v, p) && Painted(c, b, width, height, v, q)
    ensures Painted(c, a, width, height, v, (xx: nat, yy: nat) => p(xx, yy) || q(xx, yy))
  {
  }

  /** `Painted` pins the result down byte for byte: every even offset of a
      frame is some pixel's luma byte. */
  lemma PaintedUnique(o1: seq<byte>, o2: seq<byte>, buf: seq<byte>, width: nat, height: nat, v: byte,
                      covered: (nat, nat) -> bool)
    requires FrameSized(buf, width, height)
    requires Painted(o1, buf, width, height, v, covered) && Painted(o2, buf, width, height, v, covered)
    ensures o1 == o2
  {
    forall k | 0 <= k < |buf|
      ensures o1[k] == o2[k]
    {
      if k % 2 == 0 {
        EvenOffsetIsLuma(width, height, k);
      }
    }
  }

  /** Painting no pixel leaves the buffer as it was. */
  lemma PaintedNothing(out: seq<byte>, buf: seq<byte>, width: nat, height: nat, v: byte,
                       covered: (nat, nat) -> bool)
    requires FrameSized(buf, width, height)
    requires Painted(out, buf, width, height, v, covered)
    requires forall xx: nat, yy: nat :: xx < width && yy < height ==> !covered(xx, yy)
    ensures out == buf
  {
    forall k | 0 <= k < |buf|
      ensures out[k] == buf[k]
    {
      if k % 2 == 0 {
        EvenOffsetIsLuma(width, height, k);
      }
    }
  }

  /** The two inner loops of `draw_char_3x5`: fill the scale x scale cell at
      (cx, cy), skipping rows at or below `height` and columns at or right of
      `width`. */
  method FillCell(buf: seq<byte>, width: nat, height: nat, cx: nat, cy: nat, scale: nat, v: byte)
    returns (out: seq<byte>)
    requires FrameSized(buf, width, height)
    ensures Painted(out, buf, width, height, v, (xx: nat, yy: nat) => InRect(xx, yy, cx, cy, scale, scale))
  {
    out := buf;
    var sy := 0;
    while sy < scale
      invariant sy <= scale
      invariant Painted(out, buf, width, height, v, (xx: nat, yy: nat) => InRect(xx, yy, cx, cy, scale, sy))
    {
      var yy := cy + sy;
      if yy < height {
        var sx := 0;
        while sx < scale
          invariant sx <= scale
          invariant Painted(out, buf, width, height, v,
            (px: nat, py: nat) => InRect(px, py, cx, cy, scale, sy) || InRect(px, py, cx, yy, sx, 1))
        {
          var xx := cx + sx;
          if xx < width {
            out := SetLuma(out, width, height, xx, yy, v);
          }
          sx := sx + 1;
        }
      }
      sy := sy + 1;
    }
  }

  /** `draw_comma`: fill the scale x scale square at (x0 + scale, y0 + 4 * scale),
      clipped to the frame. */
  method DrawComma(buf: seq<byte>, width: nat, height: nat, x0: nat, y0: nat, scale: nat, v: byte)
    returns (out: seq<byte>)
    requires FrameSized(buf, width, height)
    ensures Painted(out, buf, width, height, v, (xx: nat, yy: nat) => CommaCovers(x0, y0, scale, xx, yy))
  {
    var xx := x0 + scale;
    var yy := y0 + 4 * scale;
    out := buf;
    var sy := 0;
    while sy < scale
      invariant sy <= scale
      invariant Painted(out, buf, width, height, v, (px: nat, py: nat) => InRect(px, py, xx, yy, scale, sy))
    {
      var sx := 0;
      while sx < scale
        invariant sx <= scale
        invariant Painted(out, buf, width, height, v,
          (px: nat, py: nat) => InRect(px, py, xx, yy, scale, sy) || InRect(px, py, xx, yy + sy, sx, 1))
      {
        var x := xx + sx;
        var y := yy + sy;
        if x < width && y < height {
          out := SetLuma(out, width, height, x, y, v);
        }
        sx := sx + 1;
      }
      sy := sy + 1;
    }
  }

  // ---------------------------------------------------------------------------
  // Digits

  /** The pixels of the lit font cells that come before cell (ry, rx) in the
      row-major order `draw_char_3x5` visits them. */
  predicate LitBefore(c: char, x0: nat, y0: nat, scale: nat, ry: nat, rx: nat, xx: nat, yy: nat)
    requires IsDigit(c) && ((ry < 5 && rx <= 3) || (ry == 5 && rx == 0))
    decreases ry, rx
  {
    if rx > 0 then
      || LitBefore(c, x0, y0, scale, ry, rx - 1, xx, yy)
      || (Lit(c, ry, rx - 1) && InRect(xx, yy, x0 + (rx - 1) * scale, y0 + ry * scale, scale, scale))
    else if ry > 0 then LitBefore(c, x0, y0, scale, ry - 1, 3, xx, yy)
    else false
  }

  /** Pixel coordinate `p` lies in cell `i` exactly when `CellIndex` says so. */
  lemma CellIndexExact(origin: nat, scale: nat, i: nat, p: nat)
    requires scale > 0 && origin <= p
    ensures origin + i * scale <= p < origin + i * scale + scale <==> CellIndex(origin, scale, p) == i
  {
    var d := p - origin;
    var q, r := d / scale, d % scale;
    assert d == q * scale + r && 0 <= r < scale;
    if q < i {
      MulLeftMono(q + 1, i, scale);
    } else if i < q {
      MulLeftMono(i + 1, q, scale);
    }
  }

  /** Pixel coordinate `p` lies in the first `n` cells exactly when its
      `CellIndex` is below `n`. */
  lemma CellIndexBound(origin: nat, scale: nat, n: nat, p: nat)
    requires scale > 0 && origin <= p
    ensures p < origin + n * scale <==> CellIndex(origin, scale, p) < n
  {
    var d := p - origin;
    var q, r := d / scale, d % scale;
    assert d == q * scale + r && 0 <= r < scale;
    if q < n {
      MulLeftMono(q + 1, n, scale);
    } else {
      MulLeftMono(n, q, scale);
    }
  }

  /** A pixel is in the lit cells before (ry, rx) exactly when the glyph covers
      it and its cell comes before (ry, rx). */
  lemma {:induction false} LitBeforeExactly(c: char, x0: nat, y0: nat, scale: nat, ry: nat, rx: nat, xx: nat, yy: nat)
    requires IsDigit(c) && ((ry < 5 && rx <= 3) || (ry == 5 && rx == 0))
    decreases ry, rx
    ensures LitBefore(c, x0, y0, scale, ry, rx, xx, yy) <==>
      && CharCovers(x0, y0, c, scale, xx, yy)
      && var cy, cx := CellIndex(y0, scale, yy), CellIndex(x0, scale, xx);
         cy < ry || (cy == ry && cx < rx)
  {
    if rx > 0 {
      LitBeforeExactly(c, x0, y0, scale, ry, rx - 1, xx, yy);
      var inCell := InRect(xx, yy, x0 + (rx - 1) * scale, y0 + ry * scale, scale, scale);
      if scale > 0 && xx >= x0 && yy >= y0 {
        var cx, cy := CellIndex(x0, scale, xx), CellIndex(y0, scale, yy);
        CellIndexExact(x0, scale, rx - 1, xx);
        CellIndexExact(y0, scale, ry, yy);
        assert inCell <==> cx == rx - 1 && cy == ry;
        CellIndexBound(x0, scale, 3, xx);
        CellIndexBound(y0, scale, 5, yy);
      } else {
        MulLeftMono(0, rx - 1, scale);
        MulLeftMono(0, ry, scale);
        assert !inCell;
      }
    } else if ry > 0 {
      LitBeforeExactly(c, x0, y0, scale, ry - 1, 3, xx, yy);
    }
  }

  /** `draw_char_3x5`: nothing for a character outside '0'..'9'; otherwise
      the lit cells of its font entry, each blown up to scale x scale pixels,
      with the 3 x 5 cell box at (x0, y0), clipped to the frame. */
  method DrawChar3x5(buf: seq<byte>, width: nat, height: nat, x0: nat, y0: nat, c: char, scale: nat, v: byte)
    returns (out: seq<byte>)
    requires FrameSized(buf, width, height)
    ensures Painted(out, buf, width, height, v, (xx: nat, yy: nat) => CharCovers(x0, y0, c, scale, xx, yy))
    ensures !IsDigit(c) ==> out == buf
  {
    if !IsDigit(c) {
      return buf;
    }
    out := buf;
    var ry := 0;
    while ry < 5
      invariant ry <= 5
      invariant Painted(out, buf, width, height, v,
        (xx: nat, yy: nat) => LitBefore(c, x0, y0, scale, ry, 0, xx, yy))
    {
      var rx := 0;
      while rx < 3
        invariant rx <= 3
        invariant Painted(out, buf, width, height, v,
          (xx: nat, yy: nat) => LitBefore(c, x0, y0, scale, ry, rx, xx, yy))
      {
        if Lit(c, ry, rx) {
          var cx, cy := x0 + rx * scale, y0 + ry * scale;
          var next := FillCell(out, width, height, cx, cy, scale, v);
          PaintedThen(buf, out, next, width, height, v,
            (xx: nat, yy: nat) => LitBefore(c, x0, y0, scale, ry, rx, xx, yy),
            (xx: nat, yy: nat) => InRect(xx, yy, cx, cy, scale, scale));
          out := next;
        }
        rx := rx + 1;
      }
      ry := ry + 1;
    }
    forall xx: nat, yy: nat
      ensures LitBefore(c, x0, y0, scale, 5, 0, xx, yy) <==> CharCovers(x0, y0, c, scale, xx, yy)
    {
      LitBeforeExactly(c, x0, y0, scale, 5, 0, xx, yy);
    }
  }

  // ---------------------------------------------------------------------------
  // Text lines

  /** A character `draw_text_line` draws: a comma or a decimal digit. Any
      other character is skipped without moving the pen. */
  predicate Drawable(c: char)
  {
    c == ',' || IsDigit(c)
  }

  /** How far the pen moves after drawing `c`. */
  function Advance(c: char, scale: nat): nat
  {
    if c == ',' then 2 * scale else if IsDigit(c) then 4 * scale else 0
  }

  /** A character drawn with its cell box's left edge at column `x`. */
  datatype Glyph = Glyph(c: char, x: nat)

  /** What `draw_text_line` paints for one glyph on the line at row `y`. */
  predicate GlyphCovers(g: Glyph, y: nat, scale: nat, xx: nat, yy: nat)
  {
    if g.c == ',' then CommaCovers(g.x, y, scale, xx, yy) else CharCovers(g.x, y, g.c, scale, xx, yy)
  }

  /** What a sequence of glyphs paints: the union of what each paints. */
  predicate CoveredBy(gs: seq<Glyph>, y: nat, scale: nat, xx: nat, yy: nat)
    decreases |gs|
  {
    |gs| > 0 && (CoveredBy(gs[..|gs| - 1], y, scale, xx, yy) || GlyphCovers(gs[|gs| - 1], y, scale, xx, yy))
  }

  /** The layout of one line, as a reference for `draw_text_line`: the glyphs
      it places, left to right, and the pen position it returns. The line
      stops at the first drawable character whose advance would reach
      `width`. */
  function Layout(text: seq<char>, x: nat, width: nat, scale: nat): (seq<Glyph>, nat)
    decreases |text|
  {
    if text == [] then ([], x)
    else if !Drawable(text[0]) then Layout(text[1..], x, width, scale)
    else if x + Advance(text[0], scale) >= width then ([], x)
    else
      var rest := Layout(text[1..], x + Advance(text[0], scale), width, scale);
      ([Glyph(text[0], x)] + rest.0, rest.1)
  }

  /** `draw_text_line`: draw `text` left to right from column `x` on row `y`
      and return the final pen position. */
  method DrawTextLine(buf: seq<byte>, width: nat, height: nat, x: nat, y: nat, text: seq<char>, scale: nat, v: byte)
    returns (out: seq<byte>, xEnd: nat)
    requires FrameSized(buf, width, height)
    ensures Painted(out, buf, width, height, v,
      (xx: nat, yy: nat) => CoveredBy(Layout(text, x, width, scale).0, y, scale, xx, yy))
    ensures xEnd == Layout(text, x, width, scale).1
    ensures x <= xEnd && (Layout(text, x, width, scale).0 != [] ==> xEnd < width)
    // text without a digit or a comma leaves the frame and the pen alone
    ensures Drawables(text) == [] ==> out == buf && xEnd == x
  {
    out := buf;
    var pen: nat := x;
    ghost var done: seq<Glyph> := [];
    var i := 0;
    assert text[i..] == text;
    assert done + Layout(text, x, width, scale).0 == Layout(text, x, width, scale).0;
    while i < |text|
      invariant i <= |text|
      invariant Layout(text, x, width, scale) ==
        (done + Layout(text[i..], pen, width, scale).0, Layout(text[i..], pen, width, scale).1)
      invariant Painted(out, buf, width, height, v, (xx: nat, yy: nat) => CoveredBy(done, y, scale, xx, yy))
    {
      var c := text[i];
      assert text[i..][1..] == text[i + 1..];
      if c == ',' {
        if pen + 2 * scale >= width {
          assert done + Layout(text[i..], pen, width, scale).0 == done;
          break;
        }
        var next := DrawComma(out, width, height, pen, y, scale, v);
        CoveredByAppend(done, Glyph(c, pen), y, scale);
        PaintedThen(buf, out, next, width, height, v,
          (xx: nat, yy: nat) => CoveredBy(done, y, scale, xx, yy),
          (xx: nat, yy: nat) => CommaCovers(pen, y, scale, xx, yy));
        out := next;
        assert done + Layout(text[i..], pen, width, scale).0
          == (done + [Glyph(c, pen)]) + Layout(text[i + 1..], pen + 2 * scale, width, scale).0;
        done := done + [Glyph(c, pen)];
        pen := pen + 2 * scale;
      } else if '0' <= c <= '9' {
        if pen + 4 * scale >= width {
          assert done + Layout(text[i..], pen, width, scale).0 == done;
          break;
        }
        var next := DrawChar3x5(out, width, height, pen, y, c, scale, v);
        CoveredByAppend(done, Glyph(c, pen), y, scale);
        PaintedThen(buf, out, next, width, height, v,
          (xx: nat, yy: nat) => CoveredBy(done, y, scale, xx, yy),
          (xx: nat, yy: nat) => CharCovers(pen, y, c, scale, xx, yy));
        out := next;
        assert done + Layout(text[i..], pen, width, scale).0
          == (done + [Glyph(c, pen)]) + Layout(text[i + 1..], pen + 4 * scale, width, scale).0;
        done := done + [Glyph(c, pen)];
        pen := pen + 4 * scale;
      }
      i := i + 1;
    }
    if i == |text| {
      assert done + Layout(text[i..], pen, width, scale).0 == done;
    }
    xEnd := pen;
    LayoutEnd(text, x, width, scale);
    if Drawables(text) == [] {
      LayoutGreedy(text, x, width, scale);
      PaintedNothing(out, buf, width, height, v,
        (xx: nat, yy: nat) => CoveredBy(Layout(text, x, width, scale).0, y, scale, xx, yy));
    }
  }

  lemma CoveredByAppend(gs: seq<Glyph>, g: Glyph, y: nat, scale: nat)
    ensures forall xx: nat, yy: nat :: CoveredBy(gs + [g], y, scale, xx, yy) <==>
      CoveredBy(gs, y, scale, xx, yy) || GlyphCovers(g, y, scale, xx, yy)
  {
    assert (gs + [g])[..|gs|] == gs;
  }

  /** The characters of `text` that `draw_text_line` would draw given room. */
  function Drawables(text: seq<char>): seq<char>
    decreases |text|
  {
    if text == [] then []
    else if Drawable(text[0]) then [text[0]] + Drawables(text[1..])
    else Drawables(text[1..])
  }

  function Chars(gs: seq<Glyph>): seq<char>
    decreases |gs|
  {
    if gs == [] then [] else [gs[0].c] + Chars(gs[1..])
  }

  /** Where the pen ends: at `x` when nothing was drawn, otherwise one
      advance after the last glyph, which starts the line at `x`; the pen never
      moves left and, once something was drawn, stays left of `width`. */
  lemma {:induction false} LayoutEnd(text: seq<char>, x: nat, width: nat, scale: nat)
    decreases |text|
    ensures var (gs, end) := Layout(text, x, width, scale);
      && x <= end
      && (gs == [] ==> end == x)
      && (gs != [] ==> gs[0].x == x && end == gs[|gs| - 1].x + Advance(gs[|gs| - 1].c, scale) < width)
  {
    if text != [] {
      var adv := Advance(text[0], scale);
      if !Drawable(text[0]) {
        LayoutEnd(text[1..], x, width, scale);
      } else if x + adv < width {
        LayoutEnd(text[1..], x + adv, width, scale);
        var rest := Layout(text[1..], x + adv, width, scale).0;
        var gs := Layout(text, x, width, scale).0;
        assert gs == [Glyph(text[0], x)] + rest;
      }
    }
  }

  /** Where the glyphs go: each one advance after the one before, and each
      ending left of `width`. */
  lemma {:induction false} LayoutSpacing(text: seq<char>, x: nat, width: nat, scale: nat)
    decreases |text|
    ensures var gs := Layout(text, x, width, scale).0;
      && (forall k :: 0 <= k < |gs| ==> gs[k].x + Advance(gs[k].c, scale) < width)
      && (forall k :: 0 < k < |gs| ==> gs[k].x == gs[k - 1].x + Advance(gs[k - 1].c, scale))
  {
    if text != [] {
      var adv := Advance(text[0], scale);
      if !Drawable(text[0]) {
        LayoutSpacing(text[1..], x, width, scale);
        assert Layout(text, x, width, scale) == Layout(text[1..], x, width, scale);
      } else if x + adv < width {
        LayoutSpacing(text[1..], x + adv, width, scale);
        LayoutEnd(text[1..], x + adv, width, scale);
        var rest := Layout(text[1..], x + adv, width, scale).0;
        var gs := Layout(text, x, width, scale).0;
        assert gs == [Glyph(text[0], x)] + rest;
        forall k | 0 < k < |gs|
          ensures gs[k].x == gs[k - 1].x + Advance(gs[k - 1].c, scale)
        {
          assert gs[k] == rest[k - 1];
        }
      }
    }
  }

  /** What gets drawn: the drawable characters of `text` in order, as many as
      fit; the first one left out is one whose advance from the returned pen
      would reach `width`. */
  lemma {:induction false} LayoutGreedy(text: seq<char>, x: nat, width: nat, scale: nat)
    decreases |text|
    ensures var (gs, end) := Layout(text, x, width, scale);
      && |gs| <= |Drawables(text)|
      && Chars(gs) == Drawables(text)[..|gs|]
      && (|gs| < |Drawables(text)| ==> end + Advance(Drawables(text)[|gs|], scale) >= width)
  {
    if text != [] {
      var adv := Advance(text[0], scale);
      if !Drawable(text[0]) {
        LayoutGreedy(text[1..], x, width, scale);
      } else if x + adv < width {
        LayoutGreedy(text[1..], x + adv, width, scale);
        var rest := Layout(text[1..], x + adv, width, scale).0;
        var gs := Layout(text, x, width, scale).0;
        assert gs == [Glyph(text[0], x)] + rest;
        assert gs[1..] == rest;
        assert Drawables(text)[..|gs|] == [text[0]] + Drawables(text[1..])[..|rest|];
      }
    }
  }
}
