/** `overlay_draw_crop_yuyv` (device/overlay.c:94-138): the two text lines it
    stamps onto a captured YUYV frame, the crop rectangle at scale 2 and the
    capture time at scale 1 below it, and the guards that make it a no-op. */
module CropOverlayFrame {
  import opened CropTypes
  import opened YuyvFrame
  import opened CropOverlay

  // ---------------------------------------------------------------------------
  // Decimal text, as `%u` and `PRIu64` print it

  function DigitChar(d: nat): (c: char)
    requires d < 10
    ensures IsDigit(c) && (c as int) - ('0' as int) == d
  {
    ('0' as int + d) as char
  }

  /** The shortest decimal spelling of `n`: no sign, no leading zeros, "0"
      for zero. */
  function Decimal(n: nat): (s: seq<char>)
    decreases n
    ensures 1 <= |s| && forall i :: 0 <= i < |s| ==> IsDigit(s[i])
  {
    if n < 10 then [DigitChar(n)] else Decimal(n / 10) + [DigitChar(n % 10)]
  }

  /** The number a string of decimal digits spells. */
  function ValueOf(s: seq<char>): nat
    requires forall i :: 0 <= i < |s| ==> IsDigit(s[i])
    decreases |s|
  {
    if s == [] then 0
    else
      assert IsDigit(s[|s| - 1]);
      ValueOf(s[..|s| - 1]) * 10 + ((s[|s| - 1] as int) - ('0' as int))
  }

  /** Printing then reading gives the number back, and the spelling has no
      leading zero unless it is "0". */
  lemma {:induction false} DecimalRoundTrip(n: nat)
    decreases n
    ensures ValueOf(Decimal(n)) == n
    ensures Decimal(n)[0] == '0' <==> n == 0
  {
    if n >= 10 {
      DecimalRoundTrip(n / 10);
      var s := Decimal(n);
      assert s[..|s| - 1] == Decimal(n / 10);
      assert s[0] == Decimal(n / 10)[0];
    }
  }

  function Pow10(k: nat): nat
  {
    if k == 0 then 1 else 10 * Pow10(k - 1)
  }

  /** A number below 10^k takes at most k digits. */
  lemma {:induction false} DecimalLength(n: nat, k: nat)
    requires 1 <= k && n < Pow10(k)
    decreases k
    ensures |Decimal(n)| <= k
  {
    if n >= 10 {
      DecimalLength(n / 10, k - 1);
    }
  }

  /** The crop line: "x,y,w,h" in decimal when the frame carries a crop,
      "0,0,0,0" when it does not. */
  function CropText(valid: bool, x: uint32, y: uint32, w: uint32, h: uint32): seq<char>
  {
    if valid then Decimal(x) + "," + Decimal(y) + "," + Decimal(w) + "," + Decimal(h)
    else "0,0,0,0"
  }

  /** Both texts fit the 128-byte buffers they are printed into (with room
      for the terminating NUL), so `snprintf` never truncates them. */
  lemma TextsFit(valid: bool, x: uint32, y: uint32, w: uint32, h: uint32, t: uint64)
    ensures |CropText(valid, x, y, w, h)| < 128
    ensures |Decimal(t)| < 128
  {
    assert Pow10(10) == 10000000000;
    assert Pow10(20) == 100000000000000000000;
    DecimalLength(x, 10);
    DecimalLength(y, 10);
    DecimalLength(w, 10);
    DecimalLength(h, 10);
    DecimalLength(t, 20);
  }

  // ---------------------------------------------------------------------------
  // The frame

  /** `V4L2_PIX_FMT_YUYV`, the four-character code 'Y' 'U' 'Y' 'V' read as a
      little-endian 32-bit word. */
  const PixFmtYuyv: nat := 0x5659_5559

  const Margin: nat := 8
  const ScaleCrop: nat := 2
  const ScaleTs: nat := 1
  const LineHeightCrop: nat := 5 * ScaleCrop
  const LineHeightTs: nat := 5 * ScaleTs
  const Gap: nat := 4
  const YWhite: byte := 235

  /** The row the timestamp line starts on. */
  const TsRow: nat := Margin + LineHeightCrop + Gap

  datatype Format = Format(format: nat, width: nat, height: nat)

  /** The part of a captured buffer the overlay reads and writes: the mapped
      frame bytes (`None` for a NULL `start`), the list's format (`None` for
      a NULL `buf_list`), the crop the frame was captured with and its
      capture time. */
  datatype Buffer = Buffer(
    start: Option<seq<byte>>,
    fmt: Option<Format>,
    cropValid: bool, cropX: uint32, cropY: uint32, cropWidth: uint32, cropHeight: uint32,
    capturedTimeUs: uint64)

  /** The guards of `overlay_draw_crop_yuyv`: a buffer, mapped, attached to a
      list whose format is YUYV. */
  predicate HasYuyvFrame(buf: Option<Buffer>)
  {
    && buf.Some? && buf.value.start.Some? && buf.value.fmt.Some?
    && buf.value.fmt.value.format == PixFmtYuyv
  }

  /** A drawable buffer's bytes hold at least one frame of its format; the
      code never checks this and writes only inside that frame. */
  predicate SizedIfDrawable(buf: Option<Buffer>)
  {
    HasYuyvFrame(buf) ==>
      |buf.value.start.value| >= buf.value.fmt.value.width * buf.value.fmt.value.height * 2
  }

  /** The pixels the overlay paints: the crop line at (8, 8) in scale 2, and
      the timestamp line at (8, 22) in scale 1 when its five rows end above
      the bottom of the frame. */
  predicate OverlayCovers(b: Buffer, width: nat, height: nat, xx: nat, yy: nat)
  {
    || CoveredBy(Layout(CropText(b.cropValid, b.cropX, b.cropY, b.cropWidth, b.cropHeight),
                        Margin, width, ScaleCrop).0, Margin, ScaleCrop, xx, yy)
    || (TsRow + LineHeightTs < height
        && CoveredBy(Layout(Decimal(b.capturedTimeUs), Margin, width, ScaleTs).0, TsRow, ScaleTs, xx, yy))
  }

  /** `overlay_draw_crop_yuyv`: leave everything alone unless the buffer is
      mapped YUYV; otherwise set the luma of the overlay's pixels to 235 and
      change nothing else, neither in the frame nor in any bytes after it. */
  method OverlayDrawCropYuyv(buf: Option<Buffer>) returns (out: Option<Buffer>)
    requires SizedIfDrawable(buf)
    ensures !HasYuyvFrame(buf) ==> out == buf
    ensures HasYuyvFrame(buf) ==>
      && out.Some? && out.value.start.Some?
      && out.value == buf.value.(start := out.value.start)
      && |out.value.start.value| == |buf.value.start.value|
      && var f, n := buf.value.fmt.value, buf.value.fmt.value.width * buf.value.fmt.value.height * 2;
         && out.value.start.value[n..] == buf.value.start.value[n..]
         && Painted(out.value.start.value[..n], buf.value.start.value[..n], f.width, f.height, YWhite,
              (xx: nat, yy: nat) => OverlayCovers(buf.value, f.width, f.height, xx, yy))
  {
    if buf.None? || buf.value.start.None? || buf.value.fmt.None? {
      return buf;
    }
    var b := buf.value;
    if b.fmt.value.format != PixFmtYuyv {
      return buf;
    }
    var width, height := b.fmt.value.width, b.fmt.value.height;
    var n := width * height * 2;
    var base := b.start.value[..n];
    var cropText := CropText(b.cropValid, b.cropX, b.cropY, b.cropWidth, b.cropHeight);
    var tsText := Decimal(b.capturedTimeUs);

    var drawn, _ := DrawTextLine(base, width, height, Margin, Margin, cropText, ScaleCrop, YWhite);
    var y1 := Margin + LineHeightCrop + Gap;
    if y1 + LineHeightTs < height {
      var both, _ := DrawTextLine(drawn, width, height, Margin, y1, tsText, ScaleTs, YWhite);
      PaintedThen(base, drawn, both, width, height, YWhite,
        (xx: nat, yy: nat) => CoveredBy(Layout(cropText, Margin, width, ScaleCrop).0, Margin, ScaleCrop, xx, yy),
        (xx: nat, yy: nat) => CoveredBy(Layout(tsText, Margin, width, ScaleTs).0, y1, ScaleTs, xx, yy));
      drawn := both;
    }
    out := Some(b.(start := Some(drawn + b.start.value[n..])));
    assert out.value.start.value[..n] == drawn;
  }

  /** Every glyph of a line at row `y` stays within its five scaled rows. */
  lemma {:induction false} CoveredRows(gs: seq<Glyph>, y: nat, scale: nat, xx: nat, yy: nat)
    requires CoveredBy(gs, y, scale, xx, yy)
    decreases |gs|
    ensures y <= yy < y + 5 * scale
  {
    if !GlyphCovers(gs[|gs| - 1], y, scale, xx, yy) {
      CoveredRows(gs[..|gs| - 1], y, scale, xx, yy);
    }
  }

  /** The two lines never touch: the crop line fills rows 8..17, the
      timestamp line rows 22..26, and the timestamp line is drawn only when
      all of its rows are inside the frame. */
  lemma OverlayRows(b: Buffer, width: nat, height: nat, xx: nat, yy: nat)
    requires OverlayCovers(b, width, height, xx, yy)
    ensures (Margin <= yy < Margin + LineHeightCrop) || (TsRow <= yy < TsRow + LineHeightTs < height)
  {
    var crop := Layout(CropText(b.cropValid, b.cropX, b.cropY, b.cropWidth, b.cropHeight),
                       Margin, width, ScaleCrop).0;
    if CoveredBy(crop, Margin, ScaleCrop, xx, yy) {
      CoveredRows(crop, Margin, ScaleCrop, xx, yy);
    } else {
      CoveredRows(Layout(Decimal(b.capturedTimeUs), Margin, width, ScaleTs).0, TsRow, ScaleTs, xx, yy);
    }
  }
}
