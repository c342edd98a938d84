/** BochsUwpBridge.cpp: the emulator's frame, the accumulated dirty box, and the copy into a
    consumer's snapshot. This module says what each entry point does to the values involved. */
module FrameBridge {
  import opened Arith
  import opened Bytes

  type Pixel = p: int | 0 <= p < 0x1_0000_0000

  const OPAQUE_BLACK: Pixel := 0xff00_0000

  datatype Rect = Rect(x: nat, y: nat, width: nat, height: nat, valid: bool)
  const NO_RECT := Rect(0, 0, 0, 0, false)

  datatype Frame = Frame(
    width: nat, height: nat, pitch: nat, bpp: nat,
    valid: bool, dirty: bool, dirtyRect: Rect, pixels: seq<Pixel>)
  const NO_FRAME := Frame(0, 0, 0, 0, false, false, NO_RECT, [])

  predicate SameGeometry(f: Frame, t: Frame) {
    f.width == t.width && f.height == t.height && f.pitch == t.pitch && f.bpp == t.bpp
  }

  function FullRect(f: Frame): Rect { Rect(0, 0, f.width, f.height, f.valid) }

  /** Pixel `k` of a `width`-wide image lies in columns x..x+w of rows y..y+h. */
  predicate InBox(k: nat, width: nat, x: nat, y: nat, w: nat, h: nat)
    requires 0 < width
  {
    y <= k / width < y + h && x <= k % width < x + w
  }

  /** The pixels a row copy of a 32-bit byte count moves. */
  function RowPixels(width: nat): nat { U32(width * 4) / 4 }

  /** The little-endian word at a byte offset. The caller's buffer covers every byte asked for;
      the value past its end is arbitrary. */
  function WordAt(src: seq<Byte>, at: nat): Pixel {
    if at + 4 <= |src| then FromLe32(src[at..at + 4]) else 0
  }

  lemma WordIsLittleEndian(src: seq<Byte>, at: nat)
    requires at + 4 <= |src|
    ensures Le32(WordAt(src, at)) == src[at..at + 4]
    ensures WordAt(src, at) % 0x100 == src[at] as int
  {
    FromLe32RoundTrip(src[at..at + 4]);
  }

  /** Where row `row`, column `col` of the rectangle being drawn lies in its source. */
  function SourceOffset(row: nat, col: nat, pitch: nat): nat { RowStart(row, pitch) + 4 * col }

  /** row * pitch, the way an advancing pointer gets there. */
  function RowStart(row: nat, pitch: nat): nat {
    if row == 0 then 0 else RowStart(row - 1, pitch) + pitch
  }

  lemma {:induction false} RowStartIsProduct(row: nat, pitch: nat)
    ensures RowStart(row, pitch) == row * pitch
  {
    if row > 0 { RowStartIsProduct(row - 1, pitch); }
  }

  function Configure(f: Frame, width: nat, height: nat, pitch: nat, bpp: nat): Frame {
    var valid := width > 0 && height > 0 && pitch >= U32(width * 4) && bpp == 32;
    Frame(width, height, pitch, bpp, valid, true, Rect(0, 0, width, height, valid),
          seq(if valid then U32(width * height) else 0, _ => OPAQUE_BLACK))
  }

  /** The length of the smallest interval holding both [a, a+la) and [b, b+lb), in 32-bit arithmetic. */
  function SpanLength(a: nat, la: nat, b: nat, lb: nat): nat {
    U32(Max(U32(a + la), U32(b + lb)) - Min(a, b))
  }

  /** The smallest box holding `d` and the rectangle. */
  function Union(d: Rect, x: nat, y: nat, width: nat, height: nat): Rect {
    Rect(Min(d.x, x), Min(d.y, y),
         SpanLength(d.x, d.width, x, width), SpanLength(d.y, d.height, y, height), true)
  }

  function IncludeDirtyRect(f: Frame, x: nat, y: nat, width: nat, height: nat): Rect {
    if !f.valid || width == 0 || height == 0 then f.dirtyRect
    else if !f.dirtyRect.valid then Rect(x, y, width, height, true)
    else Union(f.dirtyRect, x, y, width, height)
  }

  /** `pixels` with the box replaced by rows of `src`, `sourcePitch` bytes apart. */
  function Painted(pixels: seq<Pixel>, width: nat, x: nat, y: nat, w: nat, h: nat,
                   src: seq<Byte>, sourcePitch: nat): (r: seq<Pixel>)
    requires 0 < width
    ensures |r| == |pixels|
  {
    seq(|pixels|, k requires 0 <= k < |pixels| =>
      if InBox(k, width, x, y, w, h)
      then WordAt(src, SourceOffset(k / width - y, k % width - x, sourcePitch))
      else pixels[k])
  }

  function UpdateRect(f: Frame, src: seq<Byte>, sourcePitch: nat,
                      x: nat, y: nat, width: nat, height: nat): Frame
  {
    if width == 0 || height == 0 || !f.valid || x >= f.width || y >= f.height then f
    else
      var w, h := Min(width, f.width - x), Min(height, f.height - y);
      f.(pixels := Painted(f.pixels, f.width, x, y, RowPixels(w), h, src, sourcePitch),
         dirty := true,
         dirtyRect := IncludeDirtyRect(f, x, y, w, h))
  }

  /** `s` with its first `n` elements set to `v`. */
  function Filled<T>(s: seq<T>, n: nat, v: T): (r: seq<T>)
    requires n <= |s|
    ensures |r| == |s|
  {
    seq(|s|, k requires 0 <= k < |s| => if k < n then v else s[k])
  }

  function Clear(f: Frame, bgra: Pixel): Frame {
    if !f.valid then f
    else f.(pixels := Filled(f.pixels, |f.pixels|, bgra), dirty := true, dirtyRect := FullRect(f))
  }

  /** `target` with the box taken from `source`. */
  function Blended(target: seq<Pixel>, source: seq<Pixel>, width: nat,
                   x: nat, y: nat, w: nat, h: nat): (r: seq<Pixel>)
    requires 0 < width && |target| == |source|
    ensures |r| == |target|
  {
    seq(|target|, k requires 0 <= k < |target| =>
      if InBox(k, width, x, y, w, h) then source[k] else target[k])
  }

  predicate PixelsIncluded(f: Frame, force: bool) { f.valid && (f.dirty || force) }

  /** The box CopyFrameInto() decides to transfer into a snapshot of `have` pixels. */
  function CopyRect(f: Frame, have: nat, sizeChanged: bool, force: bool): Rect {
    if (force && !f.dirty) || sizeChanged || !f.dirtyRect.valid || have != f.width * f.height
    then FullRect(f)
    else f.dirtyRect
  }

  predicate Partial(f: Frame, r: Rect) {
    r.valid && r.width > 0 && r.height > 0 && (r.width != f.width || r.height != f.height)
  }

  /** The snapshot's pixels after transferring box `r`. */
  function Transferred(f: Frame, pixels: seq<Pixel>, r: Rect): seq<Pixel>
    requires 0 < f.width
  {
    if Partial(f, r) && |pixels| == |f.pixels|
    then Blended(pixels, f.pixels, f.width, r.x, r.y, RowPixels(r.width), r.height)
    else f.pixels
  }

  /** The consumer's snapshot after CopyFrameInto(). */
  function CopyInto(f: Frame, t: Frame, force: bool): Frame
    requires Sized(f)
  {
    var base := Frame(f.width, f.height, f.pitch, f.bpp, f.valid, PixelsIncluded(f, force), t.dirtyRect, t.pixels);
    if !f.valid then base.(pixels := [], dirtyRect := NO_RECT)
    else if !PixelsIncluded(f, force) then base
    else
      var r := CopyRect(f, |t.pixels|, !SameGeometry(f, t), force);
      base.(dirtyRect := r, pixels := Transferred(f, t.pixels, r))
  }

  /** The bridge's frame after CopyFrameInto(): handed over, unless it was invalid. */
  function HandedOver(f: Frame): Frame {
    if f.valid && f.dirty then f.(dirty := false, dirtyRect := NO_RECT) else f
  }

  // ----- Geometry -----

  /** The buffer holds the whole image. */
  predicate Sized(f: Frame) {
    f.valid ==> 0 < f.width && 0 < f.height && |f.pixels| == f.width * f.height
  }

  /** The allocation, computed in 32 bits, is big enough exactly when the area fits 32 bits. */
  lemma ConfiguredIsSized(f: Frame, width: nat, height: nat, pitch: nat, bpp: nat)
    requires width < BIT32 && height < BIT32
    ensures var r := Configure(f, width, height, pitch, bpp);
      Sized(r) <==> (r.valid ==> width * height < BIT32)
  {
    var area := width * height;
    U32Fits(area);
    assert |Configure(f, width, height, pitch, bpp).pixels|
      == if Configure(f, width, height, pitch, bpp).valid then U32(area) else 0;
  }

  /** A full row is moved exactly when its byte count fits 32 bits. */
  lemma RowIsWhole(width: nat)
    requires width < BIT32
    ensures RowPixels(width) == width <==> width < 0x4000_0000
    ensures RowPixels(width) <= width
  {}

  /** A run of pixels inside one row, by index. */
  lemma BoxRow(k: nat, width: nat, x: nat, row: nat, w: nat)
    requires 0 < width && x + w <= width
    ensures RowStart(row, width) + x <= k < RowStart(row, width) + x + w
       <==> k / width == row && x <= k % width < x + w
    ensures k / width == row ==> k % width == k - RowStart(row, width)
  {
    RowStartIsProduct(row, width);
    var q, c := k / width, k % width;
    assert k == q * width + c;
    assert (q - row) * width == q * width - row * width;
    MultipleGrows(q - row, width);
  }

  lemma RowInBounds(width: nat, height: nat, row: nat, x: nat, w: nat)
    requires x + w <= width && row < height
    ensures RowStart(row, width) + x + w <= width * height
  {
    RowStartIsProduct(row, width);
    assert (height - row) * width == height * width - row * width;
    MultipleGrows(height - row, width);
  }

  lemma AllRows(width: nat, height: nat)
    ensures RowStart(height, width) == width * height
  {
    RowStartIsProduct(height, width);
  }

  /** The 32-bit product the source computes is where the row starts. */
  lemma RowStart32(row: nat, width: nat)
    requires RowStart(row, width) < BIT32
    ensures U32(row * width) == RowStart(row, width)
  {
    RowStartIsProduct(row, width);
    U32Exact(row * width);
  }

  // ----- The dirty box -----

  predicate Inside(d: Rect, width: nat, height: nat) {
    0 < d.width && 0 < d.height && d.x + d.width <= width && d.y + d.height <= height
  }

  /** `e` reaches at least as far as `d` on all four sides. */
  predicate Covers(e: Rect, d: Rect) {
    e.x <= d.x && d.x + d.width <= e.x + e.width && e.y <= d.y && d.y + d.height <= e.y + e.height
  }

  /** One axis of the union. */
  lemma UnionSpan(a: nat, la: nat, b: nat, lb: nat, n: nat)
    requires 0 < la && 0 < lb && a + la <= n && b + lb <= n && n < BIT32
    ensures Min(a, b) + SpanLength(a, la, b, lb) == Max(a + la, b + lb)
  {
    U32Exact(a + la);
    U32Exact(b + lb);
    U32Exact(Max(a + la, b + lb) - Min(a, b));
  }

  /** The accumulated box contains the old box and the new rectangle, and stays inside the frame. */
  lemma UnionCovers(d: Rect, r: Rect, width: nat, height: nat)
    requires width < BIT32 && height < BIT32 && Inside(d, width, height) && Inside(r, width, height)
    ensures var e := Union(d, r.x, r.y, r.width, r.height);
      Inside(e, width, height) && Covers(e, d) && Covers(e, r)
  {
    UnionSpan(d.x, d.width, r.x, r.width, width);
    UnionSpan(d.y, d.height, r.y, r.height, height);
  }

  /** And it is the least such box. */
  lemma UnionIsLeast(d: Rect, r: Rect, width: nat, height: nat, b: Rect)
    requires width < BIT32 && height < BIT32 && Inside(d, width, height) && Inside(r, width, height)
    requires Covers(b, d) && Covers(b, r)
    ensures Covers(b, Union(d, r.x, r.y, r.width, r.height))
  {
    UnionSpan(d.x, d.width, r.x, r.width, width);
    UnionSpan(d.y, d.height, r.y, r.height, height);
  }

  /** The rectangle an update draws after clipping. */
  function Clipped(f: Frame, x: nat, y: nat, width: nat, height: nat): Rect
    requires x < f.width && y < f.height
  {
    Rect(x, y, Min(width, f.width - x), Min(height, f.height - y), true)
  }

  /** What every entry point keeps: the buffer covers the image, in 32 bits, and the box lies inside it. */
  predicate WellFormed(f: Frame) {
    && Sized(f)
    && (f.valid ==> f.width < BIT32 && f.height < BIT32 && |f.pixels| < BIT32)
    && (f.valid && f.dirtyRect.valid ==> Inside(f.dirtyRect, f.width, f.height))
  }

  lemma UpdateKeepsWellFormed(f: Frame, src: seq<Byte>, pitch: nat, x: nat, y: nat, width: nat, height: nat)
    requires WellFormed(f)
    ensures WellFormed(UpdateRect(f, src, pitch, x, y, width, height))
  {
    if width > 0 && height > 0 && f.valid && x < f.width && y < f.height && f.dirtyRect.valid {
      UnionCovers(f.dirtyRect, Clipped(f, x, y, width, height), f.width, f.height);
    }
  }
}
