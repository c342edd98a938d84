/** The bridge's entry points as they run: one frame record changed in place, rows copied one at a time
    through advancing pointers. Each is proved to do what FrameBridge says. */
module BridgeHost {
  import opened Arith
  import opened Bytes
  import opened FrameBridge

  /** `s` with the elements from `at` on overwritten by `row`. */
  function Splice<T>(s: seq<T>, at: nat, row: seq<T>): (r: seq<T>)
    requires at + |row| <= |s|
    ensures |r| == |s|
    ensures forall k :: 0 <= k < |s| ==> r[k] == if at <= k < at + |row| then row[k - at] else s[k]
  {
    s[..at] + row + s[at + |row|..]
  }

  /** One source row of an update. */
  function SourceRow(src: seq<Byte>, row: nat, cols: nat, pitch: nat): (r: seq<Pixel>)
    ensures |r| == cols
  {
    seq(cols, i requires 0 <= i < cols => WordAt(src, SourceOffset(row, i, pitch)))
  }

  /** Painting one more row is one more row copy. */
  lemma PaintRow(pixels: seq<Pixel>, width: nat, height: nat, x: nat, y: nat, w: nat, row: nat,
                 src: seq<Byte>, pitch: nat)
    requires 0 < width && x + w <= width && y + row < height && |pixels| == width * height
    ensures RowStart(y + row, width) + x + w <= |pixels|
    ensures Painted(pixels, width, x, y, w, row + 1, src, pitch)
         == Splice(Painted(pixels, width, x, y, w, row, src, pitch), RowStart(y + row, width) + x,
                   SourceRow(src, row, w, pitch))
  {
    RowInBounds(width, height, y + row, x, w);
    var at := RowStart(y + row, width) + x;
    var more := Painted(pixels, width, x, y, w, row + 1, src, pitch);
    forall k | 0 <= k < |pixels|
      ensures more[k] == if at <= k < at + w then SourceRow(src, row, w, pitch)[k - at]
                         else Painted(pixels, width, x, y, w, row, src, pitch)[k]
    {
      BoxRow(k, width, x, y + row, w);
    }
  }

  /** Blending one more row is one more row copy. */
  lemma BlendRow(target: seq<Pixel>, source: seq<Pixel>, width: nat, height: nat,
                 x: nat, y: nat, w: nat, row: nat)
    requires 0 < width && x + w <= width && y + row < height && |target| == |source| == width * height
    ensures RowStart(y + row, width) + x + w <= |target|
    ensures var at := RowStart(y + row, width) + x;
      Blended(target, source, width, x, y, w, row + 1)
        == Splice(Blended(target, source, width, x, y, w, row), at, source[at..at + w])
  {
    RowInBounds(width, height, y + row, x, w);
    var at := RowStart(y + row, width) + x;
    forall k | 0 <= k < |target|
      ensures Blended(target, source, width, x, y, w, row + 1)[k]
           == if at <= k < at + w then source[k] else Blended(target, source, width, x, y, w, row)[k]
    {
      BoxRow(k, width, x, y + row, w);
    }
  }

  /** BochsFrameSnapshot, without the status text. */
  class Snapshot {
    var width: nat
    var height: nat
    var pitch: nat
    var bpp: nat
    var valid: bool
    var dirty: bool
    var dirtyRect: Rect
    var pixels: seq<Pixel>

    ghost function Value(): Frame
      reads this
    {
      Frame(width, height, pitch, bpp, valid, dirty, dirtyRect, pixels)
    }

    constructor ()
      ensures Value() == NO_FRAME
    {
      width, height, pitch, bpp := 0, 0, 0, 0;
      valid, dirty, dirtyRect, pixels := false, false, NO_RECT, [];
    }
  }

  class Bridge {
    const frame: Snapshot

    constructor ()
      ensures fresh(frame) && frame.Value() == NO_FRAME
    {
      frame := new Snapshot();
    }

    ghost predicate Valid()
      reads frame
    {
      WellFormed(frame.Value())
    }

    method SetFullDirtyRect()
      modifies frame`dirtyRect
      ensures frame.dirtyRect == FullRect(frame.Value())
    {
      frame.dirtyRect := Rect(0, 0, frame.width, frame.height, frame.valid);
    }

    method IncludeRect(x: nat, y: nat, width: nat, height: nat)
      modifies frame`dirtyRect
      ensures frame.dirtyRect == IncludeDirtyRect(old(frame.Value()), x, y, width, height)
    {
      if !frame.valid || width == 0 || height == 0 { return; }
      var d := frame.dirtyRect;
      if !d.valid {
        frame.dirtyRect := Rect(x, y, width, height, true);
        return;
      }
      var left, top := Min(d.x, x), Min(d.y, y);
      var right: int := Max(U32(d.x + d.width), U32(x + width));
      var bottom: int := Max(U32(d.y + d.height), U32(y + height));
      frame.dirtyRect := Rect(left, top, U32(right - left), U32(bottom - top), true);
    }

    method HostConfigure(width: nat, height: nat, pitch: nat, bpp: nat)
      modifies frame
      ensures frame.Value() == Configure(old(frame.Value()), width, height, pitch, bpp)
      ensures frame.width == width && frame.height == height && frame.pitch == pitch && frame.bpp == bpp
      ensures frame.valid <==> 0 < width && 0 < height && U32(width * 4) <= pitch && bpp == 32
      ensures frame.dirty && frame.dirtyRect == FullRect(frame.Value())
      ensures forall k :: 0 <= k < |frame.pixels| ==> frame.pixels[k] == 0xff00_0000
      ensures width < BIT32 && height < BIT32 && (frame.valid ==> width * height < BIT32) ==> Valid()
    {
      frame.width, frame.height, frame.pitch, frame.bpp := width, height, pitch, bpp;
      frame.valid := width > 0 && height > 0 && pitch >= U32(width * 4) && bpp == 32;
      frame.dirty := true;
      frame.pixels := seq(if frame.valid then U32(width * height) else 0, _ => OPAQUE_BLACK);
      SetFullDirtyRect();
    }

    method HostUpdateRect(bgra: seq<Byte>, sourcePitch: nat, x: nat, y: nat, width: nat, height: nat)
      requires Valid()
      modifies frame
      ensures frame.Value() == UpdateRect(old(frame.Value()), bgra, sourcePitch, x, y, width, height)
      ensures !frame.valid || width == 0 || height == 0 || x >= frame.width || y >= frame.height ==>
        frame.Value() == old(frame.Value())
      ensures Valid()
    {
      if width == 0 || height == 0 { return; }
      if !frame.valid || x >= frame.width || y >= frame.height { return; }
      var w := Min(width, frame.width - x);
      var h := Min(height, frame.height - y);
      UpdateKeepsWellFormed(frame.Value(), bgra, sourcePitch, x, y, width, height);
      PaintRows(bgra, sourcePitch, x, y, w, h);
      frame.dirty := true;
      IncludeRect(x, y, w, h);
    }

    /** The row loop of the update. */
    method PaintRows(bgra: seq<Byte>, sourcePitch: nat, x: nat, y: nat, width: nat, height: nat)
      requires Valid() && frame.valid && 0 < height && x + width <= frame.width && y + height <= frame.height
      modifies frame`pixels
      ensures frame.pixels == Painted(old(frame.pixels), frame.width, x, y, RowPixels(width), height, bgra, sourcePitch)
    {
      ghost var before := frame.pixels;
      RowInBounds(frame.width, frame.height, y, x, width);
      RowStart32(y, frame.width);
      var src, dst := 0, U32(y * frame.width) + x;
      var cols := U32(width * 4) / 4;
      assert cols <= width;
      var row := 0;
      while row < height
        invariant row <= height
        invariant src == RowStart(row, sourcePitch) && dst == RowStart(y + row, frame.width) + x
        invariant frame.pixels == Painted(before, frame.width, x, y, cols, row, bgra, sourcePitch)
      {
        PaintRow(before, frame.width, frame.height, x, y, cols, row, bgra, sourcePitch);
        var line := seq(cols, i requires 0 <= i < cols => WordAt(bgra, src + 4 * i));
        assert line == SourceRow(bgra, row, cols, sourcePitch);
        frame.pixels := Splice(frame.pixels, dst, line);
        src, dst := src + sourcePitch, dst + frame.width;
        row := row + 1;
      }
    }

    method HostClear(bgra: Pixel)
      requires Valid()
      modifies frame
      ensures frame.Value() == Clear(old(frame.Value()), bgra)
      ensures if frame.valid
        then |frame.pixels| == |old(frame.pixels)| && forall k :: 0 <= k < |frame.pixels| ==> frame.pixels[k] == bgra
        else frame.Value() == old(frame.Value())
      ensures Valid()
    {
      if !frame.valid { return; }
      FillRows(bgra);
      frame.dirty := true;
      SetFullDirtyRect();
    }

    /** The row loop of the clear. */
    method FillRows(bgra: Pixel)
      requires Valid() && frame.valid
      modifies frame`pixels
      ensures frame.pixels == Filled(old(frame.pixels), |old(frame.pixels)|, bgra)
    {
      ghost var before := frame.pixels;
      var y := 0;
      while y < frame.height
        invariant y <= frame.height && RowStart(y, frame.width) <= |before|
        invariant frame.pixels == Filled(before, RowStart(y, frame.width), bgra)
      {
        RowInBounds(frame.width, frame.height, y, 0, frame.width);
        RowStart32(y, frame.width);
        frame.pixels := Splice(frame.pixels, U32(y * frame.width), seq(frame.width, _ => bgra));
        assert frame.pixels == Filled(before, RowStart(y, frame.width) + frame.width, bgra);
        y := y + 1;
      }
      AllRows(frame.width, frame.height);
    }

    /** CopyFrameInto(): hands the pixels over to the consumer's persistent snapshot. */
    method CopyFrameInto(target: Snapshot, forcePixels: bool) returns (included: bool)
      requires Valid() && target != frame
      modifies frame, target
      ensures target.Value() == CopyInto(old(frame.Value()), old(target.Value()), forcePixels)
      ensures frame.Value() == HandedOver(old(frame.Value()))
      ensures included == PixelsIncluded(old(frame.Value()), forcePixels) == target.dirty
      ensures Valid()
    {
      ghost var f, t := frame.Value(), target.Value();
      included := frame.valid && (frame.dirty || forcePixels);
      var sizeChanged := target.width != frame.width || target.height != frame.height
                         || target.pitch != frame.pitch || target.bpp != frame.bpp;
      target.width, target.height, target.pitch, target.bpp := frame.width, frame.height, frame.pitch, frame.bpp;
      target.valid, target.dirty := frame.valid, included;
      if !target.valid {
        target.pixels, target.dirtyRect := [], NO_RECT;
        return false;
      }
      if included {
        TransferPixels(target, forcePixels, sizeChanged);
      }
      assert target.Value() == CopyInto(f, t, forcePixels);
      if frame.dirty {
        frame.dirty := false;
        frame.dirtyRect := NO_RECT;
      }
    }

    /** The copying part of CopyFrameInto(). */
    method TransferPixels(target: Snapshot, forcePixels: bool, sizeChanged: bool)
      requires Valid() && target != frame && frame.valid
      modifies target`dirtyRect, target`pixels
      ensures target.dirtyRect == CopyRect(frame.Value(), |old(target.pixels)|, sizeChanged, forcePixels)
      ensures target.pixels == Transferred(frame.Value(), old(target.pixels), target.dirtyRect)
    {
      var r := frame.dirtyRect;
      if (forcePixels && !frame.dirty) || sizeChanged || !r.valid {
        r := Rect(0, 0, frame.width, frame.height, frame.valid);
      }
      var requiredPixels := frame.width * frame.height;
      if |target.pixels| != requiredPixels {
        target.pixels := Resized(target.pixels, requiredPixels);
        r := Rect(0, 0, frame.width, frame.height, frame.valid);
      }
      target.dirtyRect := r;
      if r.valid && r.width > 0 && r.height > 0 && (r.width != frame.width || r.height != frame.height) {
        CopyRows(target, r);
      } else {
        target.pixels := frame.pixels;
      }
    }

    /** The row loop of the copy. */
    method CopyRows(target: Snapshot, r: Rect)
      requires Valid() && target != frame && frame.valid && Inside(r, frame.width, frame.height)
      requires |target.pixels| == |frame.pixels|
      modifies target`pixels
      ensures target.pixels
           == Blended(old(target.pixels), frame.pixels, frame.width, r.x, r.y, RowPixels(r.width), r.height)
    {
      ghost var was := target.pixels;
      var cols := U32(r.width * 4) / 4;
      assert cols <= r.width;
      var at := r.y * frame.width + r.x;
      RowStartIsProduct(r.y, frame.width);
      var row := 0;
      while row < r.height
        invariant row <= r.height && at == RowStart(r.y + row, frame.width) + r.x
        invariant target.pixels == Blended(was, frame.pixels, frame.width, r.x, r.y, cols, row)
      {
        BlendRow(was, frame.pixels, frame.width, frame.height, r.x, r.y, cols, row);
        target.pixels := Splice(target.pixels, at, frame.pixels[at..at + cols]);
        at := at + frame.width;
        row := row + 1;
      }
    }

    /** std::vector::resize(). */
    function Resized(pixels: seq<Pixel>, n: nat): (r: seq<Pixel>)
      ensures |r| == n
    {
      if n <= |pixels| then pixels[..n] else pixels + seq(n - |pixels|, _ => 0)
    }
  }
}
