/** Content/BochsFrameRenderer.cpp: the consumer of the frame. It keeps a texture and uploads only the box
    that the copy reports, and nothing if the copy says that nothing changed. */
module FrameTexture {
  import opened Arith
  import opened Bytes
  import opened Options
  import opened FrameBridge
  import opened FrameMirror

  datatype Texture = Texture(width: nat, height: nat, pixels: seq<Pixel>)

  /** The largest texture any device takes. */
  const MAX_DIMENSION: nat := 16384

  /** The size of the texture for a frame that exceeds the device's limit is computed in floating point; here
      it is any function. */
  datatype Device = Device(limit: nat, shrunk: (nat, nat) -> (nat, nat)) {
    ghost predicate Sane() {
      && 0 < limit <= MAX_DIMENSION
      && forall w: nat, h: nat :: 0 < shrunk(w, h).0 <= MAX_DIMENSION && 0 < shrunk(w, h).1 <= MAX_DIMENSION
    }

    /** UploadTextureSize() */
    function Size(w: nat, h: nat): (nat, nat) {
      if w <= limit && h <= limit then (w, h) else shrunk(w, h)
    }
  }

  /** The renderer's snapshot, which is the pair's target, its texture, and the frame size that is for. */
  datatype Screen = Screen(pair: Pair, texture: Option<Texture>, sourceWidth: nat, sourceHeight: nat)

  /** The place among `n` that corresponds to place `x` of `m`. */
  function Nearest(x: nat, n: nat, m: nat): nat
    requires 0 < m
  {
    MultipleGrows(x, n);
    x * n / m
  }

  /** The pixel of a `w` by `h` frame that texel `k` of a `tw` by `th` texture shows. */
  function Shown(k: nat, tw: nat, th: nat, w: nat, h: nat): nat
    requires 0 < tw && 0 < th
  {
    RowStart(Nearest(k / tw, h, th), w) + Nearest(k % tw, w, tw)
  }

  function PixelOr0(pixels: seq<Pixel>, i: nat): Pixel {
    if i < |pixels| then pixels[i] else 0
  }

  /** BuildScaledPixels() */
  function Scaled(f: Frame, tw: nat, th: nat): seq<Pixel>
    requires 0 < tw && 0 < th
  {
    seq(tw * th, k requires 0 <= k < tw * th => PixelOr0(f.pixels, Shown(k, tw, th, f.width, f.height)))
  }

  /** D3D11_BOX: columns left..right of rows top..bottom. */
  datatype Box = Box(left: nat, top: nat, right: nat, bottom: nat)

  predicate InD3dBox(k: nat, width: nat, b: Box)
    requires 0 < width
  {
    b.top <= k / width < b.bottom && b.left <= k % width < b.right
  }

  /** UpdateSubresource1(): the box is filled from rows of `src`, the first starting at `at`, `pitch` apart. */
  function Subresource(t: Texture, b: Box, src: seq<Pixel>, at: nat, pitch: nat): Texture
    requires 0 < t.width
  {
    t.(pixels := seq(|t.pixels|, k requires 0 <= k < |t.pixels| =>
      if InD3dBox(k, t.width, b)
      then PixelOr0(src, at + RowStart(k / t.width - b.top, pitch) + (k % t.width - b.left))
      else t.pixels[k]))
  }

  function Whole(t: Texture): Box { Box(0, 0, t.width, t.height) }

  /** A fresh texture holds anything. */
  function Fresh(w: nat, h: nat, noise: seq<Pixel>): Texture {
    Texture(w, h, seq(w * h, k requires 0 <= k < w * h => PixelOr0(noise, k)))
  }

  /** EnsureFrameTexture() */
  function Ensured(s: Screen, d: Device, noise: seq<Pixel>): Screen {
    var f := s.pair.target;
    var (w, h) := d.Size(f.width, f.height);
    if s.texture.Some? && s.texture.value.width == w && s.texture.value.height == h
       && s.sourceWidth == f.width && s.sourceHeight == f.height then s
    else s.(texture := Some(Fresh(w, h, noise)), sourceWidth := f.width, sourceHeight := f.height)
  }

  /** UploadFrameTexture() */
  function Uploaded(t: Texture, f: Frame): Texture
    requires 0 < t.width && 0 < t.height
  {
    if f.pixels == [] then t
    else if t.width != f.width || t.height != f.height then
      Subresource(t, Whole(t), Scaled(f, t.width, t.height), 0, U32(t.width * 4) / 4)
    else if Partial(f, f.dirtyRect) then
      var r := f.dirtyRect;
      Subresource(t, Box(r.x, r.y, U32(r.x + r.width), U32(r.y + r.height)), f.pixels,
                  RowStart(r.y, f.width) + r.x, U32(f.width * 4) / 4)
    else Subresource(t, Whole(t), f.pixels, 0, U32(f.width * 4) / 4)
  }

  /** The copies Render() makes: a second one if the first brought no pixels for a texture to be made. */
  function Fetched(s: Screen): (r: Pair)
    requires Sized(s.pair.frame)
    ensures Sized(r.frame) && SameGeometry(r.target, s.pair.frame) && r.target.valid == s.pair.frame.valid
  {
    var p := Step(s.pair, Copied(s.texture == None));
    var f := p.target;
    if f.valid && f.pixels == [] && (s.texture == None || s.sourceWidth != f.width || s.sourceHeight != f.height)
    then Step(p, Copied(true)) else p
  }

  /** Render(), up to the drawing of the texture. */
  function Rendered(s: Screen, d: Device, noise: seq<Pixel>): (r: Screen)
    requires Sized(s.pair.frame) && d.Sane()
    ensures Sized(r.pair.frame)
  {
    var t := s.(pair := Fetched(s));
    if !t.pair.target.valid then t
    else
      var r := Ensured(t, d, noise);
      if t.pair.target.dirty then r.(texture := Some(Uploaded(r.texture.value, t.pair.target))) else r
  }

  /** ReleaseDeviceDependentResources() */
  function Released(s: Screen): Screen {
    s.(pair := s.pair.(target := NO_FRAME), texture := None, sourceWidth := 0, sourceHeight := 0)
  }

  /** What happens to the screen: the emulator draws, a frame is rendered, or the device is lost. */
  datatype ScreenEvent = Host(ev: Event) | Render(noise: seq<Pixel>) | DeviceLost

  function ScreenStep(s: Screen, d: Device, e: ScreenEvent): (r: Screen)
    requires Sized(s.pair.frame) && d.Sane() && (e.Host? ==> Allocated(e.ev))
    ensures Sized(r.pair.frame)
  {
    match e
    case Host(ev) => if ev.Copied? then s else s.(pair := Step(s.pair, ev))
    case Render(noise) => Rendered(s, d, noise)
    case DeviceLost => Released(s)
  }

  predicate AllHostAccepted(es: seq<ScreenEvent>) {
    forall k :: 0 <= k < |es| && es[k].Host? ==> Accepted(es[k].ev)
  }

  function ScreenRun(s: Screen, d: Device, es: seq<ScreenEvent>): (r: Screen)
    requires Sized(s.pair.frame) && d.Sane() && AllHostAccepted(es)
    ensures Sized(r.pair.frame)
    decreases |es|
  {
    if es == [] then s else ScreenRun(ScreenStep(s, d, es[0]), d, es[1..])
  }

  const SWITCHED_ON := Screen(START, None, 0, 0)

  // ----- The texture shows the frame -----

  /** Every texel shows its pixel of the frame, and if the sizes agree that is the pixel at its place. */
  ghost predicate Shows(t: Texture, d: Device, f: Frame) {
    && 0 < f.width && 0 < f.height && (t.width, t.height) == d.Size(f.width, f.height)
    && 0 < t.width && 0 < t.height && |t.pixels| == t.width * t.height
    && forall k :: 0 <= k < |t.pixels| ==>
         t.pixels[k] == PixelOr0(f.pixels, Shown(k, t.width, t.height, f.width, f.height))
  }

  /** Without scaling a texel shows the pixel with its own index. */
  lemma ShownUnscaled(k: nat, w: nat, h: nat)
    requires 0 < w && 0 < h
    ensures Shown(k, w, h, w, h) == k
  {
    DivExact(k / w, 0, h);
    DivExact(k % w, 0, w);
    RowStartIsProduct(k / w, w);
  }

  /** The texel lies in the frame. */
  lemma ShownInFrame(k: nat, tw: nat, th: nat, w: nat, h: nat)
    requires 0 < tw && 0 < th && 0 < w && 0 < h && k < tw * th
    ensures Shown(k, tw, th, w, h) < w * h
  {
    QuotientBelow(k, tw, th);
    ScaledBelow(k / tw, h, th);
    ScaledBelow(k % tw, w, tw);
    RowInBounds(w, h, Nearest(k / tw, h, th), Nearest(k % tw, w, tw), 1);
  }

  lemma QuotientBelow(k: nat, a: nat, b: nat)
    requires 0 < a && k < a * b
    ensures k / a < b
  {
    var q := k / a;
    assert k == q * a + k % a;
    assert (q - b) * a == q * a - b * a;
    MultipleGrows(q - b, a);
  }

  lemma ScaledBelow(x: nat, n: nat, m: nat)
    requires 0 < m && x < m && 0 < n
    ensures Nearest(x, n, m) < n
  {
    assert (m - x) * n == m * n - x * n;
    MultipleGrows(m - x, n);
    QuotientBelow(x * n, m, n);
  }

  /** An upload of everything shows the frame. */
  lemma FullUploadShows(t: Texture, d: Device, f: Frame)
    requires d.Sane() && (t.width, t.height) == d.Size(f.width, f.height) && |t.pixels| == t.width * t.height
    requires 0 < f.width && 0 < f.height && |f.pixels| == f.width * f.height && 0 < |f.pixels|
    requires t.width != f.width || t.height != f.height || !Partial(f, f.dirtyRect)
    ensures Shows(Uploaded(t, f), d, f)
  {
    var scaled := t.width != f.width || t.height != f.height;
    var u := Uploaded(t, f);
    forall k | 0 <= k < |u.pixels|
      ensures u.pixels[k] == PixelOr0(f.pixels, Shown(k, t.width, t.height, f.width, f.height))
    {
      FullBoxTexel(k, t.width, t.height);
      if !scaled { ShownUnscaled(k, f.width, f.height); }
    }
  }

  /** Texel `k` of a whole texture comes from place `k` of a source with rows of its width. */
  lemma FullBoxTexel(k: nat, w: nat, h: nat)
    requires 0 < w && 0 < h && k < w * h && w <= MAX_DIMENSION
    ensures InD3dBox(k, w, Box(0, 0, w, h)) && U32(w * 4) / 4 == w && 0 + RowStart(k / w - 0, w) + (k % w - 0) == k
  {
    QuotientBelow(k, w, h);
    RowStartIsProduct(k / w, w);
  }

  /** An upload of the box, whose edges and pitch fit a word. */
  lemma PartialUpload(t: Texture, f: Frame)
    requires 0 < t.width == f.width <= MAX_DIMENSION && 0 < t.height == f.height <= MAX_DIMENSION
    requires |f.pixels| == f.width * f.height && Partial(f, f.dirtyRect) && Inside(f.dirtyRect, f.width, f.height)
    ensures var r := f.dirtyRect;
      Uploaded(t, f) == Subresource(t, Box(r.x, r.y, r.x + r.width, r.y + r.height), f.pixels,
                                    RowStart(r.y, f.width) + r.x, f.width)
  {
    var r := f.dirtyRect;
    U32Exact(r.x + r.width);
    U32Exact(r.y + r.height);
    U32Exact(f.width * 4);
    MultipleGrows(f.width, f.height);
  }

  /** An upload of the box shows the frame if the rest of the texture already did. */
  lemma PartialUploadShows(t: Texture, d: Device, f: Frame, was: Frame)
    requires d.Sane() && Shows(t, d, was) && t.width == f.width == was.width && t.height == f.height == was.height
    requires |f.pixels| == |was.pixels| == f.width * f.height && f.width <= MAX_DIMENSION && f.height <= MAX_DIMENSION
    requires Partial(f, f.dirtyRect) && Inside(f.dirtyRect, f.width, f.height)
    requires forall k :: 0 <= k < |f.pixels| && !InRect(f, k) ==> f.pixels[k] == was.pixels[k]
    ensures Shows(Uploaded(t, f), d, f)
  {
    PartialUpload(t, f);
    ShowsUnscaled(t, d, was);
    BoxReplaced(t, f);
    ShowsUnscaled(Uploaded(t, f), d, f);
  }

  /** A texture of the frame's size shows it if and only if the two have the same pixels. */
  lemma ShowsUnscaled(t: Texture, d: Device, f: Frame)
    requires 0 < t.width == f.width && 0 < t.height == f.height && (t.width, t.height) == d.Size(f.width, f.height)
    requires |t.pixels| == |f.pixels| == f.width * f.height
    ensures Shows(t, d, f) <==> t.pixels == f.pixels
  {
    forall k | 0 <= k < |t.pixels|
      ensures PixelOr0(f.pixels, Shown(k, t.width, t.height, f.width, f.height)) == f.pixels[k]
    {
      ShownUnscaled(k, f.width, f.height);
    }
  }

  lemma BoxReplaced(t: Texture, f: Frame)
    requires 0 < t.width == f.width && |t.pixels| == |f.pixels|
    requires forall k :: 0 <= k < |f.pixels| && !InRect(f, k) ==> f.pixels[k] == t.pixels[k]
    ensures var r := f.dirtyRect;
      Subresource(t, Box(r.x, r.y, r.x + r.width, r.y + r.height), f.pixels, RowStart(r.y, f.width) + r.x, f.width).pixels
        == f.pixels
  {
    var r := f.dirtyRect;
    forall k | 0 <= k < |f.pixels| && InRect(f, k)
      ensures RowStart(r.y, f.width) + r.x + RowStart(k / f.width - r.y, f.width) + (k % f.width - r.x) == k
    {
      BoxTexel(k, f.width, r.x, r.y);
    }
  }

  /** Texel `k` at or behind row `y` comes from its own place in a source that starts at that row. */
  lemma BoxTexel(k: nat, w: nat, x: nat, y: nat)
    requires 0 < w && y <= k / w && x <= k % w
    ensures RowStart(y, w) + x + RowStart(k / w - y, w) + (k % w - x) == k
  {
    var row, column := k / w, k % w;
    assert k == row * w + column;
    RowStartAdds(y, row - y, w);
    RowStartIsProduct(row, w);
  }

  lemma {:induction false} RowStartAdds(a: nat, b: nat, w: nat)
    ensures RowStart(a + b, w) == RowStart(a, w) + RowStart(b, w)
    decreases b
  {
    if b > 0 { RowStartAdds(a, b - 1, w); }
  }

  /** The frame is one that a consumer in step with it could have. */
  ghost predicate Ready(f: Frame) {
    Mirrors(Pair(f, f))
  }

  /** The texture shows what the consumer's snapshot holds, whatever was drawn since; or both are gone. */
  ghost predicate Following(s: Screen, d: Device) {
    var t := s.pair.target;
    && Ready(s.pair.frame)
    && (Mirrors(s.pair) || Gone(s))
    && (!t.valid ==> t.pixels == [])
    && (s.texture == None ==> !t.valid)
    && (s.texture.Some? ==> |s.texture.value.pixels| == s.texture.value.width * s.texture.value.height)
    && (t.valid ==>
          && |t.pixels| == t.width * t.height && s.sourceWidth == t.width && s.sourceHeight == t.height
          && Shows(s.texture.value, d, t))
  }

  predicate Gone(s: Screen) {
    s.texture == None && s.pair.target == NO_FRAME
  }

  /** The first copy into an empty snapshot is forced, and takes the whole frame. */
  lemma FirstCopyIsWhole(s: Screen)
    requires Ready(s.pair.frame) && Gone(s) && s.pair.frame.valid
    ensures var p := Step(s.pair, Copied(true));
      && Mirrors(p) && p.target.pixels == p.frame.pixels == s.pair.frame.pixels
      && p.target.dirty && !Partial(p.target, p.target.dirtyRect)
  {}

  lemma CopyKeepsStep(s: Screen, d: Device)
    requires Following(s, d)
    ensures var p := Step(s.pair, Copied(s.texture == None));
      && Mirrors(p) && Ready(p.frame)
      && (p.frame.valid ==> p.target.pixels == p.frame.pixels && |p.frame.pixels| > 0)
  {
    var force := s.texture == None;
    StepKeepsMirror(Pair(s.pair.frame, s.pair.frame), Copied(force));
    if s.pair.frame.valid { AreaIsPositive(s.pair.frame); }
    if Mirrors(s.pair) {
      StepKeepsMirror(s.pair, Copied(force));
      if s.pair.frame.valid { CopyIsWhole(s.pair, force); }
    } else {
      FirstCopyIsWhole(s);
    }
  }

  /** The second copy of a render is never made: after the first, a valid snapshot has its pixels. */
  lemma OneCopyIsEnough(d: Device, es: seq<ScreenEvent>)
    requires d.Sane() && AllHostAccepted(es)
    ensures var s := ScreenRun(SWITCHED_ON, d, es); Fetched(s) == Step(s.pair, Copied(s.texture == None))
  {
    ScreenFollows(SWITCHED_ON, d, es);
    CopyKeepsStep(ScreenRun(SWITCHED_ON, d, es), d);
  }

  lemma EnsuredFits(s: Screen, d: Device, noise: seq<Pixel>)
    requires d.Sane() && s.pair.target.width > 0 && s.pair.target.height > 0
    requires s.texture.Some? ==> |s.texture.value.pixels| == s.texture.value.width * s.texture.value.height
    ensures var r, f := Ensured(s, d, noise), s.pair.target;
      && r.texture.Some? && r.sourceWidth == f.width && r.sourceHeight == f.height
      && var t := r.texture.value;
         0 < t.width && 0 < t.height && (t.width, t.height) == d.Size(f.width, f.height) && |t.pixels| == t.width * t.height
  {}

  /** A render keeps the texture following, and it then shows the frame. */
  lemma RenderShows(s: Screen, d: Device, noise: seq<Pixel>)
    requires d.Sane() && Following(s, d)
    ensures var r := Rendered(s, d, noise);
      && Following(r, d)
      && (r.pair.frame.valid ==> r.pair.target.pixels == r.pair.frame.pixels && SameGeometry(r.pair.target, r.pair.frame)
                                 && Shows(r.texture.value, d, r.pair.target))
  {
    var p := Step(s.pair, Copied(s.texture == None));
    CopyKeepsStep(s, d);
    if p.target.valid {
      var t := s.(pair := p);
      EnsuredFits(t, d, noise);
      var r := Ensured(t, d, noise);
      if !p.target.dirty {
        assert r == t;
      } else if Partial(p.target, p.target.dirtyRect) && r.texture.value.width == p.target.width
                && r.texture.value.height == p.target.height {
        BoxWasKept(s, d, noise);
        PartialUploadShows(r.texture.value, d, p.target, s.pair.target);
      } else {
        FullUploadShows(r.texture.value, d, p.target);
      }
    }
  }

  lemma AreaIsPositive(f: Frame)
    requires Sized(f) && f.valid
    ensures |f.pixels| > 0
  {
    MultipleGrows(f.width, f.height);
  }

  /** If only a box is reported, the snapshot was of this geometry, so the texture stays and shows the rest. */
  lemma BoxWasKept(s: Screen, d: Device, noise: seq<Pixel>)
    requires d.Sane() && Following(s, d) && s.pair.frame.valid
    requires var t := CopyInto(s.pair.frame, s.pair.target, s.texture == None); t.dirty && Partial(t, t.dirtyRect)
    ensures var f, was := s.pair.frame, s.pair.target;
      var t := CopyInto(f, was, s.texture == None);
      && was.valid && SameGeometry(f, was) && |was.pixels| == |f.pixels| == f.width * f.height
      && t.dirtyRect == f.dirtyRect && Inside(f.dirtyRect, f.width, f.height)
      && Ensured(s.(pair := s.pair.(target := t)), d, noise).texture == s.texture
      && forall k :: 0 <= k < |f.pixels| && !InRect(f, k) ==> f.pixels[k] == was.pixels[k]
  {
    AreaIsPositive(s.pair.frame);
  }

  lemma {:induction false} ScreenFollows(s: Screen, d: Device, es: seq<ScreenEvent>)
    requires d.Sane() && Following(s, d) && AllHostAccepted(es)
    ensures Following(ScreenRun(s, d, es), d)
    decreases |es|
  {
    if es != [] {
      match es[0] {
        case Host(ev) =>
          StepKeepsMirror(Pair(s.pair.frame, s.pair.frame), ev);
          if Mirrors(s.pair) { StepKeepsMirror(s.pair, ev); }
        case Render(noise) => RenderShows(s, d, noise);
        case DeviceLost =>
      }
      ScreenFollows(ScreenStep(s, d, es[0]), d, es[1..]);
    }
  }

  /** After any run of drawing, rendering and losing the device, a render of a valid frame leaves a texture of
      the right size that shows it in every texel, although only the reported boxes were uploaded; a frame
      within the device's limits is shown pixel by pixel. */
  lemma ScreenShowsFrame(d: Device, es: seq<ScreenEvent>, noise: seq<Pixel>)
    requires d.Sane() && AllHostAccepted(es)
    ensures var s := Rendered(ScreenRun(SWITCHED_ON, d, es), d, noise);
      var f := s.pair.frame;
      f.valid ==>
        && s.texture.Some? && Shows(s.texture.value, d, f)
        && (f.width <= d.limit && f.height <= d.limit ==>
              s.texture.value == Texture(f.width, f.height, f.pixels))
  {
    ScreenFollows(SWITCHED_ON, d, es);
    var before := ScreenRun(SWITCHED_ON, d, es);
    RenderShows(before, d, noise);
    var s := Rendered(before, d, noise);
    if s.pair.frame.valid && s.pair.frame.width <= d.limit && s.pair.frame.height <= d.limit {
      ShowsUnscaled(s.texture.value, d, s.pair.frame);
    }
  }
}
