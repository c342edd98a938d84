/** The consumer copies only the accumulated dirty box and still ends up with the whole frame. */
module FrameMirror {
  import opened Arith
  import opened Bytes
  import opened FrameBridge

  /** The entry points of the bridge that touch the frame; `Copy` is the one consumer's CopyFrameInto(). */
  datatype Event =
    | Configured(width: nat, height: nat, pitch: nat, bpp: nat)
    | Updated(src: seq<Byte>, sourcePitch: nat, x: nat, y: nat, width: nat, height: nat)
    | Cleared(bgra: Pixel)
    | Copied(force: bool)

  /** The bridge's frame and the consumer's persistent snapshot. */
  datatype Pair = Pair(frame: Frame, target: Frame)

  /** No byte count of a row wraps, or there is a single row that is only ever copied whole. */
  predicate RowsFit(width: nat, height: nat) {
    width < 0x4000_0000 || (width == 0x4000_0000 && height == 1)
  }

  /** Arguments are 32-bit, and a geometry the bridge accepts has an area that fits. */
  predicate Allocated(ev: Event) {
    match ev
    case Configured(width, height, pitch, bpp) =>
      && width < BIT32 && height < BIT32
      && (Configure(NO_FRAME, width, height, pitch, bpp).valid ==> width * height < BIT32)
    case Updated(_, _, x, y, width, height) => x < BIT32 && y < BIT32 && width < BIT32 && height < BIT32
    case _ => true
  }

  predicate Accepted(ev: Event) {
    && Allocated(ev)
    && (ev.Configured? && Configure(NO_FRAME, ev.width, ev.height, ev.pitch, ev.bpp).valid ==>
          RowsFit(ev.width, ev.height))
  }

  predicate Usable(f: Frame) {
    WellFormed(f) && (f.valid ==> RowsFit(f.width, f.height))
  }

  /** Outside the dirty box the snapshot already agrees with the frame. */
  ghost predicate AgreesOutsideBox(f: Frame, t: Frame)
    requires f.valid ==> 0 < f.width
  {
    f.valid && SameGeometry(f, t) && |t.pixels| == |f.pixels| ==>
      forall k :: 0 <= k < |f.pixels| ==>
        t.pixels[k] == f.pixels[k] || (f.dirty && InRect(f, k))
  }

  predicate InRect(f: Frame, k: nat)
    requires 0 < f.width
  {
    InBox(k, f.width, f.dirtyRect.x, f.dirtyRect.y, f.dirtyRect.width, f.dirtyRect.height)
  }

  ghost predicate Mirrors(p: Pair) {
    && Usable(p.frame)
    && (p.frame.valid ==> (p.frame.dirty <==> p.frame.dirtyRect.valid))
    && (p.frame.valid ==> p.frame.dirty || (SameGeometry(p.frame, p.target) && |p.target.pixels| == |p.frame.pixels|))
    && AgreesOutsideBox(p.frame, p.target)
  }

  function Step(p: Pair, ev: Event): (r: Pair)
    requires Sized(p.frame) && Allocated(ev)
    ensures Sized(r.frame)
  {
    match ev
    case Configured(width, height, pitch, bpp) => p.(frame := Configure(p.frame, width, height, pitch, bpp))
    case Updated(src, pitch, x, y, width, height) => p.(frame := UpdateRect(p.frame, src, pitch, x, y, width, height))
    case Cleared(bgra) => p.(frame := Clear(p.frame, bgra))
    case Copied(force) => Pair(HandedOver(p.frame), CopyInto(p.frame, p.target, force))
  }

  // ----- Each entry point keeps the mirror -----

  lemma CoveredPixel(k: nat, width: nat, e: Rect, d: Rect)
    requires 0 < width && Covers(e, d) && InBox(k, width, d.x, d.y, d.width, d.height)
    ensures InBox(k, width, e.x, e.y, e.width, e.height)
  {}

  /** The frame's pixels outside box `e` are untouched, and `e` covers the box accumulated so far. */
  ghost predicate OnlyInside(f: Frame, g: Frame, e: Rect)
    requires f.valid ==> 0 < f.width
  {
    && f.valid && |g.pixels| == |f.pixels|
    && (f.dirtyRect.valid ==> Covers(e, f.dirtyRect))
    && (forall k :: 0 <= k < |f.pixels| && !InBox(k, f.width, e.x, e.y, e.width, e.height) ==>
          g.pixels[k] == f.pixels[k])
  }

  lemma ChangeInsideKeepsMirror(p: Pair, pixels: seq<Pixel>, e: Rect)
    requires Mirrors(p) && p.frame.valid && e.valid && Inside(e, p.frame.width, p.frame.height)
    requires OnlyInside(p.frame, p.frame.(pixels := pixels), e)
    ensures Mirrors(p.(frame := p.frame.(pixels := pixels, dirty := true, dirtyRect := e)))
  {
    var f, t := p.frame, p.target;
    var g := f.(pixels := pixels, dirty := true, dirtyRect := e);
    if SameGeometry(g, t) && |t.pixels| == |g.pixels| {
      forall k | 0 <= k < |g.pixels| ensures t.pixels[k] == g.pixels[k] || InRect(g, k) {
        if f.dirtyRect.valid && InRect(f, k) { CoveredPixel(k, f.width, e, f.dirtyRect); }
      }
    }
  }

  /** A box over the whole frame holds every pixel. */
  lemma FullRectHoldsAll(f: Frame, k: nat)
    requires f.valid && Sized(f) && f.dirtyRect == FullRect(f) && k < |f.pixels|
    ensures InRect(f, k)
  {
    var q, c := k / f.width, k % f.width;
    assert k == q * f.width + c;
    assert (q - f.height) * f.width == q * f.width - f.height * f.width;
    MultipleGrows(q - f.height, f.width);
  }

  /** Copying the frame's box into an agreeing snapshot makes them equal. */
  lemma CopyIsWhole(p: Pair, force: bool)
    requires Mirrors(p) && p.frame.valid
    ensures CopyInto(p.frame, p.target, force).pixels == p.frame.pixels
  {
    var f, t := p.frame, p.target;
    if PixelsIncluded(f, force) {
      var r := CopyRect(f, |t.pixels|, !SameGeometry(f, t), force);
      if Partial(f, r) { RowIsWhole(r.width); }
    }
  }

  lemma ConfigureKeepsMirror(p: Pair, ev: Event)
    requires ev.Configured? && Accepted(ev)
    ensures Mirrors(p.(frame := Configure(p.frame, ev.width, ev.height, ev.pitch, ev.bpp)))
  {
    var f := Configure(p.frame, ev.width, ev.height, ev.pitch, ev.bpp);
    if f.valid { forall k | 0 <= k < |f.pixels| { FullRectHoldsAll(f, k); } }
  }

  lemma PaintedOutside(pixels: seq<Pixel>, width: nat, r: Rect, cols: nat, e: Rect, src: seq<Byte>, pitch: nat)
    requires 0 < width && cols <= r.width && Covers(e, r)
    ensures var painted := Painted(pixels, width, r.x, r.y, cols, r.height, src, pitch);
      forall k :: 0 <= k < |pixels| && !InBox(k, width, e.x, e.y, e.width, e.height) ==> painted[k] == pixels[k]
  {}

  lemma UpdateKeepsMirror(p: Pair, src: seq<Byte>, pitch: nat, x: nat, y: nat, width: nat, height: nat)
    requires Mirrors(p)
    ensures Mirrors(p.(frame := UpdateRect(p.frame, src, pitch, x, y, width, height)))
  {
    var f := p.frame;
    if width > 0 && height > 0 && f.valid && x < f.width && y < f.height {
      var r := Clipped(f, x, y, width, height);
      var e := IncludeDirtyRect(f, r.x, r.y, r.width, r.height);
      RowIsWhole(r.width);
      if f.dirtyRect.valid { UnionCovers(f.dirtyRect, r, f.width, f.height); }
      PaintedOutside(f.pixels, f.width, r, RowPixels(r.width), e, src, pitch);
      var pixels := Painted(f.pixels, f.width, r.x, r.y, RowPixels(r.width), r.height, src, pitch);
      ChangeInsideKeepsMirror(p, pixels, e);
    }
  }

  lemma ClearKeepsMirror(p: Pair, bgra: Pixel)
    requires Mirrors(p)
    ensures Mirrors(p.(frame := Clear(p.frame, bgra)))
  {
    var f := Clear(p.frame, bgra);
    if f.valid { forall k | 0 <= k < |f.pixels| { FullRectHoldsAll(f, k); } }
  }

  /** Every entry point keeps the mirror invariant. */
  lemma StepKeepsMirror(p: Pair, ev: Event)
    requires Mirrors(p) && Accepted(ev)
    ensures Mirrors(Step(p, ev))
  {
    match ev
    case Configured(_, _, _, _) => ConfigureKeepsMirror(p, ev);
    case Updated(src, pitch, x, y, width, height) => UpdateKeepsMirror(p, src, pitch, x, y, width, height);
    case Cleared(bgra) => ClearKeepsMirror(p, bgra);
    case Copied(force) => if p.frame.valid { CopyIsWhole(p, force); }
  }

  // ----- Whole runs -----

  predicate AllAllocated(evs: seq<Event>) {
    forall k :: 0 <= k < |evs| ==> Allocated(evs[k])
  }

  predicate AllAccepted(evs: seq<Event>) {
    AllAllocated(evs) && forall k :: 0 <= k < |evs| ==> Accepted(evs[k])
  }

  function Run(p: Pair, evs: seq<Event>): (r: Pair)
    requires Sized(p.frame) && AllAllocated(evs)
    ensures Sized(r.frame)
    decreases |evs|
  {
    if evs == [] then p else Run(Step(p, evs[0]), evs[1..])
  }

  const START := Pair(NO_FRAME, NO_FRAME)

  lemma {:induction false} RunKeepsMirror(p: Pair, evs: seq<Event>)
    requires Mirrors(p) && AllAccepted(evs)
    ensures Mirrors(Run(p, evs))
    decreases |evs|
  {
    if evs != [] {
      StepKeepsMirror(p, evs[0]);
      RunKeepsMirror(Step(p, evs[0]), evs[1..]);
    }
  }

  /** After any sequence of configure, update, clear and copy events, the next copy of a valid frame leaves
      the consumer with exactly the frame: same geometry, every pixel. */
  lemma EveryCopyIsWhole(evs: seq<Event>, force: bool)
    requires AllAccepted(evs)
    ensures var p := Run(START, evs);
      p.frame.valid ==>
        var t := Step(p, Copied(force)).target;
        t.valid && SameGeometry(t, p.frame) && t.pixels == p.frame.pixels
  {
    RunKeepsMirror(START, evs);
    var p := Run(START, evs);
    if p.frame.valid { CopyIsWhole(p, force); }
  }

  // ----- What a copy reports -----

  /** The event gives the frame something to show. */
  predicate Draws(f: Frame, ev: Event) {
    match ev
    case Configured(_, _, _, _) => true
    case Updated(_, _, x, y, width, height) => f.valid && 0 < width && 0 < height && x < f.width && y < f.height
    case Cleared(_) => f.valid
    case Copied(_) => false
  }

  /** Whether there is something new in the end: drawn, and not taken by a copy of a valid frame since. */
  predicate News(p: Pair, evs: seq<Event>, news: bool)
    requires Sized(p.frame) && AllAllocated(evs)
    decreases |evs|
  {
    if evs == [] then news
    else News(Step(p, evs[0]), evs[1..],
              if evs[0].Copied? then news && !p.frame.valid else news || Draws(p.frame, evs[0]))
  }

  lemma {:induction false} DirtyIsNews(p: Pair, evs: seq<Event>)
    requires Sized(p.frame) && AllAllocated(evs)
    ensures Run(p, evs).frame.dirty <==> News(p, evs, p.frame.dirty)
    decreases |evs|
  {
    if evs != [] { DirtyIsNews(Step(p, evs[0]), evs[1..]); }
  }

  /** The box that a copy reports: the accumulated one if there is news about the geometry the consumer has. */
  function ReportedBox(p: Pair, news: bool): Rect {
    if news && SameGeometry(p.frame, p.target) && |p.target.pixels| == |p.frame.pixels|
    then p.frame.dirtyRect else FullRect(p.frame)
  }

  /** Over every run, a copy says that the snapshot is dirty, and returns so, exactly if the frame is valid and
      the copy is forced or something was drawn since the last one; it then reports the accumulated box, or the
      whole frame if the consumer has another geometry or if there is no news. A copy of an invalid frame
      leaves nothing in the snapshot. */
  lemma CopyReportsNews(evs: seq<Event>, force: bool)
    requires AllAccepted(evs)
    ensures var p, news := Run(START, evs), News(START, evs, false);
      var t := Step(p, Copied(force)).target;
      && SameGeometry(t, p.frame) && t.valid == p.frame.valid
      && (t.dirty <==> PixelsIncluded(p.frame, force))
      && (t.dirty <==> p.frame.valid && (force || news))
      && (t.dirty ==> t.dirtyRect == ReportedBox(p, news))
      && (!t.valid ==> t.pixels == [] && !t.dirtyRect.valid)
  {
    DirtyIsNews(START, evs);
    RunKeepsMirror(START, evs);
  }

  /** Right after a copy an unforced one has nothing to report. */
  lemma NothingNewIsNotReported(evs: seq<Event>, force: bool)
    requires AllAccepted(evs)
    ensures var p := Step(Run(START, evs), Copied(force));
      var q := Step(p, Copied(false));
      !q.target.dirty && q.target.pixels == p.target.pixels
  {
    RunKeepsMirror(START, evs);
  }

  /** What the event draws lies in box `b`. */
  predicate DrawnWithin(f: Frame, ev: Event, b: Rect) {
    Draws(f, ev) ==>
      match ev
      case Configured(width, height, pitch, bpp) =>
        Configure(f, width, height, pitch, bpp).valid ==> Covers(b, Rect(0, 0, width, height, true))
      case Updated(_, _, x, y, width, height) => Covers(b, Clipped(f, x, y, width, height))
      case Cleared(_) => Covers(b, FullRect(f))
      case Copied(_) => true
  }

  /** Everything drawn since the last copy of a valid frame lies in box `b`. */
  predicate AllDrawnWithin(p: Pair, evs: seq<Event>, b: Rect, within: bool)
    requires Sized(p.frame) && AllAllocated(evs)
    decreases |evs|
  {
    if evs == [] then within
    else AllDrawnWithin(Step(p, evs[0]), evs[1..], b,
                        if evs[0].Copied? && p.frame.valid then true else within && DrawnWithin(p.frame, evs[0], b))
  }

  predicate BoxWithin(f: Frame, b: Rect) {
    f.valid && f.dirtyRect.valid ==> Covers(b, f.dirtyRect)
  }

  lemma StepKeepsBoxWithin(p: Pair, ev: Event, b: Rect)
    requires Mirrors(p) && Accepted(ev)
    requires (ev.Copied? && p.frame.valid) || (BoxWithin(p.frame, b) && DrawnWithin(p.frame, ev, b))
    ensures BoxWithin(Step(p, ev).frame, b)
  {
    if ev.Updated? && Draws(p.frame, ev) && p.frame.dirtyRect.valid {
      var r := Clipped(p.frame, ev.x, ev.y, ev.width, ev.height);
      UnionIsLeast(p.frame.dirtyRect, r, p.frame.width, p.frame.height, b);
    }
  }

  lemma {:induction false} BoxStaysWithin(p: Pair, evs: seq<Event>, b: Rect, within: bool)
    requires Mirrors(p) && AllAccepted(evs) && AllDrawnWithin(p, evs, b, within)
    requires within ==> BoxWithin(p.frame, b)
    ensures BoxWithin(Run(p, evs).frame, b)
    decreases |evs|
  {
    if evs != [] {
      var copied := evs[0].Copied? && p.frame.valid;
      StepKeepsMirror(p, evs[0]);
      var next := copied || (within && DrawnWithin(p.frame, evs[0], b));
      if next { StepKeepsBoxWithin(p, evs[0], b); }
      BoxStaysWithin(Step(p, evs[0]), evs[1..], b, next);
    }
  }

  /** No smaller box would do: any box that holds everything drawn since the last copy holds the dirty box. */
  lemma DirtyBoxIsLeast(evs: seq<Event>, b: Rect)
    requires AllAccepted(evs) && AllDrawnWithin(START, evs, b, true)
    ensures BoxWithin(Run(START, evs).frame, b)
  {
    BoxStaysWithin(START, evs, b, true);
  }

  /** A geometry shown once, then changed in two pixels of its top row. */
  function WideRun(width: nat, height: nat, pitch: nat, src: seq<Byte>): seq<Event> {
    [Configured(width, height, pitch, 32), Copied(false),
     Updated(src, 4, 0, 0, 1, 1), Updated(src, 4, 0x3fff_ffff, 0, 1, 1), Copied(false)]
  }

  /** Both sides hold an opaque black image and the box is empty, or covers what was drawn on the frame. */
  predicate Shown(p: Pair, width: nat, height: nat, box: Rect) {
    && p.frame.valid && p.frame.width == width && p.frame.height == height && Sized(p.frame)
    && SameGeometry(p.frame, p.target) && |p.target.pixels| == |p.frame.pixels|
    && p.target.pixels[0] == OPAQUE_BLACK
    && p.frame.dirtyRect == box && p.frame.dirty == box.valid
  }

  lemma ShownOnce(width: nat, height: nat, pitch: nat)
    requires width < BIT32 && height < BIT32 && width * height < BIT32
    requires Configure(NO_FRAME, width, height, pitch, 32).valid
    ensures var p := Step(Step(START, Configured(width, height, pitch, 32)), Copied(false));
      Shown(p, width, height, NO_RECT)
  {}

  lemma DrawOne(f: Frame, src: seq<Byte>, x: nat)
    requires f.valid && Sized(f) && x < f.width < BIT32
    ensures var g := UpdateRect(f, src, 4, x, 0, 1, 1);
      && g == f.(pixels := g.pixels, dirty := true, dirtyRect := IncludeDirtyRect(f, x, 0, 1, 1))
      && |g.pixels| == |f.pixels|
      && g.pixels[0] == if x == 0 then WordAt(src, 0) else f.pixels[0]
  {
    UpdateShowsSource(f, src, 4, x, 0, 1, 1, 0, 0);
  }

  lemma DrawTwice(p: Pair, width: nat, height: nat, src: seq<Byte>, far: nat)
    requires Shown(p, width, height, NO_RECT) && far == 0x3fff_ffff < width < BIT32 && 0 < height
    ensures var q := Step(Step(p, Updated(src, 4, 0, 0, 1, 1)), Updated(src, 4, far, 0, 1, 1));
      Shown(q, width, height, Rect(0, 0, far + 1, 1, true)) && q.frame.pixels[0] == WordAt(src, 0)
  {
    DrawOne(p.frame, src, 0);
    var q := Step(p, Updated(src, 4, 0, 0, 1, 1));
    DrawOne(q.frame, src, far);
    UnionSpan(0, 1, far, 1, width);
  }

  lemma CopyMovesNothing(p: Pair, width: nat, height: nat)
    requires Shown(p, width, height, Rect(0, 0, 0x4000_0000, 1, true)) && !RowsFit(width, height)
    ensures var q := Step(p, Copied(false));
      q.target.pixels == p.target.pixels && q.frame.pixels == p.frame.pixels && q.frame.valid
  {
    assert RowPixels(0x4000_0000) == 0;
  }

  lemma WideRunAllocated(width: nat, height: nat, pitch: nat, src: seq<Byte>)
    requires width < BIT32 && height < BIT32 && width * height < BIT32
    ensures AllAllocated(WideRun(width, height, pitch, src))
  {
    var evs := WideRun(width, height, pitch, src);
    assert Allocated(evs[0]);
    assert forall k :: 1 <= k < |evs| ==> Allocated(evs[k]);
  }

  /** RowsFit is exact: without it the last copy of this run moves no pixel, so the consumer keeps a stale one. */
  lemma RowsMustFit(width: nat, height: nat, pitch: nat, src: seq<Byte>)
    requires width < BIT32 && height < BIT32 && width * height < BIT32
    requires Configure(NO_FRAME, width, height, pitch, 32).valid && !RowsFit(width, height)
    requires WordAt(src, 0) != OPAQUE_BLACK
    ensures AllAllocated(WideRun(width, height, pitch, src))
    ensures var p := Run(START, WideRun(width, height, pitch, src));
      p.frame.valid && p.target.pixels != p.frame.pixels
  {
    WideRunAllocated(width, height, pitch, src);
    RunFive(START, WideRun(width, height, pitch, src));
    ShownOnce(width, height, pitch);
    var p2 := Step(Step(START, Configured(width, height, pitch, 32)), Copied(false));
    DrawTwice(p2, width, height, src, 0x3fff_ffff);
    CopyMovesNothing(Step(Step(p2, Updated(src, 4, 0, 0, 1, 1)), Updated(src, 4, 0x3fff_ffff, 0, 1, 1)), width, height);
  }

  lemma RunFive(p: Pair, evs: seq<Event>)
    requires Sized(p.frame) && |evs| == 5 && AllAllocated(evs)
    ensures Run(p, evs) == Step(Step(Step(Step(Step(p, evs[0]), evs[1]), evs[2]), evs[3]), evs[4])
  {
    assert evs[0..] == evs;
    RunFrom(p, evs, 0);
    RunFrom(Step(p, evs[0]), evs, 1);
    RunFrom(Step(Step(p, evs[0]), evs[1]), evs, 2);
    RunFrom(Step(Step(Step(p, evs[0]), evs[1]), evs[2]), evs, 3);
    RunFrom(Step(Step(Step(Step(p, evs[0]), evs[1]), evs[2]), evs[3]), evs, 4);
  }

  lemma RunFrom(p: Pair, evs: seq<Event>, i: nat)
    requires Sized(p.frame) && i < |evs| && AllAllocated(evs)
    ensures AllAllocated(evs[i..]) && AllAllocated(evs[i + 1..])
    ensures Run(p, evs[i..]) == Run(Step(p, evs[i]), evs[i + 1..])
  {
    assert evs[i..][1..] == evs[i + 1..];
  }

  /** A clear gives every pixel of a valid frame the colour. */
  lemma ClearShowsColour(f: Frame, bgra: Pixel, k: nat)
    requires k < |f.pixels|
    ensures |Clear(f, bgra).pixels| == |f.pixels|
    ensures Clear(f, bgra).pixels[k] == if f.valid then bgra else f.pixels[k]
  {}

  /** What the frame shows: an update writes the clipped rectangle from its source and nothing else. */
  lemma UpdateShowsSource(f: Frame, src: seq<Byte>, pitch: nat, x: nat, y: nat, width: nat, height: nat,
                          row: nat, col: nat)
    requires f.valid && Sized(f) && f.width < BIT32 && row < f.height && col < f.width
    requires x < f.width ==> Min(width, f.width - x) < 0x4000_0000
    ensures RowStart(row, f.width) + col < |f.pixels|
    ensures UpdateRect(f, src, pitch, x, y, width, height).pixels[RowStart(row, f.width) + col]
         == if y <= row < y + height && x <= col < x + width
            then WordAt(src, SourceOffset(row - y, col - x, pitch))
            else f.pixels[RowStart(row, f.width) + col]
  {
    RowInBounds(f.width, f.height, row, col, 1);
    RowStartIsProduct(row, f.width);
    DivExact(row, col, f.width);
    if x < f.width { RowIsWhole(Min(width, f.width - x)); }
  }
}
