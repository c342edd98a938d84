/** The renderer as it runs: its snapshot and texture changed in place by each frame. */
module FrameRenderer {
  import opened Arith
  import opened Options
  import opened FrameBridge
  import opened FrameMirror
  import opened FrameTexture
  import BridgeHost

  class BochsFrameRenderer {
    const bridge: BridgeHost.Bridge
    const device: Device
    /** m_frameSnapshot, m_frameTexture with its size, m_sourceWidth and m_sourceHeight */
    const snapshot: BridgeHost.Snapshot
    var texture: Option<Texture>
    var sourceWidth: nat
    var sourceHeight: nat

    ghost function State(): Screen
      reads this, snapshot, bridge.frame
    {
      Screen(Pair(bridge.frame.Value(), snapshot.Value()), texture, sourceWidth, sourceHeight)
    }

    ghost predicate Valid()
      reads this, snapshot, bridge.frame
    {
      bridge.frame != snapshot && bridge.Valid() && device.Sane()
    }

    constructor (bridge: BridgeHost.Bridge, device: Device)
      requires bridge.Valid() && device.Sane()
      ensures this.bridge == bridge && this.device == device && fresh(snapshot) && Valid()
      ensures State() == SWITCHED_ON.(pair := Pair(bridge.frame.Value(), NO_FRAME))
    {
      this.bridge, this.device := bridge, device;
      snapshot := new BridgeHost.Snapshot();
      texture, sourceWidth, sourceHeight := None, 0, 0;
    }

    method EnsureFrameTexture(noise: seq<Pixel>)
      requires Valid()
      modifies this
      ensures State() == Ensured(old(State()), device, noise)
    {
      var (w, h) := device.Size(snapshot.width, snapshot.height);
      if texture.Some? && texture.value.width == w && texture.value.height == h
         && sourceWidth == snapshot.width && sourceHeight == snapshot.height { return; }
      texture := Some(Fresh(w, h, noise));
      sourceWidth, sourceHeight := snapshot.width, snapshot.height;
    }

    /** Each texel of the smaller image is written from the nearest pixel of the frame. */
    method BuildScaledPixels(w: nat, h: nat) returns (scaled: seq<Pixel>)
      requires 0 < w && 0 < h && 0 < snapshot.width && 0 < snapshot.height
      requires |snapshot.pixels| == snapshot.width * snapshot.height
      ensures scaled == Scaled(snapshot.Value(), w, h)
    {
      ghost var goal := Scaled(snapshot.Value(), w, h);
      scaled := seq(w * h, _ => 0);
      AllRows(w, h);
      for y := 0 to h
        invariant |scaled| == |goal| && RowStart(y, w) <= |goal| && scaled[..RowStart(y, w)] == goal[..RowStart(y, w)]
      {
        RowInBounds(w, h, y, 0, w);
        scaled := ScaleRow(scaled, y, w, h);
      }
    }

    /** One row of it. */
    method ScaleRow(before: seq<Pixel>, y: nat, w: nat, h: nat) returns (scaled: seq<Pixel>)
      requires 0 < w && y < h && 0 < snapshot.width && 0 < snapshot.height
      requires |snapshot.pixels| == snapshot.width * snapshot.height
      requires RowStart(y, w) + w <= |before| == w * h
      requires before[..RowStart(y, w)] == Scaled(snapshot.Value(), w, h)[..RowStart(y, w)]
      ensures |scaled| == |before|
      ensures scaled[..RowStart(y, w) + w] == Scaled(snapshot.Value(), w, h)[..RowStart(y, w) + w]
    {
      ghost var goal := Scaled(snapshot.Value(), w, h);
      var sourceRow := y * snapshot.height / h;
      scaled := before;
      ghost var at := RowStart(y, w);
      RowStartIsProduct(y, w);
      for x := 0 to w
        invariant |scaled| == |goal| && scaled[..at + x] == goal[..at + x]
      {
        BoxRow(at + x, w, x, y, 1);
        ShownInFrame(at + x, w, h, snapshot.width, snapshot.height);
        RowStartIsProduct(sourceRow, snapshot.width);
        scaled := scaled[y * w + x := snapshot.pixels[sourceRow * snapshot.width + x * snapshot.width / w]];
        assert scaled[at + x] == goal[at + x];
      }
    }

    method UploadFrameTexture()
      requires Valid() && texture.Some? && 0 < texture.value.width && 0 < texture.value.height
      requires snapshot.pixels != [] ==>
        0 < snapshot.width && 0 < snapshot.height && |snapshot.pixels| == snapshot.width * snapshot.height
      modifies this`texture
      ensures texture == Some(Uploaded(old(texture.value), snapshot.Value()))
    {
      if snapshot.pixels == [] { return; }
      var t, r := texture.value, snapshot.dirtyRect;
      if t.width != snapshot.width || t.height != snapshot.height {
        var scaled := BuildScaledPixels(t.width, t.height);
        texture := Some(Subresource(t, Whole(t), scaled, 0, U32(t.width * 4) / 4));
        return;
      }
      var box, at := Whole(t), 0;
      if r.valid && r.width > 0 && r.height > 0 && (r.width != snapshot.width || r.height != snapshot.height) {
        box := Box(r.x, r.y, U32(r.x + r.width), U32(r.y + r.height));
        RowStartIsProduct(r.y, snapshot.width);
        at := r.y * snapshot.width + r.x;
      }
      texture := Some(Subresource(t, box, snapshot.pixels, at, U32(snapshot.width * 4) / 4));
    }

    /** Render(), up to the drawing of the texture: afterwards it shows the frame. */
    method Render(noise: seq<Pixel>)
      requires Valid() && Following(State(), device)
      modifies this, snapshot, bridge.frame
      ensures State() == Rendered(old(State()), device, noise)
      ensures Valid() && Following(State(), device)
      ensures bridge.frame.valid ==> texture.Some? && Shows(texture.value, device, bridge.frame.Value())
    {
      ghost var s := State();
      RenderShows(s, device, noise);
      CopyKeepsStep(s, device);
      FetchFrame();
      if !snapshot.valid { return; }
      EnsuredFits(State(), device, noise);
      EnsureFrameTexture(noise);
      if snapshot.dirty { UploadFrameTexture(); }
    }

    /** The copies of Render(). */
    method FetchFrame()
      requires Valid()
      modifies snapshot, bridge.frame
      ensures State() == old(State()).(pair := Fetched(old(State()))) && Valid()
    {
      var _ := bridge.CopyFrameInto(snapshot, texture == None);
      if snapshot.valid && snapshot.pixels == []
         && (texture == None || sourceWidth != snapshot.width || sourceHeight != snapshot.height) {
        var _ := bridge.CopyFrameInto(snapshot, true);
      }
    }

    method ReleaseDeviceDependentResources()
      requires Valid()
      modifies this, snapshot
      ensures State() == Released(old(State())) && Valid()
    {
      texture, sourceWidth, sourceHeight := None, 0, 0;
      snapshot.width, snapshot.height, snapshot.pitch, snapshot.bpp := 0, 0, 0, 0;
      snapshot.valid, snapshot.dirty, snapshot.dirtyRect, snapshot.pixels := false, false, NO_RECT, [];
    }
  }
}
