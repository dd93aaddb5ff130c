/**
  One grid pass of the emitter loop in `StartShow`
  (Assets/Scripts/BodyParticles.cs): the depth frame is normalised once, then
  every pixel is visited in row-major order and passes, in this order, the
  spawn-chance gate, the display-depth gate and the silhouette test before the
  camera turns its viewport point into the position of one particle.

  `Random.Range(0, 1)` is replaced by a supplied sequence of draws. Every pixel
  takes one draw, so the pixel with row-major index k takes draw k. The camera
  projection is a function parameter; emitting a particle appends its position
  to the result.
 */
module FrameEmitter {
  import opened Numerics
  import opened GridIndex
  import opened DepthNormalizer
  import opened Silhouette
  import opened Projection

  /** The size of a sensor frame. */
  datatype FrameDescription = FrameDescription(width: nat, height: nat)

  /** The buffers the sensor side provides for one pass. */
  datatype Frame = Frame(
    depthDesc: FrameDescription,
    colorDesc: FrameDescription,
    depthData: seq<UShort>,
    depthPoints: seq<DepthSpacePoint>,
    bodyIndex: seq<Byte>)

  /** The component's public settings that a pass reads. */
  datatype Settings = Settings(depthScale: real, remapMinDistance: real, spawnChance: real)

  /** Everything one pass reads: the frame, the settings, the random draws and
      the depths `RefreshData` produced from the frame. */
  datatype Pass = Pass(frame: Frame, settings: Settings, draws: seq<real>, depths: seq<real>)

  /** What happens to one pixel: the first gate it fails, or its viewport point. */
  datatype Outcome = Thinned | BehindCamera | Background | Emitted(viewport: Vec3)

  /** The buffers are long enough for every read of a pass. The two conditions
      on the settings keep the model's real divisions defined. */
  predicate FrameReady(frame: Frame, settings: Settings, draws: seq<real>)
  {
    var pixels := frame.depthDesc.width * frame.depthDesc.height;
    && pixels <= |frame.depthData|
    && pixels <= |draws|
    && 0 < frame.colorDesc.width && 0 < frame.colorDesc.height
    && frame.colorDesc.width * frame.colorDesc.height <= |frame.depthPoints|
    && settings.depthScale != 0.0
    && settings.remapMinDistance != DisplayFar
  }

  predicate Ready(p: Pass)
  {
    && FrameReady(p.frame, p.settings, p.draws)
    && p.frame.depthDesc.width * p.frame.depthDesc.height <= |p.depths|
  }

  predicate InGrid(p: Pass, x: int, y: int)
  {
    0 <= x < p.frame.depthDesc.width && 0 <= y < p.frame.depthDesc.height
  }

  /** The row-major index of an in-grid pixel: its depth sample and its draw. */
  function PixelIndex(p: Pass, x: int, y: int): (i: int)
    requires Ready(p) && InGrid(p, x, y)
    ensures 0 <= i < |p.depths| && i < |p.draws|
  {
    DepthIndexInRange(x, y, p.frame.depthDesc.width, p.frame.depthDesc.height);
    DepthIndex(x, y, p.frame.depthDesc.width)
  }

  /** The spawn-chance gate: a draw equal to the chance still passes. */
  predicate SpawnGate(p: Pass, x: int, y: int)
    requires Ready(p) && InGrid(p, x, y)
  {
    p.draws[PixelIndex(p, x, y)] <= p.settings.spawnChance
  }

  /** The display depth of an in-grid pixel. */
  function PixelDepth(p: Pass, x: int, y: int): real
    requires Ready(p) && InGrid(p, x, y)
  {
    DisplayDepth(p.depths[PixelIndex(p, x, y)], p.settings.remapMinDistance)
  }

  predicate DepthGate(p: Pass, x: int, y: int)
    requires Ready(p) && InGrid(p, x, y)
  {
    0.0 <= PixelDepth(p, x, y)
  }

  /** The colour index of an in-grid pixel, a valid index of the coordinate table. */
  function PixelColorIndex(p: Pass, x: int, y: int): (ci: int)
    requires Ready(p) && InGrid(p, x, y)
    ensures 0 <= ci < |p.frame.depthPoints|
  {
    var d, c := p.frame.depthDesc, p.frame.colorDesc;
    ColorIndex(x, y, d.width, d.height, c.width, c.height)
  }

  predicate SilhouetteGate(p: Pass, x: int, y: int)
    requires Ready(p) && InGrid(p, x, y)
  {
    IsSilhouette(p.frame.depthPoints, p.frame.bodyIndex, PixelColorIndex(p, x, y))
  }

  /** The loop body of `StartShow` for pixel (x, y). */
  function ProcessPixel(p: Pass, x: int, y: int): Outcome
    requires Ready(p) && InGrid(p, x, y)
  {
    var d, c := p.frame.depthDesc, p.frame.colorDesc;
    var index := PixelIndex(p, x, y);
    if p.draws[index] > p.settings.spawnChance then
      Thinned
    else
      var uv := UV(x, y, d.width, d.height);
      var colorIndex := ColorIndex(x, y, d.width, d.height, c.width, c.height);
      var depth := DisplayDepth(p.depths[index], p.settings.remapMinDistance);
      var viewport := ViewportPoint(uv.0, uv.1, depth);
      if viewport.z < 0.0 then
        BehindCamera
      else if !IsSilhouette(p.frame.depthPoints, p.frame.bodyIndex, colorIndex) then
        Background
      else
        Emitted(viewport)
  }

  /** Pixel `px` lies in the grid and produces a particle. */
  predicate Emits(p: Pass, px: Pixel)
  {
    Ready(p) && InGrid(p, px.x, px.y) && ProcessPixel(p, px.x, px.y).Emitted?
  }

  function EmitsIn(p: Pass): Pixel -> bool
  {
    px => Emits(p, px)
  }

  /** The viewport point of an emitting pixel. */
  function ViewportOf(p: Pass, px: Pixel): Vec3
    requires Emits(p, px)
  {
    ProcessPixel(p, px.x, px.y).viewport
  }

  /** The pixels that emit during the pass, in the order they emit. */
  function EmittedPixels(p: Pass): (ps: seq<Pixel>)
    requires Ready(p)
    ensures forall px: Pixel :: px in ps <==> Emits(p, px)
    ensures forall i, j :: 0 <= i < j < |ps| ==> Before(ps[i], ps[j])
  {
    var ps := GridScan(EmitsIn(p), p.frame.depthDesc.width, p.frame.depthDesc.height);
    assert forall i :: 0 <= i < |ps| ==> Emits(p, ps[i]);
    ps
  }

  /** The particle positions for a sequence of emitting pixels: the camera's
      image of each pixel's viewport point. */
  function Positions(p: Pass, ps: seq<Pixel>, camera: Vec3 -> Vec3): seq<Vec3>
    requires forall i :: 0 <= i < |ps| ==> Emits(p, ps[i])
  {
    seq(|ps|, i requires 0 <= i < |ps| => camera(ViewportOf(p, ps[i])))
  }

  lemma PositionsAt(p: Pass, ps: seq<Pixel>, camera: Vec3 -> Vec3, i: int)
    requires forall j :: 0 <= j < |ps| ==> Emits(p, ps[j])
    requires 0 <= i < |ps|
    ensures |Positions(p, ps, camera)| == |ps|
    ensures Positions(p, ps, camera)[i] == camera(ViewportOf(p, ps[i]))
  {
  }

  lemma PositionsAppend(p: Pass, ps: seq<Pixel>, qs: seq<Pixel>, camera: Vec3 -> Vec3)
    requires forall i :: 0 <= i < |ps| ==> Emits(p, ps[i])
    requires forall i :: 0 <= i < |qs| ==> Emits(p, qs[i])
    ensures Positions(p, ps + qs, camera) == Positions(p, ps, camera) + Positions(p, qs, camera)
  {
    var all := ps + qs;
    assert forall i :: 0 <= i < |all| ==> Emits(p, all[i]);
  }

  lemma PositionsSingleton(p: Pass, px: Pixel, camera: Vec3 -> Vec3)
    requires Emits(p, px)
    ensures Positions(p, [px], camera) == [camera(ViewportOf(p, px))]
  {
  }

  /** Visiting pixel (x, y) extends the row's positions by its particle, if any. */
  lemma RowStep(p: Pass, y: nat, x: nat, camera: Vec3 -> Vec3)
    requires Ready(p) && y < p.frame.depthDesc.height && x < p.frame.depthDesc.width
    ensures var o := ProcessPixel(p, x, y);
            Positions(p, RowScan(EmitsIn(p), y, x + 1), camera)
            == Positions(p, RowScan(EmitsIn(p), y, x), camera) + (if o.Emitted? then [camera(o.viewport)] else [])
  {
    var keep := EmitsIn(p);
    var before := RowScan(keep, y, x);
    if keep(Pixel(x, y)) {
      assert RowScan(keep, y, x + 1) == before + [Pixel(x, y)];
      PositionsSingleton(p, Pixel(x, y), camera);
      PositionsAppend(p, before, [Pixel(x, y)], camera);
    } else {
      assert RowScan(keep, y, x + 1) == before;
    }
  }

  /** One row of the grid walk: the particle positions of row `y`, left to right. */
  method EmitRow(p: Pass, y: nat, camera: Vec3 -> Vec3) returns (emitted: seq<Vec3>)
    requires Ready(p) && y < p.frame.depthDesc.height
    ensures emitted == Positions(p, RowScan(EmitsIn(p), y, p.frame.depthDesc.width), camera)
  {
    emitted := [];
    var x := 0;
    while x < p.frame.depthDesc.width
      invariant 0 <= x <= p.frame.depthDesc.width
      invariant emitted == Positions(p, RowScan(EmitsIn(p), y, x), camera)
    {
      var outcome := ProcessPixel(p, x, y);
      RowStep(p, y, x, camera);
      if outcome.Emitted? {
        emitted := emitted + [camera(outcome.viewport)];
      }
      x := x + 1;
    }
  }

  /** Walking row `y` extends the pass's positions by the row's positions. */
  lemma GridStep(p: Pass, y: nat, camera: Vec3 -> Vec3)
    requires Ready(p) && y < p.frame.depthDesc.height
    ensures Positions(p, GridScan(EmitsIn(p), p.frame.depthDesc.width, y + 1), camera)
            == Positions(p, GridScan(EmitsIn(p), p.frame.depthDesc.width, y), camera)
               + Positions(p, RowScan(EmitsIn(p), y, p.frame.depthDesc.width), camera)
  {
    var keep, w := EmitsIn(p), p.frame.depthDesc.width;
    PositionsAppend(p, GridScan(keep, w, y), RowScan(keep, y, w), camera);
  }

  /** The grid walk of a pass: row by row, one particle, at the camera's image of
      the viewport point, for every pixel that passes all three gates. */
  method EmitPass(p: Pass, camera: Vec3 -> Vec3) returns (emitted: seq<Vec3>)
    requires Ready(p)
    ensures emitted == Positions(p, EmittedPixels(p), camera)
  {
    emitted := [];
    var y := 0;
    while y < p.frame.depthDesc.height
      invariant 0 <= y <= p.frame.depthDesc.height
      invariant emitted == Positions(p, GridScan(EmitsIn(p), p.frame.depthDesc.width, y), camera)
    {
      var row := EmitRow(p, y, camera);
      GridStep(p, y, camera);
      emitted := emitted + row;
      y := y + 1;
    }
  }

  /** One pass of `StartShow`: normalise the depth frame, then walk the grid. */
  method RunPass(frame: Frame, settings: Settings, draws: seq<real>, camera: Vec3 -> Vec3)
    returns (depths: seq<real>, emitted: seq<Vec3>)
    requires FrameReady(frame, settings, draws)
    ensures |depths| == |frame.depthData|
    ensures forall i :: 0 <= i < frame.depthDesc.width * frame.depthDesc.height ==>
              depths[i] == NormalizeSample(frame.depthData[i], settings.depthScale)
    ensures forall i :: frame.depthDesc.width * frame.depthDesc.height <= i < |depths| ==> depths[i] == 0.0
    ensures Ready(Pass(frame, settings, draws, depths))
    ensures emitted == Positions(Pass(frame, settings, draws, depths), EmittedPixels(Pass(frame, settings, draws, depths)), camera)
  {
    depths := RefreshData(frame.depthData, frame.depthDesc.width, frame.depthDesc.height, settings.depthScale);
    emitted := EmitPass(Pass(frame, settings, draws, depths), camera);
  }

  // Properties of a pass

  /** The gates apply in source order: the first one a pixel fails names its
      outcome, and an emitted pixel's viewport point lies on the display, in
      front of the camera, at the pixel's display depth. */
  lemma GateOrder(p: Pass, x: int, y: int)
    requires Ready(p) && InGrid(p, x, y)
    ensures var o := ProcessPixel(p, x, y);
            && (o.Thinned? <==> !SpawnGate(p, x, y))
            && (o.BehindCamera? <==> SpawnGate(p, x, y) && !DepthGate(p, x, y))
            && (o.Background? <==> SpawnGate(p, x, y) && DepthGate(p, x, y) && !SilhouetteGate(p, x, y))
            && (o.Emitted? <==> SpawnGate(p, x, y) && DepthGate(p, x, y) && SilhouetteGate(p, x, y))
    ensures var o := ProcessPixel(p, x, y);
            o.Emitted? ==> && 0.0 <= o.viewport.x < ViewportWidth
                           && 0.0 < o.viewport.y <= ViewportHeight
                           && o.viewport.z == PixelDepth(p, x, y) && 0.0 <= o.viewport.z
  {
  }

  /** A pixel emits exactly when it passes the spawn gate, the depth gate and the
      silhouette test. */
  lemma EmittedIffAllGates(p: Pass, x: nat, y: nat)
    requires Ready(p) && InGrid(p, x, y)
    ensures Pixel(x, y) in EmittedPixels(p) <==> SpawnGate(p, x, y) && DepthGate(p, x, y) && SilhouetteGate(p, x, y)
  {
    GateOrder(p, x, y);
    assert Emits(p, Pixel(x, y)) <==> ProcessPixel(p, x, y).Emitted?;
  }

  /** A pass emits exactly one particle per emitting pixel: the i-th particle is
      the camera's image of the viewport point of the i-th emitting pixel, and
      the camera sees no other point. */
  lemma OneParticlePerPixel(p: Pass, camera: Vec3 -> Vec3, i: int)
    requires Ready(p) && 0 <= i < |EmittedPixels(p)|
    ensures |Positions(p, EmittedPixels(p), camera)| == |EmittedPixels(p)|
    ensures var px := EmittedPixels(p)[i];
            && ProcessPixel(p, px.x, px.y).Emitted?
            && Positions(p, EmittedPixels(p), camera)[i] == camera(ProcessPixel(p, px.x, px.y).viewport)
  {
    var ps := EmittedPixels(p);
    assert Emits(p, ps[i]) by { assert ps[i] in ps; }
    PositionsAt(p, ps, camera, i);
  }

  /** Emission order is row-major, so no pixel emits twice, and it agrees with
      the order of the pixels' draws. */
  lemma EmissionOrder(p: Pass, i: int, j: int)
    requires Ready(p) && 0 <= i < j < |EmittedPixels(p)|
    ensures var a, b := EmittedPixels(p)[i], EmittedPixels(p)[j];
            && a != b
            && a.y <= b.y
            && PixelIndex(p, a.x, a.y) < PixelIndex(p, b.x, b.y)
  {
    var ps := EmittedPixels(p);
    var a, b := ps[i], ps[j];
    assert Emits(p, a) && Emits(p, b) by {
      assert a in ps && b in ps;
    }
    DepthIndexOrder(a.x, a.y, b.x, b.y, p.frame.depthDesc.width);
  }

  /** With a spawn chance of 0 and draws from [0, 1], only pixels whose draw is
      exactly 0 can emit: the gate compares with `>`. */
  lemma ZeroChanceAdmitsZeroDraws(p: Pass, x: nat, y: nat)
    requires Ready(p) && InGrid(p, x, y) && p.settings.spawnChance == 0.0
    requires forall i :: 0 <= i < |p.draws| ==> 0.0 <= p.draws[i] <= 1.0
    requires Pixel(x, y) in EmittedPixels(p)
    ensures p.draws[PixelIndex(p, x, y)] == 0.0
  {
    EmittedIffAllGates(p, x, y);
  }

  /** With a spawn chance of 1 and draws from [0, 1], every pixel that passes the
      depth gate and the silhouette test emits. */
  lemma FullChanceKeepsValidPixels(p: Pass, x: nat, y: nat)
    requires Ready(p) && InGrid(p, x, y) && 1.0 <= p.settings.spawnChance
    requires forall i :: 0 <= i < |p.draws| ==> 0.0 <= p.draws[i] <= 1.0
    ensures Pixel(x, y) in EmittedPixels(p) <==> DepthGate(p, x, y) && SilhouetteGate(p, x, y)
  {
    EmittedIffAllGates(p, x, y);
  }

  /** An empty depth buffer admits only an empty grid, which emits nothing. */
  lemma EmptyFrameEmitsNothing(p: Pass)
    requires Ready(p) && |p.frame.depthData| == 0
    ensures EmittedPixels(p) == []
  {
    var ps := EmittedPixels(p);
    if ps != [] {
      assert Emits(p, ps[0]) by { assert ps[0] in ps; }
      var w, h := p.frame.depthDesc.width, p.frame.depthDesc.height;
      MulMonotone(1, h, w);
      assert false;
    }
  }
}
