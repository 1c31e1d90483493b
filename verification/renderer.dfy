/** `redraw`: the load gate, the camera, the background pass and the actor
    pass, composed into the draw operations of one frame. */
module Renderer {
  import opened Types
  import opened JsNumber
  import opened Camera
  import opened Background
  import opened Actors
  import LoadGate

  /** The inputs of `redraw` other than the actor list are well formed: a
      non-zero scaled tile size and a non-empty world. */
  predicate Drawable(cfg: Config, tileSize: nat) {
    tileSize >= 1 && cfg.worldW >= 1 && cfg.worldH >= 1
  }

  /** The view the background pass reads, once the anchor is known. */
  function FrameView(anchor: Actor, bg: seq<seq<Tile>>, cfg: Config, tileSize: nat): (v: View)
    requires Drawable(cfg, tileSize)
    ensures Wraps(v) && Framed(v.cam, tileSize, cfg)
  {
    View(bg, cfg, tileSize, Origin(anchor.loc, tileSize, cfg))
  }

  /** `redraw(actors)`. Nothing is drawn while the gate is closed or when no
      actor list is given. Otherwise the pass fails with a TypeError when
      the list is empty, when the tile size or a world dimension is 0, or at
      the first cell whose world cell the map lacks; when it succeeds it has
      drawn every visible cell and then at most one sprite per actor. */
  function Redraw(imagesLoaded: bool, actors: Option<seq<Actor>>, bg: seq<seq<Tile>>,
                  cfg: Config, tileSize: nat): (r: Result<seq<DrawOp>>)
    ensures !imagesLoaded || actors.None? ==> r == Success([])
    ensures r.Failure? ==> imagesLoaded && actors.Some?
    ensures imagesLoaded && actors == Some([]) ==> r == Failure(NoAnchor)
    ensures imagesLoaded && actors.Some? && actors.value != [] && !Drawable(cfg, tileSize) ==>
              r == Failure(DegenerateGeometry)
    ensures r.Success? && imagesLoaded && actors.Some? ==>
              CellCount <= |r.value| <= CellCount + |actors.value|
  {
    if !imagesLoaded || actors.None? then Success([])
    else if actors.value == [] then Failure(NoAnchor)
    else if !Drawable(cfg, tileSize) then Failure(DegenerateGeometry)
    else
      var v := FrameView(actors.value[0], bg, cfg, tileSize);
      match BackgroundPass(v)
      case Failure(e) => Failure(e)
      case Success(p) => Success(p.draws + RenderActors(actors.value, p.table, tileSize))
  }

  /** A frame is the background cell draws in visiting order followed by the
      actor pass over the table the background built. */
  lemma RedrawLayout(actors: seq<Actor>, bg: seq<seq<Tile>>, cfg: Config, tileSize: nat)
    requires actors != [] && Drawable(cfg, tileSize)
    requires Redraw(true, Some(actors), bg, cfg, tileSize).Success?
    ensures var v := FrameView(actors[0], bg, cfg, tileSize);
            var r := Redraw(true, Some(actors), bg, cfg, tileSize).value;
            && BackgroundPass(v).Success?
            && (forall k :: 0 <= k < CellCount ==> HasTile(bg, WorldCellAt(v, k)) && r[k] == CellDraw(v, k))
            && r[CellCount..] == RenderActors(actors, BackgroundPass(v).value.table, tileSize)
  {
    var v := FrameView(actors[0], bg, cfg, tileSize);
    BackgroundDraws(v, CellCount);
  }

  /** With a map covering the world, an open gate and a non-empty actor list,
      the frame always renders. */
  lemma FullMapRenders(actors: seq<Actor>, bg: seq<seq<Tile>>, cfg: Config, tileSize: nat)
    requires actors != [] && Drawable(cfg, tileSize)
    requires |bg| >= cfg.worldH
    requires forall y :: 0 <= y < |bg| ==> |bg[y]| >= cfg.worldW
    ensures Redraw(true, Some(actors), bg, cfg, tileSize).Success?
  {
    FullMapSucceeds(FrameView(actors[0], bg, cfg, tileSize));
  }

  /** An actor standing on a world cell that no buffered screen cell maps to
      this frame is not in the table and so is never drawn. */
  lemma UnvisitedCellNotInTable(v: View, c: Cell)
    requires Wraps(v) && BackgroundPass(v).Success?
    requires forall k :: 0 <= k < CellCount ==> WorldCellAt(v, k) != c
    ensures c !in BackgroundPass(v).value.table
  {
    TableIsLastWrite(v, CellCount);
  }

  /** Per axis: a sprite drawn at `cellPos - (grid * tileSize - loc)` for a
      screen cell that wraps onto its grid cell lands at its location
      relative to the camera pixel, modulo the world's pixel size. */
  lemma AxisDrawCongruent(s: int, tileSize: int, cam: Axis, grid: int, loc: int, worldTiles: int)
    requires tileSize >= 1 && worldTiles >= 1
    requires cam.pixel == cam.tile * tileSize + cam.offset
    requires Congruent(grid, cam.tile + s, worldTiles)
    ensures Congruent((s * tileSize - cam.offset) - (grid * tileSize - loc), loc - cam.pixel,
                      worldTiles * tileSize)
  {
    MultipleFromCongruent(grid, cam.tile + s, worldTiles);
    var q := (grid - (cam.tile + s)) / worldTiles;
    var lhs := (s * tileSize - cam.offset) - (grid * tileSize - loc);
    assert lhs - (loc - cam.pixel) == (s + cam.tile - grid) * tileSize;
    assert (s + cam.tile - grid) * tileSize == (-q) * (worldTiles * tileSize) by {
      assert s + cam.tile - grid == (-q) * worldTiles;
    }
    CongruentFromMultiple(lhs, loc - cam.pixel, -q, worldTiles * tileSize);
  }

  /** Every drawn actor appears at its pixel location minus the camera's
      top-left pixel, modulo the world's pixel size: actors and background
      scroll together. */
  lemma ActorDrawnRelativeToCamera(v: View, a: Actor)
    requires Wraps(v) && v.tileSize >= 1 && Framed(v.cam, v.tileSize, v.cfg)
    requires BackgroundPass(v).Success?
    requires GridCell(a) in BackgroundPass(v).value.table
    ensures var d := ActorDraw(a, BackgroundPass(v).value.table[GridCell(a)], v.tileSize);
            && Congruent(d.dest.x, a.loc.x - v.cam.across.pixel, v.cfg.worldW * v.tileSize)
            && Congruent(d.dest.y, a.loc.y - v.cam.down.pixel, v.cfg.worldH * v.tileSize)
  {
    TableIsLastWrite(v, CellCount);
    var k := LastWriter(v, GridCell(a), CellCount).value;
    WorldCellCongruent(v, k);
    var s := ScreenCellAt(k);
    AxisDrawCongruent(s.x, v.tileSize, v.cam.across, a.x, a.loc.x, v.cfg.worldW);
    AxisDrawCongruent(s.y, v.tileSize, v.cam.down, a.y, a.loc.y, v.cfg.worldH);
  }

  /** The anchor actor, when drawn, sits `Half` pixels from the top-left
      corner on each axis, modulo the world's pixel size: the camera
      follows it. */
  lemma AnchorDrawnCentred(actors: seq<Actor>, bg: seq<seq<Tile>>, cfg: Config, tileSize: nat)
    requires actors != [] && Drawable(cfg, tileSize)
    requires Redraw(true, Some(actors), bg, cfg, tileSize).Success?
    requires GridCell(actors[0]) in BackgroundPass(FrameView(actors[0], bg, cfg, tileSize)).value.table
    ensures var d := Redraw(true, Some(actors), bg, cfg, tileSize).value[CellCount];
            && d.image == SpriteFor(actors[0])
            && Congruent(d.dest.x, Half(TilesAcross, tileSize), cfg.worldW * tileSize)
            && Congruent(d.dest.y, Half(TilesDown, tileSize), cfg.worldH * tileSize)
  {
    var a := actors[0];
    var v := FrameView(a, bg, cfg, tileSize);
    var table := BackgroundPass(v).value.table;
    RedrawLayout(actors, bg, cfg, tileSize);
    ActorDrawnInOrder(actors, 0, table, tileSize);
    assert actors[..0] == [];
    var d := ActorDraw(a, table[GridCell(a)], tileSize);
    ActorDrawnRelativeToCamera(v, a);
    AxisCentred(a.loc.x, TilesAcross, tileSize, cfg.worldW);
    AxisCentred(a.loc.y, TilesDown, tileSize, cfg.worldH);
    CongruentToHalf(d.dest.x, a.loc.x, v.cam.across.pixel, Half(TilesAcross, tileSize), cfg.worldW * tileSize);
    CongruentToHalf(d.dest.y, a.loc.y, v.cam.down.pixel, Half(TilesDown, tileSize), cfg.worldH * tileSize);
  }

  lemma CongruentToHalf(x: int, loc: int, pixel: int, half: int, m: int)
    requires m > 0
    requires Congruent(x, loc - pixel, m) && Congruent(pixel + half, loc, m)
    ensures Congruent(x, half, m)
  {
    MultipleFromCongruent(x, loc - pixel, m);
    MultipleFromCongruent(pixel + half, loc, m);
    var q1 := (x - (loc - pixel)) / m;
    var q2 := (pixel + half - loc) / m;
    assert x - half == (q1 - q2) * m;
    CongruentFromMultiple(x, half, q1 - q2, m);
  }

  /** A multiple of `w * t` strictly between `-(n * t)` and `n * t` is zero
      when `w >= n`. */
  lemma CongruentInWindow(x: int, y: int, n: int, w: int, t: int)
    requires t >= 1 && w >= n >= 1
    requires Congruent(x, y, w * t)
    requires -(n * t) < x - y < n * t
    ensures x == y
  {
    MultipleFromCongruent(x, y, w * t);
    var q := (x - y) / (w * t);
    if q >= 1 {
      MulMonotone(1, q, w * t);
      MulMonotone(n, w, t);
    } else if q <= -1 {
      MulMonotone(q, -1, w * t);
      MulMonotone(n, w, t);
    }
  }

  /** In a world at least 10 tiles wide and 6 tall, an anchor at rest on
      its grid cell is drawn exactly at the centring offset: column
      `parseInt(15 * tileSize / 2)`, row `4 * tileSize`. */
  lemma AnchorAtRestDrawnAtCentre(actors: seq<Actor>, bg: seq<seq<Tile>>, cfg: Config, tileSize: nat)
    requires actors != [] && Drawable(cfg, tileSize)
    requires cfg.worldW >= 10 && cfg.worldH >= 6
    requires actors[0].loc == Point(actors[0].x * tileSize, actors[0].y * tileSize)
    requires Redraw(true, Some(actors), bg, cfg, tileSize).Success?
    requires GridCell(actors[0]) in BackgroundPass(FrameView(actors[0], bg, cfg, tileSize)).value.table
    ensures Redraw(true, Some(actors), bg, cfg, tileSize).value[CellCount].dest
         == Rect(Half(TilesAcross, tileSize), Half(TilesDown, tileSize), tileSize, tileSize)
  {
    var a := actors[0];
    var v := FrameView(a, bg, cfg, tileSize);
    var table := BackgroundPass(v).value.table;
    AnchorDrawnCentred(actors, bg, cfg, tileSize);
    var d := Redraw(true, Some(actors), bg, cfg, tileSize).value[CellCount];
    TableIsLastWrite(v, CellCount);
    var k := LastWriter(v, GridCell(a), CellCount).value;
    var s := ScreenCellAt(k);
    assert d.dest == Rect(s.x * tileSize - v.cam.across.offset, s.y * tileSize - v.cam.down.offset,
                          tileSize, tileSize);
    MulMonotone(-1, s.x, tileSize);
    MulMonotone(s.x, 16, tileSize);
    MulMonotone(-1, s.y, tileSize);
    MulMonotone(s.y, 9, tileSize);
    CongruentInWindow(d.dest.x, Half(TilesAcross, tileSize), 10, cfg.worldW, tileSize);
    CongruentInWindow(d.dest.y, Half(TilesDown, tileSize), 6, cfg.worldH, tileSize);
  }

  /** The `redraw()` the load callback makes passes no actor list, so the
      render it triggers draws nothing. A corollary of the contracts of
      `Redraw` and `LoadGate.OnImageLoaded`, stated for the reader. */
  lemma TriggeredRedrawDrawsNothing(s: LoadGate.GateState, bg: seq<seq<Tile>>, cfg: Config, tileSize: nat)
    ensures var t := LoadGate.OnImageLoaded(s);
            t.redraw ==> Redraw(t.state.imagesLoaded, None, bg, cfg, tileSize) == Success([])
  {
  }

  /** Before the tenth completion callback no frame draws anything,
      whatever actor list it is given. */
  lemma NothingDrawnBeforeTenthLoad(n: nat, actors: Option<seq<Actor>>, bg: seq<seq<Tile>>,
                                    cfg: Config, tileSize: nat)
    requires n < LoadGate.GateCount
    ensures Redraw(LoadGate.AfterLoads(n, LoadGate.GateCount).imagesLoaded, actors, bg, cfg, tileSize)
         == Success([])
  {
    LoadGate.GateOpensAtThreshold(n, LoadGate.GateCount);
  }
}
