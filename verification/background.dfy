/** The background pass of `redraw`: two nested loops over the screen cells,
    one extra ring of cells on every side, each mapped to a world cell
    modulo the world size. Every cell emits one draw and records its screen
    position in a world-cell table, a later write replacing an earlier one. */
module Background {
  import opened Types
  import opened JsNumber
  import opened Camera

  /** The extra ring of off-screen cells drawn on each side. */
  const Buffer: int := 1
  const Columns: int := TilesAcross + 2 * Buffer
  const Rows: int := TilesDown + 2 * Buffer
  /** Cells visited by one pass. */
  const CellCount: int := Rows * Columns

  /** Everything one background pass reads: the map rows `bg[worldY][worldX]`,
      the layout globals, the scaled tile size and the camera. */
  datatype View = View(bg: seq<seq<Tile>>, cfg: Config, tileSize: nat, cam: Camera)

  /** The world has at least one tile in each direction, so the wrapping
      remainders are defined. */
  predicate Wraps(v: View) {
    v.cfg.worldW >= 1 && v.cfg.worldH >= 1
  }

  /** A screen cell visited by the loops: `x` in `[-1, 17)`, `y` in `[-1, 10)`. */
  predicate OnScreenGrid(c: Cell) {
    -Buffer <= c.x < TilesAcross + Buffer && -Buffer <= c.y < TilesDown + Buffer
  }

  /** Position of a screen cell in the loops' visiting order: rows top to
      bottom, cells left to right within a row. */
  function ScreenIndex(c: Cell): (k: nat)
    requires OnScreenGrid(c)
    ensures k < CellCount
  {
    (c.y + Buffer) * Columns + (c.x + Buffer)
  }

  /** The `k`-th screen cell the loops visit. */
  function ScreenCellAt(k: nat): (c: Cell)
    requires k < CellCount
    ensures OnScreenGrid(c)
    ensures ScreenIndex(c) == k
  {
    Cell(k % Columns - Buffer, k / Columns - Buffer)
  }

  /** Visiting order is a bijection between indices and screen cells. */
  lemma ScreenIndexInverse(c: Cell)
    requires OnScreenGrid(c)
    ensures ScreenCellAt(ScreenIndex(c)) == c
  {
    var k := ScreenIndex(c);
    DivModUnique(k, Columns, c.y + Buffer, c.x + Buffer);
  }

  /** The loops visit cells in row-major order. */
  lemma RowMajorOrder(j: nat, k: nat)
    requires j < k < CellCount
    ensures ScreenCellAt(j).y < ScreenCellAt(k).y
         || (ScreenCellAt(j).y == ScreenCellAt(k).y && ScreenCellAt(j).x < ScreenCellAt(k).x)
  {
  }

  /** `(leftTileX + x + WORLD_WIDTH) % WORLD_WIDTH` and its vertical twin for
      the `k`-th screen cell. While the camera's tile indices lie strictly
      between minus and plus the world size, the cell is inside the world. */
  function WorldCellAt(v: View, k: nat): (w: Cell)
    requires Wraps(v) && k < CellCount
    ensures -(v.cfg.worldW as int) < v.cam.across.tile ==> 0 <= w.x < v.cfg.worldW
    ensures -(v.cfg.worldH as int) < v.cam.down.tile ==> 0 <= w.y < v.cfg.worldH
  {
    var s := ScreenCellAt(k);
    var W, H := v.cfg.worldW, v.cfg.worldH;
    Cell(Rem(v.cam.across.tile + s.x + W, W), Rem(v.cam.down.tile + s.y + H, H))
  }

  /** The world cell is the camera's tile plus the screen cell, modulo the
      world size. */
  lemma WorldCellCongruent(v: View, k: nat)
    requires Wraps(v) && k < CellCount
    ensures Congruent(WorldCellAt(v, k).x, v.cam.across.tile + ScreenCellAt(k).x, v.cfg.worldW)
    ensures Congruent(WorldCellAt(v, k).y, v.cam.down.tile + ScreenCellAt(k).y, v.cfg.worldH)
  {
    var s := ScreenCellAt(k);
    var W, H := v.cfg.worldW, v.cfg.worldH;
    RemCongruent(v.cam.across.tile + s.x + W, W);
    RemCongruent(v.cam.down.tile + s.y + H, H);
    WrapCongruent(v.cam.across.tile + s.x, W, WorldCellAt(v, k).x);
    WrapCongruent(v.cam.down.tile + s.y, H, WorldCellAt(v, k).y);
  }

  lemma WrapCongruent(a: int, n: int, r: int)
    requires n > 0 && Congruent(a + n, r, n)
    ensures Congruent(r, a, n)
  {
    MultipleFromCongruent(a + n, r, n);
    var q := (a + n - r) / n;
    assert r - a == (1 - q) * n;
    CongruentFromMultiple(r, a, 1 - q, n);
  }

  /** `bgTiles[c.y][c.x]` is a tile rather than undefined. */
  predicate HasTile(bg: seq<seq<Tile>>, c: Cell) {
    0 <= c.y < |bg| && 0 <= c.x < |bg[c.y]|
  }

  /** `(x*tileSize - xOffset, y*tileSize - yOffset)` for the `k`-th screen cell. */
  function ScreenPosAt(v: View, k: nat): Point
    requires k < CellCount
  {
    var s := ScreenCellAt(k);
    Point(s.x * v.tileSize - v.cam.across.offset, s.y * v.tileSize - v.cam.down.offset)
  }

  /** A screen position is the cell's unwrapped world pixel minus the
      camera's pixel: the grid scrolls with the camera, one tile per cell. */
  lemma ScreenPosRelativeToCamera(v: View, k: nat)
    requires k < CellCount && Framed(v.cam, v.tileSize, v.cfg)
    ensures v.cam.across.pixel + ScreenPosAt(v, k).x == (v.cam.across.tile + ScreenCellAt(k).x) * v.tileSize
    ensures v.cam.down.pixel + ScreenPosAt(v, k).y == (v.cam.down.tile + ScreenCellAt(k).y) * v.tileSize
  {
    var s := ScreenCellAt(k);
    assert (v.cam.across.tile + s.x) * v.tileSize == v.cam.across.tile * v.tileSize + s.x * v.tileSize;
    assert (v.cam.down.tile + s.y) * v.tileSize == v.cam.down.tile * v.tileSize + s.y * v.tileSize;
  }

  /** The draw for one tile at `pos`: a tile with a sub-image is cut from its
      atlas with an unscaled `baseTileSize` square at `(sx, sy)`; either way
      it fills a `tileSize` square on the canvas. */
  function TileDraw(t: Tile, baseTileSize: nat, tileSize: nat, pos: Point): (d: DrawOp)
    ensures d.image == TileSprite(t.kind)
    ensures d.dest == Rect(pos.x, pos.y, tileSize, tileSize)
    ensures d.source.Some? <==> t.hasSubImage
    ensures d.source.Some? ==> d.source.value == Rect(t.sx, t.sy, baseTileSize, baseTileSize)
  {
    var dest := Rect(pos.x, pos.y, tileSize, tileSize);
    if t.hasSubImage then
      Draw(TileSprite(t.kind), Some(Rect(t.sx, t.sy, baseTileSize, baseTileSize)), dest)
    else
      Draw(TileSprite(t.kind), None, dest)
  }

  /** The draw issued for the `k`-th screen cell: the tile of the world cell
      it wraps onto, filling a scaled tile square at the cell's screen
      position. */
  function CellDraw(v: View, k: nat): (d: DrawOp)
    requires Wraps(v) && k < CellCount
    requires HasTile(v.bg, WorldCellAt(v, k))
    ensures var t := v.bg[WorldCellAt(v, k).y][WorldCellAt(v, k).x];
            && d.image == TileSprite(t.kind)
            && (d.source.Some? <==> t.hasSubImage)
            && d.dest == Rect(ScreenPosAt(v, k).x, ScreenPosAt(v, k).y, v.tileSize, v.tileSize)
  {
    var w := WorldCellAt(v, k);
    TileDraw(v.bg[w.y][w.x], v.cfg.baseTileSize, v.tileSize, ScreenPosAt(v, k))
  }

  /** The draws so far and the world-cell table `worldToCanvas`. */
  datatype Pass = Pass(draws: seq<DrawOp>, table: map<Cell, Point>)

  /** The `k`-th cell is the first whose world cell has no tile. */
  predicate FirstMissing(v: View, k: nat)
    requires Wraps(v)
  {
    && k < CellCount
    && !HasTile(v.bg, WorldCellAt(v, k))
    && forall j :: 0 <= j < k ==> HasTile(v.bg, WorldCellAt(v, j))
  }

  /** The background pass after the first `n` cells: one draw per cell, or
      a failure at a cell whose world cell the map lacks. */
  function BackgroundUpTo(v: View, n: nat): (r: Result<Pass>)
    requires Wraps(v) && n <= CellCount
    ensures r.Success? ==> |r.value.draws| == n
    decreases n
  {
    if n == 0 then Success(Pass([], map[]))
    else
      match BackgroundUpTo(v, n - 1)
      case Failure(e) => Failure(e)
      case Success(p) =>
        var w := WorldCellAt(v, n - 1);
        if !HasTile(v.bg, w) then Failure(MissingTile(ScreenCellAt(n - 1), w))
        else Success(Pass(p.draws + [CellDraw(v, n - 1)], p.table[w := ScreenPosAt(v, n - 1)]))
  }

  /** The pass succeeds exactly when every visited world cell has a tile,
      and then issues the cell draws in visiting order. */
  lemma {:induction false} BackgroundDraws(v: View, n: nat)
    requires Wraps(v) && n <= CellCount
    ensures BackgroundUpTo(v, n).Success? <==> forall k :: 0 <= k < n ==> HasTile(v.bg, WorldCellAt(v, k))
    ensures BackgroundUpTo(v, n).Success? ==>
              forall k :: 0 <= k < n ==> BackgroundUpTo(v, n).value.draws[k] == CellDraw(v, k)
    decreases n
  {
    if n > 0 {
      BackgroundDraws(v, n - 1);
    }
  }

  /** A failing pass reports the first visited cell whose world cell has no
      tile, with its screen and world coordinates. */
  lemma {:induction false} BackgroundFailsAtFirstMissing(v: View, n: nat)
    requires Wraps(v) && n <= CellCount
    requires BackgroundUpTo(v, n).Failure?
    ensures exists k :: 0 <= k < n && FirstMissing(v, k)
                        && BackgroundUpTo(v, n).error == MissingTile(ScreenCellAt(k), WorldCellAt(v, k))
    decreases n
  {
    BackgroundDraws(v, n - 1);
    var prev := BackgroundUpTo(v, n - 1);
    if prev.Failure? {
      assert BackgroundUpTo(v, n) == prev;
      BackgroundFailsAtFirstMissing(v, n - 1);
    } else {
      assert FirstMissing(v, n - 1);
      assert BackgroundUpTo(v, n).error == MissingTile(ScreenCellAt(n - 1), WorldCellAt(v, n - 1));
    }
  }

  /** The whole background pass of one frame. */
  function BackgroundPass(v: View): (r: Result<Pass>)
    requires Wraps(v)
    ensures r.Success? ==> |r.value.draws| == (TilesDown + 2) * (TilesAcross + 2)
  {
    BackgroundUpTo(v, CellCount)
  }

  /** Once the pass has failed, later cells do not change the outcome. */
  lemma {:induction false} FailureIsFinal(v: View, m: nat, n: nat)
    requires Wraps(v) && m <= n <= CellCount
    requires BackgroundUpTo(v, m).Failure?
    ensures BackgroundUpTo(v, n) == BackgroundUpTo(v, m)
    decreases n
  {
    if n > m {
      FailureIsFinal(v, m, n - 1);
      var prev := BackgroundUpTo(v, n - 1);
      assert prev.Failure?;
      assert BackgroundUpTo(v, n) == Failure(prev.error);
    }
  }

  /** The last of the first `n` cells whose world cell is `c`, if any. */
  function LastWriter(v: View, c: Cell, n: nat): (r: Option<nat>)
    requires Wraps(v) && n <= CellCount
    ensures r.Some? ==> r.value < n && WorldCellAt(v, r.value) == c
    ensures r.Some? ==> forall j :: r.value < j < n ==> WorldCellAt(v, j) != c
    ensures r.None? ==> forall j :: 0 <= j < n ==> WorldCellAt(v, j) != c
    decreases n
  {
    if n == 0 then None
    else if WorldCellAt(v, n - 1) == c then Some(n - 1)
    else LastWriter(v, c, n - 1)
  }

  /** The table holds exactly the world cells the pass visited, each mapped
      to the screen position of the last cell that visited it. */
  lemma {:induction false} TableIsLastWrite(v: View, n: nat)
    requires Wraps(v) && n <= CellCount
    requires BackgroundUpTo(v, n).Success?
    ensures forall c :: c in BackgroundUpTo(v, n).value.table <==> LastWriter(v, c, n).Some?
    ensures forall c :: c in BackgroundUpTo(v, n).value.table ==>
              BackgroundUpTo(v, n).value.table[c] == ScreenPosAt(v, LastWriter(v, c, n).value)
    decreases n
  {
    if n > 0 {
      TableIsLastWrite(v, n - 1);
    }
  }

  /** With the camera inside the world, every table key is a world cell. */
  lemma TableInWorld(v: View)
    requires Wraps(v) && Framed(v.cam, v.tileSize, v.cfg)
    requires BackgroundPass(v).Success?
    ensures forall c :: c in BackgroundPass(v).value.table ==>
              0 <= c.x < v.cfg.worldW && 0 <= c.y < v.cfg.worldH
  {
    TableIsLastWrite(v, CellCount);
  }

  /** A map that covers the world never fails, whatever the camera. */
  lemma FullMapSucceeds(v: View)
    requires Wraps(v) && Framed(v.cam, v.tileSize, v.cfg)
    requires |v.bg| >= v.cfg.worldH
    requires forall y :: 0 <= y < |v.bg| ==> |v.bg[y]| >= v.cfg.worldW
    ensures BackgroundPass(v).Success?
  {
    BackgroundDraws(v, CellCount);
  }

  /** Index arithmetic of the loops: row `y` ends where row `y + 1` starts,
      inside the pass. */
  lemma RowBounds(x: int, y: int)
    requires OnScreenGrid(Cell(x, y))
    ensures ScreenIndex(Cell(x, y)) + 1 <= (y + 1 + Buffer) * Columns <= CellCount
  {
  }

  /** One iteration of the inner loop: the cell at `(x, y)` extends the
      pass by its draw and its table entry, or ends it. */
  lemma StepCell(v: View, x: int, y: int, p: Pass)
    requires Wraps(v) && OnScreenGrid(Cell(x, y))
    requires BackgroundUpTo(v, ScreenIndex(Cell(x, y))) == Success(p)
    ensures var W, H := v.cfg.worldW, v.cfg.worldH;
            var world := Cell(Rem(v.cam.across.tile + x + W, W), Rem(v.cam.down.tile + y + H, H));
            var pos := Point(x * v.tileSize - v.cam.across.offset, y * v.tileSize - v.cam.down.offset);
            BackgroundUpTo(v, ScreenIndex(Cell(x, y)) + 1)
              == if HasTile(v.bg, world)
                 then Success(Pass(p.draws + [TileDraw(v.bg[world.y][world.x], v.cfg.baseTileSize, v.tileSize, pos)],
                                   p.table[world := pos]))
                 else Failure(MissingTile(Cell(x, y), world))
  {
    ScreenIndexInverse(Cell(x, y));
  }

  /** The body of the inner loop for screen cell `(x, y)`: look up the
      wrapped world cell, draw its tile, record its screen position. */
  method RenderCell(v: View, x: int, y: int, p: Pass) returns (r: Result<Pass>)
    requires Wraps(v) && OnScreenGrid(Cell(x, y))
    requires BackgroundUpTo(v, ScreenIndex(Cell(x, y))) == Success(p)
    ensures r == BackgroundUpTo(v, ScreenIndex(Cell(x, y)) + 1)
  {
    StepCell(v, x, y, p);
    var W, H := v.cfg.worldW, v.cfg.worldH;
    var world := Cell(Rem(v.cam.across.tile + x + W, W), Rem(v.cam.down.tile + y + H, H));
    if !HasTile(v.bg, world) {
      return Failure(MissingTile(Cell(x, y), world));
    }
    var pos := Point(x * v.tileSize - v.cam.across.offset, y * v.tileSize - v.cam.down.offset);
    var tile := v.bg[world.y][world.x];
    return Success(Pass(p.draws + [TileDraw(tile, v.cfg.baseTileSize, v.tileSize, pos)], p.table[world := pos]));
  }

  /** The inner loop of `redraw` for screen row `y`, continuing a pass
      that has drawn every row above it. */
  method RenderRow(v: View, y: int, p: Pass) returns (r: Result<Pass>)
    requires Wraps(v) && -Buffer <= y < TilesDown + Buffer
    requires BackgroundUpTo(v, (y + Buffer) * Columns) == Success(p)
    ensures r == BackgroundUpTo(v, (y + 1 + Buffer) * Columns)
  {
    var rowEnd := (y + 1 + Buffer) * Columns;
    RowBounds(-Buffer, y);
    var q := p;
    var x := -Buffer;
    var k := (y + Buffer) * Columns;
    while x < TilesAcross + Buffer
      invariant -Buffer <= x <= TilesAcross + Buffer
      invariant k == rowEnd - (TilesAcross + Buffer - x)
      invariant BackgroundUpTo(v, k) == Success(q)
    {
      assert k == ScreenIndex(Cell(x, y));
      var cell := RenderCell(v, x, y, q);
      if cell.Failure? {
        FailureIsFinal(v, k + 1, rowEnd);
        return cell;
      }
      q := cell.value;
      x := x + 1;
      k := k + 1;
    }
    return Success(q);
  }

  /** The two nested loops of `redraw`: rows top to bottom, stopping at the
      first cell whose world cell the map lacks. */
  method RenderBackground(v: View) returns (r: Result<Pass>)
    requires Wraps(v)
    ensures r == BackgroundPass(v)
  {
    var p := Pass([], map[]);
    var y := -Buffer;
    while y < TilesDown + Buffer
      invariant -Buffer <= y <= TilesDown + Buffer
      invariant BackgroundUpTo(v, (y + Buffer) * Columns) == Success(p)
    {
      var row := RenderRow(v, y, p);
      if row.Failure? {
        RowBounds(-Buffer, y);
        FailureIsFinal(v, (y + 1 + Buffer) * Columns, CellCount);
        return row;
      }
      p := row.value;
      y := y + 1;
    }
    return Success(p);
  }
}
