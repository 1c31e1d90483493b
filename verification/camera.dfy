/** The camera origin computed at the top of `redraw`: the anchor actor is
    centred on the screen, the top-left pixel wraps around the toroidal
    world, and that pixel splits into a tile index and a sub-tile offset. */
module Camera {
  import opened Types
  import opened JsNumber

  /** The camera along one axis: the wrapped top-left pixel, the tile it
      lies in, and how far into that tile it lies. */
  datatype Axis = Axis(pixel: int, tile: int, offset: int)

  /** `across` holds `leftX, leftTileX, xOffset`; `down` holds
      `topY, topTileY, yOffset`. */
  datatype Camera = Camera(across: Axis, down: Axis)

  /** `parseInt((tiles * tileSize - tileSize) / 2)`: how many pixels of the
      screen lie before the anchor's tile when it is centred. */
  function Half(tiles: nat, tileSize: nat): nat
    requires tiles >= 1
  {
    (tiles * tileSize - tileSize) / 2
  }

  /** `Half` is the floor of half the screen minus one tile, so the anchor's
      tile placed after it still ends on the screen. */
  lemma HalfBounds(tiles: nat, tileSize: nat)
    requires tiles >= 1
    ensures 2 * Half(tiles, tileSize) <= (tiles - 1) * tileSize < 2 * Half(tiles, tileSize) + 2
    ensures Half(tiles, tileSize) + tileSize <= tiles * tileSize
  {
    assert tiles * tileSize - tileSize == (tiles - 1) * tileSize;
  }

  /** The left operand of the wrapping `%`. */
  function Dividend(p: int, tiles: nat, tileSize: nat, worldTiles: nat): int
    requires tiles >= 1
  {
    p - Half(tiles, tileSize) + worldTiles * tileSize
  }

  /** The dividend is the centred screen's first pixel shifted by one world
      width: congruent to that pixel modulo the world's pixel size, and
      non-negative for an anchor inside the world whenever half a screen is
      no wider than the world. */
  lemma DividendWraps(p: int, tiles: nat, tileSize: nat, worldTiles: nat)
    requires tiles >= 1 && worldTiles * tileSize > 0
    ensures Congruent(Dividend(p, tiles, tileSize, worldTiles), p - Half(tiles, tileSize), worldTiles * tileSize)
    ensures 0 <= p && Half(tiles, tileSize) <= worldTiles * tileSize ==> 0 <= Dividend(p, tiles, tileSize, worldTiles)
  {
    var span := worldTiles * tileSize;
    CongruentFromMultiple(Dividend(p, tiles, tileSize, worldTiles), p - Half(tiles, tileSize), 1, span);
  }

  /** One axis of the camera for an anchor at pixel `p`, on a screen of
      `tiles` tiles over a world of `worldTiles` tiles. The remainder and the
      quotient are JavaScript's, so a negative dividend gives a negative
      pixel, tile and offset; the anchor is still centred modulo the world's
      pixel size. */
  function AxisOrigin(p: int, tiles: nat, tileSize: nat, worldTiles: nat): (a: Axis)
    requires tiles >= 1 && tileSize >= 1 && worldTiles >= 1
    ensures a.pixel == a.tile * tileSize + a.offset
    ensures -(worldTiles * tileSize) < a.pixel < worldTiles * tileSize
    ensures -(worldTiles as int) < a.tile < worldTiles
    ensures -(tileSize as int) < a.offset < tileSize
    ensures Dividend(p, tiles, tileSize, worldTiles) >= 0 ==>
              && 0 <= a.pixel < worldTiles * tileSize
              && 0 <= a.tile < worldTiles
              && 0 <= a.offset < tileSize
    ensures Dividend(p, tiles, tileSize, worldTiles) < 0 ==>
              a.pixel <= 0 && a.tile <= 0 && a.offset <= 0
  {
    var span := worldTiles * tileSize;
    var d := Dividend(p, tiles, tileSize, worldTiles);
    var pixel := Rem(d, span);
    QuotRem(pixel, tileSize);
    QuotBound(pixel, tileSize, worldTiles);
    Axis(pixel, Quot(pixel, tileSize), Rem(pixel, tileSize))
  }

  /** The anchor's pixel lies `Half` pixels after the camera's pixel, modulo
      the world's pixel size: the anchor is centred on the screen. */
  lemma AxisCentred(p: int, tiles: nat, tileSize: nat, worldTiles: nat)
    requires tiles >= 1 && tileSize >= 1 && worldTiles >= 1
    ensures Congruent(AxisOrigin(p, tiles, tileSize, worldTiles).pixel + Half(tiles, tileSize),
                      p, worldTiles * tileSize)
  {
    var span := worldTiles * tileSize;
    var d := Dividend(p, tiles, tileSize, worldTiles);
    RemCongruent(d, span);
    CentredModuloWorld(p, Half(tiles, tileSize), span, Rem(d, span));
  }

  lemma CentredModuloWorld(p: int, half: int, span: int, pixel: int)
    requires span > 0
    requires Congruent(p - half + span, pixel, span)
    ensures Congruent(pixel + half, p, span)
  {
    MultipleFromCongruent(p - half + span, pixel, span);
    var q := (p - half + span - pixel) / span;
    assert pixel + half - p == (1 - q) * span;
    CongruentFromMultiple(pixel + half, p, 1 - q, span);
  }

  /** The camera stays inside the world and its pixel is tile times tile
      size plus offset, on both axes. */
  predicate Framed(cam: Camera, tileSize: nat, cfg: Config) {
    && -(cfg.worldW as int) < cam.across.tile < cfg.worldW
    && -(cfg.worldH as int) < cam.down.tile < cfg.worldH
    && cam.across.pixel == cam.across.tile * tileSize + cam.across.offset
    && cam.down.pixel == cam.down.tile * tileSize + cam.down.offset
  }

  /** `redraw` lines computing `leftX, topY, leftTileX, topTileY, xOffset,
      yOffset` from the anchor's pixel location. */
  function Origin(anchor: Point, tileSize: nat, cfg: Config): (cam: Camera)
    requires tileSize >= 1 && cfg.worldW >= 1 && cfg.worldH >= 1
    ensures Framed(cam, tileSize, cfg)
    ensures Congruent(cam.across.pixel + Half(TilesAcross, tileSize), anchor.x, cfg.worldW * tileSize)
    ensures Congruent(cam.down.pixel + Half(TilesDown, tileSize), anchor.y, cfg.worldH * tileSize)
  {
    AxisCentred(anchor.x, TilesAcross, tileSize, cfg.worldW);
    AxisCentred(anchor.y, TilesDown, tileSize, cfg.worldH);
    Camera(
      AxisOrigin(anchor.x, TilesAcross, tileSize, cfg.worldW),
      AxisOrigin(anchor.y, TilesDown, tileSize, cfg.worldH))
  }

  /** Moving the anchor by one whole world width leaves the camera where it
      was, whenever the wrapping dividend is non-negative: scrolling across
      the world's edge is seamless. */
  lemma AxisOriginPeriodic(p: int, tiles: nat, tileSize: nat, worldTiles: nat)
    requires tiles >= 1 && tileSize >= 1 && worldTiles >= 1
    requires Dividend(p, tiles, tileSize, worldTiles) >= 0
    ensures AxisOrigin(p + worldTiles * tileSize, tiles, tileSize, worldTiles)
         == AxisOrigin(p, tiles, tileSize, worldTiles)
  {
    var span := worldTiles * tileSize;
    RemPeriodic(Dividend(p, tiles, tileSize, worldTiles), 1, span);
  }
}
