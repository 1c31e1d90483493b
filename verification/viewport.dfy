/** Viewport sizing (`resizeCanvas`): the largest whole magnification of the
    16 by 9 tile grid, limited by the narrower window dimension. */
module Viewport {
  import opened Types
  import JsNumber

  /** What a resize leaves on the canvas object. */
  datatype ViewportState = ViewportState(
    scale: nat,
    scaledTileSize: nat,
    canvasWidth: nat,
    canvasHeight: nat)

  /** A magnification `s` fits the window when the whole tile grid, scaled
      by `s`, is no wider and no taller than the window. */
  predicate Fits(s: nat, width: nat, height: nat, tileSize: nat) {
    TilesAcross * s * tileSize <= width && TilesDown * s * tileSize <= height
  }

  /** `parseInt(width / TILES_ACROSS / TILE_SIZE)`: the quotient of non-negative
      operands, taken twice, floored. */
  function MaxScaleAcross(width: nat, tileSize: nat): (q: nat)
    requires tileSize >= 1
    ensures TilesAcross * q * tileSize <= width < TilesAcross * (q + 1) * tileSize
  {
    FloorFit(width, TilesAcross, tileSize);
    width / TilesAcross / tileSize
  }

  /** `parseInt(height / TILES_DOWN / TILE_SIZE)`, the vertical twin. */
  function MaxScaleDown(height: nat, tileSize: nat): (q: nat)
    requires tileSize >= 1
    ensures TilesDown * q * tileSize <= height < TilesDown * (q + 1) * tileSize
  {
    FloorFit(height, TilesDown, tileSize);
    height / TilesDown / tileSize
  }

  /** The scale chosen by a resize is the greatest magnification that fits
      the window. It is not clamped, so it is 0 when even the unscaled grid
      does not fit. */
  function Scale(width: nat, height: nat, tileSize: nat): (s: nat)
    requires tileSize >= 1
    ensures s <= MaxScaleAcross(width, tileSize) && s <= MaxScaleDown(height, tileSize)
    ensures s == MaxScaleAcross(width, tileSize) || s == MaxScaleDown(height, tileSize)
    ensures Fits(s, width, height, tileSize)
    ensures !Fits(s + 1, width, height, tileSize)
  {
    var across := MaxScaleAcross(width, tileSize);
    var down := MaxScaleDown(height, tileSize);
    FloorFit(width, TilesAcross, tileSize);
    FloorFit(height, TilesDown, tileSize);
    if down < across then down else across
  }

  /** `n / t / b` is the greatest `q` with `t * q * b <= n`. */
  lemma FloorFit(n: nat, t: nat, b: nat)
    requires t >= 1 && b >= 1
    ensures t * (n / t / b) * b <= n
    ensures t * (n / t / b + 1) * b > n
    ensures forall q: nat :: t * q * b <= n ==> q <= n / t / b
  {
    var m := n / t;
    var q := m / b;
    FloorFitLower(n, t, b, m, q);
    FloorFitUpper(n, t, b, m, q);
    forall q': nat | t * q' * b <= n
      ensures q' <= q
    {
      if q' > q {
        GrowProduct(t, q + 1, q', b);
      }
    }
  }

  lemma FloorFitLower(n: nat, t: nat, b: nat, m: nat, q: nat)
    requires t >= 1 && b >= 1 && m == n / t && q == m / b
    ensures t * q * b <= n
  {
    assert t * m <= n;
    assert q * b <= m;
    JsNumber.MulMonotone(q * b, m, t);
    assert t * q * b == (q * b) * t;
  }

  lemma FloorFitUpper(n: nat, t: nat, b: nat, m: nat, q: nat)
    requires t >= 1 && b >= 1 && m == n / t && q == m / b
    ensures t * (q + 1) * b > n
  {
    assert n < t * (m + 1);
    assert m + 1 <= (q + 1) * b;
    JsNumber.MulMonotone(m + 1, (q + 1) * b, t);
    assert t * (q + 1) * b == ((q + 1) * b) * t;
  }

  lemma GrowProduct(t: nat, x: nat, y: nat, b: nat)
    requires x <= y
    ensures t * x * b <= t * y * b
  {
    JsNumber.MulMonotone(x, y, t * b);
    assert t * x * b == x * (t * b);
    assert t * y * b == y * (t * b);
  }

  /** Every magnification that fits is at most the chosen scale. */
  lemma ScaleIsGreatestFit(width: nat, height: nat, tileSize: nat, s: nat)
    requires tileSize >= 1
    requires Fits(s, width, height, tileSize)
    ensures s <= Scale(width, height, tileSize)
  {
    FloorFit(width, TilesAcross, tileSize);
    FloorFit(height, TilesDown, tileSize);
  }

  /** Enlarging the window never decreases the scale. */
  lemma ScaleMonotone(w1: nat, h1: nat, w2: nat, h2: nat, tileSize: nat)
    requires tileSize >= 1
    requires w1 <= w2 && h1 <= h2
    ensures Scale(w1, h1, tileSize) <= Scale(w2, h2, tileSize)
  {
    ScaleIsGreatestFit(w2, h2, tileSize, Scale(w1, h1, tileSize));
  }

  /** The scale is 0 exactly when the window is narrower than 16 unscaled
      tiles or shorter than 9. */
  lemma ScaleZeroIffSmall(width: nat, height: nat, tileSize: nat)
    requires tileSize >= 1
    ensures Scale(width, height, tileSize) == 0
        <==> width < TilesAcross * tileSize || height < TilesDown * tileSize
  {
    var s := Scale(width, height, tileSize);
    if width >= TilesAcross * tileSize && height >= TilesDown * tileSize {
      ScaleIsGreatestFit(width, height, tileSize, 1);
    } else if s >= 1 {
      GrowProduct(TilesAcross, 1, s, tileSize);
      GrowProduct(TilesDown, 1, s, tileSize);
    }
  }

  lemma Regroup(t: nat, s: nat, b: nat)
    ensures t * (s * b) == t * s * b
  {
  }

  /** `resizeCanvas`: the canvas becomes exactly the tile grid at the chosen
      scale, which fits inside the window and keeps the 16:9 grid shape. */
  function Resize(width: nat, height: nat, tileSize: nat): (v: ViewportState)
    requires tileSize >= 1
    ensures v.scaledTileSize == v.scale * tileSize
    ensures v.canvasWidth == TilesAcross * v.scaledTileSize
    ensures v.canvasHeight == TilesDown * v.scaledTileSize
    ensures v.canvasWidth <= width && v.canvasHeight <= height
    ensures Fits(v.scale, width, height, tileSize) && !Fits(v.scale + 1, width, height, tileSize)
  {
    var s := Scale(width, height, tileSize);
    var scaled := s * tileSize;
    Regroup(TilesAcross, s, tileSize);
    Regroup(TilesDown, s, tileSize);
    ViewportState(s, scaled, TilesAcross * scaled, TilesDown * scaled)
  }
}
