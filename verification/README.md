# Toroidal viewport renderer — Dafny model

This project models the rendering core of the game client's `Canvas`
(`src/js/canvas.js`). The world is a torus of `WORLD_WIDTH × WORLD_HEIGHT`
tiles. The canvas shows a 16 × 9 tile window of it, centred on the first
actor of the list (the anchor).

The model covers:

- **Viewport sizing** (`resizeCanvas`). The integer scale is the greatest
  magnification of the 16 × 9 grid that fits the window. It is not clamped,
  so it is 0 for a window smaller than one unscaled grid. The canvas is
  exactly the grid at that scale.
- **Camera origin** (top of `redraw`). The anchor's pixel location is
  centred. The top-left pixel wraps with JavaScript's `%`. It then splits
  into a tile index and a sub-tile offset with `parseInt` and `%`.
- **Background pass** (the nested loops of `redraw`). The loops visit screen
  cells `[-1, 17) × [-1, 10)` row by row. Each cell wraps onto a world cell,
  draws that cell's tile, and records its screen position in the
  world-to-canvas table. A later write replaces an earlier one.
- **Actor pass** (`renderActors`, `renderActor`, `getImageForActor`, and the
  unused `checkForDrawableActor`). Actors whose cell has no table entry are
  skipped. The others are drawn at the table position, corrected by their
  sub-tile progress, with a sprite chosen by kind and facing.
- **Load gate** (`loadImages` callback and the guard in `redraw`). A counter
  opens `imagesLoaded` at its tenth completion.

Everything is a pure function over integers and immutable datatypes.
`TILE_SIZE`, `WORLD_WIDTH` and `WORLD_HEIGHT` are ambient globals the file
does not define, so they are passed in as `Config`. The window size is
passed to `Viewport.Resize`. Each actor's `getLocation(tileSize)` is an
integer pixel location stored in the actor (`Actor.loc`). A call to
`drawImage` is a `DrawOp` record: image key, optional source rectangle and
destination rectangle.

Arithmetic follows JavaScript. `parseInt(a / b)` truncates toward zero
(`JsNumber.Quot`). `%` takes the sign of the dividend (`JsNumber.Rem`). The
two coincide with Dafny's Euclidean operators only for non-negative
operands. Where the code would throw a `TypeError`, the model returns
`Failure`:

- an empty actor list (`actors[0]` is undefined);
- a scaled tile size or world dimension of 0 (the camera arithmetic is
  `NaN`, so the tile lookup at line 92, or the `type` read at line 94,
  throws);
- a world cell the map does not contain.

Two behaviours of the code are worth stating on their own:

- The code does not clamp the scale, so it can be 0, and `Redraw` then
  fails with `DegenerateGeometry`.
- The load callback calls `redraw()` with no actor list, so the render it
  triggers draws nothing (`Renderer.TriggeredRedrawDrawsNothing`).

## Model

| member | source | states |
|---|---|---|
| `Viewport.Scale` | src/js/canvas.js:37-41 | the scale is the smaller of the two floored fit ratios; at it the 16×9 grid fits the window, and at one more it does not |
| `Viewport.MaxScaleAcross` | src/js/canvas.js:37 | the horizontal fit ratio `q` is the largest with `16·q·TILE_SIZE ≤ width`: one more would overflow the window |
| `Viewport.MaxScaleDown` | src/js/canvas.js:38 | the vertical fit ratio `q` is the largest with `9·q·TILE_SIZE ≤ height` |
| `Viewport.FloorFit` | src/js/canvas.js:37-38 | `parseInt(n / tiles / TILE_SIZE)` is the greatest `q` with `tiles·q·TILE_SIZE ≤ n` |
| `Viewport.ScaleIsGreatestFit` | src/js/canvas.js:37-41 | every magnification that fits is at most the chosen scale |
| `Viewport.ScaleMonotone` | src/js/canvas.js:37-41 | enlarging the window never decreases the scale |
| `Viewport.ScaleZeroIffSmall` | src/js/canvas.js:37-41 | the scale is 0 exactly when the window is narrower than 16·TILE_SIZE or shorter than 9·TILE_SIZE (no clamping) |
| `Viewport.Resize` | src/js/canvas.js:33-46 | scaled tile size is scale·TILE_SIZE; the canvas is exactly 16 and 9 scaled tiles, fits in the window, and the scale is the greatest that fits |
| `JsNumber.Rem` | src/js/canvas.js:69-77 | JavaScript `%` by a positive divisor lies in `[0, b)` for a non-negative dividend and in `(-b, 0]` for a negative one |
| `JsNumber.Quot` | src/js/canvas.js:72-73 | `parseInt(a / b)` rounds toward zero: for `a ≥ 0` it is the largest `q ≥ 0` with `q·b ≤ a`, for `a < 0` the smallest `q ≤ 0` with `a ≤ q·b` |
| `JsNumber.RemCongruent` | src/js/canvas.js:69-70 | the JavaScript remainder differs from the dividend by a multiple of the divisor |
| `JsNumber.QuotRem` | src/js/canvas.js:72-77 | `parseInt(a / b)·b + a % b == a`, and both agree with floor division for `a ≥ 0` |
| `JsNumber.QuotBound` | src/js/canvas.js:72-73 | a pixel strictly inside `(-n·b, n·b)` gives a tile index strictly inside `(-n, n)`, non-negative for a non-negative pixel |
| `JsNumber.RemPeriodic` | src/js/canvas.js:69-70 | adding whole world widths to a non-negative dividend does not change the wrapped pixel |
| `Camera.HalfBounds` | src/js/canvas.js:69-70 | `parseInt((PIXELS − tileSize)/2)` is the floor of half of `(tiles − 1)·tileSize`, and the anchor's tile placed after it ends on the screen |
| `Camera.DividendWraps` | src/js/canvas.js:69-70 | the left operand of the wrapping `%` is congruent to the centred screen's first pixel modulo the world's pixel size, and non-negative for an anchor inside the world when half a screen fits in the world |
| `Camera.AxisOrigin` | src/js/canvas.js:66-77 | pixel = tile·tileSize + offset; pixel, tile and offset lie inside `±` world pixels, world tiles and tile size; with a non-negative dividend they lie in `[0, W·tileSize)`, `[0, W)` and `[0, tileSize)`, with a negative one they are ≤ 0 |
| `Camera.AxisCentred` | src/js/canvas.js:61-70 | the anchor's pixel is `parseInt((PIXELS − tileSize)/2)` past the camera pixel, modulo the world's pixel size |
| `Camera.Origin` | src/js/canvas.js:58-77 | the camera is framed (tile indices strictly between minus and plus the world size, pixel = tile·tileSize + offset) and centred on the anchor on both axes |
| `Camera.AxisOriginPeriodic` | src/js/canvas.js:69-77 | moving the anchor by one world width leaves the camera unchanged when the dividend is non-negative |
| `Background.ScreenIndex` | src/js/canvas.js:86-87 | the loops' visiting position of a screen cell is below the number of cells visited |
| `Background.ScreenCellAt` | src/js/canvas.js:86-87 | the `k`-th visited cell lies in `[-1, 17) × [-1, 10)` and has visiting position `k` |
| `Background.ScreenIndexInverse` | src/js/canvas.js:86-87 | visiting position and screen cell are inverse to each other |
| `Background.RowMajorOrder` | src/js/canvas.js:86-87 | of two visited cells the earlier lies on an earlier row, or on the same row further left |
| `Background.WorldCellAt` | src/js/canvas.js:89-90 | while the camera's tile index is above minus the world size, the wrapped world cell lies in `[0, WORLD_WIDTH) × [0, WORLD_HEIGHT)` |
| `Background.WorldCellCongruent` | src/js/canvas.js:89-90 | the world cell is the camera tile plus the screen cell, modulo the world size |
| `Background.TileDraw` | src/js/canvas.js:94-114 | a tile draws its type's image into a tileSize square at the cell position, cut from the atlas at `(sx, sy)` with an unscaled TILE_SIZE square exactly when `hasSubImage` |
| `Background.ScreenPosRelativeToCamera` | src/js/canvas.js:102-103 | a cell's screen position `(x·tileSize − xOffset, y·tileSize − yOffset)` is its unwrapped world pixel minus the camera's pixel, on both axes |
| `Background.CellDraw` | src/js/canvas.js:89-113 | a visited cell draws the tile of the world cell it wraps onto, with a source rectangle exactly when that tile has a sub-image, into a tileSize square at the cell's screen position |
| `Background.BackgroundUpTo` | src/js/canvas.js:86-125 | a successful pass over `n` cells has issued exactly `n` draws |
| `Background.BackgroundPass` | src/js/canvas.js:79-125 | a successful frame issues exactly (9+2)·(16+2) background draws |
| `Background.BackgroundDraws` | src/js/canvas.js:86-114 | the pass succeeds exactly when every visited world cell has a tile, and then the `k`-th draw is the `k`-th visited cell's tile draw |
| `Background.BackgroundFailsAtFirstMissing` | src/js/canvas.js:89-94 | a failing pass stops at the first visited cell whose world cell the map lacks and reports that screen and world cell |
| `Background.FailureIsFinal` | src/js/canvas.js:92-94 | once a lookup has thrown, no later cell changes the outcome |
| `Background.LastWriter` | src/js/canvas.js:116-122 | the last visited cell mapping to a world cell maps to it and no later one does; no result means no visited cell maps to it |
| `Background.TableIsLastWrite` | src/js/canvas.js:116-122 | the table's keys are exactly the visited world cells, each holding `(x·tileSize − xOffset, y·tileSize − yOffset)` of the last screen cell that mapped to it |
| `Background.TableInWorld` | src/js/canvas.js:86-122 | with a framed camera every table key is a cell of the world |
| `Background.FullMapSucceeds` | src/js/canvas.js:86-94 | a map with WORLD_HEIGHT rows of WORLD_WIDTH tiles never makes the pass throw |
| `Background.StepCell` | src/js/canvas.js:89-122 | one inner-loop iteration appends the cell's draw and table entry, or throws at a missing tile |
| `Background.RenderCell` | src/js/canvas.js:89-122 | the loop body computes the same step as the reference pass |
| `Background.RenderRow` | src/js/canvas.js:87-124 | the inner loop over one row takes the pass from the start of the row to the start of the next |
| `Background.RenderBackground` | src/js/canvas.js:86-125 | the two nested loops compute the reference pass, including where it throws |
| `Actors.SpriteFor` | src/js/canvas.js:188-197 | an NPC with gender `'female'` gets the female sprite, every other actor the player sprite, both for the actor's facing |
| `Actors.ActorDraw` | src/js/canvas.js:139-160 | the sprite is a tileSize square displaced from its cell's screen position by exactly `loc − grid·tileSize`, so an actor at rest is drawn on its cell |
| `Actors.RenderActors` | src/js/canvas.js:131-149 | at most one draw per actor; one for every actor exactly when every actor's cell is in the table, none exactly when no actor's cell is |
| `Actors.RenderActorsAppend` | src/js/canvas.js:132-148 | the pass over a concatenation is the concatenation of the passes (list order is kept) |
| `Actors.ActorDrawnInOrder` | src/js/canvas.js:132-147 | an actor whose cell is in the table is drawn right after the draws of the actors before it, from its cell's table position |
| `Actors.ActorSkipped` | src/js/canvas.js:136-137 | an actor whose cell is not in the table adds no draw |
| `Actors.LaterActorDrawnLater` | src/js/canvas.js:132-147 | of two drawn actors the later in the list is drawn later, so it covers the earlier |
| `Actors.FirstActorAt` | src/js/canvas.js:164-173 | the search returns the first actor standing on the cell, or none when no actor does |
| `Actors.DrawableActorAt` | src/js/canvas.js:162-186 | a draw is produced exactly when the first actor on the cell is an NPC; it uses that actor's sprite at `(x·tileSize − xOffset, y·tileSize − yOffset)` |
| `Actors.PlayerHidesLaterNpc` | src/js/canvas.js:166-175 | a player ahead of an NPC on the same cell suppresses the NPC |
| `LoadGate.ActorSprites` | src/js/canvas.js:222-228 | the registration loop creates a player and a female NPC sprite for every facing, interleaved |
| `LoadGate.RegisteredImages` | src/js/canvas.js:222-232 | eleven images are created: player and female NPC sprites for up, down, left and right, in that order, then grass, tree and water |
| `LoadGate.RegisteredImagesComplete` | src/js/canvas.js:218-232 | eleven distinct images are registered, covering every image a draw can name |
| `LoadGate.Callback` | src/js/canvas.js:209-216 | each callback increments the counter; only the one reaching the threshold sets `imagesLoaded` and calls `redraw`, and no callback clears the flag |
| `LoadGate.OnImageLoaded` | src/js/canvas.js:209-216 | the callback as written calls `redraw` exactly when the counter reaches 10 |
| `LoadGate.AfterLoads` | src/js/canvas.js:207-216 | after `n` callbacks the counter is `n`, and the gate can be open only if the threshold is positive and at most `n` |
| `LoadGate.GateOpensAtThreshold` | src/js/canvas.js:207-216 | after `n` callbacks the counter is `n` and the gate is open exactly when `n` has reached the threshold |
| `LoadGate.RedrawTriggeredOnce` | src/js/canvas.js:209-216 | only the callback completing the threshold-th load calls `redraw` |
| `LoadGate.OpensWithImagePending` | src/js/canvas.js:211-232 | after ten callbacks the gate is open although eleven images were registered |
| `LoadGate.OnImageLoadedAll` | src/js/canvas.js:209-216 | the corrected callback calls `redraw` exactly when the counter reaches the number of registered images |
| `LoadGate.OpensWhenAllLoaded` | src/js/canvas.js:209-216 | with the corrected count the gate is open exactly when every registered image has loaded |
| `Renderer.FrameView` | src/js/canvas.js:58-84 | the view built from the anchor has a framed camera over a wrapping world |
| `Renderer.Redraw` | src/js/canvas.js:48-129 | nothing is drawn while the gate is closed or without actors; an empty list or a zero tile size or world dimension throws; a frame has the 198 cell draws plus at most one per actor |
| `Renderer.RedrawLayout` | src/js/canvas.js:82-127 | a frame is the cell draws in visiting order followed by the actor pass over the background's table |
| `Renderer.FullMapRenders` | src/js/canvas.js:48-127 | with a full map, an open gate and an anchor, the frame never throws |
| `Renderer.UnvisitedCellNotInTable` | src/js/canvas.js:116-137 | a world cell no buffered screen cell maps to has no table entry, so an actor on it is skipped |
| `Renderer.AxisDrawCongruent` | src/js/canvas.js:139-145 | on one axis, a sprite drawn from a wrapped cell lands at its location minus the camera pixel, modulo the world's pixel size |
| `Renderer.ActorDrawnRelativeToCamera` | src/js/canvas.js:116-145 | every drawn actor lands at its pixel location minus the camera's top-left pixel, modulo the world's pixel size, on both axes |
| `Renderer.AnchorDrawnCentred` | src/js/canvas.js:61-147 | when the anchor is drawn, it is the first actor draw and lands at the centring offset on both axes, modulo the world's pixel size |
| `Renderer.AnchorAtRestDrawnAtCentre` | src/js/canvas.js:61-147 | in a world at least 10 tiles wide and 6 tall, an anchor at rest on its cell is drawn exactly at `(parseInt(15·tileSize/2), 4·tileSize)` |
| `Renderer.TriggeredRedrawDrawsNothing` | src/js/canvas.js:50-51 | the `redraw()` the gate triggers passes no actor list and draws nothing |
| `Renderer.NothingDrawnBeforeTenthLoad` | src/js/canvas.js:48-51 | before the tenth completion callback no frame draws anything |

## Findings

| source | as written | input that shows it | evidently intended | confidence | as-written member | corrected member |
|---|---|---|---|---|---|---|
| src/js/canvas.js:211 | the load callback opens `imagesLoaded` when `numLoaded == 10` | eleven images are registered (4 facings × player and female NPC, plus grass, tree and water); after the tenth completion the gate is open while one image is still loading | open the gate when every registered image has loaded (count 11) | medium, not executed | `LoadGate.OnImageLoaded` (shown by `LoadGate.OpensWithImagePending`) | `LoadGate.OnImageLoadedAll` (proved by `LoadGate.OpensWhenAllLoaded`) |

`Renderer.Redraw` takes the gate flag as a parameter, so it works with
either counter.

## Left out

- DOM and window access (`getElementById`, `innerWidth`/`innerHeight`, the
  resize listener, canvas width and height assignment): host I/O. The window
  size is an input of `Viewport.Resize` and the canvas size is its output.
- `drawImage` pixels and the image-smoothing flags: a draw is an abstract
  `DrawOp`. Draws issued before a `TypeError` are not kept in the `Failure`
  result.
- `TileImage` loading and the asynchronous callback mechanism: an external
  module. Only the counter is modelled, as a step function. The callback's
  own `redraw()` call is modelled by `Renderer.TriggeredRedrawDrawsNothing`.
- `Player`, `Npc` and `getLocation` (`./backend/*`) are not part of this
  model. An actor is a tagged value `PlayerActor | NpcActor(gender)` with an
  integer grid cell, a facing and an integer pixel location. Fractional
  interpolation is not modelled. If `Npc` were a subclass of `Player`,
  `checkForDrawableActor` would never draw; the model takes the two kinds as
  disjoint.
- Asset path strings (`ACTOR_DIR + …`): plain concatenation. Images are
  named by `ImageKey`.
- Facings and tile types are enumerations. A facing or tile type without an
  image (an `undefined.image` TypeError in the code) cannot occur in the
  model.
- `JsNumber.Quot`, `Viewport.MaxScaleAcross`, `Viewport.MaxScaleDown`:
  `parseInt` works on the decimal string of the quotient.
  It is modelled as truncation, which ignores quotients below 1e-6 or at
  least 1e21 in magnitude (printed in exponent form). For example a window
  1 pixel wide with a `TILE_SIZE` of 100000 gives `6.25e-7`, which
  `parseInt` reads as 6, where the model gives 0.
- `Viewport.Resize` and the scale functions assume `TILE_SIZE ≥ 1`. With a
  `TILE_SIZE` of 0 the code does not throw: `parseInt(Infinity)` makes the
  scale `NaN` and the canvas 0 × 0. That case is not modelled.
- Floating-point rounding of `width / 16 / TILE_SIZE` is not modelled; the
  quotient is exact.
- `Renderer.AnchorAtRestDrawnAtCentre` assumes a world at least 10 tiles
  wide and 6 tall. A width of 9 is not enough in general: with a scaled
  tile size of 1 an anchor at rest sits in screen column 7, and column 16,
  visited later, wraps onto the same world column and overwrites its table
  entry, so the anchor is drawn at column 16, past the canvas's right edge.
  In a smaller world several buffered screen
  cells wrap onto the anchor's cell, and the table keeps only the last of
  them, so the anchor can be drawn off the canvas. For example, in a 10 × 5
  world with a scaled tile size of 2, an anchor at rest on cell (0, 0) is
  reached by screen rows -1, 4 and 9. Row 9 is written last, so the sprite
  goes to `Rect(15, 18, 2, 2)`, just below the 18-pixel-high canvas, and
  the player is not visible. For such worlds only the congruence of
  `Renderer.AnchorDrawnCentred` is proved.
- The camera and the tile lookups use the scaled tile size, while the atlas
  source rectangle uses the unscaled `TILE_SIZE`. Both are modelled as
  written; nothing is claimed about the image contents.
