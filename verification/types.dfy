/** Shared vocabulary of the viewport renderer: geometry, tiles, actors,
    abstract draw operations, and the failure modes of a render pass. */
module Types {

  datatype Option<+T> = None | Some(value: T)

  /** Ways a render pass stops with a JavaScript TypeError instead of
      finishing. */
  datatype RenderError =
    /** `actors[0]` is undefined: the actor list is empty. */
    | NoAnchor
    /** The scaled tile size or a world dimension is 0, so the camera
        arithmetic is NaN, and the first tile lookup, or the read of the
        looked-up tile's `type`, throws. */
    | DegenerateGeometry
    /** The background map has no tile at `world` (row or column missing),
        first needed for screen cell `screen`. */
    | MissingTile(screen: Cell, world: Cell)

  datatype Result<+T> = Success(value: T) | Failure(error: RenderError)

  /** A pixel position. */
  datatype Point = Point(x: int, y: int)

  /** A tile position, on the screen grid or in the world grid. */
  datatype Cell = Cell(x: int, y: int)

  /** A pixel rectangle: top-left corner and size. */
  datatype Rect = Rect(x: int, y: int, w: int, h: int)

  datatype Direction = Up | Down | Left | Right

  /** The background tile types that have an image. */
  datatype TileType = Grass | Tree | Water

  /** One background tile; `sx, sy` select a region of an atlas image when
      `hasSubImage` holds. */
  datatype Tile = Tile(kind: TileType, hasSubImage: bool, sx: int, sy: int)

  /** The key of a loaded image. */
  datatype ImageKey =
    | PlayerSprite(dir: Direction)
    | FemaleNpcSprite(dir: Direction)
    | TileSprite(tile: TileType)

  /** One `drawImage` call: the image, the optional source rectangle inside
      it, and the destination rectangle on the canvas. */
  datatype DrawOp = Draw(image: ImageKey, source: Option<Rect>, dest: Rect)

  datatype ActorKind = PlayerActor | NpcActor(gender: string)

  /** An actor: its grid cell `(x, y)`, facing, and the pixel location its
      `getLocation` reports for the current scaled tile size. */
  datatype Actor = Actor(kind: ActorKind, x: int, y: int, dir: Direction, loc: Point)

  /** The ambient layout globals: the unscaled tile size and the world size
      in tiles. */
  datatype Config = Config(baseTileSize: nat, worldW: nat, worldH: nat)

  /** The drawing surface is a 16 by 9 grid of tiles. */
  const TilesAcross: nat := 16
  const TilesDown: nat := 9
}
