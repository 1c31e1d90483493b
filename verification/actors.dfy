/** The actor pass of `redraw` (`renderActors`, `renderActor`,
    `getImageForActor`) and the unused per-cell lookup
    `checkForDrawableActor`. */
module Actors {
  import opened Types

  /** The grid cell an actor stands on, `(actor.x, actor.y)`. */
  function GridCell(a: Actor): Cell {
    Cell(a.x, a.y)
  }

  /** `getImageForActor`: a female NPC gets the female NPC sprite for its
      facing, every other actor the player sprite for its facing. */
  function SpriteFor(a: Actor): (k: ImageKey)
    ensures k.FemaleNpcSprite? <==> a.kind.NpcActor? && a.kind.gender == "female"
    ensures k.PlayerSprite? <==> !(a.kind.NpcActor? && a.kind.gender == "female")
    ensures k.dir == a.dir
  {
    match a.kind
    case NpcActor(gender) =>
      if gender == "female" then FemaleNpcSprite(a.dir) else PlayerSprite(a.dir)
    case PlayerActor => PlayerSprite(a.dir)
  }

  /** `renderActor` at the position `renderActors` derives from the screen
      position of the actor's grid cell: the actor is displaced from that
      cell by exactly its progress `loc - grid * tileSize`, so an actor at
      rest on its cell is drawn on the cell. */
  function ActorDraw(a: Actor, cellPos: Point, tileSize: nat): (d: DrawOp)
    ensures d.image == SpriteFor(a) && d.source.None?
    ensures d.dest.w == tileSize && d.dest.h == tileSize
    ensures d.dest.x - cellPos.x == a.loc.x - a.x * tileSize
    ensures d.dest.y - cellPos.y == a.loc.y - a.y * tileSize
    ensures a.loc == Point(a.x * tileSize, a.y * tileSize) ==>
              d.dest == Rect(cellPos.x, cellPos.y, tileSize, tileSize)
  {
    var xOffset := a.x * tileSize - a.loc.x;
    var yOffset := a.y * tileSize - a.loc.y;
    Draw(SpriteFor(a), None, Rect(cellPos.x - xOffset, cellPos.y - yOffset, tileSize, tileSize))
  }

  /** `renderActors`: in list order, one draw per actor whose grid cell has
      an entry in the world-to-canvas table; the others are skipped. */
  function RenderActors(actors: seq<Actor>, table: map<Cell, Point>, tileSize: nat): (r: seq<DrawOp>)
    ensures |r| <= |actors|
    ensures |r| == |actors| <==> forall i :: 0 <= i < |actors| ==> GridCell(actors[i]) in table
    ensures |r| == 0 <==> forall i :: 0 <= i < |actors| ==> GridCell(actors[i]) !in table
    decreases |actors|
  {
    if actors == [] then []
    else
      var a := actors[0];
      var rest := RenderActors(actors[1..], table, tileSize);
      assert forall i :: 1 <= i < |actors| ==> actors[i] == actors[1..][i - 1];
      if GridCell(a) in table then [ActorDraw(a, table[GridCell(a)], tileSize)] + rest else rest
  }

  /** The pass over a concatenation is the concatenation of the passes. */
  lemma {:induction false} RenderActorsAppend(xs: seq<Actor>, ys: seq<Actor>, table: map<Cell, Point>, tileSize: nat)
    ensures RenderActors(xs + ys, table, tileSize) == RenderActors(xs, table, tileSize) + RenderActors(ys, table, tileSize)
    decreases |xs|
  {
    if xs == [] {
      assert xs + ys == ys;
    } else {
      assert (xs + ys)[0] == xs[0];
      assert (xs + ys)[1..] == xs[1..] + ys;
      RenderActorsAppend(xs[1..], ys, table, tileSize);
    }
  }

  /** Splitting the list at actor `i`: what is drawn for the actors before
      it, then its own draw if its cell has a table entry, then the rest. */
  lemma SplitAt(actors: seq<Actor>, i: nat, table: map<Cell, Point>, tileSize: nat)
    requires i < |actors|
    ensures RenderActors(actors, table, tileSize)
         == RenderActors(actors[..i], table, tileSize)
          + RenderActors([actors[i]], table, tileSize)
          + RenderActors(actors[i + 1..], table, tileSize)
  {
    assert actors == actors[..i] + [actors[i]] + actors[i + 1..];
    RenderActorsAppend(actors[..i] + [actors[i]], actors[i + 1..], table, tileSize);
    RenderActorsAppend(actors[..i], [actors[i]], table, tileSize);
  }

  /** An actor whose cell has a table entry is drawn right after the draws
      of the actors before it, at its cell's position less its offset. */
  lemma ActorDrawnInOrder(actors: seq<Actor>, i: nat, table: map<Cell, Point>, tileSize: nat)
    requires i < |actors| && GridCell(actors[i]) in table
    ensures var r := RenderActors(actors, table, tileSize);
            var at := |RenderActors(actors[..i], table, tileSize)|;
            at < |r| && r[at] == ActorDraw(actors[i], table[GridCell(actors[i])], tileSize)
  {
    SplitAt(actors, i, table, tileSize);
  }

  /** An actor whose cell has no table entry draws nothing. */
  lemma ActorSkipped(actors: seq<Actor>, i: nat, table: map<Cell, Point>, tileSize: nat)
    requires i < |actors| && GridCell(actors[i]) !in table
    ensures RenderActors(actors, table, tileSize)
         == RenderActors(actors[..i], table, tileSize) + RenderActors(actors[i + 1..], table, tileSize)
  {
    SplitAt(actors, i, table, tileSize);
  }

  /** Of two drawn actors, the later in the list is drawn later, so it covers
      the earlier where they overlap. */
  lemma LaterActorDrawnLater(actors: seq<Actor>, i: nat, j: nat, table: map<Cell, Point>, tileSize: nat)
    requires i < j < |actors|
    requires GridCell(actors[i]) in table && GridCell(actors[j]) in table
    ensures |RenderActors(actors[..i], table, tileSize)| < |RenderActors(actors[..j], table, tileSize)|
  {
    var pre := actors[..j];
    SplitAt(pre, i, table, tileSize);
    assert pre[..i] == actors[..i];
    assert pre[i] == actors[i];
  }

  /** The first actor in the list standing on cell `c`, as the loop of
      `checkForDrawableActor` finds it before its `break`. */
  function FirstActorAt(actors: seq<Actor>, c: Cell): (r: Option<nat>)
    ensures r.Some? ==> r.value < |actors| && GridCell(actors[r.value]) == c
    ensures r.Some? ==> forall j :: 0 <= j < r.value ==> GridCell(actors[j]) != c
    ensures r.None? <==> forall j :: 0 <= j < |actors| ==> GridCell(actors[j]) != c
    decreases |actors|
  {
    if actors == [] then None
    else if GridCell(actors[0]) == c then Some(0)
    else
      assert forall j :: 1 <= j < |actors| ==> actors[j] == actors[1..][j - 1];
      match FirstActorAt(actors[1..], c)
      case None => None
      case Some(i) => Some(i + 1)
  }

  /** `checkForDrawableActor`: the first actor on world cell `world` is
      drawn at screen cell `screen`, shifted by the camera offset, unless it
      is the player. A player on the cell hides any NPC after it. */
  function DrawableActorAt(actors: seq<Actor>, world: Cell, screen: Cell,
                           xOffset: int, yOffset: int, tileSize: nat): (r: Option<DrawOp>)
    ensures r.Some? <==> FirstActorAt(actors, world).Some?
                         && actors[FirstActorAt(actors, world).value].kind.NpcActor?
    ensures r.Some? ==>
              && r.value.image == SpriteFor(actors[FirstActorAt(actors, world).value])
              && r.value.source.None?
              && r.value.dest == Rect(screen.x * tileSize - xOffset, screen.y * tileSize - yOffset,
                                      tileSize, tileSize)
  {
    match FirstActorAt(actors, world)
    case None => None
    case Some(i) =>
      if actors[i].kind.PlayerActor? then None
      else
        Some(Draw(SpriteFor(actors[i]), None,
                  Rect(screen.x * tileSize - xOffset, screen.y * tileSize - yOffset, tileSize, tileSize)))
  }

  /** A player ahead of an NPC on the same cell suppresses the NPC's draw.
      A corollary of `DrawableActorAt`'s contract, stated for the reader. */
  lemma PlayerHidesLaterNpc(actors: seq<Actor>, i: nat, j: nat, world: Cell, screen: Cell,
                            xOffset: int, yOffset: int, tileSize: nat)
    requires i < j < |actors|
    requires GridCell(actors[i]) == world && GridCell(actors[j]) == world
    requires actors[i].kind.PlayerActor? && actors[j].kind.NpcActor?
    requires forall k :: 0 <= k < i ==> GridCell(actors[k]) != world
    ensures DrawableActorAt(actors, world, screen, xOffset, yOffset, tileSize).None?
  {
  }
}
