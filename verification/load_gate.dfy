/** The image-load gate of `loadImages`: a completion counter that opens
    `imagesLoaded` when it reaches a fixed count, and the set of images the
    same function registers. */
module LoadGate {
  import opened Types

  /** The four facings, in the order `loadImages` registers them. */
  const Directions: seq<Direction> := [Up, Down, Left, Right]

  /** The completion count the callback compares against. */
  const GateCount: nat := 10

  /** The player and female NPC sprites for each facing, interleaved as the
      registration loop creates them. */
  function ActorSprites(dirs: seq<Direction>): (r: seq<ImageKey>)
    ensures |r| == 2 * |dirs|
    ensures forall i :: 0 <= i < |dirs| ==> r[2 * i] == PlayerSprite(dirs[i]) && r[2 * i + 1] == FemaleNpcSprite(dirs[i])
    decreases |dirs|
  {
    if dirs == [] then []
    else
      var rest := ActorSprites(dirs[1..]);
      assert forall i :: 1 <= i < |dirs| ==> dirs[i] == dirs[1..][i - 1];
      [PlayerSprite(dirs[0]), FemaleNpcSprite(dirs[0])] + rest
  }

  /** Every image `loadImages` creates, in creation order: the player and
      female NPC sprites for each facing, then the grass, tree and water
      tiles. */
  function RegisteredImages(): (r: seq<ImageKey>)
    ensures |r| == 11
    ensures forall i :: 0 <= i < 4 ==> r[2 * i] == PlayerSprite(Directions[i]) && r[2 * i + 1] == FemaleNpcSprite(Directions[i])
    ensures r[8] == TileSprite(Grass) && r[9] == TileSprite(Tree) && r[10] == TileSprite(Water)
  {
    ActorSprites(Directions) + [TileSprite(Grass), TileSprite(Tree), TileSprite(Water)]
  }

  /** Every image any draw can name is registered, exactly once, and there
      are eleven of them. */
  lemma RegisteredImagesComplete()
    ensures |RegisteredImages()| == 11
    ensures forall k: ImageKey :: k in RegisteredImages()
    ensures forall i, j :: 0 <= i < j < |RegisteredImages()| ==> RegisteredImages()[i] != RegisteredImages()[j]
  {
    var r := RegisteredImages();
    assert r == [PlayerSprite(Up), FemaleNpcSprite(Up), PlayerSprite(Down), FemaleNpcSprite(Down),
                 PlayerSprite(Left), FemaleNpcSprite(Left), PlayerSprite(Right), FemaleNpcSprite(Right),
                 TileSprite(Grass), TileSprite(Tree), TileSprite(Water)];
    forall k: ImageKey
      ensures k in r
    {
      match k
      case PlayerSprite(d) =>
        assert d == Up || d == Down || d == Left || d == Right;
      case FemaleNpcSprite(d) =>
        assert d == Up || d == Down || d == Left || d == Right;
      case TileSprite(t) =>
        assert t == Grass || t == Tree || t == Water;
    }
  }

  /** `numLoaded` and the canvas's `imagesLoaded` flag. */
  datatype GateState = GateState(numLoaded: nat, imagesLoaded: bool)

  /** The state once the canvas is constructed and no image has loaded. */
  const Initial: GateState := GateState(0, false)

  /** A callback's effect: the new state, and whether it called `redraw`. */
  datatype Step = Step(state: GateState, redraw: bool)

  /** One completion callback for a gate that opens at `threshold`: the
      counter grows by one; the callback that brings it to `threshold` sets
      the flag and calls `redraw`, and no other callback changes the flag. */
  function Callback(s: GateState, threshold: nat): (t: Step)
    ensures t.state.numLoaded == s.numLoaded + 1
    ensures t.redraw <==> s.numLoaded + 1 == threshold
    ensures t.state.imagesLoaded <==> s.imagesLoaded || s.numLoaded + 1 == threshold
  {
    var n := s.numLoaded + 1;
    if n == threshold then Step(GateState(n, true), true) else Step(GateState(n, s.imagesLoaded), false)
  }

  /** The callback as written: it opens the gate at the tenth completion. */
  function OnImageLoaded(s: GateState): (t: Step)
    ensures t.redraw <==> s.numLoaded + 1 == 10
  {
    Callback(s, GateCount)
  }

  /** The gate after `n` completion callbacks from the initial state. */
  function AfterLoads(n: nat, threshold: nat): (s: GateState)
    ensures s.numLoaded == n
    ensures s.imagesLoaded ==> 1 <= threshold <= n
    decreases n
  {
    if n == 0 then Initial else Callback(AfterLoads(n - 1, threshold), threshold).state
  }

  /** After `n` callbacks the counter is `n`, and the gate is open exactly
      when `n` has reached the threshold. */
  lemma {:induction false} GateOpensAtThreshold(n: nat, threshold: nat)
    requires threshold >= 1
    ensures AfterLoads(n, threshold).numLoaded == n
    ensures AfterLoads(n, threshold).imagesLoaded <==> n >= threshold
    decreases n
  {
    if n > 0 {
      GateOpensAtThreshold(n - 1, threshold);
    }
  }

  /** Of all callbacks, only the one completing the `threshold`-th load calls
      `redraw`: the gate opens once and never closes. */
  lemma RedrawTriggeredOnce(n: nat, threshold: nat)
    requires threshold >= 1
    ensures Callback(AfterLoads(n, threshold), threshold).redraw <==> n + 1 == threshold
  {
    GateOpensAtThreshold(n, threshold);
  }

  /** As written, the gate opens after ten completions while one of the
      eleven registered images is still loading. */
  lemma OpensWithImagePending()
    ensures AfterLoads(GateCount, GateCount).imagesLoaded
    ensures GateCount < |RegisteredImages()|
  {
    GateOpensAtThreshold(GateCount, GateCount);
    RegisteredImagesComplete();
  }

  /** The callback counting every registered image. */
  function OnImageLoadedAll(s: GateState): (t: Step)
    ensures t.redraw <==> s.numLoaded + 1 == |RegisteredImages()|
  {
    Callback(s, |RegisteredImages()|)
  }

  /** With the corrected count the gate is open exactly when every registered
      image has reported completion. */
  lemma OpensWhenAllLoaded(n: nat)
    ensures AfterLoads(n, |RegisteredImages()|).imagesLoaded <==> n >= |RegisteredImages()|
  {
    RegisteredImagesComplete();
    GateOpensAtThreshold(n, |RegisteredImages()|);
  }
}
