/** The state of the tomato-catching game: two tomato slots falling from the
    top of the window, the sheep the player steers along the bottom, the
    caught/missed counters, the game-over flag, the short "explosion" shown
    when a tomato is caught, and the table of held keys.

    Positions are centres of sprites in scene coordinates (origin at the
    bottom-left corner of the 800x600 window, y growing upwards), modelled as
    exact reals rather than 32-bit floats. */
module Entities {

  /** Window size in pixels. */
  const WIDTH: real := 800.0
  const HEIGHT: real := 600.0

  /** Number of tomatoes falling at the same time. */
  const NUM_TOMATOES: nat := 2
  /** Number of misses that ends the game. */
  const MAX_MISSED: nat := 5
  /** Size of the held-key table, indexed by GLFW key code. */
  const KEY_COUNT: nat := 1024

  /** Fall speed of a tomato, in pixels per second. */
  const FALL_SPEED: real := 200.0
  /** A tomato whose centre drops strictly below this line is missed. */
  const KILL_LINE: real := -50.0
  /** How long the explosion stays on screen after a catch, in seconds. */
  const EXPLOSION_TIME: real := 0.2

  /** Where the sheep and the explosion start. */
  const SHEEP_START: Pos := Pos(400.0, 70.0)

  datatype Pos = Pos(x: real, y: real)

  /** One tomato slot: the sprite position and the slot's active flag. */
  datatype Tomato = Tomato(pos: Pos, active: bool)

  /** The catch effect: whether it is drawn, its remaining time, where it is. */
  datatype Explosion = Explosion(visible: bool, timer: real, pos: Pos)

  /** Everything the frame loop and the input callbacks read or write. */
  datatype Game = Game(
    tomatoes: seq<Tomato>,
    sheep: Pos,
    caught: nat,
    missed: nat,
    gameOver: bool,
    explosion: Explosion,
    keys: seq<bool>,
    closeRequested: bool)

  /** The fixed sizes of the two global arrays. */
  predicate WellFormed(g: Game) {
    |g.tomatoes| == NUM_TOMATOES && |g.keys| == KEY_COUNT
  }

  /** Two successive results of the C library's rand(), in the order a
      respawn draws them: first for the height, then for the column. */
  datatype Roll = Roll(yDraw: nat, xDraw: nat)

  /** The band at the top of the window where tomatoes reappear. */
  predicate InSpawnBand(p: Pos) {
    100.0 <= p.x <= 699.0 && 550.0 <= p.y <= 749.0
  }

  predicate Whole(v: real) {
    v.Floor as real == v
  }

  /** The position a caught or missed tomato is moved to. */
  function Respawn(r: Roll): (p: Pos)
    ensures InSpawnBand(p)
    ensures Whole(p.x) && Whole(p.y)
  {
    var x: int := 100 + r.xDraw % 600;
    var y: int := 550 + r.yDraw % 200;
    assert (x as real).Floor == x && (y as real).Floor == y;
    Pos(x as real, y as real)
  }

  /** Every whole-pixel point of the spawn band is a possible respawn. */
  lemma RespawnCoversBand(x: int, y: int)
    requires 100 <= x <= 699 && 550 <= y <= 749
    ensures exists r: Roll :: Respawn(r) == Pos(x as real, y as real)
  {
    var r := Roll(y - 550, x - 100);
    assert Respawn(r) == Pos(x as real, y as real);
  }

  /** The deterministic start layout of the slots, used both when the game
      starts and on restart: a random column per slot, and heights staggered
      by 150 pixels so that the two tomatoes do not fall side by side. */
  function StartLayout(xDraws: seq<nat>): (ts: seq<Tomato>)
    ensures |ts| == |xDraws|
    ensures forall i :: 0 <= i < |ts| ==>
              && ts[i].active
              && ts[i].pos.y == 550.0 + 150.0 * i as real
              && 100.0 <= ts[i].pos.x <= 699.0
  {
    seq(|xDraws|, i requires 0 <= i < |xDraws| =>
      Tomato(Pos(100.0 + (xDraws[i] % 600) as real, 550.0 + 150.0 * i as real), true))
  }

  /** The state right before the first frame. */
  function Init(xDraws: seq<nat>): (g: Game)
    requires |xDraws| == NUM_TOMATOES
    ensures WellFormed(g)
    ensures g.caught == 0 && g.missed == 0 && !g.gameOver && !g.closeRequested
    ensures !g.explosion.visible
    ensures forall k :: 0 <= k < |g.keys| ==> !g.keys[k]
    ensures forall i :: 0 <= i < |g.tomatoes| ==> g.tomatoes[i].active && g.tomatoes[i].pos.y >= 550.0
  {
    Game(StartLayout(xDraws), SHEEP_START, 0, 0, false,
         Explosion(false, 0.0, SHEEP_START), seq(KEY_COUNT, _ => false), false)
  }
}
