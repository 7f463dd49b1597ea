/** Keyboard handling: the key callback that records held keys, and the
    per-frame movement of the sheep from the held keys. */
module Input {
  import opened Entities

  /** The three key and mouse actions GLFW reports. */
  datatype Action = Release | Press | Repeat

  /** GLFW key and button codes the game reacts to. */
  const KEY_A: nat := 65
  const KEY_D: nat := 68
  const KEY_ESCAPE: nat := 256
  const MOUSE_BUTTON_LEFT: int := 0

  /** Records a key event: a press marks the key held, a release clears it,
      a repeat leaves it alone; pressing Escape also asks the window to
      close. Nothing else in the game changes. */
  function KeyCallback(g: Game, key: int, action: Action): (r: Game)
    requires |g.keys| == KEY_COUNT
    requires 0 <= key < KEY_COUNT
    ensures |r.keys| == KEY_COUNT
    ensures action == Press ==> r.keys[key]
    ensures action == Release ==> !r.keys[key]
    ensures action == Repeat ==> r.keys[key] == g.keys[key]
    ensures forall k :: 0 <= k < KEY_COUNT && k != key ==> r.keys[k] == g.keys[k]
    ensures r.closeRequested <==> g.closeRequested || (key == KEY_ESCAPE && action == Press)
    ensures r.(keys := g.keys, closeRequested := g.closeRequested) == g
  {
    var g' := if key == KEY_ESCAPE && action == Press then g.(closeRequested := true) else g;
    match action
    case Press => g'.(keys := g'.keys[key := true])
    case Release => g'.(keys := g'.keys[key := false])
    case Repeat => g'
  }

  /** A press followed by a release of the same key restores the table of a
      key that was not held before, and a second press changes nothing. */
  lemma PressThenRelease(g: Game, key: int)
    requires |g.keys| == KEY_COUNT
    requires 0 <= key < KEY_COUNT
    ensures !g.keys[key] ==> KeyCallback(KeyCallback(g, key, Press), key, Release).keys == g.keys
    ensures KeyCallback(KeyCallback(g, key, Press), key, Press) == KeyCallback(g, key, Press)
  {
    var p := KeyCallback(g, key, Press);
    if !g.keys[key] {
      var r := KeyCallback(p, key, Release);
      assert forall k :: 0 <= k < KEY_COUNT ==> r.keys[k] == g.keys[k];
    }
    var pp := KeyCallback(p, key, Press);
    assert pp.keys == p.keys;
  }

  /** The sprite's horizontal moves for a frame of the given length. The
      sprite class is not part of this model, so its moves are parameters. */
  datatype Mover = Mover(right: (Pos, real) -> Pos, left: (Pos, real) -> Pos)

  /** Moves the sheep: right if D is held, then left if A is held. */
  function ProcessInput(keys: seq<bool>, sheep: Pos, elapsed: real, m: Mover): (p: Pos)
    requires |keys| == KEY_COUNT
    ensures !keys[KEY_D] && !keys[KEY_A] ==> p == sheep
    ensures keys[KEY_D] && !keys[KEY_A] ==> p == m.right(sheep, elapsed)
    ensures !keys[KEY_D] && keys[KEY_A] ==> p == m.left(sheep, elapsed)
    ensures keys[KEY_D] && keys[KEY_A] ==> p == m.left(m.right(sheep, elapsed), elapsed)
  {
    var afterRight := if keys[KEY_D] then m.right(sheep, elapsed) else sheep;
    if keys[KEY_A] then m.left(afterRight, elapsed) else afterRight
  }

  /** Only the D and A entries of the key table influence movement. */
  lemma OnlyMoveKeysMatter(k1: seq<bool>, k2: seq<bool>, sheep: Pos, elapsed: real, m: Mover)
    requires |k1| == KEY_COUNT && |k2| == KEY_COUNT
    requires k1[KEY_D] == k2[KEY_D] && k1[KEY_A] == k2[KEY_A]
    ensures ProcessInput(k1, sheep, elapsed, m) == ProcessInput(k2, sheep, elapsed, m)
  {
  }

  /** A sprite that slides horizontally at a constant speed. */
  function Slide(speed: real): Mover {
    Mover((p: Pos, dt: real) => Pos(p.x + speed * dt, p.y),
          (p: Pos, dt: real) => Pos(p.x - speed * dt, p.y))
  }

  /** For a constant-speed sprite, D moves right by speed * elapsed, A moves
      left by the same amount, holding both cancels out, and the sheep never
      leaves its row. */
  lemma SlideMoves(keys: seq<bool>, sheep: Pos, elapsed: real, speed: real)
    requires |keys| == KEY_COUNT
    ensures ProcessInput(keys, sheep, elapsed, Slide(speed)).y == sheep.y
    ensures keys[KEY_D] == keys[KEY_A] ==> ProcessInput(keys, sheep, elapsed, Slide(speed)) == sheep
    ensures keys[KEY_D] && !keys[KEY_A] ==>
              ProcessInput(keys, sheep, elapsed, Slide(speed)).x == sheep.x + speed * elapsed
    ensures !keys[KEY_D] && keys[KEY_A] ==>
              ProcessInput(keys, sheep, elapsed, Slide(speed)).x == sheep.x - speed * elapsed
  {
  }
}
