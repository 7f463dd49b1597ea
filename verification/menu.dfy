/** The game-over screen's mouse handling: a left press on the RESTART
    button starts a new game, a left press on the EXIT button closes the
    window. */
module Menu {
  import opened Entities
  import opened Input

  /** A button's clickable area: a centre and half-extents, edges included. */
  datatype Box = Box(center: Pos, halfW: real, halfH: real)

  predicate InBox(p: Pos, b: Box) {
    && b.center.x - b.halfW <= p.x <= b.center.x + b.halfW
    && b.center.y - b.halfH <= p.y <= b.center.y + b.halfH
  }

  /** The buttons are drawn at 12% of their images' sizes (1246x308 for
      RESTART, 1024x438 for EXIT), centred horizontally, 80 and 140 pixels
      below the middle of the window. */
  const BUTTON_SCALE: real := 0.12
  const RESTART_BOX: Box :=
    Box(Pos(WIDTH / 2.0, HEIGHT / 2.0 - 80.0), 1246.0 * BUTTON_SCALE * 0.5, 308.0 * BUTTON_SCALE * 0.5)
  const EXIT_BOX: Box :=
    Box(Pos(WIDTH / 2.0, HEIGHT / 2.0 - 140.0), 1024.0 * BUTTON_SCALE * 0.5, 438.0 * BUTTON_SCALE * 0.5)

  /** The cursor is reported with y growing downwards from the top edge;
      the scene's y grows upwards from the bottom edge. */
  function ToScene(cursor: Pos): (p: Pos)
    ensures p.x == cursor.x && p.y + cursor.y == HEIGHT
  {
    Pos(cursor.x, HEIGHT - cursor.y)
  }

  /** Whether a mouse event is one the game-over screen listens to. */
  predicate Listens(g: Game, button: int, action: Action) {
    g.gameOver && button == MOUSE_BUTTON_LEFT && action == Press
  }

  /** The mouse button callback. `xDraws` are the rand() results a restart
      draws, one per slot, for the new columns. */
  function MouseButton(g: Game, button: int, action: Action, cursor: Pos, xDraws: seq<nat>): (r: Game)
    requires |xDraws| == NUM_TOMATOES
    ensures !Listens(g, button, action) ==> r == g
    ensures Listens(g, button, action) && InBox(ToScene(cursor), RESTART_BOX) ==>
              && !r.gameOver && r.caught == 0 && r.missed == 0
              && r.tomatoes == StartLayout(xDraws)
              && r.sheep == g.sheep && r.explosion == g.explosion && r.keys == g.keys
              && r.closeRequested == g.closeRequested
    ensures Listens(g, button, action) && InBox(ToScene(cursor), EXIT_BOX) ==> r == g.(closeRequested := true)
    ensures !InBox(ToScene(cursor), RESTART_BOX) && !InBox(ToScene(cursor), EXIT_BOX) ==> r == g
  {
    if Listens(g, button, action) then
      var p := ToScene(cursor);
      var restarted :=
        if InBox(p, RESTART_BOX) then
          g.(gameOver := false, caught := 0, missed := 0, tomatoes := StartLayout(xDraws))
        else
          g;
      if InBox(p, EXIT_BOX) then restarted.(closeRequested := true) else restarted
    else
      g
  }

  /** No point lies on both buttons, so one click never both restarts and
      exits. */
  lemma ButtonsDisjoint(p: Pos)
    ensures !(InBox(p, RESTART_BOX) && InBox(p, EXIT_BOX))
  {
  }

  /** The RESTART button in the cursor's own coordinates: x in
      [325.24, 474.76], y (from the top) in [361.52, 398.48]. */
  lemma RestartBoxInWindow(cursor: Pos)
    ensures InBox(ToScene(cursor), RESTART_BOX) <==>
              325.24 <= cursor.x <= 474.76 && 361.52 <= cursor.y <= 398.48
  {
  }

  /** A restart puts the counters, the flag and the slots back exactly as
      they were before the first frame, given the same column draws. */
  lemma RestartMatchesStart(g: Game, cursor: Pos, xDraws: seq<nat>)
    requires g.gameOver && InBox(ToScene(cursor), RESTART_BOX)
    requires |xDraws| == NUM_TOMATOES
    ensures var r := MouseButton(g, MOUSE_BUTTON_LEFT, Press, cursor, xDraws);
            var s := Init(xDraws);
            r.tomatoes == s.tomatoes && r.caught == s.caught && r.missed == s.missed
            && r.gameOver == s.gameOver
  {
  }
}
