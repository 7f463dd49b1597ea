/** A game session as a sequence of events (frames, key events, mouse
    clicks), and the invariant every event keeps. */
module Session {
  import opened Entities
  import opened Collision
  import opened Input
  import opened Explosions
  import opened Frame
  import opened Menu

  /** What holds between any two events:
      - the game is over exactly when the misses reached the limit;
      - the misses never exceed the limit by more than NUM_TOMATOES - 1,
        because the frame loop keeps testing later slots after the miss
        that ended the game;
      - a visible explosion has time left;
      - every slot is active (nothing ever deactivates one);
      - while the game is on every tomato is at or above the kill line, and
        once it is over the tomato that ended it is still lying below it. */
  predicate Inv(g: Game) {
    && WellFormed(g)
    && (g.gameOver <==> g.missed >= MAX_MISSED)
    && g.missed <= MAX_MISSED - 1 + NUM_TOMATOES
    && (g.explosion.visible ==> g.explosion.timer > 0.0)
    && (forall i :: 0 <= i < |g.tomatoes| ==> g.tomatoes[i].active)
    && (!g.gameOver ==> forall i :: 0 <= i < |g.tomatoes| ==> g.tomatoes[i].pos.y >= KILL_LINE)
    && (g.gameOver ==> exists i :: 0 <= i < |g.tomatoes| && g.tomatoes[i].pos.y < KILL_LINE)
  }

  lemma InitSatisfiesInv(xDraws: seq<nat>)
    requires |xDraws| == NUM_TOMATOES
    ensures Inv(Init(xDraws))
  {
  }

  /** Every frame keeps the invariant. */
  lemma StepPreservesInv(g: Game, elapsed: real, rolls: seq<Roll>, m: Mover)
    requires Inv(g) && |rolls| == NUM_TOMATOES
    ensures Inv(Step(g, elapsed, rolls, m))
  {
  }

  datatype Event =
    | Tick(elapsed: real, rolls: seq<Roll>)
    | Key(key: int, action: Action)
    | Click(button: int, action: Action, cursor: Pos, xDraws: seq<nat>)

  /** The rand() draws an event supplies cover every slot, and a key code
      indexes the key table. */
  predicate ValidEvent(e: Event) {
    match e
    case Tick(_, rolls) => |rolls| == NUM_TOMATOES
    case Key(key, _) => 0 <= key < KEY_COUNT
    case Click(_, _, _, xDraws) => |xDraws| == NUM_TOMATOES
  }

  predicate IsRestartHit(g: Game, e: Event) {
    e.Click? && Listens(g, e.button, e.action) && InBox(ToScene(e.cursor), RESTART_BOX)
  }

  /** Dispatches one event to the frame step or to a callback. Every event
      keeps the invariant, and only a RESTART hit lowers a counter. */
  function Apply(g: Game, e: Event, m: Mover): (r: Game)
    requires Inv(g) && ValidEvent(e)
    ensures Inv(r)
    ensures !IsRestartHit(g, e) ==> g.caught <= r.caught && g.missed <= r.missed
    ensures IsRestartHit(g, e) ==> r.caught == 0 && r.missed == 0 && !r.gameOver
  {
    match e
    case Tick(elapsed, rolls) =>
      StepPreservesInv(g, elapsed, rolls, m);
      Step(g, elapsed, rolls, m)
    case Key(key, action) => KeyCallback(g, key, action)
    case Click(button, action, cursor, xDraws) =>
      ButtonsDisjoint(ToScene(cursor));
      MouseButton(g, button, action, cursor, xDraws)
  }

  predicate AllValid(es: seq<Event>) {
    forall k :: 0 <= k < |es| ==> ValidEvent(es[k])
  }

  /** The state after a whole sequence of events; the invariant holds at
      its end. */
  function Run(g: Game, es: seq<Event>, m: Mover): (r: Game)
    requires Inv(g) && AllValid(es)
    ensures Inv(r)
    decreases |es|
  {
    if |es| == 0 then g
    else
      assert AllValid(es[1..]) by {
        forall k | 0 <= k < |es[1..]| ensures ValidEvent(es[1..][k]) {
          assert es[1..][k] == es[k + 1];
        }
      }
      Run(Apply(g, es[0], m), es[1..], m)
  }

  /** No click anywhere on the RESTART button. This is stronger than
      `RunMonotone` needs: only a click the game-over screen listens to
      (`IsRestartHit`) lowers a counter, but whether a click is listened to
      depends on the state it reaches, so the hypothesis is stated on the
      events alone. */
  predicate NoRestartClicks(es: seq<Event>) {
    forall k :: 0 <= k < |es| && es[k].Click? ==> !InBox(ToScene(es[k].cursor), RESTART_BOX)
  }

  /** Without RESTART clicks, both counters only grow, and a game that is
      over stays over. */
  lemma {:induction false} RunMonotone(g: Game, es: seq<Event>, m: Mover)
    requires Inv(g) && AllValid(es) && NoRestartClicks(es)
    ensures g.caught <= Run(g, es, m).caught
    ensures g.missed <= Run(g, es, m).missed
    ensures g.gameOver ==> Run(g, es, m).gameOver
    decreases |es|
  {
    if |es| > 0 {
      var g1 := Apply(g, es[0], m);
      assert AllValid(es[1..]) && NoRestartClicks(es[1..]) by {
        forall k | 0 <= k < |es[1..]| ensures es[1..][k] == es[k + 1] {
        }
      }
      RunMonotone(g1, es[1..], m);
      assert Run(g, es, m) == Run(g1, es[1..], m);
    }
  }

  /** After the game is over, frames leave the tomatoes, the sheep and both
      counters alone: no miss can be counted until a restart. */
  lemma FrozenWhileOver(g: Game, elapsed: real, rolls: seq<Roll>, m: Mover)
    requires Inv(g) && g.gameOver && |rolls| == NUM_TOMATOES
    ensures var r := Step(g, elapsed, rolls, m);
            r.tomatoes == g.tomatoes && r.sheep == g.sheep
            && r.caught == g.caught && r.missed == g.missed && r.gameOver
  {
  }

  /** Two active tomatoes in column 100, no higher than 700, with the sheep
      at its start position and standing still: one four-second frame drops
      both past the kill line, far from the sheep, so both are missed. */
  lemma BothMissed(g: Game)
    requires Inv(g) && !g.gameOver && g.sheep == SHEEP_START
    requires forall j :: 0 <= j < |g.tomatoes| ==> g.tomatoes[j].pos.x == 100.0 && g.tomatoes[j].pos.y <= 700.0
    ensures var r := Step(g, 4.0, [Roll(0, 0), Roll(0, 0)], Slide(0.0));
            && r.missed == g.missed + 2 && r.sheep == SHEEP_START
            && (r.missed < MAX_MISSED ==> r.tomatoes == [Tomato(Pos(100.0, 550.0), true), Tomato(Pos(100.0, 550.0), true)])
  {
    var rolls := [Roll(0, 0), Roll(0, 0)];
    SlideMoves(g.keys, g.sheep, 4.0, 0.0);
    var r := Step(g, 4.0, rolls, Slide(0.0));
    assert r.sheep == SHEEP_START;
    var ts := g.tomatoes;
    assert Dropped(ts[0], SHEEP_START, 4.0) && Dropped(ts[1], SHEEP_START, 4.0);
    assert ts[0..1] == [ts[0]] && ts[0..2] == ts && ts[1..][1..] == [] && [ts[0]][1..] == [];
    assert Misses(ts, SHEEP_START, 4.0) == 2;
    if r.missed < MAX_MISSED {
      assert Misses(ts[0..1], SHEEP_START, 4.0) == 1;
      assert MissRule(ts, r.sheep, g.missed, 0, 0, 4.0, rolls, r);
      assert MissRule(ts, r.sheep, g.missed, 0, 1, 4.0, rolls, r);
      assert r.tomatoes[0] == Tomato(Pos(100.0, 550.0), true);
      assert r.tomatoes[1] == Tomato(Pos(100.0, 550.0), true);
    }
  }

  /** A long frame while the sheep stands still at its start: both tomatoes
      are missed, and while the game stays on they come back in column 100
      at the top of the band, ready to be missed again. */
  lemma DropFrame(g: Game)
    requires Inv(g) && !g.gameOver && g.sheep == SHEEP_START
    requires forall j :: 0 <= j < |g.tomatoes| ==> g.tomatoes[j].pos.x == 100.0 && g.tomatoes[j].pos.y <= 700.0
    ensures var r := Apply(g, Tick(4.0, [Roll(0, 0), Roll(0, 0)]), Slide(0.0));
            && Inv(r) && r.missed == g.missed + 2 && r.sheep == SHEEP_START
            && (r.missed < MAX_MISSED ==>
                  && !r.gameOver
                  && forall j :: 0 <= j < |r.tomatoes| ==> r.tomatoes[j].pos.x == 100.0 && r.tomatoes[j].pos.y <= 700.0)
  {
    BothMissed(g);
  }

  /** Running a non-empty sequence applies its first event, then runs the
      rest. */
  lemma RunUnfold(g: Game, es: seq<Event>, m: Mover)
    requires Inv(g) && AllValid(es) && |es| > 0
    ensures ValidEvent(es[0]) && AllValid(es[1..])
    ensures Run(g, es, m) == Run(Apply(g, es[0], m), es[1..], m)
  {
    assert AllValid(es[1..]) by {
      forall k | 0 <= k < |es[1..]| ensures ValidEvent(es[1..][k]) {
        assert es[1..][k] == es[k + 1];
      }
    }
  }

  /** Three long frames from a fresh game with both tomatoes in column 100
      and the sheep standing still at its start, each missing both tomatoes:
      the third one ends the game with 6 misses. */
  lemma ThreeDropFrames(g: Game)
    requires Inv(g) && g.missed == 0 && g.sheep == SHEEP_START
    requires forall j :: 0 <= j < |g.tomatoes| ==> g.tomatoes[j].pos.x == 100.0 && g.tomatoes[j].pos.y <= 700.0
    ensures var drop := Tick(4.0, [Roll(0, 0), Roll(0, 0)]);
            var g1 := Apply(g, drop, Slide(0.0));
            var g2 := Apply(g1, drop, Slide(0.0));
            var g3 := Apply(g2, drop, Slide(0.0));
            g3.missed == 6 && g3.gameOver
  {
    var m := Slide(0.0);
    var drop := Tick(4.0, [Roll(0, 0), Roll(0, 0)]);
    DropFrame(g);
    var g1 := Apply(g, drop, m);
    DropFrame(g1);
    var g2 := Apply(g1, drop, m);
    DropFrame(g2);
  }

  /** Running three copies of an event is applying it three times. */
  lemma RunThree(g: Game, e: Event, m: Mover)
    requires Inv(g) && ValidEvent(e)
    ensures var g1 := Apply(g, e, m);
            var g2 := Apply(g1, e, m);
            Run(g, [e, e, e], m) == Apply(g2, e, m)
  {
    var g1 := Apply(g, e, m);
    var g2 := Apply(g1, e, m);
    assert [e, e, e][1..] == [e, e] && [e, e][1..] == [e] && [e][1..] == [];
    RunUnfold(g, [e, e, e], m);
    RunUnfold(g1, [e, e], m);
    RunUnfold(g2, [e], m);
  }

  /** The bound in the invariant is reached: from the start, three long
      frames in which both tomatoes fall past the kill line take the miss
      counter to MAX_MISSED + 1, because the second slot is still checked
      after the first one ended the game. */
  lemma MissesCanExceedLimit()
    ensures var drop := Tick(4.0, [Roll(0, 0), Roll(0, 0)]);
            var r := Run(Init([0, 0]), [drop, drop, drop], Slide(0.0));
            r.missed == MAX_MISSED - 1 + NUM_TOMATOES && r.missed > MAX_MISSED && r.gameOver
  {
    var drop := Tick(4.0, [Roll(0, 0), Roll(0, 0)]);
    var g := Init([0, 0]);
    InitSatisfiesInv([0, 0]);
    ThreeDropFrames(g);
    RunThree(g, drop, Slide(0.0));
  }
}
