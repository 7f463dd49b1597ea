/** One simulation frame of the game loop: move the sheep, count down the
    explosion, then let every tomato slot fall, test it for a catch and then
    for a miss, in slot order. */
module Frame {
  import opened Entities
  import opened Collision
  import opened Input
  import opened Explosions

  /** Where a tomato is after falling for `elapsed` seconds. */
  function Fall(p: Pos, elapsed: real): (q: Pos)
    ensures q.x == p.x
    ensures p.y - q.y == FALL_SPEED * elapsed
  {
    Pos(p.x, p.y - FALL_SPEED * elapsed)
  }

  /** One slot's turn in the frame loop, written in the loop's own order:
      the tomato falls; if it now overlaps the sheep it is caught and moved
      back to the top; then, on the position it has at that point, it is
      checked against the kill line. A miss bumps the counter and either ends
      the game (leaving the tomato where it fell) or moves it back to the top.
      The frame draws `roll` for whichever respawn happens. */
  function FallSlot(g: Game, i: nat, elapsed: real, roll: Roll): (r: Game)
    requires i < |g.tomatoes|
    ensures |r.tomatoes| == |g.tomatoes|
    ensures forall j :: 0 <= j < |g.tomatoes| && j != i ==> r.tomatoes[j] == g.tomatoes[j]
    ensures r.tomatoes[i].active == g.tomatoes[i].active
    ensures r.sheep == g.sheep && r.keys == g.keys && r.closeRequested == g.closeRequested
    ensures !g.tomatoes[i].active ==> r == g
    // caught: counted once, explosion where the tomato was hit, back to the top, never missed
    ensures var fallen := Fall(g.tomatoes[i].pos, elapsed);
            g.tomatoes[i].active && Collides(fallen, g.sheep) ==>
              && r.caught == g.caught + 1
              && r.explosion == Explosion(true, EXPLOSION_TIME, fallen)
              && r.tomatoes[i].pos == Respawn(roll)
              && r.missed == g.missed && r.gameOver == g.gameOver
    // not caught: the catch counter and the explosion are left alone
    ensures var fallen := Fall(g.tomatoes[i].pos, elapsed);
            g.tomatoes[i].active && !Collides(fallen, g.sheep) ==>
              r.caught == g.caught && r.explosion == g.explosion
    // missed: counted once; the game ends once the limit is reached
    ensures var fallen := Fall(g.tomatoes[i].pos, elapsed);
            g.tomatoes[i].active && !Collides(fallen, g.sheep) && fallen.y < KILL_LINE ==>
              && r.missed == g.missed + 1
              && (r.gameOver <==> g.gameOver || r.missed >= MAX_MISSED)
              && r.tomatoes[i].pos == (if r.missed >= MAX_MISSED then fallen else Respawn(roll))
    // still falling
    ensures var fallen := Fall(g.tomatoes[i].pos, elapsed);
            g.tomatoes[i].active && !Collides(fallen, g.sheep) && fallen.y >= KILL_LINE ==>
              r.missed == g.missed && r.gameOver == g.gameOver && r.tomatoes[i].pos == fallen
  {
    var t := g.tomatoes[i];
    if !t.active then g
    else
      var fallen := Fall(t.pos, elapsed);
      var afterCatch :=
        if Collides(fallen, g.sheep) then
          g.(caught := g.caught + 1,
             explosion := Explosion(true, EXPLOSION_TIME, fallen),
             tomatoes := g.tomatoes[i := t.(pos := Respawn(roll))])
        else
          g.(tomatoes := g.tomatoes[i := t.(pos := fallen)]);
      var pos := afterCatch.tomatoes[i].pos;
      if pos.y < KILL_LINE then
        var missed := afterCatch.missed + 1;
        if missed >= MAX_MISSED then
          afterCatch.(missed := missed, gameOver := true)
        else
          afterCatch.(missed := missed, tomatoes := afterCatch.tomatoes[i := t.(pos := Respawn(roll))])
      else
        afterCatch
  }

  /** A tomato caught in a frame is never also missed in that frame, although
      the miss test runs after the catch: the catch has already moved it to
      the spawn band, far above the kill line. The unchanged miss count is a
      corollary of the caught case of `FallSlot`; the height is what rules the
      miss test out. */
  lemma CatchExcludesMiss(g: Game, i: nat, elapsed: real, roll: Roll)
    requires i < |g.tomatoes| && g.tomatoes[i].active
    requires Collides(Fall(g.tomatoes[i].pos, elapsed), g.sheep)
    ensures FallSlot(g, i, elapsed, roll).missed == g.missed
    ensures FallSlot(g, i, elapsed, roll).tomatoes[i].pos.y >= 550.0 > KILL_LINE
  {
  }

  /** The slot's tomato, after falling, overlaps the sheep: it is caught. */
  predicate Caught(t: Tomato, sheep: Pos, elapsed: real) {
    t.active && Collides(Fall(t.pos, elapsed), sheep)
  }

  /** The slot's tomato, after falling, misses the sheep and is below the
      kill line: it is missed. */
  predicate Dropped(t: Tomato, sheep: Pos, elapsed: real) {
    t.active && !Collides(Fall(t.pos, elapsed), sheep) && Fall(t.pos, elapsed).y < KILL_LINE
  }

  /** Reference count of the slots caught in a frame, judged slot by slot
      from where each tomato falls to. */
  function Catches(ts: seq<Tomato>, sheep: Pos, elapsed: real): nat {
    if |ts| == 0 then 0
    else (if Caught(ts[0], sheep, elapsed) then 1 else 0) + Catches(ts[1..], sheep, elapsed)
  }

  /** Reference count of the slots missed in a frame. */
  function Misses(ts: seq<Tomato>, sheep: Pos, elapsed: real): nat {
    if |ts| == 0 then 0
    else (if Dropped(ts[0], sheep, elapsed) then 1 else 0) + Misses(ts[1..], sheep, elapsed)
  }

  /** No slot is counted both as caught and as missed, so one frame adds at
      most one to the two counters together per slot. */
  lemma {:induction false} CatchesAndMissesDisjoint(ts: seq<Tomato>, sheep: Pos, elapsed: real)
    ensures Catches(ts, sheep, elapsed) + Misses(ts, sheep, elapsed) <= |ts|
    decreases |ts|
  {
    if |ts| > 0 {
      CatchesAndMissesDisjoint(ts[1..], sheep, elapsed);
    }
  }

  /** Where slot j ends the frame: a caught tomato at its respawn, a tomato
      still in play where it fell, a missed one back at its respawn unless
      the game is over by the end of the frame, where it may have stayed. */
  predicate SlotOutcome(before: Tomato, after: Tomato, sheep: Pos, elapsed: real, roll: Roll, over: bool) {
    var f := Fall(before.pos, elapsed);
    && after.active == before.active
    && (!before.active ==> after == before)
    && (Caught(before, sheep, elapsed) ==> after.pos == Respawn(roll))
    && (before.active && !Collides(f, sheep) && f.y >= KILL_LINE ==> after.pos == f)
    && (Dropped(before, sheep, elapsed) ==>
          after.pos == Respawn(roll) || (over && after.pos == f))
  }

  /** The frame loop over slots i, i+1, ... in order. It does not stop when a
      miss ends the game part-way through: later slots still fall, can still
      be caught and can still be missed. */
  function FallFrom(g: Game, i: nat, elapsed: real, rolls: seq<Roll>): (r: Game)
    requires i <= |g.tomatoes| == |rolls|
    ensures |r.tomatoes| == |g.tomatoes|
    ensures forall j :: 0 <= j < i ==> r.tomatoes[j] == g.tomatoes[j]
    ensures forall j :: 0 <= j < |g.tomatoes| ==> r.tomatoes[j].active == g.tomatoes[j].active
    ensures r.sheep == g.sheep && r.keys == g.keys && r.closeRequested == g.closeRequested
    ensures g.caught <= r.caught <= g.caught + (|g.tomatoes| - i)
    ensures g.missed <= r.missed <= g.missed + (|g.tomatoes| - i)
    ensures r.gameOver <==> g.gameOver || (r.missed != g.missed && r.missed >= MAX_MISSED)
    ensures r.caught != g.caught ==> r.explosion.visible && r.explosion.timer == EXPLOSION_TIME
    ensures r.caught == g.caught ==> r.explosion == g.explosion
    ensures !r.gameOver ==>
              forall j :: i <= j < |r.tomatoes| && r.tomatoes[j].active ==> r.tomatoes[j].pos.y >= KILL_LINE
    ensures r.gameOver && !g.gameOver ==>
              exists j :: i <= j < |r.tomatoes| && r.tomatoes[j].pos.y < KILL_LINE
    ensures r.caught == g.caught + Catches(g.tomatoes[i..], g.sheep, elapsed)
    ensures r.missed == g.missed + Misses(g.tomatoes[i..], g.sheep, elapsed)
    ensures forall j :: i <= j < |g.tomatoes| ==>
              SlotOutcome(g.tomatoes[j], r.tomatoes[j], g.sheep, elapsed, rolls[j], r.gameOver)
    decreases |g.tomatoes| - i
  {
    if i == |g.tomatoes| then g
    else
      var g' := FallSlot(g, i, elapsed, rolls[i]);
      assert g'.tomatoes[i + 1..] == g.tomatoes[i + 1..];
      assert g.tomatoes[i..][1..] == g.tomatoes[i + 1..];
      FallFrom(g', i + 1, elapsed, rolls)
  }

  /** No slot of `ts` is caught exactly when the reference count is 0. */
  lemma {:induction false} NoCatches(ts: seq<Tomato>, sheep: Pos, elapsed: real)
    ensures Catches(ts, sheep, elapsed) == 0 <==> forall k :: 0 <= k < |ts| ==> !Caught(ts[k], sheep, elapsed)
    decreases |ts|
  {
    if |ts| > 0 {
      NoCatches(ts[1..], sheep, elapsed);
      assert forall k :: 1 <= k < |ts| ==> ts[1..][k - 1] == ts[k];
    }
  }

  /** Slot j holds the last tomato of `ts` caught in the frame. */
  predicate LastCatchAt(ts: seq<Tomato>, sheep: Pos, elapsed: real, j: int) {
    && 0 <= j < |ts|
    && Caught(ts[j], sheep, elapsed)
    && forall k :: j < k < |ts| ==> !Caught(ts[k], sheep, elapsed)
  }

  /** The explosion `e` is where the last caught tomato of `ts`, at slot
      `from` or later, was hit. */
  predicate ExplodedAtLastCatch(ts: seq<Tomato>, sheep: Pos, elapsed: real, from: nat, e: Explosion) {
    exists j :: from <= j < |ts| && LastCatchAt(ts, sheep, elapsed, j) && e.pos == Fall(ts[j].pos, elapsed)
  }

  /** A catch at slot i with no catch after it leaves the explosion at slot
      i's hit point. */
  lemma ExplosionHead(g: Game, i: nat, elapsed: real, roll: Roll)
    requires i < |g.tomatoes| && Caught(g.tomatoes[i], g.sheep, elapsed)
    requires Catches(g.tomatoes[i + 1..], g.sheep, elapsed) == 0
    ensures ExplodedAtLastCatch(g.tomatoes, g.sheep, elapsed, i, FallSlot(g, i, elapsed, roll).explosion)
  {
    var rest := g.tomatoes[i + 1..];
    NoCatches(rest, g.sheep, elapsed);
    assert forall k :: i < k < |g.tomatoes| ==> rest[k - (i + 1)] == g.tomatoes[k];
    assert LastCatchAt(g.tomatoes, g.sheep, elapsed, i);
  }

  /** A last catch after slot i is still the last catch when the loop is
      seen from slot i, because slot i's turn leaves later slots alone. */
  lemma ExplosionShift(g: Game, i: nat, elapsed: real, roll: Roll, e: Explosion)
    requires i < |g.tomatoes|
    requires var g' := FallSlot(g, i, elapsed, roll);
             ExplodedAtLastCatch(g'.tomatoes, g'.sheep, elapsed, i + 1, e)
    ensures ExplodedAtLastCatch(g.tomatoes, g.sheep, elapsed, i, e)
  {
    var g' := FallSlot(g, i, elapsed, roll);
    var j :| i + 1 <= j < |g'.tomatoes| && LastCatchAt(g'.tomatoes, g'.sheep, elapsed, j)
             && e.pos == Fall(g'.tomatoes[j].pos, elapsed);
    assert LastCatchAt(g.tomatoes, g.sheep, elapsed, j);
  }

  /** When the slot loop catches something, the explosion ends up where the
      last caught tomato was hit: each catch moves it, and later slots that
      are not caught leave it alone. */
  lemma {:induction false} FallFromExplosion(g: Game, i: nat, elapsed: real, rolls: seq<Roll>)
    requires i <= |g.tomatoes| == |rolls|
    ensures var r := FallFrom(g, i, elapsed, rolls);
            r.caught != g.caught ==> ExplodedAtLastCatch(g.tomatoes, g.sheep, elapsed, i, r.explosion)
    decreases |g.tomatoes| - i
  {
    if i < |g.tomatoes| {
      var r := FallFrom(g, i, elapsed, rolls);
      var g' := FallSlot(g, i, elapsed, rolls[i]);
      assert r == FallFrom(g', i + 1, elapsed, rolls);
      FallFromExplosion(g', i + 1, elapsed, rolls);
      if r.caught != g'.caught {
        ExplosionShift(g, i, elapsed, rolls[i], r.explosion);
      } else if r.caught != g.caught {
        assert g'.tomatoes[i + 1..] == g.tomatoes[i + 1..];
        ExplosionHead(g, i, elapsed, rolls[i]);
      }
    }
  }

  /** The exact fate of slot j in the loop started at slot i, if it is
      missed: it stays where it fell exactly when the misses counted so far in
      the frame, itself included, reach the limit; otherwise it goes back to
      the top. */
  predicate MissRule(ts: seq<Tomato>, sheep: Pos, missed: nat, i: nat, j: nat, elapsed: real,
                     rolls: seq<Roll>, r: Game)
    requires i <= j < |ts| == |rolls| == |r.tomatoes|
  {
    Dropped(ts[j], sheep, elapsed) ==>
      r.tomatoes[j].pos ==
        if missed + Misses(ts[i..j + 1], sheep, elapsed) >= MAX_MISSED
        then Fall(ts[j].pos, elapsed) else Respawn(rolls[j])
  }

  /** The rule for the first slot of the loop. */
  lemma MissRuleHead(g: Game, i: nat, elapsed: real, rolls: seq<Roll>)
    requires i < |g.tomatoes| == |rolls|
    ensures MissRule(g.tomatoes, g.sheep, g.missed, i, i, elapsed, rolls, FallFrom(g, i, elapsed, rolls))
  {
    var g' := FallSlot(g, i, elapsed, rolls[i]);
    assert FallFrom(g, i, elapsed, rolls) == FallFrom(g', i + 1, elapsed, rolls);
    var t := g.tomatoes[i];
    assert g.tomatoes[i..i + 1] == [t] && [t][1..] == [];
    assert Misses([t], g.sheep, elapsed) == if Dropped(t, g.sheep, elapsed) then 1 else 0;
  }

  /** The rule for a later slot carries over from the loop started one slot
      further on, because the first slot adds its own miss to the count. */
  lemma MissRuleShift(g: Game, i: nat, j: nat, elapsed: real, rolls: seq<Roll>, r: Game)
    requires i < j < |g.tomatoes| == |rolls| == |r.tomatoes|
    requires var g' := FallSlot(g, i, elapsed, rolls[i]);
             MissRule(g'.tomatoes, g'.sheep, g'.missed, i + 1, j, elapsed, rolls, r)
    ensures MissRule(g.tomatoes, g.sheep, g.missed, i, j, elapsed, rolls, r)
  {
    var g' := FallSlot(g, i, elapsed, rolls[i]);
    var before := if Dropped(g.tomatoes[i], g.sheep, elapsed) then 1 else 0;
    assert g.tomatoes[i..j + 1][1..] == g.tomatoes[i + 1..j + 1];
    assert Misses(g.tomatoes[i..j + 1], g.sheep, elapsed)
           == before + Misses(g.tomatoes[i + 1..j + 1], g.sheep, elapsed);
    assert g'.missed == g.missed + before;
    assert g'.tomatoes[i + 1..j + 1] == g.tomatoes[i + 1..j + 1];
  }

  /** Every missed slot of the loop follows `MissRule`. */
  lemma {:induction false} FallFromMissRule(g: Game, i: nat, elapsed: real, rolls: seq<Roll>)
    requires i <= |g.tomatoes| == |rolls|
    ensures forall j :: i <= j < |g.tomatoes| ==>
              MissRule(g.tomatoes, g.sheep, g.missed, i, j, elapsed, rolls, FallFrom(g, i, elapsed, rolls))
    decreases |g.tomatoes| - i
  {
    if i < |g.tomatoes| {
      var r := FallFrom(g, i, elapsed, rolls);
      var g' := FallSlot(g, i, elapsed, rolls[i]);
      assert r == FallFrom(g', i + 1, elapsed, rolls);
      FallFromMissRule(g', i + 1, elapsed, rolls);
      MissRuleHead(g, i, elapsed, rolls);
      forall j | i < j < |g.tomatoes| ensures MissRule(g.tomatoes, g.sheep, g.missed, i, j, elapsed, rolls, r) {
        MissRuleShift(g, i, j, elapsed, rolls, r);
      }
    }
  }

  /** One frame of the game loop. While the game is on, the held keys move
      the sheep before anything else; the explosion counts down in every
      frame; the tomatoes fall only while the game is on. */
  function Step(g: Game, elapsed: real, rolls: seq<Roll>, m: Mover): (r: Game)
    requires WellFormed(g) && |rolls| == NUM_TOMATOES
    ensures WellFormed(r)
    ensures g.gameOver ==> r == g.(explosion := TickExplosion(g.explosion, elapsed))
    ensures !g.gameOver ==> r.sheep == ProcessInput(g.keys, g.sheep, elapsed, m)
    ensures r.keys == g.keys && r.closeRequested == g.closeRequested
    ensures g.caught <= r.caught <= g.caught + NUM_TOMATOES
    ensures g.missed <= r.missed <= g.missed + NUM_TOMATOES
    ensures r.gameOver <==> g.gameOver || (r.missed != g.missed && r.missed >= MAX_MISSED)
    // during play every slot is judged against the sheep after it has moved
    ensures !g.gameOver ==> r.caught == g.caught + Catches(g.tomatoes, r.sheep, elapsed)
    ensures !g.gameOver ==> r.missed == g.missed + Misses(g.tomatoes, r.sheep, elapsed)
    ensures !g.gameOver ==> forall j :: 0 <= j < NUM_TOMATOES ==>
              SlotOutcome(g.tomatoes[j], r.tomatoes[j], r.sheep, elapsed, rolls[j], r.gameOver)
    ensures !g.gameOver ==> forall j :: 0 <= j < NUM_TOMATOES ==>
              MissRule(g.tomatoes, r.sheep, g.missed, 0, j, elapsed, rolls, r)
    // the explosion counts down before the slots fall; a catch shows it afresh
    ensures !g.gameOver && r.caught == g.caught ==> r.explosion == TickExplosion(g.explosion, elapsed)
    ensures !g.gameOver && r.caught != g.caught ==>
              && r.explosion.visible && r.explosion.timer == EXPLOSION_TIME
              && ExplodedAtLastCatch(g.tomatoes, r.sheep, elapsed, 0, r.explosion)
  {
    var moved := if g.gameOver then g else g.(sheep := ProcessInput(g.keys, g.sheep, elapsed, m));
    var ticked := moved.(explosion := TickExplosion(moved.explosion, elapsed));
    if ticked.gameOver then ticked
    else
      assert ticked.tomatoes[0..] == ticked.tomatoes;
      assert ticked.tomatoes == g.tomatoes;
      FallFromExplosion(ticked, 0, elapsed, rolls);
      FallFromMissRule(ticked, 0, elapsed, rolls);
      FallFrom(ticked, 0, elapsed, rolls)
  }
}
