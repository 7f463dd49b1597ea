# Tomato catcher: the game rules

A model, in Dafny, of the rules of a small 2D arcade game written in C++
with OpenGL and GLFW. A sheep at the bottom of an 800x600 window is steered
left and right with the A and D keys. Two tomatoes fall from the top. The
game counts every tomato the sheep catches and every tomato that falls past
the bottom edge. Five misses end the game. A game-over screen then offers a
RESTART and an EXIT button.

All of these rules sit in `src/Game.cpp`, mixed in with the graphics calls.
The model pulls them out into pure functions over an immutable `Game`
record:

- `Entities` holds the state, the constants, the respawn positions and the
  start layout of the tomatoes.
- `Collision` holds the catch test between a tomato and the sheep.
- `Input` holds the key callback and the per-frame movement of the sheep.
- `Explosions` holds the countdown of the catch effect.
- `Frame` holds one simulation frame: the per-slot fall/catch/miss step, the
  loop over the slots, and the whole frame step.
- `Menu` holds the mouse callback of the game-over screen.
- `Session` holds the invariant every event keeps, and runs over sequences
  of frames, key events and clicks.

Positions are exact `real`s. The random numbers from `rand()` are inputs.
The sprite's own horizontal moves are a parameter (`Input.Mover`), because
the sprite class is not part of this model.

The code and the natural reading of its design differ in three places. The
model follows the code in each:

- **Misses can go past the limit.** The slot loop keeps running after a miss
  sets the game-over flag in the middle of a frame. So a later slot in the
  same frame can still be missed, and the counter can reach
  `MAX_MISSED - 1 + NUM_TOMATOES` (6), not just `MAX_MISSED`.
  `Session.MissesCanExceedLimit` reaches 6 from the start state.
- **The explosion keeps counting down after game over.** Its countdown runs
  in every frame. Only the sheep's movement and the falling tomatoes stop.
- **The last tomato does not come back.** The tomato whose miss ends the game
  is not moved back to the top. It stays below the kill line until a restart.

## Model

| member | source | states |
|---|---|---|
| Entities.Respawn | src/Game.cpp:306-310 | a caught or missed tomato reappears at a whole-pixel point with x in [100, 699] and y in [550, 749], i.e. `100 + rand() % 600`, `550 + rand() % 200` |
| Entities.RespawnCoversBand | src/Game.cpp:308-309 | every whole-pixel point of that band is some respawn, so the band is exactly the range of the respawn |
| Entities.StartLayout | src/Game.cpp:170-176 | the start layout activates every slot, puts slot i at height 550 + 150·i and gives it a column in [100, 699] |
| Entities.Init | src/Game.cpp:85-93 | before the first frame both counters are 0, the game is on, no explosion is shown, no key is held, and every tomato is active at height 550 or more |
| Collision.CollidesIffBoxesOverlap | src/Game.cpp:273-290 | the catch test (centres strictly closer than 32+48 on both axes) holds exactly when the tomato's and the sheep's boxes overlap with positive area |
| Collision.CollidesSymmetric | src/Game.cpp:288-289 | the catch test gives the same answer with the two positions swapped |
| Collision.CollisionThreshold | src/Game.cpp:288-290 | positions that coincide collide; positions exactly 80 apart on one axis do not; positions strictly closer than 80 on one axis (aligned on the other) do |
| Input.KeyCallback | src/Game.cpp:409-421 | a press marks the key held, a release clears it, a repeat keeps it, no other key changes, and only an Escape press asks the window to close; nothing else in the game changes |
| Input.PressThenRelease | src/Game.cpp:413-420 | press then release of a key that was not held restores the key table; pressing twice is the same as pressing once |
| Input.ProcessInput | src/Game.cpp:475-485 | without D or A the sheep stays put; D applies the sprite's right move, A its left move, and with both held the right move comes first |
| Input.OnlyMoveKeysMatter | src/Game.cpp:477-484 | key tables that agree on D and A move the sheep the same way |
| Input.SlideMoves | src/Game.cpp:475-485 | for a sprite moving at a constant speed, D moves speed·elapsed right, A the same left, both or neither leave the sheep in place, and its row never changes |
| Explosions.TickExplosion | src/Game.cpp:259-267 | the countdown only runs while the explosion is shown with time left, then loses exactly `elapsed`; the explosion is hidden exactly when no time is left; it is never shown again by the countdown and never moves |
| Explosions.HiddenStaysHidden | src/Game.cpp:260-267 | a hidden explosion is left untouched by any number of frames |
| Explosions.ExplosionLifetime | src/Game.cpp:259-267 | over a run of frames of non-negative length, an explosion shown with t seconds left is still shown exactly when the frames add up to less than t, and then t minus that sum is left |
| Frame.Fall | src/Game.cpp:282-284 | a falling tomato keeps its column and drops by exactly 200·elapsed |
| Frame.FallSlot | src/Game.cpp:280-338 | per slot: an inactive slot changes nothing. After falling, a caught tomato adds exactly 1 to the catch count, shows the explosion for 0.2 s where it was hit, respawns, and is not missed. An uncaught tomato strictly below -50 adds exactly 1 to the misses and then either ends the game (staying where it fell) or respawns. Otherwise it keeps its fallen position. No other slot, the sheep or the keys change |
| Frame.CatchExcludesMiss | src/Game.cpp:306-314 | a tomato caught in a frame is never counted as missed in that frame, although the miss test runs after the catch |
| Frame.FallFrom | src/Game.cpp:278-340 | the slot loop, run from slot i on, adds to the catch count exactly the number of remaining active slots whose fallen tomato overlaps the sheep, and to the miss count exactly the number whose fallen tomato misses the sheep and lies below -50. Each slot ends at its respawn if caught, where it fell if still in play, and at its respawn if missed, unless the game is over by the end of the loop, in which case it may have stayed where it fell. It ends the game exactly when it counted a miss that brought the count to the limit; while the game stays on every active tomato ends at or above the kill line, and if the loop ended the game some tomato lies below the line |
| Frame.Step | src/Game.cpp:254-341 | while the game is over a frame only runs the explosion countdown. During play the sheep moves by the held keys first, and every slot's catch test is made against the moved sheep: the catch count grows by exactly the number of active slots whose fallen tomato overlaps the moved sheep, the miss count by exactly the number that miss it and fall below -50, and each slot ends at its respawn, its fallen position, or (missed in a frame that ended the game) where it fell. A missed slot stays where it fell exactly when the misses counted so far in the frame, itself included, bring the count to 5; otherwise it respawns. The explosion counts down before the slots fall: without a catch it is exactly the counted-down explosion, and with a catch it is shown for a fresh 0.2 s where the last caught tomato was hit. The game ends exactly when a miss in this frame reached the limit |
| Frame.NoCatches | src/Game.cpp:288-297 | the reference catch count is 0 exactly when no slot's fallen tomato is caught |
| Frame.FallFromExplosion | src/Game.cpp:290-310 | if the slot loop catches anything, the explosion ends where the last caught slot's tomato was hit, because every catch moves it and later uncaught slots leave it alone |
| Frame.FallFromMissRule | src/Game.cpp:312-336 | a missed slot stays where it fell exactly when the starting misses plus the misses of the slots up to and including it reach 5; otherwise it respawns |
| Frame.CatchesAndMissesDisjoint | src/Game.cpp:290-314 | no slot counts as both caught and missed in a frame, so the two counters together grow by at most the number of slots |
| Menu.ToScene | src/Game.cpp:492-494 | the cursor's y is flipped into scene coordinates, `600 - y`, and x is kept |
| Menu.MouseButton | src/Game.cpp:488-533 | only a left press during game over is handled. A hit on the RESTART box (edges included) turns the game back on with both counters 0 and the start layout of the tomatoes, keeping sheep, keys and explosion. A hit on the EXIT box asks the window to close and changes nothing else. A click outside both boxes changes nothing |
| Menu.ButtonsDisjoint | src/Game.cpp:187-195 | no point is on both the RESTART and the EXIT box, so one click cannot both restart and exit |
| Menu.RestartBoxInWindow | src/Game.cpp:494-501 | in the cursor's coordinates the RESTART button spans x in [325.24, 474.76] and y in [361.52, 398.48] |
| Menu.RestartMatchesStart | src/Game.cpp:503-515 | a restart sets the tomatoes, the counters and the flag exactly as at start-up, given the same column draws |
| Session.InitSatisfiesInv | src/Game.cpp:170-176 | the invariant holds before the first frame |
| Session.StepPreservesInv | src/Game.cpp:325-327 | every frame keeps the invariant. The invariant says: game over exactly when misses ≥ 5; misses ≤ 6; a shown explosion has time left; all slots are active; every tomato is at or above the kill line during play; and some tomato is below it after game over |
| Session.Apply | src/Game.cpp:251-257 | every event (frame, key, click) keeps the invariant; every event except a RESTART hit leaves both counters at least as high, and a RESTART hit resets them and the flag |
| Session.Run | src/Game.cpp:234-252 | the invariant holds after any sequence of events |
| Session.RunMonotone | src/Game.cpp:296-327 | over any sequence of events without a RESTART click both counters only grow and game over stays on |
| Session.FrozenWhileOver | src/Game.cpp:269-271 | after game over a frame moves neither the tomatoes nor the sheep and changes neither counter, so no further miss is counted until a restart |
| Session.BothMissed | src/Game.cpp:283-337 | two tomatoes in column 100, no higher than 700, with the sheep standing still at its start, are both missed in one four-second frame; while the game stays on they come back to the top of the band |
| Session.MissesCanExceedLimit | src/Game.cpp:278-340 | three long frames from the start, with both tomatoes missed in each, take the miss count to 6 = MAX_MISSED - 1 + NUM_TOMATOES, past the limit of 5 |

## Left out

- Window, context and loader setup, shader compilation, texture loading, drawing and buffer swaps: graphics plumbing with no game rule in it.
- Frame pacing and the clock: the length of a frame is the `elapsed` input of `Frame.Step`.
- Window titles: the counters are formatted into the title, but the title never feeds back into the game.
- `rand()`: its results are inputs (`Entities.Roll`, the `xDraws` of a restart), taken as any non-negative integers with the `% 600` / `% 200` written out. One roll per slot per frame stands for the values of the shared random stream. A slot draws at most once per frame, because catch and miss exclude each other.
- The sprite class (its `moveRight`, `moveLeft`, animation and drawing) is not part of this model. Its moves are the two functions of `Input.Mover`, and `Input.Slide` is one concrete constant-speed instance.
- 32-bit float rounding: positions, button sizes and times are exact reals. For example, the RESTART half-width is exactly 74.76.
- 32-bit wrap-around of the counters: they are unbounded naturals. The catch count would need more than two billion catches to wrap.
- Key codes outside [0, 1024): the key table is indexed without a bounds check, so the model requires a valid index.
- The sprites' depth values: they only order the drawing.
- Stopping the loop: `Session.Run` keeps applying events after a close is requested, while the program finishes the current loop iteration and then exits. Every state the program reaches is a state of the model, so the invariant still covers it.
