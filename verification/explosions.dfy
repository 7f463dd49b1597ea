/** The countdown of the catch effect, run once per frame whether or not
    the game is over. */
module Explosions {
  import opened Entities

  /** One frame of the countdown: a visible explosion with time left loses
      `elapsed` seconds and disappears once none is left. */
  function TickExplosion(e: Explosion, elapsed: real): (r: Explosion)
    ensures r.pos == e.pos
    ensures r.visible ==> e.visible
    ensures e.visible && e.timer > 0.0 ==>
              r.timer == e.timer - elapsed && (r.visible <==> r.timer > 0.0)
    ensures !(e.visible && e.timer > 0.0) ==> r == e
  {
    if e.visible && e.timer > 0.0 then
      var t := e.timer - elapsed;
      if t <= 0.0 then e.(timer := t, visible := false) else e.(timer := t)
    else
      e
  }

  function Sum(ds: seq<real>): real {
    if |ds| == 0 then 0.0 else ds[0] + Sum(ds[1..])
  }

  /** The countdown over a run of frames with the given lengths. */
  function Ticks(e: Explosion, ds: seq<real>): Explosion
    decreases |ds|
  {
    if |ds| == 0 then e else Ticks(TickExplosion(e, ds[0]), ds[1..])
  }

  predicate NonNegative(ds: seq<real>) {
    forall k :: 0 <= k < |ds| ==> ds[k] >= 0.0
  }

  lemma {:induction false} SumNonNegative(ds: seq<real>)
    requires NonNegative(ds)
    ensures Sum(ds) >= 0.0
  {
    if |ds| > 0 {
      SumNonNegative(ds[1..]);
    }
  }

  /** A hidden explosion stays hidden and unchanged however long time runs. */
  lemma {:induction false} HiddenStaysHidden(e: Explosion, ds: seq<real>)
    requires !e.visible
    ensures Ticks(e, ds) == e
    decreases |ds|
  {
    if |ds| > 0 {
      HiddenStaysHidden(TickExplosion(e, ds[0]), ds[1..]);
    }
  }

  /** An explosion shown with `timer` seconds left is still shown after a run
      of frames exactly when the frames add up to less than `timer`, and then
      its remaining time is what is left of it. */
  lemma {:induction false} ExplosionLifetime(e: Explosion, ds: seq<real>)
    requires e.visible && e.timer > 0.0
    requires NonNegative(ds)
    ensures Ticks(e, ds).pos == e.pos
    ensures Ticks(e, ds).visible <==> Sum(ds) < e.timer
    ensures Ticks(e, ds).visible ==> Ticks(e, ds).timer == e.timer - Sum(ds)
    decreases |ds|
  {
    if |ds| > 0 {
      var e1 := TickExplosion(e, ds[0]);
      assert NonNegative(ds[1..]) by {
        forall k | 0 <= k < |ds[1..]| ensures ds[1..][k] >= 0.0 {
          assert ds[1..][k] == ds[k + 1];
        }
      }
      if e1.visible {
        ExplosionLifetime(e1, ds[1..]);
      } else {
        HiddenStaysHidden(e1, ds[1..]);
        SumNonNegative(ds[1..]);
      }
    }
  }
}
