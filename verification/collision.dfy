/** The catch test between one tomato and the sheep: an axis-aligned box
    overlap computed from the distance between centres. */
module Collision {
  import opened Entities

  /** Half of the tomato sprite's 64-pixel side. */
  const TOMATO_HALF: real := 32.0
  /** Half-extent of the sheep's hit box, smaller than its 192-pixel sprite. */
  const SHEEP_HALF: real := 48.0
  /** Centres closer than this on an axis overlap on that axis. */
  const REACH: real := TOMATO_HALF + SHEEP_HALF

  function Abs(v: real): (r: real)
    ensures r >= 0.0
    ensures r == v || r == -v
  {
    if v < 0.0 then -v else v
  }

  /** The test the frame loop runs: strictly closer than REACH on both axes. */
  predicate Collides(tomato: Pos, sheep: Pos) {
    Abs(tomato.x - sheep.x) < REACH && Abs(tomato.y - sheep.y) < REACH
  }

  /** Reference definition: the closed intervals [c1-h1, c1+h1] and
      [c2-h2, c2+h2] share more than a boundary point, i.e. the open
      intervals (c1-h1, c1+h1) and (c2-h2, c2+h2) meet. */
  predicate IntervalsOverlap(c1: real, h1: real, c2: real, h2: real) {
    c1 - h1 < c2 + h2 && c2 - h2 < c1 + h1
  }

  /** Reference definition: the tomato's box and the sheep's box overlap
      with positive area. */
  predicate BoxesOverlap(tomato: Pos, sheep: Pos) {
    && IntervalsOverlap(tomato.x, TOMATO_HALF, sheep.x, SHEEP_HALF)
    && IntervalsOverlap(tomato.y, TOMATO_HALF, sheep.y, SHEEP_HALF)
  }

  /** The distance test is exactly box overlap with positive area. */
  lemma CollidesIffBoxesOverlap(tomato: Pos, sheep: Pos)
    ensures Collides(tomato, sheep) <==> BoxesOverlap(tomato, sheep)
  {
  }

  /** The test does not depend on which position is the tomato's. */
  lemma CollidesSymmetric(a: Pos, b: Pos)
    ensures Collides(a, b) <==> Collides(b, a)
  {
  }

  /** Entities at the same place collide; entities exactly REACH (80 pixels)
      apart on one axis, aligned on the other, do not: touching edges do not
      count as a catch. Anything strictly inside that distance does. */
  lemma CollisionThreshold(p: Pos, d: real)
    ensures Collides(p, p)
    ensures !Collides(Pos(p.x + REACH, p.y), p) && !Collides(Pos(p.x - REACH, p.y), p)
    ensures !Collides(Pos(p.x, p.y + REACH), p) && !Collides(Pos(p.x, p.y - REACH), p)
    ensures Abs(d) < REACH ==> Collides(Pos(p.x + d, p.y), p) && Collides(Pos(p.x, p.y + d), p)
  {
  }
}
