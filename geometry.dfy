/**
 * Positions, velocities and the arena walls.
 *
 * Coordinates are exact reals here, where the program uses doubles; the wall
 * rule only adds, subtracts, negates and compares, so over reals it is the
 * program's rule without rounding. Radii and arena dimensions are integers,
 * as in the program.
 */
module Geometry {

  /** Where a subject is (`x`, `y`) and how fast it goes per unit of time (`dx`, `dy`). */
  datatype Motion = Motion(x: real, y: real, dx: real, dy: real)

  /**
   * A movement strategy: the next coordinate from a coordinate, the velocity
   * along that axis and the time step. The program chooses it per subject and
   * its implementations are not part of this model, so it is left as an
   * arbitrary function value.
   */
  type MovementStrategy = (real, real, real) -> real

  function Max(a: real, b: real): real { if a < b then b else a }

  function Min(a: real, b: real): real { if a < b then a else b }

  /**
   * The position correction of one axis: first pulled back inside the far wall,
   * then pushed off the near wall, so the near wall wins when the arena is
   * narrower than the subject.
   */
  function Clamp(p: real, radius: int, dim: int): (q: real)
    ensures q == Max(radius as real, Min(p, (dim - radius) as real))
    ensures q >= radius as real
    ensures dim >= 2 * radius ==> q <= (dim - radius) as real
    ensures radius as real <= p <= (dim - radius) as real ==> q == p
  {
    var pulled := if p + radius as real > dim as real then (dim - radius) as real else p;
    if pulled - radius as real < 0.0 then radius as real else pulled
  }

  /**
   * The velocity correction of one axis: reversed exactly when one more step
   * at this velocity would take the subject's edge past either wall.
   */
  function Reflect(p: real, v: real, radius: int, dim: int): (w: real)
    ensures p - radius as real + v < 0.0 || p + radius as real + v > dim as real ==> w == -v
    ensures 0.0 <= p - radius as real + v && p + radius as real + v <= dim as real ==> w == v
  {
    if p - radius as real + v < 0.0 || p + radius as real + v > dim as real then v * -1.0 else v
  }

  /**
   * `wall_collision`: velocities are reflected from the position before any
   * correction, and the position is put back inside the arena.
   */
  function WallBounce(m: Motion, radius: int, width: int, height: int): (r: Motion)
    ensures r.x >= radius as real && r.y >= radius as real
    ensures width >= 2 * radius ==> r.x <= (width - radius) as real
    ensures height >= 2 * radius ==> r.y <= (height - radius) as real
    ensures radius as real <= m.x <= (width - radius) as real ==> r.x == m.x
    ensures radius as real <= m.y <= (height - radius) as real ==> r.y == m.y
    ensures r.dx == m.dx || r.dx == -m.dx
    ensures r.dy == m.dy || r.dy == -m.dy
  {
    Motion(Clamp(m.x, radius, width), Clamp(m.y, radius, height),
           Reflect(m.x, m.dx, radius, width), Reflect(m.y, m.dy, radius, height))
  }

  /**
   * The overlap test of a pair: the distance between the centres is below the
   * sum of the radii. Compared squared, which over reals is the same test
   * because a distance is never negative.
   */
  predicate Overlaps(a: Motion, ra: int, b: Motion, rb: int) {
    && ra + rb > 0
    && (a.x - b.x) * (a.x - b.x) + (a.y - b.y) * (a.y - b.y) < ((ra + rb) * (ra + rb)) as real
  }

  /**
   * The squared test is the program's test: for the distance `d` between the
   * centres (the non-negative square root of the squared distance), the pair
   * overlaps exactly when `d` is below the sum of the radii. The conjunct on
   * the sum of the radii stands for `d >= 0`: no distance is below a sum that
   * is zero or negative.
   */
  lemma OverlapsIsDistanceTest(a: Motion, ra: int, b: Motion, rb: int, d: real)
    requires d >= 0.0 && d * d == (a.x - b.x) * (a.x - b.x) + (a.y - b.y) * (a.y - b.y)
    ensures Overlaps(a, ra, b, rb) <==> d < (ra + rb) as real
  {
    var sum := (ra + rb) as real;
    assert ((ra + rb) * (ra + rb)) as real == sum * sum;
    if d < sum {
      assert d * d <= d * sum;
      assert d * sum < sum * sum;
    } else if sum > 0.0 {
      assert d * d >= d * sum;
      assert d * sum >= sum * sum;
    }
  }
}
