/**
 * What one tick of the simulation does to its population, as functions on
 * the subjects' snapshots, pass by pass: the wall pass, the pairwise
 * collision pass and the move pass. The class Simulations.Simulation runs
 * the same passes in place and is specified by these functions.
 */
module TickPasses {
  import opened Geometry
  import opened Subjects
  import H = HealthStates

  /**
   * The kinematic answer to a collision: the new position and velocity of both
   * subjects of an overlapping pair, from their positions, velocities and radii.
   * The program computes it with trigonometry (the elastic collision followed by
   * the overlap correction); here it is an arbitrary function value.
   */
  type Response = (Motion, int, Motion, int) -> (Motion, Motion)

  /**
   * `subject_collision` on one pair. An overlapping pair with an infected
   * member has `infect()` called on both; the motions of an overlapping pair
   * are rewritten by the response; a pair that does not overlap is left alone.
   */
  function Collide(a: Snapshot, b: Snapshot, response: Response): (r: (Snapshot, Snapshot))
    ensures !Overlaps(a.motion, a.radius, b.motion, b.radius) ==> r == (a, b)
    ensures Overlaps(a.motion, a.radius, b.motion, b.radius) ==>
              (r.0.motion, r.1.motion) == response(a.motion, a.radius, b.motion, b.radius)
    ensures Overlaps(a.motion, a.radius, b.motion, b.radius) && (a.health.infected || b.health.infected) ==>
              r.0.health == H.Infect(a.health) && r.1.health == H.Infect(b.health)
    ensures !a.health.infected && !b.health.infected ==> r.0.health == a.health && r.1.health == b.health
    ensures Overlaps(a.motion, a.radius, b.motion, b.radius) && a.health.infected && !b.health.immune ==>
              r.1.health.infected
    ensures Overlaps(a.motion, a.radius, b.motion, b.radius) && b.health.infected && !a.health.immune ==>
              r.0.health.infected
    ensures r.0.radius == a.radius && r.1.radius == b.radius
    ensures r.0.strategy == a.strategy && r.1.strategy == b.strategy
    ensures CollisionOutcome(a, r.0) && CollisionOutcome(b, r.1)
  {
    if !Overlaps(a.motion, a.radius, b.motion, b.radius) then (a, b)
    else
      var (ha, hb) :=
        if a.health.infected || b.health.infected then (H.Infect(a.health), H.Infect(b.health))
        else (a.health, b.health);
      var (ma, mb) := response(a.motion, a.radius, b.motion, b.radius);
      (a.(motion := ma, health := ha), b.(motion := mb, health := hb))
  }

  /**
   * What the collision pass may do to one subject, whatever pairs it runs
   * through: radius and strategy stay, immunity and its countdown stay, an
   * infected subject stays infected, and a consistent health state stays
   * consistent. Only the motion is free.
   */
  ghost predicate CollisionOutcome(before: Snapshot, after: Snapshot) {
    && after.radius == before.radius
    && after.strategy == before.strategy
    && after.health.immune == before.health.immune
    && after.health.immuneDuration == before.health.immuneDuration
    && (before.health.infected ==> after.health.infected)
    && (H.Consistent(before.health) ==> H.Consistent(after.health))
  }

  /** The partners of the subject at index `i`: every index below it, in order. */
  function Row(i: nat): seq<(nat, nat)> {
    seq(i, j requires 0 <= j < i => (i, j))
  }

  /**
   * The pairs the collision pass visits for `n` subjects, in the order it visits
   * them: the last subject is taken off the list and paired with every subject
   * still on it, from the first; then the same for the new last one, and so on.
   */
  function Pairs(n: nat): (r: seq<(nat, nat)>)
    ensures forall k :: 0 <= k < |r| ==> r[k].1 < r[k].0 < n
  {
    if n == 0 then [] else Row(n - 1) + Pairs(n - 1)
  }

  /**
   * The collision pass meets every unordered pair of distinct subjects: a pair
   * of indices is visited iff the two differ and are below `n` (larger first).
   */
  lemma {:induction false} PairsCoverAll(n: nat)
    ensures forall i: nat, j: nat :: (i, j) in Pairs(n) <==> j < i < n
  {
    if n > 0 {
      PairsCoverAll(n - 1);
      var row, rest := Row(n - 1), Pairs(n - 1);
      forall i: nat, j: nat | j < i < n
        ensures (i, j) in row + rest
      {
        if i == n - 1 {
          assert row[j] == (i, j);
        } else {
          assert (i, j) in rest;
        }
      }
    }
  }

  /** ... and meets each of them only once. */
  lemma {:induction false} PairsNoRepeats(n: nat)
    ensures forall p, q :: 0 <= p < q < |Pairs(n)| ==> Pairs(n)[p] != Pairs(n)[q]
  {
    if n > 0 {
      PairsNoRepeats(n - 1);
      var row, rest := Row(n - 1), Pairs(n - 1);
      var all := row + rest;
      forall p, q | 0 <= p < q < |all|
        ensures all[p] != all[q]
      {
        if q < |row| {
          assert all[p] == (n - 1, p) && all[q] == (n - 1, q);
        } else if p >= |row| {
          assert all[p] == rest[p - |row|] && all[q] == rest[q - |row|];
        } else {
          assert all[p].0 == n - 1 && all[q] == rest[q - |row|];
        }
      }
    }
  }

  /** There are n(n-1)/2 visits in all. */
  lemma {:induction false} PairsCount(n: nat)
    ensures 2 * |Pairs(n)| == n * (n - 1)
  {
    if n > 0 {
      PairsCount(n - 1);
      assert |Pairs(n)| == (n - 1) + |Pairs(n - 1)|;
      assert (n - 1) * (n - 2) + 2 * (n - 1) == n * (n - 1) by {
        assert n * (n - 1) == (n - 1) * (n - 1) + (n - 1);
        assert (n - 1) * (n - 2) == (n - 1) * (n - 1) - (n - 1);
      }
    }
  }

  /**
   * One visit of the collision pass: the pair collides and the others keep
   * their state. (A pair that does not name two subjects is skipped; the pass
   * never visits one, by PairsCoverAll.)
   */
  function CollideAt(s: seq<Snapshot>, p: (nat, nat), response: Response): (r: seq<Snapshot>)
    ensures |r| == |s|
  {
    if p.0 < |s| && p.1 < |s| && p.0 != p.1 then
      var c := Collide(s[p.0], s[p.1], response);
      s[p.0 := c.0][p.1 := c.1]
    else s
  }

  /** The visits in order, each seeing what the earlier ones did. */
  function FoldPairs(s: seq<Snapshot>, pairs: seq<(nat, nat)>, response: Response): (r: seq<Snapshot>)
    ensures |r| == |s|
    decreases |pairs|
  {
    if pairs == [] then s
    else FoldPairs(CollideAt(s, pairs[0], response), pairs[1..], response)
  }

  /** Whatever the pairs, every subject ends in a collision outcome of how it started. */
  lemma {:induction false} FoldPairsOutcome(s: seq<Snapshot>, pairs: seq<(nat, nat)>, response: Response)
    ensures forall k :: 0 <= k < |s| ==> CollisionOutcome(s[k], FoldPairs(s, pairs, response)[k])
    decreases |pairs|
  {
    if pairs != [] {
      var p := pairs[0];
      var t := CollideAt(s, p, response);
      FoldPairsOutcome(t, pairs[1..], response);
      forall k | 0 <= k < |s|
        ensures CollisionOutcome(s[k], t[k])
      {
        if p.0 < |s| && p.1 < |s| && p.0 != p.1 {
          var c := Collide(s[p.0], s[p.1], response);
          if k == p.1 {
            assert t[k] == c.1;
          } else if k == p.0 {
            assert t[k] == c.0;
          }
        }
      }
    }
  }

  /** Visiting `a` and then `b` is visiting `a + b`. */
  lemma {:induction false} FoldPairsAppend(s: seq<Snapshot>, a: seq<(nat, nat)>, b: seq<(nat, nat)>, response: Response)
    ensures FoldPairs(s, a + b, response) == FoldPairs(FoldPairs(s, a, response), b, response)
    decreases |a|
  {
    if a == [] {
      assert a + b == b;
    } else {
      assert (a + b)[0] == a[0] && (a + b)[1..] == a[1..] + b;
      FoldPairsAppend(CollideAt(s, a[0], response), a[1..], b, response);
    }
  }

  /** The pass over `i + 1` subjects is the row of subject `i`, then the pass over the first `i`. */
  lemma PairsStep(s: seq<Snapshot>, i: nat, response: Response)
    ensures FoldPairs(s, Pairs(i + 1), response) == FoldPairs(FoldPairs(s, Row(i), response), Pairs(i), response)
  {
    FoldPairsAppend(s, Row(i), Pairs(i), response);
  }

  /** The pass seen from its `k`-th visit: the visits before it, that visit, the visits after it. */
  lemma {:induction false} FoldPairsAt(s: seq<Snapshot>, pairs: seq<(nat, nat)>, response: Response, k: nat)
    requires k < |pairs|
    ensures var t := FoldPairs(s, pairs[..k], response);
            FoldPairs(s, pairs, response) == FoldPairs(CollideAt(t, pairs[k], response), pairs[k + 1..], response)
  {
    var t := FoldPairs(s, pairs[..k], response);
    assert pairs == pairs[..k] + pairs[k..];
    FoldPairsAppend(s, pairs[..k], pairs[k..], response);
    assert pairs[k..][0] == pairs[k] && pairs[k..][1..] == pairs[k + 1..];
  }

  /** When the pass reaches pair `p` of `t`, the two overlap and one of them is infected. */
  predicate InfectiousContact(t: seq<Snapshot>, p: (nat, nat))
    requires p.0 < |t| && p.1 < |t|
  {
    && Overlaps(t[p.0].motion, t[p.0].radius, t[p.1].motion, t[p.1].radius)
    && (t[p.0].health.infected || t[p.1].health.infected)
  }

  /**
   * Infection within one collision pass: if, when the pass reaches a pair, the
   * two overlap and one of them is infected, then at the end of the pass each
   * of the two is infected unless it was immune.
   */
  lemma {:induction false} ContactInfects(s: seq<Snapshot>, pairs: seq<(nat, nat)>, response: Response, k: nat)
    requires k < |pairs| && pairs[k].0 < |s| && pairs[k].1 < |s| && pairs[k].0 != pairs[k].1
    requires InfectiousContact(FoldPairs(s, pairs[..k], response), pairs[k])
    ensures !FoldPairs(s, pairs[..k], response)[pairs[k].0].health.immune ==>
              FoldPairs(s, pairs, response)[pairs[k].0].health.infected
    ensures !FoldPairs(s, pairs[..k], response)[pairs[k].1].health.immune ==>
              FoldPairs(s, pairs, response)[pairs[k].1].health.infected
  {
    var t := FoldPairs(s, pairs[..k], response);
    var p := pairs[k];
    var c := Collide(t[p.0], t[p.1], response);
    assert !t[p.0].health.immune ==> c.0.health.infected;
    assert !t[p.1].health.immune ==> c.1.health.infected;
    var u := CollideAt(t, p, response);
    assert u[p.0] == c.0 && u[p.1] == c.1;
    FoldPairsAt(s, pairs, response, k);
    var r := FoldPairs(u, pairs[k + 1..], response);
    FoldPairsOutcome(u, pairs[k + 1..], response);
    assert CollisionOutcome(u[p.0], r[p.0]) && CollisionOutcome(u[p.1], r[p.1]);
  }

  /** The wall rule applied to one subject. */
  function Bounced(s: Snapshot, width: int, height: int): Snapshot {
    s.(motion := WallBounce(s.motion, s.radius, width, height))
  }

  /** The wall pass: every subject bounced off the walls on its own. */
  function AfterWalls(states: seq<Snapshot>, width: int, height: int): (r: seq<Snapshot>)
    ensures |r| == |states|
  {
    seq(|states|, k requires 0 <= k < |states| => Bounced(states[k], width, height))
  }

  /**
   * After the wall pass every subject sits at least its radius from the near
   * walls, and at least its radius from the far walls whenever it fits in the
   * arena; radius, health and strategy are untouched.
   */
  lemma AfterWallsInArena(states: seq<Snapshot>, width: int, height: int)
    ensures forall k :: 0 <= k < |states| ==>
              var r := AfterWalls(states, width, height)[k];
              && r.radius == states[k].radius && r.health == states[k].health
              && r.strategy == states[k].strategy
              && r.motion.x >= r.radius as real && r.motion.y >= r.radius as real
              && (width >= 2 * r.radius ==> r.motion.x <= (width - r.radius) as real)
              && (height >= 2 * r.radius ==> r.motion.y <= (height - r.radius) as real)
  {
  }

  /** The collision pass over the whole population. */
  function AfterCollisions(states: seq<Snapshot>, response: Response): (r: seq<Snapshot>)
    ensures |r| == |states|
  {
    FoldPairs(states, Pairs(|states|), response)
  }

  /** What the whole collision pass may do to each subject. */
  lemma AfterCollisionsOutcome(states: seq<Snapshot>, response: Response)
    ensures forall k :: 0 <= k < |states| ==> CollisionOutcome(states[k], AfterCollisions(states, response)[k])
  {
    FoldPairsOutcome(states, Pairs(|states|), response);
  }

  /** Move one subject, then give it its one state advance of the tick. */
  function MovedAndAdvanced(s: Snapshot, dt: real): (r: Snapshot)
    ensures r.health == H.Advance(s.health)
    ensures r.radius == s.radius && r.strategy == s.strategy
  {
    var m := Moved(s, dt);
    m.(health := H.Advance(m.health))
  }

  /** The move pass: every subject moved by its strategy, then advanced. */
  function AfterMoves(states: seq<Snapshot>, dt: real): (r: seq<Snapshot>)
    ensures |r| == |states|
  {
    seq(|states|, k requires 0 <= k < |states| => MovedAndAdvanced(states[k], dt))
  }

  /**
   * In the move pass every subject gets its new position from its strategy and
   * exactly one state advance: the infected countdown if it is infected, else
   * the immune countdown if it is immune, else none.
   */
  lemma AfterMovesAdvanceOnce(states: seq<Snapshot>, dt: real)
    ensures forall k :: 0 <= k < |states| ==>
              var r := AfterMoves(states, dt)[k];
              && r.motion == Moved(states[k], dt).motion
              && r.health == H.Advance(states[k].health)
              && r.radius == states[k].radius && r.strategy == states[k].strategy
  {
  }

  /** The subjects' states at the end of a tick: walls, then collisions, then moves. */
  function AfterTick(states: seq<Snapshot>, width: int, height: int, response: Response, dt: real): (r: seq<Snapshot>)
    ensures |r| == |states|
  {
    AfterMoves(AfterCollisions(AfterWalls(states, width, height), response), dt)
  }

  ghost predicate AllConsistent(states: seq<Snapshot>) {
    forall k :: 0 <= k < |states| ==> H.Consistent(states[k].health)
  }

  /**
   * A tick keeps every subject's radius and strategy, and keeps the health
   * invariant of every subject.
   */
  lemma TickKeepsInvariants(states: seq<Snapshot>, width: int, height: int, response: Response, dt: real)
    ensures var r := AfterTick(states, width, height, response, dt);
            forall k :: 0 <= k < |r| ==>
              && r[k].radius == states[k].radius && r[k].strategy == states[k].strategy
              && (H.Consistent(states[k].health) ==> H.Consistent(r[k].health))
    ensures AllConsistent(states) ==> AllConsistent(AfterTick(states, width, height, response, dt))
  {
    var walled := AfterWalls(states, width, height);
    AfterCollisionsOutcome(walled, response);
    var collided := AfterCollisions(walled, response);
    AfterMovesAdvanceOnce(collided, dt);
    forall k | 0 <= k < |states|
      ensures H.Consistent(states[k].health) ==> H.Consistent(AfterTick(states, width, height, response, dt)[k].health)
    {
      assert walled[k].health == states[k].health;
      assert CollisionOutcome(walled[k], collided[k]);
    }
  }

  /** The number of infected subjects, counted front to back as the move pass counts them. */
  function CountInfected(states: seq<Snapshot>): (n: nat)
    ensures n <= |states|
  {
    if states == [] then 0
    else CountInfected(states[..|states| - 1]) + (if states[|states| - 1].health.infected then 1 else 0)
  }

  /** Counting one more subject of the list. */
  lemma CountInfectedStep(states: seq<Snapshot>, k: nat)
    requires k < |states|
    ensures CountInfected(states[..k + 1]) == CountInfected(states[..k]) + (if states[k].health.infected then 1 else 0)
  {
    assert states[..k + 1][..k] == states[..k];
  }

  /** The count is the number of indices whose subject is infected. */
  lemma {:induction false} CountInfectedIsCardinality(states: seq<Snapshot>)
    ensures CountInfected(states) == |set k | 0 <= k < |states| && states[k].health.infected|
  {
    if states != [] {
      var n := |states| - 1;
      var front := states[..n];
      CountInfectedIsCardinality(front);
      var before := set k | 0 <= k < |front| && front[k].health.infected;
      var all := set k | 0 <= k < |states| && states[k].health.infected;
      if states[n].health.infected {
        assert all == before + {n};
      } else {
        assert all == before;
      }
    }
  }

  /** The collision pass never cures anyone, so it never lowers the infected count. */
  lemma {:induction false} CollisionsNeverLowerCount(before: seq<Snapshot>, after: seq<Snapshot>)
    requires |before| == |after|
    requires forall k :: 0 <= k < |before| ==> CollisionOutcome(before[k], after[k])
    ensures CountInfected(before) <= CountInfected(after)
    decreases |before|
  {
    if before != [] {
      var n := |before| - 1;
      CollisionsNeverLowerCount(before[..n], after[..n]);
    }
  }
}
