/**
 * The simulation engine: the arena, the population and the tick.
 *
 * The tick changes the subjects in place, pass by pass, in the program's
 * order; each pass is proved to compute the corresponding function of the
 * module TickPasses, and the tick as a whole to compute TickPasses.AfterTick.
 * The statistics collaborator is a log of the reports it would receive.
 */
module Simulations {
  import opened Geometry
  import opened Subjects
  import opened TickPasses
  import H = HealthStates

  /** Ticks between two reports to the statistics collaborator. */
  const REPORT_INTERVAL: int := 30

  /** The snapshots of a list of subjects, in its order. */
  function Snapshots(ss: seq<Subject>): (r: seq<Snapshot>)
    reads ss
    ensures |r| == |ss|
  {
    seq(|ss|, k reads ss requires 0 <= k < |ss| => ss[k].Snap())
  }

  /** One call of the statistics collaborator: sample index and infected count. */
  datatype Report = Report(index: int, infected: int)

  class Simulation {
    const width: int
    const height: int
    /** Host milliseconds per tick; the simulated time step is a tenth of it. */
    const tickSpeed: int
    /** The trigonometric part of `subject_collision`, see TickPasses.Response. */
    const response: Response
    var subjects: seq<Subject>
    var counter: int
    var reports: seq<Report>

    /** The population holds each subject once. */
    ghost predicate Distinct()
      reads this`subjects
    {
      forall i, j :: 0 <= i < j < |subjects| ==> subjects[i] != subjects[j]
    }

    /**
     * The population holds each subject once, and the statistics log is in
     * step with the tick counter (ReportsNumbered).
     */
    ghost predicate Valid()
      reads this`subjects, this`counter, this`reports
    {
      Distinct() && ReportsNumbered(counter, reports)
    }

    function States(): (r: seq<Snapshot>)
      reads this`subjects, subjects
      ensures |r| == |subjects|
    {
      Snapshots(subjects)
    }

    /** Every subject's health state satisfies the health invariant. */
    ghost predicate HealthConsistent()
      reads this`subjects, subjects
    {
      AllConsistent(States())
    }

    /** The simulated time step of one tick: a tenth of the host's tick length. */
    function Dt(): (dt: real)
      ensures dt * 10.0 == tickSpeed as real
    {
      tickSpeed as real / 10.0
    }

    constructor (width: int, height: int, tickSpeed: int, response: Response)
      ensures Valid()
      ensures this.width == width && this.height == height && this.tickSpeed == tickSpeed
      ensures this.response == response
      ensures subjects == [] && counter == 0 && reports == []
    {
      this.width := width;
      this.height := height;
      this.tickSpeed := tickSpeed;
      this.response := response;
      subjects := [];
      counter := 0;
      reports := [];
    }

    /** `add_subject`: the population takes the subject as its new last member. */
    method AddSubject(s: Subject)
      requires Valid() && s !in subjects
      modifies this
      ensures Valid()
      ensures subjects == old(subjects) + [s]
      ensures counter == old(counter) && reports == old(reports)
    {
      subjects := subjects + [s];
    }

    /**
     * `wall_collision`: the subject bounced off the walls (Geometry.WallBounce);
     * no other subject is touched, and radius, health and strategy stay.
     */
    method WallCollision(s: Subject)
      modifies s
      ensures s.Snap() == Bounced(old(s.Snap()), width, height)
    {
      ghost var start := s.Snap();
      ghost var m := start.motion;
      var r := s.radius as real;
      if s.x - r + s.dx < 0.0 || s.x + r + s.dx > width as real {
        s.SetDx(s.dx * -1.0);
      }
      if s.y - r + s.dy < 0.0 || s.y + r + s.dy > height as real {
        s.SetDy(s.dy * -1.0);
      }
      ghost var reflected := m.(dx := Reflect(m.x, m.dx, s.radius, width), dy := Reflect(m.y, m.dy, s.radius, height));
      assert s.Snap() == start.(motion := reflected);
      if s.y + r > height as real {
        s.SetY((height - s.radius) as real);
      }
      if s.y - r < 0.0 {
        s.SetY(r);
      }
      assert s.Snap() == start.(motion := reflected.(y := Clamp(m.y, s.radius, height)));
      if s.x + r > width as real {
        s.SetX((width - s.radius) as real);
      }
      if s.x - r < 0.0 {
        s.SetX(r);
      }
    }

    /**
     * `subject_collision` on two distinct subjects: infection spreads across an
     * overlapping pair with an infected member, and the response rewrites the
     * motions of an overlapping pair (TickPasses.Collide).
     */
    method SubjectCollision(s1: Subject, s2: Subject)
      requires s1 != s2
      modifies s1, s2
      ensures (s1.Snap(), s2.Snap()) == Collide(old(s1.Snap()), old(s2.Snap()), response)
    {
      if Overlaps(s1.Kinematics(), s1.radius, s2.Kinematics(), s2.radius) {
        if s1.infected || s2.infected {
          s1.Infect();
          s2.Infect();
        }
        var (m1, m2) := response(s1.Kinematics(), s1.radius, s2.Kinematics(), s2.radius);
        s1.SetDx(m1.dx);
        s1.SetDy(m1.dy);
        s2.SetDx(m2.dx);
        s2.SetDy(m2.dy);
        s1.SetX(m1.x);
        s1.SetY(m1.y);
        s2.SetX(m2.x);
        s2.SetY(m2.y);
      }
    }

    /**
     * The first loop of `tick`: every subject goes on the collision list, in
     * order, and is bounced off the walls.
     */
    method WallPass() returns (checker: seq<Subject>)
      requires Distinct()
      modifies subjects
      ensures checker == subjects
      ensures States() == AfterWalls(old(States()), width, height)
    {
      ghost var before := States();
      checker := [];
      var k := 0;
      while k < |subjects|
        invariant 0 <= k <= |subjects|
        invariant checker == subjects[..k]
        invariant forall i :: 0 <= i < k ==> subjects[i].Snap() == Bounced(before[i], width, height)
        invariant forall i :: k <= i < |subjects| ==> subjects[i].Snap() == before[i]
      {
        checker := checker + [subjects[k]];
        WallCollision(subjects[k]);
        k := k + 1;
      }
    }

    /**
     * The collision loop of `tick`: take the last subject off the list and run
     * `subject_collision` with it and each subject left on the list, until the
     * list is empty. It visits the pairs TickPasses.Pairs, in that order.
     */
    method CollisionPass(checker: seq<Subject>)
      requires Distinct() && checker == subjects
      modifies subjects
      ensures States() == AfterCollisions(old(States()), response)
    {
      ghost var n := |subjects|;
      ghost var target := AfterCollisions(States(), response);
      var list := checker;
      // The program's index is a signed int compared with the unsigned size:
      // once it drops below zero the comparison fails and the loop ends.
      var i := |list| - 1;
      while 0 <= i < |list|
        invariant -1 <= i < n == |subjects| && list == subjects[..i + 1]
        invariant FoldPairs(States(), Pairs(i + 1), response) == target
        decreases i + 1
      {
        list := CollisionRound(list, i);
        i := i - 1;
      }
      assert Pairs(0) == [];
    }

    /**
     * One round of the collision loop: the subject at index `i`, the last on the
     * list, is taken off it and meets every subject still on it, from the
     * first. These are the visits TickPasses.Row(i), the first of the visits
     * TickPasses.Pairs(i + 1) that are still to come.
     */
    method CollisionRound(list: seq<Subject>, i: nat) returns (rest: seq<Subject>)
      requires Distinct() && i < |subjects| && list == subjects[..i + 1]
      modifies subjects
      ensures rest == subjects[..i]
      ensures FoldPairs(old(States()), Pairs(i + 1), response) == FoldPairs(States(), Pairs(i), response)
    {
      ghost var before := States();
      var current := list[i];
      rest := list[..|list| - 1];
      var j := 0;
      while j < |rest|
        invariant 0 <= j <= |rest| == i && rest == subjects[..i]
        invariant FoldPairs(before, Row(i), response) == FoldPairs(States(), Row(i)[j..], response)
      {
        CollideStep(current, rest[j], i, j);
        j := j + 1;
      }
      assert Row(i)[i..] == [];
      PairsStep(before, i, response);
    }

    /** One visit of the collision loop, as one step of TickPasses.FoldPairs. */
    method CollideStep(current: Subject, other: Subject, ghost i: nat, ghost j: nat)
      requires Distinct() && j < i < |subjects|
      requires current == subjects[i] && other == subjects[j]
      modifies current, other
      ensures States() == CollideAt(old(States()), (i, j), response)
      ensures FoldPairs(old(States()), Row(i)[j..], response) == FoldPairs(States(), Row(i)[j + 1..], response)
    {
      ghost var before := States();
      SubjectCollision(current, other);
      assert States() == CollideAt(before, (i, j), response);
      assert Row(i)[j..][0] == (i, j) && Row(i)[j..][1..] == Row(i)[j + 1..];
    }

    /**
     * The move loop of `tick`: each subject moves, is counted if it is infected,
     * and gets its one state advance. The count is taken before the subject's
     * own countdown, and moving does not change health, so it is the number of
     * subjects infected when the loop starts.
     */
    method MovePass(dt: real) returns (numberInfected: int)
      requires Distinct()
      requires forall k :: 0 <= k < |subjects| ==> subjects[k].strategy.Some?
      modifies subjects
      ensures numberInfected == CountInfected(old(States()))
      ensures States() == AfterMoves(old(States()), dt)
    {
      ghost var before := States();
      numberInfected := 0;
      var k := 0;
      while k < |subjects|
        invariant 0 <= k <= |subjects|
        invariant numberInfected == CountInfected(before[..k])
        invariant forall i :: 0 <= i < k ==> subjects[i].Snap() == MovedAndAdvanced(before[i], dt)
        invariant forall i :: k <= i < |subjects| ==> subjects[i].Snap() == before[i]
      {
        var wasInfected := MoveAndAdvance(subjects[k], dt);
        if wasInfected {
          numberInfected := numberInfected + 1;
        }
        CountInfectedStep(before, k);
        k := k + 1;
      }
      assert before[..k] == before;
    }

    /**
     * The body of the move loop for one subject: it moves, and then gets the
     * infected countdown if it is infected, else the immune countdown if it is
     * immune. The answer says whether the loop counts it.
     */
    static method MoveAndAdvance(subject: Subject, dt: real) returns (wasInfected: bool)
      requires subject.strategy.Some?
      modifies subject
      ensures wasInfected == old(subject.infected)
      ensures subject.Snap() == MovedAndAdvanced(old(subject.Snap()), dt)
    {
      subject.Move(dt);
      if subject.infected {
        wasInfected := true;
        subject.InfectedDurationCountdown();
      } else {
        wasInfected := false;
        if subject.immune {
          subject.ImmuneDurationCountdown();
        }
      }
    }

    /**
     * The three passes of `tick` over the population, in the program's order,
     * with the infected count of the move pass.
     */
    method RunPasses(dt: real) returns (numberInfected: int)
      requires Distinct()
      requires forall k :: 0 <= k < |subjects| ==> subjects[k].strategy.Some?
      modifies subjects
      ensures States() == AfterTick(old(States()), width, height, response, dt)
      ensures numberInfected == CountInfected(AfterCollisions(AfterWalls(old(States()), width, height), response))
      ensures old(HealthConsistent()) ==> HealthConsistent()
    {
      ghost var before := States();
      var checker := WallPass();
      CollisionPass(checker);
      ghost var collided := States();
      AfterCollisionsOutcome(AfterWalls(before, width, height), response);
      forall k | 0 <= k < |subjects|
        ensures subjects[k].strategy.Some?
      {
        assert collided[k] == subjects[k].Snap();
        assert CollisionOutcome(AfterWalls(before, width, height)[k], collided[k]);
        assert before[k].strategy.Some?;
      }
      numberInfected := MovePass(dt);
      TickKeepsInvariants(before, width, height, response, dt);
    }

    /**
     * `tick`: the counter goes up by one; walls, collisions and moves change the
     * subjects as TickPasses.AfterTick says; and when the new counter is a
     * multiple of 30 the statistics log gets sample counter / 30 with the number
     * of subjects infected when the move loop reached them.
     */
    method Tick()
      requires Valid()
      requires forall k :: 0 <= k < |subjects| ==> subjects[k].strategy.Some?
      modifies this, subjects
      ensures Valid() && subjects == old(subjects)
      ensures counter == old(counter) + 1
      ensures States() == AfterTick(old(States()), width, height, response, Dt())
      ensures reports == Logged(old(reports), counter,
                                CountInfected(AfterCollisions(AfterWalls(old(States()), width, height), response)))
    {
      counter := counter + 1;
      var dt := Dt();
      var numberInfected := RunPasses(dt);
      if counter % REPORT_INTERVAL == 0 {
        reports := reports + [Report(counter / REPORT_INTERVAL, numberInfected)];
      }
      LoggedNumbered(counter - 1, old(reports), numberInfected);
    }
  }

  /**
   * The statistics log after `counter` ticks: one report for every 30 ticks,
   * numbered 1, 2, 3, ... in order.
   */
  ghost predicate ReportsNumbered(counter: int, reports: seq<Report>) {
    && 0 <= counter
    && |reports| == counter / REPORT_INTERVAL
    && (forall k :: 0 <= k < |reports| ==> reports[k].index == k + 1)
  }

  /** The statistics log after the tick that brought the counter to `counter`. */
  function Logged(reports: seq<Report>, counter: int, infected: int): (r: seq<Report>)
    ensures |r| == |reports| + (if counter % REPORT_INTERVAL == 0 then 1 else 0)
    ensures r[..|reports|] == reports
    ensures counter % REPORT_INTERVAL == 0 ==> r[|reports|] == Report(counter / REPORT_INTERVAL, infected)
  {
    if counter % REPORT_INTERVAL == 0 then reports + [Report(counter / REPORT_INTERVAL, infected)]
    else reports
  }

  /**
   * One tick keeps the log in step with the counter: a tick that reaches a
   * multiple of 30 appends the next sample, numbered counter / 30, and every
   * other tick appends nothing.
   */
  lemma LoggedNumbered(counter: int, reports: seq<Report>, infected: int)
    requires ReportsNumbered(counter, reports)
    ensures ReportsNumbered(counter + 1, Logged(reports, counter + 1, infected))
    ensures |Logged(reports, counter + 1, infected)| == |reports| + (if (counter + 1) % REPORT_INTERVAL == 0 then 1 else 0)
  {
  }
}
