/**
 * One simulated person: a position and velocity, a fixed radius, a health
 * state, and the movement strategy it was given.
 *
 * The class keeps the program's fields and changes them in place. Its value
 * view, `Snap()`, is what the simulation's specification works on.
 */
module Subjects {
  import opened Geometry
  import H = HealthStates

  datatype Option<T> = None | Some(value: T)

  /** Everything about a subject that the simulation reads or writes, as one value. */
  datatype Snapshot = Snapshot(
    motion: Motion,
    radius: int,
    health: H.HealthState,
    strategy: Option<MovementStrategy>)

  /**
   * `move(dt)`: each coordinate goes where the subject's strategy sends it,
   * from that coordinate and the velocity along it; nothing else changes.
   * (A subject without a strategy stays put here; the method Subject.Move,
   * like the program, is never called on one.)
   */
  function Moved(s: Snapshot, dt: real): (r: Snapshot)
    ensures s.strategy.Some? ==> r.motion.x == s.strategy.value(s.motion.x, s.motion.dx, dt)
    ensures s.strategy.Some? ==> r.motion.y == s.strategy.value(s.motion.y, s.motion.dy, dt)
    ensures s.strategy.None? ==> r == s
    ensures r.motion.dx == s.motion.dx && r.motion.dy == s.motion.dy
    ensures r.radius == s.radius && r.health == s.health && r.strategy == s.strategy
  {
    match s.strategy
    case None => s
    case Some(move) =>
      var m := s.motion;
      s.(motion := m.(x := move(m.x, m.dx, dt), y := move(m.y, m.dy, dt)))
  }

  class Subject {
    var x: real
    var y: real
    var dx: real
    var dy: real
    const radius: int
    var infected: bool
    var immune: bool
    var infectedDuration: int
    var immuneDuration: int
    var strategy: Option<MovementStrategy>

    function Health(): H.HealthState
      reads this
    {
      H.HealthState(infected, immune, infectedDuration, immuneDuration)
    }

    function Kinematics(): Motion
      reads this
    {
      Motion(x, y, dx, dy)
    }

    function Snap(): Snapshot
      reads this
    {
      Snapshot(Kinematics(), radius, Health(), strategy)
    }

    /**
     * A subject at (x, y) with the given radius, at rest, without a movement
     * strategy, and either susceptible or freshly infected.
     */
    constructor (x: int, y: int, radius: int, infected: bool)
      ensures Kinematics() == Motion(x as real, y as real, 0.0, 0.0)
      ensures this.radius == radius && strategy == None
      ensures Health() == if infected then H.Infect(H.Susceptible) else H.Susceptible
      ensures H.Consistent(Health())
      ensures infected ==> this.infected && infectedDuration == H.INFECTED_DURATION
    {
      this.x := x as real;
      this.y := y as real;
      this.radius := radius;
      this.dx := 0.0;
      this.dy := 0.0;
      this.infected := false;
      this.immune := false;
      this.infectedDuration := 0;
      this.immuneDuration := 0;
      this.strategy := None;
      new;
      if infected {
        Infect();
      }
    }

    method SetX(v: real)
      modifies this
      ensures Snap() == old(Snap()).(motion := old(Kinematics()).(x := v))
    {
      x := v;
    }

    method SetY(v: real)
      modifies this
      ensures Snap() == old(Snap()).(motion := old(Kinematics()).(y := v))
    {
      y := v;
    }

    method SetDx(v: real)
      modifies this
      ensures Snap() == old(Snap()).(motion := old(Kinematics()).(dx := v))
    {
      dx := v;
    }

    method SetDy(v: real)
      modifies this
      ensures Snap() == old(Snap()).(motion := old(Kinematics()).(dy := v))
    {
      dy := v;
    }

    method SetMovementStrategy(m: MovementStrategy)
      modifies this
      ensures Snap() == old(Snap()).(strategy := Some(m))
    {
      strategy := Some(m);
    }

    /** `infect()`; see HealthStates.Infect. Position, velocity and strategy stay. */
    method Infect()
      modifies this
      ensures Health() == H.Infect(old(Health()))
      ensures Snap() == old(Snap()).(health := Health())
    {
      if !immune {
        infected := true;
        infectedDuration := H.INFECTED_DURATION;
      }
    }

    /** `infectedDurationCountdown()`; see HealthStates.InfectedCountdown. */
    method InfectedDurationCountdown()
      modifies this
      ensures Health() == H.InfectedCountdown(old(Health()))
      ensures Snap() == old(Snap()).(health := Health())
    {
      if infectedDuration > 0 {
        infectedDuration := infectedDuration - 1;
      } else if infected {
        infected := false;
        immune := true;
        immuneDuration := H.IMMUNE_DURATION;
      }
    }

    /** `immuneDurationCountdown()`; see HealthStates.ImmuneCountdown. */
    method ImmuneDurationCountdown()
      modifies this
      ensures Health() == H.ImmuneCountdown(old(Health()))
      ensures Snap() == old(Snap()).(health := Health())
    {
      if immuneDuration > 0 {
        immuneDuration := immuneDuration - 1;
      } else if immune {
        immune := false;
      }
    }

    /** `move(dt)`: only the position changes, as the strategy says. */
    method Move(dt: real)
      requires strategy.Some?
      modifies this
      ensures Snap() == Moved(old(Snap()), dt)
    {
      var m := strategy.value;
      SetX(m(x, dx, dt));
      SetY(m(y, dy, dt));
    }
  }
}
