/**
 * The health state machine of one subject, as values.
 *
 * A subject is susceptible, infected or immune. Two flags and two countdowns
 * hold that state: `infected` with `infectedDuration`, `immune` with
 * `immuneDuration`. The functions here compute what the three operations
 * `infect`, `infectedDurationCountdown` and `immuneDurationCountdown` do to
 * that state; the class Subjects.Subject performs them in place and is
 * specified by them.
 */
module HealthStates {

  /** Ticks an infection lasts, and ticks immunity lasts, after they start. */
  const INFECTED_DURATION: int := 200
  const IMMUNE_DURATION: int := 400

  datatype HealthState = HealthState(
    infected: bool,
    immune: bool,
    infectedDuration: int,
    immuneDuration: int)

  /** The state every field default gives: not infected, not immune, both countdowns 0. */
  const Susceptible: HealthState := HealthState(false, false, 0, 0)

  /**
   * The object invariant of a subject's health: never infected and immune at
   * once, a countdown is 0 whenever its flag is off, and no countdown is ever
   * negative or above its full duration.
   */
  predicate Consistent(h: HealthState) {
    && !(h.infected && h.immune)
    && (!h.infected ==> h.infectedDuration == 0)
    && (!h.immune ==> h.immuneDuration == 0)
    && 0 <= h.infectedDuration <= INFECTED_DURATION
    && 0 <= h.immuneDuration <= IMMUNE_DURATION
  }

  /** `infect()`: an immune subject is protected; any other one (re)starts a full infection. */
  function Infect(h: HealthState): (r: HealthState)
    ensures h.immune ==> r == h
    ensures !h.immune ==> r.infected && r.infectedDuration == INFECTED_DURATION
    ensures r.immune == h.immune && r.immuneDuration == h.immuneDuration
    ensures Consistent(h) ==> Consistent(r)
  {
    if h.immune then h
    else h.(infected := true, infectedDuration := INFECTED_DURATION)
  }

  /**
   * `infectedDurationCountdown()`: a positive countdown goes down by one and
   * nothing else moves; at 0 an infected subject becomes immune for the full
   * immune duration; at 0 a subject that is not infected is left alone.
   */
  function InfectedCountdown(h: HealthState): (r: HealthState)
    ensures h.infectedDuration > 0 ==> r == h.(infectedDuration := h.infectedDuration - 1)
    ensures h.infectedDuration <= 0 && h.infected ==>
              !r.infected && r.immune && r.immuneDuration == IMMUNE_DURATION
              && r.infectedDuration == h.infectedDuration
    ensures h.infectedDuration <= 0 && !h.infected ==> r == h
    ensures Consistent(h) ==> Consistent(r)
  {
    if h.infectedDuration > 0 then h.(infectedDuration := h.infectedDuration - 1)
    else if h.infected then h.(infected := false, immune := true, immuneDuration := IMMUNE_DURATION)
    else h
  }

  /**
   * `immuneDurationCountdown()`: a positive countdown goes down by one; at 0
   * an immune subject becomes susceptible again; otherwise nothing happens.
   */
  function ImmuneCountdown(h: HealthState): (r: HealthState)
    ensures h.immuneDuration > 0 ==> r == h.(immuneDuration := h.immuneDuration - 1)
    ensures h.immuneDuration <= 0 && h.immune ==> r == h.(immune := false)
    ensures h.immuneDuration <= 0 && !h.immune ==> r == h
    ensures Consistent(h) ==> Consistent(r)
  {
    if h.immuneDuration > 0 then h.(immuneDuration := h.immuneDuration - 1)
    else if h.immune then h.(immune := false)
    else h
  }

  /**
   * The one state advance a subject gets in each tick's move pass: the
   * infected countdown if infected, else the immune countdown if immune,
   * else none.
   */
  function Advance(h: HealthState): (r: HealthState)
    ensures h.infected ==> r == InfectedCountdown(h)
    ensures !h.infected && h.immune ==> r == ImmuneCountdown(h)
    ensures !h.infected && !h.immune ==> r == h
    ensures Consistent(h) ==> Consistent(r)
  {
    if h.infected then InfectedCountdown(h)
    else if h.immune then ImmuneCountdown(h)
    else h
  }

  /** `n` successive calls of `infectedDurationCountdown()`. */
  function InfectedCountdowns(h: HealthState, n: nat): HealthState
    decreases n
  {
    if n == 0 then h else InfectedCountdowns(InfectedCountdown(h), n - 1)
  }

  /** `n` successive calls of `immuneDurationCountdown()`. */
  function ImmuneCountdowns(h: HealthState, n: nat): HealthState
    decreases n
  {
    if n == 0 then h else ImmuneCountdowns(ImmuneCountdown(h), n - 1)
  }

  /** `n` successive ticks' worth of state advances with no contact in between. */
  function Advances(h: HealthState, n: nat): HealthState
    decreases n
  {
    if n == 0 then h else Advances(Advance(h), n - 1)
  }

  /** While the countdown lasts, each call only takes one off it. */
  lemma {:induction false} InfectedCountdownsRun(h: HealthState, n: nat)
    requires n <= h.infectedDuration
    ensures InfectedCountdowns(h, n) == h.(infectedDuration := h.infectedDuration - n)
    decreases n
  {
    if n > 0 {
      InfectedCountdownsRun(InfectedCountdown(h), n - 1);
    }
  }

  lemma {:induction false} ImmuneCountdownsRun(h: HealthState, n: nat)
    requires n <= h.immuneDuration
    ensures ImmuneCountdowns(h, n) == h.(immuneDuration := h.immuneDuration - n)
    decreases n
  {
    if n > 0 {
      ImmuneCountdownsRun(ImmuneCountdown(h), n - 1);
    }
  }

  /**
   * The exact timing of one infection, call by call: after `infect()` on a
   * susceptible subject the first 200 calls of the infected countdown only
   * count down, the 201st makes the subject immune with the full immune
   * countdown, and after 400 calls of the immune countdown it is still immune
   * while the 401st makes it susceptible again.
   */
  lemma InfectionTiming(h: HealthState)
    requires Consistent(h) && !h.immune
    ensures forall k :: 0 <= k <= INFECTED_DURATION ==>
              InfectedCountdowns(Infect(h), k) == HealthState(true, false, INFECTED_DURATION - k, 0)
    ensures InfectedCountdowns(Infect(h), INFECTED_DURATION + 1) == HealthState(false, true, 0, IMMUNE_DURATION)
    ensures forall k :: 0 <= k <= IMMUNE_DURATION ==>
              ImmuneCountdowns(HealthState(false, true, 0, IMMUNE_DURATION), k)
              == HealthState(false, true, 0, IMMUNE_DURATION - k)
    ensures ImmuneCountdowns(HealthState(false, true, 0, IMMUNE_DURATION), IMMUNE_DURATION + 1) == Susceptible
  {
    var start := Infect(h);
    forall k | 0 <= k <= INFECTED_DURATION
      ensures InfectedCountdowns(start, k) == HealthState(true, false, INFECTED_DURATION - k, 0)
    {
      InfectedCountdownsRun(start, k);
    }
    var spent := InfectedCountdowns(start, INFECTED_DURATION);
    InfectedCountdownsAfter(start, INFECTED_DURATION);
    var recovered := HealthState(false, true, 0, IMMUNE_DURATION);
    forall k | 0 <= k <= IMMUNE_DURATION
      ensures ImmuneCountdowns(recovered, k) == HealthState(false, true, 0, IMMUNE_DURATION - k)
    {
      ImmuneCountdownsRun(recovered, k);
    }
    ImmuneCountdownsAfter(recovered, IMMUNE_DURATION);
  }

  /** Splitting off the last of `n + 1` infected countdowns. */
  lemma {:induction false} InfectedCountdownsAfter(h: HealthState, n: nat)
    ensures InfectedCountdowns(h, n + 1) == InfectedCountdown(InfectedCountdowns(h, n))
    decreases n
  {
    if n > 0 {
      InfectedCountdownsAfter(InfectedCountdown(h), n - 1);
    }
  }

  lemma {:induction false} ImmuneCountdownsAfter(h: HealthState, n: nat)
    ensures ImmuneCountdowns(h, n + 1) == ImmuneCountdown(ImmuneCountdowns(h, n))
    decreases n
  {
    if n > 0 {
      ImmuneCountdownsAfter(ImmuneCountdown(h), n - 1);
    }
  }

  /** Ticks compose: `a` ticks and then `b` more are `a + b` ticks. */
  lemma {:induction false} AdvancesAdd(h: HealthState, a: nat, b: nat)
    ensures Advances(h, a + b) == Advances(Advances(h, a), b)
    decreases a
  {
    if a > 0 {
      AdvancesAdd(Advance(h), a - 1, b);
    }
  }

  /** While infected with a positive countdown, a tick only takes one off it. */
  lemma {:induction false} AdvancesWhileInfected(h: HealthState, n: nat)
    requires h.infected && n <= h.infectedDuration
    ensures Advances(h, n) == h.(infectedDuration := h.infectedDuration - n)
    decreases n
  {
    if n > 0 {
      AdvancesWhileInfected(Advance(h), n - 1);
    }
  }

  lemma {:induction false} AdvancesWhileImmune(h: HealthState, n: nat)
    requires !h.infected && h.immune && n <= h.immuneDuration
    ensures Advances(h, n) == h.(immuneDuration := h.immuneDuration - n)
    decreases n
  {
    if n > 0 {
      AdvancesWhileImmune(Advance(h), n - 1);
    }
  }

  /**
   * The whole cycle as the simulation drives it, one advance per tick and no
   * further contact: infected for the first 201 ticks (countdown 200 down to
   * 0), immune from tick 201 to tick 601 (countdown 400 down to 0), and
   * susceptible again from tick 602 on.
   */
  lemma InfectionCycle(h: HealthState)
    requires Consistent(h) && !h.immune
    ensures forall k :: 0 <= k <= INFECTED_DURATION ==>
              Advances(Infect(h), k) == HealthState(true, false, INFECTED_DURATION - k, 0)
    ensures forall k :: INFECTED_DURATION < k <= INFECTED_DURATION + 1 + IMMUNE_DURATION ==>
              Advances(Infect(h), k) == HealthState(false, true, 0, INFECTED_DURATION + 1 + IMMUNE_DURATION - k)
    ensures Advances(Infect(h), INFECTED_DURATION + IMMUNE_DURATION + 2) == Susceptible
  {
    var start := Infect(h);
    forall k | 0 <= k <= INFECTED_DURATION
      ensures Advances(start, k) == HealthState(true, false, INFECTED_DURATION - k, 0)
    {
      AdvancesWhileInfected(start, k);
    }
    var spent := HealthState(true, false, 0, 0);
    var recovered := HealthState(false, true, 0, IMMUNE_DURATION);
    assert Advances(spent, 1) == recovered;
    AdvancesAdd(start, INFECTED_DURATION, 1);
    forall k | INFECTED_DURATION < k <= INFECTED_DURATION + 1 + IMMUNE_DURATION
      ensures Advances(start, k) == HealthState(false, true, 0, INFECTED_DURATION + 1 + IMMUNE_DURATION - k)
    {
      AdvancesAdd(start, INFECTED_DURATION + 1, k - INFECTED_DURATION - 1);
      AdvancesWhileImmune(recovered, k - INFECTED_DURATION - 1);
    }
    var expired := HealthState(false, true, 0, 0);
    assert Advances(expired, 1) == Susceptible;
    AdvancesAdd(start, INFECTED_DURATION + 1 + IMMUNE_DURATION, 1);
  }

  /** A susceptible subject stays susceptible as long as nobody infects it. */
  lemma {:induction false} SusceptibleStays(n: nat)
    ensures Advances(Susceptible, n) == Susceptible
    decreases n
  {
    if n > 0 {
      SusceptibleStays(n - 1);
    }
  }
}
