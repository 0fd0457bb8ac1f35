# Contagion simulator: health state machine and simulation tick

This project models the core of a small browser-based contagion simulator.
Round subjects move in a rectangular arena, bounce off its walls and off each
other, and pass an infection on when they touch. It covers two parts of the
program.

- **The subject** (`subject.cpp`). The class `Subjects.Subject` has the
  program's fields: position, velocity, a fixed radius, the two health flags
  `infected` and `immune` with their countdowns, and the movement strategy.
  Its methods change those fields in place, as the program's methods do. Each
  one is specified by a pure function on a value view of the subject
  (`Snapshot`). The health functions live in `HealthStates`: `Infect`,
  `InfectedCountdown`, `ImmuneCountdown`, and `Advance`, the one advance a
  subject gets per tick. The lemmas about them pin down the health invariant
  and the exact timing of an infection: 200 countdown calls infected, the
  201st makes the subject immune for 400 more, and then it is susceptible
  again.
- **The simulation tick** (`simulation.cpp`). The class
  `Simulations.Simulation` holds the arena size, the tick length, the
  population as a sequence of `Subject` objects, the tick counter and a log of
  the reports sent to the statistics collaborator. `Tick` runs the program's
  three passes in place, in its order:
  - the wall pass (`wall_collision` on every subject);
  - the collision pass, which takes the last subject off a list and pairs it
    with every subject still on it;
  - the move pass, which moves every subject, counts the infected ones and
    advances each subject's health once.

  Each pass is proved against a function in `TickPasses`: `AfterWalls`,
  `AfterCollisions` (a fold of `Collide` over `Pairs(n)`) and `AfterMoves`.
  The tick as a whole is proved against `AfterTick`. The lemmas in
  `TickPasses` say what those functions mean:
  - every unordered pair is visited exactly once;
  - an infectious contact infects every non-immune member of the pair;
  - a collision never cures anyone or touches immunity;
  - after the wall pass every subject is inside the arena whenever it fits;
  - the health invariant survives a tick.

  `Tick` also keeps the report log in step with the counter: one report per
  30 ticks, numbered 1, 2, 3, and so on.

The module `Geometry` holds the wall rule (`Clamp`, `Reflect`, `WallBounce`)
over exact reals, and the overlap test in squared form. Two things are left as
function values:
- the movement strategy, `(coordinate, velocity, dt) -> coordinate`;
- the trigonometric collision response, which gives the new motions of an
  overlapping pair.

## Model

| member | source | states |
|---|---|---|
| `HealthStates.Infect` | subject.cpp:87-94 | An immune subject is unchanged. Any other subject becomes infected with the countdown reset to 200, even if it was already infected. Immunity and its countdown never change. The health invariant is preserved. |
| `HealthStates.InfectedCountdown` | subject.cpp:96-108 | A positive countdown drops by exactly 1 and nothing else changes. At 0, an infected subject turns immune with countdown 400. At 0, a subject that is not infected is unchanged. The health invariant is preserved. |
| `HealthStates.ImmuneCountdown` | subject.cpp:115-125 | A positive countdown drops by exactly 1. At 0, an immune subject loses its immunity. Otherwise nothing changes. The health invariant is preserved. |
| `HealthStates.Advance` | simulation.cpp:81-89 | A tick gives the infected countdown to an infected subject, else the immune countdown to an immune one, else nothing. The health invariant is preserved. |
| `HealthStates.InfectedCountdownsRun` | subject.cpp:96-101 | While the infected countdown lasts, n calls only subtract n from it. |
| `HealthStates.ImmuneCountdownsRun` | subject.cpp:115-120 | While the immune countdown lasts, n calls only subtract n from it. |
| `HealthStates.InfectionTiming` | subject.cpp:87-125 | After `infect()` on a non-immune consistent subject, k ≤ 200 countdown calls leave it infected with 200 − k to go. The 201st call makes it immune with 400. k ≤ 400 immune calls leave it immune with 400 − k. The 401st call makes it susceptible. |
| `HealthStates.AdvancesWhileInfected` | simulation.cpp:81-85 | While infected with n or more ticks to go, n ticks only subtract n from the infected countdown. |
| `HealthStates.AdvancesWhileImmune` | simulation.cpp:86-89 | While immune, not infected, with n or more ticks to go, n ticks only subtract n from the immune countdown. |
| `HealthStates.AdvancesAdd` | simulation.cpp:77-90 | a ticks followed by b ticks are a + b ticks. |
| `HealthStates.InfectionCycle` | simulation.cpp:77-90 | With one advance per tick and no further contact, a freshly infected subject is infected for ticks 0 to 200, immune for ticks 201 to 601 (countdown 400 down to 0), and susceptible at tick 602. |
| `HealthStates.SusceptibleStays` | simulation.cpp:81-89 | Without contact, a susceptible subject stays susceptible for any number of ticks. |
| `Geometry.Clamp` | simulation.cpp:137-152 | The corrected coordinate is never below the radius. It is at most dim − radius when the subject fits in the arena. A coordinate already within [radius, dim − radius] is unchanged. |
| `Geometry.Reflect` | simulation.cpp:127-136 | The velocity is negated exactly when p − r + v < 0 or p + r + v > dim, and is unchanged otherwise. |
| `Geometry.WallBounce` | simulation.cpp:125-153 | After the wall rule, x ≥ r and y ≥ r. Also x ≤ width − r and y ≤ height − r when the subject fits. An in-range coordinate keeps its value. Each velocity component is kept or negated. |
| `Geometry.OverlapsIsDistanceTest` | simulation.cpp:155-164 | For any d ≥ 0 with d² equal to the squared distance between the centres, the squared test holds exactly when d < r1 + r2: the program's `distance(...) < r1 + r2`. |
| `Subjects.Moved` | subject.cpp:142-146 | With a strategy set, each coordinate becomes the strategy's value for that coordinate, its velocity and dt. Velocity, radius, health and strategy are unchanged. |
| `Subjects.Subject.constructor` | subject.cpp:25-35 | The subject starts at (x, y), at rest, with the given radius and no strategy. It is susceptible, or freshly infected (countdown 200) when asked. The health invariant holds. |
| `Subjects.Subject.SetX` | subject.cpp:47-50 | Only x changes, to the given value. |
| `Subjects.Subject.SetY` | subject.cpp:52-55 | Only y changes, to the given value. |
| `Subjects.Subject.SetDx` | subject.cpp:67-70 | Only dx changes, to the given value. |
| `Subjects.Subject.SetDy` | subject.cpp:72-75 | Only dy changes, to the given value. |
| `Subjects.Subject.SetMovementStrategy` | subject.cpp:137-140 | Only the strategy changes, to the given one. |
| `Subjects.Subject.Infect` | subject.cpp:87-94 | The health fields change as `HealthStates.Infect` says. Nothing else changes. |
| `Subjects.Subject.InfectedDurationCountdown` | subject.cpp:96-108 | The health fields change as `HealthStates.InfectedCountdown` says. Nothing else changes. |
| `Subjects.Subject.ImmuneDurationCountdown` | subject.cpp:115-125 | The health fields change as `HealthStates.ImmuneCountdown` says. Nothing else changes. |
| `Subjects.Subject.Move` | subject.cpp:142-146 | The new state is `Subjects.Moved` of the old one. |
| `TickPasses.Collide` | simulation.cpp:160-170 | A pair that does not overlap is untouched. For an overlapping pair with an infected member, `infect()` is applied to both: a non-immune partner ends up infected, and an immune one keeps its immunity. A pair with no infected member keeps its health. The motions of an overlapping pair come from the response. Radius and strategy stay. |
| `TickPasses.Pairs` | simulation.cpp:64-73 | Every visited pair (i, j) has j < i < n. |
| `TickPasses.PairsCoverAll` | simulation.cpp:64-73 | The collision pass visits (i, j) if and only if j < i < n: every unordered pair of distinct subjects. |
| `TickPasses.PairsNoRepeats` | simulation.cpp:64-73 | No pair is visited twice. |
| `TickPasses.PairsCount` | simulation.cpp:64-73 | There are n(n − 1)/2 visits. |
| `TickPasses.FoldPairsOutcome` | simulation.cpp:69-72 | Through any sequence of visits, every subject keeps its radius, strategy, immunity and immune countdown. It stays infected if it was, and keeps the health invariant. |
| `TickPasses.ContactInfects` | simulation.cpp:164-170 | If the pass reaches a pair that overlaps with an infected member, each member that was not immune at that moment is infected at the end of the pass. |
| `TickPasses.AfterWalls` | simulation.cpp:57-62 | The wall pass gives one snapshot per subject, in order. What each one is comes from `TickPasses.AfterWallsInArena`. |
| `TickPasses.AfterCollisions` | simulation.cpp:64-73 | The collision pass keeps the population's size. What it does to each subject comes from `TickPasses.AfterCollisionsOutcome` and `TickPasses.ContactInfects`. |
| `TickPasses.MovedAndAdvanced` | simulation.cpp:79-89 | One subject of the move pass gets exactly one `HealthStates.Advance`, and keeps its radius and strategy. Its new position is stated by `TickPasses.AfterMovesAdvanceOnce`. |
| `TickPasses.AfterMoves` | simulation.cpp:77-90 | The move pass keeps the population's size. Each subject is handled as `TickPasses.AfterMovesAdvanceOnce` says. |
| `TickPasses.AfterTick` | simulation.cpp:53-90 | A tick is the wall pass, then the collision pass, then the move pass. It keeps the population's size. |
| `TickPasses.CountInfected` | simulation.cpp:75-85 | The count never exceeds the population. `TickPasses.CountInfectedIsCardinality` says which subjects it counts. |
| `TickPasses.AfterWallsInArena` | simulation.cpp:57-62 | After the wall pass every subject is inside the arena as `Geometry.WallBounce` says. Radius, health and strategy are untouched. |
| `TickPasses.AfterCollisionsOutcome` | simulation.cpp:64-73 | The whole collision pass, subject by subject, is a collision outcome as `TickPasses.FoldPairsOutcome` describes. |
| `TickPasses.AfterMovesAdvanceOnce` | simulation.cpp:77-90 | In the move pass every subject moves by its strategy and gets exactly one `HealthStates.Advance`. |
| `TickPasses.TickKeepsInvariants` | simulation.cpp:49-90 | A tick keeps every subject's radius and strategy and the health invariant of each subject. |
| `TickPasses.CountInfectedIsCardinality` | simulation.cpp:75-90 | The move pass's count is the number of subjects whose infected flag is set. |
| `TickPasses.CollisionsNeverLowerCount` | simulation.cpp:164-170 | Collisions never cure anyone, so they never lower the infected count. |
| `Simulations.Simulation.constructor` | simulation.cpp:24 | The simulation starts with the given arena, no subjects, counter 0 and an empty report log. |
| `Simulations.Simulation.AddSubject` | simulation.cpp:26-29 | The subject becomes the new last member of the population. The counter and the log are unchanged, and the invariant is kept. |
| `Simulations.Simulation.WallCollision` | simulation.cpp:125-153 | The one subject passed in ends as `TickPasses.Bounced`, that is `Geometry.WallBounce`, of its old state. No other object changes. |
| `Simulations.Simulation.SubjectCollision` | simulation.cpp:160-189 | The two subjects end as `TickPasses.Collide` of their old states. |
| `Simulations.Simulation.WallPass` | simulation.cpp:55-62 | The collision list holds the population in order, and every subject has been bounced off the walls (`TickPasses.AfterWalls`). |
| `Simulations.Simulation.CollisionPass` | simulation.cpp:64-73 | The population ends as `TickPasses.AfterCollisions` of its state before the loop: the fold of `Collide` over `TickPasses.Pairs`. |
| `Simulations.Simulation.CollisionRound` | simulation.cpp:66-72 | Popping the last subject leaves the list one shorter. The visits of its row followed by the remaining rounds are all the rounds still to come. |
| `Simulations.Simulation.CollideStep` | simulation.cpp:71 | One call of `subject_collision` is one step of the fold. |
| `Simulations.Simulation.MovePass` | simulation.cpp:75-90 | The population ends as `TickPasses.AfterMoves`. The count is the number of subjects infected when the loop started. |
| `Simulations.Simulation.MoveAndAdvance` | simulation.cpp:79-89 | One subject moves and then gets its one health advance. The answer is its infected flag before the advance. |
| `Simulations.Simulation.Dt` | simulation.cpp:53 | The time step is a tenth of the tick length: dt × 10 = tick_speed. |
| `Simulations.Simulation.RunPasses` | simulation.cpp:53-90 | The three passes give `TickPasses.AfterTick`. The infected count is taken after walls and collisions. The health invariant of the whole population is kept. |
| `Simulations.Simulation.Tick` | simulation.cpp:49-98 | The counter goes up by exactly 1. The subjects end as `TickPasses.AfterTick`. The log grows by the report (counter / 30, infected count) exactly when the new counter is a multiple of 30. `Valid()` (distinct subjects, numbered log) is kept. The health invariant is not restated here: it follows from the `AfterTick` equation by `TickPasses.TickKeepsInvariants`, and `RunPasses` states it for the passes. |
| `Simulations.Logged` | simulation.cpp:92-95 | The log gains exactly one entry when the counter is a multiple of 30, the report (counter / 30, infected count). Otherwise it is unchanged. Earlier reports are never altered. |
| `Simulations.LoggedNumbered` | simulation.cpp:92-95 | Each tick keeps one report per 30 ticks, numbered 1, 2, 3 and so on. A report is appended exactly when the new counter is a multiple of 30. |

## Left out

- `run` (simulation.cpp:31-45) is not modelled. It is an endless loop of `tick` and `emscripten_sleep`, i.e. host scheduling; only `Tick` is modelled.
- `draw_to_canvas` (simulation.cpp:100-123) and the canvas are not modelled. They are drawing calls into a foreign collaborator.
- The statistics collaborator is modelled as the `reports` log of the calls it would receive. ChartJS itself is not modelled.
- The collision response is the opaque `response` function value. It replaces:
  - the elastic velocity formulas (simulation.cpp:172-185);
  - `static_collision` (simulation.cpp:191-216);
  - `angle` and `speed` (subject.cpp:127-135);
  - `distance` (simulation.cpp:155-158).

  These use `atan2`, `sin`, `cos`, `sqrt` and `pow` on doubles.
- The overlap test is `Geometry.Overlaps`, in squared form. `Geometry.OverlapsIsDistanceTest` proves it equal to the program's `distance < r1 + r2` for any non-negative d with d² the squared distance. Its extra conjunct r1 + r2 > 0 stands for d ≥ 0: without it two points at distance 0.5 would overlap for r1 + r2 = −1.
- `TickPasses.Collide`: the response may only rewrite position and velocity. It does not model `static_collision`'s emergency branch (simulation.cpp:199-201), which copy-assigns whole `Subject` objects (radius and health included). Nor does it model the aliasing of both references when the radii are equal (simulation.cpp:194-195).
- `Simulations.Simulation.AddSubject`: the program moves the subject into the population by value (simulation.cpp:26-29), so the caller's object is independent afterwards. The model stores the caller's reference, hence `requires s !in subjects`; later setter calls through that reference reach the population.
- `Simulations.Simulation.SubjectCollision`: requires two distinct subjects. The collision loop only ever passes two distinct ones.
- `Simulations.Simulation.CollisionRound` models `collision_checker.erase(collision_checker.end())` (simulation.cpp:67) as removing the last element. Erasing `end()` is undefined behaviour; removing the last element is its evident intent.
- `Simulations.Simulation.CollisionPass` models the loop condition `i < collision_checker.size()`, which compares a signed index with an unsigned size, as `0 <= i < |list|`. A negative index converts to a huge unsigned value, so the loop stops.
- `TickPasses.CollideAt` skips a pair that does not name two subjects of the population. The collision pass never visits such a pair (`TickPasses.PairsCoverAll`).
- The tick counter is a namespace-level global in the program (simulation.cpp:47), shared by every simulation. Here it is a field of the simulation.
- Integers are unbounded. The 32-bit overflow of the counter after about 2^31 ticks is not modelled.
- Doubles are modelled as exact reals. The wall rule only adds, subtracts, negates and compares, so rounding is the only difference.
- `Subjects.Subject.constructor`: the header `subject.h` is not part of this model. The defaults it gives the fields are taken to be false for the flags, 0 for the countdowns, 0.0 for the velocity and no movement strategy (a null `_movementStrategy`), which is `strategy == None`.
- `Subjects.Subject.Move` and `Simulations.Simulation.Tick` require a movement strategy on every subject. The program calls the strategy without checking that one is set; `main.cpp` sets a strategy on every subject.
- `Subjects.Moved` leaves a subject without a strategy where it is. The program never moves such a subject: `Subjects.Subject.Move` requires a strategy.
- The movement strategies (MovementStrategy.h, RegularMovementStrategy.h, LockdownMovementStrategy.h) are arbitrary function values. Their implementations are not part of this model.
- `main.cpp` is not modelled: random placement of subjects, choice of strategies, construction of the canvas and chart. `tick_speed` comes from `simulation.h`, which is not part of this model; it is a constant field `tickSpeed` here, with `dt = tickSpeed / 10`.
- The getters `x`, `y`, `dx`, `dy`, `radius`, `infected`, `immune` (subject.cpp:37-45, 57-65, 77-85, 110-113) are reads of the corresponding fields.
