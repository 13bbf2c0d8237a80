/**
 * The earlier revision of the exploration (demonstration/common.py): the
 * corners come from a fixed car size of 1 by 0.5, the frontier is the
 * fixed-threshold queue, and the generator collects the accepted footprints
 * in one flat list instead of a dictionary keyed by time step.
 */
module LegacyCommon {
  import opened Wrappers
  import opened Geometry
  import opened Coords
  import opened States
  import opened Validity
  import opened Budget
  import opened LegacyFrontier
  import opened Generation

  /** DrawConfig.car_length and DrawConfig.car_width of the earlier revision. */
  const LEGACY_CAR_LENGTH: real := 1.0
  const LEGACY_CAR_WIDTH: real := 0.5

  /**
   * MathHelp.get_all_pos: the four corners of a rectangle, anticlockwise from
   * its anchor, with the configured car size; any other drawable raises.
   */
  function LegacyGetAllPos(t: Trig, drawable: Drawable): (r: Result<seq<Point>, CoordsError>)
    ensures r.Failure? <==> !drawable.Rectangle?
    ensures r.Failure? ==> r.error == UnsupportedDrawable
    ensures r.Success? ==> |r.value| == 4 && r.value[0] == drawable.xy
    ensures r.Success? && |r.value| == 4 ==>
              var c := r.value;
              c[1].Minus(c[0]) == c[2].Minus(c[3]) == Pol2Cart(t, LEGACY_CAR_LENGTH, Radians(t, drawable.angle)) &&
              c[3].Minus(c[0]) == c[2].Minus(c[1]) == Pol2Cart(t, LEGACY_CAR_WIDTH, Radians(t, drawable.angle) + t.pi / 2.0)
  {
    match drawable
    case Rectangle(xy, _, _, angle) => Success(Corners(t, xy, Radians(t, angle), LEGACY_CAR_LENGTH, LEGACY_CAR_WIDTH))
    case OtherDrawable => Failure(UnsupportedDrawable)
  }

  /**
   * The later get_all_pos, given the earlier car size, computes the same
   * corners: the revision only moved the size into parameters and added the
   * missing-size error.
   */
  lemma LegacyGetAllPosAgrees(t: Trig, drawable: Drawable)
    ensures GetAllPos(t, drawable, Some(LEGACY_CAR_LENGTH), Some(LEGACY_CAR_WIDTH)) == LegacyGetAllPos(t, drawable)
  {
  }

  /**
   * The earlier is_valid: all four corners in some lanelet and no obstacle's
   * occupancy at time 0 containing one; the exception of get_all_pos
   * propagates.
   */
  method LegacyIsValid(t: Trig, toCheck: Drawable, env: Environment) returns (r: Result<bool, CoordsError>)
    ensures r.Failure? <==> !toCheck.Rectangle?
    ensures r.Success? ==> r.value == CornersValid(LegacyGetAllPos(t, toCheck).value, env)
  {
    var positions :- LegacyGetAllPos(t, toCheck);
    var valid := CheckCorners(positions, env);
    r := Success(valid);
  }

  /** DrawHelp.convert_to_drawable of a state, with the earlier car size. */
  function LegacyFootprint(t: Trig, s: State): Drawable {
    ConvertToDrawable(t, s.position, s.orientation, LEGACY_CAR_LENGTH, LEGACY_CAR_WIDTH)
  }

  /** The footprints of a list of states, in order. */
  function LegacyFootprints(t: Trig, accepted: seq<State>): (r: seq<Drawable>)
    ensures |r| == |accepted|
    ensures forall i :: 0 <= i < |accepted| ==> r[i] == LegacyFootprint(t, accepted[i])
  {
    seq(|accepted|, i requires 0 <= i < |accepted| => LegacyFootprint(t, accepted[i]))
  }

  ghost predicate LegacyFootprintValid(t: Trig, d: Drawable, env: Environment) {
    var corners := LegacyGetAllPos(t, d);
    corners.Success? && CornersValid(corners.value, env)
  }

  /** The earlier is_valid holds for the footprint of candidate `k` of `p`. */
  ghost predicate LegacyCandidateValid(t: Trig, env: Environment, dt: real, config: GenerationConfig, p: State, k: nat)
    requires k < config.yawSteps
  {
    LegacyFootprintValid(t, LegacyFootprint(t, Successor(t, dt, config, p, k)), env)
  }

  ghost predicate LegacySomeCandidateValid(t: Trig, env: Environment, dt: real, config: GenerationConfig, p: State) {
    exists k :: 0 <= k < config.yawSteps && LegacyCandidateValid(t, env, dt, config, p, k)
  }

  ghost function LegacyValidCandidates(t: Trig, env: Environment, dt: real, config: GenerationConfig, p: State): set<nat> {
    set k: nat | k < config.yawSteps && LegacyCandidateValid(t, env, dt, config, p, k)
  }

  /**
   * What holds of the states accepted so far, as they were put back: each
   * lies after the seed's time step and no later than the horizon, keeps the
   * seed's velocity, has a valid footprint and is reached from the seed by a
   * chain of candidates.
   */
  ghost predicate LegacyRecorded(t: Trig, env: Environment, dt: real, config: GenerationConfig, seed: State, timeSteps: int,
                                 accepted: seq<State>) {
    forall i :: 0 <= i < |accepted| ==>
      seed.timeStep < accepted[i].timeStep <= timeSteps &&
      accepted[i].velocity == seed.velocity &&
      LegacyFootprintValid(t, LegacyFootprint(t, accepted[i]), env) &&
      Reachable(t, dt, config, seed, accepted[i])
  }

  /** The accepted states, as a set. */
  ghost function Listed(accepted: seq<State>): set<State> {
    set s | s in accepted
  }

  /** If `r` is before the horizon, each of its candidates passing the earlier is_valid is within 0.1 of a state in `known`. */
  ghost predicate LegacyExplored(t: Trig, env: Environment, dt: real, config: GenerationConfig, timeSteps: int,
                                 r: State, known: set<State>) {
    r.timeStep < timeSteps ==>
      forall k :: 0 <= k < config.yawSteps && LegacyCandidateValid(t, env, dt, config, r, k) ==>
        Covers(known, Successor(t, dt, config, r, k), ACCEPTANCE_THRESHOLD, ACCEPTANCE_THRESHOLD)
  }

  ghost predicate LegacyClosed(t: Trig, env: Environment, dt: real, config: GenerationConfig, timeSteps: int, known: set<State>) {
    forall r :: r in known ==> LegacyExplored(t, env, dt, config, timeSteps, r, known)
  }

  lemma LegacyExploredGrows(t: Trig, env: Environment, dt: real, config: GenerationConfig, timeSteps: int,
                            r: State, known: set<State>, known': set<State>)
    requires LegacyExplored(t, env, dt, config, timeSteps, r, known) && known <= known'
    ensures LegacyExplored(t, env, dt, config, timeSteps, r, known')
  {
    var th := ACCEPTANCE_THRESHOLD;
    if r.timeStep < timeSteps {
      forall k | 0 <= k < config.yawSteps && LegacyCandidateValid(t, env, dt, config, r, k)
        ensures Covers(known', Successor(t, dt, config, r, k), th, th)
      {
        var x :| x in known && Near(x, Successor(t, dt, config, r, k), th, th);
        assert x in known';
      }
    }
  }

  /** The lineage and coverage invariant of the earlier worker loop, as in the later revision. */
  ghost predicate LegacyExploring(t: Trig, env: Environment, dt: real, config: GenerationConfig, seed: State, timeSteps: int,
                                  q: set<State>, done: set<State>, recorded: set<State>) {
    q <= Known(seed, recorded) && Known(seed, recorded) <= q + done &&
    Lineage(t, dt, config, seed, recorded) &&
    forall r :: r in done ==> LegacyExplored(t, env, dt, config, timeSteps, r, Known(seed, recorded))
  }

  lemma LegacyExploringStart(t: Trig, env: Environment, dt: real, config: GenerationConfig, seed: State, timeSteps: int)
    ensures LegacyExploring(t, env, dt, config, seed, timeSteps, {seed}, {}, Listed([]))
  {
  }

  lemma LegacyExploringStep(t: Trig, env: Environment, dt: real, config: GenerationConfig, seed: State, timeSteps: int,
                            q: set<State>, state: State, q0: set<State>, q': set<State>, done: set<State>,
                            recorded: set<State>, recorded': set<State>)
    requires LegacyExploring(t, env, dt, config, seed, timeSteps, q, done, recorded)
    requires state in q && q0 == q - {state} && q' >= q0
    requires forall s :: s in q' - q0 ==> IsSuccessor(t, dt, config, state, s)
    requires recorded' == recorded + (q' - q0)
    requires LegacyExplored(t, env, dt, config, timeSteps, state, q')
    ensures LegacyExploring(t, env, dt, config, seed, timeSteps, q', done + {state}, recorded')
  {
    var known, known' := Known(seed, recorded), Known(seed, recorded');
    assert q' <= known';
    forall s | s in recorded' ensures exists p :: p in known' && IsSuccessor(t, dt, config, p, s) {
      if s in recorded {
        var p :| p in known && IsSuccessor(t, dt, config, p, s);
        assert p in known';
      } else {
        assert state in known';
      }
    }
    forall r | r in done + {state} ensures LegacyExplored(t, env, dt, config, timeSteps, r, known') {
      if r == state {
        LegacyExploredGrows(t, env, dt, config, timeSteps, r, q', known');
      } else {
        LegacyExploredGrows(t, env, dt, config, timeSteps, r, known, known');
      }
    }
  }

  lemma LegacyExploringEnd(t: Trig, env: Environment, dt: real, config: GenerationConfig, seed: State, timeSteps: int,
                           done: set<State>, recorded: set<State>)
    requires LegacyExploring(t, env, dt, config, seed, timeSteps, {}, done, recorded)
    ensures LegacyClosed(t, env, dt, config, timeSteps, Known(seed, recorded))
  {
  }

  lemma LegacyCoverageExplored(t: Trig, env: Environment, dt: real, config: GenerationConfig, timeSteps: int,
                               state: State, q: StatesQueue)
    requires state.timeStep < timeSteps ==>
               forall k :: 0 <= k < config.yawSteps && LegacyCandidateValid(t, env, dt, config, state, k) ==>
                 q.Contains(Successor(t, dt, config, state, k))
    ensures LegacyExplored(t, env, dt, config, timeSteps, state, q.queue)
  {
  }

  /** Within one expansion the list gains a state when and only when the frontier does. */
  lemma LegacyRecordsPushed(q0: set<State>, q: set<State>, q': set<State>,
                            acc0: seq<State>, acc: seq<State>, acc': seq<State>, next: State, added: bool)
    requires q >= q0 && Listed(acc) == Listed(acc0) + (q - q0)
    requires added ==> next !in q && q' == q + {next} && acc' == acc + [next]
    requires !added ==> q' == q && acc' == acc
    ensures q' >= q0 && Listed(acc') == Listed(acc0) + (q' - q0)
  {
    if added {
      assert Listed(acc') == Listed(acc) + {next};
    }
  }

  /**
   * The earlier generate_states, run by one worker: the accepted footprints
   * in acceptance order and the number of states processed; `accepted` holds
   * the states they were made from.
   */
  method LegacyGenerateStates(t: Trig, env: Environment, dt: real, seed: State, timeSteps: int, config: GenerationConfig)
    returns (validConverted: seq<Drawable>, numStatesProcessed: nat, ghost accepted: seq<State>)
    ensures numStatesProcessed == 1 + |validConverted|
    ensures validConverted == LegacyFootprints(t, accepted)
    ensures LegacyRecorded(t, env, dt, config, seed, timeSteps, accepted)
    ensures timeSteps <= seed.timeStep ==> validConverted == [] && numStatesProcessed == 1
    ensures seed.timeStep < timeSteps && LegacySomeCandidateValid(t, env, dt, config, seed) ==> |validConverted| > 0
    ensures Lineage(t, dt, config, seed, Listed(accepted))
    ensures LegacyClosed(t, env, dt, config, timeSteps, Known(seed, Listed(accepted)))
  {
    numStatesProcessed := 0;
    validConverted := [];
    accepted := [];
    var currentStates := new StatesQueue();
    currentStates.Put(seed);
    LegacyWorkerStart(t, env, dt, config, seed, timeSteps);
    ghost var done: set<State> := {};
    LegacyExploringStart(t, env, dt, config, seed, timeSteps);
    while currentStates.queue != {}
      invariant fresh(currentStates)
      invariant LegacyWorker(t, env, dt, config, seed, timeSteps, currentStates.queue, numStatesProcessed, validConverted, accepted)
      invariant LegacyExploring(t, env, dt, config, seed, timeSteps, currentStates.queue, done, Listed(accepted))
      decreases SumBudget(currentStates.queue, timeSteps, config.yawSteps)
    {
      ghost var before := currentStates.queue;
      var state := currentStates.Get();
      SumBudgetRemove(before, state, timeSteps, config.yawSteps);
      ghost var afterGet, convertedBefore, acceptedBefore := currentStates.queue, validConverted, accepted;
      LegacyWorkerPop(t, env, dt, config, seed, timeSteps, before, state, numStatesProcessed, validConverted, accepted);
      validConverted, accepted := LegacyProcessState(t, env, dt, state, timeSteps, config, currentStates, validConverted, seed, accepted);
      LegacyWorkerStep(t, env, dt, config, seed, timeSteps, before, state, afterGet, currentStates.queue, numStatesProcessed,
                       convertedBefore, acceptedBefore, validConverted, accepted);
      LegacyCoverageExplored(t, env, dt, config, timeSteps, state, currentStates);
      LegacyExploringStep(t, env, dt, config, seed, timeSteps, before, state, afterGet, currentStates.queue, done,
                          Listed(acceptedBefore), Listed(accepted));
      done := done + {state};
      numStatesProcessed := numStatesProcessed + 1;
    }
    LegacyExploringEnd(t, env, dt, config, seed, timeSteps, done, Listed(accepted));
  }

  /** The invariant of the earlier worker loop, as in the later revision. */
  ghost predicate LegacyWorker(t: Trig, env: Environment, dt: real, config: GenerationConfig, seed: State, timeSteps: int,
                               q: set<State>, processed: nat, vc: seq<Drawable>, acc: seq<State>)
  {
    processed + |q| == 1 + |vc| &&
    FromSeed(t, dt, config, seed, q) &&
    vc == LegacyFootprints(t, acc) &&
    LegacyRecorded(t, env, dt, config, seed, timeSteps, acc) &&
    (timeSteps <= seed.timeStep ==> vc == []) &&
    (processed == 0 ==> q == {seed} && vc == []) &&
    (processed > 0 && seed.timeStep < timeSteps && LegacySomeCandidateValid(t, env, dt, config, seed) ==> |vc| > 0)
  }

  lemma LegacyWorkerStart(t: Trig, env: Environment, dt: real, config: GenerationConfig, seed: State, timeSteps: int)
    ensures LegacyWorker(t, env, dt, config, seed, timeSteps, {seed}, 0, [], [])
  {
    SeedReachable(t, dt, config, seed);
  }

  lemma LegacyWorkerPop(t: Trig, env: Environment, dt: real, config: GenerationConfig, seed: State, timeSteps: int,
                        q: set<State>, state: State, processed: nat, vc: seq<Drawable>, acc: seq<State>)
    requires LegacyWorker(t, env, dt, config, seed, timeSteps, q, processed, vc, acc) && state in q
    ensures FromSeed(t, dt, config, seed, {state}) && FromSeed(t, dt, config, seed, q - {state})
    ensures vc == LegacyFootprints(t, acc) && LegacyRecorded(t, env, dt, config, seed, timeSteps, acc)
  {
  }

  lemma LegacyWorkerStep(t: Trig, env: Environment, dt: real, config: GenerationConfig, seed: State, timeSteps: int,
                         q: set<State>, state: State, q0: set<State>, q': set<State>, processed: nat,
                         vc: seq<Drawable>, acc: seq<State>, vc': seq<Drawable>, acc': seq<State>)
    requires LegacyWorker(t, env, dt, config, seed, timeSteps, q, processed, vc, acc)
    requires state in q && q0 == q - {state}
    requires vc' == LegacyFootprints(t, acc') && LegacyRecorded(t, env, dt, config, seed, timeSteps, acc')
    requires q' >= q0 && |q'| - |q0| == |vc'| - |vc|
    requires forall s :: s in q' - q0 ==> IsSuccessor(t, dt, config, state, s)
    requires state.timeStep >= timeSteps ==> vc' == vc && q' == q0
    requires state.timeStep < timeSteps && q0 == {} && LegacySomeCandidateValid(t, env, dt, config, state) ==> |vc'| > |vc|
    ensures LegacyWorker(t, env, dt, config, seed, timeSteps, q', processed + 1, vc', acc')
  {
    FrontierGrows(t, dt, config, seed, state, q0, q');
    if timeSteps <= seed.timeStep {
      assert state.timeStep >= timeSteps;
    }
    if processed == 0 {
      assert state == seed && q0 == {};
    }
  }

  /** One pass of the worker loop after the pop. */
  method LegacyProcessState(t: Trig, env: Environment, dt: real, state: State, timeSteps: int, config: GenerationConfig,
                            currentStates: StatesQueue, validConverted: seq<Drawable>,
                            ghost seed: State, ghost accepted: seq<State>)
    returns (validConverted': seq<Drawable>, ghost accepted': seq<State>)
    requires FromSeed(t, dt, config, seed, {state})
    requires validConverted == LegacyFootprints(t, accepted)
    requires LegacyRecorded(t, env, dt, config, seed, timeSteps, accepted)
    modifies currentStates
    ensures validConverted' == LegacyFootprints(t, accepted')
    ensures LegacyRecorded(t, env, dt, config, seed, timeSteps, accepted')
    ensures currentStates.queue >= old(currentStates.queue)
    ensures |currentStates.queue| - |old(currentStates.queue)| == |validConverted'| - |validConverted| <= config.yawSteps
    ensures forall s :: s in currentStates.queue - old(currentStates.queue) ==> IsSuccessor(t, dt, config, state, s)
    ensures state.timeStep >= timeSteps ==> validConverted' == validConverted && currentStates.queue == old(currentStates.queue)
    ensures state.timeStep < timeSteps && old(currentStates.queue) == {} && LegacySomeCandidateValid(t, env, dt, config, state) ==>
              |validConverted'| > |validConverted|
    ensures SumBudget(currentStates.queue, timeSteps, config.yawSteps) < SumBudget(old(currentStates.queue), timeSteps, config.yawSteps) + StateBudget(state, timeSteps, config.yawSteps)
    ensures state.timeStep < timeSteps ==>
              forall k :: 0 <= k < config.yawSteps && LegacyCandidateValid(t, env, dt, config, state, k) ==>
                currentStates.Contains(Successor(t, dt, config, state, k))
    ensures Listed(accepted') == Listed(accepted) + (currentStates.queue - old(currentStates.queue))
  {
    validConverted', accepted' := validConverted, accepted;
    if state.timeStep < timeSteps {
      ghost var childBudget := TreeSize(StepsLeft(state, timeSteps) - 1, config.yawSteps);
      ghost var budget0 := SumBudget(currentStates.queue, timeSteps, config.yawSteps);
      validConverted', accepted' :=
        LegacyExpandState(t, env, dt, state, timeSteps, config, currentStates, validConverted, seed, accepted, budget0, childBudget);
      LegacyExpansionEnd(t, env, dt, config, timeSteps, state, old(currentStates.queue), currentStates.queue,
                         validConverted, validConverted', budget0, childBudget);
    }
  }

  /** The `for yaw in yaw_steps` loop of the earlier worker over a state before the horizon. */
  method LegacyExpandState(t: Trig, env: Environment, dt: real, state: State, timeSteps: int, config: GenerationConfig,
                           currentStates: StatesQueue, validConverted: seq<Drawable>,
                           ghost seed: State, ghost accepted: seq<State>, ghost budget0: nat, ghost childBudget: nat)
    returns (validConverted': seq<Drawable>, ghost accepted': seq<State>)
    requires FromSeed(t, dt, config, seed, {state})
    requires validConverted == LegacyFootprints(t, accepted)
    requires LegacyRecorded(t, env, dt, config, seed, timeSteps, accepted)
    requires state.timeStep < timeSteps && childBudget == TreeSize(StepsLeft(state, timeSteps) - 1, config.yawSteps)
    requires budget0 == SumBudget(currentStates.queue, timeSteps, config.yawSteps)
    modifies currentStates
    ensures LegacyExpansion(t, env, dt, config, timeSteps, state, old(currentStates.queue), currentStates.queue,
                            validConverted, validConverted', config.yawSteps, budget0, childBudget)
    ensures validConverted' == LegacyFootprints(t, accepted') && LegacyRecorded(t, env, dt, config, seed, timeSteps, accepted')
    ensures forall k :: 0 <= k < config.yawSteps && LegacyCandidateValid(t, env, dt, config, state, k) ==>
              currentStates.Contains(Successor(t, dt, config, state, k))
    ensures Listed(accepted') == Listed(accepted) + (currentStates.queue - old(currentStates.queue))
  {
    validConverted', accepted' := validConverted, accepted;
    var yawSteps := Linspace(-config.maxYaw, config.maxYaw, config.yawSteps);
    LegacyExpansionStart(t, env, dt, config, timeSteps, state, currentStates.queue, validConverted, budget0, childBudget);
    for i := 0 to |yawSteps|
      invariant LegacyExpansion(t, env, dt, config, timeSteps, state, old(currentStates.queue), currentStates.queue,
                                validConverted, validConverted', i, budget0, childBudget)
      invariant validConverted' == LegacyFootprints(t, accepted') && LegacyRecorded(t, env, dt, config, seed, timeSteps, accepted')
      invariant LegacyTried(t, env, dt, config, state, currentStates.queue, i)
      invariant Listed(accepted') == Listed(accepted) + (currentStates.queue - old(currentStates.queue))
    {
      var transformed := Step(t, state, yawSteps[i], dt);
      ghost var next := transformed.(timeStep := transformed.timeStep + 1);
      SuccessorOfStep(t, dt, config, state, i, yawSteps[i]);
      SuccessorReachable(t, dt, config, seed, state, next);
      ghost var queueBefore, convertedBefore, acceptedBefore := currentStates.queue, validConverted', accepted';
      ghost var coveredBefore := currentStates.Contains(transformed);
      var added;
      validConverted', accepted', added :=
        LegacyTryCandidate(t, env, transformed, timeSteps, currentStates, validConverted', seed, accepted', dt, config);
      LegacyTriedStep(t, env, dt, config, state, queueBefore, currentStates.queue, i, transformed, added);
      LegacyRecordsPushed(old(currentStates.queue), queueBefore, currentStates.queue, accepted, acceptedBefore, accepted', next, added);
      LegacyExpansionStep(t, env, dt, config, timeSteps, state, old(currentStates.queue), queueBefore, currentStates.queue,
                          validConverted, convertedBefore, validConverted', i, budget0, childBudget, next, added);
    }
  }

  /**
   * One sampled heading: with no near state in the frontier and a valid
   * footprint, the footprint is appended to the list, and the candidate,
   * its time step raised, is pushed.
   */
  method LegacyTryCandidate(t: Trig, env: Environment, transformed: State, timeSteps: int,
                            currentStates: StatesQueue, validConverted: seq<Drawable>,
                            ghost seed: State, ghost accepted: seq<State>, ghost dt: real, ghost config: GenerationConfig)
    returns (validConverted': seq<Drawable>, ghost accepted': seq<State>, added: bool)
    requires seed.timeStep <= transformed.timeStep < timeSteps && transformed.velocity == seed.velocity
    requires Reachable(t, dt, config, seed, transformed.(timeStep := transformed.timeStep + 1))
    requires validConverted == LegacyFootprints(t, accepted)
    requires LegacyRecorded(t, env, dt, config, seed, timeSteps, accepted)
    modifies currentStates
    ensures validConverted' == LegacyFootprints(t, accepted')
    ensures LegacyRecorded(t, env, dt, config, seed, timeSteps, accepted')
    ensures added <==> !old(currentStates.Contains(transformed)) && LegacyFootprintValid(t, LegacyFootprint(t, transformed), env)
    ensures added ==> var next := transformed.(timeStep := transformed.timeStep + 1);
                      next !in old(currentStates.queue) &&
                      currentStates.queue == old(currentStates.queue) + {next} &&
                      accepted' == accepted + [next] &&
                      validConverted' == validConverted + [LegacyFootprint(t, transformed)]
    ensures !added ==> currentStates.queue == old(currentStates.queue) && validConverted' == validConverted && accepted' == accepted
  {
    validConverted', accepted', added := validConverted, accepted, false;
    if !currentStates.Contains(transformed) {
      var converted := LegacyFootprint(t, transformed);
      var valid := LegacyIsValid(t, converted, env);
      assert valid.Success?;
      if valid.value {
        validConverted' := validConverted + [converted];
        var next := transformed.(timeStep := transformed.timeStep + 1);
        LegacyContainsIgnoresTime(currentStates, transformed, next);
        assert LegacyFootprint(t, next) == converted;
        accepted' := accepted + [next];
        currentStates.Put(next);
        added := true;
      }
    }
  }

  /** The membership test only looks at position and heading. */
  lemma LegacyContainsIgnoresTime(q: StatesQueue, item: State, other: State)
    requires other.position == item.position && other.orientation == item.orientation
    ensures q.Contains(item) == q.Contains(other)
  {
    forall s | s in q.queue
      ensures Near(s, item, ACCEPTANCE_THRESHOLD, ACCEPTANCE_THRESHOLD) == Near(s, other, ACCEPTANCE_THRESHOLD, ACCEPTANCE_THRESHOLD)
    {
    }
  }

  /**
   * Every one of the first `i` headings whose candidate passes the earlier
   * is_valid has left a state within 0.1 of that candidate in the frontier.
   */
  ghost predicate LegacyTried(t: Trig, env: Environment, dt: real, config: GenerationConfig, parent: State, q: set<State>, i: nat) {
    forall k :: 0 <= k < i && k < config.yawSteps && LegacyCandidateValid(t, env, dt, config, parent, k) ==>
      Covers(q, Successor(t, dt, config, parent, k), ACCEPTANCE_THRESHOLD, ACCEPTANCE_THRESHOLD)
  }

  /** Heading `i` keeps `LegacyTried`, by the same three cases as in the later revision. */
  lemma {:induction false} LegacyTriedStep(t: Trig, env: Environment, dt: real, config: GenerationConfig, parent: State,
                                           q: set<State>, q': set<State>, i: nat, transformed: State, added: bool)
    requires LegacyTried(t, env, dt, config, parent, q, i) && q <= q'
    requires i < config.yawSteps && transformed.(timeStep := transformed.timeStep + 1) == Successor(t, dt, config, parent, i)
    requires added ==> transformed.(timeStep := transformed.timeStep + 1) in q'
    requires !added ==> Covers(q, transformed, ACCEPTANCE_THRESHOLD, ACCEPTANCE_THRESHOLD) ||
                        !LegacyFootprintValid(t, LegacyFootprint(t, transformed), env)
    ensures LegacyTried(t, env, dt, config, parent, q', i + 1)
  {
    var th := ACCEPTANCE_THRESHOLD;
    var next := transformed.(timeStep := transformed.timeStep + 1);
    forall k | 0 <= k < i + 1 && k < config.yawSteps && LegacyCandidateValid(t, env, dt, config, parent, k)
      ensures Covers(q', Successor(t, dt, config, parent, k), th, th)
    {
      if k < i {
        var s :| s in q && Near(s, Successor(t, dt, config, parent, k), th, th);
        assert s in q';
      } else if added {
        NearReflexive(next, th, th);
      } else {
        assert LegacyFootprint(t, next) == LegacyFootprint(t, transformed);
        var s :| s in q && Near(s, transformed, th, th);
        assert Near(s, next, th, th) && s in q';
      }
    }
  }

  /** The state of an expansion after `i` headings, as in the later revision. */
  ghost predicate LegacyExpansion(t: Trig, env: Environment, dt: real, config: GenerationConfig, timeSteps: int,
                                  parent: State, q0: set<State>, q: set<State>, vc0: seq<Drawable>, vc: seq<Drawable>,
                                  i: nat, bound: nat, childBudget: nat)
  {
    q >= q0 &&
    |q| - |q0| == |vc| - |vc0| <= i &&
    (forall s :: s in q - q0 ==> IsSuccessor(t, dt, config, parent, s)) &&
    SumBudget(q, timeSteps, config.yawSteps) <= bound + i * childBudget &&
    Progress(q0, q, i, LegacyValidCandidates(t, env, dt, config, parent))
  }

  lemma LegacyExpansionStart(t: Trig, env: Environment, dt: real, config: GenerationConfig, timeSteps: int,
                             parent: State, q: set<State>, vc: seq<Drawable>, bound: nat, childBudget: nat)
    requires bound == SumBudget(q, timeSteps, config.yawSteps)
    ensures LegacyExpansion(t, env, dt, config, timeSteps, parent, q, q, vc, vc, 0, bound, childBudget)
  {
  }

  lemma LegacyExpansionStep(t: Trig, env: Environment, dt: real, config: GenerationConfig, timeSteps: int,
                            parent: State, q0: set<State>, q: set<State>, q': set<State>,
                            vc0: seq<Drawable>, vc: seq<Drawable>, vc': seq<Drawable>,
                            i: nat, bound: nat, childBudget: nat, next: State, added: bool)
    requires LegacyExpansion(t, env, dt, config, timeSteps, parent, q0, q, vc0, vc, i, bound, childBudget)
    requires parent.timeStep < timeSteps && childBudget == TreeSize(StepsLeft(parent, timeSteps) - 1, config.yawSteps)
    requires i < config.yawSteps && next == Successor(t, dt, config, parent, i)
    requires q == {} && i in LegacyValidCandidates(t, env, dt, config, parent) ==> added
    requires added ==> next !in q && q' == q + {next} && |vc'| == |vc| + 1
    requires !added ==> q' == q && vc' == vc
    ensures LegacyExpansion(t, env, dt, config, timeSteps, parent, q0, q', vc0, vc', i + 1, bound, childBudget)
  {
    BudgetStep(q, q', next, timeSteps, config.yawSteps, i, bound, childBudget);
    assert IsSuccessor(t, dt, config, parent, next);
    ChildrenStep(t, dt, config, parent, q0, q, q', next);
    ProgressStep(q0, q, q', i, LegacyValidCandidates(t, env, dt, config, parent));
  }

  lemma LegacyExpansionEnd(t: Trig, env: Environment, dt: real, config: GenerationConfig, timeSteps: int,
                           parent: State, q0: set<State>, q: set<State>, vc0: seq<Drawable>, vc: seq<Drawable>,
                           bound: nat, childBudget: nat)
    requires LegacyExpansion(t, env, dt, config, timeSteps, parent, q0, q, vc0, vc, config.yawSteps, bound, childBudget)
    requires parent.timeStep < timeSteps && childBudget == TreeSize(StepsLeft(parent, timeSteps) - 1, config.yawSteps)
    ensures SumBudget(q, timeSteps, config.yawSteps) < bound + StateBudget(parent, timeSteps, config.yawSteps)
    ensures q0 == {} && LegacySomeCandidateValid(t, env, dt, config, parent) ==> |vc| > |vc0|
  {
    assert SumBudget(q, timeSteps, config.yawSteps) <= bound + config.yawSteps * childBudget;
    ExpansionBudget(q, parent, timeSteps, config.yawSteps, bound, childBudget);
    if q0 == {} && LegacySomeCandidateValid(t, env, dt, config, parent) {
      var k :| 0 <= k < config.yawSteps && LegacyCandidateValid(t, env, dt, config, parent, k);
      assert k in LegacyValidCandidates(t, env, dt, config, parent);
    }
  }
}
