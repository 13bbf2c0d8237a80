/**
 * The reachable-state generator (GenerationHelp.generate_states in
 * common/generation.py), run by one worker: pop a state, and if it is before
 * the horizon try every sampled heading change; a candidate with no near
 * duplicate in the frontier and a valid footprint is recorded under its new
 * time step and pushed back.
 */
module Generation {
  import opened Wrappers
  import opened Geometry
  import opened Coords
  import opened States
  import opened Dicts
  import opened Validity
  import opened Budget
  import opened Frontier

  datatype GenerationConfig = GenerationConfig(
    maxYaw: real,
    yawSteps: nat,
    numThreads: nat,
    positionThreshold: real,
    angleThreshold: real)

  /** The class constants of GenerationConfig. */
  function DefaultConfig(t: Trig): (c: GenerationConfig)
    ensures c.maxYaw == t.pi / 16.0 && c.yawSteps == 8 && c.numThreads == 8
    ensures c.positionThreshold == 0.5
    ensures c.angleThreshold == 0.85 * c.maxYaw && 0.0 < c.angleThreshold < c.maxYaw
    ensures NonNegativeThresholds(c)
  {
    var maxYaw := t.pi / 16.0;
    GenerationConfig(maxYaw, 8, 8, 0.5, maxYaw * 0.85)
  }

  /** What the frontier needs for every stored state to count as contained. */
  predicate NonNegativeThresholds(c: GenerationConfig) {
    c.positionThreshold >= 0.0 && c.angleThreshold >= 0.0
  }

  /**
   * The candidate made from `p` for sampled heading change `k`, its time
   * step raised as when it is pushed.
   */
  function Successor(t: Trig, dt: real, config: GenerationConfig, p: State, k: nat): (s: State)
    requires k < config.yawSteps
    ensures s.timeStep == p.timeStep + 1 && s.velocity == p.velocity
    ensures s.orientation - p.orientation == Linspace(-config.maxYaw, config.maxYaw, config.yawSteps)[k]
  {
    Step(t, p, Linspace(-config.maxYaw, config.maxYaw, config.yawSteps)[k], dt).(timeStep := p.timeStep + 1)
  }

  lemma SuccessorOfStep(t: Trig, dt: real, config: GenerationConfig, p: State, k: nat, yaw: real)
    requires k < config.yawSteps && yaw == Linspace(-config.maxYaw, config.maxYaw, config.yawSteps)[k]
    ensures Successor(t, dt, config, p, k) == Step(t, p, yaw, dt).(timeStep := p.timeStep + 1)
  {
  }

  /** `s` is one of the candidates of `p`. */
  ghost predicate IsSuccessor(t: Trig, dt: real, config: GenerationConfig, p: State, s: State) {
    exists k :: 0 <= k < config.yawSteps && Successor(t, dt, config, p, k) == s
  }

  predicate HeadingIndices(config: GenerationConfig, ks: seq<nat>) {
    forall i :: 0 <= i < |ks| ==> ks[i] < config.yawSteps
  }

  /** The state reached from `seed` by taking heading change ks[0], then ks[1], and so on. */
  function Follow(t: Trig, dt: real, config: GenerationConfig, seed: State, ks: seq<nat>): (s: State)
    requires HeadingIndices(config, ks)
    ensures s.timeStep == seed.timeStep + |ks| && s.velocity == seed.velocity
  {
    if ks == [] then seed
    else Successor(t, dt, config, Follow(t, dt, config, seed, ks[..|ks| - 1]), ks[|ks| - 1])
  }

  /** `s` is the end of a chain of candidates that starts at `seed`. */
  ghost predicate Reachable(t: Trig, dt: real, config: GenerationConfig, seed: State, s: State) {
    exists ks :: HeadingIndices(config, ks) && Follow(t, dt, config, seed, ks) == s
  }

  lemma SeedReachable(t: Trig, dt: real, config: GenerationConfig, seed: State)
    ensures Reachable(t, dt, config, seed, seed)
  {
    assert Follow(t, dt, config, seed, []) == seed;
  }

  /** A candidate of a reachable state is reachable: the chain grows by one heading change. */
  lemma SuccessorReachable(t: Trig, dt: real, config: GenerationConfig, seed: State, p: State, s: State)
    requires Reachable(t, dt, config, seed, p) && IsSuccessor(t, dt, config, p, s)
    ensures Reachable(t, dt, config, seed, s)
  {
    var ks: seq<nat> :| HeadingIndices(config, ks) && Follow(t, dt, config, seed, ks) == p;
    var k: nat :| k < config.yawSteps && Successor(t, dt, config, p, k) == s;
    FollowExtend(t, dt, config, seed, ks, k);
  }

  /** Taking one more heading change after a chain. */
  lemma FollowExtend(t: Trig, dt: real, config: GenerationConfig, seed: State, ks: seq<nat>, k: nat)
    requires HeadingIndices(config, ks) && k < config.yawSteps
    ensures HeadingIndices(config, ks + [k])
    ensures Follow(t, dt, config, seed, ks + [k]) == Successor(t, dt, config, Follow(t, dt, config, seed, ks), k)
  {
    var ks' := ks + [k];
    assert ks'[..|ks'| - 1] == ks && ks'[|ks'| - 1] == k;
    forall i | 0 <= i < |ks'| ensures ks'[i] < config.yawSteps {
      if i < |ks| {
        assert ks'[i] == ks[i];
      }
    }
  }

  /** The rectangle recorded for a state: DrawHelp.convert_to_drawable with the configured car size. */
  function Footprint(t: Trig, s: State): Drawable {
    ConvertToDrawable(t, s.position, s.orientation, CAR_LENGTH, CAR_WIDTH)
  }

  /** The recorded footprints, in the shape of the recorded states. */
  function Footprints(t: Trig, accepted: Dict<nat, State>): Dict<nat, Drawable> {
    MapValues(accepted, (s: State) => Footprint(t, s))
  }

  /** is_valid held for the footprint. */
  ghost predicate FootprintValid(t: Trig, d: Drawable, env: Environment) {
    var corners := GetAllPos(t, d, Some(CAR_LENGTH), Some(CAR_WIDTH));
    corners.Success? && CornersValid(corners.value, env)
  }

  /** The footprint of candidate `k` of `p` passes is_valid. */
  ghost predicate CandidateValid(t: Trig, env: Environment, dt: real, config: GenerationConfig, p: State, k: nat)
    requires k < config.yawSteps
  {
    FootprintValid(t, Footprint(t, Successor(t, dt, config, p, k)), env)
  }

  ghost predicate SomeCandidateValid(t: Trig, env: Environment, dt: real, config: GenerationConfig, p: State) {
    exists k :: 0 <= k < config.yawSteps && CandidateValid(t, env, dt, config, p, k)
  }

  /** The headings of `p` whose candidate has a valid footprint. */
  ghost function ValidCandidates(t: Trig, env: Environment, dt: real, config: GenerationConfig, p: State): set<nat> {
    set k: nat | k < config.yawSteps && CandidateValid(t, env, dt, config, p, k)
  }

  /**
   * What holds of the states recorded so far: keys are distinct and lie
   * after the seed's time step and no later than the horizon; every state is
   * filed under its own time step, keeps the seed's velocity, has a valid
   * footprint and is reached from the seed by a chain of candidates.
   */
  ghost predicate RecordedStates(t: Trig, env: Environment, dt: real, config: GenerationConfig, seed: State, timeSteps: int,
                                 accepted: Dict<nat, State>) {
    DistinctKeys(accepted) &&
    (forall i :: 0 <= i < |accepted| ==> seed.timeStep < accepted[i].key <= timeSteps) &&
    AllValues(accepted, (key: nat, s: State) => AcceptedAt(t, env, dt, config, seed, key, s))
  }

  /** A state recorded under time step `key`. */
  ghost predicate AcceptedAt(t: Trig, env: Environment, dt: real, config: GenerationConfig, seed: State, key: nat, s: State) {
    s.timeStep == key && s.velocity == seed.velocity && FootprintValid(t, Footprint(t, s), env) && Reachable(t, dt, config, seed, s)
  }

  /** Every state in the frontier is reached from the seed and keeps its velocity. */
  ghost predicate FromSeed(t: Trig, dt: real, config: GenerationConfig, seed: State, q: set<State>) {
    forall s :: s in q ==> s.timeStep >= seed.timeStep && s.velocity == seed.velocity && Reachable(t, dt, config, seed, s)
  }

  /** The seed and the states recorded so far. */
  ghost function Known(seed: State, recorded: set<State>): set<State> {
    {seed} + recorded
  }

  /**
   * Only validated candidates are pushed, so every recorded state is a
   * candidate of the seed or of another recorded state.
   */
  ghost predicate Lineage(t: Trig, dt: real, config: GenerationConfig, seed: State, recorded: set<State>) {
    forall s :: s in recorded ==> exists p :: p in Known(seed, recorded) && IsSuccessor(t, dt, config, p, s)
  }

  /**
   * A recorded state more than one step after the seed was not pushed by the
   * seed: its parent is itself recorded, so a chain through a rejected
   * candidate is never recorded.
   */
  lemma RecordedParent(t: Trig, dt: real, config: GenerationConfig, seed: State, recorded: set<State>, s: State)
    requires Lineage(t, dt, config, seed, recorded) && s in recorded && s.timeStep > seed.timeStep + 1
    ensures exists p :: p in recorded && p.timeStep + 1 == s.timeStep && IsSuccessor(t, dt, config, p, s)
  {
    var p :| p in Known(seed, recorded) && IsSuccessor(t, dt, config, p, s);
    var k :| 0 <= k < config.yawSteps && Successor(t, dt, config, p, k) == s;
    assert p != seed && p in recorded;
  }

  /** If `r` is before the horizon, each of its valid candidates has a near state in `known`. */
  ghost predicate Explored(t: Trig, env: Environment, dt: real, config: GenerationConfig, timeSteps: int,
                           r: State, known: set<State>) {
    r.timeStep < timeSteps ==>
      forall k :: 0 <= k < config.yawSteps && CandidateValid(t, env, dt, config, r, k) ==>
        Covers(known, Successor(t, dt, config, r, k), config.positionThreshold, config.angleThreshold)
  }

  /** Every state of `known` is explored within `known`: nothing valid is missing up to nearness. */
  ghost predicate Closed(t: Trig, env: Environment, dt: real, config: GenerationConfig, timeSteps: int, known: set<State>) {
    forall r :: r in known ==> Explored(t, env, dt, config, timeSteps, r, known)
  }

  /** Exploration stays true as `known` grows. */
  lemma ExploredGrows(t: Trig, env: Environment, dt: real, config: GenerationConfig, timeSteps: int,
                      r: State, known: set<State>, known': set<State>)
    requires Explored(t, env, dt, config, timeSteps, r, known) && known <= known'
    ensures Explored(t, env, dt, config, timeSteps, r, known')
  {
    var pt, at := config.positionThreshold, config.angleThreshold;
    if r.timeStep < timeSteps {
      forall k | 0 <= k < config.yawSteps && CandidateValid(t, env, dt, config, r, k)
        ensures Covers(known', Successor(t, dt, config, r, k), pt, at)
      {
        var x :| x in known && Near(x, Successor(t, dt, config, r, k), pt, at);
        assert x in known';
      }
    }
  }

  /**
   * What the worker loop keeps about lineage and coverage: the frontier
   * holds known states, every known state is queued or done, every recorded
   * state descends from a known one, and every done state is explored.
   */
  ghost predicate Exploring(t: Trig, env: Environment, dt: real, config: GenerationConfig, seed: State, timeSteps: int,
                            q: set<State>, done: set<State>, recorded: set<State>) {
    q <= Known(seed, recorded) && Known(seed, recorded) <= q + done &&
    Lineage(t, dt, config, seed, recorded) &&
    forall r :: r in done ==> Explored(t, env, dt, config, timeSteps, r, Known(seed, recorded))
  }

  lemma ExploringStart(t: Trig, env: Environment, dt: real, config: GenerationConfig, seed: State, timeSteps: int)
    ensures Exploring(t, env, dt, config, seed, timeSteps, {seed}, {}, {})
  {
  }

  /**
   * One pass: `state` is popped and expanded. The states it pushed are the
   * ones it recorded, all candidates of `state`, and each of its valid
   * candidates has a near state in the frontier afterwards.
   */
  lemma ExploringStep(t: Trig, env: Environment, dt: real, config: GenerationConfig, seed: State, timeSteps: int,
                      q: set<State>, state: State, q0: set<State>, q': set<State>, done: set<State>,
                      recorded: set<State>, recorded': set<State>)
    requires Exploring(t, env, dt, config, seed, timeSteps, q, done, recorded)
    requires state in q && q0 == q - {state} && q' >= q0
    requires forall s :: s in q' - q0 ==> IsSuccessor(t, dt, config, state, s)
    requires recorded' == recorded + (q' - q0)
    requires Explored(t, env, dt, config, timeSteps, state, q')
    ensures Exploring(t, env, dt, config, seed, timeSteps, q', done + {state}, recorded')
  {
    var known, known' := Known(seed, recorded), Known(seed, recorded');
    assert q' <= known';
    forall s | s in recorded' ensures exists p :: p in known' && IsSuccessor(t, dt, config, p, s) {
      if s in recorded {
        var p :| p in known && IsSuccessor(t, dt, config, p, s);
        assert p in known';
      } else {
        assert state in known';
      }
    }
    forall r | r in done + {state} ensures Explored(t, env, dt, config, timeSteps, r, known') {
      if r == state {
        ExploredGrows(t, env, dt, config, timeSteps, r, q', known');
      } else {
        ExploredGrows(t, env, dt, config, timeSteps, r, known, known');
      }
    }
  }

  /** Once the frontier is empty every known state is done, so the known states are closed. */
  lemma ExploringEnd(t: Trig, env: Environment, dt: real, config: GenerationConfig, seed: State, timeSteps: int,
                     done: set<State>, recorded: set<State>)
    requires Exploring(t, env, dt, config, seed, timeSteps, {}, done, recorded)
    ensures Closed(t, env, dt, config, timeSteps, Known(seed, recorded))
  {
  }

  /** The frontier's coverage of a popped state's candidates, read as exploration. */
  lemma CoverageExplored(t: Trig, env: Environment, dt: real, config: GenerationConfig, timeSteps: int,
                         state: State, q: StatesQueue)
    requires q.positionThreshold == config.positionThreshold && q.angleThreshold == config.angleThreshold
    requires state.timeStep < timeSteps ==>
               forall k :: 0 <= k < config.yawSteps && CandidateValid(t, env, dt, config, state, k) ==>
                 q.Contains(Successor(t, dt, config, state, k))
    ensures Explored(t, env, dt, config, timeSteps, state, q.queue)
  {
  }

  /**
   * Within one expansion the pushed states are exactly the recorded ones:
   * the record gains a state when and only when the frontier does.
   */
  lemma RecordsPushed(q0: set<State>, q: set<State>, q': set<State>,
                      acc0: Dict<nat, State>, acc: Dict<nat, State>, acc': Dict<nat, State>, next: State, added: bool)
    requires q >= q0 && ValueSet(acc) == ValueSet(acc0) + (q - q0) && DistinctKeys(acc)
    requires added ==> next !in q && q' == q + {next} && acc' == Append(acc, next.timeStep, next)
    requires !added ==> q' == q && acc' == acc
    ensures q' >= q0 && ValueSet(acc') == ValueSet(acc0) + (q' - q0)
  {
    if added {
      AppendValueSet(acc, next.timeStep, next);
      assert next !in q0;
      assert q' - q0 == (q - q0) + {next};
    }
  }

  /**
   * The worker loop: runs until the frontier is empty. Returns the recorded
   * footprints by time step and the number of states processed; `accepted`
   * holds, in the same shape, the states the footprints were made from.
   */
  method GenerateStates(t: Trig, env: Environment, dt: real, seed: State, timeSteps: int, config: GenerationConfig)
    returns (validConverted: Dict<nat, Drawable>, numStatesProcessed: nat, ghost accepted: Dict<nat, State>)
    requires NonNegativeThresholds(config)
    ensures numStatesProcessed == 1 + TotalCount(validConverted)
    ensures validConverted == Footprints(t, accepted)
    ensures RecordedStates(t, env, dt, config, seed, timeSteps, accepted)
    ensures timeSteps <= seed.timeStep ==> validConverted == [] && numStatesProcessed == 1
    ensures seed.timeStep < timeSteps && SomeCandidateValid(t, env, dt, config, seed) ==> TotalCount(validConverted) > 0
    ensures Lineage(t, dt, config, seed, ValueSet(accepted))
    ensures Closed(t, env, dt, config, timeSteps, Known(seed, ValueSet(accepted)))
  {
    numStatesProcessed := 0;
    validConverted := [];
    accepted := [];
    var currentStates := new StatesQueue(config.positionThreshold, config.angleThreshold);
    currentStates.Put(seed);
    WorkerStart(t, env, dt, config, seed, timeSteps);
    ghost var done: set<State> := {};
    ExploringStart(t, env, dt, config, seed, timeSteps);
    while currentStates.queue != {}
      invariant fresh(currentStates)
      invariant currentStates.positionThreshold == config.positionThreshold
      invariant currentStates.angleThreshold == config.angleThreshold
      invariant Worker(t, env, dt, config, seed, timeSteps, currentStates.queue, numStatesProcessed, validConverted, accepted)
      invariant Exploring(t, env, dt, config, seed, timeSteps, currentStates.queue, done, ValueSet(accepted))
      decreases SumBudget(currentStates.queue, timeSteps, config.yawSteps)
    {
      ghost var before := currentStates.queue;
      var state := currentStates.Get();
      SumBudgetRemove(before, state, timeSteps, config.yawSteps);
      ghost var afterGet, convertedBefore, acceptedBefore := currentStates.queue, validConverted, accepted;
      WorkerPop(t, env, dt, config, seed, timeSteps, before, state, numStatesProcessed, validConverted, accepted);
      validConverted, accepted := ProcessState(t, env, dt, state, timeSteps, config, currentStates, validConverted, seed, accepted);
      WorkerStep(t, env, dt, config, seed, timeSteps, before, state, afterGet, currentStates.queue, numStatesProcessed,
                 convertedBefore, acceptedBefore, validConverted, accepted);
      CoverageExplored(t, env, dt, config, timeSteps, state, currentStates);
      ExploringStep(t, env, dt, config, seed, timeSteps, before, state, afterGet, currentStates.queue, done,
                    ValueSet(acceptedBefore), ValueSet(accepted));
      done := done + {state};
      numStatesProcessed := numStatesProcessed + 1;
    }
    ExploringEnd(t, env, dt, config, seed, timeSteps, done, ValueSet(accepted));
  }

  /**
   * What holds between passes of the worker loop: every popped state was
   * counted and every pushed one recorded, the frontier holds reached states
   * only, the recorded footprints match the recorded states, and once the
   * seed has been expanded something was recorded if one of its candidates
   * was valid.
   */
  ghost predicate Worker(t: Trig, env: Environment, dt: real, config: GenerationConfig, seed: State, timeSteps: int,
                         q: set<State>, processed: nat, vc: Dict<nat, Drawable>, acc: Dict<nat, State>)
  {
    processed + |q| == 1 + TotalCount(vc) &&
    FromSeed(t, dt, config, seed, q) &&
    vc == Footprints(t, acc) &&
    RecordedStates(t, env, dt, config, seed, timeSteps, acc) &&
    (timeSteps <= seed.timeStep ==> vc == []) &&
    (processed == 0 ==> q == {seed} && vc == []) &&
    (processed > 0 && seed.timeStep < timeSteps && SomeCandidateValid(t, env, dt, config, seed) ==> TotalCount(vc) > 0)
  }

  lemma WorkerStart(t: Trig, env: Environment, dt: real, config: GenerationConfig, seed: State, timeSteps: int)
    ensures Worker(t, env, dt, config, seed, timeSteps, {seed}, 0, [], [])
  {
    SeedReachable(t, dt, config, seed);
    assert Footprints(t, []) == [];
  }

  /** What the pass needs of a popped state. */
  lemma WorkerPop(t: Trig, env: Environment, dt: real, config: GenerationConfig, seed: State, timeSteps: int,
                  q: set<State>, state: State, processed: nat, vc: Dict<nat, Drawable>, acc: Dict<nat, State>)
    requires Worker(t, env, dt, config, seed, timeSteps, q, processed, vc, acc) && state in q
    ensures FromSeed(t, dt, config, seed, {state}) && FromSeed(t, dt, config, seed, q - {state})
    ensures vc == Footprints(t, acc) && RecordedStates(t, env, dt, config, seed, timeSteps, acc)
  {
  }

  /** One pass of the worker loop keeps the loop's invariant with one more state processed. */
  lemma WorkerStep(t: Trig, env: Environment, dt: real, config: GenerationConfig, seed: State, timeSteps: int,
                   q: set<State>, state: State, q0: set<State>, q': set<State>, processed: nat,
                   vc: Dict<nat, Drawable>, acc: Dict<nat, State>, vc': Dict<nat, Drawable>, acc': Dict<nat, State>)
    requires Worker(t, env, dt, config, seed, timeSteps, q, processed, vc, acc)
    requires state in q && q0 == q - {state}
    requires vc' == Footprints(t, acc') && RecordedStates(t, env, dt, config, seed, timeSteps, acc')
    requires q' >= q0 && |q'| - |q0| == TotalCount(vc') - TotalCount(vc)
    requires forall s :: s in q' - q0 ==> IsSuccessor(t, dt, config, state, s)
    requires state.timeStep >= timeSteps ==> vc' == vc && q' == q0
    requires state.timeStep < timeSteps && q0 == {} && SomeCandidateValid(t, env, dt, config, state) ==>
               TotalCount(vc') > TotalCount(vc)
    ensures Worker(t, env, dt, config, seed, timeSteps, q', processed + 1, vc', acc')
  {
    FrontierGrows(t, dt, config, seed, state, q0, q');
    if timeSteps <= seed.timeStep {
      assert state.timeStep >= timeSteps;
    }
    if processed == 0 {
      assert state == seed && q0 == {};
    }
  }

  /** The frontier after an expansion of a reached state holds only reached states. */
  lemma FrontierGrows(t: Trig, dt: real, config: GenerationConfig, seed: State, parent: State, q0: set<State>, q: set<State>)
    requires FromSeed(t, dt, config, seed, q0) && FromSeed(t, dt, config, seed, {parent})
    requires q >= q0 && forall s :: s in q - q0 ==> IsSuccessor(t, dt, config, parent, s)
    ensures FromSeed(t, dt, config, seed, q)
  {
    forall s | s in q
      ensures s.timeStep >= seed.timeStep && s.velocity == seed.velocity && Reachable(t, dt, config, seed, s)
    {
      if s !in q0 {
        SuccessorReachable(t, dt, config, seed, parent, s);
        var k :| 0 <= k < config.yawSteps && Successor(t, dt, config, parent, k) == s;
      }
    }
  }

  /**
   * The body of the worker loop after the pop: expand `state` if it is before
   * the horizon, otherwise do nothing.
   */
  method ProcessState(t: Trig, env: Environment, dt: real, state: State, timeSteps: int, config: GenerationConfig,
                      currentStates: StatesQueue, validConverted: Dict<nat, Drawable>,
                      ghost seed: State, ghost accepted: Dict<nat, State>)
    returns (validConverted': Dict<nat, Drawable>, ghost accepted': Dict<nat, State>)
    requires NonNegativeThresholds(config)
    requires currentStates.positionThreshold == config.positionThreshold
    requires currentStates.angleThreshold == config.angleThreshold
    requires FromSeed(t, dt, config, seed, {state})
    requires validConverted == Footprints(t, accepted)
    requires RecordedStates(t, env, dt, config, seed, timeSteps, accepted)
    modifies currentStates
    ensures validConverted' == Footprints(t, accepted')
    ensures RecordedStates(t, env, dt, config, seed, timeSteps, accepted')
    ensures currentStates.queue >= old(currentStates.queue)
    ensures |currentStates.queue| - |old(currentStates.queue)| == TotalCount(validConverted') - TotalCount(validConverted) <= config.yawSteps
    ensures forall s :: s in currentStates.queue - old(currentStates.queue) ==> IsSuccessor(t, dt, config, state, s)
    ensures state.timeStep >= timeSteps ==> validConverted' == validConverted && currentStates.queue == old(currentStates.queue)
    ensures state.timeStep < timeSteps && old(currentStates.queue) == {} && SomeCandidateValid(t, env, dt, config, state) ==>
              TotalCount(validConverted') > TotalCount(validConverted)
    ensures SumBudget(currentStates.queue, timeSteps, config.yawSteps) < SumBudget(old(currentStates.queue), timeSteps, config.yawSteps) + StateBudget(state, timeSteps, config.yawSteps)
    ensures state.timeStep < timeSteps ==>
              forall k :: 0 <= k < config.yawSteps && CandidateValid(t, env, dt, config, state, k) ==>
                currentStates.Contains(Successor(t, dt, config, state, k))
    ensures ValueSet(accepted') == ValueSet(accepted) + (currentStates.queue - old(currentStates.queue))
  {
    validConverted', accepted' := validConverted, accepted;
    if state.timeStep < timeSteps {
      ghost var childBudget := TreeSize(StepsLeft(state, timeSteps) - 1, config.yawSteps);
      ghost var budget0 := SumBudget(currentStates.queue, timeSteps, config.yawSteps);
      validConverted', accepted' :=
        ExpandState(t, env, dt, state, timeSteps, config, currentStates, validConverted, seed, accepted, budget0, childBudget);
      ExpansionEnd(t, env, dt, config, timeSteps, state, old(currentStates.queue), currentStates.queue,
                   validConverted, validConverted', budget0, childBudget);
    }
  }

  /** The `for yaw in yaw_steps` loop over a state before the horizon. */
  method ExpandState(t: Trig, env: Environment, dt: real, state: State, timeSteps: int, config: GenerationConfig,
                     currentStates: StatesQueue, validConverted: Dict<nat, Drawable>,
                     ghost seed: State, ghost accepted: Dict<nat, State>, ghost budget0: nat, ghost childBudget: nat)
    returns (validConverted': Dict<nat, Drawable>, ghost accepted': Dict<nat, State>)
    requires NonNegativeThresholds(config)
    requires currentStates.positionThreshold == config.positionThreshold
    requires currentStates.angleThreshold == config.angleThreshold
    requires FromSeed(t, dt, config, seed, {state})
    requires validConverted == Footprints(t, accepted)
    requires RecordedStates(t, env, dt, config, seed, timeSteps, accepted)
    requires state.timeStep < timeSteps && childBudget == TreeSize(StepsLeft(state, timeSteps) - 1, config.yawSteps)
    requires budget0 == SumBudget(currentStates.queue, timeSteps, config.yawSteps)
    modifies currentStates
    ensures Expansion(t, env, dt, config, timeSteps, state, old(currentStates.queue), currentStates.queue,
                      validConverted, validConverted', config.yawSteps, budget0, childBudget)
    ensures validConverted' == Footprints(t, accepted') && RecordedStates(t, env, dt, config, seed, timeSteps, accepted')
    ensures forall k :: 0 <= k < config.yawSteps && CandidateValid(t, env, dt, config, state, k) ==>
              currentStates.Contains(Successor(t, dt, config, state, k))
    ensures ValueSet(accepted') == ValueSet(accepted) + (currentStates.queue - old(currentStates.queue))
  {
    validConverted', accepted' := validConverted, accepted;
    var yawSteps := Linspace(-config.maxYaw, config.maxYaw, config.yawSteps);
    ExpansionStart(t, env, dt, config, timeSteps, state, currentStates.queue, validConverted, budget0, childBudget);
    for i := 0 to |yawSteps|
      invariant Expansion(t, env, dt, config, timeSteps, state, old(currentStates.queue), currentStates.queue,
                          validConverted, validConverted', i, budget0, childBudget)
      invariant validConverted' == Footprints(t, accepted') && RecordedStates(t, env, dt, config, seed, timeSteps, accepted')
      invariant Tried(t, env, dt, config, state, currentStates.queue, i)
      invariant ValueSet(accepted') == ValueSet(accepted) + (currentStates.queue - old(currentStates.queue))
    {
      var transformed := Step(t, state, yawSteps[i], dt);
      ghost var next := transformed.(timeStep := transformed.timeStep + 1);
      SuccessorOfStep(t, dt, config, state, i, yawSteps[i]);
      SuccessorReachable(t, dt, config, seed, state, next);
      ghost var queueBefore, convertedBefore, acceptedBefore := currentStates.queue, validConverted', accepted';
      ghost var coveredBefore := currentStates.Contains(transformed);
      var added;
      validConverted', accepted', added :=
        TryCandidate(t, env, transformed, timeSteps, currentStates, validConverted', seed, accepted', dt, config);
      TriedStep(t, env, dt, config, state, queueBefore, currentStates.queue, i, transformed, added);
      RecordsPushed(old(currentStates.queue), queueBefore, currentStates.queue, accepted, acceptedBefore, accepted', next, added);
      ExpansionStep(t, env, dt, config, timeSteps, state, old(currentStates.queue), queueBefore, currentStates.queue,
                    validConverted, convertedBefore, validConverted', i, budget0, childBudget, next, added);
    }
  }

  /**
   * One sampled heading of the expansion. `transformed` is the stepped copy,
   * still carrying the parent's time step. If the frontier holds nothing
   * near it and its footprint is valid, it is filed under its raised time
   * step and pushed; otherwise nothing changes.
   */
  method TryCandidate(t: Trig, env: Environment, transformed: State, timeSteps: int,
                      currentStates: StatesQueue, validConverted: Dict<nat, Drawable>,
                      ghost seed: State, ghost accepted: Dict<nat, State>, ghost dt: real, ghost config: GenerationConfig)
    returns (validConverted': Dict<nat, Drawable>, ghost accepted': Dict<nat, State>, added: bool)
    requires currentStates.positionThreshold >= 0.0 && currentStates.angleThreshold >= 0.0
    requires seed.timeStep <= transformed.timeStep < timeSteps && transformed.velocity == seed.velocity
    requires Reachable(t, dt, config, seed, transformed.(timeStep := transformed.timeStep + 1))
    requires validConverted == Footprints(t, accepted)
    requires RecordedStates(t, env, dt, config, seed, timeSteps, accepted)
    modifies currentStates
    ensures validConverted' == Footprints(t, accepted')
    ensures RecordedStates(t, env, dt, config, seed, timeSteps, accepted')
    ensures added <==> !old(currentStates.Contains(transformed)) && FootprintValid(t, Footprint(t, transformed), env)
    ensures added ==> var next := transformed.(timeStep := transformed.timeStep + 1);
                      next !in old(currentStates.queue) &&
                      currentStates.queue == old(currentStates.queue) + {next} &&
                      accepted' == Append(accepted, next.timeStep, next) &&
                      validConverted' == Append(validConverted, next.timeStep, Footprint(t, next)) &&
                      TotalCount(validConverted') == TotalCount(validConverted) + 1
    ensures !added ==> currentStates.queue == old(currentStates.queue) && validConverted' == validConverted && accepted' == accepted
  {
    validConverted', accepted', added := validConverted, accepted, false;
    if !currentStates.Contains(transformed) {
      var converted := Footprint(t, transformed);
      var valid := IsValid(t, converted, env);
      assert valid.Success?;
      if valid.value {
        ContainsIgnoresVelocityAndTime(currentStates, transformed, transformed.velocity, transformed.timeStep + 1);
        var next := transformed.(timeStep := transformed.timeStep + 1);
        assert Footprint(t, next) == converted;
        AppendMapValues(accepted, next.timeStep, next, (s: State) => Footprint(t, s));
        validConverted' := Append(validConverted, next.timeStep, converted);
        accepted' := Append(accepted, next.timeStep, next);
        RecordedAppend(t, env, dt, config, seed, timeSteps, accepted, next);
        currentStates.Put(next);
        added := true;
      }
    }
  }

  /**
   * What the expansion of `parent` has done after `i` sampled headings: the
   * frontier only grew, by as many states as were recorded, each a candidate
   * of the parent; the frontier's budget grew by at most `i` children's budgets; and a
   * frontier that was empty is no longer empty once a valid candidate has
   * been tried.
   */
  ghost predicate Expansion(t: Trig, env: Environment, dt: real, config: GenerationConfig, timeSteps: int,
                            parent: State, q0: set<State>, q: set<State>, vc0: Dict<nat, Drawable>, vc: Dict<nat, Drawable>,
                            i: nat, bound: nat, childBudget: nat)
  {
    q >= q0 &&
    |q| - |q0| == TotalCount(vc) - TotalCount(vc0) <= i &&
    (forall s :: s in q - q0 ==> IsSuccessor(t, dt, config, parent, s)) &&
    SumBudget(q, timeSteps, config.yawSteps) <= bound + i * childBudget &&
    Progress(q0, q, i, ValidCandidates(t, env, dt, config, parent))
  }

  /**
   * An empty frontier is no longer empty once one of the first `i` headings
   * in `valid` has been tried.
   */
  ghost predicate Progress(q0: set<State>, q: set<State>, i: nat, valid: set<nat>) {
    q0 == {} && (exists k :: k in valid && k < i) ==> q != {}
  }

  lemma ProgressStep(q0: set<State>, q: set<State>, q': set<State>, i: nat, valid: set<nat>)
    requires Progress(q0, q, i, valid) && q' >= q
    requires q == {} && i in valid ==> q' != {}
    ensures Progress(q0, q', i + 1, valid)
  {
    if q0 == {} && exists k :: k in valid && k < i + 1 {
      var k :| k in valid && k < i + 1;
      if k < i {
        assert q != {};
      }
    }
  }

  /**
   * Every one of the first `i` headings whose candidate has a valid
   * footprint has left a state near that candidate in the frontier: it was
   * pushed, or a near state was there already.
   */
  ghost predicate Tried(t: Trig, env: Environment, dt: real, config: GenerationConfig, parent: State, q: set<State>, i: nat) {
    forall k :: 0 <= k < i && k < config.yawSteps && CandidateValid(t, env, dt, config, parent, k) ==>
      Covers(q, Successor(t, dt, config, parent, k), config.positionThreshold, config.angleThreshold)
  }

  /**
   * Heading `i` keeps `Tried`: earlier witnesses stay in the grown frontier,
   * an added candidate is its own witness, and a candidate turned away with a
   * valid footprint was near a stored state already, whatever its time step.
   */
  lemma {:induction false} TriedStep(t: Trig, env: Environment, dt: real, config: GenerationConfig, parent: State,
                                     q: set<State>, q': set<State>, i: nat, transformed: State, added: bool)
    requires NonNegativeThresholds(config)
    requires Tried(t, env, dt, config, parent, q, i) && q <= q'
    requires i < config.yawSteps && transformed.(timeStep := transformed.timeStep + 1) == Successor(t, dt, config, parent, i)
    requires added ==> transformed.(timeStep := transformed.timeStep + 1) in q'
    requires !added ==> Covers(q, transformed, config.positionThreshold, config.angleThreshold) ||
                        !FootprintValid(t, Footprint(t, transformed), env)
    ensures Tried(t, env, dt, config, parent, q', i + 1)
  {
    var pt, at := config.positionThreshold, config.angleThreshold;
    var next := transformed.(timeStep := transformed.timeStep + 1);
    forall k | 0 <= k < i + 1 && k < config.yawSteps && CandidateValid(t, env, dt, config, parent, k)
      ensures Covers(q', Successor(t, dt, config, parent, k), pt, at)
    {
      if k < i {
        var s :| s in q && Near(s, Successor(t, dt, config, parent, k), pt, at);
        assert s in q';
      } else if added {
        NearReflexive(next, pt, at);
      } else {
        assert Footprint(t, next) == Footprint(t, transformed);
        var s :| s in q && Near(s, transformed, pt, at);
        assert Near(s, next, pt, at) && s in q';
      }
    }
  }

  lemma ExpansionStart(t: Trig, env: Environment, dt: real, config: GenerationConfig, timeSteps: int, parent: State,
                       q: set<State>, vc: Dict<nat, Drawable>, bound: nat, childBudget: nat)
    requires bound == SumBudget(q, timeSteps, config.yawSteps)
    ensures Expansion(t, env, dt, config, timeSteps, parent, q, q, vc, vc, 0, bound, childBudget)
  {
  }

  /**
   * One more heading: a candidate that was added is a fresh child of the
   * parent, and into an empty frontier a valid candidate is always added.
   */
  lemma ExpansionStep(t: Trig, env: Environment, dt: real, config: GenerationConfig, timeSteps: int, parent: State,
                      q0: set<State>, q: set<State>, q': set<State>,
                      vc0: Dict<nat, Drawable>, vc: Dict<nat, Drawable>, vc': Dict<nat, Drawable>,
                      i: nat, bound: nat, childBudget: nat, next: State, added: bool)
    requires Expansion(t, env, dt, config, timeSteps, parent, q0, q, vc0, vc, i, bound, childBudget)
    requires parent.timeStep < timeSteps && childBudget == TreeSize(StepsLeft(parent, timeSteps) - 1, config.yawSteps)
    requires i < config.yawSteps && next == Successor(t, dt, config, parent, i)
    requires q == {} && i in ValidCandidates(t, env, dt, config, parent) ==> added
    requires added ==> next !in q && q' == q + {next} && TotalCount(vc') == TotalCount(vc) + 1
    requires !added ==> q' == q && vc' == vc
    ensures Expansion(t, env, dt, config, timeSteps, parent, q0, q', vc0, vc', i + 1, bound, childBudget)
  {
    BudgetStep(q, q', next, timeSteps, config.yawSteps, i, bound, childBudget);
    assert IsSuccessor(t, dt, config, parent, next);
    ChildrenStep(t, dt, config, parent, q0, q, q', next);
    ProgressStep(q0, q, q', i, ValidCandidates(t, env, dt, config, parent));
  }

  /** Pushing at most one child adds at most one child's budget. */
  lemma BudgetStep(q: set<State>, q': set<State>, next: State, timeSteps: int, branching: nat, i: nat, bound: nat, childBudget: nat)
    requires SumBudget(q, timeSteps, branching) <= bound + i * childBudget
    requires StateBudget(next, timeSteps, branching) == childBudget
    requires q' == q || (next !in q && q' == q + {next})
    ensures SumBudget(q', timeSteps, branching) <= bound + (i + 1) * childBudget
  {
    assert (i + 1) * childBudget == i * childBudget + childBudget;
    if q' != q {
      SumBudgetAdd(q, next, timeSteps, branching);
    }
  }

  /** The states pushed by the expansion so far are candidates of the parent. */
  lemma ChildrenStep(t: Trig, dt: real, config: GenerationConfig, parent: State, q0: set<State>, q: set<State>, q': set<State>,
                     next: State)
    requires forall s :: s in q - q0 ==> IsSuccessor(t, dt, config, parent, s)
    requires IsSuccessor(t, dt, config, parent, next)
    requires q' == q || q' == q + {next}
    ensures forall s :: s in q' - q0 ==> IsSuccessor(t, dt, config, parent, s)
  {
  }

  /**
   * After every heading: the expansion spent less than the parent's own
   * budget, and into an empty frontier it recorded something if any
   * candidate was valid.
   */
  lemma ExpansionEnd(t: Trig, env: Environment, dt: real, config: GenerationConfig, timeSteps: int, parent: State,
                     q0: set<State>, q: set<State>, vc0: Dict<nat, Drawable>, vc: Dict<nat, Drawable>,
                     bound: nat, childBudget: nat)
    requires Expansion(t, env, dt, config, timeSteps, parent, q0, q, vc0, vc, config.yawSteps, bound, childBudget)
    requires parent.timeStep < timeSteps && childBudget == TreeSize(StepsLeft(parent, timeSteps) - 1, config.yawSteps)
    ensures SumBudget(q, timeSteps, config.yawSteps) < bound + StateBudget(parent, timeSteps, config.yawSteps)
    ensures q0 == {} && SomeCandidateValid(t, env, dt, config, parent) ==> TotalCount(vc) > TotalCount(vc0)
  {
    assert SumBudget(q, timeSteps, config.yawSteps) <= bound + config.yawSteps * childBudget;
    ExpansionBudget(q, parent, timeSteps, config.yawSteps, bound, childBudget);
    if q0 == {} && SomeCandidateValid(t, env, dt, config, parent) {
      var k :| 0 <= k < config.yawSteps && CandidateValid(t, env, dt, config, parent, k);
      assert k in ValidCandidates(t, env, dt, config, parent);
    }
  }

  lemma RecordedAppend(t: Trig, env: Environment, dt: real, config: GenerationConfig, seed: State, timeSteps: int,
                       accepted: Dict<nat, State>, s: State)
    requires RecordedStates(t, env, dt, config, seed, timeSteps, accepted)
    requires seed.timeStep < s.timeStep <= timeSteps && s.velocity == seed.velocity
    requires FootprintValid(t, Footprint(t, s), env) && Reachable(t, dt, config, seed, s)
    ensures RecordedStates(t, env, dt, config, seed, timeSteps, Append(accepted, s.timeStep, s))
  {
    assert AcceptedAt(t, env, dt, config, seed, s.timeStep, s);
    AppendAllValues(accepted, s.timeStep, s, (key: nat, s': State) => AcceptedAt(t, env, dt, config, seed, key, s'));
    AppendKeysBetween(accepted, s.timeStep, s, seed.timeStep, timeSteps);
  }

  /** Appending under a key in (lo, hi] keeps every key in (lo, hi]. */
  lemma AppendKeysBetween<V>(d: Dict<nat, V>, k: nat, v: V, lo: int, hi: int)
    requires DistinctKeys(d) && lo < k <= hi
    requires forall i :: 0 <= i < |d| ==> lo < d[i].key <= hi
    ensures forall i :: 0 <= i < |Append(d, k, v)| ==> lo < Append(d, k, v)[i].key <= hi
  {
    var r := Append(d, k, v);
    forall i | 0 <= i < |r| ensures lo < r[i].key <= hi {
      assert r[i].key == Keys(r)[i];
      if i < |d| {
        assert r[i].key == Keys(d)[i];
      }
    }
  }
}
