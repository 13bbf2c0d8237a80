# Drivable-area exploration: a Dafny model

This project models the core of the drivable-area exploration in the
SeminarTestingAutonomousCars demonstration code, and proves properties of
that model. The core covers:

- **The reachable-state generator** (`GenerationHelp.generate_states`), in
  its current form (`demonstration/common/generation.py`) and its earlier
  form (`demonstration/common.py`). It is a worklist search. A state is
  popped from the frontier. If it lies before the horizon, it is turned by
  each of `yaw_steps` evenly spaced yaw changes and moved one kinematic
  step. A candidate is kept when the frontier holds no near-duplicate of
  it and its footprint passes `is_valid`. A kept candidate is recorded
  under its raised time step and pushed back. The model runs one worker,
  and proves that:
  - every recorded state is counted;
  - the recorded footprints are those of the recorded states;
  - every key lies in (seed time step, horizon];
  - every pushed state is a candidate of the state it was expanded from,
    so every recorded state is reached from the seed by a chain of
    sampled heading changes;
  - the loop terminates, by a budget that bounds the states still to come.
- **The frontiers.** The first two are set-backed queues with
  approximate, componentwise membership:
  - `StatesQueue`, with configurable thresholds;
  - the earlier `StatesQueue`, with a fixed 0.1 threshold.

  The third is `PriorityStatesQueue`, a binary heap of
  `(-time_step, index, state)` entries. It is a class over a `seq` that
  push and pop rewrite. Its pop is proved to return a state with the
  greatest time step, and among those the one put first.
- **The layered Dijkstra search** (`dijkstra_search` in
  `demonstration/common/prm.py`), modelled as written:
  - the caller's list loses the start state and the goal states;
  - a promoted node's cost is its own stored cost (-1) plus one edge
    weight, not a path sum;
  - the black list is shortened while it is iterated over, so the element
    after each promoted node is not examined in that pass
    (`Prm.SweepSkipsNext`).

  The main loop is proved equal to a function of the initial lists
  (`Prm.Settle`). The returned path runs from the goal back towards the
  start, excluding the start, one time step per link.
- **The helpers:**
  - `flatten_dict_values`, over an insertion-ordered dictionary;
  - `is_valid`'s combination of lanelet and obstacle tests, over abstract
    oracles;
  - the corner geometry of `coords.py`: `pol2cart`,
    `center_to_right_bottom_pos` and `get_all_pos`, with their error cases.

Trigonometry, square root and the vector norm are abstract functions. A
property that needs `cos^2 + sin^2 = 1`, or that `sqrt` is a square root,
states it as a hypothesis (`Geometry.Pythagorean`, `Geometry.SquareRootAt`).

Where the revisions disagree, the model follows the evident intent. Three
places are affected:
- `demonstration/common/StatesQueue.py` reads `item.state`, from a
  `MyState` wrapper that `demonstration/common/__init__.py` does not
  define. The generator pushes plain states, and so does the model.
- The earlier `common.py` builds its queue with two thresholds, but the
  earlier `StatesQueue` constructor takes none, which raises a `TypeError`
  as written. The model uses the fixed-threshold queue.
- Python `set` membership and `list.remove` on nodes use object identity.
  The model uses value equality for states. It removes a node by its
  position: the first cheapest grey node, and the black node under the
  iterator. This is the same node identity would pick.

## Model

| member | source | states |
|---|---|---|
| Geometry.RadiansOfDegrees | demonstration/common/coords.py:48 | converting the rectangle's angle back to radians recovers the heading it was built from |
| Coords.Pol2Cart | demonstration/common/coords.py:13-16 | rho = 0 gives the origin; under the Pythagorean identity the point lies at squared distance rho^2 |
| Coords.CenterToRightBottomPos | demonstration/common/coords.py:19-33 | the anchor lies at squared distance (L^2 + W^2)/4 from the centre, i.e. half the diagonal, given the Pythagorean identity and a true square root |
| Coords.GetAllPos | demonstration/common/coords.py:36-59 | fails exactly when the drawable is not a Rectangle or a car dimension is missing or zero, with the unsupported-type error exactly for non-Rectangles; otherwise four corners starting at the anchor, opposite sides equal (a parallelogram), sides of squared length L^2 and W^2 under the Pythagorean identity; the length side is the polar vector (L, angle in radians) and the width side the polar vector (W, that angle + pi/2) |
| Coords.Corners | demonstration/common/coords.py:49-54 | four corners from the anchor: p1 - p0 = p2 - p3 = length vector, p3 - p0 = p2 - p1 = width vector |
| Coords.ConvertToDrawable | demonstration/common/draw.py:63-67 | a Rectangle of the car's size anchored at center_to_right_bottom_pos, whose angle converts back to the state's heading |
| Coords.ConvertedCorners | demonstration/common/coords.py:45-54 | the corners of a converted state are the rectangle at that state's heading from its right bottom corner |
| States.Near | demonstration/common/StatesQueue.py:21-23 | near only for non-negative thresholds; a state at the same position and heading is near when the thresholds are non-negative |
| States.NearReflexive | demonstration/common/StatesQueue.py:21-23 | with non-negative thresholds every state is near itself |
| States.Step | demonstration/common/generation.py:52-57 | a successor keeps velocity and time step, turns by exactly the yaw, and moves by (cos, sin) of the NEW heading times velocity times dt |
| States.StepDistance | demonstration/common/generation.py:53-57 | under the Pythagorean identity a step covers squared distance (velocity dt)^2 |
| States.Linspace | demonstration/common/generation.py:48-50 | n samples, the first -max_yaw, the last +max_yaw, all gaps equal |
| States.YawSampleBounded | demonstration/common/generation.py:48-51 | every sample lies in [-max_yaw, max_yaw], and sample k is the negation of sample n-1-k |
| Dicts.AppendValueSet | demonstration/common/generation.py:62-64 | appending adds exactly the appended value to the set of values |
| Dicts.Append | demonstration/common/generation.py:62-64 | a new key gets a one-element list at the end, an existing key's list grows by the value at its end, other lists are untouched; keys stay distinct and the value count grows by one |
| Dicts.FlattenValues | demonstration/common/__init__.py:17-23 | an item of any value list is in the flat list, and every item of the flat list comes from some value list |
| Dicts.FlattenLength | demonstration/common/__init__.py:17-23 | the flat list is as long as all value lists together |
| Dicts.FlattenConcat | demonstration/common/__init__.py:23 | the values of earlier keys come first |
| Dicts.FlattenSingle | demonstration/common/__init__.py:23 | within one key the list order is kept |
| Dicts.FlattenAllEmpty | demonstration/common/__init__.py:23 | an empty dictionary, or one of empty lists, flattens to the empty list |
| Dicts.FlattenMembership | demonstration/common/__init__.py:23 | an item is in the flat list exactly when it is in some value list |
| Validity.CheckCorners | demonstration/common/__init__.py:52-60 | the flag-and-break loop returns true exactly when every corner has a lanelet and no obstacle's time-0 occupancy contains a corner |
| Validity.IsValid | demonstration/common/__init__.py:42-60 | fails exactly for a non-Rectangle; otherwise judges the four get_all_pos corners for the 2.5 x 1.5 car |
| Validity.OutsideLanesInvalid | demonstration/common/__init__.py:52-60 | a corner outside every lanelet makes the footprint invalid |
| Validity.ObstacleHitInvalid | demonstration/common/__init__.py:54-60 | a corner inside some obstacle's time-0 occupancy makes the footprint invalid |
| Validity.ObstacleOrderIrrelevant | demonstration/common/__init__.py:54-60 | reordering the obstacles does not change the verdict |
| Frontier.StatesQueue.constructor | demonstration/common/StatesQueue.py:7-11 | an empty set and the given thresholds |
| Frontier.StatesQueue.Put | demonstration/common/StatesQueue.py:13-14 | the set gains the item; an item already present leaves the set as it was; a contained state stays contained |
| Frontier.StatesQueue.Get | demonstration/common/StatesQueue.py:16-17 | returns a stored state and removes it; the set shrinks by one |
| Frontier.StatesQueue.Contains | demonstration/common/StatesQueue.py:19-23 | false on an empty set; a stored state is contained when the thresholds are non-negative |
| Frontier.ContainsIsComponentwise | demonstration/common/StatesQueue.py:21-23 | a state off by the full threshold in both x and y is still contained: the test is per component and inclusive, not Euclidean |
| Frontier.ContainsIgnoresVelocityAndTime | demonstration/common/StatesQueue.py:19-23 | membership does not depend on velocity or time step |
| LegacyFrontier.StatesQueue.constructor | demonstration/StatesQueue.py:7-9 | no thresholds, an empty set |
| LegacyFrontier.StatesQueue.Put | demonstration/StatesQueue.py:11-12 | the set gains the item |
| LegacyFrontier.StatesQueue.Get | demonstration/StatesQueue.py:14-15 | returns a stored state and removes it; the set shrinks by one |
| LegacyFrontier.StatesQueue.Contains | demonstration/StatesQueue.py:17-23 | within 0.1 per component, inclusive; false on an empty set; every stored state is contained |
| PriorityFrontier.HeapRootFirst | demonstration/PriorityStatesQueue.py:25 | in a heap the root is no greater than any entry |
| PriorityFrontier.Less | demonstration/PriorityStatesQueue.py:21 | Python's tuple order: a smaller priority is less, and at equal priority the smaller index is less |
| PriorityFrontier.HeapPush | demonstration/PriorityStatesQueue.py:21 | the result is a heap holding the old entries plus the new one |
| PriorityFrontier.SiftDown | demonstration/PriorityStatesQueue.py:25 | a list that is a heap except at the root becomes a heap with the same entries |
| PriorityFrontier.HeapPop | demonstration/PriorityStatesQueue.py:25 | returns the root, which is no greater than any entry, and leaves a heap of the other entries |
| PriorityFrontier.DistinctIndices | demonstration/PriorityStatesQueue.py:16-22 | in a queue whose entries and indices are unique, no two positions share an index |
| PriorityFrontier.PriorityStatesQueue.constructor | demonstration/PriorityStatesQueue.py:13-18 | an empty heap, index 0, the given thresholds |
| PriorityFrontier.PriorityStatesQueue.Put | demonstration/PriorityStatesQueue.py:20-22 | adds exactly the entry (-time_step, index, item), advances the index by one, keeps the heap valid |
| PriorityFrontier.PriorityStatesQueue.Get | demonstration/PriorityStatesQueue.py:24-25 | removes exactly the root entry and returns its state, whose time step is the greatest stored; among equal time steps its index is the least, so it was put first |
| PriorityFrontier.PriorityStatesQueue.Contains | demonstration/PriorityStatesQueue.py:27-31 | the componentwise inclusive rule on the stored states; false on an empty heap; a stored state is contained when thresholds are non-negative |
| PriorityFrontier.ValidIndicesDistinct | demonstration/PriorityStatesQueue.py:16-22 | no two entries of a valid queue share an index, so ordering never compares states |
| Budget.SuccessorBudget | demonstration/common/generation.py:47-65 | a state before the horizon has budget 1 + yaw_steps times its successor's: every expansion uses up budget |
| Generation.DefaultConfig | demonstration/common/generation.py:19-24 | max_yaw = pi/16, 8 yaw steps, 8 threads, position threshold 0.5, angle threshold 0.85 max_yaw, strictly between 0 and max_yaw |
| Generation.Successor | demonstration/common/generation.py:48-61 | candidate k of a state turns by the k-th linspace sample, keeps the velocity and is one time step later |
| Generation.Follow | demonstration/common/generation.py:51-65 | following a chain of heading changes from the seed gives a state as many time steps later as the chain is long, with the seed's velocity |
| Generation.SuccessorReachable | demonstration/common/generation.py:51-65 | a candidate of a reachable state is reachable: the chain grows by its heading change |
| Generation.GenerateStates | demonstration/common/generation.py:40-77 | states processed = 1 + recorded count; the footprints are those of the recorded states; keys distinct and in (seed step, horizon]; each state filed under its own time step, with the seed's velocity and a valid footprint, and reached from the seed by a chain of sampled heading changes (`Reachable`); every recorded state is a candidate of the seed or of another recorded state (`Lineage`: only validated candidates are pushed, so a chain through a rejected candidate is never recorded); the seed and the recorded states are closed up to nearness (`Closed`): each valid candidate of any of them before the horizon is within the thresholds of the seed or a recorded state; a seed at or past the horizon gives an empty result and one state processed; a seed before the horizon with a valid candidate gives a non-empty result |
| Generation.ProcessState | demonstration/common/generation.py:46-68 | a state at or past the horizon changes nothing; otherwise at most yaw_steps states are pushed, one per recorded footprint, each a candidate of the popped state (`IsSuccessor`: its step for one sampled yaw, time step raised), and the budget falls; the states pushed are exactly the states recorded (`ValueSet(accepted') == ValueSet(accepted) + new queue states`); before the horizon, every heading whose candidate has a valid footprint leaves the queue containing (within the thresholds) that candidate |
| Generation.ExpandState | demonstration/common/generation.py:51-66 | the `for yaw in yaw_steps` loop: the queue only grows, by fresh candidates of the popped state, one recorded footprint per pushed state, the pushed states are exactly the newly recorded ones, the record stays valid, the budget grows by at most one child's per heading, an empty queue gets a push once a valid heading is tried, and at the end every heading whose candidate has a valid footprint has a state near that candidate in the queue |
| Generation.TriedStep | demonstration/common/generation.py:52-66 | one heading keeps that coverage: earlier witnesses stay in the grown queue, a pushed candidate is its own witness, and a candidate turned away with a valid footprint already had a near queued state, whatever its time step |
| Generation.TryCandidate | demonstration/common/generation.py:52-66 | the candidate is kept exactly when no near state is queued and its footprint is valid; a kept one is new to the queue, pushed once with its time step raised, and appended under that time step to both the record and the footprints |
| Generation.ExpansionStep | demonstration/common/generation.py:51-65 | each heading adds at most one fresh child and at most one child's budget |
| Generation.ExpansionEnd | demonstration/common/generation.py:47-51 | after all headings the frontier's budget grew by less than the parent's own |
| Generation.RecordsPushed | demonstration/common/generation.py:60-65 | one heading keeps "the states pushed are the states recorded": a kept candidate joins both, a turned-away one neither |
| Generation.RecordedParent | demonstration/common/generation.py:58-65 | a recorded state more than one step after the seed has a recorded parent one step earlier |
| Generation.ExploredGrows | demonstration/common/generation.py:58-65 | coverage of a state's valid candidates survives the known set growing |
| Generation.ExploringStep | demonstration/common/generation.py:45-68 | one pass of the worker loop keeps: the queue holds known states, every known state is queued or done, every recorded state descends from a known one, and every done state's valid candidates are covered by the known states |
| Generation.ExploringEnd | demonstration/common/generation.py:45-77 | once the queue is empty, the seed and the recorded states are closed up to nearness |
| Generation.RecordedAppend | demonstration/common/generation.py:61-64 | recording a state under its own time step keeps the record well formed |
| LegacyCommon.LegacyGetAllPos | demonstration/common.py:47-65 | fails exactly for a non-Rectangle; otherwise four parallelogram corners from the anchor with the fixed 1 x 0.5 size |
| LegacyCommon.LegacyGetAllPosAgrees | demonstration/common.py:47-65 | the later get_all_pos with 1 x 0.5 computes the same result |
| LegacyCommon.LegacyIsValid | demonstration/common.py:241-259 | fails exactly for a non-Rectangle; otherwise all corners in lanelets and none in an obstacle's time-0 occupancy |
| LegacyCommon.LegacyGenerateStates | demonstration/common.py:88-123 | states processed = 1 + length of the flat result list; each entry is the footprint of a recorded state that is reached from the seed by a chain of sampled heading changes, lies in (seed step, horizon], keeps the seed's velocity and has a valid footprint; every recorded state is a candidate of the seed or of another recorded state (`Lineage`); the seed and the recorded states are closed within 0.1 (`LegacyClosed`); a seed at or past the horizon gives [] and 1; a seed before the horizon with a valid candidate gives a non-empty list |
| LegacyCommon.LegacyProcessState | demonstration/common.py:93-114 | a state at or past the horizon changes nothing; otherwise the list and the queue grow together by at most yaw_steps, each pushed state a candidate of the popped state for one sampled yaw, and the pushed states are exactly the appended ones; before the horizon, every heading whose candidate passes the earlier is_valid leaves the queue containing (within 0.1) that candidate |
| LegacyCommon.LegacyExpandState | demonstration/common.py:99-112 | the earlier `for yaw in yaw_steps` loop: the queue and the list grow together by fresh candidates of the popped state, the pushed states are exactly the appended ones, and every heading passing the earlier is_valid has a state within 0.1 of its candidate in the queue |
| LegacyCommon.LegacyRecordsPushed | demonstration/common.py:108-111 | one heading keeps "the states pushed are the states appended" |
| LegacyCommon.LegacyExploringStep | demonstration/common.py:93-114 | one pass of the earlier worker loop keeps lineage and coverage within 0.1, as `Generation.ExploringStep` |
| LegacyCommon.LegacyExploringEnd | demonstration/common.py:93-123 | once the queue is empty, the seed and the recorded states are closed within 0.1 |
| LegacyCommon.LegacyTriedStep | demonstration/common.py:100-112 | one heading keeps that coverage, by the same three cases as `Generation.TriedStep` |
| LegacyCommon.LegacyTryCandidate | demonstration/common.py:100-112 | kept exactly when no near state is queued and the footprint is valid; the footprint is appended once and the state pushed once |
| LegacyCommon.LegacyContainsIgnoresTime | demonstration/StatesQueue.py:17-23 | membership depends only on position and heading |
| LegacyCommon.LegacyExpansionStep | demonstration/common.py:99-111 | each heading adds at most one fresh child and at most one child's budget |
| LegacyCommon.LegacyExpansionEnd | demonstration/common.py:94-99 | after all headings the frontier's budget grew by less than the parent's own |
| Prm.IndexOf | demonstration/common/prm.py:27 | the position of the first occurrence |
| Prm.RemoveFirst | demonstration/common/prm.py:26-27 | an absent item leaves the list; otherwise its first occurrence is removed and the elements before and after keep their order |
| Prm.RemoveEach | demonstration/common/prm.py:33-35 | removing the goal states only ever takes elements out |
| Prm.FirstMinIndex | demonstration/common/prm.py:42 | the node chosen has the least cost, and every node before it costs strictly more |
| Prm.EdgeWeight | demonstration/common/prm.py:47-49 | zero when the headings agree; non-negative when the norm is |
| Prm.Promote | demonstration/common/prm.py:47-51 | the grey node keeps the black node's state and goal flag, links back to the settled node, and for an unknown-cost node costs -1 plus the edge weight |
| Prm.Sweep | demonstration/common/prm.py:45-52 | promoted and kept together are as many as the black nodes; kept nodes come from the black list; every promoted node is made by Promote from a black successor of the settled node |
| Prm.SweepSources | demonstration/common/prm.py:45-52 | one pass splits the black list: the promoted nodes are made, in order, from successors of the settled node, and those successors plus the kept nodes are exactly the black list as a multiset, so a state enters grey at most once per pass and leaves black when it does |
| Prm.SweepPartition | demonstration/common/prm.py:45-52 | the pass follows a mask over the black list: a node is promoted exactly when it is a successor of the settled node and the node before it was not promoted; all others are kept, in order |
| Prm.SweepSkipsNext | demonstration/common/prm.py:45-52 | after a run of non-successors, the first successor is promoted and the node after it, successor or not, stays black; the pass then carries on after the two |
| Prm.SweepKeepsNonSuccessors | demonstration/common/prm.py:45-46 | black nodes that are not successors all stay, in order |
| Prm.ExpandWhite | demonstration/common/prm.py:45-52 | the loop that removes while iterating computes exactly the sweep |
| Prm.ReconstructPath | demonstration/common/prm.py:56-60 | the collected path is the chain of states from the goal back to just after the start |
| Prm.PathTo | demonstration/common/prm.py:56-60 | empty exactly when the node has no predecessor; otherwise it starts with the node's own state |
| Prm.PathShape | demonstration/common/prm.py:54-61 | the path of a linked node starts with its state, has length = time step gap to the start, falls by one time step per entry, ends one step after the start |
| Prm.PromotedReached | demonstration/common/prm.py:47-51 | promotion keeps every grey node linked to the start and costed by its last edge, and every black node untouched |
| Prm.Settle | demonstration/common/prm.py:40-52 | the main loop as a function: the settled list only grows, and the loop stops with grey empty or a goal settled last |
| Prm.Outcome | demonstration/common/prm.py:54-61 | a result exactly when the last settled node is a goal, with that node's path and cost |
| Prm.MainLoop | demonstration/common/prm.py:40-52 | the while loop computes exactly Settle from [start with cost 0] and the black list; the settled nodes start with the start node, only the last may be a goal, and all are linked to the start and costed by their last edge; the settled goal is returned |
| Prm.Search | demonstration/common/prm.py:40-61 | the result is exactly Outcome of the Settle run, so None exactly when the loop stopped without settling a goal (grey empty); a result's path starts at a goal state, runs back to one step after the start one step at a time, and costs -1 plus its last edge's weight; with no goals the result is None |
| Prm.PrepareNodes | demonstration/common/prm.py:26-38 | the caller's list loses the start and each goal (first occurrences); black is the goal nodes followed by a plain node per remaining state |
| Prm.TakeGoals | demonstration/common/prm.py:33-36 | removes each goal state where present and builds the goal nodes in order |
| Prm.AppendPlainNodes | demonstration/common/prm.py:37-38 | appends one unknown-cost node per remaining state, in order |
| Prm.DijkstraSearch | demonstration/common/prm.py:23-61 | the caller's list is shortened as described, and the result is exactly Outcome of the Settle run from the black list PrepareNodes builds, with the properties Prm.Search states |

## Left out

- Threads, `Queue` locking, `task_done`/`join` and the daemon workers: one sequential worker runs until the frontier is empty, so `num_threads` is a constant and nothing more.
- Floating point: all arithmetic is on exact reals. `cos`, `sin`, `sqrt`, `pi` and numpy's `norm` are abstract functions, so numpy's rounding in `linspace` and in the trigonometry is not modelled.
- CommonRoad's lanelet lookup and the obstacles' `occupancy_at_time(0).shape.contains_point` are abstract functions of an `Environment`.
- `load_scenario` is file input and is not part of this model.
- `DrawHelp.draw`, the edge colour of the rectangle and all plotting are not part of this model.
- The priority queue's pop uses the textbook sift-down (swap with the lesser child while it is smaller). `heapq` descends to a leaf first and then sifts up. Both return the same root, so the pop order is the same, since keys are unique. The layout of the remaining list may differ.
- Generation.GenerateStates: completeness is stated only up to nearness (`Closed`: every valid candidate of a known state lies within the thresholds of some known state), not as "every reachable valid candidate is recorded". A candidate near a queued state is dropped, whatever its time step, so exact completeness does not hold. Deduplication only looks at the states still queued, so no global "no near-duplicates" invariant holds either, and none is claimed.
- LegacyCommon.LegacyGenerateStates: completeness is stated only within 0.1 (`LegacyClosed`), for the same reason.
- The Dijkstra search is stated against the loop function `Prm.Settle`, not against shortest paths in the layered graph: with single-edge costs and the skipped black nodes, the source's result is not a shortest path, and None does not mean that no goal can be reached.
- Coords.CenterToRightBottomPos: for a car of size zero the source divides by zero when it computes gamma; the model takes cos(0) there. The configured sizes are never zero.
- The placeholder `DijkstraNode(None)` that starts the main loop is `None` of an `Option`. It is never a goal, like the placeholder.
- `deepcopy` of the parent state: states are values, so the parent cannot change, and no separate statement is needed.
