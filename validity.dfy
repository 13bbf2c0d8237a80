/**
 * The validity test of a candidate footprint (is_valid in
 * common/__init__.py): every corner must lie in some lanelet, and no
 * obstacle's occupancy at time step 0 may contain a corner. The lanelet
 * lookup and the occupancy shapes belong to CommonRoad and are abstract here.
 */
module Validity {
  import opened Wrappers
  import opened Geometry
  import opened Coords

  /** An obstacle, known only through "the shape occupied at time t contains p". */
  datatype Obstacle = Obstacle(occupancyContains: (int, Point) -> bool)

  /** The scenario as the validity test sees it. */
  datatype Environment = Environment(findLanelets: Point -> seq<int>, obstacles: seq<Obstacle>)

  /** Obstacles are always checked at this time step, whatever the candidate's own. */
  const OCCUPANCY_TIME: int := 0

  /** DrawConfig.car_length and DrawConfig.car_width (common/draw.py). */
  const CAR_LENGTH: real := 2.5
  const CAR_WIDTH: real := 1.5

  predicate WithinLanes(positions: seq<Point>, env: Environment) {
    forall i :: 0 <= i < |positions| ==> env.findLanelets(positions[i]) != []
  }

  predicate HitsObstacle(obstacle: Obstacle, positions: seq<Point>) {
    exists i :: 0 <= i < |positions| && obstacle.occupancyContains(OCCUPANCY_TIME, positions[i])
  }

  /** The meaning of is_valid on a list of corners. */
  predicate CornersValid(positions: seq<Point>, env: Environment) {
    WithinLanes(positions, env) &&
    !exists j :: 0 <= j < |env.obstacles| && HitsObstacle(env.obstacles[j], positions)
  }

  /**
   * The lane test over all corners, then the obstacle loop that raises a flag
   * and breaks at the first obstacle containing a corner.
   */
  method CheckCorners(positions: seq<Point>, env: Environment) returns (valid: bool)
    ensures valid <==> CornersValid(positions, env)
  {
    var isWithinLane := forall i | 0 <= i < |positions| :: env.findLanelets(positions[i]) != [];
    var intersectsWithObstacle := false;
    var j := 0;
    while j < |env.obstacles|
      invariant 0 <= j <= |env.obstacles|
      invariant !intersectsWithObstacle
      invariant forall k :: 0 <= k < j ==> !HitsObstacle(env.obstacles[k], positions)
    {
      if exists i | 0 <= i < |positions| :: env.obstacles[j].occupancyContains(OCCUPANCY_TIME, positions[i]) {
        intersectsWithObstacle := true;
        break;
      }
      j := j + 1;
    }
    valid := isWithinLane && !intersectsWithObstacle;
  }

  /**
   * is_valid: the corners come from get_all_pos with the configured car size;
   * its exception, when there is one, propagates.
   */
  method IsValid(t: Trig, toCheck: Drawable, env: Environment) returns (r: Result<bool, CoordsError>)
    ensures r.Failure? <==> !toCheck.Rectangle?
    ensures r.Success? ==> r.value == CornersValid(GetAllPos(t, toCheck, Some(CAR_LENGTH), Some(CAR_WIDTH)).value, env)
  {
    var positions :- GetAllPos(t, toCheck, Some(CAR_LENGTH), Some(CAR_WIDTH));
    var valid := CheckCorners(positions, env);
    r := Success(valid);
  }

  /** A corner outside every lanelet makes the footprint invalid. */
  lemma OutsideLanesInvalid(positions: seq<Point>, env: Environment, i: nat)
    requires i < |positions| && env.findLanelets(positions[i]) == []
    ensures !CornersValid(positions, env)
  {
  }

  /** Any obstacle containing any corner at time 0 makes the footprint invalid. */
  lemma ObstacleHitInvalid(positions: seq<Point>, env: Environment, i: nat, j: nat)
    requires i < |positions| && j < |env.obstacles|
    requires env.obstacles[j].occupancyContains(OCCUPANCY_TIME, positions[i])
    ensures !CornersValid(positions, env)
  {
  }

  /** The verdict does not depend on the order of the obstacles. */
  lemma ObstacleOrderIrrelevant(positions: seq<Point>, lanelets: Point -> seq<int>, obstacles: seq<Obstacle>, reordered: seq<Obstacle>)
    requires multiset(obstacles) == multiset(reordered)
    ensures CornersValid(positions, Environment(lanelets, obstacles)) == CornersValid(positions, Environment(lanelets, reordered))
  {
    if exists j :: 0 <= j < |obstacles| && HitsObstacle(obstacles[j], positions) {
      var j :| 0 <= j < |obstacles| && HitsObstacle(obstacles[j], positions);
      assert obstacles[j] in multiset(reordered);
      var k :| 0 <= k < |reordered| && reordered[k] == obstacles[j];
    }
    if exists j :: 0 <= j < |reordered| && HitsObstacle(reordered[j], positions) {
      var j :| 0 <= j < |reordered| && HitsObstacle(reordered[j], positions);
      assert reordered[j] in multiset(obstacles);
      var k :| 0 <= k < |obstacles| && obstacles[k] == reordered[j];
    }
  }
}
