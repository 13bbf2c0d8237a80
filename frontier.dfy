/**
 * The deduplicating frontier of the state exploration
 * (common/StatesQueue.py): a queue whose backing store is a set, popped in
 * no particular order, with a membership test that accepts any stored state
 * close enough componentwise.
 */
module Frontier {
  import opened States

  class StatesQueue {
    var queue: set<State>
    const positionThreshold: real
    const angleThreshold: real

    constructor (positionThreshold: real, angleThreshold: real)
      ensures queue == {}
      ensures this.positionThreshold == positionThreshold && this.angleThreshold == angleThreshold
    {
      queue := {};
      this.positionThreshold := positionThreshold;
      this.angleThreshold := angleThreshold;
    }

    /** `_put`: add to the backing set; an item already there stays once. */
    method Put(item: State)
      modifies this
      ensures queue == old(queue) + {item}
      ensures item in old(queue) ==> queue == old(queue)
      ensures forall s :: old(Contains(s)) ==> Contains(s)
    {
      queue := queue + {item};
    }

    /** `_get`: remove and return an arbitrary stored state. */
    method Get() returns (item: State)
      requires queue != {}
      modifies this
      ensures item in old(queue) && queue == old(queue) - {item}
      ensures |queue| == |old(queue)| - 1
    {
      item :| item in queue;
      queue := queue - {item};
    }

    /**
     * `__contains__`: some stored state is within the position threshold in
     * x and in y and within the angle threshold in heading, bounds included.
     */
    predicate Contains(item: State)
      reads this
      ensures Contains(item) ==> queue != {}
      ensures item in queue && positionThreshold >= 0.0 && angleThreshold >= 0.0 ==> Contains(item)
    {
      Covers(queue, item, positionThreshold, angleThreshold)
    }
  }

  /** The test is componentwise: a state at (+p, +p) of a stored one, same heading, is contained. */
  lemma ContainsIsComponentwise(q: StatesQueue, s: State, item: State)
    requires s in q.queue
    requires item.position.x - s.position.x == q.positionThreshold
    requires item.position.y - s.position.y == q.positionThreshold
    requires item.orientation == s.orientation && q.positionThreshold >= 0.0 && q.angleThreshold >= 0.0
    ensures q.Contains(item)
  {
    assert Near(s, item, q.positionThreshold, q.angleThreshold);
  }

  /** Velocity and time step play no part in the membership test. */
  lemma ContainsIgnoresVelocityAndTime(q: StatesQueue, item: State, velocity: real, timeStep: nat)
    ensures q.Contains(item) == q.Contains(item.(velocity := velocity, timeStep := timeStep))
  {
    var other := item.(velocity := velocity, timeStep := timeStep);
    forall s | s in q.queue
      ensures Near(s, item, q.positionThreshold, q.angleThreshold) == Near(s, other, q.positionThreshold, q.angleThreshold)
    {
    }
  }
}
