/**
 * The earlier frontier (StatesQueue.py at the top of demonstration/): the
 * same set-backed queue, but built without thresholds and comparing with a
 * fixed 0.1 in every component.
 */
module LegacyFrontier {
  import opened States

  /** The fixed acceptance threshold of the earlier membership test. */
  const ACCEPTANCE_THRESHOLD: real := 0.1

  class StatesQueue {
    var queue: set<State>

    constructor ()
      ensures queue == {}
    {
      queue := {};
    }

    method Put(item: State)
      modifies this
      ensures queue == old(queue) + {item}
    {
      queue := queue + {item};
    }

    method Get() returns (item: State)
      requires queue != {}
      modifies this
      ensures item in old(queue) && queue == old(queue) - {item}
      ensures |queue| == |old(queue)| - 1
    {
      item :| item in queue;
      queue := queue - {item};
    }

    /** Some stored state within 0.1 in x, in y and in heading, bounds included. */
    predicate Contains(item: State)
      reads this
      ensures Contains(item) ==> queue != {}
      ensures item in queue ==> Contains(item)
    {
      Covers(queue, item, ACCEPTANCE_THRESHOLD, ACCEPTANCE_THRESHOLD)
    }
  }
}
