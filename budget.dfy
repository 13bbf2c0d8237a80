/**
 * Why the exploration ends. A state with d time steps still to go can give
 * rise to at most a full tree of branching yaw_steps and depth d of further
 * states; the sum of these tree sizes over the frontier falls by at least
 * one with every state processed.
 */
module Budget {
  import opened States

  /** Nodes of a complete tree of the given branching and depth. */
  function TreeSize(depth: nat, branching: nat): (n: nat)
    ensures n >= 1
  {
    if depth == 0 then 1 else 1 + branching * TreeSize(depth - 1, branching)
  }

  /** Time steps left before the horizon. */
  function StepsLeft(s: State, timeSteps: int): nat {
    if s.timeStep < timeSteps then timeSteps - s.timeStep else 0
  }

  function StateBudget(s: State, timeSteps: int, branching: nat): nat {
    TreeSize(StepsLeft(s, timeSteps), branching)
  }

  ghost function SumBudget(q: set<State>, timeSteps: int, branching: nat): nat
    decreases q
  {
    if q == {} then 0
    else
      var s :| s in q;
      StateBudget(s, timeSteps, branching) + SumBudget(q - {s}, timeSteps, branching)
  }

  /** The sum does not depend on which element the definition picks first. */
  lemma {:induction false} SumBudgetRemove(q: set<State>, x: State, timeSteps: int, branching: nat)
    requires x in q
    ensures SumBudget(q, timeSteps, branching) == StateBudget(x, timeSteps, branching) + SumBudget(q - {x}, timeSteps, branching)
    decreases q
  {
    var s :| s in q && SumBudget(q, timeSteps, branching) == StateBudget(s, timeSteps, branching) + SumBudget(q - {s}, timeSteps, branching);
    if s != x {
      SumBudgetRemove(q - {s}, x, timeSteps, branching);
      SumBudgetRemove(q - {x}, s, timeSteps, branching);
      assert q - {s} - {x} == q - {x} - {s};
    }
  }

  lemma SumBudgetAdd(q: set<State>, x: State, timeSteps: int, branching: nat)
    requires x !in q
    ensures SumBudget(q + {x}, timeSteps, branching) == SumBudget(q, timeSteps, branching) + StateBudget(x, timeSteps, branching)
  {
    SumBudgetRemove(q + {x}, x, timeSteps, branching);
    assert q + {x} - {x} == q;
  }

  /** A successor, one step closer to the horizon, has a smaller tree below it. */
  lemma SuccessorBudget(parent: State, child: State, timeSteps: int, branching: nat)
    requires parent.timeStep < timeSteps && child.timeStep == parent.timeStep + 1
    ensures StateBudget(parent, timeSteps, branching) == 1 + branching * StateBudget(child, timeSteps, branching)
  {
  }

  /**
   * A frontier whose budget grew by at most `branching` children's budgets
   * grew by less than the parent's own budget.
   */
  lemma ExpansionBudget(q: set<State>, parent: State, timeSteps: int, branching: nat, bound: nat, childBudget: nat)
    requires parent.timeStep < timeSteps && childBudget == TreeSize(StepsLeft(parent, timeSteps) - 1, branching)
    requires SumBudget(q, timeSteps, branching) <= bound + branching * childBudget
    ensures SumBudget(q, timeSteps, branching) < bound + StateBudget(parent, timeSteps, branching)
  {
    assert StateBudget(parent, timeSteps, branching) == 1 + branching * childBudget;
  }
}
