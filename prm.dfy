/**
 * The layered shortest-path search of demonstration/common/prm.py. Nodes
 * move from black (not reached) to grey (reached, not settled) to white
 * (settled). There is an edge from A to B exactly when B's time step is one
 * more than A's. The search is modelled as written: a promoted node's cost
 * is its own stored cost plus one edge weight, not a sum along the path,
 * and the black list is shortened while it is being iterated over, so the
 * element after each promoted one is not looked at in that pass.
 */
module Prm {
  import opened Wrappers
  import opened Geometry
  import opened States

  /**
   * DijkstraNode. Its fields are only set when it is built, so a node is a
   * value; `previous` is the node it was reached from.
   */
  datatype DijkstraNode = DijkstraNode(state: State, isGoalNode: bool, costs: real, previous: Option<DijkstraNode>)

  /** The default cost of a node: -1 stands for unknown. */
  const UNKNOWN_COSTS: real := -1.0

  datatype SearchResult = SearchResult(path: seq<State>, costs: real)

  /** The list of states the caller passes in, which the search shortens. */
  class StateList {
    var items: seq<State>

    constructor (items: seq<State>)
      ensures this.items == items
    {
      this.items := items;
    }
  }

  /** The edge relation: A to B iff A.time_step == B.time_step - 1. */
  predicate IsEdge(a: State, b: State) {
    a.timeStep == b.timeStep - 1
  }

  /**
   * The weight of the edge from `a` to `b`: the norm of the position
   * difference times the absolute heading difference; `norm` stands for
   * numpy's vector norm.
   */
  function EdgeWeight(norm: Point -> real, a: State, b: State): (r: real)
    ensures a.orientation == b.orientation ==> r == 0.0
    ensures norm(a.position.Minus(b.position)) >= 0.0 ==> r >= 0.0
  {
    norm(a.position.Minus(b.position)) * Abs(a.orientation - b.orientation)
  }

  /** The grey node made from black node `b` when `w` is settled. */
  function Promote(norm: Point -> real, w: DijkstraNode, b: DijkstraNode): (r: DijkstraNode)
    ensures r.state == b.state && r.isGoalNode == b.isGoalNode && r.previous == Some(w)
    ensures b.costs == UNKNOWN_COSTS ==> r.costs == UNKNOWN_COSTS + EdgeWeight(norm, w.state, b.state)
  {
    DijkstraNode(b.state, b.isGoalNode, b.costs + EdgeWeight(norm, w.state, b.state), Some(w))
  }

  /** The position of the first element equal to `x`. */
  function IndexOf<T(==)>(s: seq<T>, x: T): (i: nat)
    requires x in s
    ensures i < |s| && s[i] == x && x !in s[..i]
  {
    if s[0] == x then 0
    else
      var j := IndexOf(s[1..], x);
      assert s[..j + 1] == [s[0]] + s[1..][..j];
      1 + j
  }

  /** `list.remove`: drop the first element equal to `x`, if there is one. */
  function RemoveFirst<T(==)>(s: seq<T>, x: T): (r: seq<T>)
    ensures x !in s ==> r == s
    ensures x in s ==> |r| == |s| - 1 && multiset(r) == multiset(s) - multiset{x}
    ensures x in s ==> exists i :: 0 <= i < |s| && s[i] == x && x !in s[..i] && r == s[..i] + s[i + 1..]
  {
    if x in s then
      var i := IndexOf(s, x);
      assert s == s[..i] + [x] + s[i + 1..];
      s[..i] + s[i + 1..]
    else s
  }

  /** The list left after removing each of `xs` in turn. */
  function RemoveEach<T(==)>(s: seq<T>, xs: seq<T>): (r: seq<T>)
    ensures multiset(r) <= multiset(s)
  {
    if xs == [] then s
    else RemoveFirst(RemoveEach(s, xs[..|xs| - 1]), xs[|xs| - 1])
  }

  function GoalNodes(goals: seq<State>): (r: seq<DijkstraNode>)
    ensures |r| == |goals| && forall k :: 0 <= k < |goals| ==> r[k] == DijkstraNode(goals[k], true, UNKNOWN_COSTS, None)
  {
    seq(|goals|, i requires 0 <= i < |goals| => DijkstraNode(goals[i], true, UNKNOWN_COSTS, None))
  }

  function PlainNodes(states: seq<State>): (r: seq<DijkstraNode>)
    ensures |r| == |states| && forall k :: 0 <= k < |states| ==> r[k] == DijkstraNode(states[k], false, UNKNOWN_COSTS, None)
  {
    seq(|states|, i requires 0 <= i < |states| => DijkstraNode(states[i], false, UNKNOWN_COSTS, None))
  }

  /** The start node: cost 0, no predecessor, not a goal. */
  function StartNode(start: State): DijkstraNode {
    DijkstraNode(start, false, 0.0, None)
  }

  /**
   * `min(grey_nodes, key=costs)`: the index of the first node of least cost.
   */
  function FirstMinIndex(s: seq<DijkstraNode>): (m: nat)
    requires |s| > 0
    ensures m < |s|
    ensures forall k :: 0 <= k < |s| ==> s[m].costs <= s[k].costs
    ensures forall k :: 0 <= k < m ==> s[k].costs > s[m].costs
  {
    if |s| == 1 then 0
    else
      var m := FirstMinIndex(s[..|s| - 1]);
      if s[|s| - 1].costs < s[m].costs then |s| - 1 else m
  }

  /**
   * What one pass of `for black in black_nodes` computes: the nodes promoted
   * to grey, in order, and the black nodes left. A promoted node is removed
   * and its successor in the list is passed over.
   */
  datatype SweepResult = SweepResult(promoted: seq<DijkstraNode>, kept: seq<DijkstraNode>)

  function Sweep(norm: Point -> real, w: DijkstraNode, black: seq<DijkstraNode>): (r: SweepResult)
    ensures |r.promoted| + |r.kept| == |black|
    ensures forall k :: k in r.kept ==> k in black
    ensures forall p :: p in r.promoted ==> exists b :: b in black && IsEdge(w.state, b.state) && p == Promote(norm, w, b)
    decreases |black|
  {
    if black == [] then SweepResult([], [])
    else if IsEdge(w.state, black[0].state) then
      if |black| == 1 then SweepResult([Promote(norm, w, black[0])], [])
      else
        var rest := Sweep(norm, w, black[2..]);
        assert forall k :: k in black[2..] ==> k in black;
        SweepResult([Promote(norm, w, black[0])] + rest.promoted, [black[1]] + rest.kept)
    else
      var rest := Sweep(norm, w, black[1..]);
      assert forall k :: k in black[1..] ==> k in black;
      SweepResult(rest.promoted, [black[0]] + rest.kept)
  }

  /**
   * The first successor of the settled node in the list is promoted, and
   * the node after it, successor or not, is passed over and stays black;
   * the pass then carries on after the two.
   */
  lemma {:induction false} SweepSkipsNext(norm: Point -> real, w: DijkstraNode, prefix: seq<DijkstraNode>,
                                          b1: DijkstraNode, b2: DijkstraNode, rest: seq<DijkstraNode>)
    requires forall b :: b in prefix ==> !IsEdge(w.state, b.state)
    requires IsEdge(w.state, b1.state)
    ensures Sweep(norm, w, prefix + [b1, b2] + rest) ==
            SweepResult([Promote(norm, w, b1)] + Sweep(norm, w, rest).promoted, prefix + [b2] + Sweep(norm, w, rest).kept)
    decreases |prefix|
  {
    var l := prefix + [b1, b2] + rest;
    if prefix == [] {
      assert l == [b1, b2] + rest && l[2..] == rest;
    } else {
      assert l[1..] == prefix[1..] + [b1, b2] + rest;
      SweepSkipsNext(norm, w, prefix[1..], b1, b2, rest);
      assert [prefix[0]] + (prefix[1..] + [b2] + Sweep(norm, w, rest).kept) == prefix + [b2] + Sweep(norm, w, rest).kept;
    }
  }

  /**
   * Which black nodes one pass promotes, as a mask over the list: a node is
   * taken exactly when it is a successor of the settled node and the node
   * before it was not taken.
   */
  ghost predicate PassMask(w: DijkstraNode, black: seq<DijkstraNode>, taken: seq<bool>) {
    |taken| == |black| &&
    forall j {:trigger taken[j]} :: 0 <= j < |black| ==> (taken[j] <==> IsEdge(w.state, black[j].state) && !(j > 0 && taken[j - 1]))
  }

  /** The elements of `xs` whose mask entry is `want`, in order. */
  function Pick<T>(xs: seq<T>, taken: seq<bool>, want: bool): (r: seq<T>)
    requires |taken| == |xs|
    ensures |r| <= |xs|
    ensures forall x :: x in r ==> exists j :: 0 <= j < |xs| && xs[j] == x && taken[j] == want
  {
    if xs == [] then []
    else
      var rest := Pick(xs[1..], taken[1..], want);
      assert forall x :: x in rest ==> exists j :: 0 <= j < |xs| && xs[j] == x && taken[j] == want by {
        forall x | x in rest ensures exists j :: 0 <= j < |xs| && xs[j] == x && taken[j] == want {
          var j :| 0 <= j < |xs| - 1 && xs[1..][j] == x && taken[1..][j] == want;
          assert xs[j + 1] == x && taken[j + 1] == want;
        }
      }
      (if taken[0] == want then [xs[0]] else []) + rest
  }

  /** The two picks of a mask split the list. */
  lemma {:induction false} PickPartition<T>(xs: seq<T>, taken: seq<bool>)
    requires |taken| == |xs|
    ensures |Pick(xs, taken, true)| + |Pick(xs, taken, false)| == |xs|
    ensures multiset(Pick(xs, taken, true)) + multiset(Pick(xs, taken, false)) == multiset(xs)
  {
    if xs != [] {
      PickPartition(xs[1..], taken[1..]);
      assert xs == [xs[0]] + xs[1..];
    }
  }

  /** The grey nodes made from `xs`, in order. */
  function PromoteAll(norm: Point -> real, w: DijkstraNode, xs: seq<DijkstraNode>): (r: seq<DijkstraNode>)
    ensures |r| == |xs| && forall k :: 0 <= k < |xs| ==> r[k] == Promote(norm, w, xs[k])
  {
    if xs == [] then [] else [Promote(norm, w, xs[0])] + PromoteAll(norm, w, xs[1..])
  }

  /** The pass over `black` promotes the nodes `taken` marks and keeps the others. */
  ghost predicate MaskedSweep(norm: Point -> real, w: DijkstraNode, black: seq<DijkstraNode>, taken: seq<bool>) {
    PassMask(w, black, taken) &&
    Sweep(norm, w, black) == SweepResult(PromoteAll(norm, w, Pick(black, taken, true)), Pick(black, taken, false))
  }

  /** One pass promotes and keeps the two sides of the pass mask. */
  lemma {:induction false} SweepPartition(norm: Point -> real, w: DijkstraNode, black: seq<DijkstraNode>)
    ensures exists taken :: MaskedSweep(norm, w, black, taken)
    decreases |black|
  {
    if black == [] {
      assert MaskedSweep(norm, w, black, []);
    } else if IsEdge(w.state, black[0].state) && |black| == 1 {
      assert Pick(black, [true], true) == [black[0]];
      assert MaskedSweep(norm, w, black, [true]);
    } else if IsEdge(w.state, black[0].state) {
      SweepPartition(norm, w, black[2..]);
      var taken' :| MaskedSweep(norm, w, black[2..], taken');
      MaskedAfterEdge(norm, w, black, taken');
    } else {
      SweepPartition(norm, w, black[1..]);
      var taken' :| MaskedSweep(norm, w, black[1..], taken');
      MaskedAfterOther(norm, w, black, taken');
    }
  }

  lemma MaskedAfterEdge(norm: Point -> real, w: DijkstraNode, black: seq<DijkstraNode>, taken': seq<bool>)
    requires |black| >= 2 && IsEdge(w.state, black[0].state) && MaskedSweep(norm, w, black[2..], taken')
    ensures MaskedSweep(norm, w, black, [true, false] + taken')
  {
    var taken := [true, false] + taken';
    MaskAfterEdge(w, black, taken');
    PickSkipTwo(black, taken, true);
    PickSkipTwo(black, taken, false);
    assert taken[2..] == taken';
    var src := Pick(black[2..], taken', true);
    assert ([black[0]] + src)[1..] == src;
  }

  lemma MaskedAfterOther(norm: Point -> real, w: DijkstraNode, black: seq<DijkstraNode>, taken': seq<bool>)
    requires |black| >= 1 && !IsEdge(w.state, black[0].state) && MaskedSweep(norm, w, black[1..], taken')
    ensures MaskedSweep(norm, w, black, [false] + taken')
  {
    var taken := [false] + taken';
    MaskAfterOther(w, black, taken');
    assert taken[1..] == taken';
  }

  lemma MaskAfterEdge(w: DijkstraNode, black: seq<DijkstraNode>, taken': seq<bool>)
    requires |black| >= 2 && IsEdge(w.state, black[0].state) && PassMask(w, black[2..], taken')
    ensures PassMask(w, black, [true, false] + taken')
  {
    var taken := [true, false] + taken';
    forall j | 0 <= j < |black|
      ensures taken[j] <==> IsEdge(w.state, black[j].state) && !(j > 0 && taken[j - 1])
    {
      if j >= 2 {
        var b := black[2..];
        assert taken[j] == taken'[j - 2] && black[j] == b[j - 2];
        assert taken'[j - 2] <==> IsEdge(w.state, b[j - 2].state) && !(j - 2 > 0 && taken'[j - 3]);
        if j > 2 {
          assert taken[j - 1] == taken'[j - 3];
        }
      }
    }
  }

  lemma MaskAfterOther(w: DijkstraNode, black: seq<DijkstraNode>, taken': seq<bool>)
    requires |black| >= 1 && !IsEdge(w.state, black[0].state) && PassMask(w, black[1..], taken')
    ensures PassMask(w, black, [false] + taken')
  {
    var taken := [false] + taken';
    forall j | 0 <= j < |black|
      ensures taken[j] <==> IsEdge(w.state, black[j].state) && !(j > 0 && taken[j - 1])
    {
      if j >= 1 {
        var b := black[1..];
        assert taken[j] == taken'[j - 1] && black[j] == b[j - 1];
        assert taken'[j - 1] <==> IsEdge(w.state, b[j - 1].state) && !(j - 1 > 0 && taken'[j - 2]);
        if j > 1 {
          assert taken[j - 1] == taken'[j - 2];
        }
      }
    }
    assert |taken| == |black|;
    assert PassMask(w, black, taken);
  }

  /** Picking from a mask that starts with a taken node and a passed-over one. */
  lemma PickSkipTwo<T>(xs: seq<T>, taken: seq<bool>, want: bool)
    requires |xs| >= 2 && |taken| == |xs| && taken[0] && !taken[1]
    ensures Pick(xs, taken, want) == (if want then [xs[0]] else [xs[1]]) + Pick(xs[2..], taken[2..], want)
  {
    assert xs[1..][1..] == xs[2..] && taken[1..][1..] == taken[2..];
  }

  /** Every node a pass mask takes is a successor of the settled node. */
  lemma TakenAreSuccessors(w: DijkstraNode, black: seq<DijkstraNode>, taken: seq<bool>)
    requires PassMask(w, black, taken)
    ensures forall k :: 0 <= k < |Pick(black, taken, true)| ==> IsEdge(w.state, Pick(black, taken, true)[k].state)
  {
    var src := Pick(black, taken, true);
    forall k | 0 <= k < |src| ensures IsEdge(w.state, src[k].state) {
      assert src[k] in src;
      var j :| 0 <= j < |black| && black[j] == src[k] && taken[j] == true;
      assert taken[j] <==> IsEdge(w.state, black[j].state) && !(j > 0 && taken[j - 1]);
    }
  }

  /**
   * One pass splits the black list: the promoted nodes are made, in order,
   * from successors of the settled node, and those successors together with
   * the kept nodes are exactly the black list.
   */
  lemma SweepSources(norm: Point -> real, w: DijkstraNode, black: seq<DijkstraNode>)
    ensures exists src: seq<DijkstraNode> ::
              |src| == |Sweep(norm, w, black).promoted| &&
              multiset(src) + multiset(Sweep(norm, w, black).kept) == multiset(black) &&
              forall k :: 0 <= k < |src| ==> Sweep(norm, w, black).promoted[k] == Promote(norm, w, src[k]) && IsEdge(w.state, src[k].state)
  {
    SweepPartition(norm, w, black);
    var taken :| MaskedSweep(norm, w, black, taken);
    var src, r := Pick(black, taken, true), Sweep(norm, w, black);
    PickPartition(black, taken);
    TakenAreSuccessors(w, black, taken);
    assert |src| == |r.promoted| && multiset(src) + multiset(r.kept) == multiset(black);
  }

  /**
   * Black nodes that are not successors of the settled node are all kept,
   * in order.
   */
  lemma {:induction false} SweepKeepsNonSuccessors(norm: Point -> real, w: DijkstraNode, black: seq<DijkstraNode>)
    requires forall b :: b in black ==> !IsEdge(w.state, b.state)
    ensures Sweep(norm, w, black) == SweepResult([], black)
    decreases |black|
  {
    if black != [] {
      assert forall b :: b in black[1..] ==> b in black;
      SweepKeepsNonSuccessors(norm, w, black[1..]);
      assert [black[0]] + black[1..] == black;
    }
  }

  /**
   * The `for black in black_nodes` loop as written: the iterator's index
   * runs over the list that the body shortens.
   */
  method ExpandWhite(norm: Point -> real, w: DijkstraNode, grey: seq<DijkstraNode>, black: seq<DijkstraNode>)
    returns (grey': seq<DijkstraNode>, black': seq<DijkstraNode>)
    ensures grey' == grey + Sweep(norm, w, black).promoted
    ensures black' == Sweep(norm, w, black).kept
  {
    grey', black' := grey, black;
    var i := 0;
    ghost var j := 0;
    ghost var promoted: seq<DijkstraNode> := [];
    ghost var kept: seq<DijkstraNode> := [];
    assert black[0..] == black;
    while i < |black'|
      invariant Swept(norm, w, black, j, promoted, kept, black', i)
      invariant grey' == grey + promoted
      decreases |black| - j
    {
      var b := black'[i];
      // The iterator has moved past `b`; removing `b` shifts its successor into the slot the iterator reads next.
      if IsEdge(w.state, b.state) {
        grey' := grey' + [Promote(norm, w, b)];
        j, kept := SweptEdge(norm, w, black, j, promoted, kept, black', i);
        promoted := promoted + [Promote(norm, w, b)];
        black' := black'[..i] + black'[i + 1..];
      } else {
        j, kept := SweptOther(norm, w, black, j, promoted, kept, black', i);
      }
      i := i + 1;
    }
    SweptAll(norm, w, black, j, promoted, kept, black', i);
  }

  /**
   * The pass has read the first `j` black nodes, promoting `promoted` and
   * keeping `kept`; the iterator stands at `i` in the shortened list.
   */
  ghost predicate Swept(norm: Point -> real, w: DijkstraNode, black: seq<DijkstraNode>, j: nat,
                        promoted: seq<DijkstraNode>, kept: seq<DijkstraNode>, current: seq<DijkstraNode>, i: nat)
  {
    j <= |black| &&
    ((current == kept + black[j..] && i == |kept|) || (current == kept && j == |black| && i == |kept| + 1)) &&
    Sweep(norm, w, black) == SweepResult(promoted + Sweep(norm, w, black[j..]).promoted,
                                         kept + Sweep(norm, w, black[j..]).kept)
  }

  lemma SweptEdge(norm: Point -> real, w: DijkstraNode, black: seq<DijkstraNode>, j: nat,
                  promoted: seq<DijkstraNode>, kept: seq<DijkstraNode>, current: seq<DijkstraNode>, i: nat)
    returns (j': nat, kept': seq<DijkstraNode>)
    requires Swept(norm, w, black, j, promoted, kept, current, i) && i < |current|
    requires IsEdge(w.state, current[i].state)
    ensures Swept(norm, w, black, j', promoted + [Promote(norm, w, current[i])], kept', current[..i] + current[i + 1..], i + 1)
    ensures j' > j
  {
    assert current[i] == black[j];
    SweepEdgeAt(norm, w, black, j);
    RemoveAtJoin(kept, black, j);
    if j + 1 < |black| {
      j', kept' := j + 2, kept + [black[j + 1]];
    } else {
      j', kept' := |black|, kept;
    }
  }

  lemma SweptOther(norm: Point -> real, w: DijkstraNode, black: seq<DijkstraNode>, j: nat,
                   promoted: seq<DijkstraNode>, kept: seq<DijkstraNode>, current: seq<DijkstraNode>, i: nat)
    returns (j': nat, kept': seq<DijkstraNode>)
    requires Swept(norm, w, black, j, promoted, kept, current, i) && i < |current|
    requires !IsEdge(w.state, current[i].state)
    ensures Swept(norm, w, black, j', promoted, kept', current, i + 1)
    ensures j' > j
  {
    assert current[i] == black[j];
    SweepOtherAt(norm, w, black, j);
    j', kept' := j + 1, kept + [black[j]];
    assert kept + black[j..] == kept' + black[j'..];
  }

  lemma SweptAll(norm: Point -> real, w: DijkstraNode, black: seq<DijkstraNode>, j: nat,
                 promoted: seq<DijkstraNode>, kept: seq<DijkstraNode>, current: seq<DijkstraNode>, i: nat)
    requires Swept(norm, w, black, j, promoted, kept, current, i) && i >= |current|
    ensures Sweep(norm, w, black) == SweepResult(promoted, current)
  {
    assert black[j..] == [];
  }

  /** Sweep from position `j` where a successor stands. */
  lemma SweepEdgeAt(norm: Point -> real, w: DijkstraNode, black: seq<DijkstraNode>, j: nat)
    requires j < |black| && IsEdge(w.state, black[j].state)
    ensures j + 1 < |black| ==>
              Sweep(norm, w, black[j..]) == SweepResult([Promote(norm, w, black[j])] + Sweep(norm, w, black[j + 2..]).promoted,
                                                        [black[j + 1]] + Sweep(norm, w, black[j + 2..]).kept)
    ensures j + 1 >= |black| ==> Sweep(norm, w, black[j..]) == SweepResult([Promote(norm, w, black[j])], [])
  {
    if j + 1 < |black| {
      assert black[j..][2..] == black[j + 2..];
    }
  }

  /** Sweep from position `j` where no successor stands. */
  lemma SweepOtherAt(norm: Point -> real, w: DijkstraNode, black: seq<DijkstraNode>, j: nat)
    requires j < |black| && !IsEdge(w.state, black[j].state)
    ensures Sweep(norm, w, black[j..]) == SweepResult(Sweep(norm, w, black[j + 1..]).promoted,
                                                      [black[j]] + Sweep(norm, w, black[j + 1..]).kept)
  {
    assert black[j..][1..] == black[j + 1..];
  }

  /** Removing the element after the kept prefix. */
  lemma RemoveAtJoin(kept: seq<DijkstraNode>, black: seq<DijkstraNode>, j: nat)
    requires j < |black|
    ensures var l := kept + black[j..]; l[..|kept|] + l[|kept| + 1..] == kept + black[j + 1..]
    ensures j + 1 < |black| ==> kept + black[j + 1..] == (kept + [black[j + 1]]) + black[j + 2..]
    ensures j + 1 >= |black| ==> kept + black[j + 1..] == kept
  {
    var l := kept + black[j..];
    assert l[..|kept|] == kept;
    assert l[|kept| + 1..] == black[j + 1..];
  }

  /** The states from `n` back along `previous`, leaving out the start node. */
  function PathTo(n: DijkstraNode): (r: seq<State>)
    ensures |r| == 0 <==> n.previous.None?
    ensures |r| > 0 ==> r[0] == n.state
    decreases n
  {
    match n.previous
    case None => []
    case Some(p) => [n.state] + PathTo(p)
  }

  /**
   * The path-building loop: follow `previous` from the goal while there is
   * one, collecting states.
   */
  method ReconstructPath(goal: DijkstraNode) returns (path: seq<State>)
    ensures path == PathTo(goal)
  {
    path := [];
    var current := goal;
    while current.previous.Some?
      invariant path + PathTo(current) == PathTo(goal)
      decreases current
    {
      path := path + [current.state];
      current := current.previous.value;
    }
  }

  /** Following `previous` from `n` leads to the start node, one time step per link. */
  ghost predicate Linked(n: DijkstraNode, start: State)
    decreases n
  {
    match n.previous
    case None => n == StartNode(start)
    case Some(p) => p.state.timeStep + 1 == n.state.timeStep && Linked(p, start)
  }

  /**
   * The path from a linked node: as long as the time step gap to the start,
   * beginning with the node's state, ending one step after the start, time
   * steps falling by one, and the second state is the predecessor's.
   */
  lemma {:induction false} PathShape(n: DijkstraNode, start: State)
    requires Linked(n, start)
    ensures |PathTo(n)| == n.state.timeStep - start.timeStep
    ensures |PathTo(n)| > 0 ==> PathTo(n)[0] == n.state && PathTo(n)[|PathTo(n)| - 1].timeStep == start.timeStep + 1
    ensures forall k :: 0 <= k < |PathTo(n)| - 1 ==> PathTo(n)[k].timeStep == PathTo(n)[k + 1].timeStep + 1
    ensures n.previous.Some? ==> (PathTo(n) + [start])[1] == n.previous.value.state
    decreases n
  {
    match n.previous
    case None =>
    case Some(p) =>
      PathShape(p, start);
      assert PathTo(n) == [n.state] + PathTo(p);
  }

  /** A grey or settled node: linked to the start, costed by its last edge, a goal only if one was given. */
  ghost predicate Reached(norm: Point -> real, start: State, goals: seq<State>, n: DijkstraNode) {
    Linked(n, start) &&
    (n.previous.Some? ==> n.costs == UNKNOWN_COSTS + EdgeWeight(norm, n.previous.value.state, n.state)) &&
    (n.isGoalNode ==> n.state in goals && n.previous.Some?)
  }

  /** A black node: unknown cost, no predecessor, a goal only if one was given. */
  ghost predicate Unreached(goals: seq<State>, b: DijkstraNode) {
    b.costs == UNKNOWN_COSTS && b.previous.None? && (b.isGoalNode ==> b.state in goals)
  }

  /**
   * The main loop of dijkstra_search, from the initial grey and black lists:
   * settle the first cheapest grey node and promote its black successors,
   * until grey is empty or a goal has been settled. Returns the settled goal,
   * if any; `white` is the settled nodes in settling order and `greyLeft`
   * the grey list when the loop stops.
   */
  method MainLoop(norm: Point -> real, start: State, ghost goals: seq<State>, black0: seq<DijkstraNode>)
    returns (goal: Option<DijkstraNode>, ghost white: seq<DijkstraNode>, ghost greyLeft: seq<DijkstraNode>)
    requires forall b :: b in black0 ==> Unreached(goals, b)
    ensures (white, greyLeft) == Settle(norm, [StartNode(start)], black0, [])
    ensures |white| >= 1 && white[0] == StartNode(start)
    ensures forall n :: n in white ==> Reached(norm, start, goals, n)
    ensures forall k :: 0 <= k < |white| - 1 ==> !white[k].isGoalNode
    ensures goal == if white[|white| - 1].isGoalNode then Some(white[|white| - 1]) else None
  {
    white := [];
    var grey := [StartNode(start)];
    var black := black0;
    var nextWhite: Option<DijkstraNode> := None;
    while grey != [] && !(nextWhite.Some? && nextWhite.value.isGoalNode)
      invariant Looping(norm, start, goals, black0, grey, black, white, nextWhite)
      decreases |grey| + 2 * |black|
    {
      var m := FirstMinIndex(grey);
      var w := grey[m];
      LoopStep(norm, start, goals, black0, grey, black, white, nextWhite, m);
      grey, black := ExpandWhite(norm, w, grey[..m] + grey[m + 1..], black);
      white := white + [w];
      nextWhite := Some(w);
    }
    greyLeft := grey;
    SettleStopped(norm, grey, black, white);
    goal := if nextWhite.Some? && nextWhite.value.isGoalNode then nextWhite else None;
  }

  /**
   * What holds between rounds of the main loop: the last settled node is
   * the one the loop looks at, only it may be a goal, every settled and grey
   * node is reached, every black node unreached, and the rest of the run is
   * the rest of the Settle run.
   */
  ghost predicate Looping(norm: Point -> real, start: State, goals: seq<State>, black0: seq<DijkstraNode>,
                          grey: seq<DijkstraNode>, black: seq<DijkstraNode>, white: seq<DijkstraNode>,
                          nextWhite: Option<DijkstraNode>)
  {
    (nextWhite.Some? <==> white != []) &&
    (white != [] ==> nextWhite.value == white[|white| - 1] && white[0] == StartNode(start)) &&
    (white == [] ==> grey == [StartNode(start)]) &&
    (forall n :: n in white ==> Reached(norm, start, goals, n)) &&
    (forall k :: 0 <= k < |white| - 1 ==> !white[k].isGoalNode) &&
    (forall n :: n in grey ==> Reached(norm, start, goals, n)) &&
    (forall b :: b in black ==> Unreached(goals, b)) &&
    Settle(norm, grey, black, white) == Settle(norm, [StartNode(start)], black0, [])
  }

  /** One round of the main loop keeps Looping and shrinks grey + 2 * black. */
  lemma LoopStep(norm: Point -> real, start: State, goals: seq<State>, black0: seq<DijkstraNode>,
                 grey: seq<DijkstraNode>, black: seq<DijkstraNode>, white: seq<DijkstraNode>,
                 nextWhite: Option<DijkstraNode>, m: nat)
    requires Looping(norm, start, goals, black0, grey, black, white, nextWhite)
    requires grey != [] && !(nextWhite.Some? && nextWhite.value.isGoalNode) && m == FirstMinIndex(grey)
    ensures var swept := Sweep(norm, grey[m], black);
            var grey' := grey[..m] + grey[m + 1..] + swept.promoted;
            Looping(norm, start, goals, black0, grey', swept.kept, white + [grey[m]], Some(grey[m])) &&
            |grey'| + 2 * |swept.kept| < |grey| + 2 * |black|
  {
    var w := grey[m];
    var swept := Sweep(norm, w, black);
    var grey' := grey[..m] + grey[m + 1..] + swept.promoted;
    SettleRound(norm, grey, black, white, m);
    GreyStep(norm, start, goals, grey, black, m);
    WhiteStep(norm, start, goals, grey, white, nextWhite, m);
  }

  /** After a round, grey holds reached nodes only and black unreached ones. */
  lemma GreyStep(norm: Point -> real, start: State, goals: seq<State>, grey: seq<DijkstraNode>, black: seq<DijkstraNode>, m: nat)
    requires m < |grey|
    requires forall n :: n in grey ==> Reached(norm, start, goals, n)
    requires forall b :: b in black ==> Unreached(goals, b)
    ensures var swept := Sweep(norm, grey[m], black);
            (forall n :: n in grey[..m] + grey[m + 1..] + swept.promoted ==> Reached(norm, start, goals, n)) &&
            (forall b :: b in swept.kept ==> Unreached(goals, b))
  {
    var swept := Sweep(norm, grey[m], black);
    OthersReached(norm, start, goals, grey, m);
    PromotedReached(norm, start, goals, grey[m], black);
    var grey' := grey[..m] + grey[m + 1..] + swept.promoted;
    assert forall n :: n in grey' ==> n in grey[..m] + grey[m + 1..] || n in swept.promoted;
  }

  /** After a round, the settled list has grown by the settled node, which is reached. */
  lemma WhiteStep(norm: Point -> real, start: State, goals: seq<State>, grey: seq<DijkstraNode>, white: seq<DijkstraNode>,
                  nextWhite: Option<DijkstraNode>, m: nat)
    requires m < |grey| && !(nextWhite.Some? && nextWhite.value.isGoalNode)
    requires nextWhite.Some? <==> white != []
    requires white != [] ==> nextWhite.value == white[|white| - 1] && white[0] == StartNode(start)
    requires white == [] ==> grey == [StartNode(start)]
    requires forall n :: n in white ==> Reached(norm, start, goals, n)
    requires forall k :: 0 <= k < |white| - 1 ==> !white[k].isGoalNode
    requires forall n :: n in grey ==> Reached(norm, start, goals, n)
    ensures var white' := white + [grey[m]];
            white'[0] == StartNode(start) &&
            (forall n :: n in white' ==> Reached(norm, start, goals, n)) &&
            (forall k :: 0 <= k < |white'| - 1 ==> !white'[k].isGoalNode)
  {
    var white' := white + [grey[m]];
    assert grey[m] in grey;
    forall k | 0 <= k < |white'| - 1 ensures !white'[k].isGoalNode {
      assert white'[k] == white[k];
    }
  }

  /**
   * dijkstra_search after the lists are built: run the main loop, then
   * rebuild the path from a settled goal.
   */
  method Search(norm: Point -> real, start: State, ghost goals: seq<State>, black0: seq<DijkstraNode>)
    returns (r: Option<SearchResult>, ghost white: seq<DijkstraNode>, ghost greyLeft: seq<DijkstraNode>)
    requires forall b :: b in black0 ==> Unreached(goals, b)
    ensures (white, greyLeft) == Settle(norm, [StartNode(start)], black0, [])
    ensures r == Outcome(white)
    ensures |white| >= 1 && white[0] == StartNode(start)
    ensures forall n :: n in white ==> Reached(norm, start, goals, n)
    ensures forall k :: 0 <= k < |white| - 1 ==> !white[k].isGoalNode
    ensures r.None? ==> greyLeft == []
    ensures r.Some? ==> |r.value.path| >= 1 && r.value.path[0] in goals
    ensures r.Some? ==> |r.value.path| == r.value.path[0].timeStep - start.timeStep
    ensures r.Some? ==> r.value.path[|r.value.path| - 1].timeStep == start.timeStep + 1
    ensures r.Some? ==> forall k :: 0 <= k < |r.value.path| - 1 ==> r.value.path[k].timeStep == r.value.path[k + 1].timeStep + 1
    ensures r.Some? ==> r.value.costs == UNKNOWN_COSTS + EdgeWeight(norm, (r.value.path + [start])[1], r.value.path[0])
    ensures goals == [] ==> r.None?
  {
    var goal;
    goal, white, greyLeft := MainLoop(norm, start, goals, black0);
    if goal.Some? {
      var costs := goal.value.costs;
      var path := ReconstructPath(goal.value);
      assert goal.value in white;
      PathShape(goal.value, start);
      r := Some(SearchResult(path, costs));
    } else {
      r := None;
    }
  }

  /**
   * The main loop as a function: from the grey, black and settled lists,
   * the settled list and the grey list when the loop stops. Each round
   * settles the first cheapest grey node and sweeps the black list from it.
   */
  function Settle(norm: Point -> real, grey: seq<DijkstraNode>, black: seq<DijkstraNode>, white: seq<DijkstraNode>)
    : (r: (seq<DijkstraNode>, seq<DijkstraNode>))
    ensures |r.0| >= |white| && r.0[..|white|] == white
    ensures r.1 == [] || (r.0 != [] && r.0[|r.0| - 1].isGoalNode)
    decreases |grey| + 2 * |black|
  {
    if grey == [] || (white != [] && white[|white| - 1].isGoalNode) then (white, grey)
    else
      var m := FirstMinIndex(grey);
      var w := grey[m];
      var swept := Sweep(norm, w, black);
      var r := Settle(norm, grey[..m] + grey[m + 1..] + swept.promoted, swept.kept, white + [w]);
      assert r.0[..|white|] == r.0[..|white| + 1][..|white|];
      r
  }

  /** One round of the main loop, unfolded. */
  lemma SettleRound(norm: Point -> real, grey: seq<DijkstraNode>, black: seq<DijkstraNode>, white: seq<DijkstraNode>, m: nat)
    requires grey != [] && !(white != [] && white[|white| - 1].isGoalNode) && m == FirstMinIndex(grey)
    ensures Settle(norm, grey, black, white) ==
            Settle(norm, grey[..m] + grey[m + 1..] + Sweep(norm, grey[m], black).promoted, Sweep(norm, grey[m], black).kept,
                   white + [grey[m]])
  {
  }

  /** Once the loop has stopped, the function returns the lists as they are. */
  lemma SettleStopped(norm: Point -> real, grey: seq<DijkstraNode>, black: seq<DijkstraNode>, white: seq<DijkstraNode>)
    requires grey == [] || (white != [] && white[|white| - 1].isGoalNode)
    ensures Settle(norm, grey, black, white) == (white, grey)
  {
  }

  /** What dijkstra_search returns once the main loop has stopped with settled list `white`. */
  function Outcome(white: seq<DijkstraNode>): (r: Option<SearchResult>)
    ensures r.Some? <==> white != [] && white[|white| - 1].isGoalNode
    ensures r.Some? ==> r.value == SearchResult(PathTo(white[|white| - 1]), white[|white| - 1].costs)
  {
    if white != [] && white[|white| - 1].isGoalNode then
      var goal := white[|white| - 1];
      Some(SearchResult(PathTo(goal), goal.costs))
    else None
  }

  /** Taking one node out of the grey list leaves the others reached. */
  lemma OthersReached(norm: Point -> real, start: State, goals: seq<State>, grey: seq<DijkstraNode>, m: nat)
    requires m < |grey| && forall n :: n in grey ==> Reached(norm, start, goals, n)
    ensures forall n :: n in grey[..m] + grey[m + 1..] ==> Reached(norm, start, goals, n)
  {
    forall n | n in grey[..m] + grey[m + 1..] ensures Reached(norm, start, goals, n) {
      assert n in grey[..m] || n in grey[m + 1..];
    }
  }

  /** Promoting from a reached node keeps every node reached and every black node unreached. */
  lemma PromotedReached(norm: Point -> real, start: State, goals: seq<State>, w: DijkstraNode, black: seq<DijkstraNode>)
    requires Reached(norm, start, goals, w)
    requires forall b :: b in black ==> Unreached(goals, b)
    ensures forall p :: p in Sweep(norm, w, black).promoted ==> Reached(norm, start, goals, p)
    ensures forall b :: b in Sweep(norm, w, black).kept ==> Unreached(goals, b)
  {
    forall p | p in Sweep(norm, w, black).promoted
      ensures Reached(norm, start, goals, p)
    {
      var b :| b in black && IsEdge(w.state, b.state) && p == Promote(norm, w, b);
      assert Linked(p, start);
    }
  }

  /**
   * Removes the start state and each goal state from the caller's list
   * where present, and builds the black list: a goal node per goal state,
   * then a plain node per remaining state.
   */
  method PrepareNodes(start: State, goals: seq<State>, states: StateList) returns (black: seq<DijkstraNode>)
    modifies states
    ensures states.items == RemoveEach(RemoveFirst(old(states.items), start), goals)
    ensures black == GoalNodes(goals) + PlainNodes(states.items)
  {
    if start in states.items {
      states.items := RemoveFirst(states.items, start);
    }
    black := TakeGoals(goals, states);
    black := AppendPlainNodes(black, states.items);
  }

  /**
   * `for goal_state in goal_states`: remove the goal state from the caller's
   * list where present and append a goal node for it.
   */
  method TakeGoals(goals: seq<State>, states: StateList) returns (black: seq<DijkstraNode>)
    modifies states
    ensures states.items == RemoveEach(old(states.items), goals)
    ensures black == GoalNodes(goals)
  {
    black := [];
    for i := 0 to |goals|
      invariant states.items == RemoveEach(old(states.items), goals[..i])
      invariant black == GoalNodes(goals[..i])
    {
      assert goals[..i + 1][..i] == goals[..i];
      if goals[i] in states.items {
        states.items := RemoveFirst(states.items, goals[i]);
      }
      black := black + [DijkstraNode(goals[i], true, UNKNOWN_COSTS, None)];
      GoalNodesExtend(goals, i);
    }
    assert goals[..|goals|] == goals;
  }

  lemma GoalNodesExtend(goals: seq<State>, i: nat)
    requires i < |goals|
    ensures GoalNodes(goals[..i + 1]) == GoalNodes(goals[..i]) + [DijkstraNode(goals[i], true, UNKNOWN_COSTS, None)]
  {
    var l, r := GoalNodes(goals[..i + 1]), GoalNodes(goals[..i]) + [DijkstraNode(goals[i], true, UNKNOWN_COSTS, None)];
    assert |l| == |r|;
    forall k | 0 <= k < |l| ensures l[k] == r[k] {
      if k < i {
        assert goals[..i + 1][k] == goals[..i][k];
      }
    }
  }

  /** `for state in states: black_nodes.append(DijkstraNode(state))`. */
  method AppendPlainNodes(black: seq<DijkstraNode>, states: seq<State>) returns (black': seq<DijkstraNode>)
    ensures black' == black + PlainNodes(states)
  {
    black' := black;
    for i := 0 to |states|
      invariant |black'| == |black| + i && black'[..|black|] == black
      invariant forall k :: 0 <= k < i ==> black'[|black| + k] == DijkstraNode(states[k], false, UNKNOWN_COSTS, None)
    {
      black' := black' + [DijkstraNode(states[i], false, UNKNOWN_COSTS, None)];
    }
    assert black' == black + PlainNodes(states);
  }

  /** The black list starts with every node unreached. */
  lemma BlackUnreached(goals: seq<State>, items: seq<State>)
    ensures forall b :: b in GoalNodes(goals) + PlainNodes(items) ==> Unreached(goals, b)
  {
    var black := GoalNodes(goals) + PlainNodes(items);
    forall b | b in black ensures Unreached(goals, b) {
      var k :| 0 <= k < |black| && black[k] == b;
      if k >= |goals| {
        assert b == PlainNodes(items)[k - |goals|];
      }
    }
  }

  /**
   * dijkstra_search: shortens the caller's list, then searches from the
   * start state towards the goal states.
   */
  method DijkstraSearch(norm: Point -> real, start: State, goals: seq<State>, states: StateList)
    returns (r: Option<SearchResult>, ghost white: seq<DijkstraNode>, ghost greyLeft: seq<DijkstraNode>)
    modifies states
    ensures states.items == RemoveEach(RemoveFirst(old(states.items), start), goals)
    ensures r.Some? ==> |r.value.path| >= 1 && r.value.path[0] in goals
    ensures r.Some? ==> |r.value.path| == r.value.path[0].timeStep - start.timeStep
    ensures r.Some? ==> forall k :: 0 <= k < |r.value.path| - 1 ==> r.value.path[k].timeStep == r.value.path[k + 1].timeStep + 1
    ensures r.Some? ==> r.value.costs == UNKNOWN_COSTS + EdgeWeight(norm, (r.value.path + [start])[1], r.value.path[0])
    ensures goals == [] ==> r.None?
    ensures |white| >= 1 && white[0] == StartNode(start)
    ensures forall k :: 0 <= k < |white| - 1 ==> !white[k].isGoalNode
    ensures r.Some? <==> white[|white| - 1].isGoalNode
    ensures r.Some? ==> r.value.path == PathTo(white[|white| - 1]) && r.value.costs == white[|white| - 1].costs
    ensures r.None? ==> greyLeft == []
    ensures (white, greyLeft) == Settle(norm, [StartNode(start)], GoalNodes(goals) + PlainNodes(states.items), [])
    ensures r == Outcome(white)
  {
    var black := PrepareNodes(start, goals, states);
    BlackUnreached(goals, states.items);
    r, white, greyLeft := Search(norm, start, goals, black);
  }
}
