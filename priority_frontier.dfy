/**
 * The priority frontier (PriorityStatesQueue.py): a binary min-heap of
 * entries (-time_step, insertion index, state), so that the state with the
 * greatest time step leaves first and, among equal time steps, the one put
 * earliest. The heap operations are those of Python's heapq on a list.
 */
module PriorityFrontier {
  import opened States

  /** The tuple `(-item.time_step, self.index, item)` pushed by `_put`. */
  datatype HeapEntry = HeapEntry(priority: int, index: nat, item: State)

  /**
   * Python's `<` on the tuples: by priority, then by index. Indices are
   * unique in a well-formed queue, so the states are never compared.
   */
  predicate Less(a: HeapEntry, b: HeapEntry): (r: bool)
    ensures a.priority < b.priority ==> r
    ensures r ==> a.priority <= b.priority
    ensures a.priority == b.priority ==> (r <==> a.index < b.index)
  {
    a.priority < b.priority || (a.priority == b.priority && a.index < b.index)
  }

  predicate LessEq(a: HeapEntry, b: HeapEntry) {
    !Less(b, a)
  }

  function Parent(i: nat): nat
    requires i > 0
  {
    (i - 1) / 2
  }

  /** The heapq invariant: no entry is below its parent. */
  ghost predicate IsHeap(h: seq<HeapEntry>) {
    forall i :: 0 < i < |h| ==> LessEq(h[Parent(i)], h[i])
  }

  function Swap(s: seq<HeapEntry>, i: nat, j: nat): (r: seq<HeapEntry>)
    requires i < |s| && j < |s|
    ensures |r| == |s| && r[i] == s[j] && r[j] == s[i]
    ensures forall k :: 0 <= k < |s| && k != i && k != j ==> r[k] == s[k]
    ensures multiset(r) == multiset(s)
  {
    s[i := s[j]][j := s[i]]
  }

  /** The root of a heap is no greater than any entry. */
  lemma {:induction false} HeapRootFirst(h: seq<HeapEntry>, j: nat)
    requires IsHeap(h) && j < |h|
    ensures LessEq(h[0], h[j])
    decreases j
  {
    if j > 0 {
      HeapRootFirst(h, Parent(j));
    }
  }

  /**
   * `heapq.heappush`: append, then move the new entry up past every parent
   * it is less than.
   */
  method HeapPush(h: seq<HeapEntry>, e: HeapEntry) returns (r: seq<HeapEntry>)
    requires IsHeap(h)
    ensures IsHeap(r)
    ensures multiset(r) == multiset(h) + multiset{e}
    ensures |r| == |h| + 1
  {
    r := h + [e];
    var k: nat := |h|;
    HeapAboveStart(h, e);
    while k > 0 && Less(r[k], r[Parent(k)])
      invariant k < |r| == |h| + 1
      invariant multiset(r) == multiset(h) + multiset{e}
      invariant HeapAbove(r, k)
      decreases k
    {
      var p := Parent(k);
      SiftUpStep(r, k);
      r := Swap(r, k, p);
      k := p;
    }
    SiftUpDone(r, k);
  }

  /**
   * Every parent-child pair is in order except the one between `k` and its
   * parent, and `k`'s parent is no greater than `k`'s children.
   */
  ghost predicate HeapAbove(r: seq<HeapEntry>, k: nat) {
    (forall i :: 0 < i < |r| && i != k ==> LessEq(r[Parent(i)], r[i])) &&
    (k > 0 ==> forall i :: 0 < i < |r| && Parent(i) == k ==> LessEq(r[Parent(k)], r[i]))
  }

  lemma HeapAboveStart(h: seq<HeapEntry>, e: HeapEntry)
    requires IsHeap(h)
    ensures HeapAbove(h + [e], |h|)
  {
    var r := h + [e];
    forall i | 0 < i < |r| && i != |h| ensures LessEq(r[Parent(i)], r[i]) {
      assert r[Parent(i)] == h[Parent(i)] && r[i] == h[i];
    }
    forall i | 0 < i < |r| && Parent(i) == |h| ensures false {
    }
  }

  /** Swapping the entry at `k` with its parent, which is greater, moves the gap up. */
  lemma SiftUpStep(r: seq<HeapEntry>, k: nat)
    requires 0 < k < |r| && HeapAbove(r, k) && Less(r[k], r[Parent(k)])
    ensures HeapAbove(Swap(r, k, Parent(k)), Parent(k))
  {
    var p := Parent(k);
    var s := Swap(r, k, p);
    forall i | 0 < i < |s| && i != p
      ensures LessEq(s[Parent(i)], s[i])
    {
      if i == k {
        assert s[Parent(i)] == r[k] && s[i] == r[p];
      } else if Parent(i) == k {
        assert s[Parent(i)] == r[p] && s[i] == r[i];
      } else if Parent(i) == p {
        assert s[Parent(i)] == r[k] && s[i] == r[i];
        assert LessEq(r[p], r[i]);
      } else {
        assert s[Parent(i)] == r[Parent(i)] && s[i] == r[i];
      }
    }
    if p > 0 {
      forall i | 0 < i < |s| && Parent(i) == p
        ensures LessEq(s[Parent(p)], s[i])
      {
        assert s[Parent(p)] == r[Parent(p)];
        assert LessEq(r[Parent(p)], r[p]);
        if i != k {
          assert s[i] == r[i] && LessEq(r[p], r[i]);
        }
      }
    }
  }

  /** The new entry stops at the root or below a parent no greater than it. */
  lemma SiftUpDone(r: seq<HeapEntry>, k: nat)
    requires k < |r| && HeapAbove(r, k) && !(k > 0 && Less(r[k], r[Parent(k)]))
    ensures IsHeap(r)
  {
  }

  /**
   * Every parent-child pair is in order except those between `k` and its
   * children, and `k`'s parent is no greater than those children.
   */
  ghost predicate HeapBelow(r: seq<HeapEntry>, k: nat) {
    (forall i :: 0 < i < |r| && Parent(i) != k ==> LessEq(r[Parent(i)], r[i])) &&
    (k > 0 ==> forall i :: 0 < i < |r| && Parent(i) == k ==> LessEq(r[Parent(k)], r[i]))
  }

  /**
   * The sift-down used by `heapq.heappop` after the last entry has been
   * moved to the root: swap the entry at the top with its lesser child while
   * that child is less than it.
   */
  method SiftDown(h: seq<HeapEntry>) returns (r: seq<HeapEntry>)
    requires HeapBelow(h, 0)
    ensures IsHeap(r)
    ensures multiset(r) == multiset(h) && |r| == |h|
  {
    r := h;
    var k := 0;
    while 2 * k + 1 < |r|
      invariant k <= |r| == |h|
      invariant multiset(r) == multiset(h)
      invariant HeapBelow(r, k)
      decreases |r| - k
    {
      var c := 2 * k + 1;
      if c + 1 < |r| && !Less(r[c], r[c + 1]) {
        c := c + 1;
      }
      assert c == 2 * k + 1 ==> 2 * k + 2 >= |r| || Less(r[c], r[c + 1]);
      assert c == 2 * k + 2 ==> LessEq(r[c], r[c - 1]);
      if !Less(r[c], r[k]) {
        SiftDownDone(r, k, c);
        return;
      }
      SiftDownStep(r, k, c);
      r := Swap(r, k, c);
      k := c;
    }
    SiftDownLeaf(r, k);
  }

  /** The only entries whose parent is `k` are at 2k+1 and 2k+2. */
  lemma ChildrenOf(k: nat)
    ensures forall i: nat :: i > 0 && Parent(i) == k ==> i == 2 * k + 1 || i == 2 * k + 2
    ensures Parent(2 * k + 1) == k && Parent(2 * k + 2) == k
  {
  }

  /** Swapping the entry at `k` with its lesser child, which is less than it, moves the gap down. */
  lemma SiftDownStep(r: seq<HeapEntry>, k: nat, c: nat)
    requires HeapBelow(r, k) && c < |r|
    requires c == 2 * k + 1 || c == 2 * k + 2
    requires c == 2 * k + 1 ==> 2 * k + 2 >= |r| || Less(r[c], r[c + 1])
    requires c == 2 * k + 2 ==> LessEq(r[c], r[c - 1])
    requires Less(r[c], r[k])
    ensures HeapBelow(Swap(r, k, c), c)
  {
    ChildrenOf(k);
    ChildrenOf(c);
    var s := Swap(r, k, c);
    forall i | 0 < i < |s| && Parent(i) != c
      ensures LessEq(s[Parent(i)], s[i])
    {
      if i == c {
        assert s[Parent(i)] == r[c] && s[i] == r[k];
      } else if Parent(i) == k {
        assert s[Parent(i)] == r[c] && s[i] == r[i];
      } else if i == k {
        assert s[Parent(i)] == r[Parent(k)] && s[i] == r[c];
      } else {
        assert s[Parent(i)] == r[Parent(i)] && s[i] == r[i];
      }
    }
    forall i | 0 < i < |s| && Parent(i) == c
      ensures LessEq(s[Parent(c)], s[i])
    {
      assert s[Parent(c)] == r[c] && s[i] == r[i];
    }
  }

  /** An entry no greater than its lesser child closes the gap. */
  lemma SiftDownDone(r: seq<HeapEntry>, k: nat, c: nat)
    requires HeapBelow(r, k) && c < |r|
    requires c == 2 * k + 1 || c == 2 * k + 2
    requires c == 2 * k + 1 ==> 2 * k + 2 >= |r| || Less(r[c], r[c + 1])
    requires c == 2 * k + 2 ==> LessEq(r[c], r[c - 1])
    requires !Less(r[c], r[k])
    ensures IsHeap(r)
  {
    ChildrenOf(k);
  }

  /** An entry without children closes the gap. */
  lemma SiftDownLeaf(r: seq<HeapEntry>, k: nat)
    requires HeapBelow(r, k) && 2 * k + 1 >= |r|
    ensures IsHeap(r)
  {
    ChildrenOf(k);
  }

  /**
   * `heapq.heappop`: remove the last entry; if entries remain, return the
   * root and put the last entry there and sift it down.
   */
  method HeapPop(h: seq<HeapEntry>) returns (top: HeapEntry, r: seq<HeapEntry>)
    requires IsHeap(h) && |h| > 0
    ensures top == h[0]
    ensures forall j :: 0 <= j < |h| ==> LessEq(top, h[j])
    ensures IsHeap(r)
    ensures multiset(r) + multiset{top} == multiset(h) && |r| == |h| - 1
  {
    forall j | 0 <= j < |h| ensures LessEq(h[0], h[j]) {
      HeapRootFirst(h, j);
    }
    var last := h[|h| - 1];
    r := h[..|h| - 1];
    assert h == r + [last];
    if |r| == 0 {
      top := last;
    } else {
      top := r[0];
      ghost var before := r;
      r := r[0 := last];
      assert multiset(r) + multiset{top} == multiset(before) + multiset{last};
      r := SiftDown(r);
    }
  }

  /** Entries are pairwise distinct and so are their indices. */
  ghost predicate UniqueIndices(q: seq<HeapEntry>) {
    (forall e :: e in multiset(q) ==> multiset(q)[e] == 1) &&
    (forall e, f :: e in multiset(q) && f in multiset(q) && e.index == f.index ==> e == f)
  }

  /** An entry held at two positions is counted twice. */
  lemma RepeatCounted(q: seq<HeapEntry>, i: nat, j: nat)
    requires i < j < |q| && q[i] == q[j]
    ensures multiset(q)[q[i]] >= 2
  {
    assert q == q[..j] + q[j..];
    assert q[i] in multiset(q[..j]);
    assert q[j..][0] == q[j];
  }

  /** No two positions of the queue hold the same index. */
  lemma DistinctIndices(q: seq<HeapEntry>, i: nat, j: nat)
    requires UniqueIndices(q) && i < j < |q|
    ensures q[i].index != q[j].index
  {
    if q[i].index == q[j].index {
      RepeatCounted(q, i, j);
    }
  }

  class PriorityStatesQueue {
    var queue: seq<HeapEntry>
    var index: nat
    const positionThreshold: real
    const angleThreshold: real

    /**
     * A heap, every entry carrying the negated time step of its state and
     * an index below the next one to be handed out, no index used twice.
     */
    ghost predicate Valid()
      reads this
    {
      IsHeap(queue) &&
      (forall e :: e in queue ==> e.priority == -(e.item.timeStep as int) && e.index < index) &&
      UniqueIndices(queue)
    }

    constructor (positionThreshold: real, angleThreshold: real)
      ensures Valid()
      ensures queue == [] && index == 0
      ensures this.positionThreshold == positionThreshold && this.angleThreshold == angleThreshold
    {
      queue := [];
      index := 0;
      this.positionThreshold := positionThreshold;
      this.angleThreshold := angleThreshold;
    }

    /** `_put`: push `(-item.time_step, index, item)` and advance the index by one. */
    method Put(item: State)
      requires Valid()
      modifies this
      ensures Valid()
      ensures index == old(index) + 1
      ensures multiset(queue) == old(multiset(queue)) + multiset{HeapEntry(-(item.timeStep as int), old(index), item)}
      ensures |queue| == old(|queue|) + 1
    {
      var e := HeapEntry(-(item.timeStep as int), index, item);
      ghost var before := queue;
      assert e !in multiset(before);
      queue := HeapPush(queue, e);
      index := index + 1;
      assert forall x :: x in queue ==> x in multiset(before) + multiset{e};
    }

    /**
     * `_get`: pop the least entry and return its state: one with the
     * greatest time step, and of those the one put first.
     */
    method Get() returns (item: State)
      requires Valid() && |queue| > 0
      modifies this
      ensures Valid() && index == old(index)
      ensures item == old(queue)[0].item
      ensures multiset(queue) + multiset{old(queue)[0]} == old(multiset(queue))
      ensures |queue| == old(|queue|) - 1
      ensures forall e :: e in old(queue) ==> e.item.timeStep <= item.timeStep
      ensures forall e :: e in old(queue) && e.item.timeStep == item.timeStep ==> old(queue)[0].index <= e.index
    {
      ghost var before := queue;
      var top;
      top, queue := HeapPop(queue);
      item := top.item;
      assert top in before;
      assert forall x :: x in queue ==> x in multiset(before);
      assert forall x :: x in multiset(queue) ==> multiset(queue)[x] <= multiset(before)[x];
    }

    /**
     * `__contains__`: some stored state is within the position threshold in
     * x and y and within the angle threshold in heading, bounds included.
     */
    predicate Contains(item: State)
      reads this
      ensures Contains(item) ==> |queue| > 0
      ensures positionThreshold >= 0.0 && angleThreshold >= 0.0 ==>
                forall i :: 0 <= i < |queue| && queue[i].item == item ==> Contains(item)
    {
      exists i :: 0 <= i < |queue| && Near(queue[i].item, item, positionThreshold, angleThreshold)
    }
  }

  /** Every put hands out a fresh index: the entries of a valid queue differ in index. */
  lemma ValidIndicesDistinct(q: PriorityStatesQueue, i: nat, j: nat)
    requires q.Valid() && i < j < |q.queue|
    ensures q.queue[i].index != q.queue[j].index
  {
    DistinctIndices(q.queue, i, j);
  }
}
