/** timer.cpp: `Pri_queue`, a binary heap of timers with the earliest expiry at the
    root. The standard library's heap algorithms are plain sift-up and sift-down. */
module Heaps {
  import opened Sequences

  /** `id` stands for the identity of the shared handle. */
  datatype TimerHandle = TimerHandle(id: nat, expired: nat)

  type Heap = seq<TimerHandle>

  // ---------- Heaps as sequences ----------

  function Parent(i: nat): (p: nat)
    requires i > 0
    ensures p < i && (i == 2 * p + 1 || i == 2 * p + 2)
  {
    (i - 1) / 2
  }

  /** The heap order on every edge whose upper end is at or after `lo`. */
  ghost predicate OrderedFrom(h: Heap, lo: nat) {
    forall i {:trigger Parent(i)} :: 0 < i < |h| && lo <= Parent(i) ==> h[Parent(i)].expired <= h[i].expired
  }

  ghost predicate IsHeap(h: Heap) {
    OrderedFrom(h, 0)
  }

  function Swap(h: Heap, i: nat, j: nat): (s: Heap)
    requires i < |h| && j < |h|
    ensures |s| == |h|
  {
    h[i := h[j]][j := h[i]]
  }

  /** `std::push_heap` on the last element, or any one above a heap-ordered rest. */
  function SiftUp(h: Heap, i: nat): (s: Heap)
    requires i < |h|
    ensures |s| == |h|
    decreases i
  {
    if i == 0 || h[Parent(i)].expired <= h[i].expired then h else SiftUp(Swap(h, i, Parent(i)), Parent(i))
  }

  function SmallerChild(h: Heap, i: nat): (c: nat)
    requires 2 * i + 1 < |h|
    ensures c < |h| && c > 0 && Parent(c) == i
    ensures forall j {:trigger Parent(j)} :: 0 < j < |h| && Parent(j) == i ==> h[c].expired <= h[j].expired
  {
    if 2 * i + 2 < |h| && h[2 * i + 2].expired < h[2 * i + 1].expired then 2 * i + 2 else 2 * i + 1
  }

  function SiftDown(h: Heap, i: nat): (s: Heap)
    requires i < |h|
    ensures |s| == |h|
    decreases |h| - i
  {
    if 2 * i + 1 >= |h| || h[i].expired <= h[SmallerChild(h, i)].expired then h
    else SiftDown(Swap(h, i, SmallerChild(h, i)), SmallerChild(h, i))
  }

  /** Sifting only permutes. */
  lemma {:induction false} SiftUpPermutes(h: Heap, i: nat)
    requires i < |h|
    ensures multiset(SiftUp(h, i)) == multiset(h)
    decreases i
  {
    if i > 0 && h[Parent(i)].expired > h[i].expired {
      assert multiset(Swap(h, i, Parent(i))) == multiset(h);
      SiftUpPermutes(Swap(h, i, Parent(i)), Parent(i));
    }
  }

  lemma {:induction false} SiftDownPermutes(h: Heap, i: nat)
    requires i < |h|
    ensures multiset(SiftDown(h, i)) == multiset(h)
    decreases |h| - i
  {
    if 2 * i + 1 < |h| && h[i].expired > h[SmallerChild(h, i)].expired {
      var c := SmallerChild(h, i);
      assert multiset(Swap(h, i, c)) == multiset(h);
      SiftDownPermutes(Swap(h, i, c), c);
    }
  }

  function Pushed(h: Heap, t: TimerHandle): (s: Heap)
    ensures |s| == |h| + 1
  {
    SiftUp(h + [t], |h|)
  }

  function Popped(h: Heap): (s: Heap)
    requires h != []
    ensures |s| == |h| - 1
  {
    if |h| == 1 then [] else SiftDown(SwapRemove(h, 0), 0)
  }

  /** `h` would be a heap if its element `i` were large enough. */
  ghost predicate HeapButUp(h: Heap, i: nat)
    requires i < |h|
  {
    && (forall j {:trigger Parent(j)} :: 0 < j < |h| && j != i ==> h[Parent(j)].expired <= h[j].expired)
    && (forall j {:trigger Parent(j)} :: 0 < j < |h| && Parent(j) == i && i > 0 ==>
          h[Parent(i)].expired <= h[j].expired)
  }

  lemma {:induction false} SiftUpHeap(h: Heap, i: nat)
    requires i < |h| && HeapButUp(h, i)
    ensures IsHeap(SiftUp(h, i))
    decreases i
  {
    if i > 0 && h[Parent(i)].expired > h[i].expired {
      SiftUpHeap(Swap(h, i, Parent(i)), Parent(i));
    }
  }

  /** `h` would be ordered from `lo` if its element `i` were small enough. */
  ghost predicate HeapButDown(h: Heap, lo: nat, i: nat)
    requires i < |h|
  {
    && (forall j {:trigger Parent(j)} :: 0 < j < |h| && lo <= Parent(j) && Parent(j) != i ==>
          h[Parent(j)].expired <= h[j].expired)
    && (forall j {:trigger Parent(j)} :: 0 < j < |h| && Parent(j) == i && i > 0 && lo <= Parent(i) ==>
          h[Parent(i)].expired <= h[j].expired)
  }

  lemma {:induction false} SiftDownOrdered(h: Heap, lo: nat, i: nat)
    requires lo <= i < |h| && HeapButDown(h, lo, i)
    ensures OrderedFrom(SiftDown(h, i), lo)
    decreases |h| - i
  {
    if 2 * i + 1 < |h| && h[i].expired > h[SmallerChild(h, i)].expired {
      var c := SmallerChild(h, i);
      SiftDownOrdered(Swap(h, i, c), lo, c);
    }
  }

  lemma {:induction false} RootIsMin(h: Heap, i: nat)
    requires IsHeap(h) && i < |h|
    ensures h[0].expired <= h[i].expired
    decreases i
  {
    if i > 0 {
      RootIsMin(h, Parent(i));
    }
  }

  lemma PushHeap(h: Heap, t: TimerHandle)
    requires IsHeap(h)
    ensures IsHeap(Pushed(h, t)) && multiset(Pushed(h, t)) == multiset(h) + multiset{t}
  {
    SiftUpHeap(h + [t], |h|);
    SiftUpPermutes(h + [t], |h|);
  }

  lemma SwapRemoveMultiset(h: Heap, k: nat)
    requires k < |h|
    ensures multiset(SwapRemove(h, k)) == multiset(h) - multiset{h[k]}
  {
    var last := |h| - 1;
    if k < last {
      SwapRemoveParts(h, k);
      Replaced(h[..k], h[k], h[k + 1..last], h[last]);
    } else {
      assert h == SwapRemove(h, k) + [h[k]];
    }
  }

  lemma SwapRemoveParts(h: Heap, k: nat)
    requires k < |h| - 1
    ensures var last := |h| - 1;
            h == h[..k] + [h[k]] + h[k + 1..last] + [h[last]] && SwapRemove(h, k) == h[..k] + [h[last]] + h[k + 1..last]
  {}

  lemma Replaced(a: Heap, x: TimerHandle, m: Heap, y: TimerHandle)
    ensures multiset(a + [x] + m + [y]) == multiset(a + [y] + m) + multiset{x}
  {}

  lemma PopHeap(h: Heap)
    requires IsHeap(h) && h != []
    ensures IsHeap(Popped(h)) && multiset(Popped(h)) == multiset(h) - multiset{h[0]}
  {
    SwapRemoveMultiset(h, 0);
    if |h| > 1 {
      SiftDownOrdered(SwapRemove(h, 0), 0, 0);
      SiftDownPermutes(SwapRemove(h, 0), 0);
    }
  }

  /** The strict comparison keeps the root in place against an equal expiry. */
  lemma {:induction false} SiftUpRoot(h: Heap, i: nat)
    requires 0 < i < |h| && h[i].expired >= h[0].expired
    ensures SiftUp(h, i)[0] == h[0]
    decreases i
  {
    if h[Parent(i)].expired > h[i].expired {
      SiftUpRoot(Swap(h, i, Parent(i)), Parent(i));
    }
  }

  lemma PushRoot(h: Heap, t: TimerHandle)
    requires IsHeap(h) && h != []
    ensures Pushed(h, t)[0].expired <= h[0].expired && Pushed(h, t)[0].expired <= t.expired
    ensures t.expired >= h[0].expired ==> Pushed(h, t)[0] == h[0]
  {
    PushHeap(h, t);
    if t.expired >= h[0].expired {
      SiftUpRoot(h + [t], |h|);
    }
    AllAboveRoot(Pushed(h, t), h[0]);
    AllAboveRoot(Pushed(h, t), t);
  }

  lemma AllAboveRoot(h: Heap, t: TimerHandle)
    requires IsHeap(h) && t in multiset(h)
    ensures h != [] && h[0].expired <= t.expired
  {
    var i :| 0 <= i < |h| && h[i] == t;
    RootIsMin(h, i);
  }

  lemma Union(a: seq<TimerHandle>, b: seq<TimerHandle>)
    ensures multiset(a + b) == multiset(a) + multiset(b)
  {}

  // ---------- Removing a timer ----------

  /** `std::make_heap`: sift down every inner node, last one first. */
  function Heapify(h: Heap, i: nat): (s: Heap)
    requires i <= |h|
    ensures |s| == |h|
    decreases i
  {
    if i == 0 then h else Heapify(SiftDown(h, i - 1), i - 1)
  }

  function MakeHeap(h: Heap): Heap {
    Heapify(h, |h| / 2)
  }

  lemma {:induction false} HeapifyHeap(h: Heap, i: nat)
    requires i <= |h| && OrderedFrom(h, i)
    ensures IsHeap(Heapify(h, i)) && multiset(Heapify(h, i)) == multiset(h)
    decreases i
  {
    if i > 0 {
      SiftDownOrdered(h, i - 1, i - 1);
      SiftDownPermutes(h, i - 1);
      HeapifyHeap(SiftDown(h, i - 1), i - 1);
    }
  }

  /** `Pri_queue::remove` of the timer at `k`: the last timer takes its place and
      the heap is rebuilt from there on, as if it started there. */
  function Removed(h: Heap, k: nat): Heap
    requires k < |h|
  {
    var s := SwapRemove(h, k);
    s[..k] + MakeHeap(s[k..])
  }

  /** Exactly one timer goes, and an earliest one is at the root; the whole is
      a heap again when the removed timer was the root or the last one. */
  lemma RemoveKeepsMinimum(h: Heap, k: nat)
    requires IsHeap(h) && k < |h|
    ensures var r := Removed(h, k);
            && multiset(r) == multiset(h) - multiset{h[k]}
            && (forall i :: 0 <= i < |r| ==> r[0].expired <= r[i].expired)
            && (k == 0 || k == |h| - 1 ==> IsHeap(r))
  {
    var s, r := SwapRemove(h, k), Removed(h, k);
    RemovedMultiset(h, k);
    HeapifyHeap(s[k..], |s[k..]| / 2);
    if k == 0 {
      assert s[..0] == [] && r == MakeHeap(s[0..]);
      forall i | 0 <= i < |r|
        ensures r[0].expired <= r[i].expired
      {
        RootIsMin(r, i);
      }
    } else {
      assert r[0] == h[0];
      if k == |h| - 1 {
        assert r == h[..k];
      }
      forall i | 0 <= i < |r|
        ensures r[0].expired <= r[i].expired
      {
        StillThere(h, r, h[k], r[i]);
        AllAboveRoot(h, r[i]);
      }
    }
  }

  lemma RemovedMultiset(h: Heap, k: nat)
    requires k < |h|
    ensures multiset(Removed(h, k)) == multiset(h) - multiset{h[k]}
  {
    var s := SwapRemove(h, k);
    assert s == s[..k] + s[k..];
    HeapifyHeap(s[k..], |s[k..]| / 2);
    Union(s[..k], MakeHeap(s[k..]));
    Union(s[..k], s[k..]);
    SwapRemoveMultiset(h, k);
  }

  lemma StillThere(h: Heap, r: Heap, gone: TimerHandle, t: TimerHandle)
    requires multiset(r) == multiset(h) - multiset{gone} && t in r
    ensures t in multiset(h)
  {
    assert t in multiset(r);
  }

  // ---------- The class ----------

  class PriQueue {
    var minHeap: Heap

    constructor ()
      ensures minHeap == []
    {
      minHeap := [];
    }

    method Push(t: TimerHandle)
      modifies this
      ensures minHeap == Pushed(old(minHeap), t)
    {
      minHeap := minHeap + [t];
      var i := |minHeap| - 1;
      ghost var goal := SiftUp(minHeap, i);
      while i > 0 && minHeap[(i - 1) / 2].expired > minHeap[i].expired
        invariant 0 <= i < |minHeap| && SiftUp(minHeap, i) == goal
      {
        minHeap := Swap(minHeap, i, (i - 1) / 2);
        i := (i - 1) / 2;
      }
    }

    method Top() returns (t: TimerHandle)
      requires minHeap != []
      ensures t == minHeap[0]
    {
      t := minHeap[0];
    }

    method Pop()
      requires minHeap != []
      modifies this
      ensures minHeap == Popped(old(minHeap))
    {
      var last := |minHeap| - 1;
      minHeap := minHeap[0 := minHeap[last]][..last];
      if last > 0 {
        AdjustHeap(0);
      }
    }

    method AdjustHeap(k: nat)
      requires k < |minHeap|
      modifies this
      ensures minHeap == SiftDown(old(minHeap), k)
    {
      var i := k;
      ghost var goal := SiftDown(minHeap, k);
      while 2 * i + 1 < |minHeap|
        invariant 0 <= i < |minHeap| && SiftDown(minHeap, i) == goal
        decreases |minHeap| - i
      {
        var c := 2 * i + 1;
        if c + 1 < |minHeap| && minHeap[c + 1].expired < minHeap[c].expired {
          c := c + 1;
        }
        assert c == SmallerChild(minHeap, i);
        if minHeap[i].expired <= minHeap[c].expired {
          assert SiftDown(minHeap, i) == minHeap;
          return;
        }
        assert SiftDown(minHeap, i) == SiftDown(Swap(minHeap, i, c), c);
        minHeap := Swap(minHeap, i, c);
        i := c;
      }
    }

    method GetMin() returns (m: nat)
      ensures m == if minHeap == [] then 0 else minHeap[0].expired
    {
      m := if minHeap == [] then 0 else minHeap[0].expired;
    }

    /** Removes the first occurrence of `t`; `ok` is false where the code asserts that there is one. */
    method Remove(t: TimerHandle) returns (ok: bool)
      modifies this
      ensures ok <==> t in old(minHeap)
      ensures !ok ==> minHeap == old(minHeap)
      ensures ok ==> exists k {:trigger Removed(old(minHeap), k)} ::
                       0 <= k < |old(minHeap)| && old(minHeap)[k] == t && t !in old(minHeap)[..k]
                       && minHeap == Removed(old(minHeap), k)
    {
      var k := 0;
      while k < |minHeap| && minHeap[k] != t
        invariant k <= |minHeap| && t !in minHeap[..k]
      {
        k := k + 1;
      }
      if k == |minHeap| {
        return false;
      }
      ghost var h := minHeap;
      minHeap := minHeap[k := minHeap[|minHeap| - 1]][..|minHeap| - 1];
      minHeap := minHeap[..k] + MakeHeap(minHeap[k..]);
      assert minHeap == Removed(h, k);
      return true;
    }
  }
}
