/** timer.cpp: for which positions `Pri_queue::remove` leaves a heap. */
module HeapRemoval {
  import opened Sequences
  import opened Heaps

  /** Position `k` of a heap of `n` timers. */
  predicate OrderKept(n: nat, k: nat) {
    || k == 0 || k == n - 1
    || (k == n - 2 && k % 2 == 1)
    || (k == 1 && n <= 7)
    || (k == 2 && n <= 6)
  }

  /** What the rebuild leaves: the timers before the hole stay where they were, and
      the others are a heap of their own. */
  lemma TailHeap(h: Heap, k: nat)
    requires k < |h|
    ensures var r := Removed(h, k);
            |r| == |h| - 1 && r[..k] == h[..k] && IsHeap(r[k..]) && multiset(r[k..]) == multiset(SwapRemove(h, k)[k..])
  {
    var tail := SwapRemove(h, k)[k..];
    HeapifyHeap(tail, |tail| / 2);
    assert Removed(h, k)[k..] == MakeHeap(tail);
  }

  // ---------- Where the order is kept ----------

  lemma KeepsOrder(h: Heap, k: nat)
    requires IsHeap(h) && k < |h| && OrderKept(|h|, k)
    ensures IsHeap(Removed(h, k))
  {
    RemoveKeepsMinimum(h, k);
    if k != 0 && k != |h| - 1 {
      if k == |h| - 2 && k % 2 == 1 {
        KeepsSibling(h, k);
      } else if k == 1 {
        KeepsFirst(h);
      } else {
        KeepsSecond(h);
      }
    }
  }

  /** The last timer takes the place of its sibling. */
  lemma KeepsSibling(h: Heap, k: nat)
    requires IsHeap(h) && k == |h| - 2 && k % 2 == 1
    ensures IsHeap(Removed(h, k))
  {
    var r := Removed(h, k);
    assert SwapRemove(h, k)[k..] == [h[k + 1]];
    assert r == h[..k] + [h[k + 1]];
    assert Parent(k) == Parent(k + 1);
  }

  lemma KeepsFirst(h: Heap)
    requires IsHeap(h) && 1 < |h| <= 7
    ensures IsHeap(Removed(h, 1))
  {
    var r := Removed(h, 1);
    TailHeap(h, 1);
    RemoveKeepsMinimum(h, 1);
    var tail := r[1..];
    forall i {:trigger Parent(i)} | 0 < i < |r|
      ensures r[Parent(i)].expired <= r[i].expired
    {
      assert tail[i - 1] == r[i];
      RootIsMin(tail, i - 1);
      if i == 5 {
        assert tail[Parent(4)].expired <= tail[4].expired;
      }
    }
  }

  /** Of at most three timers none but the first can come below what bounds the others. */
  lemma ThreeAtMost(tail: Heap, low: nat)
    requires 0 < |tail| <= 3 && forall i :: 0 < i < |tail| ==> low <= tail[i].expired
    ensures forall i :: 0 < i < |tail| ==> low <= MakeHeap(tail)[i].expired
  {
    if |tail| > 1 {
      assert MakeHeap(tail) == Heapify(SiftDown(tail, 0), 0) == SiftDown(tail, 0);
      var c := SmallerChild(tail, 0);
      if tail[0].expired > tail[c].expired {
        SiftDownStays(Swap(tail, 0, c), c);
      }
    }
  }

  lemma KeepsSecond(h: Heap)
    requires IsHeap(h) && 3 < |h| <= 6
    ensures IsHeap(Removed(h, 2))
  {
    var r, tail := Removed(h, 2), SwapRemove(h, 2)[2..];
    assert Parent(3) == Parent(4) == 1;
    RemoveKeepsMinimum(h, 2);
    ThreeAtMost(tail, h[1].expired);
    assert r == h[..2] + MakeHeap(tail) && |tail| == |h| - 3;
    forall i {:trigger Parent(i)} | 0 < i < |r|
      ensures r[Parent(i)].expired <= r[i].expired
    {
      if i > 2 {
        assert Parent(i) == 1 && r[i] == MakeHeap(tail)[i - 2];
      }
    }
  }

  // ---------- Where it can be lost ----------

  function Marked(n: nat, keys: nat -> nat): (h: Heap)
    ensures |h| == n && forall i :: 0 <= i < n ==> h[i] == TimerHandle(i, keys(i))
  {
    seq(n, i requires 0 <= i < n => TimerHandle(i, keys(i)))
  }

  predicate Above(a: nat, j: nat)
    decreases j
  {
    a == j || (j > 0 && Above(a, Parent(j)))
  }

  lemma {:induction false} AboveParent(a: nat, j: nat)
    requires a > 0 && Above(a, j)
    ensures Above(Parent(a), j) && a <= j
    decreases j
  {
    if a != j {
      AboveParent(a, Parent(j));
    } else {
      assert Above(Parent(j), Parent(j));
    }
  }

  /** Only `j` and what is above it expires early. */
  function Path(n: nat, j: nat): (h: Heap)
    ensures |h| == n
  {
    Marked(n, i => if Above(i, j) then 0 else 1)
  }

  lemma PathHeap(n: nat, j: nat)
    ensures IsHeap(Path(n, j))
  {
    forall i {:trigger Parent(i)} | 0 < i < n
      ensures Path(n, j)[Parent(i)].expired <= Path(n, j)[i].expired
    {
      if Above(i, j) {
        AboveParent(i, j);
      }
    }
  }

  lemma TailAt(h: Heap, k: nat)
    requires k < |h|
    ensures var tail := SwapRemove(h, k)[k..];
            && |tail| == |h| - 1 - k
            && (tail != [] ==> tail[0] == h[|h| - 1])
            && forall i :: 0 < i < |tail| ==> tail[i] == h[k + i]
  {}

  /** A timer behind the hole comes to the hole, below a later one. */
  lemma EarlyComesUp(h: Heap, k: nat, j: nat)
    requires 0 < k < j < |h| && k < |h| - 1 && h[j].expired < h[Parent(k)].expired
    ensures !IsHeap(Removed(h, k))
  {
    var r, tail := Removed(h, k), SwapRemove(h, k)[k..];
    TailAt(h, k);
    TailHeap(h, k);
    assert h[j] == tail[if j == |h| - 1 then 0 else j - k];
    assert h[j] in multiset(tail);
    AllAboveRoot(r[k..], h[j]);
    assert r[k] == r[k..][0] && r[Parent(k)] == r[..k][Parent(k)] == h[Parent(k)];
  }

  /** Behind every other position from 3 on there is one that is not below the hole's parent. */
  lemma LoseFrom3(n: nat, k: nat) returns (h: Heap)
    requires 3 <= k < n && !OrderKept(n, k)
    ensures IsHeap(h) && |h| == n && !IsHeap(Removed(h, k))
  {
    var p, j := Parent(k), if k % 2 == 0 then k + 1 else k + 2;
    assert Parent(j) == p + 1 && Parent(p + 1) < p;
    if Above(p, j) {
      assert Above(p, p + 1) && Above(p, Parent(p + 1));
      AboveParent(p, Parent(p + 1));
    }
    h := Path(n, j);
    PathHeap(n, j);
    assert Above(j, j);
    EarlyComesUp(h, k, j);
  }

  function Key1(i: nat): nat {
    if i < 2 then 0 else if i == 2 then 1 else if i == 3 then 2 else if i == 6 then 3 else 4
  }

  function Key2(i: nat): nat {
    if i == 0 || i == 2 then 0 else if i == 5 then 1 else if i == 6 then 2 else 9
  }

  lemma SiftDownStays(h: Heap, i: nat)
    requires i < |h| && forall j {:trigger Parent(j)} :: 0 < j < |h| && Parent(j) == i ==> h[i].expired <= h[j].expired
    ensures SiftDown(h, i) == h
  {}

  /** Inner nodes that are in order already are passed over. */
  lemma {:induction false} HeapifyFrom(h: Heap, i: nat, lo: nat)
    requires lo <= i <= |h| && OrderedFrom(h, lo)
    ensures Heapify(h, i) == Heapify(h, lo)
    decreases i
  {
    if i > lo {
      SiftDownStays(h, i - 1);
      HeapifyFrom(h, i - 1, lo);
    }
  }

  lemma SiftDownOnce(h: Heap, i: nat, c: nat)
    requires i < c < |h| && Parent(c) == i && h[c].expired < h[i].expired
    requires forall j {:trigger Parent(j)} :: 0 < j < |h| && Parent(j) == i && j != c ==> h[c].expired < h[j].expired
    ensures SiftDown(h, i) == SiftDown(Swap(h, i, c), c)
  {
    assert SmallerChild(h, i) == c;
  }

  lemma Rebuild1(tail: Heap)
    requires |tail| >= 6 && OrderedFrom(tail, 1)
    requires tail[1].expired < tail[0].expired && tail[1].expired < tail[2].expired
    requires tail[0].expired == tail[3].expired == tail[4].expired
    ensures MakeHeap(tail) == Swap(tail, 0, 1)
  {
    HeapifyFrom(tail, |tail| / 2, 1);
    SiftDownOnce(tail, 0, 1);
    var t := Swap(tail, 0, 1);
    SiftDownStays(t, 1);
    assert Heapify(tail, 1) == Heapify(SiftDown(tail, 0), 0) == t;
  }

  /** Heap order is a property of the keys. */
  lemma MarkedHeap(n: nat, keys: nat -> nat)
    requires forall i {:trigger Parent(i)} :: 0 < i < n ==> keys(Parent(i)) <= keys(i)
    ensures IsHeap(Marked(n, keys))
  {}

  lemma MarkedTail(n: nat, keys: nat -> nat, k: nat)
    requires k < n
    ensures var tail := SwapRemove(Marked(n, keys), k)[k..];
            && |tail| == n - 1 - k
            && (tail != [] ==> tail[0].expired == keys(n - 1))
            && forall i :: 0 < i < |tail| ==> tail[i].expired == keys(k + i)
  {
    TailAt(Marked(n, keys), k);
  }

  lemma Tail1(n: nat)
    requires n >= 8
    ensures var tail := SwapRemove(Marked(n, Key1), 1)[1..];
            && |tail| == n - 2 && tail[0].expired == 4 && OrderedFrom(tail, 1)
            && tail[1].expired == 1 && tail[2].expired == 2 && tail[3].expired == tail[4].expired == 4
            && tail[5].expired == 3
  {
    MarkedTail(n, Key1, 1);
    var tail := SwapRemove(Marked(n, Key1), 1)[1..];
    forall i {:trigger Parent(i)} | 0 < i < |tail| && 1 <= Parent(i)
      ensures tail[Parent(i)].expired <= tail[i].expired
    {
      assert tail[Parent(i)].expired == Key1(1 + Parent(i)) && tail[i].expired == Key1(1 + i);
    }
  }

  lemma Lose1(n: nat) returns (h: Heap)
    requires n >= 8
    ensures IsHeap(h) && |h| == n && !IsHeap(Removed(h, 1))
  {
    h := Marked(n, Key1);
    MarkedHeap(n, Key1);
    Tail1(n);
    var r, tail := Removed(h, 1), SwapRemove(h, 1)[1..];
    Rebuild1(tail);
    assert r == SwapRemove(h, 1)[..1] + Swap(tail, 0, 1);
    assert r[Parent(6)] == r[2] == tail[0] && r[6] == tail[5];
  }

  /** The second step of the rebuild for `Key2`. */
  lemma RootFalls(t: Heap)
    requires |t| >= 4 && t[1].expired == 1 && t[2].expired == t[3].expired == 9
    requires forall i :: 4 < i < |t| ==> t[i].expired == 9
    requires if |t| == 4 then t[0].expired == 2 else t[0].expired == 9 && t[4].expired == 2
    ensures SiftDown(t, 0)[1].expired == 2
  {
    SiftDownOnce(t, 0, 1);
    var u := Swap(t, 0, 1);
    if |t| == 4 {
      SiftDownStays(u, 1);
    } else {
      SiftDownOnce(u, 1, 4);
      var v := Swap(u, 1, 4);
      assert forall j {:trigger Parent(j)} :: 0 < j < |v| && Parent(j) == 4 ==> v[j].expired == 9;
      SiftDownStays(v, 4);
    }
  }

  lemma Rebuild2(tail: Heap)
    requires |tail| >= 4 && OrderedFrom(tail, 2)
    requires tail[3].expired == 1 && tail[1].expired == tail[2].expired == 9
    requires forall i :: 4 < i < |tail| ==> tail[i].expired == 9
    requires if |tail| == 4 then tail[0].expired == 2 else tail[0].expired == 9 && tail[4].expired == 2
    ensures MakeHeap(tail)[1].expired == 2
  {
    HeapifyFrom(tail, |tail| / 2, 2);
    SiftDownOnce(tail, 1, 3);
    var t := Swap(tail, 1, 3);
    SiftDownStays(t, 3);
    HeapifyTwo(tail);
    RootFalls(t);
  }

  lemma HeapifyTwo(h: Heap)
    requires |h| >= 2
    ensures Heapify(h, 2) == SiftDown(SiftDown(h, 1), 0)
  {
    var t := SiftDown(h, 1);
    assert Heapify(h, 2) == Heapify(t, 1) == Heapify(SiftDown(t, 0), 0);
  }

  lemma Tail2(n: nat)
    requires n >= 7
    ensures var tail := SwapRemove(Marked(n, Key2), 2)[2..];
            && |tail| == n - 3 && tail[0].expired == (if n == 7 then 2 else 9) && OrderedFrom(tail, 2)
            && tail[1].expired == tail[2].expired == 9 && tail[3].expired == 1
            && (n > 7 ==> tail[4].expired == 2) && forall i :: 4 < i < |tail| ==> tail[i].expired == 9
  {
    MarkedTail(n, Key2, 2);
    var tail := SwapRemove(Marked(n, Key2), 2)[2..];
    forall i {:trigger Parent(i)} | 0 < i < |tail| && 2 <= Parent(i)
      ensures tail[Parent(i)].expired <= tail[i].expired
    {
      assert tail[Parent(i)].expired == Key2(2 + Parent(i)) && tail[i].expired == Key2(2 + i);
    }
  }

  lemma Lose2(n: nat) returns (h: Heap)
    requires n >= 7
    ensures IsHeap(h) && |h| == n && !IsHeap(Removed(h, 2))
  {
    h := Marked(n, Key2);
    MarkedHeap(n, Key2);
    Tail2(n);
    var r, tail := Removed(h, 2), SwapRemove(h, 2)[2..];
    Rebuild2(tail);
    assert r[3] == MakeHeap(tail)[1] && r[Parent(3)] == r[1] == h[1];
  }

  // ---------- Both halves ----------

  /** Removing the timer at position `k` leaves a heap of every heap of `n` timers
      exactly in the positions of `OrderKept`. */
  lemma RemoveExact(n: nat, k: nat)
    requires k < n
    ensures OrderKept(n, k) <==> forall h: Heap | |h| == n && IsHeap(h) :: IsHeap(Removed(h, k))
  {
    if OrderKept(n, k) {
      forall h: Heap | |h| == n && IsHeap(h)
        ensures IsHeap(Removed(h, k))
      {
        KeepsOrder(h, k);
      }
    } else {
      var h := Loses(n, k);
    }
  }

  /** In every other position there is a heap that is left out of order. */
  lemma Loses(n: nat, k: nat) returns (h: Heap)
    requires k < n && !OrderKept(n, k)
    ensures IsHeap(h) && |h| == n && !IsHeap(Removed(h, k))
  {
    if k == 1 {
      h := Lose1(n);
    } else if k == 2 {
      h := Lose2(n);
    } else {
      h := LoseFrom3(n, k);
    }
  }
}
