/**
 The expiration heap: a slice of (oldest timestamp, source, tree) kept in heap order by the sift loops
 of Go's `container/heap`. The slice's own push and pop only touch its end.
 */
module ExpirationHeaps {
  import opened Envelopes

  datatype Expiration<T> = Expiration(timestamp: int, sourceId: SourceId, tree: T)

  function Parent(i: int): int {
    if i == 0 then 0 else (i - 1) / 2
  }

  /** Parent `p` and child `c` are in order. */
  ghost predicate Edge<T>(s: seq<Expiration<T>>, p: int, c: int)
    requires 0 <= p < |s| && 0 <= c < |s|
  {
    s[p].timestamp <= s[c].timestamp
  }

  ghost predicate IsHeap<T>(s: seq<Expiration<T>>) {
    forall i :: 0 < i < |s| ==> Edge(s, Parent(i), i)
  }

  lemma {:induction false} RootIsLeast<T>(s: seq<Expiration<T>>, i: nat)
    requires IsHeap(s) && i < |s|
    ensures s[0].timestamp <= s[i].timestamp
    decreases i
  {
    if i > 0 {
      assert Edge(s, Parent(i), i);
      RootIsLeast(s, Parent(i));
    }
  }

  /** In heap order except possibly between `j` and its parent. */
  ghost predicate HeapExceptAbove<T>(s: seq<Expiration<T>>, j: int)
    requires 0 <= j < |s|
  {
    && (forall i :: 0 < i < |s| && i != j ==> Edge(s, Parent(i), i))
    && (forall i :: 0 < i < |s| && Parent(i) == j && j > 0 ==> Edge(s, Parent(j), i))
  }

  /** Swapping `j` with its larger parent moves the defect up. */
  lemma RiseStep<T>(s: seq<Expiration<T>>, j: int)
    requires 0 < j < |s| && HeapExceptAbove(s, j) && s[j].timestamp < s[Parent(j)].timestamp
    ensures HeapExceptAbove(Swapped(s, Parent(j), j), Parent(j))
  {
    var p := Parent(j);
    var t := Swapped(s, p, j);
    forall i | 0 < i < |s| && i != p ensures Edge(t, Parent(i), i) {
      if Parent(i) == j {
        assert Edge(s, p, i);
      } else if i != j {
        assert Edge(s, Parent(i), i);
      }
    }
    forall i | 0 < i < |s| && Parent(i) == p && p > 0 ensures Edge(t, Parent(p), i) {
      assert Edge(s, Parent(p), p);
      if i != j { assert Edge(s, p, i); }
    }
  }

  lemma PushPrepares<T>(s: seq<Expiration<T>>, x: Expiration<T>)
    requires IsHeap(s)
    ensures HeapExceptAbove(s + [x], |s|)
  {
    forall i | 0 < i < |s| ensures Edge(s + [x], Parent(i), i) {
      assert Edge(s, Parent(i), i);
    }
  }

  lemma RootIsLeastOfAll<T>(s: seq<Expiration<T>>)
    requires IsHeap(s) && s != []
    ensures s[0] in s && forall y :: y in s ==> s[0].timestamp <= y.timestamp
  {
    forall y | y in s ensures s[0].timestamp <= y.timestamp {
      var i :| 0 <= i < |s| && s[i] == y;
      RootIsLeast(s, i);
    }
  }

  /** The last item of a heap is a least one exactly if it ties with the root. */
  lemma LastIsLeastIff<T>(s: seq<Expiration<T>>)
    requires IsHeap(s) && s != []
    ensures (forall y :: y in s ==> s[|s| - 1].timestamp <= y.timestamp) <==> s[|s| - 1].timestamp == s[0].timestamp
  {
    RootIsLeastOfAll(s);
    assert s[|s| - 1] in s;
  }

  ghost function Swapped<T>(s: seq<Expiration<T>>, i: nat, j: nat): seq<Expiration<T>>
    requires i < |s| && j < |s|
  {
    s[i := s[j]][j := s[i]]
  }

  lemma SwapKeeps<T>(s: seq<Expiration<T>>, i: nat, j: nat)
    requires i < |s| && j < |s|
    ensures multiset(Swapped(s, i, j)) == multiset(s)
  {
  }

  /** The first `n` items are in heap order except possibly between `i` and its children. */
  ghost predicate HeapExceptBelow<T>(s: seq<Expiration<T>>, n: int, i: int)
    requires 0 <= i <= n <= |s|
  {
    && (forall k :: 0 < k < n && Parent(k) != i ==> Edge(s, Parent(k), k))
    && (forall k :: 0 < k < n && Parent(k) == i && i > 0 ==> Edge(s, Parent(i), k))
  }

  /** Swapping `i` with its smaller child `j` moves the defect down to `j`. */
  lemma SinkStep<T>(s: seq<Expiration<T>>, n: int, i: int, j: int)
    requires 0 <= i < j < n <= |s| && HeapExceptBelow(s, n, i) && Parent(j) == i
    requires forall k :: 0 < k < n && Parent(k) == i ==> Edge(s, j, k)
    requires s[j].timestamp < s[i].timestamp
    ensures HeapExceptBelow(Swapped(s, i, j), n, j)
  {
    var t := Swapped(s, i, j);
    forall k | 0 < k < n && Parent(k) != j ensures Edge(t, Parent(k), k) {
      if Parent(k) == i {
        assert Edge(s, j, k);
      } else {
        assert Edge(s, Parent(k), k);
        if k == i { assert Edge(s, Parent(i), j); }
      }
    }
    forall k | 0 < k < n && Parent(k) == j ensures Edge(t, Parent(j), k) {
      assert Edge(s, j, k) by { assert Edge(s, Parent(k), k); }
    }
  }

  /** The smaller of the children of `i`. */
  lemma SmallerChild<T>(s: seq<Expiration<T>>, n: int, i: int, j: int)
    requires 0 <= i && 2 * i + 1 < n <= |s|
    requires j == if 2 * i + 2 < n && s[2 * i + 2].timestamp < s[2 * i + 1].timestamp then 2 * i + 2 else 2 * i + 1
    ensures i < j < n && Parent(j) == i && forall k :: 0 < k < n && Parent(k) == i ==> Edge(s, j, k)
  {
  }

  lemma SinkDone<T>(s: seq<Expiration<T>>, n: int, i: int)
    requires 0 <= i <= n <= |s| && HeapExceptBelow(s, n, i)
    requires forall k :: 0 < k < n && Parent(k) == i ==> Edge(s, i, k)
    ensures IsHeap(s[..n])
  {
    forall k | 0 < k < n ensures Edge(s[..n], Parent(k), k) {
      assert Edge(s, Parent(k), k);
    }
  }

  lemma LastOf<T>(s: seq<Expiration<T>>)
    requires s != []
    ensures multiset(s[..|s| - 1]) == multiset(s) - multiset{s[|s| - 1]}
  {
    assert s == s[..|s| - 1] + [s[|s| - 1]];
  }

  lemma PopPrepares<T>(s: seq<Expiration<T>>)
    requires s != [] && IsHeap(s)
    ensures HeapExceptBelow(Swapped(s, 0, |s| - 1), |s| - 1, 0)
    ensures Swapped(s, 0, |s| - 1)[|s| - 1] == s[0]
  {
    var t := Swapped(s, 0, |s| - 1);
    forall k | 0 < k < |s| - 1 && Parent(k) != 0 ensures Edge(t, Parent(k), k) {
      assert Edge(s, Parent(k), k);
    }
  }

  class ExpirationHeap<T> {
    var items: seq<Expiration<T>>

    constructor ()
      ensures items == []
    {
      items := [];
    }

    function Len(): nat
      reads this
    {
      |items|
    }

    predicate Less(i: int, j: int)
      requires 0 <= i < |items| && 0 <= j < |items|
      reads this
    {
      items[i].timestamp < items[j].timestamp
    }

    method Swap(i: int, j: int)
      requires 0 <= i < |items| && 0 <= j < |items|
      modifies this
      ensures items == Swapped(old(items), i, j) && multiset(items) == multiset(old(items))
    {
      SwapKeeps(items, i, j);
      items := items[i := items[j]][j := items[i]];
    }

    /** The slice's own `Push`: append. */
    method PushRaw(x: Expiration<T>)
      modifies this
      ensures items == old(items) + [x]
    {
      items := items + [x];
    }

    /** The slice's own `Pop`: take the last element. */
    method PopRaw() returns (x: Expiration<T>)
      requires items != []
      modifies this
      ensures items == old(items)[..|old(items)| - 1] && x == old(items)[|old(items)| - 1]
    {
      x := items[|items| - 1];
      items := items[..|items| - 1];
    }

    /** `heap.Push`. */
    method Push(x: Expiration<T>)
      requires IsHeap(items)
      modifies this
      ensures IsHeap(items) && multiset(items) == multiset(old(items)) + multiset{x}
    {
      PushPrepares(items, x);
      PushRaw(x);
      Up(|items| - 1);
    }

    /** Restore heap order above `j0`. */
    method Up(j0: int)
      requires 0 <= j0 < |items| && HeapExceptAbove(items, j0)
      modifies this
      ensures IsHeap(items) && multiset(items) == multiset(old(items))
    {
      var j := j0;
      while true
        invariant 0 <= j < |items| && HeapExceptAbove(items, j)
        invariant multiset(items) == multiset(old(items))
        decreases j
      {
        var i := if j == 0 then 0 else (j - 1) / 2;
        if i == j || !Less(j, i) {
          break;
        }
        RiseStep(items, j);
        Swap(i, j);
        j := i;
      }
    }

    /** `heap.Pop`: a least element leaves the heap. */
    method Pop() returns (x: Expiration<T>)
      requires IsHeap(items) && items != []
      modifies this
      ensures IsHeap(items) && multiset(items) == multiset(old(items)) - multiset{x}
      ensures x in old(items) && forall y :: y in old(items) ==> x.timestamp <= y.timestamp
    {
      RootIsLeastOfAll(items);
      RootToEnd();
      LastOf(items);
      x := PopRaw();
    }

    /** The first half of `heap.Pop`: exchange the root with the last item and restore the order before it. */
    method RootToEnd()
      requires IsHeap(items) && items != []
      modifies this
      ensures items != [] && IsHeap(items[..|items| - 1]) && items[|items| - 1] == old(items)[0]
      ensures multiset(items) == multiset(old(items))
    {
      var n := |items| - 1;
      PopPrepares(items);
      Swap(0, n);
      Down(0, n);
    }

    /** Restore heap order below `i0` within the first `n` items. */
    method Down(i0: int, n: int)
      requires 0 <= i0 <= n < |items| && HeapExceptBelow(items, n, i0)
      modifies this
      ensures |items| == |old(items)| && items[n] == old(items)[n]
      ensures IsHeap(items[..n])
      ensures multiset(items) == multiset(old(items))
    {
      var i := i0;
      while true
        invariant 0 <= i <= n < |items| == |old(items)|
        invariant HeapExceptBelow(items, n, i)
        invariant items[n] == old(items)[n]
        invariant multiset(items) == multiset(old(items))
        decreases n - i
      {
        var j1 := 2 * i + 1;
        if j1 >= n {
          SinkDone(items, n, i);
          break;
        }
        var j := j1;
        if j1 + 1 < n && Less(j1 + 1, j1) {
          j := j1 + 1;
        }
        SmallerChild(items, n, i, j);
        if !Less(j, i) {
          SinkDone(items, n, i);
          break;
        }
        SinkStep(items, n, i, j);
        Swap(i, j);
        i := j;
      }
    }
  }
}
