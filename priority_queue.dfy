/** An array-backed binary min-heap ordered by a caller-supplied strict comparator.
    Position `i > 0` has its parent at `(i - 1) / 2`. */
module PriorityQueue {

  /** `less` is irreflexive and transitive, and "not less" is transitive too
      (incomparable elements behave as equals). */
  ghost predicate StrictWeakOrder<T(!new)>(less: (T, T) -> bool)
  {
    && (forall a :: !less(a, a))
    && (forall a, b, c :: less(a, b) && less(b, c) ==> less(a, c))
    && (forall a, b, c :: !less(a, b) && !less(b, c) ==> !less(a, c))
  }

  function Parent(i: nat): nat
    requires i > 0
  {
    (i - 1) / 2
  }

  /** No element is strictly less than its parent. */
  ghost predicate IsHeap<T>(h: seq<T>, less: (T, T) -> bool)
  {
    forall i :: 0 < i < |h| ==> !less(h[i], h[Parent(i)])
  }

  /** The heap property, except possibly between position `k` and its parent; and the
      children of `k` are not less than the parent of `k` (state during SiftUp). */
  ghost predicate HeapExceptUp<T>(h: seq<T>, less: (T, T) -> bool, k: nat)
  {
    && (forall i :: 0 < i < |h| && i != k ==> !less(h[i], h[Parent(i)]))
    && (0 < k < |h| ==> forall c :: 0 < c < |h| && Parent(c) == k ==> !less(h[c], h[Parent(k)]))
  }

  /** The heap property, except possibly between position `k` and its children; and the
      children of `k` are not less than the parent of `k` (state during SiftDown). */
  ghost predicate HeapExceptDown<T>(h: seq<T>, less: (T, T) -> bool, k: nat)
  {
    && (forall i :: 0 < i < |h| && Parent(i) != k ==> !less(h[i], h[Parent(i)]))
    && (0 < k < |h| ==> forall c :: 0 < c < |h| && Parent(c) == k ==> !less(h[c], h[Parent(k)]))
  }

  function Swap<T>(h: seq<T>, i: nat, j: nat): (r: seq<T>)
    requires i < |h| && j < |h|
    ensures |r| == |h| && multiset(r) == multiset(h)
    ensures r[i] == h[j] && r[j] == h[i]
    ensures forall k :: 0 <= k < |h| && k != i && k != j ==> r[k] == h[k]
  {
    h[i := h[j]][j := h[i]]
  }

  /** In a heap no element is strictly less than the root. */
  lemma {:induction false} RootIsMinimal<T(!new)>(h: seq<T>, less: (T, T) -> bool, i: nat)
    requires StrictWeakOrder(less) && IsHeap(h, less) && i < |h|
    ensures !less(h[i], h[0])
    decreases i
  {
    if i > 0 {
      RootIsMinimal(h, less, Parent(i));
    }
  }

  lemma {:induction false} RootIsMinimalInContents<T(!new)>(h: seq<T>, less: (T, T) -> bool)
    requires StrictWeakOrder(less) && IsHeap(h, less) && |h| > 0
    ensures forall x :: x in multiset(h) ==> !less(x, h[0])
  {
    forall x | x in multiset(h)
      ensures !less(x, h[0])
    {
      var i :| 0 <= i < |h| && h[i] == x;
      RootIsMinimal(h, less, i);
    }
  }

  class PriorityQueue<T(!new)> {
    const less: (T, T) -> bool
    var heap: seq<T>

    ghost predicate Valid()
      reads this
    {
      StrictWeakOrder(less) && IsHeap(heap, less)
    }

    /** The elements held, regardless of their positions. */
    ghost function Contents(): multiset<T>
      reads this
    {
      multiset(heap)
    }

    constructor (comparator: (T, T) -> bool)
      requires StrictWeakOrder(comparator)
      ensures Valid() && less == comparator && Contents() == multiset{}
    {
      less := comparator;
      heap := [];
    }

    method Insert(element: T)
      requires Valid()
      modifies this
      ensures Valid()
      ensures Contents() == old(Contents()) + multiset{element}
      ensures |heap| == old(|heap|) + 1
    {
      heap := heap + [element];
      SiftUp(|heap| - 1);
    }

    method ExtractRoot() returns (root: T)
      requires Valid() && |heap| > 0
      modifies this
      ensures Valid()
      ensures root == old(heap[0]) && root in old(Contents())
      ensures Contents() == old(Contents()) - multiset{root}
      ensures |heap| == old(|heap|) - 1
      ensures forall x :: x in old(Contents()) ==> !less(x, root)
    {
      RootIsMinimalInContents(heap, less);
      root := heap[0];
      RootReplaced(heap, less);
      heap := heap[0 := heap[|heap| - 1]];
      heap := heap[..|heap| - 1];
      SiftDown(0);
    }

    method GetRoot() returns (root: T)
      requires Valid() && |heap| > 0
      ensures root == heap[0] && root in Contents()
      ensures forall x :: x in Contents() ==> !less(x, root)
    {
      RootIsMinimalInContents(heap, less);
      root := heap[0];
    }

    method Size() returns (n: int)
      ensures n == |Contents()|
    {
      n := |heap|;
    }

    method SiftUp(position: nat)
      requires StrictWeakOrder(less) && position < |heap| && HeapExceptUp(heap, less, position)
      modifies this
      ensures IsHeap(heap, less) && multiset(heap) == old(multiset(heap)) && |heap| == old(|heap|)
    {
      var pos: nat := position;
      while pos > 0
        invariant pos < |heap| && |heap| == old(|heap|)
        invariant multiset(heap) == old(multiset(heap))
        invariant HeapExceptUp(heap, less, pos)
      {
        var ancestor := Parent(pos);
        if less(heap[pos], heap[ancestor]) {
          SwapUpKeeps(heap, less, pos);
          heap := Swap(heap, pos, ancestor);
          pos := ancestor;
        } else {
          return;
        }
      }
    }

    method SiftDown(position: nat)
      requires StrictWeakOrder(less) && HeapExceptDown(heap, less, position)
      modifies this
      ensures IsHeap(heap, less) && multiset(heap) == old(multiset(heap)) && |heap| == old(|heap|)
    {
      var pos: nat := position;
      var done := false;
      while !done && pos < |heap|
        invariant |heap| == old(|heap|)
        invariant multiset(heap) == old(multiset(heap))
        invariant done ==> IsHeap(heap, less)
        invariant !done ==> HeapExceptDown(heap, less, pos)
        decreases |heap| - pos, !done
      {
        pos, done := SiftDownStep(pos);
      }
      if !done {
        ExceptDownAtLeaf(heap, less, pos);
      }
    }

    /** One round of SiftDown: stops at a leaf or when `pos` is less than its smaller
        child, and otherwise swaps the two and moves down to that child. */
    method SiftDownStep(pos: nat) returns (next: nat, done: bool)
      requires StrictWeakOrder(less) && pos < |heap| && HeapExceptDown(heap, less, pos)
      modifies this
      ensures |heap| == old(|heap|) && multiset(heap) == old(multiset(heap))
      ensures done ==> IsHeap(heap, less) && next == pos
      ensures !done ==> pos < next && HeapExceptDown(heap, less, next)
    {
      var firstChild := pos * 2 + 1;
      var secondChild := pos * 2 + 2;
      if firstChild >= |heap| {
        ExceptDownAtLeaf(heap, less, pos);
        return pos, true;
      }
      var minChild := firstChild;
      if secondChild < |heap| && less(heap[secondChild], heap[firstChild]) {
        minChild := secondChild;
      }
      MinChildIsMinimal(heap, less, pos, minChild);
      if less(heap[pos], heap[minChild]) {
        StopDownKeeps(heap, less, pos, minChild);
        return pos, true;
      }
      SwapDownKeeps(heap, less, pos, minChild);
      heap := Swap(heap, pos, minChild);
      next, done := minChild, false;
    }
  }

  /** Moving the last element to the root and dropping the last position takes the old
      root out and leaves a heap except below the root. */
  lemma {:induction false} RootReplaced<T(!new)>(h: seq<T>, less: (T, T) -> bool)
    requires IsHeap(h, less) && |h| > 0
    ensures var h' := h[0 := h[|h| - 1]][..|h| - 1];
            multiset(h) == multiset(h') + multiset{h[0]} && HeapExceptDown(h', less, 0)
  {
    var h' := h[0 := h[|h| - 1]][..|h| - 1];
    if |h| > 1 {
      assert h' == [h[|h| - 1]] + h[1..|h| - 1];
      assert h == [h[0]] + h[1..|h| - 1] + [h[|h| - 1]];
    }
    forall i | 0 < i < |h'| && Parent(i) != 0
      ensures !less(h'[i], h'[Parent(i)])
    {
      assert h'[i] == h[i] && h'[Parent(i)] == h[Parent(i)];
    }
  }

  /** One SiftUp step: swapping `k` with its parent when it is less moves the exception up. */
  lemma {:induction false} SwapUpKeeps<T(!new)>(h: seq<T>, less: (T, T) -> bool, k: nat)
    requires StrictWeakOrder(less) && 0 < k < |h| && HeapExceptUp(h, less, k)
    requires less(h[k], h[Parent(k)])
    ensures HeapExceptUp(Swap(h, k, Parent(k)), less, Parent(k))
  {
    var a := Parent(k);
    var r := Swap(h, k, a);
    forall i | 0 < i < |r| && i != a
      ensures !less(r[i], r[Parent(i)])
    {
      if i == k {
      } else if Parent(i) == k {
        assert r[i] == h[i];
      } else if Parent(i) == a {
        assert r[i] == h[i];
        assert !less(h[i], h[a]);
      }
    }
    if a > 0 {
      forall c | 0 < c < |r| && Parent(c) == a
        ensures !less(r[c], r[Parent(a)])
      {
        assert !less(h[a], h[Parent(a)]);
        if c != k {
          assert !less(h[c], h[a]);
        }
      }
    }
  }

  /** A position without children cannot break the heap property downwards. */
  lemma {:induction false} ExceptDownAtLeaf<T(!new)>(h: seq<T>, less: (T, T) -> bool, k: nat)
    requires HeapExceptDown(h, less, k) && 2 * k + 1 >= |h|
    ensures IsHeap(h, less)
  {
    forall i | 0 < i < |h|
      ensures !less(h[i], h[Parent(i)])
    {
      assert Parent(i) != k;
    }
  }

  /** The child SiftDown picks is not greater than the other child. */
  lemma {:induction false} MinChildIsMinimal<T(!new)>(h: seq<T>, less: (T, T) -> bool, k: nat, m: nat)
    requires StrictWeakOrder(less)
    requires 2 * k + 1 < |h|
    requires m == 2 * k + 1 ==> 2 * k + 2 >= |h| || !less(h[2 * k + 2], h[2 * k + 1])
    requires m == 2 * k + 2 ==> 2 * k + 2 < |h| && less(h[2 * k + 2], h[2 * k + 1])
    requires m == 2 * k + 1 || m == 2 * k + 2
    ensures forall c :: 0 < c < |h| && Parent(c) == k ==> !less(h[c], h[m])
  {
    forall c | 0 < c < |h| && Parent(c) == k
      ensures !less(h[c], h[m])
    {
      assert c == 2 * k + 1 || c == 2 * k + 2;
    }
  }

  /** SiftDown stops when the element is less than its smaller child: the heap is whole. */
  lemma {:induction false} StopDownKeeps<T(!new)>(h: seq<T>, less: (T, T) -> bool, k: nat, m: nat)
    requires StrictWeakOrder(less) && k < |h| && HeapExceptDown(h, less, k)
    requires m < |h| && (m == 2 * k + 1 || m == 2 * k + 2)
    requires forall c :: 0 < c < |h| && Parent(c) == k ==> !less(h[c], h[m])
    requires less(h[k], h[m])
    ensures IsHeap(h, less)
  {
    forall i | 0 < i < |h|
      ensures !less(h[i], h[Parent(i)])
    {
      if Parent(i) == k {
        assert !less(h[i], h[m]);
        assert !less(h[m], h[k]);
      }
    }
  }

  /** One SiftDown step: swapping `k` with its smaller child moves the exception down. */
  lemma {:induction false} SwapDownKeeps<T(!new)>(h: seq<T>, less: (T, T) -> bool, k: nat, m: nat)
    requires StrictWeakOrder(less) && k < |h| && HeapExceptDown(h, less, k)
    requires m < |h| && (m == 2 * k + 1 || m == 2 * k + 2)
    requires forall c :: 0 < c < |h| && Parent(c) == k ==> !less(h[c], h[m])
    requires !less(h[k], h[m])
    ensures HeapExceptDown(Swap(h, k, m), less, m)
  {
    var r := Swap(h, k, m);
    assert Parent(m) == k;
    forall i | 0 < i < |r| && Parent(i) != m
      ensures !less(r[i], r[Parent(i)])
    {
      if i == m {
      } else if i == k {
        assert !less(h[m], h[Parent(k)]);
      } else if Parent(i) == k {
        assert r[i] == h[i];
        assert !less(h[i], h[m]);
      } else if Parent(i) == m {
      }
    }
    forall c | 0 < c < |r| && Parent(c) == m
      ensures !less(r[c], r[k])
    {
      assert r[c] == h[c];
      assert !less(h[c], h[m]);
    }
  }
}
