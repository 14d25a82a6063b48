/**
 The binary heap that std::make_heap, std::push_heap and std::pop_heap keep over a
 range of BaseAndExponent, ordered by exponent with the largest at the front.
 */
module ExponentHeaps {

  /** BaseAndExponent. */
  datatype Term<+T> = Term(base: T, exponent: nat)

  function Parent(i: int): int { (i - 1) / 2 }

  ghost predicate Ordered<T>(s: seq<Term<T>>, i: int) requires 1 <= i < |s| {
    s[Parent(i)].exponent >= s[i].exponent
  }

  /** Below node from, every node is at most its parent. */
  ghost predicate HeapFrom<T>(s: seq<Term<T>>, from: int, n: nat) requires n <= |s| {
    forall i {:trigger Ordered(s, i)} :: 1 <= i < n && Parent(i) >= from ==> Ordered(s, i)
  }

  ghost predicate IsHeap<T>(s: seq<Term<T>>, n: nat) requires n <= |s| {
    HeapFrom(s, 0, n)
  }

  /** The front of a heap is its largest element. */
  lemma {:induction false} FrontIsLargest<T>(s: seq<Term<T>>, n: nat, i: nat)
    requires i < n <= |s| && IsHeap(s, n)
    ensures s[0].exponent >= s[i].exponent
    decreases i
  {
    if i > 0 {
      assert Ordered(s, i);
      FrontIsLargest(s, n, Parent(i));
    }
  }

  method Swap<T>(a: array<Term<T>>, i: nat, j: nat)
    requires i < a.Length && j < a.Length
    modifies a
    ensures a[..] == old(a[..])[i := old(a[j])][j := old(a[i])]
    ensures multiset(a[..]) == old(multiset(a[..]))
  {
    a[i], a[j] := a[j], a[i];
  }

  /** Every node but j is in order below from, and what hangs under j is in order with what is above j. */
  ghost predicate HoleAt<T>(s: seq<Term<T>>, from: int, n: nat, j: nat) requires n <= |s| {
    && (forall i {:trigger Ordered(s, i)} :: 1 <= i < n && Parent(i) >= from && Parent(i) != j ==> Ordered(s, i))
    && (forall i :: 1 <= i < n && Parent(i) == j && j >= 1 && Parent(j) >= from ==>
          s[Parent(j)].exponent >= s[i].exponent)
  }

  /** Sink the element at j to where both children are no larger. */
  method SiftDown<T>(a: array<Term<T>>, start: nat, n: nat)
    requires n <= a.Length && start < n
    requires HeapFrom(a[..], start + 1, n)
    modifies a
    ensures HeapFrom(a[..], start, n)
    ensures multiset(a[..]) == old(multiset(a[..]))
    ensures a[n..] == old(a[n..])
  {
    var j := start;
    while 2 * j + 1 < n
      invariant start <= j < n
      invariant HoleAt(a[..], start, n, j)
      invariant multiset(a[..]) == old(multiset(a[..]))
      invariant a[n..] == old(a[n..])
    {
      var child := 2 * j + 1;
      if child + 1 < n && a[child + 1].exponent > a[child].exponent {
        child := child + 1;
      }
      if a[j].exponent >= a[child].exponent {
        LargerChild(a[..], start, n, j, child);
        return;
      }
      SinkStep(a[..], start, n, j, child);
      Swap(a, j, child);
      j := child;
    }
  }

  lemma LargerChild<T>(s: seq<Term<T>>, start: nat, n: nat, j: nat, child: nat)
    requires n <= |s| && start <= j < n && HoleAt(s, start, n, j)
    requires 2 * j + 1 <= child <= 2 * j + 2 && child < n
    requires forall i :: 1 <= i < n && Parent(i) == j ==> s[child].exponent >= s[i].exponent
    requires s[j].exponent >= s[child].exponent
    ensures HeapFrom(s, start, n)
  {
  }

  lemma SinkStep<T>(s: seq<Term<T>>, start: nat, n: nat, j: nat, child: nat)
    requires n <= |s| && start <= j < n && HoleAt(s, start, n, j)
    requires 2 * j + 1 <= child <= 2 * j + 2 && child < n
    requires forall i :: 1 <= i < n && Parent(i) == j ==> s[child].exponent >= s[i].exponent
    requires s[j].exponent < s[child].exponent
    ensures HoleAt(s[j := s[child]][child := s[j]], start, n, child)
  {
    var t := s[j := s[child]][child := s[j]];
    forall i | 1 <= i < n && Parent(i) >= start && Parent(i) != child ensures Ordered(t, i) {
      if i == j {
      } else if Parent(i) == j {
      } else {
        assert Ordered(s, i);
      }
    }
    forall i | 1 <= i < n && Parent(i) == child ensures t[Parent(child)].exponent >= t[i].exponent {
      assert Ordered(s, i);
    }
  }

  /** std::make_heap. */
  method MakeHeap<T>(a: array<Term<T>>)
    modifies a
    ensures IsHeap(a[..], a.Length)
    ensures multiset(a[..]) == old(multiset(a[..]))
  {
    var n := a.Length;
    var k := n / 2;
    while k > 0
      invariant 0 <= k <= n / 2
      invariant HeapFrom(a[..], k, n)
      invariant multiset(a[..]) == old(multiset(a[..]))
    {
      k := k - 1;
      SiftDown(a, k, n);
    }
  }

  /** With the front exchanged for the last, the others are still in order below it. */
  lemma BelowTheFront<T>(s: seq<Term<T>>, t: seq<Term<T>>, n: nat)
    requires 2 <= n == |s| && IsHeap(s, n) && t == s[0 := s[n - 1]][n - 1 := s[0]]
    ensures HeapFrom(t, 1, n - 1)
  {
    forall i | 1 <= i < n - 1 && Parent(i) >= 1 ensures Ordered(t, i) { assert Ordered(s, i); }
  }

  /** std::pop_heap: the largest element goes last, the others form a heap. */
  method PopHeap<T>(a: array<Term<T>>)
    requires a.Length > 0 && IsHeap(a[..], a.Length)
    modifies a
    ensures IsHeap(a[..], a.Length - 1)
    ensures forall i :: 0 <= i < a.Length ==> a[a.Length - 1].exponent >= a[i].exponent
    ensures multiset(a[..]) == old(multiset(a[..]))
  {
    hide HeapFrom, Ordered, Parent;
    var n := a.Length;
    ghost var s := a[..];
    Swap(a, 0, n - 1);
    ghost var t := a[..];
    if n > 1 {
      BelowTheFront(s, t, n);
      SiftDown(a, 0, n - 1);
    }
    Popped(s, t, a[..], n);
  }

  /** Only what stands before the last has been rearranged, so the last is still the largest. */
  lemma Popped<T>(s: seq<Term<T>>, t: seq<Term<T>>, u: seq<Term<T>>, n: nat)
    requires 1 <= n == |s| == |u| && IsHeap(s, n) && t == s[0 := s[n - 1]][n - 1 := s[0]]
    requires multiset(s) == multiset(t) == multiset(u) && (u == t || u[n - 1..] == t[n - 1..])
    ensures n == 1 ==> IsHeap(u, 0)
    ensures forall i :: 0 <= i < n ==> u[n - 1].exponent >= u[i].exponent
  {
    forall i | 0 <= i < n ensures s[0].exponent >= s[i].exponent { FrontIsLargest(s, n, i); }
    assert u[n - 1] == u[n - 1..][0] == t[n - 1];
    LargestOfAll(s, t, u, s[0].exponent);
  }

  /** An upper bound of the exponents bounds those of any rearrangement. */
  lemma LargestOfAll<T>(s: seq<Term<T>>, t: seq<Term<T>>, u: seq<Term<T>>, bound: nat)
    requires multiset(s) == multiset(t) == multiset(u)
    requires forall i :: 0 <= i < |s| ==> bound >= s[i].exponent
    ensures forall i :: 0 <= i < |u| ==> bound >= u[i].exponent
  {
    forall i | 0 <= i < |u| ensures bound >= u[i].exponent {
      assert u[i] in multiset(u);
      assert u[i] in s;
    }
  }

  /** Every node but j is at most its parent, and what hangs under j is at most the parent of j. */
  ghost predicate RisingAt<T>(s: seq<Term<T>>, n: nat, j: nat) requires n <= |s| {
    && (forall i {:trigger Ordered(s, i)} :: 1 <= i < n && i != j ==> Ordered(s, i))
    && (forall i :: 1 <= i < n && Parent(i) == j && j >= 1 ==> s[Parent(j)].exponent >= s[i].exponent)
  }

  lemma RiseStep<T>(s: seq<Term<T>>, n: nat, j: nat)
    requires 1 <= j < n <= |s| && RisingAt(s, n, j)
    requires s[Parent(j)].exponent < s[j].exponent
    ensures RisingAt(s[j := s[Parent(j)]][Parent(j) := s[j]], n, Parent(j))
  {
    var p := Parent(j);
    var t := s[j := s[p]][p := s[j]];
    forall i | 1 <= i < n && i != p ensures Ordered(t, i) {
      if i != j { assert Ordered(s, i); }
    }
    forall i | 1 <= i < n && Parent(i) == p && p >= 1 ensures t[Parent(p)].exponent >= t[i].exponent {
      assert Ordered(s, p);
      if i != j { assert Ordered(s, i); }
    }
  }

  /** std::push_heap: the last element joins the heap before it. */
  method PushHeap<T>(a: array<Term<T>>)
    requires a.Length > 0 && IsHeap(a[..], a.Length - 1)
    modifies a
    ensures IsHeap(a[..], a.Length)
    ensures multiset(a[..]) == old(multiset(a[..]))
  {
    var n := a.Length;
    var j := n - 1;
    while j > 0 && a[Parent(j)].exponent < a[j].exponent
      invariant 0 <= j < n
      invariant RisingAt(a[..], n, j)
      invariant multiset(a[..]) == old(multiset(a[..]))
    {
      RiseStep(a[..], n, j);
      Swap(a, j, Parent(j));
      j := Parent(j);
    }
  }
}
