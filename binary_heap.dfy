/**
 * The array-backed binary min-heap that the restaurant, airport and hotel
 * programs each write out (near-identical copies). Its steps are given here
 * as functions on the heap's contents; the classes in those programs run the
 * same steps in place and are proved equal to these functions.
 *
 * Elements are ordered by a comparator in the sense of `Array.prototype.sort`:
 * `cmp(a, b) < 0` means `a` must be served before `b`.
 */
module BinaryHeap {
  import opened Sorting

  /** `Math.floor((i - 1) / 2)`; Dafny's `/` rounds down for a positive divisor. */
  function Parent(i: int): (p: int)
    ensures i > 0 ==> 0 <= p < i
    ensures i == 0 ==> p == -1
  {
    (i - 1) / 2
  }

  function LeftChild(i: int): (c: int)
    ensures Parent(c) == i
  {
    2 * i + 1
  }

  function RightChild(i: int): (c: int)
    ensures Parent(c) == i
  {
    2 * i + 2
  }

  /** Every element goes no later than its children. */
  ghost predicate IsHeap<T>(cmp: (T, T) -> int, s: seq<T>) {
    forall j :: 0 < j < |s| ==> cmp(s[Parent(j)], s[j]) <= 0
  }

  /** `[heap[i], heap[j]] = [heap[j], heap[i]]`: a permutation of the heap. */
  function Swapped<T>(s: seq<T>, i: nat, j: nat): (r: seq<T>)
    requires i < |s| && j < |s|
    ensures |r| == |s| && multiset(r) == multiset(s)
    ensures r[i] == s[j] && r[j] == s[i]
    ensures forall k :: 0 <= k < |s| && k != i && k != j ==> r[k] == s[k]
  {
    s[i := s[j]][j := s[i]]
  }

  /** `heapifyUp(i)`: swap with the parent while strictly smaller than it. */
  function SiftUp<T>(cmp: (T, T) -> int, s: seq<T>, i: nat): (r: seq<T>)
    requires i < |s|
    ensures |r| == |s| && multiset(r) == multiset(s)
    decreases i
  {
    if i > 0 && cmp(s[i], s[Parent(i)]) < 0 then SiftUp(cmp, Swapped(s, i, Parent(i)), Parent(i))
    else s
  }

  /** The `smallest` index of `heapifyDown(i)`: `i`, replaced by the left child
      if that is strictly smaller, then by the right child if that is strictly
      smaller than the one chosen so far. */
  function Smallest<T>(cmp: (T, T) -> int, s: seq<T>, i: nat): (m: nat)
    ensures m == i || (i < m < |s| && (m == LeftChild(i) || m == RightChild(i)))
  {
    var left, right := LeftChild(i), RightChild(i);
    var smallest := if left < |s| && cmp(s[left], s[i]) < 0 then left else i;
    if right < |s| && cmp(s[right], s[smallest]) < 0 then right else smallest
  }

  /** `heapifyDown(i)`: swap with the smallest child until none is smaller. */
  function SiftDown<T>(cmp: (T, T) -> int, s: seq<T>, i: nat): (r: seq<T>)
    ensures |r| == |s| && multiset(r) == multiset(s)
    decreases |s| - i
  {
    var m := Smallest(cmp, s, i);
    if m != i then SiftDown(cmp, Swapped(s, i, m), m) else s
  }

  /** What `dequeue` / `extractMin` leave behind once the root is taken out of
      a non-empty heap: nothing for a single element, otherwise the last element
      moved to the root and sifted down. */
  function RootRemoved<T>(cmp: (T, T) -> int, s: seq<T>): (r: seq<T>)
    requires |s| > 0
    ensures |r| == |s| - 1
    ensures multiset(r) + multiset{s[0]} == multiset(s)
  {
    if |s| == 1 then []
    else
      var moved := [s[|s| - 1]] + s[1..|s| - 1];
      assert s == [s[0]] + s[1..|s| - 1] + [s[|s| - 1]];
      SiftDown(cmp, moved, 0)
  }

  /** Heap order everywhere except between `k` and its parent; `k`'s parent
      also goes no later than `k`'s children. */
  ghost predicate HeapUpInv<T>(cmp: (T, T) -> int, s: seq<T>, k: nat) {
    (forall j :: 0 < j < |s| && j != k ==> cmp(s[Parent(j)], s[j]) <= 0) &&
    (0 < k < |s| && LeftChild(k) < |s| ==> cmp(s[Parent(k)], s[LeftChild(k)]) <= 0) &&
    (0 < k < |s| && RightChild(k) < |s| ==> cmp(s[Parent(k)], s[RightChild(k)]) <= 0)
  }

  /** Heap order everywhere except between `k` and its children; `k`'s parent
      also goes no later than `k`'s children. */
  ghost predicate HeapDownInv<T>(cmp: (T, T) -> int, s: seq<T>, k: nat) {
    (forall j :: 0 < j < |s| && Parent(j) != k ==> cmp(s[Parent(j)], s[j]) <= 0) &&
    (0 < k < |s| && LeftChild(k) < |s| ==> cmp(s[Parent(k)], s[LeftChild(k)]) <= 0) &&
    (0 < k < |s| && RightChild(k) < |s| ==> cmp(s[Parent(k)], s[RightChild(k)]) <= 0)
  }

  lemma SiftUpStep<T(!new)>(cmp: (T, T) -> int, s: seq<T>, k: nat)
    requires TotalPreorder(cmp)
    requires 0 < k < |s| && HeapUpInv(cmp, s, k)
    requires cmp(s[k], s[Parent(k)]) < 0
    ensures HeapUpInv(cmp, Swapped(s, k, Parent(k)), Parent(k))
  {
    var p := Parent(k);
    var t := Swapped(s, k, p);
    forall j | 0 < j < |s| && j != p ensures cmp(t[Parent(j)], t[j]) <= 0 {
      if j == k {
      } else if Parent(j) == k {
        assert j == LeftChild(k) || j == RightChild(k);
      } else if Parent(j) == p {
        assert cmp(s[p], s[j]) <= 0;
      } else {
        assert t[j] == s[j] && t[Parent(j)] == s[Parent(j)];
      }
    }
    if 0 < p {
      var pp := Parent(p);
      assert t[pp] == s[pp];
      assert cmp(s[pp], s[p]) <= 0;
      forall c | c == LeftChild(p) || c == RightChild(p)
        ensures c < |s| ==> cmp(t[pp], t[c]) <= 0
      {
        if c < |s| && c != k {
          assert cmp(s[p], s[c]) <= 0;
        }
      }
    }
  }

  /** Sifting up from the only misplaced position restores heap order. */
  lemma {:induction false} SiftUpRestoresHeap<T(!new)>(cmp: (T, T) -> int, s: seq<T>, k: nat)
    requires TotalPreorder(cmp)
    requires k < |s| && HeapUpInv(cmp, s, k)
    ensures IsHeap(cmp, SiftUp(cmp, s, k))
    decreases k
  {
    if k > 0 && cmp(s[k], s[Parent(k)]) < 0 {
      SiftUpStep(cmp, s, k);
      SiftUpRestoresHeap(cmp, Swapped(s, k, Parent(k)), Parent(k));
    } else if k > 0 {
      LessIsAtMost(cmp, s[Parent(k)], s[k]);
    }
  }

  /** What `Smallest` establishes about the element it picks. */
  lemma SmallestIsSmallest<T(!new)>(cmp: (T, T) -> int, s: seq<T>, k: nat)
    requires TotalPreorder(cmp)
    requires k < |s|
    ensures var m := Smallest(cmp, s, k);
      (m != k ==> cmp(s[m], s[k]) <= 0) &&
      (LeftChild(k) < |s| ==> cmp(s[m], s[LeftChild(k)]) <= 0) &&
      (RightChild(k) < |s| ==> cmp(s[m], s[RightChild(k)]) <= 0)
  {
    var l, r := LeftChild(k), RightChild(k);
    LessIsAtMost(cmp, s[k], s[k]);
    if l < |s| {
      LessIsAtMost(cmp, s[k], s[l]);
      LessIsAtMost(cmp, s[l], s[l]);
    }
    if r < |s| {
      LessIsAtMost(cmp, s[k], s[r]);
      LessIsAtMost(cmp, s[r], s[r]);
      LessIsAtMost(cmp, s[l], s[r]);
    }
  }

  lemma SiftDownStep<T(!new)>(cmp: (T, T) -> int, s: seq<T>, k: nat)
    requires TotalPreorder(cmp)
    requires k < |s| && HeapDownInv(cmp, s, k)
    requires Smallest(cmp, s, k) != k
    ensures var m := Smallest(cmp, s, k); HeapDownInv(cmp, Swapped(s, k, m), m)
  {
    var m := Smallest(cmp, s, k);
    SmallestIsSmallest(cmp, s, k);
    var t := Swapped(s, k, m);
    forall j | 0 < j < |s| && Parent(j) != m ensures cmp(t[Parent(j)], t[j]) <= 0 {
      if j == m {
      } else if Parent(j) == k {
        assert j == LeftChild(k) || j == RightChild(k);
      } else if j == k {
        assert k == LeftChild(Parent(k)) || k == RightChild(Parent(k));
      } else {
        assert t[j] == s[j] && t[Parent(j)] == s[Parent(j)];
      }
    }
    forall c | c == LeftChild(m) || c == RightChild(m)
      ensures c < |s| ==> cmp(t[Parent(m)], t[c]) <= 0
    {
      if c < |s| {
        assert Parent(c) == m;
        assert cmp(s[m], s[c]) <= 0;
      }
    }
  }

  /** Sifting down from the only misplaced position restores heap order. */
  lemma {:induction false} SiftDownRestoresHeap<T(!new)>(cmp: (T, T) -> int, s: seq<T>, k: nat)
    requires TotalPreorder(cmp)
    requires HeapDownInv(cmp, s, k)
    ensures IsHeap(cmp, SiftDown(cmp, s, k))
    decreases |s| - k
  {
    var m := Smallest(cmp, s, k);
    if m != k {
      SiftDownStep(cmp, s, k);
      SiftDownRestoresHeap(cmp, Swapped(s, k, m), m);
    } else if k < |s| {
      SmallestIsSmallest(cmp, s, k);
      forall j | 0 < j < |s| && Parent(j) == k ensures cmp(s[k], s[j]) <= 0 {
        assert j == LeftChild(k) || j == RightChild(k);
      }
    }
  }

  /** The root of a heap goes no later than any element. */
  lemma {:induction false} RootIsMinimum<T(!new)>(cmp: (T, T) -> int, s: seq<T>, j: nat)
    requires TotalPreorder(cmp)
    requires IsHeap(cmp, s) && j < |s|
    ensures cmp(s[0], s[j]) <= 0
    decreases j
  {
    if j == 0 {
      LessIsAtMost(cmp, s[0], s[0]);
    } else {
      RootIsMinimum(cmp, s, Parent(j));
    }
  }

  /** Pushing onto a heap and sifting the new last element up keeps heap order. */
  lemma PushKeepsHeap<T(!new)>(cmp: (T, T) -> int, s: seq<T>, x: T)
    requires TotalPreorder(cmp)
    requires IsHeap(cmp, s)
    ensures IsHeap(cmp, SiftUp(cmp, s + [x], |s|))
  {
    var t := s + [x];
    assert HeapUpInv(cmp, t, |s|) by {
      forall j | 0 < j < |t| && j != |s| ensures cmp(t[Parent(j)], t[j]) <= 0 {
        assert t[j] == s[j] && t[Parent(j)] == s[Parent(j)];
      }
    }
    SiftUpRestoresHeap(cmp, t, |s|);
  }

  /** Taking the root out of a heap keeps heap order, and the root was a minimum. */
  lemma PopKeepsHeap<T(!new)>(cmp: (T, T) -> int, s: seq<T>)
    requires TotalPreorder(cmp)
    requires IsHeap(cmp, s) && |s| > 0
    ensures IsHeap(cmp, RootRemoved(cmp, s))
    ensures forall j :: 0 <= j < |s| ==> cmp(s[0], s[j]) <= 0
  {
    forall j | 0 <= j < |s| ensures cmp(s[0], s[j]) <= 0 {
      RootIsMinimum(cmp, s, j);
    }
    if |s| > 1 {
      var t := [s[|s| - 1]] + s[1..|s| - 1];
      assert HeapDownInv(cmp, t, 0) by {
        forall j | 0 < j < |t| && Parent(j) != 0 ensures cmp(t[Parent(j)], t[j]) <= 0 {
          assert t[j] == s[j] && t[Parent(j)] == s[Parent(j)];
        }
      }
      SiftDownRestoresHeap(cmp, t, 0);
    }
  }

  /** A permutation has the same elements, so comparators that agree on one
      agree on the other. */
  lemma AgreeOnPermutation<T(!new)>(c1: (T, T) -> int, c2: (T, T) -> int, s: seq<T>, t: seq<T>)
    requires AgreeOn(c1, c2, s) && multiset(t) == multiset(s)
    ensures AgreeOn(c1, c2, t)
  {
    forall a | a in t ensures a in s {
      assert a in multiset(t);
    }
  }

  /** Comparators that agree on the elements of `s` sift them alike. */
  lemma {:induction false} SiftUpAgrees<T(!new)>(c1: (T, T) -> int, c2: (T, T) -> int, s: seq<T>, i: nat)
    requires AgreeOn(c1, c2, s) && i < |s|
    ensures SiftUp(c1, s, i) == SiftUp(c2, s, i)
    decreases i
  {
    if i > 0 {
      assert s[i] in s && s[Parent(i)] in s;
      AgreeOnPermutation(c1, c2, s, Swapped(s, i, Parent(i)));
      SiftUpAgrees(c1, c2, Swapped(s, i, Parent(i)), Parent(i));
    }
  }

  lemma {:induction false} SiftDownAgrees<T(!new)>(c1: (T, T) -> int, c2: (T, T) -> int, s: seq<T>, i: nat)
    requires AgreeOn(c1, c2, s)
    ensures SiftDown(c1, s, i) == SiftDown(c2, s, i)
    decreases |s| - i
  {
    var l, r := LeftChild(i), RightChild(i);
    if l < |s| {
      assert s[l] in s && s[i] in s;
    }
    if r < |s| {
      assert s[r] in s && s[l] in s && s[i] in s;
    }
    assert Smallest(c1, s, i) == Smallest(c2, s, i);
    var m := Smallest(c1, s, i);
    if m != i {
      AgreeOnPermutation(c1, c2, s, Swapped(s, i, m));
      SiftDownAgrees(c1, c2, Swapped(s, i, m), m);
    }
  }

  lemma IsHeapAgrees<T(!new)>(c1: (T, T) -> int, c2: (T, T) -> int, s: seq<T>)
    requires AgreeOn(c1, c2, s)
    ensures IsHeap(c1, s) <==> IsHeap(c2, s)
  {
    forall j | 0 < j < |s| ensures c1(s[Parent(j)], s[j]) == c2(s[Parent(j)], s[j]) {
      assert s[Parent(j)] in s && s[j] in s;
    }
  }

  lemma RootRemovedAgrees<T(!new)>(c1: (T, T) -> int, c2: (T, T) -> int, s: seq<T>)
    requires AgreeOn(c1, c2, s) && |s| > 0
    ensures RootRemoved(c1, s) == RootRemoved(c2, s)
  {
    if |s| > 1 {
      var moved := [s[|s| - 1]] + s[1..|s| - 1];
      assert AgreeOn(c1, c2, moved) by {
        forall a | a in moved ensures a in s {
          if a != s[|s| - 1] {
            var i :| 0 <= i < |moved| && moved[i] == a;
            assert a == s[i];
          }
        }
      }
      SiftDownAgrees(c1, c2, moved, 0);
    }
  }

  /** Pushing keeps heap order for a comparator that agrees with a total
      preorder on the elements involved. */
  lemma PushKeepsHeapAgreeing<T(!new)>(c1: (T, T) -> int, c2: (T, T) -> int, s: seq<T>, x: T)
    requires TotalPreorder(c2) && AgreeOn(c1, c2, s + [x])
    requires IsHeap(c1, s)
    ensures IsHeap(c1, SiftUp(c1, s + [x], |s|))
  {
    var grown := s + [x];
    assert AgreeOn(c1, c2, s) by {
      forall a | a in s ensures a in grown {
      }
    }
    IsHeapAgrees(c1, c2, s);
    PushKeepsHeap(c2, s, x);
    SiftUpAgrees(c1, c2, grown, |s|);
    AgreeOnPermutation(c1, c2, grown, SiftUp(c1, grown, |s|));
    IsHeapAgrees(c1, c2, SiftUp(c1, grown, |s|));
  }

  lemma RootRemovedKeepsAgreement<T(!new)>(c1: (T, T) -> int, c2: (T, T) -> int, cmp: (T, T) -> int, s: seq<T>)
    requires AgreeOn(c1, c2, s) && |s| > 0
    ensures AgreeOn(c1, c2, RootRemoved(cmp, s))
  {
    var rest := RootRemoved(cmp, s);
    forall a | a in rest ensures a in s {
      assert a in multiset(rest);
    }
  }

  /** Taking the root out keeps heap order for a comparator that agrees with
      a total preorder on the heap's elements, and the root was a minimum. */
  lemma PopKeepsHeapAgreeing<T(!new)>(c1: (T, T) -> int, c2: (T, T) -> int, s: seq<T>)
    requires TotalPreorder(c2) && AgreeOn(c1, c2, s)
    requires IsHeap(c1, s) && |s| > 0
    ensures IsHeap(c1, RootRemoved(c1, s))
    ensures forall j :: 0 <= j < |s| ==> c2(s[0], s[j]) <= 0
  {
    IsHeapAgrees(c1, c2, s);
    PopKeepsHeap(c2, s);
    RootRemovedAgrees(c1, c2, s);
    RootRemovedKeepsAgreement(c1, c2, c1, s);
    IsHeapAgrees(c1, c2, RootRemoved(c1, s));
  }
}
