/**
 * The order queue of the restaurant program: a binary min-heap of orders on
 * their integer `priority` (1 is served first), kept in an array that its
 * methods change in place, with cancellation by order id.
 */
module RestaurantOrders {
  import opened Wrappers
  import opened Sorting
  import opened BinaryHeap

  /** An order; `id` is the creation timestamp the program assigns. */
  datatype Order = Order(id: int, customer: string, details: string, priority: int)

  /** The comparator of `getOrders`, with which the heap's own `<` tests agree. */
  function ComparePriority(a: Order, b: Order): int {
    a.priority - b.priority
  }

  lemma ComparePriorityIsPreorder()
    ensures TotalPreorder(ComparePriority)
  {
  }

  /** `findIndex(order => order.id === id)`: the first position holding `id`, or -1. */
  function IndexOfId(s: seq<Order>, id: int): (k: int)
    ensures -1 <= k < |s|
    ensures k == -1 <==> forall j :: 0 <= j < |s| ==> s[j].id != id
    ensures k >= 0 ==> s[k].id == id && forall j :: 0 <= j < k ==> s[j].id != id
  {
    if s == [] then -1
    else if s[0].id == id then 0
    else
      var k := IndexOfId(s[1..], id);
      assert forall j :: 0 < j < |s| ==> s[j] == s[1..][j - 1];
      if k == -1 then -1 else k + 1
  }

  /** What `removeById` leaves when the order sits at `k`: the last element
      swapped into `k`, the last slot popped, and a sift-down from `k`. */
  function RemovedAt(s: seq<Order>, k: nat): (r: seq<Order>)
    requires k < |s|
    ensures |r| == |s| - 1
    ensures multiset(r) + multiset{s[k]} == multiset(s)
  {
    var t := Swapped(s, k, |s| - 1);
    assert t == t[..|s| - 1] + [s[k]];
    SiftDown(ComparePriority, t[..|s| - 1], k)
  }

  /** The heap of priorities 1, 5, 2, 6, 7, 3, each order's id equal to its priority. */
  function SampleHeap(): seq<Order> {
    [Order(1, "", "", 1), Order(5, "", "", 5), Order(2, "", "", 2),
     Order(6, "", "", 6), Order(7, "", "", 7), Order(3, "", "", 3)]
  }

  lemma SampleIsHeap()
    ensures IsHeap(ComparePriority, SampleHeap())
  {
    var s := SampleHeap();
    forall j | 0 < j < |s| ensures ComparePriority(s[Parent(j)], s[j]) <= 0 {
      assert j == 1 || j == 2 || j == 3 || j == 4 || j == 5;
    }
  }

  lemma SampleIndexOfSix()
    ensures IndexOfId(SampleHeap(), 6) == 3
  {
    var s := SampleHeap();
    assert s[1..][1..][1..] == [s[3], s[4], s[5]];
    assert IndexOfId(s[1..][1..][1..], 6) == 0;
    assert IndexOfId(s[1..][1..], 6) == 1;
    assert IndexOfId(s[1..], 6) == 2;
  }

  lemma SampleRemoveAtThree()
    ensures var s := SampleHeap(); RemovedAt(s, 3) == [s[0], s[1], s[2], s[5], s[4]]
  {
    var s := SampleHeap();
    var t := [s[0], s[1], s[2], s[5], s[4]];
    assert Swapped(s, 3, 5)[..5] == t;
    assert Smallest(ComparePriority, t, 3) == 3;
  }

  /**
   * Removing by id does not restore heap order, because it never sifts up:
   * removing the order at position 3 of `SampleHeap` swaps priority 3 into
   * that position, below the 5 at its parent, and sifting down leaves it there.
   */
  lemma RemoveByIdCanBreakHeapOrder()
    ensures IsHeap(ComparePriority, SampleHeap()) && IndexOfId(SampleHeap(), 6) == 3
    ensures !IsHeap(ComparePriority, RemovedAt(SampleHeap(), 3))
  {
    SampleIsHeap();
    SampleIndexOfSix();
    SampleRemoveAtThree();
    var t := RemovedAt(SampleHeap(), 3);
    assert Parent(3) == 1 && ComparePriority(t[1], t[3]) > 0;
  }

  /** Taking the root out of a heap keeps heap order, and the root has the
      minimum priority. */
  lemma DequeueKeepsHeap(s: seq<Order>)
    requires |s| > 0 && IsHeap(ComparePriority, s)
    ensures IsHeap(ComparePriority, RootRemoved(ComparePriority, s))
    ensures forall j :: 0 <= j < |s| ==> s[0].priority <= s[j].priority
  {
    ComparePriorityIsPreorder();
    PopKeepsHeap(ComparePriority, s);
  }

  class PriorityQueue {
    var heap: seq<Order>

    constructor()
      ensures heap == []
    {
      heap := [];
    }

    method Swap(i: nat, j: nat)
      requires i < |heap| && j < |heap|
      modifies this
      ensures heap == Swapped(old(heap), i, j)
    {
      heap := heap[i := heap[j]][j := heap[i]];
    }

    /** `push`, then sift the new last element up: the order is added, and a
        heap stays a heap. */
    method Enqueue(order: Order)
      modifies this
      ensures heap == SiftUp(ComparePriority, old(heap) + [order], |old(heap)|)
      ensures |heap| == |old(heap)| + 1 && multiset(heap) == multiset(old(heap)) + multiset{order}
      ensures IsHeap(ComparePriority, old(heap)) ==> IsHeap(ComparePriority, heap)
    {
      heap := heap + [order];
      HeapifyUp(|heap| - 1);
      if IsHeap(ComparePriority, old(heap)) {
        ComparePriorityIsPreorder();
        PushKeepsHeap(ComparePriority, old(heap), order);
      }
    }

    /** Swap with the parent while strictly smaller than it. */
    method HeapifyUp(index: nat)
      requires index < |heap|
      modifies this
      ensures heap == SiftUp(ComparePriority, old(heap), index)
    {
      var i: nat := index;
      while i > 0 && heap[i].priority < heap[Parent(i)].priority
        invariant i < |heap|
        invariant SiftUp(ComparePriority, heap, i) == SiftUp(ComparePriority, old(heap), index)
        decreases i
      {
        Swap(i, Parent(i));
        i := Parent(i);
      }
    }

    /** `null` on an empty heap; otherwise the root, which has minimum
        priority in a heap, leaving the rest a heap. */
    method Dequeue() returns (r: Option<Order>)
      modifies this
      ensures old(heap) == [] ==> r == None && heap == []
      ensures old(heap) != [] ==> r == Some(old(heap)[0]) && heap == RootRemoved(ComparePriority, old(heap))
      ensures IsHeap(ComparePriority, old(heap)) ==>
        IsHeap(ComparePriority, heap) &&
        (r.Some? ==> forall j :: 0 <= j < |old(heap)| ==> r.value.priority <= old(heap)[j].priority)
    {
      if IsEmpty() {
        return None;
      }
      ghost var before := heap;
      r := Some(heap[0]);
      if |heap| == 1 {
        heap := [];
      } else {
        heap := [heap[|heap| - 1]] + heap[1..|heap| - 1];
        HeapifyDown(0);
      }
      if IsHeap(ComparePriority, before) {
        DequeueKeepsHeap(before);
      }
    }

    /** Swap with the smaller child while it is strictly smaller, recursively. */
    method HeapifyDown(index: nat)
      modifies this
      ensures heap == SiftDown(ComparePriority, old(heap), index)
      decreases |heap| - index
    {
      var smallest := index;
      var left, right := LeftChild(index), RightChild(index);
      if left < |heap| && heap[left].priority < heap[smallest].priority {
        smallest := left;
      }
      if right < |heap| && heap[right].priority < heap[smallest].priority {
        smallest := right;
      }
      assert smallest == Smallest(ComparePriority, heap, index);
      if smallest != index {
        Swap(index, smallest);
        HeapifyDown(smallest);
      }
    }

    function IsEmpty(): (b: bool)
      reads this
      ensures b <==> multiset(heap) == multiset{}
    {
      |heap| == 0
    }

    /** A copy sorted by ascending priority, orders of equal priority in heap
        order; the heap itself is not touched. */
    function GetOrders(): (r: seq<Order>)
      reads this
      ensures multiset(r) == multiset(heap)
      ensures forall i, j :: 0 <= i < j < |r| ==> r[i].priority <= r[j].priority
    {
      ComparePriorityIsPreorder();
      SortBySorted(ComparePriority, heap);
      SortBy(ComparePriority, heap)
    }

    /** `false` with nothing changed when no order has `id`; otherwise `true`,
        and exactly the first order with that id is gone. */
    method RemoveById(id: int) returns (removed: bool)
      modifies this
      ensures var k := IndexOfId(old(heap), id);
        (k == -1 ==> !removed && heap == old(heap)) &&
        (k >= 0 ==> removed && heap == RemovedAt(old(heap), k) &&
                    multiset(heap) + multiset{old(heap)[k]} == multiset(old(heap)))
    {
      var index := IndexOfId(heap, id);
      if index == -1 {
        return false;
      }
      ghost var before := heap;
      Swap(index, |heap| - 1);
      heap := heap[..|heap| - 1];
      assert heap == Swapped(before, index, |before| - 1)[..|before| - 1];
      HeapifyDown(index);
      assert heap == RemovedAt(before, index);
      return true;
    }
  }
}
