/**
 * The check-in queue of the airport program: a binary min-heap of passengers
 * on their integer `priority` (0 is served first), and the rule that turns a
 * ticket class and a special-assistance answer into that priority.
 */
module AirportCheckIn {
  import opened Wrappers
  import opened Sorting
  import opened BinaryHeap

  datatype Passenger = Passenger(name: string, ticketClass: string, special: string, priority: int)

  /** The comparator of `getQueue`, with which the heap's own comparisons agree. */
  function ComparePriority(a: Passenger, b: Passenger): int {
    a.priority - b.priority
  }

  lemma ComparePriorityIsPreorder()
    ensures TotalPreorder(ComparePriority)
  {
  }

  /** `priorityMapping`. */
  const PriorityMapping: map<string, int> :=
    map["First Class" := 1, "Business Class" := 2, "Economy Class" := 3]

  /** `String.prototype.toLowerCase` on the ASCII letters; every other
      character is kept. */
  function ToLower(s: string): (r: string)
    ensures |r| == |s|
    ensures forall i :: 0 <= i < |s| ==> r[i] == LowerChar(s[i])
  {
    if s == [] then [] else [LowerChar(s[0])] + ToLower(s[1..])
  }

  function LowerChar(c: char): (d: char)
    ensures 'A' <= c <= 'Z' ==> 'a' <= d <= 'z' && d as int == c as int + 32
    ensures !('A' <= c <= 'Z') ==> d == c
  {
    if 'A' <= c <= 'Z' then (c as int - 'A' as int + 'a' as int) as char else c
  }

  /** The two characters that lower to a given lower-case letter. */
  lemma LowerCharIs(c: char, lower: char)
    requires 'a' <= lower <= 'z'
    ensures LowerChar(c) == lower <==> c == lower || c as int == lower as int - 32
  {
  }

  /** `special.toLowerCase() !== "none"` is false exactly for the sixteen
      spellings of "none" in upper and lower case. */
  lemma LowerIsNone(s: string)
    ensures ToLower(s) == "none" <==>
      |s| == 4 && (s[0] == 'n' || s[0] == 'N') && (s[1] == 'o' || s[1] == 'O') &&
      (s[2] == 'n' || s[2] == 'N') && (s[3] == 'e' || s[3] == 'E')
  {
    if |s| == 4 {
      LowerCharIs(s[0], 'n');
      LowerCharIs(s[1], 'o');
      LowerCharIs(s[2], 'n');
      LowerCharIs(s[3], 'e');
      var r := ToLower(s);
      assert r == "none" <==> r[0] == 'n' && r[1] == 'o' && r[2] == 'n' && r[3] == 'e';
    }
  }

  /**
   * The priority `addPassenger` stores: `None` when the class is not one of
   * the three (the program asks again), otherwise the class's priority, one
   * less when some special assistance other than "none" was given.
   */
  function CheckInPriority(ticketClass: string, special: string): (r: Option<int>)
    ensures r.None? <==> ticketClass !in PriorityMapping
    ensures r.Some? ==> 0 <= r.value <= 3
    ensures r.Some? ==> var base := PriorityMapping[ticketClass];
      (r.value == base || r.value == base - 1) &&
      (r.value == base <==> ToLower(special) == "none")
  {
    if ticketClass !in PriorityMapping then None
    else
      var priority := PriorityMapping[ticketClass];
      if ToLower(special) != "none" then Some(priority - 1) else Some(priority)
  }

  /** A first-class passenger with special needs is served before everyone
      else, and the class names are matched exactly. */
  lemma CheckInPriorityExamples()
    ensures CheckInPriority("First Class", "VIP") == Some(0)
    ensures CheckInPriority("Economy Class", "None") == Some(3)
    ensures CheckInPriority("Economy Class", "Elderly") == Some(2)
    ensures CheckInPriority("first class", "none") == None
  {
    LowerIsNone("VIP");
    LowerIsNone("None");
    LowerIsNone("Elderly");
  }

  /** Taking the root out of a heap keeps heap order, and the root has the
      minimum priority. */
  lemma DequeueKeepsHeap(s: seq<Passenger>)
    requires |s| > 0 && IsHeap(ComparePriority, s)
    ensures IsHeap(ComparePriority, RootRemoved(ComparePriority, s))
    ensures forall j :: 0 <= j < |s| ==> s[0].priority <= s[j].priority
  {
    ComparePriorityIsPreorder();
    PopKeepsHeap(ComparePriority, s);
  }

  class PriorityQueue {
    var heap: seq<Passenger>

    constructor()
      ensures heap == []
    {
      heap := [];
    }

    method Swap(i: nat, j: nat)
      requires i < |heap| && j < |heap|
      modifies this
      ensures heap == Swapped(old(heap), i, j)
    {
      heap := heap[i := heap[j]][j := heap[i]];
    }

    /** `push`, then sift the new last element up: the passenger is added,
        and a heap stays a heap. */
    method Enqueue(passenger: Passenger)
      modifies this
      ensures heap == SiftUp(ComparePriority, old(heap) + [passenger], |old(heap)|)
      ensures |heap| == |old(heap)| + 1 && multiset(heap) == multiset(old(heap)) + multiset{passenger}
      ensures IsHeap(ComparePriority, old(heap)) ==> IsHeap(ComparePriority, heap)
    {
      heap := heap + [passenger];
      HeapifyUp();
      if IsHeap(ComparePriority, old(heap)) {
        ComparePriorityIsPreorder();
        PushKeepsHeap(ComparePriority, old(heap), passenger);
      }
    }

    /** From the last index, swap with the parent while the parent's priority
        is strictly greater. */
    method HeapifyUp()
      requires |heap| > 0
      modifies this
      ensures heap == SiftUp(ComparePriority, old(heap), |old(heap)| - 1)
    {
      var index: nat := |heap| - 1;
      while index > 0 && heap[Parent(index)].priority > heap[index].priority
        invariant index < |heap|
        invariant SiftUp(ComparePriority, heap, index) == SiftUp(ComparePriority, old(heap), |old(heap)| - 1)
        decreases index
      {
        Swap(index, Parent(index));
        index := Parent(index);
      }
    }

    /** `null` on an empty queue; otherwise the root, which has minimum
        priority in a heap, leaving the rest a heap. */
    method Dequeue() returns (r: Option<Passenger>)
      modifies this
      ensures old(heap) == [] ==> r == None && heap == []
      ensures old(heap) != [] ==> r == Some(old(heap)[0]) && heap == RootRemoved(ComparePriority, old(heap))
      ensures IsHeap(ComparePriority, old(heap)) ==>
        IsHeap(ComparePriority, heap) &&
        (r.Some? ==> forall j :: 0 <= j < |old(heap)| ==> r.value.priority <= old(heap)[j].priority)
    {
      if IsEmpty() {
        return None;
      }
      ghost var before := heap;
      r := Some(heap[0]);
      if |heap| == 1 {
        heap := [];
      } else {
        heap := [heap[|heap| - 1]] + heap[1..|heap| - 1];
        HeapifyDown(0);
      }
      if IsHeap(ComparePriority, before) {
        DequeueKeepsHeap(before);
      }
    }

    /** Swap with the smaller child while it is strictly smaller, recursively. */
    method HeapifyDown(index: nat)
      modifies this
      ensures heap == SiftDown(ComparePriority, old(heap), index)
      decreases |heap| - index
    {
      var smallest := index;
      var left, right := LeftChild(index), RightChild(index);
      if left < |heap| && heap[left].priority < heap[smallest].priority {
        smallest := left;
      }
      if right < |heap| && heap[right].priority < heap[smallest].priority {
        smallest := right;
      }
      assert smallest == Smallest(ComparePriority, heap, index);
      if smallest != index {
        Swap(index, smallest);
        HeapifyDown(smallest);
      }
    }

    function IsEmpty(): (b: bool)
      reads this
      ensures b <==> multiset(heap) == multiset{}
    {
      |heap| == 0
    }

    /** A copy sorted by ascending priority; the heap itself is not touched. */
    function GetQueue(): (r: seq<Passenger>)
      reads this
      ensures multiset(r) == multiset(heap)
      ensures forall i, j :: 0 <= i < j < |r| ==> r[i].priority <= r[j].priority
    {
      ComparePriorityIsPreorder();
      SortBySorted(ComparePriority, heap);
      SortBy(ComparePriority, heap)
    }
  }

  /**
   * The queue-facing part of `addPassenger`: a passenger with an unknown
   * ticket class is turned away and the queue is left as it was; otherwise
   * the passenger is enqueued with the priority of `CheckInPriority`.
   */
  method AddPassenger(queue: PriorityQueue, name: string, ticketClass: string, special: string)
    returns (accepted: bool)
    modifies queue
    ensures accepted <==> ticketClass in PriorityMapping
    ensures !accepted ==> queue.heap == old(queue.heap)
    ensures accepted ==>
      multiset(queue.heap) ==
        multiset(old(queue.heap)) + multiset{Passenger(name, ticketClass, special, CheckInPriority(ticketClass, special).value)}
    ensures IsHeap(ComparePriority, old(queue.heap)) ==> IsHeap(ComparePriority, queue.heap)
  {
    var priority := CheckInPriority(ticketClass, special);
    if priority.None? {
      return false;
    }
    queue.Enqueue(Passenger(name, ticketClass, special, priority.value));
    return true;
  }
}
