/**
 * The reservation heap of the hotel booking program: a binary min-heap over
 * its own `compare` (VIP guests first, then by check-in date), read back as a
 * sorted copy, and the cancellation that looks a guest up in that copy.
 */
module HotelBooking {
  import opened Wrappers
  import opened Sorting
  import opened BinaryHeap

  /** A reservation; the check-in date is given as a day number. */
  datatype Reservation = Reservation(name: string, checkInDate: int, isVIP: bool)

  /** `b.siVIP` reads a property no reservation has: it is `undefined`, which
      is falsy. */
  function SiVIP(r: Reservation): bool {
    false
  }

  /** `compare`: -1 for a VIP against a non-VIP, otherwise the difference of
      the check-in dates (the branch meant to put a VIP `b` first never fires). */
  function Compare(a: Reservation, b: Reservation): int {
    if a.isVIP && !b.isVIP then -1
    else if !a.isVIP && SiVIP(b) then 1
    else a.checkInDate - b.checkInDate
  }

  /** Order by check-in date alone. */
  function DateCompare(a: Reservation, b: Reservation): int {
    a.checkInDate - b.checkInDate
  }

  lemma DateCompareIsPreorder()
    ensures TotalPreorder(DateCompare)
  {
  }

  /**
   * `compare` is not a consistent comparator: a non-VIP guest arriving on
   * day 1 goes before a VIP guest arriving on day 2 and the VIP guest also
   * goes before the non-VIP guest.
   */
  lemma CompareIsNotPreorder()
    ensures var a, b := Reservation("a", 1, false), Reservation("b", 2, true);
      Compare(a, b) < 0 && Compare(b, a) < 0
    ensures !TotalPreorder(Compare)
  {
    var a, b := Reservation("a", 1, false), Reservation("b", 2, true);
    assert Compare(a, b) < 0 && Compare(b, a) < 0;
  }

  /** All reservations are VIP or none is. */
  ghost predicate SameStatus(s: seq<Reservation>) {
    forall i, j :: 0 <= i < |s| && 0 <= j < |s| ==> s[i].isVIP == s[j].isVIP
  }

  /** Among guests of the same status `compare` is the check-in date order. */
  lemma CompareOnSameStatus(s: seq<Reservation>)
    requires SameStatus(s)
    ensures AgreeOn(Compare, DateCompare, s)
  {
    forall a, b | a in s && b in s ensures Compare(a, b) == DateCompare(a, b) {
      var i :| 0 <= i < |s| && s[i] == a;
      var j :| 0 <= j < |s| && s[j] == b;
      assert s[i].isVIP == s[j].isVIP;
    }
  }

  /** The sorted copy of guests of one status is in check-in date order. */
  lemma SortedByDate(s: seq<Reservation>)
    requires SameStatus(s)
    ensures forall i, j :: 0 <= i < j < |s| ==> SortBy(Compare, s)[i].checkInDate <= SortBy(Compare, s)[j].checkInDate
  {
    CompareOnSameStatus(s);
    SortByAgrees(Compare, DateCompare, s);
    DateCompareIsPreorder();
    SortBySorted(DateCompare, s);
  }

  /** `findIndex(r => r.name === name)`: the first position holding `name`, or -1. */
  function IndexOfName(s: seq<Reservation>, name: string): (k: int)
    ensures -1 <= k < |s|
    ensures k == -1 <==> forall j :: 0 <= j < |s| ==> s[j].name != name
    ensures k >= 0 ==> s[k].name == name && forall j :: 0 <= j < k ==> s[j].name != name
  {
    if s == [] then -1
    else if s[0].name == name then 0
    else
      var k := IndexOfName(s[1..], name);
      assert forall j :: 0 < j < |s| ==> s[j] == s[1..][j - 1];
      if k == -1 then -1 else k + 1
  }

  /** Among guests of one status, pushing and sifting up keeps heap order. */
  lemma InsertKeepsHeap(s: seq<Reservation>, x: Reservation)
    requires SameStatus(s + [x]) && IsHeap(Compare, s)
    ensures IsHeap(Compare, SiftUp(Compare, s + [x], |s|))
  {
    CompareOnSameStatus(s + [x]);
    DateCompareIsPreorder();
    PushKeepsHeapAgreeing(Compare, DateCompare, s, x);
  }

  /** Among guests of one status, the root of a heap has the earliest check-in
      date, and taking it out keeps heap order. */
  lemma ExtractKeepsHeap(s: seq<Reservation>)
    requires SameStatus(s) && IsHeap(Compare, s) && |s| > 0
    ensures IsHeap(Compare, RootRemoved(Compare, s))
    ensures forall j :: 0 <= j < |s| ==> s[0].checkInDate <= s[j].checkInDate
  {
    CompareOnSameStatus(s);
    DateCompareIsPreorder();
    PopKeepsHeapAgreeing(Compare, DateCompare, s);
  }

  /** The name found in the sorted copy belongs to some reservation of the heap. */
  lemma FoundInHeap(s: seq<Reservation>, name: string)
    requires IndexOfName(SortBy(Compare, s), name) >= 0
    ensures exists j :: 0 <= j < |s| && s[j].name == name
  {
    var sorted := SortBy(Compare, s);
    var k := IndexOfName(sorted, name);
    assert sorted[k] in multiset(s);
    var j :| 0 <= j < |s| && s[j] == sorted[k];
  }

  class MinHeap {
    var heap: seq<Reservation>

    constructor()
      ensures heap == []
    {
      heap := [];
    }

    method Swap(index1: nat, index2: nat)
      requires index1 < |heap| && index2 < |heap|
      modifies this
      ensures heap == Swapped(old(heap), index1, index2)
    {
      heap := heap[index1 := heap[index2]][index2 := heap[index1]];
    }

    /** `push`, then sift the new last element up: the reservation is added,
        and among guests of one status a heap stays a heap. */
    method Insert(reservation: Reservation)
      modifies this
      ensures heap == SiftUp(Compare, old(heap) + [reservation], |old(heap)|)
      ensures |heap| == |old(heap)| + 1 && multiset(heap) == multiset(old(heap)) + multiset{reservation}
      ensures SameStatus(old(heap) + [reservation]) && IsHeap(Compare, old(heap)) ==> IsHeap(Compare, heap)
    {
      heap := heap + [reservation];
      HeapifyUp(|heap| - 1);
      if SameStatus(old(heap) + [reservation]) && IsHeap(Compare, old(heap)) {
        InsertKeepsHeap(old(heap), reservation);
      }
    }

    /** Swap with the parent while `compare` puts the element strictly first. */
    method HeapifyUp(index: nat)
      requires index < |heap|
      modifies this
      ensures heap == SiftUp(Compare, old(heap), index)
    {
      var i: nat := index;
      var parentIndex := Parent(i);
      while i > 0 && Compare(heap[i], heap[parentIndex]) < 0
        invariant i < |heap| && parentIndex == Parent(i)
        invariant SiftUp(Compare, heap, i) == SiftUp(Compare, old(heap), index)
        decreases i
      {
        Swap(i, parentIndex);
        i := parentIndex;
        parentIndex := Parent(i);
      }
    }

    /** `null` on an empty heap; otherwise the root, leaving the rest sifted;
        among guests of one status the root has the earliest date and the
        rest stays a heap. */
    method ExtractMin() returns (r: Option<Reservation>)
      modifies this
      ensures old(heap) == [] ==> r == None && heap == []
      ensures old(heap) != [] ==> r == Some(old(heap)[0]) && heap == RootRemoved(Compare, old(heap))
      ensures SameStatus(old(heap)) && IsHeap(Compare, old(heap)) ==>
        IsHeap(Compare, heap) &&
        (r.Some? ==> forall j :: 0 <= j < |old(heap)| ==> r.value.checkInDate <= old(heap)[j].checkInDate)
    {
      if |heap| == 0 {
        return None;
      }
      ghost var before := heap;
      r := Some(heap[0]);
      if |heap| == 1 {
        heap := [];
      } else {
        heap := [heap[|heap| - 1]] + heap[1..|heap| - 1];
        HeapifyDown(0);
      }
      if SameStatus(before) && IsHeap(Compare, before) {
        ExtractKeepsHeap(before);
      }
    }

    /** Swap with the child `compare` puts strictly first, recursively. */
    method HeapifyDown(index: nat)
      modifies this
      ensures heap == SiftDown(Compare, old(heap), index)
      decreases |heap| - index
    {
      var smallest := index;
      var left, right := LeftChild(index), RightChild(index);
      if left < |heap| && Compare(heap[left], heap[smallest]) < 0 {
        smallest := left;
      }
      if right < |heap| && Compare(heap[right], heap[smallest]) < 0 {
        smallest := right;
      }
      if smallest != index {
        Swap(index, smallest);
        HeapifyDown(smallest);
      }
    }

    /** A copy sorted with `compare`; the heap itself is not touched. */
    function GetReservations(): (r: seq<Reservation>)
      reads this
      ensures |r| == |heap| && multiset(r) == multiset(heap)
    {
      SortBy(Compare, heap)
    }

    /** `this.heap.lenght` is `undefined`, never `=== 0`: the heap never
        reports empty, whatever it holds. */
    function IsEmpty(): (b: bool)
      reads this
      ensures !b
    {
      false
    }
  }

  /** Among guests of one status, `getReservations` lists them by check-in date. */
  lemma GetReservationsByDate(h: MinHeap)
    requires SameStatus(h.heap)
    ensures var r := h.GetReservations();
      forall i, j :: 0 <= i < j < |r| ==> r[i].checkInDate <= r[j].checkInDate
  {
    SortedByDate(h.heap);
  }

  /** `splice(k, 1)` removes exactly the element at `k`. */
  lemma SpliceMultiset(s: seq<Reservation>, k: nat)
    requires k < |s|
    ensures |s[..k] + s[k + 1..]| == |s| - 1
    ensures multiset(s[..k] + s[k + 1..]) + multiset{s[k]} == multiset(s)
  {
    assert s == s[..k] + [s[k]] + s[k + 1..];
  }

  /**
   * The find/splice part of `cancelReservation`: the guest is looked up in
   * the sorted copy and the heap array loses the element at that index, which
   * need not be that guest's reservation. An unknown name changes nothing.
   */
  method CancelReservation(h: MinHeap, name: string) returns (cancelled: bool)
    modifies h
    ensures var k := IndexOfName(old(h.GetReservations()), name);
      (k == -1 ==> !cancelled && h.heap == old(h.heap)) &&
      (k >= 0 ==> cancelled && h.heap == old(h.heap)[..k] + old(h.heap)[k + 1..] &&
                  multiset(h.heap) + multiset{old(h.heap)[k]} == multiset(old(h.heap)) &&
                  exists j :: 0 <= j < |old(h.heap)| && old(h.heap)[j].name == name)
  {
    var reservations := h.GetReservations();
    var index := IndexOfName(reservations, name);
    if index == -1 {
      return false;
    }
    ghost var before := h.heap;
    FoundInHeap(before, name);
    SpliceMultiset(before, index);
    h.heap := h.heap[..index] + h.heap[index + 1..];
    return true;
  }

  function GuestA(): Reservation { Reservation("A", 1, false) }
  function GuestB(): Reservation { Reservation("B", 2, false) }
  function GuestC(): Reservation { Reservation("C", 3, false) }

  lemma InsertCAB()
    ensures SiftUp(Compare, [GuestC(), GuestA()], 1) == [GuestA(), GuestC()]
    ensures SiftUp(Compare, [GuestA(), GuestC(), GuestB()], 2) == [GuestA(), GuestC(), GuestB()]
  {
    assert Swapped([GuestC(), GuestA()], 1, 0) == [GuestA(), GuestC()];
  }

  lemma InsertBBeforeC()
    ensures InsertBy(Compare, [GuestA(), GuestC()], GuestB()) == [GuestA(), GuestB(), GuestC()]
  {
    var a, b, c := GuestA(), GuestB(), GuestC();
    assert [a, c][1..] == [c];
    assert InsertBy(Compare, [c], b) == [b, c];
  }

  lemma SortAC()
    ensures SortBy(Compare, [GuestA(), GuestC()]) == [GuestA(), GuestC()]
  {
    var a, c := GuestA(), GuestC();
    assert [a, c][..1] == [a];
    assert SortBy(Compare, [a]) == [a];
  }

  lemma SortACB()
    ensures SortBy(Compare, [GuestA(), GuestC(), GuestB()]) == [GuestA(), GuestB(), GuestC()]
  {
    var a, b, c := GuestA(), GuestB(), GuestC();
    assert [a, c, b][..2] == [a, c];
    SortAC();
    InsertBBeforeC();
  }

  lemma IndexOfB()
    ensures IndexOfName([GuestA(), GuestB(), GuestC()], "B") == 1
  {
    var a, b, c := GuestA(), GuestB(), GuestC();
    assert [a, b, c][1..] == [b, c];
    assert IndexOfName([b, c], "B") == 0;
  }

  lemma SpliceAtOne()
    ensures [GuestA(), GuestC(), GuestB()][..1] + [GuestA(), GuestC(), GuestB()][2..] == [GuestA(), GuestB()]
  {
    var s := [GuestA(), GuestC(), GuestB()];
    assert s[..1] == [GuestA()] && s[2..] == [GuestB()];
  }

  /**
   * Guests C (day 3), A (day 1) and B (day 2), none VIP, inserted in that
   * order leave the heap array as A, C, B, whose sorted copy is A, B, C:
   * cancelling B splices out position 1 of the array, which holds C.
   */
  lemma CancelCanRemoveAnotherGuest()
    ensures var a, b, c := GuestA(), GuestB(), GuestC();
      SiftUp(Compare, [c, a], 1) == [a, c] &&
      SiftUp(Compare, [a, c, b], 2) == [a, c, b] &&
      IndexOfName(SortBy(Compare, [a, c, b]), "B") == 1 &&
      [a, c, b][..1] + [a, c, b][2..] == [a, b]
  {
    InsertCAB();
    SortACB();
    IndexOfB();
    SpliceAtOne();
  }
}
