# Six command-line cores, modelled and verified in Dafny

The repository holds six small command-line programs. This project models the
logic inside each one and leaves out the `readline` menus and JSON files
around it.

- **Stock market simulator**: a limit-order matcher.
  - Two queues hold the resting orders. Each is an array that is re-sorted
    with a stable sort on every insertion: bids by price descending, asks by
    price ascending.
  - `processOrder` trades an incoming order against the opposite queue while
    the best price crosses its limit. Every trade is at the resting order's
    price.
  - A partly filled resting order is enqueued again. What is left of the
    incoming order rests in its own queue.
  - A single pair of queues serves all tickers. The ticker is stored with
    the order but is never compared.
- **Restaurant, airport and hotel programs**: three near-copies of an
  array-backed binary min-heap.
  - The restaurant heap can also remove an order by id.
  - The airport program turns a ticket class and a special-assistance answer
    into a priority.
  - The hotel heap orders guests with its own `compare`, and cancels a
    reservation through the heap's sorted copy.
- **ATM**: a session over a table of users, with login, deposit, withdrawal,
  transfer, a mini statement and logout.
- **Traffic light**: cycles RED, GREEN, YELLOW, keeps a counter per color,
  and has a pedestrian button that forces RED.

Layout:

- `sorting.dfy` models `Array.prototype.sort`. The sort is stable, which
  ECMAScript requires since 2019, so it is modelled as insertion sort over a
  comparator (`SortBy`, `InsertBy`). The module proves:
  - sortedness;
  - that the result is a permutation;
  - where ties are placed;
  - that two comparators giving the same answers on the elements produce the
    same sort.
- `binary_heap.dfy` states each heap step as a function on the heap's
  contents: swap, sift-up, sift-down and root removal. It proves heap order
  for any comparator that is a total preorder.
- `stock_market.dfy`, `restaurant_orders.dfy`, `airport_check_in.dfy`,
  `hotel_booking.dfy`, `atm.dfy` and `traffic_light.dfy` hold one program
  each.
  - Each class keeps the fields the program updates in place.
  - Each method is proved equal to the functions above, and the properties
    are lemmas about those functions.
- `wrappers.dfy` holds `Option`, which models the `null` or `undefined` a
  method can return.

The model follows the code as written, defects included. Three defects are
each shown by a lemma that exhibits a concrete input:

- `removeById` in the restaurant heap never sifts up, so it can break heap
  order: `RestaurantOrders.RemoveByIdCanBreakHeapOrder`.
- The hotel `compare` reads `b.siVIP`, which is always `undefined`, so it is
  not a consistent comparator: `HotelBooking.CompareIsNotPreorder`.
- The hotel `cancelReservation` uses an index from the sorted copy to splice
  the heap array, so it can remove another guest's reservation:
  `HotelBooking.CancelCanRemoveAnotherGuest`.

As a consequence of the `siVIP` defect, the hotel heap's order is proved only
for guests who are all VIP or all not VIP. Among such guests `compare` is the
check-in-date order.

## Model

| member | source | states |
|---|---|---|
| Sorting.InsertBy | stock-market-simulator.js:11-12 | Inserting adds exactly the one element: the length grows by one and the multiset gains `x`. `Sorting.InsertByDecomposition` proves where it lands. |
| Sorting.SortBy | stock-market-simulator.js:12 | `sort` returns a permutation of its input of the same length. `Sorting.SortBySorted` proves the result is sorted. |
| Sorting.InsertBySorted | stock-market-simulator.js:10-13 | For a comparator that is a total preorder, inserting into a sorted array leaves it sorted. |
| Sorting.SortBySorted | restaurant-order-management-system.js:64-66 | For a total preorder, the sorted copy is sorted by the comparator. |
| Sorting.SortBySortedIsIdentity | stock-market-simulator.js:11-12 | Stable re-sorting of an already sorted array changes nothing. |
| Sorting.SortByAppend | stock-market-simulator.js:11-12 | `push` then `sort` equals inserting the new element into the sorted array. |
| Sorting.InsertByDecomposition | stock-market-simulator.js:11-12 | The new element lands after every element that does not sort strictly after it, and before every element that does; the rest keep their order. |
| Sorting.SortByAgrees | hotel-booking-system.js:64-66 | Two comparators that give the same answer on all pairs of elements sort the array identically. |
| BinaryHeap.Parent | restaurant-order-management-system.js:11 | The parent of a positive index is a smaller, non-negative index; the parent of the root is -1. |
| BinaryHeap.LeftChild | restaurant-order-management-system.js:11-12 | `parent(leftChild(i)) == i`. |
| BinaryHeap.RightChild | restaurant-order-management-system.js:11-13 | `parent(rightChild(i)) == i`. |
| BinaryHeap.Swapped | restaurant-order-management-system.js:15-17 | The two entries are exchanged, every other entry is unchanged, and the contents are a permutation. |
| BinaryHeap.SiftUp | restaurant-order-management-system.js:24-29 | Sifting up keeps the length and the multiset of elements. |
| BinaryHeap.Smallest | restaurant-order-management-system.js:42-52 | The chosen index is `i` itself or one of its children inside the heap. |
| BinaryHeap.SiftDown | restaurant-order-management-system.js:41-58 | Sifting down keeps the length and the multiset of elements. |
| BinaryHeap.RootRemoved | restaurant-order-management-system.js:31-39 | Removing the root removes exactly the old root and shrinks the heap by one. |
| BinaryHeap.SiftUpRestoresHeap | restaurant-order-management-system.js:24-29 | When heap order fails only at index `k` against its parent, sifting `k` up restores heap order. |
| BinaryHeap.SiftDownRestoresHeap | restaurant-order-management-system.js:41-58 | When heap order fails only at index `k` against its children, sifting `k` down restores heap order. |
| BinaryHeap.RootIsMinimum | restaurant-order-management-system.js:35 | In a heap the root goes no later than any element. |
| BinaryHeap.PushKeepsHeap | restaurant-order-management-system.js:19-29 | Push then sift-up keeps a heap a heap. |
| BinaryHeap.PopKeepsHeap | restaurant-order-management-system.js:31-58 | Removing the root keeps a heap a heap, and the removed root is a minimum. |
| BinaryHeap.PushKeepsHeapAgreeing | hotel-booking-system.js:17-29 | Insertion keeps heap order for a comparator that agrees with a total preorder on the elements involved. |
| BinaryHeap.PopKeepsHeapAgreeing | hotel-booking-system.js:31-56 | Root removal keeps heap order under the same condition, and the root comes first in the agreeing preorder. |
| StockMarket.BuyCompare | stock-market-simulator.js:32 | Has no `ensures`. `StockMarket.BuyCompareIsPreorder` proves it is a total preorder, and `StockMarket.EnqueueKeepsTimePriority` proves that higher bids go first. |
| StockMarket.SellCompare | stock-market-simulator.js:33 | Has no `ensures`. `StockMarket.SellCompareIsPreorder` proves it is a total preorder, and `StockMarket.EnqueueKeepsTimePriority` proves that lower asks go first. |
| StockMarket.Crosses | stock-market-simulator.js:60 | Has no `ensures`. It is the price test of the buy loop guard (`ask.price <= price`), and of the sell guard at line 76 (`bid.price >= price`). `StockMarket.MatchTradesCrossLimit` proves that every trade passes it. |
| StockMarket.BuyCompareIsPreorder | stock-market-simulator.js:32 | `buyCompare` is a total preorder, so the bid queue is a consistent sort. |
| StockMarket.SellCompareIsPreorder | stock-market-simulator.js:33 | `sellCompare` is a total preorder. |
| StockMarket.Min | stock-market-simulator.js:62 | `Math.min` is at most both arguments and equals one of them. |
| StockMarket.PriorityQueue.constructor | stock-market-simulator.js:5-8 | A new queue is empty and keeps its comparator. |
| StockMarket.PriorityQueue.Enqueue | stock-market-simulator.js:10-13 | The queue becomes the old queue with the order inserted stably, and stays sorted. |
| StockMarket.PriorityQueue.Dequeue | stock-market-simulator.js:15-17 | `shift` returns the first order and leaves the rest; an empty queue gives `undefined` and stays empty. |
| StockMarket.PriorityQueue.Peek | stock-market-simulator.js:19-21 | `null` exactly on an empty queue; otherwise the first order, which no order of the queue beats. |
| StockMarket.PriorityQueue.IsEmpty | stock-market-simulator.js:23-25 | True exactly when the queue holds no order. |
| StockMarket.PriorityQueue.GetAll | stock-market-simulator.js:27-29 | Returns the live array, which is sorted by the queue's comparator. |
| StockMarket.Match | stock-market-simulator.js:60-68 | If quantity is left when matching stops, the opposite queue is empty or its best price no longer crosses; the incoming quantity equals the traded quantity plus the remainder. |
| StockMarket.Refill | stock-market-simulator.js:64-67 | Each turn of the loop shrinks the opposite queue, or keeps its size and uses up the rest of the incoming quantity. |
| StockMarket.Process | stock-market-simulator.js:56-94 | A type other than 'buy' or 'sell' changes neither queue and trades nothing; so does a non-positive quantity. |
| StockMarket.MatchConservesResting | stock-market-simulator.js:62-67 | The opposite queue's total quantity drops by exactly the total traded. |
| StockMarket.MatchFillsInQueueOrder | stock-market-simulator.js:60-67 | The `n` trades are against the first `n` resting orders, in queue order and at their prices. Every one of them but the last is filled completely. If the last is only partly filled, the incoming order is used up and that maker goes back into the rest of the queue with its quantity less the trade. Otherwise the queue left is exactly the rest. |
| StockMarket.MatchKeepsQuantitiesPositive | stock-market-simulator.js:60-67 | Given positive quantities, every trade is positive, the remainder lies between 0 and the incoming quantity, and every resting order stays positive. |
| StockMarket.MatchTradesAtMakerPrices | stock-market-simulator.js:61-63 | Every trade is at the price of a resting order, and the queue gains no new price. |
| StockMarket.MatchTradesCrossLimit | stock-market-simulator.js:60 | A buyer never pays above its limit; a seller never receives below its limit. |
| StockMarket.MatchKeepsSorted | stock-market-simulator.js:64-67 | Matching keeps the opposite queue sorted. |
| StockMarket.MatchLoopStep | stock-market-simulator.js:60-68 | One turn of the loop keeps the loop invariant: the trades so far plus those still to come are the trades of the whole call. |
| StockMarket.EnqueueKeepsTimePriority | stock-market-simulator.js:11-12 | A re-enqueued order goes behind every order at its own or a better price, and ahead of every worse price. |
| StockMarket.SortedHeadIsBest | stock-market-simulator.js:19-21 | No price in a sorted queue beats the first one. |
| StockMarket.ProcessKeepsBookUncrossed | stock-market-simulator.js:56-94 | If the best bid was strictly below the best ask before `processOrder`, it still is after. |
| StockMarket.ProcessKeepsSorted | stock-market-simulator.js:56-94 | Both queues stay sorted. |
| StockMarket.ProcessKeepsQuantitiesPositive | stock-market-simulator.js:66-72 | No stored order ends with a quantity of 0 or less, and every trade is positive. |
| StockMarket.ProcessConservesQuantity | stock-market-simulator.js:62-72 | The incoming quantity equals what was traded plus what came to rest on its own side; the opposite side lost exactly what was traded. |
| StockMarket.ProcessIgnoresTicker | stock-market-simulator.js:57-60 | Two orders that differ only in ticker make the same trades against the same orders. |
| StockMarket.PriceTimePriorityExample | stock-market-simulator.js:56-72 | Two asks at one price fill in arrival order: SELL 10@100, SELL 5@100, BUY 12@100 trades 10 then 2 and leaves the second ask with 3. |
| StockMarket.Market.constructor | stock-market-simulator.js:35-36 | Two fresh, distinct, empty queues, ordered by `buyCompare` and `sellCompare`. |
| StockMarket.Market.ProcessOrder | stock-market-simulator.js:56-94 | The trades and both queues afterwards are exactly those `Process` gives for the old queues. |
| StockMarket.Fill | stock-market-simulator.js:60-68 | The matching loop makes exactly the trades, queue and remainder of `Match` on the old queue. |
| RestaurantOrders.ComparePriority | restaurant-order-management-system.js:65 | Has no `ensures`. `RestaurantOrders.ComparePriorityIsPreorder` proves it is a total preorder, and `RestaurantOrders.PriorityQueue.GetOrders` states the order it gives. |
| RestaurantOrders.ComparePriorityIsPreorder | restaurant-order-management-system.js:65 | The `getOrders` comparator is a total preorder. |
| RestaurantOrders.IndexOfId | restaurant-order-management-system.js:69 | `findIndex`: -1 exactly when no order has the id; otherwise the first position with it. |
| RestaurantOrders.RemovedAt | restaurant-order-management-system.js:72-74 | Removing the element at `k` shrinks the heap by one and removes exactly that element. |
| RestaurantOrders.RemoveByIdCanBreakHeapOrder | restaurant-order-management-system.js:72-74 | From the heap 1, 5, 2, 6, 7, 3, removing the order at position 3 leaves the array out of heap order. |
| RestaurantOrders.DequeueKeepsHeap | restaurant-order-management-system.js:35-38 | Removing the root keeps heap order, and the root has the minimum priority. |
| RestaurantOrders.PriorityQueue.constructor | restaurant-order-management-system.js:7-9 | A new queue is empty. |
| RestaurantOrders.PriorityQueue.Swap | restaurant-order-management-system.js:15-17 | The heap becomes the old heap with the two entries exchanged. |
| RestaurantOrders.PriorityQueue.Enqueue | restaurant-order-management-system.js:19-22 | The heap is the old one pushed and sifted up; it grows by one, gains exactly the order, and stays a heap. |
| RestaurantOrders.PriorityQueue.HeapifyUp | restaurant-order-management-system.js:24-29 | The loop computes the sift-up of `index`. |
| RestaurantOrders.PriorityQueue.Dequeue | restaurant-order-management-system.js:31-39 | `null` on an empty heap; otherwise the old root, leaving the root-removed heap; on a heap the result has minimum priority and the rest stays a heap. |
| RestaurantOrders.PriorityQueue.HeapifyDown | restaurant-order-management-system.js:41-58 | The recursion computes the sift-down of `index`. |
| RestaurantOrders.PriorityQueue.IsEmpty | restaurant-order-management-system.js:60-62 | True exactly when the heap holds no order. |
| RestaurantOrders.PriorityQueue.GetOrders | restaurant-order-management-system.js:64-66 | A permutation of the heap in ascending priority; the heap is not changed. |
| RestaurantOrders.PriorityQueue.RemoveById | restaurant-order-management-system.js:68-76 | An unknown id gives `false` and no change; otherwise `true`, and exactly the first order with the id is removed. |
| AirportCheckIn.ComparePriority | airport-check-in-system.js:72 | Has no `ensures`. `AirportCheckIn.ComparePriorityIsPreorder` proves it is a total preorder, and `AirportCheckIn.PriorityQueue.GetQueue` states the order it gives. |
| AirportCheckIn.PriorityMapping | airport-check-in-system.js:76-80 | A constant: First Class 1, Business Class 2, Economy Class 3. `AirportCheckIn.CheckInPriority` and `AirportCheckIn.CheckInPriorityExamples` state what it gives. |
| AirportCheckIn.ComparePriorityIsPreorder | airport-check-in-system.js:72 | The `getQueue` comparator is a total preorder. |
| AirportCheckIn.ToLower | airport-check-in-system.js:141 | Lowers every character in place and keeps the length. |
| AirportCheckIn.LowerChar | airport-check-in-system.js:141 | An upper-case ASCII letter becomes the lower-case letter 32 code points above it; every other character is kept. |
| AirportCheckIn.LowerIsNone | airport-check-in-system.js:141 | `special.toLowerCase() === "none"` holds exactly for the sixteen case spellings of "none". |
| AirportCheckIn.CheckInPriority | airport-check-in-system.js:135-143 | An unknown class is rejected; otherwise the priority is the class's priority, less one exactly when the special answer is not "none", and lies in 0..3. |
| AirportCheckIn.CheckInPriorityExamples | airport-check-in-system.js:76-80 | First Class with VIP gives 0, Economy with "None" gives 3, Economy with "Elderly" gives 2, and "first class" is rejected. |
| AirportCheckIn.DequeueKeepsHeap | airport-check-in-system.js:44-47 | Removing the root keeps heap order, and the root has the minimum priority. |
| AirportCheckIn.PriorityQueue.constructor | airport-check-in-system.js:7-9 | A new queue is empty. |
| AirportCheckIn.PriorityQueue.Swap | airport-check-in-system.js:11-13 | The heap becomes the old heap with the two entries exchanged. |
| AirportCheckIn.PriorityQueue.Enqueue | airport-check-in-system.js:27-30 | Push then sift-up: the heap grows by one, gains exactly the passenger, and stays a heap. |
| AirportCheckIn.PriorityQueue.HeapifyUp | airport-check-in-system.js:32-38 | The loop from the last index computes the sift-up of that index. |
| AirportCheckIn.PriorityQueue.Dequeue | airport-check-in-system.js:40-48 | `null` when empty; otherwise the old root, leaving the root-removed heap; on a heap the result has minimum priority and the rest stays a heap. |
| AirportCheckIn.PriorityQueue.HeapifyDown | airport-check-in-system.js:50-65 | The recursion computes the sift-down of `index`. |
| AirportCheckIn.PriorityQueue.IsEmpty | airport-check-in-system.js:67-69 | True exactly when the heap holds no passenger. |
| AirportCheckIn.PriorityQueue.GetQueue | airport-check-in-system.js:71-73 | A permutation of the heap in ascending priority; the heap is not changed. |
| AirportCheckIn.AddPassenger | airport-check-in-system.js:132-147 | An unknown class is turned away with the queue unchanged; otherwise the passenger is enqueued with the computed priority, and the queue stays a heap. |
| HotelBooking.SiVIP | hotel-booking-system.js:60 | Has no `ensures`. `b.siVIP` is `undefined` for every reservation, so this is false for every reservation; `HotelBooking.CompareIsNotPreorder` depends on that. |
| HotelBooking.Compare | hotel-booking-system.js:58-62 | Has no `ensures`. With the typo the second branch never fires. `HotelBooking.CompareIsNotPreorder` proves it is not a total preorder, and `HotelBooking.CompareOnSameStatus` proves it is the date order among guests of one status. |
| HotelBooking.CompareIsNotPreorder | hotel-booking-system.js:58-62 | A non-VIP on day 1 and a VIP on day 2 each sort before the other, so `compare` is not a total preorder. |
| HotelBooking.DateCompareIsPreorder | hotel-booking-system.js:61 | Ordering by check-in date is a total preorder. |
| HotelBooking.CompareOnSameStatus | hotel-booking-system.js:58-62 | Among guests who are all VIP or all not VIP, `compare` is the check-in-date order. |
| HotelBooking.SortedByDate | hotel-booking-system.js:64-66 | The sorted copy of such guests is in check-in-date order. |
| HotelBooking.IndexOfName | hotel-booking-system.js:172 | `findIndex`: -1 exactly when no reservation has the name; otherwise the first position with it. |
| HotelBooking.InsertKeepsHeap | hotel-booking-system.js:17-29 | Among guests of one status, insertion keeps heap order. |
| HotelBooking.ExtractKeepsHeap | hotel-booking-system.js:31-56 | Among guests of one status, the root has the earliest check-in date, and removing it keeps heap order. |
| HotelBooking.FoundInHeap | hotel-booking-system.js:171-172 | A name found in the sorted copy belongs to some reservation in the heap. |
| HotelBooking.MinHeap.constructor | hotel-booking-system.js:5-7 | A new heap is empty. |
| HotelBooking.MinHeap.Swap | hotel-booking-system.js:13-15 | The heap becomes the old heap with the two entries exchanged. |
| HotelBooking.MinHeap.Insert | hotel-booking-system.js:17-20 | Push then sift-up: the heap grows by one, gains exactly the reservation, and among guests of one status stays a heap. |
| HotelBooking.MinHeap.HeapifyUp | hotel-booking-system.js:22-29 | The loop over `index` and `parentIndex` computes the sift-up of `index`. |
| HotelBooking.MinHeap.ExtractMin | hotel-booking-system.js:31-39 | `null` on an empty heap; otherwise the old root, leaving the root-removed heap; among guests of one status the result has the earliest date and the rest stays a heap. |
| HotelBooking.MinHeap.HeapifyDown | hotel-booking-system.js:41-56 | The recursion computes the sift-down of `index` under `compare`. |
| HotelBooking.MinHeap.GetReservations | hotel-booking-system.js:64-66 | A permutation of the heap; the heap is not changed. |
| HotelBooking.MinHeap.IsEmpty | hotel-booking-system.js:68-70 | `this.heap.lenght === 0` is never true, whatever the heap holds. |
| HotelBooking.GetReservationsByDate | hotel-booking-system.js:64-66 | Among guests of one status, `getReservations` lists them by check-in date. |
| HotelBooking.CancelReservation | hotel-booking-system.js:171-177 | An unknown name changes nothing; otherwise the heap loses exactly the element at the name's index in the sorted copy, and some reservation has that name. |
| HotelBooking.InsertCAB | hotel-booking-system.js:17-29 | Inserting guests C (day 3), A (day 1) and B (day 2) leaves the heap array as A, C, B. |
| HotelBooking.SortACB | hotel-booking-system.js:64-66 | The sorted copy of A, C, B is A, B, C. |
| HotelBooking.CancelCanRemoveAnotherGuest | hotel-booking-system.js:171-177 | Cancelling B then splices out position 1 of the array, which holds C: another guest's reservation is removed. |
| Atm.Invalid | atm-simulation.js:82 | Has no `ensures`. It is the amount test (NaN, or not positive), which lines 98 and 124 repeat. `Atm.Session.Deposit`, `Atm.Session.Withdraw` and `Atm.Session.Transfer` state their outcomes through it. |
| Atm.FindAccount | atm-simulation.js:54 | `users.find`: -1 exactly when no user has the number; otherwise the first user with it. |
| Atm.Adjusted | atm-simulation.js:86 | One balance moves by exactly `delta`; every other user and that user's other fields are unchanged, and the total moves by `delta`. |
| Atm.TransferPreservesTotal | atm-simulation.js:128-129 | Debiting one account and crediting another, possibly the same one, leaves the sum of all balances unchanged. |
| Atm.SelfTransferChangesNothing | atm-simulation.js:128-129 | A transfer to oneself leaves the user table exactly as it was. |
| Atm.LastFive | atm-simulation.js:141 | `slice(-5)`: the last five entries, or all of them when there are fewer. |
| Atm.Session.constructor | atm-simulation.js:11-12 | Nobody is logged in and the history is empty. |
| Atm.Session.Login | atm-simulation.js:53-69 | An unknown account or a wrong PIN leaves the session unchanged; a matching PIN logs in the first user with that number. |
| Atm.Session.Deposit | atm-simulation.js:80-88 | An amount that is NaN or not positive is refused with no change; otherwise the balance grows by exactly the amount and one entry is appended. |
| Atm.Session.Withdraw | atm-simulation.js:96-108 | An amount that is NaN, not positive, or above the balance is refused with no change; otherwise the balance drops by exactly the amount and stays non-negative. |
| Atm.Session.Transfer | atm-simulation.js:116-131 | An unknown recipient or an invalid amount is refused with no change; otherwise sender and recipient move by the amount, the total is unchanged, and one entry is appended. |
| Atm.Session.MiniStatement | atm-simulation.js:141 | The last five history entries, in order: exactly five when there are at least five, otherwise the whole history. |
| Atm.Session.Logout | atm-simulation.js:146-150 | Nobody is logged in, the history is empty, and the user table is kept. |
| TrafficLight.STATES | traffic-light-simulation.js:6 | A constant: RED, GREEN, YELLOW, in cycle order. `TrafficLight.SuccessorCycle` proves the cycle it gives. |
| TrafficLight.IndexOf | traffic-light-simulation.js:23 | Every color is listed in `STATES` at the returned index. |
| TrafficLight.Successor | traffic-light-simulation.js:23-24 | The next color is one of `STATES` and differs from the current one. |
| TrafficLight.SuccessorCycle | traffic-light-simulation.js:23-24 | RED goes to GREEN, GREEN to YELLOW, and YELLOW to RED. |
| TrafficLight.AdvancePeriodic | traffic-light-simulation.js:22-27 | Three changes bring the light back to where it was. |
| TrafficLight.Statistics.Default | traffic-light-simulation.js:60 | The default statistics are all zero. |
| TrafficLight.Statistics.Count | traffic-light-simulation.js:25 | Has no `ensures`. It reads `statistics[color]`, and the contracts of `TrafficLight.Statistics.Increment` and `TrafficLight.Light.NextState` are stated through it. |
| TrafficLight.Statistics.Increment | traffic-light-simulation.js:25 | Exactly one color's counter grows by one; the others and the pedestrian counter are unchanged. |
| TrafficLight.Light.constructor | traffic-light-simulation.js:17-20 | A new light is RED and not running. |
| TrafficLight.Light.NextState | traffic-light-simulation.js:22-27 | The light moves to the successor color; only the new color's counter grows, by one. |
| TrafficLight.Light.StopAutoMode | traffic-light-simulation.js:39-42 | `running` becomes false and the color is unchanged. |
| TrafficLight.Light.PedestrianCrossing | traffic-light-simulation.js:44-49 | The light becomes RED from any color; only the pedestrian counter grows, and the RED counter does not. |

## Left out

- Menus, prompts, `console.log` output, and the re-prompting of invalid input are left out: they are interactive I/O. Each refusal is returned as a result instead.
- JSON loading and saving in every program is left out, because it is file I/O. This includes:
  - the statistics file, which may lack keys;
  - the user table read at ATM start-up, which becomes the constructor's argument.
- The traffic light's `autoMode`, `sleep` and the `setTimeout` menu re-entry are left out: they are timers and concurrency. Only the `running` flag is kept.
- The traffic statistics object is a global in the program. Here it is passed to the methods as a parameter.
- Float arithmetic and number parsing are left out.
  - Prices, quantities and priorities are unbounded integers.
  - ATM balances and amounts are exact reals.
  - A NaN amount is an explicit `NaN` value, and only for the ATM.
  - A NaN or non-numeric price at the stock simulator is not modelled.
- The hotel parses `new Date(checkInDate)`. Here the check-in date is an integer day number.
- The restaurant's `Date.now()` ids become an ordinary field set by the caller.
- The ATM history holds structured entries instead of the formatted strings the program pushes.
- `toLowerCase` lowers only ASCII letters here. Other Unicode case mappings are not modelled.
- `priorityMapping[ticketClass]` is modelled as a lookup in three keys. Inherited object keys such as "toString", which a JavaScript object also answers, are not modelled.
- The hotel's `processReservation` calls `extractMin` only when `isEmpty()` is false, which is always. So on an empty heap it logs a property of `null` and crashes. The crash is not modelled; `ExtractMin` returns `None` there.
- StockMarket.Fill: the program writes the matching loop twice, once per side. Here a single method, parameterised by the incoming side, covers both loops, and `ProcessOrder` calls it with the matching queue.
- HotelBooking.MinHeap.GetReservations: its contract does not say the copy is sorted. `compare` is not a consistent comparator, and the order `Array.prototype.sort` gives for an inconsistent comparator is implementation-defined. The model sorts by stable insertion, and sortedness is proved only among guests of one status (`HotelBooking.GetReservationsByDate`).
- HotelBooking.MinHeap.Insert: heap order is promised only when all guests share one VIP status, for the same reason.
- HotelBooking.MinHeap.ExtractMin: heap order and the earliest date are promised only when all guests share one VIP status.
- RestaurantOrders.PriorityQueue.RemoveById: no heap-order promise, because the code can break heap order (`RestaurantOrders.RemoveByIdCanBreakHeapOrder`).
- Aliasing of the ATM's logged-in user object is modelled as an index into the user table.
