/**
 * `Array.prototype.sort(compareFn)`, which every queue of the repository calls.
 *
 * A comparator returns a negative number when its first argument goes first.
 * Since ECMAScript 2019 the sort is stable, so it is modelled as a stable
 * insertion sort: `SortBy` inserts the elements one after the other, each one
 * behind every element it is not strictly smaller than.
 */
module Sorting {

  /** The comparator is consistent: the sign of `cmp(a, b)` is the opposite of
      the sign of `cmp(b, a)`, and "goes no later than" (`<= 0`) is transitive. */
  ghost predicate TotalPreorder<T(!new)>(cmp: (T, T) -> int) {
    (forall a, b :: cmp(a, b) < 0 <==> cmp(b, a) > 0) &&
    (forall a, b, c :: cmp(a, b) <= 0 && cmp(b, c) <= 0 ==> cmp(a, c) <= 0)
  }

  /** Every element goes no later than each element behind it. */
  ghost predicate SortedBy<T(!new)>(cmp: (T, T) -> int, s: seq<T>) {
    forall i, j :: 0 <= i < j < |s| ==> cmp(s[i], s[j]) <= 0
  }

  /** Places `x` in front of the first element it is strictly smaller than. */
  function InsertBy<T(!new)>(cmp: (T, T) -> int, s: seq<T>, x: T): (r: seq<T>)
    ensures |r| == |s| + 1
    ensures multiset(r) == multiset(s) + multiset{x}
  {
    if s == [] then [x]
    else if cmp(x, s[0]) < 0 then [x] + s
    else
      assert s == [s[0]] + s[1..];
      [s[0]] + InsertBy(cmp, s[1..], x)
  }

  /** The position at which `InsertBy` places `x`. */
  function InsertPos<T(!new)>(cmp: (T, T) -> int, s: seq<T>, x: T): (k: nat)
    ensures k <= |s|
  {
    if s == [] || cmp(x, s[0]) < 0 then 0 else 1 + InsertPos(cmp, s[1..], x)
  }

  /** The stable sort: a permutation of its input. */
  function SortBy<T(!new)>(cmp: (T, T) -> int, s: seq<T>): (r: seq<T>)
    ensures |r| == |s|
    ensures multiset(r) == multiset(s)
  {
    if s == [] then []
    else
      assert s == s[..|s| - 1] + [s[|s| - 1]];
      InsertBy(cmp, SortBy(cmp, s[..|s| - 1]), s[|s| - 1])
  }

  lemma LessIsAtMost<T(!new)>(cmp: (T, T) -> int, a: T, b: T)
    requires TotalPreorder(cmp)
    ensures cmp(a, b) <= 0 <==> !(cmp(b, a) < 0)
  {
  }

  /** Inserting into a sorted sequence keeps it sorted. */
  lemma {:induction false} InsertBySorted<T(!new)>(cmp: (T, T) -> int, s: seq<T>, x: T)
    requires TotalPreorder(cmp)
    requires SortedBy(cmp, s)
    ensures SortedBy(cmp, InsertBy(cmp, s, x))
  {
    if s == [] {
    } else if cmp(x, s[0]) < 0 {
      forall j | 0 <= j < |s| ensures cmp(x, s[j]) <= 0 {
        assert cmp(s[0], s[j]) <= 0 || j == 0;
      }
    } else {
      var tail := s[1..];
      InsertBySorted(cmp, tail, x);
      var rest := InsertBy(cmp, tail, x);
      LessIsAtMost(cmp, s[0], x);
      forall j | 0 <= j < |rest| ensures cmp(s[0], rest[j]) <= 0 {
        assert rest[j] in multiset(rest);
        assert rest[j] in multiset(tail) || rest[j] == x;
        if rest[j] != x {
          var i :| 0 <= i < |tail| && tail[i] == rest[j];
          assert s[i + 1] == rest[j];
        }
      }
    }
  }

  /** The stable sort yields a sorted sequence. */
  lemma {:induction false} SortBySorted<T(!new)>(cmp: (T, T) -> int, s: seq<T>)
    requires TotalPreorder(cmp)
    ensures SortedBy(cmp, SortBy(cmp, s))
  {
    if s != [] {
      SortBySorted(cmp, s[..|s| - 1]);
      InsertBySorted(cmp, SortBy(cmp, s[..|s| - 1]), s[|s| - 1]);
    }
  }

  /** An element no earlier element is greater than goes to the end. */
  lemma {:induction false} InsertByAtEnd<T(!new)>(cmp: (T, T) -> int, s: seq<T>, x: T)
    requires TotalPreorder(cmp)
    requires forall i :: 0 <= i < |s| ==> cmp(s[i], x) <= 0
    ensures InsertBy(cmp, s, x) == s + [x]
  {
    if s != [] {
      LessIsAtMost(cmp, s[0], x);
      InsertByAtEnd(cmp, s[1..], x);
      assert s == [s[0]] + s[1..];
    }
  }

  /** A sorted sequence without its last element is sorted, and that element
      goes no earlier than any other. */
  lemma SortedSplitLast<T(!new)>(cmp: (T, T) -> int, init: seq<T>, last: T)
    requires SortedBy(cmp, init + [last])
    ensures SortedBy(cmp, init)
    ensures forall i :: 0 <= i < |init| ==> cmp(init[i], last) <= 0
  {
    var s := init + [last];
    assert forall i :: 0 <= i < |init| ==> s[i] == init[i];
    assert s[|init|] == last;
  }

  /** Sorting a sequence that is already sorted changes nothing. */
  lemma {:induction false} SortBySortedIsIdentity<T(!new)>(cmp: (T, T) -> int, s: seq<T>)
    requires TotalPreorder(cmp)
    requires SortedBy(cmp, s)
    ensures SortBy(cmp, s) == s
  {
    if s != [] {
      var init, last := s[..|s| - 1], s[|s| - 1];
      assert init + [last] == s;
      SortedSplitLast(cmp, init, last);
      SortBySortedIsIdentity(cmp, init);
      InsertByAtEnd(cmp, init, last);
    }
  }

  /** Sorting after an append is inserting into the sorted sequence. */
  lemma SortByAppend<T(!new)>(cmp: (T, T) -> int, s: seq<T>, x: T)
    ensures SortBy(cmp, s + [x]) == InsertBy(cmp, SortBy(cmp, s), x)
  {
    assert (s + [x])[..|s|] == s;
  }

  /** `InsertBy` puts `x` at `InsertPos`. */
  lemma {:induction false} InsertBySplit<T(!new)>(cmp: (T, T) -> int, s: seq<T>, x: T)
    ensures var k := InsertPos(cmp, s, x); InsertBy(cmp, s, x) == s[..k] + [x] + s[k..]
  {
    if s == [] {
      assert s[..0] + [x] + s[0..] == [x];
    } else if cmp(x, s[0]) < 0 {
      assert InsertPos(cmp, s, x) == 0;
      assert s[..0] == [] && s[0..] == s;
    } else {
      var tail := s[1..];
      InsertBySplit(cmp, tail, x);
      var k := InsertPos(cmp, tail, x);
      assert InsertPos(cmp, s, x) == k + 1;
      assert InsertBy(cmp, s, x) == [s[0]] + InsertBy(cmp, tail, x);
      SplitCons(s, k, x);
    }
  }

  /** Splitting the tail at `k` is splitting the whole at `k + 1`. */
  lemma SplitCons<T>(s: seq<T>, k: nat, x: T)
    requires s != [] && k <= |s| - 1
    ensures [s[0]] + (s[1..][..k] + [x] + s[1..][k..]) == s[..k + 1] + [x] + s[k + 1..]
  {
    assert s[..k + 1] == [s[0]] + s[1..][..k];
    assert s[k + 1..] == s[1..][k..];
  }

  /** `InsertPos` is behind every element `x` is not strictly smaller than, up
      to the first one it is. */
  lemma {:induction false} InsertPosBounds<T(!new)>(cmp: (T, T) -> int, s: seq<T>, x: T)
    ensures var k := InsertPos(cmp, s, x);
      (forall i :: 0 <= i < k ==> !(cmp(x, s[i]) < 0)) &&
      (k < |s| ==> cmp(x, s[k]) < 0)
  {
    if s != [] && cmp(x, s[0]) >= 0 {
      var tail := s[1..];
      InsertPosBounds(cmp, tail, x);
      forall i | 1 <= i < InsertPos(cmp, s, x) ensures !(cmp(x, s[i]) < 0) {
        assert s[i] == tail[i - 1];
      }
    }
  }

  /** `InsertBy` splits a sorted `s` at `InsertPos`: every element in front of
      `x` goes no later than `x` (so elements equal to `x` stay ahead of it),
      and `x` is strictly smaller than every element behind it. */
  lemma InsertByDecomposition<T(!new)>(cmp: (T, T) -> int, s: seq<T>, x: T)
    requires TotalPreorder(cmp)
    requires SortedBy(cmp, s)
    ensures var k := InsertPos(cmp, s, x);
      InsertBy(cmp, s, x) == s[..k] + [x] + s[k..] &&
      (forall i :: 0 <= i < k ==> cmp(s[i], x) <= 0) &&
      (forall i :: k <= i < |s| ==> cmp(x, s[i]) < 0)
  {
    InsertBySplit(cmp, s, x);
    InsertPosBounds(cmp, s, x);
    var k := InsertPos(cmp, s, x);
    forall i | 0 <= i < k ensures cmp(s[i], x) <= 0 {
      LessIsAtMost(cmp, s[i], x);
    }
    forall i | k <= i < |s| ensures cmp(x, s[i]) < 0 {
      assert k < i ==> cmp(s[k], s[i]) <= 0;
    }
  }

  /** Two comparators that give the same answer on every pair of elements of `s`. */
  ghost predicate AgreeOn<T(!new)>(c1: (T, T) -> int, c2: (T, T) -> int, s: seq<T>) {
    forall a, b :: a in s && b in s ==> c1(a, b) == c2(a, b)
  }

  /** Comparators that agree on the elements sort them alike. */
  lemma {:induction false} InsertByAgrees<T(!new)>(c1: (T, T) -> int, c2: (T, T) -> int, s: seq<T>, x: T)
    requires AgreeOn(c1, c2, s + [x])
    ensures InsertBy(c1, s, x) == InsertBy(c2, s, x)
  {
    if s != [] {
      assert s[0] in s + [x] && x in s + [x];
      assert AgreeOn(c1, c2, s[1..] + [x]) by {
        forall a | a in s[1..] + [x] ensures a in s + [x] {
        }
      }
      InsertByAgrees(c1, c2, s[1..], x);
    }
  }

  lemma {:induction false} SortByAgrees<T(!new)>(c1: (T, T) -> int, c2: (T, T) -> int, s: seq<T>)
    requires AgreeOn(c1, c2, s)
    ensures SortBy(c1, s) == SortBy(c2, s)
  {
    if s != [] {
      var init, last := s[..|s| - 1], s[|s| - 1];
      assert s == init + [last];
      assert AgreeOn(c1, c2, init) by {
        forall a | a in init ensures a in s {
        }
      }
      SortByAgrees(c1, c2, init);
      var sorted := SortBy(c1, init);
      assert AgreeOn(c1, c2, sorted + [last]) by {
        forall a | a in sorted + [last] ensures a in s {
          if a in sorted {
            assert a in multiset(sorted);
          }
        }
      }
      InsertByAgrees(c1, c2, sorted, last);
    }
  }
}
