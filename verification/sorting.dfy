/** Python's `sorted(items, key=key, reverse=reverse)`: a stable sort on an
    integer key, ascending or descending. With `reverse=True` Python still
    keeps elements with equal keys in their input order. */
module Sorting {

  /** `a` belongs strictly earlier than `b` in the requested direction. */
  predicate Before(a: int, b: int, reverse: bool) {
    if reverse then a > b else a < b
  }

  /** No element belongs strictly earlier than one that precedes it. */
  ghost predicate SortedBy<T>(s: seq<T>, key: T -> int, reverse: bool) {
    forall i, j | 0 <= i < j < |s| :: !Before(key(s[j]), key(s[i]), reverse)
  }

  /** The elements of `s` whose key is `k`, in their order in `s`. */
  function WithKey<T>(s: seq<T>, key: T -> int, k: int): seq<T>
  {
    if |s| == 0 then []
    else (if key(s[0]) == k then [s[0]] else []) + WithKey(s[1..], key, k)
  }

  /** Equal-key elements that are ranked increasingly by `rank` in their
      order of appearance. */
  ghost predicate TieRanked<T>(s: seq<T>, key: T -> int, rank: T -> int) {
    forall i, j | 0 <= i < j < |s| && key(s[i]) == key(s[j]) :: rank(s[i]) < rank(s[j])
  }

  lemma {:induction false} WithKeyAppend<T>(a: seq<T>, b: seq<T>, key: T -> int, k: int)
    ensures WithKey(a + b, key, k) == WithKey(a, key, k) + WithKey(b, key, k)
    decreases |a|
  {
    if |a| > 0 {
      WithKeyAppend(a[1..], b, key, k);
      assert (a + b)[0] == a[0];
      assert (a + b)[1..] == a[1..] + b;
    } else {
      assert a + b == b;
    }
  }

  lemma {:induction false} WithKeyNone<T>(s: seq<T>, key: T -> int, k: int)
    requires forall i | 0 <= i < |s| :: key(s[i]) != k
    ensures WithKey(s, key, k) == []
    decreases |s|
  {
    if |s| > 0 {
      WithKeyNone(s[1..], key, k);
    }
  }

  /** Places `x` after every element of `s` that does not belong strictly
      after it: the step of a stable insertion sort. */
  function Insert<T>(x: T, s: seq<T>, key: T -> int, reverse: bool): (r: seq<T>)
    ensures multiset(r) == multiset(s) + multiset{x}
    decreases |s|
  {
    if |s| == 0 then [x]
    else if Before(key(x), key(s[0]), reverse) then [x] + s
    else
      assert s == [s[0]] + s[1..];
      [s[0]] + Insert(x, s[1..], key, reverse)
  }

  /** Inserting into a sorted sequence keeps it sorted. */
  lemma {:induction false} InsertSorted<T>(x: T, s: seq<T>, key: T -> int, reverse: bool)
    requires SortedBy(s, key, reverse)
    ensures SortedBy(Insert(x, s, key, reverse), key, reverse)
    decreases |s|
  {
    if |s| > 0 && !Before(key(x), key(s[0]), reverse) {
      var rest := Insert(x, s[1..], key, reverse);
      SortedTail(s, key, reverse);
      InsertSorted(x, s[1..], key, reverse);
      HeadLeadsInsert(x, s, rest, key, reverse);
      InsertAfterHead(x, s, key, reverse);
      ConsSorted(s[0], rest, key, reverse);
    }
  }

  /** The head of a sorted `s` that `x` does not belong before may lead
      anything built from the tail and `x`. */
  lemma HeadLeadsInsert<T>(x: T, s: seq<T>, rest: seq<T>, key: T -> int, reverse: bool)
    requires SortedBy(s, key, reverse) && |s| > 0 && !Before(key(x), key(s[0]), reverse)
    requires multiset(rest) == multiset(s[1..]) + multiset{x}
    ensures forall j | 0 <= j < |rest| :: !Before(key(rest[j]), key(s[0]), reverse)
  {
    forall j | 0 <= j < |rest|
      ensures !Before(key(rest[j]), key(s[0]), reverse)
    {
      assert rest[j] in multiset(rest);
      if rest[j] != x {
        assert rest[j] in multiset(s[1..]);
        var i :| 0 <= i < |s[1..]| && s[1..][i] == rest[j];
        assert s[i + 1] == rest[j];
      }
    }
  }

  /** A sorted sequence stays sorted under a head that may lead all of it. */
  lemma ConsSorted<T>(h: T, s: seq<T>, key: T -> int, reverse: bool)
    requires SortedBy(s, key, reverse)
    requires forall j | 0 <= j < |s| :: !Before(key(s[j]), key(h), reverse)
    ensures SortedBy([h] + s, key, reverse)
  {
    var t := [h] + s;
    forall i, j | 0 <= i < j < |t|
      ensures !Before(key(t[j]), key(t[i]), reverse)
    {
      assert t[j] == s[j - 1];
      if i > 0 {
        assert t[i] == s[i - 1];
      }
    }
  }

  lemma SortedTail<T>(s: seq<T>, key: T -> int, reverse: bool)
    requires SortedBy(s, key, reverse) && |s| > 0
    ensures SortedBy(s[1..], key, reverse)
  {
    forall i, j | 0 <= i < j < |s| - 1
      ensures !Before(key(s[1..][j]), key(s[1..][i]), reverse)
    {
      assert s[1..][j] == s[j + 1] && s[1..][i] == s[i + 1];
    }
  }

  /** Inserting `x` keeps every group of equal keys in order, with `x`
      last in its own group. */
  lemma {:induction false} InsertStable<T>(x: T, s: seq<T>, key: T -> int, reverse: bool, k: int)
    requires SortedBy(s, key, reverse)
    ensures WithKey(Insert(x, s, key, reverse), key, k) == WithKey(s, key, k) + WithKey([x], key, k)
    decreases |s|
  {
    if |s| == 0 {
      assert Insert(x, s, key, reverse) == [x];
    } else if Before(key(x), key(s[0]), reverse) {
      InsertFrontStable(x, s, key, reverse);
      InsertBeforeHead(x, s, key, reverse, k);
    } else {
      SortedTail(s, key, reverse);
      InsertStable(x, s[1..], key, reverse, k);
      InsertAfterHead(x, s, key, reverse);
      WithKeyConsHead(x, s, Insert(x, s[1..], key, reverse), key, k);
    }
  }

  lemma InsertBeforeHead<T>(x: T, s: seq<T>, key: T -> int, reverse: bool, k: int)
    requires |s| > 0 && Before(key(x), key(s[0]), reverse)
    requires WithKey(s, key, key(x)) == []
    ensures WithKey(Insert(x, s, key, reverse), key, k) == WithKey(s, key, k) + WithKey([x], key, k)
  {
    assert Insert(x, s, key, reverse) == [x] + s;
    WithKeyAppend([x], s, key, k);
  }

  lemma InsertAfterHead<T>(x: T, s: seq<T>, key: T -> int, reverse: bool)
    requires |s| > 0 && !Before(key(x), key(s[0]), reverse)
    ensures Insert(x, s, key, reverse) == [s[0]] + Insert(x, s[1..], key, reverse)
  {
  }

  /** Putting the head of `s` back in front of a sequence that holds the
      groups of the tail followed by `x` gives the groups of `s` followed
      by `x`. */
  lemma WithKeyConsHead<T>(x: T, s: seq<T>, rest: seq<T>, key: T -> int, k: int)
    requires |s| > 0
    requires WithKey(rest, key, k) == WithKey(s[1..], key, k) + WithKey([x], key, k)
    ensures WithKey([s[0]] + rest, key, k) == WithKey(s, key, k) + WithKey([x], key, k)
  {
    WithKeyAppend([s[0]], rest, key, k);
    WithKeyAppend([s[0]], s[1..], key, k);
    assert [s[0]] + s[1..] == s;
  }

  /** When `x` belongs strictly before the head of a sorted `s`, no element
      of `s` shares its key. */
  lemma InsertFrontStable<T>(x: T, s: seq<T>, key: T -> int, reverse: bool)
    requires SortedBy(s, key, reverse) && |s| > 0
    requires Before(key(x), key(s[0]), reverse)
    ensures WithKey(s, key, key(x)) == []
  {
    assert forall i | 0 <= i < |s| :: key(s[i]) != key(x) by {
      forall i | 0 <= i < |s|
        ensures key(s[i]) != key(x)
      {
        if i > 0 {
          assert !Before(key(s[i]), key(s[0]), reverse);
        }
      }
    }
    WithKeyNone(s, key, key(x));
  }

  /** Insertion sort, inserting the elements from left to right. Its
      order and stability are stated by `SortSorted` and `SortStable`. */
  function Sort<T>(s: seq<T>, key: T -> int, reverse: bool): (r: seq<T>)
    ensures multiset(r) == multiset(s)
    decreases |s|
  {
    if |s| == 0 then []
    else
      var init, x := s[..|s| - 1], s[|s| - 1];
      assert s == init + [x];
      Insert(x, Sort(init, key, reverse), key, reverse)
  }

  /** The insertion sort of a non-empty sequence inserts its last element
      into the sorted rest. */
  lemma SortLast<T>(s: seq<T>, key: T -> int, reverse: bool)
    requires |s| > 0
    ensures Sort(s, key, reverse) == Insert(s[|s| - 1], Sort(s[..|s| - 1], key, reverse), key, reverse)
  {
  }

  /** The result is ordered in the requested direction. */
  lemma {:induction false} SortSorted<T>(s: seq<T>, key: T -> int, reverse: bool)
    ensures SortedBy(Sort(s, key, reverse), key, reverse)
    decreases |s|
  {
    if |s| > 0 {
      var init := s[..|s| - 1];
      SortSorted(init, key, reverse);
      SortLast(s, key, reverse);
      InsertSorted(s[|s| - 1], Sort(init, key, reverse), key, reverse);
    }
  }

  /** Stability: each group of equal keys keeps its order. */
  lemma {:induction false} SortStable<T>(s: seq<T>, key: T -> int, reverse: bool, k: int)
    ensures WithKey(Sort(s, key, reverse), key, k) == WithKey(s, key, k)
    decreases |s|
  {
    if |s| > 0 {
      var init, x := s[..|s| - 1], s[|s| - 1];
      var sorted := Sort(init, key, reverse);
      calc {
        WithKey(Sort(s, key, reverse), key, k);
        { SortLast(s, key, reverse); }
        WithKey(Insert(x, sorted, key, reverse), key, k);
        { SortSorted(init, key, reverse); InsertStable(x, sorted, key, reverse, k); }
        WithKey(sorted, key, k) + WithKey([x], key, k);
        { SortStable(init, key, reverse, k); }
        WithKey(init, key, k) + WithKey([x], key, k);
        { WithKeyAppend(init, [x], key, k); assert s == init + [x]; }
        WithKey(s, key, k);
      }
    }
  }

  /** A key that occurs among the elements picked out by `WithKey`. */
  lemma {:induction false} WithKeySome<T>(s: seq<T>, key: T -> int, k: int)
    requires WithKey(s, key, k) != []
    ensures exists i | 0 <= i < |s| :: key(s[i]) == k
  {
    if forall i | 0 <= i < |s| :: key(s[i]) != k {
      WithKeyNone(s, key, k);
    }
  }

  /** Two sequences ordered by `key` that agree on every group of equal
      keys are empty together and, when not empty, share their first
      element and agree on the groups of their tails. */
  lemma StableSortStep<T>(r1: seq<T>, r2: seq<T>, key: T -> int, reverse: bool)
    requires SortedBy(r1, key, reverse) && SortedBy(r2, key, reverse)
    requires forall k :: WithKey(r1, key, k) == WithKey(r2, key, k)
    ensures |r1| == 0 <==> |r2| == 0
    ensures |r1| > 0 && |r2| > 0 ==>
      r1[0] == r2[0] && forall k :: WithKey(r1[1..], key, k) == WithKey(r2[1..], key, k)
  {
    if |r1| > 0 {
      assert WithKey(r2, key, key(r1[0])) != [] by {
        assert WithKey(r1, key, key(r1[0]))[0] == r1[0];
      }
      WithKeySome(r2, key, key(r1[0]));
    }
    if |r2| > 0 {
      assert WithKey(r1, key, key(r2[0])) != [] by {
        assert WithKey(r2, key, key(r2[0]))[0] == r2[0];
      }
      WithKeySome(r1, key, key(r2[0]));
    }
    if |r1| > 0 && |r2| > 0 {
      var k1 := key(r1[0]);
      assert k1 == key(r2[0]);
      assert r1[0] == WithKey(r1, key, k1)[0] == WithKey(r2, key, k1)[0] == r2[0];
      forall k
        ensures WithKey(r1[1..], key, k) == WithKey(r2[1..], key, k)
      {
        var p := if k == k1 then [r1[0]] else [];
        assert WithKey(r1, key, k) == p + WithKey(r1[1..], key, k);
        assert WithKey(r2, key, k) == p + WithKey(r2[1..], key, k);
        assert WithKey(r1[1..], key, k) == WithKey(r1, key, k)[|p|..];
        assert WithKey(r2[1..], key, k) == WithKey(r2, key, k)[|p|..];
      }
    }
  }

  /** A stable sort has exactly one possible outcome: two sequences ordered
      by `key` that agree on the order of every group of equal keys are
      the same sequence. So the contract of `Sort` determines its result. */
  lemma {:induction false} StableSortUnique<T>(r1: seq<T>, r2: seq<T>, key: T -> int, reverse: bool)
    requires SortedBy(r1, key, reverse) && SortedBy(r2, key, reverse)
    requires forall k :: WithKey(r1, key, k) == WithKey(r2, key, k)
    ensures r1 == r2
    decreases |r1|
  {
    StableSortStep(r1, r2, key, reverse);
    if |r1| > 0 {
      SortedTail(r1, key, reverse);
      SortedTail(r2, key, reverse);
      StableSortUnique(r1[1..], r2[1..], key, reverse);
      assert r1 == [r1[0]] + r1[1..] && r2 == [r2[0]] + r2[1..];
    }
  }

  lemma {:induction false} InsertTieRank<T>(x: T, s: seq<T>, key: T -> int, reverse: bool, rank: T -> int)
    requires SortedBy(s, key, reverse) && TieRanked(s, key, rank)
    requires forall i | 0 <= i < |s| && key(s[i]) == key(x) :: rank(s[i]) < rank(x)
    ensures TieRanked(Insert(x, s, key, reverse), key, rank)
    decreases |s|
  {
    if |s| == 0 {
      assert Insert(x, s, key, reverse) == [x];
    } else if Before(key(x), key(s[0]), reverse) {
      assert Insert(x, s, key, reverse) == [x] + s;
      FrontTieRank(x, s, key, reverse, rank);
    } else {
      var rest := Insert(x, s[1..], key, reverse);
      assert Insert(x, s, key, reverse) == [s[0]] + rest;
      SortedTail(s, key, reverse);
      assert TieRanked(s[1..], key, rank) by {
        forall i, j | 0 <= i < j < |s[1..]| && key(s[1..][i]) == key(s[1..][j])
          ensures rank(s[1..][i]) < rank(s[1..][j])
        {
          assert s[1..][i] == s[i + 1] && s[1..][j] == s[j + 1];
        }
      }
      InsertTieRank(x, s[1..], key, reverse, rank);
      ConsTieRank(x, s, rest, key, rank);
    }
  }

  lemma FrontTieRank<T>(x: T, s: seq<T>, key: T -> int, reverse: bool, rank: T -> int)
    requires SortedBy(s, key, reverse) && TieRanked(s, key, rank) && |s| > 0
    requires Before(key(x), key(s[0]), reverse)
    ensures TieRanked([x] + s, key, rank)
  {
    var r := [x] + s;
    forall i | 0 <= i < |s|
      ensures key(s[i]) != key(x)
    {
      if i > 0 {
        assert !Before(key(s[i]), key(s[0]), reverse);
      }
    }
    forall i, j | 0 <= i < j < |r| && key(r[i]) == key(r[j])
      ensures rank(r[i]) < rank(r[j])
    {
      assert r[j] == s[j - 1];
      if i == 0 {
        assert false;
      }
      assert r[i] == s[i - 1];
    }
  }

  lemma ConsTieRank<T>(x: T, s: seq<T>, rest: seq<T>, key: T -> int, rank: T -> int)
    requires |s| > 0 && TieRanked(s, key, rank) && TieRanked(rest, key, rank)
    requires forall i | 0 <= i < |s| && key(s[i]) == key(x) :: rank(s[i]) < rank(x)
    requires multiset(rest) == multiset(s[1..]) + multiset{x}
    ensures TieRanked([s[0]] + rest, key, rank)
  {
    var r := [s[0]] + rest;
    forall i, j | 0 <= i < j < |r| && key(r[i]) == key(r[j])
      ensures rank(r[i]) < rank(r[j])
    {
      assert r[j] == rest[j - 1];
      if i == 0 {
        assert rest[j - 1] in multiset(rest);
        if rest[j - 1] != x {
          assert rest[j - 1] in multiset(s[1..]);
          var m :| 0 <= m < |s[1..]| && s[1..][m] == rest[j - 1];
          assert s[m + 1] == r[j];
        }
      } else {
        assert r[i] == rest[i - 1];
      }
    }
  }

  /** Sorting keeps equal-key elements in increasing `rank` when they
      were so in the input: for a rank that orders the input, this is
      stability stated positionally. */
  lemma {:induction false} SortKeepsTieRank<T>(s: seq<T>, key: T -> int, reverse: bool, rank: T -> int)
    requires TieRanked(s, key, rank)
    ensures TieRanked(Sort(s, key, reverse), key, rank)
    decreases |s|
  {
    if |s| > 0 {
      var init, x := s[..|s| - 1], s[|s| - 1];
      assert TieRanked(init, key, rank) by {
        forall i, j | 0 <= i < j < |init| && key(init[i]) == key(init[j])
          ensures rank(init[i]) < rank(init[j])
        {
          assert init[i] == s[i] && init[j] == s[j];
        }
      }
      SortKeepsTieRank(init, key, reverse, rank);
      var sorted := Sort(init, key, reverse);
      forall i | 0 <= i < |sorted| && key(sorted[i]) == key(x)
        ensures rank(sorted[i]) < rank(x)
      {
        assert sorted[i] in multiset(init);
        var m :| 0 <= m < |init| && init[m] == sorted[i];
        assert s[m] == sorted[i];
      }
      SortSorted(init, key, reverse);
      SortLast(s, key, reverse);
      InsertTieRank(x, sorted, key, reverse, rank);
    }
  }

  /** Sum of the weights `w` of the elements of `s`. */
  function SumBy<T>(s: seq<T>, w: T -> int): int
  {
    if |s| == 0 then 0 else w(s[0]) + SumBy(s[1..], w)
  }

  lemma {:induction false} SumByAppend<T>(a: seq<T>, b: seq<T>, w: T -> int)
    ensures SumBy(a + b, w) == SumBy(a, w) + SumBy(b, w)
    decreases |a|
  {
    if |a| == 0 {
      assert a + b == b;
    } else {
      assert (a + b)[0] == a[0];
      assert (a + b)[1..] == a[1..] + b;
      SumByAppend(a[1..], b, w);
    }
  }

  lemma {:induction false} InsertSum<T>(x: T, s: seq<T>, key: T -> int, reverse: bool, w: T -> int)
    ensures SumBy(Insert(x, s, key, reverse), w) == w(x) + SumBy(s, w)
    decreases |s|
  {
    if |s| == 0 {
      assert Insert(x, s, key, reverse) == [x];
    } else if Before(key(x), key(s[0]), reverse) {
      assert Insert(x, s, key, reverse) == [x] + s;
      assert ([x] + s)[1..] == s;
    } else {
      var rest := Insert(x, s[1..], key, reverse);
      assert Insert(x, s, key, reverse) == [s[0]] + rest;
      assert ([s[0]] + rest)[1..] == rest;
      InsertSum(x, s[1..], key, reverse, w);
    }
  }

  /** Sorting neither adds nor loses weight. */
  lemma {:induction false} SortKeepsSum<T>(s: seq<T>, key: T -> int, reverse: bool, w: T -> int)
    ensures SumBy(Sort(s, key, reverse), w) == SumBy(s, w)
    decreases |s|
  {
    if |s| > 0 {
      var init, x := s[..|s| - 1], s[|s| - 1];
      var sorted := Sort(init, key, reverse);
      calc {
        SumBy(Sort(s, key, reverse), w);
        { SortLast(s, key, reverse); }
        SumBy(Insert(x, sorted, key, reverse), w);
        { InsertSum(x, sorted, key, reverse, w); }
        w(x) + SumBy(sorted, w);
        { SortKeepsSum(init, key, reverse, w); }
        w(x) + SumBy(init, w);
        { SumByAppend(init, [x], w); assert [x][1..] == []; assert s == init + [x]; }
        SumBy(s, w);
      }
    }
  }
}
