/** The record transforms of `utils.py`: pure functions over the records
    a scan produces. */
module Utils {
  import opened Text
  import opened Seqs
  import opened Sorting
  import opened FsTree
  import opened Scanner

  // ---------------------------------------------------------------------
  // Filters

  /** `e.lower().lstrip('.')`: a requested extension in the form a
      record's extension takes. */
  function NormalizeExt(e: string): (n: string)
    ensures !StartsWithDot(n) && IsLower(n)
    ensures |n| <= |e| && n == Lower(e)[|e| - |n|..]
    ensures forall i | 0 <= i < |e| - |n| :: e[i] == '.'
  {
    var l := Lower(e);
    var n := LStripDots(l);
    assert n == l[|l| - |n|..];
    assert forall i | 0 <= i < |l| - |n| :: e[i] == '.' by {
      LowerKeepsDots(e);
    }
    n
  }

  /** `{e.lower().lstrip('.') for e in exts}`. */
  function NormalizeExts(exts: seq<string>): (r: set<string>)
    ensures forall i | 0 <= i < |exts| :: NormalizeExt(exts[i]) in r
    ensures forall e | e in r :: exists i | 0 <= i < |exts| :: e == NormalizeExt(exts[i])
  {
    set i | 0 <= i < |exts| :: NormalizeExt(exts[i])
  }

  function HasExtIn(wanted: set<string>): FileMeta -> bool {
    (m: FileMeta) => Lower(m.extension) in wanted
  }

  /** `filter_by_extensions`: the records whose lowered extension equals
      some normalized requested extension, in input order. */
  function FilterByExtensions(items: seq<FileMeta>, exts: seq<string>): (r: seq<FileMeta>)
    ensures IsFilterOf(r, items, HasExtIn(NormalizeExts(exts)))
    ensures forall m :: m in r <==>
              m in items && exists i | 0 <= i < |exts| :: Lower(m.extension) == NormalizeExt(exts[i])
  {
    Filter(items, HasExtIn(NormalizeExts(exts)))
  }

  function AtLeast(limit: real): FileMeta -> bool {
    (m: FileMeta) => m.sizeBytes as real >= limit
  }

  /** `max(0, min_kb) * 1024`, for an integer or fractional `min_kb`. */
  function SizeLimit(minKb: real): real {
    (if minKb < 0.0 then 0.0 else minKb) * 1024.0
  }

  /** `filter_larger_than`: the records of at least `max(0, min_kb)`
      kibibytes, in input order. */
  function FilterLargerThan(items: seq<FileMeta>, minKb: real): (r: seq<FileMeta>)
    ensures IsFilterOf(r, items, AtLeast(SizeLimit(minKb)))
    ensures forall m :: m in r <==> m in items && m.sizeBytes as real >= (if minKb < 0.0 then 0.0 else minKb * 1024.0)
    ensures minKb <= 0.0 ==> r == items
  {
    if minKb <= 0.0 then
      FilterKeepsAll(items, AtLeast(SizeLimit(minKb)));
      Filter(items, AtLeast(SizeLimit(minKb)))
    else Filter(items, AtLeast(SizeLimit(minKb)))
  }

  function IsText(): FileMeta -> bool {
    (m: FileMeta) => m.isText
  }

  /** `only_text_files`: the text records, in input order. */
  function OnlyTextFiles(items: seq<FileMeta>): (r: seq<FileMeta>)
    ensures IsFilterOf(r, items, IsText())
    ensures forall m :: m in r <==> m in items && m.isText
  {
    Filter(items, IsText())
  }

  /** Applying a filter twice is applying it once. */
  lemma FiltersIdempotent(items: seq<FileMeta>, exts: seq<string>, minKb: real)
    ensures FilterByExtensions(FilterByExtensions(items, exts), exts) == FilterByExtensions(items, exts)
    ensures FilterLargerThan(FilterLargerThan(items, minKb), minKb) == FilterLargerThan(items, minKb)
    ensures OnlyTextFiles(OnlyTextFiles(items)) == OnlyTextFiles(items)
  {
    FilterIdempotent(items, HasExtIn(NormalizeExts(exts)));
    FilterIdempotent(items, AtLeast(SizeLimit(minKb)));
    FilterIdempotent(items, IsText());
  }

  // ---------------------------------------------------------------------
  // Sorting

  /** `sort_by(items, key_func, reverse)`: a stably sorted permutation. */
  function SortBy(items: seq<FileMeta>, key: FileMeta -> int, reverse: bool): (r: seq<FileMeta>)
    ensures multiset(r) == multiset(items)
    ensures SortedBy(r, key, reverse)
    ensures forall k :: WithKey(r, key, k) == WithKey(items, key, k)
  {
    var r := Sort(items, key, reverse);
    SortSorted(items, key, reverse);
    assert forall k :: WithKey(r, key, k) == WithKey(items, key, k) by {
      forall k
        ensures WithKey(r, key, k) == WithKey(items, key, k)
      {
        SortStable(items, key, reverse, k);
      }
    }
    r
  }

  /** The contract of `SortBy` leaves one possible answer: any ordering of
      the records that is sorted and keeps equal keys in input order is
      the one `sorted` returns. */
  lemma SortByDetermined(items: seq<FileMeta>, key: FileMeta -> int, reverse: bool, r: seq<FileMeta>)
    requires SortedBy(r, key, reverse)
    requires forall k :: WithKey(r, key, k) == WithKey(items, key, k)
    ensures r == SortBy(items, key, reverse)
  {
    var q := SortBy(items, key, reverse);
    StableSortUnique(r, q, key, reverse);
  }

  // ---------------------------------------------------------------------
  // Counting

  /** The key `count_by_extension` counts under: the extension, or "-"
      when it is empty. */
  function ExtKey(m: FileMeta): string {
    if m.extension == "" then "-" else m.extension
  }

  function KeysOf(items: seq<FileMeta>): (ks: seq<string>)
    ensures |ks| == |items|
    ensures forall i | 0 <= i < |items| :: ks[i] == ExtKey(items[i])
  {
    seq(|items|, i requires 0 <= i < |items| => ExtKey(items[i]))
  }

  /** Index of the first occurrence of `k` in `ks`. */
  function FirstIndex(ks: seq<string>, k: string): (i: nat)
    requires k in ks
    ensures i < |ks| && ks[i] == k
    ensures forall j | 0 <= j < i :: ks[j] != k
  {
    if ks[0] == k then 0 else 1 + FirstIndex(ks[1..], k)
  }

  /** The distinct keys of `ks` in order of first occurrence: the key
      order of a `Counter` built from `ks`. */
  function Distinct(ks: seq<string>): (d: seq<string>)
    ensures forall k :: k in d <==> k in ks
    ensures forall i, j | 0 <= i < j < |d| :: FirstIndex(ks, d[i]) < FirstIndex(ks, d[j])
    decreases |ks|
  {
    if |ks| == 0 then []
    else
      var init, x := ks[..|ks| - 1], ks[|ks| - 1];
      assert ks == init + [x];
      var d := Distinct(init);
      FirstIndexSnoc(init, x);
      if x in d then d else d + [x]
  }

  lemma FirstIndexSnoc(ks: seq<string>, x: string)
    ensures forall k | k in ks :: FirstIndex(ks + [x], k) == FirstIndex(ks, k)
    ensures x !in ks ==> FirstIndex(ks + [x], x) == |ks|
  {
    forall k | k in ks
      ensures FirstIndex(ks + [x], k) == FirstIndex(ks, k)
    {
      var i, j := FirstIndex(ks + [x], k), FirstIndex(ks, k);
      assert (ks + [x])[j] == k;
    }
    if x !in ks {
      var i := FirstIndex(ks + [x], x);
      assert i == |ks|;
    }
  }

  function CountOf(p: (string, nat)): int {
    p.1
  }

  /** The `Counter` before `most_common`: each distinct key with its
      number of occurrences. */
  function Tally(d: seq<string>, ks: seq<string>): (ps: seq<(string, nat)>)
    ensures |ps| == |d|
    ensures forall i | 0 <= i < |d| :: ps[i] == (d[i], multiset(ks)[d[i]])
  {
    seq(|d|, i requires 0 <= i < |d| => (d[i], multiset(ks)[d[i]]))
  }

  /** `Counter(ks)` as `Counter.update` builds it: one pass over `ks`,
      adding one to the count of each key met, a missing key counting 0. */
  function Counter(ks: seq<string>): map<string, nat>
    decreases |ks|
  {
    if |ks| == 0 then map[]
    else
      var c := Counter(ks[..|ks| - 1]);
      var k := ks[|ks| - 1];
      c[k := (if k in c then c[k] else 0) + 1]
  }

  /** The counter holds exactly the keys of `ks`, each with its number of
      occurrences. */
  lemma {:induction false} CounterCounts(ks: seq<string>)
    ensures forall k :: k in Counter(ks) <==> k in ks
    ensures forall k | k in Counter(ks) :: Counter(ks)[k] == multiset(ks)[k]
    decreases |ks|
  {
    if |ks| > 0 {
      var init, x := ks[..|ks| - 1], ks[|ks| - 1];
      assert ks == init + [x];
      CounterCounts(init);
      assert multiset(ks) == multiset(init) + multiset{x};
    }
  }

  /** The tally pairs each key that occurs with the count the counter
      accumulated for it. */
  lemma TallyIsCounter(d: seq<string>, ks: seq<string>)
    ensures |Tally(d, ks)| == |d|
    ensures forall i | 0 <= i < |d| && d[i] in ks ::
              d[i] in Counter(ks) && Tally(d, ks)[i] == (d[i], Counter(ks)[d[i]])
  {
    CounterCounts(ks);
  }

  /** Ranks a pair by where its key first occurs in `ks`. */
  function FirstSeenRank(ks: seq<string>): ((string, nat)) -> int {
    (p: (string, nat)) => if p.0 in ks then FirstIndex(ks, p.0) else -1
  }

  /** `count_by_extension`: `Counter(keys).most_common()` as an ordered
      list of (key, count) pairs. */
  function CountByExtension(items: seq<FileMeta>): (r: seq<(string, nat)>)
    ensures forall i | 0 <= i < |r| :: r[i].1 == multiset(KeysOf(items))[r[i].0]
    ensures forall i | 0 <= i < |r| :: r[i].0 in KeysOf(items)
    ensures forall j | 0 <= j < |items| :: exists i | 0 <= i < |r| :: r[i].0 == ExtKey(items[j])
    ensures forall i, j | 0 <= i < j < |r| :: r[i].1 >= r[j].1
    ensures forall i, j | 0 <= i < j < |r| && r[i].1 == r[j].1 ::
              FirstIndex(KeysOf(items), r[i].0) < FirstIndex(KeysOf(items), r[j].0)
    ensures forall i, j | 0 <= i < j < |r| :: r[i].0 != r[j].0
    ensures SumBy(r, CountOf) == |items|
  {
    var ks := KeysOf(items);
    var tally := Tally(Distinct(ks), ks);
    var r := Sort(tally, CountOf, true);
    CountedPairs(ks, r);
    CountedKeys(items, r);
    CountedOrder(ks, r);
    SortKeepsSum(tally, CountOf, true, CountOf);
    TallySum(ks);
    r
  }

  /** The result lists the counter's entries: each pair is a key of the
      counter with its count, and each key of the counter has a pair. */
  lemma CountByExtensionIsCounter(items: seq<FileMeta>)
    ensures forall i | 0 <= i < |CountByExtension(items)| ::
              var p := CountByExtension(items)[i];
              p.0 in Counter(KeysOf(items)) && p.1 == Counter(KeysOf(items))[p.0]
    ensures forall k | k in Counter(KeysOf(items)) :: exists i | 0 <= i < |CountByExtension(items)| ::
              CountByExtension(items)[i].0 == k
  {
    var ks := KeysOf(items);
    CounterCounts(ks);
    forall k | k in Counter(ks)
      ensures exists i | 0 <= i < |CountByExtension(items)| :: CountByExtension(items)[i].0 == k
    {
      var j :| 0 <= j < |ks| && ks[j] == k;
      var r := CountByExtension(items);
      assert exists i | 0 <= i < |r| :: r[i].0 == ExtKey(items[j]);
    }
  }

  /** The pairs of the sorted tally are the pairs of the tally. */
  lemma CountedPairs(ks: seq<string>, r: seq<(string, nat)>)
    requires r == Sort(Tally(Distinct(ks), ks), CountOf, true)
    ensures forall i | 0 <= i < |r| :: r[i].1 == multiset(ks)[r[i].0] && r[i].0 in ks
    ensures forall k | k in ks :: (k, multiset(ks)[k]) in r
  {
    var d := Distinct(ks);
    PermutedPairs(ks, d, Tally(d, ks), r);
  }

  /** Any reordering of a tally of `d`, where `d` holds exactly the keys of
      `ks`, pairs every key of `ks` with its count and nothing else. */
  lemma PermutedPairs(ks: seq<string>, d: seq<string>, tally: seq<(string, nat)>, r: seq<(string, nat)>)
    requires forall k :: k in d <==> k in ks
    requires |tally| == |d| && forall i | 0 <= i < |d| :: tally[i] == (d[i], multiset(ks)[d[i]])
    requires multiset(r) == multiset(tally)
    ensures forall i | 0 <= i < |r| :: r[i].1 == multiset(ks)[r[i].0] && r[i].0 in ks
    ensures forall k | k in ks :: (k, multiset(ks)[k]) in r
  {
    forall i | 0 <= i < |r|
      ensures r[i].1 == multiset(ks)[r[i].0] && r[i].0 in ks
    {
      assert r[i] in multiset(tally);
      var t :| 0 <= t < |tally| && tally[t] == r[i];
      assert d[t] in d;
    }
    forall k | k in ks
      ensures (k, multiset(ks)[k]) in r
    {
      var i :| 0 <= i < |d| && d[i] == k;
      assert tally[i] in multiset(r);
    }
  }

  lemma CountedKeys(items: seq<FileMeta>, r: seq<(string, nat)>)
    requires r == Sort(Tally(Distinct(KeysOf(items)), KeysOf(items)), CountOf, true)
    ensures forall j | 0 <= j < |items| :: exists i | 0 <= i < |r| :: r[i].0 == ExtKey(items[j])
  {
    var ks := KeysOf(items);
    CountedPairs(ks, r);
    forall j | 0 <= j < |items|
      ensures exists i | 0 <= i < |r| :: r[i].0 == ExtKey(items[j])
    {
      var k := ks[j];
      assert (k, multiset(ks)[k]) in r;
      var i :| 0 <= i < |r| && r[i] == (k, multiset(ks)[k]);
      assert r[i].0 == ExtKey(items[j]);
    }
  }

  /** Counts never increase along the result, equal counts keep the order
      in which their keys were first met, and no key repeats. */
  lemma CountedOrder(ks: seq<string>, r: seq<(string, nat)>)
    requires r == Sort(Tally(Distinct(ks), ks), CountOf, true)
    ensures forall i, j | 0 <= i < j < |r| :: r[i].1 >= r[j].1
    ensures forall i, j | 0 <= i < j < |r| && r[i].1 == r[j].1 :: r[i].0 in ks && r[j].0 in ks &&
              FirstIndex(ks, r[i].0) < FirstIndex(ks, r[j].0)
    ensures forall i, j | 0 <= i < j < |r| :: r[i].0 != r[j].0
  {
    CountedPairs(ks, r);
    CountsDescending(Tally(Distinct(ks), ks), r);
    CountedTies(ks, r);
  }

  lemma CountsDescending(tally: seq<(string, nat)>, r: seq<(string, nat)>)
    requires r == Sort(tally, CountOf, true)
    ensures forall i, j | 0 <= i < j < |r| :: r[i].1 >= r[j].1
  {
    SortSorted(tally, CountOf, true);
    forall i, j | 0 <= i < j < |r|
      ensures r[i].1 >= r[j].1
    {
      assert !Before(CountOf(r[j]), CountOf(r[i]), true);
    }
  }

  /** Before sorting, the pairs are in first-seen order of their keys. */
  lemma TallyTieRanked(ks: seq<string>)
    ensures TieRanked(Tally(Distinct(ks), ks), CountOf, FirstSeenRank(ks))
  {
    var d := Distinct(ks);
    var tally := Tally(d, ks);
    var rank := FirstSeenRank(ks);
    forall i, j | 0 <= i < j < |tally| && CountOf(tally[i]) == CountOf(tally[j])
      ensures rank(tally[i]) < rank(tally[j])
    {
      assert d[i] in ks && d[j] in ks;
      assert FirstIndex(ks, d[i]) < FirstIndex(ks, d[j]);
    }
  }

  /** Equal counts keep first-seen order after the sort. */
  lemma CountedTies(ks: seq<string>, r: seq<(string, nat)>)
    requires r == Sort(Tally(Distinct(ks), ks), CountOf, true)
    requires forall i | 0 <= i < |r| :: r[i].0 in ks
    ensures forall i, j | 0 <= i < j < |r| && r[i].1 == r[j].1 :: r[i].0 in ks && r[j].0 in ks &&
              FirstIndex(ks, r[i].0) < FirstIndex(ks, r[j].0)
  {
    var rank := FirstSeenRank(ks);
    TallyTieRanked(ks);
    SortKeepsTieRank(Tally(Distinct(ks), ks), CountOf, true, rank);
    forall i, j | 0 <= i < j < |r| && r[i].1 == r[j].1
      ensures FirstIndex(ks, r[i].0) < FirstIndex(ks, r[j].0)
    {
      assert CountOf(r[i]) == CountOf(r[j]);
      assert rank(r[i]) < rank(r[j]);
    }
  }

  /** The sum of the multiplicities in `m` of the keys of `d`. */
  ghost function Occ(d: seq<string>, m: multiset<string>): int
  {
    if |d| == 0 then 0 else Occ(d[..|d| - 1], m) + m[d[|d| - 1]]
  }

  lemma {:induction false} TallyIsOcc(d: seq<string>, ks: seq<string>)
    ensures SumBy(Tally(d, ks), CountOf) == Occ(d, multiset(ks))
    decreases |d|
  {
    if |d| > 0 {
      var init := d[..|d| - 1];
      TallyIsOcc(init, ks);
      assert Tally(d, ks) == Tally(init, ks) + [(d[|d| - 1], multiset(ks)[d[|d| - 1]])];
      SumByAppend(Tally(init, ks), [(d[|d| - 1], multiset(ks)[d[|d| - 1]])], CountOf);
    }
  }

  lemma {:induction false} OccAdd(d: seq<string>, m: multiset<string>, x: string)
    requires forall i, j | 0 <= i < j < |d| :: d[i] != d[j]
    ensures Occ(d, m + multiset{x}) == Occ(d, m) + (if x in d then 1 else 0)
    decreases |d|
  {
    if |d| > 0 {
      var init := d[..|d| - 1];
      OccAdd(init, m, x);
      assert d == init + [d[|d| - 1]];
      assert x in d <==> x in init || x == d[|d| - 1];
      assert x in init ==> x != d[|d| - 1];
    }
  }

  /** The counts of the distinct keys add up to the number of keys. */
  lemma {:induction false} TallySum(ks: seq<string>)
    ensures SumBy(Tally(Distinct(ks), ks), CountOf) == |ks|
    decreases |ks|
  {
    TallyIsOcc(Distinct(ks), ks);
    OccDistinct(ks);
  }

  lemma {:induction false} OccDistinct(ks: seq<string>)
    ensures Occ(Distinct(ks), multiset(ks)) == |ks|
    decreases |ks|
  {
    if |ks| > 0 {
      var init, x := ks[..|ks| - 1], ks[|ks| - 1];
      assert ks == init + [x];
      var d := Distinct(init);
      assert Distinct(ks) == if x in d then d else d + [x];
      OccDistinct(init);
      DistinctNoRepeats(init);
      OccAdd(d, multiset(init), x);
      assert multiset(ks) == multiset(init) + multiset{x};
      if x !in d {
        OccSnoc(d, x, multiset(ks));
        assert multiset(ks)[x] == 1 by {
          assert x !in init;
        }
      }
    }
  }

  /** No key occurs twice among the distinct keys. */
  lemma DistinctNoRepeats(ks: seq<string>)
    ensures forall i, j | 0 <= i < j < |Distinct(ks)| :: Distinct(ks)[i] != Distinct(ks)[j]
  {
    var d := Distinct(ks);
    forall i, j | 0 <= i < j < |d|
      ensures d[i] != d[j]
    {
      assert FirstIndex(ks, d[i]) < FirstIndex(ks, d[j]);
    }
  }

  lemma OccSnoc(d: seq<string>, x: string, m: multiset<string>)
    ensures Occ(d + [x], m) == Occ(d, m) + m[x]
  {
    assert (d + [x])[..|d|] == d;
  }

  // ---------------------------------------------------------------------
  // Brief view

  /** The non-float, non-timestamp fields of a `brief_view` entry. */
  datatype Brief = Brief(name: string, ext: string, folder: Path)

  /** `brief_view`: one entry per record, in order. */
  function BriefView(items: seq<FileMeta>): (r: seq<Brief>)
    ensures |r| == |items|
    ensures forall i | 0 <= i < |items| :: r[i].name == items[i].name && r[i].folder == items[i].parent
    ensures forall i | 0 <= i < |items| :: items[i].extension != "" ==> r[i].ext == items[i].extension
    ensures forall i | 0 <= i < |items| :: (r[i].ext == "-" <==> items[i].extension in {"", "-"})
  {
    seq(|items|, i requires 0 <= i < |items| => Brief(items[i].name, ExtKey(items[i]), items[i].parent))
  }
}
