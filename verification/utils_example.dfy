/** Concrete instances of the record transforms' contracts. */
module UtilsExample {
  import opened Wrappers
  import opened Scanner
  import opened Utils
  import opened Sorting

  function Rec(name: string, ext: string, size: nat): FileMeta {
    FileMeta(["d", name], name, ["d"], ext, size, true, None)
  }

  /** The size threshold is inclusive: at `min_kb=512` a record of 524288
      bytes is kept and one of 524287 bytes is dropped. */
  lemma LargerThanBoundary()
    ensures FilterLargerThan([Rec("a", "", 524288), Rec("b", "", 524287)], 512.0) == [Rec("a", "", 524288)]
  {
    var a, b := Rec("a", "", 524288), Rec("b", "", 524287);
    var r := FilterLargerThan([a, b], 512.0);
    assert a in r;
    assert b !in r;
    assert |r| <= 2;
  }

  /** A fractional `min_kb` scales too: at `min_kb=0.5` the bound is 512
      bytes. */
  lemma HalfKilobyte()
    ensures FilterLargerThan([Rec("a", "", 512), Rec("b", "", 511)], 0.5) == [Rec("a", "", 512)]
  {
    var a, b := Rec("a", "", 512), Rec("b", "", 511);
    var r := FilterLargerThan([a, b], 0.5);
    assert a in r;
    assert b !in r;
    assert |r| <= 2;
  }

  /** An empty extension and the extension "-" share the placeholder, so
      a file `notes` and a file `notes.-` are counted under one key and
      show the same `ext`. */
  lemma PlaceholderShared(a: FileMeta, b: FileMeta)
    requires a.extension == "" && b.extension == "-"
    ensures CountByExtension([a, b]) == [("-", 2)]
    ensures BriefView([a, b])[0].ext == BriefView([a, b])[1].ext
  {
    var items := [a, b];
    var ks := KeysOf(items);
    assert ks == ["-", "-"];
    OneKey(ks, CountByExtension(items));
  }

  /** A pair list that satisfies the counting contract for the keys
      `["-", "-"]` is `[("-", 2)]`: every pair counts 2 and the counts add
      up to 2. */
  lemma OneKey(ks: seq<string>, r: seq<(string, nat)>)
    requires ks == ["-", "-"]
    requires forall i | 0 <= i < |r| :: r[i].1 == multiset(ks)[r[i].0] && r[i].0 in ks
    requires SumBy(r, CountOf) == |ks|
    ensures r == [("-", 2)]
  {
    assert multiset(ks)["-"] == 2;
    SumOfEqual(r, 2);
  }

  lemma {:induction false} SumOfEqual(r: seq<(string, nat)>, c: nat)
    requires forall i | 0 <= i < |r| :: r[i].1 == c
    ensures SumBy(r, CountOf) == c * |r|
  {
    if |r| > 0 {
      SumOfEqual(r[1..], c);
    }
  }

  function Size(m: FileMeta): int {
    m.sizeBytes
  }

  /** With `reverse=True` records of equal key keep their input order:
      sizes 5, 9, 5 sort to the 9 first and the two 5s as they came. */
  lemma SortStableReverse(a: FileMeta, b: FileMeta, c: FileMeta)
    requires a.sizeBytes == 5 && b.sizeBytes == 9 && c.sizeBytes == 5
    ensures SortBy([a, b, c], Size, true) == [b, a, c]
  {
    var s, t := [a, b, c], [b, a, c];
    assert s[1..] == [b, c] && t[1..] == [a, c] && [b, c][1..] == [c] && [a, c][1..] == [c];
    forall k
      ensures Sorting.WithKey(t, Size, k) == Sorting.WithKey(s, Size, k)
    {
      assert Sorting.WithKey([c], Size, k) == (if k == 5 then [c] else []) by {
        assert [c][1..] == [];
      }
    }
    SortByDetermined(s, Size, true, t);
  }
}
