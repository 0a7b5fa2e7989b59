/** Order-preserving selection over sequences: the shape shared by
    Python's `[m for m in items if cond(m)]` list comprehensions. */
module Seqs {

  /** `sub` is obtained from `s` by deleting elements, keeping the order
      of the rest. */
  predicate IsSubseq<T(==)>(sub: seq<T>, s: seq<T>)
    decreases |s|
  {
    if |sub| == 0 then true
    else if |s| == 0 then false
    else (sub[0] == s[0] && IsSubseq(sub[1..], s[1..])) || IsSubseq(sub, s[1..])
  }

  /** Number of positions of `s` whose element satisfies `p`. */
  function CountWhere<T>(s: seq<T>, p: T -> bool): nat
  {
    if |s| == 0 then 0 else (if p(s[0]) then 1 else 0) + CountWhere(s[1..], p)
  }

  /** The declarative meaning of a list-comprehension filter: an
      order-preserving selection, all of whose elements pass, and which
      is as long as the number of passing elements of the input. */
  ghost predicate IsFilterOf<T>(r: seq<T>, s: seq<T>, p: T -> bool) {
    && IsSubseq(r, s)
    && (forall i | 0 <= i < |r| :: p(r[i]))
    && |r| == CountWhere(s, p)
  }

  /** `[x for x in s if p(x)]`. */
  function Filter<T(==)>(s: seq<T>, p: T -> bool): (r: seq<T>)
    ensures IsFilterOf(r, s, p)
    ensures forall i | 0 <= i < |r| :: r[i] in s
    ensures forall i | 0 <= i < |s| && p(s[i]) :: s[i] in r
  {
    if |s| == 0 then []
    else if p(s[0]) then [s[0]] + Filter(s[1..], p)
    else Filter(s[1..], p)
  }

  /** An order-preserving selection of passing elements cannot be longer
      than the number of passing elements. */
  lemma {:induction false} SubseqCountBound<T>(r: seq<T>, s: seq<T>, p: T -> bool)
    requires IsSubseq(r, s)
    requires forall i | 0 <= i < |r| :: p(r[i])
    ensures |r| <= CountWhere(s, p)
    decreases |s|
  {
    if |r| > 0 {
      if r[0] == s[0] && IsSubseq(r[1..], s[1..]) {
        SubseqCountBound(r[1..], s[1..], p);
      } else {
        SubseqCountBound(r, s[1..], p);
      }
    }
  }

  /** The declarative description pins the filter down: any sequence
      meeting it is the filter's result. */
  lemma {:induction false} FilterUnique<T>(r: seq<T>, s: seq<T>, p: T -> bool)
    requires IsFilterOf(r, s, p)
    ensures r == Filter(s, p)
    decreases |s|
  {
    if |s| == 0 {
    } else if |r| == 0 {
      FilterLengthZero(s, p);
    } else if r[0] == s[0] && IsSubseq(r[1..], s[1..]) {
      FilterUnique(r[1..], s[1..], p);
      assert r == [r[0]] + r[1..];
    } else {
      SubseqCountBound(r, s[1..], p);
      assert !p(s[0]);
      FilterUnique(r, s[1..], p);
    }
  }

  lemma {:induction false} FilterLengthZero<T>(s: seq<T>, p: T -> bool)
    requires CountWhere(s, p) == 0
    ensures Filter(s, p) == []
  {
  }

  /** A filter keeps a sequence whose elements all pass. */
  lemma {:induction false} FilterKeepsAll<T>(s: seq<T>, p: T -> bool)
    requires forall i | 0 <= i < |s| :: p(s[i])
    ensures Filter(s, p) == s
    decreases |s|
  {
    if |s| > 0 {
      FilterKeepsAll(s[1..], p);
      assert s == [s[0]] + s[1..];
    }
  }

  lemma {:induction false} FilterIdempotent<T>(s: seq<T>, p: T -> bool)
    ensures Filter(Filter(s, p), p) == Filter(s, p)
  {
    FilterKeepsAll(Filter(s, p), p);
  }

  /** `[f(x) for x in s if ok(x)]`, where `f` is defined on every element
      `ok` admits. */
  function FilterMap<A(!new), B>(s: seq<A>, ok: A -> bool, f: A --> B): (r: seq<B>)
    requires forall x | ok(x) :: f.requires(x)
    ensures |r| == CountWhere(s, ok)
  {
    if |s| == 0 then []
    else if ok(s[0]) then [f(s[0])] + FilterMap(s[1..], ok, f)
    else FilterMap(s[1..], ok, f)
  }

  /** Every element of a filter-map is the image of an admitted element. */
  lemma {:induction false} FilterMapSound<A(!new), B>(s: seq<A>, ok: A -> bool, f: A --> B, i: nat)
    requires forall x | ok(x) :: f.requires(x)
    requires i < |FilterMap(s, ok, f)|
    ensures exists j | 0 <= j < |s| :: ok(s[j]) && FilterMap(s, ok, f)[i] == f(s[j])
    decreases |s|
  {
    var rest := FilterMap(s[1..], ok, f);
    if ok(s[0]) && i == 0 {
      assert FilterMap(s, ok, f)[0] == f(s[0]);
    } else {
      var k := if ok(s[0]) then i - 1 else i;
      assert FilterMap(s, ok, f)[i] == rest[k];
      FilterMapSound(s[1..], ok, f, k);
      var j :| 0 <= j < |s[1..]| && ok(s[1..][j]) && rest[k] == f(s[1..][j]);
      assert s[1..][j] == s[j + 1];
    }
  }

  /** Every admitted element's image is in the filter-map. */
  lemma {:induction false} FilterMapComplete<A(!new), B>(s: seq<A>, ok: A -> bool, f: A --> B, j: nat)
    requires forall x | ok(x) :: f.requires(x)
    requires j < |s| && ok(s[j])
    ensures f(s[j]) in FilterMap(s, ok, f)
    decreases |s|
  {
    if j > 0 {
      assert s[j] == s[1..][j - 1];
      FilterMapComplete(s[1..], ok, f, j - 1);
    }
  }

  /** A filter-map of a concatenation is the concatenation of the
      filter-maps. */
  lemma {:induction false} FilterMapAppend<A(!new), B>(a: seq<A>, b: seq<A>, ok: A -> bool, f: A --> B)
    requires forall x | ok(x) :: f.requires(x)
    ensures FilterMap(a + b, ok, f) == FilterMap(a, ok, f) + FilterMap(b, ok, f)
    decreases |a|
  {
    if |a| == 0 {
      assert a + b == b;
    } else {
      assert (a + b)[0] == a[0];
      assert (a + b)[1..] == a[1..] + b;
      FilterMapAppend(a[1..], b, ok, f);
    }
  }

  /** A filter-map is, position by position, the image of the filter: the
      results come in the order of the admitted elements. */
  lemma {:induction false} FilterMapOfFilter<A(!new), B>(s: seq<A>, ok: A -> bool, f: A --> B)
    requires forall x | ok(x) :: f.requires(x)
    ensures |FilterMap(s, ok, f)| == |Filter(s, ok)|
    ensures forall i | 0 <= i < |Filter(s, ok)| :: FilterMap(s, ok, f)[i] == f(Filter(s, ok)[i])
    decreases |s|
  {
    if |s| > 0 {
      FilterMapOfFilter(s[1..], ok, f);
    }
  }
}
