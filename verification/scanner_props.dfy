/** Properties of the scanner's walk: which files it yields, in which
    order, and how failures and policies remove entries without disturbing
    their siblings. */
module ScannerProps {
  import opened Wrappers
  import opened Text
  import opened FsTree
  import opened Scanner
  import Seqs

  // ---------------------------------------------------------------------
  // Which files are yielded

  /** Reference description of the walk's output, as a set: `x` is found
      under a listable directory `node` at `dir` when some entry of its
      listing admits it. */
  ghost predicate Reaches(s: FileScanner, dir: Path, node: Node, x: Located)
    decreases node, 1
  {
    node.Dir? && node.listable &&
    exists i | 0 <= i < |node.children| :: Admits(s, dir, node.children[i], x)
  }

  /** Entry `e` of `dir` admits `x` when the entry is visible (its name
      and every component of `dir` are dot-free, unless hidden entries
      are included) and either it is the regular file `x` itself or it is a
      directory, a link only when links are followed, under which `x` is
      found. */
  ghost predicate Admits(s: FileScanner, dir: Path, e: Node, x: Located)
    decreases e, 2
  {
    && (s.includeHidden || (!StartsWithDot(e.name) && !HasDotComponent(dir)))
    && (s.followSymlinks || !e.IsLink())
    && ( (e.File? && x == Located(dir + [e.name], e))
      || (e.Dir? && Reaches(s, dir + [e.name], e, x)))
  }

  /** The walk yields exactly the files the reference description admits. */
  lemma {:induction false} IterPathsExact(s: FileScanner, dir: Path, node: Node, x: Located)
    ensures x in IterPaths(s, dir, node) <==> Reaches(s, dir, node, x)
    decreases node, 1
  {
    if node.Dir? && node.listable {
      WalkExact(s, dir, node.children, x);
    }
  }

  lemma {:induction false} WalkExact(s: FileScanner, dir: Path, es: seq<Node>, x: Located)
    ensures x in Walk(s, dir, es) <==> exists i | 0 <= i < |es| :: Admits(s, dir, es[i], x)
    decreases es, 0
  {
    if |es| > 0 {
      VisitExact(s, dir, es[0], x);
      WalkExact(s, dir, es[1..], x);
      if exists i | 0 <= i < |es| :: Admits(s, dir, es[i], x) {
        var i :| 0 <= i < |es| && Admits(s, dir, es[i], x);
        if i > 0 {
          assert es[1..][i - 1] == es[i];
        }
      }
      if exists i | 0 <= i < |es[1..]| :: Admits(s, dir, es[1..][i], x) {
        var i :| 0 <= i < |es[1..]| && Admits(s, dir, es[1..][i], x);
        assert es[i + 1] == es[1..][i];
      }
    }
  }

  lemma {:induction false} VisitExact(s: FileScanner, dir: Path, e: Node, x: Located)
    ensures x in Visit(s, dir, e) <==> Admits(s, dir, e, x)
    decreases e, 2
  {
    if e.Dir? {
      IterPathsExact(s, dir + [e.name], e, x);
    }
  }

  // ---------------------------------------------------------------------
  // Order

  lemma {:induction false} WalkAppend(s: FileScanner, dir: Path, a: seq<Node>, b: seq<Node>)
    ensures Walk(s, dir, a + b) == Walk(s, dir, a) + Walk(s, dir, b)
    decreases |a|
  {
    if |a| == 0 {
      assert a + b == b;
    } else {
      assert (a + b)[0] == a[0];
      assert (a + b)[1..] == a[1..] + b;
      WalkAppend(s, dir, a[1..], b);
    }
  }

  /** Depth-first order: the output for a directory is its listing's
      outputs in listing order, and everything an entry contributes lies
      under that entry, contiguously, at the entry's position. */
  lemma DepthFirstOrder(s: FileScanner, dir: Path, node: Node, before: seq<Node>, c: Node, after: seq<Node>)
    requires node.Dir? && node.listable && node.children == before + [c] + after
    ensures IterPaths(s, dir, node) == Walk(s, dir, before) + Visit(s, dir, c) + Walk(s, dir, after)
    ensures forall i | 0 <= i < |Visit(s, dir, c)| ::
              |Visit(s, dir, c)[i].path| > |dir| && Visit(s, dir, c)[i].path[..|dir| + 1] == dir + [c.name]
  {
    WalkOne(s, dir, c);
    WalkAppend(s, dir, before + [c], after);
    WalkAppend(s, dir, before, [c]);
    assert IterPaths(s, dir, node) == Walk(s, dir, (before + [c]) + after);
  }

  lemma WalkOne(s: FileScanner, dir: Path, e: Node)
    ensures Walk(s, dir, [e]) == Visit(s, dir, e)
  {
    assert [e][1..] == [];
  }

  // ---------------------------------------------------------------------
  // Failures and policies skip one entry only

  /** An entry that contributes nothing: something that is neither a
      directory nor a regular file, or whose type query raises; a directory
      whose listing raises; a link when links are not followed; a hidden
      entry when hidden entries are excluded. */
  predicate Skipped(s: FileScanner, dir: Path, e: Node) {
    || e.Other?
    || (e.Dir? && !e.listable)
    || (!s.followSymlinks && e.IsLink())
    || (!s.includeHidden && IsHidden(e.name, dir))
  }

  /** Skipping one entry leaves the output of its siblings unchanged. */
  lemma SkipOnlyThatEntry(s: FileScanner, dir: Path, before: seq<Node>, e: Node, after: seq<Node>)
    requires Skipped(s, dir, e)
    ensures Walk(s, dir, before + [e] + after) == Walk(s, dir, before) + Walk(s, dir, after)
  {
    WalkOne(s, dir, e);
    WalkAppend(s, dir, before + [e], after);
    WalkAppend(s, dir, before, [e]);
  }

  /** `_is_hidden` looks above the scan root: below a dot-named directory
      nothing at all is yielded while hidden entries are excluded. */
  lemma {:induction false} HiddenDirYieldsNothing(s: FileScanner, dir: Path, es: seq<Node>)
    requires !s.includeHidden && HasDotComponent(dir)
    ensures Walk(s, dir, es) == []
    decreases |es|
  {
    if |es| > 0 {
      HiddenDirYieldsNothing(s, dir, es[1..]);
    }
  }

  /** So a scan rooted inside a dot-named directory yields no record. */
  lemma {:induction false} ScanUnderDotDirIsEmpty(s: FileScanner, fs: Node)
    requires !s.includeHidden && HasDotComponent(s.root)
    ensures Scan(s, fs) == []
  {
    match Lookup(fs, s.root)
    case None =>
    case Some(node) =>
      if node.Dir? && node.listable {
        HiddenDirYieldsNothing(s, s.root, node.children);
      }
  }

  // ---------------------------------------------------------------------
  // Records

  /** Every record comes from a reachable file whose `stat()` succeeds,
      lies under the root, satisfies the record invariants, and has no
      dot-named component up to the filesystem root unless hidden entries
      are included. */
  lemma ScanSound(s: FileScanner, fs: Node, i: nat)
    requires i < |Scan(s, fs)|
    ensures Lookup(fs, s.root).Some?
    ensures exists x :: Reaches(s, s.root, Lookup(fs, s.root).value, x) && StatOk(x) && Scan(s, fs)[i] == MetaOf(x)
    ensures WellFormedMeta(Scan(s, fs)[i])
    ensures |Scan(s, fs)[i].path| > |s.root| && Scan(s, fs)[i].path[..|s.root|] == s.root
    ensures !s.includeHidden ==> !HasDotComponent(Scan(s, fs)[i].path)
  {
    var node := Lookup(fs, s.root).value;
    var xs := IterPaths(s, s.root, node);
    CollectMetaSound(xs, i);
    var j :| 0 <= j < |xs| && StatOk(xs[j]) && Scan(s, fs)[i] == MetaOf(xs[j]);
    IterPathsExact(s, s.root, node, xs[j]);
    assert Sound(s, s.root, xs[j]);
  }

  /** Every reachable file whose `stat()` succeeds has its record. */
  lemma ScanComplete(s: FileScanner, fs: Node, node: Node, x: Located)
    requires Lookup(fs, s.root) == Some(node)
    requires Reaches(s, s.root, node, x) && StatOk(x)
    ensures MetaOf(x) in Scan(s, fs)
  {
    var xs := IterPaths(s, s.root, node);
    IterPathsExact(s, s.root, node, x);
    var j :| 0 <= j < |xs| && xs[j] == x;
    CollectMetaComplete(xs, j);
  }

  /** `scan` yields its records in walk order: the `i`-th record is the
      record of the `i`-th walked path whose `stat()` succeeds. */
  lemma ScanInWalkOrder(s: FileScanner, fs: Node, node: Node)
    requires Lookup(fs, s.root) == Some(node)
    ensures |Scan(s, fs)| == |Seqs.Filter(IterPaths(s, s.root, node), StatOk)|
    ensures forall i | 0 <= i < |Scan(s, fs)| ::
              Scan(s, fs)[i] == MetaOf(Seqs.Filter(IterPaths(s, s.root, node), StatOk)[i])
  {
    CollectMetaInOrder(IterPaths(s, s.root, node));
  }

  /** Depth-first order carries over to the records: those of an entry of
      the root's listing come after the records of the entries listed
      before it, contiguously, and before those of the entries after it. */
  lemma ScanDepthFirst(s: FileScanner, fs: Node, node: Node, before: seq<Node>, c: Node, after: seq<Node>)
    requires Lookup(fs, s.root) == Some(node)
    requires node.Dir? && node.listable && node.children == before + [c] + after
    ensures Scan(s, fs) == CollectMeta(Walk(s, s.root, before)) + CollectMeta(Visit(s, s.root, c))
                           + CollectMeta(Walk(s, s.root, after))
  {
    var wb, vc, wa := Walk(s, s.root, before), Visit(s, s.root, c), Walk(s, s.root, after);
    DepthFirstOrder(s, s.root, node, before, c, after);
    CollectMetaAppend(wb + vc, wa);
    CollectMetaAppend(wb, vc);
  }
}
