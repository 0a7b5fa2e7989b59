/** The scanner: a depth-first walk over the filesystem tree that yields one
    metadata record per regular file, skipping hidden entries, symbolic
    links and everything whose I/O fails. */
module Scanner {
  import opened Wrappers
  import opened Text
  import opened FsTree
  import opened Preview
  import Seqs

  /** A preview is read only for files of at most this many bytes. */
  const SmallPreviewLimit: nat := 1_000_000
  /** The preview is built from at most this many decoded characters. */
  const PreviewChars: nat := 500
  /** The text/binary probe looks at this many leading bytes. */
  const ProbeBytes: nat := 1024

  function Min(a: nat, b: nat): nat {
    if a <= b then a else b
  }

  /** The record built for one file. Timestamps are not modelled. */
  datatype FileMeta = FileMeta(
    path: Path,
    name: string,
    parent: Path,
    extension: string,
    sizeBytes: nat,
    isText: bool,
    preview: Option<string>)

  /** The scanner's configuration: a resolved root and the two policies. */
  datatype FileScanner = FileScanner(root: Path, includeHidden: bool, followSymlinks: bool)

  datatype ScanError = NotFound(root: Path)

  /** The constructor: raises when the root does not exist in `fs`. */
  function NewScanner(fs: Node, root: Path, includeHidden: bool, followSymlinks: bool): (r: Result<FileScanner, ScanError>)
    ensures r.Success? <==> Lookup(fs, root).Some?
    ensures r.Success? ==> r.value.root == root && r.value.includeHidden == includeHidden
                           && r.value.followSymlinks == followSymlinks
    ensures r.Failure? ==> r.error == NotFound(root)
  {
    if Lookup(fs, root).None? then Failure(NotFound(root))
    else Success(FileScanner(root, includeHidden, followSymlinks))
  }

  // ---------------------------------------------------------------------
  // Hidden entries

  /** Some component of `p` starts with a dot. */
  ghost predicate HasDotComponent(p: Path) {
    exists i | 0 <= i < |p| :: StartsWithDot(p[i])
  }

  /** The loop of `_is_hidden`: test `p.name`, stop once `p.parent == p`,
      otherwise move to `p.parent`. */
  function HiddenWalk(p: Path): (r: bool)
    ensures r <==> HasDotComponent(p)
    decreases |p|
  {
    if StartsWithDot(Name(p)) then true
    else if Parent(p) == p then false
    else HiddenWalk(Parent(p))
  }

  /** `_is_hidden(name, parent)`: the walk goes up to the filesystem root,
      past the scan root. */
  function IsHidden(name: string, parent: Path): (r: bool)
    ensures r <==> StartsWithDot(name) || HasDotComponent(parent)
  {
    StartsWithDot(name) || HiddenWalk(parent)
  }

  // ---------------------------------------------------------------------
  // Record construction

  /** `name.rfind('.')`: the index of the last dot, or -1. */
  function LastDot(name: string): (i: int)
    ensures -1 <= i < |name|
    ensures i >= 0 ==> name[i] == '.'
    ensures forall j | i < j < |name| :: name[j] != '.'
  {
    if |name| == 0 then -1
    else if name[|name| - 1] == '.' then |name| - 1
    else LastDot(name[..|name| - 1])
  }

  /** The dot at `i` starts `Path.suffix`: it is the last dot of the name
      and neither its first nor its last character. */
  ghost predicate SuffixDotAt(name: string, i: int) {
    && 0 < i < |name| - 1
    && name[i] == '.'
    && forall j | i < j < |name| :: name[j] != '.'
  }

  /** `path.suffix[1:].lower() if path.suffix else ""`. */
  function Extension(name: string): (ext: string)
    ensures forall k | 0 <= k < |ext| :: ext[k] != '.'
    ensures IsLower(ext)
    ensures ext == "" <==> forall i :: !SuffixDotAt(name, i)
    ensures forall i | SuffixDotAt(name, i) :: ext == Lower(name[i + 1..])
  {
    var i := LastDot(name);
    if 0 < i < |name| - 1 then
      assert SuffixDotAt(name, i);
      LowerKeepsDots(name[i + 1..]);
      Lower(name[i + 1..])
    else ""
  }

  /** `_looks_like_text`: false when the read raises or a NUL byte occurs
      among the first `ProbeBytes` bytes; true otherwise, since decoding
      with `errors="ignore"` cannot fail. */
  function LooksLikeText(read: Option<seq<byte>>): (r: bool)
    ensures r <==> read.Some? && forall i | 0 <= i < |read.value| && i < ProbeBytes :: read.value[i] != 0
  {
    match read
    case None => false
    case Some(content) => 0 !in content[..Min(|content|, ProbeBytes)]
  }

  /** `_safe_read_preview(path, PreviewChars)`: the first characters of the
      decoded text, collapsed; None when the read raises. */
  function SafeReadPreview(read: Option<string>): (r: Option<string>)
    ensures r.Some? <==> read.Some?
    ensures r.Some? ==> IsCollapsed(r.value) && |r.value| <= PreviewChars
    ensures r.Some? ==> Split(r.value) == Split(read.value[..Min(|read.value|, PreviewChars)])
  {
    match read
    case None => None
    case Some(text) => Some(Collapse(text[..Min(|text|, PreviewChars)]))
  }

  /** The invariants every record satisfies. */
  ghost predicate WellFormedMeta(m: FileMeta) {
    && (forall k | 0 <= k < |m.extension| :: m.extension[k] != '.')
    && IsLower(m.extension)
    && (m.preview.Some? ==> m.isText && m.sizeBytes <= SmallPreviewLimit)
    && (m.preview.Some? ==> IsCollapsed(m.preview.value) && |m.preview.value| <= PreviewChars)
  }

  /** `path_to_metadata`: None stands for the exception `stat()` raises;
      the probe and preview reads degrade instead of raising. */
  function PathToMetadata(path: Path, data: FileData): (r: Option<FileMeta>)
    ensures r.Some? <==> data.stat.Some?
    ensures r.Some? ==> WellFormedMeta(r.value)
    ensures r.Some? ==> && r.value.path == path && r.value.name == Name(path)
                        && r.value.parent == Parent(path) && r.value.sizeBytes == data.stat.value
                        && r.value.extension == Extension(Name(path))
    ensures r.Some? ==> (r.value.isText <==> LooksLikeText(data.bytes))
    ensures r.Some? ==> (r.value.preview.Some? <==>
                           r.value.isText && r.value.sizeBytes <= SmallPreviewLimit && data.text.Some?)
    ensures r.Some? && r.value.preview.Some? ==> r.value.preview == SafeReadPreview(data.text)
  {
    match data.stat
    case None => None
    case Some(size) =>
      var isText := LooksLikeText(data.bytes);
      var preview := if isText && size <= SmallPreviewLimit then SafeReadPreview(data.text) else None;
      Some(FileMeta(path, Name(path), Parent(path), Extension(Name(path)), size, isText, preview))
  }

  // ---------------------------------------------------------------------
  // Traversal

  /** `entry.is_dir(follow_symlinks=follow)`: false for a link unless
      links are followed. */
  predicate IsDirEntry(e: Node, follow: bool) {
    e.Dir? && (follow || !e.isLink)
  }

  /** `entry.is_file(follow_symlinks=follow)`. */
  predicate IsFileEntry(e: Node, follow: bool) {
    e.File? && (follow || !e.isLink)
  }

  /** A path `_iter_paths` yields, with the file entry found there. */
  datatype Located = Located(path: Path, entry: Node)

  /** What every yielded path satisfies: it names a regular-file entry
      below `dir`; it is no link unless links are followed; and, unless
      hidden entries are included, none of its components, up to the
      filesystem root, starts with a dot. */
  ghost predicate Sound(s: FileScanner, dir: Path, x: Located) {
    && x.entry.File?
    && |x.path| > |dir| && x.path[..|dir|] == dir && x.path[|x.path| - 1] == x.entry.name
    && (!s.followSymlinks ==> !x.entry.isLink)
    && (!s.includeHidden ==> !HasDotComponent(x.path))
  }

  /** `_iter_paths(dir)` where `node` is what `os.scandir(dir)` sees; a
      directory that cannot be listed, or is no directory, yields nothing. */
  function IterPaths(s: FileScanner, dir: Path, node: Node): (r: seq<Located>)
    ensures forall i | 0 <= i < |r| :: Sound(s, dir, r[i])
    ensures !node.Dir? || !node.listable ==> r == []
    decreases node, 1
  {
    if node.Dir? && node.listable then Walk(s, dir, node.children) else []
  }

  /** The `for entry in it` loop of `_iter_paths` over the listing
      `entries` of `dir`, in listing order. */
  function Walk(s: FileScanner, dir: Path, entries: seq<Node>): (r: seq<Located>)
    ensures forall i | 0 <= i < |r| :: Sound(s, dir, r[i])
    decreases entries, 0
  {
    if |entries| == 0 then []
    else Visit(s, dir, entries[0]) + Walk(s, dir, entries[1..])
  }

  /** The body of that loop for one entry: the hidden filter first, then
      directories (never a link unless links are followed), then regular
      files; anything else contributes nothing. */
  function Visit(s: FileScanner, dir: Path, e: Node): (r: seq<Located>)
    ensures forall i | 0 <= i < |r| :: Sound(s, dir, r[i])
    ensures forall i | 0 <= i < |r| :: |r[i].path| > |dir| && r[i].path[..|dir| + 1] == dir + [e.name]
    ensures !s.includeHidden && IsHidden(e.name, dir) ==> r == []
    ensures !s.followSymlinks && e.IsLink() ==> r == []
    ensures e.Other? || (e.Dir? && !e.listable) ==> r == []
    decreases e, 2
  {
    if !s.includeHidden && IsHidden(e.name, dir) then []
    else if IsDirEntry(e, s.followSymlinks) then
      if !s.followSymlinks && e.isLink then []
      else
        var r := IterPaths(s, dir + [e.name], e);
        SoundBelow(s, dir, e.name, r);
        r
    else if IsFileEntry(e, s.followSymlinks) then
      var x := Located(dir + [e.name], e);
      assert x.path[..|dir|] == dir && x.path[..|dir| + 1] == dir + [e.name];
      [x]
    else []
  }

  /** A path sound below `dir + [name]` is sound below `dir` and lies under
      the entry `name`. */
  lemma {:induction false} SoundBelow(s: FileScanner, dir: Path, name: string, r: seq<Located>)
    requires forall i | 0 <= i < |r| :: Sound(s, dir + [name], r[i])
    ensures forall i | 0 <= i < |r| :: Sound(s, dir, r[i])
    ensures forall i | 0 <= i < |r| :: |r[i].path| > |dir| && r[i].path[..|dir| + 1] == dir + [name]
  {
    forall i | 0 <= i < |r|
      ensures r[i].path[..|dir|] == dir
    {
      assert r[i].path[..|dir|] == r[i].path[..|dir| + 1][..|dir|];
    }
  }

  // ---------------------------------------------------------------------
  // Scanning

  predicate StatOk(x: Located) {
    x.entry.File? && x.entry.data.stat.Some?
  }

  /** The record of a located file whose `stat()` succeeds. */
  function MetaOf(x: Located): FileMeta
    requires StatOk(x)
  {
    PathToMetadata(x.path, x.entry.data).value
  }

  /** The `try`/`except` loop of `scan`: one record per path, and a path
      whose record construction raises is dropped. */
  function CollectMeta(xs: seq<Located>): (r: seq<FileMeta>)
    requires forall i | 0 <= i < |xs| :: xs[i].entry.File?
    ensures |r| == Seqs.CountWhere(xs, StatOk)
  {
    Seqs.FilterMap(xs, StatOk, MetaOf)
  }

  /** Every record comes from a located file whose `stat()` succeeds. */
  lemma CollectMetaSound(xs: seq<Located>, i: nat)
    requires forall j | 0 <= j < |xs| :: xs[j].entry.File?
    requires i < |CollectMeta(xs)|
    ensures exists j | 0 <= j < |xs| :: StatOk(xs[j]) && CollectMeta(xs)[i] == MetaOf(xs[j])
  {
    Seqs.FilterMapSound(xs, StatOk, MetaOf, i);
  }

  /** Every located file whose `stat()` succeeds has its record. */
  lemma CollectMetaComplete(xs: seq<Located>, j: nat)
    requires forall i | 0 <= i < |xs| :: xs[i].entry.File?
    requires j < |xs| && StatOk(xs[j])
    ensures MetaOf(xs[j]) in CollectMeta(xs)
  {
    Seqs.FilterMapComplete(xs, StatOk, MetaOf, j);
  }

  /** Records come in the order of their paths: the `i`-th record is the
      record of the `i`-th path whose `stat()` succeeds. */
  lemma CollectMetaInOrder(xs: seq<Located>)
    requires forall i | 0 <= i < |xs| :: xs[i].entry.File?
    ensures |CollectMeta(xs)| == |Seqs.Filter(xs, StatOk)|
    ensures forall i | 0 <= i < |CollectMeta(xs)| :: CollectMeta(xs)[i] == MetaOf(Seqs.Filter(xs, StatOk)[i])
  {
    Seqs.FilterMapOfFilter(xs, StatOk, MetaOf);
  }

  /** The records of consecutive runs of paths are consecutive. */
  lemma CollectMetaAppend(a: seq<Located>, b: seq<Located>)
    requires forall i | 0 <= i < |a| :: a[i].entry.File?
    requires forall i | 0 <= i < |b| :: b[i].entry.File?
    ensures CollectMeta(a + b) == CollectMeta(a) + CollectMeta(b)
  {
    Seqs.FilterMapAppend(a, b, StatOk, MetaOf);
  }

  /** `scan()`: walks the root as `fs` holds it when the scan runs; a root
      that has disappeared since construction cannot be listed. */
  function Scan(s: FileScanner, fs: Node): (r: seq<FileMeta>)
    ensures Lookup(fs, s.root).None? ==> r == []
    ensures Lookup(fs, s.root).Some? ==>
              |r| == Seqs.CountWhere(IterPaths(s, s.root, Lookup(fs, s.root).value), StatOk)
  {
    match Lookup(fs, s.root)
    case None => []
    case Some(node) => CollectMeta(IterPaths(s, s.root, node))
  }
}
