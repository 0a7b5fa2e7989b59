/** The filesystem as the scanner sees it: a finite tree of directory
    entries, with the outcome of every I/O call the scanner makes recorded
    in the tree instead of performed. */
module FsTree {
  import opened Wrappers

  newtype byte = x: int | 0 <= x < 256

  /** An absolute, resolved path as its list of components; `[]` is the
      filesystem root. */
  type Path = seq<string>

  /** `Path.name`: the last component, `""` for the root. */
  function Name(p: Path): string {
    if |p| == 0 then "" else p[|p| - 1]
  }

  /** `Path.parent`: drops the last component; the root is its own parent. */
  function Parent(p: Path): (q: Path)
    ensures q == p <==> |p| == 0
    ensures |p| > 0 ==> q + [Name(p)] == p
  {
    if |p| == 0 then p else p[..|p| - 1]
  }

  /** What the I/O calls on one regular file return:
      - `stat`: the size `stat()` reports, or None when `stat()` raises;
      - `bytes`: the content a binary `open`/`read` returns, or None when it raises;
      - `text`: the decoded content a text-mode `open`/`read` returns, or None
        when it raises. */
  datatype FileData = FileData(stat: Option<nat>, bytes: Option<seq<byte>>, text: Option<string>)

  /** One directory entry. `isLink` is set on an entry that is a symbolic
      link; such a `Dir` or `File` describes the link's target. `listable`
      is false when listing the directory raises. `Other` is any entry that
      is neither a directory nor a regular file: a socket, a FIFO, a device,
      a broken link, or an entry whose type query raises. */
  datatype Node =
    | Dir(name: string, isLink: bool, listable: bool, children: seq<Node>)
    | File(name: string, isLink: bool, data: FileData)
    | Other(name: string)
  {
    predicate IsLink() {
      (Dir? || File?) && isLink
    }
  }

  /** The first entry of `entries` called `name`. */
  function FindChild(entries: seq<Node>, name: string): (r: Option<Node>)
    ensures r.Some? <==> exists i | 0 <= i < |entries| :: entries[i].name == name
    ensures r.Some? ==> r.value in entries && r.value.name == name
  {
    if |entries| == 0 then None
    else if entries[0].name == name then Some(entries[0])
    else FindChild(entries[1..], name)
  }

  /** The node at path `p` below `fs`, when the path exists. */
  function Lookup(fs: Node, p: Path): (r: Option<Node>)
    ensures |p| > 0 && r.Some? ==> r.value.name == p[|p| - 1]
    decreases |p|
  {
    if |p| == 0 then Some(fs)
    else if !fs.Dir? then None
    else match FindChild(fs.children, p[0])
      case None => None
      case Some(c) => Lookup(c, p[1..])
  }
}
