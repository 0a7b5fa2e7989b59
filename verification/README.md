# File metadata scanner — a Dafny model

This project models the core of a small Python tool that walks a directory tree and builds one metadata record (`FileMeta`) per regular file, plus the list helpers that filter, sort, count and project those records. The tool has two layers:

- **The scanner** (`Core/scanner.py`, class `FileScanner`):
  - `_iter_paths` is a depth-first walk in listing order. It skips hidden entries, links it is told not to follow, and anything whose I/O fails.
  - `_is_hidden` tests the entry name and every ancestor up to the filesystem root.
  - `path_to_metadata` builds a record:
    - the extension is the lower-cased `Path.suffix` without its dot;
    - the text/binary probe is `_looks_like_text`, a NUL-byte test on the first 1024 bytes;
    - a preview is read only for text files of at most 1 000 000 bytes, and is the first 500 characters collapsed with `" ".join(text.split())`.
  - `scan` drops every file whose `stat()` raises. Timestamp conversion is not modelled; see `Timestamps` under "## Left out" for the two other ways a file whose `stat()` succeeds can fail in the source.
- **The record transforms** (`utils.py`): `filter_by_extensions`, `filter_larger_than`, `only_text_files`, `sort_by`, `count_by_extension` and `brief_view`.

I/O is replaced by data:

- The filesystem is a finite tree (`FsTree.Node`). Each directory records whether listing it raises. Each file records what `stat()`, a binary read and a text read return, with `None` for "raises".
- A symbolic link is an entry with `isLink` set.
- An entry that is neither a directory nor a regular file, or whose type query raises, is `Other`.
- Paths are lists of components, and `[]` is the filesystem root, so `Path.parent` of the root is the root itself, as in `pathlib`.
- Generators become sequences.

## Modules

| file | module | contents |
|---|---|---|
| `wrappers.dfy` | `Wrappers` | `Option`, `Result` |
| `text.dfy` | `Text` | `str.isspace`, ASCII `str.lower`, `startswith('.')`, `lstrip('.')` |
| `seqs.dfy` | `Seqs` | list-comprehension filters, their declarative meaning, and filter-maps |
| `sorting.dfy` | `Sorting` | Python's stable `sorted(..., key, reverse)` on an integer key, and its uniqueness |
| `fstree.dfy` | `FsTree` | paths, the filesystem tree, path lookup |
| `preview.dfy` | `Preview` | `str.split()`, `" ".join(...)`, the collapsed form |
| `scanner.dfy` | `Scanner` | `FileMeta`, `FileScanner`, the walk, record construction, `scan` |
| `scanner_props.dfy` | `ScannerProps` | a reference description of the walk's output, depth-first order, skip behaviour, soundness and completeness of `scan` |
| `scanner_example.dfy` | `ScanExample` | an end-to-end scan of a three-file tree |
| `utils.dfy` | `Utils` | the record transforms |
| `utils_example.dfy` | `UtilsExample` | concrete instances of the transforms' contracts |

## Model

| member | source | states |
|---|---|---|
| `Scanner.NewScanner` | Core/scanner.py:42-50 | Construction fails with `NotFound(root)` exactly when the root does not exist. Otherwise the scanner keeps the root and both policies. |
| `Scanner.HiddenWalk` | Core/scanner.py:95-102 | The upward `while` loop from a path returns true iff some component of the path, up to the filesystem root, starts with a dot. |
| `Scanner.IsHidden` | Core/scanner.py:87-102 | `_is_hidden(name, parent)` holds iff `name` starts with a dot or some component of `parent` does. The test is not limited to the scan root. |
| `Scanner.LastDot` | Core/scanner.py:108 | The index of the last `.` in a name, or -1: no dot follows it. |
| `Scanner.Extension` | Core/scanner.py:108 | The extension contains no dot and no upper-case letter. It is empty iff the name has no suffix dot, a last dot that is neither the first nor the last character. Otherwise it is the lowered text after that dot. |
| `Scanner.LooksLikeText` | Core/scanner.py:135-149 | False iff the probe read raised or a NUL byte occurs among the first 1024 bytes. |
| `Scanner.SafeReadPreview` | Core/scanner.py:151-159 | `None` iff the read raised. Otherwise the preview is collapsed, at most 500 characters long, and has the same words as the first 500 characters read. |
| `Scanner.PathToMetadata` | Core/scanner.py:104-127 | When the timestamp conversion succeeds, a record exists iff `stat()` succeeds, and it satisfies the record invariants. Path, name, parent, size and extension are taken from the path and `stat`. `is_text` is the probe result. A preview is present iff the file is text, at most 1 000 000 bytes, and its text read succeeds. When present, the preview is `_safe_read_preview` of the text read. |
| `Scanner.IterPaths` | Core/scanner.py:63-84 | Every yielded path names a regular file under the directory, is no link unless links are followed, and, when hidden entries are excluded, has no dot-named component. A directory that cannot be listed yields nothing. |
| `Scanner.Walk` | Core/scanner.py:66-82 | The loop over a listing yields only such sound paths. |
| `Scanner.Visit` | Core/scanner.py:67-82 | One entry's contribution lies under that entry. It is empty for a hidden entry when hidden entries are excluded, for a link when links are not followed, for an `Other` entry, and for an unlistable directory. |
| `Scanner.SoundBelow` | Core/scanner.py:73-77 | What the recursive walk of a subdirectory yields is sound for the parent directory too, and lies under that subdirectory's entry. |
| `Scanner.CollectMeta` | Core/scanner.py:56-61 | The `try`/`except` loop of `scan` yields exactly as many records as there are paths whose `stat()` succeeds. |
| `Seqs.FilterMap` | Core/scanner.py:56-61 | Keeping the image of each admitted element yields one result per admitted element. |
| `Seqs.FilterMapSound` | Core/scanner.py:56-61 | Each element of the result is the image of some admitted input element. |
| `Seqs.FilterMapComplete` | Core/scanner.py:56-61 | The image of each admitted input element is in the result. |
| `Seqs.FilterMapAppend` | Core/scanner.py:56-61 | A filter-map of a concatenation is the concatenation of the filter-maps. |
| `Seqs.FilterMapOfFilter` | Core/scanner.py:56-61 | A filter-map is, position by position, the image of the order-preserving filter. |
| `Scanner.CollectMetaSound` | Core/scanner.py:56-61 | Each record is the record of some path whose `stat()` succeeds. |
| `Scanner.CollectMetaComplete` | Core/scanner.py:56-61 | Each path whose `stat()` succeeds has its record in the output. |
| `Scanner.CollectMetaInOrder` | Core/scanner.py:56-61 | Records come in the order of their paths: the `i`-th record is the record of the `i`-th path whose `stat()` succeeds. |
| `Scanner.CollectMetaAppend` | Core/scanner.py:56-61 | The records of two consecutive runs of paths are the records of the first run followed by those of the second. |
| `Scanner.Scan` | Core/scanner.py:52-61 | A root that no longer exists yields nothing. Otherwise the number of records is the number of walked paths whose `stat()` succeeds. |
| `ScannerProps.IterPathsExact` | Core/scanner.py:63-84 | A file is yielded by the walk iff the declarative `Reaches` description admits it: every entry on the way is visible, no link is crossed unless links are followed, and every directory on the way is listable. |
| `ScannerProps.WalkExact` | Core/scanner.py:66-82 | The loop over a listing yields a file iff some entry of the listing admits it. |
| `ScannerProps.VisitExact` | Core/scanner.py:68-82 | One entry yields a file iff the entry admits it. |
| `ScannerProps.WalkAppend` | Core/scanner.py:67 | The walk over a concatenated listing is the concatenation of the walks. |
| `ScannerProps.DepthFirstOrder` | Core/scanner.py:66-79 | A directory's output is the outputs of its entries in listing order. Each entry's descendants appear contiguously at the entry's position and lie under that entry. |
| `ScannerProps.SkipOnlyThatEntry` | Core/scanner.py:65-84 | A skipped entry leaves its siblings' output unchanged. Skipped means `Other`, an unlistable directory, an unfollowed link, or a hidden entry. |
| `ScannerProps.HiddenDirYieldsNothing` | Core/scanner.py:69-71 | With hidden entries excluded, nothing is yielded under a directory whose path has a dot-named component. The filter runs before any type test. |
| `ScannerProps.ScanUnderDotDirIsEmpty` | Core/scanner.py:87-102 | A scan rooted anywhere inside a dot-named directory yields no record when hidden entries are excluded, because `_is_hidden` walks past the scan root. |
| `ScannerProps.ScanSound` | Core/scanner.py:52-61 | Every record comes from a reachable file whose `stat()` succeeds, satisfies the record invariants, lies under the root, and is hidden-free when hidden entries are excluded. |
| `ScannerProps.ScanComplete` | Core/scanner.py:52-61 | Every reachable file whose `stat()` succeeds has its record in the scan output. |
| `ScannerProps.ScanInWalkOrder` | Core/scanner.py:52-61 | `scan` yields records in walk order: the `i`-th record is the record of the `i`-th walked path whose `stat()` succeeds. |
| `ScannerProps.ScanDepthFirst` | Core/scanner.py:52-79 | The records of an entry of the root's listing come contiguously, after the records of the entries listed before it and before those of the entries after it. |
| `ScanExample.EndToEnd` | Core/scanner.py:52-84 | Scanning `data` holding `notes.txt`, `image.bin` and `.hidden/secret.txt` yields two records: `notes.txt`, a text file with extension `txt` and preview `hello world`, and `image.bin`, a binary file with extension `bin` and no preview. |
| `Preview.SplitLayout` | Core/scanner.py:157 | `str.split()` lays the text out: its words, interleaved with whitespace gaps that are non-empty between two words, give back the text exactly. |
| `Preview.LayoutIsSplit` | Core/scanner.py:157 | Any words that lay a text out in this way are `str.split()` of it, so the words are exactly the maximal whitespace-free runs, in order. |
| `Preview.WordLen` | Core/scanner.py:157 | The length of the leading whitespace-free run: whitespace, or the end, follows it. |
| `Preview.JoinCollapsed` | Core/scanner.py:157 | Joining words with single spaces gives a collapsed text: the only whitespace is `' '`, none leads or trails, and no two spaces are adjacent. |
| `Preview.SplitJoin` | Core/scanner.py:157 | Splitting a space-joined list of words gives back the words. |
| `Preview.CollapseNoLonger` | Core/scanner.py:157 | `" ".join(s.split())` is never longer than `s`. |
| `Preview.Collapse` | Core/scanner.py:157 | The collapsed text is collapsed, no longer than the input, and has the input's words. |
| `Preview.CollapseIdempotent` | Core/scanner.py:157 | Collapsing twice is collapsing once. |
| `Text.Lower` | Core/scanner.py:108 | Lowering keeps the length and leaves no upper-case letter. Each character is lowered on its own: `A`-`Z` become `a`-`z`, and every other character stays as it is. |
| `Text.LStripDots` | utils.py:2 | `lstrip('.')` removes every leading dot, and only leading dots: the rest is a suffix of the input that does not start with a dot. |
| `Seqs.Filter` | utils.py:3 | A list comprehension keeps, in order, exactly the elements that pass, each as often as it occurs. |
| `Seqs.FilterUnique` | utils.py:3 | Any order-preserving selection of passing elements whose length is the number of passing elements is the comprehension's result. |
| `Seqs.FilterIdempotent` | utils.py:3 | Filtering twice with one condition is filtering once. |
| `Utils.NormalizeExt` | utils.py:2 | `e.lower().lstrip('.')` has no leading dot and no upper-case letter. It is a tail of the lowered `e`, and everything dropped in front of it is dots. |
| `Utils.FilterByExtensions` | utils.py:1-3 | A record is kept iff its lowered extension equals some lowered, dot-stripped requested extension. The result is an order-preserving filter of the input. |
| `Utils.FilterLargerThan` | utils.py:5-7 | For an integer or fractional `min_kb`, a record is kept iff its size is at least `max(0, min_kb) * 1024`, an inclusive bound. A non-positive `min_kb` keeps everything, and the result is an order-preserving filter. |
| `Utils.OnlyTextFiles` | utils.py:9-10 | A record is kept iff it is a text file, in order. |
| `Utils.FiltersIdempotent` | utils.py:1-10 | Each of the three filters, applied twice, gives the same result as applied once. |
| `Utils.SortBy` | utils.py:30-31 | The result is a permutation of the input, ordered ascending or, with `reverse`, descending. Records with equal keys keep their input order in both directions. |
| `Utils.SortByDetermined` | utils.py:30-31 | Any sorted ordering that keeps equal keys in input order is the result of `sort_by`: the stable sort has one answer. |
| `Sorting.Sort` | utils.py:31 | The sorted result is a permutation of the input: every element occurs as often as before. |
| `Sorting.SortSorted` | utils.py:31 | The sorted result is ordered by the key, ascending or, with `reverse`, descending. |
| `Sorting.SortStable` | utils.py:31 | The sort is stable in both directions: the elements with any one key appear in their input order. |
| `Sorting.StableSortUnique` | utils.py:31 | Two sequences sorted by one key that agree on every group of equal keys are equal. |
| `Sorting.SortKeepsTieRank` | utils.py:28 | Sorting keeps elements of equal key in any order they were ranked in, which is how `most_common` keeps first-seen order for equal counts. |
| `Sorting.SortKeepsSum` | utils.py:28 | Sorting does not change the sum of a weight over the elements. |
| `Utils.Distinct` | utils.py:27 | The keys of a `Counter` are exactly the keys that occur, in order of first occurrence. |
| `Utils.CounterCounts` | utils.py:27 | A `Counter` built by adding one per occurrence holds exactly the keys that occur, each with its number of occurrences. |
| `Utils.TallyIsCounter` | utils.py:27 | The tally pairs each occurring key with the count the `Counter` accumulated for it. |
| `Utils.TallySum` | utils.py:27 | The counts of the distinct keys add up to the number of keys counted. |
| `Utils.CountByExtension` | utils.py:25-28 | Each key is the extension, or `-` when it is empty. Each count is the key's number of records. Every record's key appears, once. Counts never increase along the result, and equal counts keep first-seen order. The counts add up to the number of records. |
| `Utils.CountByExtensionIsCounter` | utils.py:25-28 | The result lists the `Counter`'s entries: each pair is a key of the `Counter` with its count, and every key of the `Counter` has a pair. |
| `Utils.BriefView` | utils.py:12-23 | One entry per record, in order, with name and folder copied. `ext` is the extension when that is not empty, and `ext` is `-` iff the extension is empty or is itself `-`. |
| `UtilsExample.LargerThanBoundary` | utils.py:5-7 | At `min_kb=512` a 524288-byte record is kept and a 524287-byte record is dropped. |
| `UtilsExample.HalfKilobyte` | utils.py:5-7 | At `min_kb=0.5` the bound is 512 bytes: a 512-byte record is kept and a 511-byte record is dropped. |
| `UtilsExample.PlaceholderShared` | utils.py:25-28 | A file without extension and a file `notes.-` are counted under the one key `-`, and their brief views show the same `ext`. |
| `UtilsExample.SortStableReverse` | utils.py:30-31 | Sizes 5, 9, 5 sorted with `reverse=True` give the 9 first, then the two 5s in their input order. |

Two behaviours of the code are worth knowing:

- The placeholder `-` of `brief_view` and `count_by_extension` is indistinguishable from a real extension `-`. A file named `a.-` has suffix `.-`, so its extension is `-`. Hence "`ext` is `-` iff the extension is empty" does not hold for such a file; `Utils.BriefView` states the exact condition.
- With `include_hidden=False`, a scan of `data` holding `notes.txt`, `image.bin` and `.hidden/secret.txt` yields two records, not only `notes.txt`. `image.bin` is a regular, non-hidden file, so it is yielded, as a binary file without preview. The model follows the code; see `ScanExample.EndToEnd`.

## Left out

- Real I/O (`os.scandir`, `Path.stat`, `open`/`read`, `Path.expanduser`/`Path.resolve`): replaced by the tree and the recorded outcomes of each call. The root is taken as already resolved.
- Timestamps (`created`, `modified`, `_ts_to_dt`, `isoformat`): local-time conversion depends on the host, so `FileMeta` has no time fields. The failures of `_ts_to_dt` (Core/scanner.py:109-110, 130-132) are not modelled either, and every statement here about "a file whose `stat()` succeeds" assumes both conversions succeed. In the source, `datetime.fromtimestamp` can fail after a successful `stat()` in two ways:
  - an `OSError`, such as a negative time on Windows, is caught at Core/scanner.py:59, so that file gets no record;
  - a `ValueError` or `OverflowError`, such as `st_mtime = 1e12`, is not caught, so it leaves `scan` and ends the scan at its caller.
- Float size formatting (`human_size` in utils.py, `_hsize` in the `__main__` block): floating point.
- `follow_symlinks=True` on cyclic links: the code does no cycle breaking, and a finite tree cannot express the endless walk. With links followed, a link entry describes its target.
- UTF-8 decoding with `errors="ignore"`: the decoded text is an input, and the first 500 characters read are modelled as its first 500 characters.
- Generator laziness: the output is a sequence. The interleaving of I/O with the consumer is not modelled.
- The `__main__` block of Core/scanner.py and all of main.py: command-line glue, printing and JSON output.
- `FileMeta.to_dict`: a field-by-field dictionary copy.
- Windows paths and drive letters: paths are POSIX component lists.
- Text.Lower: `str.lower()` is modelled for the ASCII letters `A`-`Z` only. Full Unicode case mapping, including mappings that change the length, is outside this model. This affects the extension in Core/scanner.py:108 and the two `lower()` calls of `filter_by_extensions` at utils.py:2-3.
- Scanner.Extension: lower-casing is limited as stated under `Text.Lower`. The suffix rule is the one `pathlib` used before Python 3.14, where a name ending in a dot has no suffix.
- Utils.SortBy: the key is an integer, such as the `size_bytes` the callers sort on; Python's ordering of arbitrary key types is not modelled.
- Utils.BriefView: only `name`, `ext` and `folder` are modelled; `size` is float formatting and `modified` is a timestamp.
- Utils.CountByExtension: the resulting `dict` is modelled as its ordered list of (key, count) pairs, which is the iteration order Python dictionaries keep.
- Scanner.PathToMetadata: `path` and `parent` are component lists rather than the strings `str(path)` and `str(path.parent)`.
- Utils.FilterLargerThan: `min_kb` is a real number, which covers Python's `int` and finite `float` values exactly, since multiplying by 1024 and comparing an `int` with a `float` are exact. A NaN or infinite `min_kb`, and the overflow of `min_kb * 1024` to infinity, are not modelled.
- Scanner.IterPaths: a listing that raises part-way through `for entry in it` (Core/scanner.py:67) is represented by the entries it delivered before raising. The code keeps the paths already yielded and drops the rest of that directory (line 83), and the walk over that shorter listing yields the same paths. The tree does not record that the raise happened.
