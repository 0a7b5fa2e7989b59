/** The end-to-end scenario: a root holding `notes.txt`, the binary
    `image.bin` and `.hidden/secret.txt`, scanned with the default
    policies. */
module ScanExample {
  import opened Wrappers
  import opened Text
  import opened FsTree
  import opened Scanner
  import opened Preview

  const Notes := File("notes.txt", false,
    FileData(Some(11), Some([104, 101, 108, 108, 111, 32, 119, 111, 114, 108, 100]), Some("hello world")))
  const Image := File("image.bin", false, FileData(Some(3), Some([137, 0, 80]), Some("P")))
  const Secret := File("secret.txt", false, FileData(Some(6), Some([115, 101, 99, 114, 101, 116]), Some("secret")))
  const Data := Dir("data", false, true, [Notes, Image, Dir(".hidden", false, true, [Secret])])
  const Fs := Dir("", false, true, [Data])

  lemma CollapseHelloWorld(t: string)
    requires t == "hello world"
    ensures Collapse(t) == t
  {
    var ws := ["hello", "world"];
    assert Join(ws) == t by {
      assert ws[1..] == ["world"];
    }
    SplitJoin(ws);
  }

  lemma ExtensionOf(stem: string, ext: string)
    requires |stem| > 0 && |ext| > 0 && IsLower(ext)
    requires forall i | 0 <= i < |ext| :: ext[i] != '.'
    ensures Extension(stem + "." + ext) == ext
  {
    var name := stem + "." + ext;
    assert SuffixDotAt(name, |stem|);
    assert name[|stem| + 1..] == ext;
  }

  const Default := FileScanner(["data"], false, false)
  const NotesAt := Located(["data", "notes.txt"], Notes)
  const ImageAt := Located(["data", "image.bin"], Image)

  /** The walk yields the two visible files in listing order and never
      enters `.hidden`. */
  lemma DataPaths()
    ensures IterPaths(Default, ["data"], Data) == [NotesAt, ImageAt]
  {
    var s := Default;
    assert !HasDotComponent(["data"]) by {
      assert ["data"][0][0] == 'd';
    }
    assert !IsHidden("notes.txt", ["data"]) && !IsHidden("image.bin", ["data"]);
    assert ["data"] + ["notes.txt"] == ["data", "notes.txt"];
    assert ["data"] + ["image.bin"] == ["data", "image.bin"];
    assert Visit(s, ["data"], Notes) == [NotesAt];
    assert Visit(s, ["data"], Image) == [ImageAt];
    assert Visit(s, ["data"], Data.children[2]) == [] by {
      assert IsHidden(".hidden", ["data"]);
    }
    var cs := Data.children;
    assert cs[1..][1..][1..] == [];
    assert Walk(s, ["data"], cs[1..][1..]) == [] + Walk(s, ["data"], []);
    assert Walk(s, ["data"], cs[1..]) == [ImageAt];
    assert Walk(s, ["data"], cs) == [NotesAt] + [ImageAt];
  }

  lemma HelloPreview(t: string)
    requires t == "hello world"
    ensures SafeReadPreview(Some(t)) == Some(t)
  {
    CollapseHelloWorld(t);
    assert t[..Min(|t|, PreviewChars)] == t;
  }

  lemma NotesRecord()
    ensures MetaOf(NotesAt) == FileMeta(["data", "notes.txt"], "notes.txt", ["data"], "txt", 11, true, Some("hello world"))
  {
    NotesRecordOf(NotesAt.path, NotesAt.entry.data);
  }

  lemma NotesRecordOf(path: Path, data: FileData)
    requires path == ["data", "notes.txt"] && data == Notes.data
    ensures PathToMetadata(path, data) == Some(FileMeta(["data", "notes.txt"], "notes.txt", ["data"], "txt", 11, true, Some("hello world")))
  {
    assert Name(path) == "notes.txt" && Parent(path) == ["data"];
    assert Extension(Name(path)) == "txt" by {
      assert "notes" + "." + "txt" == "notes.txt";
      ExtensionOf("notes", "txt");
    }
    assert LooksLikeText(data.bytes);
    HelloPreview(data.text.value);
  }

  lemma ImageRecord()
    ensures MetaOf(ImageAt) == FileMeta(["data", "image.bin"], "image.bin", ["data"], "bin", 3, false, None)
  {
    ImageRecordOf(ImageAt.path, ImageAt.entry.data);
  }

  lemma ImageRecordOf(path: Path, data: FileData)
    requires path == ["data", "image.bin"] && data == Image.data
    ensures PathToMetadata(path, data) == Some(FileMeta(["data", "image.bin"], "image.bin", ["data"], "bin", 3, false, None))
  {
    assert Name(path) == "image.bin" && Parent(path) == ["data"];
    assert Extension(Name(path)) == "bin" by {
      assert "image" + "." + "bin" == "image.bin";
      ExtensionOf("image", "bin");
    }
    assert data.bytes.value[1] == 0;
    assert !LooksLikeText(data.bytes);
  }

  /** `notes.txt` is text with the preview "hello world"; `image.bin`,
      which holds a NUL byte, is binary without preview; nothing below
      `.hidden` is reported. */
  lemma EndToEnd()
    ensures Scan(Default, Fs) == [
      FileMeta(["data", "notes.txt"], "notes.txt", ["data"], "txt", 11, true, Some("hello world")),
      FileMeta(["data", "image.bin"], "image.bin", ["data"], "bin", 3, false, None)]
  {
    ScanOf(Default, Fs);
    NotesRecord();
    ImageRecord();
  }

  lemma ScanOf(s: FileScanner, fs: Node)
    requires s == Default && fs == Fs
    ensures Scan(s, fs) == [MetaOf(NotesAt), MetaOf(ImageAt)]
  {
    assert Lookup(fs, s.root) == Some(Data) by {
      assert s.root[1..] == [];
    }
    DataPaths();
    CollectTwo(NotesAt, ImageAt);
  }

  lemma CollectTwo(x: Located, y: Located)
    requires StatOk(x) && StatOk(y)
    ensures CollectMeta([x, y]) == [MetaOf(x), MetaOf(y)]
  {
    assert CollectMeta([y]) == [MetaOf(y)] by {
      assert [y][1..] == [];
    }
    assert CollectMeta([x, y]) == [MetaOf(x)] + CollectMeta([y]) by {
      assert [x, y][1..] == [y];
    }
  }
}
