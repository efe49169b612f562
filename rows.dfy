/**
 * Turning a decoded image into the five cells of a table row, and the
 * per-file loop's outcome: a row for each file that decodes, nothing for a
 * file that fails, and the loop going on either way.
 */
module Rows {
  import opened Text
  import opened Paths

  /** A value of the decoder's loosely typed info mapping, as far as the row uses
      it: a tuple of numbers (a `dpi` entry) or a text (a `compression` label). */
  datatype InfoValue = Numbers(items: seq<int>) | Label(text: string)

  /** What the decoder reports of a file that opens. */
  datatype Image = Image(width: nat, height: nat, mode: string, info: map<string, InfoValue>)

  /** The cells of a table row: Filename, Dimensions, Resolution, Color Depth, Compression. */
  datatype Row = Row(filename: string, dimensions: string, resolution: string,
                     colorDepth: string, compression: InfoValue)

  /** A row and the file it was built from. */
  datatype Inserted = Inserted(path: string, row: Row)

  /** Bits per pixel of the pixel modes the application knows. */
  const ModeToBpp: map<string, nat> := map[
    "1" := 1, "L" := 8, "P" := 8, "RGB" := 24, "RGBA" := 32, "CMYK" := 32, "YCbCr" := 24,
    "LAB" := 24, "HSV" := 24, "I" := 32, "F" := 32]

  const Bits: string := " bits"

  const NoCompression: InfoValue := Label("None")

  function ColorDepth(mode: string): (depth: string)
    ensures EndsWith(depth, Bits)
  {
    (if mode in ModeToBpp then NatStr(ModeToBpp[mode]) else "Unknown") + Bits
  }

  /** The text before " bits". */
  function DepthNumber(depth: string): string
    requires EndsWith(depth, Bits)
  {
    depth[..|depth| - |Bits|]
  }

  /** The depth is "Unknown bits" exactly for the modes missing from the table. */
  lemma ColorDepthUnknownIff(mode: string)
    ensures ColorDepth(mode) == "Unknown bits" <==> mode !in ModeToBpp
  {
    if mode in ModeToBpp {
      assert IsDigit(ColorDepth(mode)[0]);
      assert !IsDigit("Unknown bits"[0]);
    }
  }

  /** For a known mode the number in front of " bits" reads back as the table's entry. */
  lemma ColorDepthReadsBack(mode: string)
    requires mode in ModeToBpp
    ensures AllDigits(DepthNumber(ColorDepth(mode)))
    ensures DecimalValue(DepthNumber(ColorDepth(mode))) == ModeToBpp[mode]
  {
    assert DepthNumber(ColorDepth(mode)) == NatStr(ModeToBpp[mode]);
    DecimalRoundTrip(ModeToBpp[mode]);
  }

  lemma ColorDepthExamples()
    ensures ColorDepth("RGB") == "24 bits" && ColorDepth("1") == "1 bits"
    ensures ColorDepth("LA") == "Unknown bits"
  {
    assert ModeToBpp["RGB"] == 24 && ModeToBpp["1"] == 1;
    assert DigitChar(2) == '2' && DigitChar(4) == '4' && DigitChar(1) == '1';
    assert NatStr(24) == "24" && NatStr(1) == "1";
    assert "LA" !in ModeToBpp;
  }

  /** Two texts on either side of " x ", as the Dimensions and Resolution cells are written. */
  function ByCell(a: string, b: string): (cell: string)
  {
    a + " x " + b
  }

  /** A cell whose halves hold no blank splits back into its halves. */
  lemma ByCellInjective(a1: string, b1: string, a2: string, b2: string)
    requires ' ' !in a1 && ' ' !in a2
    ensures ByCell(a1, b1) == ByCell(a2, b2) ==> a1 == a2 && b1 == b2
  {
    if ByCell(a1, b1) == ByCell(a2, b2) {
      var c := ByCell(a1, b1);
      assert forall i :: 0 <= i < |a1| ==> c[i] == a1[i] && c[i] != ' ';
      assert forall i :: 0 <= i < |a2| ==> c[i] == a2[i] && c[i] != ' ';
      assert c[|a1|] == ' ' && c[|a2|] == ' ';
      assert |a1| == |a2|;
      assert a1 == c[..|a1|] == a2;
      assert b1 == c[|a1| + 3..] == b2;
    }
  }

  function Dimensions(width: nat, height: nat): (cell: string)
  {
    ByCell(NatStr(width), NatStr(height))
  }

  /** The Dimensions cell determines the width and the height. */
  lemma DimensionsInjective(w1: nat, h1: nat, w2: nat, h2: nat)
    ensures Dimensions(w1, h1) == Dimensions(w2, h2) ==> w1 == w2 && h1 == h2
  {
    ByCellInjective(NatStr(w1), NatStr(h1), NatStr(w2), NatStr(h2));
    NatStrInjective(w1, w2);
    NatStrInjective(h1, h2);
  }

  /** The `dpi` entry, or (0, 0) when the mapping has none. */
  function Dpi(info: map<string, InfoValue>): (dpi: InfoValue)
  {
    if "dpi" in info then info["dpi"] else Numbers([0, 0])
  }

  /** The Resolution cell: the first two items of the dpi value around " x ".
      A dpi value with fewer than two items cannot be indexed twice, and the row
      is not built. A text indexes to its first two characters. */
  function Resolution(info: map<string, InfoValue>): (cell: Option<string>)
  {
    match Dpi(info)
    case Numbers(xs) => if |xs| >= 2 then Some(ByCell(IntStr(xs[0]), IntStr(xs[1]))) else None
    case Label(s) => if |s| >= 2 then Some(ByCell([s[0]], [s[1]])) else None
  }

  /** The `compression` entry, or the label "None" when the mapping has none. */
  function Compression(info: map<string, InfoValue>): (compression: InfoValue)
  {
    if "compression" in info then info["compression"] else NoCompression
  }

  /** The row for a decoded file, or None when building it raises. */
  function MakeRow(path: string, img: Image): (row: Option<Row>)
  {
    match Resolution(img.info)
    case None => None
    case Some(resolution) =>
      Some(Row(Basename(path), Dimensions(img.width, img.height), resolution,
               ColorDepth(img.mode), Compression(img.info)))
  }

  /** Size of a dpi value as Python's indexing sees it. */
  function ItemCount(v: InfoValue): nat
  {
    match v
    case Numbers(xs) => |xs|
    case Label(s) => |s|
  }

  /** Building a row fails exactly when the dpi entry is present with fewer than two items. */
  lemma MakeRowFailsIff(path: string, img: Image)
    ensures MakeRow(path, img).None? <==> "dpi" in img.info && ItemCount(img.info["dpi"]) < 2
  {
  }

  /** Missing entries take their defaults: resolution "0 x 0", compression "None". */
  lemma MakeRowDefaults(path: string, img: Image)
    ensures "dpi" !in img.info ==> MakeRow(path, img).Some? && MakeRow(path, img).value.resolution == "0 x 0"
    ensures MakeRow(path, img).Some? && "compression" !in img.info ==>
      MakeRow(path, img).value.compression == Label("None")
    ensures MakeRow(path, img).Some? && "compression" in img.info ==>
      MakeRow(path, img).value.compression == img.info["compression"]
  {
    if "dpi" !in img.info {
      assert DigitChar(0) == '0';
      assert IntStr(0) == "0";
      assert Dpi(img.info) == Numbers([0, 0]);
      assert ByCell(IntStr(0), IntStr(0)) == "0 x 0";
      assert Resolution(img.info) == Some("0 x 0");
    }
  }

  /** A two-number dpi entry is used: the row is built and its Resolution cell shows
      the two numbers. */
  lemma MakeRowUsesDpi(path: string, img: Image, x: int, y: int)
    requires "dpi" in img.info && img.info["dpi"] == Numbers([x, y])
    ensures MakeRow(path, img).Some? && MakeRow(path, img).value.resolution == ByCell(IntStr(x), IntStr(y))
  {
  }

  /** The numbers of a two-number dpi entry can be read back from the Resolution cell. */
  lemma MakeRowResolution(path: string, img: Image, x: int, y: int, x': int, y': int)
    requires "dpi" in img.info && img.info["dpi"] == Numbers([x, y])
    requires MakeRow(path, img).Some? && MakeRow(path, img).value.resolution == ByCell(IntStr(x'), IntStr(y'))
    ensures x == x' && y == y'
  {
    ByCellInjective(IntStr(x), IntStr(y), IntStr(x'), IntStr(y'));
    IntStrInjective(x, x');
    IntStrInjective(y, y');
  }

  /** A built row holds the five cells the application writes: the file's basename,
      the decoded sizes, the resolution, the depth and the compression. */
  lemma MakeRowShape(path: string, img: Image, row: Row)
    requires MakeRow(path, img) == Some(row)
    ensures row.filename == Basename(path)
    ensures row.dimensions == Dimensions(img.width, img.height)
    ensures Resolution(img.info) == Some(row.resolution)
    ensures row.colorDepth == ColorDepth(img.mode)
    ensures row.compression == Compression(img.info)
  {
  }

  /** A row built for a joined path is named by the joined file name. */
  lemma MakeRowNamesFile(dir: string, name: string, img: Image, row: Row)
    requires Sep !in name
    requires MakeRow(Join(dir, name), img) == Some(row)
    ensures row.filename == name
  {
    MakeRowShape(Join(dir, name), img, row);
    BasenameOfJoin(dir, name);
  }

  /** What the `try` block yields for one file: nothing when the file does not
      open (it is missing from `images`) or when building its row raises. */
  function RowFor(path: string, images: map<string, Image>): (row: Option<Row>)
  {
    if path in images then MakeRow(path, images[path]) else None
  }

  /** The row a file adds to the table, if any. */
  function Emit(path: string, outcome: Option<Row>): (added: seq<Inserted>)
    ensures |added| <= 1
  {
    match outcome
    case None => []
    case Some(row) => [Inserted(path, row)]
  }

  /** The loop over `files` for any per-file outcome `build`: the rows added, in file order. */
  function Collect(files: seq<string>, build: string -> Option<Row>): (added: seq<Inserted>)
    ensures |added| <= |files|
  {
    if files == [] then []
    else Collect(files[..|files| - 1], build) + Emit(files[|files| - 1], build(files[|files| - 1]))
  }

  /** Everything the loop of the application inserts. */
  function Decoded(files: seq<string>, images: map<string, Image>): (added: seq<Inserted>)
  {
    Collect(files, path => RowFor(path, images))
  }

  /** The loop's outcome over two runs of files is the outcomes one after the other. */
  lemma {:induction false} CollectAppend(a: seq<string>, b: seq<string>, build: string -> Option<Row>)
    ensures Collect(a + b, build) == Collect(a, build) + Collect(b, build)
  {
    if b == [] {
      assert a + b == a;
    } else {
      var last := |b| - 1;
      assert (a + b)[..|a + b| - 1] == a + b[..last];
      CollectAppend(a, b[..last], build);
    }
  }

  /** A file that fails adds nothing, and the files after it are still processed. */
  lemma FailureIsolated(a: seq<string>, path: string, b: seq<string>, build: string -> Option<Row>)
    requires build(path).None?
    ensures Collect(a + [path] + b, build) == Collect(a + b, build)
  {
    calc {
      Collect(a + [path] + b, build);
      { CollectAppend(a + [path], b, build); }
      Collect(a + [path], build) + Collect(b, build);
      { assert (a + [path])[..|a|] == a; }
      Collect(a, build) + Collect(b, build);
      { CollectAppend(a, b, build); }
      Collect(a + b, build);
    }
  }

  /** A row is added for a path exactly when the path is among the files and its
      outcome is that row. */
  lemma {:induction false} CollectMember(files: seq<string>, build: string -> Option<Row>, e: Inserted)
    ensures e in Collect(files, build) <==> e.path in files && build(e.path) == Some(e.row)
  {
    if files != [] {
      var init := files[..|files| - 1];
      CollectMember(init, build, e);
      assert files == init + [files[|files| - 1]];
    }
  }

  /** When every file succeeds there is one row per file, in the same order. */
  lemma {:induction false} CollectAllSucceed(files: seq<string>, build: string -> Option<Row>)
    requires forall k :: 0 <= k < |files| ==> build(files[k]).Some?
    ensures |Collect(files, build)| == |files|
    ensures forall k :: 0 <= k < |files| ==> Collect(files, build)[k].path == files[k]
  {
    if files != [] {
      var init, last := files[..|files| - 1], files[|files| - 1];
      CollectAllSucceed(init, build);
      var d, di := Collect(files, build), Collect(init, build);
      assert d == di + [Inserted(last, build(last).value)];
      forall k | 0 <= k < |files|
        ensures d[k].path == files[k]
      {
        if k < |init| {
          assert d[k] == di[k];
        }
      }
    }
  }

  /** The loop's outcome after one more file: the previous outcome and that file's row. */
  lemma CollectStep(files: seq<string>, i: nat, build: string -> Option<Row>)
    requires i < |files|
    ensures Collect(files[..i + 1], build) == Collect(files[..i], build) + Emit(files[i], build(files[i]))
  {
    assert files[..i + 1][..i] == files[..i];
  }

  /** The loop's outcome after one more selected file. */
  lemma DecodedStep(files: seq<string>, i: nat, images: map<string, Image>)
    requires i < |files|
    ensures Decoded(files[..i + 1], images) == Decoded(files[..i], images) + Emit(files[i], RowFor(files[i], images))
  {
    CollectStep(files, i, path => RowFor(path, images));
  }

  /** An RGB image without dpi or compression entries gives one row with the defaults. */
  lemma DecodeExample()
    ensures Decoded(["/photos/a.png"], map["/photos/a.png" := Image(100, 50, "RGB", map[])]) ==
      [Inserted("/photos/a.png", Row("a.png", "100 x 50", "0 x 0", "24 bits", Label("None")))]
  {
    var img := Image(100, 50, "RGB", map[]);
    var row := Row("a.png", "100 x 50", "0 x 0", "24 bits", Label("None"));
    MakeRowExample();
    assert RowFor("/photos/a.png", map["/photos/a.png" := img]) == Some(row);
    DecodedStep(["/photos/a.png"], 0, map["/photos/a.png" := img]);
    assert ["/photos/a.png"][..1] == ["/photos/a.png"];
  }

  /** The row of that image, cell by cell. */
  lemma MakeRowExample()
    ensures MakeRow("/photos/a.png", Image(100, 50, "RGB", map[])) ==
      Some(Row("a.png", "100 x 50", "0 x 0", "24 bits", Label("None")))
  {
    assert Join("/photos", "a.png") == "/photos/a.png";
    BasenameOfJoin("/photos", "a.png");
    assert DigitChar(0) == '0' && DigitChar(1) == '1' && DigitChar(5) == '5';
    assert NatStr(100) == "100" && NatStr(50) == "50";
    assert Dimensions(100, 50) == "100 x 50";
    assert IntStr(0) == "0";
    var noInfo: map<string, InfoValue> := map[];
    assert Dpi(noInfo) == Numbers([0, 0]);
    assert ByCell(IntStr(0), IntStr(0)) == "0 x 0";
    assert Resolution(noInfo) == Some("0 x 0");
    ColorDepthExamples();
    assert Compression(noInfo) == Label("None");
  }
}
