/**
 * Which files a scan picks up: every file of the walked tree whose
 * lower-cased name ends with one of seven image suffixes, joined with its
 * directory, in the order the walk yields them.
 */
module Selection {
  import opened Text
  import opened Paths

  const SupportedFormats: seq<string> := [".jpg", ".jpeg", ".gif", ".tif", ".tiff", ".bmp", ".png"]

  /** One step of `os.walk`: a directory and the names of the files directly in it
      (its sub-directories are not used by the scan). */
  datatype WalkStep = WalkStep(dir: string, files: seq<string>)

  /** What the operating system guarantees of a walk: a file name is never empty
      and holds no separator. */
  predicate WellFormedWalk(walk: seq<WalkStep>)
  {
    forall i, j :: 0 <= i < |walk| && 0 <= j < |walk[i].files| ==>
      walk[i].files[j] != "" && Sep !in walk[i].files[j]
  }

  predicate IsImageName(name: string)
  {
    EndsWithAny(Lower(name), SupportedFormats)
  }

  /** The paths of the image files among `files`, all in directory `dir`. */
  function SelectIn(dir: string, files: seq<string>): (paths: seq<string>)
    ensures |paths| <= |files|
  {
    if files == [] then []
    else (if IsImageName(files[0]) then [Join(dir, files[0])] else []) + SelectIn(dir, files[1..])
  }

  /** The list the scan builds from the whole walk. */
  function SelectImages(walk: seq<WalkStep>): (paths: seq<string>)
  {
    if walk == [] then [] else SelectIn(walk[0].dir, walk[0].files) + SelectImages(walk[1..])
  }

  /** The number of image names in the walk, counted directly on the names. */
  function ImageCount(walk: seq<WalkStep>): nat
  {
    if walk == [] then 0 else NamesCount(walk[0].files) + ImageCount(walk[1..])
  }

  function NamesCount(names: seq<string>): nat
  {
    if names == [] then 0 else (if IsImageName(names[0]) then 1 else 0) + NamesCount(names[1..])
  }

  /** True when file `j` of walk step `i` has an image name and joins to path `p`. */
  predicate Offers(walk: seq<WalkStep>, i: int, j: int, p: string)
  {
    0 <= i < |walk| && 0 <= j < |walk[i].files| &&
    IsImageName(walk[i].files[j]) && p == Join(walk[i].dir, walk[i].files[j])
  }

  lemma ImageNameIff(name: string)
    ensures IsImageName(name) <==>
      exists k :: 0 <= k < |SupportedFormats| && EndsWith(Lower(name), SupportedFormats[k])
  {
    EndsWithAnyIff(Lower(name), SupportedFormats);
  }

  /** Names with a supported suffix pass whatever their case. */
  lemma ImageNameAccepts()
    ensures IsImageName("A.JPG") && IsImageName("scan.Tiff") && IsImageName(".png")
  {
    assert Lower("A.JPG") == "a.jpg" && EndsWith("a.jpg", SupportedFormats[0]);
    assert Lower("scan.Tiff") == "scan.tiff" && EndsWith("scan.tiff", SupportedFormats[4]);
    assert Lower(".png") == ".png" && EndsWith(".png", SupportedFormats[6]);
  }

  /** A suffix counts only at the very end, and only with its dot. */
  lemma ImageNameRejects()
    ensures !IsImageName("photo.jpg.txt") && !IsImageName("png")
  {
    LowerNoUpper("photo.jpg.txt");
    LowerNoUpper("png");
  }

  /** The test ignores the case of ASCII letters. */
  lemma ImageNameCaseInsensitive(name: string)
    ensures IsImageName(Upper(name)) == IsImageName(name)
    ensures IsImageName(Lower(name)) == IsImageName(name)
  {
    LowerOfUpper(name);
    LowerIdempotent(name);
  }

  lemma {:induction false} SelectInCount(dir: string, files: seq<string>)
    ensures |SelectIn(dir, files)| == NamesCount(files)
  {
    if files != [] {
      SelectInCount(dir, files[1..]);
    }
  }

  /** One selected path per image name in the walk: N images give N paths. */
  lemma {:induction false} SelectImagesCount(walk: seq<WalkStep>)
    ensures |SelectImages(walk)| == ImageCount(walk)
  {
    if walk != [] {
      SelectInCount(walk[0].dir, walk[0].files);
      SelectImagesCount(walk[1..]);
    }
  }

  /** Within one directory the selected paths keep the order of its file names. */
  lemma {:induction false} SelectInAppend(dir: string, a: seq<string>, b: seq<string>)
    ensures SelectIn(dir, a + b) == SelectIn(dir, a) + SelectIn(dir, b)
  {
    if a != [] {
      assert (a + b)[0] == a[0];
      assert (a + b)[1..] == a[1..] + b;
      SelectInAppend(dir, a[1..], b);
    } else {
      assert a + b == b;
    }
  }

  /** Selection keeps walk order: a walk split in two selects the two halves' paths in turn. */
  lemma {:induction false} SelectImagesAppend(w1: seq<WalkStep>, w2: seq<WalkStep>)
    ensures SelectImages(w1 + w2) == SelectImages(w1) + SelectImages(w2)
  {
    if w1 != [] {
      assert (w1 + w2)[1..] == w1[1..] + w2;
      SelectImagesAppend(w1[1..], w2);
    } else {
      assert w1 + w2 == w2;
    }
  }

  lemma {:induction false} SelectInMember(dir: string, files: seq<string>, p: string)
    ensures p in SelectIn(dir, files) <==>
      exists j :: 0 <= j < |files| && IsImageName(files[j]) && p == Join(dir, files[j])
  {
    if files != [] {
      SelectInMember(dir, files[1..], p);
      if exists j :: 0 <= j < |files| && IsImageName(files[j]) && p == Join(dir, files[j]) {
        var j :| 0 <= j < |files| && IsImageName(files[j]) && p == Join(dir, files[j]);
        if j > 0 {
          assert files[1..][j - 1] == files[j];
        }
      }
      if p in SelectIn(dir, files[1..]) {
        var j :| 0 <= j < |files[1..]| && IsImageName(files[1..][j]) && p == Join(dir, files[1..][j]);
        assert files[j + 1] == files[1..][j];
      }
    }
  }

  /** A path is selected exactly when some image file of the walk joins to it. */
  lemma {:induction false} SelectImagesMember(walk: seq<WalkStep>, p: string)
    ensures p in SelectImages(walk) <==> exists i, j :: Offers(walk, i, j, p)
  {
    if walk != [] {
      SelectImagesMember(walk[1..], p);
      SelectInMember(walk[0].dir, walk[0].files, p);
      if exists i, j :: Offers(walk, i, j, p) {
        var i, j :| Offers(walk, i, j, p);
        if i > 0 {
          assert Offers(walk[1..], i - 1, j, p);
        } else {
          assert IsImageName(walk[0].files[j]) && p == Join(walk[0].dir, walk[0].files[j]);
        }
      }
      if p in SelectIn(walk[0].dir, walk[0].files) {
        var j :| 0 <= j < |walk[0].files| && IsImageName(walk[0].files[j]) && p == Join(walk[0].dir, walk[0].files[j]);
        assert Offers(walk, 0, j, p);
      }
      if exists i, j :: Offers(walk[1..], i, j, p) {
        var i, j :| Offers(walk[1..], i, j, p);
        assert Offers(walk, i + 1, j, p);
      }
    }
  }

  /** Every selected path names an image file: its basename passes the suffix test. */
  lemma SelectedAreImages(walk: seq<WalkStep>, p: string)
    requires WellFormedWalk(walk)
    requires p in SelectImages(walk)
    ensures IsImageName(Basename(p))
  {
    SelectImagesMember(walk, p);
    var i, j :| Offers(walk, i, j, p);
    BasenameOfJoin(walk[i].dir, walk[i].files[j]);
  }

  /** A file whose name fails the suffix test never appears in the selection,
      whatever directory it sits in. */
  lemma NonImageNeverSelected(walk: seq<WalkStep>, dir: string, name: string)
    requires WellFormedWalk(walk)
    requires Sep !in name && !IsImageName(name)
    ensures Join(dir, name) !in SelectImages(walk)
  {
    BasenameOfJoin(dir, name);
    if Join(dir, name) in SelectImages(walk) {
      SelectedAreImages(walk, Join(dir, name));
    }
  }

  /** The "no images found" outcome: the selection is empty exactly when no
      file of the walk has an image name. */
  lemma NoImagesFound(walk: seq<WalkStep>)
    ensures SelectImages(walk) == [] <==>
      forall i, j :: 0 <= i < |walk| && 0 <= j < |walk[i].files| ==> !IsImageName(walk[i].files[j])
  {
    SelectImagesCount(walk);
    if SelectImages(walk) != [] {
      SelectImagesMember(walk, SelectImages(walk)[0]);
    } else {
      forall i, j | 0 <= i < |walk| && 0 <= j < |walk[i].files| && IsImageName(walk[i].files[j])
        ensures false
      {
        SelectImagesMember(walk, Join(walk[i].dir, walk[i].files[j]));
        assert Offers(walk, i, j, Join(walk[i].dir, walk[i].files[j]));
      }
    }
  }

  /** A folder holding one PNG and one text file: only the PNG is selected, joined
      with its folder. */
  lemma SelectExample()
    ensures SelectImages([WalkStep("/photos", ["a.png", "b.txt"])]) == ["/photos/a.png"]
  {
    assert Lower("a.png") == "a.png" && EndsWith("a.png", SupportedFormats[6]);
    assert Lower("b.txt") == "b.txt";
    assert Join("/photos", "a.png") == "/photos/a.png";
    assert ["a.png", "b.txt"][1..] == ["b.txt"] && ["b.txt"][1..] == [];
    assert SelectIn("/photos", ["b.txt"]) == [];
    assert SelectIn("/photos", ["a.png", "b.txt"]) == ["/photos/a.png"];
  }
}
