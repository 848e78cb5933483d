/**
 * `split.py`: collect the images of `../photo/images` by extension, cut the
 * shuffled list at `int(n * 0.75)`, and move each image with its `<stem>.txt`
 * label into the `train` or `val` sub-folder, all train pairs first.
 */
module Split {
  import opened Results
  import opened Paths
  import opened Files

  const Root: Path := ["..", "photo"]
  const ImgDir: Path := Root + ["images"]
  const LblDir: Path := Root + ["labels"]
  const ImageExts: set<string> := {".png", ".jpg", ".jpeg"}
  const TrainSplit: string := "train"
  const ValSplit: string := "val"

  /** `p.suffix.lower() in IMG_EXTS` */
  predicate IsImageName(name: string)
  {
    Lower(Suffix(name)) in ImageExts
  }

  /** A collected name ends, case-insensitively, in the extension its suffix lowers to. */
  lemma ImageNameEnds(name: string)
    requires IsImageName(name)
    ensures |Suffix(name)| < |name| && Lower(name[|name| - |Suffix(name)|..]) == Lower(Suffix(name))
  {
    assert Suffix(name) != "";
    var i := RFind(name, '.');
    assert name[|name| - |Suffix(name)|..] == name[i..];
  }

  /** A name that ends, case-insensitively, in an extension after a non-empty stem has that suffix. */
  lemma ExtensionIsSuffix(name: string, e: string)
    requires e in ImageExts && |e| < |name| && Lower(name[|name| - |e|..]) == e
    ensures Suffix(name) == name[|name| - |e|..]
  {
    var k := |name| - |e|;
    var tail := name[k..];
    assert e == ".png" || e == ".jpg" || e == ".jpeg";
    assert e[0] == '.' && forall j :: 1 <= j < |e| ==> e[j] != '.';
    assert Lower(tail)[0] == e[0];
    forall j | k < j < |name| ensures name[j] != '.' {
      assert name[j] == tail[j - k];
      assert Lower(tail)[j - k] == e[j - k];
    }
    var i := RFind(name, '.');
    assert name[k] == tail[0] == '.';
    assert i == k;
  }

  /** A name is collected exactly when it ends, case-insensitively, in one of the extensions after a non-empty stem. */
  lemma ImageNameIff(name: string)
    ensures IsImageName(name) <==>
      exists e :: e in ImageExts && |e| < |name| && Lower(name[|name| - |e|..]) == e
  {
    if IsImageName(name) {
      ImageNameEnds(name);
      var e := Lower(Suffix(name));
      assert e in ImageExts && |e| < |name| && Lower(name[|name| - |e|..]) == e;
    }
    if e :| e in ImageExts && |e| < |name| && Lower(name[|name| - |e|..]) == e {
      ExtensionIsSuffix(name, e);
    }
  }

  /** `[p for p in IMG_DIR.iterdir() if ...]` over the directory listing, in listing order. */
  function CollectImages(listing: seq<string>): (images: seq<string>)
    ensures forall n :: n in images <==> n in listing && IsImageName(n)
    ensures |images| <= |listing|
    ensures multiset(images) <= multiset(listing)
  {
    if listing == [] then []
    else
      assert listing == [listing[0]] + listing[1..];
      (if IsImageName(listing[0]) then [listing[0]] else []) + CollectImages(listing[1..])
  }

  predicate NoDuplicates(s: seq<string>)
  {
    forall i, j :: 0 <= i < j < |s| ==> s[i] != s[j]
  }

  /** `int(n * TRAIN_RATIO)` with `TRAIN_RATIO = 0.75`: the floor of three quarters of `n`. */
  function SplitIndex(n: nat): (k: nat)
    ensures 4 * k <= 3 * n < 4 * k + 4
  {
    3 * n / 4
  }

  /** Any non-empty list leaves at least one image for validation; two or more give training at least one. */
  lemma SplitIndexBounds(n: nat)
    ensures n >= 1 ==> SplitIndex(n) < n
    ensures n >= 2 ==> SplitIndex(n) >= 1
  {
  }

  /** `images[:split_idx]` and `images[split_idx:]` */
  function Partition(images: seq<string>): (parts: (seq<string>, seq<string>))
    ensures parts.0 + parts.1 == images
    ensures |parts.0| == SplitIndex(|images|)
  {
    var k := SplitIndex(|images|);
    (images[..k], images[k..])
  }

  /** The two parts share no image when the shuffled list has no repeats. */
  lemma PartitionDisjoint(images: seq<string>)
    requires NoDuplicates(images)
    ensures forall x :: x in Partition(images).0 ==> x !in Partition(images).1
  {
    var k := SplitIndex(|images|);
    forall x | x in images[..k] ensures x !in images[k..] {
      var i :| 0 <= i < k && images[i] == x;
    }
  }

  datatype SplitError = NoImages | MissingLabel(image: string) | MissingImage(image: string)

  function ImagePath(name: string): Path { ImgDir + [name] }

  /** `label_path.name`: the image's stem with `.txt`. */
  function LabelName(name: string): string { Stem(name) + ".txt" }

  /** `LBL_DIR / f"{img_path.stem}.txt"` */
  function LabelPath(name: string): Path { LblDir + [LabelName(name)] }

  function ImageDest(name: string, split: string): Path { ImgDir + [split, name] }

  function LabelDest(name: string, split: string): Path { LblDir + [split, LabelName(name)] }

  /** Images and labels live in different folders, and sources sit one level above destinations. */
  lemma PathsApart(a: string, b: string, split: string)
    ensures ImagePath(a) != LabelPath(b) && ImagePath(a) != LabelDest(b, split)
    ensures ImageDest(a, split) != LabelPath(b) && ImageDest(a, split) != LabelDest(b, split)
    ensures ImagePath(a) != ImageDest(b, split) && LabelPath(a) != LabelDest(b, split)
  {
    assert "images"[0] != "labels"[0];
    assert ImagePath(a)[2] == ImageDest(a, split)[2] == "images";
    assert LabelPath(b)[2] == LabelDest(b, split)[2] == "labels";
  }

  /** The file map after `move_pair(IMG_DIR / name, split)`, or the error it raises. */
  function MovePairResult(files: map<Path, string>, name: string, split: string): Result<map<Path, string>, SplitError>
  {
    if LabelPath(name) !in files then Err(MissingLabel(name))
    else if ImagePath(name) !in files then Err(MissingImage(name))
    else
      PathsApart(name, name, split);
      var afterImage := Moved(files, ImagePath(name), ImageDest(name, split));
      Ok(Moved(afterImage, LabelPath(name), LabelDest(name, split)))
  }

  /** The four paths one `move_pair` reads or writes. */
  function PairPaths(name: string, split: string): set<Path>
  {
    {ImagePath(name), LabelPath(name), ImageDest(name, split), LabelDest(name, split)}
  }

  /** In `f`, the pair of `name` from `files` sits in the split folder with its contents and is gone from its sources. */
  predicate PairMoved(f: map<Path, string>, files: map<Path, string>, name: string, split: string)
  {
    && ImagePath(name) in files && ImageDest(name, split) in f && f[ImageDest(name, split)] == files[ImagePath(name)]
    && LabelPath(name) in files && LabelDest(name, split) in f && f[LabelDest(name, split)] == files[LabelPath(name)]
    && ImagePath(name) !in f && LabelPath(name) !in f
  }

  /**
   * `move_pair` fails, changing nothing, exactly when the label or the image is missing,
   * and reports the label first; otherwise the pair is moved and no other path changes.
   */
  lemma MovePairEffect(files: map<Path, string>, name: string, split: string)
    ensures MovePairResult(files, name, split).Err? <==> LabelPath(name) !in files || ImagePath(name) !in files
    ensures LabelPath(name) !in files ==> MovePairResult(files, name, split) == Err(MissingLabel(name))
    ensures MovePairResult(files, name, split).Ok? ==>
      var f := MovePairResult(files, name, split).value;
      && PairMoved(f, files, name, split)
      && forall p :: p !in PairPaths(name, split) ==> SameAt(f, files, p)
  {
    if MovePairResult(files, name, split).Ok? {
      PathsApart(name, name, split);
    }
  }

  /**
   * `for img in names: move_pair(img, split)`: the final map, and the error that
   * stopped the loop, if any; the moves before it stay done.
   */
  function MoveAll(files: map<Path, string>, names: seq<string>, split: string): (map<Path, string>, Option<SplitError>)
    decreases |names|
  {
    if names == [] then (files, None)
    else
      match MovePairResult(files, names[0], split)
      case Err(e) => (files, Some(e))
      case Ok(f) => MoveAll(f, names[1..], split)
  }

  /** The paths the moves of `names` touch. */
  function AllPairPaths(names: seq<string>, split: string): set<Path>
  {
    if names == [] then {} else PairPaths(names[0], split) + AllPairPaths(names[1..], split)
  }

  /** No two names share an image name or a label name. */
  predicate DistinctPairs(names: seq<string>)
  {
    forall i, j :: 0 <= i < j < |names| ==> names[i] != names[j] && LabelName(names[i]) != LabelName(names[j])
  }

  /**
   * When the moves of a list of distinct pairs all succeed, every image and label is in the
   * split folder with its original contents, every source is gone, and nothing else changes.
   */
  lemma {:induction false} MoveAllSuccess(files: map<Path, string>, names: seq<string>, split: string)
    requires MoveAll(files, names, split).1 == None
    requires DistinctPairs(names)
    decreases |names|
    ensures forall n :: n in names ==> PairMoved(MoveAll(files, names, split).0, files, n, split)
    ensures forall p :: p !in AllPairPaths(names, split) ==> SameAt(MoveAll(files, names, split).0, files, p)
  {
    if names != [] {
      var n0, rest := names[0], names[1..];
      MovePairEffect(files, n0, split);
      var f1 := MovePairResult(files, n0, split).value;
      DistinctPairsApart(names, split);
      MoveAllSuccess(f1, rest, split);
      var f := MoveAll(files, names, split).0;
      assert f == MoveAll(f1, rest, split).0;
      forall n | n in names ensures PairMoved(f, files, n, split) {
        if n == n0 {
          assert SameAt(f, f1, ImageDest(n0, split)) && SameAt(f, f1, LabelDest(n0, split));
          assert SameAt(f, f1, ImagePath(n0)) && SameAt(f, f1, LabelPath(n0));
        } else {
          assert n in rest;
          assert PairMoved(f, f1, n, split);
          assert SameAt(f1, files, ImagePath(n)) && SameAt(f1, files, LabelPath(n));
        }
      }
      forall p | p !in AllPairPaths(names, split) ensures SameAt(f, files, p) {
        assert SameAt(f, f1, p) && SameAt(f1, files, p);
      }
    }
  }

  /** The first pair of a list of distinct pairs shares no path with the moves of the rest. */
  lemma DistinctPairsApart(names: seq<string>, split: string)
    requires |names| > 0 && DistinctPairs(names)
    ensures DistinctPairs(names[1..])
    ensures AllPairPaths(names[1..], split) !! PairPaths(names[0], split)
  {
    var n0, rest := names[0], names[1..];
    forall i, j | 0 <= i < j < |rest| ensures rest[i] != rest[j] && LabelName(rest[i]) != LabelName(rest[j]) {
      assert rest[i] == names[i + 1] && rest[j] == names[j + 1];
    }
    forall n | n in rest
      ensures PairPaths(n, split) !! PairPaths(n0, split)
    {
      var j :| 0 <= j < |rest| && rest[j] == n;
      assert names[j + 1] == n;
      PairsApartSameSplit(n, n0, split);
    }
    AllPairPathsMembers(rest, split);
  }

  /** The paths of two different pairs moved to the same split are all different. */
  lemma PairsApartSameSplit(n: string, n0: string, split: string)
    requires n != n0 && LabelName(n) != LabelName(n0)
    ensures PairPaths(n, split) !! PairPaths(n0, split)
  {
    PathsApart(n, n0, split);
    PathsApart(n0, n, split);
    assert ImagePath(n)[3] != ImagePath(n0)[3] && ImageDest(n, split)[4] != ImageDest(n0, split)[4];
    assert LabelPath(n)[3] != LabelPath(n0)[3] && LabelDest(n, split)[4] != LabelDest(n0, split)[4];
  }

  /** One step of the loop: a successful `move_pair` hands the rest of the names the new map. */
  lemma MoveAllStep(files: map<Path, string>, names: seq<string>, split: string)
    requires |names| > 0 && MovePairResult(files, names[0], split).Ok?
    ensures MoveAll(files, names, split) == MoveAll(MovePairResult(files, names[0], split).value, names[1..], split)
  {
  }

  lemma {:induction false} AllPairPathsContains(names: seq<string>, split: string)
    ensures forall n :: n in names ==> PairPaths(n, split) <= AllPairPaths(names, split)
  {
    if names != [] {
      AllPairPathsContains(names[1..], split);
      assert forall n :: n in names ==> n == names[0] || n in names[1..];
    }
  }

  lemma {:induction false} AllPairPathsMembers(names: seq<string>, split: string)
    ensures forall p :: p in AllPairPaths(names, split) ==> exists n :: n in names && p in PairPaths(n, split)
  {
    if names != [] {
      AllPairPathsMembers(names[1..], split);
    }
  }

  /** The loop over the first `i + 1` names, after a successful first move, is the loop over the next `i`. */
  lemma MoveAllPrefixStep(files: map<Path, string>, names: seq<string>, i: nat, split: string)
    requires i < |names| && MovePairResult(files, names[0], split).Ok?
    ensures MoveAll(files, names[..i + 1], split) == MoveAll(MovePairResult(files, names[0], split).value, names[1..][..i], split)
  {
    var prefix := names[..i + 1];
    assert prefix[0] == names[0] && prefix[1..] == names[1..][..i];
    MoveAllStep(files, prefix, split);
  }

  /**
   * A failure stops the loop where it happens: the result is the map after the pairs
   * before the failing one, all moved successfully.
   */
  lemma {:induction false} MoveAllFailure(files: map<Path, string>, names: seq<string>, split: string)
    requires MoveAll(files, names, split).1.Some?
    decreases |names|
    ensures exists i :: (0 <= i < |names|
      && MoveAll(files, names[..i], split) == (MoveAll(files, names, split).0, None)
      && MovePairResult(MoveAll(files, names, split).0, names[i], split) == Err(MoveAll(files, names, split).1.value))
  {
    var r := MovePairResult(files, names[0], split);
    if r.Err? {
      assert names[..0] == [];
    } else {
      var f, e := MoveAll(files, names, split).0, MoveAll(files, names, split).1;
      MoveAllStep(files, names, split);
      MoveAllFailure(r.value, names[1..], split);
      var i :| 0 <= i < |names[1..]|
        && MoveAll(r.value, names[1..][..i], split) == (f, None)
        && MovePairResult(f, names[1..][i], split) == Err(e.value);
      MoveAllPrefixStep(files, names, i, split);
      assert names[i + 1] == names[1..][i];
    }
  }

  /** A `move_pair` that succeeds does not bring back a label path that was missing. */
  lemma LabelStaysMissing(files: map<Path, string>, n0: string, n: string, split: string)
    requires MovePairResult(files, n0, split).Ok? && LabelPath(n) !in files
    ensures LabelPath(n) !in MovePairResult(files, n0, split).value
  {
    MovePairEffect(files, n0, split);
    PathsApart(n0, n, split);
    PathsApart(n, n0, split);
    assert LabelPath(n) !in PairPaths(n0, split);
  }

  /** Once a label path is gone, a later image needing that label stops the loop. */
  lemma {:induction false} MissingLabelStops(files: map<Path, string>, names: seq<string>, split: string, j: nat)
    requires j < |names| && LabelPath(names[j]) !in files
    decreases |names|
    ensures MoveAll(files, names, split).1.Some?
  {
    var r := MovePairResult(files, names[0], split);
    if r.Ok? {
      assert j != 0;
      LabelStaysMissing(files, names[0], names[j], split);
      assert names[1..][j - 1] == names[j];
      MissingLabelStops(r.value, names[1..], split, j - 1);
      assert MoveAll(files, names, split) == MoveAll(r.value, names[1..], split);
    }
  }

  /** Two images with the same stem share one label: the second of them finds it moved away and the loop fails. */
  lemma {:induction false} SharedLabelFails(files: map<Path, string>, names: seq<string>, split: string, i: nat, j: nat)
    requires i < j < |names| && LabelName(names[i]) == LabelName(names[j])
    decreases |names|
    ensures MoveAll(files, names, split).1.Some?
  {
    if MovePairResult(files, names[0], split).Ok? {
      var f1 := MovePairResult(files, names[0], split).value;
      MovePairEffect(files, names[0], split);
      assert names[1..][j - 1] == names[j];
      if i == 0 {
        assert LabelPath(names[j]) == LabelPath(names[0]);
        MissingLabelStops(f1, names[1..], split, j - 1);
      } else {
        assert names[1..][i - 1] == names[i];
        SharedLabelFails(f1, names[1..], split, i - 1, j - 1);
      }
    }
  }

  /** A loop that finishes without an exception ran over distinct pairs: no two of its images share a stem. */
  lemma SuccessDistinct(files: map<Path, string>, names: seq<string>, split: string)
    requires MoveAll(files, names, split).1 == None
    ensures DistinctPairs(names)
  {
    forall i, j | 0 <= i < j < |names| ensures names[i] != names[j] && LabelName(names[i]) != LabelName(names[j]) {
      if LabelName(names[i]) == LabelName(names[j]) {
        SharedLabelFails(files, names, split, i, j);
      }
    }
  }

  /** All train moves, then, if none failed, all val moves. */
  function MoveBoth(files: map<Path, string>, train: seq<string>, val: seq<string>): (map<Path, string>, Option<SplitError>)
  {
    var (f1, e1) := MoveAll(files, train, TrainSplit);
    if e1.Some? then (f1, e1) else MoveAll(f1, val, ValSplit)
  }

  /**
   * A successful run leaves every train pair in the train folders and every
   * val pair in the val folders, with their contents, and changes nothing else.
   */
  lemma MoveBothSuccess(files: map<Path, string>, train: seq<string>, val: seq<string>)
    requires MoveBoth(files, train, val).1 == None
    ensures forall n :: n in train ==> PairMoved(MoveBoth(files, train, val).0, files, n, TrainSplit)
    ensures forall n :: n in val ==> PairMoved(MoveBoth(files, train, val).0, files, n, ValSplit)
    ensures forall p :: p !in AllPairPaths(train, TrainSplit) && p !in AllPairPaths(val, ValSplit) ==>
      SameAt(MoveBoth(files, train, val).0, files, p)
  {
    SuccessDistinctBoth(files, train, val);
    DistinctPairsParts(train, val);
    var (f1, e1) := MoveAll(files, train, TrainSplit);
    MoveAllSuccess(files, train, TrainSplit);
    MoveAllSuccess(f1, val, ValSplit);
    var f := MoveBoth(files, train, val).0;
    assert f == MoveAll(f1, val, ValSplit).0;
    AllPairPathsContains(train, TrainSplit);
    AllPairPathsContains(val, ValSplit);
    forall n | n in train ensures PairMoved(f, files, n, TrainSplit) {
      assert PairMoved(f1, files, n, TrainSplit);
      assert SameAt(f, f1, ImageDest(n, TrainSplit)) && SameAt(f, f1, LabelDest(n, TrainSplit));
      assert SameAt(f, f1, ImagePath(n)) && SameAt(f, f1, LabelPath(n));
    }
    forall n | n in val ensures PairMoved(f, files, n, ValSplit) {
      assert PairMoved(f, f1, n, ValSplit);
      assert SameAt(f1, files, ImagePath(n)) && SameAt(f1, files, LabelPath(n));
    }
  }

  /**
   * A run of both loops that finishes without an exception ran over distinct pairs, also across
   * the cut: a val image sharing a stem with a train image finds its label already moved to train.
   */
  lemma SuccessDistinctBoth(files: map<Path, string>, train: seq<string>, val: seq<string>)
    requires MoveBoth(files, train, val).1 == None
    ensures DistinctPairs(train + val)
  {
    var all := train + val;
    var (f1, e1) := MoveAll(files, train, TrainSplit);
    SuccessDistinct(files, train, TrainSplit);
    SuccessDistinct(f1, val, ValSplit);
    MoveAllSuccess(files, train, TrainSplit);
    forall i, j | 0 <= i < j < |all| ensures all[i] != all[j] && LabelName(all[i]) != LabelName(all[j]) {
      if j < |train| {
        assert all[i] == train[i] && all[j] == train[j];
      } else if i >= |train| {
        assert all[i] == val[i - |train|] && all[j] == val[j - |train|];
      } else {
        assert all[i] == train[i] && all[j] == val[j - |train|];
        assert PairMoved(f1, files, train[i], TrainSplit);
        if LabelName(all[i]) == LabelName(all[j]) {
          MissingLabelStops(f1, val, ValSplit, j - |train|);
        }
      }
    }
  }

  /** Two images with one stem make the script fail, whether they fall in the same part or on both sides of the cut. */
  lemma SharedLabelFailsBoth(files: map<Path, string>, train: seq<string>, val: seq<string>, i: nat, j: nat)
    requires i < j < |train + val| && LabelName((train + val)[i]) == LabelName((train + val)[j])
    ensures MoveBoth(files, train, val).1.Some?
  {
    if MoveBoth(files, train, val).1 == None {
      SuccessDistinctBoth(files, train, val);
    }
  }

  /** Distinct pairs split into two lists of distinct pairs whose train and val moves touch different paths. */
  lemma DistinctPairsParts(train: seq<string>, val: seq<string>)
    requires DistinctPairs(train + val)
    ensures DistinctPairs(train) && DistinctPairs(val)
    ensures AllPairPaths(train, TrainSplit) !! AllPairPaths(val, ValSplit)
  {
    var all := train + val;
    forall i, j | 0 <= i < j < |train| ensures train[i] != train[j] && LabelName(train[i]) != LabelName(train[j]) {
      assert all[i] == train[i] && all[j] == train[j];
    }
    forall i, j | 0 <= i < j < |val| ensures val[i] != val[j] && LabelName(val[i]) != LabelName(val[j]) {
      assert all[|train| + i] == val[i] && all[|train| + j] == val[j];
    }
    AllPairPathsMembers(train, TrainSplit);
    AllPairPathsMembers(val, ValSplit);
    forall t, v | t in train && v in val ensures PairPaths(t, TrainSplit) !! PairPaths(v, ValSplit) {
      var i :| 0 <= i < |train| && train[i] == t;
      var j :| 0 <= j < |val| && val[j] == v;
      assert all[i] == t && all[|train| + j] == v;
      PairsApartAcrossSplits(t, v);
    }
  }

  /** The paths of two different pairs, one moved to train and one to val, are all different. */
  lemma PairsApartAcrossSplits(t: string, v: string)
    requires t != v && LabelName(t) != LabelName(v)
    ensures PairPaths(t, TrainSplit) !! PairPaths(v, ValSplit)
  {
    PathsApart(t, v, TrainSplit);
    PathsApart(v, t, ValSplit);
    PathsApart(t, v, ValSplit);
    PathsApart(v, t, TrainSplit);
    assert ImagePath(t)[3] != ImagePath(v)[3] && LabelPath(t)[3] != LabelPath(v)[3];
    assert "train"[0] != "val"[0];
    assert ImageDest(t, TrainSplit)[3] != ImageDest(v, ValSplit)[3];
    assert LabelDest(t, TrainSplit)[3] != LabelDest(v, ValSplit)[3];
  }

  /** `move_pair(img_path, split)` on the file system. */
  method MovePair(fs: FileSystem, name: string, split: string) returns (err: Option<SplitError>)
    modifies fs
    ensures match MovePairResult(old(fs.files), name, split)
      case Ok(f) => err == None && fs.files == f
      case Err(e) => err == Some(e) && fs.files == old(fs.files)
  {
    if LabelPath(name) !in fs.files {
      return Some(MissingLabel(name));
    }
    var ok := fs.Move(ImagePath(name), ImageDest(name, split));
    if !ok {
      return Some(MissingImage(name));
    }
    PathsApart(name, name, split);
    ok := fs.Move(LabelPath(name), LabelDest(name, split));
    return None;
  }

  /** `for img in names: move_pair(img, split)`, stopping at the first exception. */
  method MoveEach(fs: FileSystem, names: seq<string>, split: string) returns (err: Option<SplitError>)
    modifies fs
    ensures (fs.files, err) == MoveAll(old(fs.files), names, split)
  {
    for i := 0 to |names|
      invariant MoveAll(old(fs.files), names, split) == MoveAll(fs.files, names[i..], split)
    {
      assert names[i..][0] == names[i] && names[i..][1..] == names[i + 1..];
      err := MovePair(fs, names[i], split);
      if err.Some? {
        return;
      }
    }
    assert names[|names|..] == [];
    err := None;
  }

  /** A list without repeats holds each name at most once. */
  lemma {:induction false} NoDuplicatesCounts(s: seq<string>)
    requires NoDuplicates(s)
    ensures forall x :: multiset(s)[x] <= 1
  {
    if s != [] {
      var init, last := s[..|s| - 1], s[|s| - 1];
      assert s == init + [last];
      forall i, j | 0 <= i < j < |init| ensures init[i] != init[j] {
        assert init[i] == s[i] && init[j] == s[j];
      }
      NoDuplicatesCounts(init);
      assert forall i :: 0 <= i < |init| ==> init[i] == s[i] != last;
      assert last !in init;
    }
  }

  /** A name at two positions of a list is counted at least twice. */
  lemma TwoCopies(s: seq<string>, i: nat, j: nat)
    requires i < j < |s|
    ensures s[i] == s[j] ==> multiset(s)[s[i]] >= 2
  {
    assert s == s[..j] + [s[j]] + s[j + 1..];
    assert s[..j][i] == s[i];
  }

  /** A list holding each name at most once has no repeats. */
  lemma CountsNoDuplicates(s: seq<string>)
    requires forall x :: multiset(s)[x] <= 1
    ensures NoDuplicates(s)
  {
    forall i, j | 0 <= i < j < |s| ensures s[i] != s[j] {
      TwoCopies(s, i, j);
    }
  }

  /** The image of a name is none of the paths the move of another name touches. */
  lemma ImageOutsidePair(n: string, other: string, split: string)
    requires n != other
    ensures ImagePath(n) !in PairPaths(other, split)
  {
    PathsApart(n, other, split);
    assert ImagePath(n)[3] != ImagePath(other)[3];
  }

  /** The moves of `names` leave in place the image of a name that is not among them, whether or not they stop early. */
  lemma {:induction false} MoveAllKeepsImage(files: map<Path, string>, names: seq<string>, split: string, n: string)
    requires n !in names && ImagePath(n) in files
    ensures ImagePath(n) in MoveAll(files, names, split).0
    decreases |names|
  {
    if names != [] {
      var r := MovePairResult(files, names[0], split);
      if r.Ok? {
        MovePairEffect(files, names[0], split);
        ImageOutsidePair(n, names[0], split);
        assert SameAt(r.value, files, ImagePath(n));
        assert n !in names[1..];
        MoveAllKeepsImage(r.value, names[1..], split, n);
      }
    }
  }

  /**
   * When the names do not repeat and every image is present, the moves can only stop on a
   * missing label: each earlier move leaves the later images where they are.
   */
  lemma {:induction false} MoveAllOnlyMissingLabel(files: map<Path, string>, names: seq<string>, split: string)
    requires NoDuplicates(names)
    requires forall n :: n in names ==> ImagePath(n) in files
    ensures MoveAll(files, names, split).1.Some? ==> MoveAll(files, names, split).1.value.MissingLabel?
    decreases |names|
  {
    if names != [] {
      MovePairEffect(files, names[0], split);
      var r := MovePairResult(files, names[0], split);
      if r.Ok? {
        var rest := names[1..];
        forall n | n in rest ensures ImagePath(n) in r.value {
          var j :| 0 <= j < |rest| && rest[j] == n;
          assert names[j + 1] == n;
          ImageOutsidePair(n, names[0], split);
          assert SameAt(r.value, files, ImagePath(n));
        }
        forall i, j | 0 <= i < j < |rest| ensures rest[i] != rest[j] {
          assert rest[i] == names[i + 1] && rest[j] == names[j + 1];
        }
        MoveAllOnlyMissingLabel(r.value, rest, split);
      }
    }
  }

  /** Over a list without repeats whose images are all present, the train and val moves can only stop on a missing label. */
  lemma MoveBothOnlyMissingLabel(files: map<Path, string>, train: seq<string>, val: seq<string>)
    requires NoDuplicates(train + val)
    requires forall n :: n in train + val ==> ImagePath(n) in files
    ensures MoveBoth(files, train, val).1.Some? ==> MoveBoth(files, train, val).1.value.MissingLabel?
  {
    var all := train + val;
    forall i, j | 0 <= i < j < |train| ensures train[i] != train[j] {
      assert all[i] == train[i] && all[j] == train[j];
    }
    forall i, j | 0 <= i < j < |val| ensures val[i] != val[j] {
      assert all[|train| + i] == val[i] && all[|train| + j] == val[j];
    }
    MoveAllOnlyMissingLabel(files, train, TrainSplit);
    var (f1, e1) := MoveAll(files, train, TrainSplit);
    if e1.None? {
      forall n | n in val ensures ImagePath(n) in f1 {
        var j :| 0 <= j < |val| && val[j] == n;
        forall i | 0 <= i < |train| ensures train[i] != n {
          assert all[i] == train[i] && all[|train| + j] == n;
        }
        MoveAllKeepsImage(files, train, TrainSplit, n);
      }
      MoveAllOnlyMissingLabel(f1, val, ValSplit);
    }
  }

  /** A shuffle of the images of a listing without repeats has no repeats. */
  lemma ShuffleNoDuplicates(listing: seq<string>, shuffled: seq<string>)
    requires NoDuplicates(listing)
    requires multiset(shuffled) == multiset(CollectImages(listing))
    ensures NoDuplicates(shuffled)
    ensures forall n :: n in shuffled ==> n in listing && IsImageName(n)
  {
    NoDuplicatesCounts(listing);
    CountsNoDuplicates(shuffled);
    forall n | n in shuffled ensures n in CollectImages(listing) {
      assert n in multiset(shuffled);
    }
  }

  /**
   * The script: collect the images, refuse an empty list, cut the shuffled list at
   * `int(n * 0.75)`, then move the train pairs and then the val pairs. `listing` is what
   * `IMG_DIR.iterdir()` yields: distinct names whose image files exist. `shuffled` is
   * the order `random.shuffle` produced. A run can therefore stop only on a missing label,
   * and a run that finishes has moved every pair into its split folders.
   */
  method SplitDataset(fs: FileSystem, listing: seq<string>, shuffled: seq<string>)
      returns (r: Result<(seq<string>, seq<string>), SplitError>)
    requires NoDuplicates(listing)
    requires forall n :: n in listing && IsImageName(n) ==> ImagePath(n) in fs.files
    requires multiset(shuffled) == multiset(CollectImages(listing))
    modifies fs
    ensures CollectImages(listing) == [] ==> r == Err(NoImages) && fs.files == old(fs.files)
    ensures CollectImages(listing) != [] ==>
      && (r.Ok? ==> r.value == Partition(shuffled))
      && (fs.files, if r.Ok? then None else Some(r.error)) == MoveBoth(old(fs.files), Partition(shuffled).0, Partition(shuffled).1)
    ensures r.Err? ==> r.error.NoImages? || r.error.MissingLabel?
    ensures r.Ok? ==>
      && (forall n :: n in r.value.0 ==> PairMoved(fs.files, old(fs.files), n, TrainSplit))
      && (forall n :: n in r.value.1 ==> PairMoved(fs.files, old(fs.files), n, ValSplit))
  {
    ghost var initial := fs.files;
    ShuffleNoDuplicates(listing, shuffled);
    MoveBothOnlyMissingLabel(fs.files, Partition(shuffled).0, Partition(shuffled).1);
    var images := CollectImages(listing);
    if |images| == 0 {
      return Err(NoImages);
    }
    var k := SplitIndex(|shuffled|);
    var train, val := shuffled[..k], shuffled[k..];
    var err := MoveEach(fs, train, TrainSplit);
    if err.Some? {
      return Err(err.value);
    }
    err := MoveEach(fs, val, ValSplit);
    if err.Some? {
      return Err(err.value);
    }
    MoveBothSuccess(initial, train, val);
    return Ok((train, val));
  }
}
