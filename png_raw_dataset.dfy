/** `PNGRawDataset`: videos stored as folders of JPEG frames with PNG masks beside them. */
module Png {
  import opened Wrappers
  import opened PyStr
  import opened PyPath
  import opened PySeq
  import opened Sorting
  import opened Vos

  /** The sorted identifiers left after removing the excluded ones from the candidates. */
  function BaseNames(fs: FileSystem, imgFolder: string, fileListTxt: Option<string>, excludedListTxt: Option<string>): seq<string> {
    Sort(Exclude(SubsetIds(fs, imgFolder, fileListTxt), ToSet(ExcludedIds(fs, excludedListTxt))))
  }

  /**
   * The resolved list: no excluded identifier is in it, every candidate that is not
   * excluded is, as often as it is a candidate, and the list is in ascending order.
   */
  lemma BaseNamesSpec(fs: FileSystem, imgFolder: string, fileListTxt: Option<string>, excludedListTxt: Option<string>)
    ensures var r := BaseNames(fs, imgFolder, fileListTxt, excludedListTxt);
      var subset := SubsetIds(fs, imgFolder, fileListTxt);
      var excluded := ExcludedIds(fs, excludedListTxt);
      && Sorted(r)
      && (forall v :: multiset(r)[v] == if v in excluded then 0 else multiset(subset)[v])
      && (forall v :: v in r <==> v in subset && v !in excluded)
  {
    var subset := SubsetIds(fs, imgFolder, fileListTxt);
    var kept := Exclude(subset, ToSet(ExcludedIds(fs, excludedListTxt)));
    ExcludeSpec(subset, ToSet(ExcludedIds(fs, excludedListTxt)));
    SortSpec(kept);
    var r := Sort(kept);
    forall v ensures v in r <==> v in kept {
      assert v in r <==> v in multiset(r);
    }
  }

  /** The composite name of each object of video `v`, in the given order. */
  function JoinAll(v: string, objs: seq<string>): (r: seq<string>)
    ensures |r| == |objs|
    ensures forall j :: 0 <= j < |objs| ==> r[j] == Join(v, objs[j])
  {
    if |objs| == 0 then [] else [Join(v, objs[0])] + JoinAll(v, objs[1..])
  }

  /** The objects of a video in single-object mode: the entries of its mask folder. */
  function ObjectsOf(fs: FileSystem, gtFolder: string, v: string): seq<string> {
    fs.listDir(Join(gtFolder, v))
  }

  /** For each video in turn, the composite names of the entries of its mask folder. */
  function ExpandObjects(fs: FileSystem, gtFolder: string, names: seq<string>): (r: seq<string>)
    ensures forall x :: x in r <==> IsObjectName(fs, gtFolder, names, x)
  {
    if |names| == 0 then []
    else
      var here := JoinAll(names[0], ObjectsOf(fs, gtFolder, names[0]));
      ObjectNameCons(fs, gtFolder, names);
      here + ExpandObjects(fs, gtFolder, names[1..])
  }

  /** `x` is `video/object` for one of the videos and one of the entries of its mask folder. */
  predicate IsObjectName(fs: FileSystem, gtFolder: string, names: seq<string>, x: string) {
    exists v, o :: v in names && o in ObjectsOf(fs, gtFolder, v) && x == Join(v, o)
  }

  lemma ObjectNameCons(fs: FileSystem, gtFolder: string, names: seq<string>)
    requires |names| > 0
    ensures forall x :: IsObjectName(fs, gtFolder, names, x) <==>
      x in JoinAll(names[0], ObjectsOf(fs, gtFolder, names[0])) || IsObjectName(fs, gtFolder, names[1..], x)
  {
    var here := JoinAll(names[0], ObjectsOf(fs, gtFolder, names[0]));
    assert forall x :: x in here <==> exists o :: o in ObjectsOf(fs, gtFolder, names[0]) && x == Join(names[0], o);
    assert forall v :: v in names <==> v == names[0] || v in names[1..];
  }

  /** One video expands to its own objects' composite names, in listing order. */
  lemma ExpandObjectsOne(fs: FileSystem, gtFolder: string, v: string)
    ensures ExpandObjects(fs, gtFolder, [v]) == JoinAll(v, ObjectsOf(fs, gtFolder, v))
  {
    assert [v][1..] == [];
  }

  /** Expanding a list of videos is expanding its first part, then the rest. */
  lemma {:induction false} ExpandObjectsAppend(fs: FileSystem, gtFolder: string, a: seq<string>, b: seq<string>)
    ensures ExpandObjects(fs, gtFolder, a + b) == ExpandObjects(fs, gtFolder, a) + ExpandObjects(fs, gtFolder, b)
  {
    if |a| == 0 {
      assert a + b == b;
    } else {
      var here := JoinAll(a[0], ObjectsOf(fs, gtFolder, a[0]));
      assert (a + b)[0] == a[0];
      assert (a + b)[1..] == a[1..] + b;
      assert ExpandObjects(fs, gtFolder, a + b) == here + ExpandObjects(fs, gtFolder, a[1..] + b);
      assert ExpandObjects(fs, gtFolder, a) == here + ExpandObjects(fs, gtFolder, a[1..]);
      ExpandObjectsAppend(fs, gtFolder, a[1..], b);
      AppendAssoc(here, ExpandObjects(fs, gtFolder, a[1..]), ExpandObjects(fs, gtFolder, b));
    }
  }

  /** Single-object mode: the composite `video/object` names, sorted. */
  function ObjectNames(fs: FileSystem, gtFolder: string, names: seq<string>): seq<string> {
    Sort(ExpandObjects(fs, gtFolder, names))
  }

  /**
   * In single-object mode the list is sorted, is a permutation of the expansion, and
   * holds exactly the `video/object` names.
   */
  lemma ObjectNamesSpec(fs: FileSystem, gtFolder: string, names: seq<string>)
    ensures Sorted(ObjectNames(fs, gtFolder, names))
    ensures multiset(ObjectNames(fs, gtFolder, names)) == multiset(ExpandObjects(fs, gtFolder, names))
    ensures forall x :: x in ObjectNames(fs, gtFolder, names) <==>
      exists v, o :: v in names && o in ObjectsOf(fs, gtFolder, v) && x == Join(v, o)
  {
    var e := ExpandObjects(fs, gtFolder, names);
    SortSpec(e);
    forall x ensures x in Sort(e) <==> x in e {
      assert x in Sort(e) <==> x in multiset(Sort(e));
    }
  }

  /** `n` copies of one name. */
  function Rep(v: string, n: nat): (r: seq<string>)
    ensures |r| == n && forall i :: 0 <= i < n ==> r[i] == v
  {
    seq(n, _ => v)
  }

  /** The total of `count` over `names`. */
  function TotalCount(names: seq<string>, count: string -> nat): nat {
    if |names| == 0 then 0 else TotalCount(names[..|names| - 1], count) + count(names[|names| - 1])
  }

  /** Each name once per unit of its count, name after name. */
  function Repeated(names: seq<string>, count: string -> nat): seq<string> {
    if |names| == 0 then []
    else Repeated(names[..|names| - 1], count) + Rep(names[|names| - 1], count(names[|names| - 1]))
  }

  /** The number of frames of a video: the entries of its image folder. */
  function FrameCounter(fs: FileSystem, imgFolder: string): string -> nat {
    v => |fs.listDir(Join(imgFolder, v))|
  }

  /** The repeated list is as long as the counts add up to. */
  lemma {:induction false} RepeatedLength(names: seq<string>, count: string -> nat)
    ensures |Repeated(names, count)| == TotalCount(names, count)
  {
    if |names| > 0 {
      RepeatedLength(names[..|names| - 1], count);
    }
  }

  /**
   * The `k`-th copy of the `i`-th name sits right after the copies of the names before
   * it: each name fills one consecutive run as long as its count, in the original order.
   */
  lemma {:induction false} RepeatedRun(names: seq<string>, count: string -> nat, i: nat, k: nat)
    requires i < |names| && k < count(names[i])
    ensures TotalCount(names[..i], count) + k < |Repeated(names, count)|
    ensures Repeated(names, count)[TotalCount(names[..i], count) + k] == names[i]
  {
    var n := |names|;
    var init := names[..n - 1];
    RepeatedLength(init, count);
    if i == n - 1 {
      assert names[..i] == init;
    } else {
      assert init[..i] == names[..i];
      RepeatedRun(init, count, i, k);
    }
  }

  /** The `frames_sampling_mult` loop: each name, in order, extended by as many copies as its video has frames. */
  method RepeatPerFrame(names: seq<string>, count: string -> nat) returns (r: seq<string>)
    ensures r == Repeated(names, count)
  {
    r := [];
    var i := 0;
    while i < |names|
      invariant 0 <= i <= |names|
      invariant r == Repeated(names[..i], count)
    {
      assert names[..i + 1][..i] == names[..i];
      r := r + Rep(names[i], count(names[i]));
      i := i + 1;
    }
    assert names[..i] == names;
  }

  /** `self.video_names` after construction. */
  function ResolvedNames(fs: FileSystem, imgFolder: string, gtFolder: string, fileListTxt: Option<string>,
                         excludedListTxt: Option<string>, singleObjectMode: bool, framesSamplingMult: bool): seq<string>
  {
    var base := BaseNames(fs, imgFolder, fileListTxt, excludedListTxt);
    var named := if singleObjectMode then ObjectNames(fs, gtFolder, base) else base;
    if framesSamplingMult then Repeated(named, FrameCounter(fs, imgFolder)) else named
  }

  class PngRawDataset {
    var imgFolder: string
    var gtFolder: string
    var sampleRate: int
    var isPalette: bool
    var singleObjectMode: bool
    var truncateVideo: int
    var videoNames: seq<string>

    constructor (fs: FileSystem, imgFolder: string, gtFolder: string, fileListTxt: Option<string>,
                 excludedVideosListTxt: Option<string>, sampleRate: int, isPalette: bool,
                 singleObjectMode: bool, truncateVideo: int, framesSamplingMult: bool)
      ensures this.imgFolder == imgFolder && this.gtFolder == gtFolder && this.sampleRate == sampleRate
      ensures this.isPalette == isPalette && this.singleObjectMode == singleObjectMode
      ensures this.truncateVideo == truncateVideo
      ensures videoNames == ResolvedNames(fs, imgFolder, gtFolder, fileListTxt, excludedVideosListTxt,
                                          singleObjectMode, framesSamplingMult)
    {
      this.imgFolder := imgFolder;
      this.gtFolder := gtFolder;
      this.sampleRate := sampleRate;
      this.isPalette := isPalette;
      this.singleObjectMode := singleObjectMode;
      this.truncateVideo := truncateVideo;
      var names := BaseNames(fs, imgFolder, fileListTxt, excludedVideosListTxt);
      if singleObjectMode {
        names := ObjectNames(fs, gtFolder, names);
      }
      if framesSamplingMult {
        names := RepeatPerFrame(names, FrameCounter(fs, imgFolder));
      }
      videoNames := names;
    }

    /** `__len__` */
    function Len(): nat
      reads this
    {
      |videoNames|
    }

    /** The folder holding a video's frames; in single-object mode the object component is dropped. */
    function FrameRoot(videoName: string): string
      reads this
    {
      if singleObjectMode then Join(imgFolder, Dirname(videoName)) else Join(imgFolder, videoName)
    }

    /** The sorted `*.jpg` paths of the frame folder, cut to the first `truncate_video` when that is positive. */
    function FramePaths(fs: FileSystem, videoName: string): seq<string>
      reads this
    {
      Truncate(Sort(GlobJpg(fs, FrameRoot(videoName))), truncateVideo)
    }

    function MaskLoader(videoName: string): SegmentLoader
      reads this
    {
      var videoMaskRoot := Join(gtFolder, videoName);
      if isPalette then PalettisedPngLoader(videoMaskRoot, sampleRate)
      else MultiplePngLoader(videoMaskRoot, singleObjectMode)
    }

    /**
     * `get_video(idx)`. The frames are every `sample_rate`-th of the sorted, truncated
     * image paths, numbered densely from 0. The loop variable of `enumerate` rebinds
     * `idx`, so the video id is the last frame's number, or `idx` when no frame is selected.
     */
    method GetVideo(fs: FileSystem, idx: int) returns (r: Result<VideoSample>)
      ensures PyIndex(videoNames, idx).None? ==> r == Err(IndexError)
      ensures PyIndex(videoNames, idx).Some? && sampleRate == 0 ==> r == Err(SliceStepZero)
      ensures PyIndex(videoNames, idx).Some? && sampleRate != 0 ==>
        var name := PyIndex(videoNames, idx).value;
        var paths := FramePaths(fs, name);
        && r.Ok?
        && r.value.segmentLoader == MaskLoader(name)
        && r.value.video.videoName == name
        && |r.value.video.frames| == CeilDiv(|paths|, Abs(sampleRate))
        && (forall j :: 0 <= j < |r.value.video.frames| ==>
              && 0 <= SliceIndex(|paths|, sampleRate, j) < |paths|
              && r.value.video.frames[j] == Frame(j, Some(paths[SliceIndex(|paths|, sampleRate, j)]), None, false))
        && r.value.video.videoId == if |r.value.video.frames| > 0 then |r.value.video.frames| - 1 else idx
    {
      var found := PyIndex(videoNames, idx);
      if found.None? {
        return Err(IndexError);
      }
      var videoName := found.value;
      var segmentLoader := MaskLoader(videoName);
      var allFrames := FramePaths(fs, videoName);
      var strided := Stride(allFrames, sampleRate);
      if strided.Err? {
        return Err(strided.error);
      }
      var frames, videoId := NumberFrames(strided.value, idx);
      StrideLength(allFrames, sampleRate);
      forall j | 0 <= j < |frames|
        ensures 0 <= SliceIndex(|allFrames|, sampleRate, j) < |allFrames|
        ensures frames[j] == Frame(j, Some(allFrames[SliceIndex(|allFrames|, sampleRate, j)]), None, false)
      {
        StrideAt(allFrames, sampleRate, j);
      }
      r := Ok(VideoSample(Video(videoName, videoId, frames), segmentLoader));
    }
  }

  /**
   * The image paths a PNG video is read from: the first `min(n, truncate_video)` of the
   * `*.jpg` entries of the frame folder in ascending order when `truncate_video > 0`, all
   * `n` of them otherwise.
   */
  lemma FramePathsSpec(d: PngRawDataset, fs: FileSystem, videoName: string)
    ensures var all := GlobJpg(fs, d.FrameRoot(videoName));
      var paths := d.FramePaths(fs, videoName);
      && Sorted(paths)
      && |paths| == (if 0 < d.truncateVideo < |all| then d.truncateVideo else |all|)
      && paths == Sort(all)[..|paths|]
      && (forall p :: p in paths ==> p in all)
      && (|paths| == |all| ==> multiset(paths) == multiset(all))
  {
    var all := GlobJpg(fs, d.FrameRoot(videoName));
    var sorted := Sort(all);
    SortSpec(all);
    assert |sorted| == |multiset(sorted)| == |multiset(all)| == |all|;
    var paths := d.FramePaths(fs, videoName);
    if |paths| == |all| {
      assert paths == sorted;
    }
    forall p | p in paths ensures p in all {
      assert p in sorted;
      assert p in multiset(sorted);
    }
  }

  /**
   * In single-object mode the frames of `video/object` are read from the video's folder,
   * when the video name has no trailing '/' and the object name no '/'.
   */
  lemma ObjectFrameRoot(d: PngRawDataset, v: string, o: string)
    requires d.singleObjectMode
    requires |v| > 0 && v[|v| - 1] != '/' && '/' !in o
    ensures d.FrameRoot(Join(v, o)) == Join(d.imgFolder, v)
  {
    DirnameOfJoin(v, o);
  }

  /**
   * The `enumerate` loop of `get_video`: frame `j` is selected path `j`, numbered `j`.
   * Its loop variable ends as the last number bound, or keeps `idx` when none is.
   */
  method NumberFrames(selected: seq<string>, idx: int) returns (frames: seq<Frame>, videoId: int)
    ensures |frames| == |selected|
    ensures forall j :: 0 <= j < |frames| ==> frames[j] == Frame(j, Some(selected[j]), None, false)
    ensures videoId == if |selected| > 0 then |selected| - 1 else idx
  {
    frames := [];
    videoId := idx;
    var i := 0;
    while i < |selected|
      invariant 0 <= i <= |selected|
      invariant |frames| == i
      invariant forall j :: 0 <= j < i ==> frames[j] == Frame(j, Some(selected[j]), None, false)
      invariant videoId == if i > 0 then i - 1 else idx
    {
      videoId := i;
      frames := frames + [Frame(videoId, Some(selected[i]), None, false)];
      i := i + 1;
    }
  }
}
