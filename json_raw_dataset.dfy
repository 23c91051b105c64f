/** `JSONRawDataset`: videos stored as folders of numbered JPEG frames with SA-V JSON annotations. */
module Json {
  import opened Wrappers
  import opened PyStr
  import opened PyPath
  import opened PySeq
  import opened Sorting
  import opened Vos

  /** The `excluded_videos_list_txt` argument, by its runtime type. */
  datatype ExclusionArg =
    | NoExclusion                 // None
    | OneList(path: string)       // a str
    | ListOfLists(paths: seq<string>) // an omegaconf ListConfig
    | OtherType                   // anything else, a plain list included

  /** The exclusion files an argument names. */
  function ListsOf(arg: ExclusionArg): seq<string> {
    match arg
    case NoExclusion => []
    case OneList(path) => [path]
    case ListOfLists(paths) => paths
    case OtherType => []
  }

  /**
   * The loop over the exclusion files: the identifiers of all of them, as a set.
   * An argument of an unsupported type raises NotImplementedError.
   */
  method ReadExclusions(fs: FileSystem, arg: ExclusionArg) returns (r: Result<set<string>>)
    ensures r.Err? <==> arg.OtherType?
    ensures r.Err? ==> r.error == NotImplementedError
    ensures r.Ok? ==> forall x :: x in r.value <==> exists p :: p in ListsOf(arg) && x in IdsOfFile(fs, p)
  {
    if arg.OtherType? {
      return Err(NotImplementedError);
    }
    var lists := ListsOf(arg);
    var excludedFiles: seq<string> := [];
    var i := 0;
    while i < |lists|
      invariant 0 <= i <= |lists|
      invariant forall x :: x in excludedFiles <==> exists p :: p in lists[..i] && x in IdsOfFile(fs, p)
    {
      assert forall p :: p in lists[..i + 1] <==> p in lists[..i] || p == lists[i];
      excludedFiles := excludedFiles + IdsOfFile(fs, lists[i]);
      i := i + 1;
    }
    assert lists[..i] == lists;
    r := Ok(set x | x in excludedFiles);
  }

  function JsonNames(fs: FileSystem, imgFolder: string, fileListTxt: Option<string>, excluded: set<string>): seq<string> {
    Sort(Exclude(SubsetIds(fs, imgFolder, fileListTxt), excluded))
  }

  /**
   * The video list is ascending and holds every candidate that is not excluded as often
   * as it occurs, and no excluded one.
   */
  lemma JsonNamesSpec(fs: FileSystem, imgFolder: string, fileListTxt: Option<string>, excluded: set<string>)
    ensures var r := JsonNames(fs, imgFolder, fileListTxt, excluded);
      var subset := SubsetIds(fs, imgFolder, fileListTxt);
      && Sorted(r)
      && (forall v :: multiset(r)[v] == if v in excluded then 0 else multiset(subset)[v])
      && forall v :: v in r <==> v in subset && v !in excluded
  {
    var kept := Exclude(SubsetIds(fs, imgFolder, fileListTxt), excluded);
    ExcludeCounts(SubsetIds(fs, imgFolder, fileListTxt), excluded);
    SortSpec(kept);
    forall x ensures x in Sort(kept) <==> x in kept {
      assert x in Sort(kept) <==> x in multiset(Sort(kept));
    }
  }

  /** The frame number a file name stands for: its stem read as an integer, or ValueError when it is not one. */
  function FrameIdOf(frameName: string): (r: Result<int>)
    ensures r.Err? ==> r.error == InvalidLiteral(StripExt(frameName))
    ensures r.Ok? <==> ParseInt(StripExt(frameName)).Some?
    ensures r.Ok? ==> ParseInt(StripExt(frameName)) == Some(r.value)
  {
    match ParseInt(StripExt(frameName))
    case None => Err(InvalidLiteral(StripExt(frameName)))
    case Some(v) => Ok(v)
  }

  /** `[parse(x) for x in xs]`: every value in order, or the error of the first item that fails. */
  function ParseEach(xs: seq<string>, parse: string -> Result<int>): (r: Result<seq<int>>)
    ensures r.Ok? <==> forall i :: 0 <= i < |xs| ==> parse(xs[i]).Ok?
    ensures r.Ok? ==> |r.value| == |xs| && forall i :: 0 <= i < |xs| ==> parse(xs[i]) == Ok(r.value[i])
    ensures r.Err? ==> exists i :: FirstFailure(xs, parse, i) && r.error == parse(xs[i]).error
  {
    if |xs| == 0 then Ok([])
    else match parse(xs[0])
      case Err(e) => assert FirstFailure(xs, parse, 0); Err(e)
      case Ok(v) =>
        var rest := ParseEach(xs[1..], parse);
        if rest.Err? then
          var i :| FirstFailure(xs[1..], parse, i) && rest.error == parse(xs[1..][i]).error;
          assert FirstFailure(xs, parse, i + 1);
          rest
        else
          Ok([v] + rest.value)
  }

  /** `xs[i]` is the first item `parse` fails on. */
  predicate FirstFailure(xs: seq<string>, parse: string -> Result<int>, i: int) {
    0 <= i < |xs| && parse(xs[i]).Err? && forall j :: 0 <= j < i ==> parse(xs[j]).Ok?
  }

  /** The image path a frame gets: its number zero-padded to five places, as a `.jpg` in the video's folder. */
  function FramePath(imgFolder: string, videoName: string, frameId: int): string {
    Join(imgFolder, videoName + "/" + Format05d(frameId) + ".jpg")
  }

  /** The name of the image file of a frame. */
  function FrameLeaf(frameId: int): string {
    Format05d(frameId) + ".jpg"
  }

  lemma FrameLeafNoSlash(frameId: int)
    ensures '/' !in FrameLeaf(frameId) && '/' !in Format05d(frameId)
  {
    var f := Format05d(frameId);
    var leaf := FrameLeaf(frameId);
    Format05dChars(frameId);
    forall i | 0 <= i < |leaf| ensures leaf[i] != '/' {
      if i < |f| { assert leaf[i] == f[i]; }
    }
  }

  lemma FramePathEnds(imgFolder: string, videoName: string, frameId: int)
    ensures EndsWith(FramePath(imgFolder, videoName, frameId), "/" + FrameLeaf(frameId))
  {
    var leaf := FrameLeaf(frameId);
    var tail := videoName + "/" + Format05d(frameId) + ".jpg";
    assert tail == videoName + ("/" + leaf);
    EndsWithConcat(videoName, "/" + leaf);
    EndsWithTrans(FramePath(imgFolder, videoName, frameId), tail, "/" + leaf);
  }

  lemma FrameLeafParses(frameId: int)
    ensures FrameIdOf(FrameLeaf(frameId)) == Ok(frameId)
  {
    var f := Format05d(frameId);
    Format05dChars(frameId);
    FrameLeafNoSlash(frameId);
    assert RFind(f, '/') == -1;
    assert Basename(f) == f;
    assert f[|f| - 1] != '.';
    SplitExtOfStemAndExt(f, ".jpg");
    ParseIntOfFormat05d(frameId);
  }

  /** The image of a frame is a file whose name reads back as the frame's number. */
  lemma FramePathRoundTrip(imgFolder: string, videoName: string, frameId: int)
    ensures Basename(FramePath(imgFolder, videoName, frameId)) == FrameLeaf(frameId)
    ensures FrameIdOf(Basename(FramePath(imgFolder, videoName, frameId))) == Ok(frameId)
  {
    FramePathEnds(imgFolder, videoName, frameId);
    FrameLeafNoSlash(frameId);
    BasenameOfSuffix(FramePath(imgFolder, videoName, frameId), FrameLeaf(frameId));
    FrameLeafParses(frameId);
  }

  /** `VOSFrame(frame_id, image_path=...)` for each selected frame number. */
  function FramesOf(imgFolder: string, videoName: string, ids: seq<int>): (r: seq<Frame>)
    ensures |r| == |ids|
    ensures forall j :: 0 <= j < |ids| ==> r[j] == Frame(ids[j], Some(FramePath(imgFolder, videoName, ids[j])), None, false)
  {
    seq(|ids|, j requires 0 <= j < |ids| => Frame(ids[j], Some(FramePath(imgFolder, videoName, ids[j])), None, false))
  }

  /** A frame's annotation is complete: it is present and has no missing object. */
  predicate Complete<A>(annot: Option<seq<Option<A>>>) {
    annot.Some? && forall k :: 0 <= k < |annot.value| ==> annot.value[k].Some?
  }

  /** The numbers of the annotated frames: `i * ann_every` for each annotation `i` that is complete, in order. */
  function ValidFrameIds<A>(frameAnnots: seq<Option<seq<Option<A>>>>, annEvery: int): (r: seq<int>)
    ensures forall x :: x in r <==> exists i :: 0 <= i < |frameAnnots| && Complete(frameAnnots[i]) && x == i * annEvery
  {
    if |frameAnnots| == 0 then []
    else
      var n := |frameAnnots| - 1;
      var init := frameAnnots[..n];
      assert forall i :: 0 <= i < n ==> init[i] == frameAnnots[i];
      ValidFrameIds(init, annEvery) + (if Complete(frameAnnots[n]) then [n * annEvery] else [])
  }

  /** The frames whose number is one of the valid numbers, in their order. */
  function KeepAnnotated(frames: seq<Frame>, valid: seq<int>): (r: seq<Frame>)
    ensures forall f :: f in r <==> f in frames && f.frameIdx in valid
  {
    if |frames| == 0 then []
    else
      assert forall f :: f in frames <==> f == frames[0] || f in frames[1..];
      (if frames[0].frameIdx in valid then [frames[0]] else []) + KeepAnnotated(frames[1..], valid)
  }

  /** Each frame with a valid number is kept as often as it occurs, duplicates included; no other is. */
  lemma {:induction false} KeepAnnotatedCounts(frames: seq<Frame>, valid: seq<int>)
    ensures forall f :: multiset(KeepAnnotated(frames, valid))[f] == if f.frameIdx in valid then multiset(frames)[f] else 0
  {
    if |frames| > 0 {
      var head := if frames[0].frameIdx in valid then [frames[0]] else [];
      var rest := KeepAnnotated(frames[1..], valid);
      KeepAnnotatedCounts(frames[1..], valid);
      assert frames == [frames[0]] + frames[1..];
      assert multiset(frames) == multiset{frames[0]} + multiset(frames[1..]);
      assert multiset(KeepAnnotated(frames, valid)) == multiset(head) + multiset(rest);
    }
  }

  /** Removing the unannotated frames keeps the others in their order. */
  lemma {:induction false} KeepAnnotatedOrder(frames: seq<Frame>, valid: seq<int>)
    ensures IsSubsequence(KeepAnnotated(frames, valid), frames)
  {
    if |frames| > 0 {
      var rest := KeepAnnotated(frames[1..], valid);
      KeepAnnotatedOrder(frames[1..], valid);
      if frames[0].frameIdx in valid {
        assert KeepAnnotated(frames, valid) == [frames[0]] + rest;
        SubsequenceKeep(rest, frames);
      } else {
        assert KeepAnnotated(frames, valid) == rest;
        SubsequenceSkip(rest, frames);
      }
    }
  }

  /**
   * `frame_ids[::sample_rate]` turned into frames, then, when the valid frame numbers
   * are given (`rm_unannotated`), only the frames whose number is one of them.
   */
  function ChooseFrames(imgFolder: string, videoName: string, ids: seq<int>, sampleRate: int, valid: Option<seq<int>>): (r: Result<seq<Frame>>)
    ensures r.Err? <==> sampleRate == 0
    ensures r.Err? ==> r.error == SliceStepZero
  {
    var strided := Stride(ids, sampleRate);
    if strided.Err? then Err(strided.error)
    else
      var frames := FramesOf(imgFolder, videoName, strided.value);
      Ok(match valid case None => frames case Some(v) => KeepAnnotated(frames, v))
  }

  /**
   * Each chosen frame points at the image of its own number, a number of a listed
   * file. The `j`-th number of `ids[::sample_rate]` gives a chosen frame exactly when
   * no valid numbers are given or it is one of them, and without them all are chosen.
   * With them, each strided frame of a valid number is kept as often as it occurs.
   */
  lemma ChooseFramesSpec(imgFolder: string, videoName: string, ids: seq<int>, sampleRate: int, valid: Option<seq<int>>)
    requires sampleRate != 0
    ensures var frames := ChooseFrames(imgFolder, videoName, ids, sampleRate, valid).value;
      var n := |ids|;
      && (forall f :: f in frames ==>
            && f == Frame(f.frameIdx, Some(FramePath(imgFolder, videoName, f.frameIdx)), None, false)
            && f.frameIdx in ids
            && (valid.Some? ==> f.frameIdx in valid.value))
      && (forall j :: 0 <= j < CeilDiv(n, Abs(sampleRate)) ==>
            && 0 <= SliceIndex(n, sampleRate, j) < n
            && var f := Frame(ids[SliceIndex(n, sampleRate, j)],
                              Some(FramePath(imgFolder, videoName, ids[SliceIndex(n, sampleRate, j)])), None, false);
               (f in frames <==> valid.None? || f.frameIdx in valid.value))
      && (valid.None? ==> |frames| == CeilDiv(n, Abs(sampleRate)))
      && IsSubsequence(frames, FramesOf(imgFolder, videoName, Stride(ids, sampleRate).value))
      && (valid.Some? ==> forall f ::
            multiset(frames)[f] == if f.frameIdx in valid.value then multiset(FramesOf(imgFolder, videoName, Stride(ids, sampleRate).value))[f] else 0)
  {
    if valid.Some? {
      KeepAnnotatedCounts(FramesOf(imgFolder, videoName, Stride(ids, sampleRate).value), valid.value);
    }
    ChosenFramesShape(imgFolder, videoName, ids, sampleRate, valid);
    ChosenFramesIff(imgFolder, videoName, ids, sampleRate, valid);
    ChosenFramesOrder(imgFolder, videoName, ids, sampleRate, valid);
  }

  lemma ChosenFramesShape(imgFolder: string, videoName: string, ids: seq<int>, sampleRate: int, valid: Option<seq<int>>)
    requires sampleRate != 0
    ensures var frames := ChooseFrames(imgFolder, videoName, ids, sampleRate, valid).value;
      forall f :: f in frames ==>
        && f == Frame(f.frameIdx, Some(FramePath(imgFolder, videoName, f.frameIdx)), None, false)
        && f.frameIdx in ids
        && (valid.Some? ==> f.frameIdx in valid.value)
  {
    StridedFramesShape(imgFolder, videoName, ids, sampleRate);
  }

  lemma ChosenFramesIff(imgFolder: string, videoName: string, ids: seq<int>, sampleRate: int, valid: Option<seq<int>>)
    requires sampleRate != 0
    ensures var frames := ChooseFrames(imgFolder, videoName, ids, sampleRate, valid).value;
      var n := |ids|;
      forall j :: 0 <= j < CeilDiv(n, Abs(sampleRate)) ==>
        && 0 <= SliceIndex(n, sampleRate, j) < n
        && var f := Frame(ids[SliceIndex(n, sampleRate, j)],
                          Some(FramePath(imgFolder, videoName, ids[SliceIndex(n, sampleRate, j)])), None, false);
           (f in frames <==> valid.None? || f.frameIdx in valid.value)
  {
    var all := FramesOf(imgFolder, videoName, Stride(ids, sampleRate).value);
    StridedFrames(imgFolder, videoName, ids, sampleRate);
    forall j | 0 <= j < CeilDiv(|ids|, Abs(sampleRate)) ensures all[j] in all {
    }
  }

  lemma ChosenFramesOrder(imgFolder: string, videoName: string, ids: seq<int>, sampleRate: int, valid: Option<seq<int>>)
    requires sampleRate != 0
    ensures var frames := ChooseFrames(imgFolder, videoName, ids, sampleRate, valid).value;
      && (valid.None? ==> |frames| == CeilDiv(|ids|, Abs(sampleRate)))
      && IsSubsequence(frames, FramesOf(imgFolder, videoName, Stride(ids, sampleRate).value))
  {
    var all := FramesOf(imgFolder, videoName, Stride(ids, sampleRate).value);
    StrideLength(ids, sampleRate);
    if valid.Some? {
      KeepAnnotatedOrder(all, valid.value);
    } else {
      SubsequenceOfSelf(all);
    }
  }

  /** Frame `j` of `frame_ids[::sample_rate]` is made from the `j`-th strided number. */
  lemma StridedFrames(imgFolder: string, videoName: string, ids: seq<int>, sampleRate: int)
    requires sampleRate != 0
    ensures var all := FramesOf(imgFolder, videoName, Stride(ids, sampleRate).value);
      && |all| == CeilDiv(|ids|, Abs(sampleRate))
      && forall j :: 0 <= j < |all| ==>
           && 0 <= SliceIndex(|ids|, sampleRate, j) < |ids|
           && all[j] == Frame(ids[SliceIndex(|ids|, sampleRate, j)],
                              Some(FramePath(imgFolder, videoName, ids[SliceIndex(|ids|, sampleRate, j)])), None, false)
  {
    StrideSpec(ids, sampleRate);
  }

  lemma StridedFramesShape(imgFolder: string, videoName: string, ids: seq<int>, sampleRate: int)
    requires sampleRate != 0
    ensures forall f :: f in FramesOf(imgFolder, videoName, Stride(ids, sampleRate).value) ==>
      && f == Frame(f.frameIdx, Some(FramePath(imgFolder, videoName, f.frameIdx)), None, false)
      && f.frameIdx in ids
  {
    var all := FramesOf(imgFolder, videoName, Stride(ids, sampleRate).value);
    StridedFrames(imgFolder, videoName, ids, sampleRate);
    forall f | f in all
      ensures f == Frame(f.frameIdx, Some(FramePath(imgFolder, videoName, f.frameIdx)), None, false)
      ensures f.frameIdx in ids
    {
      var j :| 0 <= j < |all| && all[j] == f;
      assert f.frameIdx == ids[SliceIndex(|ids|, sampleRate, j)];
    }
  }

  class JsonRawDataset {
    var gtFolder: string
    var imgFolder: string
    var sampleRate: int
    var rmUnannotated: bool
    var annEvery: int
    var framesFps: int
    var videoNames: seq<string>

    constructor (gtFolder: string, imgFolder: string, sampleRate: int, rmUnannotated: bool, annEvery: int,
                 framesFps: int, videoNames: seq<string>)
      ensures this.gtFolder == gtFolder && this.imgFolder == imgFolder && this.sampleRate == sampleRate
      ensures this.rmUnannotated == rmUnannotated && this.annEvery == annEvery && this.framesFps == framesFps
      ensures this.videoNames == videoNames
    {
      this.gtFolder := gtFolder;
      this.imgFolder := imgFolder;
      this.sampleRate := sampleRate;
      this.rmUnannotated := rmUnannotated;
      this.annEvery := annEvery;
      this.framesFps := framesFps;
      this.videoNames := videoNames;
    }

    /**
     * `JSONRawDataset(...)`: reads the exclusion files first, failing on an argument
     * of an unsupported type, then resolves and sorts the video list.
     */
    static method Open(fs: FileSystem, imgFolder: string, gtFolder: string, fileListTxt: Option<string>,
                       excludedVideosListTxt: ExclusionArg, sampleRate: int, rmUnannotated: bool,
                       annEvery: int, framesFps: int) returns (r: Result<JsonRawDataset>)
      ensures r.Err? <==> excludedVideosListTxt.OtherType?
      ensures r.Err? ==> r.error == NotImplementedError
      ensures r.Ok? ==> fresh(r.value)
      ensures r.Ok? ==> r.value.imgFolder == imgFolder && r.value.gtFolder == gtFolder && r.value.sampleRate == sampleRate
      ensures r.Ok? ==> r.value.rmUnannotated == rmUnannotated && r.value.annEvery == annEvery && r.value.framesFps == framesFps
      ensures r.Ok? ==> exists excluded: set<string> ::
        && (forall x :: x in excluded <==> exists p :: p in ListsOf(excludedVideosListTxt) && x in IdsOfFile(fs, p))
        && r.value.videoNames == JsonNames(fs, imgFolder, fileListTxt, excluded)
    {
      var excludedFiles := ReadExclusions(fs, excludedVideosListTxt);
      if excludedFiles.Err? {
        return Err(excludedFiles.error);
      }
      var names := JsonNames(fs, imgFolder, fileListTxt, excludedFiles.value);
      var d := new JsonRawDataset(gtFolder, imgFolder, sampleRate, rmUnannotated, annEvery, framesFps, names);
      r := Ok(d);
    }

    /** `__len__` */
    function Len(): nat
      reads this
    {
      |videoNames|
    }

    function JsonPath(videoName: string): string
      reads this
    {
      Join(gtFolder, videoName + "_manual.json")
    }

    /** The frame numbers of a video, read from the names of its files in sorted order. */
    function ListedFrameIds(fs: FileSystem, videoName: string): Result<seq<int>>
      reads this
    {
      ParseEach(Sort(fs.listDir(Join(imgFolder, videoName))), FrameIdOf)
    }

    /**
     * `get_video(video_idx)`, given the per-frame annotations `frame_annots` that the
     * loader reads from the video's JSON file. A file name that is not a number, then a
     * zero step, raise; otherwise the frames are those `ChooseFrames` picks, with only
     * completely annotated frame numbers kept when `rm_unannotated` is set.
     */
    function GetVideo<A>(fs: FileSystem, videoIdx: int, frameAnnots: seq<Option<seq<Option<A>>>>): (r: Result<VideoSample>)
      reads this
      ensures PyIndex(videoNames, videoIdx).None? ==> r == Err(IndexError)
      ensures PyIndex(videoNames, videoIdx).Some? ==>
        var name := PyIndex(videoNames, videoIdx).value;
        var ids := ListedFrameIds(fs, name);
        && (ids.Err? ==> r == Err(ids.error))
        && (ids.Ok? && sampleRate == 0 ==> r == Err(SliceStepZero))
        && (ids.Ok? && sampleRate != 0 ==>
             && r.Ok?
             && r.value.video.videoName == name
             && r.value.video.videoId == videoIdx
             && r.value.segmentLoader == JsonLoader(JsonPath(name), annEvery, framesFps)
             && r.value.video.frames == ChooseFrames(imgFolder, name, ids.value, sampleRate,
                                                     if rmUnannotated then Some(ValidFrameIds(frameAnnots, annEvery)) else None).value)
    {
      match PyIndex(videoNames, videoIdx)
      case None => Err(IndexError)
      case Some(videoName) =>
        var ids := ListedFrameIds(fs, videoName);
        if ids.Err? then Err(ids.error)
        else
          var valid := if rmUnannotated then Some(ValidFrameIds(frameAnnots, annEvery)) else None;
          var frames := ChooseFrames(imgFolder, videoName, ids.value, sampleRate, valid);
          if frames.Err? then Err(frames.error)
          else Ok(VideoSample(Video(videoName, videoIdx, frames.value), JsonLoader(JsonPath(videoName), annEvery, framesFps)))
    }
  }
}
