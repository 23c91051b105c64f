/**
 * The records every indexer produces (a frame, a video, the segment-loader handle it
 * hands back) and the view of the filesystem the indexers read. Also the steps of
 * identifier resolution that several indexers share.
 */
module Vos {
  import opened Wrappers
  import opened PyStr
  import opened PyPath
  import opened PySeq

  /** A decoded image or mask array; the indexers pass these around without looking inside. */
  datatype Tensor = Tensor(values: seq<real>)

  /** `VOSFrame`: one time step of a video, given by an image path, in-memory data, or both. */
  datatype Frame = Frame(frameIdx: int, imagePath: Option<string>, data: Option<Tensor>, isConditioningOnly: bool)

  /** `VOSVideo` */
  datatype Video = Video(videoName: string, videoId: int, frames: seq<Frame>)

  /**
   * The segment loader a `get_video` call constructs, recorded by what it is constructed
   * from: the loaders' own behaviour lies outside this model.
   */
  datatype SegmentLoader =
    | PalettisedPngLoader(videoMaskRoot: string, sampleRate: int)
    | MultiplePngLoader(videoMaskRoot: string, singleObjectMode: bool)
    | NpzLoader(masks: seq<Tensor>)
    | Sa1bLoader(videoMaskPath: string, maskAreaFracThresh: real, videoFramePath: string, uncertainIou: real)
    | JsonLoader(videoJsonPath: string, annEvery: int, framesFps: int)
    | BratsLoader(maskPath: string)
    | TestLoader

  /** What `get_video` returns: the video and its segment loader. */
  datatype VideoSample = VideoSample(video: Video, segmentLoader: SegmentLoader)

  /** One directory visited by `os.walk`: its path relative to the walked folder ("" for the folder itself) and its files. */
  datatype WalkDir = WalkDir(relRoot: string, files: seq<string>)

  /**
   * A 4-D array as `np.load` returns it for a medical volume. Along its first axis lie
   * the modalities; each modality is held as its `depth` slices along the last axis.
   */
  datatype VolumeArray = VolumeArray(depth: nat, modalities: seq<seq<Tensor>>)

  /** Every modality of a loaded array has the same number of slices. */
  type Volume = v: VolumeArray | forall m :: m in v.modalities ==> |m| == v.depth witness VolumeArray(0, [])

  /** The two arrays of a `.npz` archive. */
  datatype NpzArchive = NpzArchive(imgs: seq<Tensor>, gts: seq<Tensor>)

  /**
   * The state of the storage the indexers read, as the results of the calls they make:
   * `os.listdir`, the lines of a text file, `os.walk`, and `np.load` of an archive or
   * of a medical volume.
   */
  datatype FileSystem = FileSystem(
    listDir: string -> seq<string>,
    readLines: string -> seq<string>,
    walk: string -> seq<WalkDir>,
    loadNpz: string -> NpzArchive,
    loadVolume: string -> Volume)

  /** The identifier a line of a list file names: the line stripped of whitespace and of its extension. */
  function IdOfLine(line: string): string {
    StripExt(Strip(line))
  }

  /** The identifiers of a list file, one per line, in file order. */
  function IdsOfFile(fs: FileSystem, path: string): (r: seq<string>)
    ensures |r| == |fs.readLines(path)|
    ensures forall i :: 0 <= i < |r| ==> r[i] == IdOfLine(fs.readLines(path)[i])
  {
    var lines := fs.readLines(path);
    seq(|lines|, i requires 0 <= i < |lines| => IdOfLine(lines[i]))
  }

  /** The excluded identifiers: those of the exclusion file if one is given, none otherwise. */
  function ExcludedIds(fs: FileSystem, excludedListTxt: Option<string>): seq<string> {
    match excludedListTxt
    case None => []
    case Some(path) => IdsOfFile(fs, path)
  }

  /** The candidate identifiers: those of the subset file if one is given, `os.listdir(folder)` otherwise. */
  function SubsetIds(fs: FileSystem, folder: string, fileListTxt: Option<string>): seq<string> {
    match fileListTxt
    case None => fs.listDir(folder)
    case Some(path) => IdsOfFile(fs, path)
  }

  function ToSet(s: seq<string>): (r: set<string>)
    ensures forall x :: x in r <==> x in s
  {
    set x | x in s
  }

  /** The candidates that are not excluded, in their order. */
  function Exclude(subset: seq<string>, excluded: set<string>): (r: seq<string>)
    ensures forall v :: v in r <==> v in subset && v !in excluded
  {
    if |subset| == 0 then []
    else (if subset[0] in excluded then [] else [subset[0]]) + Exclude(subset[1..], excluded)
  }

  /**
   * The filter keeps the order of `subset` and every occurrence of each name that is
   * not excluded, and drops every occurrence of each name that is.
   */
  lemma ExcludeSpec(subset: seq<string>, excluded: set<string>)
    ensures IsSubsequence(Exclude(subset, excluded), subset)
    ensures forall v :: multiset(Exclude(subset, excluded))[v] == if v in excluded then 0 else multiset(subset)[v]
  {
    ExcludeKeepsOrder(subset, excluded);
    ExcludeCounts(subset, excluded);
  }

  lemma {:induction false} ExcludeKeepsOrder(subset: seq<string>, excluded: set<string>)
    ensures IsSubsequence(Exclude(subset, excluded), subset)
  {
    if |subset| > 0 {
      var rest := Exclude(subset[1..], excluded);
      ExcludeKeepsOrder(subset[1..], excluded);
      if subset[0] in excluded {
        assert Exclude(subset, excluded) == rest;
        SubsequenceSkip(rest, subset);
      } else {
        assert Exclude(subset, excluded) == [subset[0]] + rest;
        SubsequenceKeep(rest, subset);
      }
    }
  }

  lemma {:induction false} ExcludeCounts(subset: seq<string>, excluded: set<string>)
    ensures forall v :: multiset(Exclude(subset, excluded))[v] == if v in excluded then 0 else multiset(subset)[v]
  {
    if |subset| > 0 {
      var head := if subset[0] in excluded then [] else [subset[0]];
      var rest := Exclude(subset[1..], excluded);
      ExcludeCounts(subset[1..], excluded);
      assert subset == [subset[0]] + subset[1..];
      assert multiset(subset) == multiset{subset[0]} + multiset(subset[1..]);
      assert multiset(Exclude(subset, excluded)) == multiset(head) + multiset(rest);
    }
  }

  /**
   * `glob.glob(os.path.join(root, "*.jpg"))`: the entries of the pattern's directory
   * whose names end in ".jpg" and do not start with '.', each joined to that directory.
   */
  function GlobJpg(fs: FileSystem, root: string): (r: seq<string>)
  {
    var dir := Dirname(Join(root, "*.jpg"));
    JoinMatching(dir, fs.listDir(dir))
  }

  function JoinMatching(dir: string, names: seq<string>): (r: seq<string>)
    ensures forall p :: p in r <==> exists f :: f in names && IsJpgName(f) && p == Join(dir, f)
  {
    if |names| == 0 then []
    else (if IsJpgName(names[0]) then [Join(dir, names[0])] else []) + JoinMatching(dir, names[1..])
  }

  /** Position by position, the matching names joined to `dir`, in listing order. */
  lemma {:induction false} JoinMatchingSpec(dir: string, names: seq<string>)
    ensures var kept := Filter(names, IsJpgName);
      && |JoinMatching(dir, names)| == |kept|
      && forall j :: 0 <= j < |kept| ==> JoinMatching(dir, names)[j] == Join(dir, kept[j])
  {
    if |names| > 0 {
      var r := JoinMatching(dir, names);
      var kept := Filter(names, IsJpgName);
      var rest := JoinMatching(dir, names[1..]);
      var keptRest := Filter(names[1..], IsJpgName);
      JoinMatchingSpec(dir, names[1..]);
      var d := if IsJpgName(names[0]) then 1 else 0;
      assert r[d..] == rest && kept[d..] == keptRest;
      forall j | d <= j < |kept|
        ensures r[j] == Join(dir, kept[j])
      {
        assert r[j] == rest[j - d] && kept[j] == keptRest[j - d];
      }
    }
  }

  /** A name the pattern `*.jpg` matches: it ends in ".jpg" and is not hidden. */
  predicate IsJpgName(f: string) {
    EndsWith(f, ".jpg") && f[0] != '.'
  }
}
