/** `SA1BRawDataset`: single images, each treated as a video of `num_frames` copies of itself. */
module Sa1b {
  import opened Wrappers
  import opened PyStr
  import opened PyPath
  import opened PySeq
  import opened Vos

  /** The `.jpg` entries of a listing, in listing order. */
  function JpgEntries(names: seq<string>): (r: seq<string>)
    ensures forall p :: p in r <==> p in names && EndsWith(p, ".jpg")
  {
    if |names| == 0 then []
    else (if EndsWith(names[0], ".jpg") then [names[0]] else []) + JpgEntries(names[1..])
  }

  /** The filter keeps listing order, every occurrence of a `.jpg` entry and nothing else. */
  lemma JpgEntriesSpec(names: seq<string>)
    ensures IsSubsequence(JpgEntries(names), names)
    ensures forall p :: multiset(JpgEntries(names))[p] == if EndsWith(p, ".jpg") then multiset(names)[p] else 0
  {
    JpgEntriesKeepOrder(names);
    JpgEntriesCounts(names);
  }

  lemma {:induction false} JpgEntriesKeepOrder(names: seq<string>)
    ensures IsSubsequence(JpgEntries(names), names)
  {
    if |names| > 0 {
      var rest := JpgEntries(names[1..]);
      JpgEntriesKeepOrder(names[1..]);
      if EndsWith(names[0], ".jpg") {
        assert JpgEntries(names) == [names[0]] + rest;
        SubsequenceKeep(rest, names);
      } else {
        assert JpgEntries(names) == rest;
        SubsequenceSkip(rest, names);
      }
    }
  }

  lemma {:induction false} JpgEntriesCounts(names: seq<string>)
    ensures forall p :: multiset(JpgEntries(names))[p] == if EndsWith(p, ".jpg") then multiset(names)[p] else 0
  {
    if |names| > 0 {
      var head := if EndsWith(names[0], ".jpg") then [names[0]] else [];
      var rest := JpgEntries(names[1..]);
      JpgEntriesCounts(names[1..]);
      assert names == [names[0]] + names[1..];
      assert multiset(names) == multiset{names[0]} + multiset(names[1..]);
      assert multiset(JpgEntries(names)) == multiset(head) + multiset(rest);
    }
  }

  /**
   * The folder's images as candidates: one per `.jpg` entry, in listing order, each cut
   * at its first '.'; two images that differ after that dot give the same name twice.
   */
  function JpgIds(names: seq<string>): (r: seq<string>)
    ensures |r| == |JpgEntries(names)|
    ensures forall j :: 0 <= j < |r| ==> r[j] == BeforeFirst(JpgEntries(names)[j], '.')
    ensures forall x :: x in r <==> exists p :: p in names && EndsWith(p, ".jpg") && x == BeforeFirst(p, '.')
    ensures forall i :: 0 <= i < |r| ==> '.' !in r[i]
  {
    var entries := JpgEntries(names);
    var r := seq(|entries|, j requires 0 <= j < |entries| => BeforeFirst(entries[j], '.'));
    CutMembers(entries, r);
    r
  }

  lemma CutMembers(entries: seq<string>, r: seq<string>)
    requires |r| == |entries| && forall j :: 0 <= j < |r| ==> r[j] == BeforeFirst(entries[j], '.')
    ensures forall x :: x in r <==> exists p :: p in entries && x == BeforeFirst(p, '.')
  {
    forall x ensures x in r <==> exists p :: p in entries && x == BeforeFirst(p, '.') {
      if x in r {
        var j :| 0 <= j < |r| && r[j] == x;
        assert entries[j] in entries;
      }
      if exists p :: p in entries && x == BeforeFirst(p, '.') {
        var p :| p in entries && x == BeforeFirst(p, '.');
        var j :| 0 <= j < |entries| && entries[j] == p;
        assert r[j] == x;
      }
    }
  }

  /** The candidates: the identifiers of the subset file, or the images of the folder. */
  function Sa1bCandidates(fs: FileSystem, imgFolder: string, fileListTxt: Option<string>): seq<string> {
    match fileListTxt
    case None => JpgIds(fs.listDir(imgFolder))
    case Some(path) => IdsOfFile(fs, path)
  }

  function Sa1bNames(fs: FileSystem, imgFolder: string, fileListTxt: Option<string>, excludedListTxt: Option<string>): seq<string> {
    Exclude(Sa1bCandidates(fs, imgFolder, fileListTxt), ToSet(ExcludedIds(fs, excludedListTxt)))
  }

  /**
   * Unlike the other indexers, the SA-1B list is not sorted: it keeps the order of the
   * candidates and every candidate that is not excluded.
   */
  lemma Sa1bNamesSpec(fs: FileSystem, imgFolder: string, fileListTxt: Option<string>, excludedListTxt: Option<string>)
    ensures var r := Sa1bNames(fs, imgFolder, fileListTxt, excludedListTxt);
      var c := Sa1bCandidates(fs, imgFolder, fileListTxt);
      var excluded := ExcludedIds(fs, excludedListTxt);
      && IsSubsequence(r, c)
      && (forall v :: multiset(r)[v] == if v in excluded then 0 else multiset(c)[v])
      && (forall v :: v in r <==> v in c && v !in excluded)
  {
    ExcludeSpec(Sa1bCandidates(fs, imgFolder, fileListTxt), ToSet(ExcludedIds(fs, excludedListTxt)));
  }

  /** The part of a video name after its last underscore: the image number of an `sa_{int}` file name. */
  function ShortName(videoName: string): string {
    AfterLast(videoName, '_')
  }

  /** A name `<prefix>_<n>` has the video id `n`. */
  lemma ShortNameRoundTrip(prefix: string, n: nat)
    ensures ShortName(prefix + "_" + ToDecimal(n)) == ToDecimal(n)
    ensures ParseInt(ShortName(prefix + "_" + ToDecimal(n))) == Some(n)
  {
    var d := ToDecimal(n);
    var s := prefix + "_" + d;
    assert s[|prefix|] == '_';
    forall i | |prefix| < i < |s| ensures s[i] != '_' {
      assert s[i] == d[i - |prefix| - 1];
    }
    assert RFind(s, '_') == |prefix|;
    assert s[|prefix| + 1..] == d;
    ParseIntOfStr(n);
  }

  class Sa1bRawDataset {
    var imgFolder: string
    var gtFolder: string
    var numFrames: int
    var maskAreaFracThresh: real
    var uncertainIou: real
    var videoNames: seq<string>

    constructor (fs: FileSystem, imgFolder: string, gtFolder: string, fileListTxt: Option<string>,
                 excludedVideosListTxt: Option<string>, numFrames: int, maskAreaFracThresh: real, uncertainIou: real)
      ensures this.imgFolder == imgFolder && this.gtFolder == gtFolder && this.numFrames == numFrames
      ensures this.maskAreaFracThresh == maskAreaFracThresh && this.uncertainIou == uncertainIou
      ensures videoNames == Sa1bNames(fs, imgFolder, fileListTxt, excludedVideosListTxt)
    {
      this.imgFolder := imgFolder;
      this.gtFolder := gtFolder;
      this.numFrames := numFrames;
      this.maskAreaFracThresh := maskAreaFracThresh;
      this.uncertainIou := uncertainIou;
      videoNames := Sa1bNames(fs, imgFolder, fileListTxt, excludedVideosListTxt);
    }

    /** `__len__` */
    function Len(): nat
      reads this
    {
      |videoNames|
    }

    function FramePath(videoName: string): string
      reads this
    {
      Join(imgFolder, videoName + ".jpg")
    }

    function MaskPath(videoName: string): string
      reads this
    {
      Join(gtFolder, videoName + ".json")
    }

    /**
     * `get_video(idx)`: `num_frames` frames (none when it is not positive), all showing
     * the same image. The video is named by the text after the last '_' and its id is
     * that text read as an integer; when it is not one, `int()` raises.
     */
    method GetVideo(idx: int) returns (r: Result<VideoSample>)
      ensures PyIndex(videoNames, idx).None? ==> r == Err(IndexError)
      ensures PyIndex(videoNames, idx).Some? && ParseInt(ShortName(PyIndex(videoNames, idx).value)).None? ==>
        r == Err(InvalidLiteral(ShortName(PyIndex(videoNames, idx).value)))
      ensures PyIndex(videoNames, idx).Some? && ParseInt(ShortName(PyIndex(videoNames, idx).value)).Some? ==>
        var name := PyIndex(videoNames, idx).value;
        && r.Ok?
        && r.value.video.videoName == ShortName(name)
        && r.value.video.videoId == ParseInt(ShortName(name)).value
        && r.value.segmentLoader == Sa1bLoader(MaskPath(name), maskAreaFracThresh, FramePath(name), uncertainIou)
        && |r.value.video.frames| == (if numFrames > 0 then numFrames else 0)
        && forall j :: 0 <= j < |r.value.video.frames| ==> r.value.video.frames[j] == Frame(j, Some(FramePath(name)), None, false)
    {
      var found := PyIndex(videoNames, idx);
      if found.None? {
        return Err(IndexError);
      }
      var videoName := found.value;
      var videoFramePath := FramePath(videoName);
      var segmentLoader := Sa1bLoader(MaskPath(videoName), maskAreaFracThresh, videoFramePath, uncertainIou);
      var frames: seq<Frame> := [];
      var frameIdx := 0;
      while frameIdx < numFrames
        invariant 0 <= frameIdx && |frames| == frameIdx
        invariant frameIdx <= (if numFrames > 0 then numFrames else 0)
        invariant forall j :: 0 <= j < frameIdx ==> frames[j] == Frame(j, Some(videoFramePath), None, false)
      {
        frames := frames + [Frame(frameIdx, Some(videoFramePath), None, false)];
        frameIdx := frameIdx + 1;
      }
      var shortName := ShortName(videoName);
      var videoId := ParseInt(shortName);
      if videoId.None? {
        return Err(InvalidLiteral(shortName));
      }
      r := Ok(VideoSample(Video(shortName, videoId.value, frames), segmentLoader));
    }
  }
}
