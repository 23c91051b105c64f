/** `BraTSRawDataset`: each video is one multi-modal MRI volume, its slices taken as frames. */
module Brats {
  import opened Wrappers
  import opened PyStr
  import opened PyPath
  import opened PySeq
  import opened Sorting
  import opened Vos

  /** `get_video` always builds this many frames. */
  const FrameCount: nat := 160

  /** The `1e-8` added to the value range by `renormalize`. */
  const Epsilon: real := 0.00000001

  /** The entries of a listing whose names end in ".npy", in listing order. */
  function NpyNames(names: seq<string>): (r: seq<string>)
    ensures forall x :: x in r <==> x in names && EndsWith(x, ".npy")
  {
    if |names| == 0 then []
    else
      assert forall x :: x in names <==> x == names[0] || x in names[1..];
      (if EndsWith(names[0], ".npy") then [names[0]] else []) + NpyNames(names[1..])
  }

  predicate IsNpyName(x: string) {
    EndsWith(x, ".npy")
  }

  /** Keeping the `.npy` names is the filter by `IsNpyName`, so it keeps each one as often as it is listed. */
  lemma {:induction false} NpyNamesCounts(names: seq<string>)
    ensures NpyNames(names) == Filter(names, IsNpyName)
    ensures forall x :: multiset(NpyNames(names))[x] == if EndsWith(x, ".npy") then multiset(names)[x] else 0
  {
    if |names| > 0 {
      NpyNamesCounts(names[1..]);
    }
    FilterSpec(names, IsNpyName);
  }

  /** Keeping only the `.npy` names of an ascending list leaves it ascending. */
  lemma {:induction false} NpyNamesSorted(names: seq<string>)
    requires Sorted(names)
    ensures Sorted(NpyNames(names))
  {
    if |names| > 0 {
      var rest := NpyNames(names[1..]);
      NpyNamesSorted(names[1..]);
      if EndsWith(names[0], ".npy") {
        var r := [names[0]] + rest;
        assert NpyNames(names) == r;
        forall i, j | 0 <= i < j < |r| ensures Below(r[i], r[j]) {
          assert r[j] == rest[j - 1];
          assert r[j] in names[1..];
          var k :| 0 <= k < |names[1..]| && names[1..][k] == r[j];
          assert names[k + 1] == r[j];
          if i > 0 {
            assert r[i] == rest[i - 1];
          }
        }
      }
    }
  }

  /**
   * The video list holds exactly the `.npy` entries of the image folder, each as often
   * as it is listed, in ascending order.
   */
  lemma BratsNamesSpec(fs: FileSystem, imgFolder: string)
    ensures Sorted(NpyNames(Sort(fs.listDir(imgFolder))))
    ensures forall x :: x in NpyNames(Sort(fs.listDir(imgFolder))) <==> x in fs.listDir(imgFolder) && EndsWith(x, ".npy")
    ensures forall x ::
      multiset(NpyNames(Sort(fs.listDir(imgFolder))))[x] == if EndsWith(x, ".npy") then multiset(fs.listDir(imgFolder))[x] else 0
  {
    var s := Sort(fs.listDir(imgFolder));
    SortSpec(fs.listDir(imgFolder));
    NpyNamesSorted(s);
    NpyNamesCounts(s);
    forall x ensures x in s <==> x in fs.listDir(imgFolder) {
      assert x in s <==> x in multiset(s);
    }
  }

  /** Every value of the tensors, tensor after tensor. */
  function Flatten(ts: seq<Tensor>): seq<real> {
    if |ts| == 0 then [] else Flatten(ts[..|ts| - 1]) + ts[|ts| - 1].values
  }

  /** Every value of every tensor is among the flattened values. */
  lemma {:induction false} FlattenHas(ts: seq<Tensor>, i: nat, k: nat)
    requires i < |ts| && k < |ts[i].values|
    ensures ts[i].values[k] in Flatten(ts)
  {
    var n := |ts| - 1;
    var init := Flatten(ts[..n]);
    if i < n {
      assert ts[..n][i] == ts[i];
      FlattenHas(ts[..n], i, k);
    } else {
      assert Flatten(ts)[|init| + k] == ts[n].values[k];
    }
  }

  /** Tensors of one length `width` lie side by side: item `q` of tensor `c` is at `c * width + q`. */
  lemma {:induction false} FlattenLayout(ts: seq<Tensor>, width: nat, c: nat, q: nat)
    requires forall i :: 0 <= i < |ts| ==> |ts[i].values| == width
    requires c < |ts| && q < width
    ensures |Flatten(ts)| == |ts| * width
    ensures c * width + q < |Flatten(ts)| && Flatten(ts)[c * width + q] == ts[c].values[q]
  {
    var n := |ts| - 1;
    var init := ts[..n];
    assert forall i :: 0 <= i < n ==> init[i] == ts[i];
    assert Flatten(ts) == Flatten(init) + ts[n].values;
    FlattenLength(ts, width);
    FlattenLength(init, width);
    RowBound(c, |ts|, width, q);
    if c < n {
      FlattenLayout(init, width, c, q);
      RowBound(c, n, width, q);
      assert Flatten(ts)[c * width + q] == Flatten(init)[c * width + q];
    } else {
      assert Flatten(ts)[n * width + q] == ts[n].values[q];
    }
  }

  /** Row `c` of a `n` x `width` layout lies inside it. */
  lemma RowBound(c: nat, n: nat, width: nat, q: nat)
    requires c < n && q < width
    ensures c * width + q < n * width
  {
    assert n * width == (c + 1) * width + (n - c - 1) * width;
  }

  lemma {:induction false} FlattenLength(ts: seq<Tensor>, width: nat)
    requires forall i :: 0 <= i < |ts| ==> |ts[i].values| == width
    ensures |Flatten(ts)| == |ts| * width
  {
    if |ts| > 0 {
      FlattenLength(ts[..|ts| - 1], width);
    }
  }

  /** The non-zero values, in order. */
  function Foreground(xs: seq<real>): (r: seq<real>)
    ensures forall x :: x in r <==> x in xs && x != 0.0
  {
    if |xs| == 0 then []
    else
      assert forall x :: x in xs <==> x == xs[0] || x in xs[1..];
      (if xs[0] != 0.0 then [xs[0]] else []) + Foreground(xs[1..])
  }

  function MinOf(xs: seq<real>): (r: real)
    requires |xs| > 0
    ensures r in xs && forall x :: x in xs ==> r <= x
  {
    if |xs| == 1 then xs[0]
    else
      var m := MinOf(xs[1..]);
      assert forall x :: x in xs ==> x == xs[0] || x in xs[1..];
      if xs[0] <= m then xs[0] else m
  }

  function MaxOf(xs: seq<real>): (r: real)
    requires |xs| > 0
    ensures r in xs && forall x :: x in xs ==> x <= r
  {
    if |xs| == 1 then xs[0]
    else
      var m := MaxOf(xs[1..]);
      assert forall x :: x in xs ==> x == xs[0] || x in xs[1..];
      if xs[0] >= m then xs[0] else m
  }

  /** One value of `renormalize`: zeros stay zero, the rest are mapped linearly from `[lo, hi]`. */
  function ScaleValue(x: real, lo: real, hi: real): real
    requires lo <= hi
  {
    if x == 0.0 then 0.0 else (x - lo) / (hi - lo + Epsilon)
  }

  /**
   * `renormalize(arr)` on one modality: every value rescaled by the smallest and the
   * largest non-zero value. With no non-zero value, `np.min` of the empty foreground raises.
   */
  function Renormalize(m: seq<Tensor>): (r: Result<seq<Tensor>>)
    ensures r.Err? <==> |Foreground(Flatten(m))| == 0
    ensures r.Err? ==> r.error == EmptyReduction
    ensures r.Ok? ==> |r.value| == |m| && forall i :: 0 <= i < |m| ==> |r.value[i].values| == |m[i].values|
  {
    var foreground := Foreground(Flatten(m));
    if |foreground| == 0 then Err(EmptyReduction)
    else
      var lo := MinOf(foreground);
      var hi := MaxOf(foreground);
      Ok(seq(|m|, i requires 0 <= i < |m| =>
        Tensor(seq(|m[i].values|, k requires 0 <= k < |m[i].values| => ScaleValue(m[i].values[k], lo, hi)))))
  }

  /** After `renormalize` every value lies in [0, 1) and a zero stays zero. */
  lemma RenormalizeRange(m: seq<Tensor>)
    requires Renormalize(m).Ok?
    ensures forall i, k :: 0 <= i < |m| && 0 <= k < |m[i].values| ==>
      var y := Renormalize(m).value[i].values[k];
      0.0 <= y < 1.0 && (m[i].values[k] == 0.0 ==> y == 0.0)
  {
    forall i, k | 0 <= i < |m| && 0 <= k < |m[i].values|
      ensures var y := Renormalize(m).value[i].values[k]; 0.0 <= y < 1.0 && (m[i].values[k] == 0.0 ==> y == 0.0)
    {
      RenormalizeAt(m, i, k);
    }
  }

  lemma RenormalizeAt(m: seq<Tensor>, i: nat, k: nat)
    requires Renormalize(m).Ok? && i < |m| && k < |m[i].values|
    ensures var y := Renormalize(m).value[i].values[k]; 0.0 <= y < 1.0 && (m[i].values[k] == 0.0 ==> y == 0.0)
  {
    var foreground := Foreground(Flatten(m));
    var lo := MinOf(foreground);
    var hi := MaxOf(foreground);
    var x := m[i].values[k];
    assert Renormalize(m).value[i].values[k] == ScaleValue(x, lo, hi);
    if x != 0.0 {
      FlattenHas(m, i, k);
      assert x in foreground;
      ScaledInRange(x, lo, hi);
    }
  }

  lemma ScaledInRange(x: real, lo: real, hi: real)
    requires lo <= x <= hi
    ensures 0.0 <= (x - lo) / (hi - lo + Epsilon) < 1.0
  {
    var d := hi - lo + Epsilon;
    assert 0.0 <= x - lo < d;
    assert (x - lo) / d * d == x - lo;
  }

  /** The modalities `get_video` keeps: all but the first (`full_video[1:]`). */
  function KeptModalities(v: Volume): (r: seq<seq<Tensor>>)
    ensures forall m :: m in r ==> |m| == v.depth
  {
    if |v.modalities| == 0 then [] else v.modalities[1..]
  }

  /** The kept modalities once each is renormalised; the first modality that cannot be fails the whole. */
  function RenormalizeAll(mods: seq<seq<Tensor>>): (r: Result<seq<seq<Tensor>>>)
    ensures r.Err? <==> exists j :: 0 <= j < |mods| && Renormalize(mods[j]).Err?
    ensures r.Err? ==> r.error == EmptyReduction
    ensures r.Ok? ==> |r.value| == |mods| && forall j :: 0 <= j < |mods| ==> r.value[j] == Renormalize(mods[j]).value
  {
    if forall j :: 0 <= j < |mods| ==> Renormalize(mods[j]).Ok? then
      Ok(seq(|mods|, j requires 0 <= j < |mods| => Renormalize(mods[j]).value))
    else Err(EmptyReduction)
  }

  /** Renormalising keeps every modality `depth` slices deep. */
  lemma RenormalizeAllDepth(mods: seq<seq<Tensor>>, depth: nat)
    requires forall m :: m in mods ==> |m| == depth
    requires RenormalizeAll(mods).Ok?
    ensures forall m :: m in RenormalizeAll(mods).value ==> |m| == depth
  {
    var r := RenormalizeAll(mods).value;
    forall m | m in r ensures |m| == depth {
      var j :| 0 <= j < |r| && r[j] == m;
      assert mods[j] in mods;
    }
  }

  /**
   * Frame `k` once the slice axis of the volume is moved to the front: slice `k` of
   * every modality, modality after modality.
   */
  function FrameTensor(mods: seq<seq<Tensor>>, k: nat): Tensor {
    Tensor(Flatten(Slices(mods, k)))
  }

  /** Slice `k` of every modality; a modality too short to have one contributes nothing. */
  function Slices(mods: seq<seq<Tensor>>, k: nat): seq<Tensor> {
    seq(|mods|, c requires 0 <= c < |mods| => if k < |mods[c]| then mods[c][k] else Tensor([]))
  }

  /** When slices are `width` values each, value `q` of modality `c` in frame `k` is at `c * width + q`. */
  lemma FrameTensorLayout(mods: seq<seq<Tensor>>, k: nat, width: nat, c: nat, q: nat)
    requires forall i :: 0 <= i < |mods| ==> k < |mods[i]| && |mods[i][k].values| == width
    requires c < |mods| && q < width
    ensures |FrameTensor(mods, k).values| == |mods| * width
    ensures c * width + q < |FrameTensor(mods, k).values|
    ensures FrameTensor(mods, k).values[c * width + q] == mods[c][k].values[q]
  {
    var slices := Slices(mods, k);
    assert forall i :: 0 <= i < |slices| ==> slices[i] == mods[i][k];
    FlattenLayout(slices, width, c, q);
  }

  /** The video name without its last eight characters. */
  function LabelName(videoName: string): string {
    DropLast(videoName, 8)
  }

  predicate IsLabelFor(entry: string, labelName: string) {
    Contains(entry, labelName) && EndsWith(entry, ".npy")
  }

  /** The position of the first entry that is the label file of `labelName`, or -1 when there is none. */
  function FirstLabel(entries: seq<string>, labelName: string): (i: int)
    ensures -1 <= i < |entries|
    ensures i >= 0 ==> IsLabelFor(entries[i], labelName)
    ensures forall j :: 0 <= j < |entries| && (i < 0 || j < i) ==> !IsLabelFor(entries[j], labelName)
  {
    if |entries| == 0 then -1
    else if IsLabelFor(entries[0], labelName) then 0
    else
      var t := FirstLabel(entries[1..], labelName);
      assert forall j :: 1 <= j < |entries| ==> entries[j] == entries[1..][j - 1];
      if t < 0 then -1 else t + 1
  }

  class BratsRawDataset {
    var folderPath: string
    var gtPath: string
    var videoNames: seq<string>
    var currVid: string

    /** The subset file is accepted and not used. */
    constructor (fs: FileSystem, imgFolder: string, gtFolder: string, fileListTxt: Option<string>)
      ensures folderPath == imgFolder && gtPath == gtFolder && currVid == ""
      ensures videoNames == NpyNames(Sort(fs.listDir(imgFolder)))
    {
      folderPath := imgFolder;
      gtPath := gtFolder;
      videoNames := NpyNames(Sort(fs.listDir(imgFolder)));
      currVid := "";
    }

    /** `__len__` */
    function Len(): nat
      reads this
    {
      |videoNames|
    }

    /**
     * `get_video(video_idx)`. Records the video as the current one, loads its volume,
     * drops the first modality and renormalises the others, finds the first `.npy` mask
     * whose name contains the label name, and makes one frame of each of the first 160
     * slices. A modality with no non-zero value, a missing mask, or a volume of fewer
     * than 160 slices raises.
     */
    method GetVideo(fs: FileSystem, videoIdx: int) returns (r: Result<VideoSample>)
      modifies this`currVid
      ensures PyIndex(videoNames, videoIdx).None? ==> r == Err(IndexError) && currVid == old(currVid)
      ensures PyIndex(videoNames, videoIdx).Some? ==>
        var name := PyIndex(videoNames, videoIdx).value;
        var volume := fs.loadVolume(Join(folderPath, name));
        var mods := KeptModalities(volume);
        var entries := fs.listDir(gtPath);
        var labelAt := FirstLabel(entries, LabelName(name));
        var fullVideo := RenormalizeAll(mods);
        && currVid == name
        && (fullVideo.Err? ==> r == Err(fullVideo.error))
        && (fullVideo.Ok? ==>
              if labelAt < 0 then r == Err(IndexError)
              else if volume.depth < FrameCount then r == Err(IndexError)
              else
                && r.Ok?
                && r.value.video.videoName == name
                && r.value.video.videoId == videoIdx
                && r.value.segmentLoader == BratsLoader(Join(gtPath, entries[labelAt]))
                && |r.value.video.frames| == FrameCount
                && forall k :: 0 <= k < FrameCount ==>
                     r.value.video.frames[k] == Frame(k, Some("null"), Some(FrameTensor(fullVideo.value, k)), false))
    {
      var found := PyIndex(videoNames, videoIdx);
      if found.None? {
        return Err(IndexError);
      }
      var videoName := found.value;
      currVid := videoName;
      var volume := fs.loadVolume(Join(folderPath, videoName));
      var mods := KeptModalities(volume);
      var fullVideo := RenormalizeEach(mods);
      if fullVideo.Err? {
        return Err(fullVideo.error);
      }
      var entries := fs.listDir(gtPath);
      var labelAt := FirstLabel(entries, LabelName(videoName));
      if labelAt < 0 {
        return Err(IndexError);
      }
      var segmentLoader := BratsLoader(Join(gtPath, entries[labelAt]));
      RenormalizeAllDepth(mods, volume.depth);
      var frames := SliceFrames(fullVideo.value, volume.depth);
      if frames.Err? {
        return Err(frames.error);
      }
      r := Ok(VideoSample(Video(videoName, videoIdx, frames.value), segmentLoader));
    }
  }

  /** The loop that renormalises each kept modality in place. */
  method RenormalizeEach(mods: seq<seq<Tensor>>) returns (r: Result<seq<seq<Tensor>>>)
    ensures r == RenormalizeAll(mods)
  {
    var fullVideo := mods;
    var i := 0;
    while i < |fullVideo|
      invariant 0 <= i <= |fullVideo| == |mods|
      invariant forall j :: 0 <= j < i ==> Renormalize(mods[j]).Ok? && fullVideo[j] == Renormalize(mods[j]).value
      invariant forall j :: i <= j < |mods| ==> fullVideo[j] == mods[j]
    {
      var scaled := Renormalize(fullVideo[i]);
      if scaled.Err? {
        return Err(EmptyReduction);
      }
      fullVideo := fullVideo[i := scaled.value];
      i := i + 1;
    }
    assert fullVideo == RenormalizeAll(mods).value;
    r := Ok(fullVideo);
  }

  /** The loop over `range(160)` that makes frame `k` of slice `k`, raising when the volume has fewer slices. */
  method SliceFrames(fullVideo: seq<seq<Tensor>>, depth: nat) returns (r: Result<seq<Frame>>)
    requires forall m :: m in fullVideo ==> |m| == depth
    ensures r.Err? <==> depth < FrameCount
    ensures r.Err? ==> r.error == IndexError
    ensures r.Ok? ==> |r.value| == FrameCount && forall k :: 0 <= k < FrameCount ==>
      r.value[k] == Frame(k, Some("null"), Some(FrameTensor(fullVideo, k)), false)
  {
    var frames: seq<Frame> := [];
    var frameIdx := 0;
    while frameIdx < FrameCount
      invariant 0 <= frameIdx <= FrameCount && |frames| == frameIdx
      invariant frameIdx <= depth
      invariant forall k :: 0 <= k < frameIdx ==> frames[k] == Frame(k, Some("null"), Some(FrameTensor(fullVideo, k)), false)
    {
      if frameIdx >= depth {
        return Err(IndexError);
      }
      frames := frames + [Frame(frameIdx, Some("null"), Some(FrameTensor(fullVideo, frameIdx)), false)];
      frameIdx := frameIdx + 1;
    }
    r := Ok(frames);
  }
}
