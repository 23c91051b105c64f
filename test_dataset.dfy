/** `TestDataset`: twenty in-memory videos of random frames, for exercising the pipeline. */
module Testing {
  import opened Wrappers
  import opened PyStr
  import opened PySeq
  import opened Vos

  /** The dataset holds twenty random videos, each of twenty frames of 3 x 512 x 512 values. */
  const VideoCount: nat := 20
  const FramesPerVideo: nat := 20
  const ValuesPerFrame: nat := 3 * 512 * 512

  /** The shape the random tensors have. */
  predicate WellShaped(imgs: seq<seq<Tensor>>) {
    && |imgs| == VideoCount
    && forall v :: v in imgs ==> |v| == FramesPerVideo && forall t :: t in v ==> |t.values| == ValuesPerFrame
  }

  class TestDataset {
    var imgs: seq<seq<Tensor>>

    /** The random draws are passed in; their values are not modelled, only their shape. */
    constructor (imgs: seq<seq<Tensor>>)
      requires WellShaped(imgs)
      ensures this.imgs == imgs
    {
      this.imgs := imgs;
    }

    /** `__len__` */
    function Len(): nat
      reads this
    {
      |imgs|
    }

    /**
     * `get_video(idx)`: one frame per slice of the chosen video, with the placeholder
     * path "null". The video is named by `str(idx)`, which reads back as its id.
     */
    method GetVideo(idx: int) returns (r: Result<VideoSample>)
      ensures PyIndex(imgs, idx).None? ==> r == Err(IndexError)
      ensures PyIndex(imgs, idx).Some? ==>
        var fullVideo := PyIndex(imgs, idx).value;
        && r.Ok?
        && r.value.segmentLoader == TestLoader
        && r.value.video.videoId == idx
        && r.value.video.videoName == IntToStr(idx)
        && ParseInt(r.value.video.videoName) == Some(r.value.video.videoId)
        && |r.value.video.frames| == |fullVideo|
        && forall i :: 0 <= i < |fullVideo| ==> r.value.video.frames[i] == Frame(i, Some("null"), Some(fullVideo[i]), false)
    {
      var found := PyIndex(imgs, idx);
      if found.None? {
        return Err(IndexError);
      }
      var fullVideo := found.value;
      var frames: seq<Frame> := [];
      var frameIdx := 0;
      while frameIdx < |fullVideo|
        invariant 0 <= frameIdx <= |fullVideo| && |frames| == frameIdx
        invariant forall i :: 0 <= i < frameIdx ==> frames[i] == Frame(i, Some("null"), Some(fullVideo[i]), false)
      {
        frames := frames + [Frame(frameIdx, Some("null"), Some(fullVideo[frameIdx]), false)];
        frameIdx := frameIdx + 1;
      }
      ParseIntOfStr(idx);
      r := Ok(VideoSample(Video(IntToStr(idx), idx, frames), TestLoader));
    }
  }
}
