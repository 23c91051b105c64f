/** `NPZRawDataset`: each video is one `.npz` archive holding its images and its masks. */
module Npz {
  import opened Wrappers
  import opened PyStr
  import opened PyPath
  import opened PySeq
  import opened Sorting
  import opened Vos

  /** The identifier of an archive found by the walk: its path relative to the folder, without extension. */
  function WalkId(relRoot: string, file: string): string {
    StripExt(Join(relRoot, file))
  }

  predicate IsNpzName(file: string) {
    EndsWith(file, ".npz")
  }

  /** The identifiers of the archives among the first files of one visited directory. */
  function DirIds(relRoot: string, files: seq<string>): (r: seq<string>)
    ensures forall x :: x in r <==> IsDirId(relRoot, files, x)
  {
    if |files| == 0 then []
    else
      var init := files[..|files| - 1];
      var last := files[|files| - 1];
      DirIdSnoc(relRoot, init, last);
      assert files == init + [last];
      DirIds(relRoot, init) + (if IsNpzName(last) then [WalkId(relRoot, last)] else [])
  }

  /** `x` is the identifier of one of the archives among `files`. */
  predicate IsDirId(relRoot: string, files: seq<string>, x: string) {
    exists f :: f in files && IsNpzName(f) && x == WalkId(relRoot, f)
  }

  lemma DirIdSnoc(relRoot: string, init: seq<string>, last: string)
    ensures forall x :: IsDirId(relRoot, init + [last], x) <==>
      IsDirId(relRoot, init, x) || (IsNpzName(last) && x == WalkId(relRoot, last))
  {
    var files := init + [last];
    assert forall f :: f in files <==> f in init || f == last;
  }

  /** Position by position, the identifiers of the archives among `files`, in listing order. */
  lemma {:induction false} DirIdsSpec(relRoot: string, files: seq<string>)
    ensures var archives := Filter(files, IsNpzName);
      && |DirIds(relRoot, files)| == |archives|
      && forall j :: 0 <= j < |archives| ==> DirIds(relRoot, files)[j] == WalkId(relRoot, archives[j])
  {
    if |files| > 0 {
      var init := files[..|files| - 1];
      var last := files[|files| - 1];
      assert files == init + [last];
      DirIdsSpec(relRoot, init);
      FilterAppend(init, [last], IsNpzName);
      assert Filter([last], IsNpzName) == if IsNpzName(last) then [last] else [];
      var r := DirIds(relRoot, files);
      var archives := Filter(files, IsNpzName);
      var n := |Filter(init, IsNpzName)|;
      assert r[..n] == DirIds(relRoot, init);
      assert archives[..n] == Filter(init, IsNpzName);
      forall j | 0 <= j < |archives|
        ensures r[j] == WalkId(relRoot, archives[j])
      {
        if j < n {
          assert r[j] == r[..n][j] && archives[j] == archives[..n][j];
        }
      }
    }
  }

  /** The identifiers of every archive the walk visits, in walk order. */
  function WalkIds(entries: seq<WalkDir>): (r: seq<string>)
    ensures forall x :: x in r <==> IsWalkId(entries, x)
  {
    if |entries| == 0 then []
    else
      var init := entries[..|entries| - 1];
      var last := entries[|entries| - 1];
      WalkIdSnoc(init, last);
      assert entries == init + [last];
      WalkIds(init) + DirIds(last.relRoot, last.files)
  }

  /** The walk's identifiers are those of its first directories followed by those of the rest. */
  lemma {:induction false} WalkIdsAppend(a: seq<WalkDir>, b: seq<WalkDir>)
    ensures WalkIds(a + b) == WalkIds(a) + WalkIds(b)
  {
    if |b| == 0 {
      assert a + b == a;
    } else {
      var init := b[..|b| - 1];
      var last := b[|b| - 1];
      assert (a + b)[..|a + b| - 1] == a + init;
      assert (a + b)[|a + b| - 1] == last;
      WalkIdsAppend(a, init);
    }
  }

  /** `x` is the identifier of an archive in one of the visited directories. */
  predicate IsWalkId(entries: seq<WalkDir>, x: string) {
    exists e :: e in entries && IsDirId(e.relRoot, e.files, x)
  }

  lemma WalkIdSnoc(init: seq<WalkDir>, last: WalkDir)
    ensures forall x :: IsWalkId(init + [last], x) <==> IsWalkId(init, x) || IsDirId(last.relRoot, last.files, x)
  {
    var entries := init + [last];
    assert forall e :: e in entries <==> e in init || e == last;
  }

  /** The outer loop over `os.walk(folder)` that collects the archive identifiers. */
  method CollectWalkIds(entries: seq<WalkDir>) returns (subset: seq<string>)
    ensures subset == WalkIds(entries)
  {
    subset := [];
    var i := 0;
    while i < |entries|
      invariant 0 <= i <= |entries|
      invariant subset == WalkIds(entries[..i])
    {
      var found := CollectDirIds(entries[i].relRoot, entries[i].files);
      assert entries[..i + 1][..i] == entries[..i];
      subset := subset + found;
      i := i + 1;
    }
    assert entries[..i] == entries;
  }

  /** The inner loop over the files of one visited directory. */
  method CollectDirIds(relRoot: string, files: seq<string>) returns (found: seq<string>)
    ensures found == DirIds(relRoot, files)
  {
    found := [];
    var j := 0;
    while j < |files|
      invariant 0 <= j <= |files|
      invariant found == DirIds(relRoot, files[..j])
    {
      assert files[..j + 1][..j] == files[..j];
      if IsNpzName(files[j]) {
        found := found + [WalkId(relRoot, files[j])];
      }
      j := j + 1;
    }
    assert files[..j] == files;
  }

  /** The stripped lines of the subset file that the walk found, in file order. */
  function Listed(lines: seq<string>, walkIds: seq<string>): (r: seq<string>)
    ensures forall x :: x in r <==> x in walkIds && exists l :: l in lines && Strip(l) == x
  {
    if |lines| == 0 then []
    else
      assert forall l :: l in lines <==> l == lines[0] || l in lines[1..];
      (if Strip(lines[0]) in walkIds then [Strip(lines[0])] else []) + Listed(lines[1..], walkIds)
  }

  /** Each line of the subset file with its surrounding whitespace removed. */
  function StrippedLines(lines: seq<string>): (r: seq<string>)
    ensures |r| == |lines| && forall i :: 0 <= i < |lines| ==> r[i] == Strip(lines[i])
  {
    seq(|lines|, i requires 0 <= i < |lines| => Strip(lines[i]))
  }

  /** The kept lines stay in the order of the subset file. */
  lemma {:induction false} ListedKeepsOrder(lines: seq<string>, walkIds: seq<string>)
    ensures IsSubsequence(Listed(lines, walkIds), StrippedLines(lines))
  {
    if |lines| == 0 {
      SubsequenceOfSelf(StrippedLines(lines));
    } else {
      var all := StrippedLines(lines);
      var rest := Listed(lines[1..], walkIds);
      ListedKeepsOrder(lines[1..], walkIds);
      assert all[1..] == StrippedLines(lines[1..]);
      if Strip(lines[0]) in walkIds {
        assert Listed(lines, walkIds) == [all[0]] + rest;
        SubsequenceKeep(rest, all);
      } else {
        assert Listed(lines, walkIds) == rest;
        SubsequenceSkip(rest, all);
      }
    }
  }

  /** Every occurrence of a stripped line that the walk found is kept, and no other. */
  lemma ListedCounts(lines: seq<string>, walkIds: seq<string>)
    ensures forall x :: multiset(Listed(lines, walkIds))[x] == (if x in walkIds then multiset(StrippedLines(lines))[x] else 0)
  {
    ListedIsFilter(lines, walkIds);
    FoundCounts(StrippedLines(lines), walkIds);
  }

  /** The names among `ids` that the walk found, in their order. */
  function Found(ids: seq<string>, walkIds: seq<string>): seq<string> {
    if |ids| == 0 then []
    else (if ids[0] in walkIds then [ids[0]] else []) + Found(ids[1..], walkIds)
  }

  lemma {:induction false} ListedIsFilter(lines: seq<string>, walkIds: seq<string>)
    ensures Listed(lines, walkIds) == Found(StrippedLines(lines), walkIds)
  {
    if |lines| > 0 {
      ListedIsFilter(lines[1..], walkIds);
      var all := StrippedLines(lines);
      assert all[0] == Strip(lines[0]);
      assert all[1..] == StrippedLines(lines[1..]);
    }
  }

  lemma {:induction false} FoundCounts(ids: seq<string>, walkIds: seq<string>)
    ensures forall x :: multiset(Found(ids, walkIds))[x] == (if x in walkIds then multiset(ids)[x] else 0)
  {
    if |ids| > 0 {
      var head := if ids[0] in walkIds then [ids[0]] else [];
      FoundCounts(ids[1..], walkIds);
      assert ids == [ids[0]] + ids[1..];
      assert multiset(ids) == multiset{ids[0]} + multiset(ids[1..]);
      assert multiset(Found(ids, walkIds)) == multiset(head) + multiset(Found(ids[1..], walkIds));
    }
  }

  /** The candidates: the walked archives, narrowed to those the subset file lists if one is given. */
  function Candidates(fs: FileSystem, folder: string, fileListTxt: Option<string>): seq<string> {
    var walked := WalkIds(fs.walk(folder));
    match fileListTxt
    case None => walked
    case Some(path) => Listed(fs.readLines(path), walked)
  }

  function NpzNames(fs: FileSystem, folder: string, fileListTxt: Option<string>, excludedListTxt: Option<string>): seq<string> {
    Sort(Exclude(Candidates(fs, folder, fileListTxt), ToSet(ExcludedIds(fs, excludedListTxt))))
  }

  /**
   * The video list is ascending and holds exactly the walked archives that the subset
   * file (if any) lists and the exclusion file does not.
   */
  lemma NpzNamesSpec(fs: FileSystem, folder: string, fileListTxt: Option<string>, excludedListTxt: Option<string>)
    ensures var r := NpzNames(fs, folder, fileListTxt, excludedListTxt);
      && Sorted(r)
      && (forall x :: multiset(r)[x] ==
            (if x in ExcludedIds(fs, excludedListTxt) then 0 else multiset(Candidates(fs, folder, fileListTxt))[x]))
      && forall x :: x in r <==>
          && x in WalkIds(fs.walk(folder))
          && (fileListTxt.Some? ==> exists l :: l in fs.readLines(fileListTxt.value) && Strip(l) == x)
          && x !in ExcludedIds(fs, excludedListTxt)
  {
    var c := Candidates(fs, folder, fileListTxt);
    var excluded := ExcludedIds(fs, excludedListTxt);
    var kept := Exclude(c, ToSet(excluded));
    ExcludeCounts(c, ToSet(excluded));
    SortSpec(kept);
    CandidatesMembers(fs, folder, fileListTxt);
    forall x ensures x in Sort(kept) <==> x in c && x !in excluded {
      assert x in Sort(kept) <==> x in multiset(Sort(kept));
      assert x in kept <==> x in c && x !in ToSet(excluded);
    }
  }

  lemma CandidatesMembers(fs: FileSystem, folder: string, fileListTxt: Option<string>)
    ensures forall x :: x in Candidates(fs, folder, fileListTxt) <==>
      && x in WalkIds(fs.walk(folder))
      && (fileListTxt.Some? ==> exists l :: l in fs.readLines(fileListTxt.value) && Strip(l) == x)
  {
  }

  /** A string with a character other than '.' keeps one after any prefix is put before it. */
  lemma NotAllDotsSuffix(a: string, b: string)
    requires '/' !in b && !AllDots(b)
    ensures !AllDots(Basename(a + b))
  {
    var s := a + b;
    var i :| 0 <= i < |b| && b[i] != '.';
    assert s[|a| + i] == b[i];
    forall j | |a| <= j < |s| ensures s[j] != '/' {
      assert s[j] == b[j - |a|];
    }
    var sep := RFind(s, '/');
    assert Basename(s)[|a| + i - sep - 1] == s[|a| + i];
  }

  /**
   * Appending ".npz" to the identifier of a walked archive gives back its relative
   * path: the archive `get_video` opens is the one the walk found.
   */
  lemma WalkIdRoundTrip(relRoot: string, file: string)
    requires IsNpzName(file) && '/' !in file && !AllDots(file[..|file| - 4])
    ensures WalkId(relRoot, file) + ".npz" == Join(relRoot, file)
  {
    var stem := file[..|file| - 4];
    assert file == stem + ".npz";
    assert '/' !in stem by {
      forall i | 0 <= i < |stem| ensures stem[i] != '/' {
        assert stem[i] == file[i];
      }
    }
    var p := Join(relRoot, stem);
    JoinAppend(relRoot, stem, ".npz");
    var prefix := p[..|p| - |stem|];
    assert p == prefix + stem;
    NotAllDotsSuffix(prefix, stem);
    StripNpzExt(p);
  }

  /**
   * An archive whose stem is dots only keeps its whole name as identifier, because
   * `splitext` finds no extension after leading dots; the path `get_video` builds from it
   * then ends in ".npz.npz" and is not the archive the walk found.
   */
  lemma DotsOnlyArchive()
    ensures WalkId("", "..npz") == "..npz"
    ensures WalkId("", "..npz") + ".npz" != Join("", "..npz")
  {
    var p := "..npz";
    assert Join("", p) == p;
    assert p[4] != '/' && p[3] != '/' && p[2] != '/' && p[1] != '/' && p[0] != '/';
    assert RFind(p, '/') == -1;
    assert p[4] != '.' && p[3] != '.' && p[2] != '.' && p[1] == '.';
    assert RFind(p, '.') == 1;
    assert AllDots(p[0..1]);
    assert ExtStart(p) == |p|;
    assert p[..|p|] == p;
  }

  lemma StripNpzExt(p: string)
    requires !AllDots(Basename(p))
    ensures StripExt(p + ".npz") == p
  {
    var ext := ".npz";
    assert ext[0] == '.' && ext[1..] == "npz";
    SplitExtOfStemAndExt(p, ext);
  }

  /** `imgs / 255.0` repeated over three channels: the frame, scaled, three times over. */
  function GrayToRgb(t: Tensor): (r: Tensor)
    ensures |r.values| == 3 * |t.values|
    ensures forall i :: 0 <= i < |t.values| ==>
      var x := t.values[i] / 255.0;
      r.values[i] == x && r.values[|t.values| + i] == x && r.values[2 * |t.values| + i] == x
  {
    var s := seq(|t.values|, i requires 0 <= i < |t.values| => t.values[i] / 255.0);
    Tensor(s + s + s)
  }

  /** When both arrays have as many entries, the j-th mask handed to the loader belongs to the j-th frame. */
  lemma MasksAlignWithFrames(archive: NpzArchive, truncateVideo: int, sampleRate: int)
    requires sampleRate != 0 && |archive.imgs| == |archive.gts|
    ensures var imgs := Truncate(archive.imgs, truncateVideo);
      var gts := Truncate(archive.gts, truncateVideo);
      && |gts| == |imgs|
      && |Stride(gts, sampleRate).value| == |Stride(imgs, sampleRate).value|
      && forall j :: 0 <= j < |Stride(gts, sampleRate).value| ==>
           && 0 <= SliceIndex(|imgs|, sampleRate, j) < |imgs|
           && Stride(gts, sampleRate).value[j] == gts[SliceIndex(|imgs|, sampleRate, j)]
           && Stride(imgs, sampleRate).value[j] == imgs[SliceIndex(|imgs|, sampleRate, j)]
  {
    StrideSpec(Truncate(archive.imgs, truncateVideo), sampleRate);
    StrideSpec(Truncate(archive.gts, truncateVideo), sampleRate);
  }

  class NpzRawDataset {
    var folder: string
    var sampleRate: int
    var truncateVideo: int
    var videoNames: seq<string>

    constructor (fs: FileSystem, folder: string, fileListTxt: Option<string>, excludedVideosListTxt: Option<string>,
                 sampleRate: int, truncateVideo: int)
      ensures this.folder == folder && this.sampleRate == sampleRate && this.truncateVideo == truncateVideo
      ensures videoNames == NpzNames(fs, folder, fileListTxt, excludedVideosListTxt)
    {
      this.folder := folder;
      this.sampleRate := sampleRate;
      this.truncateVideo := truncateVideo;
      var subset := CollectWalkIds(fs.walk(folder));
      if fileListTxt.Some? {
        subset := Listed(fs.readLines(fileListTxt.value), subset);
      }
      videoNames := Sort(Exclude(subset, ToSet(ExcludedIds(fs, excludedVideosListTxt))));
    }

    /** `__len__` */
    function Len(): nat
      reads this
    {
      |videoNames|
    }

    function ArchivePath(videoName: string): string
      reads this
    {
      Join(folder, videoName + ".npz")
    }

    /**
     * `get_video(idx)`. Both arrays are truncated alike; every `sample_rate`-th image
     * becomes a frame numbered `i * sample_rate` holding the image scaled to [0, 1] and
     * repeated over three channels, and the masks are strided alike for the loader.
     */
    method GetVideo(fs: FileSystem, idx: int) returns (r: Result<VideoSample>)
      ensures PyIndex(videoNames, idx).None? ==> r == Err(IndexError)
      ensures PyIndex(videoNames, idx).Some? && sampleRate == 0 ==> r == Err(SliceStepZero)
      ensures PyIndex(videoNames, idx).Some? && sampleRate != 0 ==>
        var name := PyIndex(videoNames, idx).value;
        var archive := fs.loadNpz(ArchivePath(name));
        var imgs := Truncate(archive.imgs, truncateVideo);
        var gts := Truncate(archive.gts, truncateVideo);
        && r.Ok?
        && r.value.video.videoName == name
        && r.value.video.videoId == idx
        && r.value.segmentLoader == NpzLoader(Stride(gts, sampleRate).value)
        && |r.value.video.frames| == CeilDiv(|imgs|, Abs(sampleRate))
        && forall j :: 0 <= j < |r.value.video.frames| ==>
             && 0 <= SliceIndex(|imgs|, sampleRate, j) < |imgs|
             && r.value.video.frames[j] ==
                  Frame(j * sampleRate, None, Some(GrayToRgb(imgs[SliceIndex(|imgs|, sampleRate, j)])), false)
    {
      var found := PyIndex(videoNames, idx);
      if found.None? {
        return Err(IndexError);
      }
      var videoName := found.value;
      var archive := fs.loadNpz(ArchivePath(videoName));
      var frames := Truncate(archive.imgs, truncateVideo);
      var masks := Truncate(archive.gts, truncateVideo);
      var strided := Stride(frames, sampleRate);
      if strided.Err? {
        return Err(strided.error);
      }
      var vosFrames := NumberFrames(strided.value, sampleRate);
      StrideLength(frames, sampleRate);
      forall j | 0 <= j < |vosFrames|
        ensures 0 <= SliceIndex(|frames|, sampleRate, j) < |frames|
        ensures vosFrames[j] == Frame(j * sampleRate, None, Some(GrayToRgb(frames[SliceIndex(|frames|, sampleRate, j)])), false)
      {
        StrideAt(frames, sampleRate, j);
      }
      r := Ok(VideoSample(Video(videoName, idx, vosFrames), NpzLoader(Stride(masks, sampleRate).value)));
    }
  }

  /** The loop of `get_video` over the selected images: frame `j` is image `j`, numbered `j * sample_rate`. */
  method NumberFrames(selected: seq<Tensor>, sampleRate: int) returns (frames: seq<Frame>)
    ensures |frames| == |selected|
    ensures forall j :: 0 <= j < |frames| ==> frames[j] == Frame(j * sampleRate, None, Some(GrayToRgb(selected[j])), false)
  {
    frames := [];
    var i := 0;
    while i < |selected|
      invariant 0 <= i <= |selected|
      invariant |frames| == i
      invariant forall j :: 0 <= j < i ==> frames[j] == Frame(j * sampleRate, None, Some(GrayToRgb(selected[j])), false)
    {
      frames := frames + [Frame(i * sampleRate, None, Some(GrayToRgb(selected[i])), false)];
      i := i + 1;
    }
  }
}
