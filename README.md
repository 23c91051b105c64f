# Raw video dataset indexers

A Dafny model of the raw dataset indexers of the video segmentation training code
(`training/dataset/vos_raw_dataset.py`). Each indexer does two jobs:

- **Identifier resolution** (its constructor): it builds the list `video_names` from a
  subset file or a directory listing, removes the excluded names, sorts the list (all but
  the SA-1B indexer), and, for PNG data, may expand names into `video/object` names and
  repeat each name once per frame.
- **Frame selection** (`get_video`): for one index it selects which frames make up the
  video, numbers them, and records which segment loader would read the masks.

Directory listings, file lines, `os.walk` results and loaded arrays are inputs, collected in
the `Vos.FileSystem` value. The model computes what the code computes from them. Python's
own semantics are written out where the code relies on them:

- `str.strip` and `os.path.splitext`, with the leading-dot rule;
- `os.path.join` and `os.path.dirname`;
- `int()` on text, `str(n)` and `"%05d" % n`;
- `sorted` on strings, by code point;
- negative list indices, `s[:t]`, and `s[::k]`, with a negative step reversing and a zero step raising.

Python exceptions that the code lets escape become `Err` values of `Wrappers.PyError`.

Modules: `Wrappers`, `PyStr`, `PyPath`, `Sorting` and `PySeq` hold the Python semantics;
`Vos` holds the records (`Frame`, `Video`, `SegmentLoader`) and the resolution steps the
indexers share; `Png`, `Npz`, `Sa1b`, `Json`, `Brats` and `Testing` hold one indexer each.
Each indexer is a class whose fields are the constructor's attributes. Every `get_video`
that builds its frames in a loop is a method; in the PNG, NPZ and BraTS indexers that loop
is a method of its own (`NumberFrames`, `SliceFrames`), proved to produce the frames it must. The JSON one is built from
comprehensions only, so it is a function.

Points where the code behaves differently from what a reader might expect:

- `PNGRawDataset.get_video` reuses `idx` as the `enumerate` loop variable. The video id is
  therefore the last frame's number, or the requested index when no frame is selected.
  `Png.PngRawDataset.GetVideo` states exactly this.
- The JSON indexer sorts frame file names as strings before reading them as numbers, so
  frame ids come out in string order of the names (for `%05d` names below 100000 this is
  numeric order).
- The SA-1B listing cuts names at their first '.' (`split(".")[0]`), not at the extension,
  so `a.1.jpg` and `a.2.jpg` both give the name `a`, and the unsorted list holds it twice.
- The filters keep duplicates: a line that occurs twice in a subset file gives a name that
  occurs twice in `video_names`, since neither the filters nor `sorted` remove repeats.
- The JSON indexer accepts a `str` or an omegaconf `ListConfig` of exclusion files. A plain
  Python `list` is neither, so it raises NotImplementedError like any other type.
- The JSON indexer rebuilds each frame's image path from the frame number with `%05d` as a
  `.jpg` name. The path names the listed file only when that file already has such a name:
  `7.jpg` gives `…/00007.jpg`, and so does `00007.png`.
- With a subset file, the NPZ indexer only strips its lines (no extension removal), and
  keeps those found by the walk, in file order.
- In single-object mode with `frames_sampling_mult`, the PNG indexer counts the entries of
  `img_folder/video/object`, a path built from the composite name; the model does the same.
- The BraTS indexer accepts `file_list_txt` and ignores it.
- `NPZRawDataset` numbers frame `i` as `i * sample_rate`. For a negative step that number is
  not the frame's position in the array; the model keeps the code's numbering.

## Model

| member | source | states |
|---|---|---|
| PySeq.PyIndex | training/dataset/vos_raw_dataset.py:129 | `video_names[idx]` succeeds exactly for `-len <= idx < len`, otherwise IndexError |
| PySeq.Truncate | training/dataset/vos_raw_dataset.py:148-149 | the truncated list is the first `T` items when `0 < T < n`, all `n` otherwise |
| PySeq.StrideSpec | training/dataset/vos_raw_dataset.py:151 | `s[::k]` has `ceil(n/abs(k))` items and item `j` is `s[j*k]` (or `s[n-1+j*k]` for `k < 0`) |
| PySeq.Stride | training/dataset/vos_raw_dataset.py:151 | a zero step raises ValueError and any other step succeeds |
| Sorting.SortSpec | training/dataset/vos_raw_dataset.py:104-106 | `sorted` returns an ascending permutation of its input |
| Sorting.SortCharacterised | training/dataset/vos_raw_dataset.py:104-106 | any ascending permutation of the input is the `sorted` result |
| PyStr.ParseIntOfStr | training/dataset/vos_raw_dataset.py:465 | `int(str(n)) == n` for every integer |
| PyStr.ParseIntOfFormat05d | training/dataset/vos_raw_dataset.py:378 | `int("%05d" % n) == n` for every integer |
| PyStr.SplitExtOfStemAndExt | training/dataset/vos_raw_dataset.py:92 | `splitext` cuts `stem + ext` back into `stem` and `ext` |
| PyPath.DirnameOfJoin | training/dataset/vos_raw_dataset.py:132-134 | `dirname(join(v, o)) == v` for a video name without trailing '/' and an object name without '/' |
| Vos.Exclude | training/dataset/vos_raw_dataset.py:104-106 | a name is kept iff it is a candidate and not excluded |
| Vos.ExcludeSpec | training/dataset/vos_raw_dataset.py:104-106 | the filter keeps candidate order, every occurrence of a kept name, and none of an excluded one |
| Vos.JoinMatching | training/dataset/vos_raw_dataset.py:147 | the glob yields exactly the non-hidden `.jpg` entries, joined to the folder |
| Vos.JoinMatchingSpec | training/dataset/vos_raw_dataset.py:147 | position by position, the glob is the listing's non-hidden `.jpg` entries in listing order, each joined to the folder |
| Png.BaseNamesSpec | training/dataset/vos_raw_dataset.py:89-106 | the list is ascending, holds no excluded name, and holds every other candidate as often as it occurs |
| Png.ExpandObjects | training/dataset/vos_raw_dataset.py:110-116 | the expansion holds exactly the `join(video, object)` names over every object of every video |
| Png.ExpandObjectsOne | training/dataset/vos_raw_dataset.py:112-116 | one video expands to its mask-folder entries joined to it, in listing order |
| Png.ExpandObjectsAppend | training/dataset/vos_raw_dataset.py:112-116 | expanding `a + b` is expanding `a` followed by expanding `b`: the videos are taken in order |
| Png.ObjectNamesSpec | training/dataset/vos_raw_dataset.py:108-116 | the single-object list is ascending, is a permutation of the expansion, and holds exactly those names |
| Png.RepeatedLength | training/dataset/vos_raw_dataset.py:118-123 | the repeated list's length is the sum of the frame counts |
| Png.RepeatedRun | training/dataset/vos_raw_dataset.py:118-123 | copy `k` of name `i` is at position (frames before name `i`) + `k`: one run per name, in order |
| Png.RepeatPerFrame | training/dataset/vos_raw_dataset.py:119-123 | the `extend` loop builds the repeated list |
| Png.PngRawDataset.constructor | training/dataset/vos_raw_dataset.py:70-123 | the attributes are stored and `video_names` is the resolved, expanded and repeated list |
| Png.FramePathsSpec | training/dataset/vos_raw_dataset.py:147-149 | the paths are the first `min(n, T)` of the sorted `.jpg` paths of the frame folder when `T > 0`, else all `n` of them, a permutation of the glob |
| Png.ObjectFrameRoot | training/dataset/vos_raw_dataset.py:131-134 | in single-object mode `video/object` reads its frames from the video's folder |
| Png.NumberFrames | training/dataset/vos_raw_dataset.py:150-154 | the `enumerate` loop gives one frame per selected path, frame `j` numbered `j` on path `j`, and leaves the loop variable at the last number (or at `idx` when nothing is selected) |
| Png.PngRawDataset.GetVideo | training/dataset/vos_raw_dataset.py:125-155 | IndexError, or ValueError for a zero step; otherwise `ceil(n'/abs(k))` frames, frame `j` numbered `j` on the `j`-th strided path, the mask loader of the name, and video id `M-1` (or `idx` when `M = 0`) |
| Npz.DirIds | training/dataset/vos_raw_dataset.py:176-181 | one directory yields exactly the extension-less relative paths of its `.npz` files |
| Npz.DirIdsSpec | training/dataset/vos_raw_dataset.py:176-181 | position by position, one directory yields its `.npz` files in listing order, each as its extension-less relative path |
| Npz.WalkIds | training/dataset/vos_raw_dataset.py:174-181 | the walk yields exactly those of every visited directory |
| Npz.WalkIdsAppend | training/dataset/vos_raw_dataset.py:174-181 | the walk over `a + b` yields the identifiers of `a` followed by those of `b`: directories are taken in walk order |
| Npz.CollectWalkIds | training/dataset/vos_raw_dataset.py:174-181 | the outer walk loop builds the walk identifiers |
| Npz.CollectDirIds | training/dataset/vos_raw_dataset.py:176-181 | the inner file loop builds one directory's identifiers |
| Npz.Listed | training/dataset/vos_raw_dataset.py:184-186 | a stripped line is kept iff the walk found it |
| Npz.ListedCounts | training/dataset/vos_raw_dataset.py:184-186 | every occurrence of a stripped line the walk found is kept, so a line listed twice gives the name twice, and no other line is kept |
| Npz.ListedKeepsOrder | training/dataset/vos_raw_dataset.py:184-186 | the kept lines are in subset-file order |
| Npz.NpzNamesSpec | training/dataset/vos_raw_dataset.py:173-198 | the list is ascending, holds every candidate that is not excluded as often as it occurs among the candidates and no excluded one, and its names are exactly the walked archives that are listed (if a list is given) and not excluded |
| Npz.WalkIdRoundTrip | training/dataset/vos_raw_dataset.py:179-181 | appending ".npz" to a walked identifier gives back the archive's relative path |
| Npz.DotsOnlyArchive | training/dataset/vos_raw_dataset.py:180 | an archive named `..npz` keeps its whole name as identifier, and that name plus ".npz" is not the walked path |
| Npz.GrayToRgb | training/dataset/vos_raw_dataset.py:211-213 | the frame is scaled by 1/255 and repeated over three channels |
| Npz.MasksAlignWithFrames | training/dataset/vos_raw_dataset.py:216-230 | for arrays of one length, the masks are truncated and strided in lock-step with the images |
| Npz.NpzRawDataset.constructor | training/dataset/vos_raw_dataset.py:161-198 | the attributes are stored and `video_names` is the resolved list |
| Npz.NumberFrames | training/dataset/vos_raw_dataset.py:221-224 | the loop gives one frame per selected image, frame `j` numbered `j * sample_rate` and holding image `j` scaled to three channels |
| Npz.NpzRawDataset.GetVideo | training/dataset/vos_raw_dataset.py:200-232 | IndexError or a zero step raise; otherwise frame `j` is numbered `j*k` and holds the `j`-th strided image, the loader gets the strided masks, and the video id is `idx` |
| Sa1b.JpgEntriesSpec | training/dataset/vos_raw_dataset.py:259-262 | the `.jpg` filter keeps listing order and every occurrence of each `.jpg` entry, and drops every other entry |
| Sa1b.JpgIds | training/dataset/vos_raw_dataset.py:259-262 | item `j` is the text before the first '.' of the `j`-th `.jpg` entry, one item per entry, none holding a '.' |
| Sa1b.Sa1bNamesSpec | training/dataset/vos_raw_dataset.py:254-274 | the list keeps candidate order and every candidate that is not excluded, and no excluded one |
| Sa1b.ShortNameRoundTrip | training/dataset/vos_raw_dataset.py:295-297 | a name `<prefix>_<n>` gives the video name `n` and the id `n` |
| Sa1b.Sa1bRawDataset.constructor | training/dataset/vos_raw_dataset.py:238-274 | the attributes are stored and `video_names` is the resolved list |
| Sa1b.Sa1bRawDataset.GetVideo | training/dataset/vos_raw_dataset.py:276-298 | IndexError, or ValueError for a non-numeric suffix; otherwise `max(0, num_frames)` frames numbered from 0 on one image, the suffix as name and its value as id |
| Json.ReadExclusions | training/dataset/vos_raw_dataset.py:327-342 | a str names one file and a `ListConfig` several, giving the union of their ids; any other type, a plain `list` included, raises NotImplementedError |
| Json.JsonNamesSpec | training/dataset/vos_raw_dataset.py:344-353 | the list is ascending, holds every candidate that is not excluded as often as it occurs, and no excluded one |
| Json.JsonRawDataset.Open | training/dataset/vos_raw_dataset.py:309-353 | construction fails exactly for an unsupported exclusion argument; otherwise it stores the attributes and the resolved list |
| Json.FrameIdOf | training/dataset/vos_raw_dataset.py:368 | a file name gives the integer value of its stem, or a ValueError naming the stem |
| Json.ParseEach | training/dataset/vos_raw_dataset.py:367-372 | all names parse and give their values in order, or the first failure is raised |
| Json.FramePathRoundTrip | training/dataset/vos_raw_dataset.py:367-382 | a frame's image file name reads back as the frame's number |
| Json.ValidFrameIds | training/dataset/vos_raw_dataset.py:386-390 | a number is valid iff it is `i*ann_every` for a present annotation with no missing object |
| Json.KeepAnnotated | training/dataset/vos_raw_dataset.py:391 | a frame is kept iff its number is valid |
| Json.KeepAnnotatedCounts | training/dataset/vos_raw_dataset.py:391 | each frame with a valid number is kept as often as it occurs, duplicates included, and no other frame is |
| Json.KeepAnnotatedOrder | training/dataset/vos_raw_dataset.py:391 | the kept frames stay in their order |
| Json.ChooseFrames | training/dataset/vos_raw_dataset.py:374-391 | the frame choice fails exactly for a zero step |
| Json.ChooseFramesSpec | training/dataset/vos_raw_dataset.py:374-391 | each chosen frame's path is its number formatted with `%05d`, as a `.jpg` in the video folder, and its number is a listed one; a strided number gives a frame iff it is valid (or the flag is off); with the flag off all strided frames are kept; with it on, each strided frame of a valid number is kept as often as it occurs; the order is kept |
| Json.JsonRawDataset.GetVideo | training/dataset/vos_raw_dataset.py:355-394 | IndexError, then a non-numeric file name, then a zero step raise; otherwise the chosen frames, the JSON loader and the requested index |
| Brats.NpyNames | training/dataset/vos_raw_dataset.py:409 | an entry is kept iff it ends in ".npy" |
| Brats.NpyNamesCounts | training/dataset/vos_raw_dataset.py:409 | the comprehension is the order-keeping filter by the ".npy" test, and keeps each such entry as often as it is listed |
| Brats.NpyNamesSorted | training/dataset/vos_raw_dataset.py:409 | filtering an ascending listing leaves it ascending |
| Brats.BratsNamesSpec | training/dataset/vos_raw_dataset.py:409 | the list is ascending and holds exactly the `.npy` entries of the folder, each as often as it is listed |
| Brats.BratsRawDataset.constructor | training/dataset/vos_raw_dataset.py:401-410 | the folders are stored, `video_names` is that list and `curr_vid` is empty |
| Brats.Foreground | training/dataset/vos_raw_dataset.py:34 | the foreground holds exactly the non-zero values |
| Brats.MinOf | training/dataset/vos_raw_dataset.py:35 | the minimum is a value below all others |
| Brats.MaxOf | training/dataset/vos_raw_dataset.py:35 | the maximum is a value above all others |
| Brats.Renormalize | training/dataset/vos_raw_dataset.py:33-40 | a modality with no non-zero value raises ValueError; otherwise every tensor keeps its size |
| Brats.RenormalizeRange | training/dataset/vos_raw_dataset.py:33-40 | renormalised values lie in [0, 1) and zeros stay zero |
| Brats.KeptModalities | training/dataset/vos_raw_dataset.py:425 | `full_video[1:]` keeps modalities that all have the volume's depth |
| Brats.RenormalizeAll | training/dataset/vos_raw_dataset.py:428-429 | renormalising every kept modality fails iff one of them fails |
| Brats.RenormalizeEach | training/dataset/vos_raw_dataset.py:428-429 | the in-place loop computes that |
| Brats.FrameTensorLayout | training/dataset/vos_raw_dataset.py:431-432 | after the permute, frame `k` is slice `k` of each modality, laid out modality after modality |
| Brats.FirstLabel | training/dataset/vos_raw_dataset.py:434 | the label is the first `.npy` entry containing `name[:-8]`, or there is none |
| Brats.SliceFrames | training/dataset/vos_raw_dataset.py:443-445 | 160 frames numbered 0..159 on slices 0..159, or IndexError for a volume of fewer slices |
| Brats.BratsRawDataset.GetVideo | training/dataset/vos_raw_dataset.py:417-449 | IndexError leaves `curr_vid` alone; otherwise `curr_vid` is the name, and an empty modality, a missing label or too few slices raise, else 160 frames and the label's loader |
| Testing.TestDataset.constructor | training/dataset/vos_raw_dataset.py:453-454 | the twenty random videos are stored |
| Testing.TestDataset.GetVideo | training/dataset/vos_raw_dataset.py:459-469 | IndexError, or one frame per slice numbered from 0, named `str(idx)` (which reads back as the id `idx`) |

## Left out

- File and library I/O (`g_pathmgr.open`, `open`, `os.listdir`, `os.walk`, `np.load`): their results are the fields of `Vos.FileSystem`. The errors they raise (missing files, unreadable archives) are not modelled.
- The order in which `os.listdir` and `os.walk` return entries is an arbitrary input.
- `os.path.relpath` normalisation (collapsing `//` or `.` components) is not modelled: a walked archive's identifier is its directory's relative path joined to its file name.
- `glob` is modelled only for a folder path without glob metacharacters; `*`, `?` or `[` inside a video name would be read as a pattern by the code.
- PyStr.ParseInt: `int()` also accepts non-ASCII digits; the model accepts ASCII digits only.
- Json.JsonRawDataset.GetVideo: the frame path is formatted as `f"{video_name}/%05d.jpg" % frame_id`, so a '%' in a video name would change the format; the model assumes none.
- Json.JsonRawDataset.GetVideo: the annotations `frame_annots` are a parameter, since the JSON segment loader that reads them is not part of this model. The loader's `ann_every` is taken to be the dataset's `ann_every`, which is what the dataset passes to it.
- The segment loaders (palettised PNG, multiple PNG, NPZ, SA-1B, JSON, BraTS, test) are recorded by their constructor arguments only; their behaviour is not part of this model.
- Brats.RenormalizeRange: the strict upper bound `y < 1.0` holds for exact reals only. In float32, when the largest and smallest foreground values are more than about 0.2 apart, the added `1e-8` is lost to rounding and the largest value maps to exactly 1.0; the bound `y <= 1.0` still holds there, because subtraction and division round monotonically.
- Brats.Renormalize: exact real arithmetic stands for floating point, and the array is assumed to be of a floating dtype (assigning into an integer array would truncate).
- `torch.from_numpy` and dtypes: tensors are sequences of values, flattened in row-major order.
- Testing.TestDataset.constructor: `torch.rand` is replaced by a parameter with the shape it produces; the values are not modelled.
- The base class `VOSRawDataset`, whose `get_video` only raises NotImplementedError, has no member here.
- The `__len__` methods are the `Len` functions, which carry no contract: each returns the length of the list.
- `VOSVideo.__len__` is the length of `frames`.
- Npz.WalkIdRoundTrip: stated for file names without '/' whose stem is not made of dots only. A walked archive named `.npz` or `..npz` does not meet the second condition: its identifier is the whole name, and `get_video` then opens `<name>.npz.npz`, which `Npz.DotsOnlyArchive` shows for `..npz`.
- Npz.MasksAlignWithFrames: stated for archives whose image and mask arrays have the same length. For others, the mask list has `ceil(m/|k|)` items, where `m` is `len(gts)` cut to `T` when `0 < T` and all of `len(gts)` otherwise (`CeilDiv(|Truncate(gts, T)|, Abs(k))`, as `PySeq.StrideSpec` gives).
- Concurrency: the BraTS indexer's `curr_vid` is an unsynchronised field; the model is sequential.
- training/decoder_test.py has no logic of its own and is not part of this model.
