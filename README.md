# NAPE imaging analysis: field-of-view alignment and batch dispatch

This project models two parts of the NAPE two-photon imaging toolkit and proves properties about them.

- **Field-of-view alignment** (`fov_align.dfy`, module `FovAlign`) comes from the motion-correction comparison notebook. Motion correction can shrink a video's frame. Before the raw, SIMA, Suite2p and CaImAn videos are compared, the smallest height and width among raw, SIMA and Suite2p are computed. Raw, Suite2p and CaImAn are then centre-cropped to that size. Suite2p's samples are doubled first, because Suite2p stores intensities at half scale. A video is a `Video(height, width, frames)` of signed 16-bit samples. `Valid` says that every frame is `height` rows of `width` samples.
- **Batch discovery and dispatch sizing** (`batch_dispatch.dfy`, module `BatchDispatch`) comes from `batch_process` of the SIMA wrapper. An empty root directory selects the hand-written parameter list. Otherwise the directory tree under the root is walked, and one `FileParams` record is built for every `.tif`, `.tiff` or `.h5` file whose name does not mark it as a derived artifact. An empty record list is a fatal `NoFilesToAnalyze` error. Otherwise the pool size is the smaller of the core count and the file count. The discovery loops are the method `DiscoverFiles`, proved against the function `Discover`. `Discover` is in turn proved equal to an independent description: filter the flattened walk, then build one record per pair.

Inputs that come from outside the model are parameters:
- the directory walk is a function `walkOf` from the walk root to a sequence of `WalkEntry(path, subdirs, files)`;
- the hand-written list is a sequence `definedParams`;
- the core count is `cpuCount`;
- the four loaded videos are the fields of `Recordings`.

Three points where the intended behaviour and the code differ; the model follows the code:
- The comment at compare_motionCorr.py:105 speaks of cropping all data to similar dimensions, but the code does not crop SIMA. The aligned videos all share one size only when SIMA already has the minimum height and width. `Align` states this as an if-and-only-if.
- A video too small for the common target should be reported as a dimension failure. The code's slicing truncates it silently instead. The model keeps both; see Findings.
- The walk root is `root_dir` with a backslash appended. The directory recorded for files found directly under the root is therefore whatever the walk reports for that root, not necessarily a path without a trailing separator.

## Model

| member | source | states |
|---|---|---|
| `FovAlign.CenterStart` | compare_motionCorr.py:116-117 | When the target fits, the start offset `size // 2 - target // 2` keeps the window inside the axis (`0 <= start`, `start + target <= size`). The margins before and after differ by at most one, and are equal when size and target have the same parity. |
| `FovAlign.CropCenter` | compare_motionCorr.py:114-118 | For a target that fits, the crop keeps the frame count and makes every frame exactly `cropy` x `cropx`. Every output sample is the input sample at the row and column shifted by the two start offsets. |
| `FovAlign.CropToOwnSizeIsIdentity` | compare_motionCorr.py:114-118 | Cropping a video to its own height and width returns it unchanged. |
| `FovAlign.CropIsIdempotent` | compare_motionCorr.py:114-118 | Cropping twice to the same target equals cropping once. |
| `FovAlign.PyBound` | compare_motionCorr.py:118 | Python's normalisation of a slice bound: it always lies within `0..n`, an in-range bound is kept, and a negative bound counts from the end. |
| `FovAlign.PySlice` | compare_motionCorr.py:118 | A Python slice never fails. It is never longer than the sequence, and it holds only the sequence's elements. It is the ordinary slice when both bounds lie in range. |
| `FovAlign.PyCropCenter` | compare_motionCorr.py:114-118 | `crop_center` as written, for any target: the result is a valid video with the same frame count, and it is never higher or wider than the input. |
| `FovAlign.PyCropCenterAgrees` | compare_motionCorr.py:114-118 | When the target fits, the as-written slicing equals the centre crop. |
| `FovAlign.PyCropTruncatesSilently` | compare_motionCorr.py:116-118 | A one-frame video 4 samples wide, cropped to width 8, comes out 2 samples wide (`[3, 4]` of `[1, 2, 3, 4]`), with no error. |
| `FovAlign.Wrap16` | compare_motionCorr.py:97 | 16-bit wrap-around: a value in the int16 range is kept, and any value is kept modulo 65536. |
| `FovAlign.DoubleIntensity` | compare_motionCorr.py:97 | The Suite2p correction keeps the frame count, height and width. Every sample becomes twice the input sample in 16-bit arithmetic. |
| `FovAlign.DoubleIntensityIsExact` | compare_motionCorr.py:97 | For half-scale samples (in `-16384..16383`), every sample is doubled exactly. |
| `FovAlign.CropCommutesWithDouble` | compare_motionCorr.py:97 | Doubling before cropping, as the notebook does, gives the same video as cropping first and doubling afterwards. |
| `FovAlign.Min3` | compare_motionCorr.py:106-107 | `min_ypix` and `min_xpix` are at most each of the raw, SIMA and Suite2p dimensions, and equal to one of them. |
| `FovAlign.Align` | compare_motionCorr.py:105-127 | Alignment fails with `TooSmall(Caiman, ...)` exactly when CaImAn is lower or narrower than the target. Otherwise raw, Suite2p and CaImAn keep their frame counts and have shape (target height, target width), and SIMA is passed through unchanged. All four then share one size iff SIMA already has the target size. |
| `FovAlign.AlignAsWritten` | compare_motionCorr.py:106-127 | The notebook's crops with Python slicing: all four videos stay valid, SIMA is unchanged, and raw, Suite2p and CaImAn keep their frame counts. Raw and Suite2p, which take part in the minimum, always come out at (target height, target width). |
| `FovAlign.AlignForComparison` | compare_motionCorr.py:97-127 | The notebook's order of steps, doubling Suite2p and then aligning. It fails exactly when CaImAn is smaller than the target of the loaded videos. On success, Suite2p is the doubled crop of the loaded Suite2p video, raw is the crop of raw, and SIMA is unchanged. |
| `FovAlign.AlignAgreesWithAsWritten` | compare_motionCorr.py:125-127 | When CaImAn fits the target, the checked alignment succeeds with exactly the notebook's result. |
| `FovAlign.AsWrittenCaimanShape` | compare_motionCorr.py:106-127 | As written, CaImAn's crop has the target shape iff CaImAn was at least the target size. Otherwise it is smaller and nothing reports it. |
| `BatchDispatch.ContainsIff` | sima_mc_wrapper/main_parallel.py:121-122 | The recursive substring test `sub in name` holds exactly when `sub` occurs at some offset of `name`. |
| `BatchDispatch.AcceptedIff` | sima_mc_wrapper/main_parallel.py:114-122 | A file name is accepted iff it ends in `.tif`, `.tiff` or `.h5` and contains none of `spatialweights`, `_sima_mc`, `_trim_dims` and `_offset_vals`. |
| `BatchDispatch.ShortNameAccepted` | sima_mc_wrapper/main_parallel.py:114-122 | A name shorter than 8 characters, which is shorter than every excluded fragment, is accepted iff it has an image extension. |
| `BatchDispatch.FragmentRejects` | sima_mc_wrapper/main_parallel.py:115-122 | An occurrence of any excluded fragment rejects a name, whatever its extension. |
| `BatchDispatch.DiscoverFiles` | sima_mc_wrapper/main_parallel.py:112-130 | The nested loops over the walk produce exactly the record list `Discover` describes. |
| `BatchDispatch.DiscoverIsFilteredWalk` | sima_mc_wrapper/main_parallel.py:118-130 | Discovery yields one record per accepted file in walk order (directories in order, names in order), and none for a rejected file. It equals the records of the filtered, flattened walk. |
| `BatchDispatch.DiscoveredRecords` | sima_mc_wrapper/main_parallel.py:118-130 | A record is discovered iff its `fname` is accepted and listed in a walked directory whose path is its `fdir`. Its `max_disp` and `save_displacement` must equal the call's arguments, and it has no step flags. |
| `BatchDispatch.ExampleNamesAccepted` | sima_mc_wrapper/main_parallel.py:114-122 | `a.tif` and `b.h5` pass the filter. |
| `BatchDispatch.ExampleNamesRejected` | sima_mc_wrapper/main_parallel.py:114-122 | `a_sima_mc.h5`, `a_trim_dims.h5` and `readme.txt` are rejected. |
| `BatchDispatch.DiscoverExample` | sima_mc_wrapper/main_parallel.py:118-130 | For a directory listing `a.tif`, `a_sima_mc.h5`, `a_trim_dims.h5`, `b.h5`, `readme.txt`, the records are those of `a.tif` and `b.h5`, in that order. |
| `BatchDispatch.SourceOf` | sima_mc_wrapper/main_parallel.py:103-109 | An empty root directory selects the hand-written list. Otherwise the walk starts at the root directory with one backslash appended. |
| `BatchDispatch.PoolSize` | sima_mc_wrapper/main_parallel.py:139 | The pool size is at most the core count and at most the file count, and equals one of them. With at least one core and one file it is at least 1. |
| `BatchDispatch.BatchProcess` | sima_mc_wrapper/main_parallel.py:101-144 | In manual mode the work items are the hand-written list. In discovery mode they are `Discover` of the walk under `root_dir + '\\'` with the call's arguments. The run fails with `NoFilesToAnalyze` iff that list is empty. Otherwise every record is dispatched in order, to a pool of `PoolSize(cpu_count, num_files)` workers, at least 1 and at most `num_files` when a core is available. |
| `BatchDispatch.BatchProcessWithDefaults` | sima_mc_wrapper/main_parallel.py:101-159 | `batch_process(fdir)` with the default arguments. It makes the same promises as `BatchProcess`: the two modes, failure with `NoFilesToAnalyze` iff the list is empty, and the work items and pool size. In addition, every discovered record asks for `max_disp == [30, 50]` and `save_displacement == false`. |

## Left out

- The loaders `read_shape_tiff` and `read_shape_h5` (tiff/h5 decoding and the int16 cast of foreign data): the loaded videos are inputs of type `Recordings`.
- Mean images, frame-to-mean correlation, standard error and the crispness metric (gradients, magnitudes, Frobenius norm): floating-point statistics.
- Plotting, the optical-flow demo and the path dictionary that names the input files: user interface, foreign calls and I/O path formatting.
- The process pool (`mp.Pool`, `map`, `close`, `join`): process-level concurrency. The model stops at the work items and the pool size handed to it.
- `os.walk`, `raw_input` and the console prints: I/O. The walk is the parameter `walkOf`.
- `single_file_process.process` and the SIMA and neuropil modules: not part of this model.
- `define_fparams` in `sima_mc_wrapper/files_to_analyze.py` is a hand-edited constant list. It is the input `definedParams`. Its step flags give the `Steps` datatype.
- `BatchDispatch.StarMatch`: file-name matching is case-sensitive. On Windows, `fnmatch` ignores case, so `A.TIF` would be accepted there but not here. Only patterns of the form `*` followed by literal characters are modelled, which are the only ones the code uses.
- `BatchDispatch.SourceOf`: Python's `not root_dir` also holds for `None`. The model's root directory is always a string.
- `BatchDispatch.BatchProcess`: `cpuCount` is any natural number. `cpu_count()` never returns 0, but a core count of 0 would give `numProcesses == 0` here, where `mp.Pool(processes=0)` raises `ValueError`.
- `BatchDispatch.FileParams`: `max_disp` and `save_displacement` are always present. In the hand-written list (sima_mc_wrapper/files_to_analyze.py:39-53) they are optional keys. The list is passed through untouched, so the model does not capture a record that lacks them.
- `BatchDispatch.BatchProcess`: every discovered record shares the one `max_disp` list object. The model treats records as values, so this aliasing is not captured.

## Findings

| source | as written | input that shows it | evidently intended | confidence | as-written member | corrected member |
|---|---|---|---|---|---|---|
| compare_motionCorr.py:106-127 | CaImAn is left out of the minimum height and width, but it is cropped to them. Python slicing clamps out-of-range bounds, so a CaImAn video smaller than the target comes out smaller than the target, with no error, and CaImAn no longer has the size of raw and Suite2p. | CaImAn width 4, target width 8: start offset `-2` reads as "two from the end", and the result is 2 samples wide (`PyCropTruncatesSilently`). | Every video that is cropped has the common target size, and a video too small for it is reported as a dimension failure. | medium, not executed | `FovAlign.AsWrittenCaimanShape` | `FovAlign.Align` |
