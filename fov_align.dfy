/** Field-of-view alignment of motion-corrected two-photon videos.

    A video is a frames x height x width stack of signed 16-bit samples, as the
    loaders produce it. Motion correction can shrink the field of view, so
    before the methods are compared, every video is centre-cropped to the
    smallest height and width found among the raw, SIMA and Suite2p videos.
 */
module FovAlign {

  /** The loaders cast every sample to a signed 16-bit integer. */
  newtype Int16 = x: int | -0x8000 <= x < 0x8000

  /** A video with its shape. The shape is kept explicitly (as an array's
      shape is) so that a video with no frames still has a height and a width. */
  datatype Video = Video(height: nat, width: nat, frames: seq<seq<seq<Int16>>>)

  /** Every frame is `height` rows of `width` samples. */
  predicate Valid(v: Video) {
    forall f | 0 <= f < |v.frames| ::
      |v.frames[f]| == v.height &&
      forall i | 0 <= i < v.height :: |v.frames[f][i]| == v.width
  }

  /** Which correction method produced a video. */
  datatype Method = Raw | Sima | Suite2p | Caiman

  /** The four videos that are compared. */
  datatype Recordings = Recordings(raw: Video, sima: Video, suite2p: Video, caiman: Video)

  predicate AllValid(rec: Recordings) {
    Valid(rec.raw) && Valid(rec.sima) && Valid(rec.suite2p) && Valid(rec.caiman)
  }

  // ---------------------------------------------------------------------------
  // Centre cropping

  /** Start offset of a centred window of `target` samples on an axis of
      `size` samples: `size // 2 - target // 2`. When the window fits, it stays
      inside the axis, and the samples cut off before and after it differ in
      number by at most one. */
  function CenterStart(size: nat, target: nat): (start: int)
    ensures target <= size ==> 0 <= start && start + target <= size
    ensures target <= size ==>
      var after := size - (start + target);
      start - 1 <= after <= start + 1
    ensures target <= size && size % 2 == target % 2 ==> size - (start + target) == start
  {
    size / 2 - target / 2
  }

  /** Rows `starty .. starty + cropy` and, in each, columns `startx .. startx + cropx`. */
  function CropFrame(frame: seq<seq<Int16>>, starty: nat, cropy: nat, startx: nat, cropx: nat): (out: seq<seq<Int16>>)
    requires starty + cropy <= |frame|
    requires forall i | 0 <= i < |frame| :: startx + cropx <= |frame[i]|
    ensures |out| == cropy
    ensures forall i | 0 <= i < cropy ::
      |out[i]| == cropx &&
      forall j | 0 <= j < cropx :: out[i][j] == frame[starty + i][startx + j]
  {
    var rows := frame[starty .. starty + cropy];
    seq(cropy, i requires 0 <= i < cropy => rows[i][startx .. startx + cropx])
  }

  /** `crop_center(img, cropx, cropy)` for a target that fits the frame: every
      frame is kept, each becomes `cropy` x `cropx`, and each output sample is
      the input sample shifted by the two start offsets. */
  function CropCenter(img: Video, cropx: nat, cropy: nat): (out: Video)
    requires Valid(img)
    requires cropx <= img.width && cropy <= img.height
    ensures Valid(out)
    ensures |out.frames| == |img.frames| && out.height == cropy && out.width == cropx
    ensures forall f, i, j | 0 <= f < |img.frames| && 0 <= i < cropy && 0 <= j < cropx ::
      out.frames[f][i][j] ==
        img.frames[f][CenterStart(img.height, cropy) + i][CenterStart(img.width, cropx) + j]
  {
    var startx := CenterStart(img.width, cropx);
    var starty := CenterStart(img.height, cropy);
    Video(cropy, cropx,
      seq(|img.frames|, f requires 0 <= f < |img.frames| =>
        CropFrame(img.frames[f], starty, cropy, startx, cropx)))
  }

  /** Two valid videos with the same shape and the same samples are equal. */
  lemma SameSamplesSameVideo(a: Video, b: Video)
    requires Valid(a) && Valid(b)
    requires |a.frames| == |b.frames| && a.height == b.height && a.width == b.width
    requires forall f, i, j | 0 <= f < |a.frames| && 0 <= i < a.height && 0 <= j < a.width ::
      a.frames[f][i][j] == b.frames[f][i][j]
    ensures a == b
  {
    forall f | 0 <= f < |a.frames| ensures a.frames[f] == b.frames[f] {
      forall i | 0 <= i < a.height ensures a.frames[f][i] == b.frames[f][i] {
      }
    }
  }

  /** Cropping a video to its own height and width returns it unchanged. */
  lemma CropToOwnSizeIsIdentity(img: Video)
    requires Valid(img)
    ensures CropCenter(img, img.width, img.height) == img
  {
    SameSamplesSameVideo(CropCenter(img, img.width, img.height), img);
  }

  /** Cropping twice to the same target is cropping once. */
  lemma CropIsIdempotent(img: Video, cropx: nat, cropy: nat)
    requires Valid(img)
    requires cropx <= img.width && cropy <= img.height
    ensures CropCenter(CropCenter(img, cropx, cropy), cropx, cropy) == CropCenter(img, cropx, cropy)
  {
    CropToOwnSizeIsIdentity(CropCenter(img, cropx, cropy));
  }

  // ---------------------------------------------------------------------------
  // Python slicing, as `crop_center` performs it for any target

  /** Python's normalisation of a slice bound on a sequence of length `n`:
      a negative bound counts from the end, and the result is clamped to 0..n. */
  function PyBound(n: nat, k: int): (r: nat)
    ensures r <= n
    ensures 0 <= k <= n ==> r == k
    ensures k < 0 && 0 <= k + n ==> r == k + n
  {
    if k < 0 then (if k + n < 0 then 0 else k + n)
    else if k > n then n
    else k
  }

  /** Length of the Python slice `s[start:stop]` of a sequence of length `n`. */
  function PySliceLen(n: nat, start: int, stop: int): nat {
    var lo, hi := PyBound(n, start), PyBound(n, stop);
    if lo < hi then hi - lo else 0
  }

  /** The Python slice `s[start:stop]`: never an error, at most `|s|` long,
      and the ordinary slice when both bounds lie in range. */
  function PySlice<T>(s: seq<T>, start: int, stop: int): (r: seq<T>)
    ensures |r| == PySliceLen(|s|, start, stop) <= |s|
    ensures forall k | 0 <= k < |r| :: r[k] in s
    ensures 0 <= start <= stop <= |s| ==> r == s[start .. stop]
  {
    var lo, hi := PyBound(|s|, start), PyBound(|s|, stop);
    if lo < hi then s[lo .. hi] else []
  }

  /** One frame of `img[:, starty:starty+cropy, startx:startx+cropx]`. */
  function PyCropFrame(frame: seq<seq<Int16>>, width: nat, starty: int, cropy: nat, startx: int, cropx: nat): (out: seq<seq<Int16>>)
    requires forall i | 0 <= i < |frame| :: |frame[i]| == width
    ensures |out| == PySliceLen(|frame|, starty, starty + cropy)
    ensures forall i | 0 <= i < |out| :: |out[i]| == PySliceLen(width, startx, startx + cropx)
  {
    var rows := PySlice(frame, starty, starty + cropy);
    seq(|rows|, i requires 0 <= i < |rows| => PySlice(rows[i], startx, startx + cropx))
  }

  /** `crop_center` exactly as written, for any target: Python's slicing
      clamps out-of-range bounds, so the result is never larger than the input
      and no error is raised when the target does not fit. */
  function PyCropCenter(img: Video, cropx: nat, cropy: nat): (out: Video)
    requires Valid(img)
    ensures Valid(out)
    ensures |out.frames| == |img.frames|
    ensures out.height <= img.height && out.width <= img.width
  {
    var startx := CenterStart(img.width, cropx);
    var starty := CenterStart(img.height, cropy);
    Video(PySliceLen(img.height, starty, starty + cropy), PySliceLen(img.width, startx, startx + cropx),
      seq(|img.frames|, f requires 0 <= f < |img.frames| =>
        PyCropFrame(img.frames[f], img.width, starty, cropy, startx, cropx)))
  }

  /** One frame: when the window lies inside it, the Python slicing is the plain crop. */
  lemma PyCropFrameAgrees(frame: seq<seq<Int16>>, width: nat, starty: nat, cropy: nat, startx: nat, cropx: nat)
    requires forall i | 0 <= i < |frame| :: |frame[i]| == width
    requires starty + cropy <= |frame| && startx + cropx <= width
    ensures PyCropFrame(frame, width, starty, cropy, startx, cropx) == CropFrame(frame, starty, cropy, startx, cropx)
  {
    var py, c := PyCropFrame(frame, width, starty, cropy, startx, cropx), CropFrame(frame, starty, cropy, startx, cropx);
    var rows := PySlice(frame, starty, starty + cropy);
    assert rows == frame[starty .. starty + cropy];
    forall i | 0 <= i < cropy ensures py[i] == c[i] {
      assert py[i] == PySlice(rows[i], startx, startx + cropx);
      assert py[i] == frame[starty + i][startx .. startx + cropx];
    }
  }

  /** When the target fits, the Python slicing is the centre crop. */
  lemma PyCropCenterAgrees(img: Video, cropx: nat, cropy: nat)
    requires Valid(img)
    requires cropx <= img.width && cropy <= img.height
    ensures PyCropCenter(img, cropx, cropy) == CropCenter(img, cropx, cropy)
  {
    var py, c := PyCropCenter(img, cropx, cropy), CropCenter(img, cropx, cropy);
    var startx := CenterStart(img.width, cropx);
    var starty := CenterStart(img.height, cropy);
    forall f | 0 <= f < |img.frames| ensures py.frames[f] == c.frames[f] {
      PyCropFrameAgrees(img.frames[f], img.width, starty, cropy, startx, cropx);
    }
    assert py.frames == c.frames;
  }

  /** A 4-sample-wide, one-row, one-frame video cropped to width 8: the start
      offset is `4 // 2 - 8 // 2 == -2`, Python reads it as "two from the end",
      and the result is 2 samples wide instead of 8. */
  lemma PyCropTruncatesSilently()
    ensures var img := Video(1, 4, [[[1, 2, 3, 4]]]);
      Valid(img) && PyCropCenter(img, 8, 1) == Video(1, 2, [[[3, 4]]])
  {
    var img := Video(1, 4, [[[1, 2, 3, 4]]]);
    var out := PyCropCenter(img, 8, 1);
    assert CenterStart(4, 8) == -2;
    assert PySlice(img.frames[0][0], -2, 6) == [3, 4];
    assert out.frames[0] == [[3, 4]];
  }

  // ---------------------------------------------------------------------------
  // Suite2p intensity correction

  /** The value a signed 16-bit integer takes for the mathematical value `x`
      (two's-complement wrap-around). */
  function Wrap16(x: int): (r: Int16)
    ensures -0x8000 <= x < 0x8000 ==> r as int == x
    ensures (x - r as int) % 0x1_0000 == 0
  {
    ((x + 0x8000) % 0x1_0000 - 0x8000) as Int16
  }

  /** `suite2p_dat * 2`: every sample doubled in 16-bit arithmetic, the shape unchanged. */
  function DoubleIntensity(img: Video): (out: Video)
    requires Valid(img)
    ensures Valid(out)
    ensures |out.frames| == |img.frames| && out.height == img.height && out.width == img.width
    ensures forall f, i, j | 0 <= f < |img.frames| && 0 <= i < img.height && 0 <= j < img.width ::
      out.frames[f][i][j] == Wrap16(2 * img.frames[f][i][j] as int)
  {
    Video(img.height, img.width,
      seq(|img.frames|, f requires 0 <= f < |img.frames| =>
        seq(img.height, i requires 0 <= i < img.height =>
          seq(img.width, j requires 0 <= j < img.width =>
            Wrap16(2 * img.frames[f][i][j] as int)))))
  }

  /** Suite2p stores intensities halved, so its samples lie in -16384..16383;
      for such a video the correction doubles every sample exactly. */
  lemma DoubleIntensityIsExact(img: Video)
    requires Valid(img)
    requires forall f, i, j | 0 <= f < |img.frames| && 0 <= i < img.height && 0 <= j < img.width ::
      -0x4000 <= img.frames[f][i][j] < 0x4000
    ensures forall f, i, j | 0 <= f < |img.frames| && 0 <= i < img.height && 0 <= j < img.width ::
      DoubleIntensity(img).frames[f][i][j] as int == 2 * img.frames[f][i][j] as int
  {
  }

  /** The correction is applied before cropping; doing it after cropping instead
      gives the same video. */
  lemma CropCommutesWithDouble(img: Video, cropx: nat, cropy: nat)
    requires Valid(img)
    requires cropx <= img.width && cropy <= img.height
    ensures CropCenter(DoubleIntensity(img), cropx, cropy) == DoubleIntensity(CropCenter(img, cropx, cropy))
  {
    SameSamplesSameVideo(CropCenter(DoubleIntensity(img), cropx, cropy), DoubleIntensity(CropCenter(img, cropx, cropy)));
  }

  // ---------------------------------------------------------------------------
  // Alignment of the four methods

  /** `np.min` of three dimensions: at most each of them, and one of them. */
  function Min3(a: nat, b: nat, c: nat): (m: nat)
    ensures m <= a && m <= b && m <= c
    ensures m == a || m == b || m == c
  {
    if a <= b && a <= c then a else if b <= c then b else c
  }

  /** `min_ypix`: the smallest height among raw, SIMA and Suite2p. */
  function TargetHeight(rec: Recordings): nat {
    Min3(rec.raw.height, rec.sima.height, rec.suite2p.height)
  }

  /** `min_xpix`: the smallest width among raw, SIMA and Suite2p. */
  function TargetWidth(rec: Recordings): nat {
    Min3(rec.raw.width, rec.sima.width, rec.suite2p.width)
  }

  /** Every video has the given height and width. */
  predicate SameFov(rec: Recordings, height: nat, width: nat) {
    rec.raw.height == height && rec.raw.width == width &&
    rec.sima.height == height && rec.sima.width == width &&
    rec.suite2p.height == height && rec.suite2p.width == width &&
    rec.caiman.height == height && rec.caiman.width == width
  }

  /** A dimension failure: `method`'s video is smaller than the target. */
  datatype AlignError = TooSmall(source: Method, height: nat, width: nat)

  datatype AlignResult = Aligned(videos: Recordings) | AlignFailed(error: AlignError)

  /** Cropping as the notebook performs it: raw, Suite2p and CaImAn are cropped
      to the common target and SIMA is passed through. `rec.suite2p` is the
      Suite2p video after its intensity correction (see `AlignForComparison`). CaImAn does not take
      part in the minimum, so it may be smaller than the target; then the
      alignment fails with a dimension error instead of silently producing a
      narrower video. */
  function Align(rec: Recordings): (r: AlignResult)
    requires AllValid(rec)
    ensures r.AlignFailed? <==>
      rec.caiman.height < TargetHeight(rec) || rec.caiman.width < TargetWidth(rec)
    ensures r.AlignFailed? ==> r.error == TooSmall(Caiman, rec.caiman.height, rec.caiman.width)
    ensures r.Aligned? ==>
      var out, ty, tx := r.videos, TargetHeight(rec), TargetWidth(rec);
      AllValid(out) &&
      |out.raw.frames| == |rec.raw.frames| && out.raw.height == ty && out.raw.width == tx &&
      |out.suite2p.frames| == |rec.suite2p.frames| && out.suite2p.height == ty && out.suite2p.width == tx &&
      |out.caiman.frames| == |rec.caiman.frames| && out.caiman.height == ty && out.caiman.width == tx &&
      out.sima == rec.sima &&
      (SameFov(out, ty, tx) <==> rec.sima.height == ty && rec.sima.width == tx)
  {
    var ty, tx := TargetHeight(rec), TargetWidth(rec);
    if rec.caiman.height < ty || rec.caiman.width < tx then
      AlignFailed(TooSmall(Caiman, rec.caiman.height, rec.caiman.width))
    else
      Aligned(Recordings(CropCenter(rec.raw, tx, ty), rec.sima, CropCenter(rec.suite2p, tx, ty), CropCenter(rec.caiman, tx, ty)))
  }

  /** The notebook's cropping with Python's slicing and no dimension check.
      Raw and Suite2p take part in the minimum, so they always reach the
      target; every cropped video keeps its frame count. */
  function AlignAsWritten(rec: Recordings): (out: Recordings)
    requires AllValid(rec)
    ensures AllValid(out) && out.sima == rec.sima
    ensures |out.raw.frames| == |rec.raw.frames| && |out.suite2p.frames| == |rec.suite2p.frames| &&
            |out.caiman.frames| == |rec.caiman.frames|
    ensures out.raw.height == TargetHeight(rec) && out.raw.width == TargetWidth(rec)
    ensures out.suite2p.height == TargetHeight(rec) && out.suite2p.width == TargetWidth(rec)
  {
    var ty, tx := TargetHeight(rec), TargetWidth(rec);
    PyCropCenterAgrees(rec.raw, tx, ty);
    PyCropCenterAgrees(rec.suite2p, tx, ty);
    Recordings(PyCropCenter(rec.raw, tx, ty), rec.sima, PyCropCenter(rec.suite2p, tx, ty), PyCropCenter(rec.caiman, tx, ty))
  }

  /** Whenever CaImAn's video fits the target, the checked alignment succeeds
      with exactly the notebook's result. */
  lemma AlignAgreesWithAsWritten(rec: Recordings)
    requires AllValid(rec)
    requires TargetHeight(rec) <= rec.caiman.height && TargetWidth(rec) <= rec.caiman.width
    ensures Align(rec) == Aligned(AlignAsWritten(rec))
  {
    var ty, tx := TargetHeight(rec), TargetWidth(rec);
    PyCropCenterAgrees(rec.raw, tx, ty);
    PyCropCenterAgrees(rec.suite2p, tx, ty);
    PyCropCenterAgrees(rec.caiman, tx, ty);
  }

  /** As written, CaImAn's cropped video has the target shape exactly when it
      was at least that large: otherwise it comes out smaller, and nothing
      reports it. */
  lemma AsWrittenCaimanShape(rec: Recordings)
    requires AllValid(rec)
    ensures var out := AlignAsWritten(rec);
      (out.caiman.height == TargetHeight(rec) && out.caiman.width == TargetWidth(rec)) <==>
      (TargetHeight(rec) <= rec.caiman.height && TargetWidth(rec) <= rec.caiman.width)
  {
    if TargetHeight(rec) <= rec.caiman.height && TargetWidth(rec) <= rec.caiman.width {
      PyCropCenterAgrees(rec.caiman, TargetWidth(rec), TargetHeight(rec));
    }
  }

  /** The notebook's order of steps: Suite2p's intensities are doubled as it is
      loaded, then the four videos are aligned. Doubling keeps the shape, so
      the target and the failure condition are those of the loaded videos, and
      the aligned Suite2p video is the doubled crop of the loaded one. */
  function AlignForComparison(loaded: Recordings): (r: AlignResult)
    requires AllValid(loaded)
    ensures r.AlignFailed? <==>
      loaded.caiman.height < TargetHeight(loaded) || loaded.caiman.width < TargetWidth(loaded)
    ensures r.Aligned? ==>
      r.videos.suite2p == DoubleIntensity(CropCenter(loaded.suite2p, TargetWidth(loaded), TargetHeight(loaded))) &&
      r.videos.raw == CropCenter(loaded.raw, TargetWidth(loaded), TargetHeight(loaded)) &&
      r.videos.sima == loaded.sima
  {
    var corrected := loaded.(suite2p := DoubleIntensity(loaded.suite2p));
    assert TargetHeight(corrected) == TargetHeight(loaded) && TargetWidth(corrected) == TargetWidth(loaded);
    CropCommutesWithDouble(loaded.suite2p, TargetWidth(loaded), TargetHeight(loaded));
    Align(corrected)
  }
}
