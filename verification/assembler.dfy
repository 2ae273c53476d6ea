/**
 * `generate_3D_label_volume` (ilastikss/munge.py) up to the final 3-D
 * resample: check both directories, list the label slices, choose the
 * reference image, extract every slice that is still present and stack the
 * planes into a buffer with one plane per listed file.
 *
 * The file system enters as inputs: whether each directory exists, the
 * names listed in each, the listed files that exist at load time (by file
 * name, each with the image `imread` reads from it), and the shape of the
 * reference image.
 */
module VolumeAssembler {
  import opened Wrappers
  import opened Matrix
  import opened Strings
  import opened LabelExtractor
  import Io
  import TargetProbe
  import Paths
  import FileNames

  /** The suffix of the label slice files. */
  const LabelExt: string := ".tiff"

  /** Why `munge.py` stops (it prints a message and returns `None`, or raises). */
  datatype Failure =
    | LabelDirMissing        // `label_dir` is not a directory
    | ReferenceDirMissing    // `downsample_dir` is not a directory
    | NoLabelFiles           // no `.tiff` file in `label_dir`
    | NoReferenceImage       // no `tif` file in `downsample_dir` (`IndexError`)
    | FirstLabelUnreadable   // the first listed slice vanished before it was read

  /** The stacked buffer before the final resample, and where the volume is saved. */
  datatype Assembly = Assembly(volume: seq<Image>, filled: nat, outPath: string)

  /** How many files are present. */
  function CountPresent(present: seq<bool>): (c: nat)
    ensures c <= |present|
  {
    if |present| == 0 then 0
    else CountPresent(present[..|present| - 1]) + (if present[|present| - 1] then 1 else 0)
  }

  /** The planes of the present files, in listing order. */
  function PresentPlanes(planes: seq<Image>, present: seq<bool>): (r: seq<Image>)
    requires |planes| == |present|
    ensures |r| == CountPresent(present)
  {
    if |present| == 0 then []
    else
      var n := |present| - 1;
      PresentPlanes(planes[..n], present[..n]) + (if present[n] then [planes[n]] else [])
  }

  /**
   * The buffer the slice loop leaves behind: one plane per listed file; the
   * planes of the present files come first, in listing order, as stored in
   * `int16`; every plane is `rows x cols` and those after `filled` are
   * still zero.
   */
  predicate Stacked(planes: seq<Image>, present: seq<bool>, rows: nat, cols: nat, volume: seq<Image>, filled: nat)
    requires |planes| == |present|
  {
    && |volume| == |present|
    && filled == CountPresent(present)
    && (forall p :: 0 <= p < |PresentPlanes(planes, present)| ==>
          p < |volume| && volume[p] == Int16Image(PresentPlanes(planes, present)[p]))
    && (forall p :: filled <= p < |volume| ==> volume[p] == Zeros(rows, cols))
    && (forall p :: 0 <= p < |volume| ==> IsMatrix(volume[p], rows, cols))
  }

  /**
   * The slice loop: a zeroed buffer of one plane per listed file; each file
   * still present is written at the next free plane, and only then does the
   * plane counter advance.
   */
  method StackPlanes(planes: seq<Image>, present: seq<bool>, rows: nat, cols: nat)
    returns (volume: seq<Image>, filled: nat)
    requires |planes| == |present|
    requires forall i :: 0 <= i < |planes| && present[i] ==> IsMatrix(planes[i], rows, cols)
    ensures Stacked(planes, present, rows, cols, volume, filled)
  {
    volume := seq(|present|, _ => Zeros(rows, cols));
    filled := 0;
    var i := 0;
    assert |PresentPlanes(planes[..0], present[..0])| == 0;
    while i < |present|
      invariant 0 <= i <= |present|
      invariant |volume| == |present|
      invariant filled == CountPresent(present[..i])
      invariant forall p :: 0 <= p < |PresentPlanes(planes[..i], present[..i])| ==>
        p < |volume| && volume[p] == Int16Image(PresentPlanes(planes[..i], present[..i])[p])
      invariant forall p :: filled <= p < |volume| ==> volume[p] == Zeros(rows, cols)
      invariant forall p :: 0 <= p < |volume| ==> IsMatrix(volume[p], rows, cols)
    {
      PresentStep(planes, present, i);
      if present[i] {
        volume := volume[filled := Int16Image(planes[i])];
        filled := filled + 1;
      }
      i := i + 1;
    }
    assert present[..i] == present;
    assert planes[..i] == planes;
    var stacked := PresentPlanes(planes, present);
    assert stacked == PresentPlanes(planes[..i], present[..i]);
    forall p | 0 <= p < |stacked|
      ensures p < |volume| && volume[p] == Int16Image(stacked[p])
    {
    }
  }

  /** Extending the prefix by one file adds its plane exactly when it is present. */
  lemma PresentStep(planes: seq<Image>, present: seq<bool>, i: nat)
    requires |planes| == |present| && i < |present|
    ensures CountPresent(present[..i + 1]) == CountPresent(present[..i]) + (if present[i] then 1 else 0)
    ensures PresentPlanes(planes[..i + 1], present[..i + 1]) ==
      PresentPlanes(planes[..i], present[..i]) + (if present[i] then [planes[i]] else [])
    ensures CountPresent(present[..i + 1]) <= i + 1
  {
    assert present[..i + 1][..i] == present[..i];
    assert planes[..i + 1][..i] == planes[..i];
  }

  /** The label slice names, sorted, as the lister returns them for an existing directory. */
  function SortedLabelNames(listing: seq<string>): seq<string>
  {
    Io.FilesWithExtension(true, LabelExt, listing).value
  }

  /** Which listed files are still present when the loop reaches them. */
  function Presence(names: seq<string>, files: map<string, Image>): (r: seq<bool>)
    ensures |r| == |names| && forall i :: 0 <= i < |names| ==> (r[i] <==> names[i] in files)
  {
    seq(|names|, i requires 0 <= i < |names| => names[i] in files)
  }

  /** The extracted plane of every listed file that is present (an empty placeholder otherwise). */
  function SlicePlanes(names: seq<string>, files: map<string, Image>, arg: RescaleArg, labelId: int): (r: seq<Image>)
    requires forall n :: n in names && n in files ==> Extractable(files[n], arg)
    ensures |r| == |names|
  {
    seq(|names|, i requires 0 <= i < |names| =>
      if names[i] in files then Extract(files[names[i]], arg, labelId) else [])
  }

  /** `target_size[1:]`: the reference shape without its leading (plane) axis, as a tuple. */
  function InPlaneTarget(refShape: seq<int>): RescaleArg
  {
    Tuple(if |refShape| == 0 then [] else refShape[1..])
  }

  /**
   * Every listed slice that exists at load time can be extracted, and all their
   * extracted planes share one shape. Files that are not listed are never
   * read, so nothing is asked of them.
   */
  predicate SlicesExtractable(names: seq<string>, files: map<string, Image>, arg: RescaleArg, labelId: int)
  {
    && (forall n :: n in names && n in files ==> Extractable(files[n], arg))
    && forall a, b :: a in names && a in files && b in names && b in files ==>
         |Extract(files[a], arg, labelId)| == |Extract(files[b], arg, labelId)| &&
         Width(Extract(files[a], arg, labelId)) == Width(Extract(files[b], arg, labelId))
  }

  /**
   * The run succeeds exactly when both directories exist, both list a matching
   * name, and the first listed slice still exists.
   */
  predicate Succeeds(labelDirIsDir: bool, labelListing: seq<string>, labelFiles: map<string, Image>,
                     downDirIsDir: bool, refListing: seq<string>)
  {
    && labelDirIsDir && downDirIsDir
    && |SortedLabelNames(labelListing)| > 0
    && (exists n :: n in refListing && EndsWith(n, TargetProbe.ReferenceExt))
    && SortedLabelNames(labelListing)[0] in labelFiles
  }

  method GenerateLabelVolume(
    labelDir: string, labelDirIsDir: bool, labelListing: seq<string>, labelFiles: map<string, Image>,
    downDir: string, downDirIsDir: bool, refListing: seq<string>, refShape: seq<int>,
    labelId: int)
    returns (r: Result<Assembly, Failure>)
    requires Succeeds(labelDirIsDir, labelListing, labelFiles, downDirIsDir, refListing) ==>
      SlicesExtractable(SortedLabelNames(labelListing), labelFiles, InPlaneTarget(refShape), labelId)
    ensures !labelDirIsDir ==> r == Err(LabelDirMissing)
    ensures labelDirIsDir && !downDirIsDir ==> r == Err(ReferenceDirMissing)
    ensures labelDirIsDir && downDirIsDir && (forall n :: n in labelListing ==> !EndsWith(n, LabelExt)) ==>
      r == Err(NoLabelFiles)
    ensures labelDirIsDir && downDirIsDir && |SortedLabelNames(labelListing)| > 0 &&
            (forall n :: n in refListing ==> !EndsWith(n, TargetProbe.ReferenceExt)) ==>
      r == Err(NoReferenceImage)
    ensures labelDirIsDir && downDirIsDir && |SortedLabelNames(labelListing)| > 0 &&
            (exists n :: n in refListing && EndsWith(n, TargetProbe.ReferenceExt)) &&
            SortedLabelNames(labelListing)[0] !in labelFiles ==>
      r == Err(FirstLabelUnreadable)
    ensures r.Ok? <==> Succeeds(labelDirIsDir, labelListing, labelFiles, downDirIsDir, refListing)
    ensures r.Ok? ==> r.value.outPath == Paths.Join(downDir, FileNames.LabelFileName(labelId))
    ensures r.Ok? ==>
      var names := SortedLabelNames(labelListing);
      var arg := InPlaneTarget(refShape);
      var first := Extract(labelFiles[names[0]], arg, labelId);
      Stacked(SlicePlanes(names, labelFiles, arg, labelId), Presence(names, labelFiles), |first|, Width(first),
              r.value.volume, r.value.filled)
  {
    if !labelDirIsDir {
      return Err(LabelDirMissing);
    }
    if !downDirIsDir {
      return Err(ReferenceDirMissing);
    }
    var listed := Io.FilesWithExtension(labelDirIsDir, LabelExt, labelListing);
    if listed.None? || |listed.value| == 0 {
      forall n | n in labelListing
        ensures !EndsWith(n, LabelExt) || |listed.value| > 0
      {
        Io.FilesWithExtensionMembership(true, LabelExt, labelListing, n);
      }
      return Err(NoLabelFiles);
    }
    var names := listed.value;
    Io.FilesWithExtensionMembership(true, LabelExt, labelListing, names[0]);
    // The shape of the image at this path is `refShape`; reading it is outside the model.
    var refPath := TargetProbe.ReferenceImagePath(downDir, downDirIsDir, refListing);
    if refPath.None? {
      return Err(NoReferenceImage);
    }
    var arg := InPlaneTarget(refShape);
    if names[0] !in labelFiles {
      return Err(FirstLabelUnreadable);
    }
    var first := Extract(labelFiles[names[0]], arg, labelId);
    forall n | n in names && n in labelFiles
      ensures IsMatrix(Extract(labelFiles[n], arg, labelId), |first|, Width(first))
    {
    }
    var volume, filled := StackSlices(names, labelFiles, arg, labelId, |first|, Width(first));
    r := Ok(Assembly(volume, filled, Paths.Join(downDir, FileNames.LabelFileName(labelId))));
  }

  /**
   * The slice loop of a run that got past every check: each present slice
   * is extracted and stacked into planes of the common shape `rows x cols`.
   */
  method StackSlices(names: seq<string>, files: map<string, Image>, arg: RescaleArg, labelId: int, rows: nat, cols: nat)
    returns (volume: seq<Image>, filled: nat)
    requires forall n :: n in names && n in files ==>
      Extractable(files[n], arg) && IsMatrix(Extract(files[n], arg, labelId), rows, cols)
    ensures Stacked(SlicePlanes(names, files, arg, labelId), Presence(names, files), rows, cols, volume, filled)
  {
    var present := Presence(names, files);
    var planes := SlicePlanes(names, files, arg, labelId);
    forall i | 0 <= i < |planes| && present[i]
      ensures IsMatrix(planes[i], rows, cols)
    {
      assert planes[i] == Extract(files[names[i]], arg, labelId);
    }
    volume, filled := StackPlanes(planes, present, rows, cols);
  }

  /** The buffer is full exactly when no listed file went missing; otherwise its tail stays zero. */
  lemma {:induction false} CountPresentAll(present: seq<bool>)
    ensures CountPresent(present) == |present| <==> forall i :: 0 <= i < |present| ==> present[i]
  {
    if |present| > 0 {
      var n := |present| - 1;
      CountPresentAll(present[..n]);
      if CountPresent(present) == |present| {
        assert present[n];
        forall i | 0 <= i < |present|
          ensures present[i]
        {
          if i < n {
            assert present[..n][i] == present[i];
          }
        }
      }
    }
  }

  /**
   * With a 3-D reference of shape `(planes, rows, cols)` every extracted
   * plane has shape `(rows, cols)`.
   */
  lemma StackReferencePlaneShape(img: Image, refShape: seq<int>, labelId: int)
    requires |refShape| == 3 && Extractable(img, InPlaneTarget(refShape))
    ensures IsMatrix(Extract(img, InPlaneTarget(refShape), labelId), refShape[1], refShape[2])
  {
  }

  /**
   * With a 2-D reference of shape `(rows, cols)` the in-plane target is a
   * one-element tuple, so no slice is rescaled: each plane is its mask at
   * full resolution.
   */
  lemma FlatReferenceKeepsFullSize(img: Image, refShape: seq<int>, labelId: int)
    requires |refShape| == 2 && Extractable(img, InPlaneTarget(refShape))
    ensures Extract(img, InPlaneTarget(refShape), labelId) == Mask(img, labelId)
  {
    ExtractWithoutRescale(img, InPlaneTarget(refShape), labelId);
  }

  /**
   * A binarised plane pooled by `k` with `k*k` in the `int16` range is
   * stored without wrap-around.
   */
  lemma {:induction false} BinaryPlaneFitsInt16(img: Image, arg: RescaleArg, labelId: int)
    requires Extractable(img, arg) && labelId > 0
    requires PlanFor(arg, |img|, Width(img)).Rescale? ==>
      PlanFor(arg, |img|, Width(img)).factor * PlanFor(arg, |img|, Width(img)).factor <= 32767
    ensures Int16Image(Extract(img, arg, labelId)) == Extract(img, arg, labelId)
  {
    ExtractCountsBounded(img, arg, labelId);
    var r := Extract(img, arg, labelId);
    var p := PlanFor(arg, |img|, Width(img));
    if p.Rescale? {
      assert ValuesIn(r, -32768, 32767) by {
        assert ValuesIn(r, 0, p.factor * p.factor);
      }
    }
    Int16ImageInRange(r);
  }
}
