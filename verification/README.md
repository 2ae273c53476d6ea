# ilastik serial-section label volume — Dafny model

This project models the core of `ilastikss`. That core turns a stack of per-slice ilastik label images into one
downsampled 3-D label volume matching a reference stack. It covers:

- **Label extraction** (`get_exported_ilastik_label_from_file`). A positive label id binarises the image to that class.
  An integer block factor `k` is chosen. The image is then sum-pooled in `k x k` blocks, zero-padded at ragged edges as
  `skimage.measure.block_reduce(..., func=np.sum)` does. Last comes a nearest-neighbour resample to an exact
  `(rows, cols)` target, as `cv2.resize(..., INTER_NEAREST)` does. The `rescale_xy` argument is a datatype
  `Scalar(r) | Tuple(items) | List(items)`, because its Python type picks the branch.
- **Slice stacking** (`generate_3D_label_volume`). A zeroed buffer with one plane per listed `.tiff` file is created.
  Each file still present at load time is written at the next free plane. The plane counter advances only for present
  files, so trailing planes stay zero. Each cell is stored through NumPy's wrap-around cast to `int16`.
- **Directory lister** (`get_files_with_extension_from_dir`). This is a pure function of three inputs: whether the path
  is a directory, the suffix, and the `os.listdir` names. It is proved to return the unique sorted arrangement of the
  matching names.
- **Reference probe** (`target_im_size_from_dir`). It chooses the first sorted `tif` entry of a directory, or the path
  itself otherwise.
- **File-name rewrites**. `'ilastik_label_%d.tif' % label` has a proved inverse. `fname.replace(" Predictions.h5",
  "_Predictions.tiff")` is modelled as Python's left-to-right, non-overlapping replacement.

Images are `seq<seq<int>>` (module `Matrix`). Strings are `seq<char>`, ordered by code point as Python orders `str`.
The file system enters only as inputs:

- whether each directory exists;
- the names listed in each directory;
- a map from each listed file that exists at load time to the image `imread` reads from it;
- the shape of the reference image.

Behaviour of `ilastikss/munge.py` that the model keeps as written:

- The buffer is allocated with `len(file_list)` planes before the loop (munge.py:189). A slice that is no longer a file
  when the loop reaches it is skipped without advancing `t_slice` (munge.py:192-198), so the buffer keeps its size and
  its tail stays zero (`StackPlanes`).
- In the pair branch, element 0 of `rescale_xy` is both the row target `y_new` and the divisor of the block factor, and
  element 1 is the column target `x_new` (munge.py:132-135). The model reads the tuple the same way (`PlanFor`).
- A `list` never triggers a rescale. The scalar branch is taken only for a value that is neither a tuple nor a list
  (munge.py:123), and the pair branch only for a tuple (munge.py:132).
- Binarisation happens only for `label > 0` (munge.py:118-119). Any label id `<= 0` leaves every class in place.
- Missing directories and an empty `.tiff` listing print a message and return `None` (munge.py:164-177); the model
  returns a distinct `Err` for each. A reference directory without a `tif` entry makes `t_im[0]` raise `IndexError`
  (munge.py:263-265), modelled as `NoReferenceImage`. The probe's `isfile` check only prints
  (munge.py:269-270), and the `imread` that follows at munge.py:273 then raises for an entry that is not a readable
  image; that failure is left out.
- A first slice that no longer exists makes `imread` raise (munge.py:187), modelled as `FirstLabelUnreadable`.
- Inputs on which the Python code fails or broadcasts appear here as preconditions (`Extractable`,
  `SlicesExtractable`), only for runs that pass every check. They are:
  - a scalar ratio `<= 0`: `1/0` raises `ZeroDivisionError`, and a negative ratio gives a negative block factor
    (munge.py:129, 139);
  - a pair whose row target `items[0]` is `<= 0`: the division raises or the factor is not positive (munge.py:133, 139);
  - a rescale whose rounded block factor is 0, which `block_reduce` rejects (munge.py:139);
  - a rescale to 0 rows or 0 columns, which trips the `dsize` assertion of `cv2.resize` (munge.py:142);
  - an empty image that is rescaled (munge.py:139, 142);
  - slices whose extracted planes differ in shape from one another. Assigning such a plane into `OUT` either fails or
    broadcasts (munge.py:197).

## Model

| member | source | states |
|---|---|---|
| Io.FilesWithExtension | ilastikss/io.py:26-42 | an empty suffix gives `[]` whatever the path; a non-directory gives `None`; otherwise the result is sorted, no longer than the listing, and holds each name exactly as often as the listing does when it ends with the suffix, and never otherwise |
| Io.KeepEndingWith | ilastikss/io.py:34-37 | the filter loop keeps exactly the names ending with the suffix, with their multiplicities, never growing the list |
| Io.FilesWithExtensionMembership | ilastikss/io.py:35-37 | a name is returned if and only if it is listed and ends with the suffix |
| Io.FilesWithExtensionIsTheSortedMatches | ilastikss/io.py:40 | any sorted permutation of the matching names equals the lister's result, so the result agrees with `list.sort()` |
| Strings.Sort | ilastikss/io.py:40 | the sort returns a permutation (same multiset, same length) that is sorted under Python's `str` order |
| Strings.SortedPermutationUnique | ilastikss/io.py:40 | two sorted lists of strings with the same multiset are equal |
| Rounding.RoundHalfEven | ilastikss/munge.py:129-133 | `np.round` gives an integer within 1/2 of its argument, choosing the even one on a tie |
| Rounding.Truncate | ilastikss/munge.py:125-126 | `int(x)` of a non-negative value is the integer `r` with `r <= x < r + 1` |
| Rounding.CeilDivBounds | ilastikss/munge.py:139 | the pooled length is the least `r` with `a <= r * k` |
| LabelExtractor.PlanFor | ilastikss/munge.py:121-136 | a rescale happens exactly for a scalar below 1 or a tuple of length 2; for a pair the targets are `(items[0], items[1])` and `k` rounds `rows / items[0]`; for a ratio `r` the targets are the truncations of `rows*r` and `cols*r`, and `k` rounds `1/r` and is at least 1 |
| LabelExtractor.Mask | ilastikss/munge.py:118-119 | for a positive label every pixel is 0 or 1, and it is 1 exactly where the source equals the label; otherwise the image is unchanged; the shape is kept |
| LabelExtractor.MaskCountsHits | ilastikss/munge.py:118-119 | a positive label's mask adds up to the number of source pixels of that class |
| LabelExtractor.Extract | ilastikss/munge.py:104-144 | the returned plane is rectangular, and has exactly the target `(rows, cols)` when rescaled, or the source shape otherwise |
| LabelExtractor.ExtractWithoutRescale | ilastikss/munge.py:121-144 | for a scalar `>= 1`, a tuple whose length is not 2, or a list, the mask is returned as is, and for label `<= 0` that is the image itself |
| LabelExtractor.ExtractCountsBounded | ilastikss/munge.py:118-142 | with a positive label every cell lies in `[0, k*k]` after rescaling and in `{0, 1}` without it |
| LabelExtractor.ExtractDrawsFromPooled | ilastikss/munge.py:139-142 | every output cell of a rescale is a cell of the pooled mask |
| LabelExtractor.ExtractKeepsCountWhenExact | ilastikss/munge.py:106-108 | when the pooled shape already equals the target, the plane's total equals the mask's, which is the number of label hits |
| LabelExtractor.ExtractToOwnSize | ilastikss/munge.py:132-142 | asking for the image's own size is allowed and returns just the mask |
| Pooling.PoolByOne | ilastikss/munge.py:139 | pooling with factor 1 is the identity |
| Pooling.Pool | ilastikss/munge.py:139 | sum pooling by `k` gives shape `(ceil(rows/k), ceil(cols/k))` |
| Pooling.PoolPreservesTotal | ilastikss/munge.py:139 | sum pooling with zero padding keeps the image's total, so no hit is lost |
| Pooling.PoolCell | ilastikss/munge.py:139 | each pooled cell equals the sum of its `k x k` block clipped to the image |
| Pooling.PoolBounds | ilastikss/munge.py:139 | pixels in `[0, hi]` pool into cells in `[0, k*k*hi]` |
| Pooling.PoolRowSum | ilastikss/munge.py:139 | pooling one row in runs of `k` keeps its sum |
| Pooling.PoolBandsTotal | ilastikss/munge.py:139 | adding bands of `k` rows keeps the total |
| Pooling.PoolRowCell | ilastikss/munge.py:139 | a cell of a pooled row is the sum of the run of up to `k` pixels it covers |
| NearestResize.SourceIndex | ilastikss/munge.py:142 | output position `i` reads source position `floor(i*src/dst)`, which is always in range |
| NearestResize.Resize | ilastikss/munge.py:142 | the resample has exactly `rows` rows and `cols` columns, with `dsize` given columns first |
| NearestResize.ResizeValuesDrawnFromSource | ilastikss/munge.py:142 | nearest-neighbour resampling introduces no new values |
| NearestResize.ResizeToSameShape | ilastikss/munge.py:142 | resampling to the source's own shape returns it unchanged |
| NearestResize.SourceIndexStrictWhenShrinking | ilastikss/munge.py:142 | when shrinking, distinct output positions read distinct source positions, in order |
| Matrix.ToInt16 | ilastikss/munge.py:189-197 | a value stored in the `int16` buffer becomes the one `int16` value congruent to it modulo 2^16 |
| Matrix.Int16ImageInRange | ilastikss/munge.py:197 | planes whose values fit `int16` are stored unchanged |
| VolumeAssembler.StackPlanes | ilastikss/munge.py:186-198 | the buffer has one plane per listed file; the counter ends at the number of present files; the leading planes are the present files' planes, in listing order, cast to `int16`; all later planes stay zero; every plane has the buffer's shape |
| VolumeAssembler.StackSlices | ilastikss/munge.py:191-198 | when every existing slice extracts to the common `rows x cols` shape, the buffer holds the extracted planes of exactly the files still present, in listing order, and zeros after them |
| VolumeAssembler.CountPresentAll | ilastikss/munge.py:191-198 | the buffer is filled to the end if and only if every listed file is present |
| VolumeAssembler.GenerateLabelVolume | ilastikss/munge.py:164-204 | each of the five failing checks (label directory, reference directory, empty `.tiff` listing, no `tif` reference, missing first slice) gives its own failure, in source order; the run succeeds exactly when both directories exist, both list a matching name, and the first slice exists; then the buffer is the stacking of the sorted `.tiff` slices and the output path is `ilastik_label_<id>.tif` in the reference directory |
| VolumeAssembler.StackReferencePlaneShape | ilastikss/munge.py:183-196 | with a 3-D reference `(planes, rows, cols)`, every stacked plane has shape `(rows, cols)` |
| VolumeAssembler.FlatReferenceKeepsFullSize | ilastikss/munge.py:187 | with a 2-D reference, `target_size[1:]` has one element, so slices are only masked |
| VolumeAssembler.BinaryPlaneFitsInt16 | ilastikss/munge.py:189-197 | a binarised plane with `k*k <= 32767` is stored in the `int16` buffer without wrap-around |
| TargetProbe.FirstWithExtension | ilastikss/munge.py:263-265 | the probe's choice exists exactly when some listed name ends with `tif`; it is then listed, ends with `tif`, and is the least such name |
| TargetProbe.ReferenceImagePath | ilastikss/munge.py:263-267 | a non-directory path is used as is; a directory yields no path exactly when no entry ends with `tif`, and otherwise gives the directory joined with the first sorted `tif` entry |
| FileNames.LabelFileName | ilastikss/munge.py:203 | the output name starts with `ilastik_label_`, ends with `.tif`, and contains no `/` |
| FileNames.LabelFileNameRoundTrip | ilastikss/munge.py:203 | the label id can be read back from the output name |
| FileNames.LabelFileNameInjective | ilastikss/munge.py:203 | different label ids never share an output name |
| FileNames.PredictionsTiffNameOfExport | ilastikss/munge.py:236 | `<base> Predictions.h5` becomes `<base>_Predictions.tiff` when the base holds no other occurrence of the pattern |
| FileNames.PredictionsTiffNameWithoutPattern | ilastikss/munge.py:236 | a name without the pattern is returned unchanged |
| Paths.Join | ilastikss/munge.py:193 | `os.path.join` ends with the name, starts with the directory unless the name is absolute, and is the name when the name is absolute |
| Paths.JoinBasename | ilastikss/munge.py:193 | a plain file name joined to a directory is the last component of the result |
| Paths.ReplaceAllSkipsPrefix | ilastikss/munge.py:236 | a prefix in which no occurrence of the pattern starts is copied through `str.replace` unchanged |
| Decimal.ParseIntToDecimal | ilastikss/munge.py:203 | `%d` text parses back to the same integer |

## Left out

- All `imread`, `imsave`, `isdir`, `isfile`, `os.listdir` and `print` calls. Their results are inputs: directory flags,
  listings, a map from each existing file to the image read from it, and the reference shape. A missing first slice is
  the failure `FirstLabelUnreadable`.
- VolumeAssembler.GenerateLabelVolume: the chosen reference entry is taken to be a readable image of shape
  `refShape`. When that entry is not a file (a directory named `x.tif`, a broken link) or cannot be decoded, the
  source prints at munge.py:269-270 and `imread` raises at munge.py:273, before the first slice is loaded; the model
  does not express that failure.
- A slice that exists but that `imread` cannot decode. The source skips a slice only when `isfile` is false
  (munge.py:194); an existing but unreadable file makes `imread` raise (munge.py:187 for the first slice, 196 for
  later ones). The model does not express this, since every file in `labelFiles` is read successfully.
- The final `skimage.transform.resize` of the volume to `target_size` (munge.py:201), and the cast of that result to
  `int16` before saving (munge.py:204). Both are floating-point interpolation across three axes.
  `GenerateLabelVolume` returns the stacked buffer as it stands before line 201.
- Floating-point rounding in the scalar-ratio branch. `int(shape * r)` and `np.round(1 / r)` are modelled with exact
  rationals (`real`). They can differ from IEEE doubles when the product or quotient is not exactly representable.
- OpenCV's double-precision source index. `cv2.resize` passes the scale `dst/src` and the nearest-neighbour routine
  computes `floor(i * (1/(dst/src)))` in doubles, clamped to `src - 1`. The model uses the exact `floor(i*src/dst)`,
  for which the clamp never applies.
- The pair branch's `rows / items[0]` is a double division in Python and is modelled exactly. For integers below 2^52,
  this rounds identically under `np.round`.
- File presence is one snapshot. The source reads `file_list[0]` twice, once before allocating the buffer
  (munge.py:187) and again inside the loop (munge.py:193-196). If it vanishes between the two reads, the source skips
  it and puts the next present file in plane 0. The single `labelFiles` map cannot express that.
- NumPy broadcasting when a slice's plane shape differs from the first slice's. `SlicesExtractable` requires all
  extracted planes to share one shape instead.
- Dtypes: `block_reduce` and cv2 on boolean or `int64` arrays are treated as integer arithmetic. Only the `int16`
  buffer's wrap-around is modelled.
- `convert8bit`, `rescaleImages`, and the rest of `resave_ilastik_data_as_compressed_tiff` beyond its name rewrite.
  They are image I/O loops around OpenCV scaling.
- Python's `str.replace` with an empty pattern, which inserts between characters. The only pattern used is non-empty.
