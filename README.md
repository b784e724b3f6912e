# Thermal image normalizer: a Dafny model

This project models the numeric and string core of the thermal-image
normalizer (`src/ir-normalization/normalizer.py`). The normalizer turns
16-bit thermal frames into 8-bit or 16-bit grayscale images. It does this in
three steps:

- **Curation.** From a directory listing it keeps the names containing
  `16BIT.PNG`, in listing order. It gives each one an output name:
  `16BIT` becomes `8BIT-N` in 8-bit mode, and `16BIT.` becomes `16BIT-N.`
  otherwise.
- **Scaling bounds.** The camera position (`P`, `C` or `S`) is the first
  underscore-separated field of the file's basename that names one. A fixed
  table keyed on that position and the image's row count gives the
  `(bottom, top)` bounds.
- **Linear normalization.** Each sample `v` becomes
  `floor(clip((v - bottom) / (top - bottom), 0, 1) * (2^d - 1))`, for `d` = 8
  or 16.

Modules, leaf first:

- `Wrappers`: `Option`.
- `Text`: `str.find`, `str.split` and `str.replace` over `seq<char>`.
- `Paths`: POSIX `os.path.basename` and `os.path.join`.
- `Scaling`: `parse_filename` and `get_scaling_values`.
- `LinearNormalization`: `lin_normalize_image`.
- `Curation`: `curate_files`, without the directory listing.
- `Pipeline`: the part of `process_file` that is not image I/O.

Two behaviours of the code are worth knowing. The model follows the code in
both:

- A file name with no `P`, `C` or `S` field does not get the default
  bounds. The comment `# camera_pos S and default` (line 131) suggests it
  would. In fact `parse_filename` prints a warning and then returns a
  variable that was never bound (line 117). The resulting exception is
  caught in `process_file` (lines 186-189), so the file counts as failed.
  `ParseFilename` and `GetScalingValues` return `None` for this case, and
  `ProcessFile` returns `None` (no output).
- Equal bounds are not reported as an error. The docstring (lines 22-23)
  says `bottom` maps to 0 and `top` to 2^d - 1, which no map can do when
  they are equal. The code then divides by zero in floating point. In the
  model, `bottom < top` is a precondition of the normalizer. Every row of
  the scaling table meets it (`ScalingFor`).

The normalizer is imperative, like the source: it builds an array and
overwrites it in place with masked assignments. `LinNormalizeImage`
resolves absent bounds, and `NormalizeWithBounds` then allocates an array holding each ratio's numerator `v - bottom`, over the
common denominator `top - bottom`. It then runs the clip-below and
clip-above passes in place. Last, it scales, floors and converts to the
unsigned output type. The image is a flat array of samples in row-major
order. Every step is elementwise, so "same shape" means "same length".

## Model

| member | source | states |
|---|---|---|
| `LinearNormalization.LinNormalizeImage` | src/ir-normalization/normalizer.py:17-41 | returns a new array of the image's length whose k-th sample is `NormalizeSample` of the k-th input sample. Absent bounds are resolved to the image's minimum and maximum |
| `LinearNormalization.NormalizeWithBounds` | src/ir-normalization/normalizer.py:32-39 | with the bounds known, the subtract, clip-below, clip-above and quantize passes leave each sample equal to `NormalizeSample` of the input sample |
| `LinearNormalization.NormalizeSample` | src/ir-normalization/normalizer.py:32-39 | the per-sample map: every output level is in `[0, 2^d - 1]`. Its exact value is pinned down by `NormalizeSampleIsExactFloor` |
| `LinearNormalization.ClipBelowInPlace` | src/ir-normalization/normalizer.py:33 | the masked assignment `a[a < lo] = lo`: each element is raised to `lo` if below it, and the others are unchanged |
| `LinearNormalization.ClipAboveInPlace` | src/ir-normalization/normalizer.py:34 | the masked assignment `a[a > hi] = hi`: each element is lowered to `hi` if above it, and the others are unchanged |
| `LinearNormalization.QuantizeInPlace` | src/ir-normalization/normalizer.py:36-39 | each element becomes its ratio times 255 or 65535, floored and converted to the unsigned output type |
| `LinearNormalization.ToUnsigned` | src/ir-normalization/normalizer.py:37-39 | the `astype` conversion always lands in `[0, 2^d - 1]`. Only in-range levels reach it (`NormalizeSampleInRange`), where it is the identity. Reducing out-of-range values modulo 2^d is a choice of the model |
| `LinearNormalization.NormalizeSampleIsExactFloor` | src/ir-normalization/normalizer.py:32-39 | the output level `r` satisfies `r*span <= n*M < (r+1)*span`, with `n` the clipped numerator and `M` = 2^d - 1. So `r` is the floor of the exact scaled ratio, and the only integer that is |
| `LinearNormalization.NormalizeSampleInRange` | src/ir-normalization/normalizer.py:32-39 | for `bottom < top`, every output level is in `[0, 255]` (8-bit) or `[0, 65535]` (16-bit), so the unsigned conversion never changes it |
| `LinearNormalization.NormalizeSampleClips` | src/ir-normalization/normalizer.py:22-39 | a sample `<= bottom` maps to 0 and a sample `>= top` maps to 2^d - 1; in particular bottom maps to 0 and top to 2^d - 1 |
| `LinearNormalization.NormalizeSampleMonotone` | src/ir-normalization/normalizer.py:32-39 | for fixed bounds, the output level never decreases as the sample grows |
| `LinearNormalization.Min` | src/ir-normalization/normalizer.py:27-28 | the default bottom is a sample of the image and is at most every sample |
| `LinearNormalization.Max` | src/ir-normalization/normalizer.py:29-30 | the default top is a sample of the image and is at least every sample |
| `LinearNormalization.DefaultBoundsSpanFullRange` | src/ir-normalization/normalizer.py:27-39 | with both bounds omitted and min < max, every level is in range, some sample maps to 0 and some sample maps to 2^d - 1 |
| `Scaling.PositionOf` | src/ir-normalization/normalizer.py:111-112 | a field names a camera exactly when it is `P`, `C` or `S`, and names the matching position |
| `Scaling.FirstPositionIsFirstMatch` | src/ir-normalization/normalizer.py:110-115 | the position found is that of the earliest field naming a camera; there is none exactly when no field names one |
| `Scaling.ParseFilename` | src/ir-normalization/normalizer.py:101-117 | the loop over the basename's `_` fields returns the first camera field's position, or `None` when the loop ends without a match (unbound `camera_pos`) |
| `Scaling.Tokens` | src/ir-normalization/normalizer.py:108 | the fields, joined again with `_`, give back the basename |
| `Scaling.FirstPosition` | src/ir-normalization/normalizer.py:110-115 | the position the loop settles on; `FirstPositionIsFirstMatch` states it is that of the earliest camera field, or none when no field is one |
| `Scaling.TokensIgnoreDirectory` | src/ir-normalization/normalizer.py:108 | the fields are taken from the basename, so a directory joined in front of a name never changes them |
| `Scaling.ScalingFor` | src/ir-normalization/normalizer.py:131-148 | every bounds pair the table gives satisfies `0 <= bottom < top <= 65535` |
| `Scaling.ScalingTable` | src/ir-normalization/normalizer.py:131-148 | P at 512 rows gives (53500, 56500); P at 480 rows and C at any row count give (50500, 58500); S and P at other row counts give (51000, 57500) |
| `Scaling.GetScalingValues` | src/ir-normalization/normalizer.py:120-148 | no bounds exactly when no field of the basename names a camera; otherwise the table's bounds for the first camera field and the row count |
| `Curation.IsInputName` | src/ir-normalization/normalizer.py:89 | the marker test `x.find('16BIT.PNG') != -1`; by `FindIsFirstOccurrence`, it holds exactly when the marker occurs somewhere in the name |
| `Curation.SelectInputs` | src/ir-normalization/normalizer.py:89 | keeps exactly the listed names containing `16BIT.PNG`, and never more names than were listed |
| `Curation.SelectInputsAppend` | src/ir-normalization/normalizer.py:89 | selecting from two listings in a row gives the two selections in a row, so listing order is kept |
| `Curation.OutputName` | src/ir-normalization/normalizer.py:90-93 | the renaming of one name in each mode; `OutputNameLonger` and `OutputNameOfMarkedStem` state what it does to input names |
| `Curation.OutputNameLonger` | src/ir-normalization/normalizer.py:90-93 | an input name always contains the renamed pattern, so its output name is strictly longer; a name without `/` stays without `/` |
| `Curation.OutputNameOfMarkedStem` | src/ir-normalization/normalizer.py:90-93 | `<stem>16BIT.PNG`, for a stem not containing `16BIT`, becomes `<stem>8BIT-N.PNG` in 8-bit mode and `<stem>16BIT-N.PNG` otherwise |
| `Curation.CurateFiles` | src/ir-normalization/normalizer.py:77-98 | the input and output path lists have the selection's length and are index-aligned: the i-th output path is the output directory joined with the renamed i-th selected name |
| `Curation.CuratedFilesMatchListing` | src/ir-normalization/normalizer.py:87-96 | for a directory listing, every input path's file name is a listed name with the marker, and every such name has an input path. The i-th output's file name is the renaming of the i-th input's |
| `Curation.OutputNeverOverwritesInput` | src/ir-normalization/normalizer.py:90-96 | with the output directory equal to the input directory, no output path equals the path of its own input |
| `Text.Find` | src/ir-normalization/normalizer.py:89 | `str.find`: the result is -1 or an index at which the substring fits in the string |
| `Text.FindIsFirstOccurrence` | src/ir-normalization/normalizer.py:89 | `find` returns the first index where the substring occurs, and returns -1 exactly when it occurs nowhere |
| `Text.FindAt` | src/ir-normalization/normalizer.py:89 | conversely, the first index at which the substring occurs is the one `find` returns |
| `Text.ReplaceAll` | src/ir-normalization/normalizer.py:91-93 | `str.replace`, scanning left to right; `ReplaceAllByFind` relates it to `find` |
| `Text.ReplaceAllByFind` | src/ir-normalization/normalizer.py:91-93 | `replace` keeps the text before the first occurrence, emits the replacement and continues after that occurrence; without an occurrence the name is unchanged |
| `Text.ReplaceAllGrows` | src/ir-normalization/normalizer.py:91-93 | a replacement longer than its pattern lengthens every string the pattern occurs in and never shortens any string |
| `Text.Split` | src/ir-normalization/normalizer.py:108 | `split('_')` gives at least one field, and no field contains the separator |
| `Text.JoinSplit` | src/ir-normalization/normalizer.py:108 | joining the fields with the separator gives the string back |
| `Text.SplitJoin` | src/ir-normalization/normalizer.py:108 | separator-free fields, joined and then split, come back unchanged |
| `Paths.Basename` | src/ir-normalization/normalizer.py:108 | the basename is the separator-free suffix after the last `/`: either the whole path or directly preceded by `/` |
| `Paths.JoinPath` | src/ir-normalization/normalizer.py:95-96 | `os.path.join`: the joined path ends with the name, and for a relative name it starts with the directory |
| `Paths.BasenameOfJoin` | src/ir-normalization/normalizer.py:95-96 | the basename of a directory joined with a `/`-free name is that name |
| `Pipeline.ProcessFile` | src/ir-normalization/normalizer.py:167-189 | gives an output exactly when the file name has a camera field; then the samples are normalized with that camera's bounds for the row count, and each fits the output depth. The output is a new array. A failed file has no output |
| `Pipeline.PortCameraExample` | src/ir-normalization/normalizer.py:135-138 | `<x>_P_<y>_16BIT.PNG` comes from a P camera; at 512 rows in 8-bit mode, 53500 maps to 0 and 56500 to 255 |
| `Pipeline.CenterCameraMidpointExample` | src/ir-normalization/normalizer.py:144-146 | for C the bounds are (50500, 58500), and the midpoint 54500 maps to 127 (8-bit) and 32767 (16-bit) |
| `Pipeline.UnknownCameraExample` | src/ir-normalization/normalizer.py:110-117 | `<x>_<y>_16BIT.PNG` with no camera field has no position, so the file fails instead of using default bounds |

## Left out

- `parse_arguments` (lines 43-74): command-line parsing.
- `os.listdir` in `curate_files` (line 87): the listing is a parameter. Listing entries are assumed not to contain `/`, as directory entries never do.
- Image I/O in `process_file` (lines 168 and 171-185): decoding, encoding and writing files. The decoded samples and the row count (`shape[0]`) are parameters of `ProcessFile`. Codec errors, which the same `except` would catch, are not modelled.
- Progress and ETA reporting in `process_file` (lines 157-165): wall-clock time, floating-point ETA arithmetic and a lock shared across processes.
- `main` (lines 192-217): the worker pool, the fan-out over files and the final count of successes.
- Every `print` (warnings, errors, progress).
- Floating-point rounding in `lin_normalize_image`. The model computes the exact floor of the rational scaled ratio. Floating point is not modelled. For integer samples and bounds, the double-precision formula gives the same level as the exact floor; this is not proved here.
- The element type of the decoded array. The model subtracts on unbounded integers. If the codec delivered an unsigned 16-bit array, `image_array - bottom` would wrap around for samples below `bottom`.
- `LinNormalizeImage`: requires `bottom < top` after defaulting. With equal bounds the source divides by zero and yields inf/nan rather than a defined result. Explicit bounds with `bottom > top` are excluded too, although the source would map them in reverse (with bottom 10 and top 0, the sample 0 gives 255). No caller passes such bounds: every row of the scaling table has `bottom < top`. With either bound omitted the model also requires a non-empty image, because `np.min` (line 28) and `np.max` (line 30) each fail on an empty one.
