# Watermark pipeline model

A Dafny model of the two per-pixel image transforms of the `add-watermark`
scripts and of the naming logic of their batch loop:

- **Brightness step** (`increase_brightness`): after the image is split into
  hue, saturation and value planes, the V plane is raised in place by two
  masked assignments — every `v > lim` (with `lim = 255 - value`) becomes 255,
  then every `v <= lim` gets `value` added — and H, S and the new V are
  merged. Modelled in `brightness.dfy` as in-place passes over an
  `array2<Byte>`, specified by the per-pixel function `Brighten`.
- **Watermark blend** (`add_transparent_watermark`): the 4-channel overlay is
  split into colour and alpha, the inverse mask `255 - alpha` weights both the
  base colour and the overlay colour, the two are summed, rescaled to 0..255
  and cast to uint8. Modelled in `blend.dfy` as a pure function over rows of
  pixels. Each output channel is proved to be the truncation of the exact
  value of the float pipeline, `(c + m) * (255 - alpha) / 255`.
- **Batch naming** (`main` in `add_wm.py`): the file list is gathered pattern
  by pattern (`*.png`, `*.jpg`, `*.jpeg`), and file k is written to
  `./{dir}/{k}-{image_name}`, where `image_name` is the text after the last
  backslash of the path. Modelled in `naming.dfy` with the directory listing
  as a parameter.

`addWatermark.py` holds the same two transforms as `add_wm.py`
(`increase_brightness` at lines 5-24, `add_transparent_watermark` at lines
27-54); one model serves both files. `pixels.dfy` holds the shared types:
`Byte` (0..255), `Bgr` and `Bgra` pixels, planes and rasters as sequences of
rows.

The model follows the code where a description of the intended behaviour
could read otherwise:

- The blend truncates (`np.uint8` of a float); it neither rounds nor clamps.
  The model truncates and requires that the pre-cast value be below 256.
- The blend has no dimension check: it relies on its callers passing images of
  one resolution, as its docstring says. The model makes this a precondition
  (`CanComposite`), not an error result.
- The blend weights the overlay colour by `255 - alpha`, as the base, not by
  `alpha` as a conventional "over" composite would: a fully opaque overlay
  pixel gives black. The model keeps this.
- The brightness step mutates the V plane obtained from `cv2.split`, a copy,
  so the caller's image is not changed; the model mutates the V array in
  place, as the code does.

## Model

| member | source | states |
|---|---|---|
| Brightness.Brighten | add_wm.py:32-34 | the new V of a pixel after both masked assignments is the saturating sum: at least `v`, at most `v + value`, and either `v + value` or 255 |
| Brightness.BrightenPlane | add_wm.py:30-34 | the V plane after the step keeps its shape; every pixel lies between `v` and `v + value` and is either `v + value` or 255, so a pixel at or below `lim` becomes exactly `v + value` and one above it becomes 255 |
| Brightness.ClampedPixelStaysAtCeiling | add_wm.py:32-33 | a pixel with `v > 255 - value` ends at exactly 255 |
| Brightness.ClampedPixelNotIncremented | add_wm.py:33-34 | with `value > 0`, a pixel set to 255 by the first assignment is above `lim`, so the second assignment leaves it at 255 |
| Brightness.UnclampedPixelGetsFullStep | addWatermark.py:18-20 | a pixel with `v <= 255 - value` ends at exactly `v + value`, which is at most 255 (no wrap-around) |
| Brightness.BrightenIsSaturatingAdd | add_wm.py:32-34 | the two-assignment update equals min(v + value, 255) |
| Brightness.ZeroStepIsIdentity | addWatermark.py:16-22 | with `value = 0`, `lim` is 255 and the V plane is left unchanged |
| Brightness.BrightenMonotoneInValue | add_wm.py:19-34 | a larger step never gives a darker pixel |
| Brightness.BrightenMonotoneInPixel | add_wm.py:32-34 | a brighter input pixel never gives a darker output pixel |
| Brightness.ClampPass | add_wm.py:33 | `v[v > lim] = 255` done in place: every element becomes `ClampAbove` of its old value |
| Brightness.AddPass | add_wm.py:34 | `v[v <= lim] += value` done in place: every element becomes `AddAtOrBelow` of its old value |
| Brightness.IncreaseBrightness | add_wm.py:29-38 | after both passes every V element is `Brighten` of its old value, and the merged planes are the untouched H and S with the brightened V |
| Blend.ExactBlendIsWeightedSum | add_wm.py:64-68 | the float pipeline `base*(1/255)*w*(1/255)*255 + wm*(1/255)*w*(1/255)*255` equals `(base + wm) * w / 255` in exact arithmetic |
| Blend.DivIsTruncation | add_wm.py:68 | integer division by 255 is the uint8 truncation of the real quotient, when that quotient is below 256 |
| Blend.BlendChannel | add_wm.py:57-68 | an output channel is the truncation of the exact pre-cast value with weight `255 - alpha` |
| Blend.BlendPixel | add_wm.py:53-68 | the overlay pixel is split into colour and alpha, and all three output channels are truncations of the exact blend with the one weight `255 - alpha` |
| Blend.Composite | add_wm.py:41-68 | the output has the inputs' resolution, and every pixel's three channels are truncations of the exact blend with the one weight `255 - alpha` of that overlay pixel |
| Blend.TruncationIsUnique | add_wm.py:68 | the truncated value is determined by the pre-cast value |
| Blend.OpaqueChannelIsBlack | add_wm.py:57-68 | where alpha is 255 the output channel is 0 whatever the colours |
| Blend.TransparentChannelIsSum | add_wm.py:57-68 | where alpha is 0 the output channel is `base + wm`, not `base` alone |
| Blend.MoreOpaqueIsDarker | addWatermark.py:43-54 | a more opaque overlay pixel never gives a brighter output: the overlay colour is weighted by `255 - alpha`, not by `alpha` |
| Blend.OpaqueOverlayGivesBlack | addWatermark.py:39-54 | an overlay opaque everywhere yields an all-black image |
| Blend.ClearOverlayIsIdentity | add_wm.py:53-68 | an overlay transparent and black everywhere leaves the base unchanged |
| Blend.WhiteUnderHalfBlue | add_wm.py:57-68 | a white base under a blue overlay pixel with alpha 128 gives (254, 127, 127) |
| Naming.GrabFiles | add_wm.py:74-77 | the file list is the `.png` matches, then the `.jpg` matches, then the `.jpeg` matches of `./{dir}/` |
| Naming.Decimal | add_wm.py:110 | `str(count)`: at least one digit, only digits, no leading zero |
| Naming.DecimalRoundTrip | add_wm.py:110 | reading back the digits of `str(count)` gives `count` |
| Naming.DecimalInjective | add_wm.py:110 | different counter values give different decimal strings |
| Naming.AfterLastBackslash | add_wm.py:107 | `i.rsplit('\\', 1)[-1]` is never longer than the path; `AfterLastBackslashIsLastSegment` characterises it fully |
| Naming.AfterLastBackslashIsLastSegment | add_wm.py:107 | `rsplit('\\', 1)[-1]` is a suffix of the path with no backslash that is the whole path or follows a backslash |
| Naming.LastSegmentIsUnique | add_wm.py:107 | that description determines the image name |
| Naming.NoBackslashKeepsWholePath | add_wm.py:107 | a path with no backslash is kept whole as the image name |
| Naming.OutputNameParts | add_wm.py:107-110 | the name `f"{count}-{image_name}"` reads as digits denoting `count` with no leading zero, a dash, then the last backslash-separated segment of the input path |
| Naming.OutputNamesDiffer | add_wm.py:110 | `{k1}-{a}` and `{k2}-{b}` differ whenever `k1 != k2`, whatever the image names |
| Naming.OutputPathIsJoin | add_wm.py:106-110 | the output path equals `os.path.join(curr_path, name)` modelled in full (`PathJoin`): the name starts with a digit, so it is relative, and `curr_path` ends in `/`, so the join is plain concatenation |
| Naming.OutputPathsDiffer | add_wm.py:106-110 | output paths in one directory differ whenever their counter values differ |
| Naming.Plan | add_wm.py:79-111 | the jobs of a batch, one per input file in processing order (its length is the number of files); `PlanAt` gives job k |
| Naming.PlanAt | add_wm.py:79-111 | in a batch, job k reads file k and writes `./{dir}/{k}-{image_name}` |
| Naming.PlanOutputsDistinct | add_wm.py:79-111 | no two files of a batch are written to the same path |
| Naming.NameOutputs | add_wm.py:79-111 | the counter starts at 0 and rises by one per file, ending at the number of files; file k is written under counter value k; outputs are pairwise distinct |

## Left out

- The colour conversions `cv2.cvtColor` (BGR to HSV, HSV to BGR, GRAY to BGR) are library code with their own rounding; the H, S and V planes are inputs of the model and the broadcast of the mask to three channels is the use of one alpha for all three channels.
- `cv2.resize` with area interpolation to the 756 by 756 canvas is library numerics and is not modelled; the blend takes images already of one resolution.
- File I/O (`cv2.imread`, `cv2.imwrite`, `cv2.imshow`, `cv2.waitKey`), the progress `print` calls and `docopt` argument parsing are not modelled; `glob.glob` is a parameter of `GrabFiles`, and its enumeration order is whatever that parameter returns.
- The per-file pipeline in `main` (load, brighten, resize, blend, write) and the `__main__` block of `addWatermark.py` are compositions of the modelled transforms with the library calls above and are not modelled as one operation.
- Blend.BlendChannel: computes in exact arithmetic; float64 products with `1/255.0` can land just below an integer, so the source may give one less at such boundaries.
- Blend.Composite: requires the pre-cast value of every channel to be below 256; the source casts larger values (up to 510, for a white base under a white, transparent overlay) with NumPy's float to uint8 conversion, which is not defined for them.
- Brightness.IncreaseBrightness: `value` is restricted to 0..255; the source accepts any Python integer, where NumPy's out-of-range integer rules apply.
- Naming.NameOutputs: assumes every file loads and is processed; in the source, `cv2.imread` returns None for a file it cannot read, `increase_brightness` then raises inside `cv2.cvtColor`, the exception ends the batch, later files get no output and `count` stops below the number of files.
- Naming.PathJoin models POSIX `os.path.join`; the Windows form also treats drive letters and backslashes specially, which cannot affect a name that starts with a digit joined to a directory ending in `/`.
