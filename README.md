# AeroSpectra NO₂ legend model

AeroSpectra estimates an average NO₂ concentration (µg/m³) from a colour-coded pollution
map. A fixed legend maps four reference colours to concentrations: red 100, green 50,
blue 10 and yellow 75. Each pixel of the decoded image gets the concentration of the
legend colour nearest to it in Euclidean RGB distance. The result is the mean of these
per-pixel values. The pipeline appears twice. `app.py` is the Flask web application and
also validates the upload's filename. `sihhh.py` is the desktop script.

The model has four modules:

- `Colors` (colors.dfy): RGB triples and the squared colour distance.
- `Classifier` (classifier.dfy): the part of the pipeline both front ends share. It holds
  legends, the first-nearest rule that Python's `min(keys, key=distance)` implements,
  the image as a read-only `array3<Byte>` (numpy's H×W×C `uint8` array), and the nested
  row-major loop as a method with loop invariants. It also holds the exact mean and its
  lemmas: bounds, constant sequences, permutations, doubling, and a stacked image.
- `WebApp` (web_app.dfy): `allowed_file`, the legend written inside `rgb_to_no2`, and the
  upload handler's loop and mean, plus a worked 2×2 example.
- `DesktopScript` (desktop_script.dfy): the module-level `color_to_no2` legend, the
  script's `rgb_to_no2`, and its loop and mean. A lemma shows it classifies every colour
  exactly as the web application does.

Design decisions:

- **Squared distance.** Distances are compared squared, as integers. `np.sqrt` is strictly
  increasing, so the nearest colour and the ties are the same. Subtracting a `uint8`
  channel from a legend tuple promotes to numpy's platform integer, 64- or 32-bit; either
  width holds the squares of differences of 8-bit values, so nothing wraps around.
- **Tie-break.** `min` keeps the first of several equally near keys in dictionary insertion
  order. `Classifier.NearestIn` scans the same way: a later entry replaces the best so far
  only when it is strictly nearer.
- **Pixel colour.** The loop takes `image_array[y, x, :3]`, which is compared with a
  three-element legend tuple.
  - With three or more channels, the first three are used and any alpha channel is ignored.
  - With exactly one channel, numpy broadcasts the single value against all three
    components. The pixel is therefore compared as (v, v, v).
  - With zero or two channels, the subtraction raises a broadcasting error. The model
    returns `ShapeMismatch` for this case.
  - This follows the code.
- **Empty image.** A zero-pixel image makes `np.mean([])` return NaN, not raise. The model
  returns `EmptyImage` instead of a NaN.

## Model

| member | source | states |
|---|---|---|
| Colors.ColorDistanceSquared | app.py:17-18 | The distance is a natural number, so never negative. It is zero exactly when the two colours are equal. |
| Colors.ColorDistanceSymmetric | sihhh.py:10-11 | The distance does not depend on argument order. |
| Classifier.NearestIn | app.py:27 | The left-to-right `min` scan over the first n entries returns an entry at minimal distance. Every entry before it is strictly farther, so it is the first minimum. |
| Classifier.Nearest | sihhh.py:15 | The chosen index is the first nearest entry of the whole legend. |
| Classifier.FirstNearestUnique | sihhh.py:15 | There is only one first-nearest entry, so the ties rule is deterministic. |
| Classifier.Classify | app.py:27-28 | The result is the value of the first-nearest legend entry. |
| Classifier.ClassifyExactColor | app.py:21-28 | With distinct keys, a colour that is itself a key selects that key and returns its value. |
| Classifier.MinValue | app.py:21-26 | Lower bound of all legend values, reached by some entry. |
| Classifier.MaxValue | app.py:21-26 | Upper bound of all legend values, reached by some entry. |
| Classifier.ClassifyBounds | app.py:27-28 | Every classification lies between the smallest and largest legend value. |
| Classifier.Broadcastable | app.py:52 | The channel counts the distance computation can combine with a three-element legend colour: one (broadcast) or at least three. Zero or two channels are the `ShapeMismatch` case. |
| Classifier.PixelRgb | app.py:52 | The colour compared for pixel (y, x): channels 0 to 2 of `image_array[y, x, :3]`, or (v, v, v) for a one-channel pixel. Its properties are stated by PixelColorChannels. |
| Classifier.PixelColorChannels | sihhh.py:47 | A pixel colour consists of three 8-bit values and starts with the pixel's channel 0. A one-channel pixel is grey. With three or more channels, the colour is exactly channels 0, 1 and 2. |
| Classifier.RowColorsAt | app.py:51-52 | The first n colours of row y have length n, and position x holds pixel (y, x). |
| Classifier.RowsColorsLength | app.py:50-51 | The first m rows hold m·W colours. |
| Classifier.RowsColorsAt | app.py:50-52 | Position y·W + x of the first m rows holds the colour of pixel (y, x), for y < m. |
| Classifier.RowsColorsElement | app.py:50-52 | Every colour in the row-major sequence is the colour of some pixel. |
| Classifier.Classifications | app.py:49-54 | The row-major list of per-pixel values the loop builds (rows top to bottom, pixels left to right, each classified by its PixelRgb colour). Its layout is stated by ClassificationsLength and ClassificationAt. |
| Classifier.ClassificationsLength | sihhh.py:44-51 | After the loop there are H·W values. |
| Classifier.ClassificationAt | sihhh.py:44-51 | Entry y·W + x exists and is the classification of pixel (y, x), so the loop visits pixels in row-major order. |
| Classifier.ClassificationsIgnoreExtraChannels | app.py:52 | Two images that agree on their first three channels get identical classifications, so alpha plays no part. |
| Classifier.RowsColorsPrefix | app.py:50-52 | Images whose pixel colours agree have the same colours in their first m rows. |
| Classifier.RowColorsAgree | app.py:51-52 | Rows whose pixel colours agree give the same colour sequence. |
| Classifier.RowsColorsStacked | sihhh.py:44-51 | For an image made of two copies of another, stacked vertically, the row-major colours are the original's colours followed by the original's first m rows. |
| Classifier.StackedImageSameAverage | sihhh.py:44-54 | Stacking two copies of an image doubles the multiset of classifications and leaves the average unchanged. |
| Classifier.ClassifyPixels | app.py:49-54 | The nested loop returns exactly the row-major classifications of the image, with H·W entries. The image is only read. |
| Classifier.Sum | app.py:56 | The total of the per-pixel values, the numerator of `np.mean`. Its properties are stated by SumConcat, SumBounds, SumConstant and SumOfMultiset. |
| Classifier.Mean | sihhh.py:54 | The exact mean of a non-empty sequence: the number whose product with the count is the sum. |
| Classifier.SumConcat | app.py:56 | The sum of a concatenation is the sum of its parts. |
| Classifier.SumBounds | app.py:56 | If every value is in [lo, hi], the sum lies between n·lo and n·hi. |
| Classifier.SumConstant | app.py:56 | n copies of v sum to n·v. |
| Classifier.SumOfMultiset | sihhh.py:54 | Two sequences with the same multiset have the same sum. |
| Classifier.MeanBounds | app.py:56 | The mean of values in [lo, hi] lies in [lo, hi]. |
| Classifier.MeanConstant | app.py:56 | A sequence of identical values v has mean exactly v. |
| Classifier.MeanOfPermutation | sihhh.py:54 | Reordering the values leaves the mean unchanged. |
| Classifier.MeanOfDoubled | sihhh.py:54 | Duplicating the multiset of values leaves the mean unchanged. |
| Classifier.AverageConcentration | app.py:49-56 | Returns `EmptyImage` exactly when H or W is zero. Returns `ShapeMismatch` exactly when there are pixels but 0 or 2 channels. Otherwise it returns the exact mean of the row-major classifications, which lies between the legend's minimum and maximum. |
| Classifier.UniformValueAverage | app.py:50-56 | If every pixel classifies to v, the average is exactly v. |
| Classifier.UniformImageAverage | sihhh.py:44-54 | If every pixel is exactly legend colour k, the average is exactly that entry's value. |
| WebApp.AllowedExtensions | app.py:12 | The allowed extensions jpg, jpeg, png, bmp and tiff, in lower case. |
| WebApp.LowerChar | app.py:15 | The lowered character is never an upper-case ASCII letter. A-Z map to the matching a-z, and every other character is unchanged. |
| WebApp.Lower | app.py:15 | Lower-casing keeps the length, and each character becomes its LowerChar image: A-Z the matching a-z, every other character itself. |
| WebApp.LowerHasNoUpper | app.py:15 | A lowered string holds no upper-case ASCII letter. |
| WebApp.LastIndexOf | app.py:15 | Returns the index of the last occurrence of the character. It returns -1 if and only if the character is absent. |
| WebApp.Extension | app.py:15 | The second half of `rsplit('.', 1)`: the text after some '.', containing no '.', so after the last one. |
| WebApp.AllowedFile | app.py:12-15 | True if and only if the name has a '.' that is the last '.' and the lower-cased text after it is one of jpg, jpeg, png, bmp or tiff. |
| WebApp.AllowedFileNeedsDot | app.py:15 | A name without '.' is refused. |
| WebApp.LowerLastIndexOf | app.py:15 | Lower-casing does not move the last '.'. |
| WebApp.LowerKeepsDot | app.py:15 | A name has a '.' exactly when its lowered form has one. |
| WebApp.LowerExtension | app.py:15 | The text after the last '.' of the lowered name is the lowered text after the last '.' of the name. |
| WebApp.LowerIdempotent | app.py:15 | Lower-casing twice is lower-casing once. |
| WebApp.AllowedFileIgnoresCase | app.py:15 | Lower-casing the whole name never changes the verdict. |
| WebApp.AllowedFileUpperCase | app.py:15 | "X.PNG" is accepted. |
| WebApp.AllowedFileLastExtension | app.py:15 | "map.v2.jpeg" is accepted, because only the text after the last '.' counts. |
| WebApp.AllowedFileInnerExtension | app.py:15 | "scan.png.zip" is refused, although it contains ".png". |
| WebApp.AllowedFileNoExtension | app.py:15 | "png" and "scan." are refused. |
| WebApp.No2Legend | app.py:21-26 | The inline dictionary as a sequence in declaration order: red 100, green 50, blue 10, yellow 75. |
| WebApp.RgbToNo2 | app.py:20-28 | Always one of 100, 50, 10 or 75: the value of the first-nearest colour in declaration order. |
| WebApp.RgbToNo2OnLegendColors | app.py:21-28 | Red, green, blue and yellow give 100, 50, 10 and 75. |
| WebApp.RgbToNo2NearRed | app.py:22-28 | (250, 5, 5) gives 100. |
| WebApp.RedGreenTie | app.py:21-27 | (127, 127, 0) is equally far from red and green and nearer to them than to blue or yellow. The tie goes to red, declared first: 100. |
| WebApp.YellowBeatsRedGreen | app.py:21-27 | (128, 128, 0) gives 75: yellow is strictly nearer than red or green. |
| WebApp.NearestOf | app.py:27-28 | If entry k is the first nearest, the function returns entry k's value. |
| WebApp.No2LegendRange | app.py:21-26 | The legend's values range from 10 to 100. |
| WebApp.UploadAverage | app.py:49-56 | Same outcomes as AverageConcentration for this legend. The average lies in [10, 100]. |
| WebApp.TwoByTwoColors | app.py:50-52 | A 2×2 image's colours are (0,0), (0,1), (1,0), (1,1) in that order. |
| WebApp.TwoByTwoClassifications | app.py:50-54 | A 2×2 image of red, red, green and blue classifies to [100, 100, 50, 10]. |
| WebApp.MeanTwoByTwo | app.py:56 | The mean of [100, 100, 50, 10] is 65. |
| WebApp.TwoByTwoExample | app.py:49-56 | The red, red, green, blue 2×2 image averages to exactly 65. |
| DesktopScript.ColorToNo2 | sihhh.py:32-38 | The module-level dictionary as a sequence in insertion order: red 100, green 50, blue 10, yellow 75. |
| DesktopScript.RgbToNo2 | sihhh.py:14-16 | Always one of 100, 50, 10 or 75: the value of a minimum-distance key, ties going to the first inserted. |
| DesktopScript.SameAsWebApp | sihhh.py:32-38 | The script's legend and rule agree with the web application's on every colour. |
| DesktopScript.GreenBlueTie | sihhh.py:32-37 | (0, 127, 127) is equally far from green and blue and farther from the rest. Green, inserted first, wins: 50. |
| DesktopScript.RgbToNo2OnKeys | sihhh.py:32-38 | Every key maps to its own value. |
| DesktopScript.ScriptAverage | sihhh.py:41-54 | Returns `EmptyImage` for a zero-pixel image and `ShapeMismatch` for 0 or 2 channels. Otherwise it returns the exact mean of the row-major classifications, which lies in [10, 100]. |

## Left out

- Flask routing, request checks, `secure_filename`, saving the upload and rendering (app.py:30-47, 68-69 and after): web I/O.
- The tkinter file dialog, `input()`, `image.show()`, `print` and opening Excel (sihhh.py:19-23, 72-75, 104-108): UI, console and OS I/O.
- PIL decoding (`Image.open`, `np.array(image)`): the model starts from a decoded H×W×C array of bytes. Two-dimensional arrays (grayscale, palette and bilevel images) are not modelled. For them, the three-index access in the loop fails before any distance is computed.
- Drawing the average on the image (font loading, text size and placement): cosmetic, and it depends on font metrics.
- The pandas/Excel read-concatenate-write of the result, the place name and `datetime.now()`: file I/O and the clock.
- Floating point: `np.sqrt` is replaced by the squared integer distance, and `np.mean` by an exact rational mean. The rounding of a 64-bit float mean and the `.2f` formatting are not modelled.
- AverageConcentration: for a zero-pixel image the code yields NaN from `np.mean([])`. The model returns `EmptyImage` instead.
- Classifier.Classify: requires a non-empty legend. The program's two legends are fixed four-entry literals, so no empty legend, and no legend-construction error, exists in the code.
- WebApp.RgbToNo2: channels are unbounded integers. numpy squares differences in a 64- or 32-bit platform integer, which wraps for query channels far outside 0..255 (for example 70000 under 32 bits). That overflow is not modelled; the program only passes 8-bit channels, where no width overflows.
- DesktopScript.RgbToNo2: the same unmodelled fixed-width overflow for query channels far outside 0..255.
- WebApp.LowerChar: lowers ASCII letters only, where Python's `str.lower` lowers all of Unicode. Among non-ASCII characters, only KELVIN SIGN lowers to an ASCII letter ('k'), which appears in no allowed extension. Any other non-ASCII character leaves the lowered text non-ASCII. So acceptance is the same.
- Classifier.ClassifyPixels: its ensures ties the result to `Classifications`. The per-pixel layout (entry y·W + x is pixel (y, x)) is stated by `Classifier.ClassificationAt` rather than as a quantified ensures of the method.
