/** The colour legend, the first-nearest classification rule, the per-pixel loop over a
    decoded image and the mean of the per-pixel values. */
module Classifier {
  import opened Colors

  /** One legend entry: a reference colour and the concentration it stands for (µg/m³). */
  datatype Entry = Entry(color: Rgb, value: int)

  /** A legend, in declaration order (the insertion order of the program's dictionary). */
  type Legend = seq<Entry>

  /** Why an average could not be computed: the image has no pixel, or its channel axis
      cannot be combined with a three-channel reference colour. */
  datatype Error = EmptyImage | ShapeMismatch

  datatype Result<T> = Ok(value: T) | Err(error: Error)

  /** Dictionary keys are distinct. */
  predicate DistinctColors(legend: Legend) {
    forall i, j :: 0 <= i < j < |legend| ==> legend[i].color != legend[j].color
  }

  function Dist(legend: Legend, i: nat, rgb: Rgb): (d: nat)
    requires i < |legend|
  {
    ColorDistanceSquared(legend[i].color, rgb)
  }

  /** Entry i is at minimal distance from rgb among the first n entries, and every entry
      before it is strictly farther: the first minimum. */
  ghost predicate IsFirstNearestIn(legend: Legend, rgb: Rgb, n: nat, i: nat)
    requires n <= |legend|
  {
    && i < n
    && (forall j :: 0 <= j < n ==> Dist(legend, i, rgb) <= Dist(legend, j, rgb))
    && (forall j :: 0 <= j < i ==> Dist(legend, i, rgb) < Dist(legend, j, rgb))
  }

  ghost predicate IsFirstNearest(legend: Legend, rgb: Rgb, i: nat) {
    IsFirstNearestIn(legend, rgb, |legend|, i)
  }

  /** The left-to-right scan of a minimum by key over the first n entries: a later
      entry replaces the best one so far only when it is strictly nearer. */
  function NearestIn(legend: Legend, rgb: Rgb, n: nat): (i: nat)
    requires 0 < n <= |legend|
    ensures IsFirstNearestIn(legend, rgb, n, i)
  {
    if n == 1 then 0
    else
      var best := NearestIn(legend, rgb, n - 1);
      if Dist(legend, n - 1, rgb) < Dist(legend, best, rgb) then n - 1 else best
  }

  /** Index of the legend colour nearest to rgb, ties going to the earliest entry. */
  function Nearest(legend: Legend, rgb: Rgb): (i: nat)
    requires |legend| > 0
    ensures IsFirstNearest(legend, rgb, i)
  {
    NearestIn(legend, rgb, |legend|)
  }

  /** The first-nearest entry is unique, so the rule is deterministic. */
  lemma FirstNearestUnique(legend: Legend, rgb: Rgb, i: nat, j: nat)
    requires IsFirstNearest(legend, rgb, i) && IsFirstNearest(legend, rgb, j)
    ensures i == j
  {
    var di, dj := Dist(legend, i, rgb), Dist(legend, j, rgb);
    assert di <= dj && dj <= di;
  }

  /** The concentration of the nearest legend colour. */
  function Classify(legend: Legend, rgb: Rgb): (v: int)
    requires |legend| > 0
    ensures exists i: nat :: IsFirstNearest(legend, rgb, i) && v == legend[i].value
  {
    legend[Nearest(legend, rgb)].value
  }

  /** A colour that is itself a key of a legend with distinct keys gets that key's value. */
  lemma ClassifyExactColor(legend: Legend, k: nat)
    requires k < |legend| && DistinctColors(legend)
    ensures Nearest(legend, legend[k].color) == k
    ensures Classify(legend, legend[k].color) == legend[k].value
  {
    var rgb := legend[k].color;
    var i := Nearest(legend, rgb);
    assert Dist(legend, k, rgb) == 0;
    assert Dist(legend, i, rgb) == 0;
    assert legend[i].color == rgb;
  }

  /** Smallest and largest concentration of a legend. */
  function MinValue(legend: Legend): (m: int)
    requires |legend| > 0
    ensures forall i :: 0 <= i < |legend| ==> m <= legend[i].value
    ensures exists i :: 0 <= i < |legend| && legend[i].value == m
  {
    if |legend| == 1 then legend[0].value
    else
      var rest := MinValue(legend[1..]);
      assert forall i :: 1 <= i < |legend| ==> legend[i] == legend[1..][i - 1];
      if legend[0].value <= rest then legend[0].value else rest
  }

  function MaxValue(legend: Legend): (m: int)
    requires |legend| > 0
    ensures forall i :: 0 <= i < |legend| ==> legend[i].value <= m
    ensures exists i :: 0 <= i < |legend| && legend[i].value == m
  {
    if |legend| == 1 then legend[0].value
    else
      var rest := MaxValue(legend[1..]);
      assert forall i :: 1 <= i < |legend| ==> legend[i] == legend[1..][i - 1];
      if legend[0].value >= rest then legend[0].value else rest
  }

  /** Every classification lies between the legend's extreme values. */
  lemma ClassifyBounds(legend: Legend, rgb: Rgb)
    requires |legend| > 0
    ensures MinValue(legend) <= Classify(legend, rgb) <= MaxValue(legend)
  {
  }

  // ---------------------------------------------------------------------------
  // The image and the row-major sequence of per-pixel values

  /** A channel count the distance computation accepts: the first three channels are
      taken, and a single channel is broadcast against the three of a reference colour.
      Zero or two channels cannot be broadcast. */
  predicate Broadcastable(channels: nat) {
    channels == 1 || 3 <= channels
  }

  /** The colour of pixel (y, x) as the distance computation sees it: its first three
      channels, any further channel (alpha) ignored, or its one value on all three. */
  function PixelRgb(image: array3<Byte>, y: nat, x: nat): (rgb: Rgb)
    reads image
    requires y < image.Length0 && x < image.Length1 && Broadcastable(image.Length2)
  {
    if image.Length2 == 1 then Rgb(image[y, x, 0], image[y, x, 0], image[y, x, 0])
    else Rgb(image[y, x, 0], image[y, x, 1], image[y, x, 2])
  }

  /** A pixel colour is three 8-bit values led by the pixel's first channel; a one-channel
      pixel is grey, and with three or more channels the colour fixes channels 0 to 2. */
  lemma PixelColorChannels(image: array3<Byte>, y: nat, x: nat)
    requires y < image.Length0 && x < image.Length1 && Broadcastable(image.Length2)
    ensures var rgb := PixelRgb(image, y, x);
      && 0 <= rgb.r < 256 && 0 <= rgb.g < 256 && 0 <= rgb.b < 256
      && rgb.r == image[y, x, 0]
      && (image.Length2 == 1 ==> rgb.r == rgb.g == rgb.b)
      && (3 <= image.Length2 ==> rgb.g == image[y, x, 1] && rgb.b == image[y, x, 2])
  {
  }

  /** Colours of the first n pixels of row y, left to right. */
  function RowColors(image: array3<Byte>, y: nat, n: nat): (row: seq<Rgb>)
    reads image
    requires y < image.Length0 && n <= image.Length1 && Broadcastable(image.Length2)
  {
    if n == 0 then [] else RowColors(image, y, n - 1) + [PixelRgb(image, y, n - 1)]
  }

  /** Colours of the pixels of the first m rows, top to bottom. */
  function RowsColors(image: array3<Byte>, m: nat): (rows: seq<Rgb>)
    reads image
    requires m <= image.Length0 && Broadcastable(image.Length2)
  {
    if m == 0 then [] else RowsColors(image, m - 1) + RowColors(image, m - 1, image.Length1)
  }

  /** The colours of all pixels in row-major order. */
  function PixelColors(image: array3<Byte>): (colors: seq<Rgb>)
    reads image
    requires Broadcastable(image.Length2)
  {
    RowsColors(image, image.Length0)
  }

  /** The classification of each colour, position by position. */
  function ClassifyAll(legend: Legend, colors: seq<Rgb>): (vs: seq<int>)
    requires |legend| > 0
  {
    seq(|colors|, i requires 0 <= i < |colors| => Classify(legend, colors[i]))
  }

  /** The per-pixel values of the whole image in row-major order. */
  function Classifications(legend: Legend, image: array3<Byte>): (no2Values: seq<int>)
    reads image
    requires |legend| > 0 && Broadcastable(image.Length2)
  {
    ClassifyAll(legend, PixelColors(image))
  }

  lemma {:induction false} RowColorsAt(image: array3<Byte>, y: nat, n: nat)
    requires y < image.Length0 && n <= image.Length1 && Broadcastable(image.Length2)
    ensures |RowColors(image, y, n)| == n
    ensures forall x :: 0 <= x < n ==> RowColors(image, y, n)[x] == PixelRgb(image, y, x)
  {
    if n > 0 {
      RowColorsAt(image, y, n - 1);
    }
  }

  lemma {:induction false} RowsColorsLength(image: array3<Byte>, m: nat)
    requires m <= image.Length0 && Broadcastable(image.Length2)
    ensures |RowsColors(image, m)| == m * image.Length1
  {
    if m > 0 {
      RowsColorsLength(image, m - 1);
      RowColorsAt(image, m - 1, image.Length1);
      NextRowStart(m - 1, image.Length1);
    }
  }

  lemma {:induction false} RowsColorsAt(image: array3<Byte>, m: nat, y: nat, x: nat)
    requires m <= image.Length0 && Broadcastable(image.Length2)
    requires y < m && x < image.Length1
    ensures y * image.Length1 + x < |RowsColors(image, m)|
    ensures RowsColors(image, m)[y * image.Length1 + x] == PixelRgb(image, y, x)
  {
    var w := image.Length1;
    RowsColorsLength(image, m - 1);
    RowColorsAt(image, m - 1, w);
    NextRowStart(m - 1, w);
    RowMajorIndex(y, x, m - 1, w);
    var prefix, last := RowsColors(image, m - 1), RowColors(image, m - 1, w);
    if y < m - 1 {
      RowsColorsAt(image, m - 1, y, x);
      IndexLeft(prefix, last, y * w + x);
    } else {
      IndexRight(prefix, last, x);
    }
  }

  lemma IndexLeft<T>(p: seq<T>, q: seq<T>, i: nat)
    requires i < |p|
    ensures i < |p + q| && (p + q)[i] == p[i]
  {
  }

  lemma IndexRight<T>(p: seq<T>, q: seq<T>, j: nat)
    requires j < |q|
    ensures |p| + j < |p + q| && (p + q)[|p| + j] == q[j]
  {
  }

  lemma NextRowStart(m: nat, w: nat)
    ensures m * w + w == (m + 1) * w
  {
  }

  /** Pixel (y, x) lies in the rows before row m when y < m, and at offset x into row m
      when y == m. */
  lemma RowMajorIndex(y: nat, x: nat, m: nat, w: nat)
    requires y <= m && x < w
    ensures y < m ==> y * w + x < m * w
    ensures y == m ==> y * w + x == m * w + x
  {
    if y < m {
      assert (y + 1) * w <= m * w;
    }
  }

  /** Every colour in the sequence is the colour of some pixel of the first m rows. */
  lemma {:induction false} RowsColorsElement(image: array3<Byte>, m: nat, i: nat)
    requires m <= image.Length0 && Broadcastable(image.Length2)
    requires i < |RowsColors(image, m)|
    ensures exists y: nat, x: nat :: y < m && x < image.Length1 && RowsColors(image, m)[i] == PixelRgb(image, y, x)
  {
    var prefix, last := RowsColors(image, m - 1), RowColors(image, m - 1, image.Length1);
    RowColorsAt(image, m - 1, image.Length1);
    if i < |prefix| {
      RowsColorsElement(image, m - 1, i);
    } else {
      var x: nat := i - |prefix|;
      assert RowsColors(image, m)[i] == last[x];
    }
  }

  /** The sequence holds one value per pixel. */
  lemma ClassificationsLength(legend: Legend, image: array3<Byte>)
    requires |legend| > 0 && Broadcastable(image.Length2)
    ensures |Classifications(legend, image)| == image.Length0 * image.Length1
  {
    RowsColorsLength(image, image.Length0);
  }

  /** Entry y*W + x is the classification of pixel (y, x). */
  lemma ClassificationAt(legend: Legend, image: array3<Byte>, y: nat, x: nat)
    requires |legend| > 0 && Broadcastable(image.Length2)
    requires y < image.Length0 && x < image.Length1
    ensures y * image.Length1 + x < |Classifications(legend, image)|
    ensures Classifications(legend, image)[y * image.Length1 + x] == Classify(legend, PixelRgb(image, y, x))
  {
    var i := y * image.Length1 + x;
    RowsColorsAt(image, image.Length0, y, x);
    assert PixelColors(image)[i] == PixelRgb(image, y, x);
  }

  /** Two images that agree on their first three channels get the same classifications:
      any channel beyond the third plays no part. */
  lemma ClassificationsIgnoreExtraChannels(legend: Legend, a: array3<Byte>, b: array3<Byte>)
    requires |legend| > 0 && 3 <= a.Length2 && 3 <= b.Length2
    requires a.Length0 == b.Length0 && a.Length1 == b.Length1
    requires forall y, x, c :: 0 <= y < a.Length0 && 0 <= x < a.Length1 && 0 <= c < 3 ==> a[y, x, c] == b[y, x, c]
    ensures Classifications(legend, a) == Classifications(legend, b)
  {
    forall y, x | 0 <= y < a.Length0 && 0 <= x < a.Length1
      ensures PixelRgb(a, y, x) == PixelRgb(b, y, x)
    {
      assert a[y, x, 0] == b[y, x, 0] && a[y, x, 1] == b[y, x, 1] && a[y, x, 2] == b[y, x, 2];
    }
    RowsColorsPrefix(a, b, a.Length0);
  }

  /** The first m rows of a and b hold the same colours when their pixels agree. */
  lemma {:induction false} RowsColorsPrefix(a: array3<Byte>, b: array3<Byte>, m: nat)
    requires Broadcastable(a.Length2) && Broadcastable(b.Length2)
    requires m <= a.Length0 <= b.Length0 && a.Length1 == b.Length1
    requires forall y, x :: 0 <= y < a.Length0 && 0 <= x < a.Length1 ==> PixelRgb(a, y, x) == PixelRgb(b, y, x)
    ensures RowsColors(a, m) == RowsColors(b, m)
  {
    if m > 0 {
      RowsColorsPrefix(a, b, m - 1);
      RowColorsAgree(a, b, m - 1, m - 1, a.Length1);
    }
  }

  /** Row ya of a and row yb of b hold the same colours when their pixels agree. */
  lemma {:induction false} RowColorsAgree(a: array3<Byte>, b: array3<Byte>, ya: nat, yb: nat, n: nat)
    requires Broadcastable(a.Length2) && Broadcastable(b.Length2)
    requires ya < a.Length0 && yb < b.Length0 && n <= a.Length1 == b.Length1
    requires forall x :: 0 <= x < a.Length1 ==> PixelRgb(a, ya, x) == PixelRgb(b, yb, x)
    ensures RowColors(a, ya, n) == RowColors(b, yb, n)
  {
    if n > 0 {
      RowColorsAgree(a, b, ya, yb, n - 1);
    }
  }

  /** The rows of b after its first h rows repeat the rows of a. */
  lemma {:induction false} RowsColorsStacked(a: array3<Byte>, b: array3<Byte>, m: nat)
    requires Broadcastable(a.Length2) && Broadcastable(b.Length2)
    requires b.Length0 == 2 * a.Length0 && a.Length1 == b.Length1 && m <= a.Length0
    requires forall y, x :: 0 <= y < a.Length0 && 0 <= x < a.Length1 ==> PixelRgb(b, y, x) == PixelRgb(a, y, x)
    requires forall y, x :: 0 <= y < a.Length0 && 0 <= x < a.Length1 ==> PixelRgb(b, a.Length0 + y, x) == PixelRgb(a, y, x)
    ensures RowsColors(b, a.Length0 + m) == RowsColors(a, a.Length0) + RowsColors(a, m)
  {
    var h := a.Length0;
    if m == 0 {
      RowsColorsPrefix(a, b, h);
    } else {
      RowsColorsStacked(a, b, m - 1);
      RowColorsAgree(a, b, m - 1, h + m - 1, a.Length1);
    }
  }

  lemma ClassifyAllConcat(legend: Legend, p: seq<Rgb>, q: seq<Rgb>)
    requires |legend| > 0
    ensures ClassifyAll(legend, p + q) == ClassifyAll(legend, p) + ClassifyAll(legend, q)
  {
  }

  /** An image made of two copies of another, one above the other, doubles every pixel
      classification and has the same average. */
  lemma StackedImageSameAverage(legend: Legend, a: array3<Byte>, b: array3<Byte>)
    requires |legend| > 0 && Broadcastable(a.Length2) && Broadcastable(b.Length2)
    requires 0 < a.Length0 && 0 < a.Length1
    requires b.Length0 == 2 * a.Length0 && a.Length1 == b.Length1
    requires forall y, x :: 0 <= y < a.Length0 && 0 <= x < a.Length1 ==> PixelRgb(b, y, x) == PixelRgb(a, y, x)
    requires forall y, x :: 0 <= y < a.Length0 && 0 <= x < a.Length1 ==> PixelRgb(b, a.Length0 + y, x) == PixelRgb(a, y, x)
    ensures multiset(Classifications(legend, b)) == multiset(Classifications(legend, a)) + multiset(Classifications(legend, a))
    ensures Mean(Classifications(legend, b)) == Mean(Classifications(legend, a))
  {
    RowsColorsStacked(a, b, a.Length0);
    ClassifyAllConcat(legend, PixelColors(a), PixelColors(a));
    ClassificationsLength(legend, a);
    var s := Classifications(legend, a);
    assert Classifications(legend, b) == s + s;
    MeanOfDoubled(s, s + s);
  }

  // ---------------------------------------------------------------------------
  // The per-pixel loop

  /** Visits every pixel once, rows top to bottom and pixels left to right, classifies its
      colour (see PixelRgb) and appends the value. The image is only read: the method has
      no modifies clause. */
  method ClassifyPixels(legend: Legend, image: array3<Byte>) returns (no2Values: seq<int>)
    requires |legend| > 0 && Broadcastable(image.Length2)
    ensures no2Values == Classifications(legend, image)
    ensures |no2Values| == image.Length0 * image.Length1
  {
    no2Values := [];
    var y := 0;
    while y < image.Length0
      invariant 0 <= y <= image.Length0
      invariant no2Values == ClassifyAll(legend, RowsColors(image, y))
    {
      var x := 0;
      ghost var done := RowsColors(image, y);
      while x < image.Length1
        invariant 0 <= x <= image.Length1
        invariant no2Values == ClassifyAll(legend, done + RowColors(image, y, x))
      {
        var rgb := if image.Length2 == 1 then Rgb(image[y, x, 0], image[y, x, 0], image[y, x, 0])
                   else Rgb(image[y, x, 0], image[y, x, 1], image[y, x, 2]);
        var no2Value := Classify(legend, rgb);
        assert rgb == PixelRgb(image, y, x);
        PixelStep(legend, image, y, x);
        no2Values := no2Values + [no2Value];
        x := x + 1;
      }
      assert done + RowColors(image, y, x) == RowsColors(image, y + 1);
      y := y + 1;
    }
    ClassificationsLength(legend, image);
  }

  /** One step of the inner loop: visiting pixel (y, x) appends its classification. */
  lemma PixelStep(legend: Legend, image: array3<Byte>, y: nat, x: nat)
    requires |legend| > 0 && Broadcastable(image.Length2)
    requires y < image.Length0 && x < image.Length1
    ensures ClassifyAll(legend, RowsColors(image, y) + RowColors(image, y, x + 1))
         == ClassifyAll(legend, RowsColors(image, y) + RowColors(image, y, x)) + [Classify(legend, PixelRgb(image, y, x))]
  {
    var seen := RowsColors(image, y) + RowColors(image, y, x);
    assert seen + [PixelRgb(image, y, x)] == RowsColors(image, y) + RowColors(image, y, x + 1);
    ClassifyAllAppend(legend, seen, PixelRgb(image, y, x));
  }

  lemma ClassifyAllAppend(legend: Legend, colors: seq<Rgb>, c: Rgb)
    requires |legend| > 0
    ensures ClassifyAll(legend, colors + [c]) == ClassifyAll(legend, colors) + [Classify(legend, c)]
  {
  }

  // ---------------------------------------------------------------------------
  // The mean

  /** The total of the values. */
  function Sum(s: seq<int>): (total: int) {
    if s == [] then 0 else Sum(s[..|s| - 1]) + s[|s| - 1]
  }

  /** The exact arithmetic mean of a non-empty sequence: the one number that, taken once
      for every value, adds up to the sum. */
  function Mean(s: seq<int>): (m: real)
    requires |s| > 0
    ensures m * |s| as real == Sum(s) as real
  {
    Sum(s) as real / |s| as real
  }

  lemma {:induction false} SumConcat(a: seq<int>, b: seq<int>)
    ensures Sum(a + b) == Sum(a) + Sum(b)
  {
    if b != [] {
      SumConcat(a, b[..|b| - 1]);
      assert (a + b)[..|a + b| - 1] == a + b[..|b| - 1];
      assert (a + b)[|a + b| - 1] == b[|b| - 1];
      assert Sum(a + b) == Sum(a + b[..|b| - 1]) + b[|b| - 1];
      assert Sum(b) == Sum(b[..|b| - 1]) + b[|b| - 1];
    } else {
      assert a + b == a;
    }
  }

  lemma {:induction false} SumBounds(s: seq<int>, lo: int, hi: int)
    requires forall i :: 0 <= i < |s| ==> lo <= s[i] <= hi
    ensures |s| * lo <= Sum(s) <= |s| * hi
  {
    if s != [] {
      SumBounds(s[..|s| - 1], lo, hi);
      assert |s| * lo == (|s| - 1) * lo + lo;
      assert |s| * hi == (|s| - 1) * hi + hi;
    }
  }

  lemma {:induction false} SumConstant(s: seq<int>, v: int)
    requires forall i :: 0 <= i < |s| ==> s[i] == v
    ensures Sum(s) == |s| * v
  {
    if s != [] {
      SumConstant(s[..|s| - 1], v);
      assert |s| * v == (|s| - 1) * v + v;
    }
  }

  /** The sum depends only on the multiset of values, not on the traversal order. */
  lemma {:induction false} SumOfMultiset(s: seq<int>, t: seq<int>)
    requires multiset(s) == multiset(t)
    ensures Sum(s) == Sum(t)
  {
    if s != [] {
      var n := |s| - 1;
      var last := s[n];
      assert last in multiset(t) by {
        assert last in s;
      }
      var k :| 0 <= k < |t| && t[k] == last;
      var rest := t[..k] + t[k + 1..];
      MultisetRemove(t, k);
      MultisetRemove(s, n);
      assert s[..n] + s[n + 1..] == s[..n];
      SumOfMultiset(s[..n], rest);
      SumRemove(t, k);
    }
  }

  lemma MultisetRemove(t: seq<int>, k: nat)
    requires k < |t|
    ensures multiset(t[..k] + t[k + 1..]) == multiset(t) - multiset{t[k]}
  {
    SplitAt(t, k);
  }

  lemma SumRemove(t: seq<int>, k: nat)
    requires k < |t|
    ensures Sum(t) == t[k] + Sum(t[..k] + t[k + 1..])
  {
    SplitAt(t, k);
    SumSplit(t[..k], t[k], t[k + 1..]);
  }

  lemma SplitAt(t: seq<int>, k: nat)
    requires k < |t|
    ensures t == (t[..k] + [t[k]]) + t[k + 1..]
  {
    assert t[k..] == [t[k]] + t[k + 1..];
    assert t == t[..k] + t[k..];
  }

  lemma SumSplit(p: seq<int>, c: int, q: seq<int>)
    ensures Sum((p + [c]) + q) == c + Sum(p + q)
  {
    assert Sum([c]) == c by {
      assert [c][..0] == [];
    }
    SumConcat(p + [c], q);
    SumConcat(p, [c]);
    SumConcat(p, q);
  }

  /** The mean lies between any lower and upper bound of the values. */
  lemma MeanBounds(s: seq<int>, lo: int, hi: int)
    requires |s| > 0
    requires forall i :: 0 <= i < |s| ==> lo <= s[i] <= hi
    ensures lo as real <= Mean(s) <= hi as real
  {
    SumBounds(s, lo, hi);
    DivideBounds(Sum(s), |s|, lo, hi);
  }

  lemma DivideBounds(total: int, n: int, lo: int, hi: int)
    requires 0 < n && n * lo <= total <= n * hi
    ensures lo as real <= total as real / n as real <= hi as real
  {
  }

  /** A sequence whose values are all v has mean exactly v. */
  lemma MeanConstant(s: seq<int>, v: int)
    requires |s| > 0
    requires forall i :: 0 <= i < |s| ==> s[i] == v
    ensures Mean(s) == v as real
  {
    SumConstant(s, v);
    assert (|s| * v) as real == |s| as real * v as real;
  }

  /** Reordering the values leaves the mean unchanged. */
  lemma MeanOfPermutation(s: seq<int>, t: seq<int>)
    requires |s| > 0 && multiset(s) == multiset(t)
    ensures |t| == |s| && Mean(t) == Mean(s)
  {
    assert |multiset(s)| == |multiset(t)|;
    SumOfMultiset(s, t);
  }

  /** Doubling the multiset of values leaves the mean unchanged. */
  lemma MeanOfDoubled(s: seq<int>, t: seq<int>)
    requires |s| > 0 && multiset(t) == multiset(s) + multiset(s)
    ensures |t| == 2 * |s| && Mean(t) == Mean(s)
  {
    assert multiset(t) == multiset(s + s);
    assert |multiset(t)| == |multiset(s + s)|;
    SumOfMultiset(t, s + s);
    SumConcat(s, s);
    DoubledRatio(Sum(s), |s|);
  }

  lemma DoubledRatio(total: int, n: int)
    requires n > 0
    ensures (total + total) as real / (2 * n) as real == total as real / n as real
  {
  }

  // ---------------------------------------------------------------------------
  // The pipeline: classify every pixel, then average

  /** The average concentration of an image, or the reason there is none. A zero-pixel
      image has no mean; an image with pixels whose channel count is not broadcastable
      cannot be compared with a reference colour. */
  method AverageConcentration(legend: Legend, image: array3<Byte>) returns (r: Result<real>)
    requires |legend| > 0
    ensures r == Err(EmptyImage) <==> image.Length0 == 0 || image.Length1 == 0
    ensures r == Err(ShapeMismatch) <==> 0 < image.Length0 && 0 < image.Length1 && !Broadcastable(image.Length2)
    ensures r.Ok? <==> 0 < image.Length0 && 0 < image.Length1 && Broadcastable(image.Length2)
    ensures r.Ok? ==> r.value == Mean(Classifications(legend, image))
    ensures r.Ok? ==> MinValue(legend) as real <= r.value <= MaxValue(legend) as real
  {
    if image.Length0 == 0 || image.Length1 == 0 {
      return Err(EmptyImage);
    }
    if !Broadcastable(image.Length2) {
      return Err(ShapeMismatch);
    }
    var no2Values := ClassifyPixels(legend, image);
    assert 0 < image.Length0 * image.Length1;
    forall i | 0 <= i < |no2Values|
      ensures MinValue(legend) <= no2Values[i] <= MaxValue(legend)
    {
      ClassifyBounds(legend, PixelColors(image)[i]);
    }
    MeanBounds(no2Values, MinValue(legend), MaxValue(legend));
    r := Ok(Mean(no2Values));
  }

  /** An image whose every pixel classifies to the same value v averages to exactly v. */
  lemma UniformValueAverage(legend: Legend, image: array3<Byte>, v: int)
    requires |legend| > 0
    requires 0 < image.Length0 && 0 < image.Length1 && Broadcastable(image.Length2)
    requires forall y, x :: 0 <= y < image.Length0 && 0 <= x < image.Length1 ==>
      Classify(legend, PixelRgb(image, y, x)) == v
    ensures Mean(Classifications(legend, image)) == v as real
  {
    ClassificationsLength(legend, image);
    var s := Classifications(legend, image);
    assert 0 < image.Length0 * image.Length1;
    forall i | 0 <= i < |s| ensures s[i] == v {
      RowsColorsElement(image, image.Length0, i);
    }
    MeanConstant(s, v);
  }

  /** An image whose every pixel is exactly the reference colour of entry k averages to
      exactly that entry's value. */
  lemma UniformImageAverage(legend: Legend, image: array3<Byte>, k: nat)
    requires k < |legend| && DistinctColors(legend)
    requires 0 < image.Length0 && 0 < image.Length1 && Broadcastable(image.Length2)
    requires forall y, x :: 0 <= y < image.Length0 && 0 <= x < image.Length1 ==>
      PixelRgb(image, y, x) == legend[k].color
    ensures Mean(Classifications(legend, image)) == legend[k].value as real
  {
    ClassifyExactColor(legend, k);
    UniformValueAverage(legend, image, legend[k].value);
  }
}
