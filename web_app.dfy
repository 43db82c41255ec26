/** The web front end's core: the upload filename check, the legend written inside its
    colour-to-NO₂ function, and the per-pixel loop and mean of the upload handler. */
module WebApp {
  import opened Colors
  import opened Classifier

  /** Extensions accepted for an upload, in lower case. */
  const AllowedExtensions: set<string> := {"jpg", "jpeg", "png", "bmp", "tiff"}

  /** Lower-casing of one character: A-Z become a-z, everything else is unchanged. */
  function LowerChar(c: char): (l: char)
    ensures !('A' <= l <= 'Z')
    ensures !('A' <= c <= 'Z') ==> l == c
    ensures 'A' <= c <= 'Z' ==> 'a' <= l <= 'z' && l as int - 'a' as int == c as int - 'A' as int
  {
    if 'A' <= c <= 'Z' then (c as int + 32) as char else c
  }

  /** Lower-casing of a string, character by character. */
  function Lower(s: string): (low: string)
    ensures |low| == |s|
    ensures forall i :: 0 <= i < |s| ==> low[i] == LowerChar(s[i])
  {
    seq(|s|, i requires 0 <= i < |s| => LowerChar(s[i]))
  }

  /** Position of the last occurrence of c in s, or -1 when c does not occur. */
  function LastIndexOf(s: string, c: char): (k: int)
    ensures -1 <= k < |s|
    ensures k == -1 <==> c !in s
    ensures 0 <= k ==> s[k] == c && forall j :: k < j < |s| ==> s[j] != c
  {
    if s == [] then -1
    else if s[|s| - 1] == c then |s| - 1
    else LastIndexOf(s[..|s| - 1], c)
  }

  /** The text after the last '.', which is the second half of a right split at one '.'. */
  function Extension(filename: string): (ext: string)
    requires '.' in filename
    ensures '.' !in ext
    ensures exists i :: 0 <= i < |filename| && filename[i] == '.' && ext == filename[i + 1..]
  {
    filename[LastIndexOf(filename, '.') + 1..]
  }

  /** A filename is accepted when it has a '.' and the lower-cased text after its last '.'
      is one of the allowed extensions. */
  function AllowedFile(filename: string): (ok: bool)
    ensures ok <==> exists i :: 0 <= i < |filename| && filename[i] == '.'
                     && (forall j :: i < j < |filename| ==> filename[j] != '.')
                     && Lower(filename[i + 1..]) in AllowedExtensions
  {
    '.' in filename && Lower(Extension(filename)) in AllowedExtensions
  }

  /** Without a '.' no filename is accepted. */
  lemma AllowedFileNeedsDot(filename: string)
    requires '.' !in filename
    ensures !AllowedFile(filename)
  {
  }

  lemma {:induction false} LowerLastIndexOf(s: string)
    ensures LastIndexOf(Lower(s), '.') == LastIndexOf(s, '.')
  {
    if s != [] {
      var n := |s| - 1;
      assert Lower(s)[..n] == Lower(s[..n]);
      LowerLastIndexOf(s[..n]);
    }
  }

  lemma LowerIdempotent(s: string)
    ensures Lower(Lower(s)) == Lower(s)
  {
  }

  /** The check ignores case: lower-casing the whole name does not change the verdict. */
  lemma AllowedFileIgnoresCase(filename: string)
    ensures AllowedFile(Lower(filename)) == AllowedFile(filename)
  {
    LowerKeepsDot(filename);
    if '.' in filename {
      LowerExtension(filename);
      LowerIdempotent(Extension(filename));
    }
  }

  lemma LowerKeepsDot(s: string)
    ensures ('.' in Lower(s)) == ('.' in s)
  {
    LowerLastIndexOf(s);
    assert ('.' in Lower(s)) == (LastIndexOf(Lower(s), '.') != -1);
  }

  /** The extension of the lowered name is the lowered extension. */
  lemma LowerExtension(s: string)
    requires '.' in s
    ensures '.' in Lower(s) && Extension(Lower(s)) == Lower(Extension(s))
  {
    LowerKeepsDot(s);
    LowerLastIndexOf(s);
    var k := LastIndexOf(s, '.');
    LowerSuffix(s, k + 1);
    assert Extension(Lower(s)) == Lower(s)[k + 1..];
    assert Extension(s) == s[k + 1..];
  }

  /** A lowered string holds no upper-case ASCII letter. */
  lemma LowerHasNoUpper(s: string)
    ensures forall i :: 0 <= i < |Lower(s)| ==> !('A' <= Lower(s)[i] <= 'Z')
  {
  }

  lemma LowerSuffix(s: string, k: nat)
    requires k <= |s|
    ensures Lower(s)[k..] == Lower(s[k..])
  {
  }

  /** Upper case is accepted. */
  lemma AllowedFileUpperCase()
    ensures AllowedFile("X.PNG")
  {
    assert Lower("PNG") == "png";
  }

  /** Only the text after the last '.' counts. */
  lemma AllowedFileLastExtension()
    ensures AllowedFile("map.v2.jpeg")
  {
    var name := "map.v2.jpeg";
    assert name[6] == '.' && name[7] == 'j' && name[8] == 'p' && name[9] == 'e' && name[10] == 'g';
    assert LastIndexOf(name, '.') == 6;
    assert Extension(name) == "jpeg";
    assert Lower("jpeg") == "jpeg";
  }

  lemma AllowedFileInnerExtension()
    ensures !AllowedFile("scan.png.zip")
  {
    var other := "scan.png.zip";
    assert other[8] == '.' && other[9] == 'z' && other[10] == 'i' && other[11] == 'p';
    assert LastIndexOf(other, '.') == 8;
    assert Extension(other) == "zip";
    assert Lower("zip") == "zip";
    assert "zip" !in AllowedExtensions;
  }

  /** A name without '.' and a name ending in '.' are refused. */
  lemma AllowedFileNoExtension()
    ensures !AllowedFile("png")
    ensures !AllowedFile("scan.")
  {
  }

  // ---------------------------------------------------------------------------
  // Colour to NO₂

  /** Red, green, blue and yellow, in the order the dictionary declares them. */
  const No2Legend: Legend := [
    Entry(Rgb(255, 0, 0), 100),
    Entry(Rgb(0, 255, 0), 50),
    Entry(Rgb(0, 0, 255), 10),
    Entry(Rgb(255, 255, 0), 75)
  ]

  /** The NO₂ concentration of the legend colour nearest to rgb, the earliest declared
      one among equally near colours. */
  function RgbToNo2(rgb: Rgb): (no2: int)
    ensures no2 in {100, 50, 10, 75}
    ensures exists i: nat :: IsFirstNearest(No2Legend, rgb, i) && no2 == No2Legend[i].value
  {
    Classify(No2Legend, rgb)
  }

  /** Each legend colour maps to its own value. */
  lemma RgbToNo2OnLegendColors()
    ensures RgbToNo2(Rgb(255, 0, 0)) == 100
    ensures RgbToNo2(Rgb(0, 255, 0)) == 50
    ensures RgbToNo2(Rgb(0, 0, 255)) == 10
    ensures RgbToNo2(Rgb(255, 255, 0)) == 75
  {
    assert DistinctColors(No2Legend);
    ClassifyExactColor(No2Legend, 0);
    ClassifyExactColor(No2Legend, 1);
    ClassifyExactColor(No2Legend, 2);
    ClassifyExactColor(No2Legend, 3);
  }

  /** A colour close to red resolves to red's value, not by exact lookup. */
  lemma RgbToNo2NearRed()
    ensures RgbToNo2(Rgb(250, 5, 5)) == 100
  {
    NearestOf(Rgb(250, 5, 5), 0);
  }

  /** (127, 127, 0) is equally far from red and green and farther from the rest: the
      tie goes to red, declared first. */
  lemma RedGreenTie()
    ensures ColorDistanceSquared(Rgb(255, 0, 0), Rgb(127, 127, 0)) == ColorDistanceSquared(Rgb(0, 255, 0), Rgb(127, 127, 0))
    ensures RgbToNo2(Rgb(127, 127, 0)) == 100
  {
    var rgb := Rgb(127, 127, 0);
    assert Dist(No2Legend, 0, rgb) == 32513 && Dist(No2Legend, 1, rgb) == 32513;
    assert Dist(No2Legend, 2, rgb) == 97283 && Dist(No2Legend, 3, rgb) == 32768;
    NearestOf(rgb, 0);
  }

  /** (128, 128, 0), one step further from black, is nearer to yellow than to red or
      green. */
  lemma YellowBeatsRedGreen()
    ensures RgbToNo2(Rgb(128, 128, 0)) == 75
  {
  }

  /** When entry k is the first nearest to rgb, the function returns its value. */
  lemma NearestOf(rgb: Rgb, k: nat)
    requires IsFirstNearest(No2Legend, rgb, k)
    ensures RgbToNo2(rgb) == No2Legend[k].value
  {
  }

  /** The legend's values range from 10 to 100. */
  lemma No2LegendRange()
    ensures MinValue(No2Legend) == 10 && MaxValue(No2Legend) == 100
  {
  }

  // ---------------------------------------------------------------------------
  // The upload handler's per-pixel loop and mean

  /** The mean NO₂ value over every pixel of the uploaded image, which lies in [10, 100];
      a zero-pixel image is refused as empty. */
  method UploadAverage(imageArray: array3<Byte>) returns (r: Result<real>)
    ensures r == Err(EmptyImage) <==> imageArray.Length0 == 0 || imageArray.Length1 == 0
    ensures r == Err(ShapeMismatch) <==> 0 < imageArray.Length0 && 0 < imageArray.Length1 && !Broadcastable(imageArray.Length2)
    ensures r.Ok? <==> 0 < imageArray.Length0 && 0 < imageArray.Length1 && Broadcastable(imageArray.Length2)
    ensures r.Ok? ==> r.value == Mean(Classifications(No2Legend, imageArray))
    ensures r.Ok? ==> 10.0 <= r.value <= 100.0
  {
    No2LegendRange();
    r := AverageConcentration(No2Legend, imageArray);
  }

  lemma TwoByTwoColors(image: array3<Byte>)
    requires image.Length0 == 2 && image.Length1 == 2 && Broadcastable(image.Length2)
    ensures PixelColors(image) == [PixelRgb(image, 0, 0), PixelRgb(image, 0, 1), PixelRgb(image, 1, 0), PixelRgb(image, 1, 1)]
  {
    assert RowColors(image, 0, 1) == [PixelRgb(image, 0, 0)];
    assert RowColors(image, 0, 2) == [PixelRgb(image, 0, 0), PixelRgb(image, 0, 1)];
    assert RowColors(image, 1, 1) == [PixelRgb(image, 1, 0)];
    assert RowColors(image, 1, 2) == [PixelRgb(image, 1, 0), PixelRgb(image, 1, 1)];
    assert RowsColors(image, 1) == RowColors(image, 0, 2);
  }

  lemma TwoByTwoClassifications(image: array3<Byte>)
    requires image.Length0 == 2 && image.Length1 == 2 && image.Length2 == 3
    requires PixelRgb(image, 0, 0) == Rgb(255, 0, 0) && PixelRgb(image, 0, 1) == Rgb(255, 0, 0)
    requires PixelRgb(image, 1, 0) == Rgb(0, 255, 0) && PixelRgb(image, 1, 1) == Rgb(0, 0, 255)
    ensures Classifications(No2Legend, image) == [100, 100, 50, 10]
  {
    TwoByTwoColors(image);
    RgbToNo2OnLegendColors();
  }

  lemma MeanTwoByTwo()
    ensures Mean([100, 100, 50, 10]) == 65.0
  {
    assert [100, 100, 50, 10][..3] == [100, 100, 50];
    assert [100, 100, 50][..2] == [100, 100];
    assert [100, 100][..1] == [100];
    assert [100][..0] == [];
    assert Sum([100, 100, 50, 10]) == 260;
  }

  /** A 2x2 image holding red, red, green and blue in row-major order averages to
      (100 + 100 + 50 + 10) / 4. */
  method TwoByTwoExample() returns (r: Result<real>)
    ensures r == Ok(65.0)
  {
    var image := new Byte[2, 2, 3];
    image[0, 0, 0], image[0, 0, 1], image[0, 0, 2] := 255, 0, 0;
    image[0, 1, 0], image[0, 1, 1], image[0, 1, 2] := 255, 0, 0;
    image[1, 0, 0], image[1, 0, 1], image[1, 0, 2] := 0, 255, 0;
    image[1, 1, 0], image[1, 1, 1], image[1, 1, 2] := 0, 0, 255;
    assert PixelRgb(image, 0, 0) == Rgb(255, 0, 0) && PixelRgb(image, 0, 1) == Rgb(255, 0, 0);
    assert PixelRgb(image, 1, 0) == Rgb(0, 255, 0) && PixelRgb(image, 1, 1) == Rgb(0, 0, 255);
    r := UploadAverage(image);
    TwoByTwoClassifications(image);
    MeanTwoByTwo();
  }
}
