/** The desktop script's core: its module-level legend, the colour-to-NO₂ function that
    reads it, and the per-pixel loop and mean over the selected image. */
module DesktopScript {
  import opened Colors
  import opened Classifier
  import WebApp

  /** The script's legend: red, green, blue and yellow, in insertion order. */
  const ColorToNo2: Legend := [
    Entry(Rgb(255, 0, 0), 100),
    Entry(Rgb(0, 255, 0), 50),
    Entry(Rgb(0, 0, 255), 10),
    Entry(Rgb(255, 255, 0), 75)
  ]

  /** The value of a minimum-distance key of the legend, the first inserted one among
      equally near keys. */
  function RgbToNo2(rgb: Rgb): (no2: int)
    ensures no2 in {100, 50, 10, 75}
    ensures exists i: nat :: IsFirstNearest(ColorToNo2, rgb, i) && no2 == ColorToNo2[i].value
  {
    Classify(ColorToNo2, rgb)
  }

  /** The script and the web application classify every colour alike. */
  lemma SameAsWebApp(rgb: Rgb)
    ensures RgbToNo2(rgb) == WebApp.RgbToNo2(rgb)
  {
    assert ColorToNo2 == WebApp.No2Legend;
  }

  /** (0, 127, 127) is equally far from green and blue and farther from red and yellow:
      green, inserted before blue, wins. */
  lemma GreenBlueTie()
    ensures ColorDistanceSquared(Rgb(0, 255, 0), Rgb(0, 127, 127)) == ColorDistanceSquared(Rgb(0, 0, 255), Rgb(0, 127, 127))
    ensures RgbToNo2(Rgb(0, 127, 127)) == 50
  {
    var rgb := Rgb(0, 127, 127);
    assert Dist(ColorToNo2, 0, rgb) == 97283 && Dist(ColorToNo2, 1, rgb) == 32513;
    assert Dist(ColorToNo2, 2, rgb) == 32513 && Dist(ColorToNo2, 3, rgb) == 97538;
    assert IsFirstNearest(ColorToNo2, rgb, 1);
    var i: nat :| IsFirstNearest(ColorToNo2, rgb, i) && RgbToNo2(rgb) == ColorToNo2[i].value;
    FirstNearestUnique(ColorToNo2, rgb, i, 1);
  }

  /** Every legend key is distinct, and each maps to its own value. */
  lemma RgbToNo2OnKeys(k: nat)
    requires k < |ColorToNo2|
    ensures RgbToNo2(ColorToNo2[k].color) == ColorToNo2[k].value
  {
    assert DistinctColors(ColorToNo2);
    ClassifyExactColor(ColorToNo2, k);
  }

  /** The mean NO₂ value over the pixels of the selected image lies between the smallest
      and largest legend values; a zero-pixel image is reported as empty. */
  method ScriptAverage(imageArray: array3<Byte>) returns (r: Result<real>)
    ensures r == Err(EmptyImage) <==> imageArray.Length0 == 0 || imageArray.Length1 == 0
    ensures r == Err(ShapeMismatch) <==> 0 < imageArray.Length0 && 0 < imageArray.Length1 && !Broadcastable(imageArray.Length2)
    ensures r.Ok? <==> 0 < imageArray.Length0 && 0 < imageArray.Length1 && Broadcastable(imageArray.Length2)
    ensures r.Ok? ==> r.value == Mean(Classifications(ColorToNo2, imageArray))
    ensures r.Ok? ==> 10.0 <= r.value <= 100.0
  {
    assert MinValue(ColorToNo2) == 10 && MaxValue(ColorToNo2) == 100;
    r := AverageConcentration(ColorToNo2, imageArray);
  }
}
