/** RGB colours and the distance between them, as the nearest-colour rule uses it. */
module Colors {

  /** One channel value of a decoded 8-bit image. */
  type Byte = x: int | 0 <= x < 256

  /** An RGB triple. Channels are unbounded integers; the program only ever measures
      8-bit channel values, whose differences and their squares fit any machine width. */
  datatype Rgb = Rgb(r: int, g: int, b: int)

  /** The square of the Euclidean distance between two colours. The program takes the
      square root of this sum; since the square root is strictly increasing on the
      non-negative numbers, comparing squares selects the same nearest colour. */
  function ColorDistanceSquared(c1: Rgb, c2: Rgb): (d: nat)
    ensures d == 0 <==> c1 == c2
  {
    var dr, dg, db := c1.r - c2.r, c1.g - c2.g, c1.b - c2.b;
    dr * dr + dg * dg + db * db
  }

  /** The distance does not depend on the order of its arguments. */
  lemma ColorDistanceSymmetric(c1: Rgb, c2: Rgb)
    ensures ColorDistanceSquared(c1, c2) == ColorDistanceSquared(c2, c1)
  {
  }
}
