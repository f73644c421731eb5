/** The pixel buffer: 8-bit RGB triples on a width x height grid. */
module Pixels {

  /** One colour channel; java.awt.Color refuses anything outside 0..255. */
  type Channel = c: int | 0 <= c <= 255

  datatype Rgb = Rgb(red: Channel, green: Channel, blue: Channel)

  /** The colour of every pixel of a freshly allocated BufferedImage. */
  const Black: Rgb := Rgb(0, 0, 0)

  /** An image as a value: `rows[y][x]` is the pixel at column x of row y. */
  datatype Image = Image(width: nat, height: nat, rows: seq<seq<Rgb>>) {

    predicate Valid() {
      |rows| == height && forall y :: 0 <= y < height ==> |rows[y]| == width
    }

    /** The pixel at (x, y), as `getRGB(x, y)` reads it. */
    function At(x: int, y: int): Rgb
      requires Valid() && 0 <= x < width && 0 <= y < height
    {
      rows[y][x]
    }
  }

  /** The value held by a mutable buffer indexed `a[x, y]`, so `a.Length0` is the width. */
  function Snapshot(a: array2<Rgb>): (img: Image)
    reads a
    ensures img.Valid() && img.width == a.Length0 && img.height == a.Length1
    ensures forall x, y :: 0 <= x < a.Length0 && 0 <= y < a.Length1 ==> img.At(x, y) == a[x, y]
  {
    Image(a.Length0, a.Length1,
      seq(a.Length1, y requires 0 <= y < a.Length1 reads a =>
        seq(a.Length0, x requires 0 <= x < a.Length0 reads a => a[x, y])))
  }

  /** Two images with the same dimensions and the same pixel everywhere are equal. */
  lemma SameImage(a: Image, b: Image)
    requires a.Valid() && b.Valid() && a.width == b.width && a.height == b.height
    requires forall x, y :: 0 <= x < a.width && 0 <= y < a.height ==> a.At(x, y) == b.At(x, y)
    ensures a == b
  {
    forall y | 0 <= y < a.height
      ensures a.rows[y] == b.rows[y]
    {
      forall x | 0 <= x < a.width
        ensures a.rows[y][x] == b.rows[y][x]
      {
        assert a.At(x, y) == b.At(x, y);
      }
    }
  }
}
