/**
 * The transform library as pure functions on image values: what each of the
 * imperative operations in ImageOperations computes, and how they relate.
 */
module Transforms {
  import opened Pixels

  /** MirrorMenuItem.MirrorDirection */
  datatype MirrorDirection = Vertical | Horizontal

  /** RotateMenuItem.RotateDirection */
  datatype RotateDirection = Clockwise | CounterClockwise

  /** RepeatMenuItem.RepeatDirection */
  datatype RepeatDirection = SideBySide | Stacked

  // ---------------------------------------------------------------- colour filters

  function ZeroRedPixel(p: Rgb): Rgb {
    Rgb(0, p.green, p.blue)
  }

  /**
   * The weighted sum 0.3 r + 0.59 g + 0.11 b, truncated, computed on integers
   * (the source computes it in double precision before the (int) cast).
   */
  function GrayPixel(p: Rgb): (q: Rgb)
    ensures q.red == q.green == q.blue
  {
    var v := (30 * p.red + 59 * p.green + 11 * p.blue) / 100;
    Rgb(v, v, v)
  }

  function InvertPixel(p: Rgb): Rgb {
    Rgb(255 - p.red, 255 - p.green, 255 - p.blue)
  }

  /** Applies a colour function to every pixel; the shape of zeroRed, grayscale and invert. */
  function MapPixels(img: Image, f: Rgb -> Rgb): (r: Image)
    requires img.Valid()
    ensures r.Valid() && r.width == img.width && r.height == img.height
    ensures forall x, y :: 0 <= x < img.width && 0 <= y < img.height ==> r.At(x, y) == f(img.At(x, y))
  {
    Image(img.width, img.height,
      seq(img.height, y requires 0 <= y < img.height =>
        seq(img.width, x requires 0 <= x < img.width => f(img.At(x, y)))))
  }

  function ZeroRed(img: Image): (r: Image)
    requires img.Valid()
    ensures r.Valid() && r.width == img.width && r.height == img.height
    ensures forall x, y :: 0 <= x < img.width && 0 <= y < img.height ==>
      r.At(x, y) == Rgb(0, img.At(x, y).green, img.At(x, y).blue)
  {
    MapPixels(img, ZeroRedPixel)
  }

  function Grayscale(img: Image): (r: Image)
    requires img.Valid()
    ensures r.Valid() && r.width == img.width && r.height == img.height
    ensures forall x, y :: 0 <= x < img.width && 0 <= y < img.height ==>
      var p := img.At(x, y);
      var q := r.At(x, y);
      q.red == q.green == q.blue && 0 <= q.red <= 255 &&
      q.red == (30 * p.red + 59 * p.green + 11 * p.blue) / 100
  {
    MapPixels(img, GrayPixel)
  }

  function Invert(img: Image): (r: Image)
    requires img.Valid()
    ensures r.Valid() && r.width == img.width && r.height == img.height
    ensures forall x, y :: 0 <= x < img.width && 0 <= y < img.height ==>
      var p := img.At(x, y);
      r.At(x, y) == Rgb(255 - p.red, 255 - p.green, 255 - p.blue)
  {
    MapPixels(img, InvertPixel)
  }

  /** Removing the red channel twice is removing it once. */
  lemma ZeroRedIdempotent(img: Image)
    requires img.Valid()
    ensures ZeroRed(ZeroRed(img)) == ZeroRed(img)
  {
    SameImage(ZeroRed(ZeroRed(img)), ZeroRed(img));
  }

  /**
   * With the integer formula, a grey pixel has weights summing to 100 per
   * cent, so converting a second time changes nothing (integer formula only;
   * the double arithmetic of the Java code is not idempotent).
   */
  lemma GrayscaleIdempotent(img: Image)
    requires img.Valid()
    ensures Grayscale(Grayscale(img)) == Grayscale(img)
  {
    var g := Grayscale(img);
    forall x, y | 0 <= x < img.width && 0 <= y < img.height
      ensures Grayscale(g).At(x, y) == g.At(x, y)
    {
      var v: int := g.At(x, y).red;
      assert 30 * v + 59 * v + 11 * v == 100 * v;
    }
    SameImage(Grayscale(g), g);
  }

  /** Inverting twice gives back the input exactly. */
  lemma InvertInvolution(img: Image)
    requires img.Valid()
    ensures Invert(Invert(img)) == img
  {
    SameImage(Invert(Invert(img)), img);
  }

  // ---------------------------------------------------------------- mirror

  /**
   * The pixel the mirror loops leave at (x, y): the near half is copied and
   * reflected, and a middle column (or row) of an odd-sized image is never
   * written, so it keeps the black of the fresh buffer.
   */
  function MirrorPixel(img: Image, dir: MirrorDirection, x: int, y: int): Rgb
    requires img.Valid() && 0 <= x < img.width && 0 <= y < img.height
  {
    var w, h := img.width, img.height;
    match dir
    case Vertical =>
      if x < w / 2 then img.At(x, y)
      else if w - 1 - x < w / 2 then img.At(w - 1 - x, y)
      else Black
    case Horizontal =>
      if y < h / 2 then img.At(x, y)
      else if h - 1 - y < h / 2 then img.At(x, h - 1 - y)
      else Black
  }

  function Mirror(img: Image, dir: MirrorDirection): (r: Image)
    requires img.Valid()
    ensures r.Valid() && r.width == img.width && r.height == img.height
  {
    Image(img.width, img.height,
      seq(img.height, y requires 0 <= y < img.height =>
        seq(img.width, x requires 0 <= x < img.width => MirrorPixel(img, dir, x, y))))
  }

  /** VERTICAL: the left half is kept, copied onto the right half, and an odd middle column is black. */
  lemma MirrorVerticalHalves(img: Image)
    requires img.Valid()
    ensures forall x, y :: 0 <= x < img.width / 2 && 0 <= y < img.height ==>
      Mirror(img, Vertical).At(x, y) == img.At(x, y) && Mirror(img, Vertical).At(img.width - 1 - x, y) == img.At(x, y)
    ensures img.width % 2 == 1 ==>
      forall y :: 0 <= y < img.height ==> Mirror(img, Vertical).At(img.width / 2, y) == Black
  {
  }

  /** HORIZONTAL: the top half is kept, copied onto the bottom half, and an odd middle row is black. */
  lemma MirrorHorizontalHalves(img: Image)
    requires img.Valid()
    ensures forall x, y :: 0 <= x < img.width && 0 <= y < img.height / 2 ==>
      Mirror(img, Horizontal).At(x, y) == img.At(x, y) && Mirror(img, Horizontal).At(x, img.height - 1 - y) == img.At(x, y)
    ensures img.height % 2 == 1 ==>
      forall x :: 0 <= x < img.width ==> Mirror(img, Horizontal).At(x, img.height / 2) == Black
  {
  }

  /** The half of the input the mirror reads: columns left of width/2, or rows above height/2. */
  predicate InNearHalf(img: Image, dir: MirrorDirection, x: int, y: int) {
    match dir
    case Vertical => x < img.width / 2
    case Horizontal => y < img.height / 2
  }

  /** The pixel facing (x, y) across the mirror line. */
  function Facing(img: Image, dir: MirrorDirection, x: int, y: int): Rgb
    requires img.Valid() && 0 <= x < img.width && 0 <= y < img.height
  {
    match dir
    case Vertical => img.At(img.width - 1 - x, y)
    case Horizontal => img.At(x, img.height - 1 - y)
  }

  /** An image that reads the same from either side of the mirror line. */
  predicate Symmetric(img: Image, dir: MirrorDirection)
    requires img.Valid()
  {
    forall x, y :: 0 <= x < img.width && 0 <= y < img.height ==> img.At(x, y) == Facing(img, dir, x, y)
  }

  /** The column (or row) that only an odd-sized image has, on the mirror line. */
  predicate CentreIsBlack(img: Image, dir: MirrorDirection)
    requires img.Valid()
  {
    match dir
    case Vertical =>
      img.width % 2 == 1 ==> forall y :: 0 <= y < img.height ==> img.At(img.width / 2, y) == Black
    case Horizontal =>
      img.height % 2 == 1 ==> forall x :: 0 <= x < img.width ==> img.At(x, img.height / 2) == Black
  }

  /** The far half of the input is never read: inputs that agree on the near half mirror alike. */
  lemma MirrorReadsNearHalfOnly(a: Image, b: Image, dir: MirrorDirection)
    requires a.Valid() && b.Valid() && a.width == b.width && a.height == b.height
    requires forall x, y :: 0 <= x < a.width && 0 <= y < a.height && InNearHalf(a, dir, x, y) ==>
      a.At(x, y) == b.At(x, y)
    ensures Mirror(a, dir) == Mirror(b, dir)
  {
    forall x, y | 0 <= x < a.width && 0 <= y < a.height
      ensures Mirror(a, dir).At(x, y) == Mirror(b, dir).At(x, y)
    {
      var w, h := a.width, a.height;
      match dir
      case Vertical =>
        if x < w / 2 {
          assert InNearHalf(a, dir, x, y);
        } else if w - 1 - x < w / 2 {
          assert InNearHalf(a, dir, w - 1 - x, y);
        }
      case Horizontal =>
        if y < h / 2 {
          assert InNearHalf(a, dir, x, y);
        } else if h - 1 - y < h / 2 {
          assert InNearHalf(a, dir, x, h - 1 - y);
        }
    }
    SameImage(Mirror(a, dir), Mirror(b, dir));
  }

  /** Every mirrored image is symmetric about its mirror line, with a black centre if any. */
  lemma MirrorSymmetric(img: Image, dir: MirrorDirection)
    requires img.Valid()
    ensures Symmetric(Mirror(img, dir), dir) && CentreIsBlack(Mirror(img, dir), dir)
  {
    var r := Mirror(img, dir);
    forall x, y | 0 <= x < img.width && 0 <= y < img.height
      ensures r.At(x, y) == Facing(r, dir, x, y)
    {
      assert r.At(x, y) == MirrorPixel(img, dir, x, y);
    }
  }

  /** An image is left alone by the mirror exactly when it is symmetric with a black centre. */
  lemma MirrorFixedPoint(img: Image, dir: MirrorDirection)
    requires img.Valid()
    ensures Mirror(img, dir) == img <==> Symmetric(img, dir) && CentreIsBlack(img, dir)
  {
    if Mirror(img, dir) == img {
      MirrorSymmetric(img, dir);
    }
    if Symmetric(img, dir) && CentreIsBlack(img, dir) {
      var r := Mirror(img, dir);
      forall x, y | 0 <= x < img.width && 0 <= y < img.height
        ensures r.At(x, y) == img.At(x, y)
      {
        assert r.At(x, y) == MirrorPixel(img, dir, x, y);
        assert img.At(x, y) == Facing(img, dir, x, y);
      }
      SameImage(r, img);
    }
  }

  /** Mirroring a second time changes nothing. */
  lemma MirrorIdempotent(img: Image, dir: MirrorDirection)
    requires img.Valid()
    ensures Mirror(Mirror(img, dir), dir) == Mirror(img, dir)
  {
    MirrorSymmetric(img, dir);
    MirrorFixedPoint(Mirror(img, dir), dir);
  }

  // ---------------------------------------------------------------- rotate

  /** A quarter turn; the output is height wide and width high. */
  function Rotate(img: Image, dir: RotateDirection): (r: Image)
    requires img.Valid()
    ensures r.Valid() && r.width == img.height && r.height == img.width
    ensures dir == Clockwise ==>
      forall x, y :: 0 <= x < img.width && 0 <= y < img.height ==>
        r.At(img.height - 1 - y, x) == img.At(x, y)
    ensures dir == CounterClockwise ==>
      forall x, y :: 0 <= x < img.width && 0 <= y < img.height ==>
        r.At(y, img.width - 1 - x) == img.At(x, y)
  {
    var w, h := img.width, img.height;
    Image(h, w,
      seq(w, y requires 0 <= y < w =>
        seq(h, x requires 0 <= x < h =>
          match dir
          case Clockwise => img.At(y, h - 1 - x)
          case CounterClockwise => img.At(w - 1 - y, x))))
  }

  /** A clockwise turn is undone by a counter-clockwise one. */
  lemma RotateClockwiseThenBack(img: Image)
    requires img.Valid()
    ensures Rotate(Rotate(img, Clockwise), CounterClockwise) == img
  {
    var turned := Rotate(img, Clockwise);
    var r := Rotate(turned, CounterClockwise);
    forall x, y | 0 <= x < img.width && 0 <= y < img.height
      ensures r.At(x, y) == img.At(x, y)
    {
      var x', y' := img.height - 1 - y, x;
      assert turned.At(x', y') == img.At(x, y);
      assert r.At(y', turned.width - 1 - x') == turned.At(x', y');
    }
    SameImage(r, img);
  }

  /** A counter-clockwise turn is undone by a clockwise one. */
  lemma RotateCounterClockwiseThenBack(img: Image)
    requires img.Valid()
    ensures Rotate(Rotate(img, CounterClockwise), Clockwise) == img
  {
    var turned := Rotate(img, CounterClockwise);
    var r := Rotate(turned, Clockwise);
    forall x, y | 0 <= x < img.width && 0 <= y < img.height
      ensures r.At(x, y) == img.At(x, y)
    {
      var x', y' := y, img.width - 1 - x;
      assert turned.At(x', y') == img.At(x, y);
      assert r.At(turned.height - 1 - y', x') == turned.At(x', y');
    }
    SameImage(r, img);
  }

  // ---------------------------------------------------------------- repeat

  /** n copies of s, one after the other. */
  function Tile<T>(s: seq<T>, n: nat): (r: seq<T>)
    ensures |r| == |s| * n
    ensures forall k :: 0 <= k < |r| ==> r[k] in s
  {
    if n == 0 then [] else Tile(s, n - 1) + s
  }

  /** Copy i of s starts at i * |s|. */
  lemma {:induction false} TileAt<T>(s: seq<T>, n: nat, i: nat, k: nat)
    requires i < n && k < |s|
    ensures i * |s| + k < |Tile(s, n)| && Tile(s, n)[i * |s| + k] == s[k]
  {
    var prefix := Tile(s, n - 1);
    assert Tile(s, n) == prefix + s;
    if i == n - 1 {
      assert |prefix| == |s| * (n - 1) == i * |s|;
    } else {
      TileAt(s, n - 1, i, k);
    }
  }

  /** The input laid out n times left to right (SideBySide) or top to bottom (Stacked). */
  function Repeat(img: Image, n: nat, dir: RepeatDirection): (r: Image)
    requires img.Valid()
    ensures r.Valid()
    ensures dir == SideBySide ==> r.width == img.width * n && r.height == img.height
    ensures dir == Stacked ==> r.width == img.width && r.height == img.height * n
  {
    match dir
    case SideBySide =>
      Image(img.width * n, img.height,
        seq(img.height, y requires 0 <= y < img.height => Tile(img.rows[y], n)))
    case Stacked =>
      var rows := Tile(img.rows, n);
      assert forall y :: 0 <= y < |rows| ==> rows[y] in img.rows;
      Image(img.width, img.height * n, rows)
  }

  /** Every one of the n tiles is an exact copy of the input. */
  lemma RepeatTile(img: Image, n: nat, dir: RepeatDirection, i: nat, x: nat, y: nat)
    requires img.Valid() && i < n && x < img.width && y < img.height
    ensures dir == SideBySide ==>
      x + i * img.width < img.width * n && Repeat(img, n, dir).At(x + i * img.width, y) == img.At(x, y)
    ensures dir == Stacked ==>
      y + i * img.height < img.height * n && Repeat(img, n, dir).At(x, y + i * img.height) == img.At(x, y)
  {
    match dir
    case SideBySide =>
      TileAt(img.rows[y], n, i, x);
    case Stacked =>
      TileAt(img.rows, n, i, y);
  }

  /** One copy of the input is the input. */
  lemma RepeatOnce(img: Image, dir: RepeatDirection)
    requires img.Valid()
    ensures Repeat(img, 1, dir) == img
  {
    var r := Repeat(img, 1, dir);
    forall x, y | 0 <= x < img.width && 0 <= y < img.height
      ensures r.At(x, y) == img.At(x, y)
    {
      RepeatTile(img, 1, dir, 0, x, y);
    }
    SameImage(r, img);
  }
}
