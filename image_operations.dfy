/**
 * The transform library as the source runs it: every operation allocates a
 * fresh buffer (all black, like a new BufferedImage) and fills it in nested
 * loops, never writing to its input. Each method is proved to produce the
 * value its counterpart in Transforms describes.
 */
module ImageOperations {
  import opened Pixels
  import Transforms

  /** The common loop of zeroRed, grayscale and invert: out[x, y] := f(in[x, y]). */
  method MapPixels(img: array2<Rgb>, f: Rgb -> Rgb) returns (result: array2<Rgb>)
    ensures fresh(result)
    ensures Snapshot(result) == Transforms.MapPixels(Snapshot(img), f)
  {
    var width, height := img.Length0, img.Length1;
    result := new Rgb[width, height]((x, y) => Black);
    for y := 0 to height
      invariant forall x', y' :: 0 <= x' < width && 0 <= y' < y ==> result[x', y'] == f(img[x', y'])
    {
      for x := 0 to width
        invariant forall x', y' :: 0 <= x' < width && 0 <= y' < y ==> result[x', y'] == f(img[x', y'])
        invariant forall x' :: 0 <= x' < x ==> result[x', y] == f(img[x', y])
      {
        result[x, y] := f(img[x, y]);
      }
    }
    SameImage(Snapshot(result), Transforms.MapPixels(Snapshot(img), f));
  }

  method ZeroRed(img: array2<Rgb>) returns (result: array2<Rgb>)
    ensures fresh(result)
    ensures Snapshot(result) == Transforms.ZeroRed(Snapshot(img))
  {
    result := MapPixels(img, Transforms.ZeroRedPixel);
  }

  method Grayscale(img: array2<Rgb>) returns (result: array2<Rgb>)
    ensures fresh(result)
    ensures Snapshot(result) == Transforms.Grayscale(Snapshot(img))
  {
    result := MapPixels(img, Transforms.GrayPixel);
  }

  method Invert(img: array2<Rgb>) returns (result: array2<Rgb>)
    ensures fresh(result)
    ensures Snapshot(result) == Transforms.Invert(Snapshot(img))
  {
    result := MapPixels(img, Transforms.InvertPixel);
  }

  method Mirror(img: array2<Rgb>, dir: Transforms.MirrorDirection) returns (result: array2<Rgb>)
    ensures fresh(result)
    ensures Snapshot(result) == Transforms.Mirror(Snapshot(img), dir)
  {
    if dir == Transforms.Vertical {
      result := MirrorVertical(img);
    } else {
      result := MirrorHorizontal(img);
    }
  }

  /** The VERTICAL branch of mirror: columns x < width / 2 are written to x and width - 1 - x. */
  method MirrorVertical(img: array2<Rgb>) returns (result: array2<Rgb>)
    ensures fresh(result)
    ensures Snapshot(result) == Transforms.Mirror(Snapshot(img), Transforms.Vertical)
  {
    var width, height := img.Length0, img.Length1;
    ghost var spec := Transforms.Mirror(Snapshot(img), Transforms.Vertical);
    result := new Rgb[width, height]((x, y) => Black);
    for y := 0 to height
      invariant forall x', y' :: 0 <= x' < width && 0 <= y' < height ==>
        result[x', y'] == if y' < y then spec.At(x', y') else Black
    {
      for x := 0 to width / 2
        invariant forall x', y' :: 0 <= x' < width && 0 <= y' < height ==>
          result[x', y'] ==
            if y' < y || (y' == y && (x' < x || width - 1 - x' < x)) then spec.At(x', y') else Black
      {
        var rgb := img[x, y];
        result[x, y] := rgb;
        result[width - x - 1, y] := rgb;
      }
    }
    SameImage(Snapshot(result), spec);
  }

  /** The HORIZONTAL branch of mirror: rows y < height / 2 are written to y and height - 1 - y. */
  method MirrorHorizontal(img: array2<Rgb>) returns (result: array2<Rgb>)
    ensures fresh(result)
    ensures Snapshot(result) == Transforms.Mirror(Snapshot(img), Transforms.Horizontal)
  {
    var width, height := img.Length0, img.Length1;
    ghost var spec := Transforms.Mirror(Snapshot(img), Transforms.Horizontal);
    result := new Rgb[width, height]((x, y) => Black);
    for y := 0 to height / 2
      invariant forall x', y' :: 0 <= x' < width && 0 <= y' < height ==>
        result[x', y'] == if y' < y || height - 1 - y' < y then spec.At(x', y') else Black
    {
      for x := 0 to width
        invariant forall x', y' :: 0 <= x' < width && 0 <= y' < height ==>
          result[x', y'] ==
            if y' < y || height - 1 - y' < y || ((y' == y || y' == height - 1 - y) && x' < x)
            then spec.At(x', y') else Black
      {
        var rgb := img[x, y];
        result[x, y] := rgb;
        result[x, height - y - 1] := rgb;
      }
    }
    SameImage(Snapshot(result), spec);
  }

  method Rotate(img: array2<Rgb>, dir: Transforms.RotateDirection) returns (result: array2<Rgb>)
    ensures fresh(result)
    ensures Snapshot(result) == Transforms.Rotate(Snapshot(img), dir)
  {
    if dir == Transforms.Clockwise {
      result := RotateClockwise(img);
    } else {
      result := RotateCounterClockwise(img);
    }
  }

  /** The CLOCKWISE branch of rotate: in[x, y] goes to out[height - 1 - y, x]. */
  method RotateClockwise(img: array2<Rgb>) returns (result: array2<Rgb>)
    ensures fresh(result)
    ensures Snapshot(result) == Transforms.Rotate(Snapshot(img), Transforms.Clockwise)
  {
    var width, height := img.Length0, img.Length1;
    result := new Rgb[height, width]((x, y) => Black);
    for y := 0 to height
      invariant forall x', y' :: 0 <= x' < width && 0 <= y' < y ==> result[height - y' - 1, x'] == img[x', y']
    {
      for x := 0 to width
        invariant forall x', y' :: 0 <= x' < width && 0 <= y' < y ==> result[height - y' - 1, x'] == img[x', y']
        invariant forall x' :: 0 <= x' < x ==> result[height - y - 1, x'] == img[x', y]
      {
        var rgb := img[x, y];
        result[height - y - 1, x] := rgb;
      }
    }
    TurnedClockwise(img, result);
  }

  /** A buffer holding in[x, y] at [height - 1 - y, x] everywhere is the clockwise turn. */
  lemma TurnedClockwise(img: array2<Rgb>, result: array2<Rgb>)
    requires result.Length0 == img.Length1 && result.Length1 == img.Length0
    requires forall x, y :: 0 <= x < img.Length0 && 0 <= y < img.Length1 ==> result[img.Length1 - y - 1, x] == img[x, y]
    ensures Snapshot(result) == Transforms.Rotate(Snapshot(img), Transforms.Clockwise)
  {
    var height := img.Length1;
    var spec := Transforms.Rotate(Snapshot(img), Transforms.Clockwise);
    forall x, y | 0 <= x < height && 0 <= y < img.Length0
      ensures result[x, y] == spec.At(x, y)
    {
      assert result[height - (height - 1 - x) - 1, y] == img[y, height - 1 - x];
    }
    SameImage(Snapshot(result), spec);
  }

  /** The COUNTERCLOCKWISE branch of rotate: in[x, y] goes to out[y, width - 1 - x]. */
  method RotateCounterClockwise(img: array2<Rgb>) returns (result: array2<Rgb>)
    ensures fresh(result)
    ensures Snapshot(result) == Transforms.Rotate(Snapshot(img), Transforms.CounterClockwise)
  {
    var width, height := img.Length0, img.Length1;
    result := new Rgb[height, width]((x, y) => Black);
    for y := 0 to height
      invariant forall x', y' :: 0 <= x' < width && 0 <= y' < y ==> result[y', width - x' - 1] == img[x', y']
    {
      for x := 0 to width
        invariant forall x', y' :: 0 <= x' < width && 0 <= y' < y ==> result[y', width - x' - 1] == img[x', y']
        invariant forall x' :: 0 <= x' < x ==> result[y, width - x' - 1] == img[x', y]
      {
        var rgb := img[x, y];
        result[y, width - x - 1] := rgb;
      }
    }
    TurnedCounterClockwise(img, result);
  }

  /** A buffer holding in[x, y] at [y, width - 1 - x] everywhere is the counter-clockwise turn. */
  lemma TurnedCounterClockwise(img: array2<Rgb>, result: array2<Rgb>)
    requires result.Length0 == img.Length1 && result.Length1 == img.Length0
    requires forall x, y :: 0 <= x < img.Length0 && 0 <= y < img.Length1 ==> result[y, img.Length0 - x - 1] == img[x, y]
    ensures Snapshot(result) == Transforms.Rotate(Snapshot(img), Transforms.CounterClockwise)
  {
    var width := img.Length0;
    var spec := Transforms.Rotate(Snapshot(img), Transforms.CounterClockwise);
    forall x, y | 0 <= x < img.Length1 && 0 <= y < width
      ensures result[x, y] == spec.At(x, y)
    {
      assert result[x, width - (width - 1 - y) - 1] == img[width - 1 - y, x];
    }
    SameImage(Snapshot(result), spec);
  }

  /** n >= 1: a zero count gives a zero dimension, which BufferedImage rejects. */
  method Repeat(img: array2<Rgb>, n: int, dir: Transforms.RepeatDirection) returns (result: array2<Rgb>)
    requires n >= 1
    ensures fresh(result)
    ensures Snapshot(result) == Transforms.Repeat(Snapshot(img), n, dir)
  {
    if dir == Transforms.SideBySide {
      result := RepeatSideBySide(img, n);
    } else {
      result := RepeatStacked(img, n);
    }
  }

  /** The HORIZONTAL branch of repeat: copy i lands at columns i * width and on. */
  method RepeatSideBySide(img: array2<Rgb>, n: int) returns (result: array2<Rgb>)
    requires n >= 1
    ensures fresh(result)
    ensures Snapshot(result) == Transforms.Repeat(Snapshot(img), n, Transforms.SideBySide)
  {
    var width, height := img.Length0, img.Length1;
    ghost var spec := Transforms.Repeat(Snapshot(img), n, Transforms.SideBySide);
    result := new Rgb[width * n, height]((x, y) => Black);
    ghost var done := 0;
    for i := 0 to n
      invariant done == i * width <= width * n
      invariant Agrees(result, spec, done, height)
    {
      NextCopyFits(i, n, width);
      PlaceSideBySide(img, result, n, i);
      done := done + width;
    }
    SameImage(Snapshot(result), spec);
  }

  /** The VERTICAL branch of repeat: copy i lands at rows i * height and on. */
  method RepeatStacked(img: array2<Rgb>, n: int) returns (result: array2<Rgb>)
    requires n >= 1
    ensures fresh(result)
    ensures Snapshot(result) == Transforms.Repeat(Snapshot(img), n, Transforms.Stacked)
  {
    var width, height := img.Length0, img.Length1;
    ghost var spec := Transforms.Repeat(Snapshot(img), n, Transforms.Stacked);
    result := new Rgb[width, height * n]((x, y) => Black);
    ghost var done := 0;
    for i := 0 to n
      invariant done == i * height <= height * n
      invariant Agrees(result, spec, width, done)
    {
      NextCopyFits(i, n, height);
      PlaceStacked(img, result, n, i);
      done := done + height;
    }
    SameImage(Snapshot(result), spec);
  }

  /** Columns left of w and rows above h of result already hold what spec holds there. */
  ghost predicate Agrees(result: array2<Rgb>, spec: Image, w: nat, h: nat)
    reads result
    requires spec.Valid() && w <= result.Length0 && w <= spec.width && h <= result.Length1 && h <= spec.height
  {
    forall x, y :: 0 <= x < w && 0 <= y < h ==> result[x, y] == spec.At(x, y)
  }

  /** Iteration i of the HORIZONTAL outer loop: one more copy, placed right of the ones before. */
  method PlaceSideBySide(img: array2<Rgb>, result: array2<Rgb>, n: nat, i: nat)
    requires result != img && i < n
    requires result.Length0 == img.Length0 * n && result.Length1 == img.Length1
    requires i * img.Length0 + img.Length0 <= result.Length0
    requires Agrees(result, Transforms.Repeat(Snapshot(img), n, Transforms.SideBySide), i * img.Length0, img.Length1)
    modifies result
    ensures Agrees(result, Transforms.Repeat(Snapshot(img), n, Transforms.SideBySide), i * img.Length0 + img.Length0, img.Length1)
  {
    var dx := i * img.Length0;
    CopyInto(img, result, dx, 0);
    CopyIsSideBySideTile(img, result, n, i, dx);
  }

  /** Iteration i of the VERTICAL outer loop: one more copy, placed below the ones before. */
  method PlaceStacked(img: array2<Rgb>, result: array2<Rgb>, n: nat, i: nat)
    requires result != img && i < n
    requires result.Length0 == img.Length0 && result.Length1 == img.Length1 * n
    requires i * img.Length1 + img.Length1 <= result.Length1
    requires Agrees(result, Transforms.Repeat(Snapshot(img), n, Transforms.Stacked), img.Length0, i * img.Length1)
    modifies result
    ensures Agrees(result, Transforms.Repeat(Snapshot(img), n, Transforms.Stacked), img.Length0, i * img.Length1 + img.Length1)
  {
    var dy := i * img.Length1;
    CopyInto(img, result, 0, dy);
    CopyIsStackedTile(img, result, n, i, dy);
  }

  /** The two inner loops of repeat: one copy of img written with its corner at (dx, dy). */
  method CopyInto(img: array2<Rgb>, result: array2<Rgb>, dx: nat, dy: nat)
    requires result != img
    requires dx + img.Length0 <= result.Length0 && dy + img.Length1 <= result.Length1
    modifies result
    ensures forall x, y :: 0 <= x < img.Length0 && 0 <= y < img.Length1 ==> result[dx + x, dy + y] == img[x, y]
    ensures forall x, y ::
      (0 <= x < result.Length0 && 0 <= y < result.Length1 &&
       !(dx <= x < dx + img.Length0 && dy <= y < dy + img.Length1)) ==> result[x, y] == old(result[x, y])
  {
    var width, height := img.Length0, img.Length1;
    for y := 0 to height
      invariant forall x', y' :: 0 <= x' < width && 0 <= y' < y ==> result[dx + x', dy + y'] == img[x', y']
      invariant forall x', y' ::
        (0 <= x' < result.Length0 && 0 <= y' < result.Length1 &&
         !(dx <= x' < dx + width && dy <= y' < dy + y)) ==> result[x', y'] == old(result[x', y'])
    {
      for x := 0 to width
        invariant forall x', y' :: 0 <= x' < width && 0 <= y' < y ==> result[dx + x', dy + y'] == img[x', y']
        invariant forall x' :: 0 <= x' < x ==> result[dx + x', dy + y] == img[x', y]
        invariant forall x', y' ::
          (0 <= x' < result.Length0 && 0 <= y' < result.Length1 &&
           !(dx <= x' < dx + width && dy <= y' < dy + y) && !(y' == dy + y && dx <= x' < dx + x)) ==>
          result[x', y'] == old(result[x', y'])
      {
        var rgb := img[x, y];
        result[dx + x, dy + y] := rgb;
      }
    }
  }

  /** A copy of img placed at column dx = i * width is copy i of the side-by-side repeat. */
  lemma CopyIsSideBySideTile(img: array2<Rgb>, result: array2<Rgb>, n: nat, i: nat, dx: nat)
    requires result.Length0 == img.Length0 * n && result.Length1 == img.Length1
    requires i < n && dx == i * img.Length0 && dx + img.Length0 <= result.Length0
    requires forall x, y :: 0 <= x < img.Length0 && 0 <= y < img.Length1 ==> result[dx + x, y] == img[x, y]
    ensures forall x, y :: dx <= x < dx + img.Length0 && 0 <= y < img.Length1 ==>
      result[x, y] == Transforms.Repeat(Snapshot(img), n, Transforms.SideBySide).At(x, y)
  {
    var src := Snapshot(img);
    forall x, y | dx <= x < dx + img.Length0 && 0 <= y < img.Length1
      ensures result[x, y] == Transforms.Repeat(src, n, Transforms.SideBySide).At(x, y)
    {
      Transforms.RepeatTile(src, n, Transforms.SideBySide, i, x - dx, y);
      assert result[dx + (x - dx), y] == img[x - dx, y];
    }
  }

  /** A copy of img placed at row dy = i * height is copy i of the stacked repeat. */
  lemma CopyIsStackedTile(img: array2<Rgb>, result: array2<Rgb>, n: nat, i: nat, dy: nat)
    requires result.Length0 == img.Length0 && result.Length1 == img.Length1 * n
    requires i < n && dy == i * img.Length1 && dy + img.Length1 <= result.Length1
    requires forall x, y :: 0 <= x < img.Length0 && 0 <= y < img.Length1 ==> result[x, dy + y] == img[x, y]
    ensures forall x, y :: 0 <= x < img.Length0 && dy <= y < dy + img.Length1 ==>
      result[x, y] == Transforms.Repeat(Snapshot(img), n, Transforms.Stacked).At(x, y)
  {
    var src := Snapshot(img);
    forall x, y | 0 <= x < img.Length0 && dy <= y < dy + img.Length1
      ensures result[x, y] == Transforms.Repeat(src, n, Transforms.Stacked).At(x, y)
    {
      Transforms.RepeatTile(src, n, Transforms.Stacked, i, x, y - dy);
      assert result[x, dy + (y - dy)] == img[x, y - dy];
    }
  }

  /** Copy i of n, each `size` long, ends inside the output. */
  lemma NextCopyFits(i: int, n: int, size: nat)
    requires 0 <= i < n
    ensures (i + 1) * size == i * size + size <= size * n
  {
    var k := n - i - 1;
    assert k * size >= 0;
    assert size * n == i * size + size + k * size;
  }
}
