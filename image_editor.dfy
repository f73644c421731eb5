/**
 * The editor object: its two image stacks and zoomImageIndex as fields,
 * updated in place by the history methods and by reading a PPM text. Each
 * method is specified by the EditHistory function it carries out, and the
 * PPM methods by the codec in PpmCodec.
 */
module Editor {
  import opened Wrappers
  import opened Pixels
  import opened TextScan
  import opened PpmCodec
  import opened EditHistory

  class ImageEditor {
    /** UNDO_STACK; the top is the last element. */
    var undoStack: seq<array2<Rgb>>
    /** REDO_STACK; the top is the last element. */
    var redoStack: seq<array2<Rgb>>
    var zoomImageIndex: int

    /** The three fields as a History value. */
    function Model(): History<array2<Rgb>>
      reads this
    {
      History(undoStack, redoStack, zoomImageIndex)
    }

    constructor ()
      ensures Model() == Empty()
    {
      undoStack := [];
      redoStack := [];
      zoomImageIndex := 0;
    }

    /** addImage(img). */
    method AddImage(img: array2<Rgb>)
      modifies this
      ensures Model() == EditHistory.AddImage(old(Model()), img)
    {
      undoStack := undoStack + [img];
      redoStack := [];
      zoomImageIndex := zoomImageIndex + 1;
    }

    /** addImage(img, zoomed). */
    method AddImageZoomed(img: array2<Rgb>, zoomed: bool)
      modifies this
      ensures Model() == EditHistory.AddImageZoomed(old(Model()), img, zoomed)
    {
      undoStack := undoStack + [img];
      redoStack := [];
      if !zoomed {
        zoomImageIndex := zoomImageIndex + 1;
      }
    }

    /** undoImage. */
    method UndoImage()
      modifies this
      ensures Model() == Undo(old(Model()))
    {
      if |undoStack| > 0 {
        var top := undoStack[|undoStack| - 1];
        undoStack := undoStack[..|undoStack| - 1];
        redoStack := redoStack + [top];
      }
    }

    /** redoImage. */
    method RedoImage()
      modifies this
      ensures Model() == Redo(old(Model()))
    {
      if |redoStack| > 0 {
        var top := redoStack[|redoStack| - 1];
        redoStack := redoStack[..|redoStack| - 1];
        undoStack := undoStack + [top];
      }
    }

    /** getImage: the top of the undo stack, or nothing when it is empty. */
    function GetImage(): (r: Option<array2<Rgb>>)
      reads this
      ensures r.Some? <==> |undoStack| > 0
      ensures r.Some? ==> r.value == undoStack[|undoStack| - 1]
    {
      Current(Model())
    }

    /** getOriginalImage: entry zoomImageIndex - 1 of the undo stack, when that is below the top. */
    function GetOriginalImage(): (r: Option<array2<Rgb>>)
      reads this
      ensures r.Some? <==> 1 <= zoomImageIndex < |undoStack|
      ensures r.Some? ==> r.value == undoStack[zoomImageIndex - 1]
    {
      Original(Model())
    }

    /**
     * readPpmImage over the file's text: only once every pixel is read is the
     * history replaced by that one image. Any failure leaves the editor as it
     * was.
     */
    method ReadPpmImage(text: string) returns (outcome: Outcome)
      modifies this
      ensures outcome.Pass? <==> Decode(text).Success?
      ensures outcome.Fail? ==> outcome.error == Decode(text).error && Model() == old(Model())
      ensures outcome.Pass? ==>
        |undoStack| == 1 && fresh(undoStack[0]) && Snapshot(undoStack[0]) == Decode(text).value &&
        Model() == Load(undoStack[0])
    {
      var read := ScanImage(text);
      if read.Failure? {
        return Fail(read.error);
      }
      undoStack := [];
      redoStack := [];
      zoomImageIndex := 0;
      AddImage(read.value);
      return Pass;
    }

    /**
     * writePpmImage into a text: the header, then the three channels of every
     * pixel row by row, each on a line of its own. With no image it fails
     * with IllegalState.
     */
    method WritePpmImage() returns (r: Result<string>)
      ensures GetImage().None? ==> r == Failure(IllegalState)
      ensures GetImage().Some? ==> r == Success(Encode(Snapshot(GetImage().value)))
      ensures GetImage().Some? && 0 < GetImage().value.Length0 <= IntMax && 0 < GetImage().value.Length1 <= IntMax
        ==> Decode(r.value) == Success(Snapshot(GetImage().value))
    {
      var current := GetImage();
      if current.None? {
        return Failure(IllegalState);
      }
      var text := WriteImage(current.value);
      if 0 < current.value.Length0 <= IntMax && 0 < current.value.Length1 <= IntMax {
        RoundTrip(Snapshot(current.value));
      }
      return Success(text);
    }
  }

  /**
   * The body of readPpmImage up to the history update: the header, then a
   * fresh buffer filled row by row with the pixels read.
   */
  method ScanImage(text: string) returns (r: Result<array2<Rgb>>)
    ensures r.Success? <==> Decode(text).Success?
    ensures r.Failure? ==> r.error == Decode(text).error
    ensures r.Success? ==> fresh(r.value) && Snapshot(r.value) == Decode(text).value
  {
    var header := ScanHeader(text);
    if header.Failure? {
      return Failure(header.error);
    }
    var width, height, pos := header.value.0, header.value.1, header.value.2;
    var img := new Rgb[width, height]((x, y) => Black);
    ghost var body := pos;
    ghost var rows: seq<seq<Rgb>> := [];
    for y := 0 to height
      modifies img
      invariant ReadRows(body, width, y) == Success((rows, pos))
      invariant forall x', y' :: 0 <= x' < width && 0 <= y' < y ==> img[x', y'] == rows[y'][x']
    {
      ghost var rowStart := pos;
      var next := ScanRow(pos, width);
      if next.Failure? {
        assert Decode(text) == Failure(next.error) by {
          ReadFailure(text, body, width, height, y, rows, rowStart);
        }
        return Failure(next.error);
      }
      var row := next.value.0;
      StoreRow(img, y, row);
      pos := next.value.1;
      assert ReadRows(body, width, y + 1) == Success((rows + [row], pos)) by {
        ReadRowsStep(body, width, y + 1, rows, rowStart, row, pos);
      }
      rows := rows + [row];
    }
    SameImage(Snapshot(img), Image(width, height, rows));
    return Success(img);
  }

  /**
   * The header part of readPpmImage: skip the tag line, read width and
   * height, refuse a non-positive dimension as the BufferedImage constructor
   * does, skip the rest of the dimensions line and the maxval line.
   */
  method ScanHeader(text: string) returns (r: Result<(nat, nat, string)>)
    ensures r == ReadHeader(text)
  {
    var tag := NextLine(text);
    if tag.Failure? {
      return Failure(tag.error);
    }
    var widthToken := NextInt(tag.value.1);
    if widthToken.Failure? {
      return Failure(widthToken.error);
    }
    var heightToken := NextInt(widthToken.value.1);
    if heightToken.Failure? {
      return Failure(heightToken.error);
    }
    var width, height := widthToken.value.0, heightToken.value.0;
    if width <= 0 || height <= 0 {
      return Failure(IllegalArgument);
    }
    var dims := NextLine(heightToken.value.1);
    if dims.Failure? {
      return Failure(dims.error);
    }
    var maxval := NextLine(dims.value.1);
    if maxval.Failure? {
      return Failure(maxval.error);
    }
    return Success((width, height, maxval.value.1));
  }

  /** The loops of writePpmImage: the header, then every row in turn. */
  method WriteImage(img: array2<Rgb>) returns (text: string)
    ensures text == Encode(Snapshot(img))
  {
    var header := WriteHeader(img.Length0, img.Length1);
    var rows := WriteRows(img);
    text := header + rows;
  }

  /** The row loop of writePpmImage: every row in turn, top to bottom. */
  method WriteRows(img: array2<Rgb>) returns (text: string)
    ensures text == RowsText(Snapshot(img), img.Length1)
  {
    ghost var snap := Snapshot(img);
    text := "";
    for y := 0 to img.Length1
      invariant text == RowsText(snap, y)
    {
      var line := WriteRow(img, y);
      text := text + line;
    }
  }

  /** The three header writes of writePpmImage. */
  method WriteHeader(width: nat, height: nat) returns (text: string)
    ensures text == Header(width, height)
  {
    text := "P3\n";
    text := text + Decimal(width) + " " + Decimal(height) + "\n";
    text := text + "255\n";
  }

  /** The three channel writes of writePpmImage for one pixel. */
  method WritePixel(color: Rgb) returns (text: string)
    ensures text == PixelText(color)
  {
    text := Decimal(color.red) + "\n";
    text := text + Decimal(color.green) + "\n";
    text := text + Decimal(color.blue) + "\n";
  }

  /** The inner loop of writePpmImage: the red, green and blue of each pixel of row y, each on a line. */
  method WriteRow(img: array2<Rgb>, y: nat) returns (text: string)
    requires y < img.Length1
    ensures text == RowText(Snapshot(img), y, img.Length0)
  {
    ghost var snap := Snapshot(img);
    text := "";
    for x := 0 to img.Length0
      invariant text == RowText(snap, y, x)
    {
      var channels := WritePixel(img[x, y]);
      text := text + channels;
    }
  }

  /**
   * The inner loop of readPpmImage, reading side: width pixels, left to
   * right, each as three nextInt() calls and the range check of
   * new Color(r, g, b). The first failure ends the read.
   */
  method ScanRow(s: string, width: nat) returns (r: Result<(seq<Rgb>, string)>)
    ensures r == ReadRow(s, width)
  {
    var pos := s;
    var row: seq<Rgb> := [];
    for x := 0 to width
      invariant ReadRow(s, x) == Success((row, pos))
    {
      var pixel := ReadPixel(pos);
      if pixel.Failure? {
        ReadRowStepFails(s, x + 1, row, pos);
        ReadRowStaysFailed(s, x + 1, width);
        return Failure(pixel.error);
      }
      ReadRowStep(s, x + 1, row, pos, pixel.value.0, pixel.value.1);
      row := row + [pixel.value.0];
      pos := pixel.value.1;
    }
    r := Success((row, pos));
  }

  /** The inner loop of readPpmImage, storing side: setRGB(x, y, ...) for each pixel of the row read. */
  method StoreRow(img: array2<Rgb>, y: nat, row: seq<Rgb>)
    requires y < img.Length1 && |row| == img.Length0
    modifies img
    ensures forall x :: 0 <= x < img.Length0 ==> img[x, y] == row[x]
    ensures forall x, y' :: 0 <= x < img.Length0 && 0 <= y' < img.Length1 && y' != y ==> img[x, y'] == old(img[x, y'])
  {
    for x := 0 to img.Length0
      invariant forall x' :: 0 <= x' < x ==> img[x', y] == row[x']
      invariant forall x', y' :: 0 <= x' < img.Length0 && 0 <= y' < img.Length1 && y' != y ==> img[x', y'] == old(img[x', y'])
    {
      img[x, y] := row[x];
    }
  }

  /** A row that cannot be read fails the whole decode with its error. */
  lemma ReadFailure(text: string, body: string, width: nat, height: nat, y: nat,
                    rows: seq<seq<Rgb>>, rowStart: string)
    requires ReadHeader(text) == Success((width, height, body))
    requires y < height
    requires ReadRows(body, width, y) == Success((rows, rowStart))
    requires ReadRow(rowStart, width).Failure?
    ensures Decode(text) == Failure(ReadRow(rowStart, width).error)
  {
    ReadRowsStepFails(body, width, y + 1, rows, rowStart);
    ReadRowsStaysFailed(body, width, y + 1, height);
  }
}
