/**
 * The plain ("P3") PPM text the editor writes and reads: a tag line, a
 * "width height" line, the maximum channel value 255 on its own line, then
 * every channel of every pixel on a line of its own, row by row, red, green
 * and blue in turn.
 */
module PpmCodec {
  import opened Wrappers
  import opened Pixels
  import opened TextScan

  // ---------------------------------------------------------------- writing

  /** The three lines one pixel is written as. */
  function PixelText(p: Rgb): string {
    Decimal(p.red) + "\n" + Decimal(p.green) + "\n" + Decimal(p.blue) + "\n"
  }

  /** The text of the first x pixels of row y. */
  function RowText(img: Image, y: int, x: nat): string
    requires img.Valid() && 0 <= y < img.height && x <= img.width
  {
    if x == 0 then "" else RowText(img, y, x - 1) + PixelText(img.At(x - 1, y))
  }

  /** The text of the first k rows. */
  function RowsText(img: Image, k: nat): string
    requires img.Valid() && k <= img.height
  {
    if k == 0 then "" else RowsText(img, k - 1) + RowText(img, k - 1, img.width)
  }

  /** The three header lines. */
  function Header(width: nat, height: nat): string {
    "P3\n" + Decimal(width) + " " + Decimal(height) + "\n" + "255\n"
  }

  /** The whole file the writer produces for img: three header lines, then one line per channel. */
  function Encode(img: Image): (r: string)
    requires img.Valid()
    ensures LineCount(r) == 3 + 3 * img.width * img.height
  {
    var header, body := Header(img.width, img.height), RowsText(img, img.height);
    HeaderLineCount(img.width, img.height);
    RowsLineCount(img, img.height);
    LinesValue(img.width, img.height);
    LineCountConcat(header, body);
    header + body
  }

  /** The number of line terminators in s. */
  function LineCount(s: string): nat {
    if s == [] then 0 else LineCount(s[..|s| - 1]) + (if s[|s| - 1] == '\n' then 1 else 0)
  }

  lemma {:induction false} LineCountConcat(a: string, b: string)
    ensures LineCount(a + b) == LineCount(a) + LineCount(b)
  {
    if b == [] {
      assert a + b == a;
    } else {
      assert (a + b)[..|a + b| - 1] == a + b[..|b| - 1];
      LineCountConcat(a, b[..|b| - 1]);
    }
  }

  lemma {:induction false} DecimalLineCount(n: nat)
    ensures LineCount(Decimal(n)) == 0
  {
    if n >= 10 {
      var d := Decimal(n);
      assert d[..|d| - 1] == Decimal(n / 10);
      DecimalLineCount(n / 10);
    }
  }

  lemma HeaderLineCount(width: nat, height: nat)
    ensures LineCount(Header(width, height)) == 3
  {
    var w, h := Decimal(width), Decimal(height);
    DecimalLineCount(width);
    DecimalLineCount(height);
    LineCountConcat("P3\n" + w + " " + h + "\n", "255\n");
    LineCountConcat("P3\n" + w + " " + h, "\n");
    LineCountConcat("P3\n" + w + " ", h);
    LineCountConcat("P3\n" + w, " ");
    LineCountConcat("P3\n", w);
    assert LineCount("P3\n") == 1 by {
      assert "P3\n"[..2] == "P3" && "P3"[..1] == "P" && "P"[..0] == "";
    }
    assert LineCount("255\n") == 1 by {
      assert "255\n"[..3] == "255" && "255"[..2] == "25" && "25"[..1] == "2" && "2"[..0] == "";
    }
    assert LineCount(" ") == 0 && LineCount("\n") == 1 by {
      assert " "[..0] == "" && "\n"[..0] == "";
    }
  }

  lemma PixelLineCount(p: Rgb)
    ensures LineCount(PixelText(p)) == 3
  {
    var r, g, b := Decimal(p.red), Decimal(p.green), Decimal(p.blue);
    DecimalLineCount(p.red);
    DecimalLineCount(p.green);
    DecimalLineCount(p.blue);
    LineCountConcat(r + "\n" + g + "\n" + b, "\n");
    LineCountConcat(r + "\n" + g + "\n", b);
    LineCountConcat(r + "\n" + g, "\n");
    LineCountConcat(r + "\n", g);
    LineCountConcat(r, "\n");
    assert LineCount("\n") == 1;
  }

  lemma {:induction false} RowLineCount(img: Image, y: int, x: nat)
    requires img.Valid() && 0 <= y < img.height && x <= img.width
    ensures LineCount(RowText(img, y, x)) == 3 * x
  {
    if x > 0 {
      RowLineCount(img, y, x - 1);
      PixelLineCount(img.At(x - 1, y));
      CountStep(RowText(img, y, x - 1), PixelText(img.At(x - 1, y)), RowText(img, y, x), 3 * (x - 1), 3);
    }
  }

  lemma {:induction false} RowsLineCount(img: Image, k: nat)
    requires img.Valid() && k <= img.height
    ensures LineCount(RowsText(img, k)) == Lines(img.width, k)
  {
    if k > 0 {
      RowsLineCount(img, k - 1);
      RowLineCount(img, k - 1, img.width);
      CountStep(RowsText(img, k - 1), RowText(img, k - 1, img.width), RowsText(img, k), Lines(img.width, k - 1), 3 * img.width);
    }
  }

  lemma CountStep(before: string, after: string, whole: string, m: nat, n: nat)
    requires whole == before + after && LineCount(before) == m && LineCount(after) == n
    ensures LineCount(whole) == m + n
  {
    LineCountConcat(before, after);
  }

  /** Three lines for each of the width pixels of k rows, added up row by row. */
  function Lines(width: nat, k: nat): nat {
    if k == 0 then 0 else Lines(width, k - 1) + 3 * width
  }

  lemma {:induction false} LinesValue(width: nat, k: nat)
    ensures Lines(width, k) == 3 * width * k
  {
    if k > 0 {
      LinesValue(width, k - 1);
    }
  }

  // ---------------------------------------------------------------- reading

  /** Three nextInt() calls, then the range check of `new Color(r, g, b)`. */
  function ReadPixel(s: string): Result<(Rgb, string)> {
    var red :- NextInt(s);
    var green :- NextInt(red.1);
    var blue :- NextInt(green.1);
    if 0 <= red.0 <= 255 && 0 <= green.0 <= 255 && 0 <= blue.0 <= 255 then
      Success((Rgb(red.0, green.0, blue.0), blue.1))
    else
      Failure(IllegalArgument)
  }

  /** The first n pixels of a row, read left to right, and the text after them. */
  function ReadRow(s: string, n: nat): (r: Result<(seq<Rgb>, string)>)
    ensures r.Success? ==> |r.value.0| == n
  {
    if n == 0 then Success(([], s))
    else
      var before :- ReadRow(s, n - 1);
      var pixel :- ReadPixel(before.1);
      Success((before.0 + [pixel.0], pixel.1))
  }

  /** The first k rows of `width` pixels each, read top to bottom, and the text after them. */
  function ReadRows(s: string, width: nat, k: nat): (r: Result<(seq<seq<Rgb>>, string)>)
    ensures r.Success? ==> |r.value.0| == k && forall y :: 0 <= y < k ==> |r.value.0[y]| == width
  {
    if k == 0 then Success(([], s))
    else
      var before :- ReadRows(s, width, k - 1);
      var row :- ReadRow(before.1, width);
      Success((before.0 + [row.0], row.1))
  }

  /**
   * The header as readPpmImage consumes it: skip the tag line, read width and
   * height, reject a non-positive dimension (the BufferedImage constructor),
   * then skip the rest of that line and the maxval line. The result holds the
   * dimensions and the text where the pixels begin.
   */
  function ReadHeader(s: string): (r: Result<(nat, nat, string)>)
    ensures r.Success? ==> r.value.0 > 0 && r.value.1 > 0
  {
    var tag :- NextLine(s);
    var width :- NextInt(tag.1);
    var height :- NextInt(width.1);
    if width.0 <= 0 || height.0 <= 0 then Failure(IllegalArgument)
    else
      var dims :- NextLine(height.1);
      var maxval :- NextLine(dims.1);
      Success((width.0, height.0, maxval.1))
  }

  /** What readPpmImage reads: the header, then height rows of width pixels. Anything after them is ignored. */
  function Decode(s: string): (r: Result<Image>)
    ensures r.Success? ==> r.value.Valid() && r.value.width > 0 && r.value.height > 0
  {
    var header :- ReadHeader(s);
    var pixels :- ReadRows(header.2, header.0, header.1);
    Success(Image(header.0, header.1, pixels.0))
  }

  /**
   * The header read fails at the first step that fails, in the source's
   * order: no tag line (NoSuchElement), a width or height nextInt() failure
   * (its own error), a non-positive dimension (IllegalArgument, before any
   * further line is read), then a missing rest of the dimensions line or
   * maxval line (NoSuchElement). When every step succeeds the result is the
   * two ints read and the text after the maxval line.
   */
  lemma ReadHeaderOutcome(s: string)
    ensures s == [] ==> ReadHeader(s) == Failure(NoSuchElement)
    ensures s != [] ==>
      var t := SplitLine(s).1;
      (NextInt(t).Failure? ==> ReadHeader(s) == Failure(NextInt(t).error)) &&
      (NextInt(t).Success? ==>
        var (w, a) := NextInt(t).value;
        (NextInt(a).Failure? ==> ReadHeader(s) == Failure(NextInt(a).error)) &&
        (NextInt(a).Success? ==>
          var (h, b) := NextInt(a).value;
          if w <= 0 || h <= 0 then ReadHeader(s) == Failure(IllegalArgument)
          else if b == [] || SplitLine(b).1 == [] then ReadHeader(s) == Failure(NoSuchElement)
          else ReadHeader(s) == Success((w, h, SplitLine(SplitLine(b).1).1))))
  {
  }

  /** A header that cannot be read fails the whole decode with its error. */
  lemma DecodeHeaderFails(s: string)
    requires ReadHeader(s).Failure?
    ensures Decode(s) == Failure(ReadHeader(s).error)
  {
  }

  /**
   * A pixel read fails only as one of its nextInt() calls fails, with that
   * call's error, or as the Color constructor refuses a channel outside
   * 0..255. When the three ints are read, the pixel is exactly those three
   * values. A pixel read moves strictly forward.
   */
  lemma ReadPixelOutcome(s: string)
    ensures ReadPixel(s).Failure? ==>
      ReadPixel(s).error == NoSuchElement || ReadPixel(s).error == InputMismatch || ReadPixel(s).error == IllegalArgument
    ensures NextInt(s).Failure? ==> ReadPixel(s) == Failure(NextInt(s).error)
    ensures NextInt(s).Success? && NextInt(NextInt(s).value.1).Failure? ==>
      ReadPixel(s) == Failure(NextInt(NextInt(s).value.1).error)
    ensures NextInt(s).Success? && NextInt(NextInt(s).value.1).Success? ==>
      var (v1, a) := NextInt(s).value;
      var (v2, b) := NextInt(a).value;
      (NextInt(b).Failure? ==> ReadPixel(s) == Failure(NextInt(b).error)) &&
      (NextInt(b).Success? ==>
        var (v3, c) := NextInt(b).value;
        if 0 <= v1 <= 255 && 0 <= v2 <= 255 && 0 <= v3 <= 255
        then ReadPixel(s) == Success((Rgb(v1, v2, v3), c))
        else ReadPixel(s) == Failure(IllegalArgument))
    ensures ReadPixel(s).Success? ==> var rest := ReadPixel(s).value.1; |rest| < |s| && rest == s[|s| - |rest|..]
  {
    NextIntOutcome(s);
    if NextInt(s).Success? {
      var a := NextInt(s).value.1;
      NextIntOutcome(a);
      if NextInt(a).Success? {
        var b := NextInt(a).value.1;
        NextIntOutcome(b);
        if NextInt(b).Success? {
          var c := NextInt(b).value.1;
          SuffixOfSuffix(s, a, b);
          SuffixOfSuffix(s, b, c);
        }
      }
    }
  }

  lemma SuffixOfSuffix(s: string, a: string, b: string)
    requires |a| <= |s| && a == s[|s| - |a|..] && |b| <= |a| && b == a[|a| - |b|..]
    ensures b == s[|s| - |b|..]
  {
  }

  /** One more pixel of a row: the row so far, then the pixel read after it. */
  lemma ReadRowStep(s: string, n: nat, row: seq<Rgb>, left: string, pixel: Rgb, after: string)
    requires n > 0 && ReadRow(s, n - 1) == Success((row, left))
    requires ReadPixel(left) == Success((pixel, after))
    ensures ReadRow(s, n) == Success((row + [pixel], after))
  {
  }

  /** A pixel that cannot be read fails the row with its error. */
  lemma ReadRowStepFails(s: string, n: nat, row: seq<Rgb>, left: string)
    requires n > 0 && ReadRow(s, n - 1) == Success((row, left)) && ReadPixel(left).Failure?
    ensures ReadRow(s, n) == Failure(ReadPixel(left).error)
  {
  }

  /** One more row: the rows so far, then the row read after them. */
  lemma ReadRowsStep(s: string, width: nat, k: nat, rows: seq<seq<Rgb>>, left: string,
                     row: seq<Rgb>, after: string)
    requires k > 0 && ReadRows(s, width, k - 1) == Success((rows, left))
    requires ReadRow(left, width) == Success((row, after))
    ensures ReadRows(s, width, k) == Success((rows + [row], after))
  {
  }

  /** A row that cannot be read fails the rows with its error. */
  lemma ReadRowsStepFails(s: string, width: nat, k: nat, rows: seq<seq<Rgb>>, left: string)
    requires k > 0 && ReadRows(s, width, k - 1) == Success((rows, left)) && ReadRow(left, width).Failure?
    ensures ReadRows(s, width, k) == Failure(ReadRow(left, width).error)
  {
  }

  // ---------------------------------------------------------------- failures persist

  /** A row whose first k pixels cannot be read cannot be read at any longer length either. */
  lemma {:induction false} ReadRowStaysFailed(s: string, k: nat, m: nat)
    requires k <= m && ReadRow(s, k).Failure?
    ensures ReadRow(s, m) == ReadRow(s, k)
  {
    if k < m {
      ReadRowStaysFailed(s, k, m - 1);
    }
  }

  /** Likewise for the rows: the first failure is the one reported. */
  lemma {:induction false} ReadRowsStaysFailed(s: string, width: nat, k: nat, m: nat)
    requires k <= m && ReadRows(s, width, k).Failure?
    ensures ReadRows(s, width, m) == ReadRows(s, width, k)
  {
    if k < m {
      ReadRowsStaysFailed(s, width, k, m - 1);
    }
  }

  // ---------------------------------------------------------------- round trip

  lemma ReadPixelText(pre: string, p: Rgb, rest: string)
    requires AllWhitespace(pre)
    ensures ReadPixel(pre + PixelText(p) + rest) == Success((p, "\n" + rest))
  {
    var afterBlue := "\n" + rest;
    var afterGreen := "\n" + Decimal(p.blue) + afterBlue;
    var afterRed := "\n" + Decimal(p.green) + afterGreen;
    assert pre + PixelText(p) + rest == pre + Decimal(p.red) + afterRed;
    assert AllWhitespace("\n");
    NextIntOfDecimal(pre, p.red, afterRed);
    NextIntOfDecimal("\n", p.green, afterGreen);
    NextIntOfDecimal("\n", p.blue, afterBlue);
  }

  lemma Regroup(a: string, b: string, c: string, d: string)
    ensures a + (b + c) + d == a + b + (c + d)
  {
  }

  lemma PrefixStep<T>(s: seq<T>, k: nat)
    requires 0 < k <= |s|
    ensures s[..k - 1] + [s[k - 1]] == s[..k]
  {
  }

  /** Reading x > 0 pixels back from the text of x pixels, after any delimiters. */
  lemma {:induction false} ReadRowText(pre: string, img: Image, y: int, x: nat, rest: string)
    requires AllWhitespace(pre) && img.Valid() && 0 <= y < img.height && 0 < x <= img.width
    ensures ReadRow(pre + RowText(img, y, x) + rest, x) == Success((img.rows[y][..x], "\n" + rest))
  {
    var p := img.At(x - 1, y);
    var s := pre + RowText(img, y, x) + rest;
    if x == 1 {
      assert RowText(img, y, x) == "" + PixelText(p) == PixelText(p);
      assert s == pre + (PixelText(p) + rest);
      assert ReadRow(s, 0) == Success(([], pre + (PixelText(p) + rest)));
      ReadPixelLead(pre, p, rest);
      ReadRowStep(s, 1, [], pre + (PixelText(p) + rest), p, "\n" + rest);
    } else {
      ReadRowText(pre, img, y, x - 1, PixelText(p) + rest);
      Regroup(pre, RowText(img, y, x - 1), PixelText(p), rest);
      assert ReadRow(s, x - 1) == Success((img.rows[y][..x - 1], "\n" + (PixelText(p) + rest)));
      assert AllWhitespace("\n");
      ReadPixelLead("\n", p, rest);
      ReadRowStep(s, x, img.rows[y][..x - 1], "\n" + (PixelText(p) + rest), p, "\n" + rest);
    }
    PrefixStep(img.rows[y], x);
  }

  /** A pixel after delimiters: the first of a row after the header or the row before, or the newline ending the pixel before. */
  lemma ReadPixelLead(lead: string, p: Rgb, rest: string)
    requires AllWhitespace(lead)
    ensures ReadPixel(lead + (PixelText(p) + rest)) == Success((p, "\n" + rest))
  {
    assert lead + (PixelText(p) + rest) == lead + PixelText(p) + rest;
    ReadPixelText(lead, p, rest);
  }

  /** Reading k > 0 rows back from the text of k rows, after any delimiters. */
  lemma {:induction false} ReadRowsText(pre: string, img: Image, k: nat, rest: string)
    requires AllWhitespace(pre) && img.Valid() && img.width > 0 && 0 < k <= img.height
    ensures ReadRows(pre + RowsText(img, k) + rest, img.width, k) == Success((img.rows[..k], "\n" + rest))
  {
    var row := RowText(img, k - 1, img.width);
    var s := pre + RowsText(img, k) + rest;
    if k == 1 {
      assert RowsText(img, k) == "" + row == row;
      assert s == pre + (row + rest);
      assert ReadRows(s, img.width, 0) == Success(([], pre + (row + rest)));
      ReadRowLead(pre, img, 0, rest);
      ReadRowsStep(s, img.width, 1, [], pre + (row + rest), img.rows[0], "\n" + rest);
    } else {
      ReadRowsText(pre, img, k - 1, row + rest);
      Regroup(pre, RowsText(img, k - 1), row, rest);
      assert ReadRows(s, img.width, k - 1) == Success((img.rows[..k - 1], "\n" + (row + rest)));
      assert AllWhitespace("\n");
      ReadRowLead("\n", img, k - 1, rest);
      ReadRowsStep(s, img.width, k, img.rows[..k - 1], "\n" + (row + rest), img.rows[k - 1], "\n" + rest);
    }
    PrefixStep(img.rows, k);
  }

  /** A whole row after delimiters. */
  lemma ReadRowLead(lead: string, img: Image, y: int, rest: string)
    requires AllWhitespace(lead) && img.Valid() && img.width > 0 && 0 <= y < img.height
    ensures ReadRow(lead + (RowText(img, y, img.width) + rest), img.width) == Success((img.rows[y], "\n" + rest))
  {
    var row := RowText(img, y, img.width);
    assert lead + (row + rest) == lead + row + rest;
    ReadRowText(lead, img, y, img.width, rest);
    assert img.rows[y][..img.width] == img.rows[y];
  }

  /** Reading what the writer wrote gives back the same image. */
  lemma RoundTrip(img: Image)
    requires img.Valid()
    requires 0 < img.width <= IntMax && 0 < img.height <= IntMax
    ensures Decode(Encode(img)) == Success(img)
  {
    var w, h := img.width, img.height;
    var body := RowsText(img, h);
    HeaderText(w, h, body);
    assert body == "" + body + "";
    ReadRowsText("", img, h, "");
    assert img.rows[..h] == img.rows;
  }

  /** The header the writer emits reads back as its dimensions, leaving the pixel text. */
  lemma HeaderText(w: nat, h: nat, body: string)
    requires 0 < w <= IntMax && 0 < h <= IntMax
    ensures ReadHeader(Header(w, h) + body) == Success((w, h, body))
  {
    var afterDims := "255\n" + body;
    var afterHeight := "\n" + afterDims;
    var afterWidth := " " + Decimal(h) + afterHeight;
    var afterTag := Decimal(w) + afterWidth;
    assert Header(w, h) + body == "P3" + "\n" + afterTag;
    HeaderDimensions(w, h, afterHeight);
    HeaderLines(body);
  }

  /** The tag line, then the two dimensions, each followed by a delimiter. */
  lemma HeaderDimensions(w: nat, h: nat, afterHeight: string)
    requires w <= IntMax && h <= IntMax && |afterHeight| > 0 && afterHeight[0] == '\n'
    ensures NextLine("P3" + "\n" + (Decimal(w) + (" " + Decimal(h) + afterHeight))) ==
      Success(("P3", Decimal(w) + (" " + Decimal(h) + afterHeight)))
    ensures NextInt(Decimal(w) + (" " + Decimal(h) + afterHeight)) == Success((w, " " + Decimal(h) + afterHeight))
    ensures NextInt(" " + Decimal(h) + afterHeight) == Success((h, afterHeight))
  {
    var afterWidth := " " + Decimal(h) + afterHeight;
    assert NoLineSeparator("P3");
    NextLineOf("P3", Decimal(w) + afterWidth);
    assert Decimal(w) + afterWidth == "" + Decimal(w) + afterWidth;
    assert AllWhitespace("") && AllWhitespace(" ");
    assert afterWidth[0] == ' ';
    NextIntOfDecimal("", w, afterWidth);
    NextIntOfDecimal(" ", h, afterHeight);
  }

  /** The rest of the dimensions line, then the maxval line. */
  lemma HeaderLines(body: string)
    ensures NextLine("\n" + ("255\n" + body)) == Success(("", "255\n" + body))
    ensures NextLine("255\n" + body) == Success(("255", body))
  {
    assert "\n" + ("255\n" + body) == "" + "\n" + ("255\n" + body);
    NextLineOf("", "255\n" + body);
    assert "255\n" + body == "255" + "\n" + body;
    NextLineOf("255", body);
  }
}
