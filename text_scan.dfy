/**
 * The two java.util.Scanner calls the image reader makes, nextInt() and
 * nextLine(), and the decimal rendering of non-negative ints the writer relies
 * on, over the text that remains to be read.
 */
module TextScan {
  import opened Wrappers

  const IntMin: int := -0x8000_0000
  const IntMax: int := 0x7FFF_FFFF

  /** The delimiters between tokens (Character.isWhitespace on ASCII). */
  predicate IsWhitespace(c: char) {
    9 <= c as int <= 13 || 28 <= c as int <= 32
  }

  /** The characters that end a line for nextLine(). */
  predicate IsLineSeparator(c: char) {
    c == '\n' || c == '\r' || c as int == 0x85 || c as int == 0x2028 || c as int == 0x2029
  }

  predicate IsDigit(c: char) {
    '0' <= c <= '9'
  }

  predicate AllDigits(s: string) {
    forall i :: 0 <= i < |s| ==> IsDigit(s[i])
  }

  predicate AllWhitespace(s: string) {
    forall i :: 0 <= i < |s| ==> IsWhitespace(s[i])
  }

  predicate NoWhitespace(s: string) {
    forall i :: 0 <= i < |s| ==> !IsWhitespace(s[i])
  }

  predicate NoLineSeparator(s: string) {
    forall i :: 0 <= i < |s| ==> !IsLineSeparator(s[i])
  }

  /** Drops the delimiters in front of the next token. */
  function SkipWhitespace(s: string): string {
    if s != [] && IsWhitespace(s[0]) then SkipWhitespace(s[1..]) else s
  }

  /** Splits off the longest prefix without whitespace: the next token. */
  function TakeToken(s: string): (string, string) {
    if s == [] || IsWhitespace(s[0]) then ([], s)
    else
      var (token, rest) := TakeToken(s[1..]);
      ([s[0]] + token, rest)
  }

  /** 10 to the power k. */
  function Pow10(k: nat): (r: nat)
    ensures r > 0
  {
    if k == 0 then 1 else 10 * Pow10(k - 1)
  }

  /** The number a non-empty string of decimal digits denotes (leading zeros allowed), or None. */
  function ParseDigits(s: string): Option<nat> {
    if s == [] || !IsDigit(s[|s| - 1]) then None
    else
      var d := s[|s| - 1] as int - '0' as int;
      if |s| == 1 then Some(d)
      else match ParseDigits(s[..|s| - 1])
        case None => None
        case Some(v) => Some(v * 10 + d)
  }

  /** The token starts with a sign. */
  predicate HasSign(token: string) {
    |token| > 0 && (token[0] == '-' || token[0] == '+')
  }

  /** The token without its optional sign. */
  function Unsigned(token: string): string {
    if HasSign(token) then token[1..] else token
  }

  /** Scanner's integer syntax in radix 10: an optional sign, then one or more digits, within int range. */
  function ParseInt(token: string): (r: Option<int>)
    ensures r.Some? ==> IntMin <= r.value <= IntMax
  {
    var signed := |token| > 0 && (token[0] == '-' || token[0] == '+');
    match ParseDigits(if signed then token[1..] else token)
    case None => None
    case Some(magnitude) =>
      var v: int := if signed && token[0] == '-' then -(magnitude as int) else magnitude;
      if IntMin <= v <= IntMax then Some(v) else None
  }

  /** Exactly the non-empty digit strings parse, to a value below 10^|s|. */
  lemma {:induction false} ParseDigitsSyntax(s: string)
    ensures ParseDigits(s).Some? <==> s != [] && AllDigits(s)
    ensures ParseDigits(s).Some? ==> ParseDigits(s).value < Pow10(|s|)
  {
    if |s| > 1 {
      ParseDigitsSyntax(s[..|s| - 1]);
      assert forall i :: 0 <= i < |s| - 1 ==> s[..|s| - 1][i] == s[i];
    }
  }

  /**
   * The tokens ParseInt accepts: an empty token, a lone sign or any
   * character other than a digit after the optional sign is refused; up to
   * nine digits always fit in an int; a negative value needs a leading minus.
   */
  lemma ParseIntSyntax(token: string)
    ensures Unsigned(token) == [] || !AllDigits(Unsigned(token)) ==> ParseInt(token) == None
    ensures Unsigned(token) != [] && AllDigits(Unsigned(token)) && |Unsigned(token)| <= 9 ==> ParseInt(token).Some?
    ensures ParseInt(token).Some? && ParseInt(token).value < 0 ==> token[0] == '-'
  {
    ParseDigitsSyntax(Unsigned(token));
    NineDigitsFit(|Unsigned(token)|);
  }

  /** Any number of at most nine digits is below 10^9, well inside the int range. */
  lemma NineDigitsFit(k: nat)
    ensures k <= 9 ==> Pow10(k) <= 1_000_000_000
  {
    if k <= 9 {
      Pow10Monotone(k, 9);
      assert Pow10(9) == 1_000_000_000;
    }
  }

  lemma {:induction false} Pow10Monotone(j: nat, k: nat)
    requires j <= k
    ensures Pow10(j) <= Pow10(k)
  {
    if j < k {
      Pow10Monotone(j, k - 1);
    }
  }

  /** Scanner.nextInt(): the int value of the next token and the text after it. */
  function NextInt(s: string): Result<(int, string)> {
    var t := SkipWhitespace(s);
    if t == [] then Failure(NoSuchElement)
    else
      var (token, rest) := TakeToken(t);
      match ParseInt(token)
      case None => Failure(InputMismatch)
      case Some(v) => Success((v, rest))
  }

  /** The rest of the current line and the text after its separator ("\r\n" counts as one). */
  function SplitLine(s: string): (string, string) {
    if s == [] then ([], [])
    else if s[0] == '\r' && |s| > 1 && s[1] == '\n' then ([], s[2..])
    else if IsLineSeparator(s[0]) then ([], s[1..])
    else
      var (line, rest) := SplitLine(s[1..]);
      ([s[0]] + line, rest)
  }

  /** Scanner.nextLine(): fails only when no text is left. */
  function NextLine(s: string): Result<(string, string)> {
    if s == [] then Failure(NoSuchElement) else Success(SplitLine(s))
  }

  function DigitChar(d: int): char
    requires 0 <= d < 10
  {
    ('0' as int + d) as char
  }

  /** Integer.toString(n) for n >= 0: the shortest decimal spelling. */
  function Decimal(n: nat): (s: string)
    ensures |s| > 0 && AllDigits(s)
    ensures s[0] == '0' ==> n == 0
  {
    if n < 10 then [DigitChar(n)] else Decimal(n / 10) + [DigitChar(n % 10)]
  }

  /** Reading back the decimal spelling gives the number. */
  lemma {:induction false} DecimalValue(n: nat)
    ensures ParseDigits(Decimal(n)) == Some(n)
  {
    if n >= 10 {
      var s := Decimal(n);
      assert s[..|s| - 1] == Decimal(n / 10);
      DecimalValue(n / 10);
    }
  }

  /** nextInt() reads a written non-negative int back. */
  lemma ParseDecimal(n: nat)
    requires n <= IntMax
    ensures ParseInt(Decimal(n)) == Some(n)
  {
    DecimalValue(n);
  }

  /** Only delimiters are skipped: nothing is left exactly when the text is all delimiters. */
  lemma {:induction false} SkipWhitespaceEmpty(s: string)
    ensures SkipWhitespace(s) == [] <==> AllWhitespace(s)
  {
    if s != [] && IsWhitespace(s[0]) {
      SkipWhitespaceEmpty(s[1..]);
      if AllWhitespace(s[1..]) {
        forall i | 0 <= i < |s| ensures IsWhitespace(s[i]) {
          if i > 0 { assert s[i] == s[1..][i - 1]; }
        }
      }
      if AllWhitespace(s) {
        forall i | 0 <= i < |s[1..]| ensures IsWhitespace(s[1..][i]) {
          assert s[1..][i] == s[i + 1];
        }
      }
    }
  }

  /** What is left after skipping delimiters is a suffix of the text, starting with a non-delimiter if anything. */
  lemma {:induction false} SkipWhitespaceSuffix(s: string)
    ensures var t := SkipWhitespace(s); |t| <= |s| && t == s[|s| - |t|..] && (t == [] || !IsWhitespace(t[0]))
  {
    if s != [] && IsWhitespace(s[0]) {
      SkipWhitespaceSuffix(s[1..]);
    }
  }

  /** A token and the text after it make up the text, and the token is non-empty when the text starts with one. */
  lemma {:induction false} TakeTokenSplits(s: string)
    ensures TakeToken(s).0 + TakeToken(s).1 == s
    ensures s != [] && !IsWhitespace(s[0]) ==> |TakeToken(s).0| > 0
  {
    if s != [] && !IsWhitespace(s[0]) {
      TakeTokenSplits(s[1..]);
      assert [s[0]] + s[1..] == s;
    }
  }

  /**
   * nextInt(): NoSuchElement exactly when only delimiters are left, otherwise
   * InputMismatch for a token that is not an int; a value read is an int and
   * the scan moves strictly forward.
   */
  lemma NextIntOutcome(s: string)
    ensures NextInt(s) == Failure(NoSuchElement) <==> AllWhitespace(s)
    ensures NextInt(s).Failure? ==> NextInt(s).error == NoSuchElement || NextInt(s).error == InputMismatch
    ensures NextInt(s).Success? ==>
      var rest := NextInt(s).value.1;
      IntMin <= NextInt(s).value.0 <= IntMax && |rest| < |s| && rest == s[|s| - |rest|..]
  {
    SkipWhitespaceEmpty(s);
    SkipWhitespaceSuffix(s);
    var t := SkipWhitespace(s);
    if t != [] {
      TakeTokenSplits(t);
      var (token, rest) := TakeToken(t);
      assert rest == t[|token|..];
    }
  }

  /** The line returned holds no separator, is a prefix of the text, and what follows is a strictly shorter suffix. */
  lemma {:induction false} SplitLineSplits(s: string)
    ensures var (line, rest) := SplitLine(s);
      NoLineSeparator(line) && line <= s && |line| + |rest| <= |s| && rest == s[|s| - |rest|..] &&
      (s != [] ==> |rest| < |s|)
  {
    if s != [] && !(s[0] == '\r' && |s| > 1 && s[1] == '\n') && !IsLineSeparator(s[0]) {
      SplitLineSplits(s[1..]);
      var (line, rest) := SplitLine(s[1..]);
      assert SplitLine(s).0 == [s[0]] + line;
      forall i | 0 <= i < |[s[0]] + line| ensures !IsLineSeparator(([s[0]] + line)[i]) {
        if i > 0 { assert ([s[0]] + line)[i] == line[i - 1]; }
      }
    }
  }

  /** nextLine(): NoSuchElement exactly when no text is left; otherwise a line without separators, and the scan moves strictly forward. */
  lemma NextLineOutcome(s: string)
    ensures NextLine(s).Failure? <==> s == []
    ensures NextLine(s).Failure? ==> NextLine(s).error == NoSuchElement
    ensures NextLine(s).Success? ==>
      var (line, rest) := NextLine(s).value;
      NoLineSeparator(line) && line <= s && |rest| < |s| && rest == s[|s| - |rest|..]
  {
    SplitLineSplits(s);
  }

  lemma {:induction false} SkipWhitespacePrefix(pre: string, s: string)
    requires AllWhitespace(pre)
    requires s == [] || !IsWhitespace(s[0])
    ensures SkipWhitespace(pre + s) == s
  {
    if pre != [] {
      assert (pre + s)[1..] == pre[1..] + s;
      SkipWhitespacePrefix(pre[1..], s);
    }
  }

  lemma {:induction false} TakeWholeToken(token: string, rest: string)
    requires NoWhitespace(token)
    requires rest == [] || IsWhitespace(rest[0])
    ensures TakeToken(token + rest) == (token, rest)
  {
    if token == [] {
      assert token + rest == rest;
    } else {
      var s := token + rest;
      assert s[0] == token[0] && !IsWhitespace(s[0]);
      assert s[1..] == token[1..] + rest;
      TakeWholeToken(token[1..], rest);
      assert [token[0]] + token[1..] == token;
    }
  }

  /** nextInt() skips delimiters, reads the decimal spelling of n and stops at the delimiter after it. */
  lemma NextIntOfDecimal(pre: string, n: nat, rest: string)
    requires AllWhitespace(pre) && n <= IntMax
    requires rest == [] || IsWhitespace(rest[0])
    ensures NextInt(pre + Decimal(n) + rest) == Success((n, rest))
  {
    var d := Decimal(n);
    assert pre + d + rest == pre + (d + rest);
    SkipWhitespacePrefix(pre, d + rest);
    assert NoWhitespace(d) by {
      forall i | 0 <= i < |d| ensures !IsWhitespace(d[i]) {
        assert IsDigit(d[i]);
      }
    }
    TakeWholeToken(d, rest);
    ParseDecimal(n);
  }

  /**
   * What a decimal token stands for: n itself, or -n after a minus sign,
   * accepted exactly when that value lies in the int range.
   */
  lemma ParseSignedDecimal(n: nat)
    ensures ParseInt(Decimal(n)) == (if n <= IntMax then Some(n) else None)
    ensures var v: int := -(n as int); ParseInt("-" + Decimal(n)) == (if v >= IntMin then Some(v) else None)
  {
    DecimalValue(n);
    assert ("-" + Decimal(n))[1..] == Decimal(n);
  }

  /** nextInt() refuses a token that is not an optional sign followed by digits, with InputMismatch. */
  lemma NextIntOfMalformed(pre: string, token: string, rest: string)
    requires AllWhitespace(pre) && token != [] && NoWhitespace(token)
    requires rest == [] || IsWhitespace(rest[0])
    requires Unsigned(token) == [] || !AllDigits(Unsigned(token))
    ensures NextInt(pre + token + rest) == Failure(InputMismatch)
  {
    assert pre + token + rest == pre + (token + rest);
    SkipWhitespacePrefix(pre, token + rest);
    TakeWholeToken(token, rest);
    ParseIntSyntax(token);
  }

  /** nextInt() refuses a well-formed number beyond the int range, with InputMismatch. */
  lemma NextIntOutOfRange(pre: string, n: nat, rest: string)
    requires AllWhitespace(pre) && n > IntMax
    requires rest == [] || IsWhitespace(rest[0])
    ensures NextInt(pre + Decimal(n) + rest) == Failure(InputMismatch)
  {
    var d := Decimal(n);
    assert pre + d + rest == pre + (d + rest);
    SkipWhitespacePrefix(pre, d + rest);
    assert NoWhitespace(d) by {
      forall i | 0 <= i < |d| ensures !IsWhitespace(d[i]) {
        assert IsDigit(d[i]);
      }
    }
    TakeWholeToken(d, rest);
    ParseSignedDecimal(n);
  }

  lemma {:induction false} SplitLineOf(line: string, rest: string)
    requires NoLineSeparator(line)
    ensures SplitLine(line + "\n" + rest) == (line, rest)
  {
    var s := line + "\n" + rest;
    if line == [] {
      assert s == "\n" + rest;
    } else {
      assert s[0] == line[0] && !IsLineSeparator(s[0]);
      assert s[1..] == line[1..] + "\n" + rest;
      SplitLineOf(line[1..], rest);
      assert [line[0]] + line[1..] == line;
    }
  }

  /** nextLine() returns a line written with a "\n" terminator and moves past it. */
  lemma NextLineOf(line: string, rest: string)
    requires NoLineSeparator(line)
    ensures NextLine(line + "\n" + rest) == Success((line, rest))
  {
    SplitLineOf(line, rest);
  }
}
