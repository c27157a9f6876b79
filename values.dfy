/**
 * The conversions between attribute strings and typed values that the node
 * view relies on: the integer parsing of Integer.parseInt / Long.parseLong
 * with a radix, the decimal formatting of Integer.toString / Long.toString,
 * and the boolean literal form ("true" / "false", read case-insensitively
 * and with surrounding blanks trimmed).
 */
module Values {
  import opened Errors

  const MIN_RADIX: int := 2
  const MAX_RADIX: int := 36

  /** The range of a Java int. */
  const INT_MIN: int := -0x8000_0000
  const INT_MAX: int := 0x7fff_ffff

  /** The range of a Java long. */
  const LONG_MIN: int := -0x8000_0000_0000_0000
  const LONG_MAX: int := 0x7fff_ffff_ffff_ffff

  // ---------------------------------------------------------------- integers

  /** The digit value of an ASCII digit or letter (0-9, then a/A = 10 up to z/Z = 35), or -1. */
  function DigitValue(c: char): (v: int)
    ensures -1 <= v < MAX_RADIX
  {
    if '0' <= c <= '9' then c as int - '0' as int
    else if 'a' <= c <= 'z' then c as int - 'a' as int + 10
    else if 'A' <= c <= 'Z' then c as int - 'A' as int + 10
    else -1
  }

  /** The value of `c` as a digit in `radix` (Character.digit on ASCII), or -1. */
  function Digit(c: char, radix: int): (d: int)
    ensures d == -1 || 0 <= d < radix
    ensures d >= 0 ==> MIN_RADIX <= radix <= MAX_RADIX
  {
    var v := DigitValue(c);
    if MIN_RADIX <= radix <= MAX_RADIX && v < radix then v else -1
  }

  /** The character for digit `d` (Character.forDigit): 0-9, then lower-case a-z. */
  function DigitChar(d: nat): (c: char)
    requires d < MAX_RADIX
    ensures DigitValue(c) == d
    ensures c != '-' && c != '+'
  {
    if d < 10 then ('0' as int + d) as char else ('a' as int + d - 10) as char
  }

  /** Division facts for one step of the digit recursion. */
  lemma DivideByRadix(n: nat, radix: int)
    requires MIN_RADIX <= radix && radix <= n
    ensures 0 < n / radix < n && 0 <= n % radix < radix
    ensures n == (n / radix) * radix + n % radix
  {
  }

  predicate AllDigits(s: string, radix: int)
  {
    forall i | 0 <= i < |s| :: Digit(s[i], radix) >= 0
  }

  /** A product of naturals is a natural; keeps the digit-by-digit value in `nat`. */
  lemma ProductNonNegative(a: nat, b: nat)
    ensures a * b >= 0
  {
  }

  /** The value of a string of digits, most significant digit first. */
  function Magnitude(s: string, radix: int): nat
    requires AllDigits(s, radix)
  {
    if s == [] then 0
    else
      var prefix := s[..|s| - 1];
      assert forall i | 0 <= i < |prefix| :: prefix[i] == s[i];
      var d := Digit(s[|s| - 1], radix);
      var m := Magnitude(prefix, radix);
      assert 0 <= d < radix && m * radix >= 0 by { ProductNonNegative(m, radix); }
      m * radix + d
  }

  /** The length of the optional leading sign: 1 for '-' or '+', else 0. */
  function SignLength(s: string): (n: nat)
    ensures n <= 1 && n <= |s|
  {
    if s != [] && (s[0] == '-' || s[0] == '+') then 1 else 0
  }

  /** The syntax parseInt accepts: a valid radix, an optional sign, then one or more digits. */
  predicate WellFormedInteger(s: string, radix: int)
  {
    && MIN_RADIX <= radix <= MAX_RADIX
    && SignLength(s) < |s|
    && forall i | SignLength(s) <= i < |s| :: Digit(s[i], radix) >= 0
  }

  /** The digits of a well-formed integer string, sign dropped. */
  function Unsigned(s: string, radix: int): (d: string)
    requires WellFormedInteger(s, radix)
    ensures d == s[SignLength(s)..] && d != [] && AllDigits(d, radix)
  {
    var d := s[SignLength(s)..];
    assert forall i | 0 <= i < |d| :: d[i] == s[SignLength(s) + i];
    d
  }

  /** The number a well-formed integer string denotes. */
  function IntegerValue(s: string, radix: int): int
    requires WellFormedInteger(s, radix)
  {
    var m: int := Magnitude(Unsigned(s, radix), radix);
    if s[0] == '-' then -m else m
  }

  /**
   * Integer.parseInt(s, radix) when [lo, hi] is the int range, Long.parseLong(s, radix)
   * when it is the long range: an optional sign followed by at least one digit of
   * `radix`, whose value fits the range; anything else is a NumberFormatException.
   */
  function ParseInteger(s: string, radix: int, lo: int, hi: int): (r: Result<int>)
    ensures r.Success? <==> WellFormedInteger(s, radix) && lo <= IntegerValue(s, radix) <= hi
    ensures r.Success? ==> r.value == IntegerValue(s, radix) && lo <= r.value <= hi
    ensures r.Failure? ==> r.error == NumberFormatException
  {
    if radix < MIN_RADIX || radix > MAX_RADIX || s == [] then Failure(NumberFormatException)
    else
      var negative := s[0] == '-';
      var digits := if s[0] == '-' || s[0] == '+' then s[1..] else s;
      assert digits == s[SignLength(s)..];
      assert forall i | 0 <= i < |digits| :: digits[i] == s[SignLength(s) + i];
      if digits == [] || !AllDigits(digits, radix) then Failure(NumberFormatException)
      else
        var m: int := Magnitude(digits, radix);
        var v := if negative then -m else m;
        if lo <= v <= hi then Success(v) else Failure(NumberFormatException)
  }

  /** A character that is not a digit, after the first position, makes the string unparsable. */
  lemma ParseIntegerRefusesNonDigit(s: string, radix: int, lo: int, hi: int, k: nat)
    requires 0 < k < |s| && Digit(s[k], radix) < 0
    ensures ParseInteger(s, radix, lo, hi) == Failure(NumberFormatException)
  {
    assert !WellFormedInteger(s, radix);
  }

  /** The empty string and a sign without digits are refused. */
  lemma ParseIntegerRefusesNoDigits(s: string, radix: int, lo: int, hi: int)
    requires s == [] || s == "-" || s == "+"
    ensures ParseInteger(s, radix, lo, hi) == Failure(NumberFormatException)
  {
    assert SignLength(s) == |s|;
  }

  /** The digits of `n` in `radix`, without leading zeros. */
  function DigitString(n: nat, radix: int): (s: string)
    requires MIN_RADIX <= radix <= MAX_RADIX
    ensures |s| > 0 && AllDigits(s, radix)
    ensures s[0] != '-' && s[0] != '+'
    decreases n
  {
    if n < radix then [DigitChar(n)]
    else
      DivideByRadix(n, radix);
      var prefix := DigitString(n / radix, radix);
      var s := prefix + [DigitChar(n % radix)];
      assert forall i | 0 <= i < |prefix| :: s[i] == prefix[i];
      s
  }

  /** Integer.toString(v, radix) / Long.toString(v, radix); radix 10 is what toString() uses. */
  function FormatInteger(v: int, radix: int): (s: string)
    requires MIN_RADIX <= radix <= MAX_RADIX
    ensures WellFormedInteger(s, radix)
    ensures s[0] == '-' <==> v < 0
    ensures s[0] != '+'
  {
    var d := DigitString(if v < 0 then -v else v, radix);
    var s := if v < 0 then "-" + d else d;
    assert forall i | SignLength(s) <= i < |s| :: s[i] == d[i - SignLength(s)];
    s
  }

  lemma {:induction false} MagnitudeOfDigitString(n: nat, radix: int)
    requires MIN_RADIX <= radix <= MAX_RADIX
    ensures Magnitude(DigitString(n, radix), radix) == n
    decreases n
  {
    if n >= radix {
      var prefix := DigitString(n / radix, radix);
      var s := DigitString(n, radix);
      DivideByRadix(n, radix);
      assert s[..|s| - 1] == prefix;
      MagnitudeOfDigitString(n / radix, radix);
    }
  }

  /** What toString prints is well formed and denotes the number printed. */
  lemma FormatIntegerValue(v: int, radix: int)
    requires MIN_RADIX <= radix <= MAX_RADIX
    ensures WellFormedInteger(FormatInteger(v, radix), radix)
    ensures IntegerValue(FormatInteger(v, radix), radix) == v
  {
    var s := FormatInteger(v, radix);
    var d := DigitString(if v < 0 then -v else v, radix);
    if v < 0 {
      assert s[0] == '-' && s[1..] == d;
    } else {
      assert s == d;
    }
    assert SignLength(s) == (if v < 0 then 1 else 0);
    assert forall i | SignLength(s) <= i < |s| :: s[i] == d[i - SignLength(s)];
    assert Unsigned(s, radix) == d;
    MagnitudeOfDigitString(if v < 0 then -v else v, radix);
  }

  /** Parsing what toString printed gives back the number, for every value in range. */
  lemma ParseFormatInteger(v: int, radix: int, lo: int, hi: int)
    requires MIN_RADIX <= radix <= MAX_RADIX && lo <= v <= hi
    ensures ParseInteger(FormatInteger(v, radix), radix, lo, hi) == Success(v)
  {
    FormatIntegerValue(v, radix);
  }

  /** A number outside the range is refused, even in its own toString form: "2147483648" is no int. */
  lemma ParseIntegerRefusesOverflow(v: int, radix: int, lo: int, hi: int)
    requires MIN_RADIX <= radix <= MAX_RADIX && (v < lo || hi < v)
    ensures ParseInteger(FormatInteger(v, radix), radix, lo, hi) == Failure(NumberFormatException)
  {
    FormatIntegerValue(v, radix);
  }

  // ---------------------------------------------------------------- booleans

  /** String.toLowerCase on one character, for the ASCII letters. */
  function LowerChar(c: char): char
  {
    if 'A' <= c <= 'Z' then (c as int - 'A' as int + 'a' as int) as char else c
  }

  function ToLower(s: string): (r: string)
    ensures |r| == |s|
  {
    seq(|s|, i requires 0 <= i < |s| => LowerChar(s[i]))
  }

  /** String.trim, first half: drops the leading characters at or below U+0020. */
  function TrimStart(s: string): (r: string)
    ensures |r| <= |s| && r == s[|s| - |r|..]
    ensures forall k | 0 <= k < |s| - |r| :: s[k] <= ' '
    ensures r == [] || r[0] > ' '
  {
    if s != [] && s[0] <= ' ' then TrimStart(s[1..]) else s
  }

  /** String.trim, second half: drops the trailing characters at or below U+0020. */
  function TrimEnd(s: string): (r: string)
    ensures |r| <= |s| && r == s[..|r|]
    ensures forall k | |r| <= k < |s| :: s[k] <= ' '
    ensures r == [] || r[|r| - 1] > ' '
  {
    if s != [] && s[|s| - 1] <= ' ' then TrimEnd(s[..|s| - 1]) else s
  }

  function Trim(s: string): string
  {
    TrimEnd(TrimStart(s))
  }

  /** The literal a boolean attribute is written as. */
  function FormatBool(b: bool): (r: string)
    ensures r != [] && r[0] > ' ' && r[|r| - 1] > ' '
    ensures forall i | 0 <= i < |r| :: !('A' <= r[i] <= 'Z')
  {
    if b then "true" else "false"
  }

  /** Lower-cases, trims, and accepts exactly "true" or "false". */
  function ParseBool(s: string): (r: Result<bool>)
    ensures r.Success? <==> Trim(ToLower(s)) == FormatBool(true) || Trim(ToLower(s)) == FormatBool(false)
    ensures r.Success? ==> FormatBool(r.value) == Trim(ToLower(s))
    ensures r.Failure? ==> r.error == XmlException
  {
    var t := Trim(ToLower(s));
    if t == "true" then Success(true)
    else if t == "false" then Success(false)
    else Failure(XmlException)
  }

  /** Blank characters: what String.trim removes. */
  predicate Blank(s: string)
  {
    forall k | 0 <= k < |s| :: s[k] <= ' '
  }

  lemma {:induction false} TrimStartOfPadded(pad: string, rest: string)
    requires Blank(pad) && (rest == [] || rest[0] > ' ')
    ensures TrimStart(pad + rest) == rest
  {
    if pad == [] {
      assert pad + rest == rest;
    } else {
      assert (pad + rest)[1..] == pad[1..] + rest;
      TrimStartOfPadded(pad[1..], rest);
    }
  }

  lemma {:induction false} TrimEndOfPadded(rest: string, pad: string)
    requires Blank(pad) && (rest == [] || rest[|rest| - 1] > ' ')
    ensures TrimEnd(rest + pad) == rest
  {
    if pad == [] {
      assert rest + pad == rest;
    } else {
      var s := rest + pad;
      assert s[..|s| - 1] == rest + pad[..|pad| - 1];
      TrimEndOfPadded(rest, pad[..|pad| - 1]);
    }
  }

  lemma TrimUnpadded(w: string)
    requires w == [] || (w[0] > ' ' && w[|w| - 1] > ' ')
    ensures Trim(w) == w
  {
    TrimStartOfPadded([], w);
    assert [] + w == w;
    TrimEndOfPadded(w, []);
    assert w + [] == w;
  }

  lemma ToLowerConcat(a: string, b: string)
    ensures ToLower(a + b) == ToLower(a) + ToLower(b)
  {
  }

  /** ParseBool decides on the lower-cased, trimmed form alone. */
  lemma ParseBoolOfWord(s: string, b: bool)
    requires Trim(ToLower(s)) == FormatBool(b)
    ensures ParseBool(s) == Success(b)
  {
  }

  lemma FormatBoolIsLower(b: bool)
    ensures ToLower(FormatBool(b)) == FormatBool(b)
  {
  }

  lemma FormatBoolIsTrimmed(b: bool)
    ensures Trim(FormatBool(b)) == FormatBool(b)
  {
    TrimUnpadded(FormatBool(b));
  }

  /** Writing a boolean and reading it back gives the same boolean. */
  lemma ParseFormatBool(b: bool)
    ensures ParseBool(FormatBool(b)) == Success(b)
  {
    FormatBoolIsLower(b);
    FormatBoolIsTrimmed(b);
    ParseBoolOfWord(FormatBool(b), b);
  }

  /**
   * What is accepted: a word that lower-cases to "true" or "false", in any
   * mix of cases, with any blank padding on either side.
   */
  lemma ParseBoolAcceptsPaddedWord(pre: string, word: string, post: string, b: bool)
    requires Blank(pre) && Blank(post) && ToLower(word) == FormatBool(b)
    ensures ParseBool(pre + word + post) == Success(b)
  {
    var w := FormatBool(b);
    ToLowerConcat(pre + word, post);
    ToLowerConcat(pre, word);
    var lpre, lpost := ToLower(pre), ToLower(post);
    assert Blank(lpre) && Blank(lpost);
    assert ToLower(pre + word + post) == lpre + (w + lpost);
    TrimStartOfPadded(lpre, w + lpost);
    TrimEndOfPadded(w, lpost);
    ParseBoolOfWord(pre + word + post, b);
  }

  lemma ParseBoolOfShortWord(s: string)
    requires |Trim(ToLower(s))| < |"true"|
    ensures ParseBool(s).Failure?
  {
  }

  lemma DigitIsLower(d: char)
    requires '0' <= d <= '9'
    ensures ToLower([d]) == [d]
  {
    assert LowerChar(d) == d;
  }
}
