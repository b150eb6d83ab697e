/**
 * The few pieces of Java's string handling the model relies on: `split` at one character, `trim()`,
 * decimal printing of integers, and `Long.parseLong` / `Integer.parseInt`. Digits are the ASCII
 * digits.
 */
module JavaText {

  /** Java's 64-bit `long`. */
  type Int64 = x: int | -0x8000_0000_0000_0000 <= x < 0x8000_0000_0000_0000

  /** The outcome of a numeric parse: the value, or Java's `NumberFormatException`. */
  datatype Number = Number(value: int) | NumberFormatException

  /** Java's 32-bit `int`. */
  type Int32 = x: int | -0x8000_0000 <= x < 0x8000_0000

  // ----- splitting at a separator ------------------------------------------------------------

  /** The pieces between the separators, empty pieces included: one more piece than there are separators. */
  function Fields(s: string, sep: char): (f: seq<string>)
    ensures |f| > 0
  {
    if s == [] then [[]]
    else if s[0] == sep then [[]] + Fields(s[1..], sep)
    else var f := Fields(s[1..], sep); [[s[0]] + f[0]] + f[1..]
  }

  /** No piece holds the separator. */
  lemma {:induction false} FieldsFree(s: string, sep: char)
    ensures forall i :: 0 <= i < |Fields(s, sep)| ==> sep !in Fields(s, sep)[i]
  {
    if s != [] {
      FieldsFree(s[1..], sep);
    }
  }

  /** A string without the separator is one piece. */
  lemma {:induction false} FieldsOne(s: string, sep: char)
    requires sep !in s
    ensures Fields(s, sep) == [s]
  {
    if s != [] {
      assert sep !in s[1..];
      FieldsOne(s[1..], sep);
      assert [s[0]] + s[1..] == s;
    }
  }

  /** Splitting at one separator cuts the pieces of both sides apart. */
  lemma {:induction false} FieldsJoin(x: string, y: string, sep: char)
    ensures Fields(x + [sep] + y, sep) == Fields(x, sep) + Fields(y, sep)
  {
    if x == [] {
      assert x + [sep] + y == [sep] + y;
      assert ([sep] + y)[1..] == y;
    } else {
      var s := x + [sep] + y;
      assert s[0] == x[0] && s[1..] == x[1..] + [sep] + y;
      FieldsJoin(x[1..], y, sep);
    }
  }

  /** A string that holds the separator has at least two pieces. */
  lemma {:induction false} FieldsMany(s: string, sep: char)
    requires sep in s
    ensures |Fields(s, sep)| >= 2
  {
    if s[0] != sep {
      FieldsMany(s[1..], sep);
    }
  }

  /** Drops the empty strings at the end of a list. */
  function DropTrailingEmpty(f: seq<string>): (g: seq<string>)
    ensures |g| <= |f| && g == f[..|g|]
    ensures g == [] || g[|g| - 1] != []
    ensures forall i :: |g| <= i < |f| ==> f[i] == []
  {
    if f == [] || f[|f| - 1] != [] then f else DropTrailingEmpty(f[..|f| - 1])
  }

  /**
   * `s.split(sep)` for a one-character separator that is not special in a regular expression:
   * the string itself when it holds no separator, else its pieces without the empty ones at
   * the end.
   */
  function Split(s: string, sep: char): (f: seq<string>)
    ensures sep !in s ==> f == [s]
  {
    if sep !in s then [s] else DropTrailingEmpty(Fields(s, sep))
  }

  /** A separator at the end of a string that holds one changes nothing. */
  lemma SplitTrailing(s: string, sep: char)
    requires sep in s
    ensures Split(s + [sep], sep) == Split(s, sep)
  {
    FieldsJoin(s, [], sep);
    assert s + [sep] + [] == s + [sep];
    var f := Fields(s, sep);
    assert Fields(s + [sep], sep) == f + [[]];
    assert (f + [[]])[..|f|] == f;
  }

  // ----- trimming -----------------------------------------------------------------------------

  /** The characters `trim()` removes: the control characters and the space. */
  predicate Spacing(c: char) {
    c <= ' '
  }

  function TrimFront(s: string): (t: string)
    ensures |t| <= |s| && t == s[|s| - |t|..]
    ensures forall i :: 0 <= i < |s| - |t| ==> Spacing(s[i])
    ensures t == [] || !Spacing(t[0])
  {
    if s != [] && Spacing(s[0]) then TrimFront(s[1..]) else s
  }

  function TrimBack(s: string): (t: string)
    ensures |t| <= |s| && t == s[..|t|]
    ensures forall i :: |t| <= i < |s| ==> Spacing(s[i])
    ensures t == [] || !Spacing(t[|t| - 1])
  {
    if s != [] && Spacing(s[|s| - 1]) then TrimBack(s[..|s| - 1]) else s
  }

  /** `s.trim()`: without leading and trailing spacing. */
  function Trim(s: string): string {
    TrimBack(TrimFront(s))
  }

  /** Every character is spacing. */
  predicate Blank(s: string) {
    s == [] || (Spacing(s[0]) && Blank(s[1..]))
  }

  lemma {:induction false} BlankAll(s: string)
    ensures Blank(s) <==> forall i :: 0 <= i < |s| ==> Spacing(s[i])
  {
    if s != [] {
      BlankAll(s[1..]);
      assert forall i :: 1 <= i < |s| ==> s[i] == s[1..][i - 1];
    }
  }

  /** `s.trim().isEmpty()` holds exactly when every character of `s` is spacing. */
  lemma TrimEmpty(s: string)
    ensures Trim(s) == [] <==> Blank(s)
  {
    BlankAll(s);
    var t := TrimFront(s);
    if Trim(s) == [] {
      assert t == [];
    } else {
      var j :| 0 <= j < |Trim(s)| && !Spacing(Trim(s)[j]);
      assert Trim(s)[j] == t[j] == s[|s| - |t| + j];
    }
  }

  // ----- decimal numerals ---------------------------------------------------------------------

  predicate IsDigit(c: char) {
    '0' <= c <= '9'
  }

  function DigitChar(d: nat): (c: char)
    requires d < 10
    ensures IsDigit(c)
  {
    ['0', '1', '2', '3', '4', '5', '6', '7', '8', '9'][d]
  }

  function DigitValue(c: char): (d: nat)
    requires IsDigit(c)
    ensures d < 10
  {
    c as int - '0' as int
  }

  /** Every character is a digit. */
  predicate AllDigits(s: string) {
    s == [] || (AllDigits(s[..|s| - 1]) && IsDigit(s[|s| - 1]))
  }

  lemma {:induction false} AllDigitsAt(s: string)
    requires AllDigits(s)
    ensures forall i :: 0 <= i < |s| ==> IsDigit(s[i])
  {
    if s != [] {
      AllDigitsAt(s[..|s| - 1]);
      assert forall i :: 0 <= i < |s| - 1 ==> s[i] == s[..|s| - 1][i];
    }
  }

  /** The decimal digits of `n`, most significant first, without leading zeros. */
  function Digits(n: nat): (s: string)
    ensures |s| > 0 && AllDigits(s)
  {
    if n < 10 then
      assert [DigitChar(n)][..0] == [];
      [DigitChar(n)]
    else
      var s := Digits(n / 10) + [DigitChar(n % 10)];
      assert s[..|s| - 1] == Digits(n / 10);
      s
  }

  /** The value of a string of digits. */
  function DigitsValue(s: string): nat
    requires AllDigits(s)
  {
    if s == [] then 0 else DigitsValue(s[..|s| - 1]) * 10 + DigitValue(s[|s| - 1])
  }

  lemma {:induction false} DigitsRoundTrip(n: nat)
    ensures DigitsValue(Digits(n)) == n
  {
    var s := Digits(n);
    if n >= 10 {
      DigitsRoundTrip(n / 10);
      assert s[..|s| - 1] == Digits(n / 10);
    }
    assert DigitValue(DigitChar(n % 10)) == n % 10;
  }

  /** `Long.toString(n)` and `Integer.toString(n)`: a minus sign for negative numbers, then the digits. */
  function Decimal(n: int): (s: string)
    ensures ',' !in s && s != []
  {
    var d := Digits(if n < 0 then -n else n);
    AllDigitsAt(d);
    if n < 0 then "-" + d else d
  }

  /** A printed number is a minus sign or digits, character by character. */
  lemma DecimalChars(n: int)
    ensures forall i :: 0 <= i < |Decimal(n)| ==> Decimal(n)[i] == '-' || IsDigit(Decimal(n)[i])
  {
    var d := Digits(if n < 0 then -n else n);
    AllDigitsAt(d);
    if n < 0 {
      assert forall i :: 1 <= i < |Decimal(n)| ==> Decimal(n)[i] == d[i - 1];
    }
  }

  /**
   * `Long.parseLong` / `Integer.parseInt` with bounds `lo` and `hi`: an optional sign, then at
   * least one digit and nothing else, and a value within the bounds; anything else raises a
   * `NumberFormatException`.
   */
  function ParseDecimal(s: string, lo: int, hi: int): (v: Number)
    ensures v.Number? ==> lo <= v.value <= hi
  {
    if s == [] then NumberFormatException
    else
      var body := if s[0] == '-' || s[0] == '+' then s[1..] else s;
      if body == [] || !AllDigits(body) then NumberFormatException
      else
        var n: int := if s[0] == '-' then -(DigitsValue(body) as int) else DigitsValue(body);
        if lo <= n <= hi then Number(n) else NumberFormatException
  }

  function ParseLong(s: string): (v: Number)
    ensures v.Number? ==> -0x8000_0000_0000_0000 <= v.value < 0x8000_0000_0000_0000
  {
    ParseDecimal(s, -0x8000_0000_0000_0000, 0x7FFF_FFFF_FFFF_FFFF)
  }

  function ParseInt(s: string): (v: Number)
    ensures v.Number? ==> -0x8000_0000 <= v.value < 0x8000_0000
  {
    ParseDecimal(s, -0x8000_0000, 0x7FFF_FFFF)
  }

  /** Parsing a printed number gives the number back whenever it is within the bounds. */
  lemma DecimalRoundTrip(n: int, lo: int, hi: int)
    requires lo <= n <= hi
    ensures ParseDecimal(Decimal(n), lo, hi) == Number(n)
  {
    var s := Decimal(n);
    if n < 0 {
      DigitsRoundTrip(-n);
      assert s[1..] == Digits(-n);
    } else {
      DigitsRoundTrip(n);
      AllDigitsAt(s);
      assert !(s[0] == '-' || s[0] == '+');
    }
  }

  lemma LongRoundTrip(n: Int64)
    ensures ParseLong(Decimal(n)) == Number(n)
  {
    DecimalRoundTrip(n, -0x8000_0000_0000_0000, 0x7FFF_FFFF_FFFF_FFFF);
  }

  lemma IntRoundTrip(n: Int32)
    ensures ParseInt(Decimal(n)) == Number(n)
  {
    DecimalRoundTrip(n, -0x8000_0000, 0x7FFF_FFFF);
  }

}
