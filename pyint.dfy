/** A model of Python's `int(text)` on strings, with the decimal text `str(n)` of an integer
    as its inverse. */
module PyInt {
  import opened Wrappers
  import opened PyStr

  predicate IsDigit(c: char) {
    '0' <= c <= '9'
  }

  predicate AllDigits(d: string) {
    forall k :: 0 <= k < |d| ==> IsDigit(d[k])
  }

  /** The value of a run of ASCII decimal digits, most significant first (the digit
      arithmetic is applied to any character; it is only used on digit runs). */
  function DigitsValue(d: string): int
    decreases |d|
  {
    if d == [] then 0 else DigitsValue(d[..|d| - 1]) * 10 + (d[|d| - 1] as int - '0' as int)
  }

  /** A character that is not a digit does not occur in a digit run. */
  lemma NotInDigits(d: string, c: char)
    requires AllDigits(d) && !IsDigit(c)
    ensures c !in d
  {
  }

  /** Two digit runs side by side form a digit run. */
  lemma AllDigitsConcat(a: string, b: string)
    requires AllDigits(a) && AllDigits(b)
    ensures AllDigits(a + b)
  {
    assert forall k :: 0 <= k < |a| ==> (a + b)[k] == a[k];
    assert forall k :: |a| <= k < |a + b| ==> (a + b)[k] == b[k - |a|];
  }

  /** An optional sign followed by at least one ASCII digit, read as an integer. */
  function ParseSigned(t: string): Option<int> {
    var unsigned := if |t| > 0 && (t[0] == '+' || t[0] == '-') then t[1..] else t;
    if |unsigned| > 0 && AllDigits(unsigned) then
      var magnitude := DigitsValue(unsigned);
      Some(if t[0] == '-' then -magnitude else magnitude)
    else
      None
  }

  /** The whitespace `int()` skips around its digits: every `str.isspace()` character except
      the ASCII information separators U+001C to U+001F. CPython turns non-ASCII whitespace
      into spaces and then skips only the ASCII whitespace " \t\n\x0b\x0c\r", so those four
      separators make `int()` raise although `strip()` would remove them. */
  const IntWhitespace: string :=
    " \t\n\U{B}\U{C}\r\U{85}\U{A0}\U{1680}"
    + "\U{2000}\U{2001}\U{2002}\U{2003}\U{2004}\U{2005}\U{2006}\U{2007}\U{2008}\U{2009}\U{200A}"
    + "\U{2028}\U{2029}\U{202F}\U{205F}\U{3000}"

  /** What `int()` skips, `strip()` removes too; the four separators are the difference. */
  lemma IntWhitespaceIsWhitespace()
    ensures forall c :: c in IntWhitespace ==> c in Whitespace
    ensures forall c :: c in Whitespace && c !in IntWhitespace <==> '\U{1C}' <= c <= '\U{1F}'
  {
  }

  /** Every character `int()` skips is an ASCII control character up to '\r', the space
      itself, or lies above the ASCII range. */
  lemma IntWhitespaceBounds()
    ensures forall c :: c in IntWhitespace ==> c <= '\r' || c == ' ' || '\U{85}' <= c
  {
  }

  /** A visible ASCII character, or an information separator, is not skipped by `int()`. */
  lemma NotIntWhitespace(c: char)
    requires '\U{1C}' <= c < '\U{85}' && c != ' '
    ensures c !in IntWhitespace
  {
    IntWhitespaceBounds();
  }

  /** `int(text)`: optional surrounding whitespace of its own kind, an optional sign and at
      least one ASCII digit; `None` stands for the ValueError that any other text raises. */
  function ParseInt(text: string): Option<int> {
    ParseSigned(Strip(text, IntWhitespace))
  }

  /** No character `int()` accepts is whitespace, for `strip()` or for `int()` itself. */
  lemma WhitespaceIsNotNumeric(c: char)
    requires IsDigit(c) || c == '+' || c == '-'
    ensures c !in Whitespace && c !in IntWhitespace
  {
    NotWhitespace(c);
    NotIntWhitespace(c);
  }

  /** A character that is neither a digit, a sign nor whitespace skipped by `int()` makes
      `int()` raise, wherever it stands. */
  lemma ParseIntRejects(text: string, c: char)
    requires c in text && !IsDigit(c) && c !in IntWhitespace && c != '+' && c != '-'
    ensures ParseInt(text) == None
  {
    var t := Strip(text, IntWhitespace);
    StripKeeps(text, IntWhitespace);
    assert c in t;
    var unsigned := if |t| > 0 && (t[0] == '+' || t[0] == '-') then t[1..] else t;
    assert c in unsigned by {
      var k :| 0 <= k < |t| && t[k] == c;
      if unsigned != t {
        assert k > 0 && unsigned[k - 1] == c;
      }
    }
  }

  /** The decimal digits of a natural number, `str(n)` for `n >= 0`. */
  function Digits(n: nat): string
    decreases n
  {
    var last := [('0' as int + n % 10) as char];
    if n < 10 then last else Digits(n / 10) + last
  }

  /** The decimal digits of `n` are a non-empty digit run, and reading them back gives `n`. */
  lemma {:induction false} DigitsRoundTrip(n: nat)
    ensures |Digits(n)| > 0 && AllDigits(Digits(n)) && DigitsValue(Digits(n)) == n
    decreases n
  {
    if n >= 10 {
      DigitsRoundTrip(n / 10);
      var d := Digits(n);
      assert d[..|d| - 1] == Digits(n / 10);
    }
  }

  /** `str(n)` for any integer. */
  function Decimal(n: int): string {
    if n < 0 then "-" + Digits(-n) else Digits(n)
  }

  /** The decimal text of an integer is a digit run, with a minus sign in front when the
      integer is negative. */
  lemma DecimalChars(n: int)
    ensures |Decimal(n)| > 0 && IsDigit(Decimal(n)[|Decimal(n)| - 1])
    ensures forall c :: c in Decimal(n) ==> IsDigit(c) || c == '-'
    ensures Decimal(n)[0] == '-' <==> n < 0
  {
    var m: nat := if n < 0 then -n else n;
    DigitsRoundTrip(m);
    var d := Digits(m);
    assert IsDigit(d[0]) && IsDigit(d[|d| - 1]);
    if n < 0 {
      assert forall c :: c in "-" + d ==> c == '-' || c in d;
    }
  }

  /** The decimal text of an integer has no surrounding whitespace, neither for `strip()` nor
      for `int()`. */
  lemma DecimalUnstripped(n: int)
    ensures Strip(Decimal(n), Whitespace) == Decimal(n)
    ensures Strip(Decimal(n), IntWhitespace) == Decimal(n)
  {
    var d := Decimal(n);
    DecimalChars(n);
    assert d[0] in d;
    WhitespaceIsNotNumeric(d[0]);
    WhitespaceIsNotNumeric(d[|d| - 1]);
    StripUnchanged(d, Whitespace);
    StripUnchanged(d, IntWhitespace);
  }

  /** The digits of `m` read back as `m`. */
  lemma ParseUnsignedDigits(m: nat)
    ensures ParseSigned(Digits(m)) == Some(m)
  {
    var d := Digits(m);
    DigitsRoundTrip(m);
    assert IsDigit(d[0]);
  }

  /** A minus sign followed by the digits of `m` reads back as `-m`. */
  lemma ParseNegatedDigits(m: nat)
    ensures ParseSigned("-" + Digits(m)) == Some(-(m as int))
  {
    var d := Digits(m);
    var t := "-" + d;
    DigitsRoundTrip(m);
    assert t[0] == '-' && t[1..] == d;
  }

  /** Without the surrounding `strip`, `str(n)` reads back as `n`. */
  lemma ParseSignedDecimal(n: int)
    ensures ParseSigned(Decimal(n)) == Some(n)
  {
    if n < 0 {
      ParseNegatedDigits(-n);
    } else {
      ParseUnsignedDigits(n);
    }
  }

  /** The round trip `int(str(n)) == n`. */
  lemma ParseDecimal(n: int)
    ensures ParseInt(Decimal(n)) == Some(n)
  {
    DecimalUnstripped(n);
    ParseSignedDecimal(n);
  }

  /** A digit run carries no sign, so it is read as its value. */
  lemma ParseSignedDigitRun(d: string)
    requires |d| > 0 && AllDigits(d)
    ensures ParseSigned(d) == Some(DigitsValue(d))
  {
    assert IsDigit(d[0]);
  }

  /** A plain run of digits is read as its value. */
  lemma ParseDigitRun(d: string)
    requires |d| > 0 && AllDigits(d)
    ensures ParseInt(d) == Some(DigitsValue(d))
  {
    assert IsDigit(d[0]) && IsDigit(d[|d| - 1]);
    NotIntWhitespace(d[0]);
    NotIntWhitespace(d[|d| - 1]);
    StripUnchanged(d, IntWhitespace);
    ParseSignedDigitRun(d);
  }

  /** An information separator before a digit run is not skipped, so `int()` raises. */
  lemma ParseIntSeparator(sep: char, d: string)
    requires '\U{1C}' <= sep <= '\U{1F}' && |d| > 0 && AllDigits(d)
    ensures ParseInt([sep] + d) == None
  {
    var t := [sep] + d;
    NotIntWhitespace(sep);
    assert t[|t| - 1] == d[|d| - 1] && IsDigit(d[|d| - 1]);
    NotIntWhitespace(t[|t| - 1]);
    StripUnchanged(t, IntWhitespace);
    assert t[0] == sep && !IsDigit(t[0]);
    assert !AllDigits(t);
  }
}
