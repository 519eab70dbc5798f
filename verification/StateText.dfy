/** Text pieces of the state file: lines, trimming, and numbers in decimal. */
module StateText {
  import opened Rounding
  import opened Thermal

  // -------------------------------------------------------------------- lines

  /** The first position of `c`, or the length when it does not occur. */
  function IndexOf(s: string, c: char): (i: nat)
    ensures i <= |s| && (i < |s| ==> s[i] == c)
    ensures forall j :: 0 <= j < i ==> s[j] != c
  {
    if s == "" || s[0] == c then 0 else 1 + IndexOf(s[1..], c)
  }

  lemma {:induction false} IndexIs(s: string, c: char, i: nat)
    requires i <= |s| && (i < |s| ==> s[i] == c)
    requires forall j :: 0 <= j < i ==> s[j] != c
    ensures IndexOf(s, c) == i
  {
    if i > 0 {
      IndexIs(s[1..], c, i - 1);
    }
  }

  function StripCR(s: string): string {
    if s != "" && s[|s| - 1] == '\r' then s[..|s| - 1] else s
  }

  /** The scanner's lines: ended by a newline or by the end of the text. */
  function Lines(s: string): seq<string> {
    if s == "" then []
    else
      var i := IndexOf(s, '\n');
      if i == |s| then [StripCR(s)] else [StripCR(s[..i])] + Lines(s[i + 1..])
  }

  predicate AtLineStart(s: string) {
    s == "" || s[|s| - 1] == '\n'
  }

  lemma {:induction false} LinesAppend(a: string, b: string)
    requires AtLineStart(a)
    ensures Lines(a + b) == Lines(a) + Lines(b)
    decreases |a|
  {
    if a == "" {
      assert a + b == b;
    } else {
      var i := IndexOf(a, '\n');
      assert i < |a|;
      IndexIs(a + b, '\n', i);
      assert (a + b)[..i] == a[..i] && (a + b)[i + 1..] == a[i + 1..] + b;
      LinesAppend(a[i + 1..], b);
    }
  }

  lemma OneLine(line: string)
    requires '\n' !in line
    ensures Lines(line + "\n") == [StripCR(line)]
  {
    var s := line + "\n";
    IndexIs(s, '\n', |line|);
    assert s[..|line|] == line && s[|line| + 1..] == "";
  }

  // ------------------------------------------------------------------- trimming

  /** unicode.IsSpace. */
  predicate IsSpace(c: char) {
    var n := c as int;
    || 9 <= n <= 13 || n == 32 || n == 0x85 || n == 0xA0 || n == 0x1680 || 0x2000 <= n <= 0x200A
    || n == 0x2028 || n == 0x2029 || n == 0x202F || n == 0x205F || n == 0x3000
  }

  function TrimLeft(s: string): string {
    if s != "" && IsSpace(s[0]) then TrimLeft(s[1..]) else s
  }

  function TrimRight(s: string): string {
    if s != "" && IsSpace(s[|s| - 1]) then TrimRight(s[..|s| - 1]) else s
  }

  function TrimSpace(s: string): string { TrimRight(TrimLeft(s)) }

  /** One pair of matching quotes around the text is dropped. */
  function Unquote(s: string): string {
    if |s| >= 2 && ((s[0] == '\"' && s[|s| - 1] == '\"') || (s[0] == '\'' && s[|s| - 1] == '\''))
    then s[1..|s| - 1] else s
  }

  /** A value that survives trimming and unquoting unchanged. */
  predicate Plain(s: string) {
    && s != ""
    && !IsSpace(s[0]) && !IsSpace(s[|s| - 1])
    && s[0] != '\"' && s[0] != '\''
    && '\n' !in s
  }

  lemma PlainSurvives(s: string)
    requires Plain(s)
    ensures TrimSpace(s) == s && Unquote(s) == s
  {
  }

  // -------------------------------------------------------------- whole numbers

  predicate IsDigit(c: char) { '0' <= c <= '9' }

  predicate AllDigits(s: string) { forall i :: 0 <= i < |s| ==> IsDigit(s[i]) }

  function DigitValue(c: char): nat
    requires IsDigit(c)
  {
    (c - '0') as int
  }

  function DigitChar(d: nat): (c: char)
    requires d < 10
    ensures IsDigit(c) && DigitValue(c) == d
  {
    '0' + d as char
  }

  function NatText(n: nat): (s: string)
    ensures s != "" && AllDigits(s)
  {
    if n < 10 then [DigitChar(n)] else NatText(n / 10) + [DigitChar(n % 10)]
  }

  function DigitsValue(s: string): nat
    requires AllDigits(s)
  {
    if s == "" then 0 else DigitsValue(s[..|s| - 1]) * 10 + DigitValue(s[|s| - 1])
  }

  lemma {:induction false} NatRoundTrip(n: nat)
    ensures DigitsValue(NatText(n)) == n
  {
    var s := NatText(n);
    if n < 10 {
      assert s[..0] == "";
      assert DigitsValue("") == 0;
    } else {
      NatRoundTrip(n / 10);
      assert s[..|s| - 1] == NatText(n / 10);
    }
  }

  function IntText(n: int): string { if n < 0 then "-" + NatText(-n) else NatText(n) }

  /** strconv.Atoi: an optional sign and at least one digit. */
  function Atoi(s: string): Option<int> {
    var signed := s != "" && (s[0] == '-' || s[0] == '+');
    var digits := if signed then s[1..] else s;
    if digits == "" || !AllDigits(digits) then None
    else
      var m: int := DigitsValue(digits);
      Some(if signed && s[0] == '-' then -m else m)
  }

  lemma IntRoundTrip(n: int)
    ensures Atoi(IntText(n)) == Some(n) && Plain(IntText(n))
  {
    NatRoundTrip(if n < 0 then -n else n);
    DigitsArePlain(NatText(if n < 0 then -n else n));
    if n < 0 {
      assert ("-" + NatText(-n))[1..] == NatText(-n);
    }
  }

  /** A sign in front of digits is read: plus as nothing, minus as the negative;
      nothing but signed or unsigned digits is a number. */
  lemma SignsAreRead(digits: string, s: string)
    requires digits != "" && AllDigits(digits)
    ensures Atoi(digits).Some? && Atoi("+" + digits) == Atoi(digits)
    ensures Atoi("-" + digits) == Some(-Atoi(digits).value)
    ensures Atoi(s).Some? ==> s != "" && IsDigit(s[|s| - 1]) && forall i :: 0 < i < |s| ==> IsDigit(s[i])
  {
    assert ("+" + digits)[1..] == digits && ("-" + digits)[1..] == digits;
    if Atoi(s).Some? && |s| > 1 {
      assert forall i :: 0 < i < |s| ==> s[i] == s[1..][i - 1];
    }
  }

  lemma DigitsArePlain(s: string)
    requires s != "" && AllDigits(s)
    ensures Plain(s) && s[0] != '-' && s[0] != '+' && '=' !in s && '.' !in s
  {
  }

  // ----------------------------------------------------------------- %.4f

  /** Nearest whole number, ties to even, as decimal formatting rounds. */
  function RoundHalfEven(x: real): (n: int)
    ensures x - 0.5 <= n as real <= x + 0.5
  {
    var f := x.Floor;
    var d := x - f as real;
    if d < 0.5 then f else if d > 0.5 then f + 1 else if f % 2 == 0 then f else f + 1
  }

  /** The magnitude of `x` in ten-thousandths. */
  function TenThousandths(x: real): (n: nat) {
    RoundHalfEven(AbsReal(x) * 10000.0)
  }

  /** `x` rounded to four decimals. */
  function Round4(x: real): real {
    var m := TenThousandths(x) as real / 10000.0;
    if x < 0.0 then -m else m
  }

  lemma Round4IsClose(x: real)
    ensures AbsReal(Round4(x) - x) <= 0.00005
  {
  }

  /** Exactly four digits. */
  function FourDigits(n: nat): (s: string)
    requires n < 10000
    ensures |s| == 4 && AllDigits(s)
  {
    [DigitChar(n / 1000), DigitChar(n / 100 % 10), DigitChar(n / 10 % 10), DigitChar(n % 10)]
  }

  function FixedText(x: real): string {
    var n := TenThousandths(x);
    (if x < 0.0 then "-" else "") + NatText(n / 10000) + "." + FourDigits(n % 10000)
  }

  /** The decimal part of strconv.ParseFloat: sign, digits, and optionally a
      point followed by digits, at least one digit in all. */
  function ParseDecimal(s: string): Option<real> {
    if s != "" && (s[0] == '-' || s[0] == '+') then
      var m := ParseUnsigned(s[1..]);
      if m.Some? && s[0] == '-' then Some(-m.value) else m
    else ParseUnsigned(s)
  }

  function ParseUnsigned(s: string): Option<real> {
    var dot := IndexOf(s, '.');
    var whole := s[..dot];
    var frac := if dot < |s| then s[dot + 1..] else "";
    if (whole == "" && frac == "") || !AllDigits(whole) || !AllDigits(frac) then None
    else Some(DecimalValue(whole, frac))
  }

  /** The value of the digits before and after a point. */
  function DecimalValue(whole: string, frac: string): real
    requires AllDigits(whole) && AllDigits(frac)
  {
    DigitsValue(whole) as real + DigitsValue(frac) as real / Pow10(|frac|) as real
  }

  function Pow10(k: nat): (p: nat)
    ensures p > 0
  {
    if k == 0 then 1 else 10 * Pow10(k - 1)
  }

  lemma FourDigitsValue(n: nat)
    requires n < 10000
    ensures DigitsValue(FourDigits(n)) == n && Pow10(4) == 10000
  {
    var s := FourDigits(n);
    assert s[..3][..2] == s[..2] && s[..2][..1] == s[..1] && s[..1][..0] == "";
    assert DigitsValue("") == 0;
    assert DigitsValue(s[..1]) == n / 1000;
    assert DigitsValue(s[..2]) == n / 100;
    assert DigitsValue(s[..3]) == n / 10;
    assert Pow10(1) == 10 && Pow10(2) == 100 && Pow10(3) == 1000;
  }

  /** A pointed decimal is read digit by digit. */
  lemma ParsePointed(whole: string, frac: string)
    requires whole != "" && AllDigits(whole) && AllDigits(frac)
    ensures var s := whole + "." + frac;
      && s[0] != '-' && s[0] != '+'
      && ParseUnsigned(s) == Some(DecimalValue(whole, frac))
  {
    hide DecimalValue;
    var s := whole + "." + frac;
    DigitsArePlain(whole);
    assert s[0] == whole[0];
    IndexIs(s, '.', |whole|);
    assert s[..|whole|] == whole && s[|whole| + 1..] == frac;
  }

  lemma FixedRoundTrip(x: real)
    ensures ParseDecimal(FixedText(x)) == Some(Round4(x)) && Plain(FixedText(x))
  {
    hide ParseUnsigned, NatText, FourDigits, DigitsValue, TenThousandths, Pow10;
    var n := TenThousandths(x);
    var whole, frac := NatText(n / 10000), FourDigits(n % 10000);
    NatRoundTrip(n / 10000);
    FourDigitsValue(n % 10000);
    ParsePointed(whole, frac);
    var body := whole + "." + frac;
    assert FixedText(x) == if x < 0.0 then "-" + body else body;
    assert ("-" + body)[1..] == body;
    SplitTenThousandths(n);
    PointedIsPlain(x < 0.0, whole, frac);
  }

  lemma PointedIsPlain(neg: bool, whole: string, frac: string)
    requires whole != "" && frac != "" && AllDigits(whole) && AllDigits(frac)
    ensures Plain((if neg then "-" else "") + whole + "." + frac)
  {
    var s := (if neg then "-" else "") + whole + "." + frac;
    DigitsArePlain(whole);
    DigitsArePlain(frac);
    assert s[|s| - 1] == frac[|frac| - 1];
    assert s[0] == if neg then '-' else whole[0];
  }

  lemma SplitTenThousandths(n: nat)
    ensures (n / 10000) as real + (n % 10000) as real / 10000.0 == n as real / 10000.0
  {
    assert n == 10000 * (n / 10000) + n % 10000;
  }
}
