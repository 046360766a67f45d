/** The pieces of the JavaScript runtime's text handling that the metadata
    code relies on: `String.prototype.trim`, `toLowerCase` (ASCII letters),
    `parseFloat`, the string-to-number conversion used by arithmetic, and
    number-to-string formatting. Numbers are mathematical reals; a JavaScript
    `NaN` is `None`. */
module JsStrings {
  import opened Wrappers

  /** The WhiteSpace and LineTerminator code points of ECMA-262 (sections
      12.2 and 12.3): what `trim`, `parseFloat` and the regular-expression
      class `\s` skip. */
  predicate IsWhitespace(c: char) {
    var n := c as int;
    n == 0x09 || n == 0x0A || n == 0x0B || n == 0x0C || n == 0x0D || n == 0x20
    || n == 0xA0 || n == 0x1680 || (0x2000 <= n <= 0x200A) || n == 0x2028
    || n == 0x2029 || n == 0x202F || n == 0x205F || n == 0x3000 || n == 0xFEFF
  }

  /** Length of the longest prefix of `s` made of whitespace. */
  function WhitespaceRun(s: string): (n: nat)
    ensures n <= |s|
    ensures forall i :: 0 <= i < n ==> IsWhitespace(s[i])
    ensures n < |s| ==> !IsWhitespace(s[n])
  {
    if s != [] && IsWhitespace(s[0]) then 1 + WhitespaceRun(s[1..]) else 0
  }

  /** No whitespace at either end. */
  predicate IsTrimmed(s: string) {
    s == [] || (!IsWhitespace(s[0]) && !IsWhitespace(s[|s| - 1]))
  }

  function TrimStart(s: string): (r: string)
    ensures |r| <= |s| && r == s[|s| - |r|..]
    ensures r == [] || !IsWhitespace(r[0])
    ensures forall i :: 0 <= i < |s| - |r| ==> IsWhitespace(s[i])
    ensures |s| - |r| == WhitespaceRun(s)
  {
    if s != [] && IsWhitespace(s[0]) then TrimStart(s[1..]) else s
  }

  function TrimEnd(s: string): (r: string)
    ensures |r| <= |s| && r == s[..|r|]
    ensures r == [] || !IsWhitespace(r[|r| - 1])
    ensures forall i :: |r| <= i < |s| ==> IsWhitespace(s[i])
  {
    if s != [] && IsWhitespace(s[|s| - 1]) then TrimEnd(s[..|s| - 1]) else s
  }

  /** `String.prototype.trim`: drops the whitespace at both ends and keeps
      the rest: the result is the slice of `s` that starts after the
      leading whitespace run and is followed only by whitespace. */
  function Trim(s: string): (r: string)
    ensures IsTrimmed(r)
    ensures IsTrimmed(s) ==> r == s
    ensures |r| <= |s|
    ensures WhitespaceRun(s) + |r| <= |s| && r == s[WhitespaceRun(s)..WhitespaceRun(s) + |r|]
    ensures forall i :: WhitespaceRun(s) + |r| <= i < |s| ==> IsWhitespace(s[i])
  {
    var t := TrimStart(s);
    var r := TrimEnd(t);
    assert r != [] ==> r[0] == t[0];
    r
  }

  /** Trimming twice is trimming once. */
  lemma TrimIdempotent(s: string)
    ensures Trim(Trim(s)) == Trim(s)
  {
  }

  function LowerChar(c: char): (r: char)
    ensures 'A' <= c <= 'Z' ==> 'a' <= r <= 'z' && r as int - c as int == 32
    ensures !('A' <= c <= 'Z') ==> r == c
  {
    if 'A' <= c <= 'Z' then (c as int + 32) as char else c
  }

  /** `String.prototype.toLowerCase` on ASCII letters; every other
      character is kept. */
  function ToLowerAscii(s: string): (r: string)
    ensures |r| == |s|
    ensures forall i :: 0 <= i < |s| ==> r[i] == LowerChar(s[i])
  {
    seq(|s|, i requires 0 <= i < |s| => LowerChar(s[i]))
  }

  predicate IsDigit(c: char) {
    '0' <= c <= '9'
  }

  predicate AllDigits(s: string) {
    forall i :: 0 <= i < |s| ==> IsDigit(s[i])
  }

  function DigitChar(d: nat): (c: char)
    requires d < 10
    ensures IsDigit(c) && c as int - '0' as int == d
  {
    ('0' as int + d) as char
  }

  /** Length of the longest prefix of `s` made of ASCII digits. */
  function DigitRun(s: string): (n: nat)
    ensures n <= |s|
    ensures forall i :: 0 <= i < n ==> IsDigit(s[i])
    ensures n < |s| ==> !IsDigit(s[n])
  {
    if s != [] && IsDigit(s[0]) then 1 + DigitRun(s[1..]) else 0
  }

  /** The value of a string of decimal digits. */
  function DigitsValue(ds: string): nat
    requires AllDigits(ds)
  {
    if ds == [] then 0
    else 10 * DigitsValue(ds[..|ds| - 1]) + (ds[|ds| - 1] as int - '0' as int)
  }

  function Pow10(k: nat): (p: nat)
    ensures p >= 1
  {
    if k == 0 then 1 else 10 * Pow10(k - 1)
  }

  /** Decimal digits of `n`, without leading zeros. */
  function NatToString(n: nat): (r: string)
    ensures |r| >= 1 && AllDigits(r)
    ensures DigitsValue(r) == n
    ensures r[0] == '0' ==> r == "0"
  {
    if n < 10 then [DigitChar(n)]
    else
      var r := NatToString(n / 10) + [DigitChar(n % 10)];
      assert r[..|r| - 1] == NatToString(n / 10);
      r
  }

  /** How many fractional digits `NumberToString` renders at most. */
  const MaxFractionDigits: nat := 20

  /** The decimal digits of a fraction 0 < f < 1, stopping when the
      expansion ends or after `budget` digits. */
  function FractionDigits(f: real, budget: nat): (r: string)
    requires 0.0 < f < 1.0
    ensures |r| >= 1 && AllDigits(r)
    decreases budget
  {
    var t := f * 10.0;
    var d := t.Floor;
    var rest := t - d as real;
    [DigitChar(d)] + (if rest == 0.0 || budget <= 1 then "" else FractionDigits(rest, budget - 1))
  }

  /** `String(x)` for a number: an optional '-', the integer part, and, for
      a non-integer, '.' and the fractional digits. */
  function NumberToString(x: real): (r: string)
    ensures r != []
    ensures r[0] == '-' <==> x < 0.0
    ensures r[0] != '-' ==> IsDigit(r[0])
    ensures r[|r| - 1] != '-' && IsDigit(r[|r| - 1])
  {
    var m := if x < 0.0 then -x else x;
    var whole := m.Floor;
    var digits :=
      if m == whole as real then NatToString(whole)
      else NatToString(whole) + "." + FractionDigits(m - whole as real, MaxFractionDigits);
    if x < 0.0 then "-" + digits else digits
  }

  /** A scanned number: its value and how many characters it took. */
  datatype Scan = Scan(value: real, length: nat)

  /** An optional exponent part `e`/`E`, optional sign, digits; the scale
      factor it denotes (1 when absent) and its length. */
  function ExponentPart(s: string): (r: Scan)
    ensures r.length <= |s|
    ensures r.length == 0 ==> r.value == 1.0
    ensures s == [] || (s[0] != 'e' && s[0] != 'E') ==> r.length == 0
  {
    if |s| >= 2 && (s[0] == 'e' || s[0] == 'E') then
      var start := if s[1] == '+' || s[1] == '-' then 2 else 1;
      var k := DigitRun(s[start..]);
      if k == 0 then Scan(1.0, 0)
      else
        var e := Pow10(DigitsValue(s[start..start + k])) as real;
        Scan(if s[1] == '-' then 1.0 / e else e, start + k)
    else Scan(1.0, 0)
  }

  /** The longest prefix of `s` that is an unsigned decimal literal (digits,
      an optional '.' with digits, an optional exponent; at least one digit
      before the exponent). */
  function UnsignedDecimalPrefix(s: string): (r: Option<Scan>)
    ensures r.None? <==> !(|s| > 0 && (IsDigit(s[0]) || (|s| > 1 && s[0] == '.' && IsDigit(s[1]))))
    ensures r.Some? ==> 0 < r.value.length <= |s|
  {
    var i := DigitRun(s);
    var hasDot := i < |s| && s[i] == '.';
    var f := if hasDot then DigitRun(s[i + 1..]) else 0;
    if i == 0 && f == 0 then None
    else
      var mantissaLength := if hasDot then i + 1 + f else i;
      var fraction := if hasDot then DigitsValue(s[i + 1..mantissaLength]) as real / Pow10(f) as real else 0.0;
      var exp := ExponentPart(s[mantissaLength..]);
      Some(Scan((DigitsValue(s[..i]) as real + fraction) * exp.value, mantissaLength + exp.length))
  }

  /** An optional '+' or '-' followed by an unsigned decimal literal. */
  function SignedDecimalPrefix(s: string): (r: Option<Scan>)
    ensures r.Some? ==> 0 < r.value.length <= |s|
  {
    if s != [] && (s[0] == '+' || s[0] == '-') then
      match UnsignedDecimalPrefix(s[1..])
      case None => None
      case Some(u) => Some(Scan(if s[0] == '-' then -u.value else u.value, u.length + 1))
    else UnsignedDecimalPrefix(s)
  }

  /** `parseFloat(s)`: the value of the longest decimal literal after the
      leading whitespace; `None` (NaN) when there is none. */
  function ParseFloat(s: string): (r: Option<real>)
    ensures r.None? <==> SignedDecimalPrefix(TrimStart(s)).None?
  {
    match SignedDecimalPrefix(TrimStart(s))
    case None => None
    case Some(p) => Some(p.value)
  }

  /** ToNumber on a string (ECMA-262 section 7.1.4.1.1): the whole trimmed
      text must be one decimal literal; empty text is 0. */
  function StringToNumber(s: string): (r: Option<real>)
    ensures Trim(s) == [] ==> r == Some(0.0)
  {
    var t := Trim(s);
    if t == [] then Some(0.0)
    else
      match SignedDecimalPrefix(t)
      case Some(p) => if p.length == |t| then Some(p.value) else None
      case None => None
  }

  /** Digits followed by text that cannot continue a decimal literal scan
      as exactly those digits. */
  lemma {:induction false} UnsignedDigitsPrefix(ds: string, rest: string)
    requires ds != [] && AllDigits(ds)
    requires rest == [] || (!IsDigit(rest[0]) && rest[0] != '.' && rest[0] != 'e' && rest[0] != 'E')
    ensures UnsignedDecimalPrefix(ds + rest) == Some(Scan(DigitsValue(ds) as real, |ds|))
  {
    var s := ds + rest;
    DigitRunOfDigits(ds, rest);
    assert s[..|ds|] == ds;
    assert s[|ds|..] == rest;
  }

  /** The digit run of `ds + rest` is `ds` when `rest` does not start with a digit. */
  lemma {:induction false} DigitRunOfDigits(ds: string, rest: string)
    requires AllDigits(ds)
    requires rest == [] || !IsDigit(rest[0])
    ensures DigitRun(ds + rest) == |ds|
  {
    if ds != [] {
      assert (ds + rest)[1..] == ds[1..] + rest;
      DigitRunOfDigits(ds[1..], rest);
    } else {
      assert ds + rest == rest;
    }
  }

  /** An integer is written as an optional '-' and the digits of its magnitude. */
  lemma NumberToStringInteger(n: int)
    ensures NumberToString(n as real) == if n < 0 then "-" + NatToString(-n) else NatToString(n)
  {
    var m: nat := if n < 0 then -n else n;
    assert (if n as real < 0.0 then -(n as real) else n as real) == m as real;
    assert (m as real).Floor == m;
  }

  /** Trimmed text that is one whole decimal literal converts to its value
      both ways. */
  lemma WholeLiteral(s: string, v: real)
    requires s != [] && IsTrimmed(s)
    requires SignedDecimalPrefix(s) == Some(Scan(v, |s|))
    ensures ParseFloat(s) == Some(v)
    ensures StringToNumber(s) == Some(v)
  {
    assert TrimStart(s) == s;
    assert Trim(s) == s;
  }

  /** `parseFloat` reads back every integer that `NumberToString` writes. */
  lemma ParseFloatNumberToString(n: int)
    ensures ParseFloat(NumberToString(n as real)) == Some(n as real)
  {
    SignedIntegerPrefix(n);
    WholeLiteral(NumberToString(n as real), n as real);
  }

  /** The whole-text conversion agrees with `parseFloat` on integers written
      by `NumberToString`. */
  lemma StringToNumberNumberToString(n: int)
    ensures StringToNumber(NumberToString(n as real)) == Some(n as real)
  {
    SignedIntegerPrefix(n);
    WholeLiteral(NumberToString(n as real), n as real);
  }

  /** The text `NumberToString` writes for an integer is one whole decimal
      literal denoting that integer. */
  lemma SignedIntegerPrefix(n: int)
    ensures SignedDecimalPrefix(NumberToString(n as real)) == Some(Scan(n as real, |NumberToString(n as real)|))
  {
    var m: nat := if n < 0 then -n else n;
    var digits := NatToString(m);
    NumberToStringInteger(n);
    UnsignedDigitsPrefix(digits, "");
    assert digits + "" == digits;
    if n < 0 {
      assert ("-" + digits)[1..] == digits;
      assert ("-" + digits)[0] == '-';
      assert -(m as real) == n as real;
    } else {
      assert digits[0] != '+' && digits[0] != '-';
    }
  }
}
