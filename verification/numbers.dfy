/**
 * JavaScript number handling as the forms use it: `parseInt`, `parseFloat`, the
 * `Number(...)` coercion behind `<` / `>` on strings, `String(n)` and truthiness.
 * Only decimal notation is modelled (no exponent, hexadecimal or `Infinity`).
 */
module Numbers {
  import opened Optional
  import opened Strings

  predicate IsDigit(c: char) {
    '0' <= c <= '9'
  }

  predicate AllDigits(s: string) {
    forall i :: 0 <= i < |s| ==> IsDigit(s[i])
  }

  /** The value of a digit character (zero for any other character). */
  function DigitValue(c: char): (d: nat)
    ensures d < 10
  {
    if IsDigit(c) then c as int - '0' as int else 0
  }

  function DigitChar(d: nat): (c: char)
    requires d < 10
    ensures IsDigit(c) && DigitValue(c) == d
  {
    ('0' as int + d) as char
  }

  /** Value of a digit string, most significant digit first. */
  function DigitsValue(ds: string): nat
    decreases |ds|
  {
    if |ds| == 0 then 0 else DigitsValue(ds[..|ds| - 1]) * 10 + DigitValue(ds[|ds| - 1])
  }

  /** The longest run of digits at the start of `s`. */
  function LeadingDigits(s: string): (r: string)
    ensures |r| <= |s|
  {
    if |s| == 0 || !IsDigit(s[0]) then "" else [s[0]] + LeadingDigits(s[1..])
  }

  /** The run is a prefix of `s`, all digits, and stops at the first non-digit. */
  lemma {:induction false} LeadingDigitsSpec(s: string)
    ensures var r := LeadingDigits(s);
      && r == s[..|r|] && AllDigits(r)
      && (|r| < |s| ==> !IsDigit(s[|r|]))
  {
    if |s| > 0 && IsDigit(s[0]) {
      LeadingDigitsSpec(s[1..]);
    }
  }

  /** The run of leading digits does not look past the first non-digit. */
  lemma {:induction false} LeadingDigitsStops(a: string, b: string)
    requires AllDigits(a)
    requires b == [] || !IsDigit(b[0])
    ensures LeadingDigits(a + b) == a
  {
    if |a| > 0 {
      assert (a + b)[1..] == a[1..] + b;
      LeadingDigitsStops(a[1..], b);
    }
  }

  /** Decimal digits of `n` with no leading zero. */
  function NatToDigits(n: nat): (r: string)
    ensures |r| > 0 && AllDigits(r)
    ensures DigitsValue(r) == n
  {
    if n < 10 then [DigitChar(n)]
    else
      var r := NatToDigits(n / 10) + [DigitChar(n % 10)];
      assert r[..|r| - 1] == NatToDigits(n / 10);
      r
  }

  /** `String(i)` for an integer. */
  function IntToString(i: int): (r: string)
    ensures |r| > 0 && (r[0] == '-' || IsDigit(r[0]))
  {
    if i < 0 then "-" + NatToDigits(-i) else NatToDigits(i)
  }

  /** Length of the optional sign at the start of a number literal. */
  function SignLength(t: string): (n: nat)
    ensures n <= |t|
  {
    if |t| > 0 && (t[0] == '-' || t[0] == '+') then 1 else 0
  }

  predicate Negative(t: string) {
    |t| > 0 && t[0] == '-'
  }

  /**
   * `parseInt(s)`: leading white space is skipped, then an optional sign and the
   * longest run of digits; anything after it is ignored. `None` is `NaN`.
   */
  function ParseInt(s: string): (r: Option<int>)
    ensures var t := TrimStart(s); var body := t[SignLength(t)..];
      r.Some? <==> |body| > 0 && IsDigit(body[0])
  {
    var t := TrimStart(s);
    var digits := Lex(t).whole;
    if digits == "" then None
    else Some(if Negative(t) then -(DigitsValue(digits) as int) else DigitsValue(digits))
  }

  /** `parseInt(String(i))` gives back `i`: printing and parsing an integer are inverse. */
  lemma ParseIntOfIntToString(i: int)
    ensures ParseInt(IntToString(i)) == Some(i)
  {
    var s := IntToString(i);
    assert !IsSpace(s[0]);
    assert TrimStart(s) == s;
    if i < 0 {
      var ds := NatToDigits(-i);
      assert s[SignLength(s)..] == ds + [];
      LeadingDigitsStops(ds, []);
    } else {
      var ds := NatToDigits(i);
      assert SignLength(s) == 0;
      assert s[SignLength(s)..] == ds + [];
      LeadingDigitsStops(ds, []);
    }
  }

  /** `parseInt` stops at the first non-digit, so text after a printed integer is ignored. */
  lemma ParseIntOfIntToStringThen(i: int, rest: string)
    requires rest == [] || !IsDigit(rest[0])
    ensures ParseInt(IntToString(i) + rest) == Some(i)
  {
    var t := IntToString(i);
    var s := t + rest;
    var ds := if i < 0 then NatToDigits(-i) else NatToDigits(i);
    assert s[0] == t[0];
    assert TrimStart(s) == s;
    assert SignLength(s) == (if i < 0 then 1 else 0);
    assert s[SignLength(s)..] == ds + rest;
    LeadingDigitsStops(ds, rest);
    assert Lex(s).whole == ds;
    assert Negative(s) == (i < 0);
  }

  /** A decimal literal found at the start of a text: its value and how many characters it spans. */
  datatype Scan = Scan(value: real, length: nat)

  /** The pieces of a number literal at the start of a text: sign, whole digits, point, fraction digits. */
  datatype Literal = Literal(sign: nat, whole: string, hasDot: bool, fraction: string) {
    function Length(): nat {
      sign + |whole| + (if hasDot then 1 else 0) + |fraction|
    }
  }

  /** Splits the start of `t` into the pieces of a literal; every piece may be empty. */
  function Lex(t: string): (l: Literal)
    ensures l.Length() <= |t|
  {
    var sign := SignLength(t);
    var body := t[sign..];
    var whole := LeadingDigits(body);
    var rest := body[|whole|..];
    var hasDot := |rest| > 0 && rest[0] == '.';
    var fraction := if hasDot then LeadingDigits(rest[1..]) else "";
    Literal(sign, whole, hasDot, fraction)
  }

  /**
   * The longest decimal literal at the start of `t`: an optional sign, digits, and an
   * optional `.` followed by digits, with at least one digit in all.
   */
  function ScanDecimal(t: string): (r: Option<Scan>)
    ensures r.Some? ==> 0 < r.value.length <= |t|
  {
    var l := Lex(t);
    if l.whole == "" && l.fraction == "" then None
    else
      var magnitude := DigitsValue(l.whole) as real + FractionValue(l.fraction);
      Some(Scan(if Negative(t) then -magnitude else magnitude, l.Length()))
  }

  /** `parseFloat(s)`: the decimal literal after leading white space; trailing text is ignored. */
  function ParseFloat(s: string): (r: Option<real>)
    ensures r.Some? <==> ScanDecimal(TrimStart(s)).Some?
  {
    match ScanDecimal(TrimStart(s))
    case Some(scan) => Some(scan.value)
    case None => None
  }

  /**
   * `Number(s)`, the coercion a relational operator applies to a string: blank text is 0,
   * otherwise the whole trimmed text must be one decimal literal, else the result is `NaN`.
   */
  function ToNumber(s: string): (r: Option<real>)
    ensures IsBlank(s) ==> r == Some(0.0)
  {
    var t := Trim(s);
    if t == "" then Some(0.0)
    else
      match ScanDecimal(t)
      case Some(scan) => if scan.length == |t| then Some(scan.value) else None
      case None => None
  }

  /** The digits after a decimal point, `0.d1d2...`, read from the right one tenth at a time. */
  function FractionValue(ds: string): real
  {
    if ds == [] then 0.0 else (DigitValue(ds[0]) as real + FractionValue(ds[1..])) / 10.0
  }

  /** A fraction part is worth less than one. */
  lemma {:induction false} FractionBelowOne(ds: string)
    ensures 0.0 <= FractionValue(ds) < 1.0
  {
    if ds != [] {
      FractionBelowOne(ds[1..]);
    }
  }

  /** White space after a literal that spans all of `t` changes none of its pieces. */
  lemma LexIgnoresTrailingSpaces(t: string, w: string)
    requires Lex(t).Length() == |t| > 0
    requires w == [] || IsSpace(w[0])
    ensures Lex(t + w) == Lex(t)
    ensures Negative(t + w) == Negative(t)
  {
    var l := Lex(t);
    var rest := t[l.sign..][|l.whole|..];
    WholeIgnoresTrailingSpaces(t, w);
    if l.hasDot {
      FractionIgnoresTrailingSpaces(rest, l.fraction, w);
    } else {
      assert rest == [];
    }
  }

  /** The sign and the whole digits are read the same with white space appended. */
  lemma WholeIgnoresTrailingSpaces(t: string, w: string)
    requires |t| > 0
    requires w == [] || IsSpace(w[0])
    ensures SignLength(t + w) == SignLength(t) && Negative(t + w) == Negative(t)
    ensures var sign := SignLength(t); var whole := Lex(t).whole;
      && LeadingDigits((t + w)[sign..]) == whole
      && (t + w)[sign..][|whole|..] == t[sign..][|whole|..] + w
  {
    var sign := SignLength(t);
    var body := t[sign..];
    var whole := LeadingDigits(body);
    var rest := body[|whole|..];
    LeadingDigitsSpec(body);
    assert (t + w)[0] == t[0];
    assert (t + w)[sign..] == whole + (rest + w);
    if |rest| > 0 {
      assert (rest + w)[0] == rest[0];
    } else {
      assert rest + w == w;
    }
    LeadingDigitsStops(whole, rest + w);
  }

  /** After the point, a fraction that ends the text is read the same with white space appended. */
  lemma FractionIgnoresTrailingSpaces(rest: string, fraction: string, w: string)
    requires |rest| > 0 && fraction == LeadingDigits(rest[1..]) && |rest| == 1 + |fraction|
    requires w == [] || IsSpace(w[0])
    ensures (rest + w)[0] == rest[0]
    ensures LeadingDigits((rest + w)[1..]) == fraction
  {
    LeadingDigitsSpec(rest[1..]);
    assert rest[1..] == fraction;
    assert (rest + w)[1..] == fraction + w;
    LeadingDigitsStops(fraction, w);
  }

  /** The text without leading white space is the trimmed text followed by white space. */
  lemma TrailingSpaces(s: string) returns (w: string)
    ensures TrimStart(s) == Trim(s) + w
    ensures w == [] || IsSpace(w[0])
    ensures Trim(s) == "" ==> TrimStart(s) == ""
  {
    var u := TrimStart(s);
    TrimStartSpec(s);
    TrimEndSpec(u);
    w := u[|Trim(s)|..];
    assert u == Trim(s) + w;
  }

  /**
   * `parseInt` and `Number` agree on numeric text: where `Number(s)` is a number,
   * `parseInt(s) || 0` is that number truncated toward zero.
   */
  lemma ParseIntTruncatesNumber(s: string)
    requires ToNumber(s).Some?
    ensures OrZero(ParseInt(s)) == Trunc(ToNumber(s).value)
  {
    var w := TrailingSpaces(s);
    var t := Trim(s);
    if t != "" {
      LexIgnoresTrailingSpaces(t, w);
      TruncOfScan(t);
    }
  }

  /** Truncating a scanned literal leaves its signed whole part. */
  lemma TruncOfScan(t: string)
    requires ScanDecimal(t).Some?
    ensures var n := DigitsValue(Lex(t).whole);
      Trunc(ScanDecimal(t).value.value) == if Negative(t) then -(n as int) else n
  {
    var l := Lex(t);
    FractionBelowOne(l.fraction);
    TruncDropsFraction(DigitsValue(l.whole), FractionValue(l.fraction));
  }

  /** Where `Number(s)` is a number, `parseFloat(s) || 0` is the same number. */
  lemma ParseFloatOfNumber(s: string)
    requires ToNumber(s).Some?
    ensures OrZeroReal(ParseFloat(s)) == ToNumber(s).value
  {
    var w := TrailingSpaces(s);
    var t := Trim(s);
    if t != "" {
      LexIgnoresTrailingSpaces(t, w);
    }
  }

  /** A text that coerces to a number of at least one `parseInt`s to an integer of at least one. */
  lemma ParseIntOfNumberAtLeastOne(s: string)
    requires ToNumber(s).Some? && ToNumber(s).value >= 1.0
    ensures ParseInt(s).Some? && ParseInt(s).value >= 1
  {
    ParseIntTruncatesNumber(s);
    TruncSpec(ToNumber(s).value);
  }

  /** Truncating `w + f` or `-(w + f)` for a whole `w` and a fraction `0 <= f < 1` drops `f`. */
  lemma TruncDropsFraction(w: nat, f: real)
    requires 0.0 <= f < 1.0
    ensures Trunc(w as real + f) == w
    ensures Trunc(-(w as real + f)) == -(w as int)
  {
  }

  /** Truncation toward zero, what `parseInt` does to a non-integral number. */
  function Trunc(x: real): int {
    if x >= 0.0 then x.Floor else -((-x).Floor)
  }

  /**
   * `Trunc` drops the fraction toward zero: it lies within one of `x` on the side of zero.
   * (Kept apart from `Trunc` so that mixed integer/real facts enter only the proofs that need them.)
   */
  lemma TruncSpec(x: real)
    ensures x >= 0.0 ==> Trunc(x) as real <= x < Trunc(x) as real + 1.0
    ensures x < 0.0 ==> Trunc(x) as real - 1.0 < x <= Trunc(x) as real
    ensures x == (x.Floor as real) ==> Trunc(x) == x.Floor
  {
  }

  /**
   * A form field holds either the text the user typed or, after an edit prefill,
   * the number that came from the server.
   */
  datatype Value = Str(text: string) | Num(number: real)

  /** JavaScript truthiness: the empty string and zero are false. */
  predicate Truthy(v: Value) {
    match v
    case Str(s) => s != ""
    case Num(n) => n != 0.0
  }

  /** `parseInt(v)`. */
  function IntOf(v: Value): Option<int> {
    match v
    case Str(s) => ParseInt(s)
    case Num(n) => Some(Trunc(n))
  }

  /** `parseFloat(v)`. */
  function FloatOf(v: Value): Option<real> {
    match v
    case Str(s) => ParseFloat(s)
    case Num(n) => Some(n)
  }

  /** `Number(v)`. */
  function NumberOf(v: Value): Option<real> {
    match v
    case Str(s) => ToNumber(s)
    case Num(n) => Some(n)
  }

  /** `v < k`: false whenever `v` coerces to `NaN`. */
  predicate Below(v: Value, k: real) {
    NumberOf(v).Some? && NumberOf(v).value < k
  }

  /** `v > k`: false whenever `v` coerces to `NaN`. */
  predicate Above(v: Value, k: real) {
    NumberOf(v).Some? && NumberOf(v).value > k
  }

  /** `x || 0` after a parse: `NaN` and zero both become zero. */
  function OrZero(n: Option<int>): int {
    n.GetOr(0)
  }

  /** `x || 0` after `parseFloat`. */
  function OrZeroReal(n: Option<real>): real {
    n.GetOr(0.0)
  }

  /** `v ? parseInt(v) : null`: an empty input is sent as `null`, and so is one that is not a number. */
  function IntOrNull(v: Value): (r: Option<int>)
    ensures !Truthy(v) ==> r.None?
    ensures Truthy(v) ==> r == IntOf(v)
  {
    if Truthy(v) then IntOf(v) else None
  }

  /** `v ? parseFloat(v) : null`. */
  function RealOrNull(v: Value): (r: Option<real>)
    ensures !Truthy(v) ==> r.None?
    ensures Truthy(v) ==> r == FloatOf(v)
  {
    if Truthy(v) then FloatOf(v) else None
  }

  /** The field value an edit prefill stores for an optional integer: `n || ''`. */
  function IntOrEmpty(n: Option<int>): (v: Value)
    ensures Truthy(v) <==> n.Some? && n.value != 0
  {
    if n.Some? && n.value != 0 then Num(n.value as real) else Str("")
  }

  /** The field value an edit prefill stores for an optional decimal: `x || ''`. */
  function RealOrEmpty(x: Option<real>): (v: Value)
    ensures Truthy(v) <==> x.Some? && x.value != 0.0
  {
    if x.Some? && x.value != 0.0 then Num(x.value) else Str("")
  }

  /** Parsing a prefilled integer gives the integer back. */
  lemma IntOfPrefilled(n: int)
    ensures IntOf(Num(n as real)) == Some(n)
    ensures FloatOf(Num(n as real)) == Some(n as real)
  {
  }

  /** A whole number prefilled by `x || ''` reads back as itself, except 0, which reads back as none. */
  lemma IntOfPrefill(n: Option<int>)
    ensures IntOf(IntOrEmpty(n)) == (if n.Some? && n.value != 0 then n else None)
    ensures IntOrNull(IntOrEmpty(n)) == IntOf(IntOrEmpty(n))
  {
    if n.Some? && n.value != 0 {
      IntOfPrefilled(n.value);
    } else {
      assert ParseInt("") == None;
    }
  }

  /** On a field whose value `Number` reads as a number, `parseInt(v) || 0` truncates that number. */
  lemma IntOfNumber(v: Value)
    requires NumberOf(v).Some?
    ensures OrZero(IntOf(v)) == Trunc(NumberOf(v).value)
  {
    if v.Str? {
      ParseIntTruncatesNumber(v.text);
    }
  }

  /** On a field whose value `Number` reads as a number, `parseFloat(v) || 0` is that number. */
  lemma FloatOfNumber(v: Value)
    requires NumberOf(v).Some?
    ensures OrZeroReal(FloatOf(v)) == NumberOf(v).value
  {
    if v.Str? {
      ParseFloatOfNumber(v.text);
    }
  }
}
