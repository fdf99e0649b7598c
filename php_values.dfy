/** The handful of PHP value semantics the plugin's decisions depend on:
    truthiness, `is_numeric`, `intval` (base 10) and loose comparison `==`. */
module PhpValues {

  datatype Option<T> = None | Some(value: T)

  /** A PHP value as it occurs in the options record or in a submitted
      settings field: null, an integer, a string, or a list of strings
      (the `roles[]` multi-select). */
  datatype Value = Null | Int(i: int) | Text(s: string) | List(items: seq<string>)

  /** Characters C's isspace accepts; PHP skips them in front of numbers. */
  predicate IsWhitespace(c: char) {
    c == ' ' || c == '\t' || c == '\n' || c == '\r' || c == '\U{000B}' || c == '\U{000C}'
  }

  predicate IsDigit(c: char) {
    '0' as int <= c as int <= '9' as int
  }

  predicate IsSign(c: char) {
    c == '+' || c == '-'
  }

  /** Length of the longest prefix of `s` whose characters all satisfy `p`. */
  function Span(s: string, p: char -> bool): (n: nat)
    ensures n <= |s|
    ensures forall i :: 0 <= i < n ==> p(s[i])
    ensures n < |s| ==> !p(s[n])
  {
    if s == [] || !p(s[0]) then 0 else 1 + Span(s[1..], p)
  }

  /** Value of a string of decimal digits, most significant first. */
  function DigitsValue(s: string): (v: nat)
    requires forall i :: 0 <= i < |s| ==> IsDigit(s[i])
  {
    if s == [] then 0
    else
      var last := s[|s| - 1];
      assert IsDigit(last);
      10 * DigitsValue(s[..|s| - 1]) + (last as int - '0' as int)
  }

  /** The string with its leading whitespace and an optional sign removed. */
  function Unsigned(s: string): (u: string) {
    var t := s[Span(s, IsWhitespace)..];
    if |t| > 0 && IsSign(t[0]) then t[1..] else t
  }

  function SignOf(s: string): (sign: int) {
    var t := s[Span(s, IsWhitespace)..];
    if |t| > 0 && t[0] == '-' then -1 else 1
  }

  /** `is_numeric` on a string, for the integer forms: optional leading
      whitespace, an optional sign, at least one decimal digit, optional
      trailing whitespace. */
  predicate IsNumeric(s: string) {
    var u := Unsigned(s);
    var d := Span(u, IsDigit);
    d > 0 && d + Span(u[d..], IsWhitespace) == |u|
  }

  /** `intval` in base 10: the signed run of leading decimal digits after
      leading whitespace, and 0 when there is none. */
  function IntVal(s: string): (n: int) {
    var u := Unsigned(s);
    SignOf(s) * DigitsValue(u[..Span(u, IsDigit)])
  }

  /** PHP truthiness of a string: false exactly for "" and "0". */
  predicate StringTruthy(s: string) {
    s != "" && s != "0"
  }

  /** PHP truthiness (the `!` in `! $this->options( 'mode' )`). */
  predicate Truthy(v: Value) {
    match v
    case Null => false
    case Int(i) => i != 0
    case Text(s) => StringTruthy(s)
    case List(items) => items != []
  }

  /** `==` between two strings: numerically when both are numeric. */
  predicate LooseTextEquals(s: string, t: string) {
    if IsNumeric(s) && IsNumeric(t) then IntVal(s) == IntVal(t) else s == t
  }

  /** PHP 8 loose comparison `==` between two values. */
  predicate LooseEquals(a: Value, b: Value) {
    match (a, b)
    case (Null, Null) => true
    case (Null, Int(j)) => j == 0
    case (Null, Text(t)) => t == ""
    case (Null, List(ys)) => ys == []
    case (Int(i), Null) => i == 0
    case (Text(s), Null) => s == ""
    case (List(xs), Null) => xs == []
    case (Int(i), Int(j)) => i == j
    case (Int(i), Text(t)) => IsNumeric(t) && IntVal(t) == i
    case (Text(s), Int(j)) => IsNumeric(s) && IntVal(s) == j
    case (Text(s), Text(t)) => LooseTextEquals(s, t)
    case (List(xs), List(ys)) =>
      |xs| == |ys| && forall k :: 0 <= k < |xs| ==> LooseTextEquals(xs[k], ys[k])
    case (_, _) => false
  }

  /** Decimal rendering of a natural number, as PHP prints an integer. */
  function NatToDecimal(n: nat): (s: string)
    ensures |s| > 0
    ensures forall i :: 0 <= i < |s| ==> IsDigit(s[i])
  {
    var last := ('0' as int + n % 10) as char;
    if n < 10 then [last] else NatToDecimal(n / 10) + [last]
  }

  function IntToDecimal(n: int): (s: string) {
    if n < 0 then "-" + NatToDecimal(-n) else NatToDecimal(n)
  }

  lemma {:induction false} DigitsValueOfDecimal(n: nat)
    ensures DigitsValue(NatToDecimal(n)) == n
  {
    var s := NatToDecimal(n);
    if n >= 10 {
      DigitsValueOfDecimal(n / 10);
      assert s[..|s| - 1] == NatToDecimal(n / 10);
    }
  }

  lemma SpanAll(s: string, p: char -> bool)
    requires forall i :: 0 <= i < |s| ==> p(s[i])
    ensures Span(s, p) == |s|
  {
  }

  /** The text of a negative integer is `-` and the digits of its magnitude;
      of any other, just the digits. */
  lemma DecimalParts(n: int)
    ensures Unsigned(IntToDecimal(n)) == NatToDecimal(if n < 0 then -n else n)
    ensures SignOf(IntToDecimal(n)) == if n < 0 then -1 else 1
  {
    var s := IntToDecimal(n);
    if n < 0 {
      assert s[0] == '-';
      assert s[1..] == NatToDecimal(-n);
    } else {
      assert IsDigit(s[0]);
    }
    assert !IsWhitespace(s[0]);
    assert Span(s, IsWhitespace) == 0;
    assert s[0..] == s;
  }

  /** The decimal text of any integer is numeric and `intval` reads it back:
      a number submitted in a settings field is stored as that number. */
  lemma IntValOfDecimal(n: int)
    ensures IsNumeric(IntToDecimal(n))
    ensures IntVal(IntToDecimal(n)) == n
  {
    var m: nat := if n < 0 then -n else n;
    var digits := NatToDecimal(m);
    DecimalParts(n);
    SpanAll(digits, IsDigit);
    assert digits[|digits|..] == [];
    assert digits[..|digits|] == digits;
    DigitsValueOfDecimal(m);
  }

  /** A string that does not start with whitespace, a sign or a digit is not
      numeric. */
  lemma NotNumericByFirstChar(s: string)
    requires |s| > 0 && !IsWhitespace(s[0]) && !IsSign(s[0]) && !IsDigit(s[0])
    ensures !IsNumeric(s)
  {
    assert Span(s, IsWhitespace) == 0;
    assert Unsigned(s) == s;
  }

  /** Against a non-empty string that is not numeric, loose `==` is exact
      equality. */
  lemma LooseEqualsPlainText(s: string, b: Value)
    requires s != "" && !IsNumeric(s)
    ensures LooseEquals(Text(s), b) <==> b == Text(s)
  {
  }

  /** Against a list of non-empty, non-numeric strings, loose `==` is exact
      equality. */
  lemma LooseEqualsPlainList(xs: seq<string>, ys: seq<string>)
    requires forall k :: 0 <= k < |xs| ==> xs[k] != "" && !IsNumeric(xs[k])
    ensures LooseEquals(List(ys), List(xs)) <==> ys == xs
  {
    if LooseEquals(List(ys), List(xs)) {
      assert |ys| == |xs|;
      forall k | 0 <= k < |ys| ensures ys[k] == xs[k] {
        assert LooseTextEquals(ys[k], xs[k]);
      }
    }
  }
}
