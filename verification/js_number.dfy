/**
 * The part of JavaScript's number semantics that version selection relies on:
 * `Number(s)` on a version key, `String(x)` when that number is used again as a
 * property key, `Math.max(...xs)`, and truthiness (`!x`).
 */
module JsNumber {

  /**
   * The values `Number(key)` takes for a version key (a string without `.` or `-`),
   * plus the `-Infinity` that `Math.max()` returns for no arguments.
   */
  datatype Number = Finite(n: nat) | NaN | NegInfinity

  predicate IsDigit(c: char) {
    '0' <= c <= '9'
  }

  predicate AllDigits(s: string) {
    forall i :: 0 <= i < |s| ==> IsDigit(s[i])
  }

  function DigitChar(d: nat): (c: char)
    requires d < 10
    ensures IsDigit(c)
  {
    ('0' as int + d) as char
  }

  function DigitValue(c: char): (d: nat)
    requires IsDigit(c)
    ensures d < 10 && DigitChar(d) == c
  {
    c as int - '0' as int
  }

  /** The value of a decimal numeral. */
  function ValueOf(s: string): nat
    requires AllDigits(s)
    decreases |s|
  {
    if s == [] then 0 else ValueOf(s[..|s| - 1]) * 10 + DigitValue(s[|s| - 1])
  }

  /** `Number(s)`: the empty string is 0, a decimal numeral its value, anything else NaN. */
  function ToNumber(s: string): (r: Number)
    ensures r != NegInfinity
    ensures r.Finite? <==> AllDigits(s)
  {
    if s == [] then Finite(0)
    else if AllDigits(s) then Finite(ValueOf(s))
    else NaN
  }

  /** A numeral of more than one digit that starts with 0, which `String(n)` never produces. */
  predicate LeadingZero(s: string) {
    AllDigits(s) && |s| > 1 && s[0] == '0'
  }

  /** A numeral in the form `String(n)` produces: digits, no leading zero except "0" itself. */
  predicate Canonical(s: string) {
    s != [] && AllDigits(s) && (s[0] == '0' ==> |s| == 1)
  }

  /** `String(n)` for a non-negative integer. */
  function Decimal(n: nat): (s: string)
    ensures Canonical(s)
    ensures n < 10 <==> |s| == 1
  {
    if n < 10 then [DigitChar(n)] else Decimal(n / 10) + [DigitChar(n % 10)]
  }

  /** `String(x)`: the property key `versions[x]` looks up. */
  function Key(x: Number): string {
    match x
    case Finite(n) => Decimal(n)
    case NaN => "NaN"
    case NegInfinity => "-Infinity"
  }

  /** `!x` */
  predicate Falsy(x: Number) {
    x == Finite(0) || x == NaN
  }

  function Max2(a: Number, b: Number): Number {
    if a == NaN || b == NaN then NaN
    else if a == NegInfinity then b
    else if b == NegInfinity then a
    else if a.n < b.n then b else a
  }

  /**
   * `Math.max(...xs)`: -Infinity for no arguments, NaN as soon as one argument is NaN,
   * otherwise the largest argument.
   */
  function Max(xs: seq<Number>): (r: Number)
    ensures r == NegInfinity <==> forall i :: 0 <= i < |xs| ==> xs[i] == NegInfinity
    ensures r == NaN <==> NaN in xs
    ensures r.Finite? ==> r in xs && forall i :: 0 <= i < |xs| && xs[i].Finite? ==> xs[i].n <= r.n
  {
    if xs == [] then NegInfinity
    else
      var r := Max2(xs[0], Max(xs[1..]));
      assert forall i :: 1 <= i < |xs| ==> xs[i] == xs[1..][i - 1];
      r
  }

  lemma {:induction false} ValueOfSnoc(s: string, c: char)
    requires AllDigits(s) && IsDigit(c)
    ensures AllDigits(s + [c]) && ValueOf(s + [c]) == ValueOf(s) * 10 + DigitValue(c)
  {
    assert (s + [c])[..|s|] == s;
  }

  /** Reading back what `String(n)` wrote gives `n`. */
  lemma {:induction false} DecimalRoundTrip(n: nat)
    ensures ToNumber(Decimal(n)) == Finite(n)
  {
    if n >= 10 {
      DecimalRoundTrip(n / 10);
      ValueOfSnoc(Decimal(n / 10), DigitChar(n % 10));
      assert Decimal(n) == Decimal(n / 10) + [DigitChar(n % 10)];
      assert ValueOf(Decimal(n)) == n / 10 * 10 + n % 10;
    } else {
      assert ValueOf(Decimal(n)) == ValueOf([]) * 10 + n;
    }
  }

  lemma {:induction false} LeadingDigitPositive(s: string)
    requires AllDigits(s) && s != [] && s[0] != '0'
    ensures ValueOf(s) > 0
    decreases |s|
  {
    if |s| > 1 {
      LeadingDigitPositive(s[..|s| - 1]);
    }
  }

  /**
   * A numeral survives the trip through `Number` and back to `String` exactly when it
   * is canonical: "043373" comes back as "43373".
   */
  lemma {:induction false} NumeralRoundTrip(s: string)
    requires AllDigits(s) && s != []
    ensures Decimal(ValueOf(s)) == s <==> Canonical(s)
    decreases |s|
  {
    if Canonical(s) && |s| > 1 {
      var t, c := s[..|s| - 1], s[|s| - 1];
      assert s == t + [c];
      assert Canonical(t);
      NumeralRoundTrip(t);
      LeadingDigitPositive(t);
      var v, d := ValueOf(t), DigitValue(c);
      assert (v * 10 + d) / 10 == v && (v * 10 + d) % 10 == d;
    }
  }
}
