/**
 The JavaScript number semantics the handler relies on: `parseFloat`, the
 `|| 0.0` coercion and the `a - b` comparator handed to `Array.prototype.sort`.
 Finite numbers are exact reals; NaN is the `None` of an `Option<Number>`.
 */
module JsNumbers {
  import opened Wrappers

  /** A JavaScript number that is not NaN. */
  datatype Number = NegInfinity | Finite(value: real) | PosInfinity

  /** `a - b` under IEEE 754 rules for infinities; `None` is NaN. */
  function Subtract(a: Number, b: Number): Option<Number>
  {
    match (a, b)
    case (Finite(x), Finite(y)) => Some(Finite(x - y))
    case (PosInfinity, PosInfinity) => None
    case (NegInfinity, NegInfinity) => None
    case (PosInfinity, _) => Some(PosInfinity)
    case (NegInfinity, _) => Some(NegInfinity)
    case (Finite(_), PosInfinity) => Some(NegInfinity)
    case (Finite(_), NegInfinity) => Some(PosInfinity)
  }

  /**
   Whether the comparator `(a, b) => a - b` lets `a` stay before `b`: the
   difference is not positive. `Array.prototype.sort` reads a NaN result as 0.
   */
  predicate ComparesAtMost(a: Number, b: Number)
  {
    match Subtract(a, b)
    case None => true
    case Some(d) => d.NegInfinity? || (d.Finite? && d.value <= 0.0)
  }

  /** The comparator is a total order on numbers other than NaN. */
  lemma ComparesAtMostIsTotalOrder()
    ensures forall a :: ComparesAtMost(a, a)
    ensures forall a, b :: ComparesAtMost(a, b) && ComparesAtMost(b, a) ==> a == b
    ensures forall a, b, c :: ComparesAtMost(a, b) && ComparesAtMost(b, c) ==> ComparesAtMost(a, c)
    ensures forall a, b :: ComparesAtMost(a, b) || ComparesAtMost(b, a)
  {
  }

  /** On finite numbers the comparator is the ordering of the reals. */
  lemma ComparesAtMostFinite(x: real, y: real)
    ensures ComparesAtMost(Finite(x), Finite(y)) <==> x <= y
  {
  }

  /** JavaScript truthiness of a number: NaN and zero are falsy. */
  predicate Truthy(n: Option<Number>)
  {
    n.Some? && n.value != Finite(0.0)
  }

  /** `n || 0.0`: 0.0 exactly for NaN and zero, and the number itself otherwise. */
  function OrZero(n: Option<Number>): (r: Number)
    ensures r == Finite(0.0) <==> n.None? || n == Some(Finite(0.0))
    ensures r != Finite(0.0) ==> n == Some(r)
  {
    if Truthy(n) then n.value else Finite(0.0)
  }

  predicate IsDigit(c: char)
  {
    '0' <= c <= '9'
  }

  predicate AllDigits(s: string)
  {
    forall k :: 0 <= k < |s| ==> IsDigit(s[k])
  }

  /** The characters `parseFloat` skips before the number (StrWhiteSpaceChar of ECMA-262). */
  predicate IsStrWhiteSpace(c: char)
  {
    || c == '\t' || c == '\U{B}' || c == '\U{C}' || c == ' ' || c == '\U{A0}' || c == '\U{FEFF}'
    || c == '\U{1680}' || ('\U{2000}' <= c <= '\U{200A}') || c == '\U{202F}' || c == '\U{205F}'
    || c == '\U{3000}' || c == '\n' || c == '\r' || c == '\U{2028}' || c == '\U{2029}'
  }

  /** `s` without its leading white space. */
  function TrimStart(s: string): (r: string)
    ensures |r| <= |s| && r == s[|s| - |r|..]
    ensures forall k :: 0 <= k < |s| - |r| ==> IsStrWhiteSpace(s[k])
    ensures r == [] || !IsStrWhiteSpace(r[0])
  {
    if s != [] && IsStrWhiteSpace(s[0]) then
      var r := TrimStart(s[1..]);
      assert s[|s| - |r|..] == s[1..][|s| - 1 - |r|..];
      assert forall k :: 1 <= k < |s| ==> s[k] == s[1..][k - 1];
      r
    else s
  }

  /** The length of the longest run of digits at the start of `s`. */
  function CountDigits(s: string): (n: nat)
    ensures n <= |s|
    ensures AllDigits(s[..n])
    ensures n < |s| ==> !IsDigit(s[n])
  {
    if s != [] && IsDigit(s[0]) then 1 + CountDigits(s[1..]) else 0
  }

  /** The value of a string of decimal digits. */
  function DigitsValue(ds: string): nat
    requires AllDigits(ds)
  {
    if ds == [] then 0
    else 10 * DigitsValue(ds[..|ds| - 1]) + (ds[|ds| - 1] as int - '0' as int)
  }

  function Pow10(n: nat): (r: nat)
    ensures r >= 1
  {
    if n == 0 then 1 else 10 * Pow10(n - 1)
  }

  /** Ten to the (possibly negative) power `n`, as a real. */
  function Scale(n: int): real
  {
    if n >= 0 then Pow10(n) as real else 1.0 / Pow10(-n) as real
  }

  /** A signed run of digits at the start of `s`: `+12`, `-3`, `7`; `None` when there is none. */
  function SignedIntegerPrefix(s: string): (r: Option<int>)
  {
    var signed := s != [] && (s[0] == '+' || s[0] == '-');
    var digits := if signed then s[1..] else s;
    var n := CountDigits(digits);
    if n == 0 then None
    else
      var v: int := DigitsValue(digits[..n]);
      Some(if signed && s[0] == '-' then -v else v)
  }

  /**
   The exponent an ExponentPart (`e` or `E`, then a signed integer) at the
   start of `s` contributes; 0 when `s` does not start with a complete one,
   since the longest numeric prefix then stops before the `e`.
   */
  function ExponentPrefix(s: string): int
  {
    if s != [] && (s[0] == 'e' || s[0] == 'E') then
      match SignedIntegerPrefix(s[1..])
      case None => 0
      case Some(e) => e
    else 0
  }

  /** The value of the decimal literal `intDigits.fracDigits`. */
  function DecimalFraction(intDigits: string, fracDigits: string): real
    requires AllDigits(intDigits) && AllDigits(fracDigits)
  {
    DigitsValue(intDigits) as real + DigitsValue(fracDigits) as real / Pow10(|fracDigits|) as real
  }

  /** The value of the decimal literal `intDigits.fracDigits` times ten to the `exponent`. */
  function DecimalValue(intDigits: string, fracDigits: string, exponent: int): real
    requires AllDigits(intDigits) && AllDigits(fracDigits)
  {
    DecimalFraction(intDigits, fracDigits) * Scale(exponent)
  }

  /**
   The longest prefix of `s` of the form `digits [. digits] [exponent]` or
   `. digits [exponent]`; `None` when `s` starts with neither.
   */
  function UnsignedDecimalPrefix(s: string): Option<real>
  {
    var i := CountDigits(s);
    var afterInt := s[i..];
    var hasPoint := afterInt != [] && afterInt[0] == '.';
    var frac := if hasPoint then afterInt[1..] else "";
    var f := CountDigits(frac);
    var rest := if hasPoint then frac[f..] else afterInt;
    if i == 0 && f == 0 then None
    else
      Some(DecimalValue(s[..i], frac[..f], ExponentPrefix(rest)))
  }

  /** `s` with a leading `+` or `-` removed. */
  function DropSign(s: string): string
  {
    if s != [] && (s[0] == '+' || s[0] == '-') then s[1..] else s
  }

  predicate StartsWithInfinity(s: string)
  {
    |s| >= 8 && s[..8] == "Infinity"
  }

  /**
   `parseFloat(s)`: skip leading white space, then read the longest prefix
   that is a decimal literal with an optional sign (or `Infinity`); NaN when
   there is none.
   */
  function ParseFloat(s: string): Option<Number>
  {
    var t := TrimStart(s);
    var negative := t != [] && t[0] == '-';
    var u := DropSign(t);
    if StartsWithInfinity(u) then Some(if negative then NegInfinity else PosInfinity)
    else
      match UnsignedDecimalPrefix(u)
      case None => None
      case Some(v) => Some(Finite(if negative then -v else v))
  }

  /** `parseFloat` gives NaN exactly when no digit (or `Infinity`) starts the text after white space and sign. */
  lemma ParseFloatNaN(s: string)
    ensures var u := DropSign(TrimStart(s));
      ParseFloat(s).None? <==>
        && !StartsWithInfinity(u)
        && !(u != [] && IsDigit(u[0]))
        && !(|u| >= 2 && u[0] == '.' && IsDigit(u[1]))
  {
    var u := DropSign(TrimStart(s));
    if u != [] && IsDigit(u[0]) {
      assert CountDigits(u) > 0;
    }
    if |u| >= 2 && u[0] == '.' && IsDigit(u[1]) {
      assert CountDigits(u) == 0;
      assert CountDigits(u[1..]) > 0;
    }
  }

  /** A run of digits followed by a non-digit. */
  lemma CountDigitsOf(ds: string, tail: string)
    requires AllDigits(ds)
    requires tail == [] || !IsDigit(tail[0])
    ensures CountDigits(ds + tail) == |ds|
    ensures (ds + tail)[..|ds|] == ds && (ds + tail)[|ds|..] == tail
  {
    var s := ds + tail;
    assert forall k :: 0 <= k < |ds| ==> s[k] == ds[k];
    assert tail != [] ==> s[|ds|] == tail[0];
  }

  /** Text that starts with a digit parses as an unsigned decimal. */
  lemma ParseFloatStartingWithDigit(s: string, v: real)
    requires s != [] && IsDigit(s[0])
    requires UnsignedDecimalPrefix(s) == Some(v)
    ensures ParseFloat(s) == Some(Finite(v))
  {
    assert !IsStrWhiteSpace(s[0]);
    assert TrimStart(s) == s;
    assert DropSign(s) == s;
    assert !StartsWithInfinity(s) by {
      if |s| >= 8 { assert s[..8][0] == s[0]; }
    }
  }

  /** The value read from a prefix made of an integer part, a point and a fraction part. */
  lemma UnsignedDecimalPrefixOfPoint(s: string, i: nat, f: nat)
    requires i < |s| && s[i] == '.' && i + 1 + f <= |s|
    requires 0 < i && CountDigits(s) == i && CountDigits(s[i + 1..]) == f
    requires ExponentPrefix(s[i + 1 + f..]) == 0
    ensures AllDigits(s[..i]) && AllDigits(s[i + 1..i + 1 + f])
    ensures UnsignedDecimalPrefix(s) == Some(DecimalValue(s[..i], s[i + 1..i + 1 + f], 0))
  {
    var frac := s[i..][1..];
    assert frac == s[i + 1..];
    assert frac[..f] == s[i + 1..i + 1 + f];
    assert frac[f..] == s[i + 1 + f..];
  }

  /** Where the parts of `a.b` followed by `tail` sit. */
  lemma DecimalLayout(a: string, b: string, tail: string)
    requires AllDigits(a) && AllDigits(b)
    requires tail == [] || !IsDigit(tail[0])
    ensures var s := a + "." + b + tail;
      && |a| < |s| && s[|a|] == '.' && CountDigits(s) == |a|
      && CountDigits(s[|a| + 1..]) == |b|
      && s[..|a|] == a && s[|a| + 1..|a| + 1 + |b|] == b && s[|a| + 1 + |b|..] == tail
  {
    var s := a + "." + b + tail;
    assert s == a + ("." + b + tail);
    CountDigitsOf(a, "." + b + tail);
    assert s[|a| + 1..] == b + tail;
    CountDigitsOf(b, tail);
    assert s[..|a|] == a;
    assert s[|a| + 1..|a| + 1 + |b|] == b;
    assert s[|a| + 1 + |b|..] == tail;
  }

  lemma UnsignedDecimalPrefixDecimal(a: string, b: string, tail: string)
    requires a != [] && AllDigits(a) && AllDigits(b)
    requires tail == [] || (!IsDigit(tail[0]) && tail[0] != 'e' && tail[0] != 'E')
    ensures UnsignedDecimalPrefix(a + "." + b + tail) == Some(DecimalValue(a, b, 0))
  {
    var s := a + "." + b + tail;
    DecimalLayout(a, b, tail);
    assert ExponentPrefix(tail) == 0;
    UnsignedDecimalPrefixOfPoint(s, |a|, |b|);
  }

  /** Without an exponent, `a.b` is worth `a + b / 10^|b|`. */
  lemma DecimalValueWithoutExponent(a: string, b: string)
    requires AllDigits(a) && AllDigits(b)
    ensures DecimalValue(a, b, 0) == DecimalFraction(a, b)
  {
    assert Scale(0) == 1.0;
  }

  /** The value read from a prefix made of digits only. */
  lemma UnsignedDecimalPrefixOfDigits(s: string, i: nat)
    requires 0 < i <= |s| && CountDigits(s) == i
    requires i == |s| || s[i] != '.'
    requires ExponentPrefix(s[i..]) == 0
    ensures UnsignedDecimalPrefix(s) == Some(DecimalValue(s[..i], "", 0))
  {
    assert s[i..] == [] || s[i..][0] == s[i];
  }

  lemma DecimalValueOfInteger(a: string)
    requires AllDigits(a)
    ensures DecimalValue(a, "", 0) == DigitsValue(a) as real
  {
    assert Scale(0) == 1.0;
    assert DigitsValue("") == 0 && Pow10(0) == 1;
  }

  lemma UnsignedDecimalPrefixInteger(a: string, tail: string)
    requires a != [] && AllDigits(a)
    requires tail == [] || (!IsDigit(tail[0]) && tail[0] != '.' && tail[0] != 'e' && tail[0] != 'E')
    ensures UnsignedDecimalPrefix(a + tail) == Some(DigitsValue(a) as real)
  {
    var s := a + tail;
    CountDigitsOf(a, tail);
    assert ExponentPrefix(tail) == 0;
    assert tail != [] ==> s[|a|] == tail[0];
    UnsignedDecimalPrefixOfDigits(s, |a|);
    DecimalValueOfInteger(a);
  }

  /**
   A decimal `a.b` (as in a quality value `0.8`) parses to its exact value,
   whatever non-numeric text follows it.
   */
  lemma ParseFloatDecimal(a: string, b: string, tail: string)
    requires a != [] && AllDigits(a) && AllDigits(b)
    requires tail == [] || (!IsDigit(tail[0]) && tail[0] != 'e' && tail[0] != 'E')
    ensures ParseFloat(a + "." + b + tail) == Some(Finite(DecimalFraction(a, b)))
  {
    var s := a + "." + b + tail;
    UnsignedDecimalPrefixDecimal(a, b, tail);
    DecimalValueWithoutExponent(a, b);
    assert s[0] == a[0];
    ParseFloatStartingWithDigit(s, DecimalValue(a, b, 0));
  }

  /** A run of digits (as in a quality value `1`) parses to its value, whatever non-numeric text follows it. */
  lemma ParseFloatInteger(a: string, tail: string)
    requires a != [] && AllDigits(a)
    requires tail == [] || (!IsDigit(tail[0]) && tail[0] != '.' && tail[0] != 'e' && tail[0] != 'E')
    ensures ParseFloat(a + tail) == Some(Finite(DigitsValue(a) as real))
  {
    UnsignedDecimalPrefixInteger(a, tail);
    assert (a + tail)[0] == a[0];
    ParseFloatStartingWithDigit(a + tail, DigitsValue(a) as real);
  }

}
