/**
 The few pieces of JavaScript value semantics the portfolio's components rely on:
 integer-valued numbers that may become NaN, the truncating remainder `%`,
 `parseInt` on decimal text, `String(n)` for a non-negative integer, and the
 truthiness of an optional string used by `a || b`.
 */
module Js {

  /** An optional value; `None` stands for JavaScript's `undefined`. */
  datatype Option<+T> = None | Some(value: T)

  /** A JavaScript number as these components produce it: an integer or NaN.
      Integers are unbounded here; the 2^53 limit of doubles is not modelled. */
  datatype Number = Int(v: int) | NaN

  /** `a % n` for a non-negative integer divisor: the result takes the sign of
      the dividend (truncating division), and `a % 0` is NaN. */
  function Rem(a: int, n: nat): (r: Number)
    ensures r.NaN? <==> n == 0
    ensures n > 0 && a >= 0 ==> r == Int(a % n)
    ensures r.Int? ==> -(n as int) < r.v < n
    ensures r.Int? && a > 0 ==> r.v >= 0
    ensures r.Int? && a < 0 ==> r.v <= 0
    ensures r.Int? ==> (a - r.v) % n == 0
  {
    if n == 0 then NaN
    else
      TruncatedRemainder(a, n);
      if a >= 0 then Int(a % n) else Int(-((-a) % n))
  }

  /** The truncating remainder of a negative dividend differs from it by a multiple of the divisor. */
  lemma TruncatedRemainder(a: int, n: nat)
    requires n > 0
    ensures a >= 0 ==> (a - a % n) % n == 0
    ensures a < 0 ==> (a + (-a) % n) % n == 0
  {
    if a >= 0 {
      ModUnique(a - a % n, n, a / n, 0);
    } else {
      var m := -a;
      var q := m / n;
      assert m == q * n + m % n;
      assert -(q * n) == (-q) * n;
      ModUnique(a + m % n, n, -q, 0);
    }
  }

  /** Euclidean `%` is determined by any quotient/remainder decomposition. */
  lemma ModUnique(x: int, n: int, q: int, r: int)
    requires n > 0 && 0 <= r < n
    requires x == q * n + r
    ensures x % n == r
  {
    var q', r' := x / n, x % n;
    assert x == q' * n + r';
    Distribute(q, q', n);
    if q > q' {
      AtLeastOnce(q - q', n);
    } else if q < q' {
      Distribute(q', q, n);
      AtLeastOnce(q' - q, n);
    }
  }

  lemma Distribute(a: int, b: int, n: int)
    ensures (a - b) * n == a * n - b * n
  {
  }

  lemma AtLeastOnce(d: int, n: int)
    requires d >= 1 && n > 0
    ensures d * n >= n
  {
  }

  /** `x % n` where `x` is already a number: NaN stays NaN. */
  function RemNumber(x: Number, n: nat): (r: Number)
    ensures x.NaN? ==> r.NaN?
    ensures x.Int? ==> r == Rem(x.v, n)
  {
    match x
    case NaN => NaN
    case Int(a) => Rem(a, n)
  }

  /** `x + k` on numbers. */
  function AddInt(x: Number, k: int): (r: Number)
    ensures r.NaN? <==> x.NaN?
    ensures x.Int? ==> r.v - x.v == k
  {
    match x
    case NaN => NaN
    case Int(a) => Int(a + k)
  }

  /** A string is truthy when it is defined and non-empty. */
  predicate Truthy(s: Option<string>) {
    s.Some? && s.value != ""
  }

  /** JavaScript's `a || b` on optional strings: `a` when truthy, else `b`. */
  function Or(a: Option<string>, b: Option<string>): (r: Option<string>)
    ensures Truthy(r) <==> Truthy(a) || Truthy(b)
    ensures Truthy(a) ==> r == a
    ensures !Truthy(a) ==> r == b
  {
    if Truthy(a) then a else b
  }

  predicate IsDigit(c: char) {
    '0' <= c <= '9'
  }

  predicate AllDigits(s: string) {
    forall i :: 0 <= i < |s| ==> IsDigit(s[i])
  }

  function DigitChar(d: nat): (c: char)
    requires d < 10
    ensures IsDigit(c)
  {
    ('0' as int + d) as char
  }

  function DigitValue(c: char): (d: nat)
    requires IsDigit(c)
    ensures d < 10
    ensures DigitChar(d) == c
  {
    c as int - '0' as int
  }

  /** `String(n)` for a non-negative integer: its decimal digits, no leading zeros. */
  function Decimal(n: nat): (s: string)
    ensures |s| > 0
    ensures AllDigits(s)
    ensures |s| > 1 ==> s[0] != '0'
  {
    if n < 10 then [DigitChar(n)] else Decimal(n / 10) + [DigitChar(n % 10)]
  }

  /** The value of a run of decimal digits, most significant first. */
  function DigitsValue(s: string): nat
    requires AllDigits(s)
  {
    if |s| == 0 then 0
    else DigitsValue(s[..|s| - 1]) * 10 + DigitValue(s[|s| - 1])
  }

  /** Length of the run of decimal digits that starts the string. */
  function DigitRun(s: string): (k: nat)
    ensures k <= |s|
    ensures AllDigits(s[..k])
    ensures k < |s| ==> !IsDigit(s[k])
  {
    if |s| == 0 || !IsDigit(s[0]) then 0
    else
      var k := 1 + DigitRun(s[1..]);
      assert s[..k] == [s[0]] + s[1..][..k - 1];
      k
  }

  /** `parseInt(s)` with the default radix on text without leading blanks:
      an optional sign, then the longest run of decimal digits; no digits gives NaN. */
  function ParseInt(s: string): (r: Number)
    ensures r.NaN? <==> DigitRun(Unsigned(s)) == 0
    ensures r.Int? && r.v < 0 ==> s[0] == '-'
    ensures |s| > 0 && AllDigits(s) ==> r == Int(DigitsValue(s))
  {
    DigitRunAllDigits(s);
    assert |s| > 0 && AllDigits(s) ==> s[..|s|] == s;
    var body := Unsigned(s);
    var k := DigitRun(body);
    if k == 0 then NaN
    else
      var magnitude := DigitsValue(body[..k]);
      Int(if |s| > 0 && s[0] == '-' then -(magnitude as int) else magnitude)
  }

  /** The text after an optional leading sign. */
  function Unsigned(s: string): (body: string)
    ensures body == s || (|s| > 0 && (s[0] == '-' || s[0] == '+') && body == s[1..])
  {
    if |s| > 0 && (s[0] == '-' || s[0] == '+') then s[1..] else s
  }

  lemma {:induction false} DigitRunAllDigits(s: string)
    ensures AllDigits(s) ==> DigitRun(s) == |s|
  {
    if |s| > 0 && AllDigits(s) {
      DigitRunAllDigits(s[1..]);
    }
  }

  lemma {:induction false} DecimalValue(n: nat)
    ensures DigitsValue(Decimal(n)) == n
  {
    var s := Decimal(n);
    if n >= 10 {
      DecimalValue(n / 10);
      assert s[..|s| - 1] == Decimal(n / 10);
      assert DigitValue(s[|s| - 1]) == n % 10;
    } else {
      assert s[..0] == [];
    }
  }

  /** Round trip of the `data-index` attribute: `parseInt(String(n)) == n`. */
  lemma ParseDecimal(n: nat)
    ensures ParseInt(Decimal(n)) == Int(n)
  {
    var s := Decimal(n);
    assert IsDigit(s[0]);
    assert Unsigned(s) == s;
    DigitRunAllDigits(s);
    assert s[..|s|] == s;
    DecimalValue(n);
  }
}
