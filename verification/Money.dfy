/** Minor units out to a decimal string and back. */
module Money {
  import opened Prelude

  const ZERO_DECIMAL: set<string> :=
    {"XOF", "XAF", "JPY", "KRW", "VND", "CLP", "ISK", "PYG", "RWF", "UGX", "VUV", "XPF"}

  /** Digits after the point; both sides of the round trip use this table. */
  function Exponent(currency: string): nat {
    if currency in ZERO_DECIMAL then 0 else 2
  }

  function Factor(currency: string): nat {
    if currency in ZERO_DECIMAL then 1 else 100
  }

  // ── digits ──

  function Digit(d: nat): char
    requires d < 10
  {
    '0' + d as char
  }

  predicate IsDigit(c: char) {
    '0' <= c <= '9'
  }

  function DigitValue(c: char): nat
    requires IsDigit(c)
  {
    c as int - '0' as int
  }

  /** `BigInt.toString` of a natural number. */
  function Digits(n: nat): string {
    if n < 10 then [Digit(n)] else Digits(n / 10) + [Digit(n % 10)]
  }

  predicate AllDigits(s: string) {
    forall i :: 0 <= i < |s| ==> IsDigit(s[i])
  }

  function Value(s: string): nat
    requires AllDigits(s)
  {
    if s == "" then 0 else 10 * Value(s[..|s| - 1]) + DigitValue(s[|s| - 1])
  }

  lemma {:induction false} DigitsRead(n: nat)
    ensures Digits(n) != "" && AllDigits(Digits(n)) && Value(Digits(n)) == n
  {
    if n < 10 {
      assert Digits(n)[..0] == "";
    } else {
      DigitsRead(n / 10);
      var head := Digits(n / 10);
      assert Digits(n)[..|head|] == head;
    }
  }

  // ── out: `minorToDecimal` ──

  function Magnitude(m: int): nat {
    if m < 0 then -m else m
  }

  /** The digits of the fraction, always two of them. */
  function Padded(n: nat): string
    requires n < 100
  {
    if n < 10 then "0" + Digits(n) else Digits(n)
  }

  function MinorToDecimal(m: int, currency: string): string {
    var abs := Magnitude(m);
    var sign := if m < 0 then "-" else "";
    if Exponent(currency) == 0 then sign + Digits(abs) else sign + Digits(abs / 100) + "." + Padded(abs % 100)
  }

  // ── in: `Decimal(text)` ──

  /** A decimal: coefficient over a power of ten. */
  datatype Decimal = Decimal(negative: bool, coefficient: nat, places: nat)

  function PointAt(s: string): nat
    ensures PointAt(s) <= |s|
    ensures PointAt(s) < |s| ==> s[PointAt(s)] == '.'
    ensures forall i :: 0 <= i < PointAt(s) ==> s[i] != '.'
  {
    if s == "" || s[0] == '.' then 0 else 1 + PointAt(s[1..])
  }

  function Unsigned(s: string, negative: bool): Option<Decimal> {
    var p := PointAt(s);
    var whole, part := s[..p], if p < |s| then s[p + 1..] else "";
    if !AllDigits(whole) || !AllDigits(part) || whole + part == "" then None
    else Some(Decimal(negative, Value(whole + part), |part|))
  }

  /** Plain decimal notation: an optional sign, digits, an optional point. */
  function Parse(s: string): Option<Decimal> {
    if s != "" && s[0] == '-' then Unsigned(s[1..], true)
    else if s != "" && s[0] == '+' then Unsigned(s[1..], false)
    else Unsigned(s, false)
  }

  function Pow10(n: nat): nat
    ensures Pow10(n) > 0
  {
    if n == 0 then 1 else 10 * Pow10(n - 1)
  }

  // ── `Decimal` arithmetic ──

  /** Significant digits the default context keeps. */
  const PRECISION: nat := 28

  function NumDigits(n: nat): nat {
    if n < 10 then 1 else 1 + NumDigits(n / 10)
  }

  function RoundHalfEven(n: nat, over: nat): nat
    requires over > 0
  {
    var q, r := n / over, n % over;
    q + if 2 * r > over || (2 * r == over && q % 2 == 1) then 1 else 0
  }

  /** A product as the context keeps it: to 28 digits, half to even. */
  function InContext(n: nat): nat {
    if NumDigits(n) <= PRECISION then n
    else
      var over := Pow10(NumDigits(n) - PRECISION);
      RoundHalfEven(n, over) * over
  }

  /** Half away from zero, on the magnitude. */
  function RoundHalfUp(n: nat, over: nat): nat
    requires over > 0
  {
    n / over + if 2 * (n % over) >= over then 1 else 0
  }

  function Signed(negative: bool, n: int): int {
    if negative then -n else n
  }

  /** No amount, minor units, or the exception of a `quantize` whose result would
      need more digits than the context has. */
  datatype Conversion = Unreadable | Raises | Minor(n: int)

  /** The amount times its factor, over `Pow10(places)`, before any rounding. */
  function Product(d: Decimal, currency: string): nat {
    d.coefficient * Factor(currency)
  }

  /** The rounded product, then the nearest whole minor unit. */
  function Convert(d: Decimal, currency: string): Conversion {
    var n := InContext(Product(d, currency));
    if n >= Pow10(PRECISION + d.places) then Raises
    else Minor(Signed(d.negative, RoundHalfUp(n, Pow10(d.places))))
  }

  /** `money_to_minor` of a string. */
  function MoneyToMinor(s: string, currency: string): Conversion {
    var d := Parse(s);
    if d == None then Unreadable else Convert(d.value, currency)
  }

  // ── the round trip ──

  lemma PointBetween(a: string, b: string)
    requires AllDigits(a)
    ensures PointAt(a + "." + b) == |a|
  {
    var s := a + "." + b;
    assert s[|a|] == '.';
    assert forall i :: 0 <= i < |a| ==> s[i] == a[i] && IsDigit(a[i]);
  }

  lemma NoPoint(a: string)
    requires AllDigits(a)
    ensures PointAt(a) == |a|
  {
  }

  lemma ValueTwo(a: string, b: string)
    requires AllDigits(a) && AllDigits(b) && |b| == 2
    ensures AllDigits(a + b) && Value(a + b) == 100 * Value(a) + Value(b)
  {
    assert a + b == (a + [b[0]]) + [b[1]] && b == [b[0]] + [b[1]];
    ValueSnoc(a, b[0]);
    ValueSnoc(a + [b[0]], b[1]);
    ValueSnoc("", b[0]);
    assert "" + [b[0]] == [b[0]];
    ValueSnoc([b[0]], b[1]);
  }

  lemma ValueSnoc(s: string, c: char)
    requires AllDigits(s) && IsDigit(c)
    ensures AllDigits(s + [c]) && Value(s + [c]) == 10 * Value(s) + DigitValue(c)
  {
    assert (s + [c])[..|s|] == s;
  }

  lemma PaddedReads(n: nat)
    requires n < 100
    ensures |Padded(n)| == 2 && AllDigits(Padded(n)) && Value(Padded(n)) == n
  {
    DigitsRead(n);
    if n < 10 {
      ValueSnoc("0", Digit(n));
      assert "0"[..0] == "";
      assert Padded(n) == "0" + [Digit(n)];
    } else {
      assert Digits(n) == Digits(n / 10) + [Digit(n % 10)];
      assert Digits(n / 10) == [Digit(n / 10)];
    }
  }

  /** What is printed, without its sign. */
  function Printed(abs: nat, currency: string): string {
    if Exponent(currency) == 0 then Digits(abs) else Digits(abs / 100) + "." + Padded(abs % 100)
  }

  lemma PrintedReads(abs: nat, currency: string, negative: bool)
    ensures Unsigned(Printed(abs, currency), negative) == Some(Decimal(negative, abs, Exponent(currency)))
    ensures Printed(abs, currency) != "" && IsDigit(Printed(abs, currency)[0])
  {
    if Exponent(currency) == 0 {
      DigitsRead(abs);
      WholeReads(Digits(abs), negative);
    } else {
      DigitsRead(abs / 100);
      PaddedReads(abs % 100);
      PartsRead(Digits(abs / 100), Padded(abs % 100), negative);
      ValueTwo(Digits(abs / 100), Padded(abs % 100));
    }
  }

  lemma WholeReads(whole: string, negative: bool)
    requires whole != "" && AllDigits(whole)
    ensures Unsigned(whole, negative) == Some(Decimal(negative, Value(whole), 0))
  {
    NoPoint(whole);
    assert whole[..|whole|] == whole && whole + "" == whole;
  }

  lemma PartsRead(whole: string, part: string, negative: bool)
    requires AllDigits(whole) && AllDigits(part) && whole != ""
    ensures AllDigits(whole + part)
    ensures Unsigned(whole + "." + part, negative) == Some(Decimal(negative, Value(whole + part), |part|))
  {
    PointBetween(whole, part);
    SlicesAround(whole, part);
    UnsignedSplit(whole + "." + part, |whole|, whole, part, negative);
  }

  lemma SlicesAround(whole: string, part: string)
    ensures var s := whole + "." + part;
            |whole| < |s| && s[..|whole|] == whole && s[|whole| + 1..] == part
  {
  }

  /** What an unsigned number reads as, its point and its two parts given. */
  lemma UnsignedSplit(s: string, p: nat, whole: string, part: string, negative: bool)
    requires p < |s| && PointAt(s) == p && s[..p] == whole && s[p + 1..] == part
    requires AllDigits(whole) && AllDigits(part) && (whole != "" || part != "")
    ensures AllDigits(whole + part) && Unsigned(s, negative) == Some(Decimal(negative, Value(whole + part), |part|))
  {
    assert |whole + part| > 0;
  }

  lemma SignReads(body: string, negative: bool)
    requires body != "" && IsDigit(body[0])
    ensures Parse((if negative then "-" else "") + body) == Unsigned(body, negative)
  {
    if negative {
      assert ("-" + body)[1..] == body;
    } else {
      assert "" + body == body;
    }
  }

  lemma DecimalIsSigned(m: int, currency: string)
    ensures MinorToDecimal(m, currency) == (if m < 0 then "-" else "") + Printed(Magnitude(m), currency)
  {
    var abs, sign := Magnitude(m), if m < 0 then "-" else "";
    if Exponent(currency) != 0 {
      Regrouped(sign, Digits(abs / 100), ".", Padded(abs % 100));
    }
  }

  lemma Regrouped(a: string, b: string, c: string, d: string)
    ensures a + b + c + d == a + (b + c + d)
  {
  }

  /** Printing minor units and converting the string back gives the amount, for
      every amount and currency the context has the digits for; for any larger
      one the conversion raises. */
  lemma RoundTrip(m: int, currency: string)
    ensures MoneyToMinor(MinorToDecimal(m, currency), currency)
         == if Magnitude(m) < Pow10(PRECISION) then Minor(m) else Raises
  {
    var abs := Magnitude(m);
    DecimalIsSigned(m, currency);
    PrintedReads(abs, currency, m < 0);
    SignReads(Printed(abs, currency), m < 0);
    ExactWhenFine(Decimal(m < 0, abs, Exponent(currency)), currency);
  }

  lemma FactorIsPower(currency: string)
    ensures Factor(currency) == Pow10(Exponent(currency))
  {
    assert Pow10(0) == 1 && Pow10(1) == 10 && Pow10(2) == 100;
  }

  /** No rounding at the currency's own precision. */
  lemma ExactWhenFine(d: Decimal, currency: string)
    requires d.places == Exponent(currency)
    ensures Convert(d, currency)
         == if d.coefficient < Pow10(PRECISION) then Minor(Signed(d.negative, d.coefficient)) else Raises
  {
    var c, unit := d.coefficient, Pow10(d.places);
    FactorIsPower(currency);
    RaisesIff(d, currency);
    PowAdds(PRECISION, d.places);
    WholeUnits(c, Pow10(PRECISION), unit);
    if c < Pow10(PRECISION) {
      DigitsBelow(c, PRECISION);
      ContextScales(c, d.places);
      HalfUpExact(c, unit);
    }
  }

  lemma WholeUnits(c: nat, limit: nat, unit: nat)
    requires unit > 0
    ensures 2 * (c * unit) + unit >= 2 * (limit * unit) <==> c >= limit
  {
    if c >= limit {
      assert c * unit >= limit * unit;
    } else {
      assert (c + 1) * unit <= limit * unit;
      assert (c + 1) * unit == c * unit + unit;
    }
  }

  lemma HalfUpExact(c: nat, unit: nat)
    requires unit > 0
    ensures RoundHalfUp(c * unit, unit) == c
  {
    DivideExact(c, 0, unit);
  }

  // ── powers and digits ──

  lemma {:induction false} PowAdds(a: nat, b: nat)
    ensures Pow10(a + b) == Pow10(a) * Pow10(b)
  {
    if b > 0 {
      PowAdds(a, b - 1);
      Tenfold(Pow10(a), Pow10(b - 1));
    }
  }

  lemma Tenfold(a: int, b: int)
    ensures a * (10 * b) == 10 * (a * b)
  {
  }

  lemma {:induction false} PowRises(a: nat, b: nat)
    requires a < b
    ensures 10 * Pow10(a) <= Pow10(b)
  {
    if a + 1 < b {
      PowRises(a, b - 1);
    }
  }

  lemma {:induction false} DigitsBelow(n: nat, e: nat)
    requires e > 0
    ensures NumDigits(n) <= e <==> n < Pow10(e)
  {
    if e == 1 {
      assert Pow10(1) == 10;
    } else if n >= 10 {
      DigitsBelow(n / 10, e - 1);
    } else {
      PowRises(0, e);
    }
  }

  /** A number lies between the powers its digits name. */
  lemma DigitsSpan(n: nat)
    requires n >= 10
    ensures Pow10(NumDigits(n) - 1) <= n < Pow10(NumDigits(n))
  {
    DigitsBelow(n, NumDigits(n));
    DigitsBelow(n, NumDigits(n) - 1);
  }

  // ── half to even ──

  lemma StepApart(a: nat, b: nat, over: nat)
    ensures a < b ==> a * over + over <= b * over
  {
    assert (a + 1) * over == a * over + over;
    if a < b {
      Times(a + 1, b, over);
    }
  }

  lemma DivideExact(q: nat, r: nat, over: nat)
    requires r < over
    ensures (q * over + r) / over == q && (q * over + r) % over == r
  {
    var n := q * over + r;
    assert n == (n / over) * over + n % over;
    StepApart(n / over, q, over);
    StepApart(q, n / over, over);
  }

  lemma HalfEvenNear(n: nat, over: nat)
    requires over > 0
    ensures 2 * n - over <= 2 * (RoundHalfEven(n, over) * over) <= 2 * n + over
  {
    var q := n / over;
    assert n == q * over + n % over;
    assert (q + 1) * over == q * over + over;
  }

  lemma HalfEvenExact(t: nat, over: nat)
    requires over > 0
    ensures RoundHalfEven(t * over, over) == t
  {
    DivideExact(t, 0, over);
  }

  lemma HalfEvenRises(n: nat, m: nat, over: nat)
    requires over > 0 && n <= m
    ensures RoundHalfEven(n, over) <= RoundHalfEven(m, over)
  {
    var q, p := n / over, m / over;
    assert n == q * over + n % over && m == p * over + m % over;
    StepApart(p, q, over);
  }

  lemma HalfEvenScales(n: nat, over: nat)
    requires over > 0
    ensures RoundHalfEven(10 * n, 10 * over) == RoundHalfEven(n, over)
  {
    var q, r := n / over, n % over;
    assert n == q * over + r;
    Tenfold(q, over);
    DivideExact(q, 10 * r, 10 * over);
  }

  /** Rounding to a grid never passes a point of the grid. */
  lemma HalfEvenStops(n: nat, over: nat, t: nat)
    requires over > 0
    ensures n <= t * over ==> RoundHalfEven(n, over) * over <= t * over
    ensures n >= t * over ==> RoundHalfEven(n, over) * over >= t * over
  {
    HalfEvenExact(t, over);
    if n <= t * over {
      HalfEvenRises(n, t * over, over);
      Times(RoundHalfEven(n, over), t, over);
    }
    if n >= t * over {
      HalfEvenRises(t * over, n, over);
      Times(t, RoundHalfEven(n, over), over);
    }
  }

  lemma Times(a: nat, b: nat, over: nat)
    requires a <= b
    ensures a * over <= b * over
  {
  }

  // ── the context ──

  lemma {:induction false} ContextScales(n: nat, j: nat)
    ensures InContext(n * Pow10(j)) == InContext(n) * Pow10(j)
  {
    if j > 0 {
      ContextScales(n, j - 1);
      Tenfold(n, Pow10(j - 1));
      Tenfold(InContext(n), Pow10(j - 1));
      ContextTenfold(n * Pow10(j - 1));
    }
  }

  lemma ContextTenfold(n: nat)
    ensures InContext(10 * n) == 10 * InContext(n)
  {
    if n == 0 {
      assert InContext(0) == 0;
    } else {
      assert NumDigits(10 * n) == NumDigits(n) + 1;
      if NumDigits(n) > PRECISION {
        var over := Pow10(NumDigits(n) - PRECISION);
        HalfEvenScales(n, over);
        Tenfold(RoundHalfEven(n, over), over);
      } else if NumDigits(n) == PRECISION {
        assert Pow10(1) == 10;
        HalfEvenExact(n, 10);
      }
    }
  }

  /** A power of ten with at least as many digits as a number bounds what the
      context keeps of it, from above and from below. */
  lemma ContextStops(n: nat, e: nat)
    ensures n <= Pow10(e) ==> InContext(n) <= Pow10(e)
    ensures n >= Pow10(e) ==> InContext(n) >= Pow10(e)
  {
    if NumDigits(n) > PRECISION {
      var drop := NumDigits(n) - PRECISION;
      DigitsSpan(n);
      if drop <= e {
        StopsAt(n, drop, e);
      } else {
        PowRises(e, NumDigits(n) - 1);
        StopsAt(n, drop, NumDigits(n) - 1);
      }
    }
  }

  lemma StopsAt(n: nat, drop: nat, e: nat)
    requires drop <= e
    ensures n <= Pow10(e) ==> RoundHalfEven(n, Pow10(drop)) * Pow10(drop) <= Pow10(e)
    ensures n >= Pow10(e) ==> RoundHalfEven(n, Pow10(drop)) * Pow10(drop) >= Pow10(e)
  {
    PowAdds(e - drop, drop);
    HalfEvenStops(n, Pow10(drop), Pow10(e - drop));
  }

  /** Rounding in the context keeps order. */
  lemma ContextRises(n: nat, m: nat)
    requires n <= m
    ensures InContext(n) <= InContext(m)
  {
    var c, d := NumDigits(n), NumDigits(m);
    if d > PRECISION {
      DigitsSpan(m);
      DigitsBelow(n, d);
      if c == d {
        var over := Pow10(d - PRECISION);
        HalfEvenRises(n, m, over);
        Times(RoundHalfEven(n, over), RoundHalfEven(m, over), over);
      } else {
        DigitsBelow(n, d - 1);
        ContextStops(n, d - 1);
        ContextStops(m, d - 1);
      }
    } else {
      DigitsBelow(n, PRECISION);
      DigitsBelow(m, PRECISION);
    }
  }

  // ── when it raises ──

  /** It raises exactly from half a minor unit below 10^28 on. */
  lemma RaisesIff(d: Decimal, currency: string)
    ensures Convert(d, currency).Raises?
       <==> 2 * Product(d, currency) + Pow10(d.places) >= 2 * Pow10(PRECISION + d.places)
  {
    LimitReached(Product(d, currency), d.places);
  }

  lemma LimitReached(n: nat, k: nat)
    ensures InContext(n) >= Pow10(PRECISION + k) <==> 2 * n + Pow10(k) >= 2 * Pow10(PRECISION + k)
  {
    var e := PRECISION + k;
    DigitsBelow(n, e);
    DigitsBelow(n, e - 1);
    PowRises(e - 1, e);
    if n >= Pow10(e) {
      ContextStops(n, e);
    } else if n < Pow10(e - 1) {
      ContextStops(n, e - 1);
      PowRises(k, e);
    } else {
      TopDigits(n, k);
    }
  }

  /** One digit below the limit, what is dropped is the fraction. */
  lemma TopDigits(n: nat, k: nat)
    requires NumDigits(n) == PRECISION + k && n < Pow10(PRECISION + k)
    ensures InContext(n) >= Pow10(PRECISION + k) <==> 2 * n + Pow10(k) >= 2 * Pow10(PRECISION + k)
  {
    FractionDropped(n, k);
    PowAdds(PRECISION, k);
    TopRounds(n, Pow10(k), Pow10(PRECISION - 1));
  }

  lemma FractionDropped(n: nat, k: nat)
    requires NumDigits(n) == PRECISION + k
    ensures InContext(n) == RoundHalfEven(n, Pow10(k)) * Pow10(k)
  {
    if k == 0 {
      HalfEvenExact(n, 1);
    }
  }

  lemma TopRounds(n: nat, over: nat, tenth: nat)
    requires over > 0 && n < (10 * tenth) * over
    ensures RoundHalfEven(n, over) * over >= (10 * tenth) * over <==> 2 * n + over >= 2 * ((10 * tenth) * over)
  {
    var t, q, r := 10 * tenth, n / over, n % over;
    assert n == q * over + r;
    if q >= t {
      Times(t, q, over);
    }
    assert (q + 1) * over == q * over + over;
    if q < t - 1 {
      Times(q + 2, t, over);
      assert (q + 2) * over == q * over + 2 * over;
    }
  }

  // ── rounding, wherever it does not raise ──

  /** Odd, through parsing: a minus sign in front negates the conversion, and
      makes text that already has a sign unreadable. */
  lemma MinusNegates(s: string, currency: string)
    ensures MoneyToMinor("-" + s, currency)
         == if s != "" && s[0] in "+-" then Unreadable else Negated(MoneyToMinor(s, currency))
  {
    MinusReads("-" + s, s);
    if s != "" && s[0] in "+-" {
      SignIsNoDigit(s);
    } else {
      UnsignedNegates(s, currency);
    }
  }

  lemma MinusReads(t: string, s: string)
    requires t == "-" + s
    ensures Parse(t) == Unsigned(s, true)
  {
    assert t[0] == '-' && t[1..] == s;
  }

  lemma UnsignedNegates(s: string, currency: string)
    ensures Unsigned(s, true) == None <==> Unsigned(s, false) == None
    ensures Unsigned(s, true).Some? ==>
              Convert(Unsigned(s, true).value, currency) == Negated(Convert(Unsigned(s, false).value, currency))
  {
  }

  function Negated(c: Conversion): Conversion {
    if c.Minor? then Minor(-c.n) else c
  }

  lemma SignIsNoDigit(s: string)
    requires s != "" && s[0] in "+-"
    ensures Unsigned(s, true) == None
  {
    assert s[..PointAt(s)][0] == s[0];
  }

  /** Less the rounding to 28 digits, the converted amount is within half a
      minor unit of the exact value; with it, exactly unless that rounding goes
      up onto a half. */
  lemma RoundingIsNearIff(d: Decimal, currency: string)
    requires !Convert(d, currency).Raises?
    ensures var n, unit := Product(d, currency), Pow10(d.places);
            2 * Abs(Convert(d, currency).n * unit - Signed(d.negative, n)) <= unit
            <==> !(InContext(n) > n && 2 * (InContext(n) % unit) == unit)
  {
    var n, unit := Product(d, currency), Pow10(d.places);
    RaisesIff(d, currency);
    NearIff(n, d.places);
    SignedDistance(d.negative, RoundHalfUp(InContext(n), unit), unit, n);
  }

  lemma SignedDistance(negative: bool, r: int, unit: int, n: int)
    ensures Abs(Signed(negative, r) * unit - Signed(negative, n)) == Abs(r * unit - n)
  {
    NegatedProduct(r, unit);
  }

  lemma NearIff(n: nat, k: nat)
    requires 2 * n + Pow10(k) < 2 * Pow10(PRECISION + k)
    ensures var unit := Pow10(k);
            2 * Abs(RoundHalfUp(InContext(n), unit) * unit - n) <= unit
            <==> !(InContext(n) > n && 2 * (InContext(n) % unit) == unit)
  {
    var unit, d := Pow10(k), NumDigits(n);
    if d <= PRECISION {
      HalfUpNear(n, unit);
    } else {
      var drop := d - PRECISION;
      var over := Pow10(drop);
      DigitsBelow(n, PRECISION + k);
      HalfEvenNear(n, over);
      if drop == k {
        HalfUpExact(RoundHalfEven(n, over), unit);
        DivideExact(RoundHalfEven(n, over), 0, unit);
      } else {
        PowAdds(k - drop, drop);
        assert Pow10(k - drop) == 10 * Pow10(k - drop - 1);
        NearOnGrid(n, RoundHalfEven(n, over), over, 5 * Pow10(k - drop - 1));
      }
    }
  }

  lemma HalfUpNear(n: nat, unit: nat)
    requires unit > 0
    ensures 2 * Abs(RoundHalfUp(n, unit) * unit - n) <= unit
  {
    var q := n / unit;
    assert n == q * unit + n % unit;
    assert (q + 1) * unit == q * unit + unit;
  }

  /** The halves lie on the coarser grid, so only landing on one moves an amount
      across it. */
  lemma NearOnGrid(n: nat, x: nat, over: nat, half: nat)
    requires over > 0 && half > 0 && 2 * n - over <= 2 * (x * over) <= 2 * n + over
    ensures var unit, kept := (2 * half) * over, x * over;
            2 * Abs(RoundHalfUp(kept, unit) * unit - n) <= unit <==> !(kept > n && 2 * (kept % unit) == unit)
  {
    NearSplit(n, x, over, half, x / (2 * half), x % (2 * half), (2 * half) * over);
  }

  lemma NearSplit(n: nat, x: nat, over: nat, half: nat, h: nat, y: nat, unit: nat)
    requires over > 0 && half > 0 && h == x / (2 * half) && y == x % (2 * half) && unit == (2 * half) * over > 0
    requires 2 * n - over <= 2 * (x * over) <= 2 * n + over
    ensures var kept := x * over;
            2 * Abs(RoundHalfUp(kept, unit) * unit - n) <= unit <==> !(kept > n && 2 * (kept % unit) == unit)
  {
    SplitOnGrid(x, h, y, over, half);
    StepsOnGrid(y, over, half);
    NearFrom(n, x * over, unit, h, y * over, half * over, over);
  }

  lemma NearFrom(n: nat, kept: nat, unit: nat, h: nat, above: nat, half: nat, over: nat)
    requires over > 0 && unit == 2 * half > 0 && 2 * n - over <= 2 * kept <= 2 * n + over
    requires kept / unit == h && kept % unit == above && kept == h * unit + above && above + over <= unit
    requires above + over <= half || above == half || above >= half + over
    ensures 2 * Abs(RoundHalfUp(kept, unit) * unit - n) <= unit <==> !(kept > n && 2 * (kept % unit) == unit)
  {
    assert (h + 1) * unit == h * unit + unit;
    GridCases(n, h * unit, above, half, over);
  }

  /** Two numbers of steps are equal or at least a step apart. */
  lemma StepsOnGrid(y: nat, over: nat, half: nat)
    requires y < 2 * half
    ensures (2 * half) * over == 2 * (half * over) && y * over + over <= 2 * (half * over)
    ensures y < half ==> y * over + over <= half * over
    ensures y == half ==> y * over == half * over
    ensures y > half ==> y * over >= half * over + over
  {
    assert (y + 1) * over == y * over + over && (half + 1) * over == half * over + over;
    Times(y + 1, 2 * half, over);
    if y < half {
      Times(y + 1, half, over);
    } else if y > half {
      Times(half + 1, y, over);
    }
  }

  lemma GridCases(n: int, base: int, above: int, half: int, over: int)
    requires over > 0 && above >= 0 && 2 * n - over <= 2 * (base + above) <= 2 * n + over && above + over <= 2 * half
    requires above + over <= half || above == half || above >= half + over
    ensures var f := if above >= half then base + 2 * half else base;
            2 * Abs(f - n) <= 2 * half <==> !(base + above > n && above == half)
  {
  }

  lemma SplitOnGrid(x: nat, h: nat, y: nat, over: nat, half: nat)
    requires over > 0 && half > 0 && h == x / (2 * half) && y == x % (2 * half)
    ensures var unit := (2 * half) * over;
            && unit > 0 && y * over < unit
            && x * over == h * unit + y * over && (x * over) / unit == h && (x * over) % unit == y * over
  {
    var unit := (2 * half) * over;
    Distributed(h, 2 * half, y, over);
    Times(y + 1, 2 * half, over);
    assert (y + 1) * over == y * over + over;
    assert x == h * (2 * half) + y;
    DivideExact(h, y * over, unit);
  }

  lemma Distributed(h: nat, two: nat, y: nat, over: nat)
    ensures (h * two + y) * over == h * (two * over) + y * over
  {
    assert (h * two + y) * over == (h * two) * over + y * over;
    assert (h * two) * over == h * (two * over);
  }

  /** In particular with no more than 28 digits in the product. */
  lemma RoundingIsNear(d: Decimal, currency: string)
    requires Product(d, currency) < Pow10(PRECISION)
    ensures Convert(d, currency).Minor?
    ensures var unit := Pow10(d.places);
            2 * Abs(Convert(d, currency).n * unit - Signed(d.negative, Product(d, currency))) <= unit
  {
    FewDigits(Product(d, currency), d.places);
    RoundingIsNearIff(d, currency);
  }

  lemma FewDigits(n: nat, k: nat)
    requires n < Pow10(PRECISION)
    ensures InContext(n) == n < Pow10(PRECISION + k)
  {
    StaysBelow(n, PRECISION, k);
  }

  lemma StaysBelow(n: nat, e: nat, k: nat)
    requires e > 0 && n < Pow10(e)
    ensures NumDigits(n) <= e && n < Pow10(e + k)
  {
    DigitsBelow(n, e);
    if k > 0 {
      PowRises(e, e + k);
    }
  }

  // ── an amount that rounds twice ──

  function Nines(k: nat): string {
    if k == 0 then "" else Nines(k - 1) + "9"
  }

  /** 0.004 and then `k` nines. */
  function ShortOfHalfACent(k: nat): string {
    "0" + "." + ("004" + Nines(k))
  }

  lemma {:induction false} NinesRead(s: string, k: nat)
    requires AllDigits(s)
    ensures AllDigits(s + Nines(k)) && |Nines(k)| == k
    ensures Value(s + Nines(k)) == (Value(s) + 1) * Pow10(k) - 1
  {
    if k == 0 {
      assert s + Nines(0) == s;
    } else {
      NinesRead(s, k - 1);
      OneNineMore(s, k);
      NineAfter(s + Nines(k - 1), s + Nines(k), Value(s) + 1, Pow10(k - 1));
    }
  }

  lemma NineAfter(t: string, u: string, v: nat, power: nat)
    requires AllDigits(t) && Value(t) == v * power - 1 && u == t + ['9']
    ensures AllDigits(u) && Value(u) == v * (10 * power) - 1
  {
    ValueSnoc(t, '9');
    Tenfold(v, power);
  }

  lemma OneNineMore(s: string, k: nat)
    requires k > 0
    ensures s + Nines(k) == (s + Nines(k - 1)) + ['9'] && |Nines(k)| == |Nines(k - 1)| + 1
  {
  }

  function ShortDecimal(k: nat): Decimal {
    Decimal(false, 5 * Pow10(k) - 1, k + 3)
  }

  lemma NinesParse(k: nat)
    ensures Parse(ShortOfHalfACent(k)) == Some(ShortDecimal(k))
  {
    var zero, part := "0", "004" + Nines(k);
    NinesValue(zero, part, k);
    PartsParse(zero, part);
  }

  lemma PartsParse(whole: string, part: string)
    requires AllDigits(whole) && AllDigits(part) && whole != ""
    ensures AllDigits(whole + part)
    ensures Parse(whole + "." + part) == Some(Decimal(false, Value(whole + part), |part|))
  {
    PartsRead(whole, part, false);
    SameFirst(whole, part);
    Unmarked(whole + "." + part);
  }

  lemma SameFirst(whole: string, part: string)
    requires whole != ""
    ensures var s := whole + "." + part; s != "" && s[0] == whole[0]
  {
  }

  lemma NinesValue(zero: string, part: string, k: nat)
    requires zero == "0" && part == "004" + Nines(k)
    ensures AllDigits(zero) && AllDigits(part) && AllDigits(zero + part)
    ensures |part| == k + 3 && Value(zero + part) == 5 * Pow10(k) - 1
  {
    FourReads();
    NinesRead("004", k);
    NinesRead("0004", k);
    assert zero + part == "0004" + Nines(k);
  }

  lemma Unmarked(s: string)
    requires s != "" && IsDigit(s[0])
    ensures Parse(s) == Unsigned(s, false)
  {
  }

  lemma FourReads()
    ensures AllDigits("0") && AllDigits("004") && AllDigits("0004") && Value("0004") == 4
  {
    var none: string := "";
    assert Value(none) == 0;
    ValueSnoc(none, '0');
    ValueSnoc(none + ['0'], '0');
    ValueSnoc(none + ['0'] + ['0'], '0');
    ValueSnoc(none + ['0'] + ['0'] + ['0'], '4');
    assert none + ['0'] + ['0'] + ['0'] + ['4'] == "0004";
  }

  /** Less than half a cent, written with 28 nines or more after the 4: 28 digits
      make it half a cent, and half a cent makes it a cent, further than half a
      cent from the amount. */
  lemma HalfACentShort(k: nat)
    requires k >= PRECISION
    ensures MoneyToMinor(ShortOfHalfACent(k), "USD") == Minor(1)
    ensures Parse(ShortOfHalfACent(k)) == Some(ShortDecimal(k))
    ensures var n, unit := Product(ShortDecimal(k), "USD"), Pow10(ShortDecimal(k).places);
            2 * n < unit && 2 * Abs(1 * unit - n) > unit
  {
    NinesParse(k);
    NinesConvert(k);
    Converts(ShortOfHalfACent(k), ShortDecimal(k), "USD");
  }

  lemma Converts(s: string, d: Decimal, currency: string)
    requires Parse(s) == Some(d)
    ensures MoneyToMinor(s, currency) == Convert(d, currency)
  {
  }

  lemma NinesConvert(k: nat)
    requires k >= PRECISION
    ensures Convert(ShortDecimal(k), "USD") == Minor(1)
    ensures var n, unit := Product(ShortDecimal(k), "USD"), Pow10(ShortDecimal(k).places);
            2 * n < unit && 2 * Abs(1 * unit - n) > unit
  {
    Powers(k);
    NinesInContext(k);
    PowRises(k + 3, PRECISION + (k + 3));
    HalfGoesUp(5 * Pow10(k + 2), Pow10(k + 3));
  }

  lemma Powers(k: nat)
    ensures Pow10(k + 2) == 100 * Pow10(k) && Pow10(k + 3) == 10 * Pow10(k + 2)
  {
    assert Pow10(k + 2) == 10 * Pow10(k + 1);
  }

  lemma HalfGoesUp(half: nat, unit: nat)
    requires unit > 0 && 2 * half == unit
    ensures RoundHalfUp(half, unit) == 1
  {
    DivideExact(0, half, unit);
  }

  lemma NinesInContext(k: nat)
    requires k >= PRECISION
    ensures InContext(100 * (5 * Pow10(k) - 1)) == 5 * Pow10(k + 2)
  {
    var n, e := 100 * (5 * Pow10(k) - 1), k + 2;
    var drop := e + 1 - PRECISION;
    assert Pow10(k + 2) == 100 * Pow10(k) && Pow10(e + 1) == 10 * Pow10(e);
    PowRises(1, e);
    DigitsBelow(n, e + 1);
    DigitsBelow(n, e);
    PowAdds(PRECISION - 1, drop);
    PowRises(2, drop);
    assert Pow10(2) == 100;
    RoundsUp(n, Pow10(drop), 5 * Pow10(PRECISION - 1));
  }

  /** Short of a grid point by less than half a step. */
  lemma RoundsUp(n: nat, over: nat, t: nat)
    requires t > 0 && over > 200 && n == t * over - 100
    ensures RoundHalfEven(n, over) == t
  {
    assert t * over == (t - 1) * over + over;
    DivideExact(t - 1, over - 100, over);
  }

  // ── order ──

  /** The exact value in minor units, over `Pow10(places)`. */
  function Exact(d: Decimal, currency: string): int {
    Signed(d.negative, Product(d, currency))
  }

  lemma RoundMonotone(a: nat, over: nat, b: nat, under: nat)
    requires over > 0 && under > 0 && a * under <= b * over
    ensures RoundHalfUp(a, over) <= RoundHalfUp(b, under)
  {
    var p, q := RoundHalfUp(a, over), RoundHalfUp(b, under);
    RoundUpBelow(a, over);
    RoundDownAbove(b, under);
    if q < p {
      // a / over >= p - 1/2 >= q + 1/2 > b / under
      HalfBetween(a, over, b, under, p, q);
    }
  }

  /** A rounded number is at most half above: `p - 1/2 <= n / over`. */
  lemma RoundUpBelow(n: nat, over: nat)
    requires over > 0
    ensures (2 * RoundHalfUp(n, over) - 1) * over <= 2 * n
  {
    var q := n / over;
    assert n == q * over + n % over;
    assert (2 * q - 1) * over == 2 * (q * over) - over && (2 * (q + 1) - 1) * over == 2 * (q * over) + over;
  }

  /** And strictly less than half below: `n / over < q + 1/2`. */
  lemma RoundDownAbove(n: nat, over: nat)
    requires over > 0
    ensures 2 * n < (2 * RoundHalfUp(n, over) + 1) * over
  {
    var q := n / over;
    assert n == q * over + n % over;
    assert (2 * q + 1) * over == 2 * (q * over) + over && (2 * (q + 1) + 1) * over == 2 * (q * over) + 3 * over;
  }

  lemma HalfBetween(a: nat, over: nat, b: nat, under: nat, p: int, q: int)
    requires over > 0 && under > 0 && q < p
    requires (2 * p - 1) * over <= 2 * a && 2 * b < (2 * q + 1) * under
    ensures a * under > b * over
  {
    var k := 2 * q + 1;
    Ordered(k, 2 * p - 1, over);
    Ordered(k * over, 2 * a, under);
    Ordered(2 * b, k * under, over);
    Swapped(k, over, under);
    Doubled(a, under);
    Doubled(b, over);
  }

  lemma Ordered(x: int, y: int, n: nat)
    ensures x <= y ==> x * n <= y * n
    ensures x < y && n > 0 ==> x * n < y * n
  {
    Distance(x, y, n);
    if x < y && n > 0 {
      NotNegative(y - x - 1, n);
      Distance(-1, y - x - 1, n);
    } else if x < y {
      NotNegative(y - x, n);
    }
  }

  lemma Distance(x: int, y: int, n: int)
    ensures (y - x) * n == y * n - x * n
  {
  }

  lemma NotNegative(d: nat, n: nat)
    ensures d * n >= 0
  {
  }

  lemma Swapped(k: int, a: int, b: int)
    ensures (k * a) * b == (k * b) * a
  {
  }

  lemma Doubled(x: int, y: int)
    ensures (2 * x) * y == 2 * (x * y)
  {
  }

  /** Monotone, both roundings included: a larger decimal, at whatever precision
      it is written, never converts to fewer minor units. */
  lemma RoundingIsMonotone(a: Decimal, b: Decimal, currency: string)
    requires Exact(a, currency) * Pow10(b.places) <= Exact(b, currency) * Pow10(a.places)
    requires !Convert(a, currency).Raises? && !Convert(b, currency).Raises?
    ensures Convert(a, currency).n <= Convert(b, currency).n
  {
    var m, n := Product(a, currency), Product(b, currency);
    ContextOrdered(a.negative, m, a.places, b.negative, n, b.places);
    SignedMonotone(a.negative, InContext(m), Pow10(a.places), b.negative, InContext(n), Pow10(b.places));
  }

  lemma ContextOrdered(down: bool, m: nat, j: nat, below: bool, n: nat, k: nat)
    requires Signed(down, m) * Pow10(k) <= Signed(below, n) * Pow10(j)
    ensures Signed(down, InContext(m)) * Pow10(k) <= Signed(below, InContext(n)) * Pow10(j)
  {
    ContextScales(m, k);
    ContextScales(n, j);
    NegatedProduct(m, Pow10(k));
    NegatedProduct(n, Pow10(j));
    NegatedProduct(InContext(m), Pow10(k));
    NegatedProduct(InContext(n), Pow10(j));
    if !down && !below {
      ContextRises(m * Pow10(k), n * Pow10(j));
    } else if down && below {
      ContextRises(n * Pow10(j), m * Pow10(k));
    } else if below {
      BothZero(m, Pow10(k), n, Pow10(j));
      assert InContext(0) == 0;
    }
  }

  lemma SignedMonotone(down: bool, m: nat, over: nat, below: bool, n: nat, under: nat)
    requires over > 0 && under > 0 && Signed(down, m) * under <= Signed(below, n) * over
    ensures Signed(down, RoundHalfUp(m, over)) <= Signed(below, RoundHalfUp(n, under))
  {
    NegatedProduct(m, under);
    NegatedProduct(n, over);
    if !down && !below {
      RoundMonotone(m, over, n, under);
    } else if down && below {
      RoundMonotone(n, under, m, over);
    } else if below {
      BothZero(m, under, n, over);
    }
  }

  lemma NegatedProduct(a: int, b: int)
    ensures (-a) * b == -(a * b)
  {
  }

  lemma BothZero(m: nat, under: nat, n: nat, over: nat)
    requires over > 0 && under > 0 && m * under <= -(n * over)
    ensures m == 0 && n == 0
  {
    assert m * under >= m && n * over >= n;
  }

  // ── both roundings, said outright ──

  /** `q` times `over` is the nearest there is to `n`; of two as near, `q` is even. */
  ghost predicate NearestEven(n: nat, q: nat, over: nat) {
    2 * Abs(q * over - n) <= over && (2 * Abs(q * over - n) == over ==> q % 2 == 0)
  }

  /** `m` times `over` is the nearest there is to `n`; of two as near, the larger. */
  ghost predicate NearestUp(n: nat, m: nat, over: nat) {
    2 * n - over < 2 * (m * over) <= 2 * n + over
  }

  /** `n` has this many digits too many. */
  predicate TooLongBy(n: nat, drop: nat) {
    drop > 0 && Pow10(PRECISION + drop - 1) <= n < Pow10(PRECISION + drop)
  }

  /** `c` is `n` to 28 significant digits. */
  ghost predicate Kept(n: nat, c: nat) {
    if n < Pow10(PRECISION) then c == n
    else exists drop: nat, q: nat :: TooLongBy(n, drop) && NearestEven(n, q, Pow10(drop)) && c == q * Pow10(drop)
  }

  lemma HalfEvenNearest(n: nat, over: nat)
    requires over > 0
    ensures NearestEven(n, RoundHalfEven(n, over), over)
  {
    var q := n / over;
    assert n == q * over + n % over;
    assert (q + 1) * over == q * over + over;
  }

  lemma HalfUpNearest(n: nat, over: nat)
    requires over > 0
    ensures NearestUp(n, RoundHalfUp(n, over), over)
  {
    var q := n / over;
    assert n == q * over + n % over;
    assert (q + 1) * over == q * over + over;
  }

  lemma DropsDigits(n: nat, drop: nat)
    requires drop > 0 && NumDigits(n) == PRECISION + drop
    ensures TooLongBy(n, drop) && n >= Pow10(PRECISION)
    ensures InContext(n) == RoundHalfEven(n, Pow10(drop)) * Pow10(drop)
  {
    DigitsSpan(n);
    DigitsBelow(n, PRECISION);
  }

  lemma KeptBy(n: nat, c: nat, drop: nat, q: nat)
    requires n >= Pow10(PRECISION) && TooLongBy(n, drop) && NearestEven(n, q, Pow10(drop)) && c == q * Pow10(drop)
    ensures Kept(n, c)
  {
  }

  lemma ContextKeeps(n: nat)
    ensures Kept(n, InContext(n))
  {
    if NumDigits(n) <= PRECISION {
      DigitsBelow(n, PRECISION);
    } else {
      var drop := NumDigits(n) - PRECISION;
      DropsDigits(n, drop);
      HalfEvenNearest(n, Pow10(drop));
      KeptBy(n, InContext(n), drop, RoundHalfEven(n, Pow10(drop)));
    }
  }

  lemma BothRoundings(n: nat, places: nat) returns (c: nat, m: nat)
    ensures c == InContext(n) && m == RoundHalfUp(c, Pow10(places))
    ensures Kept(n, c) && NearestUp(c, m, Pow10(places))
  {
    c := InContext(n);
    m := RoundHalfUp(c, Pow10(places));
    ContextKeeps(n);
    HalfUpNearest(c, Pow10(places));
  }

  lemma ConvertIs(d: Decimal, currency: string, c: nat, m: nat)
    requires c == InContext(Product(d, currency)) && m == RoundHalfUp(c, Pow10(d.places))
    ensures Convert(d, currency)
         == if c >= Pow10(PRECISION + d.places) then Raises else Minor(Signed(d.negative, m))
  {
  }

  /** What a decimal converts to: the amount times its factor, to 28 digits, halves
      to even; then to whole minor units, halves away from zero, with its sign. It
      raises when the first has more digits than that before the point. */
  lemma ConvertRounds(d: Decimal, currency: string) returns (c: nat, m: nat)
    ensures Kept(Product(d, currency), c) && NearestUp(c, m, Pow10(d.places))
    ensures Convert(d, currency)
         == if c >= Pow10(PRECISION + d.places) then Raises else Minor(Signed(d.negative, m))
  {
    c, m := BothRoundings(Product(d, currency), d.places);
    ConvertIs(d, currency, c, m);
  }

  /** A decimal as written: an optional sign, digits, and optionally a point and
      more digits; one digit at least. */
  ghost predicate Written(s: string, sign: string, whole: string, point: string, part: string) {
    && s == sign + whole + point + part && sign in {"", "+", "-"} && (point == "." || (point == "" && part == ""))
    && AllDigits(whole) && AllDigits(part) && (whole != "" || part != "")
  }

  lemma BodyReads(body: string, whole: string, point: string, part: string, negative: bool)
    requires body == whole + point + part && (point == "." || (point == "" && part == ""))
    requires AllDigits(whole) && AllDigits(part) && (whole != "" || part != "")
    ensures body != "" && body[0] !in "+-"
    ensures AllDigits(whole + part) && Unsigned(body, negative) == Some(Decimal(negative, Value(whole + part), |part|))
  {
    if point == "." {
      PointedReads(body, whole, part, negative);
    } else {
      PlainReads(body, whole, part, negative);
    }
  }

  lemma PlainReads(body: string, whole: string, part: string, negative: bool)
    requires body == whole + "" + part && part == "" && whole != "" && AllDigits(whole)
    ensures body != "" && body[0] !in "+-"
    ensures AllDigits(whole + part) && Unsigned(body, negative) == Some(Decimal(negative, Value(whole + part), |part|))
  {
    assert body == whole && whole + part == whole;
    WholeReads(whole, negative);
    assert IsDigit(whole[0]);
  }

  lemma PointedReads(body: string, whole: string, part: string, negative: bool)
    requires body == whole + "." + part && AllDigits(whole) && AllDigits(part) && (whole != "" || part != "")
    ensures body != "" && body[0] !in "+-"
    ensures AllDigits(whole + part) && Unsigned(body, negative) == Some(Decimal(negative, Value(whole + part), |part|))
  {
    PointBetween(whole, part);
    SlicesAround(whole, part);
    UnsignedSplit(body, |whole|, whole, part, negative);
    NoSignFirst(whole, part);
  }

  lemma NoSignFirst(whole: string, part: string)
    requires AllDigits(whole)
    ensures var body := whole + "." + part; body != "" && body[0] !in "+-"
  {
    var body := whole + "." + part;
    assert body[0] == if whole == "" then '.' else whole[0];
  }

  lemma SignTaken(sign: string, body: string)
    requires sign in {"", "+", "-"} && body != "" && body[0] !in "+-"
    ensures Parse(sign + body) == Unsigned(body, sign == "-")
  {
    if sign == "" {
      assert sign + body == body;
    } else {
      assert (sign + body)[1..] == body && (sign + body)[0] == sign[0];
    }
  }

  /** Text so written reads as the number it writes. */
  lemma WrittenReads(s: string, sign: string, whole: string, point: string, part: string)
    requires Written(s, sign, whole, point, part)
    ensures AllDigits(whole + part) && Parse(s) == Some(Decimal(sign == "-", Value(whole + part), |part|))
  {
    var body := whole + point + part;
    Regrouped(sign, whole, point, part);
    BodyReads(body, whole, point, part, sign == "-");
    SignTaken(sign, body);
  }

  /** The sign of a text, if it has one, and the rest. */
  lemma SignSplit(s: string) returns (sign: string, body: string)
    ensures s == sign + body && sign in {"", "+", "-"} && Parse(s) == Unsigned(body, sign == "-")
  {
    if s != "" && s[0] in "+-" {
      sign, body := s[..1], s[1..];
      assert sign == [s[0]];
    } else {
      sign, body := "", s;
    }
  }

  lemma BodySplit(body: string, negative: bool) returns (whole: string, point: string, part: string)
    requires Unsigned(body, negative).Some?
    ensures body == whole + point + part && (point == "." || (point == "" && part == ""))
    ensures AllDigits(whole) && AllDigits(part) && (whole != "" || part != "")
  {
    var p := PointAt(body);
    whole := body[..p];
    if p < |body| {
      point, part := ".", body[p + 1..];
      assert body == body[..p] + [body[p]] + body[p + 1..];
    } else {
      point, part := "", "";
    }
  }

  /** And other text does not read. */
  lemma ReadsWritten(s: string) returns (sign: string, whole: string, point: string, part: string)
    requires Parse(s).Some?
    ensures Written(s, sign, whole, point, part)
  {
    var body: string;
    sign, body := SignSplit(s);
    whole, point, part := BodySplit(body, sign == "-");
    assert sign + (whole + point + part) == sign + whole + point + part;
  }
}
