/** The four change calculations of index.js: start, end, periods and
    percent change per period, tied by the compound-change identity
    end = start * factor^periods with factor = percent / 100 + 1.

    `Math.pow` and `Math.log` belong to the JavaScript runtime, so every
    calculation takes them as a parameter `m`. What the model proves about
    a calculation states, as a `requires`, which laws of `Math.pow` and
    `Math.log` it relies on (the predicates NatPowers, Roots, IeeePow,
    LogLaws and IeeeLog below). */
module ChangeMath {
  import opened Numbers

  /** The two members of JavaScript's `Math` object that index.js calls. */
  datatype Math = Math(pow: (Number, Number) -> Number, log: Number -> Number)

  /** x^n by repeated multiplication: the reference for `Math.pow` at a
      natural exponent. */
  function Power(x: real, n: nat): real
  {
    if n == 0 then 1.0 else x * Power(x, n - 1)
  }

  // ---------------------------------------------------------------------
  // Laws of Math.pow and Math.log that the proofs rely on

  /** `Math.pow(x, n)` is x multiplied by itself n times. */
  ghost predicate NatPowers(m: Math)
  {
    forall x: real, n: nat {:trigger Power(x, n)} :: m.pow(Finite(x), Finite(n as real)) == Finite(Power(x, n))
  }

  /** `Math.pow(y, 1 / n)` is the non-negative n-th root of y. */
  ghost predicate Roots(m: Math)
  {
    forall x: real, n: nat {:trigger Power(x, n)} :: 0.0 <= x && 1 <= n ==>
      m.pow(Finite(Power(x, n)), Finite(1.0 / (n as real))) == Finite(x)
  }

  /** The IEEE 754 special cases of `Math.pow` that the tests in test/index.test.js reach. */
  ghost predicate IeeePow(m: Math)
  {
    (forall y: real {:trigger m.pow(Infinity(false), Finite(y))} :: 0.0 < y ==> m.pow(Infinity(false), Finite(y)) == Infinity(false)) &&
    (forall x: real {:trigger m.pow(Finite(x), Infinity(false))} :: 1.0 < x ==> m.pow(Finite(x), Infinity(false)) == Infinity(false)) &&
    (forall y: real {:trigger m.pow(Finite(0.0), Finite(y))} :: 0.0 < y ==> m.pow(Finite(0.0), Finite(y)) == Finite(0.0)) &&
    (forall y: real {:trigger m.pow(NaN, Finite(y))} :: y != 0.0 ==> m.pow(NaN, Finite(y)) == NaN) &&
    (forall x: Number {:trigger m.pow(x, NaN)} :: m.pow(x, NaN) == NaN)
  }

  /** The product x * y, named so that the product law of LogLaws is used
      only where a proof mentions such a product. */
  function Times(x: real, y: real): real
  {
    x * y
  }

  /** `Math.log` is a logarithm: finite on positive numbers, turning
      products into sums, and zero only at 1. */
  ghost predicate LogLaws(m: Math)
  {
    (forall x: real {:trigger m.log(Finite(x))} :: 0.0 < x ==> m.log(Finite(x)).Finite?) &&
    (forall x: real, y: real {:trigger Times(x, y)} :: 0.0 < x && 0.0 < y ==>
       m.log(Finite(Times(x, y))) == Add(m.log(Finite(x)), m.log(Finite(y)))) &&
    (forall x: real {:trigger m.log(Finite(x))} :: 0.0 < x && x != 1.0 ==> m.log(Finite(x)) != Finite(0.0))
  }

  /** `Math.log(0)` is negative infinity. */
  ghost predicate IeeeLog(m: Math)
  {
    m.log(Finite(0.0)) == Infinity(true)
  }

  // ---------------------------------------------------------------------
  // The calculations

  /** Change factor of a percent: 100 doubles, 0 keeps, -100 wipes out. */
  function ChangeFactorOnPercent(percent: Number): (factor: Number)
    ensures percent.Finite? ==> factor.Finite? && (factor.r - 1.0) * 100.0 == percent.r
    ensures !percent.Finite? ==> factor == percent
  {
    Add(Div(percent, Finite(100.0)), Finite(1.0))
  }

  /** Percent change per period that takes `start` to `end` in `periods`. */
  function PercentChangeByPeriod(m: Math, start: Number, end: Number, periods: Number): (rate: Number)
    ensures m.pow(Div(end, start), Div(Finite(1.0), periods)).Finite? ==>
      rate.Finite? && rate.r / 100.0 + 1.0 == m.pow(Div(end, start), Div(Finite(1.0), periods)).r
    ensures m.pow(Div(end, start), Div(Finite(1.0), periods)).NaN? ==> rate.NaN?
  {
    var change := Div(end, start);
    var exponent := Div(Finite(1.0), periods);
    var changeFactor := m.pow(change, exponent);
    Mul(Sub(changeFactor, Finite(1.0)), Finite(100.0))
  }

  /** The start value as index.js computes it: factor^periods / end. This is
      NOT the start that leads to `end` (see StartFromEnd). */
  function Start(m: Math, end: Number, periods: Number, percent: Number): (start: Number)
    ensures end.NaN? ==> start.NaN?
    ensures m.pow(ChangeFactorOnPercent(percent), periods).Finite? && end.Finite? && end.r != 0.0 ==>
      start.Finite? && start.r * end.r == m.pow(ChangeFactorOnPercent(percent), periods).r
  {
    var change := ChangeFactorOnPercent(percent);
    Div(m.pow(change, periods), end)
  }

  /** The start value that leads to `end`: end / factor^periods. */
  function StartFromEnd(m: Math, end: Number, periods: Number, percent: Number): (start: Number)
    ensures end.NaN? ==> start.NaN?
    ensures m.pow(ChangeFactorOnPercent(percent), periods).Finite? && m.pow(ChangeFactorOnPercent(percent), periods).r != 0.0 && end.Finite? ==>
      start.Finite? && start.r * m.pow(ChangeFactorOnPercent(percent), periods).r == end.r
  {
    var change := ChangeFactorOnPercent(percent);
    Div(end, m.pow(change, periods))
  }

  /** The end value reached from `start` after `periods` periods. */
  function End(m: Math, start: Number, periods: Number, percent: Number): (end: Number)
    ensures start.NaN? ==> end.NaN?
    ensures m.pow(ChangeFactorOnPercent(percent), periods) == Finite(1.0) ==> end == start
  {
    var change := ChangeFactorOnPercent(percent);
    Mul(m.pow(change, periods), start)
  }

  /** The number of periods that takes `start` to `end`: ln(end / start) / ln(factor). */
  function Periods(m: Math, start: Number, end: Number, percent: Number): (n: Number)
    ensures m.log(ChangeFactorOnPercent(percent)).Finite? && m.log(ChangeFactorOnPercent(percent)).r != 0.0 && m.log(Div(end, start)).Finite? ==>
      n.Finite? && n.r * m.log(ChangeFactorOnPercent(percent)).r == m.log(Div(end, start)).r
    ensures m.log(ChangeFactorOnPercent(percent)) == Finite(0.0) && m.log(Div(end, start)) == Finite(0.0) ==> n.NaN?
  {
    var change := Div(end, start);
    var changeByPeriod := ChangeFactorOnPercent(percent);
    Div(m.log(change), m.log(changeByPeriod))
  }

  // ---------------------------------------------------------------------
  // Power, and the real arithmetic the proofs below lean on

  lemma {:induction false} PowerOfOne(n: nat)
    ensures Power(1.0, n) == 1.0
  {
    if n > 0 { PowerOfOne(n - 1); }
  }

  lemma {:induction false} PowerSign(x: real, n: nat)
    ensures x != 0.0 ==> Power(x, n) != 0.0
    ensures 0.0 < x ==> 0.0 < Power(x, n)
  {
    if n > 0 { PowerSign(x, n - 1); }
  }

  lemma {:induction false} PowerAdd(x: real, a: nat, b: nat)
    ensures Power(x, a + b) == Power(x, a) * Power(x, b)
  {
    if a > 0 {
      PowerAdd(x, a - 1, b);
      MulAssoc(x, Power(x, a - 1), Power(x, b));
    }
  }

  lemma MulAssoc(x: real, y: real, z: real)
    ensures x * (y * z) == (x * y) * z
  {
  }

  lemma CancelRight(x: real, y: real)
    requires y != 0.0
    ensures (x * y) / y == x
  {
  }

  lemma CancelLeft(x: real, y: real)
    requires x != 0.0 && y != 0.0
    ensures x * y != 0.0 && x / (x * y) == 1.0 / y
  {
  }

  lemma CancelQuotient(x: real, y: real)
    requires x != 0.0
    ensures x * (y / x) == y
  {
  }

  // ---------------------------------------------------------------------
  // Change factor

  lemma FactorOf(p: real)
    ensures ChangeFactorOnPercent(Finite(p)) == Finite(p / 100.0 + 1.0)
  {
  }

  /** The change factors that index.js documents. */
  lemma FactorLandmarks()
    ensures ChangeFactorOnPercent(Finite(0.0)) == Finite(1.0)
    ensures ChangeFactorOnPercent(Finite(-100.0)) == Finite(0.0)
    ensures ChangeFactorOnPercent(Finite(100.0)) == Finite(2.0)
    ensures ChangeFactorOnPercent(Finite(200.0)) == Finite(3.0)
  {
    FactorOf(0.0);
    FactorOf(-100.0);
    FactorOf(100.0);
    FactorOf(200.0);
  }

  /** `Math.pow(changeFactorOnPercent(p), n)` at a natural n. */
  lemma PowOfFactor(m: Math, p: real, n: nat)
    requires NatPowers(m)
    ensures m.pow(ChangeFactorOnPercent(Finite(p)), Finite(n as real)) == Finite(Power(p / 100.0 + 1.0, n))
  {
    FactorOf(p);
    assert m.pow(Finite(p / 100.0 + 1.0), Finite(n as real)) == Finite(Power(p / 100.0 + 1.0, n));
  }

  // ---------------------------------------------------------------------
  // End

  /** With `Math.pow` exact at natural exponents, the end value is
      factor^n * start. */
  lemma EndClosedForm(m: Math, s: real, n: nat, p: real)
    requires NatPowers(m)
    ensures End(m, Finite(s), Finite(n as real), Finite(p)) == Finite(Power(p / 100.0 + 1.0, n) * s)
  {
    PowOfFactor(m, p, n);
  }

  /** Zero periods leave the start value unchanged. */
  lemma EndOfNoPeriods(m: Math, s: real, p: real)
    requires NatPowers(m)
    ensures End(m, Finite(s), Finite(0.0), Finite(p)) == Finite(s)
  {
    PowOfFactor(m, p, 0);
    assert Mul(Finite(1.0), Finite(s)) == Finite(s);
  }

  /** A change of 0% leaves the start value unchanged. */
  lemma EndOfNoChange(m: Math, s: real, n: nat)
    requires NatPowers(m)
    ensures End(m, Finite(s), Finite(n as real), Finite(0.0)) == Finite(s)
  {
    assert m.pow(ChangeFactorOnPercent(Finite(0.0)), Finite(n as real)) == Finite(1.0) by {
      PowOfFactor(m, 0.0, n);
      PowerOfOne(n);
    }
  }

  /** A change of -100% applied for at least one period ends at zero. */
  lemma EndTotalLoss(m: Math, s: real, n: nat)
    requires NatPowers(m)
    requires 1 <= n
    ensures End(m, Finite(s), Finite(n as real), Finite(-100.0)) == Finite(0.0)
  {
    PowOfFactor(m, -100.0, n);
    assert Power(0.0, n) == 0.0 * Power(0.0, n - 1);
    assert Mul(Finite(0.0), Finite(s)) == Finite(0.0);
  }

  /** Compounding for a periods and then for b periods is compounding for
      a + b periods. */
  lemma EndCompounds(m: Math, s: real, a: nat, b: nat, p: real)
    requires NatPowers(m)
    ensures End(m, End(m, Finite(s), Finite(a as real), Finite(p)), Finite(b as real), Finite(p))
         == End(m, Finite(s), Finite((a + b) as real), Finite(p))
  {
    var f := p / 100.0 + 1.0;
    var pa, pb, pab := Power(f, a), Power(f, b), Power(f, a + b);
    assert End(m, Finite(s), Finite(a as real), Finite(p)) == Finite(pa * s) by {
      PowOfFactor(m, p, a);
      EndOfPow(m, s, Finite(a as real), p, pa);
    }
    assert End(m, Finite(pa * s), Finite(b as real), Finite(p)) == Finite(pb * (pa * s)) by {
      PowOfFactor(m, p, b);
      EndOfPow(m, pa * s, Finite(b as real), p, pb);
    }
    assert End(m, Finite(s), Finite((a + b) as real), Finite(p)) == Finite(pab * s) by {
      PowOfFactor(m, p, a + b);
      EndOfPow(m, s, Finite((a + b) as real), p, pab);
    }
    assert pab == pb * pa by {
      PowerAdd(f, b, a);
    }
    MulAssoc(pb, pa, s);
  }

  /** The end value once `Math.pow` has given the compound factor q. */
  lemma EndOfPow(m: Math, s: real, periods: Number, p: real, q: real)
    requires m.pow(ChangeFactorOnPercent(Finite(p)), periods) == Finite(q)
    ensures End(m, Finite(s), periods, Finite(p)) == Finite(q * s)
  {
  }

  /** Dividing the end by the compound factor gives back the start. */
  lemma EndOverFactor(m: Math, start: real, periods: Number, percent: Number)
    requires m.pow(ChangeFactorOnPercent(percent), periods).Finite?
    requires m.pow(ChangeFactorOnPercent(percent), periods).r != 0.0
    ensures End(m, Finite(start), periods, percent).Finite?
    ensures End(m, Finite(start), periods, percent).r / m.pow(ChangeFactorOnPercent(percent), periods).r == start
  {
    var q := m.pow(ChangeFactorOnPercent(percent), periods).r;
    assert End(m, Finite(start), periods, percent) == Finite(q * start);
    MulComm(q, start);
    CancelRight(start, q);
  }

  lemma EndExampleDoubling(m: Math)
    requires NatPowers(m)
    ensures End(m, Finite(1.0), Finite(3.0), Finite(100.0)) == Finite(8.0)
  {
    PowOfFactor(m, 100.0, 3);
    assert Power(2.0, 3) == 8.0;
    assert Mul(Finite(8.0), Finite(1.0)) == Finite(8.0);
  }

  lemma EndExampleTotalLoss(m: Math)
    requires NatPowers(m)
    ensures End(m, Finite(1.0), Finite(1.0), Finite(-100.0)) == Finite(0.0)
  {
    EndTotalLoss(m, 1.0, 1);
  }

  // ---------------------------------------------------------------------
  // Start as written, and the start that inverts End

  /** The start value of index.js is factor^n / end, and dividing by a zero
      end gives an infinity (or NaN when factor^n is zero too). */
  lemma StartClosedForm(m: Math, e: real, n: nat, p: real)
    requires NatPowers(m)
    ensures e != 0.0 ==>
      Start(m, Finite(e), Finite(n as real), Finite(p)) == Finite(Power(p / 100.0 + 1.0, n) / e)
    ensures e == 0.0 && Power(p / 100.0 + 1.0, n) != 0.0 ==>
      Start(m, Finite(e), Finite(n as real), Finite(p)) == Infinity(Power(p / 100.0 + 1.0, n) < 0.0)
    ensures e == 0.0 && Power(p / 100.0 + 1.0, n) == 0.0 ==>
      Start(m, Finite(e), Finite(n as real), Finite(p)) == NaN
  {
    PowOfFactor(m, p, n);
  }

  /** Applying index.js's start to the end reached from s gives 1 / s, not s. */
  lemma StartOfEnd(m: Math, s: real, n: nat, p: real)
    requires NatPowers(m)
    requires s != 0.0 && p != -100.0
    ensures Start(m, End(m, Finite(s), Finite(n as real), Finite(p)), Finite(n as real), Finite(p))
         == Finite(1.0 / s)
  {
    var q := Power(p / 100.0 + 1.0, n);
    PowerSign(p / 100.0 + 1.0, n);
    PowOfFactor(m, p, n);
    CancelLeft(q, s);
    assert End(m, Finite(s), Finite(n as real), Finite(p)) == Finite(q * s);
    assert Div(Finite(q), Finite(q * s)) == Finite(1.0 / s);
  }

  /** index.js's start undoes end exactly when the true start is 1 or -1,
      the two numbers that are their own reciprocal. */
  lemma StartOfEndRoundTrip(m: Math, s: real, n: nat, p: real)
    requires NatPowers(m)
    requires s != 0.0 && p != -100.0
    ensures Start(m, End(m, Finite(s), Finite(n as real), Finite(p)), Finite(n as real), Finite(p)) == Finite(s)
        <==> s == 1.0 || s == -1.0
  {
    StartOfEnd(m, s, n, p);
    OwnReciprocal(s);
  }

  lemma OwnReciprocal(s: real)
    requires s != 0.0
    ensures 1.0 / s == s <==> s == 1.0 || s == -1.0
  {
    if 1.0 / s == s {
      CancelQuotient(s, 1.0);
      assert s * s == 1.0;
      assert (s - 1.0) * (s + 1.0) == 0.0;
    }
  }

  /** A start of 2 with no change over one period ends at 2, from which
      index.js derives a start of 0.5. */
  lemma StartIsNotInverse(m: Math)
    requires NatPowers(m)
    ensures End(m, Finite(2.0), Finite(1.0), Finite(0.0)) == Finite(2.0)
    ensures Start(m, Finite(2.0), Finite(1.0), Finite(0.0)) == Finite(0.5)
  {
    EndOfNoChange(m, 2.0, 1);
    StartOfEnd(m, 2.0, 1, 0.0);
  }

  /** StartFromEnd undoes End whenever the factor is nonzero. */
  lemma StartFromEndOfEnd(m: Math, s: real, n: nat, p: real)
    requires NatPowers(m)
    requires p != -100.0
    ensures StartFromEnd(m, End(m, Finite(s), Finite(n as real), Finite(p)), Finite(n as real), Finite(p))
         == Finite(s)
  {
    var q := Power(p / 100.0 + 1.0, n);
    PowerSign(p / 100.0 + 1.0, n);
    PowOfFactor(m, p, n);
    MulComm(q, s);
    CancelRight(s, q);
    assert End(m, Finite(s), Finite(n as real), Finite(p)) == Finite(q * s);
    assert Div(Finite(q * s), Finite(q)) == Finite(s);
  }

  /** End undoes StartFromEnd whenever the factor is nonzero. */
  lemma EndOfStartFromEnd(m: Math, e: real, n: nat, p: real)
    requires NatPowers(m)
    requires p != -100.0
    ensures End(m, StartFromEnd(m, Finite(e), Finite(n as real), Finite(p)), Finite(n as real), Finite(p))
         == Finite(e)
  {
    var q := Power(p / 100.0 + 1.0, n);
    PowerSign(p / 100.0 + 1.0, n);
    PowOfFactor(m, p, n);
    CancelQuotient(q, e);
    assert StartFromEnd(m, Finite(e), Finite(n as real), Finite(p)) == Finite(e / q);
    assert Mul(Finite(q), Finite(e / q)) == Finite(e);
  }

  lemma MulComm(x: real, y: real)
    ensures x * y == y * x
  {
  }

  lemma StartExamples(m: Math)
    requires NatPowers(m)
    ensures Start(m, Finite(8.0), Finite(3.0), Finite(100.0)) == Finite(1.0)
    ensures StartFromEnd(m, Finite(8.0), Finite(3.0), Finite(100.0)) == Finite(1.0)
  {
    PowOfFactor(m, 100.0, 3);
    assert Power(2.0, 3) == 8.0;
    assert Div(Finite(8.0), Finite(8.0)) == Finite(1.0);
  }

  // ---------------------------------------------------------------------
  // Periods

  lemma LogOfOne(m: Math)
    requires LogLaws(m)
    ensures m.log(Finite(1.0)) == Finite(0.0)
  {
    assert m.log(Finite(Times(1.0, 1.0))) == Add(m.log(Finite(1.0)), m.log(Finite(1.0)));
  }

  /** The logarithm of x^n is n times the logarithm of x. */
  lemma {:induction false} LogOfPower(m: Math, x: real, n: nat)
    requires LogLaws(m)
    requires 0.0 < x
    ensures m.log(Finite(x)).Finite?
    ensures m.log(Finite(Power(x, n))) == Finite((n as real) * m.log(Finite(x)).r)
  {
    if n == 0 {
      LogOfOne(m);
    } else {
      var l := m.log(Finite(x)).r;
      var q := Power(x, n - 1);
      assert m.log(Finite(q)) == Finite(((n - 1) as real) * l) by {
        LogOfPower(m, x, n - 1);
      }
      assert 0.0 < q by {
        PowerSign(x, n - 1);
      }
      assert m.log(Finite(Times(x, q))) == Add(m.log(Finite(x)), m.log(Finite(q)));
      assert Times(x, q) == Power(x, n);
      assert l + ((n - 1) as real) * l == (n as real) * l;
    }
  }

  /** Periods inverts End: from the start and the end reached after n
      periods, it recovers n, whenever the factor is positive and not 1. */
  lemma PeriodsOfEnd(m: Math, s: real, n: nat, p: real)
    requires NatPowers(m) && LogLaws(m)
    requires s != 0.0 && -100.0 < p && p != 0.0
    ensures Periods(m, Finite(s), End(m, Finite(s), Finite(n as real), Finite(p)), Finite(p))
         == Finite(n as real)
  {
    var f := p / 100.0 + 1.0;
    var q := Power(f, n);
    PowOfFactor(m, p, n);
    FactorOf(p);
    CancelRight(q, s);
    assert End(m, Finite(s), Finite(n as real), Finite(p)) == Finite(q * s);
    assert Div(Finite(q * s), Finite(s)) == Finite(q);
    LogOfPower(m, f, n);
    var l := m.log(Finite(f)).r;
    assert l != 0.0;
    CancelRight(n as real, l);
    assert Div(Finite((n as real) * l), Finite(l)) == Finite(n as real);
  }

  /** No net change takes zero periods, whatever the (nonzero) rate. */
  lemma PeriodsNoNetChange(m: Math, s: real, p: real)
    requires LogLaws(m)
    requires s != 0.0 && -100.0 < p && p != 0.0
    ensures Periods(m, Finite(s), Finite(s), Finite(p)) == Finite(0.0)
  {
    LogOfOne(m);
    FactorOf(p);
    assert Div(Finite(s), Finite(s)) == Finite(1.0);
    var l := m.log(Finite(p / 100.0 + 1.0)).r;
    assert l != 0.0;
    assert Div(Finite(0.0), Finite(l)) == Finite(0.0);
  }

  /** No net change at a 0% rate is 0 / 0. */
  lemma PeriodsIndeterminate(m: Math, s: real)
    requires LogLaws(m)
    requires s != 0.0
    ensures Periods(m, Finite(s), Finite(s), Finite(0.0)).NaN?
  {
    LogOfOne(m);
    assert s / s == 1.0;
  }

  /** A total loss at -100% is ln(0) / ln(0), that is -Infinity / -Infinity. */
  lemma PeriodsTotalLoss(m: Math, s: real)
    requires IeeeLog(m)
    requires s != 0.0
    ensures Periods(m, Finite(s), Finite(0.0), Finite(-100.0)).NaN?
  {
    assert 0.0 / s == 0.0;
  }

  lemma PeriodsExampleDoubling(m: Math)
    requires NatPowers(m) && LogLaws(m)
    ensures Periods(m, Finite(1.0), Finite(8.0), Finite(100.0)) == Finite(3.0)
  {
    PeriodsOfEnd(m, 1.0, 3, 100.0);
    EndExampleDoubling(m);
  }

  lemma PeriodsExamplesNoNetChange(m: Math)
    requires LogLaws(m)
    ensures Periods(m, Finite(4.0), Finite(4.0), Finite(99999999.0)) == Finite(0.0)
    ensures Periods(m, Finite(4.0), Finite(4.0), Finite(500.0)) == Finite(0.0)
    ensures Periods(m, Finite(1.0), Finite(1.0), Finite(0.0)).NaN?
  {
    PeriodsNoNetChange(m, 4.0, 99999999.0);
    PeriodsNoNetChange(m, 4.0, 500.0);
    PeriodsIndeterminate(m, 1.0);
  }

  // ---------------------------------------------------------------------
  // Percent change per period

  /** Percent change of a ratio that is an exact power: from `start` to
      `end` in n periods, where end / start is f^n with f >= 0, the rate is
      (f - 1) * 100. */
  lemma PercentChangeOfPower(m: Math, s: real, e: real, f: real, n: nat)
    requires Roots(m)
    requires s != 0.0 && 1 <= n && 0.0 <= f && e / s == Power(f, n)
    ensures PercentChangeByPeriod(m, Finite(s), Finite(e), Finite(n as real)) == Finite((f - 1.0) * 100.0)
  {
    assert Div(Finite(e), Finite(s)) == Finite(Power(f, n));
    assert Div(Finite(1.0), Finite(n as real)) == Finite(1.0 / (n as real));
    assert m.pow(Finite(Power(f, n)), Finite(1.0 / (n as real))) == Finite(f);
    PercentChangeOfPow(m, Finite(s), Finite(e), Finite(n as real), f);
  }

  /** The rate once `Math.pow` has given the per-period factor c. */
  lemma PercentChangeOfPow(m: Math, start: Number, end: Number, periods: Number, c: real)
    requires m.pow(Div(end, start), Div(Finite(1.0), periods)) == Finite(c)
    ensures PercentChangeByPeriod(m, start, end, periods) == Finite((c - 1.0) * 100.0)
  {
    assert Sub(Finite(c), Finite(1.0)) == Finite(c - 1.0);
  }

  /** PercentChangeByPeriod inverts End: from the start and the end reached
      after n >= 1 periods, it recovers the percent, for any percent of at
      least -100. */
  lemma PercentChangeOfEnd(m: Math, s: real, n: nat, p: real)
    requires NatPowers(m) && Roots(m)
    requires s != 0.0 && 1 <= n && -100.0 <= p
    ensures PercentChangeByPeriod(m, Finite(s), End(m, Finite(s), Finite(n as real), Finite(p)), Finite(n as real))
         == Finite(p)
  {
    var f := p / 100.0 + 1.0;
    var q := Power(f, n);
    PowOfFactor(m, p, n);
    CancelRight(q, s);
    assert End(m, Finite(s), Finite(n as real), Finite(p)) == Finite(q * s);
    PercentChangeOfPower(m, s, q * s, f, n);
  }

  /** End undoes PercentChangeByPeriod: compounding at the derived rate for
      n periods leads back to `end`, when end / start is an exact n-th power
      of a non-negative factor. */
  lemma EndOfPercentChange(m: Math, s: real, e: real, f: real, n: nat)
    requires NatPowers(m) && Roots(m)
    requires s != 0.0 && 1 <= n && 0.0 <= f && e / s == Power(f, n)
    ensures End(m, Finite(s), Finite(n as real), PercentChangeByPeriod(m, Finite(s), Finite(e), Finite(n as real)))
         == Finite(e)
  {
    var p := (f - 1.0) * 100.0;
    var q := Power(f, n);
    assert PercentChangeByPeriod(m, Finite(s), Finite(e), Finite(n as real)) == Finite(p) by {
      PercentChangeOfPower(m, s, e, f, n);
    }
    assert End(m, Finite(s), Finite(n as real), Finite(p)) == Finite(q * s) by {
      PowOfFactor(m, p, n);
      assert p / 100.0 + 1.0 == f;
      EndOfPow(m, s, Finite(n as real), p, q);
    }
    RatioTimes(s, e, q);
  }

  lemma RatioTimes(s: real, e: real, q: real)
    requires s != 0.0 && e / s == q
    ensures q * s == e
  {
  }

  /** An end of zero is a -100% change per period, over any positive number
      of periods. */
  lemma PercentChangeTotalLoss(m: Math, s: real, n: real)
    requires IeeePow(m)
    requires s != 0.0 && 0.0 < n
    ensures PercentChangeByPeriod(m, Finite(s), Finite(0.0), Finite(n)) == Finite(-100.0)
  {
    assert Div(Finite(0.0), Finite(s)) == Finite(0.0);
    var y := 1.0 / n;
    assert 0.0 < y;
    assert Div(Finite(1.0), Finite(n)) == Finite(y);
    assert m.pow(Finite(0.0), Finite(y)) == Finite(0.0);
    assert Sub(Finite(0.0), Finite(1.0)) == Finite(-1.0);
    assert Mul(Finite(-1.0), Finite(100.0)) == Finite(-100.0);
  }

  /** Zero periods: a growing ratio needs an infinite rate. */
  lemma PercentChangeZeroPeriods(m: Math, s: real, e: real)
    requires IeeePow(m)
    requires s != 0.0 && 1.0 < e / s
    ensures PercentChangeByPeriod(m, Finite(s), Finite(e), Finite(0.0)) == Infinity(false)
  {
    assert Div(Finite(1.0), Finite(0.0)) == Infinity(false);
    assert m.pow(Finite(e / s), Infinity(false)) == Infinity(false);
  }

  /** A zero start: a positive end is an infinite rate, a zero end is NaN. */
  lemma PercentChangeZeroStart(m: Math, e: real, n: real)
    requires IeeePow(m)
    requires 0.0 <= e && 0.0 < n
    ensures 0.0 < e ==> PercentChangeByPeriod(m, Finite(0.0), Finite(e), Finite(n)) == Infinity(false)
    ensures e == 0.0 ==> PercentChangeByPeriod(m, Finite(0.0), Finite(e), Finite(n)).NaN?
  {
    var y := 1.0 / n;
    assert 0.0 < y;
    assert Div(Finite(1.0), Finite(n)) == Finite(y);
  }

  /** A start that is not a number gives a NaN rate, for any end, when the
      number of periods is a nonzero number or is not a number either. */
  lemma PercentChangeOfNaN(m: Math, e: Number, n: real)
    requires IeeePow(m)
    ensures n != 0.0 ==> PercentChangeByPeriod(m, NaN, e, Finite(n)).NaN?
    ensures PercentChangeByPeriod(m, NaN, e, NaN).NaN?
  {
    if n != 0.0 {
      assert Div(Finite(1.0), Finite(n)) == Finite(1.0 / n);
      assert 1.0 / n != 0.0;
    }
  }

  lemma PercentChangeExamplesOfPowers(m: Math)
    requires Roots(m)
    ensures PercentChangeByPeriod(m, Finite(1.0), Finite(8.0), Finite(3.0)) == Finite(100.0)
    ensures PercentChangeByPeriod(m, Finite(4.0), Finite(1.0), Finite(2.0)) == Finite(-50.0)
    ensures PercentChangeByPeriod(m, Finite(1.0 / 3.0), Finite(4.0 / 3.0), Finite(2.0)) == Finite(100.0)
  {
    assert Power(2.0, 3) == 8.0;
    PercentChangeOfPower(m, 1.0, 8.0, 2.0, 3);
    assert Power(0.5, 2) == 0.25;
    PercentChangeOfPower(m, 4.0, 1.0, 0.5, 2);
    assert Power(2.0, 2) == 4.0;
    PercentChangeOfPower(m, 1.0 / 3.0, 4.0 / 3.0, 2.0, 2);
  }

  lemma PercentChangeExamplesIeee(m: Math)
    requires IeeePow(m)
    ensures PercentChangeByPeriod(m, Finite(1.0), Finite(0.0), Finite(50.0)) == Finite(-100.0)
    ensures PercentChangeByPeriod(m, Finite(1.0), Finite(2.0), Finite(0.0)) == Infinity(false)
    ensures PercentChangeByPeriod(m, Finite(0.0), Finite(1.0), Finite(1.0)) == Infinity(false)
    ensures PercentChangeByPeriod(m, Finite(0.0), Finite(0.0), Finite(1.0)).NaN?
  {
    PercentChangeTotalLoss(m, 1.0, 50.0);
    PercentChangeZeroPeriods(m, 1.0, 2.0);
    PercentChangeZeroStart(m, 1.0, 1.0);
    PercentChangeZeroStart(m, 0.0, 1.0);
  }
}
