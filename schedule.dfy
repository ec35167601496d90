/** The month-by-month savings schedule as a recurrence over exact reals.

    Month m (m >= 1) takes interest on the balance left at the end of month
    m - 1, adds it, then adds the monthly deposit. Month 0 is the opening
    balance. Everything below is stated for an arbitrary monthly rate `rm`;
    the simulator passes `MonthlyRate(rAnnual)`.
 */
module Schedule {

  /** One ledger row; the fields are in the export column order
      Month, Year, Contribution, Interest Accrued, Balance. */
  datatype LedgerRow = LedgerRow(
    month: nat,
    year: nat,
    contribution: real,     // cumulative deposits so far
    interestAccrued: real,  // cumulative interest so far
    balance: real
  )

  /** The bounds the input widgets put on one scenario. */
  predicate ValidInputs(pv: real, pmt: real, rAnnual: real, years: int) {
    0.0 <= pv && 0.0 <= pmt && 0.0 <= rAnnual <= 1.0 && 1 <= years <= 60
  }

  function MonthlyRate(rAnnual: real): real {
    rAnnual / 12.0
  }

  /** The year a 1-based month falls in (integer division, as Python's `//` on non-negative values). */
  function YearOf(month: nat): nat
    requires month >= 1
  {
    (month - 1) / 12 + 1
  }

  /** Balance at the end of month m: interest on the pre-deposit balance first, then the deposit. */
  function Balance(pv: real, pmt: real, rm: real, m: nat): real {
    if m == 0 then pv
    else
      var before := Balance(pv, pmt, rm, m - 1);
      var interest := before * rm;
      before + interest + pmt
  }

  /** Interest earned in month m, on the balance carried in from month m - 1. */
  function MonthInterest(pv: real, pmt: real, rm: real, m: nat): real
    requires m >= 1
  {
    Balance(pv, pmt, rm, m - 1) * rm
  }

  /** Running total of the interest of months 1..m. */
  function TotalInterest(pv: real, pmt: real, rm: real, m: nat): real {
    if m == 0 then 0.0 else TotalInterest(pv, pmt, rm, m - 1) + MonthInterest(pv, pmt, rm, m)
  }

  /** Running total of the deposits of months 1..m. */
  function TotalContribution(pmt: real, m: nat): real {
    if m == 0 then 0.0 else TotalContribution(pmt, m - 1) + pmt
  }

  /** The row emitted for month m. */
  function Row(pv: real, pmt: real, rm: real, m: nat): LedgerRow
    requires m >= 1
  {
    LedgerRow(m, YearOf(m), TotalContribution(pmt, m), TotalInterest(pv, pmt, rm, m), Balance(pv, pmt, rm, m))
  }

  /** The rows of months 1..n, in month order. */
  function LedgerUpTo(pv: real, pmt: real, rm: real, n: nat): (rows: seq<LedgerRow>)
    ensures |rows| == n
    ensures forall i :: 0 <= i < n ==> rows[i] == Row(pv, pmt, rm, i + 1)
  {
    if n == 0 then [] else LedgerUpTo(pv, pmt, rm, n - 1) + [Row(pv, pmt, rm, n)]
  }

  /** The whole ledger of a scenario: years * 12 rows. */
  function Ledger(pv: real, pmt: real, rAnnual: real, years: nat): seq<LedgerRow> {
    LedgerUpTo(pv, pmt, MonthlyRate(rAnnual), years * 12)
  }

  // ---------------------------------------------------------------------------
  // Per-month facts

  /** The cumulative contribution after m months is m deposits. */
  lemma {:induction false} ContributionIsLinear(pmt: real, m: nat)
    ensures TotalContribution(pmt, m) == m as real * pmt
  {
    if m > 0 {
      ContributionIsLinear(pmt, m - 1);
      assert (m - 1) as real * pmt + pmt == m as real * pmt;
    }
  }

  /** The compounding recurrence: grow by one month's rate, then deposit. */
  lemma BalanceRecurrence(pv: real, pmt: real, rm: real, m: nat)
    requires m >= 1
    ensures Balance(pv, pmt, rm, m) == Balance(pv, pmt, rm, m - 1) * (1.0 + rm) + pmt
    ensures Balance(pv, pmt, rm, m) == Balance(pv, pmt, rm, m - 1) + MonthInterest(pv, pmt, rm, m) + pmt
  {
  }

  /** Conservation: the balance is the opening balance plus all deposits plus all interest. */
  lemma {:induction false} Conservation(pv: real, pmt: real, rm: real, m: nat)
    ensures Balance(pv, pmt, rm, m) == pv + TotalContribution(pmt, m) + TotalInterest(pv, pmt, rm, m)
  {
    if m > 0 {
      Conservation(pv, pmt, rm, m - 1);
    }
  }

  /** At a zero rate no interest accrues and the balance is the opening balance plus m deposits. */
  lemma {:induction false} ZeroRate(pv: real, pmt: real, m: nat)
    ensures TotalInterest(pv, pmt, 0.0, m) == 0.0
    ensures Balance(pv, pmt, 0.0, m) == pv + m as real * pmt
  {
    if m > 0 {
      ZeroRate(pv, pmt, m - 1);
      assert (m - 1) as real * pmt + pmt == m as real * pmt;
    }
  }

  /** With non-negative inputs the balance never falls below the opening balance, and interest is non-negative. */
  lemma {:induction false} NonNegative(pv: real, pmt: real, rm: real, m: nat)
    requires 0.0 <= pv && 0.0 <= pmt && 0.0 <= rm
    ensures pv <= Balance(pv, pmt, rm, m)
    ensures 0.0 <= TotalInterest(pv, pmt, rm, m)
    ensures m >= 1 ==> 0.0 <= MonthInterest(pv, pmt, rm, m)
  {
    if m > 0 {
      NonNegative(pv, pmt, rm, m - 1);
      var before := Balance(pv, pmt, rm, m - 1);
      assert 0.0 <= before * rm;
    }
  }

  /** With non-negative inputs the balance and the accrued interest never decrease from month to month. */
  lemma {:induction false} Monotone(pv: real, pmt: real, rm: real, i: nat, j: nat)
    requires 0.0 <= pv && 0.0 <= pmt && 0.0 <= rm
    requires i <= j
    ensures Balance(pv, pmt, rm, i) <= Balance(pv, pmt, rm, j)
    ensures TotalInterest(pv, pmt, rm, i) <= TotalInterest(pv, pmt, rm, j)
  {
    if i < j {
      Monotone(pv, pmt, rm, i, j - 1);
      NonNegative(pv, pmt, rm, j);
      NonNegative(pv, pmt, rm, j - 1);
    }
  }

  /** A 1-based month falls in year y exactly when its 0-based index lies in [12(y-1), 12y). */
  lemma YearOfMonth(i: nat, y: int)
    ensures YearOf(i + 1) == y <==> 12 * (y - 1) <= i < 12 * y
  {
    var q, r := i / 12, i % 12;
    assert i == 12 * q + r && 0 <= r < 12;
    assert YearOf(i + 1) == q + 1;
  }

  // ---------------------------------------------------------------------------
  // Closed form

  function Pow(g: real, m: nat): real {
    if m == 0 then 1.0 else g * Pow(g, m - 1)
  }

  /** g^0 + g^1 + ... + g^(m-1). */
  function GeomSum(g: real, m: nat): real {
    if m == 0 then 0.0 else GeomSum(g, m - 1) + Pow(g, m - 1)
  }

  lemma {:induction false} GeomSumStep(g: real, m: nat)
    ensures GeomSum(g, m) * g + 1.0 == GeomSum(g, m + 1)
  {
    if m > 0 {
      GeomSumStep(g, m - 1);
      calc {
        GeomSum(g, m) * g + 1.0;
        (GeomSum(g, m - 1) + Pow(g, m - 1)) * g + 1.0;
        (GeomSum(g, m - 1) * g + 1.0) + g * Pow(g, m - 1);
        GeomSum(g, m) + Pow(g, m);
      }
    }
  }

  /** The geometric sum telescopes: (g - 1) * (g^0 + ... + g^(m-1)) == g^m - 1. */
  lemma {:induction false} GeomSumTelescopes(g: real, m: nat)
    ensures GeomSum(g, m) * (g - 1.0) == Pow(g, m) - 1.0
  {
    if m > 0 {
      GeomSumTelescopes(g, m - 1);
      calc {
        GeomSum(g, m) * (g - 1.0);
        GeomSum(g, m - 1) * (g - 1.0) + Pow(g, m - 1) * (g - 1.0);
        Pow(g, m - 1) - 1.0 + g * Pow(g, m - 1) - Pow(g, m - 1);
        Pow(g, m) - 1.0;
      }
    }
  }

  /** One month of the recurrence applied to the closed form (pure algebra over reals). */
  lemma ClosedFormStep(pv: real, pmt: real, g: real, b: real, p: real, s: real)
    requires b == pv * p + pmt * s
    ensures b * g + pmt == pv * (g * p) + pmt * (s * g + 1.0)
  {
    calc {
      b * g + pmt;
      (pv * p + pmt * s) * g + pmt;
      pv * (p * g) + pmt * (s * g) + pmt;
      pv * (g * p) + pmt * (s * g + 1.0);
    }
  }

  /** The balance is the opening balance compounded m times plus every deposit compounded for the months after it. */
  lemma {:induction false} ClosedForm(pv: real, pmt: real, rm: real, m: nat)
    ensures Balance(pv, pmt, rm, m) == pv * Pow(1.0 + rm, m) + pmt * GeomSum(1.0 + rm, m)
  {
    if m > 0 {
      var g := 1.0 + rm;
      ClosedForm(pv, pmt, rm, m - 1);
      GeomSumStep(g, m - 1);
      BalanceRecurrence(pv, pmt, rm, m);
      ClosedFormStep(pv, pmt, g, Balance(pv, pmt, rm, m - 1), Pow(g, m - 1), GeomSum(g, m - 1));
    }
  }

  /** The textbook future value of an opening balance pv and an end-of-month deposit
      pmt after n months at a positive monthly rate rm. */
  function FutureValue(pv: real, pmt: real, rm: real, n: nat): real
    requires rm > 0.0
  {
    pv * Pow(1.0 + rm, n) + pmt * (Pow(1.0 + rm, n) - 1.0) / rm
  }

  /** For a positive rate the schedule's balance is the textbook future value. */
  lemma AnnuityForm(pv: real, pmt: real, rm: real, m: nat)
    requires rm > 0.0
    ensures Balance(pv, pmt, rm, m) == FutureValue(pv, pmt, rm, m)
  {
    var b, p, s := Balance(pv, pmt, rm, m), Pow(1.0 + rm, m), GeomSum(1.0 + rm, m);
    ClosedForm(pv, pmt, rm, m);
    GeomSumTelescopes(1.0 + rm, m);
    AnnuityStep(pv, pmt, rm, b, p, s);
    FutureValueOf(pv, pmt, rm, m, p, b);
  }

  lemma FutureValueOf(pv: real, pmt: real, rm: real, m: nat, p: real, b: real)
    requires rm > 0.0 && p == Pow(1.0 + rm, m) && b == pv * p + pmt * (p - 1.0) / rm
    ensures FutureValue(pv, pmt, rm, m) == b
  {
  }

  /** Replacing the geometric sum by (p - 1) / rm (pure algebra over reals). */
  lemma AnnuityStep(pv: real, pmt: real, rm: real, b: real, p: real, s: real)
    requires rm > 0.0
    requires b == pv * p + pmt * s
    requires s * ((1.0 + rm) - 1.0) == p - 1.0
    ensures b == pv * p + pmt * (p - 1.0) / rm
  {
    assert s * rm == p - 1.0;
    assert (pmt * s) * rm == pmt * (p - 1.0);
    assert pmt * s == pmt * (p - 1.0) / rm;
  }

  /** Without deposits the balance is pure compounding of the opening balance. */
  lemma ZeroContribution(pv: real, rm: real, m: nat)
    ensures Balance(pv, 0.0, rm, m) == pv * Pow(1.0 + rm, m)
  {
    ClosedForm(pv, 0.0, rm, m);
  }
}
