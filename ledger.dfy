/** Facts about a whole scenario ledger: its shape (length, month and year
    columns) and the amounts in each row relative to the row before. */
module LedgerFacts {
  import opened Schedule

  /** The ledger has years * 12 rows, row i is month i + 1, and every year lies in 1..years. */
  lemma LedgerShape(pv: real, pmt: real, rAnnual: real, years: nat)
    ensures |Ledger(pv, pmt, rAnnual, years)| == years * 12
    ensures forall i :: 0 <= i < |Ledger(pv, pmt, rAnnual, years)| ==>
      Ledger(pv, pmt, rAnnual, years)[i].month == i + 1
    ensures forall i :: 0 <= i < |Ledger(pv, pmt, rAnnual, years)| ==>
      1 <= Ledger(pv, pmt, rAnnual, years)[i].year <= years
  {
    var rows := Ledger(pv, pmt, rAnnual, years);
    forall i | 0 <= i < |rows|
      ensures 1 <= rows[i].year <= years
    {
      YearOfMonth(i, rows[i].year);
      assert i < 12 * years;
    }
  }

  /** Year y covers exactly the twelve consecutive rows 12(y-1) .. 12y-1. */
  lemma YearBlock(pv: real, pmt: real, rAnnual: real, years: nat, y: int)
    ensures forall i :: 0 <= i < |Ledger(pv, pmt, rAnnual, years)| ==>
      (Ledger(pv, pmt, rAnnual, years)[i].year == y <==> 12 * (y - 1) <= i < 12 * y)
  {
    var rows := Ledger(pv, pmt, rAnnual, years);
    forall i | 0 <= i < |rows|
      ensures rows[i].year == y <==> 12 * (y - 1) <= i < 12 * y
    {
      YearOfMonth(i, y);
    }
  }

  /** Row i holds i + 1 deposits, and its balance is the opening balance plus its two running totals. */
  lemma LedgerAmounts(pv: real, pmt: real, rAnnual: real, years: nat)
    ensures forall i :: 0 <= i < |Ledger(pv, pmt, rAnnual, years)| ==>
      Ledger(pv, pmt, rAnnual, years)[i].contribution == (i + 1) as real * pmt
    ensures forall i :: 0 <= i < |Ledger(pv, pmt, rAnnual, years)| ==>
      Ledger(pv, pmt, rAnnual, years)[i].balance
        == pv + Ledger(pv, pmt, rAnnual, years)[i].contribution + Ledger(pv, pmt, rAnnual, years)[i].interestAccrued
  {
    var rows := Ledger(pv, pmt, rAnnual, years);
    forall i | 0 <= i < |rows|
      ensures rows[i].contribution == (i + 1) as real * pmt
      ensures rows[i].balance == pv + rows[i].contribution + rows[i].interestAccrued
    {
      ContributionIsLinear(pmt, i + 1);
      Conservation(pv, pmt, MonthlyRate(rAnnual), i + 1);
    }
  }

  /** The first row: interest on the opening balance at rAnnual / 12, then one deposit. */
  lemma LedgerFirstRow(pv: real, pmt: real, rAnnual: real, years: nat)
    requires years >= 1
    ensures |Ledger(pv, pmt, rAnnual, years)| > 0
    ensures Ledger(pv, pmt, rAnnual, years)[0].interestAccrued == pv * MonthlyRate(rAnnual)
    ensures Ledger(pv, pmt, rAnnual, years)[0].contribution == pmt
    ensures Ledger(pv, pmt, rAnnual, years)[0].balance == pv * (1.0 + MonthlyRate(rAnnual)) + pmt
  {
    var rm := MonthlyRate(rAnnual);
    var first := Ledger(pv, pmt, rAnnual, years)[0];
    assert first == Row(pv, pmt, rm, 1);
    BalanceRecurrence(pv, pmt, rm, 1);
    assert TotalInterest(pv, pmt, rm, 1) == MonthInterest(pv, pmt, rm, 1) == pv * rm;
    assert TotalContribution(pmt, 1) == TotalContribution(pmt, 0) + pmt == pmt;
  }

  /** Each later row follows from the one before: interest on the previous balance at
      rAnnual / 12 is added to the running interest, then one deposit is added. */
  lemma LedgerRecurrence(pv: real, pmt: real, rAnnual: real, years: nat)
    ensures forall i, j :: 0 <= i && j == i + 1 && j < |Ledger(pv, pmt, rAnnual, years)| ==>
      Ledger(pv, pmt, rAnnual, years)[j].interestAccrued
        == Ledger(pv, pmt, rAnnual, years)[i].interestAccrued + Ledger(pv, pmt, rAnnual, years)[i].balance * MonthlyRate(rAnnual) &&
      Ledger(pv, pmt, rAnnual, years)[j].contribution == Ledger(pv, pmt, rAnnual, years)[i].contribution + pmt &&
      Ledger(pv, pmt, rAnnual, years)[j].balance == Ledger(pv, pmt, rAnnual, years)[i].balance * (1.0 + MonthlyRate(rAnnual)) + pmt
  {
    var rows := Ledger(pv, pmt, rAnnual, years);
    var rm := MonthlyRate(rAnnual);
    forall i, j | 0 <= i && j == i + 1 && j < |rows|
      ensures rows[j].interestAccrued == rows[i].interestAccrued + rows[i].balance * rm
      ensures rows[j].contribution == rows[i].contribution + pmt
      ensures rows[j].balance == rows[i].balance * (1.0 + rm) + pmt
    {
      RowStep(pv, pmt, rm, j, rows[i], rows[j]);
    }
  }

  /** Row m + 1 from row m. */
  lemma RowStep(pv: real, pmt: real, rm: real, m: nat, prev: LedgerRow, row: LedgerRow)
    requires m >= 1 && prev == Row(pv, pmt, rm, m) && row == Row(pv, pmt, rm, m + 1)
    ensures row.interestAccrued == prev.interestAccrued + prev.balance * rm
    ensures row.contribution == prev.contribution + pmt
    ensures row.balance == prev.balance * (1.0 + rm) + pmt
  {
    BalanceRecurrence(pv, pmt, rm, m + 1);
  }

  /** At a zero annual rate no row accrues interest and row i holds pv plus i + 1 deposits. */
  lemma LedgerZeroRate(pv: real, pmt: real, years: nat)
    ensures forall i :: 0 <= i < |Ledger(pv, pmt, 0.0, years)| ==>
      Ledger(pv, pmt, 0.0, years)[i].interestAccrued == 0.0 &&
      Ledger(pv, pmt, 0.0, years)[i].balance == pv + (i + 1) as real * pmt
  {
    var rows := Ledger(pv, pmt, 0.0, years);
    assert MonthlyRate(0.0) == 0.0;
    forall i | 0 <= i < |rows|
      ensures rows[i].interestAccrued == 0.0 && rows[i].balance == pv + (i + 1) as real * pmt
    {
      ZeroRate(pv, pmt, i + 1);
    }
  }

  /** With non-negative inputs balances and accrued interest are non-negative and never decrease down the ledger. */
  lemma LedgerMonotone(pv: real, pmt: real, rAnnual: real, years: nat)
    requires 0.0 <= pv && 0.0 <= pmt && 0.0 <= rAnnual
    ensures forall i :: 0 <= i < |Ledger(pv, pmt, rAnnual, years)| ==>
      0.0 <= Ledger(pv, pmt, rAnnual, years)[i].balance &&
      0.0 <= Ledger(pv, pmt, rAnnual, years)[i].interestAccrued
    ensures forall i, j :: 0 <= i <= j < |Ledger(pv, pmt, rAnnual, years)| ==>
      Ledger(pv, pmt, rAnnual, years)[i].balance <= Ledger(pv, pmt, rAnnual, years)[j].balance &&
      Ledger(pv, pmt, rAnnual, years)[i].interestAccrued <= Ledger(pv, pmt, rAnnual, years)[j].interestAccrued
  {
    var rows := Ledger(pv, pmt, rAnnual, years);
    var rm := MonthlyRate(rAnnual);
    forall i | 0 <= i < |rows|
      ensures 0.0 <= rows[i].balance && 0.0 <= rows[i].interestAccrued
    {
      NonNegative(pv, pmt, rm, i + 1);
    }
    forall i, j | 0 <= i <= j < |rows|
      ensures rows[i].balance <= rows[j].balance && rows[i].interestAccrued <= rows[j].interestAccrued
    {
      Monotone(pv, pmt, rm, i + 1, j + 1);
    }
  }

  /** The default scenario (20000 opening, 700 a month, 6% a year, 15 years):
      180 rows, and the first month earns 100 of interest and ends at 20800. */
  lemma DefaultScenario()
    ensures |Ledger(20000.0, 700.0, 0.06, 15)| == 180
    ensures Ledger(20000.0, 700.0, 0.06, 15)[0] == LedgerRow(1, 1, 700.0, 100.0, 20800.0)
    ensures Ledger(20000.0, 700.0, 0.06, 15)[179].month == 180
    ensures Ledger(20000.0, 700.0, 0.06, 15)[179].year == 15
  {
    LedgerFirstRow(20000.0, 700.0, 0.06, 15);
  }
}
