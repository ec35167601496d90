/** The growth simulator: the month loop that builds a scenario's ledger, and
    the summary read off the finished ledger. */
module Simulator {
  import opened Schedule
  import LedgerFacts

  datatype Option<T> = None | Some(value: T)

  /** The headline figures of one scenario. */
  datatype Summary = Summary(
    finalBalance: real,
    totalContributions: real,
    totalInterest: real,
    months: nat,
    years: int
  )

  /** Runs the schedule month by month, keeping the balance and the two running
      totals in locals and appending one row per month. */
  method Simulate(pv: real, pmt: real, rAnnual: real, years: int) returns (rows: seq<LedgerRow>)
    requires ValidInputs(pv, pmt, rAnnual, years)
    ensures rows == Ledger(pv, pmt, rAnnual, years)
    ensures |rows| == years * 12
    ensures forall i :: 0 <= i < |rows| ==> rows[i].month == i + 1 && 1 <= rows[i].year <= years
    ensures forall i :: 0 <= i < |rows| ==> rows[i].contribution == (i + 1) as real * pmt
    ensures forall i :: 0 <= i < |rows| ==> rows[i].balance == pv + rows[i].contribution + rows[i].interestAccrued
  {
    var n := years * 12;
    var rm := rAnnual / 12.0;
    var balance := pv;
    rows := [];
    var totalContrib := 0.0;
    var totalInterest := 0.0;
    for m := 1 to n + 1
      invariant balance == Balance(pv, pmt, rm, m - 1)
      invariant totalContrib == TotalContribution(pmt, m - 1)
      invariant totalInterest == TotalInterest(pv, pmt, rm, m - 1)
      invariant rows == LedgerUpTo(pv, pmt, rm, m - 1)
    {
      // interest accrues on the balance carried in, before the deposit
      var interest := balance * rm;
      balance := balance + interest;
      // deposit at month end
      balance := balance + pmt;
      totalContrib := totalContrib + pmt;
      totalInterest := totalInterest + interest;
      rows := rows + [LedgerRow(m, (m - 1) / 12 + 1, totalContrib, totalInterest, balance)];
    }
    LedgerFacts.LedgerShape(pv, pmt, rAnnual, years);
    LedgerFacts.LedgerAmounts(pv, pmt, rAnnual, years);
  }

  /** The summary of a ledger: the last row's balance and running totals, and the
      row count. An empty ledger yields no summary: the source builds a frame without
      columns from an empty row list, and the column lookup on it fails. */
  function Summarize(ledger: seq<LedgerRow>, years: int): (s: Option<Summary>)
    ensures s.Some? <==> ledger != []
  {
    if ledger == [] then None
    else
      var last := ledger[|ledger| - 1];
      Some(Summary(last.balance, last.contribution, last.interestAccrued, |ledger|, years))
  }

  /** The summary of any scenario with non-negative inputs exists and covers years * 12 months; its
      contributions are that many deposits, its final balance is the opening balance
      plus contributions plus interest, and its interest is non-negative. */
  lemma SummaryOfSimulation(pv: real, pmt: real, rAnnual: real, years: int)
    requires 0.0 <= pv && 0.0 <= pmt && 0.0 <= rAnnual && years >= 1
    ensures Summarize(Ledger(pv, pmt, rAnnual, years), years).Some?
    ensures Summarize(Ledger(pv, pmt, rAnnual, years), years).value.months == years * 12
    ensures Summarize(Ledger(pv, pmt, rAnnual, years), years).value.years == years
    ensures Summarize(Ledger(pv, pmt, rAnnual, years), years).value.totalContributions
      == (years * 12) as real * pmt
    ensures var s := Summarize(Ledger(pv, pmt, rAnnual, years), years).value;
      s.finalBalance == pv + s.totalContributions + s.totalInterest && 0.0 <= s.totalInterest
  {
    var n := years * 12;
    var rm := MonthlyRate(rAnnual);
    SummaryIsLastRow(pv, pmt, rAnnual, years);
    ContributionIsLinear(pmt, n);
    Conservation(pv, pmt, rm, n);
    NonNegative(pv, pmt, rm, n);
  }

  /** The final balance of any scenario of at least one year is the opening balance compounded over all
      n = years * 12 months plus every deposit compounded for the months after it. */
  lemma FinalBalance(pv: real, pmt: real, rAnnual: real, years: int)
    requires years >= 1
    ensures Summarize(Ledger(pv, pmt, rAnnual, years), years).Some?
    ensures Summarize(Ledger(pv, pmt, rAnnual, years), years).value.finalBalance
      == pv * Pow(1.0 + MonthlyRate(rAnnual), years * 12)
         + pmt * GeomSum(1.0 + MonthlyRate(rAnnual), years * 12)
  {
    SummaryIsLastRow(pv, pmt, rAnnual, years);
    ClosedForm(pv, pmt, MonthlyRate(rAnnual), years * 12);
  }

  /** For a positive rate the final balance is the textbook future value
      pv g^n + pmt (g^n - 1) / rm, with rm = rAnnual / 12, g = 1 + rm and n = years * 12. */
  lemma FinalBalanceFutureValue(pv: real, pmt: real, rAnnual: real, years: int)
    requires years >= 1 && rAnnual > 0.0
    ensures Summarize(Ledger(pv, pmt, rAnnual, years), years).Some?
    ensures Summarize(Ledger(pv, pmt, rAnnual, years), years).value.finalBalance
      == FutureValue(pv, pmt, MonthlyRate(rAnnual), years * 12)
  {
    SummaryIsLastRow(pv, pmt, rAnnual, years);
    AnnuityForm(pv, pmt, MonthlyRate(rAnnual), years * 12);
  }

  /** The summary of a scenario of at least one year is the row of its last month. */
  lemma SummaryIsLastRow(pv: real, pmt: real, rAnnual: real, years: int)
    requires years >= 1
    ensures Summarize(Ledger(pv, pmt, rAnnual, years), years)
      == var last := Row(pv, pmt, MonthlyRate(rAnnual), years * 12);
         Some(Summary(last.balance, last.contribution, last.interestAccrued, years * 12, years))
  {
    var rows := Ledger(pv, pmt, rAnnual, years);
    assert rows[years * 12 - 1] == Row(pv, pmt, MonthlyRate(rAnnual), years * 12);
  }

  /** The default scenario (20000 opening, 700 a month, 6% a year, 15 years) runs
      180 months, deposits 126000 in all, and ends at the future value of
      20000 and 700 a month at 0.5% a month over 180 months. */
  lemma DefaultScenarioSummary()
    ensures Summarize(Ledger(20000.0, 700.0, 0.06, 15), 15).Some?
    ensures Summarize(Ledger(20000.0, 700.0, 0.06, 15), 15).value.months == 180
    ensures Summarize(Ledger(20000.0, 700.0, 0.06, 15), 15).value.totalContributions == 126000.0
    ensures Summarize(Ledger(20000.0, 700.0, 0.06, 15), 15).value.finalBalance
      == FutureValue(20000.0, 700.0, 0.005, 180)
  {
    SummaryOfSimulation(20000.0, 700.0, 0.06, 15);
    FinalBalanceFutureValue(20000.0, 700.0, 0.06, 15);
  }
}
