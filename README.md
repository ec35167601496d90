# Savings growth simulator — a Dafny model

This project models the computational core of a small savings "what-if"
calculator. The calculator takes one scenario (an opening balance `pv`, a
monthly deposit `pmt`, an annual interest rate `r_annual` and a horizon in
whole years). It runs a month-by-month compound-interest schedule and
produces a ledger with one row per month. Each row holds the month, the
year, the cumulative deposits, the cumulative interest and the balance.
It then reads a summary off the last row: final balance, total
contributions, total interest, months and years.

The schedule follows the source exactly. Each month:

1. interest is taken on the balance carried in, at `r_annual / 12`;
2. the interest is added;
3. the deposit is added at month end;
4. both running totals are updated;
5. the row is appended.

Amounts are exact `real`s, not floating point.

Layout:

- `schedule.dfy`, module `Schedule`. This holds the ledger row (its fields
  are in the export column order Month, Year, Contribution, Interest
  Accrued, Balance) and the widget bounds as `ValidInputs`. It also holds
  the schedule as recurrence functions: `Balance`, `MonthInterest`,
  `TotalInterest`, `TotalContribution`, `Row`, `LedgerUpTo` and `Ledger`.
  The per-month lemmas live here too: linear contributions, conservation,
  the zero-rate case, non-negativity, monotonicity, and the year of a
  month. So does the closed form of the balance, with the future-value
  formula.
- `ledger.dfy`, module `LedgerFacts`. This holds the same facts stated
  row by row over a whole scenario ledger.
- `simulator.dfy`, module `Simulator`. `Simulate` is the month loop as an
  imperative method. Its loop invariants tie the locals `balance`,
  `totalContrib`, `totalInterest` and `rows` to the recurrence functions.
  `Summarize` is the summary, and lemmas about the summary of a simulated
  ledger sit beside it.

The simulator does no validation of its own. The input widgets bound
every scenario:

- `pv >= 0`
- `pmt >= 0`
- `0 <= r_annual <= 1`
- `years` an integer in `1..60`

`Simulate` requires exactly these bounds (`ValidInputs`). Each lemma
requires only what it needs. The summary lemmas need `years >= 1`. They
also need non-negative inputs where they state that interest is
non-negative, and a positive rate for the future-value formula. Because
`years` is an integer, `int(years * 12)` is `years * 12`.

## Model

| member | source | states |
|---|---|---|
| `Simulator.Simulate` | app.py:27-49 | The loop builds exactly the ledger of the recurrence. It has `years * 12` rows, and row i is month i+1 with a year in 1..years. Row i's contribution is (i+1)·pmt, and its balance is pv + contribution + interest accrued. |
| `Schedule.LedgerUpTo` | app.py:34-48 | The rows of months 1..n: exactly n rows, where row i is the row of month i+1, so months run 1, 2, … in order with no gaps. |
| `LedgerFacts.LedgerShape` | app.py:28-44 | The ledger has `years * 12` rows. Row i has Month i+1, and every Year lies between 1 and `years`. |
| `LedgerFacts.YearBlock` | app.py:44 | Year y is carried by exactly the twelve consecutive rows with indices 12(y-1) … 12y-1. |
| `Schedule.YearOfMonth` | app.py:44 | `(m-1) // 12 + 1 == y` holds exactly when the 0-based index m-1 lies in [12(y-1), 12y). |
| `Schedule.ContributionIsLinear` | app.py:40 | After m months the running contribution total is m·pmt. |
| `LedgerFacts.LedgerAmounts` | app.py:30-47 | In every row, Contribution is (i+1)·pmt, and Balance = pv + Contribution + Interest Accrued. |
| `Schedule.Conservation` | app.py:30-41 | The balance after m months equals the opening balance plus both running totals. |
| `LedgerFacts.LedgerFirstRow` | app.py:29-41 | The first row earns pv·r/12 in interest and holds one deposit. Its balance is pv·(1 + r/12) + pmt. |
| `LedgerFacts.LedgerRecurrence` | app.py:36-41 | Each later row adds the previous balance times r/12 to Interest Accrued and one deposit to Contribution. Its Balance is the previous Balance times (1 + r/12), plus pmt. |
| `LedgerFacts.RowStep` | app.py:36-41 | The row of month m+1 follows from the row of month m by the compounding step, with interest before the deposit. |
| `Schedule.ZeroRate` | app.py:29-41 | At rate 0 no interest accrues, and the balance after m months is pv + m·pmt. |
| `LedgerFacts.LedgerZeroRate` | app.py:29-41 | At `r_annual = 0` every row has Interest Accrued 0 and Balance pv + (i+1)·pmt. |
| `Schedule.NonNegative` | app.py:36-41 | With non-negative inputs, the balance never falls below pv, and monthly and accrued interest are non-negative. |
| `Schedule.Monotone` | app.py:36-41 | With non-negative inputs, the balance and the accrued interest never decrease from one month to a later one. |
| `LedgerFacts.LedgerMonotone` | app.py:36-41 | With non-negative inputs, every row's Balance and Interest Accrued are non-negative, and neither decreases down the ledger. |
| `Schedule.ClosedForm` | app.py:34-39 | The balance after m months is pv·g^m + pmt·(g^0 + … + g^(m-1)), with g = 1 + r/12. |
| `Schedule.GeomSumTelescopes` | app.py:34-39 | (g - 1)·(g^0 + … + g^(m-1)) = g^m - 1. This is the step that turns the closed form into the future-value formula. |
| `Schedule.AnnuityForm` | app.py:34-39 | For a positive monthly rate, the balance after m months is the future value pv·g^m + pmt·(g^m - 1)/rm. |
| `Schedule.ZeroContribution` | app.py:36-39 | Without deposits the balance is pure compounding, pv·(1 + rm)^m. |
| `LedgerFacts.DefaultScenario` | app.py:13-16 | With the default inputs (20000, 700, 0.06, 15) the ledger has 180 rows. The first row is (1, 1, 700, 100, 20800), and the last row is month 180 of year 15. |
| `Simulator.Summarize` | app.py:54-60 | A summary exists exactly when the ledger has a last row. |
| `Simulator.SummaryIsLastRow` | app.py:54-58 | For any scenario of at least one year, the summary holds the last month's balance, contribution total and interest total, `years * 12` months and the input years. |
| `Simulator.SummaryOfSimulation` | app.py:53-60 | For non-negative inputs and at least one year, Months = `years * 12` and Total Contributions = `years * 12`·pmt. Final Balance = pv + Total Contributions + Total Interest, and Total Interest ≥ 0. |
| `Simulator.FinalBalance` | app.py:121-123 | The final balance is the opening balance grown over all `years * 12` months plus every deposit grown for the months after it. |
| `Simulator.FinalBalanceFutureValue` | app.py:121-123 | For a positive rate, the final balance is the future value pv·g^n + pmt·(g^n - 1)/rm, with rm = r/12, g = 1 + rm and n = `years * 12`. |
| `Simulator.DefaultScenarioSummary` | app.py:13-16 | The default scenario runs 180 months and deposits 126000. It ends at the future value of 20000 plus 700 a month at 0.5% a month over 180 months. |

## Left out

- Streamlit page layout, sidebar widgets, tabs, metrics, expander and captions are presentation. Only the widget bounds carry over, as `ValidInputs`.
- The Plotly charts and the pandas reshaping (`copy`, `concat`, `melt`) are rendering done in foreign libraries.
- CSV export is a pandas call. Only the column order Month, Year, Contribution, Interest Accrued, Balance is kept, as the field order of `LedgerRow`.
- The currency formatting of the metrics is display rounding.
- The model does not capture IEEE-754 rounding. The source computes in binary floating point; the model uses exact reals, so every identity holds exactly. In the source, conservation and the closed form hold only up to rounding.
- The data frame is not modelled. A `seq<LedgerRow>` stands in for the pandas data frame returned by `simulate`.
- Scenario B is not modelled separately. The comparison toggle runs `simulate` a second time on independent inputs. Ledgers here are immutable values, so the two runs cannot share state.
- Fractional years are not modelled. The widget only admits integers, so the truncation in `int(years * 12)` never applies.
- `Simulator.Summarize` returns `None` for an empty ledger. There the source builds a frame with no columns, and the column lookup on it fails. With `years >= 1` this never happens (`SummaryOfSimulation`).
- Rejecting out-of-range input is not modelled. The code does no validation, so the model states the widget bounds as a precondition.
