# tbills-scraper core in Dafny

A model of the analytical and validation core of `src/tbills.py` from the
tbills-scraper project, which scrapes U.S. Treasury bill quotes, stores them
in an Athena/S3 table and derives break-even yields between tenors.

What is modelled:

- **`AWSSettings` field validators** (module `Settings`): the Athena output
  uri check and normalisation, the S3 table-bucket (subcatalog) naming
  rules, and the database/table identifier rules, with Python's
  `str.strip()` (module `Text`) and the three regular expressions written
  out as predicates. Each validator returns the cleaned value or the reason
  the source raises `ValueError` for, checked in the source's order.
- **SQL literal building** (module `SqlLiterals`):
  `TreasuryBillScraper._format_python_value` for `None`, `int`, `date` and
  `str` values, and `_values_clause`, which joins one parenthesised group
  per row with `",\n"`. Each literal is proved to read back as the value it
  came from.
- **Horizon arithmetic** (module `Accumulation`): the split of a horizon
  into full rolls of a tenor plus a stub, and the accumulation factor
  `(1 + y*m/dc)^k * (1 + y*r/dc)` of one unit rolled at a constant
  coupon-equivalent yield (CEY). Its monotonicity in the yield is proved,
  so a feasible break-even yield is unique.
- **The break-even solver** (module `BreakEven`): the control flow of
  `_solve_y_be_self_consistent_against_accumulation_level`. The symbolic and
  numeric solvers of SymPy are an abstract `RootFinder`. The model fixes
  which solver is asked, in which order the three seeds are tried, what
  feasibility filter a root must pass, and which solver failures are caught
  (those of `nsolve`) and which escape (those of `solve`, of `float` on its
  first solution and of `float` on the initial guess).
- **The break-even table** (modules `BreakEvenTable` and `Analytics`):
  `TreasuryBillAnalytics` as a class. Its constructor checks the columns,
  builds the tenor-to-yield map and sorts the tenors.
  `compute_break_even_rates` runs the nested pair loops. The table is
  proved to hold exactly one expected row per qualifying pair, already in
  the order the final sort asks for. The computation is proved to fail with
  `SolverRaised` exactly when the solver raises for some pair it is asked
  about, and otherwise with `NoRowsToSort` exactly when no pair yields a row.

Yields are exact reals (`real`), not IEEE doubles. One attempt of the solver
ends in a `Solved` value: `Root(y)`, `NoRoot` for Python's `nan`, or
`Raised` for an exception the source does not catch (from `sympy.solve`,
from `float` of its first solution, or from `float` of the initial guess),
which ends `compute_break_even_rates` with `Failure(SolverRaised)`.

## Model

| member | source | states |
|---|---|---|
| Text.StripLeft | src/tbills.py:147 | the result is a suffix of the input, everything cut off is whitespace, and the result does not start with whitespace |
| Text.StripRight | src/tbills.py:147 | the result is a prefix of the input, everything cut off is whitespace, and the result does not end with whitespace |
| Text.Strip | src/tbills.py:147 | the result is a slice of the input; only whitespace was cut from either end; neither end of the result is whitespace |
| Text.StripFixed | src/tbills.py:213 | a name with no whitespace at either end is returned unchanged by the strip |
| Text.NatToStringRoundTrip | src/tbills.py:358-359 | the decimal digits written for a non-negative integer read back as that integer |
| Text.ZeroPad | src/tbills.py:368-369 | the zero-padded field of an ISO date is digits only, at least the field width, and reads back as the number |
| Settings.MatchesLowerNumHyphen | src/tbills.py:32 | `^[a-z0-9-]+$`: at least one character, each a lowercase letter, a digit or a hyphen |
| Settings.MatchesStartEndAlnum | src/tbills.py:33 | `^[a-z0-9].*[a-z0-9]$`: at least two characters, a lowercase letter or digit at each end, no newline between them |
| Settings.MatchesLowerNumUnderscore | src/tbills.py:35 | `^[a-z0-9_]+$`: at least one character, each a lowercase letter, a digit or an underscore |
| Settings.ValidateS3Uri | src/tbills.py:98-121 | fails exactly when the uri lacks the `s3://` scheme; otherwise the result starts with the input, ends with `/`, is at most one character longer, and equals the input when it already ends with `/` |
| Settings.S3UriIdempotent | src/tbills.py:119-121 | validating an already validated uri gives the same uri back |
| Settings.NoUnderscoreOrPeriod | src/tbills.py:152-163 | a name that passed the `[a-z0-9-]` pattern holds no `_` and no `.` |
| Settings.NoHyphenOrPeriod | src/tbills.py:216-228 | a name that passed the `[a-z0-9_]` pattern holds no `-` and no `.` |
| Settings.ValidateCatalog | src/tbills.py:123-185 | accepts exactly the stripped names of 3 to 63 lowercase letters, digits and hyphens that start and end alphanumeric and carry no reserved prefix or suffix; returns the stripped name; the underscore/period error is never raised |
| Settings.ValidateIdentifier | src/tbills.py:187-234 | accepts exactly the stripped names of 2 to 255 lowercase letters, digits and underscores that start and end alphanumeric, with databases not starting with `aws`; returns the stripped name; the hyphen/period error is never raised |
| Settings.OneCharacterIdentifierRejected | src/tbills.py:214-223 | a one-character name passes the length check but always fails, at the boundary check if its character is allowed |
| Settings.DatabaseStricterThanTable | src/tbills.py:228-232 | a database name is accepted exactly when the same table name is and it does not start with `aws` |
| SqlLiterals.IntToString | src/tbills.py:358-359 | `str` of an integer is non-empty and starts with a minus sign exactly when the integer is negative |
| SqlLiterals.IntToStringRoundTrip | src/tbills.py:358-359 | the literal of any integer, negative ones included, is read back as that integer by a reader that accepts only the canonical form (no leading zeros, no `-0`) |
| SqlLiterals.IsoDate | src/tbills.py:368-369 | `isoformat()` is ten characters with hyphens at positions 4 and 7, and its year, month and day fields are digits that read back as the date's parts |
| SqlLiterals.DateLiteral | src/tbills.py:368-369 | a `DATE 'YYYY-MM-DD'` literal of 17 characters whose fixed-position digit fields read back as the year, month and day |
| SqlLiterals.DoubleQuotes | src/tbills.py:371 | doubling the quotes never shortens the text and leaves a quote-free string unchanged |
| SqlLiterals.DoubleQuotesAddsNothing | src/tbills.py:371 | doubling the quotes adds no character that was not already in the text |
| SqlLiterals.ScanDoubledQuotes | src/tbills.py:371-372 | after the doubled text and a closing quote, the scanner reads back the original string and stops right after that quote, unless what follows starts with a quote |
| SqlLiterals.QuotedLiteral | src/tbills.py:371-372 | the quoted string literal reads back as the original string, quotes included |
| SqlLiterals.FormatValue | src/tbills.py:355-372 | `None` gives `NULL`; an integer, a date or a string gives a literal that reads back as that value |
| SqlLiterals.FieldReadBack | src/tbills.py:355-372 | each value's literal, followed by a field separator or a closing parenthesis, is read back as that value with the rest left over |
| SqlLiterals.GroupReadBack | src/tbills.py:389-394 | the parenthesised group of a row's four literals separated by commas reads back as that row, with the rest left over |
| SqlLiterals.RowLiteral | src/tbills.py:388-395 | a row's group reads back as exactly that row whatever text follows it |
| SqlLiterals.RowLiterals | src/tbills.py:387-396 | one group per row |
| SqlLiterals.RowLiteralsAt | src/tbills.py:387-396 | group `i` is the literal of row `i`, so the groups keep the row order |
| SqlLiterals.Join | src/tbills.py:397 | `sep.join(parts)`: nothing for no parts, the part itself for one, otherwise the parts with the separator between neighbours |
| SqlLiterals.JoinSplit | src/tbills.py:397 | cutting the parts anywhere cuts the joined text at one separator between the joins of the two halves |
| SqlLiterals.JoinShape | src/tbills.py:397 | the joined text starts with the first part, ends with the last, and has exactly one separator at every cut between neighbouring parts |
| SqlLiterals.JoinLength | src/tbills.py:397 | the joined text is as long as the parts together plus one separator per pair of neighbours |
| SqlLiterals.GroupsReadBack | src/tbills.py:387-397 | a non-empty list of groups that each read back as their row, joined by a comma and a newline, read back as exactly those rows in order |
| SqlLiterals.ValuesReadBack | src/tbills.py:387-397 | the joined groups of the rows read back as exactly the rows, and are empty exactly when there are no rows |
| SqlLiterals.ValuesClause | src/tbills.py:374-397 | the clause is the row groups, in order, joined by a comma and a newline; it reads back as exactly the rows; it is empty exactly when there are no rows |
| Accumulation.Decompose | src/tbills.py:660-682 | full rolls times tenor plus stub is the horizon; the stub is shorter than one tenor; a non-negative horizon gives no full roll exactly when the tenor exceeds it |
| Accumulation.DecomposeUnique | src/tbills.py:680-682 | any split of the horizon into rolls plus a stub shorter than a tenor is the one computed |
| Accumulation.GrowthIncreasing | src/tbills.py:719-721 | per-period growth is non-decreasing in the yield, and strictly increasing over a period of positive length |
| Accumulation.StubGrowthPositive | src/tbills.py:853-856 | positive growth over a full roll implies positive growth over the shorter stub, so the source's second feasibility test never rejects a root the first accepted |
| Accumulation.AccumulationFactor | src/tbills.py:684-723 | without a stub the factor is the per-roll growth raised to the number of full rolls |
| Accumulation.FactorAtZeroYield | src/tbills.py:684-723 | at a zero yield the factor is 1 |
| Accumulation.FactorAtLeastOne | src/tbills.py:684-723 | a non-negative yield gives a factor of at least 1 |
| Accumulation.FactorPositive | src/tbills.py:684-723 | a yield that passes the feasibility test gives a positive factor |
| Accumulation.FactorStrictlyIncreasing | src/tbills.py:684-723 | over a non-empty horizon, raising a feasible yield keeps it feasible and strictly raises the factor |
| Accumulation.FeasibleYieldUnique | src/tbills.py:684-723 | two feasible yields with the same factor are equal |
| Accumulation.LongLegTarget | src/tbills.py:725-756 | the long leg's target is the accumulation factor at the long tenor's observed yield, and at least 1 for a non-negative yield |
| BreakEven.Seeds | src/tbills.py:841 | three seeds: the guess, 0.02 below it, 0.02 above it, in that order |
| BreakEven.FirstFeasibleRoot | src/tbills.py:841-861 | a root the seed loop returns passes both feasibility tests |
| BreakEven.FirstFeasibleRootIsFirst | src/tbills.py:841-861 | the loop gives nothing exactly when no seed yields a feasible root; otherwise it gives the root of the first seed that does, every earlier seed having failed |
| BreakEven.ShortLegEquation | src/tbills.py:798-817 | the equation's left side is the accumulation factor of the short tenor over the horizon, at every yield |
| BreakEven.BreakEvenYield | src/tbills.py:758-861 | `NoRoot` (`nan`) when not one full roll fits; with a stub, any root is feasible |
| BreakEven.ClosedFormAnswer | src/tbills.py:820-832 | with at least one full roll and no stub, the answer is exactly the closed-form solver's outcome: its first solution, `NoRoot` when it has none, `Raised` when it raises |
| BreakEven.RaisedExactly | src/tbills.py:820-838 | the attempt raises exactly when a full roll fits and the branch's own solver step raises: `solve` (or `float` of its first solution) without a stub, `float` of the initial guess with one; `nsolve` failures never escape |
| BreakEven.BranchChoice | src/tbills.py:822-861 | without a stub the answer depends only on the closed-form solver; with a stub only on the guess and the numeric solver at the three seeds |
| BreakEven.SeedLoopDependsOnlyOnNsolve | src/tbills.py:841-858 | the seed loop's answer depends only on the numeric solver's results at the seeds |
| BreakEven.StubSeedOrder | src/tbills.py:834-861 | with a stub and a guess the attempt does not raise; the answer is the root of the first of the three seeds that gives a feasible root, and `NoRoot` when none does |
| BreakEven.AnswerSolvesEquation | src/tbills.py:758-861 | if the solvers return only roots, every root answer makes the short leg's accumulation equal the target |
| BreakEven.StubAnswerUnique | src/tbills.py:834-861 | with a stub and sound solvers, a root answer is the only feasible yield that solves the equation, whichever seed found it |
| BreakEvenTable.PairRow | src/tbills.py:906-935 | one pass of the inner loop: no row when the shorter tenor is not shorter or does not fit, otherwise the row of the solver's root, or none for `nan` |
| BreakEvenTable.ShorterRows | src/tbills.py:906-935 | the rows the inner loop has appended after its first `j` shorter tenors, in loop order |
| BreakEvenTable.LongerRows | src/tbills.py:893-935 | the rows for one longer tenor: none when it does not fit the horizon, otherwise the whole inner loop |
| BreakEvenTable.TableRows | src/tbills.py:893-935 | the rows the outer loop has appended after its first `i` longer tenors, in loop order |
| BreakEvenTable.ShorterRaisesExactly | src/tbills.py:906-919 | the inner loop for a longer tenor raises exactly when the solver raises for one of its first `j` pairs that pass both skips |
| BreakEvenTable.TableRaisesExactly | src/tbills.py:893-919 | the nested loops raise exactly when the solver raises for some pair of listed tenors that passes all three skips |
| BreakEvenTable.ShorterRowsSound | src/tbills.py:906-935 | every row of the inner loop is for a qualifying pair and is that pair's expected row |
| BreakEvenTable.ShorterRowsComplete | src/tbills.py:906-935 | every qualifying shorter tenor gets its row in the inner loop |
| BreakEvenTable.ShorterRowsOrdered | src/tbills.py:906-935 | the inner loop's rows are in strictly increasing shorter-tenor order |
| BreakEvenTable.LongerRowsSound | src/tbills.py:893-935 | every row for one longer tenor is for a qualifying pair with that longer tenor and is its expected row |
| BreakEvenTable.TableRowsSound | src/tbills.py:893-935 | every row of the nested loops is for a qualifying pair of listed tenors and is its expected row |
| BreakEvenTable.TableRowsComplete | src/tbills.py:893-935 | every qualifying pair of listed tenors gets its row |
| BreakEvenTable.TableRowsOrdered | src/tbills.py:893-939 | the rows come out in strictly increasing (longer, shorter) order, the key of the final sort |
| BreakEvenTable.BreakEvenTableCorrect | src/tbills.py:863-941 | the table holds exactly the expected rows of the qualifying pairs, each once, sorted by (longer, shorter) |
| Analytics.CeyByWeeks | src/tbills.py:645-655 | `dict(zip(maturity, yield_pct / 100))`: the decimal yield of each tenor, a later row overwriting an earlier one |
| Analytics.CeyByWeeksKeys | src/tbills.py:645-656 | the yield map has an entry for exactly the tenors in the table |
| Analytics.CeyByWeeksLastWins | src/tbills.py:645-656 | a tenor's yield is the percentage on its last row divided by 100 |
| Analytics.Insert | src/tbills.py:656 | inserting into a strictly increasing list keeps it strictly increasing, adds the key, and adds nothing else |
| Analytics.SortedKeys | src/tbills.py:656 | the result is strictly increasing and holds exactly the keys |
| Analytics.TreasuryBillAnalytics.constructor | src/tbills.py:613-658 | stores the table and the two bases; the yield map is the one built from the table; the tenor list is its keys in increasing order |
| Analytics.TreasuryBillAnalytics.SolveBreakEven | src/tbills.py:758-861 | the solver method returns exactly `BreakEvenYield`, including the early return from the seed loop and the escaping exceptions |
| Analytics.TreasuryBillAnalytics.PairRowsFor | src/tbills.py:906-935 | the inner loop for one longer tenor reports a raise exactly when one of its pairs raises, and otherwise appends exactly that tenor's rows |
| Analytics.TreasuryBillAnalytics.ComputeBreakEvenRates | src/tbills.py:863-941 | fails with `SolverRaised` exactly when the solver raises for some pair it is asked about; otherwise the result is the rows of `BreakEvenTableCorrect` over the sorted tenors, or the sort error when no pair qualifies |
| Analytics.NewAnalytics | src/tbills.py:636-643 | fails exactly when `maturity` or `yield_pct` is missing, with the non-empty set of missing names; otherwise a fresh, consistent analytics object over the table |

## Left out

- Scraping the Treasury page and parsing its CSV (`scrape_treasury_data`), all Athena and S3 calls (`_execute_query`, `_select_query`, `upsert_data`), and pydantic's loading of settings from the environment: these are network and service I/O.
- `_format_python_value` for `float` and `datetime`: Python's shortest float repr and time-zone conversion are not modelled. `bool`, which Python also treats as an `int`, is not a `SqlValue`.
- The numerics of SymPy (`solve`, `nsolve`, `simplify`, the real-power guess) and float rounding. `RootFinder` stands for them: for each equation it gives the closed-form result (a root, none, or a raise), the initial guess (or a raise), and the numeric root from each seed (or a caught failure). Lemmas that need roots to be roots take `BreakEven.Sound` as a hypothesis.
- The `decimals` argument of `compute_break_even_rates`: rows hold unrounded percentages.
- The polars data frame: the input table is its column names plus the `maturity` and `yield_pct` columns read row by row. The output table is a sequence of rows.
- Zero or negative tenors, and zero or negative day-count bases or days per week, are excluded by the methods' requires. Scraped maturities are the digits of a column name cast to an integer (src/tbills.py:326), so they are never negative. A zero tenor or zero days per week would make the source divide by zero in the horizon split. With a zero or negative day-count base and positive tenors, every longer tenor fails the fit test (src/tbills.py:895), no row is produced, and the final sort raises (src/tbills.py:937): the `NoRowsToSort` outcome, which the model does not derive for that input. A negative tenor would give a negative roll count under Python's floor division, the solver would return `nan`, and the source would skip that pair while still emitting rows for the others; the model does not cover that path.
- Analytics.TreasuryBillAnalytics.ComputeBreakEvenRates: when no pair qualifies, the source's `pl.from_dicts([]).sort(...)` finds no key columns and raises. The model returns `Failure(NoRowsToSort)` for that case rather than an empty table, following the code over the docstring's description of the return value.
- BreakEven.BreakEvenYield: the closed-form branch takes the first listed solution unfiltered, as the source does. So `AnswerSolvesEquation` holds for both branches, but feasibility is only promised with a stub.
- Error messages: each validator failure is an enum reason, not the message text; the solver's exceptions are the single reason `SolverRaised`.
- The Shiny app (`app/`) and the entry script (`main.py`) are not part of this model.
