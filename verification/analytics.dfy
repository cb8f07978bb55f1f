/** `TreasuryBillAnalytics`: the object built from the scraped quotes, with
    the tenor-to-yield map and the sorted tenor list its constructor fills
    in, the per-pair solver and the break-even table. The horizon is the
    day-count base, as in the source. */
module Analytics {
  import opened Wrappers
  import opened Accumulation
  import opened BreakEven
  import opened BreakEvenTable

  /** One row of the input table: tenor in weeks and yield in percent. */
  datatype Quote = Quote(maturity: int, yieldPct: real)

  /** The input table: the names of its columns, and the `maturity` and
      `yield_pct` columns read row by row. */
  datatype InputTable = InputTable(columns: set<string>, quotes: seq<Quote>)

  const RequiredColumns: set<string> := {"maturity", "yield_pct"}

  /** `dict(zip(maturity, yield_pct / 100))`: decimal yield by tenor; a tenor
      listed twice keeps its last yield. */
  function CeyByWeeks(quotes: seq<Quote>): map<int, real> {
    if quotes == [] then map[]
    else
      var last := quotes[|quotes| - 1];
      CeyByWeeks(quotes[..|quotes| - 1])[last.maturity := last.yieldPct / 100.0]
  }

  /** The map has an entry for exactly the listed tenors. */
  lemma {:induction false} CeyByWeeksKeys(quotes: seq<Quote>)
    ensures forall w :: w in CeyByWeeks(quotes) <==> exists i :: 0 <= i < |quotes| && quotes[i].maturity == w
  {
    if quotes != [] {
      var init := quotes[..|quotes| - 1];
      CeyByWeeksKeys(init);
      forall w | (exists i :: 0 <= i < |quotes| && quotes[i].maturity == w)
        ensures w in CeyByWeeks(quotes)
      {
        var i :| 0 <= i < |quotes| && quotes[i].maturity == w;
        if i < |quotes| - 1 { assert init[i] == quotes[i]; }
      }
      forall w | w in CeyByWeeks(quotes)
        ensures exists i :: 0 <= i < |quotes| && quotes[i].maturity == w
      {
        if w != quotes[|quotes| - 1].maturity {
          assert w in CeyByWeeks(init);
          var i :| 0 <= i < |init| && init[i].maturity == w;
          assert quotes[i] == init[i];
        }
      }
    }
  }

  /** A tenor's yield is the one on its last row, converted to a decimal. */
  lemma {:induction false} CeyByWeeksLastWins(quotes: seq<Quote>, i: nat)
    requires i < |quotes|
    requires forall j :: i < j < |quotes| ==> quotes[j].maturity != quotes[i].maturity
    ensures quotes[i].maturity in CeyByWeeks(quotes)
    ensures CeyByWeeks(quotes)[quotes[i].maturity] == quotes[i].yieldPct / 100.0
  {
    if i < |quotes| - 1 {
      var init := quotes[..|quotes| - 1];
      assert init[i] == quotes[i];
      CeyByWeeksLastWins(init, i);
    }
  }

  /** `x` put into its place in a strictly increasing sequence; already
      present, it is not added again. */
  function Insert(s: seq<int>, x: int): (r: seq<int>)
    requires StrictlyIncreasing(s)
    ensures StrictlyIncreasing(r)
    ensures forall w :: w in r <==> w in s || w == x
  {
    if s == [] then [x]
    else if x < s[0] then [x] + s
    else if x == s[0] then s
    else
      var t := Insert(s[1..], x);
      assert forall w :: w in t ==> s[0] < w by {
        forall w | w in t ensures s[0] < w {
          if w != x {
            var k :| 0 <= k < |s[1..]| && s[1..][k] == w;
            assert s[k + 1] == w;
          }
        }
      }
      var r := [s[0]] + t;
      forall i, j | 0 <= i < j < |r| ensures r[i] < r[j] {
        assert r[j] == t[j - 1] && t[j - 1] in t;
        if i > 0 { assert r[i] == t[i - 1]; }
      }
      r
  }

  /** `sorted(keys)`: the keys in strictly increasing order. */
  method SortedKeys(keys: seq<int>) returns (sorted: seq<int>)
    ensures StrictlyIncreasing(sorted)
    ensures forall w :: w in sorted <==> w in keys
  {
    sorted := [];
    for n := 0 to |keys|
      invariant StrictlyIncreasing(sorted)
      invariant forall w :: w in sorted <==> w in keys[..n]
    {
      assert keys[..n + 1] == keys[..n] + [keys[n]];
      sorted := Insert(sorted, keys[n]);
    }
    assert keys[..|keys|] == keys;
  }

  /** Why the table is not produced: the empty table cannot be sorted by its
      key columns (a frame built from no rows has no columns), or a solver
      step the source does not guard raised. */
  datatype TableError = NoRowsToSort | SolverRaised

  class TreasuryBillAnalytics {
    var data: InputTable
    var dayCountBase: int
    var daysPerWeek: int
    var ceyByWeeks: map<int, real>
    var availableTenorsWeeks: seq<int>

    /** The yield map is built from the table, and the tenor list is its
        keys in increasing order. */
    ghost predicate Valid()
      reads this
    {
      && ceyByWeeks == CeyByWeeks(data.quotes)
      && StrictlyIncreasing(availableTenorsWeeks)
      && (forall w :: w in availableTenorsWeeks <==> w in ceyByWeeks)
    }

    /** `__init__` on a table that has both required columns. */
    constructor (inputTable: InputTable, dayCountBase: int, daysPerWeek: int)
      requires RequiredColumns <= inputTable.columns
      ensures Valid()
      ensures data == inputTable
      ensures this.dayCountBase == dayCountBase && this.daysPerWeek == daysPerWeek
    {
      var quotes := inputTable.quotes;
      var cey: map<int, real> := map[];
      var keys: seq<int> := [];
      for n := 0 to |quotes|
        invariant cey == CeyByWeeks(quotes[..n])
        invariant forall w :: w in keys <==> w in cey
      {
        assert quotes[..n + 1][..n] == quotes[..n];
        if quotes[n].maturity !in cey {
          keys := keys + [quotes[n].maturity];
        }
        cey := cey[quotes[n].maturity := quotes[n].yieldPct / 100.0];
      }
      assert quotes[..|quotes|] == quotes;
      var tenors := SortedKeys(keys);
      data := inputTable;
      this.dayCountBase := dayCountBase;
      this.daysPerWeek := daysPerWeek;
      ceyByWeeks := cey;
      availableTenorsWeeks := tenors;
    }

    /** `_solve_y_be_self_consistent_against_accumulation_level`, with the
        seed loop and its early return. */
    method SolveBreakEven(rf: RootFinder, target: real, shortTenorDays: int, horizonDays: int) returns (y: Solved)
      requires dayCountBase > 0 && shortTenorDays > 0
      ensures y == BreakEvenYield(rf, target, shortTenorDays, horizonDays, dayCountBase)
    {
      var rolls := Decompose(horizonDays, shortTenorDays);
      if rolls.full <= 0 {
        return NoRoot;
      }
      var eq := ShortLegEquation(target, shortTenorDays, horizonDays, dayCountBase);
      if rolls.stub == 0 {
        return rf.solve(eq);
      }
      var guess := rf.guess(eq);
      if guess.None? {
        return Raised;
      }
      var seeds := Seeds(guess.value);
      for i := 0 to |seeds|
        invariant FirstFeasibleRoot(rf, eq, seeds) == FirstFeasibleRoot(rf, eq, seeds[i..])
      {
        var root := rf.nsolve(eq, seeds[i]);
        if root.Some? && Growth(root.value, shortTenorDays, dayCountBase) > 0.0 &&
           Growth(root.value, rolls.stub, dayCountBase) > 0.0 {
          assert Accepted(rf, eq, seeds[i..][0]);
          return Root(root.value);
        }
        assert seeds[i..][1..] == seeds[i + 1..];
      }
      assert seeds[|seeds|..] == [];
      return NoRoot;
    }

    /** The inner loop of `compute_break_even_rates` for one longer tenor
        that fits the horizon, against its accumulation `target`; `raised`
        when the solver raised for one of its pairs, which ends the loop. */
    method PairRowsFor(rf: RootFinder, tenors: seq<int>, longer: int, target: real)
      returns (rows: seq<BreakEvenRow>, raised: bool)
      requires TableInputs(tenors, ceyByWeeks, dayCountBase, daysPerWeek)
      requires longer > 0 && longer in ceyByWeeks && longer * daysPerWeek <= dayCountBase
      requires target == LongLegTarget(ceyByWeeks[longer], longer * daysPerWeek, dayCountBase, dayCountBase)
      ensures raised == ShorterRaises(rf, tenors, ceyByWeeks, dayCountBase, daysPerWeek, longer, |tenors|)
      ensures !raised ==> rows == LongerRows(rf, tenors, ceyByWeeks, dayCountBase, daysPerWeek, longer)
    {
      rows := [];
      for j := 0 to |tenors|
        invariant !ShorterRaises(rf, tenors, ceyByWeeks, dayCountBase, daysPerWeek, longer, j)
        invariant rows == ShorterRows(rf, tenors, ceyByWeeks, dayCountBase, daysPerWeek, longer, j)
      {
        var shorter := tenors[j];
        ghost var pair := PairRow(rf, ceyByWeeks, dayCountBase, daysPerWeek, shorter, longer);
        if shorter >= longer {
          assert pair == [];
          continue;
        }
        var shortDays := shorter * daysPerWeek;
        if shortDays > dayCountBase {
          assert pair == [];
          continue;
        }
        var y := SolveBreakEven(rf, target, shortDays, dayCountBase);
        assert y == PairYield(rf, ceyByWeeks, dayCountBase, daysPerWeek, shorter, longer);
        if y == Raised {
          ShorterRaisesExactly(rf, tenors, ceyByWeeks, dayCountBase, daysPerWeek, longer, |tenors|);
          assert PairRaises(rf, ceyByWeeks, dayCountBase, daysPerWeek, tenors[j], longer);
          return rows, true;
        }
        if y.Root? {
          rows := rows + [RowOf(ceyByWeeks, shorter, longer, y.y)];
        }
      }
      raised := false;
    }

    /** `compute_break_even_rates` without the rounding: the nested pair
        loops, then the sort, which fails on an empty result. An exception
        from the solver ends the computation. */
    method ComputeBreakEvenRates(rf: RootFinder) returns (table: Result<seq<BreakEvenRow>, TableError>)
      requires Valid()
      requires dayCountBase > 0 && daysPerWeek > 0
      requires forall i :: 0 <= i < |availableTenorsWeeks| ==> availableTenorsWeeks[i] > 0
      ensures TableInputs(availableTenorsWeeks, ceyByWeeks, dayCountBase, daysPerWeek)
      ensures var rows := TableRows(rf, availableTenorsWeeks, ceyByWeeks, dayCountBase, daysPerWeek, |availableTenorsWeeks|);
              table == if TableRaises(rf, availableTenorsWeeks, ceyByWeeks, dayCountBase, daysPerWeek, |availableTenorsWeeks|)
                       then Failure(SolverRaised)
                       else if rows == [] then Failure(NoRowsToSort)
                       else Success(rows)
    {
      var tenors := availableTenorsWeeks;
      assert TableInputs(tenors, ceyByWeeks, dayCountBase, daysPerWeek) by {
        forall i | 0 <= i < |tenors| ensures tenors[i] in ceyByWeeks {
          assert tenors[i] in tenors;
        }
      }
      var results: seq<BreakEvenRow> := [];
      for i := 0 to |tenors|
        invariant !TableRaises(rf, tenors, ceyByWeeks, dayCountBase, daysPerWeek, i)
        invariant results == TableRows(rf, tenors, ceyByWeeks, dayCountBase, daysPerWeek, i)
      {
        var longer := tenors[i];
        var longDays := longer * daysPerWeek;
        if longDays > dayCountBase {
          assert LongerRows(rf, tenors, ceyByWeeks, dayCountBase, daysPerWeek, longer) == [];
          ShorterRaisesExactly(rf, tenors, ceyByWeeks, dayCountBase, daysPerWeek, longer, |tenors|);
          continue;
        }
        var target := LongLegTarget(ceyByWeeks[longer], longDays, dayCountBase, dayCountBase);
        var rows, raised := PairRowsFor(rf, tenors, longer, target);
        if raised {
          TableRaisesExactly(rf, tenors, ceyByWeeks, dayCountBase, daysPerWeek, i + 1);
          TableRaisesExactly(rf, tenors, ceyByWeeks, dayCountBase, daysPerWeek, |tenors|);
          return Failure(SolverRaised);
        }
        results := results + rows;
      }
      if results == [] {
        return Failure(NoRowsToSort);
      }
      return Success(results);
    }
  }

  /** `__init__` including its column check: a table without `maturity` or
      `yield_pct` is refused with the missing names. */
  method NewAnalytics(inputTable: InputTable, dayCountBase: int, daysPerWeek: int)
    returns (r: Result<TreasuryBillAnalytics, set<string>>)
    ensures r.Failure? <==> !(RequiredColumns <= inputTable.columns)
    ensures r.Failure? ==> r.error == RequiredColumns - inputTable.columns && r.error != {}
    ensures r.Success? ==> fresh(r.value) && r.value.Valid() && r.value.data == inputTable &&
                           r.value.dayCountBase == dayCountBase && r.value.daysPerWeek == daysPerWeek
  {
    if !(RequiredColumns <= inputTable.columns) {
      var missing := RequiredColumns - inputTable.columns;
      var c :| c in RequiredColumns && c !in inputTable.columns;
      assert c in missing;
      return Failure(missing);
    }
    var analytics := new TreasuryBillAnalytics(inputTable, dayCountBase, daysPerWeek);
    return Success(analytics);
  }
}
