/** The break-even table of `compute_break_even_rates`, as a function of the
    sorted tenors and the tenor-to-yield map: the rows the nested loops
    append, which pairs they cover, and their order. */
module BreakEvenTable {
  import opened Accumulation
  import opened BreakEven

  /** One row of the table. Yields are percentages (100 times the decimal
      yield), not rounded. */
  datatype BreakEvenRow = BreakEvenRow(
    shorterWeeks: int,
    shorterCeyPct: real,
    longerWeeks: int,
    longerCeyPct: real,
    breakEvenPct: real)

  /** What the pair loop needs of its inputs: a positive horizon and week
      length, and positive tenors that all have a yield. */
  predicate TableInputs(tenors: seq<int>, cey: map<int, real>, dc: int, daysPerWeek: int) {
    dc > 0 && daysPerWeek > 0 && forall i :: 0 <= i < |tenors| ==> tenors[i] > 0 && tenors[i] in cey
  }

  predicate StrictlyIncreasing(s: seq<int>) {
    forall i, j :: 0 <= i < j < |s| ==> s[i] < s[j]
  }

  /** The break-even yield of a pair: the short tenor's yield that matches
      the long tenor's accumulation over a horizon of `dc` days. */
  function PairYield(rf: RootFinder, cey: map<int, real>, dc: int, daysPerWeek: int, shorter: int, longer: int): Solved
    requires dc > 0 && daysPerWeek > 0 && shorter > 0 && longer > 0 && longer in cey
  {
    BreakEvenYield(rf, LongLegTarget(cey[longer], longer * daysPerWeek, dc, dc), shorter * daysPerWeek, dc, dc)
  }

  /** The pair conditions under which the source emits a row. */
  predicate PairQualifies(rf: RootFinder, cey: map<int, real>, dc: int, daysPerWeek: int, shorter: int, longer: int)
    requires dc > 0 && daysPerWeek > 0 && shorter > 0 && longer > 0 && longer in cey
  {
    && shorter < longer
    && shorter * daysPerWeek <= dc
    && longer * daysPerWeek <= dc
    && PairYield(rf, cey, dc, daysPerWeek, shorter, longer).Root?
  }

  /** The record appended for a pair whose break-even yield is `y`: both
      tenors with their yields, and the break-even yield, as percentages. */
  function RowOf(cey: map<int, real>, shorter: int, longer: int, y: real): BreakEvenRow
    requires shorter in cey && longer in cey
  {
    BreakEvenRow(shorter, 100.0 * cey[shorter], longer, 100.0 * cey[longer], 100.0 * y)
  }

  /** The row emitted for a qualifying pair. */
  function ExpectedRow(rf: RootFinder, cey: map<int, real>, dc: int, daysPerWeek: int, shorter: int, longer: int): BreakEvenRow
    requires dc > 0 && daysPerWeek > 0 && shorter > 0 && longer > 0 && shorter in cey && longer in cey
    requires PairQualifies(rf, cey, dc, daysPerWeek, shorter, longer)
  {
    RowOf(cey, shorter, longer, PairYield(rf, cey, dc, daysPerWeek, shorter, longer).y)
  }

  /** The inner loop body for one (shorter, longer) pair, once the longer
      tenor is known to fit. */
  function PairRow(rf: RootFinder, cey: map<int, real>, dc: int, daysPerWeek: int, shorter: int, longer: int): seq<BreakEvenRow>
    requires dc > 0 && daysPerWeek > 0 && shorter > 0 && longer > 0 && shorter in cey && longer in cey
  {
    if shorter >= longer || shorter * daysPerWeek > dc then []
    else match PairYield(rf, cey, dc, daysPerWeek, shorter, longer)
      case Root(y) => [RowOf(cey, shorter, longer, y)]
      case _ => []
  }

  /** The rows the inner loop appends for `longer` after `j` shorter tenors. */
  function ShorterRows(rf: RootFinder, tenors: seq<int>, cey: map<int, real>, dc: int, daysPerWeek: int, longer: int, j: nat): seq<BreakEvenRow>
    requires TableInputs(tenors, cey, dc, daysPerWeek) && longer > 0 && longer in cey && j <= |tenors|
  {
    if j == 0 then []
    else ShorterRows(rf, tenors, cey, dc, daysPerWeek, longer, j - 1) +
         PairRow(rf, cey, dc, daysPerWeek, tenors[j - 1], longer)
  }

  /** The rows for one longer tenor: none when it does not fit the horizon. */
  function LongerRows(rf: RootFinder, tenors: seq<int>, cey: map<int, real>, dc: int, daysPerWeek: int, longer: int): seq<BreakEvenRow>
    requires TableInputs(tenors, cey, dc, daysPerWeek) && longer > 0 && longer in cey
  {
    if longer * daysPerWeek > dc then [] else ShorterRows(rf, tenors, cey, dc, daysPerWeek, longer, |tenors|)
  }

  /** The rows the outer loop has appended after `i` longer tenors. */
  function TableRows(rf: RootFinder, tenors: seq<int>, cey: map<int, real>, dc: int, daysPerWeek: int, i: nat): seq<BreakEvenRow>
    requires TableInputs(tenors, cey, dc, daysPerWeek) && i <= |tenors|
  {
    if i == 0 then []
    else TableRows(rf, tenors, cey, dc, daysPerWeek, i - 1) +
         LongerRows(rf, tenors, cey, dc, daysPerWeek, tenors[i - 1])
  }

  /** The solver is asked about the pair, and raises. */
  predicate PairRaises(rf: RootFinder, cey: map<int, real>, dc: int, daysPerWeek: int, shorter: int, longer: int)
    requires dc > 0 && daysPerWeek > 0 && shorter > 0 && longer > 0 && longer in cey
  {
    && shorter < longer
    && shorter * daysPerWeek <= dc
    && longer * daysPerWeek <= dc
    && PairYield(rf, cey, dc, daysPerWeek, shorter, longer) == Raised
  }

  /** Some pair among the first `j` shorter tenors of the inner loop for `longer` raises. */
  predicate ShorterRaises(rf: RootFinder, tenors: seq<int>, cey: map<int, real>, dc: int, daysPerWeek: int, longer: int, j: nat)
    requires TableInputs(tenors, cey, dc, daysPerWeek) && longer > 0 && longer in cey && j <= |tenors|
  {
    j > 0 &&
    (ShorterRaises(rf, tenors, cey, dc, daysPerWeek, longer, j - 1) ||
     PairRaises(rf, cey, dc, daysPerWeek, tenors[j - 1], longer))
  }

  /** Some pair among the first `i` outer iterations raises. */
  predicate TableRaises(rf: RootFinder, tenors: seq<int>, cey: map<int, real>, dc: int, daysPerWeek: int, i: nat)
    requires TableInputs(tenors, cey, dc, daysPerWeek) && i <= |tenors|
  {
    i > 0 &&
    (TableRaises(rf, tenors, cey, dc, daysPerWeek, i - 1) ||
     ShorterRaises(rf, tenors, cey, dc, daysPerWeek, tenors[i - 1], |tenors|))
  }

  /** The inner loop raises exactly when one of its first `j` pairs does. */
  lemma {:induction false} ShorterRaisesExactly(rf: RootFinder, tenors: seq<int>, cey: map<int, real>, dc: int, daysPerWeek: int, longer: int, j: nat)
    requires TableInputs(tenors, cey, dc, daysPerWeek) && longer > 0 && longer in cey && j <= |tenors|
    ensures ShorterRaises(rf, tenors, cey, dc, daysPerWeek, longer, j) <==>
              exists k :: 0 <= k < j && PairRaises(rf, cey, dc, daysPerWeek, tenors[k], longer)
  {
    if j > 0 {
      ShorterRaisesExactly(rf, tenors, cey, dc, daysPerWeek, longer, j - 1);
      if ShorterRaises(rf, tenors, cey, dc, daysPerWeek, longer, j) {
        if !PairRaises(rf, cey, dc, daysPerWeek, tenors[j - 1], longer) {
          var k :| 0 <= k < j - 1 && PairRaises(rf, cey, dc, daysPerWeek, tenors[k], longer);
        }
      }
    }
  }

  /** The table raises exactly when some pair of listed tenors, in either
      role, raises. A raising pair ends the computation, so which one is
      first does not matter. */
  lemma {:induction false} TableRaisesExactly(rf: RootFinder, tenors: seq<int>, cey: map<int, real>, dc: int, daysPerWeek: int, i: nat)
    requires TableInputs(tenors, cey, dc, daysPerWeek) && i <= |tenors|
    ensures TableRaises(rf, tenors, cey, dc, daysPerWeek, i) <==>
              exists ks, kl :: 0 <= ks < |tenors| && 0 <= kl < i &&
                               PairRaises(rf, cey, dc, daysPerWeek, tenors[ks], tenors[kl])
  {
    if i > 0 {
      TableRaisesExactly(rf, tenors, cey, dc, daysPerWeek, i - 1);
      ShorterRaisesExactly(rf, tenors, cey, dc, daysPerWeek, tenors[i - 1], |tenors|);
      if TableRaises(rf, tenors, cey, dc, daysPerWeek, i) {
        if !ShorterRaises(rf, tenors, cey, dc, daysPerWeek, tenors[i - 1], |tenors|) {
          var ks, kl :| 0 <= ks < |tenors| && 0 <= kl < i - 1 &&
                        PairRaises(rf, cey, dc, daysPerWeek, tenors[ks], tenors[kl]);
        } else {
          var k :| 0 <= k < |tenors| && PairRaises(rf, cey, dc, daysPerWeek, tenors[k], tenors[i - 1]);
        }
      } else {
        forall ks, kl | 0 <= ks < |tenors| && 0 <= kl < i
          ensures !PairRaises(rf, cey, dc, daysPerWeek, tenors[ks], tenors[kl])
        {
          if kl == i - 1 {
            assert !PairRaises(rf, cey, dc, daysPerWeek, tenors[ks], tenors[i - 1]);
          }
        }
      }
    }
  }

  /** Row `x` comes strictly before row `y` in (longer, shorter) order. */
  predicate KeyBefore(x: BreakEvenRow, y: BreakEvenRow) {
    x.longerWeeks < y.longerWeeks || (x.longerWeeks == y.longerWeeks && x.shorterWeeks < y.shorterWeeks)
  }

  /** Strictly increasing by (longer, shorter): sorted, with no pair twice. */
  predicate Ordered(rows: seq<BreakEvenRow>) {
    forall a, b :: 0 <= a < b < |rows| ==> KeyBefore(rows[a], rows[b])
  }

  lemma OrderedAppend(xs: seq<BreakEvenRow>, ys: seq<BreakEvenRow>)
    requires Ordered(xs) && Ordered(ys)
    requires forall x, y :: x in xs && y in ys ==> KeyBefore(x, y)
    ensures Ordered(xs + ys)
  {
    var zs := xs + ys;
    forall a, b | 0 <= a < b < |zs| ensures KeyBefore(zs[a], zs[b]) {
      if b < |xs| {
        assert zs[a] == xs[a] && zs[b] == xs[b];
      } else if a >= |xs| {
        assert zs[a] == ys[a - |xs|] && zs[b] == ys[b - |xs|];
      } else {
        assert zs[a] in xs && zs[b] in ys;
      }
    }
  }

  /** Every row of the inner loop is the expected row of a qualifying pair
      whose shorter tenor is among the first `j`. */
  lemma {:induction false} ShorterRowsSound(rf: RootFinder, tenors: seq<int>, cey: map<int, real>, dc: int, daysPerWeek: int, longer: int, j: nat)
    requires TableInputs(tenors, cey, dc, daysPerWeek) && longer > 0 && longer in cey && j <= |tenors|
    requires longer * daysPerWeek <= dc
    ensures forall row :: row in ShorterRows(rf, tenors, cey, dc, daysPerWeek, longer, j) ==>
              && row.longerWeeks == longer
              && row.shorterWeeks in tenors[..j]
              && row.shorterWeeks > 0 && row.shorterWeeks in cey
              && PairQualifies(rf, cey, dc, daysPerWeek, row.shorterWeeks, longer)
              && row == ExpectedRow(rf, cey, dc, daysPerWeek, row.shorterWeeks, longer)
  {
    if j > 0 {
      ShorterRowsSound(rf, tenors, cey, dc, daysPerWeek, longer, j - 1);
      assert forall s :: s in tenors[..j - 1] ==> s in tenors[..j] by {
        assert tenors[..j - 1] == tenors[..j][..j - 1];
      }
      assert tenors[j - 1] in tenors[..j];
    }
  }

  /** Every qualifying pair whose shorter tenor is among the first `j` has its row. */
  lemma {:induction false} ShorterRowsComplete(rf: RootFinder, tenors: seq<int>, cey: map<int, real>, dc: int, daysPerWeek: int, longer: int, j: nat, k: nat)
    requires TableInputs(tenors, cey, dc, daysPerWeek) && longer > 0 && longer in cey && k < j <= |tenors|
    requires PairQualifies(rf, cey, dc, daysPerWeek, tenors[k], longer)
    ensures ExpectedRow(rf, cey, dc, daysPerWeek, tenors[k], longer) in ShorterRows(rf, tenors, cey, dc, daysPerWeek, longer, j)
  {
    if k < j - 1 {
      ShorterRowsComplete(rf, tenors, cey, dc, daysPerWeek, longer, j - 1, k);
    }
  }

  /** With sorted tenors the inner loop's rows are ordered. */
  lemma {:induction false} ShorterRowsOrdered(rf: RootFinder, tenors: seq<int>, cey: map<int, real>, dc: int, daysPerWeek: int, longer: int, j: nat)
    requires TableInputs(tenors, cey, dc, daysPerWeek) && longer > 0 && longer in cey && j <= |tenors|
    requires longer * daysPerWeek <= dc && StrictlyIncreasing(tenors)
    ensures Ordered(ShorterRows(rf, tenors, cey, dc, daysPerWeek, longer, j))
  {
    if j > 0 {
      ShorterRowsOrdered(rf, tenors, cey, dc, daysPerWeek, longer, j - 1);
      ShorterRowsSound(rf, tenors, cey, dc, daysPerWeek, longer, j - 1);
      var xs := ShorterRows(rf, tenors, cey, dc, daysPerWeek, longer, j - 1);
      var ys := PairRow(rf, cey, dc, daysPerWeek, tenors[j - 1], longer);
      forall x, y | x in xs && y in ys ensures KeyBefore(x, y) {
        var a :| 0 <= a < j - 1 && tenors[..j - 1][a] == x.shorterWeeks;
        assert tenors[a] < tenors[j - 1];
      }
      OrderedAppend(xs, ys);
    }
  }

  /** Every row for one longer tenor is the expected row of a qualifying
      pair with that longer tenor. */
  lemma LongerRowsSound(rf: RootFinder, tenors: seq<int>, cey: map<int, real>, dc: int, daysPerWeek: int, longer: int)
    requires TableInputs(tenors, cey, dc, daysPerWeek) && longer > 0 && longer in cey
    ensures forall row :: row in LongerRows(rf, tenors, cey, dc, daysPerWeek, longer) ==>
              && row.longerWeeks == longer
              && row.shorterWeeks in tenors
              && row.shorterWeeks > 0 && row.shorterWeeks in cey
              && PairQualifies(rf, cey, dc, daysPerWeek, row.shorterWeeks, longer)
              && row == ExpectedRow(rf, cey, dc, daysPerWeek, row.shorterWeeks, longer)
  {
    if longer * daysPerWeek <= dc {
      ShorterRowsSound(rf, tenors, cey, dc, daysPerWeek, longer, |tenors|);
      assert tenors[..|tenors|] == tenors;
    }
  }

  /** Every row of the first `i` outer iterations is the expected row of a
      qualifying pair whose longer tenor is among the first `i`. */
  lemma {:induction false} TableRowsSound(rf: RootFinder, tenors: seq<int>, cey: map<int, real>, dc: int, daysPerWeek: int, i: nat)
    requires TableInputs(tenors, cey, dc, daysPerWeek) && i <= |tenors|
    ensures forall row :: row in TableRows(rf, tenors, cey, dc, daysPerWeek, i) ==>
              && row.longerWeeks in tenors[..i]
              && row.shorterWeeks in tenors
              && row.shorterWeeks > 0 && row.longerWeeks > 0
              && row.shorterWeeks in cey && row.longerWeeks in cey
              && PairQualifies(rf, cey, dc, daysPerWeek, row.shorterWeeks, row.longerWeeks)
              && row == ExpectedRow(rf, cey, dc, daysPerWeek, row.shorterWeeks, row.longerWeeks)
  {
    if i > 0 {
      TableRowsSound(rf, tenors, cey, dc, daysPerWeek, i - 1);
      var longer := tenors[i - 1];
      LongerRowsSound(rf, tenors, cey, dc, daysPerWeek, longer);
      assert forall s :: s in tenors[..i - 1] ==> s in tenors[..i] by {
        assert tenors[..i - 1] == tenors[..i][..i - 1];
      }
      assert longer in tenors[..i];
    }
  }

  lemma {:induction false} TableRowsComplete(rf: RootFinder, tenors: seq<int>, cey: map<int, real>, dc: int, daysPerWeek: int, i: nat, ks: nat, kl: nat)
    requires TableInputs(tenors, cey, dc, daysPerWeek) && ks < |tenors| && kl < i <= |tenors|
    requires PairQualifies(rf, cey, dc, daysPerWeek, tenors[ks], tenors[kl])
    ensures ExpectedRow(rf, cey, dc, daysPerWeek, tenors[ks], tenors[kl]) in TableRows(rf, tenors, cey, dc, daysPerWeek, i)
  {
    if kl < i - 1 {
      TableRowsComplete(rf, tenors, cey, dc, daysPerWeek, i - 1, ks, kl);
    } else {
      ShorterRowsComplete(rf, tenors, cey, dc, daysPerWeek, tenors[kl], |tenors|, ks);
    }
  }

  lemma {:induction false} TableRowsOrdered(rf: RootFinder, tenors: seq<int>, cey: map<int, real>, dc: int, daysPerWeek: int, i: nat)
    requires TableInputs(tenors, cey, dc, daysPerWeek) && i <= |tenors| && StrictlyIncreasing(tenors)
    ensures Ordered(TableRows(rf, tenors, cey, dc, daysPerWeek, i))
  {
    if i > 0 {
      TableRowsOrdered(rf, tenors, cey, dc, daysPerWeek, i - 1);
      TableRowsSound(rf, tenors, cey, dc, daysPerWeek, i - 1);
      var longer := tenors[i - 1];
      var xs := TableRows(rf, tenors, cey, dc, daysPerWeek, i - 1);
      var ys := LongerRows(rf, tenors, cey, dc, daysPerWeek, longer);
      if longer * daysPerWeek <= dc {
        ShorterRowsOrdered(rf, tenors, cey, dc, daysPerWeek, longer, |tenors|);
        ShorterRowsSound(rf, tenors, cey, dc, daysPerWeek, longer, |tenors|);
      }
      forall x, y | x in xs && y in ys ensures KeyBefore(x, y) {
        var a :| 0 <= a < i - 1 && tenors[..i - 1][a] == x.longerWeeks;
        assert tenors[a] < tenors[i - 1];
      }
      OrderedAppend(xs, ys);
    }
  }

  /** The whole table: a row for exactly the qualifying pairs of listed
      tenors, each the expected row, in strictly increasing (longer,
      shorter) order, so the source's final sort leaves it as it is. */
  lemma BreakEvenTableCorrect(rf: RootFinder, tenors: seq<int>, cey: map<int, real>, dc: int, daysPerWeek: int)
    requires TableInputs(tenors, cey, dc, daysPerWeek) && StrictlyIncreasing(tenors)
    ensures var rows := TableRows(rf, tenors, cey, dc, daysPerWeek, |tenors|);
            && Ordered(rows)
            && (forall row :: row in rows ==>
                  && row.shorterWeeks in tenors && row.longerWeeks in tenors
                  && row.shorterWeeks > 0 && row.longerWeeks > 0
                  && row.shorterWeeks in cey && row.longerWeeks in cey
                  && PairQualifies(rf, cey, dc, daysPerWeek, row.shorterWeeks, row.longerWeeks)
                  && row == ExpectedRow(rf, cey, dc, daysPerWeek, row.shorterWeeks, row.longerWeeks))
            && (forall ks, kl ::
                  (0 <= ks < |tenors| && 0 <= kl < |tenors| &&
                   PairQualifies(rf, cey, dc, daysPerWeek, tenors[ks], tenors[kl])) ==>
                  ExpectedRow(rf, cey, dc, daysPerWeek, tenors[ks], tenors[kl]) in rows)
  {
    TableRowsOrdered(rf, tenors, cey, dc, daysPerWeek, |tenors|);
    TableRowsSound(rf, tenors, cey, dc, daysPerWeek, |tenors|);
    assert tenors[..|tenors|] == tenors;
    forall ks, kl | 0 <= ks < |tenors| && 0 <= kl < |tenors| &&
                    PairQualifies(rf, cey, dc, daysPerWeek, tenors[ks], tenors[kl])
      ensures ExpectedRow(rf, cey, dc, daysPerWeek, tenors[ks], tenors[kl]) in TableRows(rf, tenors, cey, dc, daysPerWeek, |tenors|)
    {
      TableRowsComplete(rf, tenors, cey, dc, daysPerWeek, |tenors|, ks, kl);
    }
  }
}
