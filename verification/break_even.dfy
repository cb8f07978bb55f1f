/** What `_solve_y_be_self_consistent_against_accumulation_level` and
    `compute_break_even_rates` compute, as functions. The symbolic and
    numeric root-finding (`sympy.solve`, `sympy.nsolve`, the fractional-roll
    seed) is an abstract `RootFinder`: the model fixes the control flow
    around it, not its numerics. */
module BreakEven {
  import opened Wrappers
  import opened Accumulation

  /** The short leg's equation `(1 + y*m/dc)^k * (1 + y*r/dc) = target`. */
  datatype Equation = Equation(tenorDays: int, full: nat, stub: int, dc: int, target: real)

  predicate WellFormed(eq: Equation) {
    eq.tenorDays > 0 && eq.dc > 0 && 0 <= eq.stub < eq.tenorDays
  }

  /** Left-hand side of the equation at yield `y`. */
  function Lhs(eq: Equation, y: real): real
    requires WellFormed(eq)
  {
    Pow(Growth(y, eq.tenorDays, eq.dc), eq.full) * Growth(y, eq.stub, eq.dc)
  }

  /** The source's feasibility check on a candidate root. */
  predicate FeasibleRoot(eq: Equation, y: real)
    requires WellFormed(eq)
  {
    Feasible(y, eq.tenorDays, eq.stub, eq.dc)
  }

  /** What one attempt at the break-even yield comes to: a root, the
      source's `nan`, or an exception the source does not catch, which ends
      the whole table computation. */
  datatype Solved = Root(y: real) | NoRoot | Raised

  /** The external solvers:
      - `solve`: the closed form for the stub-free equation
        `(1 + y*m/dc)^k = target`, that is `sympy.solve` followed by `float`
        of its first solution: that solution, `NoRoot` when the list is
        empty, `Raised` when `solve` raises or the first solution is not
        real;
      - `guess`: the fractional-roll seed `(target^(m/H) - 1) * dc/m`, or
        None where converting it to a float raises (a negative target
        under a fractional power is complex);
      - `nsolve`: the root `sympy.nsolve` converges to from a seed, or None
        where it raises (the source catches those). */
  datatype RootFinder = RootFinder(
    solve: Equation -> Solved,
    guess: Equation -> Option<real>,
    nsolve: (Equation, real) -> Option<real>)

  /** A root finder whose answers are roots of the equation they were asked about. */
  ghost predicate Sound(rf: RootFinder, eq: Equation)
    requires WellFormed(eq)
  {
    && (rf.solve(eq).Root? ==> Pow(Growth(rf.solve(eq).y, eq.tenorDays, eq.dc), eq.full) == eq.target)
    && (forall seed :: rf.nsolve(eq, seed).Some? ==> Lhs(eq, rf.nsolve(eq, seed).value) == eq.target)
  }

  /** The seeds in the order the source tries them: the guess, 2 points below, 2 points above. */
  function Seeds(guess: real): (s: seq<real>)
    ensures |s| == 3 && s[0] == guess && s[1] == guess - 0.02 && s[2] == guess + 0.02
  {
    [guess, guess - 0.02, guess + 0.02]
  }

  /** nsolve from `seed` converges, and to a feasible root. */
  predicate Accepted(rf: RootFinder, eq: Equation, seed: real)
    requires WellFormed(eq)
  {
    rf.nsolve(eq, seed).Some? && FeasibleRoot(eq, rf.nsolve(eq, seed).value)
  }

  /** The seed loop: the root of the first accepted seed, or None. */
  function FirstFeasibleRoot(rf: RootFinder, eq: Equation, seeds: seq<real>): (y: Option<real>)
    requires WellFormed(eq)
    ensures y.Some? ==> FeasibleRoot(eq, y.value)
  {
    if seeds == [] then None
    else if Accepted(rf, eq, seeds[0]) then rf.nsolve(eq, seeds[0])
    else FirstFeasibleRoot(rf, eq, seeds[1..])
  }

  /** The seed loop returns the root of the first accepted seed, after
      rejecting every earlier one, and nothing exactly when no seed is
      accepted. */
  lemma {:induction false} FirstFeasibleRootIsFirst(rf: RootFinder, eq: Equation, seeds: seq<real>)
    requires WellFormed(eq)
    ensures FirstFeasibleRoot(rf, eq, seeds).None? <==>
              forall i :: 0 <= i < |seeds| ==> !Accepted(rf, eq, seeds[i])
    ensures FirstFeasibleRoot(rf, eq, seeds).Some? ==>
              exists i :: 0 <= i < |seeds| && Accepted(rf, eq, seeds[i]) &&
                          rf.nsolve(eq, seeds[i]) == FirstFeasibleRoot(rf, eq, seeds) &&
                          forall j :: 0 <= j < i ==> !Accepted(rf, eq, seeds[j])
  {
    if seeds != [] && !Accepted(rf, eq, seeds[0]) {
      var rest := seeds[1..];
      FirstFeasibleRootIsFirst(rf, eq, rest);
      if FirstFeasibleRoot(rf, eq, rest).Some? {
        var i :| 0 <= i < |rest| && Accepted(rf, eq, rest[i]) &&
                 rf.nsolve(eq, rest[i]) == FirstFeasibleRoot(rf, eq, rest) &&
                 forall j :: 0 <= j < i ==> !Accepted(rf, eq, rest[j]);
        assert seeds[i + 1] == rest[i];
        assert forall j :: 0 <= j < i + 1 ==> !Accepted(rf, eq, seeds[j]) by {
          forall j | 0 <= j < i + 1 ensures !Accepted(rf, eq, seeds[j]) {
            if j > 0 { assert seeds[j] == rest[j - 1]; }
          }
        }
      } else {
        forall i | 0 <= i < |seeds| ensures !Accepted(rf, eq, seeds[i]) {
          if i > 0 { assert seeds[i] == rest[i - 1]; }
        }
      }
    }
  }

  /** The equation for a short tenor over a horizon whose decomposition has
      at least one full roll. */
  function ShortLegEquation(target: real, shortTenorDays: int, horizonDays: int, dc: int): (eq: Equation)
    requires shortTenorDays > 0 && dc > 0 && Decompose(horizonDays, shortTenorDays).full > 0
    ensures WellFormed(eq)
    ensures eq.full * shortTenorDays + eq.stub == horizonDays
    ensures forall y :: Lhs(eq, y) == AccumulationFactor(y, shortTenorDays, horizonDays, dc)
  {
    var d := Decompose(horizonDays, shortTenorDays);
    Equation(shortTenorDays, d.full, d.stub, dc, target)
  }

  /** `_solve_y_be_self_consistent_against_accumulation_level`: `NoRoot`
      (the source's `nan`) when not even one roll fits; the closed form when
      there is no stub; otherwise the seed loop from the fractional-roll
      guess. */
  function BreakEvenYield(rf: RootFinder, target: real, shortTenorDays: int, horizonDays: int, dc: int): (y: Solved)
    requires shortTenorDays > 0 && dc > 0
    ensures Decompose(horizonDays, shortTenorDays).full <= 0 ==> y == NoRoot
    ensures y.Root? && Decompose(horizonDays, shortTenorDays).stub != 0 ==>
              Feasible(y.y, shortTenorDays, Decompose(horizonDays, shortTenorDays).stub, dc)
  {
    var d := Decompose(horizonDays, shortTenorDays);
    if d.full <= 0 then NoRoot
    else
      var eq := ShortLegEquation(target, shortTenorDays, horizonDays, dc);
      if d.stub == 0 then rf.solve(eq)
      else match rf.guess(eq)
        case None => Raised
        case Some(g) =>
          match FirstFeasibleRoot(rf, eq, Seeds(g))
          case Some(y) => Root(y)
          case None => NoRoot
  }

  /** The attempt raises exactly when at least one roll fits and the solver
      step of its branch raises: the closed form without a stub, the guess
      with one. The numeric solver's failures never escape. */
  lemma RaisedExactly(rf: RootFinder, target: real, shortTenorDays: int, horizonDays: int, dc: int)
    requires shortTenorDays > 0 && dc > 0
    ensures var d := Decompose(horizonDays, shortTenorDays);
            BreakEvenYield(rf, target, shortTenorDays, horizonDays, dc) == Raised <==>
              && d.full > 0
              && (d.stub == 0 ==> rf.solve(ShortLegEquation(target, shortTenorDays, horizonDays, dc)) == Raised)
              && (d.stub != 0 ==> rf.guess(ShortLegEquation(target, shortTenorDays, horizonDays, dc)).None?)
  {
  }

  /** Without a stub, once a full roll fits, the answer is the closed-form
      solver's outcome itself: its first solution, `NoRoot` when it has
      none, `Raised` when it raises. */
  lemma ClosedFormAnswer(rf: RootFinder, target: real, shortTenorDays: int, horizonDays: int, dc: int)
    requires shortTenorDays > 0 && dc > 0
    requires Decompose(horizonDays, shortTenorDays).full > 0 && Decompose(horizonDays, shortTenorDays).stub == 0
    ensures BreakEvenYield(rf, target, shortTenorDays, horizonDays, dc) ==
            rf.solve(ShortLegEquation(target, shortTenorDays, horizonDays, dc))
  {
  }

  /** Without a stub only the closed form is consulted: root finders that
      agree on it give the same answer whatever their numeric solvers do.
      With a stub only the guess and the numeric solver at the three seeds
      are consulted. */
  lemma BranchChoice(rf1: RootFinder, rf2: RootFinder, target: real, shortTenorDays: int, horizonDays: int, dc: int)
    requires shortTenorDays > 0 && dc > 0
    requires Decompose(horizonDays, shortTenorDays).full > 0
    ensures var eq := ShortLegEquation(target, shortTenorDays, horizonDays, dc);
            Decompose(horizonDays, shortTenorDays).stub == 0 && rf1.solve(eq) == rf2.solve(eq) ==>
              BreakEvenYield(rf1, target, shortTenorDays, horizonDays, dc) ==
              BreakEvenYield(rf2, target, shortTenorDays, horizonDays, dc)
    ensures var eq := ShortLegEquation(target, shortTenorDays, horizonDays, dc);
            Decompose(horizonDays, shortTenorDays).stub != 0 && rf1.guess(eq) == rf2.guess(eq) &&
            (rf1.guess(eq).Some? ==>
               forall s :: s in Seeds(rf1.guess(eq).value) ==> rf1.nsolve(eq, s) == rf2.nsolve(eq, s)) ==>
              BreakEvenYield(rf1, target, shortTenorDays, horizonDays, dc) ==
              BreakEvenYield(rf2, target, shortTenorDays, horizonDays, dc)
  {
    var eq := ShortLegEquation(target, shortTenorDays, horizonDays, dc);
    if Decompose(horizonDays, shortTenorDays).stub != 0 && rf1.guess(eq) == rf2.guess(eq) && rf1.guess(eq).Some? &&
       (forall s :: s in Seeds(rf1.guess(eq).value) ==> rf1.nsolve(eq, s) == rf2.nsolve(eq, s)) {
      SeedLoopDependsOnlyOnNsolve(rf1, rf2, eq, Seeds(rf1.guess(eq).value));
    }
  }

  lemma {:induction false} SeedLoopDependsOnlyOnNsolve(rf1: RootFinder, rf2: RootFinder, eq: Equation, seeds: seq<real>)
    requires WellFormed(eq)
    requires forall s :: s in seeds ==> rf1.nsolve(eq, s) == rf2.nsolve(eq, s)
    ensures FirstFeasibleRoot(rf1, eq, seeds) == FirstFeasibleRoot(rf2, eq, seeds)
  {
    if seeds != [] {
      assert seeds[0] in seeds;
      assert forall s :: s in seeds[1..] ==> s in seeds;
      SeedLoopDependsOnlyOnNsolve(rf1, rf2, eq, seeds[1..]);
    }
  }

  /** With a stub and a guess, the answer is the root from the first of the
      three seeds whose root is feasible, and `NoRoot` when none is. */
  lemma StubSeedOrder(rf: RootFinder, target: real, shortTenorDays: int, horizonDays: int, dc: int)
    requires shortTenorDays > 0 && dc > 0
    requires Decompose(horizonDays, shortTenorDays).full > 0 && Decompose(horizonDays, shortTenorDays).stub != 0
    requires rf.guess(ShortLegEquation(target, shortTenorDays, horizonDays, dc)).Some?
    ensures var eq := ShortLegEquation(target, shortTenorDays, horizonDays, dc);
            var seeds := Seeds(rf.guess(eq).value);
            var y := BreakEvenYield(rf, target, shortTenorDays, horizonDays, dc);
            && y != Raised
            && (y == NoRoot <==> forall i :: 0 <= i < 3 ==> !Accepted(rf, eq, seeds[i]))
            && (y.Root? ==> exists i :: 0 <= i < 3 && Accepted(rf, eq, seeds[i]) && rf.nsolve(eq, seeds[i]) == Some(y.y) &&
                                        forall j :: 0 <= j < i ==> !Accepted(rf, eq, seeds[j]))
  {
    var eq := ShortLegEquation(target, shortTenorDays, horizonDays, dc);
    FirstFeasibleRootIsFirst(rf, eq, Seeds(rf.guess(eq).value));
  }

  /** With a sound root finder every answer solves the break-even equation:
      the short leg's accumulation at the answer equals the target. */
  lemma AnswerSolvesEquation(rf: RootFinder, target: real, shortTenorDays: int, horizonDays: int, dc: int)
    requires shortTenorDays > 0 && dc > 0
    requires Decompose(horizonDays, shortTenorDays).full > 0
    requires Sound(rf, ShortLegEquation(target, shortTenorDays, horizonDays, dc))
    ensures var y := BreakEvenYield(rf, target, shortTenorDays, horizonDays, dc);
            y.Root? ==> AccumulationFactor(y.y, shortTenorDays, horizonDays, dc) == target
  {
    var eq := ShortLegEquation(target, shortTenorDays, horizonDays, dc);
    var y := BreakEvenYield(rf, target, shortTenorDays, horizonDays, dc);
    if y.Root? && eq.stub != 0 {
      var seeds := Seeds(rf.guess(eq).value);
      FirstFeasibleRootIsFirst(rf, eq, seeds);
      var i :| 0 <= i < |seeds| && rf.nsolve(eq, seeds[i]) == Some(y.y);
      assert Lhs(eq, y.y) == target;
    }
  }

  /** With a stub and a sound root finder the answer does not depend on
      which seed found it: it is the only feasible yield that solves the
      equation. */
  lemma StubAnswerUnique(rf: RootFinder, target: real, shortTenorDays: int, horizonDays: int, dc: int, z: real)
    requires shortTenorDays > 0 && dc > 0
    requires Decompose(horizonDays, shortTenorDays).full > 0 && Decompose(horizonDays, shortTenorDays).stub != 0
    requires Sound(rf, ShortLegEquation(target, shortTenorDays, horizonDays, dc))
    requires BreakEvenYield(rf, target, shortTenorDays, horizonDays, dc).Root?
    requires Feasible(z, shortTenorDays, Decompose(horizonDays, shortTenorDays).stub, dc)
    requires AccumulationFactor(z, shortTenorDays, horizonDays, dc) == target
    ensures BreakEvenYield(rf, target, shortTenorDays, horizonDays, dc) == Root(z)
  {
    var y := BreakEvenYield(rf, target, shortTenorDays, horizonDays, dc).y;
    AnswerSolvesEquation(rf, target, shortTenorDays, horizonDays, dc);
    FeasibleYieldUnique(y, z, shortTenorDays, horizonDays, dc);
  }
}
