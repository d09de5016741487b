/**
 * Day 7: can a target be produced from a row of operands combined strictly
 * left to right with `+` and `*` (part 1), or with `+`, `*` and decimal
 * concatenation `||` (part 2)? Both solvers work from the right, undoing the
 * last operator: subtraction undoes `+`, exact division undoes `*`, and
 * removing a decimal suffix undoes `||`.
 */
module Day7 {
  import opened Wrappers
  import opened Text

  /** One input row `target: a1 a2 ...`, the pair `(isize, Vec<isize>)`. */
  datatype Equation = Equation(target: int, operands: seq<int>)

  /** The solvers take `num % a` of every last operand they look at, so a zero operand panics. */
  predicate NonZero(numbers: seq<int>)
  {
    forall k :: 0 <= k < |numbers| ==> numbers[k] != 0
  }

  predicate AllNonZero(rows: seq<Equation>)
  {
    forall k :: 0 <= k < |rows| ==> NonZero(rows[k].operands)
  }

  // ---------------------------------------------------------------------
  // Decimal arithmetic for the concatenation operator

  function Pow10(d: nat): (r: nat)
    ensures r >= 1
  {
    if d == 0 then 1 else 10 * Pow10(d - 1)
  }

  /** The number of decimal digits of `n`. */
  function Digits(n: nat): (d: nat)
    ensures d >= 1 && n < Pow10(d)
    ensures n > 0 ==> Pow10(d - 1) <= n
  {
    if n < 10 then 1 else 1 + Digits(n / 10)
  }

  lemma MulAtLeast(d: int, p: int)
    requires d >= 1 && p > 0
    ensures d * p >= p
  {
    assert d * p == (d - 1) * p + p;
    assert (d - 1) * p >= 0;
  }

  /** Division by a positive divisor is determined by any quotient and in-range remainder. */
  lemma DivModUnique(x: int, p: int, q: int, r: int)
    requires p > 0 && 0 <= r < p && x == q * p + r
    ensures x / p == q && x % p == r
  {
    var q', r' := x / p, x % p;
    assert x == q' * p + r';
    if q' > q {
      assert (q' - q) * p == q' * p - q * p;
      MulAtLeast(q' - q, p);
    } else if q' < q {
      assert (q - q') * p == q * p - q' * p;
      MulAtLeast(q - q', p);
    }
  }

  /**
   * The concatenation branch. `num.to_string()` ends with `a.to_string()`
   * and leaves a non-empty prefix exactly when `num % 10^digits(a) == a` and
   * `num >= 10^digits(a)`; the prefix then spells `num / 10^digits(a)`.
   * The branch is only reached with `a <= num`; the text of a negative `a`
   * starts with '-', which can only be a suffix of the whole of `num`'s
   * text, leaving an empty prefix, so only a positive `a` gets through.
   */
  function Deconcat(num: int, a: int): (r: Option<int>)
    ensures r.Some? ==> a > 0 && r.value >= 1 && r.value * Pow10(Digits(a)) + a == num
  {
    if a > 0 && num >= 0 then
      var p := Pow10(Digits(a));
      if num % p == a && num >= p then
        QuotientParts(num, p);
        Some(num / p)
      else None
    else None
  }

  /** Euclidean division splits `x` into quotient and remainder. */
  lemma QuotientParts(x: int, p: int)
    requires p > 0 && x >= p
    ensures x / p >= 1 && (x / p) * p + x % p == x
  {
  }

  /** Division by a divisor undoes multiplication by it. */
  lemma ExactQuotient(x: int, a: int)
    requires a != 0 && x % a == 0
    ensures (x / a) * a == x
  {
  }

  // ---------------------------------------------------------------------
  // The solvers

  /** `solve_one_row`: undo `+` by subtraction, then `*` by exact division. */
  function SolveOneRow(num: int, numbers: seq<int>): (r: bool)
    requires NonZero(numbers)
    ensures |numbers| == 0 ==> !r
    ensures |numbers| == 1 ==> (r <==> num == numbers[0])
    ensures |numbers| >= 2 && numbers[|numbers| - 1] > num ==> !r
    decreases |numbers|
  {
    if |numbers| == 0 then false
    else
      var a := numbers[|numbers| - 1];
      var divisible := num % a == 0;
      var rest := numbers[..|numbers| - 1];
      if |rest| == 0 then num == a
      else if a <= num then
        SolveOneRow(num - a, rest) || (divisible && SolveOneRow(num / a, rest))
      else false
  }

  /** `solve_one_row_with_concat`: as `SolveOneRow`, then undo `||` by dropping a decimal suffix. */
  function SolveOneRowWithConcat(num: int, numbers: seq<int>): (r: bool)
    requires NonZero(numbers)
    ensures |numbers| == 0 ==> !r
    ensures |numbers| == 1 ==> (r <==> num == numbers[0])
    ensures |numbers| >= 2 && numbers[|numbers| - 1] > num ==> !r
    decreases |numbers|
  {
    if |numbers| == 0 then false
    else
      var a := numbers[|numbers| - 1];
      var divisible := num % a == 0;
      var rest := numbers[..|numbers| - 1];
      if |rest| == 0 then num == a
      else if a <= num then
        SolveOneRowWithConcat(num - a, rest)
        || (divisible && SolveOneRowWithConcat(num / a, rest))
        || (Deconcat(num, a).Some? && SolveOneRowWithConcat(Deconcat(num, a).value, rest))
      else false
  }

  // ---------------------------------------------------------------------
  // Left-to-right evaluation, the meaning the solvers are measured against

  datatype Op = Add | Mul | Concat

  function Apply(op: Op, v: int, a: int): int
  {
    match op
    case Add => v + a
    case Mul => v * a
    case Concat => v * Pow10(Digits(if a >= 0 then a else -a)) + a  // only used with a > 0
  }

  /** The operands evaluated strictly left to right, `ops[k]` standing between `numbers[k]` and `numbers[k + 1]`. */
  function Eval(numbers: seq<int>, ops: seq<Op>): int
    requires |numbers| >= 1 && |ops| == |numbers| - 1
  {
    if |numbers| == 1 then numbers[0]
    else Apply(ops[|ops| - 1], Eval(numbers[..|numbers| - 1], ops[..|ops| - 1]), numbers[|numbers| - 1])
  }

  predicate AddMulOnly(ops: seq<Op>)
  {
    forall k :: 0 <= k < |ops| ==> ops[k] != Concat
  }

  /** Concatenation is only ever applied to a positive right operand. */
  predicate ConcatOnPositive(numbers: seq<int>, ops: seq<Op>)
    requires |ops| == |numbers| - 1
  {
    forall k :: 0 <= k < |ops| && ops[k] == Concat ==> numbers[k + 1] > 0
  }

  /** Some choice of operators (concatenation allowed or not) makes the operands evaluate to `num`. */
  ghost predicate Reachable(num: int, numbers: seq<int>, withConcat: bool)
  {
    |numbers| >= 1 &&
    exists ops: seq<Op> ::
      |ops| == |numbers| - 1 && (withConcat || AddMulOnly(ops)) && ConcatOnPositive(numbers, ops)
      && Eval(numbers, ops) == num
  }

  /** A witness for the operands but the last, extended by one operator on the right. */
  lemma ReachableExtend(numbers: seq<int>, m: int, op: Op, withConcat: bool)
    requires |numbers| >= 2 && Reachable(m, numbers[..|numbers| - 1], withConcat)
    requires withConcat || op != Concat
    requires op == Concat ==> numbers[|numbers| - 1] > 0
    ensures Reachable(Apply(op, m, numbers[|numbers| - 1]), numbers, withConcat)
  {
    var rest := numbers[..|numbers| - 1];
    var ops' :| |ops'| == |rest| - 1 && (withConcat || AddMulOnly(ops')) && ConcatOnPositive(rest, ops')
                && Eval(rest, ops') == m;
    var ops := ops' + [op];
    assert ops[..|ops| - 1] == ops';
    assert Eval(numbers, ops) == Apply(op, m, numbers[|numbers| - 1]);
    assert forall k :: 0 <= k < |ops'| ==> ops[k] == ops'[k] && numbers[k + 1] == rest[k + 1];
    assert ConcatOnPositive(numbers, ops);
  }

  /** Undoing `*` by exact division: a witness for the quotient is one for `num`. */
  lemma MulStep(num: int, numbers: seq<int>, withConcat: bool)
    requires |numbers| >= 2 && numbers[|numbers| - 1] != 0 && num % numbers[|numbers| - 1] == 0
    requires Reachable(num / numbers[|numbers| - 1], numbers[..|numbers| - 1], withConcat)
    ensures Reachable(num, numbers, withConcat)
  {
    var a := numbers[|numbers| - 1];
    ReachableExtend(numbers, num / a, Mul, withConcat);
    ExactQuotient(num, a);
  }

  /** Undoing `||` by dropping the decimal suffix: a witness for the prefix is one for `num`. */
  lemma ConcatStep(num: int, numbers: seq<int>)
    requires |numbers| >= 2 && Deconcat(num, numbers[|numbers| - 1]).Some?
    requires Reachable(Deconcat(num, numbers[|numbers| - 1]).value, numbers[..|numbers| - 1], true)
    ensures Reachable(num, numbers, true)
  {
    var a := numbers[|numbers| - 1];
    var m := Deconcat(num, a).value;
    ReachableExtend(numbers, m, Concat, true);
    assert Apply(Concat, m, a) == m * Pow10(Digits(a)) + a;
  }

  /** Soundness of part 1: an accepted row has a `+`/`*` assignment reaching the target. */
  lemma {:induction false} SolveOneRowSound(num: int, numbers: seq<int>)
    requires NonZero(numbers) && SolveOneRow(num, numbers)
    ensures Reachable(num, numbers, false)
    decreases |numbers|
  {
    var n := |numbers|;
    if n == 1 {
      var ops: seq<Op> := [];
      assert Eval(numbers, ops) == num;
    } else {
      var a, rest := numbers[n - 1], numbers[..n - 1];
      assert NonZero(rest);
      if SolveOneRow(num - a, rest) {
        SolveOneRowSound(num - a, rest);
        ReachableExtend(numbers, num - a, Add, false);
      } else {
        SolveOneRowSound(num / a, rest);
        MulStep(num, numbers, false);
      }
    }
  }

  /** Soundness of part 2: an accepted row has a `+`/`*`/`||` assignment reaching the target. */
  lemma {:induction false} SolveOneRowWithConcatSound(num: int, numbers: seq<int>)
    requires NonZero(numbers) && SolveOneRowWithConcat(num, numbers)
    ensures Reachable(num, numbers, true)
    decreases |numbers|
  {
    var n := |numbers|;
    if n == 1 {
      var ops: seq<Op> := [];
      assert Eval(numbers, ops) == num;
    } else {
      var a, rest := numbers[n - 1], numbers[..n - 1];
      assert NonZero(rest);
      if SolveOneRowWithConcat(num - a, rest) {
        SolveOneRowWithConcatSound(num - a, rest);
        ReachableExtend(numbers, num - a, Add, true);
      } else if num % a == 0 && SolveOneRowWithConcat(num / a, rest) {
        SolveOneRowWithConcatSound(num / a, rest);
        MulStep(num, numbers, true);
      } else {
        SolveOneRowWithConcatSound(Deconcat(num, a).value, rest);
        ConcatStep(num, numbers);
      }
    }
  }

  predicate AllPositive(numbers: seq<int>)
  {
    forall k :: 0 <= k < |numbers| ==> numbers[k] >= 1
  }

  lemma {:induction false} EvalPositive(numbers: seq<int>, ops: seq<Op>)
    requires |numbers| >= 1 && |ops| == |numbers| - 1 && AllPositive(numbers)
    ensures Eval(numbers, ops) >= 1
  {
    if |numbers| > 1 {
      var v := Eval(numbers[..|numbers| - 1], ops[..|ops| - 1]);
      EvalPositive(numbers[..|numbers| - 1], ops[..|ops| - 1]);
      var a := numbers[|numbers| - 1];
      assert v * a >= 1;
      assert v * Pow10(Digits(a)) >= 1;
    }
  }

  /**
   * Completeness of part 1 for positive operands: the `a <= num` guard never
   * prunes a real solution, because every partial value is at least 1.
   */
  lemma {:induction false} SolveOneRowComplete(numbers: seq<int>, ops: seq<Op>)
    requires |numbers| >= 1 && |ops| == |numbers| - 1 && AllPositive(numbers) && AddMulOnly(ops)
    ensures SolveOneRow(Eval(numbers, ops), numbers)
  {
    if |numbers| > 1 {
      var rest, ops' := numbers[..|numbers| - 1], ops[..|ops| - 1];
      var a, v := numbers[|numbers| - 1], Eval(rest, ops');
      SolveOneRowComplete(rest, ops');
      EvalPositive(rest, ops');
      if ops[|ops| - 1] == Mul {
        UndoMul(v, a);
      }
    }
  }

  /** Undoing `*` on a product of positive numbers gets the left factor back. */
  lemma UndoMul(v: int, a: int)
    requires v >= 1 && a >= 1
    ensures a <= v * a && (v * a) % a == 0 && (v * a) / a == v
  {
    DivModUnique(v * a, a, v, 0);
    MulAtLeast(v, a);
  }

  /** Undoing `||` on a concatenation of positive numbers gets the left part back. */
  lemma UndoConcat(v: int, a: int)
    requires v >= 1 && a >= 1
    ensures a <= Apply(Concat, v, a) && Deconcat(Apply(Concat, v, a), a) == Some(v)
  {
    var p := Pow10(Digits(a));
    DivModUnique(v * p + a, p, v, a);
    MulAtLeast(v, p);
  }

  /** Part 2's solver accepts as soon as one of its three branches does. */
  lemma WithConcatAccepts(num: int, numbers: seq<int>, m: int)
    requires NonZero(numbers) && |numbers| >= 2
    requires numbers[|numbers| - 1] <= num
    requires SolveOneRowWithConcat(m, numbers[..|numbers| - 1])
    requires var a := numbers[|numbers| - 1];
      m == num - a || (num % a == 0 && m == num / a) || Deconcat(num, a) == Some(m)
    ensures SolveOneRowWithConcat(num, numbers)
  {
  }

  /** Completeness of part 2 for positive operands. */
  lemma {:induction false} SolveOneRowWithConcatComplete(numbers: seq<int>, ops: seq<Op>)
    requires |numbers| >= 1 && |ops| == |numbers| - 1 && AllPositive(numbers)
    ensures SolveOneRowWithConcat(Eval(numbers, ops), numbers)
  {
    if |numbers| > 1 {
      var rest, ops' := numbers[..|numbers| - 1], ops[..|ops| - 1];
      var a, v := numbers[|numbers| - 1], Eval(rest, ops');
      assert AllPositive(rest);
      SolveOneRowWithConcatComplete(rest, ops');
      EvalPositive(rest, ops');
      var num := Eval(numbers, ops);
      match ops[|ops| - 1]
      case Add =>
        WithConcatAccepts(num, numbers, v);
      case Mul =>
        UndoMul(v, a);
        WithConcatAccepts(num, numbers, v);
      case Concat =>
        UndoConcat(v, a);
        WithConcatAccepts(num, numbers, v);
    }
  }

  /** Part 1's solver accepts a row of two or more operands only through one of its two branches. */
  lemma SolveOneRowBranches(num: int, numbers: seq<int>)
    requires NonZero(numbers) && |numbers| >= 2 && SolveOneRow(num, numbers)
    ensures var a, rest := numbers[|numbers| - 1], numbers[..|numbers| - 1];
      NonZero(rest) && a <= num
      && (SolveOneRow(num - a, rest) || (num % a == 0 && SolveOneRow(num / a, rest)))
  {
  }

  /** Whatever part 1 accepts, part 2 accepts too. */
  lemma {:induction false} SolveOneRowImpliesWithConcat(num: int, numbers: seq<int>)
    requires NonZero(numbers) && SolveOneRow(num, numbers)
    ensures SolveOneRowWithConcat(num, numbers)
    decreases |numbers|
  {
    if |numbers| > 1 {
      var a, rest := numbers[|numbers| - 1], numbers[..|numbers| - 1];
      SolveOneRowBranches(num, numbers);
      if SolveOneRow(num - a, rest) {
        SolveOneRowImpliesWithConcat(num - a, rest);
        WithConcatAccepts(num, numbers, num - a);
      } else {
        SolveOneRowImpliesWithConcat(num / a, rest);
        WithConcatAccepts(num, numbers, num / a);
      }
    }
  }

  /** For positive operands each solver accepts exactly the reachable targets. */
  lemma SolverDecidesReachable(num: int, numbers: seq<int>, withConcat: bool)
    requires AllPositive(numbers)
    ensures (if withConcat then SolveOneRowWithConcat(num, numbers) else SolveOneRow(num, numbers))
            <==> Reachable(num, numbers, withConcat)
  {
    if withConcat {
      if SolveOneRowWithConcat(num, numbers) {
        SolveOneRowWithConcatSound(num, numbers);
      }
      if Reachable(num, numbers, true) {
        var ops :| |ops| == |numbers| - 1 && Eval(numbers, ops) == num;
        SolveOneRowWithConcatComplete(numbers, ops);
      }
    } else {
      if SolveOneRow(num, numbers) {
        SolveOneRowSound(num, numbers);
      }
      if Reachable(num, numbers, false) {
        var ops :| |ops| == |numbers| - 1 && AddMulOnly(ops) && Eval(numbers, ops) == num;
        SolveOneRowComplete(numbers, ops);
      }
    }
  }

  // ---------------------------------------------------------------------
  // Reading the rows

  datatype LineKind = Skipped | Malformed | Row(eq: Equation)

  /**
   * One line of `parse_inputs`: without ':' it is skipped; otherwise the
   * trimmed text before the first ':' must parse as the target and at least
   * one space-separated token after it as an operand (others are dropped).
   */
  function ClassifyLine(line: string): (r: LineKind)
    ensures r.Skipped? <==> ':' !in line
    ensures r.Row? ==> |r.eq.operands| >= 1
    ensures r.Row? ==> forall k :: 0 <= k < |r.eq.operands| ==> ISIZE_MIN <= r.eq.operands[k] <= ISIZE_MAX
  {
    var pieces := Split(line, ':');
    SplitSeparates(line, ':');
    if |pieces| < 2 then Skipped
    else
      var target := ParseInt(Trim(pieces[0]), ISIZE_MIN, ISIZE_MAX);
      var operands := ParsedTokens(Split(Trim(pieces[1]), ' '), ISIZE_MIN, ISIZE_MAX);
      if target.Some? && |operands| > 0 then Row(Equation(target.value, operands)) else Malformed
  }

  /** Every line classified. */
  function Classify(lines: seq<string>): (kinds: seq<LineKind>)
    ensures |kinds| == |lines|
    ensures forall k :: 0 <= k < |lines| ==> kinds[k] == ClassifyLine(lines[k])
  {
    seq(|lines|, k requires 0 <= k < |lines| => ClassifyLine(lines[k]))
  }

  /** The rows of the classified lines in order, or an error if any line is malformed. */
  function Rows(kinds: seq<LineKind>): (r: Result<seq<Equation>>)
    ensures r.Err? <==> exists k :: 0 <= k < |kinds| && kinds[k].Malformed?
    ensures r.Ok? ==> |r.value| <= |kinds|
    ensures r.Ok? ==> forall k :: 0 <= k < |r.value| ==> exists j :: 0 <= j < |kinds| && kinds[j] == Row(r.value[k])
  {
    if |kinds| == 0 then Ok([])
    else
      var front, last := kinds[..|kinds| - 1], kinds[|kinds| - 1];
      assert forall k :: 0 <= k < |front| ==> front[k] == kinds[k];
      match Rows(front)
      case Err(e) => Err(e)
      case Ok(rows) =>
        match last
        case Skipped => Ok(rows)
        case Malformed => Err(Other("Input file is not correctly formatted."))
        case Row(eq) =>
          assert kinds[|kinds| - 1] == Row(eq);
          Ok(rows + [eq])
  }

  /** The rows of the input text. */
  function ParseRows(text: string): Result<seq<Equation>>
  {
    Rows(Classify(Lines(text)))
  }

  /** `parse_inputs` on text already read: one pass over the lines, stopping at the first malformed one. */
  method ParseInputs(text: string) returns (r: Result<seq<Equation>>)
    ensures r == ParseRows(text)
  {
    var lines := Lines(text);
    var kinds := Classify(lines);
    var outputs: seq<Equation> := [];
    for k := 0 to |lines|
      invariant Rows(kinds[..k]) == Ok(outputs)
    {
      assert kinds[..k + 1][..k] == kinds[..k];
      match ClassifyLine(lines[k])
      case Skipped =>
      case Malformed =>
        r := Err(Other("Input file is not correctly formatted."));
        RowsErrExtends(kinds, k + 1);
        return;
      case Row(eq) =>
        outputs := outputs + [eq];
    }
    assert kinds[..|kinds|] == kinds;
    r := Ok(outputs);
  }

  /** Once a prefix is malformed, the rest of the lines do not change the error. */
  lemma {:induction false} RowsErrExtends(kinds: seq<LineKind>, k: nat)
    requires k <= |kinds| && Rows(kinds[..k]).Err?
    ensures Rows(kinds) == Rows(kinds[..k])
    decreases |kinds| - k
  {
    if k < |kinds| {
      assert kinds[..k + 1][..k] == kinds[..k];
      RowsErrExtends(kinds, k + 1);
    } else {
      assert kinds[..k] == kinds;
    }
  }

  // ---------------------------------------------------------------------
  // The part answers

  /** The sum of the targets of the rows the chosen solver accepts. */
  function Calibration(rows: seq<Equation>, withConcat: bool): int
    requires AllNonZero(rows)
  {
    if |rows| == 0 then 0
    else
      var row := rows[|rows| - 1];
      var solved := if withConcat then SolveOneRowWithConcat(row.target, row.operands)
                    else SolveOneRow(row.target, row.operands);
      Calibration(rows[..|rows| - 1], withConcat) + (if solved then row.target else 0)
  }

  /** The summing loop of `d7_part1_solution` (`withConcat` false) and `d7_part2_solution` (true). */
  method TotalCalibration(rows: seq<Equation>, withConcat: bool) returns (sum: int)
    requires AllNonZero(rows)
    ensures sum == Calibration(rows, withConcat)
  {
    sum := 0;
    for k := 0 to |rows|
      invariant sum == Calibration(rows[..k], withConcat)
    {
      assert rows[..k + 1][..k] == rows[..k];
      var row := rows[k];
      var solvable := if withConcat then SolveOneRowWithConcat(row.target, row.operands)
                      else SolveOneRow(row.target, row.operands);
      if solvable {
        sum := sum + row.target;
      }
    }
    assert rows[..|rows|] == rows;
  }

  /** A part of day 7 on the text of the input file. */
  method Solution(text: string, withConcat: bool) returns (r: Result<int>)
    requires ParseRows(text).Ok? ==> AllNonZero(ParseRows(text).value)
    ensures r.Err? <==> exists k :: 0 <= k < |Lines(text)| && ClassifyLine(Lines(text)[k]).Malformed?
    ensures r.Ok? ==> r.value == Calibration(ParseRows(text).value, withConcat)
  {
    var rows := ParseInputs(text);
    match rows
    case Err(e) => r := Err(e);
    case Ok(rs) =>
      var sum := TotalCalibration(rs, withConcat);
      r := Ok(sum);
  }

  /** The sum of the targets that some operator choice reaches. */
  ghost function ReachableSum(rows: seq<Equation>, withConcat: bool): int
  {
    if |rows| == 0 then 0
    else
      var row := rows[|rows| - 1];
      ReachableSum(rows[..|rows| - 1], withConcat)
      + (if Reachable(row.target, row.operands, withConcat) then row.target else 0)
  }

  /** With positive operands, each part's answer is the sum of the targets the operators can reach. */
  lemma {:induction false} CalibrationIsReachableSum(rows: seq<Equation>, withConcat: bool)
    requires forall k :: 0 <= k < |rows| ==> AllPositive(rows[k].operands)
    ensures AllNonZero(rows) && Calibration(rows, withConcat) == ReachableSum(rows, withConcat)
  {
    if |rows| > 0 {
      var row := rows[|rows| - 1];
      CalibrationIsReachableSum(rows[..|rows| - 1], withConcat);
      SolverDecidesReachable(row.target, row.operands, withConcat);
    }
  }

  /** With non-negative targets, part 2's answer is at least part 1's. */
  lemma {:induction false} Part2AtLeastPart1(rows: seq<Equation>)
    requires AllNonZero(rows)
    requires forall k :: 0 <= k < |rows| ==> rows[k].target >= 0
    ensures Calibration(rows, false) <= Calibration(rows, true)
  {
    if |rows| > 0 {
      var row := rows[|rows| - 1];
      Part2AtLeastPart1(rows[..|rows| - 1]);
      if SolveOneRow(row.target, row.operands) {
        SolveOneRowImpliesWithConcat(row.target, row.operands);
      }
    }
  }
}
