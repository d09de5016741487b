/**
 * Day 2: a report (a line of integers) is safe when its levels move
 * strictly in one direction by steps of 1 to 3; with the "problem dampener"
 * it is also safe when removing a single level makes it so.
 */
module Day2 {
  import opened Wrappers
  import opened Text

  function Abs(x: int): nat
  {
    if x < 0 then -x else x
  }

  /** Every step between neighbours rises by 1 to 3. */
  predicate Increasing(data: seq<int>)
  {
    forall k :: 0 <= k < |data| - 1 ==> 1 <= data[k + 1] - data[k] <= 3
  }

  /** Every step between neighbours falls by 1 to 3. */
  predicate Decreasing(data: seq<int>)
  {
    forall k :: 0 <= k < |data| - 1 ==> -3 <= data[k + 1] - data[k] <= -1
  }

  /** A safe report, as `check_safety` decides it. */
  predicate IsSafe(data: seq<int>)
  {
    |data| <= 1 || Increasing(data) || Decreasing(data)
  }

  /** The report without its level at index `k`. */
  function RemoveAt(data: seq<int>, k: nat): (r: seq<int>)
    requires k < |data|
    ensures |r| == |data| - 1
  {
    data[..k] + data[k + 1..]
  }

  /** The levels of the shortened report, by index. */
  lemma RemoveAtElements(data: seq<int>, k: nat)
    requires k < |data|
    ensures forall m :: 0 <= m < |data| - 1 ==> RemoveAt(data, k)[m] == if m < k then data[m] else data[m + 1]
  {
    var front, back := data[..k], data[k + 1..];
    assert RemoveAt(data, k) == front + back;
    forall m | 0 <= m < |data| - 1
      ensures (front + back)[m] == if m < k then data[m] else data[m + 1]
    {
      if m >= k {
        assert (front + back)[m] == back[m - k];
      }
    }
  }

  /** A report safe with the dampener: short, or safe once some single level is removed. */
  predicate DampenedSafe(data: seq<int>)
  {
    |data| <= 1 || exists k :: 0 <= k < |data| && SafeWithoutLevel(data, k)
  }

  /** The report is safe once its level at index `k` is removed. */
  predicate SafeWithoutLevel(data: seq<int>, k: nat)
    requires k < |data|
  {
    IsSafe(RemoveAt(data, k))
  }

  // What the flags of `check_safety` hold after the first `n` windows.
  predicate RisesFor(data: seq<int>, n: nat)
    requires n < |data|
  {
    forall m :: 0 <= m < n ==> data[m + 1] - data[m] > 0
  }

  predicate FallsFor(data: seq<int>, n: nat)
    requires n < |data|
  {
    forall m :: 0 <= m < n ==> data[m + 1] - data[m] < 0
  }

  predicate BoundedFor(data: seq<int>, n: nat)
    requires n < |data|
  {
    forall m :: 0 <= m < n ==> 1 <= Abs(data[m + 1] - data[m]) <= 3
  }

  /** The flags over a prefix of windows fail once they fail over a shorter one. */
  lemma FlagsPrefix(data: seq<int>, n: nat, n': nat)
    requires n <= n' < |data|
    ensures RisesFor(data, n') ==> RisesFor(data, n)
    ensures FallsFor(data, n') ==> FallsFor(data, n)
    ensures BoundedFor(data, n') ==> BoundedFor(data, n)
  {
  }

  /** One more window extends each flag by its own test. */
  lemma FlagsStep(data: seq<int>, n: nat)
    requires n + 1 < |data|
    ensures RisesFor(data, n + 1) == (RisesFor(data, n) && data[n + 1] - data[n] > 0)
    ensures FallsFor(data, n + 1) == (FallsFor(data, n) && data[n + 1] - data[n] < 0)
    ensures BoundedFor(data, n + 1) == (BoundedFor(data, n) && 1 <= Abs(data[n + 1] - data[n]) <= 3)
  {
  }

  /** Over all windows, the flags decide safety. */
  lemma FlagsDecideSafety(data: seq<int>)
    requires |data| >= 2
    ensures IsSafe(data) <==>
      (RisesFor(data, |data| - 1) || FallsFor(data, |data| - 1)) && BoundedFor(data, |data| - 1)
  {
  }

  /**
   * `check_safety`: one pass over the windows of two, keeping whether every
   * difference so far was positive, negative and of size 1 to 3, and
   * stopping as soon as the combination fails.
   */
  method CheckSafety(data: seq<int>) returns (safe: bool)
    ensures safe == IsSafe(data)
  {
    if |data| <= 1 {
      return true;
    }
    var allPos, allNeg, withinBound, answer := true, true, true, true;
    for k := 0 to |data| - 1
      invariant allPos == RisesFor(data, k)
      invariant allNeg == FallsFor(data, k)
      invariant withinBound == BoundedFor(data, k)
      invariant answer == ((allPos || allNeg) && withinBound)
    {
      var diff := data[k + 1] - data[k];
      FlagsStep(data, k);
      allPos := allPos && diff > 0;
      allNeg := allNeg && diff < 0;
      withinBound := withinBound && 1 <= Abs(diff) && Abs(diff) <= 3;
      answer := (allPos || allNeg) && withinBound;
      if !answer {
        FlagsPrefix(data, k + 1, |data| - 1);
        FlagsDecideSafety(data);
        return false;
      }
    }
    FlagsDecideSafety(data);
    safe := answer;
  }

  /** The shortened copy of `check_safety_with_dampener`: a zeroed buffer of one less level, filled by index. */
  method RemovedCopy(data: seq<int>, j: nat) returns (newData: array<int>)
    requires j < |data|
    ensures fresh(newData) && newData[..] == RemoveAt(data, j)
  {
    newData := new int[|data| - 1](_ => 0);
    for i := 0 to j
      invariant forall m :: 0 <= m < i ==> newData[m] == data[m]
    {
      newData[i] := data[i];
    }
    for i := j to newData.Length
      invariant forall m :: 0 <= m < j ==> newData[m] == data[m]
      invariant forall m :: j <= m < i ==> newData[m] == data[m + 1]
    {
      newData[i] := data[i + 1];
    }
    RemoveAtElements(data, j);
  }

  /**
   * `check_safety_with_dampener`: the report without its first level, then
   * each shortened copy in turn, stopping at the first safe one.
   */
  method CheckSafetyWithDampener(data: seq<int>) returns (safe: bool)
    ensures safe == DampenedSafe(data)
  {
    if |data| <= 1 {
      return true;
    }
    safe := CheckSafety(data[1..]);
    RemoveFirst(data);
    if safe {
      DampenedWitness(data, 0);
      return true;
    }
    for j := 1 to |data|
      invariant forall m :: 0 <= m < j ==> !SafeWithoutLevel(data, m)
    {
      safe := SafeWithout(data, j);
      if safe {
        DampenedWitness(data, j);
        return true;
      }
    }
    NoDampenedWitness(data);
  }

  lemma RemoveFirst(data: seq<int>)
    requires |data| >= 1
    ensures SafeWithoutLevel(data, 0) == IsSafe(data[1..])
  {
    assert RemoveAt(data, 0) == data[1..];
  }

  lemma DampenedWitness(data: seq<int>, k: nat)
    requires k < |data| && SafeWithoutLevel(data, k)
    ensures DampenedSafe(data)
  {
  }

  lemma NoDampenedWitness(data: seq<int>)
    requires forall m :: 0 <= m < |data| ==> !SafeWithoutLevel(data, m)
    requires |data| >= 2
    ensures !DampenedSafe(data)
  {
  }

  /** One round of the dampener loop: the shortened copy, then the plain check on it. */
  method SafeWithout(data: seq<int>, j: nat) returns (safe: bool)
    requires j < |data|
    ensures safe == SafeWithoutLevel(data, j)
  {
    var newData := RemovedCopy(data, j);
    safe := CheckSafety(newData[..]);
  }

  /** Dropping the first level keeps a safe report safe. */
  lemma SafeTail(data: seq<int>)
    requires |data| >= 1 && IsSafe(data)
    ensures IsSafe(data[1..])
  {
    if |data| >= 2 {
      var t := data[1..];
      assert forall k :: 0 <= k < |t| - 1 ==> t[k + 1] - t[k] == data[k + 2] - data[k + 1];
    }
  }

  /** The dampener never rejects what the plain check accepts. */
  lemma SafeImpliesDampenedSafe(data: seq<int>)
    requires IsSafe(data)
    ensures DampenedSafe(data)
  {
    if |data| >= 2 {
      SafeTail(data);
      assert RemoveAt(data, 0) == data[1..];
      DampenedWitness(data, 0);
    }
  }

  /** Every report of two levels passes the dampener. */
  lemma PairDampenedSafe(data: seq<int>)
    requires |data| == 2
    ensures DampenedSafe(data)
  {
    assert IsSafe(RemoveAt(data, 0));
    DampenedWitness(data, 0);
  }

  /** A report of three levels that fails the dampener although its first two levels pass it. */
  lemma DampenerNotHereditary()
    ensures DampenedSafe([1, 2]) && !DampenedSafe([1, 10, 20])
  {
    PairDampenedSafe([1, 2]);
    var d := [1, 10, 20];
    forall k | 0 <= k < 3
      ensures !SafeWithoutLevel(d, k)
    {
      var r := RemoveAt(d, k);
      RemoveAtElements(d, k);
      assert r[1] - r[0] > 3;
    }
  }

  // ---------------------------------------------------------------------
  // Reading reports

  /** The tokens parsed as `i32`s in order, or `ParseIntError` at the first that is not one. */
  function ParseAll(tokens: seq<string>): (r: Result<seq<int>>)
    ensures r.Ok? <==> forall k :: 0 <= k < |tokens| ==> ParseInt(tokens[k], I32_MIN, I32_MAX).Some?
    ensures r.Ok? ==> |r.value| == |tokens|
    ensures r.Ok? ==> forall k :: 0 <= k < |tokens| ==> r.value[k] == ParseInt(tokens[k], I32_MIN, I32_MAX).value
    ensures r.Err? ==> r.error == ParseIntError
  {
    if |tokens| == 0 then Ok([])
    else
      var front := tokens[..|tokens| - 1];
      assert forall k :: 0 <= k < |front| ==> front[k] == tokens[k];
      match ParseAll(front)
      case Err(e) => Err(e)
      case Ok(values) =>
        match ParseInt(tokens[|tokens| - 1], I32_MIN, I32_MAX)
        case None => Err(ParseIntError)
        case Some(v) => Ok(values + [v])
  }

  /** `parse_line`: the space-separated tokens of the line as `i32`s. */
  method ParseLine(line: string) returns (r: Result<seq<int>>)
    ensures r == ParseAll(Split(line, ' '))
  {
    var tokens := Split(line, ' ');
    var numbers: seq<int> := [];
    for k := 0 to |tokens|
      invariant ParseAll(tokens[..k]) == Ok(numbers)
    {
      assert tokens[..k + 1][..k] == tokens[..k];
      match ParseInt(tokens[k], I32_MIN, I32_MAX)
      case None =>
        ParseAllErrExtends(tokens, k + 1);
        return Err(ParseIntError);
      case Some(v) =>
        numbers := numbers + [v];
    }
    assert tokens[..|tokens|] == tokens;
    r := Ok(numbers);
  }

  lemma {:induction false} ParseAllErrExtends(tokens: seq<string>, k: nat)
    requires k <= |tokens| && ParseAll(tokens[..k]).Err?
    ensures ParseAll(tokens) == ParseAll(tokens[..k])
    decreases |tokens| - k
  {
    if k < |tokens| {
      assert tokens[..k + 1][..k] == tokens[..k];
      RowsPrefix(tokens, k);
      ParseAllErrExtends(tokens, k + 1);
    } else {
      assert tokens[..k] == tokens;
    }
  }

  lemma RowsPrefix(tokens: seq<string>, k: nat)
    requires k < |tokens| && ParseAll(tokens[..k]).Err?
    ensures ParseAll(tokens[..k + 1]) == ParseAll(tokens[..k])
  {
    assert tokens[..k + 1][..k] == tokens[..k];
  }

  /** Whether a line is a report that parses and passes the chosen check. */
  predicate Counts(line: string, dampened: bool)
  {
    var r := ParseAll(Split(line, ' '));
    r.Ok? && (if dampened then DampenedSafe(r.value) else IsSafe(r.value))
  }

  /** The number of lines that count. */
  function SafeCount(lines: seq<string>, dampened: bool): (n: nat)
    ensures n <= |lines|
  {
    if |lines| == 0 then 0
    else SafeCount(lines[..|lines| - 1], dampened) + (if Counts(lines[|lines| - 1], dampened) then 1 else 0)
  }

  /** The body of the counting loops: parse the line, then run the chosen check on a report that parsed. */
  method LineCounts(line: string, dampened: bool) returns (ok: bool)
    ensures ok == Counts(line, dampened)
  {
    var v := ParseLine(line);
    ok := false;
    if v.Ok? {
      if dampened {
        ok := CheckSafetyWithDampener(v.value);
      } else {
        ok := CheckSafety(v.value);
      }
    }
  }

  /** The counting loop of `d2_part1_solution` (`dampened` false) and `d2_part2_solution` (true). */
  method CountSafeReports(lines: seq<string>, dampened: bool) returns (count: nat)
    ensures count == SafeCount(lines, dampened)
  {
    count := 0;
    for k := 0 to |lines|
      invariant count == SafeCount(lines[..k], dampened)
    {
      assert lines[..k + 1][..k] == lines[..k];
      var ok := LineCounts(lines[k], dampened);
      if ok {
        count := count + 1;
      }
    }
    assert lines[..|lines|] == lines;
  }

  /** A part of day 2 on the text of the input file. */
  method Solution(text: string, dampened: bool) returns (count: nat)
    ensures count == SafeCount(Lines(text), dampened)
  {
    count := CountSafeReports(Lines(text), dampened);
  }

  /** Part 2 counts every report part 1 counts. */
  lemma {:induction false} Part1AtMostPart2(lines: seq<string>)
    ensures SafeCount(lines, false) <= SafeCount(lines, true)
  {
    if |lines| > 0 {
      Part1AtMostPart2(lines[..|lines| - 1]);
      var r := ParseAll(Split(lines[|lines| - 1], ' '));
      if r.Ok? && IsSafe(r.value) {
        SafeImpliesDampenedSafe(r.value);
      }
    }
  }
}
