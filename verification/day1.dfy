/**
 * Day 1: two columns of location ids. Part 1 sorts both columns and sums
 * the distances between ids of the same rank; part 2 scores each id of the
 * left column by how often it appears in the right one.
 */
module Day1 {
  import opened Wrappers
  import opened Text

  /** The separator between the two columns of a line: three spaces. */
  const Gap: string := "   "

  // ---------------------------------------------------------------------
  // Reading the columns

  /**
   * The ids of one line: the first two pieces of `line.split("   ")`, both
   * parsed as `usize`. A line without the separator has no second piece.
   */
  function PairOf(line: string): (r: Option<(nat, nat)>)
    ensures r.Some? ==> FindSub(line, Gap).Some?
    ensures r.Some? ==> r.value.0 <= USIZE_MAX && r.value.1 <= USIZE_MAX
  {
    match FindSub(line, Gap)
    case None => None
    case Some(k) =>
      var rest := line[k + |Gap|..];
      var second := match FindSub(rest, Gap) case None => rest case Some(m) => rest[..m];
      var a, b := ParseInt(line[..k], 0, USIZE_MAX), ParseInt(second, 0, USIZE_MAX);
      if a.Some? && b.Some? then Some((a.value as nat, b.value as nat)) else None
  }

  function LeftOf(line: string): Option<nat>
  {
    match PairOf(line) case Some(p) => Some(p.0) case None => None
  }

  function RightOf(line: string): Option<nat>
  {
    match PairOf(line) case Some(p) => Some(p.1) case None => None
  }

  /** `filter_map`: the values `f` gives, in order, skipping the `None`s. */
  function FilterMap<A, B>(f: A -> Option<B>, s: seq<A>): (r: seq<B>)
    ensures |r| <= |s|
  {
    if |s| == 0 then []
    else FilterMap(f, s[..|s| - 1]) + match f(s[|s| - 1]) case Some(b) => [b] case None => []
  }

  /** The left and right columns: the ids of every line that reads as a pair. */
  function Lefts(lines: seq<string>): seq<nat>
  {
    FilterMap(LeftOf, lines)
  }

  function Rights(lines: seq<string>): seq<nat>
  {
    FilterMap(RightOf, lines)
  }

  /** A line adds to both columns or to neither, so the columns have the same length. */
  lemma {:induction false} ColumnsSameLength(lines: seq<string>)
    ensures |Lefts(lines)| == |Rights(lines)|
  {
    if |lines| > 0 {
      ColumnsSameLength(lines[..|lines| - 1]);
    }
  }

  lemma {:induction false} FilterMapAppend<A, B>(f: A -> Option<B>, a: seq<A>, b: seq<A>)
    ensures FilterMap(f, a + b) == FilterMap(f, a) + FilterMap(f, b)
    decreases |b|
  {
    if |b| > 0 {
      var front := b[..|b| - 1];
      assert (a + b)[..|a + b| - 1] == a + front;
      FilterMapAppend(f, a, front);
    } else {
      assert a + b == a;
    }
  }

  /** What `filter_map` keeps depends only on the multiset of its input, not on the order. */
  lemma {:induction false} FilterMapPermutation<A, B>(f: A -> Option<B>, a: seq<A>, b: seq<A>)
    requires multiset(a) == multiset(b)
    ensures multiset(FilterMap(f, a)) == multiset(FilterMap(f, b))
    decreases |a|
  {
    if |a| == 0 {
      assert |b| == |multiset(b)| == 0;
    } else {
      var x := a[|a| - 1];
      var front := a[..|a| - 1];
      assert x in multiset(b) by {
        assert a == front + [x];
      }
      var i :| 0 <= i < |b| && b[i] == x;
      var rest := RemoveOne(a, b, i);
      FilterMapPermutation(f, front, rest);
      FilterMapMoved(f, front, x, b, i);
    }
  }

  /** Taking the last element of `a` out of `b` at index `i` leaves equal multisets. */
  lemma RemoveOne<A>(a: seq<A>, b: seq<A>, i: nat) returns (rest: seq<A>)
    requires multiset(a) == multiset(b) && |a| > 0 && i < |b| && b[i] == a[|a| - 1]
    ensures rest == b[..i] + b[i + 1..]
    ensures multiset(a[..|a| - 1]) == multiset(rest)
  {
    rest := b[..i] + b[i + 1..];
    assert a == a[..|a| - 1] + [a[|a| - 1]];
    SplitAround(b, i);
    assert multiset(a) == multiset{a[|a| - 1]} + multiset(a[..|a| - 1]);
    assert multiset(b) == multiset{b[i]} + multiset(rest);
    MultisetCancel(b[i], multiset(a[..|a| - 1]), multiset(rest));
  }

  lemma SplitAround<A>(b: seq<A>, i: nat)
    requires i < |b|
    ensures b == b[..i] + [b[i]] + b[i + 1..]
  {
  }

  /** The same element taken from equal multisets leaves equal multisets. */
  lemma MultisetCancel<A>(x: A, m1: multiset<A>, m2: multiset<A>)
    requires multiset{x} + m1 == multiset{x} + m2
    ensures m1 == m2
  {
    forall y ensures m1[y] == m2[y] {
      assert (multiset{x} + m1)[y] == (multiset{x} + m2)[y];
    }
  }

  /** Moving one element to the end keeps the multiset of what `filter_map` keeps. */
  lemma FilterMapMoved<A, B>(f: A -> Option<B>, front: seq<A>, x: A, b: seq<A>, i: nat)
    requires i < |b| && b[i] == x
    requires multiset(FilterMap(f, front)) == multiset(FilterMap(f, b[..i] + b[i + 1..]))
    ensures multiset(FilterMap(f, front + [x])) == multiset(FilterMap(f, b))
  {
    var before, after := b[..i], b[i + 1..];
    SplitAround(b, i);
    FilterMapAppend(f, before + [x], after);
    FilterMapAppend(f, before, [x]);
    var P, X, Q := FilterMap(f, before), FilterMap(f, [x]), FilterMap(f, after);
    assert FilterMap(f, b) == P + X + Q;
    FilterMapAppend(f, before, after);
    assert FilterMap(f, before + after) == P + Q;
    FilterMapAppend(f, front, [x]);
    MultisetShuffle(FilterMap(f, front), P, X, Q);
  }

  lemma MultisetShuffle<B>(F: seq<B>, P: seq<B>, X: seq<B>, Q: seq<B>)
    requires multiset(F) == multiset(P + Q)
    ensures multiset(F + X) == multiset(P + X + Q)
  {
  }

  lemma FilterMapPrefix<A, B>(f: A -> Option<B>, s: seq<A>, k: nat)
    requires k < |s|
    ensures FilterMap(f, s[..k + 1]) == FilterMap(f, s[..k]) + match f(s[k]) case Some(b) => [b] case None => []
  {
    assert s[..k + 1][..k] == s[..k];
  }

  /** The column-reading loop of `d1_part1_solution`: push both ids of each line that parses. */
  method ParseColumns(lines: seq<string>) returns (c1: seq<nat>, c2: seq<nat>)
    ensures c1 == Lefts(lines) && c2 == Rights(lines)
    ensures |c1| == |c2|
  {
    c1, c2 := [], [];
    for k := 0 to |lines|
      invariant c1 == Lefts(lines[..k]) && c2 == Rights(lines[..k])
    {
      FilterMapPrefix(LeftOf, lines, k);
      FilterMapPrefix(RightOf, lines, k);
      match PairOf(lines[k])
      case Some((id1, id2)) =>
        c1 := c1 + [id1];
        c2 := c2 + [id2];
      case None =>
    }
    assert lines[..|lines|] == lines;
    ColumnsSameLength(lines);
  }

  /** Two ids separated by the gap read back as that pair. */
  lemma PairOfShown(a: nat, b: nat)
    requires a <= USIZE_MAX && b <= USIZE_MAX
    ensures PairOf(Decimal(a) + Gap + Decimal(b)) == Some((a, b))
  {
    var da, db := Decimal(a), Decimal(b);
    var line := da + Gap + db;
    NoGapInDigits(da);
    NoGapInDigits(db);
    assert OccursAt(line, Gap, |da|) by {
      assert line[|da|..|da| + 3] == Gap;
    }
    forall m: nat | m < |da| ensures !OccursAt(line, Gap, m) {
      if m + 3 <= |line| {
        assert line[m] == da[m];
        assert line[m..m + 3][0] == line[m];
      }
    }
    assert FindSub(line, Gap) == Some(|da|);
    assert line[..|da|] == da;
    assert line[|da| + 3..] == db;
    ParseShow(a, 0, USIZE_MAX);
    ParseShow(b, 0, USIZE_MAX);
  }

  lemma NoGapInDigits(s: string)
    requires AllDigits(s)
    ensures FindSub(s, Gap).None?
  {
    forall k: nat | k + 3 <= |s|
      ensures !OccursAt(s, Gap, k)
    {
      assert s[k..k + 3][0] == s[k];
    }
  }

  // ---------------------------------------------------------------------
  // Sorting

  predicate Sorted(s: seq<nat>)
  {
    forall i, j :: 0 <= i < j < |s| ==> s[i] <= s[j]
  }

  /** `x` placed before the first element of `s` that is not smaller. */
  function Insert(s: seq<nat>, x: nat): seq<nat>
  {
    if |s| == 0 then [x]
    else if x <= s[0] then [x] + s
    else [s[0]] + Insert(s[1..], x)
  }

  /** The ascending order of the ids in `s`; `sort_unstable` yields it whatever algorithm it uses. */
  function Sort(s: seq<nat>): seq<nat>
  {
    if |s| == 0 then [] else Insert(Sort(s[..|s| - 1]), s[|s| - 1])
  }

  /** Insertion adds `x` to the ids. */
  lemma {:induction false} InsertPermutes(s: seq<nat>, x: nat)
    ensures multiset(Insert(s, x)) == multiset(s) + multiset{x}
  {
    if |s| > 0 && x > s[0] {
      InsertPermutes(s[1..], x);
      assert s == [s[0]] + s[1..];
    }
  }

  /** Insertion keeps a sequence ascending, and starts with the smaller of `x` and the old first id. */
  lemma {:induction false} InsertSorted(s: seq<nat>, x: nat)
    requires Sorted(s)
    ensures Sorted(Insert(s, x))
    ensures Insert(s, x)[0] == (if |s| > 0 && s[0] < x then s[0] else x)
  {
    if |s| > 0 && x > s[0] {
      InsertSorted(s[1..], x);
      InsertedAfter(s[0], Insert(s[1..], x));
    }
  }

  /** An id no larger than the first of a sorted sequence can go in front of it. */
  lemma InsertedAfter(y: nat, r: seq<nat>)
    requires Sorted(r) && |r| > 0 && y <= r[0]
    ensures Sorted([y] + r)
  {
  }

  /** The sorted column is an ascending permutation of the column. */
  lemma {:induction false} SortSpec(s: seq<nat>)
    ensures Sorted(Sort(s)) && multiset(Sort(s)) == multiset(s)
  {
    if |s| > 0 {
      SortSpec(s[..|s| - 1]);
      InsertPermutes(Sort(s[..|s| - 1]), s[|s| - 1]);
      InsertSorted(Sort(s[..|s| - 1]), s[|s| - 1]);
      assert s == s[..|s| - 1] + [s[|s| - 1]];
    }
  }

  /** Only one ascending sequence holds a given multiset of ids. */
  lemma {:induction false} SortedUnique(a: seq<nat>, b: seq<nat>)
    requires Sorted(a) && Sorted(b) && multiset(a) == multiset(b)
    ensures a == b
    decreases |a|
  {
    assert |a| == |multiset(a)| == |multiset(b)| == |b|;
    if |a| > 0 {
      SortedFirstIsLeast(a, b[0]);
      SortedFirstIsLeast(b, a[0]);
      assert a[0] == b[0];
      var a', b' := a[1..], b[1..];
      assert a == [a[0]] + a' && b == [b[0]] + b';
      assert multiset(a) == multiset{a[0]} + multiset(a');
      assert multiset(b) == multiset{b[0]} + multiset(b');
      MultisetCancel(a[0], multiset(a'), multiset(b'));
      SortedTail(a);
      SortedTail(b);
      SortedUnique(a', b');
    }
  }

  lemma SortedTail(s: seq<nat>)
    requires Sorted(s) && |s| > 0
    ensures Sorted(s[1..])
  {
  }

  lemma SortedFirstIsLeast(s: seq<nat>, y: nat)
    requires Sorted(s) && y in multiset(s)
    ensures |s| > 0 && s[0] <= y
  {
    var k :| 0 <= k < |s| && s[k] == y;
  }

  /** Sorting gives the same result for any reordering of the ids. */
  lemma SortPermutation(a: seq<nat>, b: seq<nat>)
    requires multiset(a) == multiset(b)
    ensures Sort(a) == Sort(b)
  {
    SortSpec(a);
    SortSpec(b);
    SortedUnique(Sort(a), Sort(b));
  }

  // ---------------------------------------------------------------------
  // Part 1

  function AbsDiff(x: nat, y: nat): nat
  {
    if x < y then y - x else x - y
  }

  /** The zip-fold of `d1_part1_solution`: the distances between ids of the same rank, as far as both columns go. */
  function Distance(a: seq<nat>, b: seq<nat>): nat
  {
    if |a| == 0 || |b| == 0 then 0 else AbsDiff(a[0], b[0]) + Distance(a[1..], b[1..])
  }

  /** The distance does not depend on which column comes first, and is zero exactly between equal columns. */
  lemma {:induction false} DistanceMetric(a: seq<nat>, b: seq<nat>)
    requires |a| == |b|
    ensures Distance(a, b) == Distance(b, a)
    ensures Distance(a, b) == 0 <==> a == b
  {
    if |a| > 0 {
      DistanceMetric(a[1..], b[1..]);
      if Distance(a, b) == 0 {
        assert a == [a[0]] + a[1..] && b == [b[0]] + b[1..];
      }
    }
  }

  /** `d1_part1_solution` on the text of the input: the total distance and both sorted columns. */
  method Part1(text: string) returns (totalDistance: nat, c1: seq<nat>, c2: seq<nat>)
    ensures c1 == Sort(Lefts(Lines(text))) && c2 == Sort(Rights(Lines(text)))
    ensures totalDistance == Distance(c1, c2)
  {
    c1, c2 := ParseColumns(Lines(text));
    c1 := Sort(c1);
    c2 := Sort(c2);
    totalDistance := Distance(c1, c2);
  }

  /** The returned columns are sorted permutations of the columns read, and of equal length. */
  lemma Part1Columns(lines: seq<string>)
    ensures Sorted(Sort(Lefts(lines))) && multiset(Sort(Lefts(lines))) == multiset(Lefts(lines))
    ensures Sorted(Sort(Rights(lines))) && multiset(Sort(Rights(lines))) == multiset(Rights(lines))
    ensures |Sort(Lefts(lines))| == |Sort(Rights(lines))|
  {
    SortSpec(Lefts(lines));
    SortSpec(Rights(lines));
    ColumnsSameLength(lines);
    assert |Sort(Lefts(lines))| == |multiset(Lefts(lines))|;
    assert |Sort(Rights(lines))| == |multiset(Rights(lines))|;
  }

  /** Reordering the lines of the input does not change the total distance. */
  lemma DistanceIgnoresLineOrder(lines: seq<string>, lines': seq<string>)
    requires multiset(lines) == multiset(lines')
    ensures Distance(Sort(Lefts(lines)), Sort(Rights(lines))) == Distance(Sort(Lefts(lines')), Sort(Rights(lines')))
  {
    FilterMapPermutation(LeftOf, lines, lines');
    FilterMapPermutation(RightOf, lines, lines');
    SortPermutation(Lefts(lines), Lefts(lines'));
    SortPermutation(Rights(lines), Rights(lines'));
  }

  // ---------------------------------------------------------------------
  // Part 2

  /** How often `v` occurs in `s`. */
  function Count(s: seq<nat>, v: nat): nat
  {
    multiset(s)[v]
  }

  /**
   * `partition_point(|i| *i <= v)`: the length of the leading run of ids
   * at most `v`; on a sorted slice, every later id is larger than `v`.
   */
  function AtMost(s: seq<nat>, v: nat): (r: nat)
    ensures r <= |s| && forall k :: 0 <= k < r ==> s[k] <= v
    ensures r < |s| ==> s[r] > v
  {
    if |s| == 0 || s[0] > v then 0 else 1 + AtMost(s[1..], v)
  }

  lemma {:induction false} PartitionPointSorted(s: seq<nat>, v: nat)
    requires Sorted(s)
    ensures forall k :: AtMost(s, v) <= k < |s| ==> s[k] > v
  {
  }

  /** `left.iter().rev().take_while(|&k| *k == id).count()`. */
  function TrailingRun(left: seq<nat>, id: nat): (r: nat)
    ensures r <= |left|
    ensures forall k :: |left| - r <= k < |left| ==> left[k] == id
    ensures r < |left| ==> left[|left| - r - 1] != id
  {
    if |left| == 0 || left[|left| - 1] != id then 0 else 1 + TrailingRun(left[..|left| - 1], id)
  }

  /** `count() * id`: the score of a run of `count` copies of `id`. */
  function RunScore(count: nat, id: nat): nat
  {
    count * id
  }

  /** The score the code computes: each distinct id of `c1` once, times its count in `c2`. */
  function DistinctSimilarity(c1: seq<nat>, c2: seq<nat>): nat
  {
    if |c1| == 0 then 0
    else
      var id := c1[|c1| - 1];
      var repeated := |c1| >= 2 && c1[|c1| - 2] == id;
      DistinctSimilarity(c1[..|c1| - 1], c2) + (if repeated then 0 else Count(c2, id) * id)
  }

  /** The similarity score: every id of `c1`, repeats included, times its count in `c2`. */
  function Similarity(c1: seq<nat>, c2: seq<nat>): nat
  {
    if |c1| == 0 then 0
    else
      var id := c1[|c1| - 1];
      Similarity(c1[..|c1| - 1], c2) + Count(c2, id) * id
  }

  lemma {:induction false} AtMostSuffix(s: seq<nat>, p: nat, v: nat)
    requires p <= AtMost(s, v)
    ensures AtMost(s[p..], v) == AtMost(s, v) - p
    decreases p
  {
    if p > 0 {
      AtMostSuffix(s[1..], p - 1, v);
      assert s[1..][p - 1..] == s[p..];
    }
  }

  lemma {:induction false} AtMostMonotone(s: seq<nat>, u: nat, v: nat)
    requires u <= v
    ensures AtMost(s, u) <= AtMost(s, v)
  {
    if |s| > 0 && s[0] <= u {
      AtMostMonotone(s[1..], u, v);
    }
  }

  /** On a sorted slice of ids at most `id`, the guarded trailing run counts every `id`. */
  lemma {:induction false} TrailingRunCounts(left: seq<nat>, id: nat)
    requires Sorted(left) && forall k :: 0 <= k < |left| ==> left[k] <= id
    ensures (if |left| == 0 || left[|left| - 1] < id then 0 else TrailingRun(left, id)) == Count(left, id)
  {
    if |left| > 0 {
      var front := left[..|left| - 1];
      CountLast(left, id);
      if left[|left| - 1] < id {
        CountAboveLast(left, id);
      } else {
        assert Sorted(front) && forall k :: 0 <= k < |front| ==> front[k] <= id;
        TrailingRunCounts(front, id);
        if |front| > 0 && front[|front| - 1] < id {
          CountAboveLast(front, id);
        }
      }
    }
  }

  lemma CountLast(s: seq<nat>, v: nat)
    requires |s| > 0
    ensures Count(s, v) == Count(s[..|s| - 1], v) + if s[|s| - 1] == v then 1 else 0
  {
    assert s == s[..|s| - 1] + [s[|s| - 1]];
  }

  /** An id above the last of a sorted sequence does not occur in it. */
  lemma CountAboveLast(s: seq<nat>, v: nat)
    requires Sorted(s) && |s| > 0 && s[|s| - 1] < v
    ensures Count(s, v) == 0
  {
    assert v !in s;
  }

  /** The ids of `c2` equal to `id` all lie between the run of ids below `id` and the run at most `id`. */
  lemma CountInWindow(c2: seq<nat>, lo: nat, id: nat)
    requires Sorted(c2) && lo <= AtMost(c2, id)
    requires forall k :: 0 <= k < lo ==> c2[k] < id
    ensures Count(c2[lo..AtMost(c2, id)], id) == Count(c2, id)
  {
    var hi := AtMost(c2, id);
    PartitionPointSorted(c2, id);
    CountSplit(c2, lo, hi, id);
    CountAbsent(c2[..lo], id);
    CountAbsent(c2[hi..], id);
  }

  lemma CountSplit(s: seq<nat>, i: nat, j: nat, v: nat)
    requires i <= j <= |s|
    ensures Count(s, v) == Count(s[..i], v) + Count(s[i..j], v) + Count(s[j..], v)
  {
    assert s == s[..i] + s[i..j] + s[j..];
  }

  lemma CountAbsent(s: seq<nat>, v: nat)
    requires v !in s
    ensures Count(s, v) == 0
  {
  }

  /**
   * Where a round starts: `last_idx` is 0 before the first id and the end
   * of the run at most the previous id after it. It never passes the end
   * of the run at most `id`; it is that end when `id` repeats the previous
   * id, and it lies past no id equal to `id` otherwise.
   */
  lemma RoundStart(c2: seq<nat>, prev: Option<nat>, id: nat, lastIdx: nat)
    requires Sorted(c2) && (prev.Some? ==> prev.value <= id)
    requires lastIdx == if prev.None? then 0 else AtMost(c2, prev.value)
    ensures lastIdx <= AtMost(c2, id)
    ensures prev == Some(id) ==> lastIdx == AtMost(c2, id)
    ensures prev != Some(id) ==> forall m :: 0 <= m < lastIdx ==> c2[m] < id
  {
    if prev.Some? {
      AtMostMonotone(c2, prev.value, id);
    }
  }

  /**
   * A round that starts past no id equal to `id` finds every occurrence of
   * `id` in `c2`: the run it splits off ends with all of them.
   */
  lemma RoundScoresCount(c2: seq<nat>, lo: nat, id: nat)
    requires Sorted(c2) && lo <= AtMost(c2, id)
    requires forall k :: 0 <= k < lo ==> c2[k] < id
    ensures var left: seq<nat> := c2[lo..AtMost(c2, id)];
      (if |left| == 0 || left[|left| - 1] < id then 0 else TrailingRun(left, id)) == Count(c2, id)
  {
    var left := c2[lo..AtMost(c2, id)];
    CountInWindow(c2, lo, id);
    assert Sorted(left);
    TrailingRunCounts(left, id);
  }

  /**
   * The run a round splits off, `c2[last_idx..]` up to the ids at most
   * `id`, is empty when `id` repeats the previous id, and otherwise its
   * trailing ids equal to `id` are all the occurrences of `id` in `c2`.
   */
  lemma RoundRun(c2: seq<nat>, prev: Option<nat>, id: nat, lastIdx: nat)
    requires Sorted(c2) && (prev.Some? ==> prev.value <= id)
    requires lastIdx == if prev.None? then 0 else AtMost(c2, prev.value)
    ensures lastIdx <= AtMost(c2, id)
    ensures prev == Some(id) ==> lastIdx == AtMost(c2, id)
    ensures prev != Some(id) ==> var left: seq<nat> := c2[lastIdx..AtMost(c2, id)];
      (if |left| == 0 || left[|left| - 1] < id then 0 else TrailingRun(left, id)) == Count(c2, id)
  {
    RoundStart(c2, prev, id, lastIdx);
    if prev != Some(id) {
      RoundScoresCount(c2, lastIdx, id);
    }
  }

  /** The run at most `id` after `lo`, as a slice of the slice after `lo`. */
  lemma SuffixRun(c2: seq<nat>, lo: nat, id: nat)
    requires lo <= AtMost(c2, id)
    ensures lo + AtMost(c2[lo..], id) == AtMost(c2, id)
    ensures c2[lo..][..AtMost(c2[lo..], id)] == c2[lo..AtMost(c2, id)]
  {
    AtMostSuffix(c2, lo, id);
  }

  /**
   * The closure folded over the left column by `d1_part2_solution`: it
   * splits the run of ids at most `id` off the right column after
   * `last_idx`, moves `last_idx` to its end and adds the trailing ids equal
   * to `id` of that run, times `id`. With `prev` the id of the round before
   * (none in the first round), `last_idx` ends at the end of the run at
   * most `id`, and the round adds the count of `id` times `id`, or nothing
   * when `id` repeats `prev`.
   */
  method Accumulate(c2: seq<nat>, ghost prev: Option<nat>, lastIdx: nat, acc: nat, id: nat)
    returns (acc': nat, lastIdx': nat)
    requires Sorted(c2) && (prev.Some? ==> prev.value <= id)
    requires lastIdx == if prev.None? then 0 else AtMost(c2, prev.value)
    ensures lastIdx' == AtMost(c2, id)
    ensures acc' == acc + if prev == Some(id) then 0 else Count(c2, id) * id
  {
    RoundRun(c2, prev, id, lastIdx);
    SuffixRun(c2, lastIdx, id);
    var sl: seq<nat> := c2[lastIdx..];
    var j: nat := AtMost(sl, id);
    lastIdx' := lastIdx + j;
    var left: seq<nat> := sl[..j];
    if |left| == 0 || left[|left| - 1] < id {
      acc' := acc;
    } else {
      acc' := acc + RunScore(TrailingRun(left, id), id);
    }
  }

  /** The score after one more id, as the code computes it. */
  lemma DistinctStep(c1: seq<nat>, c2: seq<nat>, k: nat)
    requires k < |c1|
    ensures DistinctSimilarity(c1[..k + 1], c2)
      == DistinctSimilarity(c1[..k], c2) + if k > 0 && c1[k - 1] == c1[k] then 0 else Count(c2, c1[k]) * c1[k]
  {
    assert c1[..k + 1][..k] == c1[..k];
  }

  /** The score after one more id, counting repeats. */
  lemma SimilarityStep(c1: seq<nat>, c2: seq<nat>, k: nat)
    requires k < |c1|
    ensures Similarity(c1[..k + 1], c2) == Similarity(c1[..k], c2) + Count(c2, c1[k]) * c1[k]
  {
    assert c1[..k + 1][..k] == c1[..k];
  }

  /** `d1_part2_solution` as written: the closure folded over the sorted left column. */
  method Part2(c1: seq<nat>, c2: seq<nat>) returns (score: nat)
    requires Sorted(c1) && Sorted(c2)
    ensures score == DistinctSimilarity(c1, c2)
  {
    var lastIdx := 0;
    score := 0;
    for k := 0 to |c1|
      invariant lastIdx == if k == 0 then 0 else AtMost(c2, c1[k - 1])
      invariant score == DistinctSimilarity(c1[..k], c2)
    {
      DistinctStep(c1, c2, k);
      score, lastIdx := Accumulate(c2, if k == 0 then None else Some(c1[k - 1]), lastIdx, score, c1[k]);
    }
    assert c1[..|c1|] == c1;
  }

  /**
   * The closure with the repeated-id case repaired: the fold also keeps the
   * previous id and its score, and adds that score again when `id` repeats
   * the previous id.
   */
  method AccumulateCorrected(c2: seq<nat>, prev: Option<nat>, lastIdx: nat, lastScore: nat, acc: nat, id: nat)
    returns (acc': nat, lastIdx': nat, lastScore': nat)
    requires Sorted(c2) && (prev.Some? ==> prev.value <= id)
    requires lastIdx == if prev.None? then 0 else AtMost(c2, prev.value)
    requires prev == Some(id) ==> lastScore == Count(c2, id) * id
    ensures lastIdx' == AtMost(c2, id)
    ensures lastScore' == Count(c2, id) * id
    ensures acc' == acc + Count(c2, id) * id
  {
    RoundRun(c2, prev, id, lastIdx);
    SuffixRun(c2, lastIdx, id);
    var sl: seq<nat> := c2[lastIdx..];
    var j: nat := AtMost(sl, id);
    lastIdx' := lastIdx + j;
    var left: seq<nat> := sl[..j];
    if prev == Some(id) {
      lastScore' := lastScore;
    } else if |left| == 0 || left[|left| - 1] < id {
      lastScore' := 0;
    } else {
      lastScore' := RunScore(TrailingRun(left, id), id);
    }
    acc' := acc + lastScore';
  }

  /** The fold over the sorted left column with the repaired closure. */
  method Part2Corrected(c1: seq<nat>, c2: seq<nat>) returns (score: nat)
    requires Sorted(c1) && Sorted(c2)
    ensures score == Similarity(c1, c2)
  {
    var lastIdx := 0;
    var lastScore := 0;
    score := 0;
    for k := 0 to |c1|
      invariant lastIdx == if k == 0 then 0 else AtMost(c2, c1[k - 1])
      invariant k > 0 ==> lastScore == Count(c2, c1[k - 1]) * c1[k - 1]
      invariant score == Similarity(c1[..k], c2)
    {
      SimilarityStep(c1, c2, k);
      score, lastIdx, lastScore := AccumulateCorrected(c2, if k == 0 then None else Some(c1[k - 1]), lastIdx, lastScore, score, c1[k]);
    }
    assert c1[..|c1|] == c1;
  }

  /** The code never scores more than the similarity, and scores exactly it when no id repeats. */
  lemma {:induction false} DistinctAtMostSimilarity(c1: seq<nat>, c2: seq<nat>)
    ensures DistinctSimilarity(c1, c2) <= Similarity(c1, c2)
    ensures (forall k :: 0 < k < |c1| ==> c1[k - 1] != c1[k]) ==> DistinctSimilarity(c1, c2) == Similarity(c1, c2)
  {
    if |c1| > 0 {
      DistinctAtMostSimilarity(c1[..|c1| - 1], c2);
    }
  }

  /**
   * A repeated id of the left column adds nothing: with left ids 3 3 and
   * right id 3 the code scores 3, while each 3 on the left is similar to the
   * one 3 on the right, for a similarity of 6.
   */
  lemma RepeatedIdUndercounts(c1: seq<nat>, c2: seq<nat>)
    requires c1 == [3, 3] && c2 == [3]
    ensures Sorted(c1) && Sorted(c2)
    ensures DistinctSimilarity(c1, c2) == 3
    ensures Similarity(c1, c2) == 6
  {
    assert Count(c2, 3) == 1 by {
      assert multiset(c2) == multiset{3};
    }
    assert c1[..0] == [] && c1[..2] == c1;
    DistinctStep(c1, c2, 0);
    DistinctStep(c1, c2, 1);
    SimilarityStep(c1, c2, 0);
    SimilarityStep(c1, c2, 1);
  }
}
