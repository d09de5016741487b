/**
 * Day 5: page ordering rules `a|b` ("a must be printed before b") and
 * update lists of page numbers. An update is valid when no page is
 * preceded by a page that a rule says must come after it; the answer sums
 * the middle page of every valid update.
 */
module Day5 {
  import opened Wrappers
  import opened Text

  /** For every page, the pages the rules say must come after it (`HashMap<usize, HashSet<usize>>`). */
  type Rules = map<nat, set<nat>>

  /** Rule `a|b` is in force: `a` must be printed before `b`. */
  predicate Precedes(rules: Rules, a: nat, b: nat)
  {
    a in rules && b in rules[a]
  }

  // ---------------------------------------------------------------------
  // Rules

  /** A rule line: its first two '|'-separated fields, untrimmed, as `usize`s. */
  function RuleOf(line: string): (r: Option<(nat, nat)>)
    ensures r.Some? ==> '|' in line
  {
    var fields := Split(line, '|');
    SplitSeparates(line, '|');
    if |fields| < 2 then None
    else
      var a := ParseInt(fields[0], 0, USIZE_MAX);
      var b := ParseInt(fields[1], 0, USIZE_MAX);
      if a.Some? && b.Some? then Some((a.value as nat, b.value as nat)) else None
  }

  /** Each line of the rule section read as a rule, or `None` for a line that is not one. */
  function RuleEntries(lines: seq<string>): (r: seq<Option<(nat, nat)>>)
    ensures |r| == |lines| && forall k :: 0 <= k < |r| ==> r[k] == RuleOf(lines[k])
  {
    seq(|lines|, k requires 0 <= k < |lines| => RuleOf(lines[k]))
  }

  /** Some line of the rule section reads as the rule `a|b`. */
  predicate Declares(entries: seq<Option<(nat, nat)>>, a: nat, b: nat)
  {
    exists k :: 0 <= k < |entries| && entries[k] == Some((a, b))
  }

  /** The map the rule lines build, one line at a time. */
  function RuleMap(entries: seq<Option<(nat, nat)>>): (rules: Rules)
    ensures forall a :: a in rules ==> rules[a] != {}
    ensures forall a, b :: Precedes(rules, a, b) <==> Declares(entries, a, b)
  {
    if |entries| == 0 then map[]
    else
      var front, last := entries[..|entries| - 1], entries[|entries| - 1];
      DeclaresSnoc(front, last);
      assert front + [last] == entries;
      var m := RuleMap(front);
      match last
      case None => m
      case Some((a, b)) => m[a := (if a in m then m[a] else {}) + {b}]
  }

  /** The rules declared by one more line. */
  lemma DeclaresSnoc(entries: seq<Option<(nat, nat)>>, e: Option<(nat, nat)>)
    ensures forall a: nat, b: nat :: Declares(entries + [e], a, b) <==> Declares(entries, a, b) || e == Some((a, b))
  {
    var all := entries + [e];
    forall a: nat, b: nat | Declares(entries, a, b) ensures Declares(all, a, b) {
      var k :| 0 <= k < |entries| && entries[k] == Some((a, b));
      assert all[k] == entries[k];
    }
    forall a: nat, b: nat | e == Some((a, b)) ensures Declares(all, a, b) {
      assert all[|entries|] == e;
    }
    forall a: nat, b: nat | Declares(all, a, b) && e != Some((a, b)) ensures Declares(entries, a, b) {
      var k :| 0 <= k < |all| && all[k] == Some((a, b));
      assert k < |entries| && entries[k] == all[k];
    }
  }

  /** `parse_rules`: every '\n'-separated line that reads as a rule adds its page to the first page's set. */
  method ParseRules(ruleText: string) returns (rules: Rules)
    ensures rules == RuleMap(RuleEntries(Split(ruleText, '\n')))
  {
    var lines := Split(ruleText, '\n');
    var entries := RuleEntries(lines);
    rules := map[];
    for k := 0 to |lines|
      invariant rules == RuleMap(entries[..k])
    {
      assert entries[..k + 1][..k] == entries[..k] && entries[..k + 1][k] == entries[k];
      match entries[k]
      case None =>
      case Some((a, b)) =>
        if a in rules {
          rules := rules[a := rules[a] + {b}];
        } else {
          assert {} + {b} == {b};
          rules := rules[a := {b}];
        }
    }
    assert entries[..|lines|] == entries;
  }

  /** A rule line repeated later adds nothing. */
  lemma RepeatedRuleNoEffect(entries: seq<Option<(nat, nat)>>, a: nat, b: nat)
    requires Declares(entries, a, b)
    ensures RuleMap(entries + [Some((a, b))]) == RuleMap(entries)
  {
    var m := RuleMap(entries);
    assert (entries + [Some((a, b))])[..|entries|] == entries;
    assert Precedes(m, a, b);
    assert m[a] + {b} == m[a];
    assert m[a := m[a]] == m;
  }

  // ---------------------------------------------------------------------
  // Update lists

  function TrimAll(pieces: seq<string>): (r: seq<string>)
    ensures |r| == |pieces| && forall k :: 0 <= k < |r| ==> r[k] == Trim(pieces[k])
  {
    seq(|pieces|, k requires 0 <= k < |pieces| => Trim(pieces[k]))
  }

  /** An update line: its trimmed ','-separated fields that parse as `usize`, in order. */
  function UpdateOf(line: string): (r: seq<nat>)
    ensures |r| <= |Split(Trim(line), ',')|
    ensures forall k :: 0 <= k < |r| ==> r[k] <= USIZE_MAX
  {
    Naturals(ParsedTokens(TrimAll(Split(Trim(line), ',')), 0, USIZE_MAX))
  }

  function Naturals(values: seq<int>): (r: seq<nat>)
    requires forall k :: 0 <= k < |values| ==> values[k] >= 0
    ensures r == values
  {
    if |values| == 0 then [] else [values[0] as nat] + Naturals(values[1..])
  }

  /** The update lists of the non-blank lines, in order. */
  function UpdatesOf(lines: seq<string>): seq<seq<nat>>
  {
    if |lines| == 0 then []
    else
      var front := UpdatesOf(lines[..|lines| - 1]);
      var line := lines[|lines| - 1];
      if |Trim(line)| == 0 then front else front + [UpdateOf(line)]
  }

  /** At most one list per line. */
  lemma {:induction false} UpdatesOfLength(lines: seq<string>)
    ensures |UpdatesOf(lines)| <= |lines|
  {
    if |lines| > 0 {
      UpdatesOfLength(lines[..|lines| - 1]);
    }
  }

  /** Blank text holds no lists. */
  lemma {:induction false} UpdatesOfBlank(lines: seq<string>)
    requires forall k :: 0 <= k < |lines| ==> AllWhitespace(lines[k])
    ensures UpdatesOf(lines) == []
  {
    if |lines| > 0 {
      var front := lines[..|lines| - 1];
      assert forall k :: 0 <= k < |front| ==> front[k] == lines[k];
      UpdatesOfBlank(front);
      assert |Trim(lines[|lines| - 1])| == 0;
    }
  }

  lemma UpdatesOfPrefix(lines: seq<string>, k: nat)
    requires k < |lines|
    ensures UpdatesOf(lines[..k + 1]) ==
      UpdatesOf(lines[..k]) + (if |Trim(lines[k])| == 0 then [] else [UpdateOf(lines[k])])
  {
    assert lines[..k + 1][..k] == lines[..k];
  }

  /** `parse_update_lists`: every line that is not blank becomes a list. */
  method ParseUpdateLists(updateText: string) returns (lists: seq<seq<nat>>)
    ensures lists == UpdatesOf(Split(updateText, '\n'))
  {
    var lines := Split(updateText, '\n');
    lists := [];
    for k := 0 to |lines|
      invariant lists == UpdatesOf(lines[..k])
    {
      UpdatesOfPrefix(lines, k);
      if |Trim(lines[k])| != 0 {
        lists := lists + [UpdateOf(lines[k])];
      }
    }
    assert lines[..|lines|] == lines;
  }

  // ---------------------------------------------------------------------
  // Validity and the answer

  /** No page is followed by a page that a rule says must come before it. */
  predicate ValidUpdate(rules: Rules, s: seq<nat>)
  {
    forall i, j :: 0 <= i < j < |s| ==> !Precedes(rules, s[j], s[i])
  }

  /** The nested validity loops of `d5_part1_solution`, leaving both as soon as a violation is found. */
  method CheckUpdate(rules: Rules, s: seq<nat>) returns (valid: bool)
    ensures valid == ValidUpdate(rules, s)
  {
    valid := true;
    var i := 0;
    while i < |s|
      invariant 0 <= i <= |s|
      invariant valid
      invariant forall i', j :: 0 <= i' < i && i' < j < |s| ==> !Precedes(rules, s[j], s[i'])
    {
      var j := i + 1;
      while j < |s|
        invariant i + 1 <= j <= |s|
        invariant valid
        invariant forall j' :: i < j' < j ==> !Precedes(rules, s[j'], s[i])
      {
        if s[j] in rules && s[i] in rules[s[j]] {
          valid := false;
          break;
        }
        j := j + 1;
      }
      if !valid {
        break;
      }
      i := i + 1;
    }
  }

  /** Validity only depends on the rules, not on how they were written down. */
  lemma ValidUpdateByDeclarations(entries: seq<Option<(nat, nat)>>, s: seq<nat>)
    ensures ValidUpdate(RuleMap(entries), s) <==>
      forall i, j :: 0 <= i < j < |s| ==> !Declares(entries, s[j], s[i])
  {
  }

  /** Lists of at most one page are always valid. */
  lemma ShortUpdateValid(rules: Rules, s: seq<nat>)
    requires |s| <= 1
    ensures ValidUpdate(rules, s)
  {
  }

  predicate AllNonEmpty(lists: seq<seq<nat>>)
  {
    forall k :: 0 <= k < |lists| ==> |lists[k]| > 0
  }

  /** The sum of the middle pages of the valid lists. */
  function MiddleSum(rules: Rules, lists: seq<seq<nat>>): nat
    requires AllNonEmpty(lists)
  {
    if |lists| == 0 then 0
    else
      var s := lists[|lists| - 1];
      MiddleSum(rules, lists[..|lists| - 1]) + (if ValidUpdate(rules, s) then s[|s| / 2] else 0)
  }

  /** The middle page sum is at most the sum of the middle pages of all lists, valid or not. */
  lemma {:induction false} MiddleSumBound(rules: Rules, lists: seq<seq<nat>>)
    requires AllNonEmpty(lists)
    ensures MiddleSum(rules, lists) <= MiddleSum(map[], lists)
  {
    if |lists| > 0 {
      var s := lists[|lists| - 1];
      MiddleSumBound(rules, lists[..|lists| - 1]);
      assert ValidUpdate(map[], s);
    }
  }

  /** The answer loop of `d5_part1_solution`. `sequence[mid]` panics on an empty list, which is always valid. */
  method SumValidMiddles(rules: Rules, lists: seq<seq<nat>>) returns (answer: nat)
    requires AllNonEmpty(lists)
    ensures answer == MiddleSum(rules, lists)
  {
    answer := 0;
    for k := 0 to |lists|
      invariant answer == MiddleSum(rules, lists[..k])
    {
      assert lists[..k + 1][..k] == lists[..k];
      var sequence := lists[k];
      var valid := CheckUpdate(rules, sequence);
      if valid {
        answer := answer + sequence[|sequence| / 2];
      }
    }
    assert lists[..|lists|] == lists;
  }

  const Divide: string := "\n\n"

  /** The two sections of the input: up to the first blank line, and from it on. */
  function Sections(text: string): (r: Option<(string, string)>)
    ensures r.Some? <==> FindSub(text, Divide).Some?
    ensures r.Some? ==> r.value.0 + r.value.1 == text && |r.value.1| >= 2 && r.value.1[..2] == Divide
    ensures r.Some? ==> FindSub(r.value.0, Divide).None?
  {
    match FindSub(text, Divide)
    case None => None
    case Some(i) =>
      BeforeFirstOccurrence(text, Divide, i);
      Some((text[..i], text[i..]))
  }

  /** The input is one the solution can answer without panicking: no listed update is empty. */
  predicate Answerable(text: string)
  {
    Sections(text).Some? ==> AllNonEmpty(UpdatesOf(Split(Sections(text).value.1, '\n')))
  }

  /** `d5_part1_solution` on the text of the input file. */
  method Part1(text: string) returns (r: Result<nat>)
    requires Answerable(text)
    ensures r.Err? <==> FindSub(text, Divide).None?
    ensures r.Ok? ==> r.value == MiddleSum(RuleMap(RuleEntries(Split(Sections(text).value.0, '\n'))),
                                          UpdatesOf(Split(Sections(text).value.1, '\n')))
  {
    var divideIndex := FindSub(text, Divide);
    if divideIndex.None? {
      return Err(Other("Input file is not correct."));
    }
    var left, right := text[..divideIndex.value], text[divideIndex.value..];
    var rules := ParseRules(left);
    var lists := ParseUpdateLists(right);
    var answer := SumValidMiddles(rules, lists);
    r := Ok(answer);
  }
}
