/**
 * The pieces of Rust's string library the solvers lean on: splitting on a
 * character or a string pattern, `lines()`, `trim()`, `find()` and the
 * integer `parse()` of the primitive integer types.
 */
module Text {
  import opened Wrappers

  // Value ranges of the Rust integer types the solvers parse into.
  const USIZE_MAX: int := 0xFFFF_FFFF_FFFF_FFFF
  const I32_MIN: int := -0x8000_0000
  const I32_MAX: int := 0x7FFF_FFFF
  const ISIZE_MIN: int := -0x8000_0000_0000_0000
  const ISIZE_MAX: int := 0x7FFF_FFFF_FFFF_FFFF

  // ---------------------------------------------------------------------
  // Splitting on a character

  /** `s.split(sep)`: the pieces between the occurrences of `sep`, in order. */
  function Split(s: string, sep: char): (r: seq<string>)
    ensures |r| >= 1
    ensures forall k :: 0 <= k < |r| ==> sep !in r[k]
  {
    if |s| == 0 then [""]
    else
      var rest := Split(s[1..], sep);
      if s[0] == sep then [""] + rest
      else [[s[0]] + rest[0]] + rest[1..]
  }

  /** The pieces glued back together with `sep` between neighbours. */
  function Join(parts: seq<string>, sep: char): string
    requires |parts| >= 1
  {
    if |parts| == 1 then parts[0] else parts[0] + [sep] + Join(parts[1..], sep)
  }

  /** Splitting loses nothing: joining the pieces gives the text back. */
  lemma {:induction false} JoinSplit(s: string, sep: char)
    ensures Join(Split(s, sep), sep) == s
  {
    if |s| > 0 {
      var rest := Split(s[1..], sep);
      JoinSplit(s[1..], sep);
      if s[0] == sep {
        assert ([""] + rest)[1..] == rest;
      } else {
        var parts := [[s[0]] + rest[0]] + rest[1..];
        if |rest| == 1 {
          assert Join(parts, sep) == [s[0]] + rest[0];
        } else {
          assert parts[1..] == rest[1..];
          assert Join(rest, sep) == rest[0] + [sep] + Join(rest[1..], sep);
          assert Join(parts, sep) == [s[0]] + rest[0] + [sep] + Join(rest[1..], sep);
        }
      }
    }
  }

  lemma {:induction false} SplitNoSep(p: string, sep: char)
    requires sep !in p
    ensures Split(p, sep) == [p]
  {
    if |p| > 0 {
      SplitNoSep(p[1..], sep);
      assert [p[0]] + p[1..] == p;
    }
  }

  lemma {:induction false} SplitAfterPiece(p: string, sep: char, t: string)
    requires sep !in p
    ensures Split(p + [sep] + t, sep) == [p] + Split(t, sep)
  {
    if |p| == 0 {
      assert p + [sep] + t == [sep] + t;
      assert ([sep] + t)[1..] == t;
    } else {
      assert (p + [sep] + t)[1..] == p[1..] + [sep] + t;
      SplitAfterPiece(p[1..], sep, t);
      assert [p[0]] + p[1..] == p;
    }
  }

  /** Pieces free of `sep` are recovered by splitting their join. */
  lemma {:induction false} SplitJoin(parts: seq<string>, sep: char)
    requires |parts| >= 1
    requires forall k :: 0 <= k < |parts| ==> sep !in parts[k]
    ensures Split(Join(parts, sep), sep) == parts
  {
    if |parts| == 1 {
      SplitNoSep(parts[0], sep);
    } else {
      SplitJoin(parts[1..], sep);
      SplitAfterPiece(parts[0], sep, Join(parts[1..], sep));
      assert [parts[0]] + parts[1..] == parts;
    }
  }

  /** There is more than one piece exactly when the separator occurs. */
  lemma SplitSeparates(s: string, sep: char)
    ensures |Split(s, sep)| >= 2 <==> sep in s
  {
    var parts := Split(s, sep);
    JoinSplit(s, sep);
    if |parts| >= 2 {
      assert Join(parts, sep) == parts[0] + [sep] + Join(parts[1..], sep);
      assert s[|parts[0]|] == sep;
    }
  }

  // ---------------------------------------------------------------------
  // Lines

  /** Drops one '\r' that ended a line written with "\r\n". */
  function StripCR(line: string): string
  {
    if |line| > 0 && line[|line| - 1] == '\r' then line[..|line| - 1] else line
  }

  /**
   * `s.lines()`: the pieces between '\n's, where a piece ended by '\n'
   * also loses a final '\r', and an empty piece after the last '\n'
   * is not a line.
   */
  function Lines(s: string): (r: seq<string>)
    ensures forall k :: 0 <= k < |r| ==> '\n' !in r[k]
  {
    var pieces := Split(s, '\n');
    var ended := pieces[..|pieces| - 1];
    var last := pieces[|pieces| - 1];
    seq(|ended|, k requires 0 <= k < |ended| => StripCR(ended[k])) + (if last == "" then [] else [last])
  }

  /** A text written line by line, each line closed by '\n', reads back as those lines. */
  lemma LinesOfTerminated(ls: seq<string>)
    requires forall k :: 0 <= k < |ls| ==> '\n' !in ls[k] && (|ls[k]| == 0 || ls[k][|ls[k]| - 1] != '\r')
    ensures Lines(Join(ls + [""], '\n')) == ls
  {
    var parts := ls + [""];
    SplitJoin(parts, '\n');
    assert parts[..|parts| - 1] == ls;
  }

  // ---------------------------------------------------------------------
  // Whitespace

  /** Unicode White_Space, the set `char::is_whitespace` tests. */
  predicate IsWhitespace(c: char)
  {
    c == ' ' || ('\t' <= c <= '\r') || c as int == 0x85 || c as int == 0xA0 || c as int == 0x1680
    || (0x2000 <= c as int <= 0x200A) || c as int == 0x2028 || c as int == 0x2029
    || c as int == 0x202F || c as int == 0x205F || c as int == 0x3000
  }

  predicate AllWhitespace(s: string)
  {
    forall k :: 0 <= k < |s| ==> IsWhitespace(s[k])
  }

  /** The number of whitespace characters `s` starts with. */
  function LeadingSpace(s: string): (n: nat)
    ensures n <= |s| && AllWhitespace(s[..n]) && (n < |s| ==> !IsWhitespace(s[n]))
  {
    if |s| > 0 && IsWhitespace(s[0]) then
      var m := LeadingSpace(s[1..]);
      assert forall k :: 1 <= k < m + 1 ==> s[k] == s[1..][..m][k - 1];
      m + 1
    else 0
  }

  /** The number of whitespace characters `s` ends with. */
  function TrailingSpace(s: string): (n: nat)
    ensures n <= |s| && AllWhitespace(s[|s| - n..]) && (n < |s| ==> !IsWhitespace(s[|s| - n - 1]))
  {
    if |s| > 0 && IsWhitespace(s[|s| - 1]) then
      var p := s[..|s| - 1];
      var m := TrailingSpace(p);
      assert forall k :: |s| - m - 1 <= k < |s| - 1 ==> s[k] == p[|p| - m..][k - (|p| - m)];
      m + 1
    else 0
  }

  /**
   * `s.trim()`: the window of `s` between its leading and its trailing
   * whitespace; empty exactly for blank text, otherwise bounded by
   * non-whitespace.
   */
  function Trim(s: string): (r: string)
    ensures var a := LeadingSpace(s);
      a + |r| <= |s| && r == s[a..a + |r|] && AllWhitespace(s[..a]) && AllWhitespace(s[a + |r|..])
    ensures |r| == 0 <==> AllWhitespace(s)
    ensures |r| > 0 ==> !IsWhitespace(r[0]) && !IsWhitespace(r[|r| - 1])
  {
    var a := LeadingSpace(s);
    var t := s[a..];
    var r := t[..|t| - TrailingSpace(t)];
    TrimmedWindow(s, t, r, a);
    r
  }

  /**
   * Whitespace cut from the front of `s` (leaving `t`) and then from the back
   * of `t` (leaving `r`) leaves a window of `s` with only whitespace around it.
   */
  lemma TrimmedWindow(s: string, t: string, r: string, a: nat)
    requires a <= |s| && t == s[a..] && AllWhitespace(s[..a]) && (|t| > 0 ==> !IsWhitespace(t[0]))
    requires |r| <= |t| && r == t[..|r|] && AllWhitespace(t[|r|..]) && (|r| > 0 ==> !IsWhitespace(r[|r| - 1]))
    ensures a + |r| <= |s| && r == s[a..a + |r|] && AllWhitespace(s[..a]) && AllWhitespace(s[a + |r|..])
    ensures |r| == 0 <==> AllWhitespace(s)
    ensures |r| > 0 ==> !IsWhitespace(r[0]) && !IsWhitespace(r[|r| - 1])
  {
    assert r == s[a..a + |r|] && s[a + |r|..] == t[|r|..];
    if |r| == 0 {
      assert s == s[..a] + t;
    }
    if |r| > 0 {
      assert r[0] == t[0];
    }
    if |t| > 0 {
      assert t[0] == s[a];
    }
  }

  // ---------------------------------------------------------------------
  // Finding and splitting on a string pattern

  predicate OccursAt(s: string, pat: string, k: nat)
  {
    k + |pat| <= |s| && s[k..k + |pat|] == pat
  }

  /** An occurrence after the first character is an occurrence in the tail. */
  lemma OccursInTail(s: string, pat: string, k: nat)
    requires 1 <= k && |s| >= 1
    ensures OccursAt(s, pat, k) <==> OccursAt(s[1..], pat, k - 1)
  {
    if k + |pat| <= |s| {
      assert s[1..][k - 1..k - 1 + |pat|] == s[k..k + |pat|];
    }
  }

  /** `s.find(pat)`: the index of the first occurrence of `pat`, if any. */
  function FindSub(s: string, pat: string): (r: Option<nat>)
    ensures r.Some? ==> OccursAt(s, pat, r.value)
    ensures forall k: nat :: OccursAt(s, pat, k) ==> r.Some? && r.value <= k
    decreases |s|
  {
    if |s| < |pat| then None
    else if s[..|pat|] == pat then Some(0)
    else
      var rest := FindSub(s[1..], pat);
      forall k: nat | 1 <= k
        ensures OccursAt(s, pat, k) <==> OccursAt(s[1..], pat, k - 1)
      {
        OccursInTail(s, pat, k);
      }
      match rest
      case Some(k) => Some(k + 1)
      case None => None
  }

  /** The text before the first occurrence of a pattern holds no occurrence of it. */
  lemma BeforeFirstOccurrence(s: string, pat: string, k: nat)
    requires |pat| > 0
    requires FindSub(s, pat) == Some(k)
    ensures FindSub(s[..k], pat).None?
  {
    var t := s[..k];
    forall m: nat | m + |pat| <= |t|
      ensures !OccursAt(t, pat, m)
    {
      NotBeforeFirst(s, pat, k, m);
    }
    var r := FindSub(t, pat);
    assert r.Some? ==> OccursAt(t, pat, r.value);
  }

  lemma NotBeforeFirst(s: string, pat: string, k: nat, m: nat)
    requires |pat| > 0 && k <= |s| && m + |pat| <= k
    requires FindSub(s, pat) == Some(k)
    ensures !OccursAt(s[..k], pat, m)
  {
    assert s[..k][m..m + |pat|] == s[m..m + |pat|];
    assert !OccursAt(s, pat, m);
  }

  // ---------------------------------------------------------------------
  // Integers

  predicate IsDigit(c: char)
  {
    '0' <= c <= '9'
  }

  predicate AllDigits(s: string)
  {
    forall k :: 0 <= k < |s| ==> IsDigit(s[k])
  }

  /** The value of a string of decimal digits, most significant first. */
  function DigitsValue(s: string): nat
    requires AllDigits(s)
  {
    if |s| == 0 then 0 else 10 * DigitsValue(s[..|s| - 1]) + (s[|s| - 1] as int - '0' as int)
  }

  /**
   * `s.parse()` into the integer type whose values are `lo..=hi` (a signed
   * type when `lo < 0`): an optional '+' ('-' too for a signed type), at
   * least one decimal digit and nothing else, and a value in range.
   */
  function ParseInt(s: string, lo: int, hi: int): (r: Option<int>)
    ensures r.Some? ==> lo <= r.value <= hi
  {
    if |s| == 0 then None
    else
      var negative := s[0] == '-' && lo < 0;
      var digits := if s[0] == '+' || negative then s[1..] else s;
      if |digits| == 0 || !AllDigits(digits) then None
      else
        var v: int := if negative then -(DigitsValue(digits) as int) else DigitsValue(digits);
        if lo <= v <= hi then Some(v) else None
  }

  /** The decimal digits of `n`, most significant first. */
  function Decimal(n: nat): (r: string)
    ensures |r| >= 1 && AllDigits(r) && DigitsValue(r) == n
    ensures |r| > 1 ==> r[0] != '0'
  {
    var last := ('0' as int + n % 10) as char;
    if n < 10 then [last]
    else
      var front := Decimal(n / 10);
      assert (front + [last])[..|front|] == front;
      front + [last]
  }

  /** How `to_string` writes an integer. */
  function Show(n: int): string
  {
    if n < 0 then "-" + Decimal(-n) else Decimal(n)
  }

  /** Parsing reads back what `to_string` wrote, for every value of the type. */
  lemma ParseShow(n: int, lo: int, hi: int)
    requires lo <= 0 <= hi && lo <= n <= hi
    ensures ParseInt(Show(n), lo, hi) == Some(n)
  {
    if n < 0 {
      assert Show(n)[1..] == Decimal(-n);
    }
  }

  /** `iter.filter_map(|t| t.parse().ok())`: the tokens that parse, in order. */
  function ParsedTokens(tokens: seq<string>, lo: int, hi: int): (r: seq<int>)
    ensures |r| <= |tokens|
    ensures forall k :: 0 <= k < |r| ==> lo <= r[k] <= hi
  {
    if |tokens| == 0 then []
    else
      var front := ParsedTokens(tokens[..|tokens| - 1], lo, hi);
      match ParseInt(tokens[|tokens| - 1], lo, hi)
      case Some(v) => front + [v]
      case None => front
  }

  /** When every token parses, nothing is dropped and the order is kept. */
  lemma {:induction false} ParsedTokensAll(tokens: seq<string>, lo: int, hi: int)
    requires forall k :: 0 <= k < |tokens| ==> ParseInt(tokens[k], lo, hi).Some?
    ensures |ParsedTokens(tokens, lo, hi)| == |tokens|
    ensures forall k :: 0 <= k < |tokens| ==> ParsedTokens(tokens, lo, hi)[k] == ParseInt(tokens[k], lo, hi).value
  {
    if |tokens| > 0 {
      ParsedTokensAll(tokens[..|tokens| - 1], lo, hi);
    }
  }
}
