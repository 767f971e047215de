/**
 * The page-ordering check of `src/day5.rs`: precedence rules `a|b` read up
 * to the first blank line, page lists (levels) read after it, and for
 * each level a three-way comparison built from the rules that apply to it.
 * A level already in order adds its middle page to `sum`; any other level
 * is re-sorted with that comparison and adds its new middle page to
 * `broken_sum`.
 */
module PageOrdering {
  import opened Text

  /** A precedence rule (a, b): page a must come before page b. */
  type Rule = (int, int)

  /**
   * The line that ends the rules: nothing but whitespace, which is when
   * `rule.trim().is_empty()` holds (`Text.TrimEmptyIff`).
   */
  predicate IsBlank(line: string)
  {
    AllWhitespace(line)
  }

  /** The index of the first blank line, or the number of lines if there is none. */
  function FirstBlank(lines: seq<string>): (k: nat)
    ensures k <= |lines|
    ensures forall i :: 0 <= i < k ==> !IsBlank(lines[i])
    ensures k < |lines| ==> IsBlank(lines[k])
  {
    if lines == [] || IsBlank(lines[0]) then 0
    else
      1 + FirstBlank(lines[1..])
  }

  /** Reading line j, at or before the first blank line, tells whether it is that line. */
  lemma FirstBlankAt(lines: seq<string>, j: nat)
    requires j <= FirstBlank(lines) && j < |lines|
    ensures Trim(lines[j]) == [] ==> FirstBlank(lines) == j
    ensures Trim(lines[j]) != [] ==> j < FirstBlank(lines)
  {
    TrimEmptyIff(lines[j]);
  }

  /** Every piece of `pieces`, trimmed, parses as an `i32`. */
  predicate AllParse(pieces: seq<string>)
  {
    forall k :: 0 <= k < |pieces| ==> ParsesAsI32(Trim(pieces[k]))
  }

  /** The values of the trimmed pieces, in order (the `map(...).collect()` of both parsers). */
  function ParsePieces(pieces: seq<string>): (vs: seq<int>)
    requires AllParse(pieces)
    ensures |vs| == |pieces|
    ensures forall k :: 0 <= k < |pieces| ==> vs[k] == NumeralValue(Trim(pieces[k]))
  {
    if pieces == [] then []
    else [NumeralValue(Trim(pieces[0]))] + ParsePieces(pieces[1..])
  }

  /** A rule line the source reads without panicking: two or more '|'-pieces, each an `i32`. */
  predicate RuleLine(line: string)
  {
    |Split(line, '|')| >= 2 && AllParse(Split(line, '|'))
  }

  /** The rule a line gives: its first two pieces. */
  function RuleOf(line: string): Rule
    requires RuleLine(line)
  {
    var vs := ParsePieces(Split(line, '|'));
    (vs[0], vs[1])
  }

  /** One rule per line. */
  function RulesOf(ls: seq<string>): (rules: seq<Rule>)
    requires forall i :: 0 <= i < |ls| ==> RuleLine(ls[i])
    ensures |rules| == |ls|
    ensures forall i :: 0 <= i < |ls| ==> rules[i] == RuleOf(ls[i])
  {
    if ls == [] then [] else RulesOf(ls[..|ls| - 1]) + [RuleOf(ls[|ls| - 1])]
  }

  /** A level line the source reads without panicking: every ','-piece is an `i32`. */
  predicate LevelLine(line: string)
  {
    AllParse(Split(line, ','))
  }

  /** The pages a level line lists; there is always at least one. */
  function LevelOf(line: string): (level: seq<int>)
    requires LevelLine(line)
    ensures |level| >= 1
  {
    ParsePieces(Split(line, ','))
  }

  /** The text "a|b" for a rule. */
  function ShowRule(r: Rule): string
  {
    ShowInt(r.0) + "|" + ShowInt(r.1)
  }

  /** The numbers written with `sep` between them. */
  function ShowList(xs: seq<int>, sep: char): (s: string)
    requires |xs| >= 1
  {
    if |xs| == 1 then ShowInt(xs[0]) else ShowInt(xs[0]) + [sep] + ShowList(xs[1..], sep)
  }

  /** The written numbers, as a list of pieces. */
  function ShowPieces(xs: seq<int>): (ps: seq<string>)
    ensures |ps| == |xs|
    ensures forall k :: 0 <= k < |xs| ==> ps[k] == ShowInt(xs[k])
  {
    if xs == [] then [] else [ShowInt(xs[0])] + ShowPieces(xs[1..])
  }

  /** A written integer has no whitespace at its ends and none of the separators. */
  lemma ShowIntPlain(n: int)
    ensures ShowInt(n) != [] && !IsWhitespace(ShowInt(n)[0]) && !IsWhitespace(ShowInt(n)[|ShowInt(n)| - 1])
    ensures '|' !in ShowInt(n) && ',' !in ShowInt(n)
    ensures Trim(ShowInt(n)) == ShowInt(n)
  {
    var s := ShowInt(n);
    var d := ShowNat(if n < 0 then -n else n);
    assert forall i :: 0 <= i < |d| ==> IsDigit(d[i]);
    if n < 0 {
      assert s == "-" + d;
      assert forall i :: 1 <= i < |s| ==> s[i] == d[i - 1];
    }
    TrimKeeps(s);
  }

  /** Every rule in the range of `i32`, written as "a|b", is read back as itself. */
  lemma RuleRoundTrip(r: Rule)
    requires I32_MIN <= r.0 <= I32_MAX && I32_MIN <= r.1 <= I32_MAX
    ensures RuleLine(ShowRule(r))
    ensures RuleOf(ShowRule(r)) == r
  {
    ShowIntPlain(r.0);
    ShowIntPlain(r.1);
    ShowIntRoundTrip(r.0);
    ShowIntRoundTrip(r.1);
    var ps := [ShowInt(r.0), ShowInt(r.1)];
    assert Join(ps, '|') == ShowRule(r);
    SplitJoin(ps, '|');
  }

  /** `ShowList` is the join of the written numbers. */
  lemma {:induction false} ShowListJoin(xs: seq<int>, sep: char)
    requires |xs| >= 1
    ensures ShowList(xs, sep) == Join(ShowPieces(xs), sep)
    decreases |xs|
  {
    if |xs| > 1 {
      ShowListJoin(xs[1..], sep);
      assert ShowPieces(xs)[1..] == ShowPieces(xs[1..]);
    }
  }

  /** Every nonempty list of `i32` values, written with commas, is read back as itself. */
  lemma LevelRoundTrip(xs: seq<int>)
    requires |xs| >= 1
    requires forall k :: 0 <= k < |xs| ==> I32_MIN <= xs[k] <= I32_MAX
    ensures LevelLine(ShowList(xs, ','))
    ensures LevelOf(ShowList(xs, ',')) == xs
  {
    var ps := ShowPieces(xs);
    forall k | 0 <= k < |ps| ensures ',' !in ps[k] && Trim(ps[k]) == ps[k] && ParsesAsI32(ps[k])
      && NumeralValue(ps[k]) == xs[k]
    {
      ShowIntPlain(xs[k]);
      ShowIntRoundTrip(xs[k]);
    }
    ShowListJoin(xs, ',');
    SplitJoin(ps, ',');
  }

  /**
   * `parse_ordering_rules`: one rule per line up to the first blank line,
   * which is consumed too; `next` is where `parse_levels` carries on
   * reading.
   */
  method ParseOrderingRules(lines: seq<string>) returns (rules: seq<Rule>, next: nat)
    requires forall i :: 0 <= i < FirstBlank(lines) ==> RuleLine(lines[i])
    ensures rules == RulesOf(lines[..FirstBlank(lines)])
    ensures next == if FirstBlank(lines) < |lines| then FirstBlank(lines) + 1 else |lines|
  {
    rules := [];
    next := 0;
    while next < |lines|
      invariant next <= FirstBlank(lines)
      invariant rules == RulesOf(lines[..next])
    {
      var rule := lines[next];
      FirstBlankAt(lines, next);
      next := next + 1;
      if Trim(rule) == [] {
        return;
      }
      assert lines[..next] == lines[..next - 1] + [rule];
      rules := rules + [RuleOf(rule)];
    }
  }

  /** `parse_levels`: one level per remaining line. */
  method ParseLevels(lines: seq<string>) returns (levels: seq<seq<int>>)
    requires forall i :: 0 <= i < |lines| ==> LevelLine(lines[i])
    ensures |levels| == |lines|
    ensures forall i :: 0 <= i < |lines| ==> levels[i] == LevelOf(lines[i])
  {
    levels := [];
    for i := 0 to |lines|
      invariant |levels| == i
      invariant forall j :: 0 <= j < i ==> levels[j] == LevelOf(lines[j])
    {
      var parsedLevel := ParsePieces(Split(lines[i], ','));
      levels := levels + [parsedLevel];
    }
  }

  /** `get_input` without the file: rules before the first blank line, levels after it. */
  method GetInput(lines: seq<string>) returns (rules: seq<Rule>, levels: seq<seq<int>>)
    requires forall i :: 0 <= i < FirstBlank(lines) ==> RuleLine(lines[i])
    requires forall i :: FirstBlank(lines) < i < |lines| ==> LevelLine(lines[i])
    ensures rules == RulesOf(lines[..FirstBlank(lines)])
    ensures |rules| + |levels| + 1 == |lines| || (|levels| == 0 && |rules| == |lines|)
    ensures forall i :: 0 <= i < |levels| ==> levels[i] == LevelOf(lines[|rules| + 1 + i])
  {
    var next;
    rules, next := ParseOrderingRules(lines);
    levels := ParseLevels(lines[next..]);
  }

  /** `get_applicable_rules`: the rules whose first page is in the level, in their order. */
  function Applicable(rules: seq<Rule>, level: seq<int>): (r: seq<Rule>)
    ensures |r| <= |rules|
  {
    if rules == [] then []
    else (if rules[0].0 in level then [rules[0]] else []) + Applicable(rules[1..], level)
  }

  /** A rule applies exactly when it is one of the rules and its first page is in the level. */
  lemma {:induction false} ApplicableIff(rules: seq<Rule>, level: seq<int>, r: Rule)
    ensures r in Applicable(rules, level) <==> r in rules && r.0 in level
  {
    if rules != [] {
      ApplicableIff(rules[1..], level, r);
      assert rules == [rules[0]] + rules[1..];
    }
  }

  /** Filtering keeps the order: filtering a concatenation concatenates the filtered parts. */
  lemma {:induction false} ApplicableAppend(a: seq<Rule>, b: seq<Rule>, level: seq<int>)
    ensures Applicable(a + b, level) == Applicable(a, level) + Applicable(b, level)
  {
    if a != [] {
      assert (a + b)[1..] == a[1..] + b;
      ApplicableAppend(a[1..], b, level);
    } else {
      assert a + b == b;
    }
  }

  /** The outcome of a comparison. */
  datatype Ordering = Less | Equal | Greater

  /** The reverse outcome. */
  function Reverse(o: Ordering): Ordering
  {
    match o
    case Less => Greater
    case Equal => Equal
    case Greater => Less
  }

  /** The `compare` closure of `get_sums`, over the applicable rules. */
  function Compare(applicable: seq<Rule>, x: int, y: int): (o: Ordering)
    ensures x == y ==> o != Greater
  {
    if (x, y) in applicable then Less
    else if (y, x) in applicable then Greater
    else Equal
  }

  /** Less iff (x, y) is a rule; Greater iff (y, x) is and (x, y) is not; Equal iff neither is. */
  lemma CompareCases(applicable: seq<Rule>, x: int, y: int)
    ensures Compare(applicable, x, y) == Less <==> (x, y) in applicable
    ensures Compare(applicable, x, y) == Greater <==> (y, x) in applicable && (x, y) !in applicable
    ensures Compare(applicable, x, y) == Equal <==> (x, y) !in applicable && (y, x) !in applicable
  {
  }

  /**
   * When exactly one of (x, y) and (y, x) applies, comparing the other way
   * round gives the reverse outcome; Equal is symmetric too. When both apply
   * each order compares Less, so the comparison is not antisymmetric.
   */
  lemma CompareSwap(applicable: seq<Rule>, x: int, y: int)
    ensures ((x, y) in applicable) != ((y, x) in applicable) ==>
              Compare(applicable, y, x) == Reverse(Compare(applicable, x, y))
    ensures Compare(applicable, x, y) == Equal ==> Compare(applicable, y, x) == Equal
    ensures (x, y) in applicable && (y, x) in applicable ==>
              Compare(applicable, x, y) == Less && Compare(applicable, y, x) == Less
  {
  }

  /** Between pages of the level, filtering the rules first changes no comparison. */
  lemma CompareOnLevel(rules: seq<Rule>, level: seq<int>, x: int, y: int)
    requires x in level && y in level
    ensures Compare(Applicable(rules, level), x, y) == Compare(rules, x, y)
  {
    ApplicableIff(rules, level, (x, y));
    ApplicableIff(rules, level, (y, x));
  }

  /** `is_sorted_by(|a, b| compare(a, b) != Greater)`: no adjacent pair compares Greater. */
  predicate InOrder(applicable: seq<Rule>, level: seq<int>)
    ensures |level| < 2 ==> InOrder(applicable, level)
  {
    forall i :: 0 <= i < |level| - 1 ==> Compare(applicable, level[i], level[i + 1]) != Greater
  }

  /**
   * A level is in order exactly when no adjacent pair (x, y) has the rule
   * (y, x) without the rule (x, y).
   */
  lemma InOrderIff(rules: seq<Rule>, level: seq<int>)
    ensures InOrder(Applicable(rules, level), level) <==>
              forall i :: 0 <= i < |level| - 1 ==>
                !((level[i + 1], level[i]) in rules && (level[i], level[i + 1]) !in rules)
  {
    forall i | 0 <= i < |level| - 1
      ensures Compare(Applicable(rules, level), level[i], level[i + 1]) == Compare(rules, level[i], level[i + 1])
    {
      CompareOnLevel(rules, level, level[i], level[i + 1]);
    }
  }

  /** The page at index len/2. */
  function Middle(level: seq<int>): int
    requires |level| >= 1
  {
    level[|level| / 2]
  }

  /** The middle pages of the levels already in order. */
  function PassingSum(rules: seq<Rule>, levels: seq<seq<int>>): int
    requires forall i :: 0 <= i < |levels| ==> |levels[i]| >= 1
  {
    if levels == [] then 0
    else
      var level := levels[|levels| - 1];
      PassingSum(rules, levels[..|levels| - 1])
        + (if InOrder(Applicable(rules, level), level) then Middle(level) else 0)
  }

  /** The middle pages, after repair, of the levels not in order. */
  function RepairedSum(rules: seq<Rule>, levels: seq<seq<int>>, repaired: seq<seq<int>>): int
    requires |repaired| == |levels|
    requires forall i :: 0 <= i < |levels| ==> |repaired[i]| >= 1
  {
    if levels == [] then 0
    else
      var n := |levels| - 1;
      RepairedSum(rules, levels[..n], repaired[..n])
        + (if InOrder(Applicable(rules, levels[n]), levels[n]) then 0 else Middle(repaired[n]))
  }

  /** The middle pages of all the levels. */
  function MiddleSum(levels: seq<seq<int>>): int
    requires forall i :: 0 <= i < |levels| ==> |levels[i]| >= 1
  {
    if levels == [] then 0 else MiddleSum(levels[..|levels| - 1]) + Middle(levels[|levels| - 1])
  }

  /** A repair is a reordering of each level. */
  predicate Reorders(levels: seq<seq<int>>, repaired: seq<seq<int>>)
  {
    |repaired| == |levels| &&
    forall i :: 0 <= i < |levels| ==> multiset(repaired[i]) == multiset(levels[i])
  }

  /** Reordering keeps each level's length, so its middle index stays valid. */
  lemma ReordersKeepLength(levels: seq<seq<int>>, repaired: seq<seq<int>>)
    requires Reorders(levels, repaired)
    ensures forall i :: 0 <= i < |levels| ==> |repaired[i]| == |levels[i]|
  {
    forall i | 0 <= i < |levels| ensures |repaired[i]| == |levels[i]| {
      assert |multiset(repaired[i])| == |multiset(levels[i])|;
    }
  }

  /**
   * Each level adds its middle page to exactly one of the two sums: with
   * the identity repair the two sums together are the sum of all middle
   * pages.
   */
  lemma {:induction false} SumsPartition(rules: seq<Rule>, levels: seq<seq<int>>)
    requires forall i :: 0 <= i < |levels| ==> |levels[i]| >= 1
    ensures PassingSum(rules, levels) + RepairedSum(rules, levels, levels) == MiddleSum(levels)
  {
    if levels != [] {
      SumsPartition(rules, levels[..|levels| - 1]);
    }
  }

  /** When every level is in order nothing is repaired, whatever the repair. */
  lemma {:induction false} AllInOrderNothingBroken(rules: seq<Rule>, levels: seq<seq<int>>, repaired: seq<seq<int>>)
    requires |repaired| == |levels|
    requires forall i :: 0 <= i < |levels| ==> |levels[i]| >= 1 && |repaired[i]| >= 1
    requires forall i :: 0 <= i < |levels| ==> InOrder(Applicable(rules, levels[i]), levels[i])
    ensures RepairedSum(rules, levels, repaired) == 0
    ensures PassingSum(rules, levels) == MiddleSum(levels)
  {
    if levels != [] {
      var n := |levels| - 1;
      AllInOrderNothingBroken(rules, levels[..n], repaired[..n]);
    }
  }

  /**
   * The loop of `get_sums`, given the input's rules and levels. `repaired`
   * stands for what `sort_by(compare)` makes of each level: the comparison
   * need not be a total order, so all that is assumed is that sorting
   * reorders the level.
   */
  method GetSums(rules: seq<Rule>, levels: seq<seq<int>>, repaired: seq<seq<int>>) returns (sum: int, brokenSum: int)
    requires forall i :: 0 <= i < |levels| ==> |levels[i]| >= 1
    requires Reorders(levels, repaired)
    ensures forall i :: 0 <= i < |levels| ==> |repaired[i]| >= 1
    ensures sum == PassingSum(rules, levels)
    ensures brokenSum == RepairedSum(rules, levels, repaired)
  {
    ReordersKeepLength(levels, repaired);
    sum := 0;
    brokenSum := 0;
    for i := 0 to |levels|
      invariant sum == PassingSum(rules, levels[..i])
      invariant brokenSum == RepairedSum(rules, levels[..i], repaired[..i])
    {
      var level := levels[i];
      var applicableRules := Applicable(rules, level);
      assert levels[..i + 1][..i] == levels[..i];
      assert repaired[..i + 1][..i] == repaired[..i];
      if InOrder(applicableRules, level) {
        sum := sum + level[|level| / 2];
      } else {
        level := repaired[i];
        brokenSum := brokenSum + level[|level| / 2];
      }
    }
    assert levels[..|levels|] == levels;
    assert repaired[..|levels|] == repaired;
  }
}
