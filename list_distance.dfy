/**
 * The two location lists of `src/day1.rs`: each input line holds a left
 * and a right number; both columns are read, sorted ascending, and then
 * compared pair by pair (the distance) and by how often each left number
 * occurs on the right (the similarity).
 */
module ListDistance {
  import opened Text

  /** A line `clean_input` reads without panicking: two or more words, the first two `i32` numerals. */
  predicate LineOk(line: string)
  {
    var ws := Words(line);
    |ws| >= 2 && ParsesAsI32(ws[0]) && ParsesAsI32(ws[1])
  }

  /** The value of word k (0 for left, 1 for right) of a line. */
  function Field(line: string, k: nat): int
    requires k < 2 && LineOk(line)
  {
    var ws := Words(line);
    if k == 0 then NumeralValue(ws[0]) else NumeralValue(ws[1])
  }

  /** Column k of the lines, in line order. */
  function Column(lines: seq<string>, k: nat): (col: seq<int>)
    requires k < 2
    requires forall i :: 0 <= i < |lines| ==> LineOk(lines[i])
    ensures |col| == |lines|
    ensures forall i :: 0 <= i < |lines| ==> col[i] == Field(lines[i], k)
  {
    if lines == [] then []
    else Column(lines[..|lines| - 1], k) + [Field(lines[|lines| - 1], k)]
  }

  /** Ascending order. */
  predicate Ascending(xs: seq<int>)
  {
    forall i, j :: 0 <= i < j < |xs| ==> xs[i] <= xs[j]
  }

  /** `x` placed into an ascending list before the first larger element. */
  function Insert(x: int, xs: seq<int>): (r: seq<int>)
    requires Ascending(xs)
    ensures Ascending(r)
    ensures multiset(r) == multiset(xs) + multiset{x}
    ensures |r| == |xs| + 1 && (r[0] == x || (xs != [] && r[0] == xs[0]))
  {
    if xs == [] || x <= xs[0] then [x] + xs
    else
      var rest := Insert(x, xs[1..]);
      InsertBehindHead(x, xs, rest);
      [xs[0]] + rest
  }

  /** The head of `xs`, smaller than `x`, stays in front of `x` inserted into the tail. */
  lemma InsertBehindHead(x: int, xs: seq<int>, rest: seq<int>)
    requires Ascending(xs) && xs != [] && xs[0] < x
    requires Ascending(rest) && multiset(rest) == multiset(xs[1..]) + multiset{x}
    requires |rest| == |xs| && (rest[0] == x || (xs[1..] != [] && rest[0] == xs[1..][0]))
    ensures Ascending([xs[0]] + rest)
    ensures multiset([xs[0]] + rest) == multiset(xs) + multiset{x}
  {
    assert xs == [xs[0]] + xs[1..];
    ConsAscending(xs[0], rest);
  }

  /** A head no larger than the first element of an ascending list keeps it ascending. */
  lemma ConsAscending(h: int, xs: seq<int>)
    requires Ascending(xs) && (xs == [] || h <= xs[0])
    ensures Ascending([h] + xs)
  {
    assert forall j :: 0 <= j < |xs| ==> h <= xs[0] <= xs[j];
  }

  /** The ascending reordering that `Vec::sort` produces. */
  function Sort(xs: seq<int>): (r: seq<int>)
    ensures Ascending(r)
    ensures multiset(r) == multiset(xs)
  {
    if xs == [] then []
    else
      assert xs == xs[..|xs| - 1] + [xs[|xs| - 1]];
      Insert(xs[|xs| - 1], Sort(xs[..|xs| - 1]))
  }

  /**
   * There is only one ascending reordering of a list, so `Sort` agrees
   * with any correct sorting routine.
   */
  lemma {:induction false} AscendingUnique(a: seq<int>, b: seq<int>)
    requires Ascending(a) && Ascending(b)
    requires multiset(a) == multiset(b)
    ensures a == b
    decreases |a|
  {
    if a == [] {
      assert |b| == |multiset(b)| == 0;
    } else {
      assert a[0] in multiset(b);
      HeadIsLeast(b, a[0]);
      HeadIsLeast(a, b[0]);
      assert a[0] == b[0];
      assert multiset(a[1..]) == multiset(b[1..]) by {
        assert a == [a[0]] + a[1..];
        assert b == [b[0]] + b[1..];
        assert multiset(a[1..]) == multiset(a) - multiset{a[0]};
        assert multiset(b[1..]) == multiset(b) - multiset{b[0]};
      }
      AscendingUnique(a[1..], b[1..]);
    }
  }

  /** The head of an ascending list is no larger than any of its elements. */
  lemma HeadIsLeast(xs: seq<int>, v: int)
    requires Ascending(xs) && v in multiset(xs)
    ensures xs != [] && xs[0] <= v
  {
    var j :| 0 <= j < |xs| && xs[j] == v;
  }

  /**
   * `clean_input` without the file: the first two words of each line go
   * to the left and right lists, which are then sorted.
   */
  method CleanInput(lines: seq<string>) returns (leftSide: seq<int>, rightSide: seq<int>)
    requires forall i :: 0 <= i < |lines| ==> LineOk(lines[i])
    ensures |leftSide| == |rightSide| == |lines|
    ensures Ascending(leftSide) && multiset(leftSide) == multiset(Column(lines, 0))
    ensures Ascending(rightSide) && multiset(rightSide) == multiset(Column(lines, 1))
  {
    leftSide := [];
    rightSide := [];
    for i := 0 to |lines|
      invariant leftSide == Column(lines[..i], 0)
      invariant rightSide == Column(lines[..i], 1)
    {
      var split := Words(lines[i]);
      var left := NumeralValue(split[0]);
      var right := NumeralValue(split[1]);
      assert lines[..i + 1][..i] == lines[..i];
      leftSide := leftSide + [left];
      rightSide := rightSide + [right];
    }
    assert lines[..|lines|] == lines;
    assert |multiset(Sort(leftSide))| == |leftSide|;
    assert |multiset(Sort(rightSide))| == |rightSide|;
    leftSide := Sort(leftSide);
    rightSide := Sort(rightSide);
  }

  /** The sum of |l - r| over the zipped pairs; pairs past the shorter list are dropped. */
  function ZipDistance(left: seq<int>, right: seq<int>): (d: nat)
    ensures left == right ==> d == 0
  {
    if left == [] || right == [] then 0
    else Abs(left[0] - right[0]) + ZipDistance(left[1..], right[1..])
  }

  /** The smaller of two lengths. */
  function Min(a: nat, b: nat): nat
  {
    if a <= b then a else b
  }

  /** Only the first min(len) pairs count. */
  lemma {:induction false} ZipDistanceTruncate(left: seq<int>, right: seq<int>)
    ensures var m := Min(|left|, |right|);
            ZipDistance(left, right) == ZipDistance(left[..m], right[..m])
  {
    var m := Min(|left|, |right|);
    if left != [] && right != [] {
      ZipDistanceTruncate(left[1..], right[1..]);
      assert left[..m][1..] == left[1..][..m - 1];
      assert right[..m][1..] == right[1..][..m - 1];
    }
  }

  /** Swapping the two lists leaves the distance unchanged. */
  lemma {:induction false} ZipDistanceSymmetric(left: seq<int>, right: seq<int>)
    ensures ZipDistance(left, right) == ZipDistance(right, left)
  {
    if left != [] && right != [] {
      ZipDistanceSymmetric(left[1..], right[1..]);
    }
  }

  /** The distance is 0 exactly when the paired prefixes are equal. */
  lemma {:induction false} ZipDistanceZeroIff(left: seq<int>, right: seq<int>)
    ensures var m := Min(|left|, |right|);
            ZipDistance(left, right) == 0 <==> left[..m] == right[..m]
  {
    var m := Min(|left|, |right|);
    if left != [] && right != [] {
      ZipDistanceZeroIff(left[1..], right[1..]);
      assert left[..m] == [left[0]] + left[1..][..m - 1];
      assert right[..m] == [right[0]] + right[1..][..m - 1];
    }
  }

  /** `get_distance`, returning the sum it prints. */
  method GetDistance(leftSide: seq<int>, rightSide: seq<int>) returns (sum: int)
    ensures sum == ZipDistance(leftSide, rightSide)
  {
    sum := 0;
    var i := 0;
    while i < |leftSide| && i < |rightSide|
      invariant i <= |leftSide| && i <= |rightSide|
      invariant sum + ZipDistance(leftSide[i..], rightSide[i..]) == ZipDistance(leftSide, rightSide)
    {
      var left, right := leftSide[i], rightSide[i];
      assert leftSide[i..][1..] == leftSide[i + 1..];
      assert rightSide[i..][1..] == rightSide[i + 1..];
      sum := sum + Abs(left - right);
      i := i + 1;
    }
  }

  /** How many elements of `xs` equal `x` (`filter(..).count()`). */
  function Count(xs: seq<int>, x: int): nat
  {
    if xs == [] then 0 else (if xs[0] == x then 1 else 0) + Count(xs[1..], x)
  }

  /** The count is the multiplicity of `x` in the list's multiset. */
  lemma {:induction false} CountMultiplicity(xs: seq<int>, x: int)
    ensures Count(xs, x) == multiset(xs)[x]
  {
    if xs != [] {
      CountMultiplicity(xs[1..], x);
      assert xs == [xs[0]] + xs[1..];
    }
  }

  /** The sum over the left list of each value times its number of occurrences on the right. */
  function Similarity(left: seq<int>, right: seq<int>): (sim: int)
    ensures right == [] ==> sim == 0
  {
    if left == [] then 0 else left[0] * Count(right, left[0]) + Similarity(left[1..], right)
  }

  /** When no left value occurs on the right (in particular when the right is empty), similarity is 0. */
  lemma {:induction false} SimilarityDisjoint(left: seq<int>, right: seq<int>)
    requires forall i :: 0 <= i < |left| ==> left[i] !in right
    ensures Similarity(left, right) == 0
  {
    if left != [] {
      CountMultiplicity(right, left[0]);
      assert multiset(right)[left[0]] == 0;
      SimilarityDisjoint(left[1..], right);
    }
  }

  /** Only the right list's contents matter, not its order. */
  lemma {:induction false} SimilarityReorderRight(left: seq<int>, right: seq<int>, right': seq<int>)
    requires multiset(right) == multiset(right')
    ensures Similarity(left, right) == Similarity(left, right')
  {
    if left != [] {
      CountMultiplicity(right, left[0]);
      CountMultiplicity(right', left[0]);
      SimilarityReorderRight(left[1..], right, right');
    }
  }

  /** `get_similarity`, returning the sum it prints. */
  method GetSimilarity(leftSide: seq<int>, rightSide: seq<int>) returns (similarity: int)
    ensures similarity == Similarity(leftSide, rightSide)
  {
    similarity := 0;
    for i := 0 to |leftSide|
      invariant similarity + Similarity(leftSide[i..], rightSide) == Similarity(leftSide, rightSide)
    {
      var left := leftSide[i];
      assert leftSide[i..][1..] == leftSide[i + 1..];
      var val := Count(rightSide, left) * left;
      similarity := similarity + val;
    }
  }

  /** `get_answer` without the printing: the distance and the similarity of the sorted lists. */
  method GetAnswer(lines: seq<string>) returns (distance: int, similarity: int)
    requires forall i :: 0 <= i < |lines| ==> LineOk(lines[i])
    ensures distance == ZipDistance(Sort(Column(lines, 0)), Sort(Column(lines, 1)))
    ensures similarity == Similarity(Sort(Column(lines, 0)), Column(lines, 1))
  {
    var leftSide, rightSide := CleanInput(lines);
    AscendingUnique(leftSide, Sort(Column(lines, 0)));
    AscendingUnique(rightSide, Sort(Column(lines, 1)));
    distance := GetDistance(leftSide, rightSide);
    similarity := GetSimilarity(leftSide, rightSide);
    SimilarityReorderRight(leftSide, rightSide, Column(lines, 1));
  }
}
