/**
 * The instruction scanner of `src/day3.rs`. Part 1 sums the products of
 * every `mul(A,B)` instruction, A and B being one to three ASCII digits,
 * found left to right without overlap. Part 2 first deletes every span
 * from a `don't()` up to the next `do()` (or to the end), then sums the
 * same way. The pattern is read by a hand-written scanner for exactly
 * that pattern; characters stand for the bytes of an ASCII input.
 */
module MulScanner {
  import opened Wrappers
  import opened Text

  /** `pat` occurs in `s` starting at index i. */
  predicate StartsAt(s: string, i: int, pat: string)
  {
    0 <= i && i + |pat| <= |s| && s[i..i + |pat|] == pat
  }

  /** 10 to the power n. */
  function Pow10(n: nat): (p: nat)
    ensures p >= 1
  {
    if n == 0 then 1 else 10 * Pow10(n - 1)
  }

  /** A run of n digits is worth less than 10^n; three digits at most 999. */
  lemma {:induction false} DigitsBelow(s: string)
    requires forall i :: 0 <= i < |s| ==> IsDigit(s[i])
    ensures DigitsValue(s) < Pow10(|s|)
    ensures |s| <= 3 ==> DigitsValue(s) <= 999
  {
    if s != [] {
      DigitsBelow(s[..|s| - 1]);
    }
    if |s| <= 3 {
      assert Pow10(|s|) <= Pow10(3) by {
        if |s| < 3 { assert Pow10(|s|) <= 100; }
      }
    }
  }

  /** How many digits follow index i, counting at most `budget` of them. */
  function DigitRun(s: string, i: nat, budget: nat): (n: nat)
    requires i <= |s|
    ensures n <= budget && i + n <= |s|
    ensures forall k :: i <= k < i + n ==> IsDigit(s[k])
    ensures n < budget && i + n < |s| ==> !IsDigit(s[i + n])
    decreases budget
  {
    if budget == 0 || i == |s| || !IsDigit(s[i]) then 0
    else 1 + DigitRun(s, i + 1, budget - 1)
  }

  /** One to three digits at i followed by `stop`: their value and the index just past `stop`. */
  function Number(s: string, i: nat, stop: char): (r: Option<(nat, nat)>)
    requires i <= |s|
    ensures r.Some? ==> i + 2 <= r.value.1 <= i + 4 && r.value.1 <= |s| && r.value.0 <= 999
  {
    var n := DigitRun(s, i, 3);
    if 1 <= n && i + n < |s| && s[i + n] == stop then
      DigitsBelow(s[i..i + n]);
      Some((DigitsValue(s[i..i + n]), i + n + 1))
    else None
  }

  /** One match of the pattern: where it starts, the two numbers, and where it ends. */
  datatype Mul = Mul(start: nat, x: nat, y: nat, end: nat)

  /** The match of `mul(A,B)` that starts at index p, if there is one. */
  function MulAt(s: string, p: nat): (r: Option<Mul>)
    requires p <= |s|
    ensures r.Some? ==> r.value.start == p && p + 8 <= r.value.end <= p + 12 && r.value.end <= |s|
    ensures r.Some? ==> r.value.x <= 999 && r.value.y <= 999
  {
    if !StartsAt(s, p, "mul(") then None
    else
      var first := Number(s, p + 4, ',');
      if first.None? then None
      else
        var second := Number(s, first.value.1, ')');
        if second.None? then None
        else Some(Mul(p, first.value.0, second.value.0, second.value.1))
  }

  /** The text the pattern matches for the digit strings a and b. */
  function Instruction(a: string, b: string): string
  {
    "mul(" + a + "," + b + ")"
  }

  /** A digit string the pattern's `[0-9]{1,3}` accepts. */
  predicate Operand(a: string)
  {
    IsDigits(a) && |a| <= 3
  }

  /** The digit run at i is exactly `a` when `a` is there and a non-digit follows it. */
  lemma {:induction false} DigitRunOf(s: string, i: nat, a: string, budget: nat)
    requires i + |a| < |s| && s[i..i + |a|] == a
    requires forall k :: 0 <= k < |a| ==> IsDigit(a[k])
    requires |a| <= budget && !IsDigit(s[i + |a|])
    ensures DigitRun(s, i, budget) == |a|
    decreases |a|
  {
    if a != [] {
      assert s[i] == a[0];
      assert s[i + 1..i + 1 + |a[1..]|] == a[1..];
      DigitRunOf(s, i + 1, a[1..], budget - 1);
    }
  }

  /** An operand followed by `stop` at i is what `Number` reads there. */
  lemma NumberOf(s: string, i: nat, a: string, stop: char)
    requires Operand(a) && !IsDigit(stop)
    requires i + |a| < |s| && s[i..i + |a|] == a && s[i + |a|] == stop
    ensures Number(s, i, stop) == Some((DigitsValue(a), i + |a| + 1))
  {
    DigitRunOf(s, i, a, 3);
    var n := DigitRun(s, i, 3);
    assert n == |a| && 1 <= n && i + n < |s| && s[i + n] == stop;
    assert s[i..i + n] == a;
  }

  /** The pieces of an instruction found at p. */
  lemma InstructionParts(s: string, p: nat, a: string, b: string, q: nat)
    requires StartsAt(s, p, Instruction(a, b)) && q == p + 5 + |a|
    ensures StartsAt(s, p, "mul(")
    ensures p + 4 + |a| < |s| && s[p + 4..p + 4 + |a|] == a && s[p + 4 + |a|] == ','
    ensures q + |b| < |s| && s[q..q + |b|] == b && s[q + |b|] == ')'
  {
    var ins := Instruction(a, b);
    assert forall k :: 0 <= k < |ins| ==> s[p + k] == s[p..p + |ins|][k] == ins[k];
    assert s[p..p + 4] == "mul(" by {
      forall k | 0 <= k < 4 ensures s[p + k] == ins[k] == "mul("[k] { }
    }
    assert s[p + 4..p + 4 + |a|] == a by {
      forall k | 0 <= k < |a| ensures s[p + 4 + k] == ins[4 + k] == a[k] { }
    }
    assert s[p + 4 + |a|] == ins[4 + |a|] == ',';
    assert s[q..q + |b|] == b by {
      forall k | 0 <= k < |b| ensures s[q + k] == ins[5 + |a| + k] == b[k] { }
    }
    assert s[q + |b|] == ins[5 + |a| + |b|] == ')';
  }

  /** What `Number` reads is an operand followed by `stop`. */
  lemma NumberSound(s: string, i: nat, stop: char) returns (a: string)
    requires i <= |s| && Number(s, i, stop).Some?
    ensures Operand(a) && i + |a| < |s| && s[i..i + |a|] == a && s[i + |a|] == stop
    ensures Number(s, i, stop).value == (DigitsValue(a), i + |a| + 1)
  {
    var n := DigitRun(s, i, 3);
    a := s[i..i + n];
  }

  /** Operands and punctuation in the right places make an instruction. */
  lemma InstructionFromParts(s: string, p: nat, a: string, b: string)
    requires StartsAt(s, p, "mul(")
    requires p + 4 + |a| < |s| && s[p + 4..p + 4 + |a|] == a && s[p + 4 + |a|] == ','
    requires p + 5 + |a| + |b| < |s| && s[p + 5 + |a|..p + 5 + |a| + |b|] == b && s[p + 5 + |a| + |b|] == ')'
    ensures StartsAt(s, p, Instruction(a, b))
  {
    var ins := Instruction(a, b);
    var q := p + 5 + |a|;
    forall k | 0 <= k < |ins|
      ensures s[p + k] == ins[k]
    {
      if k < 4 {
        assert s[p + k] == s[p..p + 4][k] == "mul("[k] == ins[k];
      } else if k < 4 + |a| {
        assert s[p + k] == s[p + 4..p + 4 + |a|][k - 4] == a[k - 4] == ins[k];
      } else if k == 4 + |a| {
        assert ins[k] == ',';
      } else if k < q - p + |b| {
        assert s[p + k] == s[q..q + |b|][k - 5 - |a|] == b[k - 5 - |a|] == ins[k];
      } else {
        assert ins[k] == ')';
      }
    }
    assert s[p..p + |ins|] == ins;
  }

  /** Whatever `MulAt` finds is an instruction of the pattern, with the numbers its digits spell. */
  lemma MulAtSound(s: string, p: nat) returns (a: string, b: string)
    requires p <= |s| && MulAt(s, p).Some?
    ensures Operand(a) && Operand(b) && StartsAt(s, p, Instruction(a, b))
    ensures MulAt(s, p).value == Mul(p, DigitsValue(a), DigitsValue(b), p + |Instruction(a, b)|)
  {
    var first := Number(s, p + 4, ',');
    var second := Number(s, first.value.1, ')');
    assert StartsAt(s, p, "mul(") && MulAt(s, p).value == Mul(p, first.value.0, second.value.0, second.value.1);
    a := NumberSound(s, p + 4, ',');
    b := NumberSound(s, first.value.1, ')');
    InstructionFromParts(s, p, a, b);
    InstructionLength(a, b);
  }

  /** Wherever an instruction of the pattern occurs, `MulAt` finds it with the numbers its digits spell. */
  lemma MulAtComplete(s: string, p: nat, a: string, b: string)
    requires Operand(a) && Operand(b) && StartsAt(s, p, Instruction(a, b))
    ensures MulAt(s, p) == Some(Mul(p, DigitsValue(a), DigitsValue(b), p + |Instruction(a, b)|))
  {
    var q := p + 5 + |a|;
    var e := q + |b| + 1;
    InstructionLength(a, b);
    assert e == p + |Instruction(a, b)|;
    InstructionParts(s, p, a, b, q);
    NumberOf(s, p + 4, a, ',');
    NumberOf(s, q, b, ')');
    MulAtOf(s, p, DigitsValue(a), q, DigitsValue(b), e);
  }

  /** The instruction is "mul(", the operands with a comma between them, and ")". */
  lemma InstructionLength(a: string, b: string)
    ensures |Instruction(a, b)| == |a| + |b| + 6
  {
  }

  /** `MulAt` from the values its two `Number` reads return. */
  lemma MulAtOf(s: string, p: nat, x: nat, q: nat, y: nat, e: nat)
    requires StartsAt(s, p, "mul(")
    requires Number(s, p + 4, ',') == Some((x, q)) && q <= |s|
    requires Number(s, q, ')') == Some((y, e))
    ensures MulAt(s, p) == Some(Mul(p, x, y, e))
  {
  }

  /** An instruction on its own is one match, spanning all of it. */
  lemma InstructionAlone(a: string, b: string)
    requires Operand(a) && Operand(b)
    ensures MulAt(Instruction(a, b), 0) == Some(Mul(0, DigitsValue(a), DigitsValue(b), |Instruction(a, b)|))
  {
    var s := Instruction(a, b);
    assert StartsAt(s, 0, s) by {
      assert s[0..|s|] == s;
    }
    MulAtComplete(s, 0, a, b);
  }

  /** An instruction written from two numbers below 1000 is read back as those numbers. */
  lemma MulRoundTrip(x: nat, y: nat)
    requires x <= 999 && y <= 999
    ensures MulAt(Instruction(ShowNat(x), ShowNat(y)), 0) ==
            Some(Mul(0, x, y, |Instruction(ShowNat(x), ShowNat(y))|))
  {
    ShowNatSmall(x);
    ShowNatSmall(y);
    ShowNatValue(x);
    ShowNatValue(y);
    InstructionAlone(ShowNat(x), ShowNat(y));
  }

  /**
   * What `captures_iter` yields from index p on: the leftmost match, then
   * the leftmost match after its end, and so on.
   */
  function Scan(s: string, p: nat): (ms: seq<Mul>)
    requires p <= |s|
    ensures forall k :: 0 <= k < |ms| ==> p <= ms[k].start && ms[k].end <= |s|
    decreases |s| - p
  {
    if p == |s| then []
    else match MulAt(s, p)
      case Some(m) => [m] + Scan(s, m.end)
      case None => Scan(s, p + 1)
  }

  /** No match starts at any index from lo up to hi. */
  predicate NoMatchIn(s: string, lo: nat, hi: nat)
    requires hi <= |s|
  {
    forall i :: lo <= i < hi ==> MulAt(s, i).None?
  }

  /**
   * The leftmost-first, non-overlapping search from p, stated on its
   * result: the first match reported is the first match at or after p,
   * and the rest are found the same way from where it ends.
   */
  predicate Leftmost(s: string, p: nat, ms: seq<Mul>)
    requires p <= |s|
    decreases ms
  {
    if ms == [] then NoMatchIn(s, p, |s|)
    else
      p <= ms[0].start <= |s| && NoMatchIn(s, p, ms[0].start) &&
      MulAt(s, ms[0].start) == Some(ms[0]) && Leftmost(s, ms[0].end, ms[1..])
  }

  /** Skipping an index where nothing matches keeps a search result valid. */
  lemma LeftmostSkip(s: string, p: nat, ms: seq<Mul>)
    requires p < |s| && MulAt(s, p).None? && Leftmost(s, p + 1, ms)
    ensures Leftmost(s, p, ms)
  {
  }

  /** A match at p followed by a search result from its end is a search result from p. */
  lemma LeftmostTake(s: string, p: nat, m: Mul, ms: seq<Mul>)
    requires p <= |s| && MulAt(s, p) == Some(m) && Leftmost(s, m.end, ms)
    ensures Leftmost(s, p, [m] + ms)
  {
    assert ([m] + ms)[1..] == ms;
  }

  /**
   * One step of `Scan` from p < |s|: it continues from q, past p, and is a
   * search result from p when it is one from q.
   */
  lemma ScanStep(s: string, p: nat) returns (q: nat)
    requires p < |s|
    ensures p < q <= |s|
    ensures Leftmost(s, q, Scan(s, q)) ==> Leftmost(s, p, Scan(s, p))
  {
    match MulAt(s, p)
    case Some(m) =>
      q := m.end;
      ScanTake(s, p, m);
      if Leftmost(s, q, Scan(s, q)) {
        LeftmostTake(s, p, m, Scan(s, q));
      }
    case None =>
      q := p + 1;
      ScanSkip(s, p);
      if Leftmost(s, q, Scan(s, q)) {
        LeftmostSkip(s, p, Scan(s, q));
      }
  }

  /** `Scan` carries out the leftmost-first, non-overlapping search. */
  lemma {:induction false} ScanLeftmost(s: string, p: nat)
    requires p <= |s|
    ensures Leftmost(s, p, Scan(s, p))
    decreases |s| - p
  {
    if p < |s| {
      var q := ScanStep(s, p);
      ScanLeftmost(s, q);
    }
  }

  /**
   * One step of a search result from p < |s|: it is determined by the
   * search result ms' from some q past p, and equals `Scan` from p when ms'
   * equals `Scan` from q.
   */
  lemma LeftmostStep(s: string, p: nat, ms: seq<Mul>) returns (q: nat, ms': seq<Mul>)
    requires p < |s| && Leftmost(s, p, ms)
    ensures p < q <= |s| && Leftmost(s, q, ms')
    ensures ms' == Scan(s, q) ==> ms == Scan(s, p)
  {
    match MulAt(s, p)
    case Some(m) =>
      LeftmostHead(s, p, m, ms);
      q, ms' := m.end, ms[1..];
      ScanTake(s, p, m);
      assert ms == [m] + ms';
    case None =>
      LeftmostNoHead(s, p, ms);
      q, ms' := p + 1, ms;
      ScanSkip(s, p);
  }

  /** A search result from an index where a match starts begins with that match. */
  lemma LeftmostHead(s: string, p: nat, m: Mul, ms: seq<Mul>)
    requires p <= |s| && MulAt(s, p) == Some(m) && Leftmost(s, p, ms)
    ensures ms != [] && ms[0] == m && Leftmost(s, m.end, ms[1..])
  {
    assert ms != [];
    assert ms[0].start == p;
  }

  /** A search result from an index where no match starts is also one from the next index. */
  lemma LeftmostNoHead(s: string, p: nat, ms: seq<Mul>)
    requires p < |s| && MulAt(s, p).None? && Leftmost(s, p, ms)
    ensures Leftmost(s, p + 1, ms)
  {
    if ms != [] {
      assert ms[0].start != p;
    }
  }

  /** `Scan` at a match: the match, then the scan from its end. */
  lemma ScanTake(s: string, p: nat, m: Mul)
    requires p < |s| && MulAt(s, p) == Some(m)
    ensures Scan(s, p) == [m] + Scan(s, m.end)
  {
  }

  /** `Scan` where no match starts: the scan from the next index. */
  lemma ScanSkip(s: string, p: nat)
    requires p < |s| && MulAt(s, p).None?
    ensures Scan(s, p) == Scan(s, p + 1)
  {
  }

  /** A search result from the end of the text is empty. */
  lemma LeftmostAtEnd(s: string, ms: seq<Mul>)
    requires Leftmost(s, |s|, ms)
    ensures ms == []
  {
  }

  /** The search has only one possible result, so it is exactly what `Scan` reports. */
  lemma {:induction false} LeftmostUnique(s: string, p: nat, ms: seq<Mul>)
    requires p <= |s| && Leftmost(s, p, ms)
    ensures ms == Scan(s, p)
    decreases |s| - p
  {
    if p == |s| {
      LeftmostAtEnd(s, ms);
    } else {
      var q, ms' := LeftmostStep(s, p, ms);
      LeftmostUnique(s, q, ms');
    }
  }

  /** Every product of two matched numbers lies in 0..998001. */
  lemma ProductBound(m: Mul)
    requires m.x <= 999 && m.y <= 999
    ensures 0 <= m.x * m.y <= 998001
  {
    assert m.x * m.y <= 999 * m.y <= 999 * 999;
  }

  /** The product of each match, in order. */
  function Products(ms: seq<Mul>): (ps: seq<int>)
    ensures |ps| == |ms|
    ensures forall k :: 0 <= k < |ms| ==> ps[k] == ms[k].x * ms[k].y
  {
    if ms == [] then [] else [ms[0].x * ms[0].y] + Products(ms[1..])
  }

  /** The sum of a list of integers (`iter().sum()`). */
  function Sum(xs: seq<int>): int
  {
    if xs == [] then 0 else Sum(xs[..|xs| - 1]) + xs[|xs| - 1]
  }

  /** What `get_prod_sum` returns. */
  function ProdSum(s: string): int
  {
    Sum(Products(Scan(s, 0)))
  }

  /** Every product `get_prod_sum` adds lies in 0..998001. */
  lemma {:induction false} ScanProductsBound(s: string, p: nat)
    requires p <= |s|
    ensures forall k :: 0 <= k < |Scan(s, p)| ==> 0 <= Products(Scan(s, p))[k] <= 998001
    decreases |s| - p
  {
    if p < |s| {
      match MulAt(s, p)
      case Some(m) =>
        ScanProductsBound(s, m.end);
        ProductBound(m);
        assert Scan(s, p)[1..] == Scan(s, m.end);
      case None =>
        ScanProductsBound(s, p + 1);
    }
  }

  /** Text without `mul(` from p on holds no match, so it adds nothing. */
  lemma {:induction false} NoMulNoMatch(s: string, p: nat)
    requires p <= |s|
    requires forall i :: p <= i ==> !StartsAt(s, i, "mul(")
    ensures Scan(s, p) == []
    decreases |s| - p
  {
    if p < |s| {
      NoMulNoMatch(s, p + 1);
    }
  }

  /** An input with no `mul(` in it sums to 0. */
  lemma NoMulZero(s: string)
    requires forall i :: !StartsAt(s, i, "mul(")
    ensures ProdSum(s) == 0
  {
    NoMulNoMatch(s, 0);
  }

  /** A single instruction of two numbers below 1000 sums to their product. */
  lemma InstructionSum(x: nat, y: nat)
    requires x <= 999 && y <= 999
    ensures ProdSum(Instruction(ShowNat(x), ShowNat(y))) == x * y
  {
    var s := Instruction(ShowNat(x), ShowNat(y));
    MulRoundTrip(x, y);
    assert Scan(s, 0) == [Mul(0, x, y, |s|)];
    assert Products(Scan(s, 0)) == [x * y];
    assert Sum([x * y]) == Sum([]) + x * y;
  }

  /**
   * `get_prod_sum`: collects the product of each match `captures_iter`
   * yields, then adds the products up.
   */
  method GetProdSum(input: string) returns (sum: int)
    ensures sum == ProdSum(input)
  {
    var caps := Scan(input, 0);
    var products: seq<int> := [];
    for i := 0 to |caps|
      invariant products == Products(caps[..i])
    {
      var product := caps[i].x * caps[i].y;
      products := products + [product];
      assert caps[..i + 1] == caps[..i] + [caps[i]];
      ProductsAppend(caps[..i], caps[i]);
    }
    assert caps[..|caps|] == caps;
    sum := 0;
    for i := 0 to |products|
      invariant sum == Sum(products[..i])
    {
      assert products[..i + 1][..i] == products[..i];
      sum := sum + products[i];
    }
    assert products[..|products|] == products;
  }

  /** The products of one more match are the old products and its own. */
  lemma {:induction false} ProductsAppend(ms: seq<Mul>, m: Mul)
    ensures Products(ms + [m]) == Products(ms) + [m.x * m.y]
  {
  }

  const DONT: string := "don't()"
  const DO: string := "do()"

  /** The first occurrence of `pat` at index i or later (`str::find` from i). */
  function FindFrom(s: string, pat: string, i: nat): (r: Option<nat>)
    requires i <= |s|
    ensures r.Some? ==> i <= r.value && StartsAt(s, r.value, pat)
    ensures r.Some? ==> forall j :: i <= j < r.value ==> !StartsAt(s, j, pat)
    ensures r.None? ==> forall j :: i <= j ==> !StartsAt(s, j, pat)
    decreases |s| - i
  {
    if StartsAt(s, i, pat) then Some(i)
    else if i == |s| then None
    else FindFrom(s, pat, i + 1)
  }

  /** The first occurrence of `pat` (`str::find`). */
  function Find(s: string, pat: string): (r: Option<nat>)
    ensures r.Some? ==> StartsAt(s, r.value, pat) && forall j :: 0 <= j < r.value ==> !StartsAt(s, j, pat)
    ensures r.None? <==> forall j :: !StartsAt(s, j, pat)
  {
    FindFrom(s, pat, 0)
  }

  /** `do()` cannot begin inside a `don't()`: the nearest one is at least 7 characters on. */
  lemma NoDoInsideDont(rest: string)
    requires StartsAt(rest, 0, DONT)
    ensures forall j :: 0 <= j < 7 ==> !StartsAt(rest, j, DO)
  {
    assert rest[..7] == DONT;
    forall j | 0 <= j < 7
      ensures !StartsAt(rest, j, DO)
    {
      assert rest[j] == rest[..7][j] == DONT[j];
      if j + 4 <= |rest| {
        if j == 0 {
          assert rest[j..j + 4][2] == rest[2] == rest[..7][2] == 'n';
        } else {
          assert rest[j..j + 4][0] == rest[j] != 'd';
        }
      }
    }
  }

  /** Where one pass of the loop stops deleting: the next `do()` after the first `don't()`, or the end. */
  function CutEnd(s: string): (end: nat)
    requires Find(s, DONT).Some?
    ensures var start := Find(s, DONT).value;
            start + 7 <= start + end <= |s| &&
            (start + end == |s| || StartsAt(s, start + end, DO)) &&
            forall j :: start <= j < start + end ==> !StartsAt(s, j, DO)
  {
    var start := Find(s, DONT).value;
    var rest := s[start..];
    NoDoInsideDont(rest);
    match Find(rest, DO)
    case Some(e) =>
      StartsAtSuffix(s, start, start + e, DO);
      forall j | start <= j < start + e ensures !StartsAt(s, j, DO) {
        StartsAtSuffix(s, start, j, DO);
      }
      e
    case None =>
      forall j | start <= j < |s| ensures !StartsAt(s, j, DO) {
        StartsAtSuffix(s, start, j, DO);
      }
      |rest|
  }

  /** An occurrence in `s` at j is an occurrence in the suffix from k at j - k. */
  lemma StartsAtSuffix(s: string, k: nat, j: int, pat: string)
    requires k <= j && k <= |s|
    ensures StartsAt(s, j, pat) <==> StartsAt(s[k..], j - k, pat)
  {
    if j + |pat| <= |s| {
      assert s[j..j + |pat|] == s[k..][j - k..j - k + |pat|];
    }
  }

  /** One pass of the loop: the first `don't()` and everything after it up to the next `do()` go. */
  function Cut(s: string): (t: string)
    requires Find(s, DONT).Some?
    ensures var start := Find(s, DONT).value;
            |t| + 7 <= |s| && start <= |t| && t[..start] == s[..start] && t[start..] == s[start + CutEnd(s)..]
  {
    var start := Find(s, DONT).value;
    s[..start] + s[start + CutEnd(s)..]
  }

  /** What the loop of `day3_part2` leaves: passes are made until no `don't()` is left. */
  function Strip(s: string): (r: string)
    ensures r == s || |r| + 7 <= |s|
    decreases |s|
  {
    if Find(s, DONT).None? then s else Strip(Cut(s))
  }

  /** A pass creates no `don't()` before the point where the first one was. */
  lemma CutNoNewDont(s: string)
    requires Find(s, DONT).Some?
    ensures forall j :: 0 <= j < Find(s, DONT).value ==> !StartsAt(Cut(s), j, DONT)
  {
    var start := Find(s, DONT).value;
    var t := Cut(s);
    var end := CutEnd(s);
    forall j | 0 <= j < start
      ensures !StartsAt(t, j, DONT)
    {
      if j + 7 <= start {
        assert t[j..j + 7] == t[..start][j..j + 7] == s[..start][j..j + 7] == s[j..j + 7];
        assert !StartsAt(s, j, DONT);
      } else if j + 7 <= |t| {
        // It would run past `start` into the kept `do()`, whose 'd' no later letter of `don't()` matches.
        assert start + end < |s|;
        assert s[start + end..start + end + 4] == DO;
        assert t[start] == t[start..][0] == s[start + end..][0] == s[start + end..start + end + 4][0] == 'd';
        assert t[j..j + 7][start - j] == t[start];
        assert DONT[start - j] != 'd';
      }
    }
  }

  /** Text free of `don't()` up to k comes through the loop unchanged up to k. */
  lemma {:induction false} StripKeepsPrefix(s: string, k: nat)
    requires k <= |s|
    requires forall j :: 0 <= j < k ==> !StartsAt(s, j, DONT)
    ensures |Strip(s)| >= k && Strip(s)[..k] == s[..k]
    decreases |s|
  {
    if Find(s, DONT).Some? {
      var start := Find(s, DONT).value;
      assert k <= start;
      CutNoNewDont(s);
      var t := Cut(s);
      StripKeepsPrefix(t, start);
      assert Strip(s)[..k] == Strip(s)[..start][..k];
    }
  }

  /** In particular the text before the first `don't()` is kept as it was. */
  lemma StripKeepsHead(s: string)
    requires Find(s, DONT).Some?
    ensures var start := Find(s, DONT).value;
            |Strip(s)| >= start && Strip(s)[..start] == s[..start]
  {
    StripKeepsPrefix(s, Find(s, DONT).value);
  }

  /** No `don't()` survives the loop. */
  lemma {:induction false} StripClean(s: string)
    ensures forall j :: !StartsAt(Strip(s), j, DONT)
    decreases |s|
  {
    if Find(s, DONT).Some? {
      StripClean(Cut(s));
    }
  }

  /** The loop never lengthens the text, and leaves text without `don't()` as it is. */
  lemma {:induction false} StripShortens(s: string)
    ensures |Strip(s)| <= |s|
    ensures (forall j :: !StartsAt(s, j, DONT)) ==> Strip(s) == s
    decreases |s|
  {
    if Find(s, DONT).Some? {
      StripShortens(Cut(s));
    }
  }

  /**
   * `day3_part2`: while a `don't()` remains, delete from the first one up
   * to the next `do()` (or to the end); then sum the products of what is
   * left. The edited text is returned along with the sum.
   */
  method Day3Part2(input: string) returns (edited: string, total: int)
    ensures edited == Strip(input)
    ensures forall j :: !StartsAt(edited, j, DONT)
    ensures total == ProdSum(Strip(input))
  {
    edited := input;
    while Find(edited, DONT).Some?
      invariant Strip(edited) == Strip(input)
      decreases |edited|
    {
      ghost var before := edited;
      var start := Find(edited, DONT).value;
      var subSearch := edited[start..];
      var end := match Find(subSearch, DO) case Some(e) => e case None => |subSearch|;
      edited := edited[..start] + edited[start + end..];
      assert end == CutEnd(before);
      assert edited == Cut(before);
    }
    StripClean(input);
    total := GetProdSum(edited);
  }

  /**
   * `get_answers` without the file and the printing: part 1 sums the
   * input as read, part 2 the input with the disabled spans deleted.
   */
  method GetAnswers(input: string) returns (part1: int, part2: int)
    ensures part1 == ProdSum(input)
    ensures part2 == ProdSum(Strip(input))
  {
    part1 := GetProdSum(input);
    var edited;
    edited, part2 := Day3Part2(input);
  }
}
