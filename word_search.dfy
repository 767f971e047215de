/**
 * The directional word search of src/day4.rs: a grid of characters, the
 * eight compass directions, a bounds-checked one-step read, the mirror
 * triple used to suppress double counting, and the scan that traces the
 * word from every cell holding its first or its last character.
 *
 * Coordinates are unbounded integers. The source keeps them as `usize`
 * and casts the running position with `as usize`; a negative position is
 * read here as "no character", which is what every such read comes to
 * when it does not panic.
 */
module WordSearch {
  import opened Wrappers

  /** The eight compass directions (src/day4.rs:13-22). */
  datatype Direction = Up | Down | Left | Right | LeftUp | LeftDown | RightUp | RightDown

  /** The directions in the order `Direction::iterator` yields them. */
  function AllDirections(): seq<Direction>
  {
    [Up, Down, Left, Right, LeftUp, LeftDown, RightUp, RightDown]
  }

  /** The position at which the iterator yields `d`. */
  function Ordinal(d: Direction): (k: nat)
    ensures k < |AllDirections()| && AllDirections()[k] == d
  {
    match d
    case Up => 0
    case Down => 1
    case Left => 2
    case Right => 3
    case LeftUp => 4
    case LeftDown => 5
    case RightUp => 6
    case RightDown => 7
  }

  /** The iterator yields each of the eight directions exactly once. */
  lemma IteratorYieldsEachOnce()
    ensures |AllDirections()| == 8
    ensures forall d: Direction :: d in AllDirections()
    ensures forall i :: 0 <= i < |AllDirections()| ==> Ordinal(AllDirections()[i]) == i
  {
    forall d: Direction ensures d in AllDirections() {
      assert AllDirections()[Ordinal(d)] == d;
    }
  }

  /** A sequence of directions listed in the iterator's order, without repeats. */
  predicate InIteratorOrder(ds: seq<Direction>)
  {
    forall i, j :: 0 <= i < j < |ds| ==> Ordinal(ds[i]) < Ordinal(ds[j])
  }

  /**
   * The iterator's own list is in iterator order: immediate from `Ordinal`,
   * and stated once so that `SelectInOrder` can start from it.
   */
  lemma AllDirectionsInOrder()
    ensures InIteratorOrder(AllDirections())
  {
    IteratorYieldsEachOnce();
  }

  /** The unit step (row delta, column delta) of a direction. */
  function Values(d: Direction): (v: (int, int))
    ensures -1 <= v.0 <= 1 && -1 <= v.1 <= 1
    ensures v != (0, 0)
  {
    match d
    case Up => (-1, 0)
    case Down => (1, 0)
    case Left => (0, -1)
    case Right => (0, 1)
    case LeftUp => (-1, -1)
    case LeftDown => (1, -1)
    case RightUp => (-1, 1)
    case RightDown => (1, 1)
  }

  /** No two directions share a step vector. */
  lemma ValuesInjective(d: Direction, e: Direction)
    ensures Values(d) == Values(e) ==> d == e
  {
  }

  /** The direction pointing the other way, as used by `reverse_vec`. */
  function Opposite(d: Direction): (o: Direction)
    ensures Values(o) == (-Values(d).0, -Values(d).1)
  {
    match d
    case Up => Down
    case Down => Up
    case Left => Right
    case Right => Left
    case LeftUp => RightDown
    case LeftDown => RightUp
    case RightUp => LeftDown
    case RightDown => LeftUp
  }

  /** Taking the opposite twice gives the direction back, and no direction is its own opposite. */
  lemma OppositeInvolution(d: Direction)
    ensures Opposite(Opposite(d)) == d
    ensures Opposite(d) != d
  {
  }

  /** A recorded placement: anchor row, anchor column and reading direction. */
  datatype Occurrence = Occurrence(row: int, col: int, dir: Direction)

  /**
   * The mirror of a placement of a word of `wordLength` characters: the
   * same cells, described from the far end and read the other way.
   */
  function ReverseVec(row: int, col: int, d: Direction, wordLength: int): (m: Occurrence)
    ensures m.dir == Opposite(d)
    ensures m.row + Values(m.dir).0 * (wordLength - 1) == row
    ensures m.col + Values(m.dir).1 * (wordLength - 1) == col
  {
    var magnitude := wordLength - 1;
    Occurrence(row + Values(d).0 * magnitude, col + Values(d).1 * magnitude, Opposite(d))
  }

  /** Mirroring twice with the same length returns the original triple. */
  lemma ReverseVecTwice(row: int, col: int, d: Direction, wordLength: int)
    ensures var m := ReverseVec(row, col, d, wordLength);
            ReverseVec(m.row, m.col, m.dir, wordLength) == Occurrence(row, col, d)
  {
    OppositeInvolution(d);
  }

  /** Rows of characters; rows may differ in length. */
  type Grid = seq<seq<char>>

  /** A total read: the character at (r, c), or None outside the grid. */
  function Read(grid: Grid, r: int, c: int): Option<char>
  {
    if 0 <= r < |grid| && 0 <= c < |grid[r]| then Some(grid[r][c]) else None
  }

  /** The length of row r, or 0 for a row that does not exist. */
  function RowLen(grid: Grid, r: int): nat
  {
    if 0 <= r < |grid| then |grid[r]| else 0
  }

  /**
   * `read_direction`: the character one step from (row, col) along d. The
   * guards are the source's own: a step up or left needs a positive row or
   * column, a step down needs row + 1 below the number of rows, and a step
   * right needs col + 1 below the length of the CURRENT row. A read that
   * the guards let through but that falls outside the grid (it panics in
   * the source) gives None.
   */
  function ReadDirection(grid: Grid, row: int, col: int, d: Direction): (r: Option<char>)
    ensures r.Some? ==> row >= 0 && col >= 0 && 0 <= row + Values(d).0 < |grid|
  {
    var (dr, dc) := Values(d);
    if row < 0 || col < 0 then None
    else if (dr < 0 && row == 0) || (dr > 0 && row + 1 >= |grid|) then None
    else if (dc < 0 && col == 0) || (dc > 0 && col + 1 >= RowLen(grid, row)) then None
    else Read(grid, row + dr, col + dc)
  }

  /** Every grid whose rows all have the length of the first. */
  predicate Rectangular(grid: Grid)
  {
    forall r :: 0 <= r < |grid| ==> |grid[r]| == |grid[0]|
  }

  /** Whatever `read_direction` returns is the neighbour's real character. */
  lemma ReadDirectionSound(grid: Grid, row: int, col: int, d: Direction)
    ensures ReadDirection(grid, row, col, d).Some? ==>
              var (r, c) := (row + Values(d).0, col + Values(d).1);
              0 <= r < |grid| && 0 <= c < |grid[r]| &&
              ReadDirection(grid, row, col, d).value == grid[r][c]
  {
  }

  /**
   * On a rectangular grid and from a cell inside it, `read_direction`
   * returns the neighbour exactly when the neighbour is inside the grid.
   */
  lemma ReadDirectionRectangular(grid: Grid, row: int, col: int, d: Direction)
    requires Rectangular(grid)
    requires 0 <= row < |grid| && 0 <= col < |grid[row]|
    ensures var (r, c) := (row + Values(d).0, col + Values(d).1);
            ReadDirection(grid, row, col, d) ==
              if 0 <= r < |grid| && 0 <= c < |grid[r]| then Some(grid[r][c]) else None
  {
    var (r, c) := (row + Values(d).0, col + Values(d).1);
    if 0 <= r < |grid| {
      assert |grid[r]| == |grid[0]| == |grid[row]|;
    }
  }

  /** `read_direction(..).unwrap_or(' ')`, the character compared in a trace. */
  function ReadOr(grid: Grid, row: int, col: int, d: Direction): char
  {
    match ReadDirection(grid, row, col, d)
    case Some(ch) => ch
    case None => ' '
  }

  /** The position k steps from (r, c) along d. */
  function Shift(r: int, c: int, d: Direction, k: nat): (int, int)
    decreases k
  {
    if k == 0 then (r, c)
    else
      var (r', c') := Shift(r, c, d, k - 1);
      (r' + Values(d).0, c' + Values(d).1)
  }

  /** One more step along d from the position k steps away. */
  lemma ShiftNext(r: int, c: int, d: Direction, k: nat)
    ensures Shift(r, c, d, k + 1) == (Shift(r, c, d, k).0 + Values(d).0, Shift(r, c, d, k).1 + Values(d).1)
  {
  }

  /** k + 1 steps are the first step and then k more. */
  lemma {:induction false} ShiftFirst(r: int, c: int, d: Direction, k: nat)
    ensures Shift(r + Values(d).0, c + Values(d).1, d, k) == Shift(r, c, d, k + 1)
    decreases k
  {
    if k > 0 {
      ShiftFirst(r, c, d, k - 1);
    }
  }

  /**
   * How many characters of `rest` the `while let` loop of
   * `check_for_word` consumes when it starts at (r, c) and walks along d:
   * each character is taken, the position advances one step, and the
   * character is compared with the cell one further step along d; the
   * loop stops after the first mismatch.
   */
  function Steps(grid: Grid, r: int, c: int, d: Direction, rest: seq<char>): (n: nat)
    ensures n <= |rest|
    ensures |rest| > 0 ==> n > 0
    decreases |rest|
  {
    if rest == [] then 0
    else
      var (r', c') := (r + Values(d).0, c + Values(d).1);
      if rest[0] == ReadOr(grid, r', c', d) then 1 + Steps(grid, r', c', d, rest[1..]) else 1
  }

  /** One comparison of a trace, then the rest of it. */
  lemma StepsUnfold(grid: Grid, r: int, c: int, d: Direction, rest: seq<char>)
    requires rest != []
    ensures rest[0] == ReadOr(grid, r + Values(d).0, c + Values(d).1, d) ==>
              Steps(grid, r, c, d, rest) == 1 + Steps(grid, r + Values(d).0, c + Values(d).1, d, rest[1..])
    ensures rest[0] != ReadOr(grid, r + Values(d).0, c + Values(d).1, d) ==>
              Steps(grid, r, c, d, rest) == 1
  {
  }

  /**
   * The n characters a trace from (r, c) along d compares against, in
   * order: the cells two, three, ... steps away, with ' ' for a cell the
   * read does not reach.
   */
  function Ray(grid: Grid, r: int, c: int, d: Direction, n: nat): (s: seq<char>)
    ensures |s| == n
    decreases n
  {
    if n == 0 then []
    else
      var (r', c') := (r + Values(d).0, c + Values(d).1);
      [ReadOr(grid, r', c', d)] + Ray(grid, r', c', d, n - 1)
  }

  /** The k-th character of a ray is the one read from k + 1 steps along d. */
  lemma {:induction false} RayAt(grid: Grid, r: int, c: int, d: Direction, n: nat, k: nat)
    requires k < n
    ensures var (r', c') := Shift(r, c, d, k + 1);
            Ray(grid, r, c, d, n)[k] == ReadOr(grid, r', c', d)
    decreases n
  {
    if k > 0 {
      var (r1, c1) := (r + Values(d).0, c + Values(d).1);
      RayAt(grid, r1, c1, d, n - 1, k - 1);
      ShiftFirst(r, c, d, k);
    }
  }

  /**
   * A trace consumes all of `rest` exactly when every character but the
   * last matches the ray: a trace that fails only on its final character
   * consumes everything, just like a full match.
   */
  lemma {:induction false} StepsAllIff(grid: Grid, r: int, c: int, d: Direction, rest: seq<char>)
    ensures Steps(grid, r, c, d, rest) == |rest| <==>
              rest == [] || rest[..|rest| - 1] == Ray(grid, r, c, d, |rest| - 1)
    decreases |rest|
  {
    if |rest| > 1 {
      var (r', c') := (r + Values(d).0, c + Values(d).1);
      var t := rest[1..];
      StepsAllIff(grid, r', c', d, t);
      assert rest[..|rest| - 1] == [rest[0]] + t[..|t| - 1];
    }
  }

  /** `char_is_present`'s test for one direction. */
  predicate Accepts(grid: Grid, found: seq<Occurrence>, row: int, col: int, target: char, d: Direction)
  {
    ReadDirection(grid, row, col, d) == Some(target) && ReverseVec(row, col, d, 4) !in found
  }

  /** The directions of `ds`, in their order, that pass `Accepts`. */
  function Select(grid: Grid, found: seq<Occurrence>, row: int, col: int, target: char, ds: seq<Direction>): (sel: seq<Direction>)
    ensures |sel| <= |ds|
  {
    if ds == [] then []
    else
      var d := ds[|ds| - 1];
      Select(grid, found, row, col, target, ds[..|ds| - 1])
        + (if Accepts(grid, found, row, col, target, d) then [d] else [])
  }

  /** Selecting over two lists one after the other selects over each in turn. */
  lemma {:induction false} SelectAppend(grid: Grid, found: seq<Occurrence>, row: int, col: int, target: char, a: seq<Direction>, b: seq<Direction>)
    ensures Select(grid, found, row, col, target, a + b) ==
            Select(grid, found, row, col, target, a) + Select(grid, found, row, col, target, b)
    decreases |b|
  {
    if b == [] {
      assert a + b == a;
    } else {
      var front := b[..|b| - 1];
      assert (a + b)[..|a + b| - 1] == a + front;
      assert (a + b)[|a + b| - 1] == b[|b| - 1];
      SelectAppend(grid, found, row, col, target, a, front);
    }
  }

  /** When only the middle direction is accepted, it is all that is selected. */
  lemma SelectExactlyOne(grid: Grid, found: seq<Occurrence>, row: int, col: int, target: char,
                         a: seq<Direction>, d: Direction, b: seq<Direction>)
    requires forall k :: 0 <= k < |a| ==> !Accepts(grid, found, row, col, target, a[k])
    requires Accepts(grid, found, row, col, target, d)
    requires forall k :: 0 <= k < |b| ==> !Accepts(grid, found, row, col, target, b[k])
    ensures Select(grid, found, row, col, target, a + [d] + b) == [d]
  {
    SelectNone(grid, found, row, col, target, a);
    SelectNone(grid, found, row, col, target, b);
    assert Select(grid, found, row, col, target, [d]) == [d] by {
      assert [d][..0] == [];
    }
    SelectAppend(grid, found, row, col, target, a, [d]);
    SelectAppend(grid, found, row, col, target, a + [d], b);
  }

  /** When no direction of `ds` is accepted, nothing is selected. */
  lemma {:induction false} SelectNone(grid: Grid, found: seq<Occurrence>, row: int, col: int, target: char, ds: seq<Direction>)
    requires forall k :: 0 <= k < |ds| ==> !Accepts(grid, found, row, col, target, ds[k])
    ensures Select(grid, found, row, col, target, ds) == []
  {
    if ds != [] {
      SelectNone(grid, found, row, col, target, ds[..|ds| - 1]);
    }
  }

  /** Selecting keeps exactly the accepted directions. */
  lemma {:induction false} SelectSpec(grid: Grid, found: seq<Occurrence>, row: int, col: int, target: char, ds: seq<Direction>)
    ensures forall d :: d in Select(grid, found, row, col, target, ds) <==>
                          d in ds && Accepts(grid, found, row, col, target, d)
  {
    if ds != [] {
      var front := ds[..|ds| - 1];
      SelectSpec(grid, found, row, col, target, front);
      assert ds == front + [ds[|ds| - 1]];
    }
  }

  /** Selecting keeps the directions in the order they were given. */
  lemma {:induction false} SelectInOrder(grid: Grid, found: seq<Occurrence>, row: int, col: int, target: char, ds: seq<Direction>)
    requires InIteratorOrder(ds)
    ensures InIteratorOrder(Select(grid, found, row, col, target, ds))
  {
    if ds != [] {
      var front := ds[..|ds| - 1];
      var last := ds[|ds| - 1];
      assert InIteratorOrder(front);
      SelectInOrder(grid, found, row, col, target, front);
      SelectSpec(grid, found, row, col, target, front);
      var sel := Select(grid, found, row, col, target, front);
      forall k | 0 <= k < |sel| ensures Ordinal(sel[k]) < Ordinal(last) {
        assert sel[k] in front;
        var i :| 0 <= i < |front| && front[i] == sel[k];
        assert ds[i] == sel[k];
      }
      OrderedSnoc(sel, last, Accepts(grid, found, row, col, target, last));
    }
  }

  /** A direction after all of an ordered list may be appended to it. */
  lemma OrderedSnoc(sel: seq<Direction>, last: Direction, take: bool)
    requires InIteratorOrder(sel)
    requires forall k :: 0 <= k < |sel| ==> Ordinal(sel[k]) < Ordinal(last)
    ensures InIteratorOrder(sel + (if take then [last] else []))
  {
  }

  /**
   * The entries `check_for_word` records for the directions `dirs`, when
   * the running position starts at (cr, cc): one entry per direction
   * whose trace consumes all of `rest`, and the running position carried
   * on from each trace to the next.
   */
  function Traced(grid: Grid, row: int, col: int, dirs: seq<Direction>, rest: seq<char>, cr: int, cc: int): (t: seq<Occurrence>)
    ensures |t| <= |dirs|
    decreases |dirs|
  {
    if dirs == [] then []
    else
      var d := dirs[0];
      var n := Steps(grid, cr, cc, d, rest);
      var (cr', cc') := Shift(cr, cc, d, n);
      (if n == |rest| then [Occurrence(row, col, d)] else [])
        + Traced(grid, row, col, dirs[1..], rest, cr', cc')
  }

  /** Every entry of `t` is anchored at (row, col) and reads along one of `dirs`. */
  predicate AnchoredAt(t: seq<Occurrence>, row: int, col: int, dirs: seq<Direction>)
  {
    forall k :: 0 <= k < |t| ==> t[k].row == row && t[k].col == col && t[k].dir in dirs
  }

  /** The entries' directions appear in iterator order, so none is repeated. */
  predicate DirsAscending(t: seq<Occurrence>)
  {
    forall i, j :: 0 <= i < j < |t| ==> Ordinal(t[i].dir) < Ordinal(t[j].dir)
  }

  /** One step of `Traced`: the first direction's entry, if any, then the rest. */
  lemma TracedUnfold(grid: Grid, row: int, col: int, dirs: seq<Direction>, rest: seq<char>, cr: int, cc: int)
    requires dirs != []
    ensures var n := Steps(grid, cr, cc, dirs[0], rest);
            Traced(grid, row, col, dirs, rest, cr, cc) ==
              (if n == |rest| then [Occurrence(row, col, dirs[0])] else [])
              + Traced(grid, row, col, dirs[1..], rest, Shift(cr, cc, dirs[0], n).0, Shift(cr, cc, dirs[0], n).1)
  {
  }

  /**
   * `Traced` from the j-th direction on, given the outcome of that
   * direction's trace: whether it consumed everything, and where it left
   * the running position.
   */
  lemma TracedStep(grid: Grid, row: int, col: int, dirs: seq<Direction>, j: nat, rest: seq<char>,
                   cr: int, cc: int, nr: int, nc: int, exhausted: bool)
    requires j < |dirs|
    requires exhausted <==> Steps(grid, cr, cc, dirs[j], rest) == |rest|
    requires nr == Shift(cr, cc, dirs[j], Steps(grid, cr, cc, dirs[j], rest)).0
    requires nc == Shift(cr, cc, dirs[j], Steps(grid, cr, cc, dirs[j], rest)).1
    ensures Traced(grid, row, col, dirs[j..], rest, cr, cc) ==
              (if exhausted then [Occurrence(row, col, dirs[j])] else [])
              + Traced(grid, row, col, dirs[j + 1..], rest, nr, nc)
  {
    TracedUnfold(grid, row, col, dirs[j..], rest, cr, cc);
    assert dirs[j..][1..] == dirs[j + 1..];
  }

  /** Recording the entry e, when `take` holds, moves it from the pending part to the recorded part. */
  lemma RecordStep(found: seq<Occurrence>, e: Occurrence, take: bool, pending: seq<Occurrence>, target: seq<Occurrence>)
    requires found + ((if take then [e] else []) + pending) == target
    ensures (if take then found + [e] else found) + pending == target
  {
    if take {
      assert found + ([e] + pending) == found + [e] + pending;
    } else {
      assert [] + pending == pending;
    }
  }

  /** Every traced entry is anchored at (row, col) and uses one of `dirs`. */
  lemma {:induction false} TracedAnchored(grid: Grid, row: int, col: int, dirs: seq<Direction>, rest: seq<char>, cr: int, cc: int)
    ensures AnchoredAt(Traced(grid, row, col, dirs, rest, cr, cc), row, col, dirs)
    decreases |dirs|
  {
    if dirs != [] {
      var n := Steps(grid, cr, cc, dirs[0], rest);
      var cr', cc' := Shift(cr, cc, dirs[0], n).0, Shift(cr, cc, dirs[0], n).1;
      TracedUnfold(grid, row, col, dirs, rest, cr, cc);
      TracedAnchored(grid, row, col, dirs[1..], rest, cr', cc');
      var t' := Traced(grid, row, col, dirs[1..], rest, cr', cc');
      forall k | 0 <= k < |t'| ensures t'[k].dir in dirs {
        assert t'[k].dir in dirs[1..];
      }
    }
  }

  /**
   * When `dirs` is in iterator order so are the traced entries, so no
   * direction is recorded twice.
   */
  lemma {:induction false} TracedAscending(grid: Grid, row: int, col: int, dirs: seq<Direction>, rest: seq<char>, cr: int, cc: int)
    requires InIteratorOrder(dirs)
    ensures DirsAscending(Traced(grid, row, col, dirs, rest, cr, cc))
    decreases |dirs|
  {
    if dirs != [] {
      var d := dirs[0];
      var n := Steps(grid, cr, cc, d, rest);
      var cr', cc' := Shift(cr, cc, d, n).0, Shift(cr, cc, d, n).1;
      TracedUnfold(grid, row, col, dirs, rest, cr, cc);
      var t' := Traced(grid, row, col, dirs[1..], rest, cr', cc');
      TracedAscending(grid, row, col, dirs[1..], rest, cr', cc');
      TracedAnchored(grid, row, col, dirs[1..], rest, cr', cc');
      LaterDirections(t', row, col, dirs);
      PrependAscending(Occurrence(row, col, d), n == |rest|, t');
    }
  }

  /** Entries using directions after the first of an ordered list come after it. */
  lemma LaterDirections(t: seq<Occurrence>, row: int, col: int, dirs: seq<Direction>)
    requires dirs != [] && InIteratorOrder(dirs)
    requires AnchoredAt(t, row, col, dirs[1..])
    ensures forall k :: 0 <= k < |t| ==> Ordinal(dirs[0]) < Ordinal(t[k].dir)
  {
    forall k | 0 <= k < |t| ensures Ordinal(dirs[0]) < Ordinal(t[k].dir) {
      var i :| 0 <= i < |dirs[1..]| && dirs[1..][i] == t[k].dir;
      assert dirs[i + 1] == t[k].dir;
    }
  }

  /** An entry whose direction precedes all of an ascending list may be put in front of it. */
  lemma PrependAscending(e: Occurrence, take: bool, t: seq<Occurrence>)
    requires DirsAscending(t)
    requires forall k :: 0 <= k < |t| ==> Ordinal(e.dir) < Ordinal(t[k].dir)
    ensures DirsAscending((if take then [e] else []) + t)
  {
  }

  /**
   * What `check_for_word` leaves in `found`: the directions are chosen once,
   * against `found` as it is on entry, then traced one after another from
   * a running position that starts at the anchor.
   */
  function Check(grid: Grid, found: seq<Occurrence>, row: int, col: int, chars: seq<char>): (r: seq<Occurrence>)
    requires |chars| >= 1
    ensures |found| <= |r| <= |found| + 8
  {
    var dirs := Select(grid, found, row, col, chars[0], AllDirections());
    found + Traced(grid, row, col, dirs, chars[1..], row, col)
  }

  /**
   * The entries `check_for_word` adds on top of `found`: each is anchored at
   * (row, col), its direction's neighbour holds `second`, and its mirror of
   * length 4 was not already recorded.
   */
  predicate FreshEntries(grid: Grid, found: seq<Occurrence>, added: seq<Occurrence>, row: int, col: int, second: char)
  {
    forall k :: 0 <= k < |added| ==>
      added[k].row == row && added[k].col == col &&
      ReadDirection(grid, row, col, added[k].dir) == Some(second) &&
      ReverseVec(row, col, added[k].dir, 4) !in found
  }

  /**
   * `check_for_word` only appends, every entry it appends passes the
   * neighbour and mirror tests, and no direction is appended twice.
   */
  lemma CheckAppends(grid: Grid, found: seq<Occurrence>, row: int, col: int, chars: seq<char>)
    requires |chars| >= 1
    ensures |found| <= |Check(grid, found, row, col, chars)|
    ensures Check(grid, found, row, col, chars)[..|found|] == found
    ensures FreshEntries(grid, found, Check(grid, found, row, col, chars)[|found|..], row, col, chars[0])
    ensures DirsAscending(Check(grid, found, row, col, chars)[|found|..])
  {
    var dirs := Select(grid, found, row, col, chars[0], AllDirections());
    var t := Traced(grid, row, col, dirs, chars[1..], row, col);
    assert Check(grid, found, row, col, chars)[|found|..] == t;
    AllDirectionsInOrder();
    SelectSpec(grid, found, row, col, chars[0], AllDirections());
    SelectInOrder(grid, found, row, col, chars[0], AllDirections());
    TracedAnchored(grid, row, col, dirs, chars[1..], row, col);
    TracedAscending(grid, row, col, dirs, chars[1..], row, col);
  }

  /**
   * The last character of the word is compared, but a mismatch there is
   * ignored: in the one-row grid "XMAZ", the trace for "XMAS" to the right
   * stops at its final mismatch with nothing left to read, and the
   * direction is recorded.
   */
  lemma LastCharIgnored()
    ensures Check(["XMAZ"], [], 0, 0, "MAS") == [Occurrence(0, 0, Right)]
  {
    XmazSelect();
    XmazTrace();
    assert "MAS"[0] == 'M' && "MAS"[1..] == "AS";
  }

  /** On the grid "XMAZ", only Right leads from (0, 0) to an 'M'. */
  lemma XmazSelect()
    ensures Select(["XMAZ"], [], 0, 0, 'M', AllDirections()) == [Right]
  {
    var g := ["XMAZ"];
    var before, after := [Up, Down, Left], [LeftUp, LeftDown, RightUp, RightDown];
    assert AllDirections() == before + [Right] + after;
    assert g[0][1] == 'M';
    SelectExactlyOne(g, [], 0, 0, 'M', before, Right, after);
  }

  /**
   * Tracing "AS" to the right of (0, 0) on "XMAZ" matches the 'A', compares
   * the 'S' with the 'Z' and mismatches, and still records the placement.
   */
  lemma XmazTrace()
    ensures Traced(["XMAZ"], 0, 0, [Right], "AS", 0, 0) == [Occurrence(0, 0, Right)]
  {
    var g := ["XMAZ"];
    assert Steps(g, 0, 1, Right, "S") == 1;
    assert Steps(g, 0, 0, Right, "AS") == 2 by {
      assert g[0][2] == 'A';
      assert "AS"[1..] == "S";
    }
  }

  /** `s` read back to front. */
  function Reverse(s: seq<char>): (r: seq<char>)
    ensures |r| == |s|
    ensures forall i :: 0 <= i < |s| ==> r[i] == s[|s| - 1 - i]
  {
    if s == [] then [] else Reverse(s[1..]) + [s[0]]
  }

  /** (r, c) is a cell of the grid. */
  predicate InGrid(grid: Grid, r: int, c: int)
  {
    0 <= r < |grid| && 0 <= c < |grid[r]|
  }

  /**
   * The word can be searched for without the source panicking: a
   * one-character word never meets its own character (the forward trace
   * would unwrap a missing second character), and the empty word is only
   * searched for in a grid without cells (the first cell would unwrap its
   * missing first character).
   */
  predicate Scannable(grid: Grid, word: seq<char>)
  {
    |word| >= 2 ||
    (|word| == 1 && forall r, c :: 0 <= r < |grid| && 0 <= c < |grid[r]| ==> grid[r][c] != word[0]) ||
    (|word| == 0 && forall r :: 0 <= r < |grid| ==> |grid[r]| == 0)
  }

  /**
   * One cell of `find_word_instances`: a forward trace from a cell holding
   * the word's first character, otherwise a reverse trace from a cell
   * holding its last character, otherwise nothing. Outside the grid, and
   * for a word too short to trace, nothing is recorded (`Scannable` says
   * when the source gets that far without panicking).
   */
  function VisitCell(grid: Grid, word: seq<char>, found: seq<Occurrence>, r: int, c: int): seq<Occurrence>
  {
    if !InGrid(grid, r, c) || |word| < 2 then found
    else if grid[r][c] == word[0] then Check(grid, found, r, c, word[1..])
    else if grid[r][c] == word[|word| - 1] then Check(grid, found, r, c, Reverse(word)[1..])
    else found
  }

  /** The cells (r, 0), ..., (r, n - 1). */
  function RowCells(r: int, n: nat): seq<(int, int)>
  {
    seq(n, c => (r, c))
  }

  /** A row's cells one column further on. */
  lemma RowCellsNext(r: int, n: nat)
    ensures RowCells(r, n + 1) == RowCells(r, n) + [(r, n)]
  {
  }

  /** Every cell of the grid, in row-major order. */
  function RowMajor(grid: Grid): seq<(int, int)>
  {
    if grid == [] then []
    else RowMajor(grid[..|grid| - 1]) + RowCells(|grid| - 1, |grid[|grid| - 1]|)
  }

  /** The cells of the first row + 1 rows: those of the first `row`, then all of row `row`. */
  lemma RowMajorNext(grid: Grid, row: nat)
    requires row < |grid|
    ensures RowMajor(grid[..row + 1]) == RowMajor(grid[..row]) + RowCells(row, |grid[row]|)
  {
    assert grid[..row + 1][..row] == grid[..row];
  }

  /** Every listed cell lies in the grid. */
  predicate AllInGrid(grid: Grid, cells: seq<(int, int)>)
  {
    forall k :: 0 <= k < |cells| ==> InGrid(grid, cells[k].0, cells[k].1)
  }

  /** No cell is listed twice. */
  predicate Distinct<T(==)>(xs: seq<T>)
  {
    forall i, j :: 0 <= i < j < |xs| ==> xs[i] != xs[j]
  }

  /** The row-major order lists exactly the cells of the grid, each once. */
  lemma {:induction false} RowMajorSpec(grid: Grid)
    ensures AllInGrid(grid, RowMajor(grid))
    ensures forall r, c :: InGrid(grid, r, c) ==> (r, c) in RowMajor(grid)
    ensures Distinct(RowMajor(grid))
  {
    if grid != [] {
      var front := grid[..|grid| - 1];
      var last := |grid| - 1;
      RowMajorSpec(front);
      var m := RowMajor(front);
      var cells := RowCells(last, |grid[last]|);
      assert RowMajor(grid) == m + cells;
      forall r, c | InGrid(grid, r, c) ensures (r, c) in RowMajor(grid) {
        if r < last {
          assert InGrid(front, r, c);
        } else {
          assert cells[c] == (r, c);
        }
      }
      forall k | 0 <= k < |m| ensures m[k].0 < last {
      }
    }
  }

  /** Visiting the cells in order, starting from `found`. */
  function ScanCells(grid: Grid, word: seq<char>, cells: seq<(int, int)>, found: seq<Occurrence>): (r: seq<Occurrence>)
    ensures |found| <= |r| <= |found| + 8 * |cells|
  {
    if cells == [] then found
    else
      var (r, c) := cells[|cells| - 1];
      VisitCell(grid, word, ScanCells(grid, word, cells[..|cells| - 1], found), r, c)
  }

  /** Scanning one more cell of row r after the cells `done` and (r, 0), ..., (r, c - 1). */
  lemma ScanStep(grid: Grid, word: seq<char>, done: seq<(int, int)>, r: int, c: nat, found: seq<Occurrence>)
    ensures ScanCells(grid, word, done + RowCells(r, c + 1), found) ==
              VisitCell(grid, word, ScanCells(grid, word, done + RowCells(r, c), found), r, c)
  {
    RowCellsNext(r, c);
    assert done + RowCells(r, c + 1) == (done + RowCells(r, c)) + [(r, c)];
  }

  /** The three branches of one cell of a scannable grid. */
  lemma VisitCases(grid: Grid, word: seq<char>, found: seq<Occurrence>, r: int, c: int)
    requires Scannable(grid, word) && InGrid(grid, r, c)
    ensures |word| >= 1
    ensures grid[r][c] == word[0] ==>
              |word| >= 2 && VisitCell(grid, word, found, r, c) == Check(grid, found, r, c, word[1..])
    ensures grid[r][c] != word[0] && grid[r][c] == word[|word| - 1] ==>
              |word| >= 2 && VisitCell(grid, word, found, r, c) == Check(grid, found, r, c, Reverse(word)[1..])
    ensures grid[r][c] != word[0] && grid[r][c] != word[|word| - 1] ==>
              VisitCell(grid, word, found, r, c) == found
  {
  }

  /**
   * The scan one cell further on, by the three branches of that cell, with
   * `found` the scan so far.
   */
  lemma ScanCellCases(grid: Grid, word: seq<char>, done: seq<(int, int)>, r: int, c: nat,
                      found0: seq<Occurrence>, found: seq<Occurrence>)
    requires Scannable(grid, word) && InGrid(grid, r, c)
    requires found == ScanCells(grid, word, done + RowCells(r, c), found0)
    ensures |word| >= 1
    ensures grid[r][c] == word[0] ==>
              |word| >= 2 && ScanCells(grid, word, done + RowCells(r, c + 1), found0) == Check(grid, found, r, c, word[1..])
    ensures grid[r][c] != word[0] && grid[r][c] == word[|word| - 1] ==>
              |word| >= 2 && ScanCells(grid, word, done + RowCells(r, c + 1), found0) == Check(grid, found, r, c, Reverse(word)[1..])
    ensures grid[r][c] != word[0] && grid[r][c] != word[|word| - 1] ==>
              ScanCells(grid, word, done + RowCells(r, c + 1), found0) == found
  {
    ScanStep(grid, word, done, r, c, found0);
    VisitCases(grid, word, found, r, c);
  }

  /**
   * What one scan step may record at a cell: a forward entry at a cell
   * holding the word's first character whose neighbour holds the second,
   * or a reverse entry at a cell holding the last character (and not the
   * first) whose neighbour holds the second-to-last.
   */
  predicate ScanEntry(grid: Grid, word: seq<char>, e: Occurrence)
    requires |word| >= 1
  {
    InGrid(grid, e.row, e.col) &&
    var ch := grid[e.row][e.col];
    |word| >= 2 &&
    ((ch == word[0] && ReadDirection(grid, e.row, e.col, e.dir) == Some(word[1])) ||
     (ch != word[0] && ch == word[|word| - 1] &&
      ReadDirection(grid, e.row, e.col, e.dir) == Some(word[|word| - 2])))
  }

  /**
   * Visiting a cell only appends, and what it appends is anchored at that
   * cell, passes the neighbour test of its branch, has no recorded mirror,
   * and repeats no direction.
   */
  lemma VisitAppends(grid: Grid, word: seq<char>, found: seq<Occurrence>, r: int, c: int)
    requires Scannable(grid, word) && InGrid(grid, r, c)
    ensures var f := VisitCell(grid, word, found, r, c);
            |found| <= |f| && f[..|found|] == found
    ensures var f := VisitCell(grid, word, found, r, c);
            forall k :: |found| <= k < |f| ==>
              f[k].row == r && f[k].col == c && ScanEntry(grid, word, f[k]) &&
              ReverseVec(r, c, f[k].dir, 4) !in found
    ensures DirsAscending(VisitCell(grid, word, found, r, c)[|found|..])
  {
    var f := VisitCell(grid, word, found, r, c);
    if grid[r][c] == word[0] {
      CheckAppends(grid, found, r, c, word[1..]);
      forall k | |found| <= k < |f| ensures ScanEntry(grid, word, f[k]) {
        assert f[|found|..][k - |found|] == f[k];
      }
    } else if grid[r][c] == word[|word| - 1] {
      CheckAppends(grid, found, r, c, Reverse(word)[1..]);
      forall k | |found| <= k < |f| ensures ScanEntry(grid, word, f[k]) {
        assert f[|found|..][k - |found|] == f[k];
      }
    } else {
      assert f[|found|..] == [];
    }
  }

  /**
   * A scan only appends, and every entry it appends is anchored at one of
   * the scanned cells and satisfies `ScanEntry`.
   */
  lemma {:induction false} ScanAppends(grid: Grid, word: seq<char>, cells: seq<(int, int)>, found: seq<Occurrence>)
    requires Scannable(grid, word) && AllInGrid(grid, cells)
    ensures |found| <= |ScanCells(grid, word, cells, found)|
    ensures ScanCells(grid, word, cells, found)[..|found|] == found
    ensures forall k :: |found| <= k < |ScanCells(grid, word, cells, found)| ==>
              (ScanCells(grid, word, cells, found)[k].row, ScanCells(grid, word, cells, found)[k].col) in cells &&
              ScanEntry(grid, word, ScanCells(grid, word, cells, found)[k])
  {
    if cells != [] {
      var front := cells[..|cells| - 1];
      var (r, c) := cells[|cells| - 1];
      ScanAppends(grid, word, front, found);
      var mid := ScanCells(grid, word, front, found);
      VisitAppends(grid, word, mid, r, c);
      var f := ScanCells(grid, word, cells, found);
      assert f == VisitCell(grid, word, mid, r, c);
      forall k | |found| <= k < |f|
        ensures (f[k].row, f[k].col) in cells && ScanEntry(grid, word, f[k])
      {
        if k < |mid| {
          assert f[k] == mid[k];
          assert (mid[k].row, mid[k].col) in front;
        }
      }
    }
  }

  /**
   * No recorded entry is the length-4 mirror of another: the anti-double-
   * counting invariant as the source states it.
   */
  predicate MirrorFree(found: seq<Occurrence>)
  {
    forall i, j :: 0 <= i < |found| && 0 <= j < |found| ==>
      found[j] != ReverseVec(found[i].row, found[i].col, found[i].dir, 4)
  }

  /** Visiting a cell keeps `found` mirror-free. */
  lemma VisitMirrorFree(grid: Grid, word: seq<char>, found: seq<Occurrence>, r: int, c: int)
    requires Scannable(grid, word) && InGrid(grid, r, c)
    requires MirrorFree(found)
    ensures MirrorFree(VisitCell(grid, word, found, r, c))
  {
    var f := VisitCell(grid, word, found, r, c);
    VisitAppends(grid, word, found, r, c);
    forall i, j | 0 <= i < |f| && 0 <= j < |f|
      ensures f[j] != ReverseVec(f[i].row, f[i].col, f[i].dir, 4)
    {
      var m := ReverseVec(f[i].row, f[i].col, f[i].dir, 4);
      if i < |found| && j < |found| {
        assert f[i] == found[i] && f[j] == found[j];
      } else if j < |found| {
        assert f[j] == found[j];
      } else if i < |found| {
        if f[j] == m {
          ReverseVecTwice(f[i].row, f[i].col, f[i].dir, 4);
          assert false;
        }
      } else {
        assert f[i].row == r && f[i].col == c && f[j].row == r && f[j].col == c;
        assert Values(f[i].dir) != (0, 0);
      }
    }
  }

  /** A scan keeps `found` mirror-free. */
  lemma {:induction false} ScanMirrorFree(grid: Grid, word: seq<char>, cells: seq<(int, int)>, found: seq<Occurrence>)
    requires Scannable(grid, word) && AllInGrid(grid, cells)
    requires MirrorFree(found)
    ensures MirrorFree(ScanCells(grid, word, cells, found))
  {
    if cells != [] {
      var front := cells[..|cells| - 1];
      var (r, c) := cells[|cells| - 1];
      ScanMirrorFree(grid, word, front, found);
      VisitMirrorFree(grid, word, ScanCells(grid, word, front, found), r, c);
    }
  }

  /** No entry of `found` is anchored at one of `cells`. */
  predicate AnchoredOutside(found: seq<Occurrence>, cells: seq<(int, int)>)
  {
    forall k :: 0 <= k < |found| ==> (found[k].row, found[k].col) !in cells
  }

  /**
   * A scan over distinct cells, starting from distinct entries none of
   * which is anchored at a scanned cell, records no triple twice.
   */
  lemma {:induction false} ScanNoDuplicates(grid: Grid, word: seq<char>, cells: seq<(int, int)>, found: seq<Occurrence>)
    requires Scannable(grid, word) && AllInGrid(grid, cells)
    requires Distinct(cells) && Distinct(found) && AnchoredOutside(found, cells)
    ensures Distinct(ScanCells(grid, word, cells, found))
  {
    if cells != [] {
      var front := cells[..|cells| - 1];
      var (r, c) := cells[|cells| - 1];
      assert (r, c) !in front;
      ScanNoDuplicates(grid, word, front, found);
      ScanAppends(grid, word, front, found);
      var mid := ScanCells(grid, word, front, found);
      VisitAppends(grid, word, mid, r, c);
      var f := ScanCells(grid, word, cells, found);
      assert f == VisitCell(grid, word, mid, r, c);
      forall k | 0 <= k < |mid| ensures (mid[k].row, mid[k].col) != (r, c) {
        if k < |found| {
          assert mid[k] == found[k];
        } else {
          assert (mid[k].row, mid[k].col) in front;
        }
      }
      DistinctExtend(mid, f, r, c);
    }
  }

  /**
   * Entries anchored at a new cell, in ascending direction order, appended
   * to distinct entries anchored elsewhere, keep the entries distinct.
   */
  lemma DistinctExtend(mid: seq<Occurrence>, f: seq<Occurrence>, r: int, c: int)
    requires Distinct(mid) && |mid| <= |f| && f[..|mid|] == mid
    requires forall k :: 0 <= k < |mid| ==> (mid[k].row, mid[k].col) != (r, c)
    requires forall k :: |mid| <= k < |f| ==> f[k].row == r && f[k].col == c
    requires DirsAscending(f[|mid|..])
    ensures Distinct(f)
  {
    forall i, j | 0 <= i < j < |f| ensures f[i] != f[j] {
      if j < |mid| {
        assert f[i] == mid[i] && f[j] == mid[j];
      } else if i < |mid| {
        assert f[i] == mid[i];
      } else {
        assert f[|mid|..][i - |mid|] == f[i] && f[|mid|..][j - |mid|] == f[j];
      }
    }
  }

  /**
   * One turn of the `while let` loop: with `charList` left after the running
   * position reached (r, c), the next character is compared one step on.
   */
  lemma TraceAdvance(grid: Grid, r0: int, c0: int, d: Direction, rest: seq<char>, charList: seq<char>,
                     r: int, c: int, total: nat)
    requires charList != [] && |charList| <= |rest|
    requires (r, c) == Shift(r0, c0, d, |rest| - |charList|)
    requires total == |rest| - |charList| + Steps(grid, r, c, d, charList)
    ensures var (r', c') := (r + Values(d).0, c + Values(d).1);
            (r', c') == Shift(r0, c0, d, |rest| - |charList[1..]|) &&
            (charList[0] == ReadOr(grid, r', c', d) ==>
               total == |rest| - |charList[1..]| + Steps(grid, r', c', d, charList[1..])) &&
            (charList[0] != ReadOr(grid, r', c', d) ==> total == |rest| - |charList[1..]|)
  {
    StepsUnfold(grid, r, c, d, charList);
    ShiftNext(r0, c0, d, |rest| - |charList|);
  }

  /**
   * The `while let` loop of `check_for_word` for one direction: from the
   * running position (currRow, currCol) it takes characters of `rest` one
   * at a time, advances the position one step and compares the character
   * with the cell one further step on, until a mismatch or until `rest` is
   * used up. It reports the new running position and whether nothing of
   * `rest` is left over (the `char_list.next().is_none()` test).
   */
  method TraceDirection(grid: Grid, currRow: int, currCol: int, dir: Direction, rest: seq<char>)
    returns (newRow: int, newCol: int, exhausted: bool)
    ensures exhausted <==> Steps(grid, currRow, currCol, dir, rest) == |rest|
    ensures newRow == Shift(currRow, currCol, dir, Steps(grid, currRow, currCol, dir, rest)).0
    ensures newCol == Shift(currRow, currCol, dir, Steps(grid, currRow, currCol, dir, rest)).1
  {
    newRow, newCol := currRow, currCol;
    var charList := rest;
    var mismatch := false;
    ghost var total := Steps(grid, currRow, currCol, dir, rest);
    while charList != [] && !mismatch
      invariant |charList| <= |rest|
      invariant (newRow, newCol) == Shift(currRow, currCol, dir, |rest| - |charList|)
      invariant !mismatch ==> total == |rest| - |charList| + Steps(grid, newRow, newCol, dir, charList)
      invariant mismatch ==> total == |rest| - |charList|
    {
      TraceAdvance(grid, currRow, currCol, dir, rest, charList, newRow, newCol, total);
      var nextChar := charList[0];
      charList := charList[1..];
      newRow := newRow + Values(dir).0;
      newCol := newCol + Values(dir).1;
      if nextChar != ReadOr(grid, newRow, newCol, dir) {
        mismatch := true;
      }
    }
    exhausted := charList == [];
  }

  /**
   * `WordMatrix`: the grid, grown row by row while the input is read, and
   * the append-only list of recorded placements.
   */
  class WordMatrix {
    var grid: Grid
    var found: seq<Occurrence>

    /** `WordMatrix::new`: an empty grid and nothing found. */
    constructor ()
      ensures grid == [] && found == []
    {
      grid := [];
      found := [];
    }

    /** `add_row`: appends one row and leaves `found` alone. */
    method AddRow(row: seq<char>)
      modifies this
      ensures grid == old(grid) + [row]
      ensures found == old(found)
    {
      grid := grid + [row];
    }

    /**
     * `char_is_present`: the directions, in iterator order, whose neighbour
     * holds `target` and whose length-4 mirror triple is not yet recorded.
     */
    method CharIsPresent(row: nat, col: nat, target: char) returns (directions: seq<Direction>)
      ensures directions == Select(grid, found, row, col, target, AllDirections())
    {
      directions := [];
      var all := AllDirections();
      for i := 0 to |all|
        invariant directions == Select(grid, found, row, col, target, all[..i])
      {
        var direction := all[i];
        match ReadDirection(grid, row, col, direction) {
          case Some(cell) =>
            if cell == target {
              var reversed := ReverseVec(row, col, direction, 4);
              if reversed !in found {
                directions := directions + [direction];
              }
            }
          case None =>
        }
        assert all[..i + 1][..i] == all[..i];
      }
      assert all[..|all|] == all;
      AllDirectionsInOrder();
      SelectSpec(grid, found, row, col, target, all);
      SelectInOrder(grid, found, row, col, target, all);
      IteratorYieldsEachOnce();
    }

    /**
     * `check_for_word`: chooses the directions from the anchor once, then
     * traces the rest of `chars` along each, from a running position that
     * is set once and carried from one direction to the next; a trace is
     * recorded when it consumes every character.
     */
    method CheckForWord(row: nat, col: nat, chars: seq<char>)
      requires |chars| >= 1
      modifies this
      ensures grid == old(grid)
      ensures found == Check(old(grid), old(found), row, col, chars)
    {
      var g := grid;
      var currRow, currCol := row as int, col as int;
      var secondChar := chars[0];
      var rest := chars[1..];
      var directions := CharIsPresent(row, col, secondChar);
      ghost var target := Check(grid, found, row, col, chars);
      for j := 0 to |directions|
        invariant grid == g == old(grid)
        invariant found + Traced(g, row, col, directions[j..], rest, currRow, currCol) == target
      {
        var dir := directions[j];
        var newRow, newCol, exhausted := TraceDirection(g, currRow, currCol, dir, rest);
        TracedStep(g, row, col, directions, j, rest, currRow, currCol, newRow, newCol, exhausted);
        RecordStep(found, Occurrence(row, col, dir), exhausted, Traced(g, row, col, directions[j + 1..], rest, newRow, newCol), target);
        currRow, currCol := newRow, newCol;
        if exhausted {
          found := found + [Occurrence(row, col, dir)];
        }
      }
    }

    /**
     * `find_word_instances`: visits every cell in row-major order, leaving
     * the grid alone and recording into `found`.
     */
    method FindWordInstances(word: seq<char>)
      requires Scannable(grid, word)
      modifies this
      ensures grid == old(grid)
      ensures found == ScanCells(grid, word, RowMajor(grid), old(found))
    {
      for row := 0 to |grid|
        invariant grid == old(grid)
        invariant found == ScanCells(grid, word, RowMajor(grid[..row]), old(found))
      {
        ghost var done := RowMajor(grid[..row]);
        assert done + RowCells(row, 0) == done;
        for col := 0 to |grid[row]|
          invariant grid == old(grid)
          invariant found == ScanCells(grid, word, done + RowCells(row, col), old(found))
        {
          ScanCellCases(grid, word, done, row, col, old(found), found);
          var startChar := word[0];
          var endChar := word[|word| - 1];
          var currentChar := grid[row][col];
          if currentChar == startChar {
            CheckForWord(row, col, word[1..]);
          } else if currentChar == endChar {
            CheckForWord(row, col, Reverse(word)[1..]);
          }
        }
        RowMajorNext(grid, row);
      }
      assert grid[..|grid|] == grid;
    }
  }
}
