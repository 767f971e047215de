/**
 * The guard patrol of `src/day6.rs`: a map of grid cells, a guard with a
 * position and a heading, and a walk that either turns the guard clockwise
 * in front of an obstacle or moves it one cell on and marks that cell
 * visited, until the next cell lies off the map.
 *
 * Coordinates are unbounded integers. The source keeps them as `usize`, so
 * a step above row 0 or left of column 0 would underflow; here such a step
 * finds no next cell.
 */
module Patrol {
  import opened Wrappers

  /** One cell: its own coordinates, whether the guard has been on it, and whether it is blocked. */
  datatype Location = Location(values: (int, int), visited: bool, isObstacle: bool)

  /** The guard's heading. */
  datatype Direction = Up | Down | Left | Right

  /** The characters that mark the guard's starting cell. */
  predicate IsGuard(ch: char)
  {
    ch == '^' || ch == 'v' || ch == '<' || ch == '>'
  }

  /** `get_guard_direction`: the heading an arrow character shows (any other character panics). */
  function GuardDirection(guard: char): (d: Direction)
    requires IsGuard(guard)
    ensures Arrow(d) == guard
  {
    match guard
    case '^' => Up
    case 'v' => Down
    case '<' => Left
    case '>' => Right
  }

  /** The arrow character drawn for a heading. */
  function Arrow(d: Direction): (ch: char)
    ensures IsGuard(ch)
  {
    match d
    case Up => '^'
    case Down => 'v'
    case Left => '<'
    case Right => '>'
  }

  /** The four arrows and the four headings correspond one to one. */
  lemma GuardDirectionRoundTrip(ch: char, d: Direction)
    ensures IsGuard(ch) ==> Arrow(GuardDirection(ch)) == ch
    ensures GuardDirection(Arrow(d)) == d
  {
  }

  /** `rotate_90_degrees`' table: Up to Right to Down to Left to Up. */
  function Clockwise(d: Direction): (r: Direction)
    ensures Delta(r) == (Delta(d).1, -Delta(d).0)
  {
    match d
    case Up => Right
    case Down => Left
    case Left => Up
    case Right => Down
  }

  /** One step in a heading, as (row change, column change). */
  function Delta(d: Direction): (v: (int, int))
    ensures (if v.0 < 0 then -v.0 else v.0) + (if v.1 < 0 then -v.1 else v.1) == 1
  {
    match d
    case Up => (-1, 0)
    case Down => (1, 0)
    case Left => (0, -1)
    case Right => (0, 1)
  }

  /**
   * Turning is a quarter turn clockwise of the step vector, never leaves
   * the heading as it was, and four turns restore it.
   */
  lemma ClockwiseQuarterTurn(d: Direction)
    ensures Delta(Clockwise(d)) == (Delta(d).1, -Delta(d).0)
    ensures Clockwise(d) != d
    ensures Clockwise(Clockwise(Clockwise(Clockwise(d)))) == d
  {
  }

  /**
   * The key one step from `pos` in heading `d`, or None when the step
   * would take a coordinate below zero (an underflow of the source's
   * unsigned coordinates).
   */
  function NextKey(pos: (int, int), d: Direction): (k: Option<(int, int)>)
    ensures k.Some? ==> k.value.0 >= 0 && k.value.1 >= 0
    ensures k.Some? ==> k.value == (pos.0 + Delta(d).0, pos.1 + Delta(d).1)
    ensures k.None? ==> pos.0 + Delta(d).0 < 0 || pos.1 + Delta(d).1 < 0
  {
    var (r, c) := (pos.0 + Delta(d).0, pos.1 + Delta(d).1);
    if r < 0 || c < 0 then None else Some((r, c))
  }

  /** The entry one step from `pos` in heading `d`, if the map has it. */
  function NextEntry(locations: map<(int, int), Location>, pos: (int, int), d: Direction): (e: Option<Location>)
    ensures e.Some? <==> NextKey(pos, d).Some? && NextKey(pos, d).value in locations
    ensures e.Some? ==> e.value == locations[NextKey(pos, d).value]
  {
    match NextKey(pos, d)
    case None => None
    case Some(k) => if k in locations then Some(locations[k]) else None
  }

  /** A snapshot of the map: the cells, the guard's copy of its location, and its heading. */
  datatype State = State(locations: map<(int, int), Location>, guard: Location, heading: Direction)

  /** Every cell records its own key as its coordinates. */
  predicate Keyed(locations: map<(int, int), Location>)
  {
    forall k :: k in locations ==> locations[k].values == k
  }

  /**
   * One pass of the `while let` in `walk_through_map`: None when there is
   * no next cell; a clockwise turn in front of an obstacle; otherwise the
   * next cell is marked visited and the guard takes a copy of it.
   */
  function Step(s: State): (r: Option<State>)
    ensures r.Some? ==> r.value.heading == s.heading || r.value.heading == Clockwise(s.heading)
  {
    match NextKey(s.guard.values, s.heading)
    case None => None
    case Some(k) =>
      if k !in s.locations then None
      else if s.locations[k].isObstacle then Some(s.(heading := Clockwise(s.heading)))
      else
        var moved := s.locations[k].(visited := true);
        Some(State(s.locations[k := moved], moved, s.heading))
  }

  /**
   * At most `fuel` passes of the walk; the flag says whether the walk
   * ended because the next cell was off the map.
   */
  function Run(s: State, fuel: nat): (r: (State, bool))
    ensures r.1 ==> Step(r.0).None?
    decreases fuel
  {
    if fuel == 0 then (s, false)
    else
      match Step(s)
      case None => (s, true)
      case Some(t) => Run(t, fuel - 1)
  }

  /** The keys of the visited cells. */
  function VisitedKeys(locations: map<(int, int), Location>): set<(int, int)>
  {
    set k | k in locations && locations[k].visited
  }

  /** `get_total_visited`: the number of visited cells, never more than the map holds. */
  function TotalVisited(locations: map<(int, int), Location>): (n: nat)
    ensures n <= |locations|
  {
    CardinalityOfSubset(VisitedKeys(locations), locations.Keys);
    |VisitedKeys(locations)|
  }

  /** A subset is no larger than its superset. */
  lemma {:induction false} CardinalityOfSubset<T>(a: set<T>, b: set<T>)
    requires a <= b
    ensures |a| <= |b|
    decreases b
  {
    if a != {} {
      var x :| x in a;
      CardinalityOfSubset(a - {x}, b - {x});
    }
  }

  /** What a pass of the walk never changes, and what it only changes one way. */
  predicate Evolves(s: State, t: State)
  {
    t.locations.Keys == s.locations.Keys &&
    (forall k :: k in s.locations ==> t.locations[k].isObstacle == s.locations[k].isObstacle) &&
    (forall k :: k in s.locations ==> t.locations[k].values == s.locations[k].values) &&
    (forall k :: k in s.locations && s.locations[k].visited ==> t.locations[k].visited)
  }

  /** `Evolves` chains. */
  lemma EvolvesTransitive(s: State, t: State, u: State)
    requires Evolves(s, t) && Evolves(t, u)
    ensures Evolves(s, u)
  {
  }

  /**
   * A pass of the walk happens exactly when the next cell is on the map.
   * In front of an obstacle it only turns the guard; otherwise it moves
   * the guard onto the next cell, which is not an obstacle, marks that
   * cell visited, and keeps the guard's copy equal to it. Either way no key
   * is added or removed, no obstacle changes and no visited flag is
   * cleared.
   */
  lemma StepSpec(s: State)
    ensures Step(s).Some? <==> NextEntry(s.locations, s.guard.values, s.heading).Some?
    ensures Step(s).Some? ==> Evolves(s, Step(s).value)
    ensures Step(s).Some? && NextEntry(s.locations, s.guard.values, s.heading).value.isObstacle ==>
              Step(s).value == s.(heading := Clockwise(s.heading))
    ensures Step(s).Some? && !NextEntry(s.locations, s.guard.values, s.heading).value.isObstacle ==>
              var t := Step(s).value;
              var k := NextKey(s.guard.values, s.heading).value;
              t.heading == s.heading && t.guard.values == s.locations[k].values &&
              k in t.locations && t.locations[k] == t.guard &&
              t.guard.visited && !t.guard.isObstacle
  {
  }

  /** On a keyed map, a move leaves the guard on a visited, unblocked cell whose key is its position. */
  lemma StepKeeps(s: State)
    requires Keyed(s.locations)
    ensures Step(s).Some? ==> Keyed(Step(s).value.locations)
    ensures Step(s).Some? && Step(s).value.heading == s.heading ==>
              var t := Step(s).value;
              t.guard.values in t.locations && t.locations[t.guard.values] == t.guard &&
              t.guard.visited && !t.guard.isObstacle
  {
    StepSpec(s);
    ClockwiseQuarterTurn(s.heading);
  }

  /**
   * Over any number of passes the walk keeps every key and every obstacle,
   * only sets visited flags, so the visited count never drops; and when it
   * reports that it ended, there is no next cell.
   */
  lemma {:induction false} RunSpec(s: State, fuel: nat)
    ensures Evolves(s, Run(s, fuel).0)
    ensures Run(s, fuel).1 ==> NextEntry(Run(s, fuel).0.locations, Run(s, fuel).0.guard.values, Run(s, fuel).0.heading).None?
    ensures Keyed(s.locations) ==> Keyed(Run(s, fuel).0.locations)
    ensures TotalVisited(s.locations) <= TotalVisited(Run(s, fuel).0.locations)
    decreases fuel
  {
    RunEvolves(s, fuel);
    if Keyed(s.locations) {
      RunKeyed(s, fuel);
    }
    RunEnds(s, fuel);
    VisitedGrows(s, Run(s, fuel).0);
  }

  /** The walk evolves the state. */
  lemma {:induction false} RunEvolves(s: State, fuel: nat)
    ensures Evolves(s, Run(s, fuel).0)
    decreases fuel
  {
    if fuel > 0 {
      RunUnfold(s, fuel);
      if Step(s).Some? {
        var t := Step(s).value;
        RunEvolves(t, fuel - 1);
        StepEvolves(s, t);
        EvolvesTransitive(s, t, Run(t, fuel - 1).0);
      }
    }
  }

  /** The walk keeps the map keyed. */
  lemma {:induction false} RunKeyed(s: State, fuel: nat)
    requires Keyed(s.locations)
    ensures Keyed(Run(s, fuel).0.locations)
    decreases fuel
  {
    if fuel > 0 {
      RunUnfold(s, fuel);
      if Step(s).Some? {
        StepEvolves(s, Step(s).value);
        RunKeyed(Step(s).value, fuel - 1);
      }
    }
  }

  /** When the walk reports that it ended, there is no next cell. */
  lemma {:induction false} RunEnds(s: State, fuel: nat)
    ensures Run(s, fuel).1 ==> NextEntry(Run(s, fuel).0.locations, Run(s, fuel).0.guard.values, Run(s, fuel).0.heading).None?
    decreases fuel
  {
    if fuel > 0 {
      RunUnfold(s, fuel);
      if Step(s).Some? {
        RunEnds(Step(s).value, fuel - 1);
      } else {
        StepSpec(s);
      }
    }
  }

  /** The walk with fuel left: it stops when there is no pass, and otherwise goes on from the pass. */
  lemma RunUnfold(s: State, fuel: nat)
    requires fuel > 0
    ensures Step(s).None? ==> Run(s, fuel) == (s, true)
    ensures Step(s).Some? ==> Run(s, fuel) == Run(Step(s).value, fuel - 1)
  {
  }

  /** A pass of the walk evolves the state and keeps the map keyed. */
  lemma StepEvolves(s: State, t: State)
    requires Step(s) == Some(t)
    ensures Evolves(s, t)
    ensures Keyed(s.locations) ==> Keyed(t.locations)
  {
    StepSpec(s);
    if Keyed(s.locations) {
      StepKeeps(s);
    }
  }

  /** An evolved state has at least as many visited cells. */
  lemma VisitedGrows(s: State, t: State)
    requires Evolves(s, t)
    ensures TotalVisited(s.locations) <= TotalVisited(t.locations)
  {
    CardinalityOfSubset(VisitedKeys(s.locations), VisitedKeys(t.locations));
  }

  /** Every cell position of the input lines. */
  function CellKeys(lines: seq<seq<char>>): set<(int, int)>
  {
    set r, c | 0 <= r < |lines| && 0 <= c < |lines[r]| :: (r, c)
  }

  /** (r, c) is a cell of the input lines that comes before (row, col) in row-major order. */
  predicate Before(lines: seq<seq<char>>, row: int, col: int, r: int, c: int)
  {
    0 <= r < |lines| && 0 <= c < |lines[r]| && (r < row || (r == row && c < col))
  }

  /** The cells of the input lines in row-major order before (row, col). */
  function KeysBefore(lines: seq<seq<char>>, row: int, col: int): set<(int, int)>
  {
    set r, c | 0 <= r < |lines| && 0 <= c < |lines[r]| && (r < row || (r == row && c < col)) :: (r, c)
  }

  /** The location built for the character at `k`: blocked iff '#', visited iff a guard arrow. */
  function CellAt(lines: seq<seq<char>>, k: (int, int)): Location
    requires 0 <= k.0 < |lines| && 0 <= k.1 < |lines[k.0]|
  {
    var ch := lines[k.0][k.1];
    Location(k, IsGuard(ch), ch == '#')
  }

  /** The locations built from the cells before (row, col). */
  function CellsBefore(lines: seq<seq<char>>, row: int, col: int): map<(int, int), Location>
  {
    map k | k in KeysBefore(lines, row, col) :: CellAt(lines, k)
  }

  /** Some cell before (row, col) holds a guard arrow. */
  ghost predicate GuardBefore(lines: seq<seq<char>>, row: int, col: int)
  {
    exists r, c :: Before(lines, row, col, r, c) && IsGuard(lines[r][c])
  }

  /**
   * The guard the map builder holds once it has read the cells before
   * (row, col): the default guard facing Down while no arrow has been
   * read, otherwise the location and heading of the last arrow read.
   */
  ghost predicate Built(lines: seq<seq<char>>, row: int, col: int, g: Location, d: Direction)
  {
    if GuardBefore(lines, row, col) then
      var (gr, gc) := g.values;
      Before(lines, row, col, gr, gc) && IsGuard(lines[gr][gc]) &&
      g == CellAt(lines, g.values) && d == GuardDirection(lines[gr][gc]) &&
      forall r, c :: Before(lines, row, col, r, c) && IsGuard(lines[r][c]) ==> r < gr || (r == gr && c <= gc)
    else
      g == Location((0, 0), false, false) && d == Down
  }

  /** Reading one more cell of the current row. */
  lemma BuiltNext(lines: seq<seq<char>>, row: nat, col: nat, g: Location, d: Direction)
    requires row < |lines| && col < |lines[row]|
    requires Built(lines, row, col, g, d)
    ensures CellsBefore(lines, row, col + 1) == CellsBefore(lines, row, col)[(row, col) := CellAt(lines, (row, col))]
    ensures IsGuard(lines[row][col]) ==>
              Built(lines, row, col + 1, CellAt(lines, (row, col)), GuardDirection(lines[row][col]))
    ensures !IsGuard(lines[row][col]) ==> Built(lines, row, col + 1, g, d)
  {
    assert KeysBefore(lines, row, col + 1) == KeysBefore(lines, row, col) + {(row, col)};
    if IsGuard(lines[row][col]) {
      assert Before(lines, row, col + 1, row, col);
    } else if GuardBefore(lines, row, col + 1) {
      var r, c :| Before(lines, row, col + 1, r, c) && IsGuard(lines[r][c]);
      assert Before(lines, row, col, r, c);
    }
  }

  /** Moving from the end of one row to the start of the next reads nothing new. */
  lemma BuiltNextRow(lines: seq<seq<char>>, row: nat, g: Location, d: Direction)
    requires row < |lines|
    requires Built(lines, row, |lines[row]|, g, d)
    ensures CellsBefore(lines, row + 1, 0) == CellsBefore(lines, row, |lines[row]|)
    ensures Built(lines, row + 1, 0, g, d)
  {
    assert KeysBefore(lines, row + 1, 0) == KeysBefore(lines, row, |lines[row]|);
    forall r, c ensures Before(lines, row + 1, 0, r, c) == Before(lines, row, |lines[row]|, r, c) {
    }
  }

  /**
   * The guard cell the map builder keeps: a guard arrow at (row, col)
   * with no guard arrow after it in row-major order.
   */
  ghost predicate LastGuard(lines: seq<seq<char>>, row: int, col: int)
  {
    0 <= row < |lines| && 0 <= col < |lines[row]| && IsGuard(lines[row][col]) &&
    forall r, c :: 0 <= r < |lines| && 0 <= c < |lines[r]| && IsGuard(lines[r][c]) ==>
      r < row || (r == row && c <= col)
  }

  /** Some cell of the input lines holds a guard arrow. */
  ghost predicate HasGuard(lines: seq<seq<char>>)
  {
    exists r, c :: 0 <= r < |lines| && 0 <= c < |lines[r]| && IsGuard(lines[r][c])
  }

  /** Once every line is read, the builder holds the last arrow, or the default guard if there is none. */
  lemma BuiltAll(lines: seq<seq<char>>, g: Location, d: Direction)
    requires Built(lines, |lines|, 0, g, d)
    ensures CellsBefore(lines, |lines|, 0).Keys == CellKeys(lines)
    ensures !HasGuard(lines) ==> g == Location((0, 0), false, false) && d == Down
    ensures HasGuard(lines) ==>
              LastGuard(lines, g.values.0, g.values.1) && g == CellAt(lines, g.values) &&
              d == GuardDirection(lines[g.values.0][g.values.1])
  {
    assert KeysBefore(lines, |lines|, 0) == CellKeys(lines);
    forall r, c ensures Before(lines, |lines|, 0, r, c) <==> 0 <= r < |lines| && 0 <= c < |lines[r]| {
    }
  }

  /**
   * `Map`: the cells by key, the guard's copy of the location it stands
   * on, and its heading.
   */
  class Map {
    var locations: map<(int, int), Location>
    var guardLocation: Location
    var guardDirection: Direction

    /** The map as a snapshot value. */
    function AsState(): State
      reads this
    {
      State(locations, guardLocation, guardDirection)
    }

    /**
     * `get_map` without the file reading: one location per character of
     * `lines`, blocked iff '#'; a guard arrow marks its cell visited and
     * the last such cell in row-major order gives the guard's location and
     * heading. Without an arrow the guard stays at ((0, 0), unvisited,
     * unblocked) facing Down.
     */
    constructor (lines: seq<seq<char>>)
      ensures locations.Keys == CellKeys(lines) && Keyed(locations)
      ensures forall k :: k in locations ==> locations[k] == CellAt(lines, k)
      ensures !HasGuard(lines) ==> guardLocation == Location((0, 0), false, false) && guardDirection == Down
      ensures HasGuard(lines) ==>
                LastGuard(lines, guardLocation.values.0, guardLocation.values.1) &&
                guardLocation == locations[guardLocation.values] &&
                guardDirection == GuardDirection(lines[guardLocation.values.0][guardLocation.values.1])
    {
      locations := map[];
      guardLocation := Location((0, 0), false, false);
      guardDirection := Down;
      new;
      assert KeysBefore(lines, 0, 0) == {};
      for r := 0 to |lines|
        invariant locations == CellsBefore(lines, r, 0)
        invariant Built(lines, r, 0, guardLocation, guardDirection)
      {
        var line := lines[r];
        for c := 0 to |line|
          invariant locations == CellsBefore(lines, r, c)
          invariant Built(lines, r, c, guardLocation, guardDirection)
        {
          var val := line[c];
          BuiltNext(lines, r, c, guardLocation, guardDirection);
          var location := Location((r, c), false, val == '#');
          if IsGuard(val) {
            location := location.(visited := true);
            guardLocation := location;
            guardDirection := GuardDirection(val);
          }
          locations := locations[(r, c) := location];
        }
        BuiltNextRow(lines, r, guardLocation, guardDirection);
      }
      BuiltAll(lines, guardLocation, guardDirection);
    }

    /** `rotate_90_degrees`: a clockwise turn, nothing else changes. */
    method Rotate()
      modifies this
      ensures guardDirection == Clockwise(old(guardDirection))
      ensures locations == old(locations) && guardLocation == old(guardLocation)
    {
      match guardDirection {
        case Up => guardDirection := Right;
        case Down => guardDirection := Left;
        case Left => guardDirection := Up;
        case Right => guardDirection := Down;
      }
    }

    /**
     * `get_guard_next_location`: the cell one step ahead of the guard, or
     * None when that key is not on the map (or would underflow).
     */
    function NextLocation(): (next: Option<Location>)
      reads this
      ensures next.Some? ==> NextKey(guardLocation.values, guardDirection).Some?
      ensures next.Some? <==> NextKey(guardLocation.values, guardDirection).Some? &&
                              NextKey(guardLocation.values, guardDirection).value in locations
      ensures next.Some? ==> next.value == locations[NextKey(guardLocation.values, guardDirection).value]
    {
      NextEntry(locations, guardLocation.values, guardDirection)
    }

    /**
     * `walk_through_map`, for at most `fuel` passes of its loop (the
     * source loops until the guard leaves the map, which a guard walking
     * in a cycle never does). `stopped` says the guard reached the edge.
     */
    method Walk(fuel: nat) returns (stopped: bool)
      modifies this
      ensures AsState() == Run(old(AsState()), fuel).0
      ensures stopped == Run(old(AsState()), fuel).1
      ensures Evolves(old(AsState()), AsState())
      ensures Keyed(old(locations)) ==> Keyed(locations)
      ensures stopped ==> NextLocation().None?
      ensures old(Visited()) <= Visited()
    {
      var steps := 0;
      stopped := false;
      while steps < fuel && !stopped
        invariant steps <= fuel
        invariant !stopped ==> Run(old(AsState()), fuel) == Run(AsState(), fuel - steps)
        invariant stopped ==> Run(old(AsState()), fuel) == (AsState(), true)
        decreases fuel - steps, !stopped
      {
        var next := NextLocation();
        match next {
          case None =>
            stopped := true;
          case Some(loc) =>
            if loc.isObstacle {
              Rotate();
            } else {
              var key := NextKey(guardLocation.values, guardDirection).value;
              var moved := loc.(visited := true);
              locations := locations[key := moved];
              guardLocation := moved;
            }
            steps := steps + 1;
        }
      }
      RunSpec(old(AsState()), fuel);
    }

    /** `get_total_visited` on this map. */
    function Visited(): (n: nat)
      reads this
      ensures n <= |locations|
    {
      TotalVisited(locations)
    }
  }
}
