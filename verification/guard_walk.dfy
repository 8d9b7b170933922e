/** Day 6 (src/bin/06.rs): a guard walks a grid of free and obstructed cells. At each
    step it turns right in front of an obstruction and otherwise moves one cell ahead;
    the walk ends when the guard would leave the grid or finds itself again in a
    position and direction it has been in. The answer is the number of cells visited. */
module GuardWalk {
  import opened Wrappers
  import opened Text
  import opened Numbers

  datatype Direction = Up | Down | Left | Right

  /** A grid position (`isize` in the source): column `x`, row `y`. */
  datatype Coordinate = Coordinate(x: int, y: int)

  /** `Coordinate::add`: the result lies `b` away from `a` (and `a` away from `b`). */
  function Add(a: Coordinate, b: Coordinate): (r: Coordinate)
    ensures Coordinate(r.x - b.x, r.y - b.y) == a && Coordinate(r.x - a.x, r.y - a.y) == b
  {
    Coordinate(a.x + b.x, a.y + b.y)
  }

  /** `Direction::delta`: the one-cell step in the direction; rows grow downwards.
      Every step moves exactly one cell along one axis. */
  function Delta(d: Direction): (r: Coordinate)
    ensures Abs(r.x) + Abs(r.y) == 1
  {
    match d
    case Up => Coordinate(0, -1)
    case Down => Coordinate(0, 1)
    case Left => Coordinate(-1, 0)
    case Right => Coordinate(1, 0)
  }

  /** `Direction::turn_right`: a quarter turn clockwise, so that (with rows growing
      downwards) the new step is the old one rotated by a right angle. */
  function TurnRight(d: Direction): (r: Direction)
    ensures Delta(r) == Coordinate(-Delta(d).y, Delta(d).x)
  {
    match d
    case Up => Right
    case Right => Down
    case Down => Left
    case Left => Up
  }

  /** Four quarter turns give back the direction, and fewer never do. */
  lemma FourTurns(d: Direction)
    ensures TurnRight(TurnRight(TurnRight(TurnRight(d)))) == d
    ensures TurnRight(d) != d && TurnRight(TurnRight(d)) != d && TurnRight(TurnRight(TurnRight(d))) != d
  {
  }

  /** Two quarter turns face the other way: stepping after them undoes a step. */
  lemma TurnAround(d: Direction, c: Coordinate)
    ensures Delta(TurnRight(TurnRight(d))) == Coordinate(-Delta(d).x, -Delta(d).y)
    ensures Add(Add(c, Delta(d)), Delta(TurnRight(TurnRight(d)))) == c
  {
  }

  /** The characters that mark the guard. */
  const GuardChars: seq<char> := ['^', 'v', '<', '>']

  /** `Direction::try_from`: the guard characters map to their directions, every other
      character is an error. */
  function TryFrom(c: char): (r: Option<Direction>)
    ensures r.Some? <==> c in GuardChars
  {
    match c
    case '^' => Some(Up)
    case 'v' => Some(Down)
    case '<' => Some(Left)
    case '>' => Some(Right)
    case _ => None
  }

  /** Different guard characters give different directions. */
  lemma TryFromSpec(c: char, c': char)
    ensures TryFrom(c).Some? && TryFrom(c) == TryFrom(c') ==> c == c'
  {
  }

  // ---------------------------------------------------------------------------
  // The starting position

  /** The first guard character of `line` at or after column `x`, with its column. */
  function GuardInLine(line: string, x: nat): (r: Option<(nat, Direction)>)
    ensures r.Some? ==> r.value.0 >= x
    decreases |line| - x
  {
    if x >= |line| then None
    else
      match TryFrom(line[x])
      case Some(d) => Some((x, d))
      case None => GuardInLine(line, x + 1)
  }

  /** The first guard character in reading order, from row `y` on. */
  function GuardInLines(lines: seq<string>, y: nat): (r: Option<(Coordinate, Direction)>)
    ensures r.Some? ==> r.value.0.x >= 0 && r.value.0.y >= y
    decreases |lines| - y
  {
    if y >= |lines| then None
    else
      match GuardInLine(lines[y], 0)
      case Some((x, d)) => Some((Coordinate(x, y), d))
      case None => GuardInLines(lines, y + 1)
  }

  /** `find_starting_position`: the first guard character of the input, reading row by
      row (empty lines included) and left to right. */
  function FindStartingPosition(input: string): (r: Option<(Coordinate, Direction)>)
    ensures r.Some? ==> r.value.0.x >= 0 && r.value.0.y >= 0
  {
    GuardInLines(Lines(input), 0)
  }

  /** The cell holds a guard character facing `d`. */
  predicate GuardAt(lines: seq<string>, x: int, y: int, d: Direction)
  {
    0 <= y < |lines| && 0 <= x < |lines[y]| && TryFrom(lines[y][x]) == Some(d)
  }

  /** No row from `y0` on holds a guard character. */
  ghost predicate NoGuardFrom(lines: seq<string>, y0: int)
  {
    forall y, x, d :: y0 <= y ==> !GuardAt(lines, x, y, d)
  }

  lemma {:induction false} GuardInLineSpec(line: string, x: nat)
    ensures var r := GuardInLine(line, x);
      && (r.None? <==> forall i :: x <= i < |line| ==> TryFrom(line[i]).None?)
      && (r.Some? ==>
            x <= r.value.0 < |line| && TryFrom(line[r.value.0]) == Some(r.value.1)
            && forall i :: x <= i < r.value.0 ==> TryFrom(line[i]).None?)
    decreases |line| - x
  {
    if x < |line| && TryFrom(line[x]).None? {
      GuardInLineSpec(line, x + 1);
    }
  }

  lemma {:induction false} GuardInLinesSpec(lines: seq<string>, y: nat)
    ensures var r := GuardInLines(lines, y);
      && (r.None? <==> NoGuardFrom(lines, y))
      && (r.Some? ==> var (c, d) := r.value;
            && y <= c.y && GuardAt(lines, c.x, c.y, d)
            && (forall j, x, d' :: y <= j < c.y ==> !GuardAt(lines, x, j, d'))
            && (forall x, d' :: 0 <= x < c.x ==> !GuardAt(lines, x, c.y, d')))
    decreases |lines| - y
  {
    if y < |lines| {
      GuardInLineSpec(lines[y], 0);
      if GuardInLine(lines[y], 0).None? {
        GuardInLinesSpec(lines, y + 1);
        forall x, d ensures !GuardAt(lines, x, y, d) {
          if 0 <= x < |lines[y]| {
            assert TryFrom(lines[y][x]).None?;
          }
        }
      } else {
        var (x0, d0) := GuardInLine(lines[y], 0).value;
        assert GuardAt(lines, x0, y, d0);
      }
    }
  }

  /** The starting position is the first guard character in reading order: None exactly
      when the input has none. */
  lemma FindStartingPositionSpec(input: string)
    ensures var r := FindStartingPosition(input);
      var lines := Lines(input);
      && (r.None? <==> NoGuardFrom(lines, 0))
      && (r.Some? ==> var (c, d) := r.value;
            && GuardAt(lines, c.x, c.y, d)
            && (forall y, x, d' :: 0 <= y < c.y ==> !GuardAt(lines, x, y, d'))
            && (forall x, d' :: 0 <= x < c.x ==> !GuardAt(lines, x, c.y, d')))
  {
    var lines := Lines(input);
    GuardInLinesSpec(lines, 0);

  }

  // ---------------------------------------------------------------------------
  // The map

  datatype CellState = Guard(dir: Direction) | Visited | Unvisited | Obstructed

  /** `GuardMap`: a `width` by `height` grid, its cells in reading order. */
  datatype GuardMap = GuardMap(width: nat, height: nat, cells: seq<CellState>)

  /** The state `from_input` gives a character: '.' is free, '#' an obstruction, a
      guard character a guard facing its way, and anything else free. */
  function CellOf(c: char): CellState
  {
    if c == '.' then Unvisited
    else if c == '#' then Obstructed
    else if c in GuardChars then Guard(TryFrom(c).value)
    else Unvisited
  }

  /** Only '#' is an obstruction, exactly the guard characters are guards (facing as
      they point), and no cell starts out visited. */
  lemma CellOfSpec(c: char)
    ensures CellOf(c) == Obstructed <==> c == '#'
    ensures CellOf(c).Guard? <==> TryFrom(c).Some?
    ensures CellOf(c).Guard? ==> Some(CellOf(c).dir) == TryFrom(c)
    ensures CellOf(c) != Visited
  {
  }

  /** The non-empty lines, in order. */
  function NonEmptyLines(lines: seq<string>): (r: seq<string>)
    ensures forall k :: 0 <= k < |r| ==> r[k] != []
  {
    if lines == [] then []
    else
      var n := |lines| - 1;
      NonEmptyLines(lines[..n]) + (if lines[n] == [] then [] else [lines[n]])
  }

  /** The character at column `x`, or a space past the end of the line. */
  function CharOr(line: string, x: nat): char
  {
    if x < |line| then line[x] else ' '
  }

  /** One row of cells: the line cut or padded to `width`. */
  function RowCells(line: string, width: nat): (r: seq<CellState>)
    ensures |r| == width && forall x :: 0 <= x < width ==> r[x] == CellOf(CharOr(line, x))
  {
    seq(width, x requires 0 <= x < width => CellOf(CharOr(line, x)))
  }

  /** All rows of cells, one after another. */
  function GridCells(lines: seq<string>, width: nat): seq<CellState>
  {
    if lines == [] then []
    else
      var n := |lines| - 1;
      GridCells(lines[..n], width) + RowCells(lines[n], width)
  }

  /** The grid has `width` cells per line. */
  lemma {:induction false} GridCellsLength(lines: seq<string>, width: nat)
    ensures |GridCells(lines, width)| == Product(|lines|, width)
  {
    if lines == [] {
      ProductZero(width);
    } else {
      var n := |lines| - 1;
      GridCellsLength(lines[..n], width);
      ProductSucc(n, width);
    }
  }

  /** Cell `y * width + x` comes from column `x` of line `y`. */
  lemma {:induction false} GridCellAt(lines: seq<string>, width: nat, y: nat, x: nat)
    requires y < |lines| && x < width
    ensures CellFrom(GridCells(lines, width), lines, width, y, x)
  {
    var n := |lines| - 1;
    var prev := GridCells(lines[..n], width);
    assert GridCells(lines, width) == prev + RowCells(lines[n], width);
    GridCellsLength(lines[..n], width);
    if y < n {
      GridCellAt(lines[..n], width, y, x);
      assert lines[..n][y] == lines[y];
    } else {
      assert Product(y, width) + x == |prev| + x;
    }
  }

  /** Row `y` occupies the cells from `y * width` on. */
  lemma GridCellsSpec(lines: seq<string>, width: nat)
    ensures |GridCells(lines, width)| == Product(|lines|, width)
    ensures RowMajor(GridCells(lines, width), lines, width)
  {
    GridCellsLength(lines, width);
    forall y: nat, x: nat | y < |lines| && x < width ensures CellFrom(GridCells(lines, width), lines, width, y, x) {
      GridCellAt(lines, width, y, x);
    }
  }

  /** Cell `y * width + x` comes from column `x` of line `y`. */
  predicate CellFrom(cells: seq<CellState>, lines: seq<string>, width: nat, y: nat, x: nat)
    requires y < |lines|
  {
    0 <= Product(y, width) + x < |cells| && cells[Product(y, width) + x] == CellOf(CharOr(lines[y], x))
  }

  /** Every cell comes from its line and column, row after row. */
  predicate RowMajor(cells: seq<CellState>, lines: seq<string>, width: nat)
  {
    forall y: nat, x: nat :: y < |lines| && x < width ==> CellFrom(cells, lines, width, y, x)
  }

  lemma ProductMonotone(a: nat, b: nat, w: nat)
    requires a <= b
    ensures Product(a, w) <= Product(b, w)
  {
  }

  /** What `from_input` builds: None without non-empty lines; otherwise the grid as wide
      as the first non-empty line and as high as the number of non-empty lines. */
  function MapOf(input: string): Option<GuardMap>
  {
    var lines := NonEmptyLines(Lines(input));
    if lines == [] then None
    else Some(GuardMap(|lines[0]|, |lines|, GridCells(lines, |lines[0]|)))
  }

  /** `GuardMap::from_input`. Its check for an empty first line cannot fire, since the
      empty lines are gone by then. */
  method FromInput(input: string) returns (r: Option<GuardMap>)
    ensures r == MapOf(input)
  {
    var lines := NonEmptyLines(Lines(input));
    if |lines| == 0 {
      return None;
    }
    var height := |lines|;
    var width := |lines[0]|;
    if width == 0 {
      assert false;
    }
    var cells: seq<CellState> := [];
    for j := 0 to |lines|
      invariant cells == GridCells(lines[..j], width)
    {
      var chars := lines[j];
      for x := 0 to width
        invariant cells == GridCells(lines[..j], width) + RowCells(chars, width)[..x]
      {
        var c := if x < |chars| then chars[x] else ' ';
        var state;
        if c == '.' {
          state := Unvisited;
        } else if c == '#' {
          state := Obstructed;
        } else if c in GuardChars {
          state := Guard(TryFrom(c).value);
        } else {
          state := Unvisited;
        }
        cells := cells + [state];
      }
      assert RowCells(chars, width)[..width] == RowCells(chars, width);
      assert lines[..j + 1][..j] == lines[..j];
    }
    assert lines[..|lines|] == lines;
    return Some(GuardMap(width, height, cells));
  }

  /** A map built from input holds exactly `height * width` cells, row by row. */
  lemma MapOfSpec(input: string)
    ensures MapOf(input).Some? ==> var m := MapOf(input).value;
      && m.width >= 1 && m.height >= 1
      && |m.cells| == Product(m.height, m.width)
      && m.height == |NonEmptyLines(Lines(input))|
      && RowMajor(m.cells, NonEmptyLines(Lines(input)), m.width)
  {
    var lines := NonEmptyLines(Lines(input));
    if lines != [] {
      GridCellsSpec(lines, |lines[0]|);
    }
  }

  /** There is no map exactly when every line of the input is empty. */
  lemma MapOfNone(input: string)
    ensures MapOf(input).None? <==> AllEmpty(Lines(input))
  {
    NonEmptyLinesSpec(Lines(input));
  }

  /** Every line is empty. */
  predicate AllEmpty(lines: seq<string>)
  {
    forall k :: 0 <= k < |lines| ==> lines[k] == []
  }

  lemma AllEmptySnoc(init: seq<string>, line: string)
    ensures AllEmpty(init + [line]) <==> AllEmpty(init) && line == []
  {
    var all := init + [line];
    assert all[|init|] == line;
    assert forall k :: 0 <= k < |init| ==> all[k] == init[k];
  }

  lemma {:induction false} NonEmptyLinesSpec(lines: seq<string>)
    ensures NonEmptyLines(lines) == [] <==> AllEmpty(lines)
  {
    if lines != [] {
      var n := |lines| - 1;
      var init := lines[..n];
      NonEmptyLinesSpec(init);
      assert NonEmptyLines(lines) == NonEmptyLines(init) + (if lines[n] == [] then [] else [lines[n]]);
      assert lines == init + [lines[n]];
      AllEmptySnoc(init, lines[n]);
    }
  }

  // ---------------------------------------------------------------------------
  // The walk

  /** The index of a coordinate in the cells of a grid `width` wide. */
  function CellIndex(c: Coordinate, width: nat): int
  {
    Product(c.y, width) + c.x
  }

  predicate InGrid(c: Coordinate, width: nat, height: nat)
  {
    0 <= c.x < width && 0 <= c.y < height
  }

  /** A cell of the grid has an index among its cells. */
  lemma CellIndexInGrid(c: Coordinate, width: nat, height: nat)
    requires InGrid(c, width, height)
    ensures 0 <= CellIndex(c, width) < Product(height, width)
  {
    ProductMonotone(c.y + 1, height, width);
    ProductSucc(c.y, width);
  }

  /** One step of the guard, with the cells as they are now: None when the guard would
      leave the grid (or, in the source's defensive arm, the next index has no cell);
      otherwise the guard turns right in front of an obstruction and moves ahead
      anywhere else. */
  function Next(cells: seq<CellState>, width: nat, height: nat, coord: Coordinate, dir: Direction): Option<(Coordinate, Direction)>
  {
    var next := Add(coord, Delta(dir));
    if !InGrid(next, width, height) then None
    else
      var i := CellIndex(next, width);
      if !(0 <= i < |cells|) then None
      else if cells[i] == Obstructed then Some((coord, TurnRight(dir)))
      else Some((next, dir))
  }

  /** A step either turns in place in front of an obstruction, or moves one cell ahead,
      onto a cell of the grid that is not an obstruction. On a grid with all its cells,
      the guard stops exactly when the step would leave the grid. */
  lemma NextSpec(cells: seq<CellState>, width: nat, height: nat, coord: Coordinate, dir: Direction)
    ensures var ahead := Add(coord, Delta(dir));
      match Next(cells, width, height, coord, dir)
      case None => |cells| == Product(height, width) ==> !InGrid(ahead, width, height)
      case Some((c, d)) =>
        && InGrid(ahead, width, height) && 0 <= CellIndex(ahead, width) < |cells|
        && (if cells[CellIndex(ahead, width)] == Obstructed then c == coord && d == TurnRight(dir)
            else c == ahead && d == dir)
  {
    var ahead := Add(coord, Delta(dir));
    if InGrid(ahead, width, height) {
      CellIndexInGrid(ahead, width, height);
    }
  }

  /** The four positions of a guard standing at `c`. */
  ghost function CellStates(c: Coordinate): set<(Coordinate, Direction)>
  {
    {(c, Up), (c, Down), (c, Left), (c, Right)}
  }

  /** The positions of row `y` in the columns before `w`. */
  ghost function RowStates(w: nat, y: int): set<(Coordinate, Direction)>
  {
    if w == 0 then {} else RowStates(w - 1, y) + CellStates(Coordinate(w - 1, y))
  }

  /** The positions of a guard in a box `w` by `h`: every coordinate, every direction. */
  ghost function States(w: nat, h: nat): set<(Coordinate, Direction)>
  {
    if h == 0 then {} else States(w, h - 1) + RowStates(w, h - 1)
  }

  lemma CellStatesMember(c: Coordinate, s: (Coordinate, Direction))
    ensures s in CellStates(c) <==> s.0 == c
  {
    match s.1
    case Up =>
    case Down =>
    case Left =>
    case Right =>
  }

  lemma {:induction false} RowStatesMember(w: nat, y: int, s: (Coordinate, Direction))
    ensures s in RowStates(w, y) <==> 0 <= s.0.x < w && s.0.y == y
  {
    if w > 0 {
      RowStatesMember(w - 1, y, s);
      CellStatesMember(Coordinate(w - 1, y), s);
    }
  }

  /** The positions of the box are exactly those on its cells. */
  lemma {:induction false} StatesMember(w: nat, h: nat, s: (Coordinate, Direction))
    ensures s in States(w, h) <==> InGrid(s.0, w, h)
  {
    if h > 0 {
      StatesMember(w, h - 1, s);
      RowStatesMember(w, h - 1, s);
    }
  }

  lemma InStates(c: Coordinate, d: Direction, w: nat, h: nat)
    requires InGrid(c, w, h)
    ensures (c, d) in States(w, h)
  {
    StatesMember(w, h, (c, d));
  }

  lemma CellStatesSize(c: Coordinate)
    ensures |CellStates(c)| == 4
  {
  }

  /** A subset is no larger than its superset. */
  lemma {:induction false} SubsetSize<T>(a: set<T>, b: set<T>)
    requires a <= b
    ensures |a| <= |b|
    decreases |b|
  {
    if a != {} {
      var x :| x in a;
      SubsetSize(a - {x}, b - {x});
    }
  }

  /** Recording a new position of a set keeps the record inside the set and grows it
      by one. */
  lemma RecordState<T>(recorded: set<T>, x: T, all: set<T>)
    requires recorded <= all && x in all && x !in recorded
    ensures recorded + {x} <= all
    ensures |recorded + {x}| == |recorded| + 1 <= |all|
  {
    SubsetSize(recorded + {x}, all);
  }

  lemma DisjointUnionSize<T>(a: set<T>, b: set<T>)
    requires forall x :: x in b ==> x !in a
    ensures |a + b| == |a| + |b|
  {
    assert a * b == {};
  }

  /** The positions on the cell of column `w` are not among those of the columns before it. */
  lemma CellAfterRow(c: Coordinate, w: nat)
    requires c.x == w
    ensures forall s :: s in CellStates(c) ==> s !in RowStates(w, c.y)
  {
    forall s | s in CellStates(c) ensures s !in RowStates(w, c.y) {
      CellStatesMember(c, s);
      RowStatesMember(w, c.y, s);
    }
  }

  lemma {:induction false} RowStatesSize(w: nat, y: int)
    ensures |RowStates(w, y)| == 4 * w
  {
    if w > 0 {
      RowStatesSize(w - 1, y);
      var c := Coordinate(w - 1, y);
      var prev, cell := RowStates(w - 1, y), CellStates(c);
      CellAfterRow(c, w - 1);
      CellStatesSize(c);
      DisjointUnionSize(prev, cell);
      assert RowStates(w, y) == prev + cell;
    }
  }

  /** Row `h - 1` adds `4 * w` positions the rows above do not have. */
  lemma StatesStep(w: nat, h: nat)
    requires h > 0 && |States(w, h - 1)| == Product(h - 1, 4 * w)
    ensures |States(w, h)| == Product(h, 4 * w)
  {
    var y := h - 1;
    var prev, row := States(w, y), RowStates(w, y);
    forall s | s in row ensures s !in prev {
      RowStatesMember(w, y, s);
      StatesMember(w, y, s);
    }
    DisjointUnionSize(prev, row);
    RowStatesSize(w, y);
    ProductSucc(y, 4 * w);
  }

  /** A box holds `4 * w * h` positions, so a walk that records a new one every round
      runs at most that many rounds. */
  lemma {:induction false} StatesSize(w: nat, h: nat)
    ensures |States(w, h)| == Product(h, 4 * w)
  {
    if h > 0 {
      StatesSize(w, h - 1);
      StatesStep(w, h);
    } else {
      ProductZero(4 * w);
    }
  }

  /** The `loop` of `part_one` from a guard at `coord` facing `dir`, with the positions
      already recorded in `visited`: mark the guard's cell visited (None when that index
      has no cell, where the source panics); stop if the position was recorded before,
      record it, and stop too when the step leaves the grid; otherwise go on from the
      step. The result is the final cells. The walk stays in a box `w` by `h` that holds
      the grid and the guard, and every round records a new position of that box, so the
      unrecorded positions of the box shrink: the walk runs at most `4 * w * h` rounds. */
  function Walk(width: nat, height: nat, cells: seq<CellState>, coord: Coordinate, dir: Direction,
                visited: set<(Coordinate, Direction)>, ghost w: nat, ghost h: nat): Option<seq<CellState>>
    requires width <= w && height <= h && InGrid(coord, w, h) && visited <= States(w, h)
    decreases States(w, h) - visited
  {
    var i := CellIndex(coord, width);
    if !(0 <= i < |cells|) then None
    else
      var marked := cells[i := Visited];
      if (coord, dir) in visited then Some(marked)
      else
        match Next(marked, width, height, coord, dir)
        case None => Some(marked)
        case Some((c, d)) =>
          InStates(coord, dir, w, h);
          NextSpec(marked, width, height, coord, dir);
          Walk(width, height, marked, c, d, visited + {(coord, dir)}, w, h)
  }

  /** One round of the walk from a new position on an indexed cell: mark the cell, then
      stop where the step stops, or go on from the step with the position recorded. */
  lemma WalkRound(width: nat, height: nat, cells: seq<CellState>, coord: Coordinate, dir: Direction,
                  visited: set<(Coordinate, Direction)>, w: nat, h: nat)
    requires width <= w && height <= h && InGrid(coord, w, h) && visited <= States(w, h)
    requires 0 <= CellIndex(coord, width) < |cells| && (coord, dir) !in visited
    ensures var marked := cells[CellIndex(coord, width) := Visited];
      var seen := visited + {(coord, dir)};
      match Next(marked, width, height, coord, dir)
      case None => Walk(width, height, cells, coord, dir, visited, w, h) == Some(marked)
      case Some((c, d)) =>
        && InGrid(c, w, h) && seen <= States(w, h)
        && Walk(width, height, cells, coord, dir, visited, w, h) == Walk(width, height, marked, c, d, seen, w, h)
  {
    var marked := cells[CellIndex(coord, width) := Visited];
    InStates(coord, dir, w, h);
    NextSpec(marked, width, height, coord, dir);
  }

  /** The number of visited cells. */
  function CountVisited(cells: seq<CellState>): (r: nat)
    ensures r <= |cells|
  {
    if cells == [] then 0
    else
      var n := |cells| - 1;
      CountVisited(cells[..n]) + if cells[n] == Visited then 1 else 0
  }

  /** A visited cell makes the count positive. */
  lemma {:induction false} CountVisitedPositive(cells: seq<CellState>, k: nat)
    requires k < |cells| && cells[k] == Visited
    ensures CountVisited(cells) >= 1
  {
    var n := |cells| - 1;
    if k < n {
      assert cells[..n][k] == cells[k];
      CountVisitedPositive(cells[..n], k);
    }
  }

  /** The walk keeps the number of cells, marks the guard's first cell visited and
      unmarks nothing. */
  lemma {:induction false} WalkMarks(width: nat, height: nat, cells: seq<CellState>, coord: Coordinate, dir: Direction,
                                     visited: set<(Coordinate, Direction)>, w: nat, h: nat)
    requires width <= w && height <= h && InGrid(coord, w, h) && visited <= States(w, h)
    ensures var r := Walk(width, height, cells, coord, dir, visited, w, h);
      r.Some? ==> var i := CellIndex(coord, width);
        && 0 <= i < |cells| && |r.value| == |cells| && r.value[i] == Visited
        && forall k :: 0 <= k < |cells| && cells[k] == Visited ==> r.value[k] == Visited
    decreases States(w, h) - visited
  {
    var i := CellIndex(coord, width);
    if 0 <= i < |cells| {
      var marked := cells[i := Visited];
      if (coord, dir) !in visited {
        match Next(marked, width, height, coord, dir)
        case None =>
        case Some((c, d)) =>
          InStates(coord, dir, w, h);
          NextSpec(marked, width, height, coord, dir);
          assert Walk(width, height, cells, coord, dir, visited, w, h)
              == Walk(width, height, marked, c, d, visited + {(coord, dir)}, w, h);
          WalkMarks(width, height, marked, c, d, visited + {(coord, dir)}, w, h);
      }
    }
  }

  /** On a grid with all its cells, the walk fails only when the guard's first cell is
      missing: every later position is on the grid. */
  lemma {:induction false} WalkFailsOnlyAtStart(width: nat, height: nat, cells: seq<CellState>, coord: Coordinate, dir: Direction,
                                                visited: set<(Coordinate, Direction)>, w: nat, h: nat)
    requires width <= w && height <= h && InGrid(coord, w, h) && visited <= States(w, h)
    requires |cells| == Product(height, width)
    ensures Walk(width, height, cells, coord, dir, visited, w, h).None? <==> !(0 <= CellIndex(coord, width) < |cells|)
    decreases States(w, h) - visited
  {
    var i := CellIndex(coord, width);
    if 0 <= i < |cells| {
      var marked := cells[i := Visited];
      if (coord, dir) !in visited {
        match Next(marked, width, height, coord, dir)
        case None =>
        case Some((c, d)) =>
          InStates(coord, dir, w, h);
          NextSpec(marked, width, height, coord, dir);
          if c != coord {
            CellIndexInGrid(c, width, height);
          }
          WalkFailsOnlyAtStart(width, height, marked, c, d, visited + {(coord, dir)}, w, h);
      }
    }
  }

  /** A box that holds the grid and the starting position. */
  function BoxWidth(m: GuardMap, start: Coordinate): nat
  {
    Max(m.width, start.x + 1)
  }

  function BoxHeight(m: GuardMap, start: Coordinate): nat
  {
    Max(m.height, start.y + 1)
  }

  /** For a guard on the grid the box is the grid itself, so the walk's bound is
      `4 * width * height` rounds. */
  lemma BoxOfGuardOnGrid(m: GuardMap, c: Coordinate)
    requires InGrid(c, m.width, m.height)
    ensures BoxWidth(m, c) == m.width && BoxHeight(m, c) == m.height
  {
  }

  /** What `part_one` returns: None without a map or a guard, or when the guard's first
      cell has no index in the map; otherwise the number of cells the walk marks. */
  function Answer(input: string): Option<nat>
  {
    match MapOf(input)
    case None => None
    case Some(m) =>
      match FindStartingPosition(input)
      case None => None
      case Some((c, d)) =>
        match Walk(m.width, m.height, m.cells, c, d, {}, BoxWidth(m, c), BoxHeight(m, c))
        case None => None
        case Some(cells) => Some(CountVisited(cells))
  }

  /** `part_one`. `rounds` counts the rounds that record a new position; there are at
      most `4 * w * h` of them in the box that holds the grid and the guard (for a guard
      on the grid, `4 * width * height`). */
  method PartOne(input: string) returns (r: Option<nat>, ghost rounds: nat)
    ensures r == Answer(input)
    ensures MapOf(input).Some? && FindStartingPosition(input).Some? ==>
      var m, c := MapOf(input).value, FindStartingPosition(input).value.0;
      rounds <= Product(BoxHeight(m, c), 4 * BoxWidth(m, c))
  {
    rounds := 0;
    var m := FromInput(input);
    if m.None? {
      return None, rounds;
    }
    var grid := m.value;
    var start := FindStartingPosition(input);
    if start.None? {
      return None, rounds;
    }
    var (coord, dir) := start.value;
    ghost var w := BoxWidth(grid, coord);
    ghost var h := BoxHeight(grid, coord);
    ghost var outcome := Walk(grid.width, grid.height, grid.cells, coord, dir, {}, w, h);
    ghost var bound := |States(w, h)|;
    StatesSize(w, h);
    var cells := grid.cells;
    var visited: set<(Coordinate, Direction)> := {};
    while true
      invariant InGrid(coord, w, h) && visited <= States(w, h)
      invariant Walk(grid.width, grid.height, cells, coord, dir, visited, w, h) == outcome
      invariant rounds == |visited| <= bound
      decreases States(w, h) - visited
    {
      var i := CellIndex(coord, grid.width);
      if !(0 <= i < |cells|) {
        return None, rounds;
      }
      ghost var before := cells;
      cells := cells[i := Visited];
      if (coord, dir) in visited {
        break;
      }
      WalkRound(grid.width, grid.height, before, coord, dir, visited, w, h);
      InStates(coord, dir, w, h);
      RecordState(visited, (coord, dir), States(w, h));
      visited := visited + {(coord, dir)};
      rounds := rounds + 1;
      var next := Add(coord, Delta(dir));
      if next.x < 0 || next.y < 0 || next.x >= grid.width || next.y >= grid.height {
        break;
      }
      var j := CellIndex(next, grid.width);
      if !(0 <= j < |cells|) {
        break;
      }
      if cells[j] == Obstructed {
        dir := TurnRight(dir);
      } else {
        coord := next;
      }
    }
    return Some(CountVisited(cells)), rounds;
  }

  /** `part_one` is None exactly when there is no map, no guard, or the guard's cell has
      no index in the map; otherwise it counts between 1 and `width * height` cells. */
  lemma AnswerSpec(input: string)
    ensures MapOf(input).None? || FindStartingPosition(input).None? ==> Answer(input).None?
    ensures MapOf(input).Some? && FindStartingPosition(input).Some? ==>
      var m := MapOf(input).value;
      var i := CellIndex(FindStartingPosition(input).value.0, m.width);
      && (Answer(input).None? <==> !(0 <= i < |m.cells|))
      && (Answer(input).Some? ==> 1 <= Answer(input).value <= Product(m.height, m.width))
  {
    if MapOf(input).Some? && FindStartingPosition(input).Some? {
      var m := MapOf(input).value;
      var (c, d) := FindStartingPosition(input).value;
      MapOfSpec(input);
      var w, h := BoxWidth(m, c), BoxHeight(m, c);
      WalkMarks(m.width, m.height, m.cells, c, d, {}, w, h);
      WalkFailsOnlyAtStart(m.width, m.height, m.cells, c, d, {}, w, h);
      var r := Walk(m.width, m.height, m.cells, c, d, {}, w, h);
      if r.Some? {
        CountVisitedPositive(r.value, CellIndex(c, m.width));
      }
    }
  }

  /** A guard standing on the grid always gets an answer. */
  lemma GuardOnGridAnswers(input: string)
    requires MapOf(input).Some? && FindStartingPosition(input).Some?
    requires InGrid(FindStartingPosition(input).value.0, MapOf(input).value.width, MapOf(input).value.height)
    ensures Answer(input).Some?
  {
    var m := MapOf(input).value;
    MapOfSpec(input);
    CellIndexInGrid(FindStartingPosition(input).value.0, m.width, m.height);
    AnswerSpec(input);
  }
}
