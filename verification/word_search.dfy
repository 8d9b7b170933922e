/** Day 4 (src/bin/04.rs): count how often the word "XMAS" can be read in a grid of
    letters along one of the eight straight directions. The grid is the input's lines;
    its bounds are taken from the first line and the number of lines. */
module WordSearch {
  import opened Wrappers
  import opened Text
  import opened Numbers

  /** A grid cell: column `x`, row `y`. */
  datatype Point = Point(x: int, y: int)

  /** The largest valid column and row. */
  datatype InputRange = InputRange(x: int, y: int)

  predicate InRange(p: Point, range: InputRange)
  {
    0 <= p.x <= range.x && 0 <= p.y <= range.y
  }

  /** `get_char_at`: None outside the range, on a missing row, or past the end of a
      row shorter than the range; otherwise the character at the cell. */
  function GetCharAt(lines: seq<string>, point: Point, range: InputRange): (r: Option<char>)
    ensures r.Some? <==> InRange(point, range) && point.y < |lines| && point.x < |lines[point.y]|
    ensures r.Some? ==> r.value == lines[point.y][point.x]
  {
    if point.x < 0 || point.y < 0 || point.x > range.x || point.y > range.y then None
    else if point.y >= |lines| then None
    else if point.x >= |lines[point.y]| then None
    else Some(lines[point.y][point.x])
  }

  /** The range `part_one` derives from the grid: the first line's last column and the
      last row. */
  function RangeOf(lines: seq<string>): InputRange
    requires |lines| > 0
  {
    InputRange(|lines[0]| - 1, |lines| - 1)
  }

  /** In a rectangular grid every cell, and nothing else, has a character. */
  lemma GetCharAtRectangular(lines: seq<string>, point: Point)
    requires |lines| > 0
    requires forall k :: 0 <= k < |lines| ==> |lines[k]| == |lines[0]|
    ensures GetCharAt(lines, point, RangeOf(lines)).Some?
        <==> 0 <= point.x < |lines[0]| && 0 <= point.y < |lines|
  {
  }

  /** `zip(...).all(...)`: compares cell and letter pairwise, stopping at the shorter. */
  function ZipAll(path: seq<Point>, lines: seq<string>, range: InputRange, word: string): bool
  {
    if path == [] || word == [] then true
    else GetCharAt(lines, path[0], range) == Some(word[0]) && ZipAll(path[1..], lines, range, word[1..])
  }

  /** `verify_path_matches_word`: a path of the wrong length never matches; otherwise
      every cell must hold the corresponding letter. */
  function VerifyPathMatchesWord(path: seq<Point>, lines: seq<string>, range: InputRange, word: string): (b: bool)
    ensures b ==> |path| == |word|
  {
    if |path| != |word| then false else ZipAll(path, lines, range, word)
  }

  lemma {:induction false} ZipAllSpec(path: seq<Point>, lines: seq<string>, range: InputRange, word: string)
    requires |path| == |word|
    ensures ZipAll(path, lines, range, word)
        <==> forall i :: 0 <= i < |path| ==> GetCharAt(lines, path[i], range) == Some(word[i])
  {
    if path != [] {
      ZipAllSpec(path[1..], lines, range, word[1..]);
      if ZipAll(path, lines, range, word) {
        forall i | 0 <= i < |path| ensures GetCharAt(lines, path[i], range) == Some(word[i]) {
          if i > 0 {
            assert path[i] == path[1..][i - 1] && word[i] == word[1..][i - 1];
          }
        }
      }
      if forall i :: 0 <= i < |path| ==> GetCharAt(lines, path[i], range) == Some(word[i]) {
        forall i | 0 <= i < |path| - 1 ensures GetCharAt(lines, path[1..][i], range) == Some(word[1..][i]) {
          assert path[1..][i] == path[i + 1] && word[1..][i] == word[i + 1];
        }
      }
    }
  }

  /** A path matches exactly when it is as long as the word and every cell holds the
      letter at the same position. */
  lemma VerifyPathSpec(path: seq<Point>, lines: seq<string>, range: InputRange, word: string)
    ensures VerifyPathMatchesWord(path, lines, range, word)
        <==> |path| == |word| && forall i :: 0 <= i < |path| ==> GetCharAt(lines, path[i], range) == Some(word[i])
  {
    if |path| == |word| {
      ZipAllSpec(path, lines, range, word);
    }
  }

  /** `i` steps from `p` in direction `d`. */
  function Advance(p: Point, i: int, d: (int, int)): Point
  {
    Point(p.x + Product(i, d.0), p.y + Product(i, d.1))
  }

  /** The `n` cells met walking from `p` in direction `d`, `p` first. */
  function PathOf(p: Point, d: (int, int), n: nat): (r: seq<Point>)
    ensures |r| == n
    ensures forall i :: 0 <= i < n ==> r[i] == Advance(p, i, d)
  {
    seq(n, i requires 0 <= i < n => Advance(p, i, d))
  }

  /** What `get_points_between_inclusive` produces: from `start`, one step of the
      coordinate-wise sign of the difference at a time, as many steps as the larger
      coordinate difference. */
  function PointsBetween(start: Point, end: Point): seq<Point>
  {
    var dx, dy := end.x - start.x, end.y - start.y;
    PathOf(start, (Signum(dx), Signum(dy)), Max(Abs(dx), Abs(dy)) + 1)
  }

  lemma ProductBySignum(n: int, dx: int)
    requires Abs(dx) == n || dx == 0
    ensures Product(n, Signum(dx)) == dx
  {
    ProductByUnit(n, Signum(dx));
  }

  /** The points start at `start`, move by the signs of the difference at every step,
      and reach `end` whenever the segment is horizontal, vertical or diagonal. */
  lemma PointsBetweenSpec(start: Point, end: Point)
    ensures var r := PointsBetween(start, end);
      var dx, dy := end.x - start.x, end.y - start.y;
      && |r| == Max(Abs(dx), Abs(dy)) + 1
      && r[0] == start
      && (forall i :: 0 <= i < |r| - 1 ==> r[i + 1] == Point(r[i].x + Signum(dx), r[i].y + Signum(dy)))
      && ((dx == 0 || dy == 0 || Abs(dx) == Abs(dy)) ==> r[|r| - 1] == end)
  {
    var r := PointsBetween(start, end);
    var dx, dy := end.x - start.x, end.y - start.y;
    var n := Max(Abs(dx), Abs(dy));
    ProductZero(Signum(dx));
    ProductZero(Signum(dy));
    forall i | 0 <= i < |r| - 1
      ensures r[i + 1] == Point(r[i].x + Signum(dx), r[i].y + Signum(dy))
    {
      ProductSucc(i, Signum(dx));
      ProductSucc(i, Signum(dy));
    }
    if dx == 0 || dy == 0 || Abs(dx) == Abs(dy) {
      ProductBySignum(n, dx);
      ProductBySignum(n, dy);
    }
  }

  /** `get_points_between_inclusive`. */
  method GetPointsBetweenInclusive(start: Point, end: Point) returns (points: seq<Point>)
    ensures points == PointsBetween(start, end)
  {
    var dx := end.x - start.x;
    var dy := end.y - start.y;
    var numSteps := Max(Abs(dx), Abs(dy));
    var stepX := Signum(dx);
    var stepY := Signum(dy);
    points := [];
    for i := 0 to numSteps + 1
      invariant points == PathOf(start, (stepX, stepY), i)
    {
      points := points + [Point(start.x + Product(i, stepX), start.y + Product(i, stepY))];
    }
  }

  /** The eight directions, in the order the source tries them. */
  const Directions: seq<(int, int)> :=
    [(1, 0), (-1, 0), (0, 1), (0, -1), (1, 1), (-1, 1), (1, -1), (-1, -1)]

  /** A single step along an axis or a diagonal. */
  predicate Unit(d: (int, int))
  {
    -1 <= d.0 <= 1 && -1 <= d.1 <= 1 && d != (0, 0)
  }

  /** The directions are eight distinct unit steps: every neighbour once. */
  lemma DirectionsSpec()
    ensures |Directions| == 8
    ensures forall d :: d in Directions <==> Unit(d)
    ensures forall i, j :: 0 <= i < j < |Directions| ==> Directions[i] != Directions[j]
  {
  }

  lemma DirectionIsUnit(k: nat)
    requires k < |Directions|
    ensures Unit(Directions[k])
  {
  }

  /** Walking `steps` steps in a unit direction and asking for the points between gives
      back the straight walk of `steps + 1` cells, so its length is always the word's. */
  lemma BetweenAlong(p: Point, steps: nat, d: (int, int))
    requires Unit(d)
    ensures PointsBetween(p, Advance(p, steps, d)) == PathOf(p, d, steps + 1)
  {
    var e := Advance(p, steps, d);
    ProductByUnit(steps, d.0);
    ProductByUnit(steps, d.1);
    if steps == 0 {
      ProductZero(d.0);
      ProductZero(d.1);
      ProductZero(Signum(e.x - p.x));
      ProductZero(Signum(e.y - p.y));
    } else {
      assert Signum(e.x - p.x) == d.0 && Signum(e.y - p.y) == d.1;
    }
  }

  lemma BetweenAlongDirection(p: Point, steps: nat, k: nat)
    requires k < |Directions|
    ensures var d := Directions[k];
      |PointsBetween(p, Point(p.x + Product(steps, d.0), p.y + Product(steps, d.1)))| == steps + 1
  {
    DirectionIsUnit(k);
    BetweenAlong(p, steps, Directions[k]);
  }

  /** The straight paths of `steps + 1` cells from `point`, one per direction of `dirs`
      (in order) whose far end is inside the range. */
  function CandidatePaths(range: InputRange, point: Point, steps: nat, dirs: seq<(int, int)>): seq<seq<Point>>
  {
    if dirs == [] then []
    else
      var init := CandidatePaths(range, point, steps, dirs[..|dirs| - 1]);
      var end := Advance(point, steps, dirs[|dirs| - 1]);
      if InRange(end, range) then init + [PointsBetween(point, end)] else init
  }

  /** One more direction adds its path exactly when its far end is inside the range. */
  lemma CandidatePathsStep(range: InputRange, point: Point, steps: nat, dirs: seq<(int, int)>, k: nat)
    requires k < |dirs|
    ensures var init := CandidatePaths(range, point, steps, dirs[..k]);
      var end := Advance(point, steps, dirs[k]);
      CandidatePaths(range, point, steps, dirs[..k + 1])
        == if InRange(end, range) then init + [PointsBetween(point, end)] else init
  {
    assert dirs[..k + 1][..k] == dirs[..k];
  }

  /** What `get_possible_word_coordinates` returns: None for an empty word or a start
      outside the range, and None again when no direction fits. */
  function Candidates(range: InputRange, point: Point, wordLen: nat): Option<seq<seq<Point>>>
  {
    if wordLen == 0 || !InRange(point, range) then None
    else
      var paths := CandidatePaths(range, point, wordLen - 1, Directions);
      if paths == [] then None else Some(paths)
  }

  /** `get_possible_word_coordinates`. The branch that reports a path of the wrong length
      cannot be taken. */
  method GetPossibleWordCoordinates(range: InputRange, point: Point, wordLen: nat)
    returns (r: Option<seq<seq<Point>>>)
    ensures r == Candidates(range, point, wordLen)
  {
    if wordLen == 0 {
      return None;
    }
    var steps := wordLen - 1;
    var possibleWordCoordinates: seq<seq<Point>> := [];
    if point.x < 0 || point.y < 0 || point.x > range.x || point.y > range.y {
      return None;
    }
    for k := 0 to |Directions|
      invariant possibleWordCoordinates == CandidatePaths(range, point, steps, Directions[..k])
    {
      var d := Directions[k];
      var endX := point.x + Product(steps, d.0);
      var endY := point.y + Product(steps, d.1);
      assert Point(endX, endY) == Advance(point, steps, d);
      CandidatePathsStep(range, point, steps, Directions, k);
      if endX >= 0 && endX <= range.x && endY >= 0 && endY <= range.y {
        var coords := GetPointsBetweenInclusive(point, Point(endX, endY));
        BetweenAlongDirection(point, steps, k);
        if |coords| == wordLen {
          possibleWordCoordinates := possibleWordCoordinates + [coords];
        } else {
          assert false;
        }
      }
    }
    assert Directions[..|Directions|] == Directions;
    if |possibleWordCoordinates| == 0 {
      return None;
    }
    return Some(possibleWordCoordinates);
  }

  /** A straight walk whose two ends are in the range stays in the range. */
  lemma PathInRange(range: InputRange, p: Point, d: (int, int), n: nat)
    requires Unit(d) && n > 0
    requires InRange(p, range) && InRange(Advance(p, n - 1, d), range)
    ensures forall i :: 0 <= i < n ==> InRange(Advance(p, i, d), range)
  {
    ProductByUnit(n - 1, d.0);
    ProductByUnit(n - 1, d.1);
    forall i | 0 <= i < n ensures InRange(Advance(p, i, d), range) {
      ProductByUnit(i, d.0);
      ProductByUnit(i, d.1);
    }
  }

  /** `path` is the walk of `steps + 1` cells from `point` in direction `d`, and its
      far end is inside the range. */
  predicate WalkWithin(range: InputRange, point: Point, steps: nat, d: (int, int), path: seq<Point>)
  {
    path == PathOf(point, d, steps + 1) && InRange(Advance(point, steps, d), range)
  }

  /** Every candidate path is the straight walk of `steps + 1` cells in one of the
      directions, and that walk ends inside the range; there is at most one per direction. */
  lemma {:induction false} CandidatePathsSpec(range: InputRange, point: Point, steps: nat, dirs: seq<(int, int)>)
    requires forall k :: 0 <= k < |dirs| ==> Unit(dirs[k])
    ensures var r := CandidatePaths(range, point, steps, dirs);
      && |r| <= |dirs|
      && forall j :: 0 <= j < |r| ==> exists k :: 0 <= k < |dirs| && WalkWithin(range, point, steps, dirs[k], r[j])
  {
    if dirs != [] {
      var n := |dirs| - 1;
      var init := CandidatePaths(range, point, steps, dirs[..n]);
      CandidatePathsSpec(range, point, steps, dirs[..n]);
      var r := CandidatePaths(range, point, steps, dirs);
      var end := Advance(point, steps, dirs[n]);
      forall j | 0 <= j < |r|
        ensures exists k :: 0 <= k < |dirs| && WalkWithin(range, point, steps, dirs[k], r[j])
      {
        if j < |init| {
          var k :| 0 <= k < n && WalkWithin(range, point, steps, dirs[..n][k], init[j]);
          assert dirs[..n][k] == dirs[k];
        } else {
          BetweenAlong(point, steps, dirs[n]);
          assert WalkWithin(range, point, steps, dirs[n], r[j]);
        }
      }
    }
  }

  /** No path is kept exactly when no direction's far end is inside the range. */
  lemma {:induction false} CandidatePathsEmpty(range: InputRange, point: Point, steps: nat, dirs: seq<(int, int)>)
    ensures CandidatePaths(range, point, steps, dirs) == []
      <==> forall k :: 0 <= k < |dirs| ==> !InRange(Advance(point, steps, dirs[k]), range)
  {
    if dirs != [] {
      var n := |dirs| - 1;
      CandidatePathsEmpty(range, point, steps, dirs[..n]);
      assert forall k :: 0 <= k < n ==> dirs[..n][k] == dirs[k];
    }
  }

  /** `get_possible_word_coordinates` gives Some exactly when the word is non-empty, the
      start is inside the range and some direction's far end is inside it too; the paths
      are then one to eight, each as long as the word, starting at the start, staying
      inside the range and running straight in one direction. */
  lemma CandidatesSpec(range: InputRange, point: Point, wordLen: nat)
    ensures Candidates(range, point, wordLen).Some? <==>
      && wordLen > 0
      && InRange(point, range)
      && exists k :: 0 <= k < |Directions| && InRange(Advance(point, wordLen - 1, Directions[k]), range)
    ensures Candidates(range, point, wordLen).Some? ==>
      var paths := Candidates(range, point, wordLen).value;
      && 1 <= |paths| <= 8
      && forall j :: 0 <= j < |paths| ==>
           && |paths[j]| == wordLen
           && paths[j][0] == point
           && (forall i :: 0 <= i < wordLen ==> InRange(paths[j][i], range))
           && exists d :: Unit(d) && paths[j] == PathOf(point, d, wordLen)
  {
    if wordLen > 0 {
      CandidatePathsEmpty(range, point, wordLen - 1, Directions);
    }
    if Candidates(range, point, wordLen).Some? {
      var paths := Candidates(range, point, wordLen).value;
      forall k | 0 <= k < |Directions| ensures Unit(Directions[k]) {
        DirectionIsUnit(k);
      }
      CandidatePathsSpec(range, point, wordLen - 1, Directions);
      forall j | 0 <= j < |paths|
        ensures && |paths[j]| == wordLen
                && paths[j][0] == point
                && (forall i :: 0 <= i < wordLen ==> InRange(paths[j][i], range))
                && exists d :: Unit(d) && paths[j] == PathOf(point, d, wordLen)
      {
        var k :| 0 <= k < |Directions| && WalkWithin(range, point, wordLen - 1, Directions[k], paths[j]);
        PathInRange(range, point, Directions[k], wordLen);
        ProductZero(Directions[k].0);
        ProductZero(Directions[k].1);
      }
    }
  }

  /** The cells of one row holding `c`, left to right. */
  function RowPoints(c: char, line: string, y: int): seq<Point>
  {
    if line == [] then []
    else
      var n := |line| - 1;
      RowPoints(c, line[..n], y) + (if line[n] == c then [Point(n, y)] else [])
  }

  /** The cells of the grid holding `c`, row by row and left to right within a row. */
  function CharPoints(c: char, lines: seq<string>): seq<Point>
  {
    if lines == [] then []
    else
      var n := |lines| - 1;
      CharPoints(c, lines[..n]) + RowPoints(c, lines[n], n)
  }

  /** `get_char_points`: the cells holding `c`, or None when there are none. */
  function GetCharPoints(c: char, lines: seq<string>): (r: Option<seq<Point>>)
    ensures r.None? <==> CharPoints(c, lines) == []
    ensures r.Some? ==> r.value == CharPoints(c, lines)
  {
    var points := CharPoints(c, lines);
    if points == [] then None else Some(points)
  }

  /** The cell `p` exists in the grid and holds `c`. */
  predicate HoldsAt(lines: seq<string>, p: Point, c: char)
  {
    0 <= p.y < |lines| && 0 <= p.x < |lines[p.y]| && lines[p.y][p.x] == c
  }

  /** `p` comes strictly before `q` in reading order. */
  predicate RowMajorBefore(p: Point, q: Point)
  {
    p.y < q.y || (p.y == q.y && p.x < q.x)
  }

  lemma {:induction false} RowPointsMember(c: char, line: string, y: int)
    ensures forall p :: p in RowPoints(c, line, y) <==> p.y == y && 0 <= p.x < |line| && line[p.x] == c
  {
    if line != [] {
      var n := |line| - 1;
      var init := RowPoints(c, line[..n], y);
      RowPointsMember(c, line[..n], y);
      assert RowPoints(c, line, y) == init + (if line[n] == c then [Point(n, y)] else []);
      forall p ensures p in init <==> p.y == y && 0 <= p.x < n && line[p.x] == c {
        if 0 <= p.x < n {
          assert line[..n][p.x] == line[p.x];
        }
      }
    }
  }

  /** All points lie on row `y`, strictly left to right. */
  predicate AlongRow(r: seq<Point>, y: int)
  {
    forall i, j :: 0 <= i < j < |r| ==> r[i].y == y && r[i].x < r[j].x
  }

  lemma {:induction false} RowPointsSorted(c: char, line: string, y: int)
    ensures AlongRow(RowPoints(c, line, y), y)
  {
    if line != [] {
      var n := |line| - 1;
      var init := RowPoints(c, line[..n], y);
      var tail := if line[n] == c then [Point(n, y)] else [];
      var r := init + tail;
      assert RowPoints(c, line, y) == r;
      RowPointsSorted(c, line[..n], y);
      RowPointsMember(c, line[..n], y);
      forall i, j | 0 <= i < j < |r| ensures r[i].y == y && r[i].x < r[j].x {
        if j >= |init| {
          assert |tail| == 1 && r[j] == Point(n, y);
          assert i < |init| && r[i] == init[i] && init[i] in init;
          assert init[i].y == y && init[i].x < |line[..n]| == n;
        } else {
          assert r[i] == init[i] && r[j] == init[j];
          assert init[i].y == y && init[i].x < init[j].x;
        }
      }
      assert AlongRow(r, y);
    }
  }

  /** The points of a row are exactly its cells holding `c`, left to right. */
  lemma RowPointsSpec(c: char, line: string, y: int)
    ensures var r := RowPoints(c, line, y);
      && (forall p :: p in r <==> p.y == y && 0 <= p.x < |line| && line[p.x] == c)
      && (forall i, j :: 0 <= i < j < |r| ==> r[i].y == y && r[i].x < r[j].x)
  {
    RowPointsMember(c, line, y);
    RowPointsSorted(c, line, y);
  }

  /** The points are exactly the cells holding `c`, each once, in reading order. */
  lemma {:induction false} CharPointsSpec(c: char, lines: seq<string>)
    ensures var r := CharPoints(c, lines);
      && (forall p :: p in r <==> HoldsAt(lines, p, c))
      && (forall i, j :: 0 <= i < j < |r| ==> RowMajorBefore(r[i], r[j]))
  {
    if lines != [] {
      var n := |lines| - 1;
      var init := CharPoints(c, lines[..n]);
      var row := RowPoints(c, lines[n], n);
      CharPointsSpec(c, lines[..n]);
      RowPointsSpec(c, lines[n], n);
      forall p ensures p in init <==> HoldsAt(lines, p, c) && p.y < n {
        assert p in init <==> HoldsAt(lines[..n], p, c);
        if 0 <= p.y < n {
          assert lines[..n][p.y] == lines[p.y];
        }
      }
      var r := init + row;
      forall i, j | 0 <= i < j < |r| ensures RowMajorBefore(r[i], r[j]) {
        if i < |init| && j >= |init| {
          assert r[i] in init && r[j] == row[j - |init|];
          assert r[i].y < n;
        }
      }
    }
  }

  /** How many of the paths spell the word. */
  function CountMatches(lines: seq<string>, range: InputRange, paths: seq<seq<Point>>, word: string): nat
  {
    if paths == [] then 0
    else
      var n := |paths| - 1;
      CountMatches(lines, range, paths[..n], word)
        + (if VerifyPathMatchesWord(paths[n], lines, range, word) then 1 else 0)
  }

  /** How many of the candidate paths from `start` spell the word. */
  function FoundFrom(lines: seq<string>, range: InputRange, start: Point, word: string): nat
  {
    match Candidates(range, start, |word|)
    case None => 0
    case Some(paths) => CountMatches(lines, range, paths, word)
  }

  /** The number of spelled paths over all the starts. */
  function TotalFound(lines: seq<string>, range: InputRange, starts: seq<Point>, word: string): nat
  {
    if starts == [] then 0
    else
      var n := |starts| - 1;
      TotalFound(lines, range, starts[..n], word) + FoundFrom(lines, range, starts[n], word)
  }

  lemma TotalFoundStep(lines: seq<string>, range: InputRange, starts: seq<Point>, i: nat, word: string)
    requires i < |starts|
    ensures TotalFound(lines, range, starts[..i + 1], word)
      == TotalFound(lines, range, starts[..i], word) + FoundFrom(lines, range, starts[i], word)
  {
    assert starts[..i + 1][..i] == starts[..i];
  }

  lemma CountMatchesStep(lines: seq<string>, range: InputRange, paths: seq<seq<Point>>, j: nat, word: string)
    requires j < |paths|
    ensures CountMatches(lines, range, paths[..j + 1], word)
      == CountMatches(lines, range, paths[..j], word) + (if VerifyPathMatchesWord(paths[j], lines, range, word) then 1 else 0)
  {
    assert paths[..j + 1][..j] == paths[..j];
  }

  const TargetWord: string := "XMAS"

  /** The inner loop of `part_one`: check each path against the word and count the
      matches. */
  method CountMatchingPaths(lines: seq<string>, range: InputRange, paths: seq<seq<Point>>, word: string)
    returns (count: nat)
    ensures count == CountMatches(lines, range, paths, word)
  {
    count := 0;
    for j := 0 to |paths|
      invariant count == CountMatches(lines, range, paths[..j], word)
    {
      CountMatchesStep(lines, range, paths, j, word);
      if VerifyPathMatchesWord(paths[j], lines, range, word) {
        count := count + 1;
      }
    }
    assert paths[..|paths|] == paths;
  }

  /** `part_one`: None for an input without lines or with an empty first line; otherwise
      the number of paths, from the cells holding the word's first letter, that spell it. */
  method PartOne(input: string) returns (r: Option<nat>)
    ensures var lines := Lines(input);
      if |lines| == 0 || |lines[0]| == 0 then r.None?
      else r == Some(TotalFound(lines, RangeOf(lines), CharPoints(TargetWord[0], lines), TargetWord))
  {
    var targetChars := TargetWord;
    var wordLen := |targetChars|;
    var lines := Lines(input);
    if |lines| == 0 || |lines[0]| == 0 {
      return None;
    }
    var range := InputRange(|lines[0]| - 1, |lines| - 1);
    var firstChar := targetChars[0];
    var startPoints;
    match GetCharPoints(firstChar, lines) {
      case Some(points) => startPoints := points;
      case None => return Some(0);
    }
    var foundCount := 0;
    for i := 0 to |startPoints|
      invariant foundCount == TotalFound(lines, range, startPoints[..i], targetChars)
    {
      var startPoint := startPoints[i];
      TotalFoundStep(lines, range, startPoints, i, targetChars);
      var possible := GetPossibleWordCoordinates(range, startPoint, wordLen);
      if possible.Some? {
        var matches := CountMatchingPaths(lines, range, possible.value, targetChars);
        foundCount := foundCount + matches;
      }
    }
    assert startPoints[..|startPoints|] == startPoints;
    return Some(foundCount);
  }

  /** Reading the word from `start` in direction `d` succeeds. */
  predicate Spells(lines: seq<string>, range: InputRange, start: Point, d: (int, int), word: string)
  {
    VerifyPathMatchesWord(PathOf(start, d, |word|), lines, range, word)
  }

  /** How many of the directions spell the word from `start`. */
  function SpellingCount(lines: seq<string>, range: InputRange, start: Point, word: string, dirs: seq<(int, int)>): nat
  {
    if dirs == [] then 0
    else
      var n := |dirs| - 1;
      SpellingCount(lines, range, start, word, dirs[..n]) + (if Spells(lines, range, start, dirs[n], word) then 1 else 0)
  }

  /** Nothing is spelled from a start outside the range. */
  lemma {:induction false} NothingSpelledOutside(lines: seq<string>, range: InputRange, start: Point, word: string, dirs: seq<(int, int)>)
    requires |word| > 0 && !InRange(start, range)
    ensures SpellingCount(lines, range, start, word, dirs) == 0
  {
    if dirs != [] {
      var n := |dirs| - 1;
      NothingSpelledOutside(lines, range, start, word, dirs[..n]);
      ProductZero(dirs[n].0);
      ProductZero(dirs[n].1);
      VerifyPathSpec(PathOf(start, dirs[n], |word|), lines, range, word);
    }
  }

  /** A direction whose far end leaves the range cannot spell the word. */
  lemma EndOutsideNotSpelled(lines: seq<string>, range: InputRange, start: Point, d: (int, int), word: string)
    requires |word| > 0 && !InRange(Advance(start, |word| - 1, d), range)
    ensures !Spells(lines, range, start, d, word)
  {
    VerifyPathSpec(PathOf(start, d, |word|), lines, range, word);
  }

  lemma CountMatchesSnoc(lines: seq<string>, range: InputRange, paths: seq<seq<Point>>, path: seq<Point>, word: string)
    ensures CountMatches(lines, range, paths + [path], word)
      == CountMatches(lines, range, paths, word) + (if VerifyPathMatchesWord(path, lines, range, word) then 1 else 0)
  {
    assert (paths + [path])[..|paths|] == paths;
  }

  /** Dropping the paths whose end is out of range loses no spelling. */
  lemma {:induction false} CandidatesCountSpellings(lines: seq<string>, range: InputRange, start: Point, word: string, dirs: seq<(int, int)>)
    requires |word| > 0
    requires forall k :: 0 <= k < |dirs| ==> Unit(dirs[k])
    ensures CountMatches(lines, range, CandidatePaths(range, start, |word| - 1, dirs), word)
      == SpellingCount(lines, range, start, word, dirs)
  {
    if dirs != [] {
      var n := |dirs| - 1;
      var steps := |word| - 1;
      var d := dirs[n];
      assert Unit(d);
      assert forall k :: 0 <= k < |dirs[..n]| ==> dirs[..n][k] == dirs[k];
      CandidatesCountSpellings(lines, range, start, word, dirs[..n]);
      var init := CandidatePaths(range, start, steps, dirs[..n]);
      var before := SpellingCount(lines, range, start, word, dirs[..n]);
      var end := Advance(start, steps, d);
      assert SpellingCount(lines, range, start, word, dirs)
        == before + (if Spells(lines, range, start, d, word) then 1 else 0);
      if InRange(end, range) {
        var path := PointsBetween(start, end);
        assert CandidatePaths(range, start, steps, dirs) == init + [path];
        BetweenAlong(start, steps, d);
        assert VerifyPathMatchesWord(path, lines, range, word) == Spells(lines, range, start, d, word);
        CountMatchesSnoc(lines, range, init, path, word);
      } else {
        assert CandidatePaths(range, start, steps, dirs) == init;
        EndOutsideNotSpelled(lines, range, start, d, word);
      }
    }
  }

  /** The paths found from `start` are exactly the directions that spell the word
      from it. */
  lemma FoundFromDirections(lines: seq<string>, range: InputRange, start: Point, word: string)
    requires |word| > 0
    ensures FoundFrom(lines, range, start, word) == SpellingCount(lines, range, start, word, Directions)
  {
    if !InRange(start, range) {
      NothingSpelledOutside(lines, range, start, word, Directions);
    } else {
      forall k | 0 <= k < |Directions| ensures Unit(Directions[k]) {
        DirectionIsUnit(k);
      }
      CandidatesCountSpellings(lines, range, start, word, Directions);
    }
  }

  /** The number of (start, direction) pairs that spell the word. */
  function Spellings(lines: seq<string>, range: InputRange, starts: seq<Point>, word: string): nat
  {
    if starts == [] then 0
    else
      var n := |starts| - 1;
      Spellings(lines, range, starts[..n], word) + SpellingCount(lines, range, starts[n], word, Directions)
  }

  /** `part_one`'s total is the number of (start, direction) pairs that spell the word. */
  lemma {:induction false} TotalFoundIsSpellings(lines: seq<string>, range: InputRange, starts: seq<Point>, word: string)
    requires |word| > 0
    ensures TotalFound(lines, range, starts, word) == Spellings(lines, range, starts, word)
  {
    if starts != [] {
      var n := |starts| - 1;
      TotalFoundIsSpellings(lines, range, starts[..n], word);
      FoundFromDirections(lines, range, starts[n], word);
    }
  }

  /** When exactly one of the directions spells the word, the count is one. */
  lemma {:induction false} SpellingCountOne(lines: seq<string>, range: InputRange, start: Point, word: string, dirs: seq<(int, int)>, k: nat)
    requires k < |dirs| && Spells(lines, range, start, dirs[k], word)
    requires forall j :: 0 <= j < |dirs| && j != k ==> !Spells(lines, range, start, dirs[j], word)
    ensures SpellingCount(lines, range, start, word, dirs) == 1
  {
    var n := |dirs| - 1;
    if k < n {
      SpellingCountOne(lines, range, start, word, dirs[..n], k);
    } else {
      SpellingCountNone(lines, range, start, word, dirs[..n]);
    }
  }

  lemma {:induction false} SpellingCountNone(lines: seq<string>, range: InputRange, start: Point, word: string, dirs: seq<(int, int)>)
    requires forall j :: 0 <= j < |dirs| ==> !Spells(lines, range, start, dirs[j], word)
    ensures SpellingCount(lines, range, start, word, dirs) == 0
  {
    if dirs != [] {
      SpellingCountNone(lines, range, start, word, dirs[..|dirs| - 1]);
    }
  }

  /** One wrong letter on the walk is enough to fail. */
  lemma MisspeltAt(lines: seq<string>, range: InputRange, start: Point, d: (int, int), word: string, i: nat)
    requires i < |word| && GetCharAt(lines, Advance(start, i, d), range) != Some(word[i])
    ensures !Spells(lines, range, start, d, word)
  {
    VerifyPathSpec(PathOf(start, d, |word|), lines, range, word);
  }

  /** A 4 by 4 grid with the word written once, left to right, on its top row. */
  const OneRowGrid: seq<string> := ["XMAS", "....", "....", "...."]

  /** A sequence in strict reading order whose only member is `q` is `[q]`. */
  lemma SortedSingleton(r: seq<Point>, q: Point)
    requires forall p :: p in r <==> p == q
    requires forall i, j :: 0 <= i < j < |r| ==> RowMajorBefore(r[i], r[j])
    ensures r == [q]
  {
    assert q in r;
    forall i | 0 <= i < |r| ensures r[i] == q {
      assert r[i] in r;
    }
    assert |r| >= 2 ==> RowMajorBefore(r[0], r[1]);
  }

  lemma OneRowGridStarts(g: seq<string>)
    requires g == OneRowGrid
    ensures CharPoints('X', g) == [Point(0, 0)]
  {
    var r := CharPoints('X', g);
    CharPointsSpec('X', g);
    forall p ensures p in r <==> p == Point(0, 0) {
      assert p in r <==> HoldsAt(g, p, 'X');
      assert g[0] == "XMAS" && g[1] == "...." && g[2] == "...." && g[3] == "....";
    }
    SortedSingleton(r, Point(0, 0));
  }

  lemma RightwardSpells(g: seq<string>, word: string)
    requires g == OneRowGrid && word == "XMAS"
    ensures Spells(g, RangeOf(g), Point(0, 0), (1, 0), word)
  {
    var path := PathOf(Point(0, 0), (1, 0), 4);
    forall i | 0 <= i < 4 ensures GetCharAt(g, path[i], RangeOf(g)) == Some(word[i]) {
      assert path[i] == Point(i, 0);
      assert g[0] == "XMAS";
    }
    VerifyPathSpec(path, g, RangeOf(g), word);
  }

  lemma OtherwiseMisspelt(g: seq<string>, word: string, d: (int, int))
    requires g == OneRowGrid && word == "XMAS"
    requires Unit(d) && d != (1, 0)
    ensures !Spells(g, RangeOf(g), Point(0, 0), d, word)
  {
    var o := Point(0, 0);
    assert GetCharAt(g, Advance(o, 1, d), RangeOf(g)) != Some(word[1]) by {
      assert Advance(o, 1, d) == Point(d.0, d.1);
      assert word[1] == 'M';
      if d.0 >= 0 && d.1 >= 0 {
        assert d.1 == 1;
        assert g[1][d.0] == '.';
      }
    }
    MisspeltAt(g, RangeOf(g), o, d, word, 1);
  }

  lemma OthersMisspelt(g: seq<string>, word: string, dirs: seq<(int, int)>)
    requires g == OneRowGrid && word == "XMAS" && dirs == Directions
    ensures forall j :: 0 <= j < |dirs| && j != 0 ==> !Spells(g, RangeOf(g), Point(0, 0), dirs[j], word)
  {
    forall j | 1 <= j < |dirs| ensures !Spells(g, RangeOf(g), Point(0, 0), dirs[j], word) {
      DirectionIsUnit(j);
      OtherwiseMisspelt(g, word, dirs[j]);
    }
  }

  /** From the top-left corner only the rightward direction spells the word. */
  lemma OneRowGridSpellings(g: seq<string>, word: string, dirs: seq<(int, int)>)
    requires g == OneRowGrid && word == "XMAS" && dirs == Directions
    ensures SpellingCount(g, RangeOf(g), Point(0, 0), word, dirs) == 1
  {
    RightwardSpells(g, word);
    OthersMisspelt(g, word, dirs);
    SpellingCountOne(g, RangeOf(g), Point(0, 0), word, dirs, 0);
  }

  /** The grid holds exactly one occurrence. */
  lemma OneRowGridFindsOne()
    ensures TotalFound(OneRowGrid, RangeOf(OneRowGrid), CharPoints('X', OneRowGrid), "XMAS") == 1
  {
    OneRowGridStarts(OneRowGrid);
    TotalFoundIsSpellings(OneRowGrid, RangeOf(OneRowGrid), [Point(0, 0)], "XMAS");
    OneRowGridSpellings(OneRowGrid, "XMAS", Directions);
  }
}
