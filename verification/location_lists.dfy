/** Day 1 (src/bin/01.rs): two columns of location ids. Part one pairs the columns
    after sorting them and adds up the distances; part two weighs each left id by
    how often it occurs in the right column. */
module LocationLists {
  import opened Wrappers
  import opened Text
  import opened Numbers

  /** One input line: cut at its first run of three spaces, both sides trimmed and
      parsed as i32; None when the line has no such run or a side does not parse. So a
      parsed line holds three spaces in a row, and both its numbers are i32 values. */
  function ParseLine(line: string): (r: Option<(int, int)>)
    ensures r.Some? ==> exists j: nat :: OccursAt(line, "   ", j)
    ensures r.Some? ==> I32Min <= r.value.0 <= I32Max && I32Min <= r.value.1 <= I32Max
  {
    SplitOnceSpec(line, "   ");
    match SplitOnce(line, "   ")
    case None => None
    case Some((left, right)) =>
      ParseSignedSpec(Trim(left), I32Min, I32Max);
      ParseSignedSpec(Trim(right), I32Min, I32Max);
      match (ParseSigned(Trim(left), I32Min, I32Max), ParseSigned(Trim(right), I32Min, I32Max))
      case (Some(a), Some(b)) => Some((a, b))
      case _ => None
  }

  /** The parse of every line, in line order. */
  function ParsedLines(lines: seq<string>): (r: seq<Option<(int, int)>>)
    ensures |r| == |lines| && forall i :: 0 <= i < |lines| ==> r[i] == ParseLine(lines[i])
  {
    seq(|lines|, i requires 0 <= i < |lines| => ParseLine(lines[i]))
  }

  /** The pairs of the lines that parse, in line order; the other lines are skipped. */
  function Pairs(lines: seq<string>): seq<(int, int)>
  {
    Somes(ParsedLines(lines))
  }


  /** Every pair holds two i32 values. */
  lemma PairsRange(lines: seq<string>)
    ensures forall i :: 0 <= i < |Pairs(lines)| ==>
      I32Min <= Pairs(lines)[i].0 <= I32Max && I32Min <= Pairs(lines)[i].1 <= I32Max
  {
    var os := ParsedLines(lines);
    SomesFrom(os);
    forall i | 0 <= i < |Pairs(lines)|
      ensures I32Min <= Pairs(lines)[i].0 <= I32Max && I32Min <= Pairs(lines)[i].1 <= I32Max
    {
      var k :| 0 <= k < |os| && os[k] == Some(Pairs(lines)[i]);
    }
  }

  function Lefts(ps: seq<(int, int)>): (r: seq<int>)
    ensures |r| == |ps| && forall i :: 0 <= i < |ps| ==> r[i] == ps[i].0
  {
    seq(|ps|, i requires 0 <= i < |ps| => ps[i].0)
  }

  function Rights(ps: seq<(int, int)>): (r: seq<int>)
    ensures |r| == |ps| && forall i :: 0 <= i < |ps| ==> r[i] == ps[i].1
  {
    seq(|ps|, i requires 0 <= i < |ps| => ps[i].1)
  }

  lemma ColumnsSnoc(ps: seq<(int, int)>, p: (int, int))
    ensures Lefts(ps + [p]) == Lefts(ps) + [p.0] && Rights(ps + [p]) == Rights(ps) + [p.1]
  {
  }

  /** `parse_input`: one entry in each list per line that parses, so the lists have
      equal length and the i-th entries come from the same line. */
  method ParseInput(input: string) returns (left: seq<int>, right: seq<int>)
    ensures |left| == |right| == |Pairs(Lines(input))|
    ensures left == Lefts(Pairs(Lines(input))) && right == Rights(Pairs(Lines(input)))
  {
    var lines := Lines(input);
    ghost var parsed := ParsedLines(lines);
    left, right := [], [];
    for k := 0 to |lines|
      invariant left == Lefts(Somes(parsed[..k])) && right == Rights(Somes(parsed[..k]))
    {
      SomesSnoc(parsed, k);
      var pair := ParseLine(lines[k]);
      if pair.Some? {
        ColumnsSnoc(Somes(parsed[..k]), pair.value);
        left := left + [pair.value.0];
        right := right + [pair.value.1];
      }
    }
    assert parsed[..|lines|] == parsed;
  }

  /** A line as the input format writes it: the two numerals three spaces apart. */
  function FormatLine(p: (int, int)): string
  {
    SignedDecimal(p.0) + "   " + SignedDecimal(p.1)
  }

  /** A formatted line parses back to its pair. */
  lemma ParseFormattedLine(p: (int, int))
    requires I32Min <= p.0 <= I32Max && I32Min <= p.1 <= I32Max
    ensures ParseLine(FormatLine(p)) == Some(p)
  {
    SplitOnceAfter(SignedDecimal(p.0), "   ", SignedDecimal(p.1));
    TrimNoWhitespace(SignedDecimal(p.0));
    TrimNoWhitespace(SignedDecimal(p.1));
    ParseSignedDecimal(p.0, I32Min, I32Max);
    ParseSignedDecimal(p.1, I32Min, I32Max);
  }

  function FormatLines(ps: seq<(int, int)>): (r: seq<string>)
    ensures |r| == |ps| && forall i :: 0 <= i < |ps| ==> r[i] == FormatLine(ps[i])
  {
    seq(|ps|, i requires 0 <= i < |ps| => FormatLine(ps[i]))
  }

  /** Parsing the formatted lines of some i32 pairs gives back those pairs. */
  lemma PairsOfFormatted(ps: seq<(int, int)>)
    requires forall i :: 0 <= i < |ps| ==> I32Min <= ps[i].0 <= I32Max && I32Min <= ps[i].1 <= I32Max
    ensures Pairs(FormatLines(ps)) == ps
  {
    var os := ParsedLines(FormatLines(ps));
    forall i | 0 <= i < |ps| ensures os[i] == Some(ps[i]) {
      ParseFormattedLine(ps[i]);
    }
    SomesAll(os, ps);
  }

  /** The example input's lines; the input itself is these joined by '\n'. */
  const ExampleRows: seq<string> := ["3   4", "4   3", "2   5", "1   3", "3   9", "3   3"]

  /** The parser's example: six lines give the left column [3, 4, 2, 1, 3, 3] and the
      right column [4, 3, 5, 3, 9, 3]. */
  lemma ParseExample()
    ensures Lefts(Pairs(Lines(Join(ExampleRows, '\n')))) == [3, 4, 2, 1, 3, 3]
    ensures Rights(Pairs(Lines(Join(ExampleRows, '\n')))) == [4, 3, 5, 3, 9, 3]
  {
    ExampleLines();
    ExamplePairs();
    ExampleColumns();
  }

  lemma ExampleColumns()
    ensures Lefts([(3, 4), (4, 3), (2, 5), (1, 3), (3, 9), (3, 3)]) == [3, 4, 2, 1, 3, 3]
    ensures Rights([(3, 4), (4, 3), (2, 5), (1, 3), (3, 9), (3, 3)]) == [4, 3, 5, 3, 9, 3]
  {
  }

  lemma ExampleLines()
    ensures Lines(Join(ExampleRows, '\n')) == ExampleRows
  {
    LinesJoin(ExampleRows);
  }

  lemma ExamplePairs()
    ensures Pairs(ExampleRows) == [(3, 4), (4, 3), (2, 5), (1, 3), (3, 9), (3, 3)]
  {
    var ls := ExampleRows;
    var ps := [(3, 4), (4, 3), (2, 5), (1, 3), (3, 9), (3, 3)];
    assert Decimal(1) == "1" && Decimal(2) == "2" && Decimal(3) == "3";
    assert Decimal(4) == "4" && Decimal(5) == "5" && Decimal(9) == "9";
    forall i | 0 <= i < |ps| ensures ParseLine(ls[i]) == Some(ps[i]) {
      assert FormatLine(ps[i]) == ls[i];
      ParseFormattedLine(ps[i]);
    }
    SomesAll(ParsedLines(ls), ps);
  }

  // ---------------------------------------------------------------------------
  // Part one: sorting and distances

  predicate Ascending(s: seq<int>)
  {
    forall i, j :: 0 <= i < j < |s| ==> s[i] <= s[j]
  }

  function Insert(x: int, s: seq<int>): (r: seq<int>)
    requires Ascending(s)
    ensures |r| == |s| + 1
    ensures Ascending(r) && multiset(r) == multiset(s) + multiset{x}
  {
    if s == [] || x <= s[0] then [x] + s
    else
      var t := Insert(x, s[1..]);
      InsertBehindHead(x, s, t);
      [s[0]] + t
  }

  /** Putting the head of `s` in front of `x` inserted into the rest keeps the order. */
  lemma InsertBehindHead(x: int, s: seq<int>, t: seq<int>)
    requires Ascending(s) && s != [] && s[0] < x
    requires Ascending(t) && multiset(t) == multiset(s[1..]) + multiset{x}
    ensures Ascending([s[0]] + t) && multiset([s[0]] + t) == multiset(s) + multiset{x}
  {
    forall i | 0 <= i < |t| ensures s[0] <= t[i] {
      assert t[i] in multiset(t);
      if t[i] != x {
        assert t[i] in s[1..];
        var j :| 0 <= j < |s[1..]| && s[1..][j] == t[i];
        assert s[j + 1] == t[i];
      }
    }
    assert s == [s[0]] + s[1..];
  }

  /** What `slice::sort` leaves in the slice: the same elements in ascending order. */
  function Sort(s: seq<int>): (r: seq<int>)
    ensures |r| == |s|
    ensures Ascending(r) && multiset(r) == multiset(s)
  {
    if s == [] then []
    else
      assert s == [s[0]] + s[1..];
      Insert(s[0], Sort(s[1..]))
  }

  lemma HeadIsLeast(a: seq<int>, x: int)
    requires Ascending(a) && x in a
    ensures a[0] <= x
  {
  }

  lemma TailOf(a: seq<int>)
    requires Ascending(a) && a != []
    ensures Ascending(a[1..]) && multiset(a[1..]) == multiset(a) - multiset{a[0]}
  {
    assert a == [a[0]] + a[1..];
  }

  /** Two ascending arrangements of one multiset start with the same number. */
  lemma HeadsAgree(a: seq<int>, b: seq<int>)
    requires Ascending(a) && Ascending(b) && multiset(a) == multiset(b)
    requires a != [] && b != []
    ensures a[0] == b[0]
  {
    assert a[0] in multiset(b) && b[0] in multiset(a);
    HeadIsLeast(a, b[0]);
    HeadIsLeast(b, a[0]);
  }

  /** There is only one ascending arrangement of a multiset of numbers. */
  lemma {:induction false} AscendingUnique(a: seq<int>, b: seq<int>)
    requires Ascending(a) && Ascending(b) && multiset(a) == multiset(b)
    ensures a == b
  {
    assert |a| == |b| by {
      assert |multiset(a)| == |multiset(b)|;
    }
    if a != [] {
      HeadsAgree(a, b);
      TailOf(a);
      TailOf(b);
      AscendingUnique(a[1..], b[1..]);
      assert a == [a[0]] + a[1..];
      assert b == [b[0]] + b[1..];
    }
  }

  /** The sorted column depends only on which numbers it holds, not on line order. */
  lemma SortDependsOnlyOnMultiset(a: seq<int>, b: seq<int>)
    requires multiset(a) == multiset(b)
    ensures Sort(a) == Sort(b)
  {
    AscendingUnique(Sort(a), Sort(b));
  }

  /** Sum of |a[i] - b[i]| over all positions. */
  function TotalDistance(a: seq<int>, b: seq<int>): nat
    requires |a| == |b|
  {
    if a == [] then 0
    else TotalDistance(a[..|a| - 1], b[..|b| - 1]) + Abs(a[|a| - 1] - b[|b| - 1])
  }

  /** The distance sum is zero exactly when the two lists agree position by position. */
  lemma {:induction false} TotalDistanceZero(a: seq<int>, b: seq<int>)
    requires |a| == |b|
    ensures TotalDistance(a, b) == 0 <==> a == b
  {
    if a != [] {
      var n := |a| - 1;
      TotalDistanceZero(a[..n], b[..n]);
      assert a == a[..n] + [a[n]] && b == b[..n] + [b[n]];
    }
  }

  /** Part one is zero exactly when both columns hold the same numbers. */
  lemma DistanceZeroIffSameNumbers(left: seq<int>, right: seq<int>)
    requires |left| == |right|
    ensures TotalDistance(Sort(left), Sort(right)) == 0 <==> multiset(left) == multiset(right)
  {
    TotalDistanceZero(Sort(left), Sort(right));
    if multiset(left) == multiset(right) {
      SortDependsOnlyOnMultiset(left, right);
    }
  }

  /** `part_one`: sort both columns, then add up the distances of same-position
      entries. The length check of the source never fails, because the parser
      always yields columns of equal length. */
  method PartOne(input: string) returns (r: Option<nat>)
    ensures r == Some(TotalDistance(Sort(Lefts(Pairs(Lines(input)))), Sort(Rights(Pairs(Lines(input))))))
  {
    var left, right := ParseInput(input);
    left := Sort(left);
    right := Sort(right);
    var totalDistance := SumDistances(left, right);
    return Some(totalDistance);
  }

  /** The distance loop of `part_one`: the sum of |left[i] - right[i]|. */
  method SumDistances(left: seq<int>, right: seq<int>) returns (totalDistance: nat)
    requires |left| == |right|
    ensures totalDistance == TotalDistance(left, right)
  {
    totalDistance := 0;
    for i := 0 to |left|
      invariant totalDistance == TotalDistance(left[..i], right[..i])
    {
      assert left[..i + 1][..i] == left[..i] && right[..i + 1][..i] == right[..i];
      totalDistance := totalDistance + Abs(left[i] - right[i]);
    }
    assert left[..|left|] == left && right[..|right|] == right;
  }

  // ---------------------------------------------------------------------------
  // Part two: frequencies and similarity

  /** The frequency map: every value of `values` mapped to its number of occurrences. */
  method Frequencies(values: seq<int>) returns (freq: map<int, nat>)
    ensures forall v :: v in freq <==> v in values
    ensures forall v :: v in freq ==> freq[v] == multiset(values)[v]
  {
    freq := map[];
    for k := 0 to |values|
      invariant forall v :: v in freq <==> v in values[..k]
      invariant forall v :: v in freq ==> freq[v] == multiset(values[..k])[v]
    {
      assert values[..k + 1] == values[..k] + [values[k]];
      var v := values[k];
      freq := freq[v := if v in freq then freq[v] + 1 else 1];
    }
    assert values[..|values|] == values;
  }

  /** Sum over the left values v of v times the number of occurrences of v on the right. */
  function Similarity(left: seq<int>, right: seq<int>): int
  {
    if left == [] then 0
    else Similarity(left[..|left| - 1], right) + left[|left| - 1] * multiset(right)[left[|left| - 1]]
  }

  lemma SimilaritySnoc(left: seq<int>, right: seq<int>, k: nat)
    requires k < |left|
    ensures Similarity(left[..k + 1], right) == Similarity(left[..k], right) + left[k] * multiset(right)[left[k]]
  {
    assert left[..k + 1][..k] == left[..k];
  }

  /** Left values that never occur on the right add nothing. */
  lemma {:induction false} SimilarityDisjoint(left: seq<int>, right: seq<int>)
    requires forall i :: 0 <= i < |left| ==> left[i] !in right
    ensures Similarity(left, right) == 0
  {
    if left != [] {
      SimilarityDisjoint(left[..|left| - 1], right);
    }
  }

  lemma Rearrange(x: int, y: int, c: int, d: int, e: int)
    requires e == if y == x then 1 else 0
    ensures y * (c + e) + x * d == y * c + x * (d + e)
  {
    if y == x {
      assert y * (c + 1) == y * c + y;
      assert x * (d + 1) == x * d + x;
    }
  }

  lemma {:induction false} SimilarityAppendRight(left: seq<int>, right: seq<int>, x: int)
    ensures Similarity(left, right + [x]) == Similarity(left, right) + x * multiset(left)[x]
  {
    if left != [] {
      var n := |left| - 1;
      var y := left[n];
      var e := if y == x then 1 else 0;
      var c := multiset(right)[y];
      var d := multiset(left[..n])[x];
      SimilarityAppendRight(left[..n], right, x);
      assert left == left[..n] + [y];
      assert multiset(right + [x])[y] == c + e;
      assert multiset(left)[x] == d + e;
      assert Similarity(left, right + [x]) == Similarity(left[..n], right + [x]) + y * (c + e);
      assert Similarity(left, right) == Similarity(left[..n], right) + y * c;
      Rearrange(x, y, c, d, e);
    }
  }

  /** Part two is symmetric: weighing the left column by right counts gives the same
      sum as weighing the right column by left counts. */
  lemma {:induction false} SimilaritySymmetric(left: seq<int>, right: seq<int>)
    ensures Similarity(left, right) == Similarity(right, left)
  {
    if left == [] {
      SimilarityDisjoint(right, left);
    } else {
      var n := |left| - 1;
      var x := left[n];
      SimilaritySymmetric(left[..n], right);
      assert Similarity(left, right) == Similarity(left[..n], right) + x * multiset(right)[x];
      SimilarityAppendRight(right, left[..n], x);
      assert left == left[..n] + [x];
    }
  }

  /** `part_two`: build the frequency map of the right column, then add up each left
      value times its frequency; values missing from the map add nothing. */
  method PartTwo(input: string) returns (r: Option<int>)
    ensures var ps := Pairs(Lines(input)); r == Some(Similarity(Lefts(ps), Rights(ps)))
  {
    var left, right := ParseInput(input);
    var sum := SimilarityScore(left, right);
    return Some(sum);
  }

  /** The counting and summing loops of `part_two`. */
  method SimilarityScore(left: seq<int>, right: seq<int>) returns (sum: int)
    ensures sum == Similarity(left, right)
  {
    var frequencyMap := Frequencies(right);
    sum := 0;
    for k := 0 to |left|
      invariant sum == Similarity(left[..k], right)
    {
      SimilaritySnoc(left, right, k);
      var v := left[k];
      if v in frequencyMap {
        sum := sum + v * frequencyMap[v];
      }
    }
    assert left[..|left|] == left;
  }
}
