/** Day 2 (src/bin/02.rs): each non-empty line is a report of whitespace-separated
    levels. A report is safe when its levels move in one direction by steps of 1 to 3;
    part two also accepts a report that becomes safe once one level is removed. */
module Reports {
  import opened Wrappers
  import opened Text
  import opened Numbers

  /** One adjacent step: its sign agrees with the report's direction and its size is 1 to 3. */
  predicate StepOk(increasing: bool, diff: int)
  {
    (if increasing then diff > 0 else diff < 0) && 1 <= Abs(diff) <= 3
  }

  /** `is_safe`: fewer than two levels are always safe; otherwise the first pair fixes
      the direction (increasing exactly when the second level exceeds the first) and
      every adjacent step must agree with it. */
  predicate IsSafe(levels: seq<int>)
    ensures |levels| < 2 ==> IsSafe(levels)
    ensures IsSafe(levels) ==> forall i :: 0 <= i < |levels| - 1 ==> 1 <= Abs(levels[i + 1] - levels[i]) <= 3
  {
    |levels| < 2 ||
    var increasing := levels[1] > levels[0];
    forall i :: 0 <= i < |levels| - 1 ==> StepOk(increasing, levels[i + 1] - levels[i])
  }

  /** Every adjacent step lies in `lo..=hi`. */
  predicate StepsWithin(levels: seq<int>, lo: int, hi: int)
  {
    forall i :: 0 <= i < |levels| - 1 ==> lo <= levels[i + 1] - levels[i] <= hi
  }

  /** Safe means: rising by 1 to 3 at every step, or falling by 1 to 3 at every step. */
  lemma SafeIffMonotone(levels: seq<int>)
    ensures IsSafe(levels) <==> StepsWithin(levels, 1, 3) || StepsWithin(levels, -3, -1)
  {
    if |levels| >= 2 {
      var increasing := levels[1] > levels[0];
      if IsSafe(levels) {
        if increasing {
          assert StepsWithin(levels, 1, 3);
        } else {
          assert StepsWithin(levels, -3, -1);
        }
      }
      if StepsWithin(levels, 1, 3) {
        assert increasing by { assert 1 <= levels[1] - levels[0]; }
      } else if StepsWithin(levels, -3, -1) {
        assert !increasing by { assert levels[1] - levels[0] <= -1; }
      }
    }
  }

  /** Two equal neighbours make a report unsafe. */
  lemma EqualNeighboursUnsafe(levels: seq<int>, i: nat)
    requires i + 1 < |levels| && levels[i] == levels[i + 1]
    ensures !IsSafe(levels)
  {
    assert !StepOk(levels[1] > levels[0], levels[i + 1] - levels[i]);
  }

  /** A prefix of a safe report is safe. */
  lemma SafePrefix(levels: seq<int>, k: nat)
    requires IsSafe(levels) && k <= |levels|
    ensures IsSafe(levels[..k])
  {
    if k >= 2 {
      var p := levels[..k];
      assert p[1] == levels[1] && p[0] == levels[0];
      forall i | 0 <= i < |p| - 1 ensures StepOk(p[1] > p[0], p[i + 1] - p[i]) {
        assert p[i + 1] - p[i] == levels[i + 1] - levels[i];
      }
    }
  }

  /** `Vec::remove(i)` on a copy: the levels without the one at index `i`, order kept. */
  function RemoveAt(levels: seq<int>, i: nat): (r: seq<int>)
    requires i < |levels|
    ensures |r| == |levels| - 1
    ensures forall k :: 0 <= k < i ==> r[k] == levels[k]
    ensures forall k :: i <= k < |r| ==> r[k] == levels[k + 1]
    ensures multiset(r) + multiset{levels[i]} == multiset(levels)
  {
    assert levels == levels[..i] + [levels[i]] + levels[i + 1..];
    levels[..i] + levels[i + 1..]
  }

  /** What `is_report_safe` accepts: a safe report, or one with a level whose removal
      leaves a safe report. */
  predicate Tolerable(levels: seq<int>)
  {
    IsSafe(levels) || exists i :: 0 <= i < |levels| && IsSafe(RemoveAt(levels, i))
  }

  /** For a non-empty report, being safe already implies that dropping its last level
      is safe, so tolerance is exactly "some single removal is safe". */
  lemma TolerableIffSomeRemovalSafe(levels: seq<int>)
    requires |levels| >= 1
    ensures Tolerable(levels) <==> exists i :: 0 <= i < |levels| && IsSafe(RemoveAt(levels, i))
  {
    if IsSafe(levels) {
      var n := |levels| - 1;
      SafePrefix(levels, n);
      assert RemoveAt(levels, n) == levels[..n];
    }
  }

  /** A report of at most two levels is always tolerated. */
  lemma ShortTolerable(levels: seq<int>)
    requires |levels| <= 2
    ensures Tolerable(levels)
  {
    if |levels| == 2 {
      assert IsSafe(RemoveAt(levels, 0));
    }
  }

  /** The levels of the words, or None when a word is not an i32 numeral. */
  function ParseLevels(words: seq<string>): Option<seq<int>>
  {
    if words == [] then Some([])
    else
      match (ParseLevels(words[..|words| - 1]), ParseSigned(words[|words| - 1], I32Min, I32Max))
      case (Some(init), Some(v)) => Some(init + [v])
      case _ => None
  }

  /** ParseLevels parses every word, and fails exactly when some word fails. */
  lemma {:induction false} ParseLevelsSpec(words: seq<string>)
    ensures var r := ParseLevels(words);
      && (r.Some? ==> |r.value| == |words|)
      && (r.Some? ==> forall k :: 0 <= k < |words| ==> ParseSigned(words[k], I32Min, I32Max) == Some(r.value[k]))
      && (r.None? <==> exists k :: 0 <= k < |words| && ParseSigned(words[k], I32Min, I32Max).None?)
  {
    if words != [] {
      var n := |words| - 1;
      ParseLevelsSpec(words[..n]);
      assert words == words[..n] + [words[n]];
      var init := ParseLevels(words[..n]);
      if init.None? {
        var k :| 0 <= k < n && ParseSigned(words[..n][k], I32Min, I32Max).None?;
        assert words[k] == words[..n][k];
      }
    }
  }

  /** The report's levels: `split_whitespace`, then each word parsed as i32 (the
      source's `expect`/`unwrap` panic is None). */
  function ParseReport(report: string): Option<seq<int>>
  {
    ParseLevels(SplitWhitespace(report))
  }

  /** `is_report_safe`: parse the report; accept it if it is safe, otherwise try
      removing each level in turn and accept at the first removal that is safe. */
  method IsReportSafe(report: string) returns (r: Option<bool>)
    ensures ParseReport(report).None? ==> r.None?
    ensures ParseReport(report).Some? ==> r == Some(Tolerable(ParseReport(report).value))
  {
    var parsed := ParseReport(report);
    if parsed.None? {
      return None;
    }
    var levels := parsed.value;
    if IsSafe(levels) {
      return Some(true);
    }
    for i := 0 to |levels|
      invariant forall j :: 0 <= j < i ==> !IsSafe(RemoveAt(levels, j))
    {
      var tempLevels := RemoveAt(levels, i);
      if IsSafe(tempLevels) {
        return Some(true);
      }
    }
    return Some(false);
  }

  /** How many of the non-empty lines hold a report that `accept` accepts; None when one
      of them does not parse. Every line is parsed, so any bad line makes it None. */
  function CountReports(lines: seq<string>, accept: seq<int> -> bool): Option<nat>
  {
    if lines == [] then Some(0)
    else
      var line := lines[|lines| - 1];
      match CountReports(lines[..|lines| - 1], accept)
      case None => None
      case Some(n) =>
        if line == [] then Some(n)
        else
          match ParseReport(line)
          case None => None
          case Some(levels) => Some(if accept(levels) then n + 1 else n)
  }

  /** The count is None exactly when some non-empty line fails to parse, and it never
      exceeds the number of lines. */
  lemma {:induction false} CountReportsSpec(lines: seq<string>, accept: seq<int> -> bool)
    ensures var r := CountReports(lines, accept);
      && (r.None? <==> exists k :: 0 <= k < |lines| && lines[k] != [] && ParseReport(lines[k]).None?)
      && (r.Some? ==> r.value <= |lines|)
  {
    if lines != [] {
      var n := |lines| - 1;
      CountReportsSpec(lines[..n], accept);
      assert lines == lines[..n] + [lines[n]];
      if CountReports(lines[..n], accept).None? {
        var k :| 0 <= k < n && lines[..n][k] != [] && ParseReport(lines[..n][k]).None?;
        assert lines[k] == lines[..n][k];
      }
    }
  }

  /** A more lenient test counts at least as many reports, and fails on the same input. */
  lemma {:induction false} CountReportsMonotone(lines: seq<string>, strict: seq<int> -> bool, lenient: seq<int> -> bool)
    requires forall levels :: strict(levels) ==> lenient(levels)
    ensures CountReports(lines, strict).None? <==> CountReports(lines, lenient).None?
    ensures CountReports(lines, strict).Some? ==> CountReports(lines, strict).value <= CountReports(lines, lenient).value
  {
    if lines != [] {
      CountReportsMonotone(lines[..|lines| - 1], strict, lenient);
    }
  }

  /** `part_one`: the number of safe reports, at most one per line; None exactly when a
      non-empty line does not parse. */
  function PartOne(input: string): (r: Option<nat>)
    ensures r.None? ==> exists k :: 0 <= k < |Lines(input)| && Lines(input)[k] != [] && ParseReport(Lines(input)[k]).None?
    ensures (exists k :: 0 <= k < |Lines(input)| && Lines(input)[k] != [] && ParseReport(Lines(input)[k]).None?) ==> r.None?
    ensures r.Some? ==> r.value <= |Lines(input)|
  {
    CountReportsSpec(Lines(input), IsSafe);
    CountReports(Lines(input), IsSafe)
  }

  /** `part_two`: the number of reports that are safe or safe after one removal, at most
      one per line; None exactly when a non-empty line does not parse. */
  function PartTwo(input: string): (r: Option<nat>)
    ensures r.None? ==> exists k :: 0 <= k < |Lines(input)| && Lines(input)[k] != [] && ParseReport(Lines(input)[k]).None?
    ensures (exists k :: 0 <= k < |Lines(input)| && Lines(input)[k] != [] && ParseReport(Lines(input)[k]).None?) ==> r.None?
    ensures r.Some? ==> r.value <= |Lines(input)|
  {
    CountReportsSpec(Lines(input), Tolerable);
    CountReports(Lines(input), Tolerable)
  }

  /** Every report part one counts, part two counts too. */
  lemma PartTwoAtLeastPartOne(input: string)
    ensures PartOne(input).None? <==> PartTwo(input).None?
    ensures PartOne(input).Some? ==> PartOne(input).value <= PartTwo(input).value
  {
    CountReportsMonotone(Lines(input), IsSafe, Tolerable);
  }
}
