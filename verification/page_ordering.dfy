/** Day 5 (src/bin/05.rs): the input is a block of ordering rules `a|b`, a blank line,
    and a block of updates, each a comma-separated list of page numbers. Only the
    parsers exist; any malformed piece makes them panic, which is None here. */
module PageOrdering {
  import opened Wrappers
  import opened Text
  import opened Numbers

  /** The largest `usize` on a 64-bit target. */
  const UsizeMax: nat := U64Max

  /** `split_input`: the text before and after the first blank line ("\n\n"); the two
      sections with the separator between them make up the input. */
  function SplitInput(input: string): (r: Option<(string, string)>)
    ensures r.Some? ==> input == r.value.0 + "\n\n" + r.value.1
  {
    SplitOnceSpec(input, "\n\n");
    SplitOnce(input, "\n\n")
  }

  /** Splitting fails exactly when the input has no "\n\n"; otherwise the two sections
      with the separator between them make up the input, and the first section holds
      no "\n\n" of its own. */
  lemma SplitInputSpec(input: string)
    ensures SplitInput(input).None? <==> forall j: nat :: !OccursAt(input, "\n\n", j)
    ensures SplitInput(input).Some? ==>
      var (rules, updates) := SplitInput(input).value;
      && input == rules + "\n\n" + updates
      && forall j: nat :: j < |rules| ==> !OccursAt(input, "\n\n", j)
  {
    SplitOnceSpec(input, "\n\n");
  }

  /** No two '\n' in a row, and no '\n' at the end: the text has no blank line and
      does not run into the separator. */
  predicate NoBlankLine(s: string)
  {
    (forall j :: 0 <= j < |s| - 1 ==> !(s[j] == '\n' && s[j + 1] == '\n'))
    && (s != [] ==> s[|s| - 1] != '\n')
  }

  /** A first section with no blank line is cut off exactly at the separator. */
  lemma SplitInputAt(rules: string, updates: string)
    requires NoBlankLine(rules)
    ensures SplitInput(rules + "\n\n" + updates) == Some((rules, updates))
  {
    var s := rules + "\n\n" + updates;
    SplitOnceSpec(s, "\n\n");
    assert OccursAt(s, "\n\n", |rules|) by {
      assert s[|rules|..|rules| + 2] == "\n\n";
    }
    forall j: nat | j < |rules| ensures !OccursAt(s, "\n\n", j) {
      if j + 1 < |rules| {
        assert s[j] == rules[j] && s[j + 1] == rules[j + 1];
      } else {
        assert s[j] == rules[|rules| - 1];
      }
      assert s[j..j + 2][0] == s[j] && s[j..j + 2][1] == s[j + 1];
    }
    var r := SplitInput(s).value;
    assert OccursAt(s, "\n\n", |r.0|) by {
      assert s[|r.0|..|r.0| + 2] == "\n\n";
    }
    assert |r.0| == |rules|;
    assert r.0 == s[..|rules|] == rules;
    assert r.1 == s[|rules| + 2..] == updates;
  }

  /** One rule line: split at the first '|', and both sides must be `usize` numerals
      exactly as written, without trimming. */
  function ParseRule(line: string): Option<(nat, nat)>
  {
    match SplitOnce(line, "|")
    case None => None
    case Some((first, second)) =>
      match (ParseUnsigned(first, UsizeMax), ParseUnsigned(second, UsizeMax))
      case (Some(a), Some(b)) => Some((a, b))
      case _ => None
  }

  /** A line without '|' is not a rule. */
  lemma RuleWithoutBar(line: string)
    requires '|' !in line
    ensures ParseRule(line).None?
  {
    SplitOnceSpec(line, "|");
    forall j: nat ensures !OccursAt(line, "|", j) {
      if j < |line| {
        assert line[j..j + 1][0] == line[j];
      }
    }
  }

  /** A line `first|second`, cut at its first '|', is a rule exactly when both sides
      are numerals, and the rule holds their values. */
  lemma RuleAtBar(first: string, second: string)
    requires '|' !in first
    ensures var a, b := ParseUnsigned(first, UsizeMax), ParseUnsigned(second, UsizeMax);
      ParseRule(first + "|" + second) == if a.Some? && b.Some? then Some((a.value, b.value)) else None
  {
    SplitOnceAfter(first, "|", second);
  }

  /** Whitespace next to a number is not trimmed away: it makes the side fail. */
  lemma PaddedSideFails(s: string, w: char)
    requires IsWhitespace(w)
    ensures ParseUnsigned([w] + s, UsizeMax).None?
    ensures ParseUnsigned(s + [w], UsizeMax).None?
  {
    ParseUnsignedSpec([w] + s, UsizeMax);
    ParseUnsignedSpec(s + [w], UsizeMax);
    if s != [] {
      assert (s + [w])[|s|] == w;
    }
  }

  /** `parse_page_ordering`: one rule per line, or None when a line is not a rule. */
  function ParsePageOrdering(input: string): (r: Option<seq<(nat, nat)>>)
    ensures r.Some? ==> |r.value| == |Lines(input)|
  {
    AllSomeSpec(RuleResults(Lines(input)));
    AllSome(RuleResults(Lines(input)))
  }

  /** Each line parsed as a rule. */
  function RuleResults(lines: seq<string>): (r: seq<Option<(nat, nat)>>)
    ensures |r| == |lines| && forall k :: 0 <= k < |lines| ==> r[k] == ParseRule(lines[k])
  {
    seq(|lines|, k requires 0 <= k < |lines| => ParseRule(lines[k]))
  }

  /** The rules are the lines' rules, one per line and in line order; parsing fails
      exactly when some line is not a rule. */
  lemma ParsePageOrderingSpec(input: string)
    ensures var lines := Lines(input);
      var r := ParsePageOrdering(input);
      && (r.None? <==> exists k :: 0 <= k < |lines| && ParseRule(lines[k]).None?)
      && (r.Some? ==> |r.value| == |lines| && forall k :: 0 <= k < |lines| ==> ParseRule(lines[k]) == Some(r.value[k]))
  {
    var lines := Lines(input);
    var os := RuleResults(lines);
    AllSomeSpec(os);
    if AllSome(os).None? {
      var k :| 0 <= k < |os| && os[k].None?;
      assert ParseRule(lines[k]).None?;
    }
  }

  /** One update line: split at every ',', trim each field, and parse it as a `usize`. */
  function ParseUpdate(line: string): Option<seq<nat>>
  {
    AllSome(FieldResults(Split(line, ',')))
  }

  /** Each field trimmed and parsed as a `usize`. */
  function FieldResults(fields: seq<string>): (r: seq<Option<nat>>)
    ensures |r| == |fields| && forall k :: 0 <= k < |fields| ==> r[k] == ParseUnsigned(Trim(fields[k]), UsizeMax)
  {
    seq(|fields|, k requires 0 <= k < |fields| => ParseUnsigned(Trim(fields[k]), UsizeMax))
  }

  /** Some trimmed field is not a numeral. */
  ghost predicate SomeFieldBad(fields: seq<string>)
  {
    exists k :: 0 <= k < |fields| && ParseUnsigned(Trim(fields[k]), UsizeMax).None?
  }

  /** The numbers are the trimmed fields' values, one per field and in order; parsing
      fails exactly when some trimmed field is not a numeral. */
  lemma ParseUpdateSpec(line: string)
    ensures ParseUpdate(line).None? <==> SomeFieldBad(Split(line, ','))
    ensures ParseUpdate(line).Some? ==> |ParseUpdate(line).value| == |Split(line, ',')|
    ensures ParseUpdate(line).Some? ==> forall k :: 0 <= k < |Split(line, ',')| ==>
      ParseUnsigned(Trim(Split(line, ',')[k]), UsizeMax) == Some(ParseUpdate(line).value[k])
  {
    var fields := Split(line, ',');
    var os := FieldResults(fields);
    assert ParseUpdate(line) == AllSome(os);
    AllSomeSpec(os);
    if AllSome(os).None? {
      var k :| 0 <= k < |os| && os[k].None?;
      assert ParseUnsigned(Trim(fields[k]), UsizeMax).None?;
      assert SomeFieldBad(fields);
    } else {
      var r := AllSome(os).value;
      forall k | 0 <= k < |fields| ensures ParseUnsigned(Trim(fields[k]), UsizeMax) == Some(r[k]) {
        assert os[k] == Some(r[k]);
      }
      assert !SomeFieldBad(fields);
    }
  }

  /** An empty field fails: an empty line, and a line ending in ',', are not updates. */
  lemma EmptyFieldFails(line: string)
    ensures ParseUpdate("").None?
    ensures ParseUpdate(line + ",").None?
  {
    ParseUpdateSpec("");
    assert Split("", ',') == [""];
    assert Trim("") == "";
    ParseUnsignedSpec("", UsizeMax);
    ParseUpdateSpec(line + ",");
    SplitTrailing(line, ',');
    var fields := Split(line + ",", ',');
    assert Trim(fields[|fields| - 1]) == "";
  }

  /** `parse_updates`: one update per line, or None when a line is not an update. */
  function ParseUpdates(input: string): (r: Option<seq<seq<nat>>>)
    ensures r.Some? ==> |r.value| == |Lines(input)|
  {
    AllSomeSpec(UpdateResults(Lines(input)));
    AllSome(UpdateResults(Lines(input)))
  }

  /** Each line parsed as an update. */
  function UpdateResults(lines: seq<string>): (r: seq<Option<seq<nat>>>)
    ensures |r| == |lines| && forall k :: 0 <= k < |lines| ==> r[k] == ParseUpdate(lines[k])
  {
    seq(|lines|, k requires 0 <= k < |lines| => ParseUpdate(lines[k]))
  }

  /** The updates are the lines' updates, one per line and in line order; parsing fails
      exactly when some line is not an update. */
  lemma ParseUpdatesSpec(input: string)
    ensures var lines := Lines(input);
      var r := ParseUpdates(input);
      && (r.None? <==> exists k :: 0 <= k < |lines| && ParseUpdate(lines[k]).None?)
      && (r.Some? ==> |r.value| == |lines| && forall k :: 0 <= k < |lines| ==> ParseUpdate(lines[k]) == Some(r.value[k]))
  {
    var lines := Lines(input);
    var os := UpdateResults(lines);
    AllSomeSpec(os);
    if AllSome(os).None? {
      var k :| 0 <= k < |os| && os[k].None?;
      assert ParseUpdate(lines[k]).None?;
    }
  }

  // ---------------------------------------------------------------------------
  // Writing the input back out

  /** A rule as the line `a|b`. */
  function FormatRule(rule: (nat, nat)): string
  {
    Decimal(rule.0) + "|" + Decimal(rule.1)
  }

  lemma DecimalAvoids(n: nat, c: char)
    requires !IsDigit(c)
    ensures c !in Decimal(n)
  {
  }

  /** A written rule parses back to itself. */
  lemma ParseFormattedRule(rule: (nat, nat))
    requires rule.0 <= UsizeMax && rule.1 <= UsizeMax
    ensures ParseRule(FormatRule(rule)) == Some(rule)
  {
    DecimalAvoids(rule.0, '|');
    RuleAtBar(Decimal(rule.0), Decimal(rule.1));
    ParseDecimal(rule.0, UsizeMax);
    ParseDecimal(rule.1, UsizeMax);
  }

  function RuleLines(rules: seq<(nat, nat)>): (r: seq<string>)
    ensures |r| == |rules| && forall k :: 0 <= k < |rules| ==> r[k] == FormatRule(rules[k])
  {
    seq(|rules|, k requires 0 <= k < |rules| => FormatRule(rules[k]))
  }

  /** The rules section: one rule per line. */
  function FormatRules(rules: seq<(nat, nat)>): string
  {
    Join(RuleLines(rules), '\n')
  }

  lemma RuleLineShape(rule: (nat, nat))
    ensures FormatRule(rule) != [] && '\n' !in FormatRule(rule)
  {
    DecimalAvoids(rule.0, '\n');
    DecimalAvoids(rule.1, '\n');
  }

  /** Written rules parse back to the same rules in the same order. */
  lemma ParseFormattedRules(rules: seq<(nat, nat)>)
    requires forall k :: 0 <= k < |rules| ==> rules[k].0 <= UsizeMax && rules[k].1 <= UsizeMax
    ensures ParsePageOrdering(FormatRules(rules)) == Some(rules)
  {
    var lines := RuleLines(rules);
    forall k | 0 <= k < |lines| ensures lines[k] != [] && '\n' !in lines[k] {
      RuleLineShape(rules[k]);
    }
    LinesJoin(lines);
    forall k | 0 <= k < |rules| ensures RuleResults(lines)[k] == Some(rules[k]) {
      ParseFormattedRule(rules[k]);
    }
    AllSomeOf(RuleResults(lines), rules);
  }

  function Numerals(pages: seq<nat>): (r: seq<string>)
    ensures |r| == |pages| && forall k :: 0 <= k < |pages| ==> r[k] == Decimal(pages[k])
  {
    seq(|pages|, k requires 0 <= k < |pages| => Decimal(pages[k]))
  }

  /** An update as its comma-separated numerals. */
  function FormatUpdate(pages: seq<nat>): string
  {
    Join(Numerals(pages), ',')
  }

  /** A written non-empty update parses back to itself (an empty one would be the empty
      line, which is not an update). */
  lemma ParseFormattedUpdate(pages: seq<nat>)
    requires |pages| >= 1
    requires forall k :: 0 <= k < |pages| ==> pages[k] <= UsizeMax
    ensures ParseUpdate(FormatUpdate(pages)) == Some(pages)
  {
    var fields := Numerals(pages);
    forall k | 0 <= k < |fields| ensures ',' !in fields[k] {
      DecimalAvoids(pages[k], ',');
    }
    SplitJoin(fields, ',');
    forall k | 0 <= k < |pages| ensures FieldResults(fields)[k] == Some(pages[k]) {
      TrimNoWhitespace(Decimal(pages[k]));
      ParseDecimal(pages[k], UsizeMax);
    }
    AllSomeOf(FieldResults(fields), pages);
  }

  function UpdateLines(updates: seq<seq<nat>>): (r: seq<string>)
    ensures |r| == |updates| && forall k :: 0 <= k < |updates| ==> r[k] == FormatUpdate(updates[k])
  {
    seq(|updates|, k requires 0 <= k < |updates| => FormatUpdate(updates[k]))
  }

  /** The updates section: one update per line. */
  function FormatUpdates(updates: seq<seq<nat>>): string
  {
    Join(UpdateLines(updates), '\n')
  }

  lemma UpdateLineShape(pages: seq<nat>)
    requires |pages| >= 1
    ensures FormatUpdate(pages) != [] && '\n' !in FormatUpdate(pages)
  {
    var fields := Numerals(pages);
    forall k | 0 <= k < |fields| ensures '\n' !in fields[k] {
      DecimalAvoids(pages[k], '\n');
    }
    JoinAvoids(fields, ',', '\n');
    if |fields| >= 2 {
      JoinCons(fields, ',');
    }
  }

  /** Written non-empty updates parse back to the same updates in the same order. */
  lemma ParseFormattedUpdates(updates: seq<seq<nat>>)
    requires forall k :: 0 <= k < |updates| ==> |updates[k]| >= 1
    requires forall k, i :: 0 <= k < |updates| && 0 <= i < |updates[k]| ==> updates[k][i] <= UsizeMax
    ensures ParseUpdates(FormatUpdates(updates)) == Some(updates)
  {
    var lines := UpdateLines(updates);
    forall k | 0 <= k < |lines| ensures lines[k] != [] && '\n' !in lines[k] {
      UpdateLineShape(updates[k]);
    }
    LinesJoin(lines);
    forall k | 0 <= k < |updates| ensures UpdateResults(lines)[k] == Some(updates[k]) {
      ParseFormattedUpdate(updates[k]);
    }
    AllSomeOf(UpdateResults(lines), updates);
  }

  /** Non-empty lines without '\n', joined by '\n', leave no blank line. */
  lemma {:induction false} JoinNoBlankLine(lines: seq<string>)
    requires forall k :: 0 <= k < |lines| ==> lines[k] != [] && '\n' !in lines[k]
    ensures NoBlankLine(Join(lines, '\n'))
    ensures |lines| >= 1 ==> Join(lines, '\n') != [] && Join(lines, '\n')[0] == lines[0][0]
  {
    if |lines| >= 2 {
      JoinNoBlankLine(lines[1..]);
      JoinCons(lines, '\n');
      var head, rest := lines[0], Join(lines[1..], '\n');
      var s := head + "\n" + rest;
      assert head[|head| - 1] in head && rest[0] == lines[1][0] && lines[1][0] in lines[1];
      forall j | 0 <= j < |s| - 1 ensures !(s[j] == '\n' && s[j + 1] == '\n') {
        if j < |head| {
          assert s[j] == head[j] && head[j] in head;
        } else if j > |head| {
          assert s[j] == rest[j - |head| - 1] && s[j + 1] == rest[j - |head|];
        }
      }
      assert s[|s| - 1] == rest[|rest| - 1];
    } else if |lines| == 1 {
      assert lines[0][|lines[0]| - 1] in lines[0];
      forall j | 0 <= j < |lines[0]| ensures lines[0][j] != '\n' {
        assert lines[0][j] in lines[0];
      }
    }
  }

  /** The whole input: rules, a blank line, updates. */
  function FormatInput(rules: seq<(nat, nat)>, updates: seq<seq<nat>>): string
  {
    FormatRules(rules) + "\n\n" + FormatUpdates(updates)
  }

  /** A written input splits back into its two sections, and they parse back to the
      same rules and updates. */
  lemma InputRoundTrip(rules: seq<(nat, nat)>, updates: seq<seq<nat>>)
    requires forall k :: 0 <= k < |rules| ==> rules[k].0 <= UsizeMax && rules[k].1 <= UsizeMax
    requires forall k :: 0 <= k < |updates| ==> |updates[k]| >= 1
    requires forall k, i :: 0 <= k < |updates| && 0 <= i < |updates[k]| ==> updates[k][i] <= UsizeMax
    ensures SplitInput(FormatInput(rules, updates)) == Some((FormatRules(rules), FormatUpdates(updates)))
    ensures ParsePageOrdering(FormatRules(rules)) == Some(rules)
    ensures ParseUpdates(FormatUpdates(updates)) == Some(updates)
  {
    var lines := RuleLines(rules);
    forall k | 0 <= k < |lines| ensures lines[k] != [] && '\n' !in lines[k] {
      RuleLineShape(rules[k]);
    }
    JoinNoBlankLine(lines);
    SplitInputAt(FormatRules(rules), FormatUpdates(updates));
    ParseFormattedRules(rules);
    ParseFormattedUpdates(updates);
  }
}
