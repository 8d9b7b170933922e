/** Day 3 (src/bin/03.rs): corrupted memory holding `mul(a,b)` instructions among
    junk. Part one adds up the products of all well-formed `mul`s; part two also obeys
    `do()` and `don't()`, which switch the `mul`s after them on and off.

    The source finds the instructions with the regular expressions
    `mul\((\d+),(\d+)\)` and `(mul\((\d+),(\d+)\)|do\(\)|don't\(\))` and iterates over
    their leftmost, non-overlapping matches. Here a match is recognised by hand at the
    start of a suffix of the text (`MulPrefix`, `TokenPrefix`), and the scan moves past
    a match or, when there is none, by one character. */
module MulScanner {
  import opened Wrappers
  import opened Text
  import opened Numbers

  /** Length of the run of ASCII digits at the start of `s`. */
  function DigitRun(s: string): (n: nat)
    ensures n <= |s|
  {
    if s != [] && IsDigit(s[0]) then 1 + DigitRun(s[1..]) else 0
  }

  /** DigitRun measures the maximal leading run of digits. */
  lemma {:induction false} DigitRunSpec(s: string)
    ensures AllDigits(s[..DigitRun(s)])
    ensures DigitRun(s) < |s| ==> !IsDigit(s[DigitRun(s)])
  {
    if s != [] && IsDigit(s[0]) {
      DigitRunSpec(s[1..]);
      assert s[..DigitRun(s)] == [s[0]] + s[1..][..DigitRun(s[1..])];
    }
  }

  /** A run of digits followed by a non-digit (or by nothing) is measured exactly. */
  lemma {:induction false} DigitRunOf(d: string, rest: string)
    requires AllDigits(d)
    requires rest == [] || !IsDigit(rest[0])
    ensures DigitRun(d + rest) == |d|
  {
    if d != [] {
      assert (d + rest)[1..] == d[1..] + rest;
      DigitRunOf(d[1..], rest);
    }
  }

  /** The text of the instruction `mul(x,y)`. */
  function MulText(x: string, y: string): string
  {
    "mul(" + x + "," + y + ")"
  }

  predicate Numeral(x: string)
  {
    x != [] && AllDigits(x)
  }

  /** A match of `mul\((\d+),(\d+)\)`: the two captured digit strings and the length
      of the matched text. */
  datatype MulMatch = MulMatch(first: string, second: string, length: nat)

  /** The match of `mul(<digits>,<digits>)` at the start of `s`, if there is one. */
  function MulPrefix(s: string): (r: Option<MulMatch>)
    ensures r.Some? ==> 0 < r.value.length <= |s|
  {
    if !("mul(" <= s) then None
    else
      var b := 4 + DigitRun(s[4..]);
      if b == 4 || b >= |s| || s[b] != ',' then None
      else
        var d := b + 1 + DigitRun(s[b + 1..]);
        if d == b + 1 || d >= |s| || s[d] != ')' then None
        else Some(MulMatch(s[4..b], s[b + 1..d], d + 1))
  }

  /** A match is a well-formed `mul(x,y)` with non-empty digit strings `x` and `y`. */
  lemma MulPrefixSound(s: string)
    requires MulPrefix(s).Some?
    ensures var m := MulPrefix(s).value;
      && Numeral(m.first) && Numeral(m.second)
      && MulText(m.first, m.second) <= s
      && m.length == |MulText(m.first, m.second)|
  {
    var m := MulPrefix(s).value;
    var b := 4 + DigitRun(s[4..]);
    var d := b + 1 + DigitRun(s[b + 1..]);
    assert m == MulMatch(s[4..b], s[b + 1..d], d + 1);
    LeadingDigits(s, 4);
    LeadingDigits(s, b + 1);
    MulTextAt(s, b, d);
    assert s[..d + 1] <= s;
  }

  /** The digit run at position `i` of `s` is a slice of `s` made of digits. */
  lemma LeadingDigits(s: string, i: nat)
    requires i <= |s|
    ensures i + DigitRun(s[i..]) <= |s|
    ensures AllDigits(s[i..i + DigitRun(s[i..])])
  {
    DigitRunSpec(s[i..]);
    assert s[i..][..DigitRun(s[i..])] == s[i..i + DigitRun(s[i..])];
  }

  /** The text up to a ')' at `d`, with a ',' at `b`, spells `mul(x,y)`. */
  lemma MulTextAt(s: string, b: nat, d: nat)
    requires "mul(" <= s && 4 <= b < d < |s| && s[b] == ',' && s[d] == ')'
    ensures MulText(s[4..b], s[b + 1..d]) == s[..d + 1]
  {
    assert s[..4] == "mul(";
    assert s[..d + 1] == s[..4] + s[4..b] + [s[b]] + s[b + 1..d] + [s[d]];
  }

  /** Every well-formed `mul(x,y)` at the start of `s` is matched, with exactly `x` and
      `y` as its captures. */
  lemma MulPrefixComplete(s: string, x: string, y: string)
    requires Numeral(x) && Numeral(y) && MulText(x, y) <= s
    ensures MulPrefix(s) == Some(MulMatch(x, y, |MulText(x, y)|))
  {
    var b := 4 + |x|;
    MulTextLayout(s, x, y);
    DigitRunOf(x, s[b..]);
    DigitRunOf(y, s[b + 1 + |y|..]);
  }

  /** Where the parts of `mul(x,y)` sit in a text that starts with it. */
  lemma MulTextLayout(s: string, x: string, y: string)
    requires MulText(x, y) <= s
    ensures var b := 4 + |x|;
      && "mul(" <= s && |MulText(x, y)| == b + 2 + |y| <= |s|
      && s[4..] == x + s[b..] && s[4..b] == x && s[b] == ','
      && s[b + 1..] == y + s[b + 1 + |y|..] && s[b + 1..b + 1 + |y|] == y && s[b + 1 + |y|] == ')'
  {
    var b := 4 + |x|;
    assert s[4..] == x + s[b..];
    assert s[b + 1..] == y + s[b + 1 + |y|..];
  }

  /** Text that does not start with 'm' has no `mul` match at its start. */
  lemma NoMulPrefix(s: string)
    requires s == [] || s[0] != 'm'
    ensures MulPrefix(s).None?
  {
  }

  /** The captures of every match of `mul\((\d+),(\d+)\)` in `s`, left to right: after
      a match the search resumes at its end, so matches never overlap. */
  function Captures(s: string): seq<(string, string)>
    decreases |s|
  {
    if s == [] then []
    else
      match MulPrefix(s)
      case Some(m) => [(m.first, m.second)] + Captures(s[m.length..])
      case None => Captures(s[1..])
  }

  /** The captures of `mul(x,y)` followed by more text. */
  lemma CapturesAfterMul(x: string, y: string, rest: string)
    requires Numeral(x) && Numeral(y)
    ensures Captures(MulText(x, y) + rest) == [(x, y)] + Captures(rest)
  {
    var s := MulText(x, y) + rest;
    MulPrefixComplete(s, x, y);
    assert s[|MulText(x, y)|..] == rest;
  }

  /** Skipping characters that start no match changes nothing. */
  lemma {:induction false} CapturesSkip(s: string, n: nat)
    requires n <= |s|
    requires forall k :: 0 <= k < n ==> s[k] != 'm'
    ensures Captures(s) == Captures(s[n..])
    decreases n
  {
    if n > 0 {
      CapturesSkipOne(s);
      assert forall k :: 0 <= k < n - 1 ==> s[1..][k] == s[k + 1];
      CapturesSkip(s[1..], n - 1);
      assert s[1..][n - 1..] == s[n..];
    }
  }

  /** A first character other than 'm' starts no match. */
  lemma CapturesSkipOne(s: string)
    requires s != [] && s[0] != 'm'
    ensures Captures(s) == Captures(s[1..])
  {
    NoMulPrefix(s);
  }

  /** Each capture is a pair of non-empty digit strings. */
  lemma {:induction false} CapturesAreNumerals(s: string)
    ensures forall k :: 0 <= k < |Captures(s)| ==> Numeral(Captures(s)[k].0) && Numeral(Captures(s)[k].1)
    decreases |s|
  {
    if s != [] {
      match MulPrefix(s)
      case Some(m) =>
        MulPrefixSound(s);
        CapturesAreNumerals(s[m.length..]);
      case None =>
        CapturesAreNumerals(s[1..]);
    }
  }

  /** The captured pairs parsed as i32 (the source's `unwrap` panic is None). */
  function ParsePairs(caps: seq<(string, string)>): Option<seq<(int, int)>>
  {
    if caps == [] then Some([])
    else
      match (ParseSigned(caps[0].0, I32Min, I32Max), ParseSigned(caps[0].1, I32Min, I32Max), ParsePairs(caps[1..]))
      case (Some(a), Some(b), Some(rest)) => Some([(a, b)] + rest)
      case _ => None
  }

  function Prepend<T>(init: seq<T>, rest: Option<seq<T>>): Option<seq<T>>
  {
    match rest
    case None => None
    case Some(r) => Some(init + r)
  }

  /** What `get_muls` computes: the pairs of numbers of all `mul` instructions. */
  function Muls(s: string): Option<seq<(int, int)>>
  {
    ParsePairs(Captures(s))
  }

  /** `get_muls`: for each match of the expression, parse both captures as i32 and
      record the pair. */
  method GetMuls(s: string) returns (result: Option<seq<(int, int)>>)
    ensures result == Muls(s)
  {
    var caps := Captures(s);
    var pairs: seq<(int, int)> := [];
    assert Prepend(pairs, Muls(s)) == Muls(s) by {
      if Muls(s).Some? {
        assert [] + Muls(s).value == Muls(s).value;
      }
    }
    for k := 0 to |caps|
      invariant Muls(s) == Prepend(pairs, ParsePairs(caps[k..]))
    {
      var first := ParseSigned(caps[k].0, I32Min, I32Max);
      var second := ParseSigned(caps[k].1, I32Min, I32Max);
      ParsePairsFrom(caps, k);
      if first.None? || second.None? {
        return None;
      }
      PrependAssoc(pairs, (first.value, second.value), ParsePairs(caps[k + 1..]));
      pairs := pairs + [(first.value, second.value)];
    }
    assert pairs + [] == pairs;
    result := Some(pairs);
  }

  lemma ParsePairsCons(x: string, y: string, rest: seq<(string, string)>)
    ensures var a, b := ParseSigned(x, I32Min, I32Max), ParseSigned(y, I32Min, I32Max);
      && (a.None? || b.None? ==> ParsePairs([(x, y)] + rest).None?)
      && (a.Some? && b.Some? ==> ParsePairs([(x, y)] + rest) == Prepend([(a.value, b.value)], ParsePairs(rest)))
  {
    assert ([(x, y)] + rest)[1..] == rest;
  }

  /** Parsing the captures from position `k` on: the k-th pair, then the rest. */
  lemma ParsePairsFrom(caps: seq<(string, string)>, k: nat)
    requires k < |caps|
    ensures var a, b := ParseSigned(caps[k].0, I32Min, I32Max), ParseSigned(caps[k].1, I32Min, I32Max);
      && (a.None? || b.None? ==> ParsePairs(caps[k..]).None?)
      && (a.Some? && b.Some? ==> ParsePairs(caps[k..]) == Prepend([(a.value, b.value)], ParsePairs(caps[k + 1..])))
  {
    assert caps[k..] == [caps[k]] + caps[k + 1..];
    ParsePairsCons(caps[k].0, caps[k].1, caps[k + 1..]);
  }

  lemma PrependAssoc<T>(init: seq<T>, x: T, rest: Option<seq<T>>)
    ensures Prepend(init, Prepend([x], rest)) == Prepend(init + [x], rest)
  {
    if rest.Some? {
      assert init + ([x] + rest.value) == init + [x] + rest.value;
    }
  }

  /** The sum of the products of the pairs. */
  function SumProducts(ps: seq<(int, int)>): int
  {
    if ps == [] then 0 else Product(ps[0].0, ps[0].1) + SumProducts(ps[1..])
  }

  /** Both numbers of a capture parse as i32. */
  predicate I32Pair(cap: (string, string))
  {
    ParseSigned(cap.0, I32Min, I32Max).Some? && ParseSigned(cap.1, I32Min, I32Max).Some?
  }

  /** Parsing the captures fails exactly when one of them does not hold two i32 values,
      and otherwise gives one pair per capture. */
  lemma {:induction false} ParsePairsSpec(caps: seq<(string, string)>)
    ensures ParsePairs(caps).None? <==> exists k :: 0 <= k < |caps| && !I32Pair(caps[k])
    ensures ParsePairs(caps).Some? ==> |ParsePairs(caps).value| == |caps|
  {
    if caps != [] {
      ParsePairsSpec(caps[1..]);
      assert forall k :: 0 < k < |caps| ==> caps[k] == caps[1..][k - 1];
      if ParsePairs(caps[1..]).None? {
        var k :| 0 <= k < |caps[1..]| && !I32Pair(caps[1..][k]);
        assert !I32Pair(caps[k + 1]);
      }
    }
  }

  /** `part_one`: the sum of the products of all `mul` pairs; 0 when there are none, and
      None (the `unwrap` panic) exactly when a captured number is not an i32. */
  function PartOne(input: string): (r: Option<int>)
    ensures Captures(input) == [] ==> r == Some(0)
    ensures r.None? ==> exists k :: 0 <= k < |Captures(input)| && !I32Pair(Captures(input)[k])
    ensures (exists k :: 0 <= k < |Captures(input)| && !I32Pair(Captures(input)[k])) ==> r.None?
  {
    ParsePairsSpec(Captures(input));
    match Muls(input)
    case None => None
    case Some(ps) => Some(SumProducts(ps))
  }

  /** A program of `mul`s, one per pair, written out without separators. */
  function Program(ps: seq<(nat, nat)>): string
  {
    if ps == [] then [] else MulText(Decimal(ps[0].0), Decimal(ps[0].1)) + Program(ps[1..])
  }

  function AsInts(ps: seq<(nat, nat)>): (r: seq<(int, int)>)
    ensures |r| == |ps| && forall k :: 0 <= k < |ps| ==> r[k] == (ps[k].0 as int, ps[k].1 as int)
  {
    seq(|ps|, k requires 0 <= k < |ps| => (ps[k].0 as int, ps[k].1 as int))
  }

  /** Scanning a program of `mul`s finds exactly its pairs, so part one is the sum of
      their products. */
  lemma {:induction false} PartOneOfProgram(ps: seq<(nat, nat)>)
    requires forall k :: 0 <= k < |ps| ==> ps[k].0 <= I32Max && ps[k].1 <= I32Max
    ensures Muls(Program(ps)) == Some(AsInts(ps))
    ensures PartOne(Program(ps)) == Some(SumProducts(AsInts(ps)))
  {
    if ps != [] {
      var x, y := Decimal(ps[0].0), Decimal(ps[0].1);
      CapturesAfterMul(x, y, Program(ps[1..]));
      PartOneOfProgram(ps[1..]);
      ParseDecimalSigned(ps[0].0);
      ParseDecimalSigned(ps[0].1);
      assert AsInts(ps) == [(ps[0].0 as int, ps[0].1 as int)] + AsInts(ps[1..]);
    }
  }

  lemma ParseDecimalSigned(n: nat)
    requires n <= I32Max
    ensures ParseSigned(Decimal(n), I32Min, I32Max) == Some(n as int)
  {
    ParseDecimal(n, I32Max);
    assert Decimal(n)[0] != '-';
  }

  // ---------------------------------------------------------------------------
  // Part two

  /** A match of the part-two expression: a `mul` with its captures, `do()` or `don't()`. */
  datatype Token = Mul(first: string, second: string) | Do | Dont

  /** The token at the start of `s` and its length. The alternatives are tried in the
      order the expression lists them: `mul(..)`, then `do()`, then `don't()`. */
  function TokenPrefix(s: string): (r: Option<(Token, nat)>)
    ensures r.Some? ==> 0 < r.value.1 <= |s|
  {
    match MulPrefix(s)
    case Some(m) => Some((Mul(m.first, m.second), m.length))
    case None =>
      if "do()" <= s then Some((Do, 4))
      else if "don't()" <= s then Some((Dont, 7))
      else None
  }

  /** The tokens of `s`, left to right, without overlap. */
  function Tokens(s: string): seq<Token>
    decreases |s|
  {
    if s == [] then []
    else
      match TokenPrefix(s)
      case Some((t, n)) => [t] + Tokens(s[n..])
      case None => Tokens(s[1..])
  }

  /** The captures of the `Mul` tokens, in order. */
  function MulsOf(ts: seq<Token>): seq<(string, string)>
  {
    if ts == [] then []
    else if ts[0].Mul? then [(ts[0].first, ts[0].second)] + MulsOf(ts[1..])
    else MulsOf(ts[1..])
  }

  /** Both expressions find the same `mul`s: no `mul` can start inside `do()` or
      `don't()`, so recognising those as well hides none. */
  lemma {:induction false} MulTokensAreCaptures(s: string)
    ensures MulsOf(Tokens(s)) == Captures(s)
    decreases |s|
  {
    if s != [] {
      match MulPrefix(s)
      case Some(m) =>
        MulTokensAreCaptures(s[m.length..]);
      case None =>
        if "do()" <= s {
          CapturesSkip(s, 4);
          MulTokensAreCaptures(s[4..]);
        } else if "don't()" <= s {
          CapturesSkip(s, 7);
          MulTokensAreCaptures(s[7..]);
        } else {
          MulTokensAreCaptures(s[1..]);
        }
    }
  }

  /** The effect of one token on the `enabled` flag and the sum: `do()` enables,
      `don't()` disables, and an enabled `mul` parses its numbers as u64 (an `unwrap`
      panic is None) and adds their product. A disabled `mul` is not parsed at all. */
  function Step(t: Token, enabled: bool, sum: int): Option<(bool, int)>
  {
    match t
    case Do => Some((true, sum))
    case Dont => Some((false, sum))
    case Mul(x, y) =>
      if !enabled then Some((enabled, sum))
      else
        var first, second := ParseUnsigned(x, U64Max), ParseUnsigned(y, U64Max);
        if first.Some? && second.Some? then Some((enabled, sum + Product(first.value, second.value))) else None
  }

  /** The outcome of the tokens, one step after the other. */
  function Run(ts: seq<Token>, enabled: bool, sum: int): Option<int>
  {
    if ts == [] then Some(sum)
    else
      match Step(ts[0], enabled, sum)
      case None => None
      case Some((e, s)) => Run(ts[1..], e, s)
  }

  lemma RunFrom(ts: seq<Token>, k: nat, enabled: bool, sum: int)
    requires k < |ts|
    ensures Run(ts[k..], enabled, sum) ==
      match Step(ts[k], enabled, sum)
      case None => None
      case Some((e, s)) => Run(ts[k + 1..], e, s)
  {
    assert ts[k..][0] == ts[k] && ts[k..][1..] == ts[k + 1..];
  }

  /** `part_two`: go through the tokens in textual order with `enabled` starting true. */
  method PartTwo(input: string) returns (r: Option<int>)
    ensures r == Run(Tokens(input), true, 0)
  {
    var tokens := Tokens(input);
    var sum := 0;
    var enabled := true;
    for k := 0 to |tokens|
      invariant Run(tokens, true, 0) == Run(tokens[k..], enabled, sum)
    {
      RunFrom(tokens, k, enabled, sum);
      match tokens[k] {
        case Do =>
          enabled := true;
        case Dont =>
          enabled := false;
        case Mul(x, y) =>
          if enabled {
            var first := ParseUnsigned(x, U64Max);
            var second := ParseUnsigned(y, U64Max);
            if first.None? || second.None? {
              return None;
            }
            sum := sum + Product(first.value, second.value);
          }
      }
    }
    r := Some(sum);
  }

  /** `do()` turns counting on and `don't()` turns it off, whatever the flag was. */
  lemma RunSwitches(ts: seq<Token>, enabled: bool, sum: int)
    ensures Run([Do] + ts, enabled, sum) == Run(ts, true, sum)
    ensures Run([Dont] + ts, enabled, sum) == Run(ts, false, sum)
  {
    assert ([Do] + ts)[1..] == ts;
    assert ([Dont] + ts)[1..] == ts;
  }

  /** While counting is off, `mul`s add nothing and are not even parsed, so a numeral
      too large for u64 cannot make them fail. */
  lemma {:induction false} DisabledMulsSkipped(ms: seq<Token>, rest: seq<Token>, sum: int)
    requires forall k :: 0 <= k < |ms| ==> ms[k].Mul?
    ensures Run(ms + rest, false, sum) == Run(rest, false, sum)
  {
    if ms != [] {
      assert (ms + rest)[0] == ms[0];
      assert (ms + rest)[1..] == ms[1..] + rest;
      DisabledMulsSkipped(ms[1..], rest, sum);
    } else {
      assert ms + rest == rest;
    }
  }

  /** The `mul`s between a `don't()` and what follows them contribute nothing. */
  lemma DontSkipsMuls(ms: seq<Token>, rest: seq<Token>, enabled: bool, sum: int)
    requires forall k :: 0 <= k < |ms| ==> ms[k].Mul?
    ensures Run([Dont] + ms + rest, enabled, sum) == Run(rest, false, sum)
  {
    RunSwitches(ms + rest, enabled, sum);
    assert [Dont] + ms + rest == [Dont] + (ms + rest);
    DisabledMulsSkipped(ms, rest, sum);
  }

  /** `s` contains neither `do()` nor `don't()`. */
  predicate NoSwitches(s: string)
  {
    forall k :: 0 <= k <= |s| ==> !("do()" <= s[k..]) && !("don't()" <= s[k..])
  }

  /** Without switches every token is a `mul`. */
  lemma {:induction false} TokensWithoutSwitches(s: string)
    requires NoSwitches(s)
    ensures forall k :: 0 <= k < |Tokens(s)| ==> Tokens(s)[k].Mul?
    decreases |s|
  {
    if s != [] {
      assert s[0..] == s;
      match TokenPrefix(s)
      case Some((t, n)) =>
        assert forall k :: 0 <= k <= |s[n..]| ==> s[n..][k..] == s[n + k..];
        TokensWithoutSwitches(s[n..]);
      case None =>
        assert forall k :: 0 <= k <= |s[1..]| ==> s[1..][k..] == s[1 + k..];
        TokensWithoutSwitches(s[1..]);
    }
  }

  /** Running enabled `mul` tokens whose numbers fit in an i32 adds up their products. */
  lemma {:induction false} RunMuls(ts: seq<Token>, ps: seq<(int, int)>, sum: int)
    requires forall k :: 0 <= k < |ts| ==> ts[k].Mul? && Numeral(ts[k].first) && Numeral(ts[k].second)
    requires ParsePairs(MulsOf(ts)) == Some(ps)
    ensures Run(ts, true, sum) == Some(sum + SumProducts(ps))
  {
    if ts != [] {
      var x, y := ts[0].first, ts[0].second;
      assert MulsOf(ts) == [(x, y)] + MulsOf(ts[1..]);
      ParsePairsCons(x, y, MulsOf(ts[1..]));
      var a, b := ParseSigned(x, I32Min, I32Max).value, ParseSigned(y, I32Min, I32Max).value;
      var rest := ParsePairs(MulsOf(ts[1..])).value;
      assert ps == [(a, b)] + rest;
      EnabledMulStep(ts[0], sum);
      var next := sum + Product(a, b);
      assert Run(ts, true, sum) == Run(ts[1..], true, next);
      assert forall k :: 0 <= k < |ts[1..]| ==> ts[1..][k] == ts[k + 1];
      RunMuls(ts[1..], rest, next);
      SumProductsCons(a, b, rest, sum);
    }
  }

  lemma SumProductsCons(a: int, b: int, rest: seq<(int, int)>, sum: int)
    ensures sum + SumProducts([(a, b)] + rest) == sum + Product(a, b) + SumProducts(rest)
  {
    assert ([(a, b)] + rest)[1..] == rest;
  }

  /** An enabled `mul` of two i32 numerals adds their product. */
  lemma EnabledMulStep(t: Token, sum: int)
    requires t.Mul? && Numeral(t.first) && Numeral(t.second)
    requires ParseSigned(t.first, I32Min, I32Max).Some? && ParseSigned(t.second, I32Min, I32Max).Some?
    ensures Step(t, true, sum)
      == Some((true, sum + Product(ParseSigned(t.first, I32Min, I32Max).value, ParseSigned(t.second, I32Min, I32Max).value)))
  {
    WiderUnsigned(t.first);
    WiderUnsigned(t.second);
  }

  /** A numeral that parses as an i32 parses as a u64 to the same value. */
  lemma WiderUnsigned(x: string)
    requires Numeral(x) && ParseSigned(x, I32Min, I32Max).Some?
    ensures ParseUnsigned(x, U64Max) == ParseSigned(x, I32Min, I32Max)
  {
    assert IsDigit(x[0]);
  }

  /** Every `mul` token carries two non-empty digit strings. */
  lemma {:induction false} TokensAreNumerals(s: string)
    ensures forall k :: 0 <= k < |Tokens(s)| && Tokens(s)[k].Mul? ==>
      Numeral(Tokens(s)[k].first) && Numeral(Tokens(s)[k].second)
    decreases |s|
  {
    if s != [] {
      match TokenPrefix(s)
      case Some((t, n)) =>
        if MulPrefix(s).Some? {
          MulPrefixSound(s);
        }
        TokensAreNumerals(s[n..]);
      case None =>
        TokensAreNumerals(s[1..]);
    }
  }

  /** Without `do()` and `don't()`, part two computes what part one computes, whenever
      part one does not panic. */
  lemma PartTwoWithoutSwitches(input: string)
    requires NoSwitches(input)
    requires PartOne(input).Some?
    ensures Run(Tokens(input), true, 0) == PartOne(input)
  {
    var ts := Tokens(input);
    TokensWithoutSwitches(input);
    TokensAreNumerals(input);
    assert forall k :: 0 <= k < |ts| ==> ts[k].Mul? && Numeral(ts[k].first) && Numeral(ts[k].second);
    MulTokensAreCaptures(input);
    var ps := Muls(input).value;
    assert ParsePairs(MulsOf(ts)) == Some(ps);
    RunMulsFromZero(ts, ps);
    assert PartOne(input) == Some(SumProducts(ps));
  }

  /** Running enabled i32 `mul` tokens from a zero sum gives the sum of their products. */
  lemma RunMulsFromZero(ts: seq<Token>, ps: seq<(int, int)>)
    requires forall k :: 0 <= k < |ts| ==> ts[k].Mul? && Numeral(ts[k].first) && Numeral(ts[k].second)
    requires ParsePairs(MulsOf(ts)) == Some(ps)
    ensures Run(ts, true, 0) == Some(SumProducts(ps))
  {
    RunMuls(ts, ps, 0);
  }

  /** A lone `mul(x,y)` is one token and one capture. */
  lemma LoneMul(x: string, y: string)
    requires Numeral(x) && Numeral(y)
    ensures Captures(MulText(x, y)) == [(x, y)]
    ensures Tokens(MulText(x, y)) == [Mul(x, y)]
  {
    var s := MulText(x, y);
    assert s + [] == s;
    CapturesAfterMul(x, y, []);
    MulPrefixComplete(s, x, y);
    assert s[|s|..] == [];
  }

  /** The two parts read numbers at different widths: a `mul` whose first number is
      beyond i32 but within u64 makes part one panic, while part two still adds it. */
  lemma WideNumberSplitsParts(n: nat, m: nat)
    requires I32Max < n <= U64Max && m <= I32Max
    ensures PartOne(MulText(Decimal(n), Decimal(m))).None?
    ensures Run(Tokens(MulText(Decimal(n), Decimal(m))), true, 0) == Some(Product(n, m))
  {
    var x, y := Decimal(n), Decimal(m);
    LoneMul(x, y);
    BeyondI32(n);
    ParsePairsCons(x, y, []);
    ParseDecimal(n, U64Max);
    ParseDecimal(m, U64Max);
    assert Step(Mul(x, y), true, 0) == Some((true, Product(n, m)));
    assert [Mul(x, y)][1..] == [];
  }

  /** A numeral beyond i32 does not parse as an i32. */
  lemma BeyondI32(n: nat)
    requires I32Max < n
    ensures ParseSigned(Decimal(n), I32Min, I32Max).None?
  {
    assert Decimal(n)[0] != '-' && Decimal(n)[0] != '+';
  }
}
