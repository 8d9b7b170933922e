/** The pieces of Rust's `str` API that the puzzle parsers use, over `string = seq<char>`:
    `lines`, `split`, `split_once`, `split_whitespace`, `trim` and `parse` for integers.
    Text is '\n'-separated; a '\r' before a '\n' is an ordinary character here.
    The functions carry only the contracts their own definitions need; what they
    guarantee is stated by the lemmas beside them. */
module Text {
  import opened Wrappers

  /** Index of the first `c` in `s`, or `|s|` when `s` has none. */
  function IndexOf(s: string, c: char): (i: nat)
    ensures i <= |s|
  {
    if s == [] then 0
    else if s[0] == c then 0
    else 1 + IndexOf(s[1..], c)
  }

  /** IndexOf finds the first `c`. */
  lemma {:induction false} IndexOfSpec(s: string, c: char)
    ensures var i := IndexOf(s, c); c !in s[..i] && (i < |s| ==> s[i] == c)
  {
    if s != [] && s[0] != c {
      IndexOfSpec(s[1..], c);
      var i := IndexOf(s, c);
      assert s[..i] == [s[0]] + s[1..][..i - 1];
    }
  }

  lemma {:induction false} IndexOfJoined(a: string, c: char, b: string)
    requires c !in a
    ensures IndexOf(a + [c] + b, c) == |a|
  {
    if a != [] {
      assert (a + [c] + b)[1..] == a[1..] + [c] + b;
      IndexOfJoined(a[1..], c, b);
    }
  }

  // ---------------------------------------------------------------------------
  // Lines and separators

  /** The pieces of `s` between occurrences of `c`, as Rust's `str::split(c)`. */
  function Split(s: string, c: char): seq<string>
    decreases |s|
  {
    var i := IndexOf(s, c);
    if i == |s| then [s] else [s[..i]] + Split(s[i + 1..], c)
  }

  /** There is always at least one piece, and no piece contains `c`. */
  lemma {:induction false} SplitSpec(s: string, c: char)
    ensures |Split(s, c)| >= 1
    ensures forall k :: 0 <= k < |Split(s, c)| ==> c !in Split(s, c)[k]
    decreases |s|
  {
    IndexOfSpec(s, c);
    var i := IndexOf(s, c);
    if i < |s| {
      SplitSpec(s[i + 1..], c);
    }
  }

  /** A text ending in the separator splits into at least two pieces, the last one empty. */
  lemma {:induction false} SplitTrailing(s: string, c: char)
    ensures var parts := Split(s + [c], c);
      |parts| >= 2 && parts[|parts| - 1] == []
    decreases |s|
  {
    IndexOfSpec(s + [c], c);
    var i := IndexOf(s + [c], c);
    assert (s + [c])[..|s| + 1] == s + [c] && (s + [c])[|s|] == c;
    if i < |s| {
      assert (s + [c])[i + 1..] == s[i + 1..] + [c];
      SplitTrailing(s[i + 1..], c);
    } else {
      assert (s + [c])[i + 1..] == [];
    }
  }

  /** The pieces joined with `c` between them. */
  function Join(parts: seq<string>, c: char): string
  {
    if parts == [] then []
    else if |parts| == 1 then parts[0]
    else parts[0] + [c] + Join(parts[1..], c)
  }

  /** A character other than the separator that no piece contains is not in the join. */
  lemma {:induction false} JoinAvoids(parts: seq<string>, c: char, d: char)
    requires d != c
    requires forall k :: 0 <= k < |parts| ==> d !in parts[k]
    ensures d !in Join(parts, c)
  {
    if |parts| >= 2 {
      JoinAvoids(parts[1..], c, d);
    }
  }

  /** The lines of `s` as Rust's `str::lines` yields them: `s` is cut at every '\n',
      and a final '\n' does not open an empty last line; the empty text has no lines. */
  function Lines(s: string): seq<string>
    decreases |s|
  {
    if s == [] then []
    else
      var i := IndexOf(s, '\n');
      if i == |s| then [s] else [s[..i]] + Lines(s[i + 1..])
  }

  /** No line contains '\n', and only the empty text has no lines. */
  lemma {:induction false} LinesSpec(s: string)
    ensures forall k :: 0 <= k < |Lines(s)| ==> '\n' !in Lines(s)[k]
    ensures Lines(s) == [] <==> s == []
    decreases |s|
  {
    if s != [] {
      IndexOfSpec(s, '\n');
      var i := IndexOf(s, '\n');
      if i < |s| {
        LinesSpec(s[i + 1..]);
      }
    }
  }

  /** Splitting at `c` undoes joining with `c`. */
  lemma {:induction false} SplitJoin(parts: seq<string>, c: char)
    requires |parts| >= 1
    requires forall k :: 0 <= k < |parts| ==> c !in parts[k]
    ensures Split(Join(parts, c), c) == parts
  {
    if |parts| == 1 {
      IndexOfJoined(parts[0], c, []);
      assert parts[0] + [c] + [] == parts[0] + [c];
      IndexOfSpec(parts[0], c);
    } else {
      var rest := Join(parts[1..], c);
      IndexOfJoined(parts[0], c, rest);
      var s := parts[0] + [c] + rest;
      assert s[..|parts[0]|] == parts[0];
      assert s[|parts[0]| + 1..] == rest;
      SplitJoin(parts[1..], c);
    }
  }

  /** Joining the pieces of a split gives back the text. */
  lemma {:induction false} JoinSplit(s: string, c: char)
    ensures Join(Split(s, c), c) == s
    decreases |s|
  {
    IndexOfSpec(s, c);
    var i := IndexOf(s, c);
    if i < |s| {
      JoinSplit(s[i + 1..], c);
      SplitSpec(s[i + 1..], c);
      assert s == s[..i] + [c] + s[i + 1..];
    }
  }

  lemma JoinCons(parts: seq<string>, c: char)
    requires |parts| >= 2
    ensures Join(parts, c) == parts[0] + [c] + Join(parts[1..], c)
  {
  }

  /** Lines undoes joining with '\n' when the last line is not empty (a final empty
      line would read as a trailing '\n', which `lines` drops). */
  lemma {:induction false} LinesJoin(ls: seq<string>)
    requires forall k :: 0 <= k < |ls| ==> '\n' !in ls[k]
    requires |ls| > 0 ==> ls[|ls| - 1] != []
    ensures Lines(Join(ls, '\n')) == ls
  {
    if |ls| == 1 {
      IndexOfSpec(ls[0], '\n');
    } else if |ls| > 1 {
      var rest := Join(ls[1..], '\n');
      IndexOfJoined(ls[0], '\n', rest);
      var s := ls[0] + ['\n'] + rest;
      assert s[..|ls[0]|] == ls[0];
      assert s[|ls[0]| + 1..] == rest;
      LinesJoin(ls[1..]);
    }
  }

  /** `pat` occurs in `s` starting at position `j`. */
  predicate OccursAt(s: string, pat: string, j: nat)
  {
    j + |pat| <= |s| && s[j..j + |pat|] == pat
  }

  /** First position at or after `from` where `pat` occurs in `s`. */
  function Find(s: string, pat: string, from: nat): (r: Option<nat>)
    requires |pat| > 0
    ensures r.Some? ==> from <= r.value && r.value + |pat| <= |s|
    decreases |s| - from
  {
    if from + |pat| > |s| then None
    else if s[from..from + |pat|] == pat then Some(from)
    else Find(s, pat, from + 1)
  }

  /** Find finds the first occurrence at or after `from`, and fails only when there is none. */
  lemma {:induction false} FindSpec(s: string, pat: string, from: nat)
    requires |pat| > 0
    ensures var r := Find(s, pat, from);
      && (r.Some? ==> OccursAt(s, pat, r.value))
      && (forall j: nat :: from <= j && (r.None? || j < r.value) ==> !OccursAt(s, pat, j))
    decreases |s| - from
  {
    if from + |pat| <= |s| && s[from..from + |pat|] != pat {
      FindSpec(s, pat, from + 1);
    }
  }

  /** Rust's `str::split_once(pat)`: the text before and after the first occurrence
      of `pat`, or None when `pat` does not occur. */
  function SplitOnce(s: string, pat: string): Option<(string, string)>
    requires |pat| > 0
  {
    match Find(s, pat, 0)
    case None => None
    case Some(i) => Some((s[..i], s[i + |pat|..]))
  }

  /** SplitOnce cuts at the first occurrence of `pat`, and fails only when there is none. */
  lemma SplitOnceSpec(s: string, pat: string)
    requires |pat| > 0
    ensures var r := SplitOnce(s, pat);
      && (r.Some? ==> s == r.value.0 + pat + r.value.1)
      && (r.Some? ==> forall j: nat :: j < |r.value.0| ==> !OccursAt(s, pat, j))
      && (r.None? <==> forall j: nat :: !OccursAt(s, pat, j))
  {
    FindSpec(s, pat, 0);
    var r := Find(s, pat, 0);
    if r.Some? {
      var i := r.value;
      assert s == s[..i] + s[i..i + |pat|] + s[i + |pat|..];
    }
  }

  /** When the first character of `pat` does not occur in `a`, the first occurrence
      of `pat` in `a + pat + b` is the one right after `a`. */
  lemma SplitOnceAfter(a: string, pat: string, b: string)
    requires |pat| > 0 && pat[0] !in a
    ensures SplitOnce(a + pat + b, pat) == Some((a, b))
  {
    var s := a + pat + b;
    SplitOnceSpec(s, pat);
    assert OccursAt(s, pat, |a|) by {
      assert s[|a|..|a| + |pat|] == pat;
    }
    var r := SplitOnce(s, pat);
    var i := |r.value.0|;
    assert OccursAt(s, pat, i) by {
      assert s[i..i + |pat|] == pat;
    }
    assert r.value.0 == s[..i] == a;
    assert r.value.1 == s[i + |pat|..] == b;
  }

  // ---------------------------------------------------------------------------
  // Whitespace

  /** Unicode's White_Space property, which Rust's `char::is_whitespace` tests. */
  predicate IsWhitespace(c: char)
  {
    ('\t' <= c <= '\r') || c == ' ' || c == '\U{85}' || c == '\U{A0}' || c == '\U{1680}'
    || ('\U{2000}' <= c <= '\U{200A}') || c == '\U{2028}' || c == '\U{2029}'
    || c == '\U{202F}' || c == '\U{205F}' || c == '\U{3000}'
  }

  predicate NoWhitespace(s: string)
  {
    forall k :: 0 <= k < |s| ==> !IsWhitespace(s[k])
  }

  /** `s` without its leading whitespace. */
  function TrimStart(s: string): (r: string)
    ensures |r| <= |s|
  {
    if s != [] && IsWhitespace(s[0]) then TrimStart(s[1..]) else s
  }

  /** TrimStart removes exactly the leading run of whitespace. */
  lemma {:induction false} TrimStartSpec(s: string)
    ensures var r := TrimStart(s);
      && r == s[|s| - |r|..]
      && (r == [] || !IsWhitespace(r[0]))
      && (forall k :: 0 <= k < |s| - |r| ==> IsWhitespace(s[k]))
  {
    if s != [] && IsWhitespace(s[0]) {
      TrimStartSpec(s[1..]);
    }
  }

  /** `s` without its trailing whitespace. */
  function TrimEnd(s: string): (r: string)
    ensures |r| <= |s|
  {
    if s != [] && IsWhitespace(s[|s| - 1]) then TrimEnd(s[..|s| - 1]) else s
  }

  /** TrimEnd removes exactly the trailing run of whitespace. */
  lemma {:induction false} TrimEndSpec(s: string)
    ensures var r := TrimEnd(s);
      && r == s[..|r|]
      && (r == [] || !IsWhitespace(r[|r| - 1]))
      && (forall k :: |r| <= k < |s| ==> IsWhitespace(s[k]))
  {
    if s != [] && IsWhitespace(s[|s| - 1]) {
      TrimEndSpec(s[..|s| - 1]);
    }
  }

  /** Rust's `str::trim`. */
  function Trim(s: string): string
  {
    TrimEnd(TrimStart(s))
  }

  /** Text with no whitespace is its own trim. */
  lemma TrimNoWhitespace(s: string)
    requires NoWhitespace(s)
    ensures Trim(s) == s
  {
    assert TrimStart(s) == s;
    assert TrimEnd(s) == s;
  }

  /** Length of the run of non-whitespace characters at the start of `s`. */
  function WordLength(s: string): (n: nat)
    ensures n <= |s|
  {
    if s == [] || IsWhitespace(s[0]) then 0 else 1 + WordLength(s[1..])
  }

  /** WordLength measures the maximal leading run of non-whitespace. */
  lemma {:induction false} WordLengthSpec(s: string)
    ensures var n := WordLength(s);
      && (forall k :: 0 <= k < n ==> !IsWhitespace(s[k]))
      && (n < |s| ==> IsWhitespace(s[n]))
  {
    if s != [] && !IsWhitespace(s[0]) {
      WordLengthSpec(s[1..]);
    }
  }

  /** Rust's `str::split_whitespace`: the maximal non-empty runs of non-whitespace. */
  function SplitWhitespace(s: string): seq<string>
    decreases |s|
  {
    var t := TrimStart(s);
    if t == [] then []
    else
      var n := WordLength(t);
      TrimStartSpec(s);
      [t[..n]] + SplitWhitespace(t[n..])
  }

  /** Every word is non-empty and free of whitespace. */
  lemma {:induction false} SplitWhitespaceSpec(s: string)
    ensures forall k :: 0 <= k < |SplitWhitespace(s)| ==> SplitWhitespace(s)[k] != []
    ensures forall k :: 0 <= k < |SplitWhitespace(s)| ==> NoWhitespace(SplitWhitespace(s)[k])
    decreases |s|
  {
    var t := TrimStart(s);
    TrimStartSpec(s);
    if t != [] {
      WordLengthSpec(t);
      SplitWhitespaceSpec(t[WordLength(t)..]);
    }
  }

  predicate AllWhitespace(s: string)
  {
    forall k :: 0 <= k < |s| ==> IsWhitespace(s[k])
  }

  /** Whitespace in front of a text is trimmed away with the text's own. */
  lemma {:induction false} TrimStartAfterWhitespace(g: string, s: string)
    requires AllWhitespace(g)
    ensures TrimStart(g + s) == TrimStart(s)
  {
    if g != [] {
      assert (g + s)[0] == g[0];
      assert (g + s)[1..] == g[1..] + s;
      TrimStartAfterWhitespace(g[1..], s);
    } else {
      assert g + s == s;
    }
  }

  /** Trimming the front of `s + g` keeps `g` when `s` is not all whitespace. */
  lemma {:induction false} TrimStartBeforeTail(s: string, g: string)
    requires TrimStart(s) != []
    ensures TrimStart(s + g) == TrimStart(s) + g
  {
    assert s != [];
    assert (s + g)[0] == s[0];
    if IsWhitespace(s[0]) {
      assert (s + g)[1..] == s[1..] + g;
      TrimStartBeforeTail(s[1..], g);
    }
  }

  /** A whitespace-only text trims to nothing. */
  lemma {:induction false} TrimStartWhitespace(s: string)
    requires AllWhitespace(s)
    ensures TrimStart(s) == []
  {
    if s != [] {
      TrimStartWhitespace(s[1..]);
    }
  }

  /** A word followed by nothing or by whitespace has the word's length. */
  lemma {:induction false} WordLengthOfWord(w: string, rest: string)
    requires NoWhitespace(w)
    requires rest == [] || IsWhitespace(rest[0])
    ensures WordLength(w + rest) == |w|
  {
    if w != [] {
      assert (w + rest)[0] == w[0];
      assert (w + rest)[1..] == w[1..] + rest;
      WordLengthOfWord(w[1..], rest);
    } else {
      assert w + rest == rest;
    }
  }

  /** Whitespace after a text does not lengthen its first word. */
  lemma {:induction false} WordLengthBeforeWhitespace(t: string, g: string)
    requires AllWhitespace(g)
    ensures WordLength(t + g) == WordLength(t)
  {
    if t == [] {
      assert t + g == g;
    } else {
      assert (t + g)[0] == t[0];
      if !IsWhitespace(t[0]) {
        assert (t + g)[1..] == t[1..] + g;
        WordLengthBeforeWhitespace(t[1..], g);
      }
    }
  }

  /** Leading whitespace does not change the words. */
  lemma SplitWhitespaceLeading(g: string, s: string)
    requires AllWhitespace(g)
    ensures SplitWhitespace(g + s) == SplitWhitespace(s)
  {
    TrimStartAfterWhitespace(g, s);
  }

  /** Trailing whitespace does not change the words. */
  lemma {:induction false} SplitWhitespaceTrailing(s: string, g: string)
    requires AllWhitespace(g)
    ensures SplitWhitespace(s + g) == SplitWhitespace(s)
    decreases |s|
  {
    var t := TrimStart(s);
    TrimStartSpec(s);
    if t == [] {
      assert AllWhitespace(s + g);
      TrimStartWhitespace(s + g);
    } else {
      TrimStartBeforeTail(s, g);
      var n := WordLength(t);
      WordLengthBeforeWhitespace(t, g);
      assert (t + g)[..n] == t[..n];
      assert (t + g)[n..] == t[n..] + g;
      SplitWhitespaceTrailing(t[n..], g);
    }
  }

  /** A word followed by nothing or by whitespace is the first word. */
  lemma SplitWhitespaceWord(w: string, rest: string)
    requires w != [] && NoWhitespace(w)
    requires rest == [] || IsWhitespace(rest[0])
    ensures SplitWhitespace(w + rest) == [w] + SplitWhitespace(rest)
  {
    assert (w + rest)[0] == w[0];
    assert TrimStart(w + rest) == w + rest;
    WordLengthOfWord(w, rest);
    assert (w + rest)[..|w|] == w;
    assert (w + rest)[|w|..] == rest;
  }

  /** Words joined by a whitespace character split back into those words: the words
      are the maximal runs of non-whitespace, in order. */
  lemma {:induction false} SplitWhitespaceJoin(ws: seq<string>, c: char)
    requires IsWhitespace(c)
    requires forall k :: 0 <= k < |ws| ==> ws[k] != [] && NoWhitespace(ws[k])
    ensures SplitWhitespace(Join(ws, c)) == ws
  {
    if |ws| == 1 {
      assert ws[0] + [] == ws[0];
      SplitWhitespaceWord(ws[0], []);
    } else if |ws| > 1 {
      var rest := [c] + Join(ws[1..], c);
      assert Join(ws, c) == ws[0] + rest;
      SplitWhitespaceWord(ws[0], rest);
      assert AllWhitespace([c]);
      SplitWhitespaceLeading([c], Join(ws[1..], c));
      SplitWhitespaceJoin(ws[1..], c);
      assert ws == [ws[0]] + ws[1..];
    }
  }

  // ---------------------------------------------------------------------------
  // Decimal integers

  predicate IsDigit(c: char)
  {
    '0' <= c <= '9'
  }

  predicate AllDigits(s: string)
  {
    forall k :: 0 <= k < |s| ==> IsDigit(s[k])
  }

  /** The value of a string of decimal digits (0 for the empty string). */
  function DigitsValue(s: string): nat
    requires AllDigits(s)
  {
    if s == [] then 0 else 10 * DigitsValue(s[..|s| - 1]) + (s[|s| - 1] as int - '0' as int)
  }

  /** Rust's `parse` for an unsigned integer type whose largest value is `max`: an
      optional '+', then one or more ASCII digits, with a value of at most `max`. */
  function ParseUnsigned(s: string, max: nat): Option<nat>
  {
    var d := if s != [] && s[0] == '+' then s[1..] else s;
    if d != [] && AllDigits(d) && DigitsValue(d) <= max then Some(DigitsValue(d)) else None
  }

  /** What ParseUnsigned accepts: at most `max`, and never the empty text, a lone
      sign, or text with anything but digits after an optional leading '+'. */
  lemma ParseUnsignedSpec(s: string, max: nat)
    ensures var r := ParseUnsigned(s, max);
      && (r.Some? ==> r.value <= max)
      && (s == [] || s == "+" ==> r.None?)
      && (r.Some? ==> forall k :: 0 < k < |s| ==> IsDigit(s[k]))
      && (r.Some? ==> IsDigit(s[0]) || s[0] == '+')
  {
    var d := if s != [] && s[0] == '+' then s[1..] else s;
    if ParseUnsigned(s, max).Some? && s[0] == '+' {
      assert forall k :: 0 < k < |s| ==> s[k] == d[k - 1];
    }
  }

  /** Rust's `parse` for a signed integer type with range `min..=max`: an optional
      '+' or '-', then one or more ASCII digits, with a value in that range. */
  function ParseSigned(s: string, min: int, max: nat): Option<int>
    requires min <= 0
  {
    if s != [] && s[0] == '-' then
      var d := s[1..];
      if d != [] && AllDigits(d) && min <= 0 - DigitsValue(d) then Some(0 - DigitsValue(d)) else None
    else
      match ParseUnsigned(s, max)
      case None => None
      case Some(v) => Some(v)
  }

  /** What ParseSigned accepts: a value in `min..=max`, and never the empty text, a lone
      sign, or text with anything but digits after an optional leading '+' or '-'. */
  lemma ParseSignedSpec(s: string, min: int, max: nat)
    requires min <= 0
    ensures var r := ParseSigned(s, min, max);
      && (r.Some? ==> min <= r.value <= max)
      && (s == [] || s == "+" || s == "-" ==> r.None?)
      && (r.Some? ==> forall k :: 0 < k < |s| ==> IsDigit(s[k]))
      && (r.Some? ==> IsDigit(s[0]) || s[0] == '+' || s[0] == '-')
  {
    ParseUnsignedSpec(s, max);
    if ParseSigned(s, min, max).Some? && s[0] == '-' {
      assert forall k :: 0 < k < |s| ==> s[k] == s[1..][k - 1];
    }
  }

  function DigitChar(d: nat): (c: char)
    requires d < 10
    ensures IsDigit(c) && c as int - '0' as int == d
  {
    ('0' as int + d) as char
  }

  /** The decimal numeral of `n`, without sign or leading zeros. */
  function Decimal(n: nat): (r: string)
    ensures r != [] && AllDigits(r) && DigitsValue(r) == n
    ensures |r| > 1 ==> r[0] != '0'
  {
    if n < 10 then [DigitChar(n)]
    else
      var r := Decimal(n / 10) + [DigitChar(n % 10)];
      assert r[..|r| - 1] == Decimal(n / 10);
      r
  }

  /** Parsing a numeral gives back the number. */
  lemma ParseDecimal(n: nat, max: nat)
    requires n <= max
    ensures ParseUnsigned(Decimal(n), max) == Some(n)
  {
    assert Decimal(n)[0] != '+';
  }

  /** The decimal numeral of `v`, with a '-' in front when `v` is negative. */
  function SignedDecimal(v: int): (r: string)
    ensures r != [] && forall k :: 0 <= k < |r| ==> IsDigit(r[k]) || (k == 0 && r[k] == '-')
  {
    if v < 0 then "-" + Decimal(-v) else Decimal(v)
  }

  /** Parsing a signed numeral gives back the number. */
  lemma ParseSignedDecimal(v: int, min: int, max: nat)
    requires min <= 0 && min <= v <= max
    ensures ParseSigned(SignedDecimal(v), min, max) == Some(v)
  {
    if v < 0 {
      assert SignedDecimal(v)[1..] == Decimal(-v);
    } else {
      ParseDecimal(v, max);
    }
  }
}
