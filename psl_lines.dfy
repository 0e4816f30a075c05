/**
  The line handling the two converters share when they read a Public Suffix
  List or a root zone file: Python's `rstrip()` and `split()`, the removal of
  `//` comments, the `BEGIN PRIVATE` marker, and the set of names a run of
  lines lists. A line is given without its line terminator.
 */
module PslLines {
  import opened Wrappers
  import opened Names

  /**
    The characters Python 2.7's `unicode.isspace()` accepts (Unicode 5.2,
    where U+180E is still a space separator), which `rstrip()` and `split()`
    remove.
   */
  predicate IsWhitespace(c: char) {
    || c == ' ' || ('\t' <= c <= '\r') || ('\U{1c}' <= c <= '\U{1f}')
    || c == '\U{85}' || c == '\U{a0}' || c == '\U{1680}' || c == '\U{180e}' || ('\U{2000}' <= c <= '\U{200a}')
    || c == '\U{2028}' || c == '\U{2029}' || c == '\U{202f}' || c == '\U{205f}' || c == '\U{3000}'
  }

  /** Python `s.rstrip()`. */
  function RStrip(s: string): (r: string)
    ensures |r| <= |s| && r == s[..|r|]
    ensures r == [] || !IsWhitespace(r[|r| - 1])
    ensures forall j :: |r| <= j < |s| ==> IsWhitespace(s[j])
  {
    if s == [] || !IsWhitespace(s[|s| - 1]) then s else RStrip(s[..|s| - 1])
  }

  /** Length of the leading run of characters that are not whitespace. */
  function WordLength(s: string): (n: nat)
    ensures n <= |s|
    ensures forall j :: 0 <= j < n ==> !IsWhitespace(s[j])
    ensures n == |s| || IsWhitespace(s[n])
  {
    if s == [] || IsWhitespace(s[0]) then 0 else 1 + WordLength(s[1..])
  }

  /** Python `s.split()`: the maximal runs of non-whitespace characters, in order. */
  function Split(s: string): (cols: seq<string>)
    ensures forall k :: 0 <= k < |cols| ==> |cols[k]| > 0
    decreases |s|
  {
    if s == [] then []
    else if IsWhitespace(s[0]) then Split(s[1..])
    else
      var n := WordLength(s);
      [s[..n]] + Split(s[n..])
  }

  /** A non-empty text without whitespace. */
  predicate IsColumn(w: string) {
    |w| > 0 && forall j :: 0 <= j < |w| ==> !IsWhitespace(w[j])
  }

  /** A column followed by whitespace or nothing is the first column. */
  lemma {:induction false} SplitColumn(w: string, rest: string)
    requires IsColumn(w)
    requires rest == [] || IsWhitespace(rest[0])
    ensures Split(w + rest) == [w] + Split(rest)
  {
    WordLengthOfColumn(w, rest);
    assert (w + rest)[..|w|] == w && (w + rest)[|w|..] == rest;
  }

  lemma {:induction false} WordLengthOfColumn(w: string, rest: string)
    requires forall j :: 0 <= j < |w| ==> !IsWhitespace(w[j])
    requires rest == [] || IsWhitespace(rest[0])
    ensures WordLength(w + rest) == |w|
  {
    if w != [] {
      WordLengthOfColumn(w[1..], rest);
      assert (w + rest)[1..] == w[1..] + rest;
    }
  }

  /** A column, one whitespace character, and more text. */
  lemma SplitColumnThen(w: string, c: char, rest: string)
    requires IsColumn(w) && IsWhitespace(c)
    ensures Split(w + [c] + rest) == [w] + Split(rest)
  {
    SplitColumn(w, [c] + rest);
    assert w + [c] + rest == w + ([c] + rest);
    assert ([c] + rest)[1..] == rest;
  }

  /** Leading whitespace adds no column. */
  lemma SplitAfter(c: char, s: string)
    requires IsWhitespace(c)
    ensures Split([c] + s) == Split(s)
  {
    assert ([c] + s)[1..] == s;
  }

  /** Trailing whitespace adds no column. */
  lemma {:induction false} SplitTrailing(a: string, b: string)
    requires forall j :: 0 <= j < |b| ==> IsWhitespace(b[j])
    ensures Split(a + b) == Split(a)
    decreases |a|, 1
  {
    if a == [] {
      SplitSpace(b);
      assert [] + b == b;
    } else if IsWhitespace(a[0]) {
      SplitTrailingSpace(a, b);
    } else {
      SplitTrailingWord(a, b);
    }
  }

  /** Whitespace alone has no column. */
  lemma {:induction false} SplitSpace(b: string)
    requires forall j :: 0 <= j < |b| ==> IsWhitespace(b[j])
    ensures Split(b) == []
  {
    if b != [] {
      SplitSpace(b[1..]);
    }
  }

  /** The case of `SplitTrailing` where `a` starts with whitespace. */
  lemma {:induction false} SplitTrailingSpace(a: string, b: string)
    requires a != [] && IsWhitespace(a[0])
    requires forall j :: 0 <= j < |b| ==> IsWhitespace(b[j])
    ensures Split(a + b) == Split(a)
    decreases |a|, 0
  {
    assert (a + b)[0] == a[0];
    assert (a + b)[1..] == a[1..] + b;
    SplitTrailing(a[1..], b);
  }

  /** The case of `SplitTrailing` where `a` starts with a column. */
  lemma {:induction false} SplitTrailingWord(a: string, b: string)
    requires a != [] && !IsWhitespace(a[0])
    requires forall j :: 0 <= j < |b| ==> IsWhitespace(b[j])
    ensures Split(a + b) == Split(a)
    decreases |a|, 0
  {
    var n := WordLength(a);
    WordLengthOfColumn(a[..n], a[n..] + b);
    assert a[..n] + (a[n..] + b) == a + b;
    WordLengthOfColumn(a[..n], a[n..]);
    assert a[..n] + a[n..] == a;
    assert (a + b)[..n] == a[..n] && (a + b)[n..] == a[n..] + b;
    SplitTrailing(a[n..], b);
  }

  /** `s.rstrip().split()` is `s.split()`. */
  lemma SplitRStrip(s: string)
    ensures Split(RStrip(s)) == Split(s)
  {
    var r := RStrip(s);
    SplitTrailing(r, s[|r|..]);
    assert r + s[|r|..] == s;
  }

  /** `pattern` occurs in `s` at index `k`. */
  predicate OccursAt(s: string, pattern: string, k: nat) {
    k + |pattern| <= |s| && s[k..k + |pattern|] == pattern
  }

  /** `re.search(pattern, s) is not None` for a pattern made of literal characters. */
  predicate Contains(s: string, pattern: string)
    decreases |s|
  {
    OccursAt(s, pattern, 0) || (s != [] && Contains(s[1..], pattern))
  }

  /** `Contains` finds exactly the occurrences of the pattern. */
  lemma {:induction false} ContainsIsOccurrence(s: string, pattern: string)
    ensures Contains(s, pattern) <==> exists k :: 0 <= k <= |s| && OccursAt(s, pattern, k)
    decreases |s|
  {
    if s != [] {
      ContainsIsOccurrence(s[1..], pattern);
      if exists k :: 0 <= k <= |s[1..]| && OccursAt(s[1..], pattern, k) {
        var k :| 0 <= k <= |s[1..]| && OccursAt(s[1..], pattern, k);
        assert s[1..][k..k + |pattern|] == s[k + 1..k + 1 + |pattern|];
        assert OccursAt(s, pattern, k + 1);
      }
      if exists k :: 0 <= k <= |s| && OccursAt(s, pattern, k) {
        var k :| 0 <= k <= |s| && OccursAt(s, pattern, k);
        if k > 0 {
          assert s[1..][k - 1..k - 1 + |pattern|] == s[k..k + |pattern|];
          assert OccursAt(s[1..], pattern, k - 1);
        }
      }
    }
  }

  /** A `//` starts at index `j`. */
  predicate CommentAt(s: string, j: nat) {
    j + 1 < |s| && s[j] == '/' && s[j + 1] == '/'
  }

  /**
    `re.sub(r'//.*', '', s)` on a line: everything from the first `//` on is
    dropped (the line holds no newline for `.` to stop at).
   */
  function StripComment(s: string): (r: string)
    ensures |r| <= |s| && r == s[..|r|]
    ensures |r| == |s| || CommentAt(s, |r|)
    ensures forall j :: 0 <= j < |r| ==> !CommentAt(s, j)
  {
    if |s| < 2 then s
    else if s[0] == '/' && s[1] == '/' then []
    else
      var rest := StripComment(s[1..]);
      assert forall j :: 1 <= j < |s| ==> (CommentAt(s, j) <==> CommentAt(s[1..], j - 1));
      [s[0]] + rest
  }

  /** A line once its trailing whitespace and then its comment are removed. */
  function Cleaned(line: string): string {
    StripComment(RStrip(line))
  }

  const PrivateMarker := "BEGIN" + " " + "PRIVATE"

  /** The line opens the private section of the list: it holds `BEGIN PRIVATE`. */
  predicate MarksPrivate(line: string) {
    Contains(line, PrivateMarker)
  }

  /** The index of the first line holding `BEGIN PRIVATE`, or the number of lines when none does. */
  function PrivateStart(lines: seq<string>): (k: nat)
    ensures k <= |lines|
    ensures k < |lines| ==> MarksPrivate(lines[k])
    ensures forall j {:trigger MarksPrivate(lines[j])} :: 0 <= j < k ==> !MarksPrivate(lines[j])
  {
    if lines == [] then 0
    else if MarksPrivate(lines[0]) then 0
    else
      var k := PrivateStart(lines[1..]);
      assert forall j :: 1 <= j < |lines| ==> lines[j] == lines[1..][j - 1];
      1 + k
  }

  /** The name a line lists: none when cleaning leaves it empty, else `dns.name.from_text` of what is left. */
  function Listed(line: string): Option<Name> {
    var text := Cleaned(line);
    if text == [] then None else Some(FromText(text))
  }

  /** One line of a list read as `import_names` and `import_new_tlds` read it: strip it, drop its comment, and read a name from what is left. */
  method ReadListed(line: string) returns (found: Option<Name>)
    ensures found == Listed(line)
  {
    var text := RStrip(line);
    text := StripComment(text);
    if text == [] {
      return None;
    }
    found := Some(FromText(text));
  }

  /** A set with the name found added, if one was found. */
  function Added(names: set<Name>, found: Option<Name>): set<Name> {
    if found.Some? then names + {found.value} else names
  }

  /** The set `names` once what `pick` finds in each of the lines, in order, is added. */
  function Gathered(names: set<Name>, lines: seq<string>, pick: string -> Option<Name>): set<Name> {
    if lines == [] then names
    else Added(Gathered(names, lines[..|lines| - 1], pick), pick(lines[|lines| - 1]))
  }

  /** A name is gathered exactly when it was there already or some line yields it. */
  lemma {:induction false} GatheredIs(names: set<Name>, lines: seq<string>, pick: string -> Option<Name>, n: Name)
    ensures n in Gathered(names, lines, pick) <==> n in names || exists k :: 0 <= k < |lines| && pick(lines[k]) == Some(n)
  {
    if lines != [] {
      var init := lines[..|lines| - 1];
      GatheredIs(names, init, pick, n);
      if exists k :: 0 <= k < |init| && pick(init[k]) == Some(n) {
        var k :| 0 <= k < |init| && pick(init[k]) == Some(n);
        assert lines[k] == init[k];
      }
      if exists k :: 0 <= k < |lines| && pick(lines[k]) == Some(n) {
        var k :| 0 <= k < |lines| && pick(lines[k]) == Some(n);
        if k < |init| {
          assert init[k] == lines[k];
        }
      }
    }
  }

  /** The names gathered from the lines that start at index `p`. */
  lemma GatheredFromIs(names: set<Name>, lines: seq<string>, p: nat, pick: string -> Option<Name>, n: Name)
    requires p <= |lines|
    ensures n in Gathered(names, lines[p..], pick) <==> n in names || exists k :: p <= k < |lines| && pick(lines[k]) == Some(n)
  {
    var after := lines[p..];
    GatheredIs(names, after, pick, n);
    if exists k :: 0 <= k < |after| && pick(after[k]) == Some(n) {
      var k :| 0 <= k < |after| && pick(after[k]) == Some(n);
      assert lines[p + k] == after[k];
    }
    if exists k :: p <= k < |lines| && pick(lines[k]) == Some(n) {
      var k :| p <= k < |lines| && pick(lines[k]) == Some(n);
      assert after[k - p] == lines[k];
    }
  }

  /** The names gathered from the lines before index `p`. */
  lemma GatheredBeforeIs(names: set<Name>, lines: seq<string>, p: nat, pick: string -> Option<Name>, n: Name)
    requires p <= |lines|
    ensures n in Gathered(names, lines[..p], pick) <==> n in names || exists k :: 0 <= k < p && pick(lines[k]) == Some(n)
  {
    var before := lines[..p];
    GatheredIs(names, before, pick, n);
    assert forall k :: 0 <= k < p ==> before[k] == lines[k];
  }

  /** One more line adds what it yields. */
  lemma GatheredStep(names: set<Name>, lines: seq<string>, i: nat, pick: string -> Option<Name>)
    requires i < |lines|
    ensures Gathered(names, lines[..i + 1], pick) == Added(Gathered(names, lines[..i], pick), pick(lines[i]))
  {
    assert lines[..i + 1][..i] == lines[..i];
  }

  /** One line of a list section read into the set gathered so far from the lines `lo` up to `i`. */
  method GatherLine(names: set<Name>, ghost base: set<Name>, lines: seq<string>, ghost lo: nat, i: nat) returns (more: set<Name>)
    requires lo <= i < |lines|
    requires names == GatheredRange(base, lines, lo, i, Listed)
    ensures more == GatheredRange(base, lines, lo, i + 1, Listed)
  {
    var found := ReadListed(lines[i]);
    more := Added(names, found);
  }

  /** `Gathered` over the lines from index `lo` up to, not including, index `hi`, counted without slicing. */
  ghost function GatheredRange(names: set<Name>, lines: seq<string>, lo: nat, hi: nat, pick: string -> Option<Name>): set<Name>
    requires lo <= hi <= |lines|
    decreases hi
  {
    if hi == lo then names
    else Added(GatheredRange(names, lines, lo, hi - 1, pick), pick(lines[hi - 1]))
  }

  /** Both ways of gathering a run of lines agree. */
  lemma {:induction false} GatheredRangeIs(names: set<Name>, lines: seq<string>, lo: nat, hi: nat, pick: string -> Option<Name>)
    requires lo <= hi <= |lines|
    ensures GatheredRange(names, lines, lo, hi, pick) == Gathered(names, lines[lo..hi], pick)
    decreases hi
  {
    if hi > lo {
      GatheredRangeIs(names, lines, lo, hi - 1, pick);
      assert lines[lo..hi][..hi - 1 - lo] == lines[lo..hi - 1];
    }
  }

  /** The lines before index `p` and the lines from `p` on, gathered either way. */
  lemma GatheredParts(before: set<Name>, after: set<Name>, lines: seq<string>, p: nat, pick: string -> Option<Name>)
    requires p <= |lines|
    ensures Gathered(before, lines[..p], pick) == GatheredRange(before, lines, 0, p, pick)
    ensures Gathered(after, lines[p..], pick) == GatheredRange(after, lines, p, |lines|, pick)
  {
    GatheredRangeIs(before, lines, 0, p, pick);
    GatheredRangeIs(after, lines, p, |lines|, pick);
    assert lines[0..p] == lines[..p] && lines[p..|lines|] == lines[p..];
  }
}
