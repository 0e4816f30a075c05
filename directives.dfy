/**
  The ODUP policy text grammar. A policy is a TXT string that starts with the
  version tag `v=odup1`; its directives are whitespace-delimited tokens found
  anywhere in the text: `+org[:value]`, `+bound[:N]`, `-all[:value]` and
  `+fetch:<uri>`. Each regular expression of the implementation anchors its
  directive between the start of the text or a whitespace character and a
  whitespace character or the end of the text, so a match is exactly a whole
  token of the text; the predicates here are stated on tokens.
 */
module Directives {
  import opened Wrappers

  /** The characters of the `\s` class: space, tab, newline, vertical tab, form feed, carriage return. */
  predicate IsSpace(c: char) {
    c == ' ' || ('\t' <= c <= '\r')
  }

  predicate IsDigit(c: char) {
    '0' <= c <= '9'
  }

  predicate AllDigits(s: string) {
    forall j :: 0 <= j < |s| ==> IsDigit(s[j])
  }

  /** Length of the leading run of non-whitespace characters. */
  function RunLength(s: string): (n: nat)
    ensures n <= |s|
  {
    if s == [] || IsSpace(s[0]) then 0 else 1 + RunLength(s[1..])
  }

  /** The run holds no whitespace and ends at whitespace or at the end of `s`. */
  lemma {:induction false} RunLengthIsRun(s: string)
    ensures forall j :: 0 <= j < RunLength(s) ==> !IsSpace(s[j])
    ensures RunLength(s) == |s| || IsSpace(s[RunLength(s)])
  {
    if s != [] && !IsSpace(s[0]) {
      RunLengthIsRun(s[1..]);
      assert forall j :: 1 <= j < RunLength(s) ==> s[j] == s[1..][j - 1];
    }
  }

  /** Python `s.split()`: the maximal runs of non-whitespace characters, in order. */
  function Tokens(s: string): seq<string>
    decreases |s|
  {
    if s == [] then []
    else if IsSpace(s[0]) then Tokens(s[1..])
    else
      var n := RunLength(s);
      [s[..n]] + Tokens(s[n..])
  }

  /** The tokens are non-empty and hold no whitespace. */
  lemma {:induction false} TokensAreWords(s: string)
    ensures forall k :: 0 <= k < |Tokens(s)| ==> |Tokens(s)[k]| > 0
    ensures forall k, j :: 0 <= k < |Tokens(s)| && 0 <= j < |Tokens(s)[k]| ==> !IsSpace(Tokens(s)[k][j])
    decreases |s|
  {
    if s == [] {
    } else if IsSpace(s[0]) {
      TokensAreWords(s[1..]);
    } else {
      var n := RunLength(s);
      RunLengthIsRun(s);
      TokensAreWords(s[n..]);
      assert Tokens(s) == [s[..n]] + Tokens(s[n..]);
    }
  }

  /** A word made of no whitespace, followed by whitespace or nothing, is the first token. */
  lemma {:induction false} TokensOfWord(w: string, rest: string)
    requires |w| > 0 && forall j :: 0 <= j < |w| ==> !IsSpace(w[j])
    requires rest == [] || IsSpace(rest[0])
    ensures Tokens(w + rest) == [w] + Tokens(rest)
  {
    RunLengthOfWord(w, rest);
    assert (w + rest)[..|w|] == w && (w + rest)[|w|..] == rest;
  }

  lemma {:induction false} RunLengthOfWord(w: string, rest: string)
    requires forall j :: 0 <= j < |w| ==> !IsSpace(w[j])
    requires rest == [] || IsSpace(rest[0])
    ensures RunLength(w + rest) == |w|
  {
    if w != [] {
      RunLengthOfWord(w[1..], rest);
      assert (w + rest)[1..] == w[1..] + rest;
    }
  }

  /** A non-empty text without whitespace. */
  predicate IsWord(w: string) {
    |w| > 0 && forall j :: 0 <= j < |w| ==> !IsSpace(w[j])
  }

  /** Two words separated by one space are two tokens. */
  lemma TwoWords(a: string, b: string)
    requires IsWord(a) && IsWord(b)
    ensures Tokens(a + " " + b) == [a, b]
  {
    TokensOfWord(b, []);
    TokensAfterSpace(' ', b);
    TokensOfWord(a, " " + b);
    assert a + " " + b == a + (" " + b);
    assert " " + b == [' '] + b;
    assert b + [] == b;
  }

  /** A word followed by one space and more words adds itself in front of their tokens. */
  lemma WordThen(a: string, rest: string)
    requires IsWord(a)
    ensures Tokens(a + " " + rest) == [a] + Tokens(rest)
  {
    TokensAfterSpace(' ', rest);
    TokensOfWord(a, " " + rest);
    assert a + " " + rest == a + (" " + rest);
    assert " " + rest == [' '] + rest;
  }

  /** A token that differs from `d` at an index both have is not the directive `d`. */
  lemma DiffersFrom(t: string, d: string, i: nat)
    requires i < |t| && i < |d| && t[i] != d[i]
    ensures !IsDirective(t, d)
  {
    assert (d + ":")[i] == d[i];
    assert |d| + 1 <= |t| ==> t[..|d| + 1][i] == t[i];
  }

  /** Leading whitespace is not part of any token. */
  lemma TokensAfterSpace(c: char, s: string)
    requires IsSpace(c)
    ensures Tokens([c] + s) == Tokens(s)
  {
    assert ([c] + s)[1..] == s;
  }

  function StartsWith(s: string, prefix: string): bool {
    |prefix| <= |s| && s[..|prefix|] == prefix
  }

  /** The version tag every ODUP policy starts with. */
  const Version := "v=odup1"

  /** `^v=odup1(\s|$)`: the literal prefix `v=odup1`, then whitespace or the end. */
  predicate IsOdupV1(text: string) {
    StartsWith(text, Version) && (|text| == 7 || IsSpace(text[7]))
  }

  /** A token `+org` or `+org:` followed by at least one character. */
  predicate IsOrgToken(t: string) {
    IsDirective(t, "+org")
  }

  /** A token `-all` or `-all:` followed by at least one character. */
  predicate IsNegAllToken(t: string) {
    IsDirective(t, "-all")
  }

  /** `(^|\s)\+org(:\S+)?(\s|$)` finds a match. */
  predicate HasOrg(text: string) {
    AnyToken(Tokens(text), "+org")
  }

  /** `(^|\s)-all(:\S+)?(\s|$)` finds a match. */
  predicate HasNegAll(text: string) {
    AnyToken(Tokens(text), "-all")
  }

  /** A token `d` or `d:` followed by at least one character. */
  predicate IsDirective(t: string, d: string) {
    t == d || (|t| > |d| + 1 && StartsWith(t, d + ":"))
  }

  /** Some token is the directive `d`, with or without a value. */
  predicate AnyToken(ts: seq<string>, d: string) {
    ts != [] && (IsDirective(ts[0], d) || AnyToken(ts[1..], d))
  }

  lemma {:induction false} AnyTokenIsSome(ts: seq<string>, d: string)
    ensures AnyToken(ts, d) <==> exists k :: 0 <= k < |ts| && IsDirective(ts[k], d)
  {
    if ts != [] {
      AnyTokenIsSome(ts[1..], d);
      if AnyToken(ts[1..], d) {
        var k :| 0 <= k < |ts[1..]| && IsDirective(ts[1..][k], d);
        assert IsDirective(ts[k + 1], d);
      }
      if exists k :: 0 <= k < |ts| && IsDirective(ts[k], d) {
        var k :| 0 <= k < |ts| && IsDirective(ts[k], d);
        if k > 0 {
          assert IsDirective(ts[1..][k - 1], d);
        }
      }
    }
  }

  lemma AnyTokenCons(t: string, rest: seq<string>, d: string)
    ensures AnyToken([t] + rest, d) <==> IsDirective(t, d) || AnyToken(rest, d)
  {
    assert ([t] + rest)[1..] == rest;
  }

  /** `+org` is matched exactly when some whole token is `+org` or `+org:` with a value. */
  lemma HasOrgIsToken(text: string)
    ensures HasOrg(text) <==> exists t :: t in Tokens(text) && IsOrgToken(t)
  {
    var ts := Tokens(text);
    AnyTokenIsSome(ts, "+org");
    if HasOrg(text) {
      var k :| 0 <= k < |ts| && IsDirective(ts[k], "+org");
      assert ts[k] in ts && IsOrgToken(ts[k]);
    }
    if exists t :: t in ts && IsOrgToken(t) {
      var t :| t in ts && IsOrgToken(t);
      var k :| 0 <= k < |ts| && ts[k] == t;
      assert IsDirective(ts[k], "+org");
    }
  }

  /** `-all` is matched exactly when some whole token is `-all` or `-all:` with a value. */
  lemma HasNegAllIsToken(text: string)
    ensures HasNegAll(text) <==> exists t :: t in Tokens(text) && IsNegAllToken(t)
  {
    var ts := Tokens(text);
    AnyTokenIsSome(ts, "-all");
    if HasNegAll(text) {
      var k :| 0 <= k < |ts| && IsDirective(ts[k], "-all");
      assert ts[k] in ts && IsNegAllToken(ts[k]);
    }
    if exists t :: t in ts && IsNegAllToken(t) {
      var t :| t in ts && IsNegAllToken(t);
      var k :| 0 <= k < |ts| && ts[k] == t;
      assert IsDirective(ts[k], "-all");
    }
  }

  /** Python `int()` of a decimal digit string. */
  function DecimalValue(s: string): nat
    requires AllDigits(s)
  {
    if s == [] then 0
    else DecimalValue(s[..|s| - 1]) * 10 + (s[|s| - 1] as int - '0' as int)
  }

  /** Python `'%d' % n` for a natural number. */
  function NatText(n: nat): (s: string)
    ensures |s| > 0 && AllDigits(s)
  {
    if n < 10 then [('0' as int + n) as char]
    else NatText(n / 10) + [('0' as int + n % 10) as char]
  }

  /** Python `'%d' % x`. */
  function IntText(x: int): string {
    if x < 0 then "-" + NatText(-x) else NatText(x)
  }

  lemma {:induction false} DecimalRoundTrip(n: nat)
    ensures DecimalValue(NatText(n)) == n
  {
    if n >= 10 {
      DecimalRoundTrip(n / 10);
      var s := NatText(n);
      assert s[..|s| - 1] == NatText(n / 10);
    }
  }

  /** What a `+bound` match says: absent, or present with an optional label count. */
  datatype BoundDirective = Unbounded | Bounded(labels: Option<nat>)

  /** The reading of one token against `\+bound(:(?P<labels>\d+))?`. */
  function BoundToken(t: string): (b: BoundDirective)
    ensures b == Bounded(None) <==> t == "+bound"
    ensures b.Bounded? && b.labels.Some? <==>
              |t| > 7 && StartsWith(t, "+bound:") && AllDigits(t[7..])
  {
    if t == "+bound" then Bounded(None)
    else if |t| > 7 && StartsWith(t, "+bound:") && AllDigits(t[7..]) then Bounded(Some(DecimalValue(t[7..])))
    else Unbounded
  }

  /** The first token that is a `+bound` directive decides the match. */
  function FirstBound(ts: seq<string>): BoundDirective {
    if ts == [] then Unbounded
    else if BoundToken(ts[0]).Bounded? then BoundToken(ts[0])
    else FirstBound(ts[1..])
  }

  lemma FirstBoundCons(t: string, rest: seq<string>)
    ensures FirstBound([t] + rest) == if BoundToken(t).Bounded? then BoundToken(t) else FirstBound(rest)
  {
    assert ([t] + rest)[1..] == rest;
  }

  /** `FirstBound` reads the leftmost `+bound` token, and is `Unbounded` when there is none. */
  lemma {:induction false} FirstBoundIsLeftmost(ts: seq<string>)
    ensures FirstBound(ts).Unbounded? <==> forall k :: 0 <= k < |ts| ==> BoundToken(ts[k]).Unbounded?
    ensures FirstBound(ts).Bounded? ==>
              exists k :: 0 <= k < |ts| && FirstBound(ts) == BoundToken(ts[k]) &&
                          forall j :: 0 <= j < k ==> BoundToken(ts[j]).Unbounded?
  {
    if ts != [] && BoundToken(ts[0]).Unbounded? {
      FirstBoundIsLeftmost(ts[1..]);
      if FirstBound(ts).Bounded? {
        var k :| 0 <= k < |ts[1..]| && FirstBound(ts[1..]) == BoundToken(ts[1..][k]) &&
                 forall j :: 0 <= j < k ==> BoundToken(ts[1..][j]).Unbounded?;
        assert forall j :: 0 <= j < k + 1 ==> BoundToken(ts[j]).Unbounded? by {
          forall j | 0 <= j < k + 1 ensures BoundToken(ts[j]).Unbounded? {
            if j > 0 {
              assert ts[j] == ts[1..][j - 1];
            }
          }
        }
        assert FirstBound(ts) == BoundToken(ts[k + 1]);
      } else {
        forall k | 0 <= k < |ts| ensures BoundToken(ts[k]).Unbounded? {
          if k > 0 {
            assert ts[k] == ts[1..][k - 1];
          }
        }
      }
    }
  }

  /** `BOUND_RE.search(text)`, with the `labels` group of its (leftmost) match. */
  function BoundOf(text: string): BoundDirective {
    FirstBound(Tokens(text))
  }

  predicate HasBound(text: string) {
    BoundOf(text).Bounded?
  }

  /** `(^|\s)\+fetch:(?P<uri>\S+)` finds a match: a token `+fetch:` with something after the colon. */
  predicate IsFetchToken(t: string) {
    |t| > 7 && StartsWith(t, "+fetch:")
  }

  /** `+fetch:` followed by a word is a fetch token, and a word, whose value is that word. */
  lemma FetchTokenOf(uri: string)
    requires IsWord(uri)
    ensures var t := "+fetch:" + uri;
            IsFetchToken(t) && t[7..] == uri && IsWord(t)
  {
    var t := "+fetch:" + uri;
    assert t[..7] == "+fetch:" && t[7..] == uri;
    assert forall j :: 7 <= j < |t| ==> t[j] == uri[j - 7];
  }

  /** The `uri` group of the leftmost `+fetch:` match. */
  function FetchUri(text: string): Option<string> {
    FirstFetch(Tokens(text))
  }

  function FirstFetch(ts: seq<string>): Option<string> {
    if ts == [] then None
    else if IsFetchToken(ts[0]) then Some(ts[0][7..])
    else FirstFetch(ts[1..])
  }

  /** `FirstFetch` is `None` exactly when no token is a fetch directive, and otherwise names the rest of one. */
  lemma {:induction false} FirstFetchIsToken(ts: seq<string>)
    ensures FirstFetch(ts).None? <==> forall t :: t in ts ==> !IsFetchToken(t)
    ensures FirstFetch(ts).Some? ==> "+fetch:" + FirstFetch(ts).value in ts && |FirstFetch(ts).value| > 0
  {
    if ts != [] {
      FirstFetchIsToken(ts[1..]);
      if IsFetchToken(ts[0]) {
        assert "+fetch:" + ts[0][7..] == ts[0];
      }
    }
  }

  function DropLeadingQuotes(s: string): (r: string)
    ensures |r| <= |s| && r == s[|s| - |r|..]
  {
    if s != [] && s[0] == '"' then DropLeadingQuotes(s[1..]) else s
  }

  function DropTrailingQuotes(s: string): (r: string)
    ensures |r| <= |s| && r == s[..|r|]
  {
    if s != [] && s[|s| - 1] == '"' then DropTrailingQuotes(s[..|s| - 1]) else s
  }

  /** Python `s.strip('"')`, applied to the presentation form of a TXT record. */
  function StripQuotes(s: string): string {
    DropTrailingQuotes(DropLeadingQuotes(s))
  }

  lemma StripQuotedPolicy(p: string)
    requires IsOdupV1(p)
    requires p[|p| - 1] != '"'
    ensures StripQuotes("\"" + p + "\"") == p
  {
    var q := "\"" + p + "\"";
    assert q[0] == '"' && q[1..] == p + "\"";
    assert (p + "\"")[0] == 'v';
    assert DropLeadingQuotes(q) == p + "\"";
    assert (p + "\"")[..|p|] == p;
    assert DropTrailingQuotes(p + "\"") == DropTrailingQuotes(p) == p;
  }

  /** The text passes the `v=odup1` check once its quotes are stripped. */
  predicate Passes(text: string) {
    IsOdupV1(StripQuotes(text))
  }

  /**
    The policy a record set offers (`filter(...)[0]`): the text, quotes
    stripped, of the first record whose stripped text passes the `v=odup1`
    check; `None` where Python's indexing raises `IndexError`.
   */
  function FirstPolicy(texts: seq<string>): Option<string> {
    if texts == [] then None
    else if Passes(texts[0]) then Some(StripQuotes(texts[0]))
    else FirstPolicy(texts[1..])
  }

  /** `FirstPolicy` is `None` exactly when no record passes. */
  lemma {:induction false} FirstPolicyNone(texts: seq<string>)
    ensures FirstPolicy(texts).None? <==> forall k :: 0 <= k < |texts| ==> !Passes(texts[k])
  {
    if texts == [] {
    } else if Passes(texts[0]) {
      assert FirstPolicy(texts) == Some(StripQuotes(texts[0]));
    } else {
      var rest := texts[1..];
      assert FirstPolicy(texts) == FirstPolicy(rest);
      FirstPolicyNone(rest);
      forall k | 1 <= k < |texts| ensures texts[k] == rest[k - 1] { }
    }
  }

  /** When record `k` is the first to pass, `FirstPolicy` is its stripped text. */
  lemma {:induction false} FirstPolicyAt(texts: seq<string>, k: nat)
    requires k < |texts| && Passes(texts[k])
    requires forall j :: 0 <= j < k ==> !Passes(texts[j])
    ensures FirstPolicy(texts) == Some(StripQuotes(texts[k]))
  {
    if k == 0 {
      assert FirstPolicy(texts) == Some(StripQuotes(texts[0]));
    } else {
      var rest := texts[1..];
      assert !Passes(texts[0]);
      assert FirstPolicy(texts) == FirstPolicy(rest);
      forall j | 0 <= j < k - 1 ensures !Passes(rest[j]) {
        assert rest[j] == texts[j + 1];
      }
      assert rest[k - 1] == texts[k];
      FirstPolicyAt(rest, k - 1);
    }
  }

  // ---------------------------------------------------------------------------
  // Removing the fetch directives (`FETCH_RE.sub('', text)`)

  /** The leading run of non-whitespace characters. */
  function Run(s: string): string {
    s[..RunLength(s)]
  }

  /**
    The substitution away from the start of the text, where only the `\s`
    alternative can match: a whitespace character followed by a fetch token
    is removed together with it; any other whitespace character, and any
    whole run of non-whitespace characters, is kept.
   */
  function Scan(s: string): string
    decreases |s|
  {
    if s == [] then []
    else if IsSpace(s[0]) then
      var run := Run(s[1..]);
      if IsFetchToken(run) then Scan(s[1 + |run|..]) else [s[0]] + Scan(s[1..])
    else
      var n := RunLength(s);
      s[..n] + Scan(s[n..])
  }

  /** `FETCH_RE.sub('', text)`: at the start of the text the `^` alternative also removes a leading fetch token. */
  function StripFetch(text: string): string {
    if IsFetchToken(Run(text)) then Scan(text[RunLength(text)..]) else Scan(text)
  }

  /** The tokens that are not fetch directives, in order. */
  function Keep(ts: seq<string>): (r: seq<string>)
    ensures forall k :: 0 <= k < |r| ==> !IsFetchToken(r[k])
  {
    if ts == [] then []
    else if IsFetchToken(ts[0]) then Keep(ts[1..])
    else [ts[0]] + Keep(ts[1..])
  }

  /** The tokens of a text that starts with whitespace begin after it. */
  lemma TokensOfSpace(s: string)
    requires s != [] && IsSpace(s[0])
    ensures Tokens(s) == Tokens(s[1..])
  {
  }

  /** The tokens of a text that starts with a run: the run, then the tokens after it. */
  lemma TokensOfRun(s: string)
    requires s != [] && !IsSpace(s[0])
    ensures Tokens(s) == [Run(s)] + Tokens(s[RunLength(s)..])
  {
  }

  /**
    Away from the start, the substitution removes exactly the fetch tokens,
    provided the text does not begin with one; and it keeps a leading
    whitespace character or the empty text as it was.
   */
  lemma {:induction false} ScanKeeps(s: string)
    requires !IsFetchToken(Run(s))
    ensures Tokens(Scan(s)) == Keep(Tokens(s))
    ensures s == [] || IsSpace(s[0]) ==> Scan(s) == [] || IsSpace(Scan(s)[0])
    decreases |s|, 1
  {
    if s == [] {
    } else if IsSpace(s[0]) {
      if IsFetchToken(Run(s[1..])) {
        ScanDropsFetch(s);
      } else {
        ScanKeepsSpace(s);
      }
    } else {
      ScanKeepsRun(s);
    }
  }

  /** A whitespace character and the fetch token after it are removed together. */
  lemma {:induction false} ScanDropsFetch(s: string)
    requires s != [] && IsSpace(s[0]) && IsFetchToken(Run(s[1..]))
    ensures Tokens(Scan(s)) == Keep(Tokens(s))
    ensures Scan(s) == [] || IsSpace(Scan(s)[0])
    decreases |s|, 0
  {
    TokensOfSpace(s);
    var t := s[1..];
    var n := RunLength(t);
    TokensOfRun(t);
    RunLengthIsRun(t);
    var rest := s[1 + n..];
    assert rest == t[n..];
    assert RunLength(rest) == 0;
    ScanKeeps(rest);
    assert Keep(Tokens(t)) == Keep(Tokens(rest));
  }

  /** A whitespace character not followed by a fetch token is kept. */
  lemma {:induction false} ScanKeepsSpace(s: string)
    requires s != [] && IsSpace(s[0]) && !IsFetchToken(Run(s[1..]))
    ensures Tokens(Scan(s)) == Keep(Tokens(s))
    ensures IsSpace(Scan(s)[0])
    decreases |s|, 0
  {
    TokensOfSpace(s);
    var t := s[1..];
    ScanKeeps(t);
    TokensAfterSpace(s[0], Scan(t));
    assert [s[0]] + t == s;
  }

  /** A run of non-whitespace characters that is not a fetch token is kept whole. */
  lemma {:induction false} ScanKeepsRun(s: string)
    requires s != [] && !IsSpace(s[0]) && !IsFetchToken(Run(s))
    ensures Tokens(Scan(s)) == Keep(Tokens(s))
    decreases |s|, 0
  {
    var n := RunLength(s);
    TokensOfRun(s);
    RunLengthIsRun(s);
    var rest := s[n..];
    assert RunLength(rest) == 0;
    ScanKeeps(rest);
    TokensOfWord(s[..n], Scan(rest));
    assert Keep(Tokens(s)) == [s[..n]] + Keep(Tokens(rest));
  }

  /** Removing the fetch directives removes exactly the fetch tokens and leaves every other token in order. */
  lemma StripFetchKeeps(text: string)
    ensures Tokens(StripFetch(text)) == Keep(Tokens(text))
  {
    if IsFetchToken(Run(text)) {
      var n := RunLength(text);
      TokensOfRun(text);
      RunLengthIsRun(text);
      assert RunLength(text[n..]) == 0;
      ScanKeeps(text[n..]);
    } else {
      ScanKeeps(text);
      if text != [] && IsSpace(text[0]) {
        TokensOfSpace(text);
      }
    }
  }

  /** No fetch directive is left after the substitution. */
  lemma StripFetchLeavesNoFetch(text: string)
    ensures FetchUri(StripFetch(text)).None?
  {
    StripFetchKeeps(text);
    var ts := Keep(Tokens(text));
    FirstFetchIsToken(ts);
  }

  /** A fetch token is no other directive. */
  lemma FetchIsNoOther(t: string)
    requires IsFetchToken(t)
    ensures !IsDirective(t, "+org") && !IsDirective(t, "-all") && BoundToken(t).Unbounded?
  {
    DiffersFrom(t, "+org", 1);
    DiffersFrom(t, "-all", 0);
    assert t[..7][1] == 'f' && "+bound:"[1] == 'b';
  }

  /** Dropping the fetch tokens keeps every `+org`, `-all` and `+bound` reading. */
  lemma {:induction false} KeepReads(ts: seq<string>)
    ensures AnyToken(Keep(ts), "+org") == AnyToken(ts, "+org")
    ensures AnyToken(Keep(ts), "-all") == AnyToken(ts, "-all")
    ensures FirstBound(Keep(ts)) == FirstBound(ts)
  {
    if ts != [] {
      KeepReads(ts[1..]);
      if IsFetchToken(ts[0]) {
        FetchIsNoOther(ts[0]);
      } else {
        AnyTokenCons(ts[0], Keep(ts[1..]), "+org");
        AnyTokenCons(ts[0], Keep(ts[1..]), "-all");
        FirstBoundCons(ts[0], Keep(ts[1..]));
      }
    }
  }

  /** Removing the fetch directives changes no `+org`, `-all` or `+bound` match. */
  lemma StripFetchKeepsPolicy(text: string)
    ensures HasOrg(StripFetch(text)) == HasOrg(text)
    ensures HasNegAll(StripFetch(text)) == HasNegAll(text)
    ensures BoundOf(StripFetch(text)) == BoundOf(text)
  {
    StripFetchKeeps(text);
    KeepReads(Tokens(text));
  }

  /**
    A fetch token runs to the next whitespace, so a fetch directive that ends
    a quoted policy takes the closing quote with it.
   */
  lemma StripFetchTakesQuote(head: string, uri: string)
    requires IsWord(head) && !IsFetchToken(head) && IsWord(uri)
    ensures StripFetch(head + " +fetch:" + uri + "\"") == head
  {
    var token := "+fetch:" + (uri + "\"");
    FetchTokenOf(uri + "\"");
    var text := head + " +fetch:" + uri + "\"";
    assert text == head + ([' '] + token);
    RunLengthOfWord(head, [' '] + token);
    assert Run(text) == head;
    var rest := [' '] + token;
    assert text[|head|..] == rest;
    RunLengthOfWord(token, []);
    assert rest[1..] == token + [];
    assert Run(rest[1..]) == token;
    assert rest[1 + |token|..] == [];
    assert Scan(rest) == [];
    assert !IsFetchToken(Run(text)) && Scan(text) == head + Scan(rest);
  }
}
