/**
  `odup2psl`: ODUP policies turned back into Public Suffix List lines. The
  TLDs come from the NS records of a root zone file, and optionally from the
  ICANN section of an existing list; the `_odup` zone of each TLD is
  transferred and each of its policies becomes a list line, or, in aggregate
  mode, the zone's records are copied out with their `+fetch:` directive
  removed.
 */
module OdupToPsl {
  import opened Wrappers
  import opened Names
  import opened Directives
  import opened PslLines
  import opened Resolver

  // ---------------------------------------------------------------------------
  // TLDs from the root zone

  /** The columns say `NS`: as the second column, as `IN NS` in the second and third, or in the third and fourth. */
  predicate SaysNs(cols: seq<string>) {
    || (|cols| > 1 && cols[1] == "NS")
    || (|cols| > 2 && cols[1] == "IN" && cols[2] == "NS")
    || (|cols| > 3 && cols[2] == "IN" && cols[3] == "NS")
  }

  /** The TLD a root zone line adds: its first column read as a name, when the line is an NS record and is not the root's. */
  function TldOf(line: string): Option<Name> {
    var cols := Split(RStrip(line));
    if cols == [] || cols[0] == "." || !SaysNs(cols) then None
    else Some(FromText(cols[0]))
  }

  /** `import_tlds`: every line that names a TLD adds it to the caller's set. */
  method ImportTlds(lines: seq<string>, tlds0: set<Name>) returns (tlds: set<Name>)
    ensures tlds == Gathered(tlds0, lines, TldOf)
  {
    tlds := tlds0;
    for i := 0 to |lines|
      invariant tlds == Gathered(tlds0, lines[..i], TldOf)
    {
      GatheredStep(tlds0, lines, i, TldOf);
      var found := ReadTld(lines[i]);
      if found.Some? {
        tlds := tlds + {found.value};
      }
    }
    assert lines[..|lines|] == lines;
  }

  /** Lines 52-64 for one line: its columns, the blank and root lines skipped, and the NS test. */
  method ReadTld(line: string) returns (found: Option<Name>)
    ensures found == TldOf(line)
  {
    var cols := Split(RStrip(line));
    if cols == [] {
      return None;
    }
    if cols[0] == "." {
      return None;
    }
    var name := FromText(cols[0]);
    if |cols| > 1 && cols[1] == "NS" {
      found := Some(name);
    } else if |cols| > 2 && cols[1] == "IN" && cols[2] == "NS" {
      found := Some(name);
    } else if |cols| > 3 && cols[2] == "IN" && cols[3] == "NS" {
      found := Some(name);
    } else {
      found := None;
    }
  }

  /** A TLD is imported exactly when some line of the root zone names it. */
  lemma ImportedTld(lines: seq<string>, n: Name)
    ensures n in Gathered({}, lines, TldOf) <==> exists k :: 0 <= k < |lines| && TldOf(lines[k]) == Some(n)
  {
    GatheredIs({}, lines, TldOf, n);
  }

  /** A root zone record line: owner, TTL, class `IN`, type and data, each column followed by the separator `sep`. */
  function ZoneLine(owner: string, ttl: string, rtype: string, data: string, sep: char): string {
    owner + ([sep] + (ttl + ([sep] + ("IN" + ([sep] + (rtype + ([sep] + data)))))))
  }

  /** The columns of a root zone record line. */
  lemma ZoneLineColumns(owner: string, ttl: string, rtype: string, data: string, sep: char)
    requires IsColumn(owner) && IsColumn(ttl) && IsColumn(rtype) && IsWhitespace(sep)
    ensures Split(RStrip(ZoneLine(owner, ttl, rtype, data, sep))) == [owner] + ([ttl] + (["IN"] + ([rtype] + Split(data))))
  {
    var t3 := rtype + ([sep] + data);
    var t2 := "IN" + ([sep] + t3);
    var t1 := ttl + ([sep] + t2);
    var line := owner + ([sep] + t1);
    assert line == ZoneLine(owner, ttl, rtype, data, sep);
    assert IsColumn("IN");
    var cols := Split(data);
    SplitColumn(rtype, [sep] + data);
    SplitAfter(sep, data);
    assert Split(t3) == [rtype] + cols;
    SplitColumn("IN", [sep] + t3);
    SplitAfter(sep, t3);
    assert Split(t2) == ["IN"] + ([rtype] + cols);
    SplitColumn(ttl, [sep] + t2);
    SplitAfter(sep, t2);
    assert Split(t1) == [ttl] + (["IN"] + ([rtype] + cols));
    SplitColumn(owner, [sep] + t1);
    SplitAfter(sep, t1);
    assert Split(line) == [owner] + ([ttl] + (["IN"] + ([rtype] + cols)));
    SplitRStrip(line);
  }

  /**
    A root zone record line names the TLD `owner` exactly when its type is
    `NS` and the owner is not the root `.`.
   */
  lemma RootZoneLine(owner: string, ttl: string, rtype: string, data: string, sep: char)
    requires IsColumn(owner) && IsColumn(rtype) && IsWhitespace(sep)
    requires |ttl| > 0 && AllDigits(ttl)
    ensures TldOf(ZoneLine(owner, ttl, rtype, data, sep)) ==
              if owner != "." && rtype == "NS" then Some(FromText(owner)) else None
  {
    assert IsColumn(ttl) by {
      forall j | 0 <= j < |ttl| ensures !IsWhitespace(ttl[j]) {
        assert IsDigit(ttl[j]);
      }
    }
    ZoneLineColumns(owner, ttl, rtype, data, sep);
    var cols := [owner] + ([ttl] + (["IN"] + ([rtype] + Split(data))));
    assert |cols| >= 4 && cols[0] == owner && cols[1] == ttl && cols[2] == "IN" && cols[3] == rtype;
    assert ttl != "NS" && ttl != "IN" by {
      assert IsDigit(ttl[0]);
    }
    assert SaysNs(cols) <==> rtype == "NS";
  }

  // ---------------------------------------------------------------------------
  // TLDs from the ICANN section of a list

  /** The name a list line adds to the new TLDs: a listed name of one label (and the root) that is not a known TLD. */
  function NewTldOf(tlds: set<Name>, line: string): Option<Name> {
    var listed := Listed(line);
    if listed.Some? && |listed.value| == 2 && listed.value !in tlds then listed else None
  }

  function NewTldPick(tlds: set<Name>): string -> Option<Name> {
    line => NewTldOf(tlds, line)
  }

  /**
    `import_new_tlds`: the lines before the first `BEGIN PRIVATE` line add
    the one-label names they list that are not in `tlds`; reading stops at
    that line.
   */
  method ImportNewTlds(lines: seq<string>, tlds: set<Name>, newTlds0: set<Name>) returns (newTlds: set<Name>)
    ensures newTlds == Gathered(newTlds0, lines[..PrivateStart(lines)], NewTldPick(tlds))
  {
    ghost var p := PrivateStart(lines);
    newTlds := newTlds0;
    for i := 0 to |lines|
      invariant i <= p
      invariant newTlds == Gathered(newTlds0, lines[..i], NewTldPick(tlds))
    {
      var stop := ReachesPrivate(lines, i);
      if stop {
        return;
      }
      newTlds := GatherNewTld(newTlds, newTlds0, lines, i, tlds);
    }
    assert p == |lines|;
  }

  /** `re.search('BEGIN PRIVATE', line)` on a line not past the first marker: it finds the marker exactly on the first marker line. */
  method ReachesPrivate(lines: seq<string>, i: nat) returns (stop: bool)
    requires i < |lines| && i <= PrivateStart(lines)
    ensures stop <==> i == PrivateStart(lines)
  {
    stop := MarksPrivate(lines[i]);
  }

  /** One line before the private section: a one-label name it lists that is not in `tlds` is added. */
  method GatherNewTld(newTlds: set<Name>, ghost base: set<Name>, lines: seq<string>, i: nat, tlds: set<Name>) returns (more: set<Name>)
    requires i < |lines|
    requires newTlds == Gathered(base, lines[..i], NewTldPick(tlds))
    ensures more == Gathered(base, lines[..i + 1], NewTldPick(tlds))
  {
    GatheredStep(base, lines, i, NewTldPick(tlds));
    more := newTlds;
    var found := ReadListed(lines[i]);
    if found.Some? {
      var name := found.value;
      if |name| == 2 && name !in tlds {
        more := more + {name};
      }
    }
  }

  /** The new TLDs are the one-label names, not already TLDs, listed before the `BEGIN PRIVATE` line. */
  lemma ImportedNewTld(lines: seq<string>, tlds: set<Name>, n: Name)
    ensures n in Gathered({}, lines[..PrivateStart(lines)], NewTldPick(tlds)) <==>
              |n| == 2 && n !in tlds && exists k :: 0 <= k < PrivateStart(lines) && Listed(lines[k]) == Some(n)
  {
    var p := PrivateStart(lines);
    GatheredBeforeIs({}, lines, p, NewTldPick(tlds), n);
    if n in Gathered({}, lines[..p], NewTldPick(tlds)) {
      var k :| 0 <= k < p && NewTldPick(tlds)(lines[k]) == Some(n);
      assert Listed(lines[k]) == Some(n);
    }
    if |n| == 2 && n !in tlds && exists k :: 0 <= k < p && Listed(lines[k]) == Some(n) {
      var k :| 0 <= k < p && Listed(lines[k]) == Some(n);
      assert NewTldPick(tlds)(lines[k]) == Some(n);
    }
  }

  // ---------------------------------------------------------------------------
  // Where the zone comes from (`get_odup_zone`)

  /** The index of the first `c` in `s`, or `|s|` when there is none (Python `s.find(c)`, with -1 read as `|s|`). */
  function IndexOf(s: string, c: char): (k: nat)
    ensures k <= |s|
    ensures k < |s| ==> s[k] == c
    ensures forall j :: 0 <= j < k ==> s[j] != c
  {
    if s == [] || s[0] == c then 0 else 1 + IndexOf(s[1..], c)
  }

  /** The index just after the last `c` in `s`, or 0 (what `s.split(c)[-1]` starts at). */
  function AfterLast(s: string, c: char): (k: nat)
    ensures k <= |s|
    ensures k > 0 ==> s[k - 1] == c
    ensures forall j :: k <= j < |s| ==> s[j] != c
  {
    if s == [] then 0
    else if s[|s| - 1] == c then |s|
    else AfterLast(s[..|s| - 1], c)
  }

  /** Python 2 `str.lower()` on ASCII letters. */
  function Lower(s: string): (r: string)
    ensures |r| == |s|
  {
    if s == [] then []
    else [if 'A' <= s[0] <= 'Z' then (s[0] as int + 32) as char else s[0]] + Lower(s[1..])
  }

  /** The characters Python 2's `urlparse` accepts in a scheme: letters, digits, `+`, `-` and `.`. */
  predicate IsSchemeChar(c: char) {
    ('a' <= c <= 'z') || ('A' <= c <= 'Z') || IsDigit(c) || c == '+' || c == '-' || c == '.'
  }

  /** The scheme and network location of a URI, as `urlparse` splits it. */
  datatype Url = Url(scheme: string, netloc: string)

  /**
    The text before the first `:` is the scheme when it is non-empty and
    made of scheme characters and what follows is not a port number (all
    digits, at least one); the literal `http` is always a scheme.
   */
  predicate HasScheme(uri: string) {
    var i := IndexOf(uri, ':');
    && 0 < i < |uri|
    && (uri[..i] == "http" ||
        ((forall j :: 0 <= j < i ==> IsSchemeChar(uri[j])) && (i + 1 == |uri| || !AllDigits(uri[i + 1..]))))
  }

  /** A network location with a `[` but no `]`, or the reverse: `urlparse` raises `ValueError`. */
  predicate BadBrackets(netloc: string) {
    ('[' in netloc && ']' !in netloc) || (']' in netloc && '[' !in netloc)
  }

  /**
    Python 2.7 `urlparse.urlparse(uri)`, its scheme and network location:
    the scheme lower-cased, then, after a leading `//`, the network location
    up to the first `/`, `?` or `#`; `None` where `urlparse` raises
    `ValueError` on unbalanced brackets.
   */
  function UrlParse(uri: string): Option<Url> {
    var i := IndexOf(uri, ':');
    var scheme := if HasScheme(uri) then Lower(uri[..i]) else "";
    var rest := if HasScheme(uri) then uri[i + 1..] else uri;
    if |rest| >= 2 && rest[0] == '/' && rest[1] == '/' then
      var after := rest[2..];
      var end := Min(IndexOf(after, '/'), Min(IndexOf(after, '?'), IndexOf(after, '#')));
      var netloc := after[..end];
      if BadBrackets(netloc) then None else Some(Url(scheme, netloc))
    else Some(Url(scheme, ""))
  }

  function Min(a: nat, b: nat): nat {
    if a <= b then a else b
  }

  /**
    The `hostname` of a parsed URI, with `None` read as the empty text:
    the network location after its last `@`; between the brackets of an
    IPv6 literal, else before the first `:`, lower-cased.
   */
  function Hostname(netloc: string): string {
    var host := netloc[AfterLast(netloc, '@')..];
    if '[' in host && ']' in host then
      var inner := host[..IndexOf(host, ']')];
      Lower(if inner == [] then [] else inner[1..])
    else if ':' in host then Lower(host[..IndexOf(host, ':')])
    else Lower(host)
  }

  /** The exceptions `get_odup_zone` lets escape. */
  datatype Escaped = NameError | ValueError

  /**
    What `get_odup_zone` does: no zone (it returns `None`), a zone transfer
    from the host the URI names or, when it names none, from the zone's name
    server, or an exception that ends the program.
   */
  datatype Source = NoZone | Transfer(host: Option<string>) | Raises(error: Escaped)

  /** The `+fetch:` URI of the policy a TXT answer offers, if there is one. */
  function FetchOf(answer: Answer): Option<string> {
    if !answer.Records? then None
    else
      var policy := FirstPolicy(answer.texts);
      if policy.None? then None else FetchUri(policy.value)
  }

  /**
    Lines 82-119 as written: line 99 reads `url.hostname`, and `url` is not
    defined, so a URI that names a host raises `NameError`.
   */
  function ZoneSourceAsWritten(answer: Answer): Source {
    var uri := FetchOf(answer);
    if uri.None? then NoZone
    else
      var url := UrlParse(uri.value);
      if url.None? then Raises(ValueError)
      else if url.value.scheme != "axfr" then NoZone
      else if Hostname(url.value.netloc) != [] then Raises(NameError)
      else Transfer(None)
  }

  /** Lines 82-119 as evidently intended, with `uri.hostname` at line 99. */
  function ZoneSource(answer: Answer): Source {
    var uri := FetchOf(answer);
    if uri.None? then NoZone
    else
      var url := UrlParse(uri.value);
      if url.None? then Raises(ValueError)
      else if url.value.scheme != "axfr" then NoZone
      else
        var host := Hostname(url.value.netloc);
        Transfer(if host != [] then Some(host) else None)
  }

  /**
    No zone is fetched when the answer holds no records, when no record
    passes the version check, when the policy offered has no `+fetch:` token,
    or when the URI's scheme is not `axfr`.
   */
  lemma NoZoneWhen(answer: Answer)
    ensures ZoneSource(answer) == NoZone <==>
              || !answer.Records?
              || (forall k :: 0 <= k < |answer.texts| ==> !Passes(answer.texts[k]))
              || (FirstPolicy(answer.texts).Some? && forall t :: t in Tokens(FirstPolicy(answer.texts).value) ==> !IsFetchToken(t))
              || (FetchOf(answer).Some? && UrlParse(FetchOf(answer).value).Some? && UrlParse(FetchOf(answer).value).value.scheme != "axfr")
  {
    if answer.Records? {
      FirstPolicyNone(answer.texts);
      if FirstPolicy(answer.texts).Some? {
        FirstFetchIsToken(Tokens(FirstPolicy(answer.texts).value));
      }
    }
  }

  /**
    The code as written and as intended part exactly where an `axfr` URI
    names a host: there line 99 raises `NameError` instead of transferring
    from that host.
   */
  lemma HostnameRaises(answer: Answer)
    ensures ZoneSourceAsWritten(answer) == Raises(NameError) <==> ZoneSource(answer).Transfer? && ZoneSource(answer).host.Some?
    ensures ZoneSourceAsWritten(answer) != Raises(NameError) ==> ZoneSourceAsWritten(answer) == ZoneSource(answer)
  {
  }

  /** `axfr://ns` */
  const NsUri := "axfr" + ":" + "//" + "ns"

  /** `v=odup1 +fetch:axfr://ns` */
  const FetchFromNs := Version + " " + ("+fetch:" + NsUri)

  /** `axfr` is the scheme of `axfr://ns`, and `//ns` what follows it. */
  lemma NsUriScheme()
    ensures IndexOf(NsUri, ':') == 4 && HasScheme(NsUri) && Lower(NsUri[..4]) == "axfr" && NsUri[5..] == "//ns"
  {
    var uri := NsUri;
    assert uri[4] == ':' && uri[0] != ':' && uri[1] != ':' && uri[2] != ':' && uri[3] != ':';
    assert uri[..4] == "axfr" && uri[5..] == "//ns";
    assert uri[..4] != "http" by {
      assert uri[0] != 'h';
    }
    assert !AllDigits(uri[5..]) by {
      assert !IsDigit(uri[5]);
    }
    assert Lower("axfr") == "axfr";
  }

  /** `axfr://ns` parses to scheme `axfr` and network location `ns`. */
  lemma NsUriParses()
    ensures UrlParse(NsUri) == Some(Url("axfr", "ns"))
  {
    NsUriScheme();
    var after := "//ns"[2..];
    assert after == "ns";
    assert IndexOf(after, '/') == 2 && IndexOf(after, '?') == 2 && IndexOf(after, '#') == 2;
    assert after[..2] == "ns";
    assert !BadBrackets("ns");
  }

  /** The host of the network location `ns` is `ns`. */
  lemma NsHost()
    ensures Hostname("ns") == "ns"
  {
    assert AfterLast("ns", '@') == 0;
    var host := "ns"[0..];
    assert host == "ns";
    assert '[' !in host && ':' !in host;
    assert Lower(host) == [host[0]] + Lower(host[1..]);
    assert Lower(host[1..]) == host[1..];
  }

  /** The record quoting `v=odup1 +fetch:axfr://ns` passes the version check. */
  lemma FetchFromNsPasses()
    ensures FirstPolicy(["\"" + FetchFromNs + "\""]) == Some(FetchFromNs)
  {
    assert IsOdupV1(FetchFromNs) by {
      assert FetchFromNs[..7] == Version;
      assert FetchFromNs[7] == ' ';
    }
    assert FetchFromNs[|FetchFromNs| - 1] == 's';
    StripQuotedPolicy(FetchFromNs);
  }

  /** `axfr://ns` holds no whitespace. */
  lemma NsUriIsWord()
    ensures IsWord(NsUri)
  {
    assert forall j :: 0 <= j < |NsUri| ==> NsUri[j] != ' ' && !('\t' <= NsUri[j] <= '\r');
  }

  /** The policy `v=odup1 +fetch:axfr://ns` fetches from `axfr://ns`. */
  lemma FetchFromNsUri()
    ensures FetchUri(FetchFromNs) == Some(NsUri)
  {
    var tok := "+fetch:" + NsUri;
    NsUriIsWord();
    FetchTokenOf(NsUri);
    assert IsWord(Version);
    TwoWords(Version, tok);
    assert !IsFetchToken(Version) by {
      assert Version[0] != '+';
    }
    assert FirstFetch([tok]) == Some(NsUri);
    assert [Version, tok][1..] == [tok];
    assert FirstFetch([Version, tok]) == FirstFetch([tok]);
  }

  /** The record quoting `v=odup1 +fetch:axfr://ns` offers the fetch URI `axfr://ns`. */
  lemma FetchFromNsOffered()
    ensures FetchOf(Records(["\"" + FetchFromNs + "\""])) == Some(NsUri)
  {
    FetchFromNsPasses();
    FetchFromNsUri();
  }

  /** The record `"v=odup1 +fetch:axfr://ns"` makes the code as written raise `NameError`, the intended code transfer from `ns`. */
  lemma HostnameRaisesOn()
    ensures ZoneSourceAsWritten(Records(["\"" + FetchFromNs + "\""])) == Raises(NameError)
    ensures ZoneSource(Records(["\"" + FetchFromNs + "\""])) == Transfer(Some("ns"))
  {
    FetchFromNsOffered();
    NsUriParses();
    NsHost();
  }

  // ---------------------------------------------------------------------------
  // Export as list lines (`export_psl`)

  /**
    A record set of the transferred zone: its owner relative to the
    `_odup` zone (the apex is the empty name), whether it is of type TXT,
    its TTL, and the presentation texts of its records.
   */
  datatype Rrset = Rrset(owner: Name, isTxt: bool, ttl: nat, texts: seq<string>)

  /** The policy a record set offers: none unless it is TXT and one of its records passes the version check. */
  function RrsetPolicy(r: Rrset): Option<string> {
    if r.isTxt then FirstPolicy(r.texts) else None
  }

  /** A name as the list writes it: its presentation form without the trailing dot. */
  function ListText(n: Name): string {
    RStripDots(ToText(n))
  }

  /** What export does with one record set: nothing, write a line (and note a `+bound:0`), or end the export. */
  datatype Step = Skip | Emit(line: string, wildcard: bool) | Stop

  /**
    Lines 132-158 for one record set. The apex policy ends the export unless
    it says `-all`; any other owner with a `+org` policy is an exception
    line, with a `+bound` policy a plain line.
   */
  function ExportStep(tld: Name, r: Rrset): Step {
    var policy := RrsetPolicy(r);
    if policy.None? then Skip
    else
      var owner := Derelativize(r.owner, tld);
      if owner == tld then (if HasNegAll(policy.value) then Skip else Stop)
      else if HasOrg(policy.value) then Emit("!" + ListText(owner), false)
      else if HasBound(policy.value) then Emit(ListText(owner), BoundOf(policy.value).labels == Some(0))
      else Skip
  }

  /** What export does with each record set of a transfer, in order. */
  function Steps(tld: Name, zone: seq<Rrset>): (steps: seq<Step>)
    ensures |steps| == |zone|
    ensures forall k :: 0 <= k < |zone| ==> steps[k] == ExportStep(tld, zone[k])
  {
    seq(|zone|, k requires 0 <= k < |zone| => ExportStep(tld, zone[k]))
  }

  /** The number of steps taken before the first one that ends the export. */
  function Cutoff(steps: seq<Step>): (k: nat)
    ensures k <= |steps|
    ensures forall j :: 0 <= j < k ==> !steps[j].Stop?
    ensures k < |steps| ==> steps[k].Stop?
  {
    if steps == [] then 0
    else if steps[0].Stop? then 0
    else
      var k := Cutoff(steps[1..]);
      assert forall j :: 1 <= j < |steps| ==> steps[j] == steps[1..][j - 1];
      1 + k
  }

  /** The lines the steps write, in order. */
  function Emitted(steps: seq<Step>): seq<string> {
    if steps == [] then []
    else
      var step := steps[|steps| - 1];
      Emitted(steps[..|steps| - 1]) + if step.Emit? then [step.line] else []
  }

  /** Some step sets `has_wildcard`. */
  predicate AnyWildcard(steps: seq<Step>) {
    exists k :: 0 <= k < |steps| && steps[k].Emit? && steps[k].wildcard
  }

  /**
    What `export_psl` writes: nothing without a zone; the lines of the
    record sets before the one that ends the export, if one does; otherwise
    all their lines and then the TLD itself, unless a `+bound:0` was seen.
   */
  function Exported(tld: Name, zone: Option<seq<Rrset>>): seq<string> {
    if zone.None? then []
    else
      var steps := Steps(tld, zone.value);
      var k := Cutoff(steps);
      if k < |steps| then Emitted(steps[..k])
      else Emitted(steps) + if AnyWildcard(steps) then [] else [ListText(tld)]
  }

  /** `export_psl` for a TLD, given what `get_odup_zone` returned: `None`, or the record sets of the transfer in order. */
  method ExportPsl(tld: Name, zone: Option<seq<Rrset>>) returns (lines: seq<string>)
    ensures lines == Exported(tld, zone)
  {
    if zone.None? {
      return [];
    }
    var z := zone.value;
    ghost var steps := Steps(tld, z);
    var hasWildcard := false;
    lines := [];
    for i := 0 to |z|
      invariant i <= Cutoff(steps)
      invariant lines == Emitted(steps[..i])
      invariant hasWildcard <==> AnyWildcard(steps[..i])
    {
      StepInvariant(steps, i);
      var step := ExportRrset(tld, z[i]);
      if step.Stop? {
        return;
      }
      if step.Emit? {
        lines := lines + [step.line];
        if step.wildcard {
          hasWildcard := true;
        }
      }
    }
    assert steps[..|z|] == steps;
    if !hasWildcard {
      lines := lines + [RStripDots(ToText(tld))];
    }
  }

  /** One more step: its line follows the earlier ones, it may set `has_wildcard`, and it ends the export or not. */
  lemma StepInvariant(steps: seq<Step>, i: nat)
    requires i < |steps| && i <= Cutoff(steps)
    ensures var step := steps[i];
      && Emitted(steps[..i + 1]) == Emitted(steps[..i]) + (if step.Emit? then [step.line] else [])
      && (AnyWildcard(steps[..i + 1]) <==> AnyWildcard(steps[..i]) || (step.Emit? && step.wildcard))
      && (step.Stop? ==> i == Cutoff(steps))
      && (!step.Stop? ==> i + 1 <= Cutoff(steps))
  {
    var a, b := steps[..i], steps[..i + 1];
    assert b[..i] == a;
    assert b[i] == steps[i];
    WildcardStep(steps, i);
  }

  /** One more step sets `has_wildcard` exactly when it writes a line for `+bound:0`. */
  lemma WildcardStep(steps: seq<Step>, i: nat)
    requires i < |steps|
    ensures AnyWildcard(steps[..i + 1]) <==> AnyWildcard(steps[..i]) || (steps[i].Emit? && steps[i].wildcard)
  {
    var a, b := steps[..i], steps[..i + 1];
    if AnyWildcard(b) {
      var k :| 0 <= k < |b| && b[k].Emit? && b[k].wildcard;
      if k < i {
        assert a[k] == b[k];
      }
    }
    if AnyWildcard(a) {
      var k :| 0 <= k < |a| && a[k].Emit? && a[k].wildcard;
      assert b[k] == a[k];
    }
    if steps[i].Emit? && steps[i].wildcard {
      assert b[i] == steps[i];
    }
  }

  /** Lines 132-158 for one record set: its type, its policy, the apex test, then `+org` before `+bound`. */
  method ExportRrset(tld: Name, r: Rrset) returns (step: Step)
    ensures step == ExportStep(tld, r)
  {
    if !r.isTxt {
      return Skip;
    }
    var policy := FirstPolicy(r.texts);
    if policy.None? {
      return Skip;
    }
    var owner := Derelativize(r.owner, tld);
    var orgMatch := HasOrg(policy.value);
    var boundMatch := BoundOf(policy.value);
    if owner == tld {
      if !HasNegAll(policy.value) {
        return Stop;
      }
      return Skip;
    }
    if orgMatch {
      step := Emit("!" + RStripDots(ToText(owner)), false);
    } else if boundMatch.Bounded? {
      step := Emit(RStripDots(ToText(owner)), boundMatch.labels == Some(0));
    } else {
      step := Skip;
    }
  }

  /** A line is written for the steps exactly when one of them writes it. */
  lemma {:induction false} EmittedHas(steps: seq<Step>, l: string)
    ensures l in Emitted(steps) <==> exists k :: 0 <= k < |steps| && steps[k].Emit? && steps[k].line == l
  {
    if steps != [] {
      var init := steps[..|steps| - 1];
      EmittedHas(init, l);
      assert forall k :: 0 <= k < |init| ==> init[k] == steps[k];
      var last := steps[|steps| - 1];
      if l in Emitted(steps) && l !in Emitted(init) {
        assert last.Emit? && last.line == l;
      }
    }
  }

  /**
    What `export_psl` writes, line by line: the line of some record set
    before the one that ends the export, or the TLD itself when none ends
    it and none has `+bound:0`.
   */
  lemma ExportedHas(tld: Name, z: seq<Rrset>, l: string)
    ensures var steps := Steps(tld, z);
      l in Exported(tld, Some(z)) <==>
        || (exists k :: 0 <= k < Cutoff(steps) && ExportStep(tld, z[k]).Emit? && ExportStep(tld, z[k]).line == l)
        || (Cutoff(steps) == |z| && !AnyWildcard(steps) && l == ListText(tld))
  {
    var steps := Steps(tld, z);
    var c := Cutoff(steps);
    EmittedHas(steps[..c], l);
    assert forall k :: 0 <= k < c ==> steps[..c][k] == steps[k];
    assert c == |z| ==> steps[..c] == steps;
  }

  /** Once an apex policy without `-all` ends the export, nothing the transfer holds after it changes what is written. */
  lemma StopDiscardsRest(tld: Name, z: seq<Rrset>, k: nat, rest: seq<Rrset>)
    requires k < |z| && ExportStep(tld, z[k]).Stop?
    ensures Exported(tld, Some(z + rest)) == Exported(tld, Some(z))
    ensures |Exported(tld, Some(z))| <= k
  {
    var s, s' := Steps(tld, z), Steps(tld, z + rest);
    assert forall j :: 0 <= j < |z| ==> s'[j] == s[j] by {
      assert forall j :: 0 <= j < |z| ==> (z + rest)[j] == z[j];
    }
    assert s[k].Stop?;
    StopPrefix(s, s', k);
  }

  /** Steps that agree up to one that ends the export write the same lines. */
  lemma StopPrefix(s: seq<Step>, s': seq<Step>, k: nat)
    requires k < |s| <= |s'| && s[k].Stop?
    requires forall j :: 0 <= j < |s| ==> s'[j] == s[j]
    ensures Cutoff(s') == Cutoff(s) < |s|
    ensures Emitted(s'[..Cutoff(s')]) == Emitted(s[..Cutoff(s)])
    ensures |Emitted(s[..Cutoff(s)])| <= k
  {
    var c, c' := Cutoff(s), Cutoff(s');
    assert c <= k;
    assert c' <= c by {
      assert s'[c].Stop?;
    }
    assert forall j :: 0 <= j < c ==> !s'[j].Stop?;
    assert s'[..c] == s[..c];
    EmittedLength(s[..c]);
  }

  /** The steps write at most one line each. */
  lemma {:induction false} EmittedLength(steps: seq<Step>)
    ensures |Emitted(steps)| <= |steps|
  {
    if steps != [] {
      EmittedLength(steps[..|steps| - 1]);
    }
  }

  /** When every step writes a line, the lines are theirs, in order. */
  lemma {:induction false} AllEmitted(steps: seq<Step>)
    requires forall k :: 0 <= k < |steps| ==> steps[k].Emit?
    ensures |Emitted(steps)| == |steps|
    ensures forall k :: 0 <= k < |steps| ==> Emitted(steps)[k] == steps[k].line
  {
    if steps != [] {
      var init := steps[..|steps| - 1];
      assert forall k :: 0 <= k < |init| ==> init[k] == steps[k];
      AllEmitted(init);
    }
  }

  /** A step that writes nothing in front of the others changes nothing. */
  lemma {:induction false} SkipFirst(steps: seq<Step>)
    requires |steps| >= 1 && steps[0].Skip?
    ensures Emitted(steps) == Emitted(steps[1..])
  {
    if |steps| > 1 {
      var init := steps[..|steps| - 1];
      SkipFirst(init);
      assert init[1..] == steps[1..][..|steps| - 2];
      assert steps[1..][|steps| - 2] == steps[|steps| - 1];
    }
  }

  /**
    A transfer whose first record set writes nothing and whose every later
    one writes a line exports those lines, in order, and then the TLD unless
    one of them had `+bound:0`.
   */
  lemma ExportedLines(tld: Name, apex: Rrset, rrsets: seq<Rrset>, lines: seq<string>, wilds: seq<bool>)
    requires ExportStep(tld, apex).Skip?
    requires |lines| == |wilds| == |rrsets|
    requires forall j :: 0 <= j < |rrsets| ==> ExportStep(tld, rrsets[j]) == Emit(lines[j], wilds[j])
    ensures Exported(tld, Some([apex] + rrsets)) == lines + if true in wilds then [] else [ListText(tld)]
  {
    var z := [apex] + rrsets;
    TransferSteps(tld, apex, rrsets, lines, wilds);
    LinesOfSteps(Steps(tld, z), lines, wilds);
    ExportedUncut(tld, z);
  }

  /** The steps of such a transfer: a skip, then the lines' steps. */
  lemma TransferSteps(tld: Name, apex: Rrset, rrsets: seq<Rrset>, lines: seq<string>, wilds: seq<bool>)
    requires ExportStep(tld, apex).Skip?
    requires |lines| == |wilds| == |rrsets|
    requires forall j :: 0 <= j < |rrsets| ==> ExportStep(tld, rrsets[j]) == Emit(lines[j], wilds[j])
    ensures |Steps(tld, [apex] + rrsets)| == |lines| + 1
    ensures Steps(tld, [apex] + rrsets)[0].Skip?
    ensures Steps(tld, [apex] + rrsets)[1..] == Emits(lines, wilds)
  {
    StepsCons(tld, apex, rrsets);
    StepsAreEmits(tld, rrsets, lines, wilds);
    assert ([ExportStep(tld, apex)] + Steps(tld, rrsets))[1..] == Steps(tld, rrsets);
  }

  /** The steps of a transfer are those of its first record set, then those of the rest. */
  lemma StepsCons(tld: Name, r: Rrset, rs: seq<Rrset>)
    ensures Steps(tld, [r] + rs) == [ExportStep(tld, r)] + Steps(tld, rs)
  {
    var z := [r] + rs;
    var t, s := Steps(tld, z), Steps(tld, rs);
    assert z[0] == r;
    forall k | 1 <= k < |t| ensures t[k] == s[k - 1] {
      assert z[k] == rs[k - 1];
    }
    ConsOf(ExportStep(tld, r), s, t);
  }

  /** Record sets that each write a line have the lines' steps. */
  lemma StepsAreEmits(tld: Name, rrsets: seq<Rrset>, lines: seq<string>, wilds: seq<bool>)
    requires |lines| == |wilds| == |rrsets|
    requires forall j :: 0 <= j < |rrsets| ==> ExportStep(tld, rrsets[j]) == Emit(lines[j], wilds[j])
    ensures Steps(tld, rrsets) == Emits(lines, wilds)
  {
    forall j | 0 <= j < |rrsets|
      ensures Steps(tld, rrsets)[j] == Emits(lines, wilds)[j]
    {
    }
  }

  /** A transfer no step of which ends the export gives all its lines, then the TLD unless `+bound:0` was seen. */
  lemma ExportedUncut(tld: Name, z: seq<Rrset>)
    requires Cutoff(Steps(tld, z)) == |z|
    ensures Exported(tld, Some(z)) == Emitted(Steps(tld, z)) + if AnyWildcard(Steps(tld, z)) then [] else [ListText(tld)]
  {
  }

  /** One line-writing step per line. */
  function Emits(lines: seq<string>, wilds: seq<bool>): (steps: seq<Step>)
    requires |lines| == |wilds|
    ensures |steps| == |lines|
    ensures forall j :: 0 <= j < |lines| ==> steps[j] == Emit(lines[j], wilds[j])
  {
    seq(|lines|, j requires 0 <= j < |lines| => Emit(lines[j], wilds[j]))
  }

  /** A step that writes nothing, then one line-writing step per line: no step ends the export, and the lines are written in order. */
  lemma LinesOfSteps(steps: seq<Step>, lines: seq<string>, wilds: seq<bool>)
    requires |lines| == |wilds| && |steps| == |lines| + 1 && steps[0].Skip?
    requires steps[1..] == Emits(lines, wilds)
    ensures Cutoff(steps) == |steps|
    ensures Emitted(steps) == lines
    ensures AnyWildcard(steps) <==> true in wilds
  {
    var rest := steps[1..];
    assert forall k :: 1 <= k < |steps| ==> steps[k] == rest[k - 1];
    assert forall k :: 0 <= k < |steps| ==> !steps[k].Stop?;
    SkipFirst(steps);
    AllEmitted(rest);
    if AnyWildcard(steps) {
      var k :| 0 <= k < |steps| && steps[k].Emit? && steps[k].wildcard;
      assert wilds[k - 1];
    }
    if true in wilds {
      var j :| 0 <= j < |wilds| && wilds[j];
      assert steps[j + 1].wildcard;
    }
  }

  // ---------------------------------------------------------------------------
  // The aggregate zone (`aggregate_odup`)

  /** dnspython `rrset.to_text()` for a TXT record set: one line per record, owner, TTL, class and type, then the record's text. */
  function RrsetText(owner: Name, r: Rrset): string {
    Join(seq(|r.texts|, k requires 0 <= k < |r.texts| => ToText(owner) + " " + NatText(r.ttl) + " IN TXT " + r.texts[k]), "\n")
  }

  /** Line 182: the owner made absolute under the TLD, then relative to the root. */
  function AggregateOwner(tld: Name, owner: Name): (n: Name)
    ensures IsAbsolute(tld) ==> n + Root == Derelativize(owner, tld)
  {
    Relativize(Derelativize(owner, tld), Root)
  }

  /** Lines 178-183 for one record set: nothing unless it offers a policy; otherwise its text, renamed, with the fetch directives removed. */
  function AggregateLine(tld: Name, r: Rrset): Option<string> {
    if RrsetPolicy(r).None? then None
    else Some(StripFetch(RrsetText(AggregateOwner(tld, r.owner), r)))
  }

  /** What `aggregate_odup` does with each record set of a transfer, in order. */
  function AggregateSteps(tld: Name, zone: seq<Rrset>): (steps: seq<Option<string>>)
    ensures |steps| == |zone|
    ensures forall k :: 0 <= k < |zone| ==> steps[k] == AggregateLine(tld, zone[k])
  {
    seq(|zone|, k requires 0 <= k < |zone| => AggregateLine(tld, zone[k]))
  }

  /** The lines written, in order. */
  function Present(steps: seq<Option<string>>): seq<string> {
    if steps == [] then []
    else Present(steps[..|steps| - 1]) + if steps[|steps| - 1].Some? then [steps[|steps| - 1].value] else []
  }

  /** What `aggregate_odup` writes: nothing without a zone, otherwise a line for each record set that offers a policy. */
  function Aggregated(tld: Name, zone: Option<seq<Rrset>>): seq<string> {
    if zone.None? then [] else Present(AggregateSteps(tld, zone.value))
  }

  /** `aggregate_odup` for a TLD, given what `get_odup_zone` returned. */
  method AggregateOdup(tld: Name, zone: Option<seq<Rrset>>) returns (lines: seq<string>)
    ensures lines == Aggregated(tld, zone)
  {
    if zone.None? {
      return [];
    }
    var z := zone.value;
    ghost var steps := AggregateSteps(tld, z);
    lines := [];
    for i := 0 to |z|
      invariant lines == Present(steps[..i])
    {
      assert steps[..i + 1][..i] == steps[..i];
      var line := AggregateRrset(tld, z[i]);
      if line.Some? {
        lines := lines + [line.value];
      }
    }
    assert steps[..|z|] == steps;
  }

  /** Lines 178-183 for one record set. */
  method AggregateRrset(tld: Name, r: Rrset) returns (line: Option<string>)
    ensures line == AggregateLine(tld, r)
  {
    if !r.isTxt {
      return None;
    }
    var policy := FirstPolicy(r.texts);
    if policy.None? {
      return None;
    }
    var owner := Relativize(Derelativize(r.owner, tld), Root);
    line := Some(StripFetch(RrsetText(owner, r)));
  }

  /** A line is written exactly when some step writes it. */
  lemma {:induction false} PresentHas(steps: seq<Option<string>>, l: string)
    ensures l in Present(steps) <==> exists k :: 0 <= k < |steps| && steps[k] == Some(l)
  {
    if steps != [] {
      var init := steps[..|steps| - 1];
      PresentHas(init, l);
      assert forall k :: 0 <= k < |init| ==> init[k] == steps[k];
      if l in Present(steps) && l !in Present(init) {
        assert steps[|steps| - 1] == Some(l);
      }
    }
  }

  /**
    Every line of the aggregate zone is the text of a TXT record set that
    offers a policy, renamed and without its fetch directives, and no such
    record set is missing.
   */
  lemma AggregatedHas(tld: Name, z: seq<Rrset>, l: string)
    ensures l in Aggregated(tld, Some(z)) <==>
              exists k :: 0 <= k < |z| && AggregateLine(tld, z[k]) == Some(l)
  {
    var steps := AggregateSteps(tld, z);
    PresentHas(steps, l);
  }

  /** No line of the aggregate zone holds a fetch directive, and each keeps the `+org`, `-all` and `+bound` readings of its record set's text. */
  lemma AggregatedReads(tld: Name, z: seq<Rrset>, k: nat)
    requires k < |z| && RrsetPolicy(z[k]).Some?
    ensures var text := RrsetText(AggregateOwner(tld, z[k].owner), z[k]);
      && StripFetch(text) in Aggregated(tld, Some(z))
      && FetchUri(StripFetch(text)).None?
      && HasOrg(StripFetch(text)) == HasOrg(text)
      && HasNegAll(StripFetch(text)) == HasNegAll(text)
      && BoundOf(StripFetch(text)) == BoundOf(text)
  {
    var text := RrsetText(AggregateOwner(tld, z[k].owner), z[k]);
    AggregatedHas(tld, z, StripFetch(text));
    StripFetchLeavesNoFetch(text);
    StripFetchKeepsPolicy(text);
  }
}
