/**
  `psl2odup`: the Public Suffix List turned into the text of an `_odup` zone.
  The ICANN section of the list becomes one TXT record per entry: an
  exception entry (`!name`) an organizational domain (`+org`), a wildcard
  entry (`*.name`) a bound with a label count, every other entry a plain
  bound; the apex of the zone says `+bound -all`. The private section is
  read but never written.
 */
module PslToOdup {
  import opened Wrappers
  import opened Names
  import opened Directives
  import opened PslLines

  /**
    `import_names`: cleaned non-empty lines before the first `BEGIN PRIVATE`
    line add their name to `icann`; that line and the ones after it add to
    `privates`. The sets are the caller's, updated in place.
   */
  method ImportNames(lines: seq<string>, icann0: set<Name>, privates0: set<Name>) returns (icann: set<Name>, privates: set<Name>)
    ensures icann == GatheredRange(icann0, lines, 0, PrivateStart(lines), Listed)
    ensures privates == GatheredRange(privates0, lines, PrivateStart(lines), |lines|, Listed)
  {
    ghost var p := PrivateStart(lines);
    icann, privates := icann0, privates0;
    var inPrivate := false;
    for i := 0 to |lines|
      invariant inPrivate <==> p < i
      invariant !inPrivate ==> icann == GatheredRange(icann0, lines, 0, i, Listed) && privates == privates0
      invariant inPrivate ==> icann == GatheredRange(icann0, lines, 0, p, Listed) && privates == GatheredRange(privates0, lines, p, i, Listed)
    {
      inPrivate := PointerAt(lines, i, inPrivate);
      if inPrivate {
        privates := GatherLine(privates, privates0, lines, p, i);
      } else {
        icann := GatherLine(icann, icann0, lines, 0, i);
      }
    }
    assert inPrivate || p == |lines|;
    assert privates0 == GatheredRange(privates0, lines, |lines|, |lines|, Listed);
  }

  /** Line `i` moves the pointer to the private set, or leaves it there, exactly when it is at or after the first marker line. */
  method PointerAt(lines: seq<string>, i: nat, inPrivate: bool) returns (after: bool)
    requires i < |lines| && (inPrivate <==> PrivateStart(lines) < i)
    ensures after <==> PrivateStart(lines) <= i
  {
    ghost var p := PrivateStart(lines);
    assert i < p ==> !MarksPrivate(lines[i]);
    assert i == p ==> MarksPrivate(lines[i]);
    after := inPrivate;
    if MarksPrivate(lines[i]) {
      after := true;
    }
  }

  /** The ICANN names are the names listed before the `BEGIN PRIVATE` line. */
  lemma ImportedIcann(lines: seq<string>, n: Name)
    ensures n in GatheredRange({}, lines, 0, PrivateStart(lines), Listed) <==>
              exists k :: 0 <= k < PrivateStart(lines) && Listed(lines[k]) == Some(n)
  {
    GatheredParts({}, {}, lines, PrivateStart(lines), Listed);
    GatheredBeforeIs({}, lines, PrivateStart(lines), Listed, n);
  }

  /** The private names are the names listed on the `BEGIN PRIVATE` line or after it. */
  lemma ImportedPrivate(lines: seq<string>, n: Name)
    ensures n in GatheredRange({}, lines, PrivateStart(lines), |lines|, Listed) <==>
              exists k :: PrivateStart(lines) <= k < |lines| && Listed(lines[k]) == Some(n)
  {
    GatheredParts({}, {}, lines, PrivateStart(lines), Listed);
    GatheredFromIs({}, lines, PrivateStart(lines), Listed, n);
  }

  // ---------------------------------------------------------------------------
  // The zone

  /** One TXT record of the zone: its owner as written and its policy, without the quotes. */
  datatype TxtRecord = TxtRecord(owner: string, policy: string)

  /** The zone-file line of a record: owner, tab, `TXT`, tab, the quoted policy. */
  function RecordLine(r: TxtRecord): string {
    r.owner + "\tTXT\t\"" + r.policy + "\""
  }

  /** `v=odup1 +org`. */
  const OrgPolicy := Version + " " + "+org"

  /** `v=odup1 +bound`. */
  const BoundPolicy := Version + " " + "+bound"

  /** `v=odup1 +bound -all`. */
  const ApexPolicy := Version + " " + "+bound" + " " + "-all"

  /** `v=odup1 +bound:N`, N written with `%d`. */
  function WildcardPolicy(labels: int): string {
    Version + " " + ("+bound:" + IntText(labels))
  }

  /** An entry as the list writes it: the presentation form of its name without the trailing dot. */
  function EntryText(name: Name): string {
    RStripDots(ToText(name))
  }

  /** `name[0][0]` raises `IndexError`: the name has no label, or its first label is empty (the root). */
  predicate NoFirstChar(name: Name) {
    |name| == 0 || name[0] == ""
  }

  /** The record written for an ICANN entry; `None` where `name[0][0]` raises `IndexError`. */
  function EntryRecord(name: Name): Option<TxtRecord> {
    if NoFirstChar(name) then None
    else if name[0][0] == '!' then Some(TxtRecord(LStripChar(EntryText(name), '!'), OrgPolicy))
    else if name[0] == "*" then Some(TxtRecord(EntryText(name), WildcardPolicy(|name| - 2)))
    else Some(TxtRecord(EntryText(name), BoundPolicy))
  }

  /** The lines above the entries: origin, TTL, SOA and NS records naming the zone, and the apex policy. */
  function Header(zone: string): (h: seq<string>)
    ensures |h| == 6
  {
    [ "$ORIGIN _odup.",
      "$TTL 604800",
      "@\tSOA\ta." + zone + " root." + zone + " 1 1800 900 604800 86400",
      "\tNS\ta." + zone,
      "\tNS\tb." + zone,
      "\tTXT\t\"" + ApexPolicy + "\"" ]
  }

  /** How `main` ends: all entries written, the zone name rejected (exit status 1), or `IndexError` on an entry. */
  datatype Status = Written | RootZone | IndexError

  /** The number of entries written before the first one whose first label is empty. */
  function Writable(entries: seq<Name>): (k: nat)
    ensures k <= |entries|
    ensures forall j :: 0 <= j < k ==> !NoFirstChar(entries[j])
    ensures k < |entries| ==> NoFirstChar(entries[k])
  {
    WritableFrom(entries, 0)
  }

  /** The index of the first entry at or after `from` whose first label is empty, or the number of entries. */
  function WritableFrom(entries: seq<Name>, from: nat): (k: nat)
    requires from <= |entries|
    ensures from <= k <= |entries|
    ensures forall j :: from <= j < k ==> !NoFirstChar(entries[j])
    ensures k < |entries| ==> NoFirstChar(entries[k])
    decreases |entries| - from
  {
    if from == |entries| || NoFirstChar(entries[from]) then from
    else WritableFrom(entries, from + 1)
  }

  /** An entry has a record exactly when it has a first character. */
  lemma EntryRecordExists(name: Name)
    ensures EntryRecord(name).Some? <==> !NoFirstChar(name)
  {
  }

  /** The zone-file line written for an entry that has a record. */
  function EntryLine(name: Name): string
    requires !NoFirstChar(name)
  {
    RecordLine(EntryRecord(name).value)
  }

  /**
    Lines 71-94 of `main`: the zone name is read as a domain name and
    rejected when it is the root; otherwise the header is written and then
    one line per ICANN entry, in the set's iteration order `entries`, until
    an entry without a first character raises `IndexError`.
   */
  method WriteZone(zoneArg: string, entries: seq<Name>) returns (lines: seq<string>, status: Status)
    ensures status == RootZone <==> FromText(zoneArg) == Root
    ensures status == RootZone ==> lines == []
    ensures status != RootZone ==>
              && lines == Header(ToText(FromText(zoneArg))) + MapSeq(EntryLine, entries[..Writable(entries)])
              && (status == Written <==> Writable(entries) == |entries|)
  {
    var zone := ToText(FromText(zoneArg));
    RootText(zoneArg);
    if zone == "." {
      return [], RootZone;
    }
    var body;
    body, status := WriteEntries(entries);
    lines := Header(zone) + body;
  }

  /** Lines 87-94: one line per entry, until an entry without a first character raises `IndexError`. */
  method WriteEntries(entries: seq<Name>) returns (body: seq<string>, status: Status)
    ensures status != RootZone
    ensures body == MapSeq(EntryLine, entries[..Writable(entries)])
    ensures status == Written <==> Writable(entries) == |entries|
  {
    body := [];
    status := Written;
    for i := 0 to |entries|
      invariant i <= Writable(entries)
      invariant body == MapSeq(EntryLine, entries[..i])
    {
      var name := entries[i];
      if |name| == 0 || name[0] == "" {
        status := IndexError;
        break;
      }
      body := AppendLine(body, entries, i);
    }
    assert status == Written ==> entries[..|entries|] == entries;
  }

  /** The lines written for the first `i` entries, followed by the line of entry `i`. */
  method AppendLine(body: seq<string>, entries: seq<Name>, i: nat) returns (longer: seq<string>)
    requires i < |entries|
    requires forall j :: 0 <= j <= i ==> !NoFirstChar(entries[j])
    requires body == MapSeq(EntryLine, entries[..i])
    ensures longer == MapSeq(EntryLine, entries[..i + 1])
  {
    var line := WriteEntry(entries[i]);
    MapPrefix(EntryLine, entries, i);
    longer := body + [line];
  }

  /** `f` applied to each element, in order. */
  function MapSeq<A, B>(f: A --> B, xs: seq<A>): (ys: seq<B>)
    requires forall j :: 0 <= j < |xs| ==> f.requires(xs[j])
    ensures |ys| == |xs|
  {
    if xs == [] then [] else MapSeq(f, xs[..|xs| - 1]) + [f(xs[|xs| - 1])]
  }

  /** The `j`-th element of the mapped sequence is the image of the `j`-th element. */
  lemma {:induction false} MapSeqAt<A, B>(f: A --> B, xs: seq<A>)
    requires forall j :: 0 <= j < |xs| ==> f.requires(xs[j])
    ensures forall j :: 0 <= j < |xs| ==> MapSeq(f, xs)[j] == f(xs[j])
  {
    if xs != [] {
      var init := xs[..|xs| - 1];
      MapSeqAt(f, init);
      assert forall j :: 0 <= j < |init| ==> init[j] == xs[j];
    }
  }

  /** Mapping one more element of a prefix appends its image. */
  lemma MapPrefix<A, B>(f: A --> B, xs: seq<A>, i: nat)
    requires i < |xs| && forall j :: 0 <= j <= i ==> f.requires(xs[j])
    ensures MapSeq(f, xs[..i + 1]) == MapSeq(f, xs[..i]) + [f(xs[i])]
  {
    assert xs[..i + 1][..i] == xs[..i];
  }

  /** Lines 89-94 for one entry: its text, and the policy its first label selects. */
  method WriteEntry(name: Name) returns (line: string)
    requires !NoFirstChar(name)
    ensures line == EntryLine(name)
  {
    var text := RStripDots(ToText(name));
    if name[0][0] == '!' {
      line := LStripChar(text, '!') + "\tTXT\t\"" + OrgPolicy + "\"";
    } else if name[0] == "*" {
      line := text + "\tTXT\t\"" + WildcardPolicy(|name| - 2) + "\"";
    } else {
      line := text + "\tTXT\t\"" + BoundPolicy + "\"";
    }
  }

  // ---------------------------------------------------------------------------
  // What the resolver reads in the records written

  /** The quotes the record line puts around a policy are the quotes the resolver strips. */
  lemma QuotedPolicy(p: string)
    requires IsOdupV1(p) && p[|p| - 1] != '"'
    ensures Passes("\"" + p + "\"") && StripQuotes("\"" + p + "\"") == p
  {
    StripQuotedPolicy(p);
  }

  /** The version tag is a word, and no directive. */
  lemma VersionIsNoDirective()
    ensures IsWord(Version) && BoundToken(Version) == Unbounded
    ensures !IsDirective(Version, "+org") && !IsDirective(Version, "-all")
  {
    DiffersFrom(Version, "+org", 0);
    DiffersFrom(Version, "-all", 0);
    DiffersFrom(Version, "+bound", 0);
  }

  /**
    What a policy made of the version tag and then the tokens `ts` says:
    `+org` and `-all` are found among `ts`, and so is the first `+bound`.
   */
  lemma VersionThen(p: string, ts: seq<string>)
    requires Tokens(p) == [Version] + ts
    ensures HasOrg(p) == AnyToken(ts, "+org") && HasNegAll(p) == AnyToken(ts, "-all") && BoundOf(p) == FirstBound(ts)
  {
    VersionIsNoDirective();
    AnyTokenCons(Version, ts, "+org");
    AnyTokenCons(Version, ts, "-all");
    FirstBoundCons(Version, ts);
  }

  /** `v=odup1 +org` reads as an organizational domain without a bound. */
  lemma OrgPolicyReads()
    ensures IsOdupV1(OrgPolicy) && HasOrg(OrgPolicy) && BoundOf(OrgPolicy) == Unbounded && !HasNegAll(OrgPolicy)
  {
    TwoWords(Version, "+org");
    assert [Version, "+org"] == [Version] + ["+org"] && ["+org"] == ["+org"] + [];
    VersionThen(OrgPolicy, ["+org"]);
    DiffersFrom("+org", "-all", 0);
    AnyTokenCons("+org", [], "+org");
    AnyTokenCons("+org", [], "-all");
    FirstBoundCons("+org", []);
  }

  /** `v=odup1 +bound` reads as a bound without a label count. */
  lemma BoundPolicyReads()
    ensures IsOdupV1(BoundPolicy) && !HasOrg(BoundPolicy) && BoundOf(BoundPolicy) == Bounded(None) && !HasNegAll(BoundPolicy)
  {
    TwoWords(Version, "+bound");
    assert [Version, "+bound"] == [Version] + ["+bound"] && ["+bound"] == ["+bound"] + [];
    VersionThen(BoundPolicy, ["+bound"]);
    DiffersFrom("+bound", "+org", 1);
    DiffersFrom("+bound", "-all", 0);
    AnyTokenCons("+bound", [], "+org");
    AnyTokenCons("+bound", [], "-all");
    FirstBoundCons("+bound", []);
  }

  /** The apex policy is a bound without a label count that also says `-all`. */
  lemma ApexPolicyReads()
    ensures IsOdupV1(ApexPolicy) && !HasOrg(ApexPolicy) && BoundOf(ApexPolicy) == Bounded(None) && HasNegAll(ApexPolicy)
  {
    ApexTokens();
    ApexTailReads();
    VersionThen(ApexPolicy, ["+bound", "-all"]);
  }

  /** The apex policy is the version tag, then `+bound` and `-all`. */
  lemma ApexTokens()
    ensures Tokens(ApexPolicy) == [Version] + ["+bound", "-all"]
  {
    var tail := "+bound" + " " + "-all";
    assert ApexPolicy == Version + " " + tail;
    TwoWords("+bound", "-all");
    WordThen(Version, tail);
  }

  /** `+bound -all` bounds without a label count, says `-all` and not `+org`. */
  lemma ApexTailReads()
    ensures var tail := ["+bound", "-all"];
      !AnyToken(tail, "+org") && AnyToken(tail, "-all") && FirstBound(tail) == Bounded(None)
  {
    var tail := ["+bound", "-all"];
    assert tail == ["+bound"] + ["-all"] && ["-all"] == ["-all"] + [];
    DiffersFrom("+bound", "+org", 1);
    DiffersFrom("+bound", "-all", 0);
    DiffersFrom("-all", "+org", 0);
    AnyTokenCons("+bound", ["-all"], "+org");
    AnyTokenCons("+bound", ["-all"], "-all");
    AnyTokenCons("-all", [], "+org");
    AnyTokenCons("-all", [], "-all");
    FirstBoundCons("+bound", ["-all"]);
  }

  /** The token `+bound:N` is a word that reads back N and is neither `+org` nor `-all`. */
  lemma LabelsTokenReads(labels: nat)
    ensures var token := "+bound:" + NatText(labels);
            && IsWord(token) && BoundToken(token) == Bounded(Some(labels))
            && !IsDirective(token, "+org") && !IsDirective(token, "-all")
  {
    var digits := NatText(labels);
    var token := "+bound:" + digits;
    assert token[7..] == digits && token[..7] == "+bound:";
    DecimalRoundTrip(labels);
    assert forall j :: 7 <= j < |token| ==> token[j] == digits[j - 7];
    DiffersFrom(token, "+org", 1);
    DiffersFrom(token, "-all", 0);
  }

  /** `v=odup1 +bound:N` reads back the label count N. */
  lemma WildcardPolicyReads(labels: nat)
    ensures var p := WildcardPolicy(labels);
            IsOdupV1(p) && !HasOrg(p) && BoundOf(p) == Bounded(Some(labels)) && !HasNegAll(p)
  {
    var token := "+bound:" + NatText(labels);
    LabelsTokenReads(labels);
    VersionIsNoDirective();
    TwoWords(Version, token);
    assert [Version, token] == [Version] + [token] && [token] == [token] + [];
    VersionThen(WildcardPolicy(labels), [token]);
    AnyTokenCons(token, [], "+org");
    AnyTokenCons(token, [], "-all");
    FirstBoundCons(token, []);
  }

  /**
    A record line quoting policy `p` passes the resolver's version check, the
    quotes come off to give `p` back, and `p` says `+org` exactly when `org`,
    bounds as `bound` and does not say `-all`.
   */
  predicate ReadsAs(p: string, org: bool, bound: BoundDirective) {
    && Passes("\"" + p + "\"") && StripQuotes("\"" + p + "\"") == p
    && HasOrg(p) == org && BoundOf(p) == bound && !HasNegAll(p)
  }

  /** An exception entry's record is an organizational domain without a bound. */
  lemma ExceptionRecordReads(name: Name)
    requires !NoFirstChar(name) && name[0][0] == '!'
    ensures ReadsAs(EntryRecord(name).value.policy, true, Unbounded)
  {
    OrgPolicyReads();
    QuotedPolicy(OrgPolicy);
  }

  /** A wildcard entry's record bounds the realm `len(name) - 2` labels down. */
  lemma WildcardRecordReads(name: Name)
    requires IsAbsolute(name) && name[0] == "*"
    ensures |name| >= 2
    ensures ReadsAs(EntryRecord(name).value.policy, false, Bounded(Some(|name| - 2)))
  {
    var labels: nat := |name| - 2;
    assert EntryRecord(name).value.policy == WildcardPolicy(labels);
    WildcardPolicyReads(labels);
    QuotedPolicy(WildcardPolicy(labels));
  }

  /** Any other entry's record is a bound without a label count. */
  lemma PlainRecordReads(name: Name)
    requires !NoFirstChar(name) && name[0][0] != '!' && name[0] != "*"
    ensures ReadsAs(EntryRecord(name).value.policy, false, Bounded(None))
  {
    BoundPolicyReads();
    QuotedPolicy(BoundPolicy);
  }

  /**
    The record of an entry is what the entry means to the resolver: an
    exception entry an organizational domain, a wildcard entry a bound of
    `len(name) - 2` labels, any other entry a plain bound.
   */
  lemma EntryRecordReads(name: Name)
    requires IsAbsolute(name) && name[0] != ""
    ensures EntryRecord(name).Some?
    ensures ReadsAs(EntryRecord(name).value.policy, name[0][0] == '!',
                    if name[0][0] == '!' then Unbounded
                    else if name[0] == "*" then Bounded(Some(|name| - 2))
                    else Bounded(None))
  {
    if name[0][0] == '!' {
      ExceptionRecordReads(name);
    } else if name[0] == "*" {
      WildcardRecordReads(name);
    } else {
      PlainRecordReads(name);
    }
  }
}
