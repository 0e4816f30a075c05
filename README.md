# ODUP policy resolution and the Public Suffix List converters, in Dafny

ODUP (Organizational Domain and Policy) publishes, under an `_odup` node
beside a domain, TXT policies that tell a resolver where the organizational
domain of a name begins and which policy applies to it. This project models
the three Python programs of the ODUP reference implementation:

- `odup.py`, the resolver. It has three parts:
  - **Policy realm** (`ODUPPolicyRealm`, module `Realm`, class `Realm.PolicyRealm`): an in-memory tree of policies.
    - The tree maps names relative to the realm's origin to an optional policy text.
    - Building it takes three steps: ingest the zone's records, add the default policy at the origin, then fill in the empty non-terminals.
    - Its `resolve` walks the name's ancestry top-down.
  - **Resolver** (`ODUPResolver`, module `Resolver`, class `Resolver.Resolver`). It guesses an organizational-domain boundary, then runs the same longest-match walk against DNS. It starts over with a new boundary when the match is `+org` or `+bound`. Candidate organizational domains that are local realms are handed to those realms.
  - **Response** (`ODUPResponse`, module `Responses`): the object both walks log to and set their answer on.
- The policy grammar, covering `v=odup1`, `+org`, `+bound[:N]`, `-all` and `+fetch:`, is module `Directives`. It is stated on whitespace-delimited tokens. Each regular expression starts at the start of the text or after whitespace. The `-all`, `+org` and `+bound` patterns also end at whitespace or the end of the text. `FETCH_RE` has no end anchor: its greedy `\S+` runs to the next whitespace or the end. So each match of any of them is a whole token.
- The walk both backends share is module `Walk`. It is a fold of per-depth `Probe`s into a running longest match, the depth it was found at and a count of existing labels.
  - The realm's method (`Realm.PolicyRealm.WalkDepths`) and the resolver's method (`Resolver.Resolver.RemoteWalk`) are each proved equal to this fold over their own probes.
  - Each is also proved to append exactly the fold's query log to the response.
- `psl2odup.py` (module `PslToOdup`) reads the Public Suffix List and writes an `_odup` zone. ICANN entries become records: `!name` becomes `+org`, `*.name` becomes `+bound:N`, any other entry becomes `+bound`. Private entries are never written.
- `odup2psl.py` (module `OdupToPsl`) reads the TLDs of a root zone file and the new TLDs of a list. It turns each TLD's transferred `_odup` zone back into list lines, or, in aggregate mode, copies the zone's records without their `+fetch:` directive.
- Module `PslLines` holds the line handling both converters share. Module `RoundTrip` composes the two converters.

Domain names (module `Names`) are label sequences, leftmost label first, as dnspython holds them. An absolute name ends with the empty root label.

Python's `rstrip`, `split`, `strip('"')`, `str.find`, `%d`, `int()` and Python 2 `urlparse` are written out for the inputs the programs give them.

How things outside Dafny are modelled:
- **DNS.** A DNS query is a function `lookup: Name -> Answer`, whose values are NXDOMAIN, no answer, any other DNS error, or the TXT records' texts.
- **Zone transfer.** A zone transfer is the sequence of record sets it delivers, passed in by the caller.
- **Zone files.** A zone file is the sequence of records it holds.
- **Printing.** What a program prints is the sequence of lines a method returns.

How `_resolve`'s recursion is modelled:
- `_resolve` calls itself with a new boundary. The `Resolver.RoundsOnlyDeepen` lemma proves the new boundary is never smaller and never past the name's last label.
- A call with the same boundary repeats itself for ever. In Python 2 that raises `RuntimeError` (maximum recursion depth exceeded). The model returns `Failure(Diverges)` instead. Two cases reach it:
  - a `+org` policy at the organizational domain's own `_odup` node (`Resolver.RemoteApexOrgDiverges`);
  - a local realm whose hint is its own origin.
- The `assert` at the start of `_resolve` is `Failure(OutOfRange)`. It fails only for the root, the one well-formed name with fewer than two labels; a TLD such as `com.` passes (`Resolver.ResolveOutOfRange`), and never after a restart (`Resolver.NeverOutOfRange`).

The realm and the resolver cut a `+org` name differently, and the model keeps both cuts as the code has them:
- the realm hints at the name one label deeper (line 214);
- the resolver restarts with `org_boundary + longest_match_boundary` (line 354).
`Resolver.OrgHintsDiffer` and `Resolver.PolicyDomainsDiffer` state the difference.

The two converters disagree about wildcards:
- `psl2odup` writes `*.tld` as `+bound:1`, because the label count `len(name) - 2` includes the root label.
- `export_psl` drops a TLD's own line only for `+bound:0`.
So a zone made from the list always gives the TLD's line back (`RoundTrip.TldLineKept`).

## Model

A row marked "case view" is a lemma that restates one branch of a definition on its own, so that other proofs can use that branch without unfolding the whole definition.

| member | source | states |
|---|---|---|
| `Directives.HasOrgIsToken` | odup.py:41 | `ORG_RE` matches exactly when some whitespace-delimited token is `+org` or `+org:` followed by a non-empty value |
| `Directives.HasNegAllIsToken` | odup2psl.py:44 | `NEG_ALL_RE` matches exactly when some token is `-all` or `-all:` with a non-empty value |
| `Directives.BoundToken` | odup.py:42 | a token reads as a bare bound exactly when it is `+bound`, and as a bound with a label count exactly when `+bound:` is followed by one or more digits |
| `Directives.FirstBoundIsLeftmost` | odup.py:42 | `BOUND_RE` fails exactly when no token is a `+bound` directive; otherwise its `labels` group is that of the leftmost such token |
| `Directives.NatText` | psl2odup.py:92 | `%d` of a natural number is a non-empty digit string |
| `Directives.DecimalRoundTrip` | odup.py:200 | `int()` of the text `%d` writes gives the number back |
| `Directives.FetchTokenOf` | odup2psl.py:47 | `+fetch:` followed by a word is a fetch token whose `uri` group is that word |
| `Directives.FirstFetchIsToken` | odup2psl.py:92-94 | `FETCH_RE.search` finds nothing exactly when no token is a fetch directive; otherwise `+fetch:` plus the URI it yields is a token of the text |
| `Directives.StripQuotedPolicy` | odup.py:103 | stripping the quotes of a quoted `v=odup1` policy that does not end in a quote gives the policy back |
| `Directives.FirstPolicyNone` | odup.py:315 | the first-passing-record pick finds nothing exactly when no record passes the quote-stripped `v=odup1` check |
| `Directives.FirstPolicyAt` | odup.py:315 | when record `k` is the first to pass the check, the policy is record `k` with its quotes stripped |
| `Directives.Keep` | odup2psl.py:183 | the tokens kept when fetch directives are removed hold no fetch directive |
| `Directives.ScanKeeps` | odup2psl.py:183 | the character-level substitution scan, from a point that does not start a fetch token, leaves exactly the non-fetch tokens in order, and keeps a leading space leading |
| `Directives.StripFetchKeeps` | odup2psl.py:183 | `FETCH_RE.sub('', text)` removes exactly the fetch tokens and keeps every other token, in order |
| `Directives.StripFetchLeavesNoFetch` | odup2psl.py:183 | no `+fetch:` directive is left after the substitution |
| `Directives.FetchIsNoOther` | odup2psl.py:44-47 | a fetch token is neither a `+org`, a `-all` nor a `+bound` token |
| `Directives.KeepReads` | odup2psl.py:183 | dropping fetch tokens keeps the `+org` and `-all` verdicts and the leftmost `+bound` reading |
| `Directives.StripFetchKeepsPolicy` | odup2psl.py:183 | the substitution changes neither `ORG_RE`, `NEG_ALL_RE` nor `BOUND_RE` (with its label count) on the text |
| `Directives.StripFetchTakesQuote` | odup2psl.py:183 | a final `+fetch:uri"` is removed with the closing quote of the TXT text, since `\S+` takes the quote |
| `Names.Last` | odup.py:142 | `name[-k:]` is the rightmost `min(k, len)` labels of the name |
| `Names.LastNested` | odup.py:136-143 | a shorter cut of a name is an ancestor of a longer one, so the walk goes down the ancestry |
| `Names.Relativize` | odup.py:124-125 | a name under the origin, relativized, puts back the origin to give the name; any other name is unchanged |
| `Names.FromText` | psl2odup.py:52 | `dns.name.from_text` always yields an absolute name |
| `Names.RootText` | psl2odup.py:71-75 | the zone name's presentation form is `.` exactly when the name read is the root |
| `Names.RStripDots` | psl2odup.py:90 | `rstrip('.')` removes exactly the trailing dots and leaves a text not ending in a dot |
| `Names.LStripChar` | psl2odup.py:90 | `lstrip('!')` removes exactly the leading `!` characters |
| `Names.SplitDots` | psl2odup.py:52 | splitting at the dots gives at least one piece, none holding a dot |
| `Names.ListForm` | psl2odup.py:90-94 | the list form of a plain name (its presentation form without the trailing dot) is its labels joined with dots |
| `Names.ListFormReads` | psl2odup.py:52 | reading the list form of a plain name back with `from_text` gives the same name |
| `PslLines.RStrip` | psl2odup.py:47 | `rstrip()` removes exactly the trailing whitespace |
| `PslLines.Split` | odup2psl.py:52 | `split()` gives non-empty columns |
| `PslLines.SplitRStrip` | odup2psl.py:52 | `line.rstrip().split()` has the same columns as `line.split()` |
| `PslLines.ContainsIsOccurrence` | psl2odup.py:44 | `re.search('BEGIN PRIVATE', line)` succeeds exactly when the text occurs in the line at some index |
| `PslLines.StripComment` | psl2odup.py:48 | `re.sub(r'//.*', '', line)` keeps exactly the text before the first `//` |
| `PslLines.PrivateStart` | psl2odup.py:43-45 | the first line holding `BEGIN PRIVATE` is found, with no earlier line holding it, or none is |
| `PslLines.ReadListed` | psl2odup.py:47-52 | one list line, stripped and with its comment removed, yields no name when empty and otherwise `from_text` of the rest |
| `PslLines.GatheredIs` | psl2odup.py:56 | a name is in the set after the lines are read exactly when it was there already or some line yields it |
| `PslLines.GatherLine` | psl2odup.py:47-56 | reading one more line extends the set gathered from the section so far by that line's name, if any |
| `PslToOdup.ImportNames` | psl2odup.py:40-56 | the ICANN set gains the names of the lines before the first `BEGIN PRIVATE` line; the private set gains those of that line and every later one |
| `PslToOdup.PointerAt` | psl2odup.py:44-45 | the set pointer is on the private set at line `i` exactly when line `i` or an earlier one holds the marker |
| `PslToOdup.ImportedIcann` | psl2odup.py:42-56 | a name is an ICANN name exactly when a line before the marker line lists it |
| `PslToOdup.ImportedPrivate` | psl2odup.py:44-56 | a name is a private name exactly when the marker line or a later line lists it |
| `PslToOdup.Writable` | psl2odup.py:88-94 | the entries before the cut all have a first character, and the entry at the cut is one whose `name[0][0]` raises |
| `PslToOdup.EntryRecordExists` | psl2odup.py:88-94 | an entry gets a record exactly when its first label has a first character |
| `PslToOdup.WriteZone` | psl2odup.py:71-94 | a root zone name is rejected (exit 1) with nothing written; otherwise six header lines naming the zone, then the entry line of each ICANN entry in iteration order, up to the first entry that raises `IndexError`, and all of them only when none does |
| `PslToOdup.WriteEntries` | psl2odup.py:87-94 | the lines written are the entry lines of the entries before the cut, in order, and all entries are written exactly when there is no cut |
| `PslToOdup.WriteEntry` | psl2odup.py:89-94 | one entry's line is the zone-file line of the record its first label selects |
| `PslToOdup.QuotedPolicy` | odup.py:103 | a policy written between quotes passes the resolver's `v=odup1` check and is read back unchanged |
| `PslToOdup.OrgPolicyReads` | psl2odup.py:90 | `v=odup1 +org` is an ODUP policy with `+org`, no `+bound` and no `-all` |
| `PslToOdup.BoundPolicyReads` | psl2odup.py:94 | `v=odup1 +bound` is an ODUP policy with a bound without a label count and no `+org` or `-all` |
| `PslToOdup.ApexPolicyReads` | psl2odup.py:86 | the apex policy `v=odup1 +bound -all` bounds without a label count, says `-all` and not `+org` |
| `PslToOdup.WildcardPolicyReads` | psl2odup.py:92 | `v=odup1 +bound:N` reads back the label count `N` |
| `PslToOdup.ExceptionRecordReads` | psl2odup.py:89-90 | an exception entry's record says `+org` without a bound |
| `PslToOdup.WildcardRecordReads` | psl2odup.py:91-92 | a wildcard entry's record bounds with label count `len(name) - 2`, which is a natural number |
| `PslToOdup.PlainRecordReads` | psl2odup.py:93-94 | any other entry's record bounds without a label count |
| `PslToOdup.EntryRecordReads` | psl2odup.py:88-94 | every entry with a first character has a record; it says `+org` exactly for `!` entries, and bounds by `len(name) - 2` for `*` entries and without a count otherwise |
| `OdupToPsl.ImportTlds` | odup2psl.py:49-64 | the TLD set gains exactly what each root zone line names, in order |
| `OdupToPsl.ReadTld` | odup2psl.py:52-64 | one line: blank lines and the `.` line name nothing; otherwise the first column names a TLD when the line says `NS`, `IN NS` in columns 1-2, or `IN NS` in columns 2-3 |
| `OdupToPsl.ImportedTld` | odup2psl.py:49-64 | a TLD is imported exactly when some line of the root zone names it |
| `OdupToPsl.ZoneLineColumns` | odup2psl.py:52 | a record line owner/TTL/`IN`/type/data splits into those columns |
| `OdupToPsl.RootZoneLine` | odup2psl.py:52-64 | a root zone record line with a numeric TTL and class `IN` names its owner as a TLD exactly when it is an NS record not owned by the root |
| `OdupToPsl.ReachesPrivate` | odup2psl.py:69-70 | on a line not past the first marker, the search finds `BEGIN PRIVATE` exactly on the first marker line |
| `OdupToPsl.GatherNewTld` | odup2psl.py:72-79 | one more line before the marker adds its name exactly when the name has one label and is not yet a TLD |
| `OdupToPsl.ImportNewTlds` | odup2psl.py:66-79 | reading stops at the first `BEGIN PRIVATE` line, and the new TLD set gains what the lines before it yield |
| `OdupToPsl.ImportedNewTld` | odup2psl.py:66-79 | a new TLD is exactly a one-label name, not already a TLD, listed before the marker line |
| `OdupToPsl.NoZoneWhen` | odup2psl.py:81-119 | under `get_odup_zone` with `uri.hostname` at line 99 (`ZoneSource`), no zone is fetched exactly when the answer has no records, no record passes the `v=odup1` check, the policy has no `+fetch:` token, or the URI's scheme is not `axfr` |
| `OdupToPsl.HostnameRaises` | odup2psl.py:97-99 | the code as written (`ZoneSourceAsWritten`) raises `NameError` exactly when the intended code transfers from a named host, and otherwise agrees with it |
| `OdupToPsl.HostnameRaisesOn` | odup2psl.py:96-99 | on the record `"v=odup1 +fetch:axfr://ns"` the code as written raises `NameError` where the intended code transfers from `ns` |
| `OdupToPsl.ExportPsl` | odup2psl.py:121-164 | `export_psl` writes nothing without a zone, and otherwise writes what the record sets' steps emit up to an apex policy without `-all`, then the TLD unless `+bound:0` was seen or the export stopped |
| `OdupToPsl.ExportRrset` | odup2psl.py:132-158 | one record set: non-TXT sets and sets with no `v=odup1` record are skipped; the apex stops the export without `-all` and is skipped with it; `+org` writes `!owner`, which wins over `+bound`; `+bound` writes the owner and flags `+bound:0` |
| `OdupToPsl.StepInvariant` | odup2psl.py:130-158 | each record set before the stop appends at most its own line, sets `has_wildcard` only by its own `+bound:0`, and the first stop is the end |
| `OdupToPsl.WildcardStep` | odup2psl.py:155-156 | `has_wildcard` becomes true exactly at a written `+bound:0` line |
| `OdupToPsl.ExportedHas` | odup2psl.py:121-164 | a line is written exactly when a record set before the stop writes it, or it is the TLD, nothing stopped the export and no `+bound:0` was seen |
| `OdupToPsl.StopDiscardsRest` | odup2psl.py:144-146 | after an apex policy without `-all`, nothing later in the transfer changes the output, and the TLD line is not written |
| `OdupToPsl.ExportedLines` | odup2psl.py:144-164 | a skipped apex then sets that each write a line gives those lines in order, then the TLD unless one of them was `+bound:0` |
| `OdupToPsl.AggregateOwner` | odup2psl.py:182 | the owner made absolute under the TLD and relative to the root is that absolute name without its root label |
| `OdupToPsl.AggregateOdup` | odup2psl.py:166-183 | `aggregate_odup` writes nothing without a zone, and otherwise one line per record set that offers a policy, in order |
| `OdupToPsl.AggregateRrset` | odup2psl.py:175-183 | one record set: nothing unless TXT with a passing record; otherwise its text under the renamed owner with the fetch directives removed |
| `OdupToPsl.AggregatedHas` | odup2psl.py:166-183 | a line is in the aggregate output exactly when some record set writes it |
| `OdupToPsl.AggregatedReads` | odup2psl.py:182-183 | each policy-bearing record set's line is written, holds no `+fetch:` directive, and keeps the `+org`, `-all` and `+bound` readings of its text |
| `RoundTrip.OwnerText` | psl2odup.py:89-94 | an entry's record owner is the list form of the entry's name less its `!`, and the entry text is that with the `!` put back |
| `RoundTrip.ExceptionText` | psl2odup.py:89-90 | for an exception entry, `lstrip('!')` of the entry text leaves the owner's list form |
| `RoundTrip.OwnerReads` | psl2odup.py:90 | reading a record's owner text as a name gives the entry's owner name |
| `RoundTrip.RelativeOwner` | odup2psl.py:139 | a zone owner below the TLD, relativized and then made absolute under the TLD, is the owner again, and is not the TLD |
| `RoundTrip.EntryStep` | odup2psl.py:139-158 | the record set served for an entry below the TLD exports as the entry's own list line, flagged as wildcard only for the bare `*` |
| `RoundTrip.ReadsStep` | odup2psl.py:141-158 | a record set whose policy reads as `+org`/`+bound`, owned below the TLD, exports as `!owner`, as the owner (flagged for `+bound:0`) or not at all |
| `RoundTrip.ApexSkipped` | odup2psl.py:144-147 | the apex policy `psl2odup` writes (line 86 there) writes nothing and does not end the export |
| `RoundTrip.ZoneRoundTrip` | odup2psl.py:121-164 | a zone made of the apex and the entries' record sets exports as the entries' list lines in order, then the TLD unless an entry is the bare `*` |
| `RoundTrip.TldLineKept` | odup2psl.py:155-164 | for a real TLD the entries' lines are always followed by the TLD's own line |
| `Walk.Absorb` | odup.py:177-201 | one probe: the running match is replaced exactly when the new policy has `+org` or `+bound` or the current match lacks `+bound`; the walk stops on a miss, a DNS error, `+org`, or `+bound:N` with `N < i + 1` (also lines 323-345) |
| `Walk.VisitedStops` | odup.py:136-205 | every depth before the last one consulted lets the walk go on, and the last ends it or is the deepest |
| `Walk.LogEntries` | odup.py:155-174 | the log holds one entry per consulted depth, in depth order |
| `Walk.StopsAtAbsent` | odup.py:172-175 | no depth after an NXDOMAIN (or, remotely, a DNS error, lines 294-309) is consulted |
| `Walk.OnlyVisitedMatter` | odup.py:136-205 | two walks that agree on the consulted depths consult the same depths and end alike |
| `Walk.MatchWasFound` | odup.py:184-187 | the running match was found at an earlier depth with exactly that policy, and no more labels exist than depths seen |
| `Walk.OrgEndsWalk` | odup.py:184-193 | a `+org` policy at a consulted depth becomes the final match and is the last depth consulted |
| `Walk.BoundKeepsPriority` | odup.py:184-187 | once a `+bound` policy is the match, every later match also has `+org` or `+bound` |
| `Walk.PlainDeepestWins` | odup.py:184-187 | without `+bound` policies, the match is the deepest policy found |
| `Realm.WithDefault` | odup.py:112-115 | the origin gets `''` when missing or `None` and keeps its policy otherwise; no other key changes |
| `Realm.ClosedHasAncestors` | odup.py:83-94 | in a map closed under parents, every ancestor of a key is a key |
| `Realm.AnswerAtOrg` | odup.py:213-216 | case view: a final `+org` match gives only an organizational-domain hint: the name cut one label below the match, under the origin |
| `Realm.AnswerAtBound` | odup.py:220-224 | case view: a final `+bound` match with room gives the hint one label below the existing labels |
| `Realm.AnswerWithPolicy` | odup.py:226-231 | case view: any other final match gives its name as policy domain, the origin as organizational domain, and its policy |
| `Realm.AnswerWithoutMatch` | odup.py:232-235 | case view: no match gives the origin alone |
| `Realm.BuiltRealmHasOriginPolicy` | odup.py:52-60 | a realm built from a zone has a policy at its origin, and every ingested name stays a key |
| `Realm.RealmStopSkipsNothing` | odup.py:162-175 | in a closed realm an NXDOMAIN at depth `i` ends the walk there, and no deeper cut of the name is a key |
| `Realm.OriginPolicyMatches` | odup.py:149-154 | with a policy at the origin, every realm walk has a match from depth 0 on |
| `Realm.OriginPolicyNeverUnmatched` | odup.py:207-235 | with a policy at the origin, a realm always has a match, and without a policy domain the match carries `+org` or `+bound` |
| `Realm.PolicyRealm.constructor` | odup.py:45-49 | a realm has an absolute origin and starts empty |
| `Realm.PolicyRealm.FromFile` | odup.py:52-60 | the realm's map is the zone's records ingested in order, with the default at the origin and every missing ancestor filled in as `None` |
| `Realm.PolicyRealm.FromAggregateFile` | odup.py:63-78 | one fresh realm per suffix the records name, each under its own origin, holding its own records ingested in order, completed |
| `Realm.PolicyRealm.SplitAggregate` | odup.py:68-73 | every record goes, renamed, into the realm of its rightmost label, created on first use |
| `Realm.PolicyRealm.Place` | odup.py:69-73 | one aggregate record updates only its own suffix's table, and other realms are kept |
| `Realm.PolicyRealm.Complete` | odup.py:75-77 | the default policy, then the empty non-terminals |
| `Realm.PolicyRealm.AddPolicyFromRdata` | odup.py:96-110 | the name is stored with `Ingested(rdata)`: the quote-stripped text when the record is TXT and that text passes `v=odup1`, otherwise `None`; no other key changes |
| `Realm.PolicyRealm.AddDefaultPolicy` | odup.py:112-115 | the origin gets `''` when it is missing or `None` |
| `Realm.PolicyRealm.PopulateEmptyNonTerminals` | odup.py:83-94 | afterwards every key's parent is a key, old keys keep their values, and every new key is an ancestor of an old one mapped to `None` |
| `Realm.PolicyRealm.AddMissingAncestors` | odup.py:88-94 | the inner loop keeps the old keys and values, adds only `None` ancestors, and closes the map at this name |
| `Realm.PolicyRealm.Resolve` | odup.py:117-235 | the response's log gains the realm walk's queries and its triple is the realm answer for the name relative to the origin |
| `Realm.PolicyRealm.Report` | odup.py:207-235 | the walk's final state becomes the response triple, and the log is unchanged |
| `Realm.PolicyRealm.WalkDepths` | odup.py:133-205 | the loop ends in the walk's final state over the realm's probes and appends its log, leaving the triple alone |
| `Realm.PolicyRealm.Consult` | odup.py:138-175 | depth `i`: exact name, then `*` sibling, else NXDOMAIN; one log entry under `_odup` and the origin |
| `Realm.DistributeStep` | odup.py:68-73 | one more aggregate record updates only the table of its suffix, at its name within the realm |
| `Realm.DistributeKeys` | odup.py:68-72 | the realms of an aggregate zone are exactly the suffixes its records name |
| `Realm.NothingUnder` | odup.py:68-73 | a suffix no record names receives no record |
| `Realm.DistributeIsPerSuffix` | odup.py:68-73 | each realm's table is what ingesting its own records, renamed and in order, gives |
| `Responses.Response.constructor` | odup.py:238-242 | a fresh response has an empty log and no triple |
| `Responses.Response.AddQuery` | odup.py:244-245 | a query is appended to the log and nothing else changes |
| `Responses.Response.SetPolicy` | odup.py:247-250 | the triple is set and the log is unchanged |
| `Resolver.RemoteProbe` | odup.py:292-321 | NXDOMAIN is a miss, another DNS error a failure, no answer an existing empty name even at depth 0, records an existing name at depth > 0 with the first passing policy, if any |
| `Resolver.RemoteRound` | odup.py:281-370 | a DNS round never restarts at a smaller boundary |
| `Resolver.RemoteVerdict` | odup.py:347-370 | the decision on the final match never lowers the boundary |
| `Resolver.Resolver.constructor` | odup.py:253-259 | absent local policies mean none; the lookup is the given DNS resolver |
| `Resolver.Resolver.Resolve` | odup.py:261-262 | `resolve` runs `_resolve` from boundary 1 on a fresh response, and its log and triple are those of the resolution, or it fails as the resolution does |
| `Resolver.Resolver.ResolveFrom` | odup.py:264-370 | `_resolve` raises what the round chain raises and otherwise appends its log and sets its triple |
| `Resolver.Resolver.PlayRound` | odup.py:265-370 | one call of `_resolve` logs its round's queries and ends with its round's verdict, setting the triple when done |
| `Resolver.Resolver.PlayRealmRound` | odup.py:273-279 | the local branch: the realm's walk and answer, returned when it has a policy domain, else restart at `len(org_domain) - 1` |
| `Resolver.Resolver.PlayRemoteRound` | odup.py:281-370 | the DNS branch: the walk's log, then the decision on its final match |
| `Resolver.Resolver.Decide` | odup.py:347-370 | `+org` restarts at boundary plus depth, `+bound` with room below the existing labels, else the triple; no match gives the organizational domain with `""` |
| `Resolver.Resolver.RemoteWalk` | odup.py:281-345 | the loop over `len(name) - b` depths ends in the walk's final state over the DNS probes and appends exactly the walk's log |
| `Resolver.Resolver.Ask` | odup.py:286-321 | depth `i`: the TXT query for the name `i` labels above the organizational domain under `_odup`, its probe and one log entry |
| `Resolver.ResolutionStep` | odup.py:272-370 | case view: a resolution is one round, then either its answer, a divergence on a repeated boundary, or the resolution from the new boundary after the round's log |
| `Resolver.CutUnderOrigin` | odup.py:267-279 | under the candidate organizational domain the relative name is the name's other labels, and a cut of it under the origin is a cut of the name |
| `Resolver.RelativeUnderOrigin` | odup.py:124-125 | the name relativized to its rightmost `b + 1` labels is its other labels |
| `Resolver.RealmAnswerWithin` | odup.py:207-235 | a realm answer's organizational domain is an ancestor of the name at least `b + 1` labels long; with a policy domain it is the candidate itself, there is a policy, and the policy domain lies between the name and it |
| `Resolver.CutWithin` | odup.py:214 | a cut of the relative name under the origin lies between the name and the origin |
| `Resolver.RoundsOnlyDeepen` | odup.py:279 | every restart, local (line 279) or remote (lines 354, 360), is at a boundary no smaller and below the name's length |
| `Resolver.NeverOutOfRange` | odup.py:265 | from a boundary in range the `assert` never fails |
| `Resolver.ResolveOutOfRange` | odup.py:261-265 | `resolve` fails its `assert` exactly for names of fewer than two labels; among well-formed names that is only the root |
| `Resolver.DoneIsSettled` | odup.py:272-370 | a round that returns gives a policy and a policy domain, an organizational domain that is an ancestor of the name at least `b + 1` labels long, and a policy domain between the name and it |
| `Resolver.RemoteDefaultAnswer` | odup.py:367-370 | case view: no remote match gives `(org_domain, org_domain, "")` |
| `Resolver.RemoteMatchAnswer` | odup.py:362-366 | case view: a returning remote round gives the match's name as policy domain, the candidate as organizational domain, and the policy |
| `Resolver.RemoteDoneIsSettled` | odup.py:362-370 | a returning DNS round is settled, as `Resolver.DoneIsSettled` states |
| `Resolver.OrgHintsDiffer` | odup.py:353-354 | a `+org` match at depth `d` restarts DNS resolution at `b + d` but a realm at `b + d + 1` (line 214) |
| `Resolver.RealmOrgRestart` | odup.py:213-216 | a realm's `+org` hint restarts at `b + d + 1` |
| `Resolver.RemoteOrgRestart` | odup.py:353-354 | case view: a DNS `+org` match restarts at `b + d` |
| `Resolver.HintSizeAtOrg` | odup.py:214 | a realm's `+org` hint is `d + 1` labels longer than the origin |
| `Resolver.HintSizeAtBound` | odup.py:222 | a realm's `+bound` hint is `existing + 1` labels longer than the origin |
| `Resolver.HintRestart` | odup.py:279 | case view: a realm answer without policy domain restarts at the hint's length less one |
| `Resolver.PolicyDomainsDiffer` | odup.py:362-366 | a plain match at depth `d` is returned by DNS under the name cut `b + d + 1` labels, but by a realm one label deeper (line 229) |
| `Resolver.RealmPolicyAt` | odup.py:226-231 | a realm's plain match is its answer at the cut `b + d + 2` |
| `Resolver.RemotePolicyAnswer` | odup.py:362-366 | case view: a DNS plain match is the answer at the cut `b + d + 1` |
| `Resolver.RealmPolicyAnswer` | odup.py:276-277 | a realm's plain match is returned as is, with the candidate as organizational domain |
| `Resolver.BoundHintsAgree` | odup.py:358-360 | a `+bound` match with room restarts realm and DNS resolution alike at `b + existing + 1` (lines 220-224 for the realm) |
| `Resolver.RealmBoundRestart` | odup.py:220-224 | a realm's `+bound` hint restarts at `b + existing + 1` |
| `Resolver.RemoteBoundRestart` | odup.py:358-360 | case view: a DNS `+bound` match with room restarts at `b + existing + 1` |
| `Resolver.NoMatchDiffers` | odup.py:367-370 | without a match DNS gives `(org, org, "")`, while a realm restarts at the same boundary (line 234) |
| `Resolver.DefaultWhenApexMissing` | odup.py:294-299 | NXDOMAIN at the candidate's own `_odup` node gives one logged query and `(org, org, "")` |
| `Resolver.RemoteApexOrgDiverges` | odup.py:354 | a `+org` policy at the candidate's own `_odup` node makes `_resolve` call itself with the same boundary for ever |
| `Resolver.ResolvedWithinName` | odup.py:264-370 | every resolution from boundary `b` that returns is settled: a policy, a policy domain between the name and the organizational domain, and an organizational domain that is an ancestor of the name at least `b + 1` labels long |

## Left out

- The command-line `main`, `usage` and getopt handling of all three programs, including `odup2psl`'s `-z` zone header and its loop over the TLDs, and `psl2odup`'s argument count check. They only parse options and call the modelled functions.
- Logging calls. They have no effect on results.
- DNS transport: `dns.resolver.Resolver.query` is the `lookup` function and the DNS answers are its values. The AXFR branch of `get_odup_zone` (NS lookup, `socket.getaddrinfo`, `dns.query.xfr`, lines 100-115 of `odup2psl.py`) is the `Transfer` outcome; the record sets it delivers are a parameter of `ExportPsl` and `AggregateOdup`.
- `dns.zone.from_file` parsing: a zone file is the sequence of its records, already parsed, in iteration order. The zone layout that puts a TLD's records under `_odup.<tld>` is not modelled; owners are given relative to the TLD.
- dnspython name semantics beyond labels: escapes, IDNA (`to_unicode`), name and label length checks, and case-insensitive comparison of names. Names compare label by label as written.
- Python set iteration order. Sets are Dafny sets; where the order shows in the output (`psl2odup`'s records, the TLD loop), the order is an input sequence.
- The `odup.py` `main` that builds local realms from files and prints the triple.
- `OdupToPsl.ZoneSource`: the `ValueError` `urlparse` raises is modelled for unbalanced brackets only, and the network location is split as Python 2.7 does for the URIs a `+fetch:` token can hold; other `urlparse` corner cases (the `http` fast path aside) are left out.
- Python 2's `RuntimeError` for exceeding the recursion depth is not distinguished from other non-termination: a `_resolve` that calls itself with the same boundary is `Failure(Diverges)`.

## Findings

| source | as written | input that shows it | evidently intended | confidence | as-written member | corrected member |
|---|---|---|---|---|---|---|
| odup2psl.py:99 | `dns.name.from_text(url.hostname)` names `url`, which is not defined; the parsed URI is `uri` | the TXT record `"v=odup1 +fetch:axfr://ns"` at `_odup.<tld>` raises `NameError` | `dns.name.from_text(uri.hostname)`: transfer the zone from the host the URI names | high; not executed | `OdupToPsl.ZoneSourceAsWritten` (with `OdupToPsl.HostnameRaisesOn`) | `OdupToPsl.ZoneSource` |
