/**
  `ODUPPolicyRealm`: an in-memory tree of policies for the `_odup` zone of one
  origin. The tree maps names relative to the origin to an optional policy
  text. A name that is not a key does not exist (NXDOMAIN); a key whose value
  is `None` exists without a usable policy (NODATA).
 */
module Realm {
  import opened Wrappers
  import opened Names
  import opened Directives
  import opened Walk
  import opened Responses

  /** A record of the zone: a TXT record with its presentation text (quotes included), or a record of any other type. */
  datatype Rdata = Txt(presentation: string) | OtherType

  /** One `(name, ttl, rdata)` of the zone, the TTL dropped; the name is relative to the zone's `_odup` origin. */
  datatype ZoneRecord = ZoneRecord(owner: Name, rdata: Rdata)

  type Policies = map<Name, Option<string>>

  /** The value `add_policy_from_rdata` stores for a record. */
  function Ingested(rdata: Rdata): Option<string> {
    if rdata.Txt? && IsOdupV1(StripQuotes(rdata.presentation)) then Some(StripQuotes(rdata.presentation)) else None
  }

  /** The map left by adding the records one after the other; a later record for a name replaces an earlier one. */
  function IngestAll(records: seq<ZoneRecord>): Policies {
    if records == [] then map[]
    else
      var last := records[|records| - 1];
      IngestAll(records[..|records| - 1])[last.owner := Ingested(last.rdata)]
  }

  /** The map once a default policy is in place at the origin. */
  function WithDefault(m: Policies): (r: Policies)
    ensures r.Keys == m.Keys + {[]}
    ensures r[[]].Some?
    ensures [] in m && m[[]].Some? ==> r[[]] == m[[]]
    ensures [] !in m || m[[]].None? ==> r[[]] == Some("")
    ensures forall n :: n in m && n != [] ==> r[n] == m[n]
  {
    if [] in m && m[[]].Some? then m else m[[] := Some("")]
  }

  /** Every key other than the origin has its parent as a key. */
  ghost predicate Closed(m: Policies) {
    forall n :: n in m && n != [] ==> n[1..] in m
  }

  /** `a` is a proper ancestor of some key of `m`. */
  ghost predicate Descends(a: Name, m: Policies) {
    exists k :: k in m && IsProperAncestor(a, k)
  }

  /**
    `after` is `before` with its empty non-terminals filled in: the old keys
    keep their values, every key's parent is a key, and each new key is an
    ancestor of an old key, mapped to `None`.
   */
  ghost predicate FilledFrom(before: Policies, after: Policies) {
    Extends(before, after) && Closed(after)
  }

  /** `after` keeps the keys and values of `before`, and maps each new key, an ancestor of an old one, to `None`. */
  ghost predicate Extends(before: Policies, after: Policies) {
    && (forall n :: n in before ==> n in after && after[n] == before[n])
    && (forall n :: n in after && n !in before ==> after[n] == None && Descends(n, before))
  }

  /** Every key outside `pending` other than the origin has its parent as a key. */
  ghost predicate ClosedOutside(m: Policies, pending: set<Name>) {
    forall n :: n in m && n !in pending && n != [] ==> n[1..] in m
  }

  /** In a closed map every ancestor of a key is a key. */
  lemma {:induction false} ClosedHasAncestors(m: Policies, n: Name, j: nat)
    requires Closed(m) && n in m && j <= |n|
    ensures n[j..] in m
  {
    if j > 0 {
      ClosedHasAncestors(m, n, j - 1);
      assert n[j - 1..][1..] == n[j..];
    }
  }

  // ---------------------------------------------------------------------------
  // The walk over a realm

  /** The name a realm resolution works on: the name relative to the origin when it is absolute. */
  function RealmRelative(name: Name, origin: Name): Name {
    if IsAbsolute(name) then Relativize(name, origin) else name
  }

  /** The `*` sibling of the depth-`i` name (`i > 0`). */
  function WildcardName(rel: Name, i: nat): Name
    requires i > 0
  {
    ["*"] + Last(rel, i - 1)
  }

  /**
    The depth-`i` lookup of `rel` in the realm; depth 0 is the origin (the
    empty name), depth `i` the rightmost `i` labels of `rel`. A missing name
    falls back to its `*` sibling when that carries a policy.
   */
  function RealmProbe(m: Policies, rel: Name, i: nat): Probe {
    var test := Last(rel, i);
    if test in m then
      if m[test].Some? then Found(m[test].value, i > 0) else Empty(i > 0)
    else if i > 0 && WildcardName(rel, i) in m && m[WildcardName(rel, i)].Some? then
      Found(m[WildcardName(rel, i)].value, true)
    else Absent
  }

  function RealmProbes(m: Policies, rel: Name): (p: seq<Probe>)
    ensures |p| == |rel| + 1
  {
    seq(|rel| + 1, i requires 0 <= i <= |rel| => RealmProbe(m, rel, i))
  }

  /** The qualified names a realm walk logs: the depth-`i` name under `_odup` under the origin. */
  function RealmQueryNames(origin: Name, rel: Name): (q: seq<Name>)
    ensures |q| == |rel| + 1
  {
    seq(|rel| + 1, i requires 0 <= i <= |rel| => Last(rel, i) + ["_odup"] + origin)
  }

  /**
    The triple a realm resolution sets: a `+org` match gives its name cut one
    label deeper as an organizational-domain hint; a `+bound` match gives the
    name cut below the existing labels, when there is room; any other match is
    the final policy; no match gives the origin alone.
   */
  function RealmAnswer(origin: Name, m: Policies, rel: Name): Triple {
    AnswerFrom(origin, rel, Outcome(RealmProbes(m, rel)))
  }

  /** The triple a realm resolution sets once its walk ended in state `w`. */
  function AnswerFrom(origin: Name, rel: Name, w: WalkState): Triple {
    match w.longest
    case None => Triple(None, origin, None)
    case Some(Match(t, d)) =>
      if HasOrg(t) then Triple(None, Derelativize(Last(rel, d + 1), origin), None)
      else if HasBound(t) && w.existing + 1 <= |rel| then
        Triple(None, Derelativize(Last(rel, w.existing + 1), origin), None)
      else Triple(Some(Derelativize(Last(rel, d + 1), origin)), origin, Some(t))
  }

  // ---------------------------------------------------------------------------
  // Properties of realms

  /** A final match carrying `+org` at depth `d`: a hint at the name cut `d + 1` labels above the origin. */
  lemma AnswerAtOrg(origin: Name, rel: Name, w: WalkState)
    requires w.longest.Some? && HasOrg(w.longest.value.policy)
    ensures AnswerFrom(origin, rel, w) == Triple(None, Derelativize(Last(rel, w.longest.value.depth + 1), origin), None)
  {
  }

  /** A final match carrying `+bound` (and no `+org`) with room below: a hint one label below the existing ones. */
  lemma AnswerAtBound(origin: Name, rel: Name, w: WalkState)
    requires w.longest.Some? && !HasOrg(w.longest.value.policy) && HasBound(w.longest.value.policy)
    requires w.existing + 1 <= |rel|
    ensures AnswerFrom(origin, rel, w) == Triple(None, Derelativize(Last(rel, w.existing + 1), origin), None)
  {
  }

  /** Any other final match is the answer: its name is the policy domain and the origin the organizational domain. */
  lemma AnswerWithPolicy(origin: Name, rel: Name, w: WalkState)
    requires w.longest.Some? && !HasOrg(w.longest.value.policy)
    requires !(HasBound(w.longest.value.policy) && w.existing + 1 <= |rel|)
    ensures AnswerFrom(origin, rel, w) ==
              Triple(Some(Derelativize(Last(rel, w.longest.value.depth + 1), origin)), origin, Some(w.longest.value.policy))
  {
  }

  /** No match at all: the origin is the organizational domain, with neither policy domain nor policy. */
  lemma AnswerWithoutMatch(origin: Name, rel: Name, w: WalkState)
    requires w.longest.None?
    ensures AnswerFrom(origin, rel, w) == Triple(None, origin, None)
  {
  }

  /** A realm built by `from_file` has a policy at its origin. */
  lemma BuiltRealmHasOriginPolicy(records: seq<ZoneRecord>, m: Policies)
    requires FilledFrom(WithDefault(IngestAll(records)), m)
    ensures [] in m && m[[]].Some?
    ensures IngestAll(records).Keys <= m.Keys
  {
  }

  /**
    NXDOMAIN in a closed realm means the whole subtree is missing: when the
    walk stops at a missing name, no deeper name of the target's ancestry is a
    key either, so stopping skips nothing.
   */
  lemma RealmStopSkipsNothing(m: Policies, rel: Name, i: nat)
    requires Closed(m) && i <= |rel|
    requires RealmProbe(m, rel, i) == Absent
    ensures Visited(RealmProbes(m, rel)) <= i + 1
    ensures forall j :: i <= j <= |rel| ==> Last(rel, j) !in m
  {
    var probes := RealmProbes(m, rel);
    assert probes[i] == Absent;
    StopsAtAbsent(probes, i);
    forall j | i <= j <= |rel| ensures Last(rel, j) !in m {
      if Last(rel, j) in m {
        assert Last(rel, j)[j - i..] == Last(rel, i);
        ClosedHasAncestors(m, Last(rel, j), j - i);
      }
    }
  }

  /** With a policy at the origin a realm walk always has a match. */
  lemma {:induction false} OriginPolicyMatches(m: Policies, rel: Name, k: nat)
    requires [] in m && m[[]].Some?
    requires 1 <= k <= |rel| + 1
    ensures After(RealmProbes(m, rel), k).longest.Some?
  {
    var probes := RealmProbes(m, rel);
    if k == 1 {
      assert probes[0] == RealmProbe(m, rel, 0) == Found(m[[]].value, false);
    } else {
      OriginPolicyMatches(m, rel, k - 1);
    }
  }

  /**
    Hence a realm with an origin policy always ends with a match, and answers
    without a policy domain only when that match carries `+org` or `+bound`.
   */
  lemma OriginPolicyNeverUnmatched(origin: Name, m: Policies, rel: Name)
    requires [] in m && m[[]].Some?
    ensures Outcome(RealmProbes(m, rel)).longest.Some?
    ensures var p := Outcome(RealmProbes(m, rel)).longest.value.policy;
            RealmAnswer(origin, m, rel).policyDomain.None? ==> HasOrg(p) || HasBound(p)
  {
    var probes := RealmProbes(m, rel);
    assert probes[0] == Found(m[[]].value, false);
    VisitedStops(probes);
    OriginPolicyMatches(m, rel, Visited(probes));
  }

  // ---------------------------------------------------------------------------

  class PolicyRealm {
    const origin: Name
    var policies: Policies

    constructor (origin: Name)
      requires IsAbsolute(origin)
      ensures this.origin == origin && policies == map[]
    {
      this.origin := origin;
      policies := map[];
    }

    /** `from_file`: ingest the zone's records, add the default policy, fill in empty non-terminals. */
    static method FromFile(origin: Name, records: seq<ZoneRecord>) returns (realm: PolicyRealm)
      requires IsAbsolute(origin)
      ensures fresh(realm) && realm.origin == origin
      ensures FilledFrom(WithDefault(IngestAll(records)), realm.policies)
    {
      realm := new PolicyRealm(origin);
      var k := 0;
      while k < |records|
        invariant 0 <= k <= |records|
        invariant fresh(realm) && realm.origin == origin
        invariant realm.policies == IngestAll(records[..k])
      {
        realm.AddPolicyFromRdata(records[k].owner, records[k].rdata);
        assert records[..k + 1][..k] == records[..k];
        k := k + 1;
      }
      assert records[..k] == records;
      realm.AddDefaultPolicy();
      realm.PopulateEmptyNonTerminals();
    }

    /**
      `from_aggregate_file`: each record's rightmost label, put under the
      origin, names the realm it goes to, and the rest of its name becomes the
      name within that realm. Each realm then gets its default policy and its
      empty non-terminals.
     */
    static method FromAggregateFile(origin: Name, records: seq<ZoneRecord>) returns (realms: map<Name, PolicyRealm>)
      requires IsAbsolute(origin)
      ensures realms.Keys == Distribute(records, origin).Keys
      ensures forall s :: s in realms ==> fresh(realms[s]) && realms[s].origin == s
      ensures forall s :: s in realms ==> FilledFrom(WithDefault(Distribute(records, origin)[s]), realms[s].policies)
    {
      realms := SplitAggregate(origin, records);
      ghost var tables := Distribute(records, origin);
      var todo := realms.Keys;
      while todo != {}
        invariant todo <= realms.Keys == tables.Keys
        invariant forall s :: s in realms ==> fresh(realms[s]) && realms[s].origin == s
        invariant forall s :: s in todo ==> realms[s].policies == tables[s]
        invariant forall s :: s in realms && s !in todo ==> FilledFrom(WithDefault(tables[s]), realms[s].policies)
        decreases todo
      {
        var s :| s in todo;
        realms[s].Complete();
        todo := todo - {s};
      }
    }

    /** The first loop of `from_aggregate_file`: every record goes into the realm of its suffix, created on first use. */
    static method SplitAggregate(origin: Name, records: seq<ZoneRecord>) returns (realms: map<Name, PolicyRealm>)
      requires IsAbsolute(origin)
      ensures forall s :: s in realms ==> fresh(realms[s])
      ensures Mirrors(realms, Distribute(records, origin))
    {
      realms := map[];
      var k := 0;
      while k < |records|
        invariant k <= |records|
        invariant forall s :: s in realms ==> fresh(realms[s])
        invariant Mirrors(realms, Distribute(records[..k], origin))
      {
        realms := PlaceNext(realms, records, k, origin);
        k := k + 1;
      }
      MirrorsAll(realms, records, origin);
    }

    /** The body of that loop: record `k` goes where `Distribute` puts it. */
    static method PlaceNext(realms: map<Name, PolicyRealm>, records: seq<ZoneRecord>, k: nat, origin: Name)
        returns (placed: map<Name, PolicyRealm>)
      requires k < |records| && IsAbsolute(origin)
      requires Mirrors(realms, Distribute(records[..k], origin))
      modifies realms.Values
      ensures forall s :: s in placed ==> (s in realms && placed[s] == realms[s]) || fresh(placed[s])
      ensures Mirrors(placed, Distribute(records[..k + 1], origin))
    {
      ghost var tables := Distribute(records[..k], origin);
      var suffix := SuffixOf(records[k], origin);
      var within := WithinRealm(records[k]);
      placed := Place(realms, tables, suffix, within.owner, within.rdata);
      MirrorsNext(placed, records, k, origin);
    }

    /** One record of an aggregate zone: its realm, created when it is the first one for this suffix, ingests it. */
    static method Place(realms: map<Name, PolicyRealm>, ghost tables: map<Name, Policies>, suffix: Name, name: Name, rdata: Rdata)
        returns (placed: map<Name, PolicyRealm>)
      requires IsAbsolute(suffix)
      requires Mirrors(realms, tables)
      modifies if suffix in realms then {realms[suffix]} else {}
      ensures forall s :: s in placed ==> (s in realms && placed[s] == realms[s]) || fresh(placed[s])
      ensures Mirrors(placed, tables[suffix := (if suffix in tables then tables[suffix] else map[])[name := Ingested(rdata)]])
    {
      ghost var table := if suffix in tables then tables[suffix] else map[];
      var realm;
      placed, realm := RealmOf(realms, tables, suffix);
      IngestInto(placed, tables, suffix, table, name, rdata);
    }

    /** The realm of `suffix` ingests the record; the other realms keep their tables. */
    static method IngestInto(placed: map<Name, PolicyRealm>, ghost tables: map<Name, Policies>, suffix: Name, ghost table: Policies,
                             name: Name, rdata: Rdata)
      requires suffix in placed && Mirrors(placed, tables[suffix := table])
      modifies placed[suffix]
      ensures Mirrors(placed, tables[suffix := table[name := Ingested(rdata)]])
    {
      var realm := placed[suffix];
      assert forall s :: s in placed && s != suffix ==> placed[s] != realm;
      realm.AddPolicyFromRdata(name, rdata);
      ghost var after := tables[suffix := table[name := Ingested(rdata)]];
      assert forall s :: s in placed && s != suffix ==> placed[s].policies == after[s];
      assert placed.Keys == after.Keys;
    }

    /** The realm of a suffix: the one already made for it, or a new empty one. */
    static method RealmOf(realms: map<Name, PolicyRealm>, ghost tables: map<Name, Policies>, suffix: Name)
        returns (placed: map<Name, PolicyRealm>, realm: PolicyRealm)
      requires IsAbsolute(suffix)
      requires Mirrors(realms, tables)
      ensures placed == realms[suffix := realm]
      ensures suffix in realms ==> realm == realms[suffix]
      ensures suffix !in realms ==> fresh(realm)
      ensures Mirrors(placed, tables[suffix := if suffix in tables then tables[suffix] else map[]])
    {
      if suffix in realms {
        realm := realms[suffix];
        placed := realms;
      } else {
        realm := new PolicyRealm(suffix);
        placed := realms[suffix := realm];
      }
    }

    /** The second loop of `from_aggregate_file`, for one realm: the default policy, then the empty non-terminals. */
    method Complete()
      modifies this`policies
      ensures FilledFrom(WithDefault(old(policies)), policies)
    {
      AddDefaultPolicy();
      PopulateEmptyNonTerminals();
    }

    /**
      `add_policy_from_rdata`: a record that is not TXT, or whose text with
      its quotes stripped fails the `v=odup1` check, marks the name as
      existing without a policy; otherwise the stripped text is the name's
      policy.
     */
    method AddPolicyFromRdata(name: Name, rdata: Rdata)
      modifies this`policies
      ensures policies == old(policies)[name := Ingested(rdata)]
    {
      if !rdata.Txt? {
        policies := policies[name := None];
        return;
      }
      var text := StripQuotes(rdata.presentation);
      if !IsOdupV1(text) {
        policies := policies[name := None];
        return;
      }
      policies := policies[name := Some(text)];
    }

    /** `add_default_policy`: an origin that is missing or has no policy gets the empty policy. */
    method AddDefaultPolicy()
      modifies this`policies
      ensures policies == WithDefault(old(policies))
    {
      if [] !in policies || policies[[]].None? {
        policies := policies[[] := Some("")];
      }
    }

    /**
      `populate_empty_non_terminals`: walk up from every key, adding each
      missing ancestor with no policy until an existing name is reached.
     */
    method PopulateEmptyNonTerminals()
      modifies this`policies
      ensures FilledFrom(old(policies), policies)
    {
      ghost var before := policies;
      var pending := policies.Keys;
      while pending != {}
        invariant pending <= before.Keys
        invariant Extends(before, policies)
        invariant ClosedOutside(policies, pending)
        decreases pending
      {
        var name :| name in pending;
        pending := pending - {name};
        if name != [] {
          AddMissingAncestors(name, before, pending);
        }
      }
    }

    /** The inner loop of `populate_empty_non_terminals`: add the missing ancestors of `name`, nearest first, up to an existing name. */
    method AddMissingAncestors(name: Name, ghost before: Policies, ghost pending: set<Name>)
      requires name in before && name != [] && pending <= before.Keys
      requires Extends(before, policies)
      requires ClosedOutside(policies, pending + {name})
      modifies this`policies
      ensures Extends(before, policies)
      ensures ClosedOutside(policies, pending)
    {
      var parent := name[1..];
      ghost var child := name;
      while parent !in policies
        invariant child in policies && child != [] && parent == child[1..]
        invariant IsProperAncestor(parent, name)
        invariant Extends(before, policies)
        invariant ClosedOutside(policies, pending + {child})
        decreases |parent|
      {
        policies := policies[parent := None];
        if parent == [] {
          break;
        }
        child := parent;
        parent := parent[1..];
      }
    }

    /**
      `resolve`: walk the ancestry of `name` top-down from the origin, log one
      query per consulted depth, and set the triple of `RealmAnswer`.
     */
    method Resolve(name: Name, response: Response)
      requires IsAbsolute(name) ==> IsSubdomain(name, origin)
      modifies response
      ensures var rel := RealmRelative(name, origin);
              response.queries == old(response.queries) + WalkLog(RealmQueryNames(origin, rel), RealmProbes(policies, rel))
      ensures response.Result() == Some(RealmAnswer(origin, policies, RealmRelative(name, origin)))
    {
      var rel := RealmRelative(name, origin);
      var longestMatch, longestMatchBoundary, existingLabels := WalkDepths(rel, response);
      Report(rel, longestMatch, longestMatchBoundary, existingLabels, response);
    }

    /** The end of `resolve`: turn the walk's final state into the response's policy triple. */
    method Report(rel: Name, longestMatch: Option<string>, longestMatchBoundary: nat, existingLabels: nat, response: Response)
      modifies response
      ensures response.queries == old(response.queries)
      ensures response.Result() == Some(AnswerFrom(origin, rel, AsState(longestMatch, longestMatchBoundary, existingLabels)))
    {
      if longestMatch.Some? {
        var text := longestMatch.value;
        if HasOrg(text) {
          response.SetPolicy(Triple(None, Derelativize(Last(rel, longestMatchBoundary + 1), origin), None));
          return;
        }
        if HasBound(text) && existingLabels + 1 <= |rel| {
          response.SetPolicy(Triple(None, Derelativize(Last(rel, existingLabels + 1), origin), None));
          return;
        }
        response.SetPolicy(Triple(Some(Derelativize(Last(rel, longestMatchBoundary + 1), origin)), origin, longestMatch));
      } else {
        response.SetPolicy(Triple(None, origin, None));
      }
    }

    /**
      The loop of `resolve`: consult depth 0 (the origin) up to the whole
      name, keeping the running longest match and the existing-labels count.
     */
    method WalkDepths(rel: Name, response: Response)
        returns (longestMatch: Option<string>, longestMatchBoundary: nat, existingLabels: nat)
      modifies response
      ensures AsState(longestMatch, longestMatchBoundary, existingLabels) == Outcome(RealmProbes(policies, rel))
      ensures response.queries == old(response.queries) + WalkLog(RealmQueryNames(origin, rel), RealmProbes(policies, rel))
      ensures response.Result() == old(response.Result())
    {
      var table := policies;
      ghost var probes := RealmProbes(table, rel);
      ghost var names := RealmQueryNames(origin, rel);
      longestMatch, longestMatchBoundary, existingLabels := None, 0, 0;
      var i := 0;
      while i < |rel| + 1
        invariant 0 <= i <= |rel| + 1
        invariant AsState(longestMatch, longestMatchBoundary, existingLabels) == After(probes, i)
        invariant Visited(probes) == VisitedFrom(probes, i)
        invariant response.queries == old(response.queries) + LogUpTo(names, probes, i)
        invariant response.Result() == old(response.Result())
      {
        var probe := Consult(table, rel, i, response);
        assert names[i] == Last(rel, i) + ["_odup"] + origin && probes[i] == probe;
        var stop;
        longestMatch, longestMatchBoundary, existingLabels, stop :=
          Absorb(probe, i, longestMatch, longestMatchBoundary, existingLabels);
        Advance(names, probes, i, old(response.queries), response.queries,
                AsState(longestMatch, longestMatchBoundary, existingLabels), stop);
        if stop {
          break;
        }
        i := i + 1;
      }
      if i == |rel| + 1 {
        WalkDone(names, probes);
      }
    }

    /**
      One depth of `resolve` over the realm's policy map `table`: the
      depth-`i` name when it is a key (NODATA when it has no policy), else its
      `*` sibling when that has a policy, else NXDOMAIN; the query is logged
      under `_odup` under the origin.
     */
    method Consult(table: Policies, rel: Name, i: nat, response: Response) returns (probe: Probe)
      requires i <= |rel|
      modifies response
      ensures probe == RealmProbe(table, rel, i)
      ensures response.queries == old(response.queries) + [Entry(Last(rel, i) + ["_odup"] + origin, probe)]
      ensures response.Result() == old(response.Result())
    {
      var testDomain := Last(rel, i);
      var qualified := testDomain + ["_odup"] + origin;
      if testDomain in table {
        if table[testDomain].Some? {
          probe := Found(table[testDomain].value, i > 0);
          response.AddQuery(Query(qualified, Some(NOERROR), table[testDomain]));
        } else {
          probe := Empty(i > 0);
          response.AddQuery(Query(qualified, Some(NOERROR), None));
        }
      } else if i > 0 && WildcardName(rel, i) in table && table[WildcardName(rel, i)].Some? {
        probe := Found(table[WildcardName(rel, i)].value, true);
        response.AddQuery(Query(qualified, Some(NOERROR), table[WildcardName(rel, i)]));
      } else {
        probe := Absent;
        response.AddQuery(Query(qualified, Some(NXDOMAIN), None));
      }
    }
  }

  // ---------------------------------------------------------------------------
  // Splitting an aggregate zone into realms

  /** The realm a record of an aggregate zone goes to: its rightmost label under the origin. */
  function SuffixOf(r: ZoneRecord, origin: Name): (s: Name)
    ensures IsAbsolute(origin) ==> IsAbsolute(s)
  {
    DerelativizedIsAbsolute(Last(r.owner, 1), origin);
    Derelativize(Last(r.owner, 1), origin)
  }

  /** The record's name within its realm: `name[:-1]`. */
  function WithinRealm(r: ZoneRecord): ZoneRecord {
    ZoneRecord(if |r.owner| > 0 then r.owner[..|r.owner| - 1] else [], r.rdata)
  }

  /** Each realm object sits under its own origin and holds the policy map of that realm. */
  ghost predicate Mirrors(realms: map<Name, PolicyRealm>, tables: map<Name, Policies>)
    reads realms.Values
  {
    && realms.Keys == tables.Keys
    && (forall s :: s in realms ==> realms[s].origin == s)
    && (forall s :: s in realms ==> realms[s].policies == tables[s])
  }

  /** The policy maps of an aggregate zone, realm by realm, as the records fill them in order. */
  function Distribute(records: seq<ZoneRecord>, origin: Name): map<Name, Policies> {
    if records == [] then map[]
    else
      var tables := Distribute(records[..|records| - 1], origin);
      var last := records[|records| - 1];
      var s := SuffixOf(last, origin);
      var r := WithinRealm(last);
      tables[s := (if s in tables then tables[s] else map[])[r.owner := Ingested(r.rdata)]]
  }

  /** One more record goes into the table of its own suffix. */
  lemma DistributeStep(records: seq<ZoneRecord>, k: nat, origin: Name)
    requires k < |records|
    ensures var tables := Distribute(records[..k], origin);
            var s := SuffixOf(records[k], origin);
            var r := WithinRealm(records[k]);
            Distribute(records[..k + 1], origin) == tables[s := (if s in tables then tables[s] else map[])[r.owner := Ingested(r.rdata)]]
  {
    assert records[..k + 1][..k] == records[..k];
  }

  /** Realms that mirror the tables with record `k` ingested mirror the distribution of one more record. */
  lemma MirrorsNext(placed: map<Name, PolicyRealm>, records: seq<ZoneRecord>, k: nat, origin: Name)
    requires k < |records|
    requires var tables := Distribute(records[..k], origin);
             var s := SuffixOf(records[k], origin);
             var r := WithinRealm(records[k]);
             Mirrors(placed, tables[s := (if s in tables then tables[s] else map[])[r.owner := Ingested(r.rdata)]])
    ensures Mirrors(placed, Distribute(records[..k + 1], origin))
  {
    DistributeStep(records, k, origin);
  }

  /** Realms that mirror the distribution of all the records, taken as a prefix. */
  lemma MirrorsAll(realms: map<Name, PolicyRealm>, records: seq<ZoneRecord>, origin: Name)
    requires Mirrors(realms, Distribute(records[..|records|], origin))
    ensures Mirrors(realms, Distribute(records, origin))
  {
    assert records[..|records|] == records;
  }

  /** The realms the records of an aggregate zone name. */
  function SuffixesOf(records: seq<ZoneRecord>, origin: Name): set<Name> {
    if records == [] then {}
    else SuffixesOf(records[..|records| - 1], origin) + {SuffixOf(records[|records| - 1], origin)}
  }

  /** The records of an aggregate zone that go to realm `s`, renamed within it, in order. */
  function RecordsUnder(records: seq<ZoneRecord>, origin: Name, s: Name): seq<ZoneRecord> {
    if records == [] then []
    else
      var last := records[|records| - 1];
      RecordsUnder(records[..|records| - 1], origin, s) + (if SuffixOf(last, origin) == s then [WithinRealm(last)] else [])
  }

  lemma IngestOneMore(records: seq<ZoneRecord>, r: ZoneRecord)
    ensures IngestAll(records + [r]) == IngestAll(records)[r.owner := Ingested(r.rdata)]
  {
    assert (records + [r])[..|records|] == records;
  }

  /** The aggregate zone splits into one realm per suffix some record names. */
  lemma {:induction false} DistributeKeys(records: seq<ZoneRecord>, origin: Name)
    ensures Distribute(records, origin).Keys == SuffixesOf(records, origin)
  {
    if records != [] {
      DistributeKeys(records[..|records| - 1], origin);
    }
  }

  /** A suffix no record names receives no record. */
  lemma {:induction false} NothingUnder(records: seq<ZoneRecord>, origin: Name, s: Name)
    requires s !in Distribute(records, origin)
    ensures RecordsUnder(records, origin, s) == []
  {
    if records != [] {
      NothingUnder(records[..|records| - 1], origin, s);
    }
  }

  /** Each realm holds exactly what ingesting its own records, in order, gives. */
  lemma {:induction false} DistributeIsPerSuffix(records: seq<ZoneRecord>, origin: Name, s: Name)
    requires s in Distribute(records, origin)
    ensures Distribute(records, origin)[s] == IngestAll(RecordsUnder(records, origin, s))
  {
    var init := records[..|records| - 1];
    var last := records[|records| - 1];
    if s in Distribute(init, origin) {
      DistributeIsPerSuffix(init, origin, s);
    } else {
      NothingUnder(init, origin, s);
    }
    if SuffixOf(last, origin) == s {
      IngestOneMore(RecordsUnder(init, origin, s), WithinRealm(last));
    } else {
      assert RecordsUnder(records, origin, s) == RecordsUnder(init, origin, s) + [];
      assert RecordsUnder(init, origin, s) + [] == RecordsUnder(init, origin, s);
    }
  }
}
