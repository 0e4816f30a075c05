/**
  `ODUPResolver`: the organizational domain and policy of a name. The
  resolver guesses an organizational-domain boundary (how many labels of the
  name, the root not counted, form the organizational domain), runs the
  longest-match walk under that domain's `_odup` node, and starts over with a
  new boundary when the match is a `+org` or `+bound` directive. A candidate
  organizational domain that is a key of the local realms is resolved by that
  realm instead of by DNS.
 */
module Resolver {
  import opened Wrappers
  import opened Names
  import opened Directives
  import opened Walk
  import opened Responses
  import opened Realm

  /** What a TXT query for a name answers; `Records` holds the presentation texts of the answer's records. */
  datatype Answer = NxDomain | NoAnswer | DnsError | Records(texts: seq<string>)

  /**
    Why `_resolve` gives no answer: the `assert` on the boundary fails, or
    the method calls itself with the very same arguments for ever.
   */
  datatype Failure = OutOfRange | Diverges

  /** The queries logged and the triple set by a resolution. */
  datatype Resolved = Resolved(log: seq<Query>, answer: Triple)

  // ---------------------------------------------------------------------------
  // The remote walk

  /**
    The name queried at depth `i` under boundary `b`: the `i` labels above
    the organizational domain, then `_odup`, then the organizational domain
    (the rightmost `b + 1` labels).
   */
  function QueryName(name: Name, b: nat, i: nat): Name
    requires b + 1 + i <= |name|
  {
    name[|name| - (b + 1 + i)..|name| - (b + 1)] + ["_odup"] + Last(name, b + 1)
  }

  /**
    What an answer tells the walk at depth `i`: NXDOMAIN and DNS errors
    end it; NODATA counts an existing label even at depth 0, an answer with
    records only below depth 0; the first record passing the `v=odup1` check
    is the policy.
   */
  function RemoteProbe(a: Answer, i: nat): (p: Probe)
    ensures p.Absent? <==> a.NxDomain?
    ensures p.Failed? <==> a.DnsError?
    ensures p.Found? <==> a.Records? && FirstPolicy(a.texts).Some?
    ensures p.Found? ==> p.policy == FirstPolicy(a.texts).value
    ensures a.NoAnswer? ==> p == Empty(true)
    ensures a.Records? ==> p.counts == (i > 0)
  {
    match a
    case NxDomain => Absent
    case NoAnswer => Empty(true)
    case DnsError => Failed
    case Records(texts) =>
      match FirstPolicy(texts)
      case None => Empty(i > 0)
      case Some(t) => Found(t, i > 0)
  }

  function RemoteNames(name: Name, b: nat): (q: seq<Name>)
    requires 1 <= b < |name|
    ensures |q| == |name| - b
  {
    seq(|name| - b, i requires 0 <= i < |name| - b => QueryName(name, b, i))
  }

  /** The probes of the remote walk under boundary `b`, one per depth from 0 to `len(name) - b - 1`. */
  function RemoteProbes(lookup: Name -> Answer, name: Name, b: nat): (p: seq<Probe>)
    requires 1 <= b < |name|
    ensures |p| == |name| - b
  {
    seq(|name| - b, i requires 0 <= i < |name| - b => RemoteProbe(lookup(QueryName(name, b, i)), i))
  }

  // ---------------------------------------------------------------------------
  // Resolution

  /** The queries `log` come before those of a resolution that follows. */
  function Then(log: seq<Query>, r: Result<Resolved, Failure>): Result<Resolved, Failure> {
    match r
    case Success(Resolved(more, t)) => Success(Resolved(log + more, t))
    case Failure(e) => Failure(e)
  }

  /** How one call of `_resolve` ends: with the triple it returns, or by calling itself with another boundary. */
  datatype Verdict = Done(answer: Triple) | Restart(boundary: int)

  /** The queries one call of `_resolve` logs itself, and how it ends. */
  datatype Round = Round(log: seq<Query>, verdict: Verdict)

  /**
    A call that a local realm answers: the realm's triple when it names a
    policy domain; otherwise its organizational domain is a hint and the
    resolution starts over below it (with the same boundary when the hint is
    the realm's origin).
   */
  function RealmRound(m: Policies, name: Name, b: nat): (r: Round)
    requires 1 <= b < |name|
  {
    var org := Last(name, b + 1);
    var rel := RealmRelative(name, org);
    var probes := RealmProbes(m, rel);
    Round(WalkLog(RealmQueryNames(org, rel), probes), RealmVerdict(name, b, Outcome(probes)))
  }

  /** The verdict of a realm round whose walk ended in `w`. */
  function RealmVerdict(name: Name, b: nat, w: WalkState): Verdict
    requires 1 <= b < |name|
  {
    var org := Last(name, b + 1);
    var t := AnswerFrom(org, RealmRelative(name, org), w);
    if t.policyDomain.Some? then Done(t) else Restart(|t.orgDomain| - 1)
  }

  /**
    A call that queries DNS: `+org` at depth `d` starts over at boundary
    `b + d` (with the same boundary when `d` is 0), `+bound` below the existing
    labels when there is room, any other match is the answer, and no match at
    all gives the organizational domain with the empty policy.
   */
  function RemoteRound(lookup: Name -> Answer, name: Name, b: nat): (r: Round)
    requires 1 <= b < |name|
    ensures r.verdict.Restart? ==> r.verdict.boundary >= b
  {
    var probes := RemoteProbes(lookup, name, b);
    Round(WalkLog(RemoteNames(name, b), probes), RemoteVerdict(name, b, Outcome(probes)))
  }

  /** The verdict of a remote round whose walk ended in `w`. */
  function RemoteVerdict(name: Name, b: nat, w: WalkState): (v: Verdict)
    requires 1 <= b < |name|
    ensures v.Restart? ==> v.boundary >= b
  {
    var org := Last(name, b + 1);
    match w.longest
    case None => Done(Triple(Some(org), org, Some("")))
    case Some(Match(t, d)) =>
      if HasOrg(t) then Restart(b + d)
      else if HasBound(t) && b + w.existing + 1 <= |name| - 1 then Restart(b + w.existing + 1)
      else Done(Triple(Some(Last(name, b + d + 1)), org, Some(t)))
  }

  /** One call of `_resolve` with a boundary in range; `locals` are the policy maps of the local realms, by origin. */
  function OneRound(lookup: Name -> Answer, locals: map<Name, Policies>, name: Name, b: nat): Round
    requires 1 <= b < |name|
  {
    var org := Last(name, b + 1);
    if org in locals then RealmRound(locals[org], name, b) else RemoteRound(lookup, name, b)
  }

  /** The rounds of the resolutions of `name`, by boundary. */
  function Rounds(lookup: Name -> Answer, locals: map<Name, Policies>, name: Name): int -> Round {
    b => if 1 <= b < |name| then OneRound(lookup, locals, name, b) else Round([], Restart(b))
  }

  /**
    `_resolve` from boundary `b` on a name of `size` labels, each call doing
    the round `rounds` gives for its boundary: a boundary out of range fails
    the `assert`; a round calling `_resolve` with a boundary no larger than its
    own repeats itself for ever (the boundary never shrinks, see
    `RoundsOnlyDeepen`); otherwise the resolution goes on from the new boundary.
   */
  function Chain(rounds: int -> Round, size: nat, b: int): Result<Resolved, Failure>
    decreases size - b
  {
    if !(1 <= b < size) then Failure(OutOfRange)
    else
      var r := rounds(b);
      match r.verdict
      case Done(t) => Success(Resolved(r.log, t))
      case Restart(next) => if next <= b then Failure(Diverges) else Then(r.log, Chain(rounds, size, next))
  }

  /** `_resolve(name, b)`, to its end. */
  function Resolution(lookup: Name -> Answer, locals: map<Name, Policies>, name: Name, b: int): Result<Resolved, Failure> {
    Chain(Rounds(lookup, locals, name), |name|, b)
  }

  /** `rounds` agrees with `OneRound` on every boundary in range. */
  ghost predicate RoundsOf(rounds: int -> Round, lookup: Name -> Answer, locals: map<Name, Policies>, name: Name) {
    forall b: nat {:trigger OneRound(lookup, locals, name, b)} :: 1 <= b < |name| ==> rounds(b) == OneRound(lookup, locals, name, b)
  }

  /** A resolution after a round raises what the resolution raises, and logs the round's queries first. */
  lemma ThenPrepends(log: seq<Query>, r: Result<Resolved, Failure>)
    ensures Raised(Then(log, r)) == Raised(r)
    ensures r.Success? ==> Then(log, r).value == Resolved(log + r.value.log, r.value.answer)
  {
  }

  /** The failure a resolution raises, if any. */
  function Raised(r: Result<Resolved, Failure>): Option<Failure> {
    if r.Success? then None else Some(r.error)
  }

  /** Every local realm is filed under its own origin. */
  predicate Indexed(realms: map<Name, PolicyRealm>) {
    forall s :: s in realms ==> realms[s].origin == s
  }

  // ---------------------------------------------------------------------------
  // The resolver object

  class Resolver {
    const lookup: Name -> Answer
    const localPolicies: map<Name, PolicyRealm>

    /** Without local realms the resolver has none; the DNS resolver is the `lookup` function. */
    constructor (lookup: Name -> Answer, localPolicies: Option<map<Name, PolicyRealm>>)
      requires localPolicies.Some? ==> Indexed(localPolicies.value)
      ensures this.lookup == lookup
      ensures this.localPolicies == if localPolicies.Some? then localPolicies.value else map[]
      ensures Valid()
    {
      this.lookup := lookup;
      this.localPolicies := if localPolicies.Some? then localPolicies.value else map[];
    }

    predicate Valid() {
      Indexed(localPolicies)
    }

    /** The policy maps of the local realms. */
    ghost function Locals(): map<Name, Policies>
      reads localPolicies.Values
    {
      map s | s in localPolicies :: localPolicies[s].policies
    }

    /** `locals` holds the current policy map of every local realm, and nothing else. */
    ghost predicate Holds(locals: map<Name, Policies>)
      reads localPolicies.Values
    {
      && locals.Keys == localPolicies.Keys
      && forall s :: s in localPolicies ==> localPolicies[s].policies == locals[s]
    }

    /** `resolve`: a fresh response, resolved from boundary 1. */
    method Resolve(name: Name) returns (response: Response, failure: Option<Failure>)
      requires Valid()
      ensures fresh(response)
      ensures var r := Resolution(lookup, Locals(), name, 1);
              && failure == Raised(r)
              && (r.Success? ==> response.queries == r.value.log && response.Result() == Some(r.value.answer))
    {
      response := new Response();
      ghost var locals := Locals();
      failure := ResolveFrom(name, 1, response, locals, Rounds(lookup, locals, name));
    }

    /**
      `_resolve`: the resolution of `name` from boundary `b`, logged on
      `response`; `rounds` stands for what one call does at each boundary.
     */
    method ResolveFrom(name: Name, b: int, response: Response, ghost locals: map<Name, Policies>, ghost rounds: int -> Round)
        returns (failure: Option<Failure>)
      requires Valid() && Holds(locals) && RoundsOf(rounds, lookup, locals, name)
      modifies response
      decreases |name| - b
      ensures var r := Chain(rounds, |name|, b);
              && failure == Raised(r)
              && (r.Success? ==> response.queries == old(response.queries) + r.value.log && response.Result() == Some(r.value.answer))
    {
      if !(1 <= b < |name|) {
        return Some(OutOfRange);
      }
      var verdict := PlayRound(name, b, response, locals, rounds);
      match verdict
      case Done(_) =>
        return None;
      case Restart(next) =>
        if next <= b {
          return Some(Diverges);
        }
        ghost var rest := Chain(rounds, |name|, next);
        ThenPrepends(rounds(b).log, rest);
        ghost var mid := response.queries;
        failure := ResolveFrom(name, next, response, locals, rounds);
        if rest.Success? {
          assert response.queries == mid + rest.value.log;
          assert mid + rest.value.log == old(response.queries) + (rounds(b).log + rest.value.log);
        }
    }

    /** One call of `_resolve` up to the point where it returns or calls itself. */
    method PlayRound(name: Name, b: nat, response: Response, ghost locals: map<Name, Policies>, ghost rounds: int -> Round)
        returns (verdict: Verdict)
      requires Valid() && 1 <= b < |name| && Holds(locals) && RoundsOf(rounds, lookup, locals, name)
      modifies response
      ensures verdict == rounds(b).verdict
      ensures response.queries == old(response.queries) + rounds(b).log
      ensures verdict.Done? ==> response.Result() == Some(verdict.answer)
      ensures Holds(locals)
    {
      assert rounds(b) == OneRound(lookup, locals, name, b);
      var org := Last(name, b + 1);
      if org in localPolicies {
        var realm := localPolicies[org];
        assert realm.policies == locals[org];
        verdict := PlayRealmRound(realm, name, b, response);
      } else {
        assert org !in locals;
        verdict := PlayRemoteRound(name, b, response);
      }
    }

    /** The local branch of `_resolve`: the realm resolves the name; its triple is kept when it names a policy domain. */
    method PlayRealmRound(realm: PolicyRealm, name: Name, b: nat, response: Response) returns (verdict: Verdict)
      requires 1 <= b < |name| && realm.origin == Last(name, b + 1)
      modifies response
      ensures var r := RealmRound(realm.policies, name, b);
              && verdict == r.verdict
              && response.queries == old(response.queries) + r.log
              && (verdict.Done? ==> response.Result() == Some(verdict.answer))
    {
      realm.Resolve(name, response);
      if response.policyDomain.Some? {
        return Done(response.Result().value);
      }
      return Restart(|response.orgDomain.value| - 1);
    }

    /** The DNS branch of `_resolve`: the walk, then the decision on its longest match. */
    method PlayRemoteRound(name: Name, b: nat, response: Response) returns (verdict: Verdict)
      requires 1 <= b < |name|
      modifies response
      ensures var r := RemoteRound(lookup, name, b);
              && verdict == r.verdict
              && response.queries == old(response.queries) + r.log
              && (verdict.Done? ==> response.Result() == Some(verdict.answer))
    {
      var longestMatch, longestMatchBoundary, existingLabels := RemoteWalk(name, b, response);
      verdict := Decide(name, b, longestMatch, longestMatchBoundary, existingLabels);
      if verdict.Done? {
        response.SetPolicy(verdict.answer);
      }
    }

    /** The decision on the longest match after the DNS walk: a new boundary, or the triple to set. */
    static method Decide(name: Name, b: nat, longestMatch: Option<string>, longestMatchBoundary: nat, existingLabels: nat)
        returns (verdict: Verdict)
      requires 1 <= b < |name|
      ensures verdict == RemoteVerdict(name, b, AsState(longestMatch, longestMatchBoundary, existingLabels))
    {
      var org := Last(name, b + 1);
      if longestMatch.Some? {
        var text := longestMatch.value;
        if HasOrg(text) {
          return Restart(b + longestMatchBoundary);
        }
        if HasBound(text) && b + existingLabels + 1 <= |name| - 1 {
          return Restart(b + existingLabels + 1);
        }
        verdict := Done(Triple(Some(Last(name, b + longestMatchBoundary + 1)), org, longestMatch));
      } else {
        verdict := Done(Triple(Some(org), org, Some("")));
      }
    }

    /** The loop of `_resolve`: query depth 0 up to `len(name) - b - 1`, keeping the running longest match. */
    method RemoteWalk(name: Name, b: nat, response: Response)
        returns (longestMatch: Option<string>, longestMatchBoundary: nat, existingLabels: nat)
      requires 1 <= b < |name|
      modifies response
      ensures AsState(longestMatch, longestMatchBoundary, existingLabels) == Outcome(RemoteProbes(lookup, name, b))
      ensures response.queries == old(response.queries) + WalkLog(RemoteNames(name, b), RemoteProbes(lookup, name, b))
      ensures response.Result() == old(response.Result())
    {
      ghost var probes := RemoteProbes(lookup, name, b);
      ghost var names := RemoteNames(name, b);
      longestMatch, longestMatchBoundary, existingLabels := None, 0, 0;
      var i := 0;
      while i < |name| - b
        invariant 0 <= i <= |name| - b
        invariant AsState(longestMatch, longestMatchBoundary, existingLabels) == After(probes, i)
        invariant Visited(probes) == VisitedFrom(probes, i)
        invariant response.queries == old(response.queries) + LogUpTo(names, probes, i)
        invariant response.Result() == old(response.Result())
      {
        var probe := Ask(name, b, i, response);
        assert names[i] == QueryName(name, b, i) && probes[i] == probe;
        var stop;
        longestMatch, longestMatchBoundary, existingLabels, stop :=
          Absorb(probe, i, longestMatch, longestMatchBoundary, existingLabels);
        Advance(names, probes, i, old(response.queries), response.queries,
                AsState(longestMatch, longestMatchBoundary, existingLabels), stop);
        if stop {
          break;
        }
        i := i + 1;
      }
      if i == |name| - b {
        WalkDone(names, probes);
      }
    }

    /** One depth of `_resolve`: the TXT query and its log entry. */
    method Ask(name: Name, b: nat, i: nat, response: Response) returns (probe: Probe)
      requires b + 1 + i <= |name|
      modifies response
      ensures probe == RemoteProbe(lookup(QueryName(name, b, i)), i)
      ensures response.queries == old(response.queries) + [Entry(QueryName(name, b, i), probe)]
      ensures response.Result() == old(response.Result())
    {
      var testDomain := QueryName(name, b, i);
      var answer := lookup(testDomain);
      match answer {
        case NxDomain =>
          probe := Absent;
        case NoAnswer =>
          probe := Empty(true);
        case DnsError =>
          probe := Failed;
        case Records(texts) =>
          var policy := FirstPolicy(texts);
          if policy.None? {
            probe := Empty(i > 0);
          } else {
            probe := Found(policy.value, i > 0);
          }
      }
      response.AddQuery(Entry(testDomain, probe));
    }
  }

  // ---------------------------------------------------------------------------
  // Properties of resolution

  /** `Resolution` is one round, then the resolution from the boundary it restarts at. */
  lemma ResolutionStep(lookup: Name -> Answer, locals: map<Name, Policies>, name: Name, b: nat)
    requires 1 <= b < |name|
    ensures var r := OneRound(lookup, locals, name, b);
            Resolution(lookup, locals, name, b) ==
              match r.verdict
              case Done(t) => Success(Resolved(r.log, t))
              case Restart(next) => if next <= b then Failure(Diverges) else Then(r.log, Resolution(lookup, locals, name, next))
  {
  }

  /**
    Under boundary `b` a realm works on the labels above its origin: a cut of
    `k` of them, put back under the origin, is the rightmost `b + 1 + k`
    labels of the name (all of it when `k` is too large).
   */
  lemma CutUnderOrigin(name: Name, b: nat, k: nat)
    requires WellFormed(name) && 1 <= b < |name|
    ensures var org := Last(name, b + 1);
            var rel := RealmRelative(name, org);
            && rel == name[..|name| - (b + 1)]
            && Derelativize(Last(rel, k), org) == Last(name, b + 1 + if k <= |rel| then k else |rel|)
  {
    RelativeUnderOrigin(name, b);
    var j := |name| - (b + 1);
    var rel := name[..j];
    CutIsRelative(name, rel, k);
    var c := Last(rel, k);
    assert c == rel[j - |c|..];
    assert Last(name, b + 1) == name[j..];
    SliceJoin(name, j - |c|, j);
    assert Last(name, b + 1 + |c|) == name[j - |c|..];
  }

  /** The name relative to its rightmost `b + 1` labels is the rest of its labels. */
  lemma RelativeUnderOrigin(name: Name, b: nat)
    requires IsAbsolute(name) && 1 <= b < |name|
    ensures RealmRelative(name, Last(name, b + 1)) == name[..|name| - (b + 1)]
  {
    assert IsSubdomain(name, Last(name, b + 1));
  }

  /** A cut of the labels above the root of a well-formed name is not absolute. */
  lemma CutIsRelative(name: Name, rel: Name, k: nat)
    requires WellFormed(name) && |rel| < |name| && rel == name[..|rel|]
    ensures !IsAbsolute(Last(rel, k))
  {
    var c := Last(rel, k);
    if c != [] {
      assert c[|c| - 1] == rel[|rel| - 1] == name[|rel| - 1];
    }
  }

  /**
    A triple that stays within the name under boundary `b`: its
    organizational domain is an ancestor of the name at least `b + 1` labels
    long, and with a policy domain it is the rightmost `b + 1` labels
    themselves, the policy domain lying between the name and them, and there
    is a policy.
   */
  ghost predicate AnswerWithin(name: Name, b: nat, t: Triple) {
    var org := Last(name, b + 1);
    && IsSubdomain(name, t.orgDomain) && b + 1 <= |t.orgDomain|
    && (t.policyDomain.Some? ==>
          && t.orgDomain == org && t.policy.Some?
          && IsSubdomain(name, t.policyDomain.value) && IsSubdomain(t.policyDomain.value, org))
  }

  /** What a realm answers under boundary `b` stays within the name. */
  lemma RealmAnswerWithin(m: Policies, name: Name, b: nat)
    requires WellFormed(name) && 1 <= b < |name|
    ensures var org := Last(name, b + 1);
            AnswerWithin(name, b, RealmAnswer(org, m, RealmRelative(name, org)))
  {
    var org := Last(name, b + 1);
    AnswerFromWithin(name, b, Outcome(RealmProbes(m, RealmRelative(name, org))));
  }

  /** `RealmAnswerWithin`, for any final state of the walk. */
  lemma AnswerFromWithin(name: Name, b: nat, w: WalkState)
    requires WellFormed(name) && 1 <= b < |name|
    ensures var org := Last(name, b + 1);
            AnswerWithin(name, b, AnswerFrom(org, RealmRelative(name, org), w))
  {
    if w.longest.None? {
      NoMatchWithin(name, b, w);
    } else if HasOrg(w.longest.value.policy) {
      OrgWithin(name, b, w);
    } else if HasBound(w.longest.value.policy) && w.existing + 1 <= |RealmRelative(name, Last(name, b + 1))| {
      BoundWithin(name, b, w);
    } else {
      PlainWithin(name, b, w);
    }
  }

  lemma NoMatchWithin(name: Name, b: nat, w: WalkState)
    requires IsAbsolute(name) && 1 <= b < |name|
    requires w.longest.None?
    ensures var org := Last(name, b + 1);
            AnswerWithin(name, b, AnswerFrom(org, RealmRelative(name, org), w))
  {
    var org := Last(name, b + 1);
    assert AnswerFrom(org, RealmRelative(name, org), w) == Triple(None, org, None);
    assert IsSubdomain(name, org);
  }

  lemma OrgWithin(name: Name, b: nat, w: WalkState)
    requires WellFormed(name) && 1 <= b < |name|
    requires w.longest.Some? && HasOrg(w.longest.value.policy)
    ensures var org := Last(name, b + 1);
            AnswerWithin(name, b, AnswerFrom(org, RealmRelative(name, org), w))
  {
    var org := Last(name, b + 1);
    AnswerAtOrg(org, RealmRelative(name, org), w);
    HintWithin(name, b, w.longest.value.depth + 1);
  }

  lemma BoundWithin(name: Name, b: nat, w: WalkState)
    requires WellFormed(name) && 1 <= b < |name|
    requires w.longest.Some? && !HasOrg(w.longest.value.policy) && HasBound(w.longest.value.policy)
    requires w.existing + 1 <= |RealmRelative(name, Last(name, b + 1))|
    ensures var org := Last(name, b + 1);
            AnswerWithin(name, b, AnswerFrom(org, RealmRelative(name, org), w))
  {
    var org := Last(name, b + 1);
    AnswerAtBound(org, RealmRelative(name, org), w);
    HintWithin(name, b, w.existing + 1);
  }

  lemma PlainWithin(name: Name, b: nat, w: WalkState)
    requires WellFormed(name) && 1 <= b < |name|
    requires w.longest.Some? && !HasOrg(w.longest.value.policy)
    requires !(HasBound(w.longest.value.policy) && w.existing + 1 <= |RealmRelative(name, Last(name, b + 1))|)
    ensures var org := Last(name, b + 1);
            AnswerWithin(name, b, AnswerFrom(org, RealmRelative(name, org), w))
  {
    var org := Last(name, b + 1);
    AnswerWithPolicy(org, RealmRelative(name, org), w);
    PolicyWithin(name, b, w.longest.value.depth + 1, w.longest.value.policy);
  }

  /** A hint at a cut of the relative name stays within the name. */
  lemma HintWithin(name: Name, b: nat, k: nat)
    requires WellFormed(name) && 1 <= b < |name|
    ensures var org := Last(name, b + 1);
            AnswerWithin(name, b, Triple(None, Derelativize(Last(RealmRelative(name, org), k), org), None))
  {
    CutWithin(name, b, k);
  }

  /** A policy found at a cut of the relative name, with the origin as organizational domain, stays within the name. */
  lemma PolicyWithin(name: Name, b: nat, k: nat, p: string)
    requires WellFormed(name) && 1 <= b < |name|
    ensures var org := Last(name, b + 1);
            AnswerWithin(name, b, Triple(Some(Derelativize(Last(RealmRelative(name, org), k), org)), org, Some(p)))
  {
    CutWithin(name, b, k);
    assert IsSubdomain(name, Last(name, b + 1));
  }

  /** A cut of the relative name, put back under the origin, lies between the name and the origin. */
  lemma CutWithin(name: Name, b: nat, k: nat)
    requires WellFormed(name) && 1 <= b < |name|
    ensures var org := Last(name, b + 1);
            var c := Derelativize(Last(RealmRelative(name, org), k), org);
            IsSubdomain(name, c) && b + 1 <= |c| && IsSubdomain(c, org)
  {
    var org := Last(name, b + 1);
    var rel := RealmRelative(name, org);
    CutUnderOrigin(name, b, k);
    var j := b + 1 + if k <= |rel| then k else |rel|;
    LastNested(name, b + 1, j);
    assert IsSubdomain(name, Last(name, j));
  }

  /** For a name the DNS library builds, a round never restarts at a smaller boundary, nor beyond the name's last label. */
  lemma RoundsOnlyDeepen(lookup: Name -> Answer, locals: map<Name, Policies>, name: Name, b: nat)
    requires WellFormed(name) && 1 <= b < |name|
    ensures var v := OneRound(lookup, locals, name, b).verdict;
            v.Restart? ==> b <= v.boundary < |name|
  {
    var org := Last(name, b + 1);
    if org in locals {
      RealmAnswerWithin(locals[org], name, b);
    } else {
      var probes := RemoteProbes(lookup, name, b);
      MatchWasFound(probes, Visited(probes));
    }
  }

  /** The boundary `assert` of `_resolve` fails only when it is out of range at the start: never on a restart. */
  lemma {:induction false} NeverOutOfRange(lookup: Name -> Answer, locals: map<Name, Policies>, name: Name, b: nat)
    requires WellFormed(name) && 1 <= b < |name|
    ensures Resolution(lookup, locals, name, b) != Failure(OutOfRange)
    decreases |name| - b
  {
    ResolutionStep(lookup, locals, name, b);
    RoundsOnlyDeepen(lookup, locals, name, b);
    var r := OneRound(lookup, locals, name, b);
    if r.verdict.Restart? && r.verdict.boundary > b {
      NeverOutOfRange(lookup, locals, name, r.verdict.boundary);
      ThenPrepends(r.log, Resolution(lookup, locals, name, r.verdict.boundary));
    }
  }

  /**
    `resolve` fails its `assert` only on the root, the one well-formed name
    with fewer than two labels; a TLD such as `com.` passes.
   */
  lemma ResolveOutOfRange(lookup: Name -> Answer, locals: map<Name, Policies>, name: Name)
    requires WellFormed(name)
    ensures Resolution(lookup, locals, name, 1) == Failure(OutOfRange) <==> |name| < 2
  {
    if |name| >= 2 {
      NeverOutOfRange(lookup, locals, name, 1);
    }
  }

  /**
    A complete answer for the name from boundary `b` on: it names a policy
    domain and a policy; its organizational domain is an ancestor of the name
    at least `b + 1` labels long, and the policy domain lies between the name
    and the organizational domain.
   */
  ghost predicate Settled(name: Name, b: nat, t: Triple) {
    && t.policyDomain.Some? && t.policy.Some?
    && IsSubdomain(name, t.orgDomain) && b + 1 <= |t.orgDomain|
    && IsSubdomain(name, t.policyDomain.value) && IsSubdomain(t.policyDomain.value, t.orgDomain)
  }

  /** A round that ends the resolution settles it. */
  lemma DoneIsSettled(lookup: Name -> Answer, locals: map<Name, Policies>, name: Name, b: nat)
    requires WellFormed(name) && 1 <= b < |name|
    requires OneRound(lookup, locals, name, b).verdict.Done?
    ensures Settled(name, b, OneRound(lookup, locals, name, b).verdict.answer)
  {
    var org := Last(name, b + 1);
    if org in locals {
      RealmAnswerWithin(locals[org], name, b);
      assert Settled(name, b, OneRound(lookup, locals, name, b).verdict.answer);
    } else {
      RemoteDoneIsSettled(name, b, Outcome(RemoteProbes(lookup, name, b)));
    }
  }

  /**
    A remote round ends the resolution only with no match at all (the
    organizational domain and the empty policy) or with a match carrying
    neither `+org` nor a `+bound` that leaves room below (that match).
   */
  lemma RemoteDefaultAnswer(name: Name, b: nat, w: WalkState)
    requires 1 <= b < |name| && w.longest.None?
    ensures var org := Last(name, b + 1);
            RemoteVerdict(name, b, w) == Done(Triple(Some(org), org, Some("")))
  {
  }

  lemma RemoteMatchAnswer(name: Name, b: nat, w: WalkState)
    requires 1 <= b < |name| && w.longest.Some?
    requires RemoteVerdict(name, b, w).Done?
    ensures var m := w.longest.value;
            RemoteVerdict(name, b, w) == Done(Triple(Some(Last(name, b + m.depth + 1)), Last(name, b + 1), Some(m.policy)))
  {
  }

  /** A remote round that ends the resolution settles it. */
  lemma RemoteDoneIsSettled(name: Name, b: nat, w: WalkState)
    requires IsAbsolute(name) && 1 <= b < |name|
    requires RemoteVerdict(name, b, w).Done?
    ensures Settled(name, b, RemoteVerdict(name, b, w).answer)
  {
    var org := Last(name, b + 1);
    if w.longest.None? {
      RemoteDefaultAnswer(name, b, w);
      RemoteAnswerSettled(name, b, 0, "");
      assert Settled(name, b, Triple(Some(org), org, Some("")));
    } else {
      var m := w.longest.value;
      RemoteMatchAnswer(name, b, w);
      RemoteAnswerSettled(name, b, m.depth, m.policy);
      assert Settled(name, b, Triple(Some(Last(name, b + m.depth + 1)), org, Some(m.policy)));
    }
  }

  /** A policy found `d` labels below the rightmost `b + 1`, these being the organizational domain, settles the name. */
  lemma RemoteAnswerSettled(name: Name, b: nat, d: nat, p: string)
    requires IsAbsolute(name) && 1 <= b < |name|
    ensures var org := Last(name, b + 1);
            Settled(name, b, Triple(Some(Last(name, b + d + 1)), org, Some(p)))
  {
    var org, c := Last(name, b + 1), Last(name, b + d + 1);
    LastNested(name, b + 1, b + d + 1);
    assert IsSubdomain(name, org);
    assert IsSubdomain(name, c);
  }

  // ---------------------------------------------------------------------------
  // A realm and DNS on the same walk

  /**
    After the same walk, a `+org` match at depth `d` sends DNS resolution to
    boundary `b + d` (the name carrying the policy becomes the organizational
    domain) but a realm to boundary `b + d + 1`, one label deeper.
   */
  lemma OrgHintsDiffer(name: Name, b: nat, w: WalkState)
    requires WellFormed(name) && 1 <= b < |name|
    requires w.longest.Some? && HasOrg(w.longest.value.policy)
    requires b + w.longest.value.depth + 1 < |name|
    ensures RemoteVerdict(name, b, w) == Restart(b + w.longest.value.depth)
    ensures RealmVerdict(name, b, w) == Restart(b + w.longest.value.depth + 1)
  {
    RemoteOrgRestart(name, b, w);
    CutNotAbsolute(name, b, w.longest.value.depth + 1);
    RealmOrgRestart(name, b, w);
  }

  /** A `+org` final match that does not reach past the relative name makes a realm hint one label below it. */
  lemma RealmOrgRestart(name: Name, b: nat, w: WalkState)
    requires IsAbsolute(name) && 1 <= b < |name|
    requires w.longest.Some? && HasOrg(w.longest.value.policy)
    requires b + w.longest.value.depth + 1 < |name|
    requires !IsAbsolute(Last(RealmRelative(name, Last(name, b + 1)), w.longest.value.depth + 1))
    ensures RealmVerdict(name, b, w) == Restart(b + w.longest.value.depth + 1)
  {
    RelativeSize(name, b);
  }

  /** A `+org` final match makes DNS resolution start over with the boundary plus the match depth. */
  lemma RemoteOrgRestart(name: Name, b: nat, w: WalkState)
    requires 1 <= b < |name|
    requires w.longest.Some? && HasOrg(w.longest.value.policy)
    ensures RemoteVerdict(name, b, w) == Restart(b + w.longest.value.depth)
  {
  }

  /** A `+org` hint that does not reach past the relative name is `d + 1` labels longer than the origin. */
  lemma HintSizeAtOrg(origin: Name, rel: Name, w: WalkState)
    requires w.longest.Some? && HasOrg(w.longest.value.policy)
    requires w.longest.value.depth + 1 <= |rel| && !IsAbsolute(Last(rel, w.longest.value.depth + 1))
    ensures var t := AnswerFrom(origin, rel, w);
            t.policyDomain.None? && |t.orgDomain| == |origin| + w.longest.value.depth + 1
  {
    AnswerAtOrg(origin, rel, w);
  }

  /** A `+bound` hint with room below the existing labels is `existing + 1` labels longer than the origin. */
  lemma HintSizeAtBound(origin: Name, rel: Name, w: WalkState)
    requires w.longest.Some? && !HasOrg(w.longest.value.policy) && HasBound(w.longest.value.policy)
    requires w.existing + 1 <= |rel| && !IsAbsolute(Last(rel, w.existing + 1))
    ensures var t := AnswerFrom(origin, rel, w);
            t.policyDomain.None? && |t.orgDomain| == |origin| + w.existing + 1
  {
    AnswerAtBound(origin, rel, w);
  }

  /** A realm answer without a policy domain restarts one label above the end of its hint. */
  lemma HintRestart(name: Name, b: nat, w: WalkState, next: int)
    requires 1 <= b < |name|
    requires var org := Last(name, b + 1);
             var t := AnswerFrom(org, RealmRelative(name, org), w);
             t.policyDomain.None? && |t.orgDomain| == next + 1
    ensures RealmVerdict(name, b, w) == Restart(next)
  {
  }

  /** The name relative to its rightmost `b + 1` labels has the other labels. */
  lemma RelativeSize(name: Name, b: nat)
    requires IsAbsolute(name) && 1 <= b < |name|
    ensures |RealmRelative(name, Last(name, b + 1))| == |name| - (b + 1)
  {
    RelativeUnderOrigin(name, b);
  }

  /** A cut of the relative name of a well-formed name is relative. */
  lemma CutNotAbsolute(name: Name, b: nat, k: nat)
    requires WellFormed(name) && 1 <= b < |name|
    ensures !IsAbsolute(Last(RealmRelative(name, Last(name, b + 1)), k))
  {
    RelativeUnderOrigin(name, b);
    CutIsRelative(name, name[..|name| - (b + 1)], k);
  }

  /**
    After the same walk, a plain final match at depth `d` is the answer of
    both, with the same policy and organizational domain, but DNS names the
    policy domain after the name carrying the policy and a realm one label
    deeper.
   */
  lemma PolicyDomainsDiffer(name: Name, b: nat, w: WalkState)
    requires WellFormed(name) && 1 <= b < |name|
    requires w.longest.Some? && !HasOrg(w.longest.value.policy)
    requires !(HasBound(w.longest.value.policy) && b + w.existing + 1 <= |name| - 1)
    requires b + w.longest.value.depth + 1 < |name|
    ensures var org, p, d := Last(name, b + 1), w.longest.value.policy, w.longest.value.depth;
            && RemoteVerdict(name, b, w) == Done(Triple(Some(Last(name, b + d + 1)), org, Some(p)))
            && RealmVerdict(name, b, w) == Done(Triple(Some(Last(name, b + d + 2)), org, Some(p)))
  {
    RemotePolicyAnswer(name, b, w);
    RealmPolicyAt(name, b, w);
  }

  /** A plain final match that does not reach past the relative name is a realm's answer, one label below it. */
  lemma RealmPolicyAt(name: Name, b: nat, w: WalkState)
    requires WellFormed(name) && 1 <= b < |name|
    requires w.longest.Some? && !HasOrg(w.longest.value.policy)
    requires !(HasBound(w.longest.value.policy) && b + w.existing + 1 <= |name| - 1)
    requires b + w.longest.value.depth + 1 < |name|
    ensures var org, p, d := Last(name, b + 1), w.longest.value.policy, w.longest.value.depth;
            RealmVerdict(name, b, w) == Done(Triple(Some(Last(name, b + d + 2)), org, Some(p)))
  {
    RelativeSize(name, b);
    CutIsLast(name, b, w.longest.value.depth + 1);
    RealmPolicyAnswer(name, b, w, Last(name, b + w.longest.value.depth + 2));
  }

  /** A plain final match is the answer of DNS resolution, under the name carrying it. */
  lemma RemotePolicyAnswer(name: Name, b: nat, w: WalkState)
    requires 1 <= b < |name|
    requires w.longest.Some? && !HasOrg(w.longest.value.policy)
    requires !(HasBound(w.longest.value.policy) && b + w.existing + 1 <= |name| - 1)
    ensures var org, p, d := Last(name, b + 1), w.longest.value.policy, w.longest.value.depth;
            RemoteVerdict(name, b, w) == Done(Triple(Some(Last(name, b + d + 1)), org, Some(p)))
  {
  }

  /** A plain final match is the answer of a realm, under the cut `d + 1` labels above its origin. */
  lemma RealmPolicyAnswer(name: Name, b: nat, w: WalkState, c: Name)
    requires 1 <= b < |name|
    requires var org := Last(name, b + 1);
             var rel := RealmRelative(name, org);
             && w.longest.Some? && !HasOrg(w.longest.value.policy)
             && !(HasBound(w.longest.value.policy) && w.existing + 1 <= |rel|)
             && Derelativize(Last(rel, w.longest.value.depth + 1), org) == c
    ensures RealmVerdict(name, b, w) == Done(Triple(Some(c), Last(name, b + 1), Some(w.longest.value.policy)))
  {
    var org := Last(name, b + 1);
    AnswerWithPolicy(org, RealmRelative(name, org), w);
  }

  /**
    After the same walk, a `+bound` final match (without `+org`) with room
    below the existing labels sends both to boundary `b + existing + 1`.
   */
  lemma BoundHintsAgree(name: Name, b: nat, w: WalkState)
    requires WellFormed(name) && 1 <= b < |name|
    requires w.longest.Some? && !HasOrg(w.longest.value.policy) && HasBound(w.longest.value.policy)
    requires b + w.existing + 1 <= |name| - 1
    ensures RemoteVerdict(name, b, w) == Restart(b + w.existing + 1)
    ensures RealmVerdict(name, b, w) == Restart(b + w.existing + 1)
  {
    RemoteBoundRestart(name, b, w);
    CutNotAbsolute(name, b, w.existing + 1);
    RealmBoundRestart(name, b, w);
  }

  /** A `+bound` final match (without `+org`) with room makes a realm hint one label below the existing labels. */
  lemma RealmBoundRestart(name: Name, b: nat, w: WalkState)
    requires IsAbsolute(name) && 1 <= b < |name|
    requires w.longest.Some? && !HasOrg(w.longest.value.policy) && HasBound(w.longest.value.policy)
    requires b + w.existing + 1 <= |name| - 1
    requires !IsAbsolute(Last(RealmRelative(name, Last(name, b + 1)), w.existing + 1))
    ensures RealmVerdict(name, b, w) == Restart(b + w.existing + 1)
  {
    RelativeSize(name, b);
  }

  /** A `+bound` final match (without `+org`) with room makes DNS resolution start over below the existing labels. */
  lemma RemoteBoundRestart(name: Name, b: nat, w: WalkState)
    requires 1 <= b < |name|
    requires w.longest.Some? && !HasOrg(w.longest.value.policy) && HasBound(w.longest.value.policy)
    requires b + w.existing + 1 <= |name| - 1
    ensures RemoteVerdict(name, b, w) == Restart(b + w.existing + 1)
  {
  }

  /** A cut of `k` labels of the relative name, put back under the origin, is the rightmost `b + 1 + k` labels of the name. */
  lemma CutIsLast(name: Name, b: nat, k: nat)
    requires WellFormed(name) && 1 <= b && b + k < |name|
    ensures var org := Last(name, b + 1);
            Derelativize(Last(RealmRelative(name, org), k), org) == Last(name, b + 1 + k)
  {
    CutUnderOrigin(name, b, k);
  }

  /**
    After a walk without any match DNS answers the organizational domain
    with the empty policy, while a realm hints at its own origin and so
    starts over at the same boundary.
   */
  lemma NoMatchDiffers(name: Name, b: nat, w: WalkState)
    requires IsAbsolute(name) && 1 <= b < |name|
    requires w.longest.None?
    ensures var org := Last(name, b + 1);
            RemoteVerdict(name, b, w) == Done(Triple(Some(org), org, Some("")))
    ensures RealmVerdict(name, b, w) == Restart(b)
  {
  }

  // ---------------------------------------------------------------------------
  // Resolutions decided at the apex

  /**
    A name not under a local realm whose `_odup` apex answers NXDOMAIN gets
    the organizational domain with the empty policy, after exactly that one
    query.
   */
  lemma DefaultWhenApexMissing(lookup: Name -> Answer, locals: map<Name, Policies>, name: Name, b: nat)
    requires 1 <= b < |name| && Last(name, b + 1) !in locals
    requires lookup(QueryName(name, b, 0)) == NxDomain
    ensures var org := Last(name, b + 1);
            Resolution(lookup, locals, name, b) ==
              Success(Resolved([Query(QueryName(name, b, 0), Some(NXDOMAIN), None)], Triple(Some(org), org, Some(""))))
  {
    var probes := RemoteProbes(lookup, name, b);
    assert probes[0] == Absent;
    VisitedIs(probes, 1);
    assert After(probes, 1) == Step(After(probes, 0), 0, probes[0]) == Start;
    var names := RemoteNames(name, b);
    assert names[0] == QueryName(name, b, 0);
    assert LogUpTo(names, probes, 1) == LogUpTo(names, probes, 0) + [Entry(names[0], probes[0])];
    var org := Last(name, b + 1);
    assert RemoteVerdict(name, b, Outcome(probes)) == Done(Triple(Some(org), org, Some("")));
    assert WalkLog(names, probes) == [Query(QueryName(name, b, 0), Some(NXDOMAIN), None)];
    assert OneRound(lookup, locals, name, b) == RemoteRound(lookup, name, b);
    ResolutionStep(lookup, locals, name, b);
  }

  /**
    A name not under a local realm whose `_odup` apex carries a `+org`
    policy never resolves: `_resolve` calls itself with the same boundary.
   */
  lemma RemoteApexOrgDiverges(lookup: Name -> Answer, locals: map<Name, Policies>, name: Name, b: nat)
    requires 1 <= b < |name| && Last(name, b + 1) !in locals
    requires var a := lookup(QueryName(name, b, 0));
             a.Records? && FirstPolicy(a.texts).Some? && HasOrg(FirstPolicy(a.texts).value)
    ensures Resolution(lookup, locals, name, b) == Failure(Diverges)
  {
    var probes := RemoteProbes(lookup, name, b);
    assert probes[0].Found? && HasOrg(probes[0].policy);
    VisitedStops(probes);
    OrgEndsWalk(probes, 0);
    ResolutionStep(lookup, locals, name, b);
  }

  /** A resolution that succeeds always settles the name. */
  lemma {:induction false} ResolvedWithinName(lookup: Name -> Answer, locals: map<Name, Policies>, name: Name, b: nat)
    requires WellFormed(name)
    ensures var r := Resolution(lookup, locals, name, b);
            r.Success? ==> Settled(name, b, r.value.answer)
    decreases |name| - b
  {
    if 1 <= b < |name| {
      ResolutionStep(lookup, locals, name, b);
      var r := OneRound(lookup, locals, name, b);
      match r.verdict
      case Done(t) =>
        DoneIsSettled(lookup, locals, name, b);
      case Restart(next) =>
        if next > b {
          ResolvedWithinName(lookup, locals, name, next);
          ThenPrepends(r.log, Resolution(lookup, locals, name, next));
        }
    }
  }
}
