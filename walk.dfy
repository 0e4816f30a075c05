/**
  The longest-match walk shared by the policy realm and the resolver. Both
  query the names of a domain's ancestry top-down, depth 0 being the
  organizational domain's own `_odup` node, and fold the answers into a
  running longest match, the depth it was found at and a count of
  existing labels. What a backend answers at a depth is summarised as a
  `Probe`; the walk itself is the same for both backends.
 */
module Walk {
  import opened Wrappers
  import opened Names
  import opened Directives

  /**
    What one lookup at a depth told the walk. `Absent` is NXDOMAIN, `Failed`
    any other DNS error; `Empty` is a name that exists without a usable
    policy and `Found` one with a policy. `counts` says whether the answer
    adds one to the existing-labels count.
   */
  datatype Probe = Absent | Empty(counts: bool) | Found(policy: string, counts: bool) | Failed

  datatype Match = Match(policy: string, depth: nat)

  /** `longest_match` with `longest_match_boundary`, and `existing_labels`. */
  datatype WalkState = WalkState(longest: Option<Match>, existing: nat)

  const Start: WalkState := WalkState(None, 0)

  /**
    A new policy displaces the running longest match when it carries `+org`
    or `+bound`, or when the running match does not carry `+bound`.
   */
  predicate Replaces(policy: string, current: Option<Match>) {
    HasOrg(policy) || HasBound(policy) || current.None? || !HasBound(current.value.policy)
  }

  /** A `+bound:N` policy with N < i + 1 at depth i. */
  predicate ShallowBound(policy: string, i: nat) {
    var b := BoundOf(policy);
    b.Bounded? && b.labels.Some? && b.labels.value < i + 1
  }

  /**
    The walk goes no deeper after this probe at depth `i`: a missing name, a
    DNS error, a `+org` policy, or a `+bound:N` policy with N < i + 1.
   */
  predicate EndsWalk(p: Probe, i: nat) {
    match p
    case Absent => true
    case Failed => true
    case Empty(_) => false
    case Found(t, _) => HasOrg(t) || ShallowBound(t, i)
  }

  function Counted(c: bool): nat {
    if c then 1 else 0
  }

  /** The effect of the probe at depth `i` on the walk's state. */
  function Step(w: WalkState, i: nat, p: Probe): WalkState {
    match p
    case Absent => w
    case Failed => w
    case Empty(c) => WalkState(w.longest, w.existing + Counted(c))
    case Found(t, c) =>
      WalkState(if Replaces(t, w.longest) then Some(Match(t, i)) else w.longest, w.existing + Counted(c))
  }

  /** The walk state held in the implementation's three variables. */
  function AsState(longest: Option<string>, boundary: nat, existing: nat): WalkState {
    WalkState(if longest.Some? then Some(Match(longest.value, boundary)) else None, existing)
  }

  /**
    The bookkeeping of one depth: a depth whose name exists is counted when
    it counts, and its policy displaces the running match under the
    precedence rule; `stop` says whether the walk ends here (a missing name,
    a DNS error, `+org`, or `+bound:N` with N < i + 1).
   */
  method Absorb(probe: Probe, i: nat, longestMatch: Option<string>, longestMatchBoundary: nat, existingLabels: nat)
      returns (newMatch: Option<string>, newBoundary: nat, newExisting: nat, stop: bool)
    ensures AsState(newMatch, newBoundary, newExisting) == Step(AsState(longestMatch, longestMatchBoundary, existingLabels), i, probe)
    ensures stop == EndsWalk(probe, i)
  {
    newMatch, newBoundary, newExisting, stop := longestMatch, longestMatchBoundary, existingLabels, true;
    if probe.Absent? || probe.Failed? {
      return;
    }
    if probe.counts {
      newExisting := existingLabels + 1;
    }
    stop := false;
    if probe.Found? {
      var text := probe.policy;
      if HasOrg(text) || HasBound(text) || longestMatch.None? || !HasBound(longestMatch.value) {
        newMatch := Some(text);
        newBoundary := i;
      }
      if HasOrg(text) {
        stop := true;
      } else {
        var bound := BoundOf(text);
        stop := bound.Bounded? && bound.labels.Some? && bound.labels.value < i + 1;
      }
    }
  }

  /** The state once depths `0 .. k-1` have been processed. */
  function After(probes: seq<Probe>, k: nat): WalkState
    requires k <= |probes|
  {
    if k == 0 then Start else Step(After(probes, k - 1), k - 1, probes[k - 1])
  }

  function VisitedFrom(probes: seq<Probe>, i: nat): (n: nat)
    requires i <= |probes|
    ensures i <= n <= |probes|
    decreases |probes| - i
  {
    if i == |probes| then i
    else if EndsWalk(probes[i], i) then i + 1
    else VisitedFrom(probes, i + 1)
  }

  /** How many depths the walk consults: up to and including the first one that ends it. */
  function Visited(probes: seq<Probe>): (n: nat)
    ensures n <= |probes|
  {
    VisitedFrom(probes, 0)
  }

  /** The state the walk ends in. */
  function Outcome(probes: seq<Probe>): WalkState {
    After(probes, Visited(probes))
  }

  /** Every depth before the last consulted one lets the walk go on; the last one ends it, or is the deepest. */
  ghost predicate StopsAt(probes: seq<Probe>, i: nat, n: nat) {
    && i <= n <= |probes|
    && (forall j :: i <= j < n - 1 ==> !EndsWalk(probes[j], j))
    && (n == |probes| || (n > i && EndsWalk(probes[n - 1], n - 1)))
  }

  lemma {:induction false} VisitedFromStops(probes: seq<Probe>, i: nat)
    requires i <= |probes|
    ensures StopsAt(probes, i, VisitedFrom(probes, i))
    decreases |probes| - i
  {
    if i < |probes| && !EndsWalk(probes[i], i) {
      VisitedFromStops(probes, i + 1);
    }
  }

  lemma {:induction false} VisitedFromIs(probes: seq<Probe>, i: nat, n: nat)
    requires StopsAt(probes, i, n)
    ensures VisitedFrom(probes, i) == n
    decreases |probes| - i
  {
    if i < |probes| && !EndsWalk(probes[i], i) {
      VisitedFromIs(probes, i + 1, n);
    }
  }

  /** The walk stops at the first depth that ends it. */
  lemma VisitedStops(probes: seq<Probe>)
    ensures StopsAt(probes, 0, Visited(probes))
  {
    VisitedFromStops(probes, 0);
  }

  /** The facts of `StopsAt` determine how many depths are consulted. */
  lemma VisitedIs(probes: seq<Probe>, n: nat)
    requires StopsAt(probes, 0, n)
    ensures Visited(probes) == n
  {
    VisitedFromIs(probes, 0, n);
  }

  // ---------------------------------------------------------------------------
  // The queries log

  datatype Rcode = NOERROR | NXDOMAIN

  /** One entry of `ODUPResponse.queries`: queried name, rcode (None after a DNS error), policy seen. */
  datatype Query = Query(name: Name, rcode: Option<Rcode>, policy: Option<string>)

  /** The log entry both backends write for a probe. */
  function Entry(name: Name, p: Probe): Query {
    match p
    case Absent => Query(name, Some(NXDOMAIN), None)
    case Failed => Query(name, None, None)
    case Empty(_) => Query(name, Some(NOERROR), None)
    case Found(t, _) => Query(name, Some(NOERROR), Some(t))
  }

  /** The log of the first `k` depths. */
  function LogUpTo(names: seq<Name>, probes: seq<Probe>, k: nat): (log: seq<Query>)
    requires |names| == |probes| && k <= |probes|
    ensures |log| == k
  {
    if k == 0 then [] else LogUpTo(names, probes, k - 1) + [Entry(names[k - 1], probes[k - 1])]
  }

  /** Entry `j` of the log is the entry for depth `j`. */
  lemma {:induction false} LogEntries(names: seq<Name>, probes: seq<Probe>, k: nat)
    requires |names| == |probes| && k <= |probes|
    ensures forall j :: 0 <= j < k ==> LogUpTo(names, probes, k)[j] == Entry(names[j], probes[j])
  {
    if k > 0 {
      LogEntries(names, probes, k - 1);
    }
  }

  /** The queries a walk logs: one per consulted depth, in order. */
  function WalkLog(names: seq<Name>, probes: seq<Probe>): seq<Query>
    requires |names| == |probes|
  {
    LogUpTo(names, probes, Visited(probes))
  }

  /**
    One more depth of a walk that has not stopped yet: the state and the log
    grow by that depth, and the walk ends there exactly when the depth ends it.
   */
  lemma WalkStep(names: seq<Name>, probes: seq<Probe>, i: nat)
    requires |names| == |probes| && i < |probes| && Visited(probes) == VisitedFrom(probes, i)
    ensures After(probes, i + 1) == Step(After(probes, i), i, probes[i])
    ensures LogUpTo(names, probes, i + 1) == LogUpTo(names, probes, i) + [Entry(names[i], probes[i])]
    ensures EndsWalk(probes[i], i) ==> Visited(probes) == i + 1
    ensures !EndsWalk(probes[i], i) ==> Visited(probes) == VisitedFrom(probes, i + 1)
  {
  }

  /**
    A loop turn of either backend: the state after absorbing depth `i`'s probe
    and the log with its entry appended are the walk's outcome and log when
    the depth ends the walk, else the walk after `i + 1` depths.
   */
  lemma Advance(names: seq<Name>, probes: seq<Probe>, i: nat, start: seq<Query>, q: seq<Query>, w: WalkState, stop: bool)
    requires |names| == |probes| && i < |probes| && Visited(probes) == VisitedFrom(probes, i)
    requires w == Step(After(probes, i), i, probes[i]) && stop == EndsWalk(probes[i], i)
    requires q == start + LogUpTo(names, probes, i) + [Entry(names[i], probes[i])]
    ensures stop ==> w == Outcome(probes) && q == start + WalkLog(names, probes)
    ensures !stop ==> w == After(probes, i + 1) && Visited(probes) == VisitedFrom(probes, i + 1)
    ensures !stop ==> q == start + LogUpTo(names, probes, i + 1)
  {
    WalkStep(names, probes, i);
    assert q == start + (LogUpTo(names, probes, i) + [Entry(names[i], probes[i])]);
  }

  /** A walk that went through every depth has visited all of them. */
  lemma WalkDone(names: seq<Name>, probes: seq<Probe>)
    requires |names| == |probes| && Visited(probes) == VisitedFrom(probes, |probes|)
    ensures Visited(probes) == |probes|
    ensures Outcome(probes) == After(probes, |probes|)
    ensures WalkLog(names, probes) == LogUpTo(names, probes, |probes|)
  {
  }

  // ---------------------------------------------------------------------------
  // Properties of the walk

  /** No depth after a missing name (or a DNS error) is consulted. */
  lemma StopsAtAbsent(probes: seq<Probe>, i: nat)
    requires i < |probes| && (probes[i].Absent? || probes[i].Failed?)
    ensures Visited(probes) <= i + 1
  {
    VisitedStops(probes);
  }

  /** Only the consulted depths matter: two walks that agree on them end alike. */
  lemma {:induction false} OnlyVisitedMatter(p: seq<Probe>, q: seq<Probe>)
    requires |p| == |q|
    requires p[..Visited(p)] == q[..Visited(p)]
    ensures Visited(q) == Visited(p)
    ensures Outcome(q) == Outcome(p)
  {
    var v := Visited(p);
    forall j | 0 <= j < v ensures q[j] == p[j] {
      assert q[..v][j] == p[..v][j];
    }
    VisitedStops(p);
    VisitedIs(q, v);
    AgreeAfter(p, q, v);
  }

  lemma {:induction false} AgreeAfter(p: seq<Probe>, q: seq<Probe>, k: nat)
    requires k <= |p| && k <= |q|
    requires forall j :: 0 <= j < k ==> p[j] == q[j]
    ensures After(p, k) == After(q, k)
  {
    if k > 0 {
      AgreeAfter(p, q, k - 1);
    }
  }

  /** The running match was found at an earlier depth, with exactly that policy. */
  lemma {:induction false} MatchWasFound(p: seq<Probe>, k: nat)
    requires k <= |p|
    ensures After(p, k).existing <= k
    ensures After(p, k).longest.Some? ==>
              var m := After(p, k).longest.value;
              m.depth < k && p[m.depth].Found? && p[m.depth].policy == m.policy
  {
    if k > 0 {
      MatchWasFound(p, k - 1);
    }
  }

  /**
    A `+org` policy ends the walk at its own depth and becomes the final
    match: no earlier match survives it and no deeper name is queried.
   */
  lemma OrgEndsWalk(p: seq<Probe>, d: nat)
    requires d < Visited(p) && p[d].Found? && HasOrg(p[d].policy)
    ensures Visited(p) == d + 1
    ensures Outcome(p).longest == Some(Match(p[d].policy, d))
  {
    VisitedStops(p);
    assert EndsWalk(p[d], d);
  }

  /** Once a `+bound` policy is the running match, only `+org` or `+bound` policies displace it. */
  lemma {:induction false} BoundKeepsPriority(p: seq<Probe>, j: nat, k: nat)
    requires j < k <= Visited(p)
    requires p[j].Found? && HasBound(p[j].policy)
    ensures After(p, k).longest.Some?
    ensures var t := After(p, k).longest.value.policy; HasOrg(t) || HasBound(t)
  {
    if k > j + 1 {
      BoundKeepsPriority(p, j, k - 1);
      MatchWasFound(p, k - 1);
      VisitedStops(p);
    }
  }

  /** The final match is the deepest policy found, unless a `+bound` match shadowed a plain one. */
  lemma {:induction false} PlainDeepestWins(p: seq<Probe>, k: nat, d: nat)
    requires d < k <= |p|
    requires p[d].Found?
    requires forall j :: 0 <= j < k ==> p[j].Found? ==> !HasBound(p[j].policy)
    requires forall j :: d < j < k ==> !p[j].Found?
    ensures After(p, k).longest == Some(Match(p[d].policy, d))
  {
    if k > d + 1 {
      PlainDeepestWins(p, k - 1, d);
    } else {
      MatchWasFound(p, d);
    }
  }
}
