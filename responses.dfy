/**
  `ODUPResponse`: the object a resolution fills in. Every lookup appends to
  its log of queries, and the final (policy domain, organizational domain,
  policy) triple is set on it.
 */
module Responses {
  import opened Wrappers
  import opened Names
  import opened Walk

  /** A resolution result: `policyDomain` is `None` when only an organizational-domain hint is returned. */
  datatype Triple = Triple(policyDomain: Option<Name>, orgDomain: Name, policy: Option<string>)

  class Response {
    var queries: seq<Query>
    var policyDomain: Option<Name>
    var orgDomain: Option<Name>
    var policy: Option<string>

    constructor ()
      ensures queries == [] && policyDomain == None && orgDomain == None && policy == None
    {
      queries := [];
      policyDomain := None;
      orgDomain := None;
      policy := None;
    }

    /** The triple last set, once one has been set. */
    function Result(): Option<Triple>
      reads this
    {
      if orgDomain.Some? then Some(Triple(policyDomain, orgDomain.value, policy)) else None
    }

    method AddQuery(q: Query)
      modifies this
      ensures queries == old(queries) + [q]
      ensures policyDomain == old(policyDomain) && orgDomain == old(orgDomain) && policy == old(policy)
    {
      queries := queries + [q];
    }

    method SetPolicy(t: Triple)
      modifies this
      ensures Result() == Some(t)
      ensures queries == old(queries)
    {
      policyDomain := t.policyDomain;
      orgDomain := Some(t.orgDomain);
      policy := t.policy;
    }
  }
}
