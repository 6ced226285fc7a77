/** Attribute-based policies, combined by a first-deny scan. */
module Abac {
  import opened Options

  datatype AttributeContext = AttributeContext(
    role: string, subjectTenant: string, resource: string, action: string, resourceTenant: string,
    resourceOwner: string, subject: string, risk: real, authenticated: bool, timezone: string)

  datatype AbacDecision = Allow | Deny | NotApplied
  datatype Evaluation = Evaluation(decision: AbacDecision, policy: Option<string>, reason: string)
  datatype Policy = Policy(name: string, evaluate: AttributeContext -> AbacDecision)

  predicate StartsWith(s: string, prefix: string) {
    prefix <= s
  }

  function Territorial(c: AttributeContext): AbacDecision {
    if c.resourceTenant == "" || c.subjectTenant == c.resourceTenant then NotApplied
    else if c.role == "SovereignOwner" || c.role == "Auditor" then NotApplied
    else Deny
  }

  function PersonalData(c: AttributeContext): AbacDecision {
    if !StartsWith(c.resource, "data:personal") then NotApplied
    else if c.resourceOwner != "" && c.resourceOwner != c.subject then
      if c.role == "SovereignOwner" || c.role == "governance_admin" then NotApplied else Deny
    else NotApplied
  }

  function HighRisk(c: AttributeContext): AbacDecision {
    if !c.authenticated || c.risk >= 0.9 then Deny else NotApplied
  }

  const DEFAULT_POLICIES: seq<Policy> := [
    Policy("risk:deny-high", c => HighRisk(c)),
    Policy("residency:personal-data", c => PersonalData(c)),
    Policy("isolation:territorial", c => Territorial(c))]

  function Evaluate(c: AttributeContext, policies: seq<Policy>): Evaluation {
    if policies == [] then Evaluation(NotApplied, None, "Ninguna política ABAC aplicable.")
    else if policies[0].evaluate(c) == Deny then
      Evaluation(Deny, Some(policies[0].name), "ABAC denegó por política '" + policies[0].name + "'.")
    else Evaluate(c, policies[1..])
  }

  /** Deny overrides: the answer is a denial exactly when some policy denies, and it names the first that does. */
  lemma {:induction false} DenyOverrides(c: AttributeContext, policies: seq<Policy>)
    ensures Evaluate(c, policies).decision != Allow
    ensures Evaluate(c, policies).decision == Deny <==>
            exists i :: 0 <= i < |policies| && policies[i].evaluate(c) == Deny
    ensures Evaluate(c, policies).decision == Deny ==>
            exists i :: 0 <= i < |policies| && policies[i].evaluate(c) == Deny
                        && Evaluate(c, policies).policy == Some(policies[i].name)
                        && forall j :: 0 <= j < i ==> policies[j].evaluate(c) != Deny
  {
    if policies != [] && policies[0].evaluate(c) != Deny {
      var rest := policies[1..];
      DenyOverrides(c, rest);
      assert forall i :: 0 <= i < |rest| ==> rest[i] == policies[i + 1];
      if Evaluate(c, rest).decision == Deny {
        var k :| 0 <= k < |rest| && rest[k].evaluate(c) == Deny
                 && Evaluate(c, rest).policy == Some(rest[k].name)
                 && forall j :: 0 <= j < k ==> rest[j].evaluate(c) != Deny;
        assert policies[k + 1].evaluate(c) == Deny;
        forall j | 0 <= j < k + 1
          ensures policies[j].evaluate(c) != Deny
        {
          if j > 0 {
            assert rest[j - 1] == policies[j];
          }
        }
      } else if i :| 0 <= i < |policies| && policies[i].evaluate(c) == Deny {
        assert rest[i - 1].evaluate(c) == Deny;
      }
    }
  }

  /** With the three default policies, in attribute terms. */
  lemma DefaultDeniesExactly(c: AttributeContext)
    ensures Evaluate(c, DEFAULT_POLICIES).decision == Deny <==>
      || !c.authenticated || c.risk >= 0.9
      || (StartsWith(c.resource, "data:personal") && c.resourceOwner != "" && c.resourceOwner != c.subject
          && c.role !in {"SovereignOwner", "governance_admin"})
      || (c.resourceTenant != "" && c.resourceTenant != c.subjectTenant && c.role !in {"SovereignOwner", "Auditor"})
  {
    DenyOverrides(c, DEFAULT_POLICIES);
    assert DEFAULT_POLICIES[0].evaluate(c) == HighRisk(c);
    assert DEFAULT_POLICIES[1].evaluate(c) == PersonalData(c);
    assert DEFAULT_POLICIES[2].evaluate(c) == Territorial(c);
  }

  /** And the first of them that denies is named. */
  lemma DefaultReasons(c: AttributeContext)
    ensures var e := Evaluate(c, DEFAULT_POLICIES);
      var name := if !c.authenticated || c.risk >= 0.9 then "risk:deny-high"
                  else if "data:personal" <= c.resource && c.resourceOwner != "" && c.resourceOwner != c.subject
                          && c.role !in {"SovereignOwner", "governance_admin"} then "residency:personal-data"
                  else "isolation:territorial";
      e.decision == Deny ==> e.policy == Some(name) && e.reason == "ABAC denegó por política '" + name + "'."
    ensures Evaluate(c, DEFAULT_POLICIES).decision == Deny <==>
      || !c.authenticated || c.risk >= 0.9
      || ("data:personal" <= c.resource && c.resourceOwner != "" && c.resourceOwner != c.subject
          && c.role !in {"SovereignOwner", "governance_admin"})
      || (c.resourceTenant != "" && c.resourceTenant != c.subjectTenant && c.role !in {"SovereignOwner", "Auditor"})
  {
    var all := DEFAULT_POLICIES;
    assert all[0].evaluate(c) == HighRisk(c) && all[1].evaluate(c) == PersonalData(c);
    assert all[2].evaluate(c) == Territorial(c);
    hide HighRisk, PersonalData, Territorial;
    EvaluateStep(c, all);
    EvaluateStep(c, all[1..]);
    EvaluateStep(c, all[1..][1..]);
    assert all[1..][0] == all[1] && all[1..][1..][0] == all[2] && all[1..][1..][1..] == [];
    assert Evaluate(c, []).decision == NotApplied;
    hide Evaluate;
    DefaultParts(c);
  }

  lemma EvaluateStep(c: AttributeContext, policies: seq<Policy>)
    requires policies != []
    ensures Evaluate(c, policies)
         == if policies[0].evaluate(c) == Deny then
              Evaluation(Deny, Some(policies[0].name), "ABAC denegó por política '" + policies[0].name + "'.")
            else Evaluate(c, policies[1..])
  {
  }

  lemma DefaultParts(c: AttributeContext)
    ensures HighRisk(c) == Deny <==> !c.authenticated || c.risk >= 0.9
    ensures PersonalData(c) == Deny <==>
      "data:personal" <= c.resource && c.resourceOwner != "" && c.resourceOwner != c.subject
      && c.role !in {"SovereignOwner", "governance_admin"}
    ensures Territorial(c) == Deny <==>
      c.resourceTenant != "" && c.resourceTenant != c.subjectTenant && c.role !in {"SovereignOwner", "Auditor"}
  {
  }
}
