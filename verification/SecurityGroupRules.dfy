// Rule reconciliation of one security group: a two-phase diff, additions then
// deletions, both computed from one snapshot read before either phase.
module SecurityGroupRules {

  // A rule as the cloud lists it: it may group several ranges, and may carry
  // other security groups as members.
  datatype Rule = Rule(protocol: string, fromPort: int, toPort: int, ipRanges: seq<string>, members: seq<string>)

  datatype SecurityGroup = SecurityGroup(inbound: seq<Rule>, outbound: seq<Rule>)

  // A rule as the cluster specification states it.
  datatype RuleSpec = RuleSpec(flow: string, protocol: string, fromPort: int, toPort: int,
                               ipRange: string, ipRanges: seq<string>)
  {
    function GetIpRanges(): seq<string> {
      if |ipRanges| > 0 then ipRanges
      else if ipRange != "" then [ipRange]
      else []
    }

    function GrantFor(range: string): Grant {
      Grant(flow, protocol, fromPort, toPort, range)
    }
  }

  // The unit of authorization: one range, for one protocol and port interval, in one flow.
  datatype Grant = Grant(flow: string, protocol: string, fromPort: int, toPort: int, ipRange: string)

  datatype Call = Create(grant: Grant) | Delete(grant: Grant)

  // What the cloud grants, and which of these grants sit in rules that carry members.
  datatype State = State(grants: set<Grant>, guarded: set<Grant>)

  // ---- Snapshots ----

  predicate SamePorts(rule: Rule, protocol: string, fromPort: int, toPort: int) {
    rule.protocol == protocol && rule.fromPort == fromPort && rule.toPort == toPort
  }

  // The grants of one flow that rules[..] carry, in rules with (guarded) or without members.
  function GrantsOf(flow: string, rules: seq<Rule>, guarded: bool): set<Grant> {
    set rule, range | rule in rules && (|rule.members| > 0) == guarded && range in rule.ipRanges
      :: Grant(flow, rule.protocol, rule.fromPort, rule.toPort, range)
  }

  function Plain(sg: SecurityGroup): set<Grant> {
    GrantsOf("Inbound", sg.inbound, false) + GrantsOf("Outbound", sg.outbound, false)
  }

  function Guarded(sg: SecurityGroup): set<Grant> {
    GrantsOf("Inbound", sg.inbound, true) + GrantsOf("Outbound", sg.outbound, true)
  }

  // sg is a possible listing of the cloud state s, whatever way the cloud groups ranges in rules.
  ghost predicate Shows(sg: SecurityGroup, s: State) {
    && Guarded(sg) == s.guarded
    && Plain(sg) == s.grants - s.guarded
    && s.guarded <= s.grants
  }

  // ---- Specification ----

  ghost function Wanted(specs: seq<RuleSpec>): set<Grant> {
    set spec, range | spec in specs && range in spec.GetIpRanges() :: spec.GrantFor(range)
  }

  function ToLower(s: string): string {
    seq(|s|, i requires 0 <= i < |s| => if 'A' <= s[i] <= 'Z' then s[i] - 'A' + 'a' else s[i])
  }

  // The flow under which the cloud files a rule, if it takes it: case does not matter.
  function FlowName(flow: string): string {
    if ToLower(flow) == "inbound" then "Inbound"
    else if ToLower(flow) == "outbound" then "Outbound"
    else flow
  }

  predicate IsFlow(flow: string) {
    FlowName(flow) == "Inbound" || FlowName(flow) == "Outbound"
  }

  function Filed(t: Grant): Grant {
    t.(flow := FlowName(t.flow))
  }

  // The wanted grants as the cloud files them, and as the add phase recognises them in a listing.
  ghost function Asked(specs: seq<RuleSpec>): set<Grant> {
    set t | t in Wanted(specs) && IsFlow(t.flow) :: Filed(t)
  }

  // Every wanted grant has a flow that the cloud can file.
  ghost predicate AllFlows(specs: seq<RuleSpec>) {
    forall t <- Wanted(specs) :: IsFlow(t.flow)
  }

  // Every grant asked for is also stated with the exact flow, as the delete phase expects it.
  ghost predicate FlowsAgree(specs: seq<RuleSpec>) {
    Asked(specs) <= Wanted(specs)
  }

  // The rules that the add phase compares a specification with.
  function RulesFor(sg: SecurityGroup, flow: string): seq<Rule> {
    if ToLower(flow) == "inbound" then sg.inbound
    else if ToLower(flow) == "outbound" then sg.outbound
    else []
  }

  ghost predicate Listed(spec: RuleSpec, rules: seq<Rule>, range: string) {
    exists rule <- rules :: SamePorts(rule, spec.protocol, spec.fromPort, spec.toPort) && range in rule.ipRanges
  }

  ghost predicate Accepted(flow: string, rule: Rule, specs: seq<RuleSpec>, range: string) {
    exists spec <- specs ::
      flow == spec.flow && SamePorts(rule, spec.protocol, spec.fromPort, spec.toPort) && range in spec.GetIpRanges()
  }

  // The calls of each phase, in the order of the nested loops.
  ghost function CreatesForSpec(spec: RuleSpec, rules: seq<Rule>, ranges: seq<string>): (calls: seq<Call>)
    ensures forall c :: c in calls <==>
              c.Create? && exists r <- ranges :: !Listed(spec, rules, r) && c.grant == spec.GrantFor(r)
  {
    if ranges == [] then [] else
    var front, last := ranges[..|ranges| - 1], ranges[|ranges| - 1];
    assert ranges == front + [last];
    CreatesForSpec(spec, rules, front) + if Listed(spec, rules, last) then [] else [Create(spec.GrantFor(last))]
  }

  ghost function AddCalls(specs: seq<RuleSpec>, sg: SecurityGroup): (calls: seq<Call>)
    ensures forall c <- calls :: c.Create?
  {
    if specs == [] then [] else
    var spec := specs[|specs| - 1];
    AddCalls(specs[..|specs| - 1], sg) + CreatesForSpec(spec, RulesFor(sg, spec.flow), spec.GetIpRanges())
  }

  ghost function DeletesForRule(flow: string, rule: Rule, specs: seq<RuleSpec>, ranges: seq<string>): (calls: seq<Call>)
    ensures forall c :: c in calls <==>
      c.Delete? && exists r <- ranges ::
                     && !Accepted(flow, rule, specs, r)
                     && c.grant == Grant(flow, rule.protocol, rule.fromPort, rule.toPort, r)
  {
    if ranges == [] then [] else
    var front, last := ranges[..|ranges| - 1], ranges[|ranges| - 1];
    assert ranges == front + [last];
    DeletesForRule(flow, rule, specs, front)
    + if Accepted(flow, rule, specs, last) then []
      else [Delete(Grant(flow, rule.protocol, rule.fromPort, rule.toPort, last))]
  }

  ghost function DeletesForFlow(flow: string, rules: seq<Rule>, specs: seq<RuleSpec>): (calls: seq<Call>)
    ensures forall c <- calls :: c.Delete?
  {
    if rules == [] then [] else
    var rule := rules[|rules| - 1];
    DeletesForFlow(flow, rules[..|rules| - 1], specs)
    + if |rule.members| > 0 then [] else DeletesForRule(flow, rule, specs, rule.ipRanges)
  }

  ghost function DeleteCalls(specs: seq<RuleSpec>, sg: SecurityGroup): (calls: seq<Call>)
    ensures forall c <- calls :: c.Delete?
  {
    DeletesForFlow("Inbound", sg.inbound, specs) + DeletesForFlow("Outbound", sg.outbound, specs)
  }

  ghost function PassCalls(specs: seq<RuleSpec>, sg: SecurityGroup, authoritative: bool): seq<Call> {
    AddCalls(specs, sg) + if authoritative then DeleteCalls(specs, sg) else []
  }

  ghost function Apply(grants: set<Grant>, calls: seq<Call>): set<Grant> {
    if calls == [] then grants else
    var before := Apply(grants, calls[..|calls| - 1]);
    match calls[|calls| - 1]
    case Create(t) => before + {Filed(t)}
    case Delete(t) => before - {t}
  }

  // From s, the calls issued may have left the cloud in s'. The cloud may file a
  // created grant in a rule that carries members; it files nothing else there. It takes no other
  // flow than the two it knows.
  ghost predicate Outcome(s: State, issued: seq<Call>, s': State) {
    && s'.grants == Apply(s.grants, issued)
    && s'.guarded <= s'.grants
    && (forall t <- s.guarded :: Delete(t) in issued || t in s'.guarded)
    && (forall t <- s'.guarded :: t in s.guarded || Creates(issued, t))
    && forall c <- issued :: c.Create? ==> IsFlow(c.grant.flow)
  }

  // One of the calls creates what is filed as t.
  ghost predicate Creates(calls: seq<Call>, t: Grant) {
    exists c <- calls :: c.Create? && Filed(c.grant) == t
  }

  // ---- The cloud and the reconciler ----

  // The calls may fail. A call that reports a failure may still have taken effect.
  class Cloud {
    var grants: set<Grant>
    var guarded: set<Grant>

    ghost function Current(): State
      reads this
    {
      State(grants, guarded)
    }

    method CreateSecurityGroupRule(t: Grant) returns (ok: bool, ghost applied: bool)
      requires guarded <= grants
      modifies this
      ensures ok ==> applied
      ensures Outcome(old(Current()), if applied then [Create(t)] else [], Current())
    {
      ok := *;
      var effect: bool := *;
      if !IsFlow(t.flow) {
        return false, false;
      }
      applied := ok || effect;
      if ok || effect {
        grants := grants + {Filed(t)};
        var merged: bool := *;
        if merged {
          guarded := guarded + {Filed(t)};
        }
      }
      ApplyOne(old(grants), Create(t));
      assert Creates([Create(t)], Filed(t));
    }

    method DeleteSecurityGroupRule(t: Grant) returns (ok: bool, ghost applied: bool)
      requires guarded <= grants
      modifies this
      ensures ok ==> applied
      ensures Outcome(old(Current()), if applied then [Delete(t)] else [], Current())
    {
      ok := *;
      var effect: bool := *;
      applied := ok || effect;
      if ok || effect {
        grants := grants - {t};
        guarded := guarded - {t};
      }
      ApplyOne(old(grants), Delete(t));
    }
  }

  lemma ApplyOne(grants: set<Grant>, c: Call)
    ensures Apply(grants, [c]) == if c.Create? then grants + {Filed(c.grant)} else grants - {c.grant}
  {
    assert [c][..0] == [];
    assert Apply(grants, []) == grants;
  }

  lemma {:induction false} ApplyConcat(grants: set<Grant>, a: seq<Call>, b: seq<Call>)
    ensures Apply(grants, a + b) == Apply(Apply(grants, a), b)
  {
    if b == [] {
      assert a + b == a;
    } else {
      assert (a + b)[..|a + b| - 1] == a + b[..|b| - 1];
      ApplyConcat(grants, a, b[..|b| - 1]);
    }
  }

  lemma OutcomeConcat(s: State, a: seq<Call>, s': State, b: seq<Call>, s'': State)
    requires Outcome(s, a, s') && Outcome(s', b, s'')
    ensures Outcome(s, a + b, s'')
  {
    ApplyConcat(s.grants, a, b);
    assert forall t :: Creates(a, t) || Creates(b, t) ==> Creates(a + b, t);
  }

  // The ranges that the snapshot already grants for the ports of spec.
  method ExistingRanges(spec: RuleSpec, rules: seq<Rule>) returns (existing: seq<string>)
    ensures forall r :: r in existing <==> Listed(spec, rules, r)
  {
    existing := [];
    for k := 0 to |rules|
      invariant forall r :: r in existing <==> Listed(spec, rules[..k], r)
    {
      var rule := rules[k];
      assert rules[..k + 1] == rules[..k] + [rule];
      if rule.fromPort != spec.fromPort || rule.toPort != spec.toPort || rule.protocol != spec.protocol {
        continue;
      }
      existing := existing + rule.ipRanges;
    }
    assert rules[..|rules|] == rules;
  }

  method CreateMissing(cloud: Cloud, spec: RuleSpec, rules: seq<Rule>) returns (ok: bool, ghost issued: seq<Call>)
    requires cloud.guarded <= cloud.grants
    modifies cloud
    ensures issued <= CreatesForSpec(spec, rules, spec.GetIpRanges())
    ensures ok ==> issued == CreatesForSpec(spec, rules, spec.GetIpRanges())
    ensures Outcome(old(cloud.Current()), issued, cloud.Current())
  {
    var existing := ExistingRanges(spec, rules);
    var ipRanges := spec.GetIpRanges();
    issued := [];
    assert ipRanges[..|ipRanges|] == ipRanges;
    for j := 0 to |ipRanges|
      invariant issued == CreatesForSpec(spec, rules, ipRanges[..j])
      invariant Outcome(old(cloud.Current()), issued, cloud.Current())
    {
      CreatesSplit(spec, rules, ipRanges, j);
      if ipRanges[j] in existing {
        continue;
      }
      ghost var before := cloud.Current();
      ghost var applied;
      ok, applied := cloud.CreateSecurityGroupRule(spec.GrantFor(ipRanges[j]));
      ghost var step := if applied then [Create(spec.GrantFor(ipRanges[j]))] else [];
      OutcomeConcat(old(cloud.Current()), issued, before, step, cloud.Current());
      issued := issued + step;
      if !ok {
        return;
      }
    }
    ok := true;
  }

  // The add phase. On failure it stops, having issued only a prefix of its calls.
  method ReconcileAddRules(cloud: Cloud, specs: seq<RuleSpec>, sg: SecurityGroup)
    returns (ok: bool, ghost issued: seq<Call>)
    requires cloud.guarded <= cloud.grants
    modifies cloud
    ensures issued <= AddCalls(specs, sg)
    ensures ok ==> issued == AddCalls(specs, sg)
    ensures Outcome(old(cloud.Current()), issued, cloud.Current())
  {
    issued := [];
    assert specs[..|specs|] == specs;
    for i := 0 to |specs|
      invariant issued == AddCalls(specs[..i], sg)
      invariant Outcome(old(cloud.Current()), issued, cloud.Current())
    {
      ghost var before := cloud.Current();
      ghost var step;
      ok, step := CreateMissing(cloud, specs[i], RulesFor(sg, specs[i].flow));
      OutcomeConcat(old(cloud.Current()), issued, before, step, cloud.Current());
      AddCallsSplit(specs, sg, i);
      issued := issued + step;
      if !ok {
        return;
      }
    }
    ok := true;
  }

  lemma {:induction false} AddCallsSplit(specs: seq<RuleSpec>, sg: SecurityGroup, i: nat)
    requires i < |specs|
    ensures AddCalls(specs[..i + 1], sg)
         == AddCalls(specs[..i], sg) + CreatesForSpec(specs[i], RulesFor(sg, specs[i].flow), specs[i].GetIpRanges())
    ensures AddCalls(specs[..i + 1], sg) <= AddCalls(specs, sg)
    decreases |specs|
  {
    assert specs[..i + 1][..i] == specs[..i];
    if i + 1 == |specs| {
      assert specs[..i + 1] == specs;
    } else {
      var front := specs[..|specs| - 1];
      assert front[..i + 1] == specs[..i + 1];
      AddCallsSplit(front, sg, i);
    }
  }

  lemma {:induction false} CreatesSplit(spec: RuleSpec, rules: seq<Rule>, ranges: seq<string>, j: nat)
    requires j < |ranges|
    ensures CreatesForSpec(spec, rules, ranges[..j + 1])
         == CreatesForSpec(spec, rules, ranges[..j])
            + if Listed(spec, rules, ranges[j]) then [] else [Create(spec.GrantFor(ranges[j]))]
    ensures CreatesForSpec(spec, rules, ranges[..j + 1]) <= CreatesForSpec(spec, rules, ranges)
    decreases |ranges|
  {
    assert ranges[..j + 1][..j] == ranges[..j];
    if j + 1 == |ranges| {
      assert ranges[..j + 1] == ranges;
    } else {
      var front := ranges[..|ranges| - 1];
      assert front[..j + 1] == ranges[..j + 1];
      CreatesSplit(spec, rules, front, j);
    }
  }

  // The ranges that the specification wants for the ports of rule, in one flow.
  method OkRanges(flow: string, rule: Rule, specs: seq<RuleSpec>) returns (okRanges: seq<string>)
    ensures forall r :: r in okRanges <==> Accepted(flow, rule, specs, r)
  {
    okRanges := [];
    for k := 0 to |specs|
      invariant forall r :: r in okRanges <==> Accepted(flow, rule, specs[..k], r)
    {
      var spec := specs[k];
      assert specs[..k + 1] == specs[..k] + [spec];
      if flow != spec.flow || rule.fromPort != spec.fromPort || rule.toPort != spec.toPort
         || rule.protocol != spec.protocol {
        continue;
      }
      okRanges := okRanges + spec.GetIpRanges();
    }
    assert specs[..|specs|] == specs;
  }

  method DeleteStale(cloud: Cloud, flow: string, rule: Rule, specs: seq<RuleSpec>)
    returns (ok: bool, ghost issued: seq<Call>)
    requires cloud.guarded <= cloud.grants
    modifies cloud
    ensures issued <= DeletesForRule(flow, rule, specs, rule.ipRanges)
    ensures ok ==> issued == DeletesForRule(flow, rule, specs, rule.ipRanges)
    ensures Outcome(old(cloud.Current()), issued, cloud.Current())
  {
    var okRanges := OkRanges(flow, rule, specs);
    issued := [];
    assert rule.ipRanges[..|rule.ipRanges|] == rule.ipRanges;
    for j := 0 to |rule.ipRanges|
      invariant issued == DeletesForRule(flow, rule, specs, rule.ipRanges[..j])
      invariant Outcome(old(cloud.Current()), issued, cloud.Current())
    {
      var ipRange := rule.ipRanges[j];
      DeletesSplit(flow, rule, specs, rule.ipRanges, j);
      if ipRange in okRanges {
        continue;
      }
      var t := Grant(flow, rule.protocol, rule.fromPort, rule.toPort, ipRange);
      ghost var before := cloud.Current();
      ghost var applied;
      ok, applied := cloud.DeleteSecurityGroupRule(t);
      ghost var step := if applied then [Delete(t)] else [];
      OutcomeConcat(old(cloud.Current()), issued, before, step, cloud.Current());
      issued := issued + step;
      if !ok {
        return;
      }
    }
    ok := true;
  }

  method CheckRules(cloud: Cloud, flow: string, rules: seq<Rule>, specs: seq<RuleSpec>)
    returns (ok: bool, ghost issued: seq<Call>)
    requires cloud.guarded <= cloud.grants
    modifies cloud
    ensures issued <= DeletesForFlow(flow, rules, specs)
    ensures ok ==> issued == DeletesForFlow(flow, rules, specs)
    ensures Outcome(old(cloud.Current()), issued, cloud.Current())
  {
    issued := [];
    assert rules[..|rules|] == rules;
    for i := 0 to |rules|
      invariant issued == DeletesForFlow(flow, rules[..i], specs)
      invariant Outcome(old(cloud.Current()), issued, cloud.Current())
    {
      FlowSplit(flow, rules, specs, i);
      // Rules with members are the cloud controller manager's: the specification only uses ranges.
      if |rules[i].members| > 0 {
        continue;
      }
      ghost var before := cloud.Current();
      ghost var step;
      ok, step := DeleteStale(cloud, flow, rules[i], specs);
      OutcomeConcat(old(cloud.Current()), issued, before, step, cloud.Current());
      issued := issued + step;
      if !ok {
        return;
      }
    }
    ok := true;
  }

  method ReconcileDeleteRules(cloud: Cloud, specs: seq<RuleSpec>, sg: SecurityGroup)
    returns (ok: bool, ghost issued: seq<Call>)
    requires cloud.guarded <= cloud.grants
    modifies cloud
    ensures issued <= DeleteCalls(specs, sg)
    ensures ok ==> issued == DeleteCalls(specs, sg)
    ensures Outcome(old(cloud.Current()), issued, cloud.Current())
  {
    ok, issued := CheckRules(cloud, "Inbound", sg.inbound, specs);
    if !ok {
      return;
    }
    ghost var before := cloud.Current();
    ghost var step;
    ok, step := CheckRules(cloud, "Outbound", sg.outbound, specs);
    OutcomeConcat(old(cloud.Current()), issued, before, step, cloud.Current());
    issued := issued + step;
  }

  // One pass over a security group: additions, then deletions if the specification is authoritative.
  method ReconcileRules(cloud: Cloud, specs: seq<RuleSpec>, sg: SecurityGroup, authoritative: bool)
    returns (ok: bool)
    requires Shows(sg, cloud.Current())
    modifies cloud
    ensures Pass(specs, authoritative, old(cloud.Current()), cloud.Current(), ok)
    // What a success leaves: every grant that some specification states with an exact flow, in its list of ranges or,
    // if that list is empty, as its one range; and every grant that was there, unless the specification is
    // authoritative, in which case only what is stated or sits with members is left of it.
    ensures ok ==> forall t: Grant ::
              (t.flow == "Inbound" || t.flow == "Outbound")
              && (exists spec <- specs :: spec.flow == t.flow && spec.protocol == t.protocol
                    && spec.fromPort == t.fromPort && spec.toPort == t.toPort
                    && (t.ipRange in spec.ipRanges
                        || (spec.ipRanges == [] && spec.ipRange != "" && t.ipRange == spec.ipRange)))
              ==> t in cloud.grants
    ensures ok && !authoritative ==> old(cloud.grants) <= cloud.grants
    ensures ok && authoritative ==> forall t <- old(cloud.grants) :: t in cloud.grants <==>
              || t in old(cloud.guarded)
              || exists spec <- specs :: spec.flow == t.flow && spec.protocol == t.protocol
                   && spec.fromPort == t.fromPort && spec.toPort == t.toPort
                   && (t.ipRange in spec.ipRanges
                       || (spec.ipRanges == [] && spec.ipRange != "" && t.ipRange == spec.ipRange))
    // What is new was asked for, in this flow or in the same one spelled otherwise.
    ensures forall t <- cloud.grants :: t !in old(cloud.grants) ==> exists u <- Wanted(specs) :: Filed(u) == t
  {
    ok := OnePass(cloud, specs, sg, authoritative);
    WantedMeaning(specs);
    PassLeaves(specs, authoritative, old(cloud.Current()), cloud.Current(), ok);
  }

  method OnePass(cloud: Cloud, specs: seq<RuleSpec>, sg: SecurityGroup, authoritative: bool)
    returns (ok: bool)
    requires Shows(sg, cloud.Current())
    modifies cloud
    ensures Pass(specs, authoritative, old(cloud.Current()), cloud.Current(), ok)
  {
    ghost var issued;
    ok, issued := ReconcileAddRules(cloud, specs, sg);
    if ok && authoritative {
      ghost var before := cloud.Current();
      ghost var step;
      ok, step := ReconcileDeleteRules(cloud, specs, sg);
      OutcomeConcat(old(cloud.Current()), issued, before, step, cloud.Current());
      issued := issued + step;
    }
    assert PassVia(specs, authoritative, old(cloud.Current()), cloud.Current(), ok, sg, issued);
  }

  // From s, a pass that read some snapshot of s may end in s', with or without success.
  ghost predicate Pass(specs: seq<RuleSpec>, authoritative: bool, s: State, s': State, ok: bool) {
    exists sg, issued :: PassVia(specs, authoritative, s, s', ok, sg, issued)
  }

  ghost predicate PassVia(specs: seq<RuleSpec>, authoritative: bool, s: State, s': State, ok: bool,
                          sg: SecurityGroup, issued: seq<Call>)
  {
    && Shows(sg, s)
    && issued <= PassCalls(specs, sg, authoritative)
    && (ok ==> issued == PassCalls(specs, sg, authoritative))
    && Outcome(s, issued, s')
  }

  lemma {:induction false} DeletesSplit(flow: string, rule: Rule, specs: seq<RuleSpec>, ranges: seq<string>, j: nat)
    requires j < |ranges|
    ensures DeletesForRule(flow, rule, specs, ranges[..j + 1])
         == DeletesForRule(flow, rule, specs, ranges[..j])
            + if Accepted(flow, rule, specs, ranges[j]) then []
              else [Delete(Grant(flow, rule.protocol, rule.fromPort, rule.toPort, ranges[j]))]
    ensures DeletesForRule(flow, rule, specs, ranges[..j + 1]) <= DeletesForRule(flow, rule, specs, ranges)
    decreases |ranges|
  {
    assert ranges[..j + 1][..j] == ranges[..j];
    if j + 1 == |ranges| {
      assert ranges[..j + 1] == ranges;
    } else {
      var front := ranges[..|ranges| - 1];
      assert front[..j + 1] == ranges[..j + 1];
      DeletesSplit(flow, rule, specs, front, j);
    }
  }

  lemma {:induction false} FlowSplit(flow: string, rules: seq<Rule>, specs: seq<RuleSpec>, i: nat)
    requires i < |rules|
    ensures DeletesForFlow(flow, rules[..i + 1], specs)
         == DeletesForFlow(flow, rules[..i], specs)
            + if |rules[i].members| > 0 then [] else DeletesForRule(flow, rules[i], specs, rules[i].ipRanges)
    ensures DeletesForFlow(flow, rules[..i + 1], specs) <= DeletesForFlow(flow, rules, specs)
    decreases |rules|
  {
    assert rules[..i + 1][..i] == rules[..i];
    if i + 1 == |rules| {
      assert rules[..i + 1] == rules;
    } else {
      var front := rules[..|rules| - 1];
      assert front[..i + 1] == rules[..i + 1];
      FlowSplit(flow, front, specs, i);
    }
  }

  // ---- Properties ----

  // What a specification wants: the ranges of its list or, if that is empty, its one range.
  lemma WantedMeaning(specs: seq<RuleSpec>)
    ensures forall t: Grant :: t in Wanted(specs) <==>
              exists spec <- specs :: spec.flow == t.flow && spec.protocol == t.protocol
                && spec.fromPort == t.fromPort && spec.toPort == t.toPort
                && (t.ipRange in spec.ipRanges
                    || (spec.ipRanges == [] && spec.ipRange != "" && t.ipRange == spec.ipRange))
  {
    forall t: Grant
      ensures t in Wanted(specs)
         <==> exists spec <- specs :: t.ipRange in spec.GetIpRanges() && spec.GrantFor(t.ipRange) == t
    {
      if spec :| spec in specs && t.ipRange in spec.GetIpRanges() && spec.GrantFor(t.ipRange) == t {
        assert spec.GrantFor(t.ipRange) in Wanted(specs);
      }
    }
  }

  // What a pass leaves.
  lemma PassLeaves(specs: seq<RuleSpec>, authoritative: bool, s: State, s': State, ok: bool)
    requires Pass(specs, authoritative, s, s', ok)
    ensures ok ==> forall t <- Wanted(specs) :: t.flow == "Inbound" || t.flow == "Outbound" ==> t in s'.grants
    ensures ok && !authoritative ==> s.grants <= s'.grants
    ensures ok && authoritative ==> forall t <- s.grants :: t in s'.grants <==> t in s.guarded || t in Wanted(specs)
    ensures forall t <- s'.grants :: t !in s.grants ==> exists u <- Wanted(specs) :: Filed(u) == t
  {
    ExactFlows();
    forall t <- Wanted(specs) | t.flow == "Inbound" || t.flow == "Outbound"
      ensures t in Asked(specs)
    {
      assert Filed(t) == t;
    }
    var sg, issued :| PassVia(specs, authoritative, s, s', ok, sg, issued);
    CreatesMeaning(specs, sg, authoritative, issued);
    PassEffect(specs, sg, authoritative, s, issued, s');
    if ok && authoritative {
      PassConverges(specs, s, s', ok);
    } else if ok {
      AdditivePass(specs, s, s');
    }
  }

  // How flows may be spelled: a rule is filed as inbound, or outbound, when its flow is that word with each letter in
  // either case. Any other flow is refused.
  lemma FlowSpellings(flow: string)
    ensures Spells(flow, "inbound", "INBOUND") <==> FlowName(flow) == "Inbound"
    ensures Spells(flow, "outbound", "OUTBOUND") <==> FlowName(flow) == "Outbound"
    ensures IsFlow(flow) <==> Spells(flow, "inbound", "INBOUND") || Spells(flow, "outbound", "OUTBOUND")
    ensures !IsFlow(flow) ==> FlowName(flow) == flow
    ensures forall sg :: RulesFor(sg, flow) == if Spells(flow, "inbound", "INBOUND") then sg.inbound
                                               else if Spells(flow, "outbound", "OUTBOUND") then sg.outbound else []
  {
    SpelledExactly(flow, "inbound", "INBOUND");
    SpelledExactly(flow, "outbound", "OUTBOUND");
    assert Spells("Inbound", "inbound", "INBOUND") && Spells("Outbound", "outbound", "OUTBOUND");
  }

  predicate Spells(flow: string, lower: string, upper: string)
    requires |lower| == |upper|
  {
    |flow| == |lower| && forall i :: 0 <= i < |flow| ==> flow[i] == lower[i] || flow[i] == upper[i]
  }

  lemma SpelledExactly(flow: string, lower: string, upper: string)
    requires |lower| == |upper|
    requires forall i :: 0 <= i < |lower| ==> 'a' <= lower[i] <= 'z' && upper[i] == lower[i] - 'a' + 'A'
    ensures Spells(flow, lower, upper) <==> ToLower(flow) == lower
  {
    if ToLower(flow) == lower {
      forall i | 0 <= i < |flow|
        ensures flow[i] == lower[i] || flow[i] == upper[i]
      {
        assert ToLower(flow)[i] == lower[i];
      }
    }
  }

  lemma ExactFlows()
    ensures ToLower("Inbound") == "inbound" && ToLower("Outbound") == "outbound"
    ensures forall t: Grant :: t.flow == "Inbound" || t.flow == "Outbound" ==> Filed(t) == t
  {
    assert ToLower("Inbound") == "inbound" && ToLower("Outbound") == "outbound";
  }

  ghost function Listing(sg: SecurityGroup): set<Grant> {
    Plain(sg) + Guarded(sg)
  }

  // The add phase asks for exactly the wanted grants that the snapshot lacks, whatever the case of their flow.
  lemma {:induction false} AddCallsMeaning(specs: seq<RuleSpec>, sg: SecurityGroup)
    ensures forall t :: Create(t) in AddCalls(specs, sg) <==> t in Wanted(specs) && Filed(t) !in Listing(sg)
  {
    if specs != [] {
      var front, spec := specs[..|specs| - 1], specs[|specs| - 1];
      assert specs == front + [spec];
      AddCallsMeaning(front, sg);
      forall r
        ensures Listed(spec, RulesFor(sg, spec.flow), r) <==> Filed(spec.GrantFor(r)) in Listing(sg)
      {
        ListedIsFiled(spec, sg, r);
      }
      assert Wanted(specs) == Wanted(front) + set r | r in spec.GetIpRanges() :: spec.GrantFor(r);
    }
  }

  lemma ListedIsFiled(spec: RuleSpec, sg: SecurityGroup, r: string)
    ensures Listed(spec, RulesFor(sg, spec.flow), r) <==> Filed(spec.GrantFor(r)) in Listing(sg)
  {
    ExactFlows();
  }

  // The delete phase asks for exactly the unwanted grants that sit in rules without members.
  lemma DeleteCallsMeaning(specs: seq<RuleSpec>, sg: SecurityGroup)
    ensures forall t :: Delete(t) in DeleteCalls(specs, sg) <==> t in Plain(sg) && t !in Wanted(specs)
  {
    FlowMeaning("Inbound", sg.inbound, specs);
    FlowMeaning("Outbound", sg.outbound, specs);
  }

  lemma {:induction false} FlowMeaning(flow: string, rules: seq<Rule>, specs: seq<RuleSpec>)
    ensures forall t :: Delete(t) in DeletesForFlow(flow, rules, specs)
                   <==> t in GrantsOf(flow, rules, false) && t !in Wanted(specs)
  {
    if rules != [] {
      var front, rule := rules[..|rules| - 1], rules[|rules| - 1];
      assert rules == front + [rule];
      FlowMeaning(flow, front, specs);
      forall r
        ensures Accepted(flow, rule, specs, r)
           <==> Grant(flow, rule.protocol, rule.fromPort, rule.toPort, r) in Wanted(specs)
      {
      }
    }
  }

  lemma {:induction false} ApplyMeaning(grants: set<Grant>, calls: seq<Call>)
    requires forall t :: Creates(calls, t) ==> Delete(t) !in calls
    ensures forall t :: t in Apply(grants, calls) <==> (t in grants || Creates(calls, t)) && Delete(t) !in calls
  {
    if calls != [] {
      var front, last := calls[..|calls| - 1], calls[|calls| - 1];
      assert calls == front + [last];
      CreatesSplits(front, last);
      ApplyMeaning(grants, front);
    }
  }

  lemma CreatesSplits(front: seq<Call>, last: Call)
    ensures forall t :: Creates(front + [last], t) <==> Creates(front, t) || (last.Create? && Filed(last.grant) == t)
    ensures forall c :: c in front + [last] <==> c in front || c == last
  {
  }

  // What a prefix of a pass can and cannot contain.
  lemma PassCallsMeaning(specs: seq<RuleSpec>, sg: SecurityGroup, authoritative: bool, issued: seq<Call>)
    requires issued <= PassCalls(specs, sg, authoritative)
    ensures forall t :: Create(t) in issued ==> t in Wanted(specs) && Filed(t) !in Listing(sg)
    ensures forall t :: Delete(t) in issued ==> authoritative && t in Plain(sg) && t !in Wanted(specs)
    ensures |issued| >= |AddCalls(specs, sg)| ==>
              forall t <- Wanted(specs) :: Filed(t) in Listing(sg) || Create(t) in issued
    ensures |issued| == |AddCalls(specs, sg)| ==> forall t :: Delete(t) !in issued
    ensures issued == PassCalls(specs, sg, true) ==>
              forall t :: t in Plain(sg) && t !in Wanted(specs) ==> Delete(t) in issued
  {
    AddCallsMeaning(specs, sg);
    DeleteCallsMeaning(specs, sg);
    PrefixOf(AddCalls(specs, sg), if authoritative then DeleteCalls(specs, sg) else [], issued);
    if issued == PassCalls(specs, sg, true) {
      assert forall c <- DeleteCalls(specs, sg) :: c in issued;
    }
  }

  // A prefix of additions followed by deletions.
  lemma PrefixOf(adds: seq<Call>, deletes: seq<Call>, issued: seq<Call>)
    requires issued <= adds + deletes
    requires (forall c <- adds :: c.Create?) && (forall c <- deletes :: c.Delete?)
    ensures forall c <- issued :: c in adds || c in deletes
    ensures |issued| >= |adds| ==> forall c <- adds :: c in issued
    ensures |issued| == |adds| ==> forall c <- issued :: c.Create?
  {
    assert forall i :: 0 <= i < |issued| ==> issued[i] == (adds + deletes)[i];
    if |issued| >= |adds| {
      assert issued[..|adds|] == adds;
      assert forall c <- adds :: c in issued[..|adds|];
    }
  }

  // What a prefix of a pass creates, as the cloud files it.
  lemma CreatesMeaning(specs: seq<RuleSpec>, sg: SecurityGroup, authoritative: bool, issued: seq<Call>)
    requires issued <= PassCalls(specs, sg, authoritative)
    requires forall c <- issued :: c.Create? ==> IsFlow(c.grant.flow)
    ensures forall t :: Creates(issued, t) ==> t in Asked(specs) && t !in Listing(sg)
    ensures forall t :: Creates(issued, t) ==> Delete(t) !in issued
    ensures |issued| >= |AddCalls(specs, sg)| ==> AllFlows(specs)
    ensures |issued| >= |AddCalls(specs, sg)| ==> forall t <- Asked(specs) :: t in Listing(sg) || Creates(issued, t)
  {
    PassCallsMeaning(specs, sg, authoritative, issued);
    forall t | Creates(issued, t)
      ensures t in Asked(specs) && t !in Listing(sg)
    {
      var c :| c in issued && c.Create? && Filed(c.grant) == t;
      assert Create(c.grant) in issued;
    }
    if |issued| >= |AddCalls(specs, sg)| {
      forall t <- Wanted(specs)
        ensures IsFlow(t.flow)
        ensures Filed(t) in Listing(sg) || Creates(issued, Filed(t))
      {
        assert Filed(t) in Listing(sg) || Create(t) in issued;
      }
    }
  }

  // Safety at every intermediate state of a pass, hence after any failure: a wanted grant is never
  // lost, from the end of the additions on every wanted grant is present, and a guarded grant is never
  // lost. Right after the additions, everything asked for is present.
  lemma IntermediateSafety(specs: seq<RuleSpec>, sg: SecurityGroup, authoritative: bool, s: State,
                           issued: seq<Call>, now: State)
    requires Shows(sg, s) && issued <= PassCalls(specs, sg, authoritative) && Outcome(s, issued, now)
    ensures s.grants * Wanted(specs) <= now.grants
    ensures s.guarded <= now.guarded
    ensures now.grants <= s.grants + Asked(specs)
    ensures |issued| >= |AddCalls(specs, sg)| ==> AllFlows(specs) && Asked(specs) * Wanted(specs) <= now.grants
    ensures |issued| == |AddCalls(specs, sg)| ==> Asked(specs) <= now.grants
    ensures !authoritative ==> s.grants <= now.grants
  {
    PassEffect(specs, sg, authoritative, s, issued, now);
    CreatesMeaning(specs, sg, authoritative, issued);
    PassCallsMeaning(specs, sg, authoritative, issued);
  }

  // The grants still missing, and the unwanted ones still present that are not foreign.
  ghost function Distance(specs: seq<RuleSpec>, foreign: set<Grant>, grants: set<Grant>): nat {
    |Asked(specs) - grants| + |grants - Wanted(specs) - foreign|
  }

  ghost function GrantOf(c: Call): Grant {
    if c.Create? then Filed(c.grant) else c.grant
  }

  ghost predicate Repeats(c: Call, earlier: seq<Call>) {
    if c.Create? then Creates(earlier, Filed(c.grant)) else c in earlier
  }

  // Each call of an authoritative pass that the cloud takes brings it one grant closer to the
  // specification, except that creating or deleting a grant asked for under an inexact flow brings it no
  // closer. A call that repeats an earlier one of the same pass changes nothing.
  lemma EachCallProgresses(specs: seq<RuleSpec>, sg: SecurityGroup, s: State, k: nat)
    requires Shows(sg, s) && k < |PassCalls(specs, sg, true)|
    requires forall c <- PassCalls(specs, sg, true)[..k + 1] :: c.Create? ==> IsFlow(c.grant.flow)
    ensures var calls := PassCalls(specs, sg, true);
            var before, after := Apply(s.grants, calls[..k]), Apply(s.grants, calls[..k + 1]);
            if Repeats(calls[k], calls[..k]) then after == before
            else Distance(specs, s.guarded, after)
                 == Distance(specs, s.guarded, before)
                    - if GrantOf(calls[k]) in Asked(specs) - Wanted(specs) then 0 else 1
  {
    var calls := PassCalls(specs, sg, true);
    var c, earlier := calls[k], calls[..k];
    var before := Apply(s.grants, earlier);
    assert calls[..k + 1] == earlier + [c];
    ApplyConcat(s.grants, earlier, [c]);
    ApplyOne(before, c);
    CallEffect(specs, sg, s, earlier, c);
    Closer(specs, s.guarded, before, c, Repeats(c, earlier));
  }

  // One call on the grants before it.
  lemma Closer(specs: seq<RuleSpec>, foreign: set<Grant>, before: set<Grant>, c: Call, repeats: bool)
    requires GrantOf(c) !in foreign
    requires c.Create? ==> GrantOf(c) in Asked(specs) && (GrantOf(c) in before <==> repeats)
    requires c.Delete? ==> GrantOf(c) !in Wanted(specs) && (GrantOf(c) in before <==> !repeats)
    ensures var after := if c.Create? then before + {GrantOf(c)} else before - {GrantOf(c)};
            if repeats then after == before
            else Distance(specs, foreign, after)
                 == Distance(specs, foreign, before) - if GrantOf(c) in Asked(specs) - Wanted(specs) then 0 else 1
  {
    if !repeats {
      if c.Create? {
        CloserByCreate(Asked(specs), Wanted(specs), foreign, before, GrantOf(c));
      } else {
        CloserByDelete(Asked(specs), Wanted(specs), foreign, before, GrantOf(c));
      }
    }
  }

  lemma CallEffect(specs: seq<RuleSpec>, sg: SecurityGroup, s: State, earlier: seq<Call>, c: Call)
    requires Shows(sg, s) && earlier + [c] <= PassCalls(specs, sg, true)
    requires forall e <- earlier + [c] :: e.Create? ==> IsFlow(e.grant.flow)
    ensures GrantOf(c) !in s.guarded
    ensures c.Create? ==>
              GrantOf(c) in Asked(specs) && (GrantOf(c) in Apply(s.grants, earlier) <==> Repeats(c, earlier))
    ensures c.Delete? ==> c.grant !in Wanted(specs) && (c.grant in Apply(s.grants, earlier) <==> !Repeats(c, earlier))
  {
    assert c in earlier + [c];
    assert earlier <= PassCalls(specs, sg, true);
    assert c.Create? ==> Creates(earlier + [c], GrantOf(c));
    PassCallsMeaning(specs, sg, true, earlier + [c]);
    CreatesMeaning(specs, sg, true, earlier + [c]);
    PassCallsMeaning(specs, sg, true, earlier);
    CreatesMeaning(specs, sg, true, earlier);
    ApplyMeaning(s.grants, earlier);
  }

  lemma CloserByCreate(asked: set<Grant>, wanted: set<Grant>, foreign: set<Grant>, grants: set<Grant>, t: Grant)
    requires t in asked && t !in grants && t !in foreign
    ensures |asked - (grants + {t})| == |asked - grants| - 1
    ensures |grants + {t} - wanted - foreign| == |grants - wanted - foreign| + if t in wanted then 0 else 1
  {
    assert asked - grants == (asked - (grants + {t})) + {t};
    if t in wanted {
      assert grants + {t} - wanted - foreign == grants - wanted - foreign;
    } else {
      assert grants + {t} - wanted - foreign == (grants - wanted - foreign) + {t};
    }
  }

  lemma CloserByDelete(asked: set<Grant>, wanted: set<Grant>, foreign: set<Grant>, grants: set<Grant>, t: Grant)
    requires t !in wanted && t !in foreign && t in grants
    ensures |grants - {t} - wanted - foreign| == |grants - wanted - foreign| - 1
    ensures |asked - (grants - {t})| == |asked - grants| + if t in asked then 1 else 0
  {
    assert grants - wanted - foreign == (grants - {t} - wanted - foreign) + {t};
    if t in asked {
      assert asked - (grants - {t}) == (asked - grants) + {t};
    } else {
      assert asked - (grants - {t}) == asked - grants;
    }
  }

  // What an authoritative specification leads to: its own grants, and those it does not own.
  ghost function Target(specs: seq<RuleSpec>, s: State): set<Grant> {
    Asked(specs) + s.guarded
  }

  // No pass, failed or not, moves the target. A successful one is possible only if the cloud takes every
  // flow. It reaches the target exactly when no grant asked for only under an inexact flow was present
  // in a rule without members: those, it deletes.
  lemma PassConverges(specs: seq<RuleSpec>, s: State, s': State, ok: bool)
    requires Pass(specs, true, s, s', ok)
    ensures Target(specs, s') == Target(specs, s)
    ensures s.grants * Wanted(specs) + s.guarded <= s'.grants
    ensures ok ==> AllFlows(specs)
    ensures ok ==> s'.grants == s.guarded + s.grants * Wanted(specs) + (Asked(specs) - s.grants)
    ensures ok ==> (s'.grants == Target(specs, s) <==> (Asked(specs) - Wanted(specs)) * s.grants <= s.guarded)
  {
    var sg, issued :| PassVia(specs, true, s, s', ok, sg, issued);
    CreatesMeaning(specs, sg, true, issued);
    PassEffect(specs, sg, true, s, issued, s');
    if ok {
      CompletePassEffect(specs, sg, s, issued, s');
    }
  }

  // What a prefix of a pass leaves.
  lemma PassEffect(specs: seq<RuleSpec>, sg: SecurityGroup, authoritative: bool, s: State, issued: seq<Call>, s': State)
    requires Shows(sg, s) && issued <= PassCalls(specs, sg, authoritative) && Outcome(s, issued, s')
    ensures forall t :: t in s'.grants <==> (t in s.grants || Creates(issued, t)) && Delete(t) !in issued
    ensures forall t :: Delete(t) in issued ==> t in s.grants && t !in s.guarded && t !in Wanted(specs)
    ensures forall t <- s.guarded :: t in s'.guarded
  {
    PassCallsMeaning(specs, sg, authoritative, issued);
    CreatesMeaning(specs, sg, authoritative, issued);
    ApplyMeaning(s.grants, issued);
  }

  lemma CompletePassEffect(specs: seq<RuleSpec>, sg: SecurityGroup, s: State, issued: seq<Call>, s': State)
    requires Shows(sg, s) && issued == PassCalls(specs, sg, true) && Outcome(s, issued, s')
    ensures AllFlows(specs)
    ensures s'.grants == s.guarded + s.grants * Wanted(specs) + (Asked(specs) - s.grants)
    ensures s.grants * Wanted(specs) <= Asked(specs)
  {
    PassEffect(specs, sg, true, s, issued, s');
    CreatesMeaning(specs, sg, true, issued);
    PassCallsMeaning(specs, sg, true, issued);
    ListingIsFiled(specs, sg, s);
    forall t
      ensures Creates(issued, t) <==> t in Asked(specs) && t !in s.grants
      ensures Delete(t) in issued <==> t in s.grants && t !in s.guarded && t !in Wanted(specs)
    {
    }
  }

  // A wanted grant that the cloud lists is one asked for.
  lemma ListingIsFiled(specs: seq<RuleSpec>, sg: SecurityGroup, s: State)
    requires Shows(sg, s)
    ensures s.grants * Wanted(specs) <= Asked(specs)
    ensures forall t <- s.grants :: IsFlow(t.flow) && Filed(t) == t
  {
    ExactFlows();
    forall t <- s.grants
      ensures t.flow == "Inbound" || t.flow == "Outbound"
    {
      assert t in Listing(sg);
    }
  }

  // Without authority a successful pass only adds what is missing.
  lemma AdditivePass(specs: seq<RuleSpec>, s: State, s': State)
    requires Pass(specs, false, s, s', true)
    ensures s'.grants == s.grants + Asked(specs) && AllFlows(specs)
  {
    var sg, issued :| PassVia(specs, false, s, s', true, sg, issued);
    AdditiveEffect(specs, sg, s, issued, s');
  }

  lemma AdditiveEffect(specs: seq<RuleSpec>, sg: SecurityGroup, s: State, issued: seq<Call>, s': State)
    requires Shows(sg, s) && issued == AddCalls(specs, sg) && Outcome(s, issued, s')
    ensures s'.grants == s.grants + Asked(specs) && AllFlows(specs)
  {
    assert issued == PassCalls(specs, sg, false);
    PassEffect(specs, sg, false, s, issued, s');
    CreatesMeaning(specs, sg, false, issued);
    assert forall t :: Delete(t) !in issued;
  }

  // When an authoritative pass is silent. If the flows agree, exactly on the states that are already at
  // the target, however the cloud groups the grants in rules.
  lemma SilentExactlyAtTarget(specs: seq<RuleSpec>, sg: SecurityGroup, s: State)
    requires Shows(sg, s)
    ensures PassCalls(specs, sg, true) == []
       <==> AllFlows(specs) && Asked(specs) <= s.grants <= Wanted(specs) + s.guarded
    ensures AllFlows(specs) && FlowsAgree(specs) ==>
              (PassCalls(specs, sg, true) == [] <==> s.grants == Target(specs, s))
  {
    var calls := PassCalls(specs, sg, true);
    AddCallsMeaning(specs, sg);
    DeleteCallsMeaning(specs, sg);
    ListingIsFiled(specs, sg, s);
    if calls != [] {
      assert calls[0] in AddCalls(specs, sg) || calls[0] in DeleteCalls(specs, sg);
      var t := calls[0].grant;
      if calls[0].Create? {
        assert t in Wanted(specs) && Filed(t) !in s.grants;
        assert AllFlows(specs) ==> Filed(t) in Asked(specs);
      } else {
        assert t in s.grants && t !in Wanted(specs) + s.guarded;
      }
    } else {
      assert forall t <- Wanted(specs) :: Create(t) !in AddCalls(specs, sg);
      assert forall t <- Plain(sg) :: Delete(t) !in DeleteCalls(specs, sg);
    }
  }

  // Any number of passes, each failing anywhere, then a successful one: the cloud is at the target of the
  // first state exactly when the last pass found no grant asked for only under an inexact flow. If the flows
  // agree, it is, and from then on passes issue no call.
  lemma {:induction false} RunConverges(specs: seq<RuleSpec>, states: seq<State>, oks: seq<bool>)
    requires |oks| > 0 && |states| == |oks| + 1
    requires forall i :: 0 <= i < |oks| ==> Pass(specs, true, states[i], states[i + 1], oks[i])
    requires oks[|oks| - 1]
    ensures states[|oks|].grants == Target(specs, states[0])
       <==> (Asked(specs) - Wanted(specs)) * states[|oks| - 1].grants <= states[|oks| - 1].guarded
    ensures FlowsAgree(specs) ==>
              && states[|oks|].grants == Target(specs, states[0])
              && forall sg :: Shows(sg, states[|oks|]) ==> PassCalls(specs, sg, true) == []
    decreases |oks|
  {
    assert states[0 + 1] == states[1];
    PassConverges(specs, states[0], states[1], oks[0]);
    if |oks| == 1 {
      forall sg | Shows(sg, states[1])
        ensures FlowsAgree(specs) ==> PassCalls(specs, sg, true) == []
      {
        SilentExactlyAtTarget(specs, sg, states[1]);
      }
    } else {
      RunConverges(specs, states[1..], oks[1..]);
    }
  }

  // ---- Flows ----

  // A grant asked for only under an inexact flow, outside rules with members, comes and goes: each
  // successful pass creates it if it is absent and deletes it if it is present.
  lemma InexactFlowToggles(specs: seq<RuleSpec>, s: State, s': State, t: Grant)
    requires Pass(specs, true, s, s', true)
    requires t in Asked(specs) - Wanted(specs) && t !in s.guarded
    ensures t in s'.grants <==> t !in s.grants
  {
    PassConverges(specs, s, s', true);
  }

  // No listing makes a pass delete a grant that its own additions recognise, exactly when the flows agree.
  lemma DeletesItsOwnExactly(specs: seq<RuleSpec>)
    ensures (forall sg, t :: Delete(t) in DeleteCalls(specs, sg) ==> t !in Asked(specs)) <==> FlowsAgree(specs)
  {
    if FlowsAgree(specs) {
      forall sg, t | Delete(t) in DeleteCalls(specs, sg)
        ensures t !in Asked(specs)
      {
        DeleteCallsMeaning(specs, sg);
      }
    } else {
      var t :| t in Asked(specs) && t !in Wanted(specs);
      var sg := ListOne(t);
      ListsOne(t, specs);
      DeleteCallsMeaning(specs, sg);
      assert Delete(t) in DeleteCalls(specs, sg);
    }
  }

  // When the cloud takes every flow, every successful pass reaches the target exactly when the flows agree.
  lemma ConvergesExactly(specs: seq<RuleSpec>)
    requires AllFlows(specs)
    ensures (forall s, s' :: Pass(specs, true, s, s', true) ==> s'.grants == Target(specs, s)) <==> FlowsAgree(specs)
  {
    if FlowsAgree(specs) {
      forall s, s' | Pass(specs, true, s, s', true)
        ensures s'.grants == Target(specs, s)
      {
        PassConverges(specs, s, s', true);
      }
    } else {
      var t :| t in Asked(specs) && t !in Wanted(specs);
      ListsOne(t, specs);
      var s, s' := SomePass(specs, ListOne(t), State({t}, {}));
      PassConverges(specs, s, s', true);
      assert t in (Asked(specs) - Wanted(specs)) * s.grants;
      assert s'.grants != Target(specs, s);
    }
  }

  ghost function ListOne(t: Grant): SecurityGroup {
    var rules := [Rule(t.protocol, t.fromPort, t.toPort, [t.ipRange], [])];
    if t.flow == "Inbound" then SecurityGroup(rules, []) else SecurityGroup([], rules)
  }

  lemma ListsOne(t: Grant, specs: seq<RuleSpec>)
    requires t in Asked(specs)
    ensures Shows(ListOne(t), State({t}, {})) && Plain(ListOne(t)) == {t}
  {
    ExactFlows();
    var sg := ListOne(t);
    assert t.flow == "Inbound" || t.flow == "Outbound";
    var rule := Rule(t.protocol, t.fromPort, t.toPort, [t.ipRange], []);
    assert rule in [rule] && t.ipRange in rule.ipRanges;
    assert Plain(sg) == {t};
    assert Guarded(sg) == {};
  }

  // A pass without a failure, over a cloud that puts nothing in rules with members.
  lemma SomePass(specs: seq<RuleSpec>, sg: SecurityGroup, s: State) returns (s0: State, s': State)
    requires AllFlows(specs) && Shows(sg, s) && s.guarded == {}
    ensures s0 == s && Pass(specs, true, s, s', true)
  {
    s0 := s;
    var calls := PassCalls(specs, sg, true);
    s' := State(Apply(s.grants, calls), {});
    PassCallsMeaning(specs, sg, true, calls);
    assert PassVia(specs, true, s, s', true, sg, calls);
  }

  // A wanted rule spelled "inbound" is seen as present, then deleted.
  lemma FoldedFlowDeletesItsOwnRule()
    ensures var spec := RuleSpec("inbound", "tcp", 6443, 6443, "10.0.0.0/16", []);
            var sg := SecurityGroup([Rule("tcp", 6443, 6443, ["10.0.0.0/16"], [])], []);
            PassCalls([spec], sg, true) == [Delete(Grant("Inbound", "tcp", 6443, 6443, "10.0.0.0/16"))]
  {
    var range := "10.0.0.0/16";
    var spec := RuleSpec("inbound", "tcp", 6443, 6443, range, []);
    var rule := Rule("tcp", 6443, 6443, [range], []);
    var sg := SecurityGroup([rule], []);
    assert ToLower("inbound") == "inbound";
    assert Listed(spec, [rule], range) by { assert rule in [rule]; }
    assert spec.GetIpRanges()[..0] == [] && [spec][..0] == [] && [rule][..0] == [] && [range][..0] == [];
    assert CreatesForSpec(spec, [rule], [range]) == [];
    assert AddCalls([], sg) == [];
    assert AddCalls([spec], sg) == [];
    assert !Accepted("Inbound", rule, [spec], range);
    assert DeletesForRule("Inbound", rule, [spec], [range]) == [Delete(Grant("Inbound", "tcp", 6443, 6443, range))];
    assert DeletesForFlow("Inbound", [rule], [spec]) == [Delete(Grant("Inbound", "tcp", 6443, 6443, range))];
    assert DeletesForFlow("Outbound", [], [spec]) == [];
  }
}
