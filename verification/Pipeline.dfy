// The pipeline of stages of a cluster pass, and the generations that gate them.
module Pipeline {
  import opened Options

  datatype Stage = Net | Subnet | InternetService | NatService | RouteTable | NetPeering | NetPeeringRoutes
                 | NetAccessPoint | SecurityGroup | LoadBalancer | Bastion

  datatype Mode = OnChange | Always | Random(chance: int)

  // An entry of the reconciliation rules: All is None.
  datatype Rule = Rule(appliesTo: seq<Option<Stage>>, mode: Mode)

  datatype Config = Config(rules: seq<Rule>, internetDisabled: bool, netPeering: bool, netAccessPoints: bool,
                           loadBalancerDisabled: bool, bastion: bool, existingNet: bool, existingGroups: bool)
  {
    function RuleFor(rules: seq<Rule>, stage: Stage): Mode {
      if rules == [] then if stage == SecurityGroup then Random(10) else OnChange
      else if None in rules[0].appliesTo || Some(stage) in rules[0].appliesTo then rules[0].mode
      else RuleFor(rules[1..], stage)
    }

    // The stages that run, in the order in which they record their generation.
    predicate Enabled(stage: Stage) {
      match stage
      case InternetService | NatService => !internetDisabled
      case NetPeering | NetPeeringRoutes => netPeering
      case NetAccessPoint => netAccessPoints
      case LoadBalancer => !loadBalancerDisabled
      case Bastion => bastion
      case _ => true
    }

    // The stages that do nothing when the user brings the net or the security groups.
    predicate Reuses(stage: Stage) {
      match stage
      case InternetService | NatService | RouteTable | NetPeering | NetPeeringRoutes | NetAccessPoint | Bastion =>
        existingNet
      case SecurityGroup => existingGroups
      case _ => false
    }

    // A stage that may return without an error although it does not record its generation: those that
    // reuse an existing net or existing groups, and a net peering found active.
    predicate MaySkip(stage: Stage) {
      Reuses(stage) || stage == NetPeering
    }

    ghost predicate AllOnChange() {
      forall stage :: Enabled(stage) ==> RuleFor(rules, stage) == OnChange
    }
  }

  const ORDER: seq<Stage> := [Net, Subnet, InternetService, NatService, RouteTable, NetPeering, NetPeeringRoutes,
                              NetAccessPoint, SecurityGroup, LoadBalancer, Bastion]

  // The recorded generations: None before the first record.
  type Recorded = Option<map<Stage, nat>>

  function Generation(recorded: Recorded, stage: Stage): nat {
    if recorded.Some? && stage in recorded.value then recorded.value[stage] else 0
  }

  // calls counts the calls made to the cloud.
  datatype State = State(generation: nat, config: Config, recorded: Recorded, ready: bool, calls: nat)
  {
    // The stage has finished its work for this generation.
    predicate Current(stage: Stage) {
      recorded.Some? && Generation(recorded, stage) >= generation
    }

    // An enabled stage that records its generation whenever it succeeds.
    predicate Tracked(stage: Stage) {
      config.Enabled(stage) && !config.MaySkip(stage)
    }

    // Those that are current form a prefix of the pipeline.
    ghost predicate PrefixCurrent() {
      forall i, j :: 0 <= i < j < |ORDER| && Tracked(ORDER[i]) && config.Enabled(ORDER[j]) && Current(ORDER[j])
        ==> Current(ORDER[i])
    }

    ghost predicate Bounded() {
      forall stage :: Generation(recorded, stage) <= generation
    }

    ghost predicate AllCurrent() {
      forall stage :: Tracked(stage) ==> Current(stage)
    }
  }

  // Recorded generations never go down.
  ghost predicate NoLower(r: Recorded, r': Recorded) {
    (r.Some? ==> r'.Some?) && forall stage :: Generation(r, stage) <= Generation(r', stage)
  }

  // What one stage may do. records tells whether it records its generation when it succeeds, active
  // whether it found an active net peering, in which case it succeeds without recording.
  ghost predicate StageStep(s: State, stage: Stage, records: bool, s': State, ok: bool, active: bool) {
    && s'.generation == s.generation && s'.config == s.config && s'.ready == s.ready && s.calls <= s'.calls
    && (s'.recorded == s.recorded || (ok && records && !active && RecordsOnly(s, stage, s'.recorded)))
    && (ok && records && !active && !s.config.Reuses(stage) ==> s'.Current(stage))
    && (active ==> ok && stage == NetPeering && !s.config.Reuses(stage))
    && (s.config.Reuses(stage) ==> ok && !active && s' == s)
    && (s.Current(stage) && s.config.RuleFor(s.config.rules, stage) == OnChange ==> ok && !active && s' == s)
  }

  ghost predicate RecordsOnly(s: State, stage: Stage, recorded: Recorded) {
    && recorded.Some? && Generation(recorded, stage) == s.generation
    && forall other :: other != stage ==> Generation(recorded, other) == Generation(s.recorded, other)
  }

  // ---- A pass ----

  // The route tables are visited twice, first for the public ones only, which records nothing.
  datatype Visit = Visit(stage: Stage, records: bool)
  {
    predicate Enabled(c: Config) {
      if records then c.Enabled(stage) else !c.internetDisabled
    }
  }

  const VISITS: seq<Visit> := [Visit(Net, true), Visit(Subnet, true), Visit(InternetService, true),
                               Visit(RouteTable, false), Visit(NatService, true), Visit(RouteTable, true),
                               Visit(NetPeering, true), Visit(NetPeeringRoutes, true), Visit(NetAccessPoint, true),
                               Visit(SecurityGroup, true), Visit(LoadBalancer, true), Visit(Bastion, true)]

  ghost predicate VisitStep(s: State, visit: Visit, s': State, ok: bool, active: bool) {
    if visit.Enabled(s.config) then StageStep(s, visit.stage, visit.records, s', ok, active)
    else s' == s && ok && !active
  }

  // The states that the first visits went through, each successful, and whether each found an active net
  // peering.
  ghost predicate Trace(run: seq<State>, founds: seq<bool>) {
    && |run| == |founds| + 1 && |founds| <= |VISITS|
    && forall i :: 0 <= i < |founds| ==> VisitStep(run[i], VISITS[i], run[i + 1], true, founds[i])
  }

  // From s0, the first n visits succeeded one after the other and led to s. active tells whether one of
  // them found an active net peering.
  ghost predicate Reached(s0: State, s: State, n: nat, active: bool) {
    exists run, founds ::
      Trace(run, founds) && |founds| == n && run[0] == s0 && run[n] == s && active == (true in founds)
  }

  // A visit failed after n others, and led to s.
  ghost predicate StoppedAt(s0: State, s: State, n: nat, active: bool)
    requires n < |VISITS|
  {
    exists mid, now :: Reached(s0, mid, n, active) && VisitStep(mid, VISITS[n], s, false, now)
  }

  // A whole pass: the visits in order, up to the first that fails.
  ghost predicate PassStep(s: State, s': State, ok: bool, active: bool) {
    if ok then exists end :: Reached(s, end, |VISITS|, active) && s' == end.(ready := true)
    else exists n: nat :: n < |VISITS| && StoppedAt(s, s', n, active)
  }

  // The stages that leave alone what the user brings.
  predicate StageReuses(c: Config, stage: Stage) {
    || (stage == SecurityGroup && c.existingGroups)
    || (stage != Net && stage != Subnet && stage != SecurityGroup && stage != LoadBalancer && c.existingNet)
  }

  lemma Start(s: State)
    ensures Reached(s, s, 0, false)
  {
    assert Trace([s], []);
  }

  lemma Continue(s0: State, mid: State, n: nat, before: bool, s: State, now: bool)
    requires n < |VISITS| && Reached(s0, mid, n, before) && VisitStep(mid, VISITS[n], s, true, now)
    ensures Reached(s0, s, n + 1, before || now)
  {
    var run, founds :|
      Trace(run, founds) && |founds| == n && run[0] == s0 && run[n] == mid && before == (true in founds);
    assert Trace(run + [s], founds + [now]);
  }

  class ClusterScope {
    var generation: nat
    var config: Config
    var recorded: Recorded
    var ready: bool
    var calls: nat

    ghost function Now(): State
      reads this
    {
      State(generation, config, recorded, ready, calls)
    }

    // Whether a stage needs to run. A rule in random mode draws a number below 100.
    method NeedReconciliation(stage: Stage) returns (need: bool)
      ensures !Now().Current(stage) ==> need
      ensures Now().Current(stage) ==>
                match config.RuleFor(config.rules, stage)
                case Always => need
                case OnChange => !need
                case Random(chance) => (chance >= 100 ==> need) && (chance <= 0 ==> !need)
    {
      if recorded.None? {
        return true;
      }
      if Generation(recorded, stage) < generation {
        return true;
      }
      match config.RuleFor(config.rules, stage)
      case Always => return true;
      case Random(chance) =>
        var draw :| 0 <= draw < 100;
        return draw < chance;
      case OnChange => return false;
    }

    method SetReconciliationGeneration(stage: Stage)
      modifies this`recorded
      ensures recorded.Some? && Generation(recorded, stage) == generation
      ensures forall other :: other != stage ==> Generation(recorded, other) == Generation(old(recorded), other)
    {
      if recorded.None? {
        recorded := Some(map[]);
      }
      recorded := Some(recorded.value[stage := generation]);
    }

    // A stage: it may call the cloud any number of times, and fail. A net peering found active returns
    // without recording.
    method Run(visit: Visit) returns (ok: bool, ghost active: bool)
      requires visit.Enabled(config)
      modifies this`recorded, this`calls
      ensures StageStep(old(Now()), visit.stage, visit.records, Now(), ok, active)
      ensures ok && visit.records && !active && !StageReuses(config, visit.stage) ==>
                recorded.Some? && Generation(recorded, visit.stage) >= generation
      ensures StageReuses(config, visit.stage) ==> ok && Now() == old(Now())
    {
      active := false;
      var need := NeedReconciliation(visit.stage);
      if !need || config.Reuses(visit.stage) {
        return true, false;
      }
      var made: nat :| true;
      calls := calls + made;
      ok := *;
      var found: bool := *;
      if !ok {
        return;
      }
      if visit.stage == NetPeering && found {
        active := true;
        return;
      }
      if visit.records {
        SetReconciliationGeneration(visit.stage);
      }
    }

    // A stage of the pass that started in s0.
    method Next(n: nat, ghost s0: State, ghost before: bool) returns (ok: bool, ghost active: bool)
      requires n < |VISITS| && Reached(s0, Now(), n, before) && VISITS[n].Enabled(config)
      modifies this`recorded, this`calls
      ensures if ok then Reached(s0, Now(), n + 1, active) else StoppedAt(s0, Now(), n, active)
    {
      ghost var mid := Now();
      ghost var found;
      ok, found := Run(VISITS[n]);
      active := before || found;
      assert VisitStep(mid, VISITS[n], Now(), ok, found);
      if ok {
        Continue(s0, mid, n, before, Now(), found);
      }
    }

    // A stage that the specification may disable.
    method NextIfEnabled(n: nat, ghost s0: State, ghost before: bool) returns (ok: bool, ghost active: bool)
      requires n < |VISITS| && Reached(s0, Now(), n, before)
      modifies this`recorded, this`calls
      ensures if ok then Reached(s0, Now(), n + 1, active) else StoppedAt(s0, Now(), n, active)
    {
      if VISITS[n].Enabled(config) {
        ok, active := Next(n, s0, before);
      } else {
        ok, active := true, before;
        Continue(s0, Now(), n, before, Now(), false);
      }
    }

    method Reconcile() returns (ok: bool, ghost active: bool)
      modifies this
      ensures PassStep(old(Now()), Now(), ok, active)
    {
      ghost var s0 := Now();
      ghost var n;
      ok, n, active := ReconcileNetwork(s0);
      if !ok { return; }
      ok, active := NextIfEnabled(8, s0, active);
      if !ok { return; }
      ok, active := Next(9, s0, active);
      if !ok { return; }
      ok, active := NextIfEnabled(10, s0, active);
      if !ok { return; }
      ok, active := NextIfEnabled(11, s0, active);
      if !ok { return; }
      ready := true;
    }

    // The first stages, up to the route tables and the peering. n is the visit that failed, if one did.
    method ReconcileNetwork(ghost s0: State) returns (ok: bool, ghost n: nat, ghost active: bool)
      requires Now() == s0
      modifies this`recorded, this`calls
      ensures n <= 8
      ensures if ok then n == 8 && Reached(s0, Now(), 8, active) else n < 8 && StoppedAt(s0, Now(), n, active)
    {
      n := 0;
      Start(s0);
      ok, active := Next(0, s0, false);
      if !ok { return; }
      n := 1;
      ok, active := Next(1, s0, active);
      if !ok { return; }
      ok, n, active := ReconcileInternet(s0, active);
      if !ok { return; }
      ok, active := Next(5, s0, active);
      if !ok { return; }
      ok, n, active := ReconcilePeering(s0, active);
    }

    method ReconcilePeering(ghost s0: State, ghost before: bool) returns (ok: bool, ghost n: nat, ghost active: bool)
      requires Reached(s0, Now(), 6, before)
      modifies this`recorded, this`calls
      ensures n <= 8
      ensures if ok then n == 8 && Reached(s0, Now(), 8, active) else n < 8 && StoppedAt(s0, Now(), n, active)
    {
      n := 6;
      ok, active := NextIfEnabled(6, s0, before);
      if !ok { return; }
      n := 7;
      ok, active := NextIfEnabled(7, s0, active);
      if !ok { return; }
      n := 8;
    }

    // The internet service, then the public route tables, to make the public subnets public, then the NAT
    // services.
    method ReconcileInternet(ghost s0: State, ghost before: bool) returns (ok: bool, ghost n: nat, ghost active: bool)
      requires Reached(s0, Now(), 2, before)
      modifies this`recorded, this`calls
      ensures n <= 5
      ensures if ok then n == 5 && Reached(s0, Now(), 5, active) else n < 5 && StoppedAt(s0, Now(), n, active)
    {
      active := before;
      if config.internetDisabled {
        Continue(s0, Now(), 2, before, Now(), false);
        Continue(s0, Now(), 3, before, Now(), false);
        Continue(s0, Now(), 4, before, Now(), false);
        return true, 5, before;
      }
      n := 2;
      ok, active := Next(2, s0, active);
      if !ok { return; }
      n := 3;
      ok, active := Next(3, s0, active);
      if !ok { return; }
      n := 4;
      ok, active := Next(4, s0, active);
      if !ok { return; }
      n := 5;
    }
  }

  // ---- Rules ----

  // The rule of a stage is the first one given for it or for all; without any, security groups are drawn with
  // one chance in ten and the other stages run on change.
  lemma RuleMeaning(c: Config, rules: seq<Rule>, stage: Stage)
    ensures forall i ::
              (0 <= i < |rules| && (None in rules[i].appliesTo || Some(stage) in rules[i].appliesTo)
               && forall j :: 0 <= j < i ==> None !in rules[j].appliesTo && Some(stage) !in rules[j].appliesTo)
              ==> c.RuleFor(rules, stage) == rules[i].mode
    ensures (forall rule <- rules :: None !in rule.appliesTo && Some(stage) !in rule.appliesTo) ==>
              c.RuleFor(rules, stage) == if stage == SecurityGroup then Random(10) else OnChange
  {
    forall i | && 0 <= i < |rules| && (None in rules[i].appliesTo || Some(stage) in rules[i].appliesTo)
               && forall j :: 0 <= j < i ==> None !in rules[j].appliesTo && Some(stage) !in rules[j].appliesTo
      ensures c.RuleFor(rules, stage) == rules[i].mode
    {
      FirstRule(c, rules, stage, i);
    }
    if forall rule <- rules :: None !in rule.appliesTo && Some(stage) !in rule.appliesTo {
      NoRule(c, rules, stage);
    }
  }

  lemma {:induction false} FirstRule(c: Config, rules: seq<Rule>, stage: Stage, i: nat)
    requires i < |rules| && (None in rules[i].appliesTo || Some(stage) in rules[i].appliesTo)
    requires forall j :: 0 <= j < i ==> None !in rules[j].appliesTo && Some(stage) !in rules[j].appliesTo
    ensures c.RuleFor(rules, stage) == rules[i].mode
  {
    if i > 0 {
      assert None !in rules[0].appliesTo && Some(stage) !in rules[0].appliesTo;
      FirstRule(c, rules[1..], stage, i - 1);
    }
  }

  lemma {:induction false} NoRule(c: Config, rules: seq<Rule>, stage: Stage)
    requires forall rule <- rules :: None !in rule.appliesTo && Some(stage) !in rule.appliesTo
    ensures c.RuleFor(rules, stage) == if stage == SecurityGroup then Random(10) else OnChange
  {
    if rules != [] {
      assert rules[0] in rules;
      NoRule(c, rules[1..], stage);
    }
  }

  // ---- What a pass does ----

  // Nothing is left to do: every enabled stage is current, in the on-change mode.
  ghost predicate Quiet(s: State) {
    s.config.AllOnChange() && forall stage :: s.config.Enabled(stage) ==> s.Current(stage)
  }

  // The stages that have had their visit after n visits.
  function Places(n: nat): nat {
    if n <= 3 then n else n - 1
  }

  function PlaceOf(stage: Stage): (i: nat)
    ensures i < |ORDER| && ORDER[i] == stage
  {
    match stage
    case Net => 0 case Subnet => 1 case InternetService => 2 case NatService => 3 case RouteTable => 4
    case NetPeering => 5 case NetPeeringRoutes => 6 case NetAccessPoint => 7 case SecurityGroup => 8
    case LoadBalancer => 9 case Bastion => 10
  }

  predicate UpToDate(s: State, stage: Stage) {
    Generation(s.recorded, stage) >= s.generation
  }

  // A pass that started in s0 is in s after n visits.
  ghost predicate Underway(s0: State, s: State, n: nat, active: bool) {
    && s.generation == s0.generation && s.config == s0.config && s.ready == s0.ready
    && (s0.Bounded() ==> s.Bounded() && NoLower(s0.recorded, s.recorded))
    && (forall i :: 0 <= i < Places(n) && i < |ORDER| && s.Tracked(ORDER[i]) ==> s.Current(ORDER[i]))
    && (forall i :: Places(n) <= i < |ORDER| ==> Generation(s.recorded, ORDER[i]) == Generation(s0.recorded, ORDER[i]))
    && (forall stage :: !s0.config.Enabled(stage) || s0.config.Reuses(stage) ==>
          Generation(s.recorded, stage) == Generation(s0.recorded, stage))
    && (Quiet(s0) ==> s == s0)
    && PeeringIs(s0, s, n, active)
  }

  // What becomes of the net peering: from its visit on, it is up to date unless it was found active
  // while it was not.
  ghost predicate PeeringIs(s0: State, s: State, n: nat, active: bool) {
    && (active ==> n > 6 && s0.config.netPeering && !s0.config.existingNet)
    && (n > 6 && s0.config.netPeering && !s0.config.existingNet ==>
          (UpToDate(s, NetPeering) <==> UpToDate(s0, NetPeering) || !active))
  }

  lemma VisitKeeps(s0: State, mid: State, n: nat, before: bool, s: State, now: bool)
    requires n < |VISITS| && Underway(s0, mid, n, before) && VisitStep(mid, VISITS[n], s, true, now)
    ensures Underway(s0, s, n + 1, before || now)
  {
    VisitRecords(s0, mid, n, before, s, now);
    assert ORDER[5] == NetPeering;
    VisitKeepsPeering(s0, mid, n, before, s, now);
    VisitPlaces(s0, mid, n, s);
  }

  // Where the visits stand in the order of the stages.
  lemma VisitPlaces(s0: State, mid: State, n: nat, s: State)
    requires n < |VISITS| && s.config == mid.config
    requires forall i :: 0 <= i < Places(n) && mid.Tracked(ORDER[i]) ==> mid.Current(ORDER[i])
    requires forall i :: Places(n) <= i < |ORDER| ==>
               Generation(mid.recorded, ORDER[i]) == Generation(s0.recorded, ORDER[i])
    requires forall stage :: stage != VISITS[n].stage || n == 3 ==>
               Generation(s.recorded, stage) == Generation(mid.recorded, stage)
    requires forall stage :: mid.Current(stage) ==> s.Current(stage)
    requires n != 3 && s.Tracked(VISITS[n].stage) ==> s.Current(VISITS[n].stage)
    ensures forall i :: 0 <= i < Places(n + 1) && s.Tracked(ORDER[i]) ==> s.Current(ORDER[i])
    ensures forall i :: Places(n + 1) <= i < |ORDER| ==>
              Generation(s.recorded, ORDER[i]) == Generation(s0.recorded, ORDER[i])
  {
    forall i | 0 <= i < Places(n + 1) && s.Tracked(ORDER[i])
      ensures s.Current(ORDER[i])
    {
      if i < Places(n) { assert mid.Current(ORDER[i]); }
    }
  }

  // A visit records the generation of its own stage only.
  lemma VisitRecords(s0: State, mid: State, n: nat, before: bool, s: State, now: bool)
    requires n < |VISITS| && Underway(s0, mid, n, before) && VisitStep(mid, VISITS[n], s, true, now)
    ensures s0.Bounded() ==> s.Bounded() && NoLower(s0.recorded, s.recorded)
    ensures mid.recorded.Some? ==> s.recorded.Some?
    ensures forall stage :: stage != VISITS[n].stage || n == 3 ==>
              Generation(s.recorded, stage) == Generation(mid.recorded, stage)
    ensures forall stage :: mid.Current(stage) ==> s.Current(stage)
    ensures forall stage :: !s0.config.Enabled(stage) || s0.config.Reuses(stage) ==>
              Generation(s.recorded, stage) == Generation(s0.recorded, stage)
    ensures n != 3 && s.Tracked(VISITS[n].stage) ==> s.Current(VISITS[n].stage)
  {
  }

  lemma VisitKeepsPeering(s0: State, mid: State, n: nat, before: bool, s: State, now: bool)
    requires n < |VISITS| && VisitStep(mid, VISITS[n], s, true, now)
    requires mid.generation == s0.generation && mid.config == s0.config && PeeringIs(s0, mid, n, before)
    requires n == 6 ==> Generation(mid.recorded, NetPeering) == Generation(s0.recorded, NetPeering)
    ensures PeeringIs(s0, s, n + 1, before || now)
  {
  }

  lemma {:induction false} TraceIsUnderway(run: seq<State>, founds: seq<bool>)
    requires Trace(run, founds)
    ensures Underway(run[0], run[|founds|], |founds|, true in founds)
  {
    if founds != [] {
      var n := |founds| - 1;
      TraceIsUnderway(run[..n + 1], founds[..n]);
      assert founds == founds[..n] + [founds[n]];
      VisitKeeps(run[0], run[n], n, true in founds[..n], run[n + 1], founds[n]);
    }
  }

  lemma ReachedIsUnderway(s0: State, s: State, n: nat, active: bool)
    requires Reached(s0, s, n, active)
    ensures Underway(s0, s, n, active)
  {
    var run, founds :|
      Trace(run, founds) && |founds| == n && run[0] == s0 && run[n] == s && active == (true in founds);
    TraceIsUnderway(run, founds);
  }

  // Stopping anywhere leaves a prefix: the stages passed are current, the others are as they were.
  lemma StopKeepsPrefix(s0: State, s: State, n: nat, active: bool)
    requires n <= |VISITS| && Underway(s0, s, n, active) && s0.PrefixCurrent()
    ensures s.PrefixCurrent()
  {
    forall i, j | 0 <= i < j < |ORDER| && s.Tracked(ORDER[i]) && s.config.Enabled(ORDER[j]) && s.Current(ORDER[j])
      ensures s.Current(ORDER[i])
    {
      if Places(n) <= i && s0.recorded.Some? {
        assert s0.Current(ORDER[j]);
        assert s0.Tracked(ORDER[i]);
      }
    }
  }

  lemma StoppedIsUnderway(s0: State, s: State, n: nat, active: bool)
    requires n < |VISITS| && StoppedAt(s0, s, n, active)
    ensures Underway(s0, s, n, active) && !Quiet(s0)
  {
    var mid, now :| Reached(s0, mid, n, active) && VisitStep(mid, VISITS[n], s, false, now);
    ReachedIsUnderway(s0, mid, n, active);
  }

  // What any pass keeps, complete or not.
  lemma PassKeeps(s: State, s': State, ok: bool, active: bool)
    requires PassStep(s, s', ok, active)
    ensures s'.generation == s.generation && s'.config == s.config
    ensures s.Bounded() ==> s'.Bounded() && NoLower(s.recorded, s'.recorded)
    ensures s.PrefixCurrent() ==> s'.PrefixCurrent()
    ensures !ok ==> s'.ready == s.ready
  {
    if ok {
      var end :| Reached(s, end, |VISITS|, active) && s' == end.(ready := true);
      ReachedIsUnderway(s, end, |VISITS|, active);
      if s.PrefixCurrent() {
        StopKeepsPrefix(s, end, |VISITS|, active);
        assert s'.PrefixCurrent();
      }
    } else {
      var n: nat :| n < |VISITS| && StoppedAt(s, s', n, active);
      StoppedIsUnderway(s, s', n, active);
      if s.PrefixCurrent() { StopKeepsPrefix(s, s', n, active); }
    }
  }

  // A successful pass makes the object ready, with all its stages current.
  lemma SuccessIsCurrent(s: State, s': State, active: bool)
    requires PassStep(s, s', true, active)
    ensures s'.ready && s'.AllCurrent()
  {
    var end :| Reached(s, end, |VISITS|, active) && s' == end.(ready := true);
    ReachedIsUnderway(s, end, |VISITS|, active);
    forall stage | s'.Tracked(stage)
      ensures s'.Current(stage)
    {
      var i := PlaceOf(stage);
      assert end.Tracked(ORDER[i]) && end.Current(ORDER[i]);
    }
  }

  // What a success brings up to date, by what the specification enables and what the user brings.
  lemma SuccessMeaning(s: State, s': State, active: bool)
    requires PassStep(s, s', true, active)
    ensures s'.ready && s'.Current(Net) && s'.Current(Subnet)
    ensures !s.config.loadBalancerDisabled ==> s'.Current(LoadBalancer)
    ensures !s.config.existingGroups ==> s'.Current(SecurityGroup)
    ensures !s.config.existingNet ==>
              && s'.Current(RouteTable)
              && (!s.config.internetDisabled ==> s'.Current(InternetService) && s'.Current(NatService))
              && (s.config.netPeering ==> s'.Current(NetPeeringRoutes))
              && (s.config.netAccessPoints ==> s'.Current(NetAccessPoint))
              && (s.config.bastion ==> s'.Current(Bastion))
  {
    SuccessIsCurrent(s, s', active);
    PassKeeps(s, s', true, active);
  }

  // The visits that do nothing: those disabled, and those over what the user brings.
  lemma IdleVisits(s: State, n: nat, s': State, ok: bool, active: bool)
    requires n < |VISITS| && VisitStep(s, VISITS[n], s', ok, active)
    requires || (s.config.internetDisabled && 2 <= n <= 4) || (!s.config.netPeering && 6 <= n <= 7)
             || (!s.config.netAccessPoints && n == 8) || (s.config.loadBalancerDisabled && n == 10)
             || (!s.config.bastion && n == 11)
             || (s.config.existingNet && n != 0 && n != 1 && n != 9 && n != 10) || (s.config.existingGroups && n == 9)
    ensures ok && !active && s' == s
  {
  }

  // The pass has recorded the generation of the stage.
  ghost predicate Moved(s: State, s': State, stage: Stage) {
    Generation(s'.recorded, stage) != Generation(s.recorded, stage)
  }

  // Whether a pass succeeds or not, it leaves alone what the user brings: with an existing net only the net, the
  // subnets, the security groups and the load balancer may be recorded, with existing groups all but these.
  lemma BroughtIsLeftAlone(s: State, s': State, ok: bool, active: bool)
    requires PassStep(s, s', ok, active)
    ensures s.config.existingGroups ==> !Moved(s, s', SecurityGroup)
    ensures s.config.existingNet ==>
              && !Moved(s, s', InternetService) && !Moved(s, s', NatService) && !Moved(s, s', RouteTable)
              && !Moved(s, s', NetPeering) && !Moved(s, s', NetPeeringRoutes) && !Moved(s, s', NetAccessPoint)
              && !Moved(s, s', Bastion)
  {
    Precedes(s, s', ok, active, Net, InternetService);
    Precedes(s, s', ok, active, Net, NatService);
    Precedes(s, s', ok, active, Net, RouteTable);
    Precedes(s, s', ok, active, Net, NetPeering);
    Precedes(s, s', ok, active, Net, NetPeeringRoutes);
    Precedes(s, s', ok, active, Net, NetAccessPoint);
    Precedes(s, s', ok, active, Net, SecurityGroup);
    Precedes(s, s', ok, active, Net, Bastion);
  }

  // Whether a pass succeeds or not: what is disabled is not recorded, and what is recorded comes after what
  // precedes it is current, in this order.
  lemma PassOrder(s: State, s': State, ok: bool, active: bool)
    requires PassStep(s, s', ok, active) && !s.config.existingNet && !s.config.existingGroups
    ensures s.config.internetDisabled ==> !Moved(s, s', InternetService) && !Moved(s, s', NatService)
    ensures !s.config.netPeering ==> !Moved(s, s', NetPeering) && !Moved(s, s', NetPeeringRoutes)
    ensures !s.config.netAccessPoints ==> !Moved(s, s', NetAccessPoint)
    ensures s.config.loadBalancerDisabled ==> !Moved(s, s', LoadBalancer)
    ensures !s.config.bastion ==> !Moved(s, s', Bastion)
    ensures Moved(s, s', Subnet) ==> s'.Current(Net)
    ensures Moved(s, s', InternetService) ==> s'.Current(Subnet)
    ensures Moved(s, s', NatService) ==> s'.Current(InternetService)
    ensures Moved(s, s', RouteTable) ==> s'.Current(Subnet) && (s.config.internetDisabled || s'.Current(NatService))
    ensures Moved(s, s', NetPeering) ==> s'.Current(RouteTable)
    ensures Moved(s, s', NetPeeringRoutes) ==> s'.Current(RouteTable)
    ensures Moved(s, s', NetAccessPoint) ==>
              s'.Current(RouteTable) && (s.config.netPeering ==> s'.Current(NetPeeringRoutes))
    ensures Moved(s, s', SecurityGroup) ==>
              s'.Current(RouteTable) && (s.config.netAccessPoints ==> s'.Current(NetAccessPoint))
    ensures Moved(s, s', LoadBalancer) ==> s'.Current(SecurityGroup)
    ensures Moved(s, s', Bastion) ==>
              s'.Current(SecurityGroup) && (s.config.loadBalancerDisabled || s'.Current(LoadBalancer))
  {
    Precedes(s, s', ok, active, Net, Subnet);
    Precedes(s, s', ok, active, Subnet, InternetService);
    Precedes(s, s', ok, active, InternetService, NatService);
    Precedes(s, s', ok, active, Subnet, RouteTable);
    Precedes(s, s', ok, active, NatService, RouteTable);
    Precedes(s, s', ok, active, RouteTable, NetPeering);
    Precedes(s, s', ok, active, RouteTable, NetPeeringRoutes);
    Precedes(s, s', ok, active, RouteTable, NetAccessPoint);
    Precedes(s, s', ok, active, NetPeeringRoutes, NetAccessPoint);
    LastInOrder(s, s', ok, active);
  }

  lemma LastInOrder(s: State, s': State, ok: bool, active: bool)
    requires PassStep(s, s', ok, active) && !s.config.existingNet && !s.config.existingGroups
    ensures s.config.loadBalancerDisabled ==> !Moved(s, s', LoadBalancer)
    ensures !s.config.bastion ==> !Moved(s, s', Bastion)
    ensures Moved(s, s', SecurityGroup) ==>
              s'.Current(RouteTable) && (s.config.netAccessPoints ==> s'.Current(NetAccessPoint))
    ensures Moved(s, s', LoadBalancer) ==> s'.Current(SecurityGroup)
    ensures Moved(s, s', Bastion) ==>
              s'.Current(SecurityGroup) && (s.config.loadBalancerDisabled || s'.Current(LoadBalancer))
  {
    Precedes(s, s', ok, active, RouteTable, SecurityGroup);
    Precedes(s, s', ok, active, NetAccessPoint, SecurityGroup);
    Precedes(s, s', ok, active, SecurityGroup, LoadBalancer);
    Precedes(s, s', ok, active, SecurityGroup, Bastion);
    Precedes(s, s', ok, active, LoadBalancer, Bastion);
  }

  // Of two stages in the order of the pipeline, the second one is recorded only once the first one is current.
  lemma Precedes(s: State, s': State, ok: bool, active: bool, first: Stage, second: Stage)
    requires PassStep(s, s', ok, active) && PlaceOf(first) < PlaceOf(second)
    ensures Moved(s, s', second) && s.Tracked(first) ==> s'.Current(first)
    ensures !s.config.Enabled(first) ==> !Moved(s, s', first)
    ensures !s.config.Enabled(second) ==> !Moved(s, s', second)
    ensures s.config.Reuses(second) ==> !Moved(s, s', second)
  {
    var end, n := UnderwayAt(s, s', ok, active);
    var i, j := PlaceOf(first), PlaceOf(second);
    if Moved(s, s', second) && s.Tracked(first) {
      assert j < Places(n);
      assert end.Tracked(ORDER[i]) && end.Current(ORDER[i]);
    }
  }

  // Where a pass was when it ended.
  lemma UnderwayAt(s: State, s': State, ok: bool, active: bool) returns (end: State, n: nat)
    requires PassStep(s, s', ok, active)
    ensures n <= |VISITS| && Underway(s, end, n, active) && s'.recorded == end.recorded && s'.config == end.config
    ensures s'.generation == end.generation
  {
    if ok {
      end, n :| Reached(s, end, |VISITS|, active) && s' == end.(ready := true) && n == |VISITS|;
      ReachedIsUnderway(s, end, |VISITS|, active);
    } else {
      n :| n < |VISITS| && StoppedAt(s, s', n, active);
      end := s';
      StoppedIsUnderway(s, s', n, active);
    }
  }

  // A pass with nothing left to do succeeds, makes no call and records nothing.
  lemma QuietPassIsSilent(s: State, s': State, ok: bool, active: bool)
    requires PassStep(s, s', ok, active) && Quiet(s)
    ensures ok && s' == s.(ready := true)
  {
    if ok {
      var end :| Reached(s, end, |VISITS|, active) && s' == end.(ready := true);
      ReachedIsUnderway(s, end, |VISITS|, active);
    } else {
      var n: nat :| n < |VISITS| && StoppedAt(s, s', n, active);
      StoppedIsUnderway(s, s', n, active);
    }
  }

  // The net peering after a successful pass: it is up to date exactly when it was before, or was not
  // found active. All other stages are current, so a peering found active stays behind the stages after it.
  lemma ActivePeeringStaysBehind(s: State, s': State, active: bool)
    requires PassStep(s, s', true, active)
    requires s.config.netPeering && !s.config.existingNet
    ensures UpToDate(s', NetPeering) <==> UpToDate(s, NetPeering) || !active
    ensures s'.Current(NetPeeringRoutes) && s'.Current(Net)
    ensures s'.Current(NetPeering) <==> UpToDate(s', NetPeering)
  {
    var end :| Reached(s, end, |VISITS|, active) && s' == end.(ready := true);
    ReachedIsUnderway(s, end, |VISITS|, active);
    SuccessIsCurrent(s, s', active);
  }

  // Such a pass is possible from every state whose peering is not up to date.
  lemma PeeringMayStayBehind(s: State) returns (s': State)
    requires s.config.netPeering && !s.config.existingNet && !UpToDate(s, NetPeering)
    ensures PassStep(s, s', true, true) && !UpToDate(s', NetPeering)
  {
    Start(s);
    var end := PassOn(s, s, 0);
    s' := end.(ready := true);
    ActivePeeringStaysBehind(s, s', true);
  }

  // The visits from n on, each successful, the peering being found active.
  lemma PassOn(s0: State, mid: State, n: nat) returns (end: State)
    requires n <= |VISITS| && Reached(s0, mid, n, n > 6) && mid.config == s0.config && mid.generation == s0.generation
    requires s0.config.netPeering && !s0.config.existingNet
    requires n <= 6 ==> !UpToDate(mid, NetPeering)
    ensures Reached(s0, end, |VISITS|, true)
    decreases |VISITS| - n
  {
    if n == |VISITS| {
      end := mid;
    } else {
      var s := VisitOn(mid, n);
      Continue(s0, mid, n, n > 6, s, n == 6);
      end := PassOn(s0, s, n + 1);
    }
  }

  lemma VisitOn(mid: State, n: nat) returns (s: State)
    requires n < |VISITS| && mid.config.netPeering && !mid.config.existingNet
    requires n <= 6 ==> !UpToDate(mid, NetPeering)
    ensures VisitStep(mid, VISITS[n], s, true, n == 6)
    ensures s.config == mid.config && s.generation == mid.generation
    ensures n < 6 ==> !UpToDate(s, NetPeering)
  {
    var visit := VISITS[n];
    s := mid;
    if n != 6 && visit.Enabled(mid.config) && visit.records && !mid.Current(visit.stage)
       && !mid.config.Reuses(visit.stage) {
      var before := if mid.recorded.Some? then mid.recorded.value else map[];
      s := mid.(recorded := Some(before[visit.stage := mid.generation]));
    }
  }

  // ---- Runs ----

  // The user edits the specification: the generation goes up, and anything may be configured otherwise.
  ghost predicate EditStep(s: State, s': State) {
    s'.generation > s.generation && s'.recorded == s.recorded && s'.ready == s.ready && s'.calls == s.calls
  }

  // The status is lost.
  ghost predicate LossStep(s: State, s': State) {
    s' == s.(recorded := None, ready := false)
  }

  ghost predicate Step(s: State, s': State) {
    EditStep(s, s') || LossStep(s, s') || exists ok, active :: PassStep(s, s', ok, active)
  }

  lemma StepKeeps(s: State, s': State)
    requires Step(s, s') && s.Bounded()
    ensures s'.Bounded()
    ensures s.PrefixCurrent() ==> s'.PrefixCurrent()
    ensures !LossStep(s, s') ==> NoLower(s.recorded, s'.recorded)
  {
    if ok, active :| PassStep(s, s', ok, active) {
      PassKeeps(s, s', ok, active);
    } else if EditStep(s, s') {
      assert forall stage :: !s'.Current(stage);
    }
  }

  // In every reachable state, recorded generations are bounded by that of the object, and the stages
  // that are current form a prefix of the pipeline.
  lemma {:induction false} ReachableStates(run: seq<State>)
    requires |run| > 0 && run[0].recorded == None
    requires forall i :: 0 <= i < |run| - 1 ==> Step(run[i], run[i + 1])
    ensures forall s <- run :: s.Bounded() && s.PrefixCurrent()
  {
    if |run| > 1 {
      var front, s, s' := run[..|run| - 1], run[|run| - 2], run[|run| - 1];
      ReachableStates(front);
      assert s == front[|run| - 2] && s in front;
      assert Step(run[|run| - 2], run[|run| - 2 + 1]);
      StepKeeps(s, s');
      assert run == front + [s'];
    }
  }

  // As long as the status is not lost, recorded generations never go down.
  lemma {:induction false} GenerationsNeverGoDown(run: seq<State>)
    requires |run| > 0 && run[0].Bounded()
    requires forall i :: 0 <= i < |run| - 1 ==> Step(run[i], run[i + 1]) && !LossStep(run[i], run[i + 1])
    ensures run[|run| - 1].Bounded() && NoLower(run[0].recorded, run[|run| - 1].recorded)
  {
    if |run| > 1 {
      var front := run[..|run| - 1];
      GenerationsNeverGoDown(front);
      assert front[|front| - 1] == run[|run| - 2];
      assert Step(run[|run| - 2], run[|run| - 2 + 1]);
      StepKeeps(run[|run| - 2], run[|run| - 1]);
    }
  }

  // After a successful pass with nothing reused, in the on-change mode, the next pass at the same
  // generation makes no call to the cloud and changes nothing, unless the first one found a net peering
  // active that was not up to date.
  lemma SettledPassIsSilent(s: State, s1: State, s2: State, found: bool, ok: bool, active: bool)
    requires PassStep(s, s1, true, found) && PassStep(s1, s2, ok, active)
    requires s.config.AllOnChange() && !s.config.existingNet && !s.config.existingGroups
    requires s.config.netPeering && found ==> UpToDate(s, NetPeering)
    ensures ok && s2 == s1
  {
    PassKeeps(s, s1, true, found);
    SuccessIsCurrent(s, s1, found);
    if s.config.netPeering {
      ActivePeeringStaysBehind(s, s1, found);
    }
    assert forall stage :: s1.config.Enabled(stage) && stage != NetPeering ==> s1.Tracked(stage);
    QuietPassIsSilent(s1, s2, ok, active);
  }
}
