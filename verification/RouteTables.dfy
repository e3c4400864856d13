// The pass that gives each subnet a route table and each table its routes. The links read at the
// start of the pass are not refreshed while it runs.
module RouteTables {
  import opened Options
  import opened Collections

  type Id = nat

  datatype Route = Route(destination: string, target: Id)

  // links pairs a subnet with a table. A new table comes with the local routes.
  datatype Net = Net(links: set<(Id, Id)>, routes: map<Id, seq<Route>>, next: Id, local: seq<Route>)

  // A table as the cloud returned it: its routes are not refreshed either.
  datatype Handle = Handle(id: Id, routes: seq<Route>)

  datatype Listed = Listed(handle: Handle, links: seq<Id>)

  // A subnet named by a specification, once resolved, and whether it has the role of the pass.
  datatype Target = Target(subnet: Id, hasRole: bool)

  // target is None when the type of the target is unknown.
  datatype RouteSpec = RouteSpec(destination: string, target: Option<Id>)

  datatype TableSpec = TableSpec(targets: seq<Target>, routes: seq<RouteSpec>)

  // ---- The pass as a function ----

  type Owners = map<Id, Handle>

  predicate Chosen(target: Target, byRole: bool) {
    !byRole || target.hasRole
  }

  predicate HasRoute(routes: seq<Route>, destination: string) {
    exists r <- routes :: r.destination == destination
  }

  function WithTable(net: Net): Net {
    net.(routes := net.routes[net.next := net.local], next := net.next + 1)
  }

  function WithLink(net: Net, table: Id, subnet: Id): Net {
    net.(links := net.links + {(subnet, table)})
  }

  function WithRoute(net: Net, table: Id, route: Route): Net
    requires table in net.routes
  {
    net.(routes := net.routes[table := net.routes[table] + [route]])
  }

  datatype Progress = Progress(net: Net, table: Option<Handle>)

  // The three cases of the switch, the second of which falls through to the third.
  function TargetStep(p: Progress, owners: Owners, target: Target, byRole: bool): Progress {
    if !Chosen(target, byRole) then p
    else if p.table.None? && target.subnet in owners then p.(table := Some(owners[target.subnet]))
    else if target.subnet in owners then p
    else if p.table.None? then
      Progress(WithLink(WithTable(p.net), p.net.next, target.subnet), Some(Handle(p.net.next, p.net.local)))
    else p.(net := WithLink(p.net, p.table.value.id, target.subnet))
  }

  function TargetSteps(net: Net, owners: Owners, targets: seq<Target>, byRole: bool): Progress {
    if targets == [] then Progress(net, None)
    else TargetStep(TargetSteps(net, owners, targets[..|targets| - 1], byRole), owners, targets[|targets| - 1], byRole)
  }

  function RouteStep(net: Net, table: Handle, spec: RouteSpec): Net {
    if HasRoute(table.routes, spec.destination) || spec.target.None? || table.id !in net.routes then net
    else WithRoute(net, table.id, Route(spec.destination, spec.target.value))
  }

  function RouteSteps(net: Net, table: Handle, specs: seq<RouteSpec>): Net {
    if specs == [] then net
    else RouteStep(RouteSteps(net, table, specs[..|specs| - 1]), table, specs[|specs| - 1])
  }

  function TableStep(net: Net, owners: Owners, spec: TableSpec, byRole: bool): Net {
    var p := TargetSteps(net, owners, spec.targets, byRole);
    if p.table.None? then p.net else RouteSteps(p.net, p.table.value, spec.routes)
  }

  function TableSteps(net: Net, owners: Owners, specs: seq<TableSpec>, byRole: bool): Net {
    if specs == [] then net
    else TableStep(TableSteps(net, owners, specs[..|specs| - 1], byRole), owners, specs[|specs| - 1], byRole)
  }

  // ---- What a pass that fails leaves ----

  // The targets of one specification: some have been dealt with, and the table for the next one may have
  // been created without being linked.
  ghost predicate TargetsStopped(net: Net, owners: Owners, targets: seq<Target>, byRole: bool, net': Net) {
    exists j: nat :: j <= |targets| && StoppedAfter(net, owners, targets, byRole, j, net')
  }

  ghost predicate StoppedAfter(net: Net, owners: Owners, targets: seq<Target>, byRole: bool, j: nat, net': Net)
    requires j <= |targets|
  {
    var p := TargetSteps(net, owners, targets[..j], byRole);
    || net' == p.net
    || (j < |targets| && Chosen(targets[j], byRole) && p.table.None? && targets[j].subnet !in owners
        && net' == WithTable(p.net))
  }

  ghost predicate RoutesStopped(net: Net, table: Handle, specs: seq<RouteSpec>, net': Net) {
    exists j: nat :: j <= |specs| && net' == RouteSteps(net, table, specs[..j])
  }

  ghost predicate SpecStopped(net: Net, owners: Owners, spec: TableSpec, byRole: bool, net': Net) {
    || TargetsStopped(net, owners, spec.targets, byRole, net')
    || (var p := TargetSteps(net, owners, spec.targets, byRole);
        p.table.Some? && RoutesStopped(p.net, p.table.value, spec.routes, net'))
  }

  // A whole pass: some specifications have been dealt with, and it failed within the next one.
  ghost predicate Stopped(net: Net, owners: Owners, specs: seq<TableSpec>, byRole: bool, net': Net) {
    exists i: nat ::
      i < |specs| && SpecStopped(TableSteps(net, owners, specs[..i], byRole), owners, specs[i], byRole, net')
  }

  // ---- The cloud and the reconciler ----

  ghost predicate Valid(net: Net) {
    && (forall l <- net.links :: l.1 in net.routes)
    && (forall t <- net.routes :: t < net.next)
  }

  // listing is what the cloud returns for the tables of the net.
  ghost predicate Shows(listing: seq<Listed>, net: Net) {
    && (forall x <- listing :: x.handle.id in net.routes && x.handle.routes == net.routes[x.handle.id])
    && (forall x <- listing, s <- x.links :: (s, x.handle.id) in net.links)
    && (forall l <- net.links :: exists x <- listing :: x.handle.id == l.1 && l.0 in x.links)
  }

  // owners maps each linked subnet to a table it is linked to.
  ghost predicate Own(owners: Owners, net: Net) {
    && (forall s <- owners :: (s, owners[s].id) in net.links && owners[s].id in net.routes
                              && owners[s].routes == net.routes[owners[s].id])
    && (forall l <- net.links :: l.0 in owners)
  }

  // Whatever happens, nothing that was linked is unlinked or linked again, and nothing that was
  // linked gets another table.
  ghost predicate NoHarm(owners: Owners, net: Net, net': Net) {
    && net.links <= net'.links
    && (forall l <- net'.links :: l in net.links || l.0 !in owners)
    && net.routes.Keys <= net'.routes.Keys
    && (forall t <- net.routes :: net.routes[t] <= net'.routes[t])
    && net.next <= net'.next && net'.local == net.local
  }

  class Cloud {
    var net: Net

    method CreateRouteTable() returns (ok: bool, handle: Handle)
      requires Valid(net)
      modifies this
      ensures Valid(net)
      ensures ok ==> net == WithTable(old(net)) && handle == Handle(old(net).next, net.local)
      ensures !ok ==> net == old(net) || net == WithTable(old(net))
    {
      handle := Handle(net.next, net.local);
      ok := *;
      var effect: bool := *;
      if ok || effect {
        net := WithTable(net);
      }
    }

    method LinkRouteTable(table: Id, subnet: Id) returns (ok: bool)
      requires Valid(net) && table in net.routes
      modifies this
      ensures Valid(net)
      ensures ok ==> net == WithLink(old(net), table, subnet)
      ensures !ok ==> net == old(net) || net == WithLink(old(net), table, subnet)
    {
      ok := *;
      var effect: bool := *;
      if ok || effect {
        net := WithLink(net, table, subnet);
      }
    }

    method CreateRoute(table: Id, route: Route) returns (ok: bool)
      requires Valid(net) && table in net.routes
      modifies this
      ensures Valid(net)
      ensures ok ==> net == WithRoute(old(net), table, route)
      ensures !ok ==> net == old(net) || net == WithRoute(old(net), table, route)
    {
      ok := *;
      var effect: bool := *;
      if ok || effect {
        net := WithRoute(net, table, route);
      }
    }
  }

  // The links read at the start of the pass.
  method OwnersOf(listing: seq<Listed>, ghost net: Net) returns (rtblForSubnet: Owners)
    requires Shows(listing, net)
    ensures Own(rtblForSubnet, net)
    // When several tables are linked to a subnet, the one listed last counts.
    ensures forall s <- rtblForSubnet :: exists i :: LastWith(listing, s, i) && rtblForSubnet[s] == listing[i].handle
  {
    rtblForSubnet := map[];
    for i := 0 to |listing|
      invariant forall k :: 0 <= k < i ==> forall s <- listing[k].links :: s in rtblForSubnet
      invariant forall s <- rtblForSubnet ::
        exists k :: LastWith(listing[..i], s, k) && rtblForSubnet[s] == listing[k].handle
    {
      ghost var before := rtblForSubnet;
      rtblForSubnet := WithLinks(listing[i], rtblForSubnet);
      LastNext(listing, i, before, rtblForSubnet);
    }
    assert listing[..|listing|] == listing;
    OwnersOwn(listing, net, rtblForSubnet);
  }

  // The inner loop, over the links of one table.
  method WithLinks(rtbl: Listed, before: Owners) returns (rtblForSubnet: Owners)
    ensures forall s :: if s in rtbl.links then s in rtblForSubnet && rtblForSubnet[s] == rtbl.handle
                        else (s in rtblForSubnet <==> s in before) && (s in before ==> rtblForSubnet[s] == before[s])
  {
    rtblForSubnet := before;
    for j := 0 to |rtbl.links|
      invariant forall s :: if s in rtbl.links[..j] then s in rtblForSubnet && rtblForSubnet[s] == rtbl.handle
                            else (s in rtblForSubnet <==> s in before)
                                 && (s in before ==> rtblForSubnet[s] == before[s])
    {
      assert rtbl.links[..j + 1] == rtbl.links[..j] + [rtbl.links[j]];
      rtblForSubnet := rtblForSubnet[rtbl.links[j] := rtbl.handle];
    }
    assert rtbl.links[..|rtbl.links|] == rtbl.links;
  }

  lemma OwnersOwn(listing: seq<Listed>, net: Net, owners: Owners)
    requires Shows(listing, net)
    requires forall s <- owners :: exists i :: LastWith(listing, s, i) && owners[s] == listing[i].handle
    requires forall k :: 0 <= k < |listing| ==> forall s <- listing[k].links :: s in owners
    ensures Own(owners, net)
  {
    forall s <- owners
      ensures (s, owners[s].id) in net.links && owners[s].id in net.routes
      ensures owners[s].routes == net.routes[owners[s].id]
    {
      var i :| LastWith(listing, s, i) && owners[s] == listing[i].handle;
      assert listing[i] in listing;
    }
  }

  // The last table listed that is linked to the subnet.
  ghost predicate LastWith(listing: seq<Listed>, s: Id, i: int) {
    0 <= i < |listing| && s in listing[i].links && forall k :: i < k < |listing| ==> s !in listing[k].links
  }

  lemma LastNext(listing: seq<Listed>, i: nat, before: Owners, after: Owners)
    requires i < |listing|
    requires forall s <- before :: exists k :: LastWith(listing[..i], s, k) && before[s] == listing[k].handle
    requires forall s :: if s in listing[i].links then s in after && after[s] == listing[i].handle
                         else (s in after <==> s in before) && (s in before ==> after[s] == before[s])
    ensures forall s <- after :: exists k :: LastWith(listing[..i + 1], s, k) && after[s] == listing[k].handle
  {
    forall s <- after
      ensures exists k :: LastWith(listing[..i + 1], s, k) && after[s] == listing[k].handle
    {
      if s in listing[i].links {
        assert LastWith(listing[..i + 1], s, i);
      } else {
        var k :| LastWith(listing[..i], s, k) && before[s] == listing[k].handle;
        assert LastWith(listing[..i + 1], s, k);
      }
    }
  }

  method ReconcileTargets(cloud: Cloud, owners: Owners, targets: seq<Target>, byRole: bool)
    returns (ok: bool, rtbl: Option<Handle>)
    requires Valid(cloud.net) && forall s <- owners :: owners[s].id in cloud.net.routes
    modifies cloud
    ensures Valid(cloud.net)
    ensures ok ==> Progress(cloud.net, rtbl) == TargetSteps(old(cloud.net), owners, targets, byRole)
    ensures !ok ==> TargetsStopped(old(cloud.net), owners, targets, byRole, cloud.net)
    ensures NoHarm(owners, old(cloud.net), cloud.net)
    ensures rtbl.Some? ==> rtbl.value.id in cloud.net.routes
  {
    rtbl := None;
    assert targets[..|targets|] == targets;
    for i := 0 to |targets|
      invariant Valid(cloud.net)
      invariant Progress(cloud.net, rtbl) == TargetSteps(old(cloud.net), owners, targets[..i], byRole)
      invariant NoHarm(owners, old(cloud.net), cloud.net)
      invariant rtbl.Some? ==> rtbl.value.id in cloud.net.routes
    {
      var target := targets[i];
      assert targets[..i + 1][..i] == targets[..i];
      ghost var before := cloud.net;
      assert StoppedAfter(old(cloud.net), owners, targets, byRole, i, before);
      if byRole && !target.hasRole {
        continue;
      }
      // Looking up the subnet may fail.
      var found: bool := *;
      if !found {
        return false, rtbl;
      }
      if rtbl.None? && target.subnet in owners {
        rtbl := Some(owners[target.subnet]);
        continue;
      }
      if rtbl.None? {
        var handle;
        assert target.subnet !in owners;
        assert StoppedAfter(old(cloud.net), owners, targets, byRole, i, WithTable(before));
        ok, handle := cloud.CreateRouteTable();
        if !ok {
          return;
        }
        rtbl := Some(handle);
      }
      if target.subnet !in owners {
        ok := cloud.LinkRouteTable(rtbl.value.id, target.subnet);
        if !ok {
          assert cloud.net == TargetSteps(old(cloud.net), owners, targets[..i + 1], byRole).net ==>
              StoppedAfter(old(cloud.net), owners, targets, byRole, i + 1, cloud.net);
          return;
        }
      }
    }
    ok := true;
  }

  method ReconcileRoutes(cloud: Cloud, owners: Owners, rtbl: Handle, specs: seq<RouteSpec>) returns (ok: bool)
    requires Valid(cloud.net) && rtbl.id in cloud.net.routes
    modifies cloud
    ensures Valid(cloud.net)
    ensures ok ==> cloud.net == RouteSteps(old(cloud.net), rtbl, specs)
    ensures !ok ==> RoutesStopped(old(cloud.net), rtbl, specs, cloud.net)
    ensures NoHarm(owners, old(cloud.net), cloud.net)
  {
    assert specs[..|specs|] == specs;
    for i := 0 to |specs|
      invariant Valid(cloud.net) && rtbl.id in cloud.net.routes
      invariant cloud.net == RouteSteps(old(cloud.net), rtbl, specs[..i])
      invariant NoHarm(owners, old(cloud.net), cloud.net)
    {
      assert specs[..i + 1][..i] == specs[..i];
      var present := RouteExists(rtbl.routes, specs[i].destination);
      if present || specs[i].target.None? {
        continue;
      }
      // Looking up the target may fail.
      var found: bool := *;
      if !found {
        return false;
      }
      ok := cloud.CreateRoute(rtbl.id, Route(specs[i].destination, specs[i].target.value));
      if !ok {
        return;
      }
    }
    ok := true;
  }

  method RouteExists(routes: seq<Route>, destination: string) returns (b: bool)
    ensures b <==> HasRoute(routes, destination)
  {
    for i := 0 to |routes|
      invariant forall k :: 0 <= k < i ==> routes[k].destination != destination
    {
      if routes[i].destination == destination {
        return true;
      }
    }
    b := false;
  }

  method ReconcileRouteTables(cloud: Cloud, listing: seq<Listed>, specs: seq<TableSpec>, byRole: bool)
    returns (ok: bool, ghost owners: Owners)
    requires Valid(cloud.net) && Shows(listing, cloud.net)
    modifies cloud
    ensures Valid(cloud.net) && Own(owners, old(cloud.net))
    ensures ok ==> cloud.net == TableSteps(old(cloud.net), owners, specs, byRole)
    ensures ok ==> Gained(old(cloud.net), owners, specs, byRole, cloud.net)
    ensures !ok ==> Stopped(old(cloud.net), owners, specs, byRole, cloud.net)
    ensures NoHarm(owners, old(cloud.net), cloud.net)
  {
    var rtblForSubnet := OwnersOf(listing, cloud.net);
    owners := rtblForSubnet;
    assert specs[..|specs|] == specs;
    for i := 0 to |specs|
      invariant Valid(cloud.net)
      invariant cloud.net == TableSteps(old(cloud.net), owners, specs[..i], byRole)
      invariant NoHarm(owners, old(cloud.net), cloud.net)
    {
      assert specs[..i + 1][..i] == specs[..i];
      ghost var before := cloud.net;
      var rtbl;
      ok, rtbl := ReconcileTargets(cloud, rtblForSubnet, specs[i].targets, byRole);
      NoHarmTrans(owners, old(cloud.net), before, cloud.net);
      if !ok {
        assert SpecStopped(before, owners, specs[i], byRole, cloud.net);
        return;
      }
      ghost var start := before;
      if rtbl.None? {
        continue;
      }
      before := cloud.net;
      ok := ReconcileRoutes(cloud, rtblForSubnet, rtbl.value, specs[i].routes);
      NoHarmTrans(owners, old(cloud.net), before, cloud.net);
      if !ok {
        assert SpecStopped(start, owners, specs[i], byRole, cloud.net);
        return;
      }
    }
    ok := true;
    PassAddsRoutes(old(cloud.net), owners, specs, byRole);
  }

  lemma NoHarmTrans(owners: Owners, a: Net, b: Net, c: Net)
    requires NoHarm(owners, a, b) && NoHarm(owners, b, c)
    ensures NoHarm(owners, a, c)
  {
  }

  // ---- What a fault-free pass achieves ----

  // The subnets of one specification that the pass works on, in order.
  function Selected(targets: seq<Target>, byRole: bool): seq<Id> {
    if targets == [] then []
    else if Chosen(targets[|targets| - 1], byRole) then
      Selected(targets[..|targets| - 1], byRole) + [targets[|targets| - 1].subnet]
    else Selected(targets[..|targets| - 1], byRole)
  }

  function AllSelected(specs: seq<TableSpec>, byRole: bool): seq<Id> {
    if specs == [] then []
    else AllSelected(specs[..|specs| - 1], byRole) + Selected(specs[|specs| - 1].targets, byRole)
  }

  ghost function TablesOf(net: Net, subnet: Id): set<Id> {
    set l | l in net.links && l.0 == subnet :: l.1
  }

  // No subnet has two tables.
  ghost predicate Functional(net: Net) {
    forall l <- net.links, l' <- net.links :: l.0 == l'.0 ==> l == l'
  }

  ghost predicate Linked(net: Net, subnet: Id) {
    exists l <- net.links :: l.0 == subnet
  }

  // Whether a specification, by the subnets selected of it, needs a new table: the first one has none.
  ghost predicate NeedsTable(owners: Owners, chosen: seq<Id>) {
    chosen != [] && chosen[0] !in owners
  }

  // The tables that a pass creates.
  ghost function Creations(owners: Owners, specs: seq<TableSpec>, byRole: bool): nat {
    if specs == [] then 0
    else
      Creations(owners, specs[..|specs| - 1], byRole)
      + if NeedsTable(owners, Selected(specs[|specs| - 1].targets, byRole)) then 1 else 0
  }

  // The table that serves the subnets chosen of one specification: that of the first one, or a new one.
  ghost function Opens(owners: Owners, chosen: seq<Id>, next: Id): Id {
    if chosen != [] && chosen[0] in owners then owners[chosen[0]].id else next
  }

  // The specification k selects the subnet.
  ghost predicate Selects(specs: seq<TableSpec>, byRole: bool, k: nat, subnet: Id) {
    k < |specs| && subnet in Selected(specs[k].targets, byRole)
  }

  // The table that the specification k serves its subnets with, in a pass from net.
  ghost function OpensAt(net: Net, owners: Owners, specs: seq<TableSpec>, byRole: bool, k: nat): Id
    requires k < |specs|
  {
    Opens(owners, Selected(specs[k].targets, byRole), net.next + Creations(owners, specs[..k], byRole))
  }

  // All specifications that select the subnet serve it with the same table.
  ghost predicate Agree(net: Net, owners: Owners, specs: seq<TableSpec>, byRole: bool, subnet: Id) {
    forall j: nat, k: nat :: Selects(specs, byRole, j, subnet) && Selects(specs, byRole, k, subnet) ==>
      OpensAt(net, owners, specs, byRole, j) == OpensAt(net, owners, specs, byRole, k)
  }

  // From net, the unowned subnets of chosen were linked to table, and nothing else.
  ghost predicate LinkedTo(net: Net, owners: Owners, chosen: seq<Id>, table: Id, net': Net) {
    && net'.local == net.local
    && forall l :: l in net'.links <==> l in net.links || (l.0 in chosen && l.0 !in owners && l.1 == table)
  }

  // The progress after the targets that select chosen.
  ghost predicate Opened(net: Net, owners: Owners, chosen: seq<Id>, p: Progress) {
    if chosen == [] then p == Progress(net, None)
    else if chosen[0] in owners then
      p.table == Some(owners[chosen[0]]) && p.net.next == net.next && p.net.routes == net.routes
    else
      && p.table == Some(Handle(net.next, net.local)) && p.net.next == net.next + 1
      && p.net.routes == net.routes[net.next := net.local]
  }

  // The targets of one specification, whatever they are.
  lemma {:induction false} TargetsExtend(net: Net, owners: Owners, targets: seq<Target>, byRole: bool)
    ensures var p, chosen := TargetSteps(net, owners, targets, byRole), Selected(targets, byRole);
            Opened(net, owners, chosen, p) && LinkedTo(net, owners, chosen, Opens(owners, chosen, net.next), p.net)
  {
    if targets != [] {
      var front, last := targets[..|targets| - 1], targets[|targets| - 1];
      TargetsExtend(net, owners, front, byRole);
      if Chosen(last, byRole) {
        TargetExtends(net, owners, Selected(front, byRole), TargetSteps(net, owners, front, byRole), last, byRole);
      }
    }
  }

  lemma TargetExtends(net: Net, owners: Owners, before: seq<Id>, p: Progress, target: Target, byRole: bool)
    requires Opened(net, owners, before, p) && LinkedTo(net, owners, before, Opens(owners, before, net.next), p.net)
    requires Chosen(target, byRole)
    ensures var p', chosen := TargetStep(p, owners, target, byRole), before + [target.subnet];
            Opened(net, owners, chosen, p') && LinkedTo(net, owners, chosen, Opens(owners, chosen, net.next), p'.net)
  {
    var chosen := before + [target.subnet];
    assert before != [] ==> chosen[0] == before[0];
    assert forall s :: s in chosen <==> s in before || s == target.subnet;
  }

  lemma {:induction false} RoutesKeepLinks(net: Net, table: Handle, specs: seq<RouteSpec>)
    ensures var net' := RouteSteps(net, table, specs);
            && net'.links == net.links && net'.next == net.next && net'.local == net.local
            && net'.routes.Keys == net.routes.Keys
    ensures forall t <- net.routes :: t != table.id ==> RouteSteps(net, table, specs).routes[t] == net.routes[t]
  {
    if specs != [] {
      RoutesKeepLinks(net, table, specs[..|specs| - 1]);
    }
  }

  // One specification.
  lemma TableExtends(net: Net, owners: Owners, spec: TableSpec, byRole: bool)
    ensures var net', chosen := TableStep(net, owners, spec, byRole), Selected(spec.targets, byRole);
            && LinkedTo(net, owners, chosen, Opens(owners, chosen, net.next), net')
            && net'.next == net.next + (if NeedsTable(owners, chosen) then 1 else 0)
            && forall t :: t in net'.routes <==> t in net.routes || net.next <= t < net'.next
  {
    TargetsExtend(net, owners, spec.targets, byRole);
    var p := TargetSteps(net, owners, spec.targets, byRole);
    if p.table.Some? {
      RoutesKeepLinks(p.net, p.table.value, spec.routes);
    }
  }

  // Where the links after a pass come from.
  ghost predicate LinkFrom(net: Net, owners: Owners, specs: seq<TableSpec>, byRole: bool, l: (Id, Id)) {
    && l.0 !in owners
    && exists k: nat :: Selects(specs, byRole, k, l.0) && l.1 == OpensAt(net, owners, specs, byRole, k)
  }

  // A whole pass, whatever the specifications: each unowned subnet is linked to the table that each of the
  // specifications that select it opens, and nothing else is linked.
  lemma {:induction false} TablesExtend(net: Net, owners: Owners, specs: seq<TableSpec>, byRole: bool)
    ensures var net' := TableSteps(net, owners, specs, byRole);
            && net'.local == net.local
            && (forall l :: l in net'.links <==> l in net.links || LinkFrom(net, owners, specs, byRole, l))
            && net'.next == net.next + Creations(owners, specs, byRole)
            && forall t :: t in net'.routes <==> t in net.routes || net.next <= t < net'.next
  {
    if specs != [] {
      var front, last := specs[..|specs| - 1], specs[|specs| - 1];
      TablesExtend(net, owners, front, byRole);
      var mid := TableSteps(net, owners, front, byRole);
      TableExtends(mid, owners, last, byRole);
      forall l: (Id, Id) {
        LinkFromLast(net, owners, specs, byRole, l);
      }
    }
  }

  lemma LinkFromLast(net: Net, owners: Owners, specs: seq<TableSpec>, byRole: bool, l: (Id, Id))
    requires specs != []
    ensures var n := |specs| - 1;
            var chosen := Selected(specs[n].targets, byRole);
            LinkFrom(net, owners, specs, byRole, l)
            <==> LinkFrom(net, owners, specs[..n], byRole, l)
                 || (l.0 in chosen && l.0 !in owners
                     && l.1 == Opens(owners, chosen, net.next + Creations(owners, specs[..n], byRole)))
  {
    var n := |specs| - 1;
    var front := specs[..n];
    forall k: nat | k < n
      ensures Selects(specs, byRole, k, l.0) <==> Selects(front, byRole, k, l.0)
      ensures OpensAt(net, owners, specs, byRole, k) == OpensAt(net, owners, front, byRole, k)
    {
      assert front[..k] == specs[..k];
    }
    if l.0 in Selected(specs[n].targets, byRole) {
      assert Selects(specs, byRole, n, l.0);
    }
  }

  lemma {:induction false} SelectedBySome(specs: seq<TableSpec>, byRole: bool, s: Id)
    ensures s in AllSelected(specs, byRole) <==> exists k: nat :: Selects(specs, byRole, k, s)
  {
    if specs != [] {
      var n := |specs| - 1;
      SelectedBySome(specs[..n], byRole, s);
      forall k: nat | k < n
        ensures Selects(specs, byRole, k, s) <==> Selects(specs[..n], byRole, k, s)
      {
      }
      if s in Selected(specs[n].targets, byRole) {
        assert Selects(specs, byRole, n, s);
      }
    }
  }

  // After a fault-free pass, a selected subnet has exactly one table if and only if it had one, or all
  // the specifications that select it open the same one. The links that existed are unchanged, the others are
  // of selected subnets that had none, and one table was created for each specification whose first
  // selected subnet had none.
  lemma PassLinksEachSubnet(net: Net, owners: Owners, specs: seq<TableSpec>, byRole: bool)
    requires Functional(net) && Own(owners, net)
    ensures var net' := TableSteps(net, owners, specs, byRole);
            && (forall s <- AllSelected(specs, byRole) ::
                  |TablesOf(net', s)| == 1 <==> s in owners || Agree(net, owners, specs, byRole, s))
            && ((forall s <- AllSelected(specs, byRole) :: |TablesOf(net', s)| == 1)
                <==> forall s <- AllSelected(specs, byRole) :: s !in owners ==> Agree(net, owners, specs, byRole, s))
            && net.links <= net'.links
            && (forall l <- net'.links :: l in net.links || (l.0 in AllSelected(specs, byRole) && !Linked(net, l.0)))
            && net'.next == net.next + Creations(owners, specs, byRole)
            && forall t :: t in net'.routes <==> t in net.routes || net.next <= t < net'.next
  {
    TablesExtend(net, owners, specs, byRole);
    var net' := TableSteps(net, owners, specs, byRole);
    forall s <- AllSelected(specs, byRole)
      ensures |TablesOf(net', s)| == 1 <==> s in owners || Agree(net, owners, specs, byRole, s)
    {
      if s in owners {
        OwnedKeepsItsTable(net, owners, specs, byRole, s);
      } else {
        OneTableExactly(net, owners, specs, byRole, s);
      }
    }
    forall l <- net'.links | l !in net.links
      ensures l.0 in AllSelected(specs, byRole) && !Linked(net, l.0)
    {
      SelectedBySome(specs, byRole, l.0);
      OwnedExactly(owners, net, l.0);
    }
  }

  lemma OwnedKeepsItsTable(net: Net, owners: Owners, specs: seq<TableSpec>, byRole: bool, s: Id)
    requires Functional(net) && Own(owners, net) && s in owners
    ensures TablesOf(TableSteps(net, owners, specs, byRole), s) == TablesOf(net, s) == {owners[s].id}
  {
    TablesExtend(net, owners, specs, byRole);
    assert (s, owners[s].id) in net.links;
  }

  lemma OneTableExactly(net: Net, owners: Owners, specs: seq<TableSpec>, byRole: bool, s: Id)
    requires Own(owners, net) && s !in owners && s in AllSelected(specs, byRole)
    ensures |TablesOf(TableSteps(net, owners, specs, byRole), s)| == 1 <==> Agree(net, owners, specs, byRole, s)
  {
    var net' := TableSteps(net, owners, specs, byRole);
    TablesExtend(net, owners, specs, byRole);
    SelectedBySome(specs, byRole, s);
    OwnedExactly(owners, net, s);
    var tables := TablesOf(net', s);
    forall t: Id
      ensures t in tables <==> LinkFrom(net, owners, specs, byRole, (s, t))
    {
      assert t in tables <==> (s, t) in net'.links;
    }
    var k: nat :| Selects(specs, byRole, k, s);
    var first := OpensAt(net, owners, specs, byRole, k);
    assert LinkFrom(net, owners, specs, byRole, (s, first));
    SingletonExactly(tables, first);
    AgreeExactly(net, owners, specs, byRole, s, k);
  }

  lemma AgreeExactly(net: Net, owners: Owners, specs: seq<TableSpec>, byRole: bool, s: Id, k: nat)
    requires s !in owners && Selects(specs, byRole, k, s)
    ensures Agree(net, owners, specs, byRole, s)
       <==> forall t: Id :: LinkFrom(net, owners, specs, byRole, (s, t)) ==> t == OpensAt(net, owners, specs, byRole, k)
  {
    forall j: nat | Selects(specs, byRole, j, s)
      ensures LinkFrom(net, owners, specs, byRole, (s, OpensAt(net, owners, specs, byRole, j)))
    {
    }
  }

  lemma SingletonExactly(tables: set<Id>, t: Id)
    requires t in tables
    ensures |tables| == 1 <==> forall u <- tables :: u == t
  {
    if |tables| == 1 {
      forall u <- tables
        ensures u == t
      {
        Fewer({t, u}, tables);
        assert u != t ==> |{t, u}| == 2;
      }
    }
    if forall u <- tables :: u == t {
      assert tables == {t};
    }
  }

  // When no subnet is selected twice, all agree.
  lemma {:induction false} DistinctAgree(net: Net, owners: Owners, specs: seq<TableSpec>, byRole: bool, s: Id)
    requires Distinct(AllSelected(specs, byRole))
    ensures Agree(net, owners, specs, byRole, s)
  {
    forall j: nat, k: nat | Selects(specs, byRole, j, s) && Selects(specs, byRole, k, s)
      ensures j == k
    {
      SelectedOnce(specs, byRole, s, j, k);
    }
  }

  lemma {:induction false} SelectedOnce(specs: seq<TableSpec>, byRole: bool, s: Id, j: nat, k: nat)
    requires Distinct(AllSelected(specs, byRole)) && Selects(specs, byRole, j, s) && Selects(specs, byRole, k, s)
    ensures j == k
  {
    var n := |specs| - 1;
    DistinctParts(AllSelected(specs[..n], byRole), Selected(specs[n].targets, byRole));
    SelectedBySome(specs[..n], byRole, s);
    assert j < n ==> Selects(specs[..n], byRole, j, s);
    assert k < n ==> Selects(specs[..n], byRole, k, s);
    if j < n && k < n {
      SelectedOnce(specs[..n], byRole, s, j, k);
    }
  }

  lemma DistinctParts(a: seq<Id>, b: seq<Id>)
    requires Distinct(a + b)
    ensures Distinct(a) && Distinct(b)
    ensures forall s <- b :: s !in a
  {
    var c := a + b;
    assert forall i :: 0 <= i < |a| ==> c[i] == a[i];
    assert forall i :: 0 <= i < |b| ==> c[|a| + i] == b[i];
  }

  // Two specifications that select one subnet without a table give it two tables, in one fault-free pass.
  lemma TwiceSelectedGetsTwoTables(net: Net, owners: Owners, spec: TableSpec)
    requires Own(owners, net)
    requires |spec.targets| == 1 && !Linked(net, spec.targets[0].subnet)
    ensures TablesOf(TableSteps(net, owners, [spec, spec], false), spec.targets[0].subnet) == {net.next, net.next + 1}
  {
    var s, specs := spec.targets[0].subnet, [spec, spec];
    OwnedExactly(owners, net, s);
    assert spec.targets[..0] == [] && Selected(spec.targets, false) == [s];
    assert specs[..1] == [spec] && specs[..0] == [] && [spec][..0] == [];
    assert Creations(owners, [spec], false) == 1;
    assert OpensAt(net, owners, specs, false, 0) == net.next && OpensAt(net, owners, specs, false, 1) == net.next + 1;
    TablesExtend(net, owners, specs, false);
    assert Selects(specs, false, 0, s) && Selects(specs, false, 1, s);
    var net' := TableSteps(net, owners, specs, false);
    assert (s, net.next) in net'.links && (s, net.next + 1) in net'.links;
  }

  lemma OwnedExactly(owners: Owners, net: Net, s: Id)
    requires Own(owners, net)
    ensures s in owners <==> Linked(net, s)
  {
    if s in owners {
      assert (s, owners[s].id) in net.links;
    }
  }

  // ---- The routes that a pass leaves ----

  // One of the specifications asks for the route, and none of the routes known has its destination.
  ghost predicate Missing(specs: seq<RouteSpec>, known: seq<Route>, r: Route) {
    && (exists spec <- specs :: spec.destination == r.destination && spec.target == Some(r.target))
    && forall x <- known :: x.destination != r.destination
  }

  // The routes of one table: the missing ones are added behind those there.
  lemma {:induction false} RoutesMeaning(net: Net, table: Handle, specs: seq<RouteSpec>)
    requires table.id in net.routes
    ensures var net' := RouteSteps(net, table, specs);
            && table.id in net'.routes && net.routes[table.id] <= net'.routes[table.id]
            && |net'.routes[table.id]| <= |net.routes[table.id]| + |specs|
            && forall r :: r in net'.routes[table.id]
                           <==> r in net.routes[table.id] || Missing(specs, table.routes, r)
  {
    if specs != [] {
      var front, last := specs[..|specs| - 1], specs[|specs| - 1];
      assert specs == front + [last];
      RoutesMeaning(net, table, front);
      var mid, net' := RouteSteps(net, table, front), RouteSteps(net, table, specs);
      forall r
        ensures r in net'.routes[table.id] <==> r in net.routes[table.id] || Missing(specs, table.routes, r)
      {
        assert r in net'.routes[table.id]
          <==> r in mid.routes[table.id] || Missing([last], table.routes, r) by {
          assert last in [last];
        }
        assert Missing(specs, table.routes, r)
          <==> Missing(front, table.routes, r) || Missing([last], table.routes, r);
      }
    }
  }

  // The specification k is served with the table t and asks for a route that the table lacked at first.
  ghost predicate Asks(net: Net, owners: Owners, specs: seq<TableSpec>, byRole: bool, t: Id, r: Route, k: nat) {
    && k < |specs| && Selected(specs[k].targets, byRole) != []
    && OpensAt(net, owners, specs, byRole, k) == t && Missing(specs[k].routes, FirstRoutes(net, t), r)
  }

  // The routes of a table read at the start, or those that it was created with.
  function FirstRoutes(net: Net, t: Id): seq<Route> {
    if t in net.routes then net.routes[t] else net.local
  }

  lemma AsksLast(net: Net, owners: Owners, specs: seq<TableSpec>, byRole: bool, t: Id, r: Route)
    requires specs != []
    ensures var n := |specs| - 1;
            (exists k: nat :: Asks(net, owners, specs, byRole, t, r, k))
            <==> (exists k: nat :: Asks(net, owners, specs[..n], byRole, t, r, k))
                 || Asks(net, owners, specs, byRole, t, r, n)
  {
    var n := |specs| - 1;
    forall k: nat | k < n
      ensures Asks(net, owners, specs, byRole, t, r, k) <==> Asks(net, owners, specs[..n], byRole, t, r, k)
    {
      assert specs[..n][..k] == specs[..k];
    }
  }

  // What one specification does to one table: only the table that serves it gains routes.
  ghost predicate Grown(mid: Net, owners: Owners, spec: TableSpec, byRole: bool, known: seq<Route>, t: Id,
                        now: seq<Route>) {
    var chosen := Selected(spec.targets, byRole);
    if chosen != [] && t == Opens(owners, chosen, mid.next) then
      && FirstRoutes(mid, t) <= now
      && forall r :: r in now <==> r in FirstRoutes(mid, t) || Missing(spec.routes, known, r)
    else now == FirstRoutes(mid, t)
  }

  lemma TableGrows(mid: Net, owners: Owners, spec: TableSpec, byRole: bool, known: seq<Route>, t: Id)
    requires mid.next !in mid.routes && forall s <- owners :: owners[s].id in mid.routes
    requires t in TableStep(mid, owners, spec, byRole).routes
    requires var chosen := Selected(spec.targets, byRole);
             chosen != [] && t == Opens(owners, chosen, mid.next) ==>
               known == if chosen[0] in owners then owners[chosen[0]].routes else mid.local
    ensures Grown(mid, owners, spec, byRole, known, t, TableStep(mid, owners, spec, byRole).routes[t])
  {
    var p := TargetSteps(mid, owners, spec.targets, byRole);
    TargetsExtend(mid, owners, spec.targets, byRole);
    if p.table.Some? {
      RoutesMeaning(p.net, p.table.value, spec.routes);
      RoutesKeepLinks(p.net, p.table.value, spec.routes);
    }
  }

  // A table that some specification is served with exists.
  lemma OpenedExists(net: Net, owners: Owners, specs: seq<TableSpec>, byRole: bool, k: nat)
    requires Valid(net) && Own(owners, net) && k < |specs| && Selected(specs[k].targets, byRole) != []
    ensures OpensAt(net, owners, specs, byRole, k) in TableSteps(net, owners, specs, byRole).routes
  {
    TablesExtend(net, owners, specs, byRole);
    FewerCreations(owners, specs, byRole, k + 1);
    assert specs[..k + 1][..k] == specs[..k];
  }

  lemma {:induction false} FewerCreations(owners: Owners, specs: seq<TableSpec>, byRole: bool, k: nat)
    requires k <= |specs|
    ensures Creations(owners, specs[..k], byRole) <= Creations(owners, specs, byRole)
  {
    if k < |specs| {
      assert specs[..|specs| - 1][..k] == specs[..k];
      FewerCreations(owners, specs[..|specs| - 1], byRole, k);
    } else {
      assert specs[..k] == specs;
    }
  }

  // One table, over a whole pass.
  ghost predicate TableGained(net: Net, owners: Owners, specs: seq<TableSpec>, byRole: bool, t: Id, now: seq<Route>) {
    && FirstRoutes(net, t) <= now
    && forall r ::
         r in now <==> r in FirstRoutes(net, t) || exists k: nat :: Asks(net, owners, specs, byRole, t, r, k)
  }

  // Each table keeps its routes in place and gains the missing ones of the specifications it serves, which
  // all have a table.
  ghost predicate Gained(net: Net, owners: Owners, specs: seq<TableSpec>, byRole: bool, net': Net) {
    && (forall t <- net'.routes :: TableGained(net, owners, specs, byRole, t, net'.routes[t]))
    && (forall k: nat :: k < |specs| && Selected(specs[k].targets, byRole) != [] ==>
          OpensAt(net, owners, specs, byRole, k) in net'.routes)
  }

  // One more specification.
  lemma TableGains(net: Net, owners: Owners, specs: seq<TableSpec>, byRole: bool, t: Id, before: seq<Route>,
                   now: seq<Route>)
    requires specs != [] && TableGained(net, owners, specs[..|specs| - 1], byRole, t, before)
    requires var n := |specs| - 1;
             if Selected(specs[n].targets, byRole) != [] && t == OpensAt(net, owners, specs, byRole, n) then
               && before <= now
               && forall r :: r in now <==> r in before || Missing(specs[n].routes, FirstRoutes(net, t), r)
             else now == before
    ensures TableGained(net, owners, specs, byRole, t, now)
  {
    forall r
      ensures r in now <==> r in FirstRoutes(net, t) || exists k: nat :: Asks(net, owners, specs, byRole, t, r, k)
    {
      AsksLast(net, owners, specs, byRole, t, r);
    }
  }

  // No specification is served with a table that does not exist.
  lemma NotOpened(net: Net, owners: Owners, specs: seq<TableSpec>, byRole: bool, t: Id)
    requires Valid(net) && Own(owners, net) && t !in TableSteps(net, owners, specs, byRole).routes
    ensures TableGained(net, owners, specs, byRole, t, net.local)
  {
    TablesExtend(net, owners, specs, byRole);
    forall r, k: nat
      ensures !Asks(net, owners, specs, byRole, t, r, k)
    {
      if Asks(net, owners, specs, byRole, t, r, k) {
        OpenedExists(net, owners, specs, byRole, k);
      }
    }
  }

  // A whole pass without failure, whatever the specifications: which routes each table ends with.
  lemma {:induction false} PassAddsRoutes(net: Net, owners: Owners, specs: seq<TableSpec>, byRole: bool)
    requires Valid(net) && Own(owners, net)
    ensures Gained(net, owners, specs, byRole, TableSteps(net, owners, specs, byRole))
  {
    var net' := TableSteps(net, owners, specs, byRole);
    if specs != [] {
      var n := |specs| - 1;
      var mid := TableSteps(net, owners, specs[..n], byRole);
      PassAddsRoutes(net, owners, specs[..n], byRole);
      TablesExtend(net, owners, specs[..n], byRole);
      forall t <- net'.routes
        ensures TableGained(net, owners, specs, byRole, t, net'.routes[t])
      {
        OneTableGains(net, owners, specs, byRole, t);
      }
    }
    forall k: nat | k < |specs| && Selected(specs[k].targets, byRole) != []
      ensures OpensAt(net, owners, specs, byRole, k) in net'.routes
    {
      OpenedExists(net, owners, specs, byRole, k);
    }
  }

  lemma OneTableGains(net: Net, owners: Owners, specs: seq<TableSpec>, byRole: bool, t: Id)
    requires Valid(net) && Own(owners, net) && specs != []
    requires Gained(net, owners, specs[..|specs| - 1], byRole, TableSteps(net, owners, specs[..|specs| - 1], byRole))
    requires t in TableSteps(net, owners, specs, byRole).routes
    ensures TableGained(net, owners, specs, byRole, t, TableSteps(net, owners, specs, byRole).routes[t])
  {
    var n := |specs| - 1;
    var mid, net' := TableSteps(net, owners, specs[..n], byRole), TableSteps(net, owners, specs, byRole);
    TablesExtend(net, owners, specs[..n], byRole);
    TableGrows(mid, owners, specs[n], byRole, FirstRoutes(net, t), t);
    if t !in mid.routes {
      NotOpened(net, owners, specs[..n], byRole, t);
    }
    TableGains(net, owners, specs, byRole, t, FirstRoutes(mid, t), net'.routes[t]);
  }

  // ---- Generated specifications: one subnet and one default route each ----

  ghost predicate OneEach(spec: TableSpec, destination: string) {
    && |spec.targets| == 1 && |spec.routes| == 1
    && spec.routes[0].destination == destination && spec.routes[0].target.Some?
  }

  function SubnetOf(spec: TableSpec): Id {
    if spec.targets == [] then 0 else spec.targets[0].subnet
  }

  predicate HasRoleOf(spec: TableSpec) {
    spec.targets != [] && spec.targets[0].hasRole
  }

  ghost predicate Generated(specs: seq<TableSpec>, destination: string) {
    (forall spec <- specs :: OneEach(spec, destination)) && Distinct(AllSelected(specs, false))
  }

  ghost function CountRoutes(routes: seq<Route>, destination: string): nat {
    if routes == [] then 0
    else CountRoutes(routes[..|routes| - 1], destination)
         + if routes[|routes| - 1].destination == destination then 1 else 0
  }

  // The subnet has one table, of its own, with n routes to the destination.
  ghost predicate HasRoutes(net: Net, subnet: Id, destination: string, t: Id, n: nat) {
    t in net.routes && TablesOf(net, subnet) == {t} && CountRoutes(net.routes[t], destination) == n
  }

  ghost predicate Served(net: Net, subnet: Id, destination: string) {
    exists t :: HasRoutes(net, subnet, destination, t, 1)
  }

  // The table may still lack its route.
  ghost predicate Begun(net: Net, subnet: Id, destination: string) {
    exists t :: HasRoutes(net, subnet, destination, t, 0) || HasRoutes(net, subnet, destination, t, 1)
  }

  // No table serves two subnets, no subnet has two tables.
  ghost predicate OneToOne(net: Net) {
    Valid(net) && Functional(net) && forall l <- net.links, l' <- net.links :: l.1 == l'.1 ==> l == l'
  }

  // What earlier passes on generated specifications leave, complete or not: each subnet is untouched, or has a
  // table of its own with at most one route. Tables may have been created and left without a link.
  ghost predicate Ready(net: Net, subnets: seq<Id>, destination: string) {
    && OneToOne(net) && !HasRoute(net.local, destination)
    && forall s <- subnets :: !Linked(net, s) || Begun(net, s, destination)
  }

  lemma {:induction false} CountZero(routes: seq<Route>, destination: string)
    ensures CountRoutes(routes, destination) == 0 <==> !HasRoute(routes, destination)
  {
    if routes != [] {
      var front := routes[..|routes| - 1];
      assert routes == front + [routes[|routes| - 1]];
      CountZero(front, destination);
    }
  }

  lemma OneMore(routes: seq<Route>, route: Route)
    ensures CountRoutes(routes + [route], route.destination) == CountRoutes(routes, route.destination) + 1
  {
    assert (routes + [route])[..|routes|] == routes;
  }

  // ---- One specification ----

  // The route that a generated specification asks for.
  function RouteOf(spec: TableSpec, destination: string): Route {
    Route(destination, if |spec.routes| == 1 && spec.routes[0].target.Some? then spec.routes[0].target.value else 0)
  }

  // The subnet s gets a new table, without or with its route.
  function Attached(now: Net, s: Id): Net {
    WithLink(WithTable(now), now.next, s)
  }

  function Fitted(now: Net, s: Id, route: Route): Net {
    WithRoute(Attached(now, s), now.next, route)
  }

  lemma SelectedOne(spec: TableSpec, destination: string, byRole: bool)
    requires OneEach(spec, destination)
    ensures Selected(spec.targets, byRole) == if Chosen(spec.targets[0], byRole) then [SubnetOf(spec)] else []
  {
    assert spec.targets[..0] == [];
  }

  // What a pass does for one specification.
  lemma StepIs(now: Net, owners: Owners, spec: TableSpec, destination: string, byRole: bool)
    requires OneEach(spec, destination) && !HasRoute(now.local, destination)
    ensures TableStep(now, owners, spec, byRole)
         == var s, route := SubnetOf(spec), RouteOf(spec, destination);
            if !Chosen(spec.targets[0], byRole) then now
            else if s !in owners then Fitted(now, s, route)
            else if HasRoute(owners[s].routes, destination) || owners[s].id !in now.routes then now
            else WithRoute(now, owners[s].id, route)
  {
    assert spec.targets[..0] == [] && spec.routes[..0] == [];
    assert TargetSteps(now, owners, [], byRole) == Progress(now, None);
    var p := TargetSteps(now, owners, spec.targets, byRole);
    assert p == TargetStep(Progress(now, None), owners, spec.targets[0], byRole);
    if p.table.Some? {
      assert RouteSteps(p.net, p.table.value, []) == p.net;
    }
  }

  // The subnets chosen so far are served. The links of the others, and the tables of none of the chosen ones,
  // are what they were.
  ghost predicate ServedSoFar(net: Net, chosen: seq<Id>, destination: string, now: Net) {
    && OneToOne(now) && now.local == net.local
    && (forall s <- chosen :: Served(now, s, destination))
    && (forall s :: s !in chosen ==> TablesOf(now, s) == TablesOf(net, s))
    && (forall t <- net.routes :: t in now.routes)
    && (forall s, t :: s !in chosen && t in TablesOf(net, s) ==> SameRoutes(net, now, t))
  }

  ghost predicate SameRoutes(net: Net, now: Net, t: Id) {
    t in net.routes && t in now.routes && now.routes[t] == net.routes[t]
  }

  // Giving s a new table, or giving its table a route, leaves the tables of other subnets alone.
  lemma AttachedKeepsOthers(now: Net, s: Id)
    requires OneToOne(now) && !Linked(now, s)
    ensures var net' := Attached(now, s);
            && OneToOne(net') && TablesOf(net', s) == {now.next} && net'.routes[now.next] == now.local
            && (forall other :: other != s ==> TablesOf(net', other) == TablesOf(now, other))
            && (forall t <- now.routes :: SameRoutes(now, net', t))
  {
    var net' := Attached(now, s);
    assert (s, now.next) in net'.links;
    assert TablesOf(net', s) == {now.next};
    forall other | other != s
      ensures TablesOf(net', other) == TablesOf(now, other)
    {
    }
  }

  lemma RoutedKeepsOthers(now: Net, s: Id, t: Id, route: Route)
    requires OneToOne(now) && TablesOf(now, s) == {t} && t in now.routes
    ensures var net' := WithRoute(now, t, route);
            && OneToOne(net')
            && (forall other :: TablesOf(net', other) == TablesOf(now, other))
            && (forall u <- now.routes :: u != t ==> SameRoutes(now, net', u))
            && (forall other, u :: other != s && u in TablesOf(now, other) ==> u != t)
  {
    assert t in TablesOf(now, s);
    assert (s, t) in now.links;
  }

  lemma TableOfLinked(owners: Owners, net: Net, s: Id)
    requires Own(owners, net) && Functional(net) && s in owners
    ensures TablesOf(net, s) == {owners[s].id} && owners[s].id in net.routes
    ensures owners[s].routes == net.routes[owners[s].id]
  {
    assert (s, owners[s].id) in net.links;
  }

  lemma NotLinkedExactly(net: Net, s: Id)
    ensures Linked(net, s) <==> TablesOf(net, s) != {}
  {
    if Linked(net, s) {
      var l :| l in net.links && l.0 == s;
      assert l.1 in TablesOf(net, s);
    }
    if t :| t in TablesOf(net, s) {
      assert (s, t) in net.links;
    }
  }

  lemma NextIsServed(net: Net, owners: Owners, before: seq<Id>, spec: TableSpec, destination: string, byRole: bool,
                     now: Net)
    requires Own(owners, net) && OneToOne(net) && !HasRoute(net.local, destination)
    requires OneEach(spec, destination) && SubnetOf(spec) !in before
    requires !Linked(net, SubnetOf(spec)) || Begun(net, SubnetOf(spec), destination)
    requires ServedSoFar(net, before, destination, now)
    ensures ServedSoFar(net, before + Selected(spec.targets, byRole), destination, TableStep(now, owners, spec, byRole))
  {
    var s := SubnetOf(spec);
    SelectedOne(spec, destination, byRole);
    StepIs(now, owners, spec, destination, byRole);
    OwnedExactly(owners, net, s);
    NotLinkedExactly(now, s);
    NotLinkedExactly(net, s);
    if !Chosen(spec.targets[0], byRole) {
      assert before + [] == before;
    } else if s !in owners {
      FittedIsServed(net, before, s, RouteOf(spec, destination), now);
    } else {
      TableOfLinked(owners, net, s);
      RoutedIsServed(net, owners, before, s, RouteOf(spec, destination), now);
    }
  }

  // The subnet was untouched.
  lemma FittedIsServed(net: Net, before: seq<Id>, s: Id, route: Route, now: Net)
    requires ServedSoFar(net, before, route.destination, now) && !Linked(now, s) && s !in before
    requires !HasRoute(net.local, route.destination)
    ensures ServedSoFar(net, before + [s], route.destination, Fitted(now, s, route))
  {
    var mid, net' := Attached(now, s), Fitted(now, s, route);
    AttachedKeepsOthers(now, s);
    RoutedKeepsOthers(mid, s, now.next, route);
    CountZero(now.local, route.destination);
    OneMore(now.local, route);
    assert HasRoutes(net', s, route.destination, now.next, 1);
    forall u <- now.routes
      ensures SameRoutes(now, net', u)
    {
      assert SameRoutes(now, mid, u);
    }
    OthersStayServed(before, s, route.destination, now, net');
    OthersKeepRoutes(net, before, s, now, net');
  }

  lemma OthersKeepRoutes(net: Net, before: seq<Id>, s: Id, now: Net, net': Net)
    requires forall other, t :: other !in before && t in TablesOf(net, other) ==> SameRoutes(net, now, t)
    requires forall other :: other !in before ==> TablesOf(now, other) == TablesOf(net, other)
    requires forall other, t :: other != s && t in TablesOf(now, other) && t in now.routes ==> SameRoutes(now, net', t)
    ensures forall other, t :: other !in before + [s] && t in TablesOf(net, other) ==> SameRoutes(net, net', t)
  {
    forall other, t | other !in before + [s] && t in TablesOf(net, other)
      ensures SameRoutes(net, net', t)
    {
      assert other !in before && other != s by { assert forall x :: x in before || x == s ==> x in before + [s]; }
      assert SameRoutes(net, now, t);
      assert SameRoutes(now, net', t);
    }
  }

  // Subnets served before are still served.
  lemma OthersStayServed(before: seq<Id>, s: Id, destination: string, now: Net, net': Net)
    requires forall other <- before :: Served(now, other, destination)
    requires s !in before && forall other :: other != s ==> TablesOf(net', other) == TablesOf(now, other)
    requires forall other, u :: other != s && u in TablesOf(now, other) && u in now.routes ==> SameRoutes(now, net', u)
    ensures forall other <- before :: Served(net', other, destination)
  {
    forall other <- before
      ensures Served(net', other, destination)
    {
      var t :| HasRoutes(now, other, destination, t, 1);
      assert t in TablesOf(now, other);
      assert HasRoutes(net', other, destination, t, 1);
    }
  }

  // The subnet had a table, with its route or without.
  lemma RoutedIsServed(net: Net, owners: Owners, before: seq<Id>, s: Id, route: Route, now: Net)
    requires ServedSoFar(net, before, route.destination, now) && s !in before && s in owners
    requires TablesOf(net, s) == {owners[s].id} && owners[s].id in net.routes
    requires owners[s].routes == net.routes[owners[s].id] && Begun(net, s, route.destination)
    ensures owners[s].id in now.routes
    ensures var net' := if HasRoute(owners[s].routes, route.destination) then now
                        else WithRoute(now, owners[s].id, route);
            ServedSoFar(net, before + [s], route.destination, net')
  {
    var t := owners[s].id;
    assert t in TablesOf(net, s) && SameRoutes(net, now, t);
    CountZero(net.routes[t], route.destination);
    assert CountRoutes(net.routes[t], route.destination) <= 1 by {
      var u :| HasRoutes(net, s, route.destination, u, 0) || HasRoutes(net, s, route.destination, u, 1);
      assert u in TablesOf(net, s);
    }
    if HasRoute(owners[s].routes, route.destination) {
      assert HasRoutes(now, s, route.destination, t, 1);
    } else {
      var net' := WithRoute(now, t, route);
      RoutedKeepsOthers(now, s, t, route);
      OneMore(now.routes[t], route);
      assert HasRoutes(net', s, route.destination, t, 1);
      OthersStayServed(before, s, route.destination, now, net');
      OthersKeepRoutes(net, before, s, now, net');
    }
  }

  // A fault-free pass over generated specifications serves every subnet it selects, and changes the
  // state of no other subnet.
  lemma {:induction false} GeneratedPassServes(net: Net, owners: Owners, specs: seq<TableSpec>, destination: string,
                                               byRole: bool)
    requires Own(owners, net) && Generated(specs, destination)
    requires Ready(net, AllSelected(specs, false), destination)
    ensures ServedSoFar(net, AllSelected(specs, byRole), destination, TableSteps(net, owners, specs, byRole))
    ensures TableSteps(net, owners, specs, byRole).next == net.next + Creations(owners, specs, byRole)
  {
    TablesExtend(net, owners, specs, byRole);
    if specs != [] {
      var front, last := specs[..|specs| - 1], specs[|specs| - 1];
      var s := SubnetOf(last);
      SelectedOne(last, destination, false);
      DistinctParts(AllSelected(front, false), [s]);
      assert s in [s] && s in AllSelected(specs, false);
      GeneratedPassServes(net, owners, front, destination, byRole);
      ChosenAreAmong(front, destination, byRole);
      NextIsServed(net, owners, AllSelected(front, byRole), last, destination, byRole,
                   TableSteps(net, owners, front, byRole));
    }
  }

  lemma {:induction false} ChosenAreAmong(specs: seq<TableSpec>, destination: string, byRole: bool)
    requires forall spec <- specs :: OneEach(spec, destination)
    ensures forall s <- AllSelected(specs, byRole) :: s in AllSelected(specs, false)
  {
    if specs != [] {
      var front, last := specs[..|specs| - 1], specs[|specs| - 1];
      assert specs == front + [last];
      ChosenAreAmong(front, destination, byRole);
      SelectedOne(last, destination, byRole);
      SelectedOne(last, destination, false);
    }
  }

  // When every subnet is served, a pass changes nothing.
  lemma {:induction false} ServedPassIsNoOp(net: Net, owners: Owners, specs: seq<TableSpec>, destination: string,
                                            byRole: bool)
    requires Own(owners, net) && Functional(net) && !HasRoute(net.local, destination)
    requires forall spec <- specs :: OneEach(spec, destination) && Served(net, SubnetOf(spec), destination)
    ensures TableSteps(net, owners, specs, byRole) == net
  {
    if specs != [] {
      var spec := specs[|specs| - 1];
      ServedPassIsNoOp(net, owners, specs[..|specs| - 1], destination, byRole);
      StepIs(net, owners, spec, destination, byRole);
      var t :| HasRoutes(net, SubnetOf(spec), destination, t, 1);
      NotLinkedExactly(net, SubnetOf(spec));
      OwnedExactly(owners, net, SubnetOf(spec));
      TableOfLinked(owners, net, SubnetOf(spec));
      assert t in TablesOf(net, SubnetOf(spec));
      CountZero(net.routes[t], destination);
    }
  }

  lemma {:induction false} SubnetsSelected(specs: seq<TableSpec>, destination: string)
    requires forall spec <- specs :: OneEach(spec, destination)
    ensures forall spec <- specs :: SubnetOf(spec) in AllSelected(specs, false)
  {
    if specs != [] {
      var front, last := specs[..|specs| - 1], specs[|specs| - 1];
      assert specs == front + [last];
      SubnetsSelected(front, destination);
      SelectedOne(last, destination, false);
    }
  }

  // ---- Interrupted passes ----

  // What has been served and what has not is again a possible start.
  lemma SoFarIsReady(net: Net, chosen: seq<Id>, subnets: seq<Id>, destination: string, now: Net)
    requires Ready(net, subnets, destination) && ServedSoFar(net, chosen, destination, now)
    ensures Ready(now, subnets, destination)
  {
    forall s <- subnets | Linked(now, s)
      ensures Begun(now, s, destination)
    {
      if s in chosen {
        var t :| HasRoutes(now, s, destination, t, 1);
      } else {
        NotLinkedExactly(now, s);
        NotLinkedExactly(net, s);
        var t :| HasRoutes(net, s, destination, t, 0) || HasRoutes(net, s, destination, t, 1);
        assert t in TablesOf(net, s) && SameRoutes(net, now, t);
        assert HasRoutes(now, s, destination, t, 0) || HasRoutes(now, s, destination, t, 1);
      }
    }
  }

  // A table left without a link changes nothing for the subnets.
  lemma OrphanIsReady(net: Net, subnets: seq<Id>, destination: string)
    requires Ready(net, subnets, destination)
    ensures Ready(WithTable(net), subnets, destination)
  {
    var now := WithTable(net);
    forall s <- subnets | Linked(now, s)
      ensures Begun(now, s, destination)
    {
      assert TablesOf(now, s) == TablesOf(net, s);
      assert Linked(net, s);
      var t :| HasRoutes(net, s, destination, t, 0) || HasRoutes(net, s, destination, t, 1);
      assert HasRoutes(now, s, destination, t, 0) || HasRoutes(now, s, destination, t, 1);
    }
  }

  lemma AttachedIsReady(net: Net, subnets: seq<Id>, destination: string, s: Id)
    requires Ready(net, subnets, destination) && !Linked(net, s)
    ensures Ready(Attached(net, s), subnets, destination)
  {
    var now := Attached(net, s);
    AttachedKeepsOthers(net, s);
    CountZero(net.local, destination);
    forall other <- subnets | Linked(now, other)
      ensures Begun(now, other, destination)
    {
      if other == s {
        assert HasRoutes(now, s, destination, net.next, 0);
      } else {
        NotLinkedExactly(now, other);
        NotLinkedExactly(net, other);
        var t :| HasRoutes(net, other, destination, t, 0) || HasRoutes(net, other, destination, t, 1);
        assert SameRoutes(net, now, t);
        assert HasRoutes(now, other, destination, t, 0) || HasRoutes(now, other, destination, t, 1);
      }
    }
  }

  // Where a pass may stop within one specification.
  lemma SpecStops(mid: Net, owners: Owners, spec: TableSpec, destination: string, byRole: bool, net': Net)
    requires OneEach(spec, destination) && SpecStopped(mid, owners, spec, byRole, net')
    ensures var s := SubnetOf(spec);
            || net' == mid || net' == TableStep(mid, owners, spec, byRole)
            || (s !in owners && (net' == WithTable(mid) || net' == Attached(mid, s)))
  {
    assert spec.targets[..0] == [] && spec.targets[..1] == spec.targets;
    assert spec.routes[..0] == [] && spec.routes[..1] == spec.routes;
    assert TargetSteps(mid, owners, [], byRole) == Progress(mid, None);
    var p := TargetSteps(mid, owners, spec.targets, byRole);
    assert p == TargetStep(Progress(mid, None), owners, spec.targets[0], byRole);
    if TargetsStopped(mid, owners, spec.targets, byRole, net') {
      var j: nat :| j <= 1 && StoppedAfter(mid, owners, spec.targets, byRole, j, net');
      assert spec.targets[..j] == [] || spec.targets[..j] == spec.targets;
    } else {
      var j: nat :| j <= 1 && net' == RouteSteps(p.net, p.table.value, spec.routes[..j]);
      assert spec.routes[..j] == [] || spec.routes[..j] == spec.routes;
    }
  }

  // An interrupted pass leaves a possible start.
  lemma InterruptedPassIsReady(net: Net, owners: Owners, specs: seq<TableSpec>, destination: string, byRole: bool,
                               net': Net)
    requires Own(owners, net) && Generated(specs, destination)
    requires Ready(net, AllSelected(specs, false), destination) && Stopped(net, owners, specs, byRole, net')
    ensures Ready(net', AllSelected(specs, false), destination)
  {
    var i: nat :| i < |specs| &&
      SpecStopped(TableSteps(net, owners, specs[..i], byRole), owners, specs[i], byRole, net');
    var front, spec, all := specs[..i], specs[i], AllSelected(specs, false);
    var mid, s := TableSteps(net, owners, front, byRole), SubnetOf(spec);
    GeneratedPrefix(specs, destination, i);
    GeneratedPassServes(net, owners, front, destination, byRole);
    ChosenAreAmong(front, destination, byRole);
    SoFarIsReady(net, AllSelected(front, byRole), all, destination, mid);
    SpecStops(mid, owners, spec, destination, byRole, net');
    if net' == TableStep(mid, owners, spec, byRole) {
      NextIsServed(net, owners, AllSelected(front, byRole), spec, destination, byRole, mid);
      SoFarIsReady(net, AllSelected(front, byRole) + Selected(spec.targets, byRole), all, destination, net');
    } else if s !in owners {
      OwnedExactly(owners, net, s);
      NotLinkedExactly(net, s);
      NotLinkedExactly(mid, s);
      OrphanIsReady(mid, all, destination);
      AttachedIsReady(mid, all, destination, s);
    }
  }

  lemma {:induction false} GeneratedPrefix(specs: seq<TableSpec>, destination: string, i: nat)
    requires Generated(specs, destination) && i < |specs|
    ensures Generated(specs[..i], destination) && SubnetOf(specs[i]) !in AllSelected(specs[..i], false)
    ensures SubnetOf(specs[i]) in AllSelected(specs, false)
    ensures forall s <- AllSelected(specs[..i], false) :: s in AllSelected(specs, false)
  {
    var n := |specs| - 1;
    LastIsNew(specs, destination);
    SelectedOne(specs[n], destination, false);
    if i < n {
      assert specs[..n][..i] == specs[..i];
      GeneratedPrefix(specs[..n], destination, i);
    }
  }

  // One pass over generated specifications, from the links read at its start.
  ghost predicate PassFrom(net: Net, specs: seq<TableSpec>, byRole: bool, ok: bool, net': Net) {
    exists owners :: Own(owners, net)
      && if ok then net' == TableSteps(net, owners, specs, byRole) else Stopped(net, owners, specs, byRole, net')
  }

  // Any number of passes of either kind, complete or not, then a complete one over all subnets: each
  // subnet is served.
  lemma {:induction false} InterruptionsHeal(nets: seq<Net>, specs: seq<TableSpec>, destination: string,
                                             byRoles: seq<bool>, oks: seq<bool>)
    requires |nets| == |byRoles| + 1 == |oks| + 1 && Generated(specs, destination)
    requires Ready(nets[0], AllSelected(specs, false), destination)
    requires forall i :: 0 <= i < |oks| ==> PassFrom(nets[i], specs, byRoles[i], oks[i], nets[i + 1])
    ensures Ready(nets[|oks|], AllSelected(specs, false), destination)
    ensures oks != [] && oks[|oks| - 1] && !byRoles[|oks| - 1] ==>
              forall s <- AllSelected(specs, false) :: Served(nets[|oks|], s, destination)
  {
    if oks != [] {
      var n := |oks| - 1;
      var net, net' := nets[n], nets[n + 1];
      InterruptionsHeal(nets[..n + 1], specs, destination, byRoles[..n], oks[..n]);
      assert PassFrom(nets[n], specs, byRoles[n], oks[n], nets[n + 1]);
      var owners :| Own(owners, net)
        && if oks[n] then net' == TableSteps(net, owners, specs, byRoles[n])
           else Stopped(net, owners, specs, byRoles[n], net');
      if oks[n] {
        GeneratedPassServes(net, owners, specs, destination, byRoles[n]);
        SoFarIsReady(net, AllSelected(specs, byRoles[n]), AllSelected(specs, false), destination, net');
      } else {
        InterruptedPassIsReady(net, owners, specs, destination, byRoles[n], net');
      }
    }
  }

  // ---- Both passes of a reconciliation ----

  // What a reconciliation does with generated specifications: a pass over the subnets of the NAT role, then
  // a pass over all of them. Each subnet ends with one table of its own and one default route, and any later
  // pass, of either kind, changes nothing.
  lemma GeneratedReconciliation(net: Net, specs: seq<TableSpec>, destination: string,
                                first: Owners, second: Owners, third: Owners)
    requires Generated(specs, destination) && Ready(net, AllSelected(specs, false), destination)
    requires Own(first, net)
    requires Own(second, TableSteps(net, first, specs, true))
    requires Own(third, TableSteps(TableSteps(net, first, specs, true), second, specs, false))
    ensures var net' := TableSteps(TableSteps(net, first, specs, true), second, specs, false);
            && OneToOne(net')
            && (forall s <- AllSelected(specs, false) :: Served(net', s, destination))
            && TableSteps(net', third, specs, true) == net' == TableSteps(net', third, specs, false)
            && net'.next == net.next + Creations(first, specs, false)
  {
    var all, mid := AllSelected(specs, false), TableSteps(net, first, specs, true);
    var net' := TableSteps(mid, second, specs, false);
    GeneratedPassServes(net, first, specs, destination, true);
    SoFarIsReady(net, AllSelected(specs, true), all, destination, mid);
    GeneratedPassServes(mid, second, specs, destination, false);
    SubnetsSelected(specs, destination);
    ServedPassIsNoOp(net', third, specs, destination, true);
    ServedPassIsNoOp(net', third, specs, destination, false);
    forall spec <- specs
      ensures SubnetOf(spec) in second <==> SubnetOf(spec) in first || HasRoleOf(spec)
    {
      var s := SubnetOf(spec);
      OwnedExactly(first, net, s);
      OwnedExactly(second, mid, s);
      NotLinkedExactly(net, s);
      NotLinkedExactly(mid, s);
      ChosenExactly(specs, destination, spec);
      if s in AllSelected(specs, true) {
        var t :| HasRoutes(mid, s, destination, t, 1);
        assert t in TablesOf(mid, s);
      }
    }
    CreationsAddUp(specs, destination, first, second);
  }

  lemma {:induction false} ChosenExactly(specs: seq<TableSpec>, destination: string, spec: TableSpec)
    requires Generated(specs, destination) && spec in specs
    ensures SubnetOf(spec) in AllSelected(specs, true) <==> HasRoleOf(spec)
  {
    var front, last := specs[..|specs| - 1], specs[|specs| - 1];
    LastIsNew(specs, destination);
    SelectedOne(last, destination, true);
    if spec in front {
      ChosenExactly(front, destination, spec);
      assert SubnetOf(spec) != SubnetOf(last);
    } else {
      assert specs == front + [last];
      assert spec == last;
    }
  }

  // The subnet of the last specification is not selected by those before it, nor any of theirs by it.
  lemma LastIsNew(specs: seq<TableSpec>, destination: string)
    requires Generated(specs, destination) && specs != []
    ensures var front, last := specs[..|specs| - 1], specs[|specs| - 1];
            && Generated(front, destination)
            && SubnetOf(last) !in AllSelected(front, false) && SubnetOf(last) !in AllSelected(front, true)
            && forall spec <- front :: SubnetOf(spec) != SubnetOf(last)
  {
    var front, last := specs[..|specs| - 1], specs[|specs| - 1];
    SelectedOne(last, destination, false);
    DistinctParts(AllSelected(front, false), [SubnetOf(last)]);
    assert SubnetOf(last) in [SubnetOf(last)];
    ChosenAreAmong(front, destination, true);
    SubnetsSelected(front, destination);
  }

  lemma {:induction false} CreationsAddUp(specs: seq<TableSpec>, destination: string, first: Owners, second: Owners)
    requires forall spec <- specs :: OneEach(spec, destination)
    requires forall spec <- specs :: SubnetOf(spec) in second <==> SubnetOf(spec) in first || HasRoleOf(spec)
    ensures Creations(first, specs, true) + Creations(second, specs, false) == Creations(first, specs, false)
  {
    if specs != [] {
      var last := specs[|specs| - 1];
      CreationsAddUp(specs[..|specs| - 1], destination, first, second);
      SelectedOne(last, destination, true);
      SelectedOne(last, destination, false);
      assert last in specs;
    }
  }
}
