// The routes to a net peering: the pass that adds them to the route tables of both nets and the pass
// that deletes them.
module NetPeeringRoutes {
  import opened Options
  import opened Faults
  import opened Collections

  type Id = string

  // peering is empty for a route to anything else than a net peering.
  datatype Route = Route(destination: string, peering: string)

  type Routes = seq<Route>

  predicate HasPeering(routes: Routes, np: string) {
    exists r <- routes :: r.peering == np
  }

  predicate Free(routes: Routes, destination: string) {
    forall r <- routes :: r.destination != destination
  }

  // A route table has one route per destination.
  ghost predicate OnePerDestination(routes: Routes) {
    forall i, j :: 0 <= i < j < |routes| ==> routes[i].destination != routes[j].destination
  }

  // The routes that do not go to the peering, in order.
  function Foreign(routes: Routes, np: string): Routes {
    if routes == [] then []
    else
      var init, last := routes[..|routes| - 1], routes[|routes| - 1];
      if last.peering == np then Foreign(init, np) else Foreign(init, np) + [last]
  }

  function PeeringCount(routes: Routes, np: string): nat {
    if routes == [] then 0
    else PeeringCount(routes[..|routes| - 1], np) + if routes[|routes| - 1].peering == np then 1 else 0
  }

  // The routes to other destinations, in order.
  function Drop(routes: Routes, destination: string): Routes {
    if routes == [] then []
    else
      var init, last := routes[..|routes| - 1], routes[|routes| - 1];
      if last.destination == destination then Drop(init, destination) else Drop(init, destination) + [last]
  }

  lemma {:induction false} ForeignOfNone(routes: Routes, np: string)
    requires !HasPeering(routes, np)
    ensures Foreign(routes, np) == routes && PeeringCount(routes, np) == 0
  {
    if routes != [] {
      var n := |routes| - 1;
      assert routes == routes[..n] + [routes[n]];
      ForeignOfNone(routes[..n], np);
    }
  }

  lemma {:induction false} CountIsPositive(routes: Routes, np: string)
    ensures HasPeering(routes, np) <==> PeeringCount(routes, np) > 0
  {
    if routes != [] {
      var n := |routes| - 1;
      assert routes == routes[..n] + [routes[n]];
      CountIsPositive(routes[..n], np);
    }
  }

  lemma Appended(routes: Routes, r: Route, np: string)
    ensures Foreign(routes + [r], np) == if r.peering == np then Foreign(routes, np) else Foreign(routes, np) + [r]
    ensures PeeringCount(routes + [r], np) == PeeringCount(routes, np) + if r.peering == np then 1 else 0
  {
    assert (routes + [r])[..|routes|] == routes;
  }

  lemma {:induction false} DropOfFree(routes: Routes, destination: string)
    requires Free(routes, destination)
    ensures Drop(routes, destination) == routes
  {
    if routes != [] {
      var n := |routes| - 1;
      assert routes == routes[..n] + [routes[n]];
      DropOfFree(routes[..n], destination);
    }
  }

  lemma DropAppended(routes: Routes, r: Route, destination: string)
    ensures Drop(routes + [r], destination)
            == if r.destination == destination then Drop(routes, destination) else Drop(routes, destination) + [r]
  {
    assert (routes + [r])[..|routes|] == routes;
  }

  lemma {:induction false} ForeignMeaning(routes: Routes, np: string)
    ensures forall r :: r in Foreign(routes, np) <==> r in routes && r.peering != np
    ensures OnePerDestination(routes) ==> OnePerDestination(Foreign(routes, np))
  {
    if routes != [] {
      var n := |routes| - 1;
      assert routes == routes[..n] + [routes[n]];
      ForeignMeaning(routes[..n], np);
    }
  }

  lemma ForeignTwice(routes: Routes, np: string)
    ensures Foreign(Foreign(routes, np), np) == Foreign(routes, np) && PeeringCount(Foreign(routes, np), np) == 0
  {
    ForeignMeaning(routes, np);
    ForeignOfNone(Foreign(routes, np), np);
  }

  lemma {:induction false} ForeignConcat(a: Routes, b: Routes, np: string)
    ensures Foreign(a + b, np) == Foreign(a, np) + Foreign(b, np)
    ensures PeeringCount(a + b, np) == PeeringCount(a, np) + PeeringCount(b, np)
  {
    if b == [] {
      assert a + b == a;
    } else {
      var n := |b| - 1;
      assert a + b == (a + b[..n]) + [b[n]] && b == b[..n] + [b[n]];
      ForeignConcat(a, b[..n], np);
      Appended(a + b[..n], b[n], np);
    }
  }

  lemma {:induction false} DropConcat(a: Routes, b: Routes, destination: string)
    ensures Drop(a + b, destination) == Drop(a, destination) + Drop(b, destination)
  {
    if b == [] {
      assert a + b == a;
    } else {
      var n := |b| - 1;
      assert a + b == (a + b[..n]) + [b[n]] && b == b[..n] + [b[n]];
      DropConcat(a, b[..n], destination);
      DropAppended(a + b[..n], b[n], destination);
    }
  }

  // The table once the routes to the peering among its first j have been deleted, one by one.
  function PartDone(routes: Routes, j: nat, np: string): Routes
    requires j <= |routes|
  {
    if j == 0 then routes
    else if routes[j - 1].peering == np then Drop(PartDone(routes, j - 1, np), routes[j - 1].destination)
    else PartDone(routes, j - 1, np)
  }

  // Deleting by destination a route to the peering touches no other route.
  lemma {:induction false} PartDoneIs(routes: Routes, j: nat, np: string)
    requires OnePerDestination(routes) && j <= |routes|
    ensures PartDone(routes, j, np) == Foreign(routes[..j], np) + routes[j..]
  {
    if j > 0 {
      PartDoneIs(routes, j - 1, np);
      FreeAround(routes, j - 1, np);
      OneDone(routes[..j - 1], routes[j - 1], routes[j..], np);
      assert routes[..j] == routes[..j - 1] + [routes[j - 1]];
      assert routes[j - 1..] == [routes[j - 1]] + routes[j..];
    }
  }

  // Dealing with the route r between front and rest.
  lemma OneDone(front: Routes, r: Route, rest: Routes, np: string)
    requires Free(Foreign(front, np), r.destination) && Free(rest, r.destination)
    ensures var now := Foreign(front, np) + ([r] + rest);
            Foreign(front + [r], np) + rest == if r.peering == np then Drop(now, r.destination) else now
  {
    Appended(front, r, np);
    if r.peering == np {
      DropMiddle(Foreign(front, np), r, rest);
    } else {
      assert Foreign(front, np) + [r] + rest == Foreign(front, np) + ([r] + rest);
    }
  }

  lemma AllDone(routes: Routes, np: string)
    requires OnePerDestination(routes)
    ensures PartDone(routes, |routes|, np) == Foreign(routes, np)
  {
    PartDoneIs(routes, |routes|, np);
    assert routes[..|routes|] == routes;
  }

  lemma FreeAround(routes: Routes, j: nat, np: string)
    requires OnePerDestination(routes) && j < |routes|
    ensures Free(Foreign(routes[..j], np), routes[j].destination) && Free(routes[j + 1..], routes[j].destination)
  {
    ForeignMeaning(routes[..j], np);
  }

  lemma DropMiddle(f: Routes, r: Route, rest: Routes)
    requires Free(f, r.destination) && Free(rest, r.destination)
    ensures Drop(f + ([r] + rest), r.destination) == f + rest
  {
    DropOfFree(f, r.destination);
    DropOfFree(rest, r.destination);
    DropConcat(f, [r] + rest, r.destination);
    DropConcat([r], rest, r.destination);
    assert Drop([r], r.destination) == [];
  }

  lemma PartDoneShrinks(routes: Routes, j: nat, np: string)
    requires OnePerDestination(routes) && j <= |routes|
    ensures Shrinks(routes, np, PartDone(routes, j, np))
  {
    var a, b := routes[..j], routes[j..];
    assert routes == a + b;
    PartDoneIs(routes, j, np);
    ForeignTwice(a, np);
    ForeignConcat(a, b, np);
    ForeignConcat(Foreign(a, np), b, np);
    PartDoneOnePer(routes, j, np);
    ForeignMeaning(a, np);
  }

  lemma PartDoneOnePer(routes: Routes, j: nat, np: string)
    requires OnePerDestination(routes) && j <= |routes|
    ensures OnePerDestination(PartDone(routes, j, np))
  {
    var a, b := routes[..j], routes[j..];
    PartDoneIs(routes, j, np);
    ForeignMeaning(a, np);
    assert forall x, y :: x in a && y in b ==> x.destination != y.destination;
  }

  // ---- Selection ----

  datatype Linked = Linked(id: Id, subnets: seq<string>)

  // The management route tables to update: all of them, or the first one linked to the management
  // subnet, if any.
  function Select(listed: seq<Linked>, managementSubnetId: string): Option<seq<Id>> {
    if managementSubnetId == "" then Some(Ids(listed)) else FirstLinked(listed, managementSubnetId)
  }

  function FirstLinked(listed: seq<Linked>, subnetId: string): (r: Option<seq<Id>>)
    ensures r.None? ==> forall t <- listed :: subnetId !in t.subnets
    ensures r.Some? ==> exists i :: IsFirst(listed, subnetId, i) && r.value == [listed[i].id]
  {
    if listed == [] then None
    else if subnetId in listed[0].subnets then
      assert IsFirst(listed, subnetId, 0);
      Some([listed[0].id])
    else
      var r := FirstLinked(listed[1..], subnetId);
      assert forall i :: IsFirst(listed[1..], subnetId, i) ==>
          IsFirst(listed, subnetId, i + 1) && listed[1..][i] == listed[i + 1];
      r
  }

  ghost predicate IsFirst(listed: seq<Linked>, subnetId: string, i: int) {
    0 <= i < |listed| && subnetId in listed[i].subnets && forall j :: 0 <= j < i ==> subnetId !in listed[j].subnets
  }

  function Ids(listed: seq<Linked>): seq<Id> {
    seq(|listed|, i requires 0 <= i < |listed| => listed[i].id)
  }

  // ---- What the passes do ----

  type Tables = map<Id, Routes>

  ghost predicate WellFormed(tables: Tables) {
    forall id <- tables :: OnePerDestination(tables[id])
  }

  // A route was added where there was none to the peering and the destination was free.
  ghost predicate Adds(routes: Routes, destination: string, np: string, routes': Routes) {
    !HasPeering(routes, np) && Free(routes, destination) && routes' == routes + [Route(destination, np)]
  }

  ghost predicate AddsTo(t: Tables, ids: seq<Id>, destination: string, np: string, t': Tables) {
    && t'.Keys == t.Keys
    && forall id <- t :: t'[id] == t[id] || (id in ids && Adds(t[id], destination, np, t'[id]))
  }

  // Only routes to the peering disappeared.
  ghost predicate Shrinks(routes: Routes, np: string, routes': Routes) {
    && OnePerDestination(routes')
    && Foreign(routes', np) == Foreign(routes, np)
    && PeeringCount(routes', np) <= PeeringCount(routes, np)
    && forall r <- routes' :: r in routes
  }

  // Only routes to the peering disappeared, and only from the tables named.
  ghost predicate DeletesFrom(t: Tables, ids: seq<Id>, np: string, t': Tables) {
    && t'.Keys == t.Keys
    && forall id <- t :: if id in ids then Shrinks(t[id], np, t'[id]) else t'[id] == t[id]
  }

  class PeeringRoutes {
    var tables: Tables
    // Whether calls may fail that the cloud would accept.
    var faulty: bool

    // The cloud refuses a destination that the table has already.
    method CreateRoute(id: Id, destination: string, np: string) returns (ok: bool)
      requires id in tables
      modifies this`tables
      ensures tables == old(tables) || tables == old(tables)[id := old(tables)[id] + [Route(destination, np)]]
      ensures ok ==> tables == old(tables)[id := old(tables)[id] + [Route(destination, np)]]
      ensures !Free(old(tables)[id], destination) ==> !ok && tables == old(tables)
      ensures !ok && Free(old(tables)[id], destination) ==> faulty
    {
      if !Free(tables[id], destination) {
        return false;
      }
      var fails := MayFail(faulty);
      var effect: bool := *;
      if !fails || effect {
        tables := tables[id := tables[id] + [Route(destination, np)]];
      }
      ok := !fails;
    }

    method DeleteRoute(destination: string, id: Id) returns (ok: bool)
      requires id in tables
      modifies this`tables
      ensures tables == old(tables) || tables == old(tables)[id := Drop(old(tables)[id], destination)]
      ensures ok ==> tables == old(tables)[id := Drop(old(tables)[id], destination)]
      ensures !ok ==> faulty
    {
      var fails := MayFail(faulty);
      var effect: bool := *;
      if !fails || effect {
        tables := tables[id := Drop(tables[id], destination)];
      }
      ok := !fails;
    }

    // The loop over the tables of one net, as listed before it.
    method AddRoutes(ids: seq<Id>, destination: string, np: string) returns (ok: bool)
      requires Distinct(ids) && forall id <- ids :: id in tables
      modifies this`tables
      ensures AddsTo(old(tables), ids, destination, np, tables)
      ensures ok ==> forall id <- ids :: HasPeering(tables[id], np)
      ensures ok ==> forall id <- ids :: Accepts(old(tables)[id], destination, np)
      ensures !ok && !faulty ==> exists id <- ids :: !Accepts(old(tables)[id], destination, np)
    {
      var listed := tables;
      for i := 0 to |ids|
        invariant AddsTo(listed, ids, destination, np, tables)
        invariant forall j :: 0 <= j < i ==> HasPeering(tables[ids[j]], np) && Accepts(listed[ids[j]], destination, np)
        invariant forall id <- tables :: id !in ids[..i] ==> tables[id] == listed[id]
      {
        var id := ids[i];
        if !HasPeering(listed[id], np) {
          assert id !in ids[..i];
          ok := CreateRoute(id, destination, np);
          if !ok {
            assert !faulty ==> !Accepts(listed[id], destination, np);
            return;
          }
        }
      }
      ok := true;
    }

    // The inner loop, over the routes of one table as listed before it: done of them have been handled.
    method DeleteRoutesOf(id: Id, np: string) returns (ok: bool, ghost done: nat)
      requires id in tables
      modifies this`tables
      ensures done <= |old(tables)[id]| && tables == old(tables)[id := PartDone(old(tables)[id], done, np)]
      ensures if ok then done == |old(tables)[id]| else faulty
    {
      var routes := tables[id];
      done := 0;
      for j := 0 to |routes|
        invariant done == j
        invariant tables == old(tables)[id := PartDone(routes, j, np)]
      {
        ok, done := DeleteIfPeering(id, routes, j, np);
        if !ok {
          return;
        }
      }
      ok := true;
    }

    method DeleteIfPeering(id: Id, routes: Routes, j: nat, np: string) returns (ok: bool, ghost done: nat)
      requires j < |routes|
      requires id in tables && tables[id] == PartDone(routes, j, np)
      modifies this`tables
      ensures j <= done <= j + 1 && tables == old(tables)[id := PartDone(routes, done, np)]
      ensures if ok then done == j + 1 else faulty
    {
      ok := true;
      if routes[j].peering == np {
        ok := DeleteRoute(routes[j].destination, id);
      }
      done := if tables[id] == PartDone(routes, j + 1, np) then j + 1 else j;
    }

    method DeleteRoutes(ids: seq<Id>, np: string) returns (ok: bool)
      requires Distinct(ids) && WellFormed(tables) && forall id <- ids :: id in tables
      modifies this`tables
      ensures DeletesFrom(old(tables), ids, np, tables)
      ensures ok ==> forall id <- ids :: tables[id] == Foreign(old(tables)[id], np)
      ensures !ok ==> faulty
    {
      ghost var listed := tables;
      for i := 0 to |ids|
        invariant DeletedUpTo(listed, ids, i, np, tables)
      {
        assert ids[i] !in ids[..i];
        ghost var before := tables;
        ghost var done;
        ok, done := DeleteRoutesOf(ids[i], np);
        if !ok {
          PartDoneShrinks(listed[ids[i]], done, np);
          DeletedSome(listed, ids, i, np, before, tables);
          return;
        }
        AllDone(listed[ids[i]], np);
        DeletedNext(listed, ids, i, np, before, tables);
      }
      DeletedAll(listed, ids, np, tables);
      assert ids[..|ids|] == ids;
      ok := true;
    }

    // The pass that adds: the management tables get a route to the workload range, the workload tables
    // one to the management range.
    method ReconcileRoutes(plan: Plan) returns (ok: bool)
      requires plan.Valid(tables)
      modifies this`tables
      ensures PassAdds(old(tables), plan, tables)
      ensures ok ==> plan.Mgmt().Some? && forall id <- plan.Targets() :: id in tables && HasPeering(tables[id], plan.np)
      ensures !faulty ==> (ok <==> plan.Mgmt().Some? && PassAccepts(old(tables), plan))
      // A table that changed gained one route: to the workload range if it is one of the management tables
      // to update, to the management range if it is a workload table.
      ensures tables.Keys == old(tables).Keys
      ensures forall id <- tables :: tables[id] != old(tables)[id] ==>
                || (exists i :: 0 <= i < |plan.listed| && plan.listed[i].id == id
                                && (|| plan.managementSubnetId == ""
                                    || plan.managementSubnetId in plan.listed[i].subnets)
                                && tables[id] == old(tables)[id] + [Route(plan.workRange, plan.np)])
                || (id in plan.work && tables[id] == old(tables)[id] + [Route(plan.mgmtRange, plan.np)])
      // After a success they all have a route to the peering: every workload table, and every management
      // table or only the first one linked to the management subnet.
      ensures ok ==> forall id <- plan.work :: exists r <- tables[id] :: r.peering == plan.np
      ensures ok && plan.managementSubnetId == "" ==>
                forall t <- plan.listed :: exists r <- tables[t.id] :: r.peering == plan.np
      ensures ok && plan.managementSubnetId != "" ==>
                exists i :: && 0 <= i < |plan.listed| && plan.managementSubnetId in plan.listed[i].subnets
                            && (forall j :: 0 <= j < i ==> plan.managementSubnetId !in plan.listed[j].subnets)
                            && (exists r <- tables[plan.listed[i].id] :: r.peering == plan.np)
                            && forall k :: 0 <= k < |plan.listed| && k != i ==>
                                 tables[plan.listed[k].id] == old(tables)[plan.listed[k].id]
    {
      ok := AddPass(plan);
      if plan.Mgmt().Some? {
        PassAddsMeaning(old(tables), plan, tables);
      }
      if ok {
        PassCompletes(old(tables), plan, tables);
      }
    }

    method AddPass(plan: Plan) returns (ok: bool)
      requires plan.Valid(tables)
      modifies this`tables
      ensures PassAdds(old(tables), plan, tables)
      ensures ok ==> plan.Mgmt().Some? && forall id <- plan.Targets() :: id in tables && HasPeering(tables[id], plan.np)
      ensures !faulty ==> (ok <==> plan.Mgmt().Some? && PassAccepts(old(tables), plan))
    {
      var mgmt := Select(plan.listed, plan.managementSubnetId);
      if mgmt.None? {
        return false;
      }
      plan.MgmtIsDistinct();
      ok := AddRoutes(mgmt.value, plan.workRange, plan.np);
      if ok {
        ok := AddRoutes(plan.work, plan.mgmtRange, plan.np);
      }
    }

    method ReconcileDeleteRoutes(plan: Plan) returns (ok: bool)
      requires plan.Valid(tables) && WellFormed(tables)
      modifies this`tables
      ensures PassDeletes(old(tables), plan, tables)
      ensures ok ==> plan.Mgmt().Some?
      ensures ok ==> forall id <- plan.Targets() :: id in tables && tables[id] == Foreign(old(tables)[id], plan.np)
      ensures !faulty ==> (ok <==> plan.Mgmt().Some?)
      // After a success the workload tables, and the management tables if none is singled out, have lost
      // their routes to the peering, and no other.
      ensures tables.Keys == old(tables).Keys
      ensures ok ==> forall id <- plan.work ::
                forall r :: r in tables[id] <==> r in old(tables)[id] && r.peering != plan.np
      ensures ok && plan.managementSubnetId == "" ==>
                forall t <- plan.listed ::
                  forall r :: r in tables[t.id] <==> r in old(tables)[t.id] && r.peering != plan.np
    {
      ok := DeletePass(plan);
      if ok {
        PassDeletesMeaning(old(tables), plan, tables);
      }
    }

    method DeletePass(plan: Plan) returns (ok: bool)
      requires plan.Valid(tables) && WellFormed(tables)
      modifies this`tables
      ensures PassDeletes(old(tables), plan, tables)
      ensures ok ==> plan.Mgmt().Some?
      ensures ok ==> forall id <- plan.Targets() :: id in tables && tables[id] == Foreign(old(tables)[id], plan.np)
      ensures !faulty ==> (ok <==> plan.Mgmt().Some?)
    {
      var mgmt := Select(plan.listed, plan.managementSubnetId);
      if mgmt.None? {
        return false;
      }
      plan.MgmtIsDistinct();
      ok := DeleteRoutes(mgmt.value, plan.np);
      if ok {
        ok := DeleteRoutes(plan.work, plan.np);
      }
    }
  }

  // The first i tables have no route to the peering left, and the others are as they were.
  ghost predicate DeletedUpTo(t: Tables, ids: seq<Id>, i: nat, np: string, t': Tables)
    requires i <= |ids|
  {
    && WellFormed(t) && t'.Keys == t.Keys
    && forall id <- t :: t'[id] == if id in ids[..i] then Foreign(t[id], np) else t[id]
  }

  lemma DeletedNext(t: Tables, ids: seq<Id>, i: nat, np: string, before: Tables, t': Tables)
    requires i < |ids| && DeletedUpTo(t, ids, i, np, before)
    requires ids[i] in t && ids[i] !in ids[..i]
    requires t' == before[ids[i] := Foreign(t[ids[i]], np)]
    ensures DeletedUpTo(t, ids, i + 1, np, t')
  {
    assert ids[..i + 1] == ids[..i] + [ids[i]];
  }

  lemma DeletedAll(t: Tables, ids: seq<Id>, np: string, t': Tables)
    requires DeletedUpTo(t, ids, |ids|, np, t')
    ensures DeletesFrom(t, ids, np, t')
  {
    assert ids[..|ids|] == ids;
    forall id <- t | id in ids
      ensures Shrinks(t[id], np, t'[id])
    {
      ForeignMeaning(t[id], np);
      ForeignTwice(t[id], np);
    }
  }

  lemma DeletedSome(t: Tables, ids: seq<Id>, i: nat, np: string, before: Tables, t': Tables)
    requires i < |ids| && DeletedUpTo(t, ids, i, np, before)
    requires ids[i] in t && ids[i] !in ids[..i]
    requires t'.Keys == before.Keys && Shrinks(before[ids[i]], np, t'[ids[i]])
    requires forall id <- before :: id != ids[i] ==> t'[id] == before[id]
    ensures DeletesFrom(t, ids, np, t')
  {
    forall id <- t | id in ids
      ensures Shrinks(t[id], np, t'[id])
    {
      ForeignMeaning(t[id], np);
      ForeignTwice(t[id], np);
    }
  }

  // ---- Both nets ----

  // The tables listed for the management net, those of the workload net, and the destinations of the
  // routes to add. The nets have no table in common.
  datatype Plan = Plan(listed: seq<Linked>, managementSubnetId: string, work: seq<Id>, workRange: string,
                       mgmtRange: string, np: string)
  {
    function Mgmt(): Option<seq<Id>> { Select(listed, managementSubnetId) }

    // The tables that the passes work on.
    ghost function Targets(): set<Id> {
      if Mgmt().None? then {} else (set id <- Mgmt().value) + (set id <- work)
    }

    ghost function Destination(id: Id): string { if id in work then mgmtRange else workRange }

    ghost predicate Valid(tables: Tables) {
      && Distinct(Ids(listed)) && Distinct(work)
      && (forall i :: 0 <= i < |listed| ==> listed[i].id in tables && listed[i].id !in work)
      && (forall id <- work :: id in tables)
    }

    lemma MgmtIsDistinct()
      requires Distinct(Ids(listed)) && Mgmt().Some?
      ensures Distinct(Mgmt().value) && forall id <- Mgmt().value :: id in Ids(listed)
    {
      if managementSubnetId != "" {
        var i :| IsFirst(listed, managementSubnetId, i) && Mgmt().value == [listed[i].id];
        assert Ids(listed)[i] == listed[i].id;
      }
    }
  }

  ghost predicate PassAdds(t: Tables, plan: Plan, t': Tables) {
    && t'.Keys == t.Keys
    && forall id <- t :: t'[id] == t[id] || (id in plan.Targets() && Adds(t[id], plan.Destination(id), plan.np, t'[id]))
  }

  // A position of the listing that the passes work on.
  ghost predicate Picked(plan: Plan, i: int) {
    && 0 <= i < |plan.listed|
    && (plan.managementSubnetId == "" || IsFirst(plan.listed, plan.managementSubnetId, i))
  }

  lemma PickedExactly(plan: Plan)
    requires Distinct(Ids(plan.listed)) && plan.Mgmt().Some?
    ensures forall id :: id in plan.Mgmt().value <==> exists i :: Picked(plan, i) && plan.listed[i].id == id
    ensures plan.managementSubnetId != "" ==> exists i :: Picked(plan, i)
  {
    if plan.managementSubnetId == "" {
      assert forall i :: 0 <= i < |plan.listed| ==> Ids(plan.listed)[i] == plan.listed[i].id && Picked(plan, i);
    } else {
      var i :| IsFirst(plan.listed, plan.managementSubnetId, i) && plan.Mgmt().value == [plan.listed[i].id];
      assert Picked(plan, i);
    }
  }

  lemma PassAddsMeaning(t: Tables, plan: Plan, t': Tables)
    requires plan.Valid(t) && PassAdds(t, plan, t') && plan.Mgmt().Some?
    ensures forall id <- t' :: t'[id] != t[id] ==>
              (exists i ::
                 Picked(plan, i) && plan.listed[i].id == id && t'[id] == t[id] + [Route(plan.workRange, plan.np)])
              || (id in plan.work && t'[id] == t[id] + [Route(plan.mgmtRange, plan.np)])
  {
    PickedExactly(plan);
    forall id <- t' | t'[id] != t[id] && id !in plan.work
      ensures exists i :: Picked(plan, i) && plan.listed[i].id == id
    {
      assert id in plan.Mgmt().value;
    }
  }

  lemma PassCompletes(t: Tables, plan: Plan, t': Tables)
    requires plan.Valid(t) && PassAdds(t, plan, t') && plan.Mgmt().Some?
    requires forall id <- plan.Targets() :: id in t' && HasPeering(t'[id], plan.np)
    ensures forall i :: Picked(plan, i) ==> exists r <- t'[plan.listed[i].id] :: r.peering == plan.np
    ensures forall id <- plan.work :: exists r <- t'[id] :: r.peering == plan.np
    ensures forall k :: 0 <= k < |plan.listed| && !Picked(plan, k) ==> t'[plan.listed[k].id] == t[plan.listed[k].id]
    ensures plan.managementSubnetId != "" ==> exists i :: Picked(plan, i)
    ensures plan.managementSubnetId == "" ==>
              forall l <- plan.listed :: exists r <- t'[l.id] :: r.peering == plan.np
  {
    PickedExactly(plan);
    forall i | Picked(plan, i)
      ensures exists r <- t'[plan.listed[i].id] :: r.peering == plan.np
    {
      assert plan.listed[i].id in plan.Targets();
    }
    if plan.managementSubnetId == "" {
      forall l <- plan.listed
        ensures exists r <- t'[l.id] :: r.peering == plan.np
      {
        var i :| 0 <= i < |plan.listed| && plan.listed[i] == l;
        assert Picked(plan, i);
      }
    }
    forall k | 0 <= k < |plan.listed| && !Picked(plan, k)
      ensures t'[plan.listed[k].id] == t[plan.listed[k].id]
    {
      var id := plan.listed[k].id;
      assert Ids(plan.listed)[k] == id && id !in plan.work;
      forall i | 0 <= i < |plan.listed| && i != k
        ensures plan.listed[i].id != id
      {
        assert Ids(plan.listed)[i] == plan.listed[i].id;
        if i < k { assert Ids(plan.listed)[i] != Ids(plan.listed)[k]; }
      }
      assert id !in plan.Targets();
    }
  }

  lemma PassDeletesMeaning(t: Tables, plan: Plan, t': Tables)
    requires plan.Valid(t) && PassDeletes(t, plan, t') && plan.Mgmt().Some?
    requires forall id <- plan.Targets() :: id in t' && t'[id] == Foreign(t[id], plan.np)
    ensures forall id <- plan.work :: forall r :: r in t'[id] <==> r in t[id] && r.peering != plan.np
    ensures forall i :: Picked(plan, i) ==>
              forall r :: r in t'[plan.listed[i].id] <==> r in t[plan.listed[i].id] && r.peering != plan.np
    ensures plan.managementSubnetId == "" ==>
              forall l <- plan.listed :: forall r :: r in t'[l.id] <==> r in t[l.id] && r.peering != plan.np
  {
    PickedExactly(plan);
    assert plan.managementSubnetId == "" ==> forall i :: 0 <= i < |plan.listed| ==> Picked(plan, i);
    forall id <- plan.Targets()
      ensures forall r :: r in t'[id] <==> r in t[id] && r.peering != plan.np
    {
      ForeignMeaning(t[id], plan.np);
    }
    forall i | Picked(plan, i)
      ensures plan.listed[i].id in plan.Targets()
    {
    }
  }

  ghost predicate PassDeletes(t: Tables, plan: Plan, t': Tables) {
    && t'.Keys == t.Keys
    && forall id <- t :: if id in plan.Targets() then Shrinks(t[id], plan.np, t'[id]) else t'[id] == t[id]
  }

  ghost predicate PassAccepts(t: Tables, plan: Plan)
    requires plan.Valid(t)
  {
    forall id <- plan.Targets() :: id in t && Accepts(t[id], plan.Destination(id), plan.np)
  }

  // The table has a route to the peering, or room for one.
  predicate Accepts(routes: Routes, destination: string, np: string) {
    HasPeering(routes, np) || Free(routes, destination)
  }

  // ---- Runs ----

  // A table that was t0 before any pass, now: its routes to anything else are as they were.
  ghost predicate Kept(t0: Routes, np: string, now: Routes) {
    && OnePerDestination(now)
    && Foreign(now, np) == Foreign(t0, np)
    && (PeeringCount(now, np) <= PeeringCount(t0, np) || PeeringCount(now, np) <= 1)
  }

  lemma AddsKeeps(t0: Routes, np: string, now: Routes, destination: string, next: Routes)
    requires Kept(t0, np, now) && Adds(now, destination, np, next)
    ensures Kept(t0, np, next)
  {
    Appended(now, Route(destination, np), np);
    CountIsPositive(now, np);
  }

  // All tables: those that no plan targets did not change.
  ghost predicate AllKept(t0: Tables, targets: set<Id>, np: string, t: Tables) {
    && t.Keys == t0.Keys
    && (forall id <- t0 :: Kept(t0[id], np, t[id]))
    && (forall id <- t0 :: id !in targets ==> t[id] == t0[id])
  }

  // A run of passes that add and passes that delete, each successful or failed midway, for plans that
  // may differ but target only tables of targets.
  ghost predicate Run(states: seq<Tables>, plans: seq<Plan>, targets: set<Id>, np: string) {
    && |states| == |plans| + 1
    && forall i :: 0 <= i < |plans| ==>
         && plans[i].np == np && plans[i].Targets() <= targets
         && (PassAdds(states[i], plans[i], states[i + 1]) || PassDeletes(states[i], plans[i], states[i + 1]))
  }

  lemma PassKeeps(t0: Tables, targets: set<Id>, t: Tables, plan: Plan, t': Tables)
    requires AllKept(t0, targets, plan.np, t) && plan.Targets() <= targets
    requires PassAdds(t, plan, t') || PassDeletes(t, plan, t')
    ensures AllKept(t0, targets, plan.np, t')
  {
    forall id <- t0
      ensures Kept(t0[id], plan.np, t'[id])
    {
      if t'[id] != t[id] && PassAdds(t, plan, t') {
        AddsKeeps(t0[id], plan.np, t[id], plan.Destination(id), t'[id]);
      }
    }
  }

  lemma {:induction false} RunKeeps(states: seq<Tables>, plans: seq<Plan>, targets: set<Id>, np: string)
    requires Run(states, plans, targets, np) && WellFormed(states[0])
    ensures AllKept(states[0], targets, np, states[|plans|])
  {
    if plans != [] {
      var n := |plans| - 1;
      RunKeeps(states[..n + 1], plans[..n], targets, np);
      PassKeeps(states[0], targets, states[n], plans[n], states[n + 1]);
    }
  }

  // After any run from tables without a route to the peering, a pass that adds and succeeds gives each
  // of its tables exactly one, and leaves every other route in place.
  lemma AddGivesExactlyOne(states: seq<Tables>, plans: seq<Plan>, targets: set<Id>, plan: Plan, end: Tables)
    requires Run(states, plans, targets, plan.np) && WellFormed(states[0]) && plan.Targets() <= targets
    requires forall id <- states[0] :: !HasPeering(states[0][id], plan.np)
    requires PassAdds(states[|plans|], plan, end)
    requires forall id <- plan.Targets() :: id in end && HasPeering(end[id], plan.np)
    ensures forall id <- plan.Targets() :: PeeringCount(end[id], plan.np) == 1
    ensures end.Keys == states[0].Keys && forall id <- end :: Foreign(end[id], plan.np) == states[0][id]
  {
    RunKeeps(states, plans, targets, plan.np);
    PassKeeps(states[0], targets, states[|plans|], plan, end);
    forall id <- end
      ensures Foreign(end[id], plan.np) == states[0][id]
      ensures id in plan.Targets() ==> PeeringCount(end[id], plan.np) == 1
    {
      ForeignOfNone(states[0][id], plan.np);
      CountIsPositive(end[id], plan.np);
    }
  }

  // The routes to the peering of each table, in a run of one plan, are to the range of the other net.
  ghost predicate Crossed(plan: Plan, t: Tables) {
    forall id <- t :: forall r <- t[id] :: r.peering == plan.np ==>
      if id in plan.work then r == Route(plan.mgmtRange, plan.np) else r == Route(plan.workRange, plan.np)
  }

  lemma {:induction false} RunCrosses(states: seq<Tables>, plan: Plan, n: nat)
    requires |states| == n + 1 && Crossed(plan, states[0])
    requires forall i :: 0 <= i < n ==>
               PassAdds(states[i], plan, states[i + 1]) || PassDeletes(states[i], plan, states[i + 1])
    ensures Crossed(plan, states[n])
  {
    if n > 0 {
      RunCrosses(states[..n], plan, n - 1);
      assert PassAdds(states[n - 1], plan, states[n - 1 + 1]) || PassDeletes(states[n - 1], plan, states[n - 1 + 1]);
      PassCrosses(states[n - 1], plan, states[n]);
    }
  }

  lemma PassCrosses(t: Tables, plan: Plan, t': Tables)
    requires Crossed(plan, t) && (PassAdds(t, plan, t') || PassDeletes(t, plan, t'))
    ensures Crossed(plan, t')
  {
    forall id <- t', r <- t'[id] | r.peering == plan.np
      ensures if id in plan.work then r == Route(plan.mgmtRange, plan.np) else r == Route(plan.workRange, plan.np)
    {
      if r !in t[id] {
        assert Adds(t[id], plan.Destination(id), plan.np, t'[id]);
      }
    }
  }

  // Over runs of one plan, from tables without a route to the peering: after a pass that adds and succeeds,
  // each management table that it works on has one route to the peering, to the workload range, and each
  // workload table has one, to the management range.
  lemma AddRoutesToTheOtherNet(states: seq<Tables>, plan: Plan, n: nat, end: Tables)
    requires |states| == n + 1 && plan.Valid(states[0]) && WellFormed(states[0]) && plan.Mgmt().Some?
    requires forall i :: 0 <= i < n ==>
               PassAdds(states[i], plan, states[i + 1]) || PassDeletes(states[i], plan, states[i + 1])
    requires forall id <- states[0] :: forall r <- states[0][id] :: r.peering != plan.np
    requires PassAdds(states[n], plan, end)
    requires forall id <- plan.Targets() :: id in end && HasPeering(end[id], plan.np)
    ensures forall id <- plan.work ::
              forall r <- end[id] :: r.peering == plan.np ==> r == Route(plan.mgmtRange, plan.np)
    ensures forall id <- plan.work :: Route(plan.mgmtRange, plan.np) in end[id] && PeeringCount(end[id], plan.np) == 1
    ensures forall id <- plan.Mgmt().value :: id in end && Route(plan.workRange, plan.np) in end[id]
    ensures forall id <- plan.Mgmt().value :: PeeringCount(end[id], plan.np) == 1
  {
    var plans := seq(n, i => plan);
    assert Run(states, plans, plan.Targets(), plan.np);
    AddGivesExactlyOne(states, plans, plan.Targets(), plan, end);
    RunCrosses(states, plan, n);
    PassCrosses(states[n], plan, end);
    plan.MgmtIsDistinct();
    forall id <- plan.Targets()
      ensures (if id in plan.work then Route(plan.mgmtRange, plan.np) else Route(plan.workRange, plan.np)) in end[id]
    {
      var r :| r in end[id] && r.peering == plan.np;
    }
  }

  // Adding again changes nothing.
  lemma AddAgainIsNoOp(t: Tables, plan: Plan, t': Tables)
    requires PassAdds(t, plan, t')
    requires forall id <- plan.Targets() :: id in t && HasPeering(t[id], plan.np)
    ensures t' == t
  {
    assert forall id <- t :: t'[id] == t[id];
  }

  // After any run over the tables of a plan, a pass that deletes and succeeds leaves of each table what
  // it was before the run without its routes to the peering: all tables are restored exactly when none
  // of those had such a route before the run.
  lemma DeleteRestoresExactly(states: seq<Tables>, plans: seq<Plan>, plan: Plan, end: Tables)
    requires Run(states, plans, plan.Targets(), plan.np) && WellFormed(states[0]) && plan.Targets() <= states[0].Keys
    requires PassDeletes(states[|plans|], plan, end)
    requires forall id <- plan.Targets() ::
               id in states[|plans|] && id in end && end[id] == Foreign(states[|plans|][id], plan.np)
    ensures end == states[0] <==> forall id <- plan.Targets() :: !HasPeering(states[0][id], plan.np)
    ensures forall id <- end :: id in states[0] &&
              end[id] == if id in plan.Targets() then Foreign(states[0][id], plan.np) else states[0][id]
  {
    var t0 := states[0];
    RunKeeps(states, plans, plan.Targets(), plan.np);
    forall id <- plan.Targets()
      ensures Foreign(t0[id], plan.np) == t0[id] <==> !HasPeering(t0[id], plan.np)
    {
      ForeignMeaning(t0[id], plan.np);
      if !HasPeering(t0[id], plan.np) {
        ForeignOfNone(t0[id], plan.np);
      }
    }
  }
}
