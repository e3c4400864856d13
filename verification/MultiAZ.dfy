// The allocator that spreads the machines of a deployment over subregions. It caches, per deployment,
// the list of its workers and, per worker, the subregion assigned. Calls run under one mutex, so
// concurrent calls are some sequence of calls.
module MultiAZ {
  import opened WaterFilling
  import opened Collections

  datatype Name = Name(namespace: string, name: string)

  // deployment is the MachineDeployment label, "" when absent; failureDomain is "" when not recorded.
  datatype Machine = Machine(name: Name, deployment: string, controlPlane: bool, failureDomain: string)
  {
    predicate Labelled() { deployment != "" }

    predicate Worker() { Labelled() && !controlPlane }

    function Key(): Name { Name(name.namespace, deployment) }
  }

  datatype Mode = Random | LeastNodes

  datatype Error = NoSubregion | ListFailed | NoMachineFound | NoDeployment | MachineNotFound

  datatype Result = Ok(az: string) | Err(error: Error)

  // What listing the machines of a namespace returns.
  datatype Listing = Unavailable | Items(machines: seq<Machine>)

  datatype Cache = Cache(deployments: map<Name, seq<Name>>, azs: map<Name, string>)

  const EMPTY := Cache(map[], map[])

  // Reading a missing key of a Go map gives the zero value.
  function Members(deployments: map<Name, seq<Name>>, d: Name): seq<Name> {
    if d in deployments then deployments[d] else []
  }

  function AZ(azs: map<Name, string>, n: Name): string {
    if n in azs then azs[n] else ""
  }

  // Names are unique within a namespace.
  ghost predicate ListingOf(ns: string, ms: seq<Machine>) {
    && (forall m <- ms :: m.name.namespace == ns)
    && (forall i, j :: 0 <= i < j < |ms| ==> ms[i].name != ms[j].name)
  }

  // Each cached list is duplicate-free, stays in its namespace, and only names machines with an entry.
  ghost predicate Valid(c: Cache) {
    forall d :: var names := Members(c.deployments, d);
                Distinct(names) && forall n <- names :: n.namespace == d.namespace && n in c.azs
  }

  // ---- Refreshing the cache ----

  function WorkersOf(ms: seq<Machine>, d: Name): seq<Name> {
    if ms == [] then [] else
    var m := ms[|ms| - 1];
    WorkersOf(ms[..|ms| - 1], d) + if m.Worker() && m.Key() == d then [m.name] else []
  }

  ghost predicate Mentions(ms: seq<Machine>, d: Name) {
    exists m <- ms :: m.Labelled() && m.Key() == d
  }

  ghost predicate ListsWorker(ms: seq<Machine>, n: Name) {
    exists m <- ms :: m.Worker() && m.name == n
  }

  // The cache c' after a refresh of c from a listing.
  ghost predicate Refreshed(c: Cache, ms: seq<Machine>, c': Cache) {
    && (forall d :: Members(c'.deployments, d)
                    == if Mentions(ms, d) then WorkersOf(ms, d) else Members(c.deployments, d))
    && (forall n :: n in c'.azs <==> n in c.azs || ListsWorker(ms, n))
    && (forall m <- ms :: m.Worker() ==> AZ(c'.azs, m.name) == m.failureDomain)
    && (forall n :: !ListsWorker(ms, n) ==> AZ(c'.azs, n) == AZ(c.azs, n))
  }

  // ---- Allocating ----

  // How many machines of a deployment each subregion holds. The subregions are those configured
  // and those where a machine already is.
  ghost function CountsOf(names: seq<Name>, regions: seq<string>, azs: map<Name, string>): Counts {
    if names == [] then map k | k in regions :: 0
    else Bumped(CountsOf(names[..|names| - 1], regions, azs), AZ(azs, names[|names| - 1]))
  }

  function Bumped(c: Counts, az: string): Counts {
    if az == "" then c else c[az := (if az in c then c[az] else 0) + 1]
  }

  ghost function Unassigned(names: seq<Name>, azs: map<Name, string>): nat {
    if names == [] then 0
    else Unassigned(names[..|names| - 1], azs) + if AZ(azs, names[|names| - 1]) == "" then 1 else 0
  }

  // The counters once the machines of done have had their turn. A configured subregion with a blank name
  // counts the machines that took it, who remain without one.
  ghost function Tally(all: seq<Name>, done: seq<Name>, regions: seq<string>, azs: map<Name, string>): Counts {
    var c := CountsOf(all, regions, azs);
    if "" in c then c["" := Unassigned(done, azs)] else c
  }

  // azs' results from assigning, in order, a subregion to the machines of names that have none:
  // nobody else moves, and each takes a least loaded subregion.
  ghost predicate Assigned(all: seq<Name>, names: seq<Name>, regions: seq<string>,
                           azs: map<Name, string>, azs': map<Name, string>)
  {
    && Sticky(names, azs, azs')
    && (regions != [] ==> Greedy(CountsOf(all, regions, azs), Unassigned(names, azs), Tally(all, names, regions, azs')))
    && ("" !in regions && regions != [] ==> AllPlaced(names, azs'))
  }

  ghost predicate AllPlaced(names: seq<Name>, azs: map<Name, string>) {
    forall n <- names :: AZ(azs, n) != ""
  }

  // Only machines of names without a subregion may change.
  ghost predicate Sticky(names: seq<Name>, azs: map<Name, string>, azs': map<Name, string>) {
    azs'.Keys == azs.Keys && forall n <- azs :: azs[n] != "" || n !in names ==> azs'[n] == azs[n]
  }

  ghost predicate Allocation(c: Cache, m: Machine, regions: seq<string>, c': Cache, r: Result) {
    var names := Members(c.deployments, m.Key());
    if !m.Labelled() then c' == c && r == Err(NoDeployment)
    else
      && c'.deployments == c.deployments
      && if m.name !in names then
           Assigned(names, names, regions, c.azs, c'.azs) && r == Err(MachineNotFound)
         else
           exists j :: && 0 <= j < |names| && names[j] == m.name
                       && Assigned(names, names[..j + 1], regions, c.azs, c'.azs)
                       && r == Ok(AZ(c'.azs, m.name))
  }

  ghost predicate Answer(c: Cache, m: Machine, regions: seq<string>, c': Cache, r: Result) {
    if m.name !in c.azs then c' == c && r == Err(NoMachineFound)
    else if c.azs[m.name] != "" then c' == c && r == Ok(c.azs[m.name])
    else Allocation(c, m, regions, c', r)
  }

  // One call in the least-nodes mode.
  ghost predicate LeastNodesCall(c: Cache, m: Machine, regions: seq<string>, listing: Listing, c': Cache, r: Result) {
    if m.name in c.azs then Answer(c, m, regions, c', r)
    else if listing.Unavailable? then c' == c && r == Err(ListFailed)
    else exists mid :: Refreshed(c, listing.machines, mid) && Answer(mid, m, regions, c', r)
  }

  class MultiAZAllocator {
    var deployments: map<Name, seq<Name>>
    var azs: map<Name, string>

    ghost function Current(): Cache
      reads this
    {
      Cache(deployments, azs)
    }

    constructor ()
      ensures Current() == EMPTY
    {
      deployments, azs := map[], map[];
    }

    method AllocateAZ(m: Machine, mode: Mode, regions: seq<string>, listing: Listing) returns (r: Result)
      requires Valid(Current())
      requires listing.Items? ==> ListingOf(m.name.namespace, listing.machines)
      modifies this
      ensures Valid(Current())
      ensures regions == [] ==> r == Err(NoSubregion)
      ensures |regions| == 1 ==> r == Ok(regions[0])
      ensures |regions| > 1 && mode == Random ==> r.Ok? && r.az in regions
      ensures |regions| <= 1 || mode == Random ==> Current() == old(Current())
      ensures |regions| > 1 && mode == LeastNodes
              ==> LeastNodesCall(old(Current()), m, regions, listing, Current(), r)
    {
      if |regions| == 0 {
        return Err(NoSubregion);
      } else if |regions| == 1 {
        return Ok(regions[0]);
      } else if mode == Random {
        var i :| 0 <= i < |regions|;
        return Ok(regions[i]);
      } else {
        r := AllocateLeastNodeAZ(m, regions, listing);
      }
    }

    method AllocateLeastNodeAZ(m: Machine, regions: seq<string>, listing: Listing) returns (r: Result)
      requires Valid(Current())
      requires listing.Items? ==> ListingOf(m.name.namespace, listing.machines)
      modifies this
      ensures Valid(Current())
      ensures LeastNodesCall(old(Current()), m, regions, listing, Current(), r)
    {
      if m.name !in azs {
        if listing.Unavailable? {
          return Err(ListFailed);
        }
        RefreshWorkers(m.name.namespace, listing.machines);
        RefreshKeepsValid(m.name.namespace, old(Current()), listing.machines, Current());
        if m.name !in azs {
          return Err(NoMachineFound);
        }
      }
      if azs[m.name] != "" {
        return Ok(azs[m.name]);
      }
      r := AllocateOne(m, regions);
    }

    method RefreshWorkers(ghost ns: string, ms: seq<Machine>)
      requires ListingOf(ns, ms)
      modifies this
      ensures Refreshed(old(Current()), ms, Current())
      // A deployment that some machine listed is labelled with holds the machines listed that carry its label
      // and are no control planes, in the order of the listing. The others keep their list.
      ensures forall d :: (exists m <- ms :: m.deployment != "" && Name(m.name.namespace, m.deployment) == d) ==>
                && (forall n <- Members(deployments, d) :: exists m <- ms :: m.name == n && IsWorkerOf(m, d))
                && (forall m <- ms :: IsWorkerOf(m, d) ==> m.name in Members(deployments, d))
      ensures forall d ::
                !(exists m <- ms :: m.deployment != "" && Name(m.name.namespace, m.deployment) == d) ==>
                  Members(deployments, d) == Members(old(deployments), d)
      ensures forall i, j, d :: 0 <= i < j < |ms| && IsWorkerOf(ms[i], d) && IsWorkerOf(ms[j], d) ==>
                Ordered(Members(deployments, d), ms[i].name, ms[j].name)
      // Each of them has the subregion that its status records, and only they change.
      ensures forall m <- ms :: m.deployment != "" && !m.controlPlane ==>
                m.name in azs && azs[m.name] == m.failureDomain
      ensures forall n :: !(exists m <- ms :: m.name == n && m.deployment != "" && !m.controlPlane) ==>
                (n in azs <==> n in old(azs)) && AZ(azs, n) == AZ(old(azs), n)
    {
      Truncate(ms);
      Refill(ms);
      RefreshMeaning(ns, old(Current()), ms);
      RefreshedLists(old(Current()), ms, Current());
      RefreshedEntries(old(Current()), ms, Current());
    }

    // The first loop: empty the lists of the deployments listed.
    method Truncate(ms: seq<Machine>)
      modifies this`deployments
      ensures deployments == Truncated(old(deployments), ms)
    {
      assert ms[..|ms|] == ms;
      for i := 0 to |ms|
        invariant deployments == Truncated(old(deployments), ms[..i])
      {
        assert ms[..i + 1][..i] == ms[..i];
        if !ms[i].Labelled() {
          continue;
        }
        if |Members(deployments, ms[i].Key())| > 0 {
          deployments := deployments[ms[i].Key() := []];
        }
      }
    }

    // The second loop: refill them.
    method Refill(ms: seq<Machine>)
      modifies this
      ensures deployments == Refilled(old(deployments), ms)
      ensures azs == Recorded(old(azs), ms)
    {
      assert ms[..|ms|] == ms;
      for i := 0 to |ms|
        invariant deployments == Refilled(old(deployments), ms[..i])
        invariant azs == Recorded(old(azs), ms[..i])
      {
        var m := ms[i];
        assert ms[..i + 1][..i] == ms[..i];
        if !m.Labelled() {
          continue;
        }
        if m.controlPlane {
          continue;
        }
        deployments := deployments[m.Key() := Members(deployments, m.Key()) + [m.name]];
        azs := azs[m.name := m.failureDomain];
      }
    }

    // The placement itself (allocateAZ in the allocator).
    method AllocateOne(m: Machine, regions: seq<string>) returns (r: Result)
      requires Valid(Current())
      modifies this`azs
      ensures Valid(Current())
      ensures Allocation(old(Current()), m, regions, Current(), r)
      ensures m.deployment == "" <==> r == Err(NoDeployment)
    {
      if !m.Labelled() {
        return Err(NoDeployment);
      }
      var names := Members(deployments, m.Key());
      var perAZ := CountPerAZ(names, regions, azs);
      var found, j := AssignUpTo(m.name, names, regions, perAZ);
      if found {
        return Ok(azs[names[j]]);
      }
      return Err(MachineNotFound);
    }

    // The placement loop: it stops at the machine asked for.
    method AssignUpTo(asked: Name, names: seq<Name>, regions: seq<string>, perAZ0: Counts)
      returns (found: bool, j: nat)
      requires Distinct(names)
      requires forall n <- names :: n.namespace == asked.namespace && n in azs
      requires perAZ0 == CountsOf(names, regions, azs)
      modifies this`azs
      ensures found <==> asked in names
      ensures found ==> j < |names| && names[j] == asked && Assigned(names, names[..j + 1], regions, old(azs), azs)
      ensures !found ==> Assigned(names, names, regions, old(azs), azs)
    {
      var perAZ := perAZ0;
      TurnStarts(names, regions, azs);
      j := 0;
      while j < |names|
        invariant 0 <= j <= |names|
        invariant Turn(names, j, regions, old(azs), azs, perAZ)
        invariant asked !in names[..j]
      {
        perAZ := PlaceNext(names, j, regions, perAZ, old(azs));
        assert asked.name == names[j].name ==> asked == names[j];
        if asked.name == names[j].name {
          return true, j;
        }
        assert names[..j + 1] == names[..j] + [names[j]];
        j := j + 1;
      }
      assert names[..j] == names;
      found := false;
    }

    method PlaceNext(names: seq<Name>, j: nat, regions: seq<string>, perAZ: Counts, ghost azs0: map<Name, string>)
      returns (perAZ': Counts)
      requires j < |names| && Distinct(names) && names[j] in azs0
      requires Turn(names, j, regions, azs0, azs, perAZ)
      modifies this`azs
      ensures Turn(names, j + 1, regions, azs0, azs, perAZ')
    {
      perAZ' := perAZ;
      if azs[names[j]] == "" {
        var az := LeastLoaded(perAZ);
        TurnPlaces(names, j, regions, azs0, azs, perAZ, az);
        azs := azs[names[j] := az];
        perAZ' := perAZ[az := (if az in perAZ then perAZ[az] else 0) + 1];
      } else {
        AssignSkip(names, j, regions, azs0, azs);
      }
    }
  }

  // The placement loop has dealt with the first j machines.
  ghost predicate Turn(names: seq<Name>, j: nat, regions: seq<string>,
                       azs0: map<Name, string>, azs: map<Name, string>, perAZ: Counts)
    requires j <= |names|
  {
    && Assigned(names, names[..j], regions, azs0, azs)
    && (regions != [] ==> perAZ == Tally(names, names[..j], regions, azs))
  }

  lemma TurnStarts(names: seq<Name>, regions: seq<string>, azs: map<Name, string>)
    ensures Turn(names, 0, regions, azs, azs, CountsOf(names, regions, azs))
  {
    assert names[..0] == [];
    AssignNobody(names, regions, azs);
  }

  lemma TurnPlaces(names: seq<Name>, j: nat, regions: seq<string>,
                   azs0: map<Name, string>, azs: map<Name, string>, perAZ: Counts, az: string)
    requires j < |names| && Distinct(names) && names[j] in azs0
    requires Turn(names, j, regions, azs0, azs, perAZ) && azs[names[j]] == ""
    requires if perAZ == map[] then az == "" else IsMin(perAZ, az)
    ensures Turn(names, j + 1, regions, azs0, azs[names[j] := az],
                 perAZ[az := (if az in perAZ then perAZ[az] else 0) + 1])
  {
    NotEmpty(names, names[..j], regions, azs);
    AssignNext(names, j, regions, azs0, azs, az);
  }

  // The counters before any placement.
  method CountPerAZ(names: seq<Name>, regions: seq<string>, azs: map<Name, string>) returns (perAZ: Counts)
    ensures perAZ == CountsOf(names, regions, azs)
  {
    perAZ := map k | k in regions :: 0;
    assert names[..|names|] == names;
    for i := 0 to |names|
      invariant perAZ == CountsOf(names[..i], regions, azs)
    {
      var az := AZ(azs, names[i]);
      if az != "" {
        perAZ := perAZ[az := (if az in perAZ then perAZ[az] else 0) + 1];
      }
      assert names[..i + 1][..i] == names[..i];
    }
  }

  // The map iteration that keeps the first strictly smaller count: which least loaded subregion it
  // finds depends on the iteration order.
  method LeastLoaded(perAZ: Counts) returns (az: string)
    ensures if perAZ == map[] then az == "" else IsMin(perAZ, az)
  {
    az := "";
    var min := 0;
    var todo := perAZ.Keys;
    while todo != {}
      invariant todo <= perAZ.Keys
      invariant if todo == perAZ.Keys then az == ""
                else az in perAZ && min == perAZ[az] && forall k <- perAZ.Keys - todo :: min <= perAZ[k]
    {
      var k :| k in todo;
      if todo == perAZ.Keys || perAZ[k] < min {
        az, min := k, perAZ[k];
      }
      todo := todo - {k};
    }
  }

  // ---- Lemmas on the counters ----

  ghost function Placed(names: seq<Name>, azs: map<Name, string>, k: string): set<Name> {
    set n | n in names && AZ(azs, n) == k
  }

  // What the counters mean, independently of how they are computed.
  lemma CountsMeaning(names: seq<Name>, regions: seq<string>, azs: map<Name, string>)
    requires Distinct(names)
    ensures forall k :: k in CountsOf(names, regions, azs)
                   <==> k in regions || (k != "" && Placed(names, azs, k) != {})
    ensures forall k <- CountsOf(names, regions, azs) ::
              CountsOf(names, regions, azs)[k] == if k == "" then 0 else |Placed(names, azs, k)|
    ensures Unassigned(names, azs) == |Placed(names, azs, "")|
  {
    forall k {
      CountMeaning(names, regions, azs, k);
    }
  }

  lemma {:induction false} CountMeaning(names: seq<Name>, regions: seq<string>, azs: map<Name, string>, k: string)
    requires Distinct(names)
    ensures k in CountsOf(names, regions, azs) <==> k in regions || (k != "" && Placed(names, azs, k) != {})
    ensures k in CountsOf(names, regions, azs) ==>
              CountsOf(names, regions, azs)[k] == if k == "" then 0 else |Placed(names, azs, k)|
    ensures k == "" ==> Unassigned(names, azs) == |Placed(names, azs, k)|
  {
    if names != [] {
      var front, last := names[..|names| - 1], names[|names| - 1];
      CountMeaning(front, regions, azs, k);
      PlacedNext(names, azs, k);
    }
  }

  lemma PlacedNext(names: seq<Name>, azs: map<Name, string>, k: string)
    requires Distinct(names) && names != []
    ensures var front, last := names[..|names| - 1], names[|names| - 1];
            && last !in front
            && Placed(names, azs, k) == Placed(front, azs, k) + (if AZ(azs, last) == k then {last} else {})
            && |Placed(names, azs, k)| == |Placed(front, azs, k)| + (if AZ(azs, last) == k then 1 else 0)
  {
    var front, last := names[..|names| - 1], names[|names| - 1];
    assert names == front + [last] && last !in front;
    assert Placed(names, azs, k) == Placed(front, azs, k) + (if AZ(azs, last) == k then {last} else {});
  }

  // One turn of the placement loop, on a machine that has no subregion.
  lemma AssignNext(names: seq<Name>, i: nat, regions: seq<string>,
                   azs0: map<Name, string>, azs: map<Name, string>, az: string)
    requires i < |names| && Distinct(names) && names[i] in azs0
    requires Assigned(names, names[..i], regions, azs0, azs)
    requires azs[names[i]] == ""
    requires regions != [] ==> IsMin(Tally(names, names[..i], regions, azs), az)
    ensures Assigned(names, names[..i + 1], regions, azs0, azs[names[i] := az])
    ensures regions != [] ==>
              var before := Tally(names, names[..i], regions, azs);
              Tally(names, names[..i + 1], regions, azs[names[i] := az]) == before[az := before[az] + 1]
  {
    StickyNext(names, i, azs0, azs, azs[names[i] := az]);
    if regions != [] {
      TallyNext(names, i, regions, azs, az);
      GreedyNext(CountsOf(names, regions, azs0), Unassigned(names[..i], azs0),
                 Tally(names, names[..i], regions, azs), az);
      AllPlacedNext(names, i, regions, azs, az);
    }
  }

  lemma AllPlacedNext(names: seq<Name>, i: nat, regions: seq<string>, azs: map<Name, string>, az: string)
    requires i < |names| && names[i] in azs && az in Tally(names, names[..i], regions, azs)
    requires "" !in regions ==> AllPlaced(names[..i], azs)
    ensures "" !in regions ==> AllPlaced(names[..i + 1], azs[names[i] := az])
  {
    NotBlank(names, regions, azs);
    assert names[..i + 1] == names[..i] + [names[i]];
  }

  lemma TallyNext(names: seq<Name>, i: nat, regions: seq<string>, azs: map<Name, string>, az: string)
    requires i < |names| && Distinct(names) && names[i] in azs && azs[names[i]] == ""
    requires az in Tally(names, names[..i], regions, azs)
    ensures var before := Tally(names, names[..i], regions, azs);
            Tally(names, names[..i + 1], regions, azs[names[i] := az]) == before[az := before[az] + 1]
  {
    var azs' := azs[names[i] := az];
    assert names[..i + 1][..i] == names[..i];
    UnassignedOthers(names[..i], azs, names[i], az);
    if az == "" {
      assert azs' == azs;
    } else {
      PlaceOne(names, regions, azs, names[i], az);
    }
  }

  lemma {:induction false} UnassignedOthers(names: seq<Name>, azs: map<Name, string>, n: Name, az: string)
    requires n !in names
    ensures Unassigned(names, azs[n := az]) == Unassigned(names, azs)
  {
    if names != [] {
      UnassignedOthers(names[..|names| - 1], azs, n, az);
    }
  }

  lemma AssignNobody(all: seq<Name>, regions: seq<string>, azs: map<Name, string>)
    ensures Assigned(all, [], regions, azs, azs) && Tally(all, [], regions, azs) == CountsOf(all, regions, azs)
  {
    BlankIsZero(all, regions, azs);
  }

  lemma {:induction false} BlankIsZero(names: seq<Name>, regions: seq<string>, azs: map<Name, string>)
    ensures "" in CountsOf(names, regions, azs) ==> CountsOf(names, regions, azs)[""] == 0
  {
    if names != [] {
      BlankIsZero(names[..|names| - 1], regions, azs);
    }
  }

  // The same, on a machine that has one.
  lemma AssignSkip(names: seq<Name>, i: nat, regions: seq<string>, azs0: map<Name, string>, azs: map<Name, string>)
    requires i < |names| && Distinct(names) && names[i] in azs0
    requires Assigned(names, names[..i], regions, azs0, azs)
    requires azs[names[i]] != ""
    ensures Assigned(names, names[..i + 1], regions, azs0, azs)
    ensures Tally(names, names[..i + 1], regions, azs) == Tally(names, names[..i], regions, azs)
  {
    StickyNext(names, i, azs0, azs, azs);
    assert names[..i + 1] == names[..i] + [names[i]];
    assert names[..i + 1][..i] == names[..i];
  }

  lemma StickyNext(names: seq<Name>, i: nat, azs0: map<Name, string>, azs: map<Name, string>, azs': map<Name, string>)
    requires i < |names| && Distinct(names) && names[i] in azs0
    requires Sticky(names[..i], azs0, azs)
    requires azs' == azs || (azs[names[i]] == "" && azs' == azs[names[i] := AZ(azs', names[i])])
    ensures Sticky(names[..i + 1], azs0, azs')
    ensures azs[names[i]] == azs0[names[i]]
    ensures Unassigned(names[..i + 1], azs0) == Unassigned(names[..i], azs0) + if azs[names[i]] == "" then 1 else 0
  {
    assert names[..i + 1] == names[..i] + [names[i]] && names[i] !in names[..i];
    assert names[..i + 1][..i] == names[..i];
  }

  lemma GreedyNext(c0: Counts, n: nat, c: Counts, az: string)
    requires Greedy(c0, n, c) && IsMin(c, az)
    ensures Greedy(c0, n + 1, c[az := c[az] + 1])
  {
    assert Placement(c, c[az := c[az] + 1]);
  }

  lemma NotEmpty(names: seq<Name>, done: seq<Name>, regions: seq<string>, azs: map<Name, string>)
    ensures regions != [] ==> Tally(names, done, regions, azs) != map[]
  {
    if regions != [] {
      NotBlank(names, regions, azs);
      assert regions[0] in Tally(names, done, regions, azs);
    }
  }

  lemma {:induction false} NotBlank(names: seq<Name>, regions: seq<string>, azs: map<Name, string>)
    ensures "" !in regions ==> "" !in CountsOf(names, regions, azs)
    ensures forall k <- regions :: k in CountsOf(names, regions, azs)
  {
    if names != [] {
      NotBlank(names[..|names| - 1], regions, azs);
    }
  }

  // Placing a machine in a subregion adds one there, and nothing elsewhere.
  lemma {:induction false} PlaceOne(names: seq<Name>, regions: seq<string>, azs: map<Name, string>,
                                    name: Name, az: string)
    requires Distinct(names) && name in azs && azs[name] == ""
    ensures CountsOf(names, regions, azs[name := az])
            == if name in names then Bumped(CountsOf(names, regions, azs), az) else CountsOf(names, regions, azs)
  {
    if names != [] {
      var front, last := names[..|names| - 1], names[|names| - 1];
      assert names == front + [last] && last !in front;
      PlaceOne(front, regions, azs, name, az);
      if last != name {
        BumpsCommute(CountsOf(front, regions, azs), az, AZ(azs, last));
      }
    }
  }

  lemma BumpsCommute(c: Counts, a: string, b: string)
    ensures Bumped(Bumped(c, a), b) == Bumped(Bumped(c, b), a)
  {
  }

  // ---- The three maps that a refresh builds ----

  ghost function Truncated(deployments: map<Name, seq<Name>>, ms: seq<Machine>): map<Name, seq<Name>> {
    if ms == [] then deployments else
    var before, m := Truncated(deployments, ms[..|ms| - 1]), ms[|ms| - 1];
    if m.Labelled() && |Members(before, m.Key())| > 0 then before[m.Key() := []] else before
  }

  ghost function Refilled(deployments: map<Name, seq<Name>>, ms: seq<Machine>): map<Name, seq<Name>> {
    if ms == [] then deployments else
    var before, m := Refilled(deployments, ms[..|ms| - 1]), ms[|ms| - 1];
    if m.Worker() then before[m.Key() := Members(before, m.Key()) + [m.name]] else before
  }

  ghost function Recorded(azs: map<Name, string>, ms: seq<Machine>): map<Name, string> {
    if ms == [] then azs else
    var before, m := Recorded(azs, ms[..|ms| - 1]), ms[|ms| - 1];
    if m.Worker() then before[m.name := m.failureDomain] else before
  }

  lemma RefreshMeaning(ns: string, c: Cache, ms: seq<Machine>)
    requires ListingOf(ns, ms)
    ensures Refreshed(c, ms, Cache(Refilled(Truncated(c.deployments, ms), ms), Recorded(c.azs, ms)))
  {
    TruncatedMeaning(c.deployments, ms);
    RefilledMeaning(Truncated(c.deployments, ms), ms);
    RecordedMeaning(ns, c.azs, ms);
    forall d | !Mentions(ms, d)
      ensures WorkersOf(ms, d) == []
    {
      NoWorkers(ms, d);
    }
  }

  // A machine of the deployment that is no control plane.
  predicate IsWorkerOf(m: Machine, d: Name) {
    m.deployment != "" && m.deployment == d.name && m.name.namespace == d.namespace && !m.controlPlane
  }

  ghost predicate Ordered(names: seq<Name>, a: Name, b: Name) {
    exists i, j :: 0 <= i < j < |names| && names[i] == a && names[j] == b
  }

  // What a refresh does, machine by machine.
  lemma RefreshedLists(c: Cache, ms: seq<Machine>, c': Cache)
    requires Refreshed(c, ms, c')
    ensures forall d :: (exists m <- ms :: m.deployment != "" && Name(m.name.namespace, m.deployment) == d) ==>
              && (forall n <- Members(c'.deployments, d) :: exists m <- ms :: m.name == n && IsWorkerOf(m, d))
              && (forall m <- ms :: IsWorkerOf(m, d) ==> m.name in Members(c'.deployments, d))
    ensures forall d ::
              !(exists m <- ms :: m.deployment != "" && Name(m.name.namespace, m.deployment) == d) ==>
                Members(c'.deployments, d) == Members(c.deployments, d)
    ensures forall i, j, d :: 0 <= i < j < |ms| && IsWorkerOf(ms[i], d) && IsWorkerOf(ms[j], d) ==>
              Ordered(Members(c'.deployments, d), ms[i].name, ms[j].name)
  {
    forall d
      ensures Mentions(ms, d) <==> exists m <- ms :: m.deployment != "" && Name(m.name.namespace, m.deployment) == d
    {
      MentionsExactly(ms, d);
    }
    forall d | Mentions(ms, d)
      ensures forall n <- Members(c'.deployments, d) :: exists m <- ms :: m.name == n && IsWorkerOf(m, d)
      ensures forall m <- ms :: IsWorkerOf(m, d) ==> m.name in Members(c'.deployments, d)
    {
      WorkersExactly(ms, d);
    }
    forall i, j, d | 0 <= i < j < |ms| && IsWorkerOf(ms[i], d) && IsWorkerOf(ms[j], d)
      ensures Ordered(Members(c'.deployments, d), ms[i].name, ms[j].name)
    {
      assert ms[i] in ms && ms[i].deployment != "" && Name(ms[i].name.namespace, ms[i].deployment) == d;
      MentionsExactly(ms, d);
      WorkersInOrder(ms, d, i, j);
    }
  }

  lemma MentionsExactly(ms: seq<Machine>, d: Name)
    ensures Mentions(ms, d) <==> exists m <- ms :: m.deployment != "" && Name(m.name.namespace, m.deployment) == d
  {
    forall m <- ms
      ensures m.Labelled() && m.Key() == d <==> m.deployment != "" && Name(m.name.namespace, m.deployment) == d
    {
    }
  }

  lemma {:induction false} WorkersExactly(ms: seq<Machine>, d: Name)
    ensures forall n <- WorkersOf(ms, d) :: exists m <- ms :: m.name == n && IsWorkerOf(m, d)
    ensures forall m <- ms :: IsWorkerOf(m, d) ==> m.name in WorkersOf(ms, d)
  {
    if ms != [] {
      var front, last := ms[..|ms| - 1], ms[|ms| - 1];
      assert ms == front + [last];
      WorkersExactly(front, d);
      assert last.Worker() && last.Key() == d <==> IsWorkerOf(last, d);
      assert last in ms;
    }
  }

  lemma {:induction false} WorkersInOrder(ms: seq<Machine>, d: Name, i: nat, j: nat)
    requires i < j < |ms| && IsWorkerOf(ms[i], d) && IsWorkerOf(ms[j], d)
    ensures Ordered(WorkersOf(ms, d), ms[i].name, ms[j].name)
  {
    var n := |ms| - 1;
    var front, names := ms[..n], WorkersOf(ms[..n], d);
    if j < n {
      WorkersInOrder(front, d, i, j);
      var a, b :| 0 <= a < b < |names| && names[a] == ms[i].name && names[b] == ms[j].name;
      assert WorkersOf(ms, d)[a] == names[a] && WorkersOf(ms, d)[b] == names[b];
    } else {
      WorkersExactly(front, d);
      assert front[i] in front;
      var a :| 0 <= a < |names| && names[a] == ms[i].name;
      assert ms[n].Worker() && ms[n].Key() == d;
      var all := WorkersOf(ms, d);
      assert all == names + [ms[n].name];
      assert all[a] == ms[i].name && all[|names|] == ms[j].name;
    }
  }

  lemma RefreshedEntries(c: Cache, ms: seq<Machine>, c': Cache)
    requires Refreshed(c, ms, c')
    ensures forall m <- ms :: m.deployment != "" && !m.controlPlane ==>
              m.name in c'.azs && c'.azs[m.name] == m.failureDomain
    ensures forall n :: !(exists m <- ms :: m.name == n && m.deployment != "" && !m.controlPlane) ==>
              (n in c'.azs <==> n in c.azs) && AZ(c'.azs, n) == AZ(c.azs, n)
  {
    forall n
      ensures ListsWorker(ms, n) <==> exists m <- ms :: m.name == n && m.deployment != "" && !m.controlPlane
    {
      ListsExactly(ms, n);
    }
    forall m <- ms | m.deployment != "" && !m.controlPlane
      ensures m.name in c'.azs && c'.azs[m.name] == m.failureDomain
    {
      assert m.Worker() && ListsWorker(ms, m.name);
    }
  }

  lemma ListsExactly(ms: seq<Machine>, n: Name)
    ensures ListsWorker(ms, n) <==> exists m <- ms :: m.name == n && m.deployment != "" && !m.controlPlane
  {
  }

  lemma {:induction false} TruncatedMeaning(deployments: map<Name, seq<Name>>, ms: seq<Machine>)
    ensures forall d :: Members(Truncated(deployments, ms), d)
                        == if Mentions(ms, d) then [] else Members(deployments, d)
  {
    if ms != [] {
      TruncatedMeaning(deployments, ms[..|ms| - 1]);
      assert ms == ms[..|ms| - 1] + [ms[|ms| - 1]];
    }
  }

  lemma {:induction false} RefilledMeaning(deployments: map<Name, seq<Name>>, ms: seq<Machine>)
    ensures forall d :: Members(Refilled(deployments, ms), d) == Members(deployments, d) + WorkersOf(ms, d)
  {
    if ms != [] {
      RefilledMeaning(deployments, ms[..|ms| - 1]);
    }
  }

  lemma {:induction false} RecordedMeaning(ns: string, azs: map<Name, string>, ms: seq<Machine>)
    requires ListingOf(ns, ms)
    ensures forall n :: n in Recorded(azs, ms) <==> n in azs || ListsWorker(ms, n)
    ensures forall m <- ms :: m.Worker() ==> AZ(Recorded(azs, ms), m.name) == m.failureDomain
    ensures forall n :: !ListsWorker(ms, n) ==> AZ(Recorded(azs, ms), n) == AZ(azs, n)
  {
    if ms != [] {
      var front, m := ms[..|ms| - 1], ms[|ms| - 1];
      assert ms == front + [m];
      RecordedMeaning(ns, azs, front);
      assert forall n :: ListsWorker(ms, n) <==> ListsWorker(front, n) || (m.Worker() && m.name == n);
    }
  }

  lemma {:induction false} NoWorkers(ms: seq<Machine>, d: Name)
    requires !Mentions(ms, d)
    ensures WorkersOf(ms, d) == []
  {
    if ms != [] {
      NoWorkers(ms[..|ms| - 1], d);
    }
  }

  lemma {:induction false} WorkersOfMeaning(ms: seq<Machine>, d: Name)
    ensures forall n :: n in WorkersOf(ms, d) <==> exists m <- ms :: m.Worker() && m.Key() == d && m.name == n
  {
    if ms != [] {
      var front, m := ms[..|ms| - 1], ms[|ms| - 1];
      assert ms == front + [m];
      WorkersOfMeaning(front, d);
    }
  }

  lemma {:induction false} WorkersOfDistinct(ms: seq<Machine>, d: Name)
    requires forall i, j :: 0 <= i < j < |ms| ==> ms[i].name != ms[j].name
    ensures Distinct(WorkersOf(ms, d))
  {
    if ms != [] {
      var front, m := ms[..|ms| - 1], ms[|ms| - 1];
      WorkersOfDistinct(front, d);
      WorkersOfMeaning(front, d);
      assert m.name !in WorkersOf(front, d);
    }
  }

  lemma RefreshKeepsValid(ns: string, c: Cache, ms: seq<Machine>, c': Cache)
    requires Valid(c) && ListingOf(ns, ms) && Refreshed(c, ms, c')
    ensures Valid(c')
  {
    forall d
      ensures Distinct(Members(c'.deployments, d))
      ensures forall n <- Members(c'.deployments, d) :: n.namespace == d.namespace && n in c'.azs
    {
      WorkersOfMeaning(ms, d);
      WorkersOfDistinct(ms, d);
    }
  }

  // ---- What an allocation achieves ----

  // The counters before and after an allocation are related by water-filling: a subregion that gains a
  // machine ends at most one above the least loaded one, and no machine is lost.
  lemma AllocationFills(all: seq<Name>, names: seq<Name>, regions: seq<string>,
                        azs: map<Name, string>, azs': map<Name, string>, least: string)
    requires Assigned(all, names, regions, azs, azs') && regions != []
    requires IsMin(Tally(all, names, regions, azs'), least)
    ensures var before, after := CountsOf(all, regions, azs), Tally(all, names, regions, azs');
            && FilledTo(before, after, after[least])
            && Sum(after) == Sum(before) + Unassigned(names, azs)
  {
    var before, after := CountsOf(all, regions, azs), Tally(all, names, regions, azs');
    GreedyFills(before, Unassigned(names, azs), after, least);
    GreedyConserves(before, Unassigned(names, azs), after);
  }

  // The balance that the allocator promises: a subregion that gains a machine ends at most one above the
  // least loaded one, and the spread never exceeds the larger of what it was and one.
  lemma AllocationBalances(all: seq<Name>, names: seq<Name>, regions: seq<string>,
                           azs: map<Name, string>, azs': map<Name, string>,
                           low0: string, high0: string, low: string, high: string)
    requires Assigned(all, names, regions, azs, azs') && regions != []
    requires IsMin(CountsOf(all, regions, azs), low0) && IsMin(Tally(all, names, regions, azs'), low)
    requires IsMax(CountsOf(all, regions, azs), high0) && IsMax(Tally(all, names, regions, azs'), high)
    ensures var before, after := CountsOf(all, regions, azs), Tally(all, names, regions, azs');
            && before.Keys == after.Keys
            && (forall k <- before :: before[k] < after[k] ==> after[k] <= after[low] + 1)
            && after[high] - after[low] <= if before[high0] - before[low0] > 1 then before[high0] - before[low0] else 1
  {
    GreedyBalances(CountsOf(all, regions, azs), Unassigned(names, azs), Tally(all, names, regions, azs'),
                   low, high, low0, high0);
  }

  // Two runs of the same allocation, with different map iteration orders, may place machines
  // differently, but load the subregions alike.
  lemma AllocationIgnoresTies(all: seq<Name>, names: seq<Name>, regions: seq<string>,
                              azs: map<Name, string>, one: map<Name, string>, two: map<Name, string>)
    requires Assigned(all, names, regions, azs, one) && Assigned(all, names, regions, azs, two) && regions != []
    ensures SameProfile(Tally(all, names, regions, one), Tally(all, names, regions, two))
  {
    TiesDoNotMatter(CountsOf(all, regions, azs), CountsOf(all, regions, azs), Unassigned(names, azs),
                    Tally(all, names, regions, one), Tally(all, names, regions, two));
  }

  // Without a blank name among the configured ones, the counters are the counts of the machines placed.
  lemma TallyIsCounts(all: seq<Name>, names: seq<Name>, regions: seq<string>, azs: map<Name, string>)
    requires "" !in regions
    ensures Tally(all, names, regions, azs) == CountsOf(all, regions, azs)
  {
    NotBlank(all, regions, azs);
  }

  // ---- Runs ----

  datatype Request = Request(m: Machine, regions: seq<string>, listing: Listing)

  ghost predicate Run(requests: seq<Request>, caches: seq<Cache>, results: seq<Result>) {
    && |caches| == |requests| + 1 && |results| == |requests|
    && Valid(caches[0])
    && forall i :: 0 <= i < |requests| ==>
         && Serves(requests[i])
         && LeastNodesCall(caches[i], requests[i].m, requests[i].regions, requests[i].listing,
                           caches[i + 1], results[i])
  }

  ghost predicate Serves(q: Request) {
    q.listing.Items? ==> ListingOf(q.m.name.namespace, q.listing.machines)
  }

  // w stays in the listings of its namespace, as a worker of the same deployment.
  ghost predicate StaysListed(w: Machine, q: Request) {
    q.listing.Items? && q.m.name.namespace == w.name.namespace ==>
      exists m <- q.listing.machines :: m.Worker() && m.name == w.name && m.deployment == w.deployment
  }

  // A worker with a cache entry is in the cached list of its deployment.
  ghost predicate Tracks(c: Cache, w: Machine) {
    w.name in c.azs ==> w.name in Members(c.deployments, w.Key())
  }

  lemma RefreshTracks(c: Cache, w: Machine, q: Request, c': Cache)
    requires q.listing.Items? && Serves(q) && w.Labelled()
    requires Refreshed(c, q.listing.machines, c') && StaysListed(w, q) && Tracks(c, w)
    ensures Tracks(c', w)
  {
    var ms := q.listing.machines;
    WorkersOfMeaning(ms, w.Key());
    if q.m.name.namespace == w.name.namespace {
      assert Mentions(ms, w.Key());
    } else {
      assert !Mentions(ms, w.Key()) && !ListsWorker(ms, w.name);
    }
  }

  lemma AnswerKeeps(c: Cache, m: Machine, regions: seq<string>, c': Cache, r: Result)
    requires Valid(c) && Answer(c, m, regions, c', r)
    ensures Valid(c')
    ensures c'.deployments == c.deployments && c'.azs.Keys == c.azs.Keys
    ensures forall n <- c.azs :: c.azs[n] != "" ==> c'.azs[n] == c.azs[n]
    ensures r.Ok? ==> r.az == AZ(c'.azs, m.name)
    ensures r.Ok? && "" !in regions && regions != [] ==> r.az != "" && m.name in c'.azs && r.az == c'.azs[m.name]
  {
  }

  lemma AnswerFinds(c: Cache, m: Machine, regions: seq<string>, c': Cache, r: Result, w: Machine)
    requires Answer(c, m, regions, c', r)
    requires w.Labelled() && w.name in c.azs && Tracks(c, w)
    requires m.name == w.name && m.deployment == w.deployment
    ensures r.Ok?
  {
  }

  lemma CallKeeps(c: Cache, q: Request, c': Cache, r: Result, w: Machine)
    requires Valid(c) && Serves(q) && w.Labelled() && StaysListed(w, q) && Tracks(c, w)
    requires LeastNodesCall(c, q.m, q.regions, q.listing, c', r)
    ensures Valid(c') && Tracks(c', w)
    ensures q.m.name == w.name && q.m.deployment == w.deployment ==> r.Ok? || r.error == ListFailed
  {
    if q.m.name in c.azs {
      CallAnswers(c, q, c', r, w);
    } else if q.listing.Items? {
      var mid :| Refreshed(c, q.listing.machines, mid) && Answer(mid, q.m, q.regions, c', r);
      RefreshKeepsValid(q.m.name.namespace, c, q.listing.machines, mid);
      RefreshTracks(c, w, q, mid);
      if q.m.name == w.name && q.m.deployment == w.deployment {
        assert ListsWorker(q.listing.machines, w.name);
      }
      CallAnswers(mid, q, c', r, w);
    }
  }

  lemma CallAnswers(c: Cache, q: Request, c': Cache, r: Result, w: Machine)
    requires Valid(c) && w.Labelled() && Tracks(c, w)
    requires Answer(c, q.m, q.regions, c', r)
    ensures Valid(c') && Tracks(c', w)
    ensures q.m.name == w.name && q.m.deployment == w.deployment && w.name in c.azs ==> r.Ok?
  {
    AnswerKeeps(c, q.m, q.regions, c', r);
    if q.m.name == w.name && q.m.deployment == w.deployment && w.name in c.azs {
      AnswerFinds(c, q.m, q.regions, c', r, w);
    }
  }

  // Totality: in any interleaving of calls from an empty cache, a labelled worker that stays in the
  // listings of its namespace always gets a subregion, unless the listing itself fails.
  lemma {:induction false} ListedWorkersAreFound(w: Machine, requests: seq<Request>, caches: seq<Cache>,
                                                 results: seq<Result>)
    requires Run(requests, caches, results) && Tracks(caches[0], w)
    requires w.Labelled() && forall q <- requests :: StaysListed(w, q)
    ensures forall i :: 0 <= i < |requests| && requests[i].m.name == w.name && requests[i].m.deployment == w.deployment
              ==> results[i].Ok? || results[i].error == ListFailed
    decreases |requests|
  {
    if requests != [] {
      CallKeeps(caches[0], requests[0], caches[1], results[0], w);
      assert forall i :: 0 <= i < |requests| - 1 ==> requests[1..][i] == requests[i + 1];
      ListedWorkersAreFound(w, requests[1..], caches[1..], results[1..]);
      forall i | 0 <= i < |requests| && requests[i].m.name == w.name && requests[i].m.deployment == w.deployment
        ensures results[i].Ok? || results[i].error == ListFailed
      {
        if i > 0 {
          assert requests[1..][i - 1] == requests[i];
        }
      }
    }
  }

  // ---- Stickiness ----

  // A refresh keeps the assignment of a machine exactly when the listing does not mention the machine as
  // a worker, or records that very assignment. Picks not yet recorded in the status are forgotten or replaced.
  lemma RefreshKeepsExactly(ns: string, c: Cache, ms: seq<Machine>, c': Cache, n: Name)
    requires ListingOf(ns, ms) && Refreshed(c, ms, c')
    ensures AZ(c'.azs, n) == AZ(c.azs, n)
       <==> forall m <- ms :: m.Worker() && m.name == n ==> m.failureDomain == AZ(c.azs, n)
  {
    if ListsWorker(ms, n) {
      var m :| m in ms && m.Worker() && m.name == n;
      assert AZ(c'.azs, n) == m.failureDomain;
    }
  }

  // What a refresh does to the assignment of a machine that the listing shows as a worker: it keeps it, it
  // forgets it exactly when the status has none, and it switches it exactly when the status has another one.
  lemma RefreshTrichotomy(ns: string, c: Cache, ms: seq<Machine>, c': Cache, m: Machine)
    requires ListingOf(ns, ms) && Refreshed(c, ms, c') && m in ms && m.Worker()
    ensures var before, after := AZ(c.azs, m.name), AZ(c'.azs, m.name);
            && (after == before <==> m.failureDomain == before)
            && (before != "" ==> (after == "" <==> m.failureDomain == ""))
            && (after != before && after != "" <==> m.failureDomain != before && m.failureDomain != "")
  {
  }

  // The call refreshes the cache from a listing that shows n as a worker of another subregion than z, or
  // of none.
  ghost predicate Overwrites(c: Cache, q: Request, n: Name, z: string) {
    && q.m.name !in c.azs && q.listing.Items?
    && exists m <- q.listing.machines :: m.Worker() && m.name == n && m.failureDomain != z
  }

  // An assignment changes only in a call that overwrites it: it becomes that of the status, or, if that is
  // blank, whatever the allocation that follows in the same call makes of it.
  lemma OnlyRefreshesChange(c: Cache, q: Request, c': Cache, r: Result, n: Name, z: string)
    requires Valid(c) && Serves(q) && LeastNodesCall(c, q.m, q.regions, q.listing, c', r)
    requires z != "" && AZ(c.azs, n) == z
    ensures Valid(c')
    ensures !Overwrites(c, q, n, z) ==> AZ(c'.azs, n) == z && (q.m.name == n ==> r == Ok(z))
    ensures Overwrites(c, q, n, z) ==>
              forall m <- q.listing.machines :: m.Worker() && m.name == n && m.failureDomain != "" ==>
                AZ(c'.azs, n) == m.failureDomain
  {
    if q.m.name in c.azs {
      AnswerKeeps(c, q.m, q.regions, c', r);
    } else if q.listing.Items? {
      var mid :| Refreshed(c, q.listing.machines, mid) && Answer(mid, q.m, q.regions, c', r);
      RefreshKeepsExactly(q.m.name.namespace, c, q.listing.machines, mid, n);
      RefreshKeepsValid(q.m.name.namespace, c, q.listing.machines, mid);
      AnswerKeeps(mid, q.m, q.regions, c', r);
    }
  }

  // Stickiness over runs, whatever the listings show: once a machine has a subregion, every call for it
  // returns that one until a call overwrites it.
  lemma {:induction false} AssignmentsStick(n: Name, z: string, requests: seq<Request>, caches: seq<Cache>,
                                            results: seq<Result>)
    requires Run(requests, caches, results)
    requires z != "" && AZ(caches[0].azs, n) == z
    requires forall i :: 0 <= i < |requests| ==> !Overwrites(caches[i], requests[i], n, z)
    ensures forall i :: 0 <= i < |requests| && requests[i].m.name == n ==> results[i] == Ok(z)
    ensures AZ(caches[|requests|].azs, n) == z
    decreases |requests|
  {
    if requests != [] {
      OnlyRefreshesChange(caches[0], requests[0], caches[1], results[0], n, z);
      AssignmentsStick(n, z, requests[1..], caches[1..], results[1..]);
      forall i | 0 <= i < |requests| && requests[i].m.name == n
        ensures results[i] == Ok(z)
      {
        if i > 0 {
          assert requests[1..][i - 1] == requests[i];
        }
      }
    }
  }

  // The answers that callers acted on stand in the cache as long as nothing overwrites them, so what is said
  // of the counters then holds of the machines as they were answered.
  lemma AnswersStand(requests: seq<Request>, caches: seq<Cache>, results: seq<Result>, i: nat)
    requires Run(requests, caches, results) && i < |requests| && results[i].Ok? && results[i].az != ""
    requires StandsUntil(requests, caches, results, i, |requests|)
    ensures AZ(caches[|requests|].azs, requests[i].m.name) == results[i].az
  {
    AnswerStands(requests, caches, results, i, |requests|);
  }

  // No call after the i-th and before the j-th overwrites the i-th answer.
  ghost predicate StandsUntil(requests: seq<Request>, caches: seq<Cache>, results: seq<Result>, i: nat, j: nat)
    requires |caches| == |requests| + 1 && |results| == |requests| && i < |requests| && j <= |requests|
  {
    results[i].Ok? ==>
      forall k :: i < k < j ==> !Overwrites(caches[k], requests[k], requests[i].m.name, results[i].az)
  }

  lemma AnswerStands(requests: seq<Request>, caches: seq<Cache>, results: seq<Result>, i: nat, j: nat)
    requires Run(requests, caches, results) && i < j <= |requests| && results[i].Ok? && results[i].az != ""
    requires StandsUntil(requests, caches, results, i, j)
    ensures AZ(caches[j].azs, requests[i].m.name) == results[i].az
  {
    var n, z := requests[i].m.name, results[i].az;
    RunIsValid(requests, caches, results, i);
    AnswerIsCached(caches[i], requests[i], caches[i + 1], results[i]);
    var rest := requests[i + 1..j];
    assert forall k :: 0 <= k < |rest| ==> rest[k] == requests[k + i + 1];
    RunIsValid(requests, caches, results, i + 1);
    AssignmentsStick(n, z, rest, caches[i + 1..j + 1], results[i + 1..j]);
  }

  // An answer that stands is never switched by a refresh from statuses that record it or nothing: it is kept
  // or forgotten.
  lemma RecordedAnswersNeverSwitch(requests: seq<Request>, caches: seq<Cache>, results: seq<Result>, i: nat, j: nat,
                                   mid: Cache)
    requires Run(requests, caches, results) && i < j < |requests| && results[i].Ok? && results[i].az != ""
    requires StandsUntil(requests, caches, results, i, j)
    requires requests[j].listing.Items? && Refreshed(caches[j], requests[j].listing.machines, mid)
    requires forall m <- requests[j].listing.machines ::
               m.Worker() && m.name == requests[i].m.name ==> m.failureDomain == "" || m.failureDomain == results[i].az
    ensures AZ(mid.azs, requests[i].m.name) == results[i].az || AZ(mid.azs, requests[i].m.name) == ""
  {
    AnswerStands(requests, caches, results, i, j);
    var n, ms := requests[i].m.name, requests[j].listing.machines;
    if ListsWorker(ms, n) {
      var m :| m in ms && m.Worker() && m.name == n;
      assert AZ(mid.azs, m.name) == m.failureDomain;
    }
  }

  // The machines of names that the calls of a run answered k.
  ghost function Answered(requests: seq<Request>, results: seq<Result>, names: seq<Name>, k: string): set<Name>
    requires |results| == |requests|
  {
    set i | 0 <= i < |requests| && results[i] == Ok(k) && requests[i].m.name in names :: requests[i].m.name
  }

  // How far apart the answers of a run can be, when none is overwritten: no further than the counters of the
  // deployment in the last cache, and as little as them once every machine placed has been answered.
  lemma AnswersSpread(requests: seq<Request>, caches: seq<Cache>, results: seq<Result>, d: Name,
                      regions: seq<string>, spread: nat, k: string, l: string)
    requires Run(requests, caches, results)
    requires forall i: nat :: i < |requests| ==> StandsUntil(requests, caches, results, i, |requests|)
    requires var last := caches[|requests|];
             var counts := CountsOf(Members(last.deployments, d), regions, last.azs);
             k in counts && l in counts && k != "" && l != "" && counts[k] <= counts[l] + spread
    ensures var last := caches[|requests|];
            var names := Members(last.deployments, d);
            && |Answered(requests, results, names, k)| <= CountsOf(names, regions, last.azs)[l] + spread
            && ((forall n <- names :: AZ(last.azs, n) == l ==> n in Answered(requests, results, names, l)) ==>
                  |Answered(requests, results, names, k)| <= |Answered(requests, results, names, l)| + spread)
  {
    var last := caches[|requests|];
    var names := Members(last.deployments, d);
    RunIsValid(requests, caches, results, |requests|);
    CountsMeaning(names, regions, last.azs);
    AnsweredArePlaced(requests, caches, results, names, k);
    Fewer(Answered(requests, results, names, k), Placed(names, last.azs, k));
    if forall n <- names :: AZ(last.azs, n) == l ==> n in Answered(requests, results, names, l) {
      Fewer(Placed(names, last.azs, l), Answered(requests, results, names, l));
    }
  }

  lemma AnsweredArePlaced(requests: seq<Request>, caches: seq<Cache>, results: seq<Result>, names: seq<Name>, k: string)
    requires Run(requests, caches, results) && k != ""
    requires forall i: nat :: i < |requests| ==> StandsUntil(requests, caches, results, i, |requests|)
    ensures Answered(requests, results, names, k) <= Placed(names, caches[|requests|].azs, k)
  {
    forall n <- Answered(requests, results, names, k)
      ensures n in Placed(names, caches[|requests|].azs, k)
    {
      var i: nat :| i < |requests| && results[i] == Ok(k) && requests[i].m.name in names && requests[i].m.name == n;
      AnswersStand(requests, caches, results, i);
    }
  }

  lemma AnswerIsCached(c: Cache, q: Request, c': Cache, r: Result)
    requires Valid(c) && Serves(q) && LeastNodesCall(c, q.m, q.regions, q.listing, c', r) && r.Ok?
    ensures AZ(c'.azs, q.m.name) == r.az && Valid(c')
  {
    if q.m.name in c.azs {
      AnswerKeeps(c, q.m, q.regions, c', r);
    } else {
      var mid :| Refreshed(c, q.listing.machines, mid) && Answer(mid, q.m, q.regions, c', r);
      RefreshKeepsValid(q.m.name.namespace, c, q.listing.machines, mid);
      AnswerKeeps(mid, q.m, q.regions, c', r);
    }
  }

  lemma {:induction false} RunIsValid(requests: seq<Request>, caches: seq<Cache>, results: seq<Result>, i: nat)
    requires Run(requests, caches, results) && i <= |requests|
    ensures Valid(caches[i])
  {
    if i > 0 {
      RunIsValid(requests, caches, results, i - 1);
      var q, c, c' := requests[i - 1], caches[i - 1], caches[i];
      assert LeastNodesCall(c, q.m, q.regions, q.listing, caches[i - 1 + 1], results[i - 1]);
      if q.m.name in c.azs {
        AnswerKeeps(c, q.m, q.regions, c', results[i - 1]);
      } else if q.listing.Items? {
        var mid :| Refreshed(c, q.listing.machines, mid) && Answer(mid, q.m, q.regions, c', results[i - 1]);
        RefreshKeepsValid(q.m.name.namespace, c, q.listing.machines, mid);
        AnswerKeeps(mid, q.m, q.regions, c', results[i - 1]);
      }
    }
  }

  // ---- A run that switches an assignment ----

  function Names(ms: seq<Machine>): seq<Name> {
    if ms == [] then [] else Names(ms[..|ms| - 1]) + [ms[|ms| - 1].name]
  }

  lemma {:induction false} AllWorkers(ms: seq<Machine>, d: Name)
    requires forall m <- ms :: m.Worker() && m.Key() == d
    ensures WorkersOf(ms, d) == Names(ms)
    ensures forall n :: n in Names(ms) <==> ListsWorker(ms, n)
  {
    if ms != [] {
      assert ms == ms[..|ms| - 1] + [ms[|ms| - 1]];
      AllWorkers(ms[..|ms| - 1], d);
    }
  }

  lemma NamesAre(ms: seq<Machine>)
    ensures |ms| == 1 ==> Names(ms) == [ms[0].name]
    ensures |ms| == 2 ==> Names(ms) == [ms[0].name, ms[1].name]
    ensures |ms| == 3 ==> Names(ms) == [ms[0].name, ms[1].name, ms[2].name]
  {
    if |ms| == 2 || |ms| == 3 {
      NamesAre(ms[..|ms| - 1]);
    }
  }

  lemma RefreshFrom(c: Cache, ms: seq<Machine>, d: Name) returns (mid: Cache)
    requires Valid(c) && ListingOf(d.namespace, ms) && ms != []
    requires forall m <- ms :: m.Worker() && m.Key() == d
    ensures Refreshed(c, ms, mid) && Valid(mid) && Members(mid.deployments, d) == Names(ms)
    ensures forall m <- ms :: m.name in mid.azs && mid.azs[m.name] == m.failureDomain
    ensures forall n :: n in mid.azs <==> n in c.azs || n in Names(ms)
  {
    mid := Cache(Refilled(Truncated(c.deployments, ms), ms), Recorded(c.azs, ms));
    RefreshMeaning(d.namespace, c, ms);
    RefreshKeepsValid(d.namespace, c, ms, mid);
    AllWorkers(ms, d);
    assert ms[0] in ms;
    assert Mentions(ms, d);
    forall m <- ms
      ensures m.name in mid.azs && mid.azs[m.name] == m.failureDomain
    {
      assert ListsWorker(ms, m.name);
      assert AZ(mid.azs, m.name) == m.failureDomain;
    }
  }

  lemma CallBy(c: Cache, q: Request, mid: Cache, j: nat, azs': map<Name, string>)
    requires q.m.name !in c.azs && q.m.Labelled() && q.listing.Items? && Refreshed(c, q.listing.machines, mid)
    requires q.m.name in mid.azs && mid.azs[q.m.name] == ""
    requires var names := Members(mid.deployments, q.m.Key());
             j < |names| && names[j] == q.m.name && Assigned(names, names[..j + 1], q.regions, mid.azs, azs')
    ensures LeastNodesCall(c, q.m, q.regions, q.listing, Cache(mid.deployments, azs'), Ok(AZ(azs', q.m.name)))
  {
    assert Answer(mid, q.m, q.regions, Cache(mid.deployments, azs'), Ok(AZ(azs', q.m.name)));
  }

  ghost predicate CacheValid(c: Cache) {
    Valid(c)
  }

  // Two subregions, and three machines of one deployment.
  datatype Scene = Scene(a: string, b: string, deployment: string, n: Name, p: Name, x: Name)
  {
    ghost predicate Valid() {
      && a != b && a != "" && b != "" && deployment != ""
      && n != p && p != x && n != x && n.namespace == p.namespace == x.namespace
    }

    function Regions(): seq<string> { [a, b] }

    function Key(): Name { Name(n.namespace, deployment) }

    function Worker(name: Name, failureDomain: string): Machine {
      Machine(name, deployment, false, failureDomain)
    }

    lemma {:induction false} NonePlaced(names: seq<Name>, azs: map<Name, string>)
      requires forall n <- names :: AZ(azs, n) == ""
      ensures CountsOf(names, Regions(), azs) == map[a := 0, b := 0]
    {
      if names != [] {
        NonePlaced(names[..|names| - 1], azs);
      }
    }

    // The first machine without a subregion may take either.
    lemma PlaceFirst(names: seq<Name>, azs: map<Name, string>, az: string) returns (azs': map<Name, string>)
      requires Valid() && Distinct(names) && names != [] && (az == a || az == b)
      requires forall n <- names :: n in azs && azs[n] == ""
      ensures azs' == azs[names[0] := az] && Assigned(names, names[..1], Regions(), azs, azs')
      ensures Tally(names, names[..1], Regions(), azs') == map[a := 0, b := 0][az := 1]
    {
      azs' := azs[names[0] := az];
      NonePlaced(names, azs);
      AssignNobody(names, Regions(), azs);
      assert names[..0] == [];
      AssignNext(names, 0, Regions(), azs, azs, az);
    }

    // A listing of these machines.
    ghost predicate Shows(ms: seq<Machine>, names: seq<Name>) {
      && ms != [] && ListingOf(n.namespace, ms) && Names(ms) == names && Distinct(names)
      && forall m <- ms :: m.Worker() && m.Key() == Key()
    }

    lemma ShowsOne(d1: string)
      requires Valid()
      ensures Shows([Worker(n, d1)], [n])
    {
      NamesAre([Worker(n, d1)]);
    }

    lemma ShowsTwo(d1: string, d2: string)
      requires Valid()
      ensures Shows([Worker(n, d1), Worker(p, d2)], [n, p])
    {
      NamesAre([Worker(n, d1), Worker(p, d2)]);
    }

    lemma ShowsThree(d1: string, d2: string)
      requires Valid()
      ensures Shows([Worker(n, d1), Worker(p, d2), Worker(x, "")], [n, p, x])
    {
      NamesAre([Worker(n, d1), Worker(p, d2), Worker(x, "")]);
    }

    // The first machine is placed in a.
    lemma FirstPlaces(c: Cache) returns (mid: Cache, azs': map<Name, string>)
      requires Valid() && c == EMPTY
      ensures CallReady(c, [Worker(n, "")], mid, [n], 0, azs')
      ensures n in azs' && p !in azs' && x !in azs' && azs'[n] == a
    {
      var ms := [Worker(n, "")];
      ShowsOne("");
      mid := RefreshFrom(c, ms, Key());
      assert ms[0] in ms;
      azs' := PlaceFirst([n], mid.azs, a);
    }

    // The second call forgets that, and places the first machine in b and the second in a.
    lemma SecondPlaces(c: Cache) returns (mid: Cache, azs': map<Name, string>)
      requires Valid() && CacheValid(c) && x !in c.azs
      ensures CallReady(c, [Worker(n, ""), Worker(p, "")], mid, [n, p], 1, azs')
      ensures n in azs' && p in azs' && x !in azs' && azs'[n] == b && azs'[p] == a
    {
      mid := SecondRefresh(c);
      azs' := PlaceTwo([n, p], mid.azs);
    }

    lemma SecondRefresh(c: Cache) returns (mid: Cache)
      requires Valid() && CacheValid(c) && x !in c.azs
      ensures Refreshed(c, [Worker(n, ""), Worker(p, "")], mid) && CacheValid(mid)
      ensures ListingOf(n.namespace, [Worker(n, ""), Worker(p, "")]) && Members(mid.deployments, Key()) == [n, p]
      ensures n in mid.azs && p in mid.azs && x !in mid.azs && mid.azs[n] == mid.azs[p] == ""
    {
      var ms := [Worker(n, ""), Worker(p, "")];
      ShowsTwo("", "");
      mid := RefreshFrom(c, ms, Key());
      assert ms[0] in ms && ms[1] in ms;
    }

    // The third call reads the status of both.
    lemma ThirdPlaces(c: Cache) returns (mid: Cache, azs': map<Name, string>)
      requires Valid() && CacheValid(c)
      ensures CallReady(c, [Worker(n, a), Worker(p, a), Worker(x, "")], mid, [n, p, x], 2, azs')
      ensures n in azs' && x in azs' && azs'[n] == a && azs'[x] == b
    {
      var ms, names := [Worker(n, a), Worker(p, a), Worker(x, "")], [n, p, x];
      ShowsThree(a, a);
      mid := RefreshFrom(c, ms, Key());
      assert ms[0] in ms && ms[1] in ms && ms[2] in ms;
      azs' := PlaceThird(names, mid.azs);
    }

    // A refresh from ms gives mid, and placing the first j + 1 of its machines gives azs'.
    ghost predicate CallReady(c: Cache, ms: seq<Machine>, mid: Cache, names: seq<Name>, j: nat,
                              azs': map<Name, string>)
    {
      && Refreshed(c, ms, mid) && CacheValid(mid) && ListingOf(n.namespace, ms)
      && Members(mid.deployments, Key()) == names && j < |names|
      && names[j] in mid.azs && mid.azs[names[j]] == ""
      && Assigned(names, names[..j + 1], Regions(), mid.azs, azs')
    }

    // The call that follows a run.
    lemma Called(run: History, ms: seq<Machine>, mid: Cache, names: seq<Name>, j: nat, azs': map<Name, string>)
      returns (run': History)
      requires Valid() && run.Valid() && CallReady(run.Last(), ms, mid, names, j, azs') && names[j] !in run.Last().azs
      requires names[j].namespace == n.namespace && names[j] in azs'
      ensures run' == run.Extended(Request(Worker(names[j], ""), Regions(), Items(ms)),
                                   Cache(mid.deployments, azs'), Ok(azs'[names[j]]))
      ensures run'.Valid() && CacheValid(Cache(mid.deployments, azs'))
    {
      var m := Worker(names[j], "");
      var q, c', r := Request(m, Regions(), Items(ms)), Cache(mid.deployments, azs'), Ok(azs'[m.name]);
      CallBy(run.Last(), q, mid, j, azs');
      AnswerKeeps(mid, m, Regions(), c', r);
      run' := run.Extended(q, c', r);
      RunExtends(run, q, c', r);
    }

    lemma PlaceTwo(names: seq<Name>, azs: map<Name, string>) returns (azs': map<Name, string>)
      requires Valid() && |names| == 2 && Distinct(names) && forall n <- names :: n in azs && azs[n] == ""
      ensures azs' == azs[names[0] := b][names[1] := a] && Assigned(names, names[..2], Regions(), azs, azs')
    {
      var azs1 := PlaceFirst(names, azs, b);
      azs' := azs1[names[1] := a];
      AssignNext(names, 1, Regions(), azs, azs1, a);
    }

    lemma PlaceThird(names: seq<Name>, azs: map<Name, string>) returns (azs': map<Name, string>)
      requires Valid() && |names| == 3 && Distinct(names) && forall n <- names :: n in azs
      requires azs[names[0]] == azs[names[1]] == a && azs[names[2]] == ""
      ensures azs' == azs[names[2] := b] && Assigned(names, names[..3], Regions(), azs, azs')
    {
      azs' := azs[names[2] := b];
      AssignNobody(names, Regions(), azs);
      assert names[..0] == [];
      AssignSkip(names, 0, Regions(), azs, azs);
      AssignSkip(names, 1, Regions(), azs, azs);
      TwoPlaced(names, azs);
      AssignNext(names, 2, Regions(), azs, azs, b);
    }

    lemma TwoPlaced(names: seq<Name>, azs: map<Name, string>)
      requires Valid() && |names| == 3
      requires AZ(azs, names[0]) == AZ(azs, names[1]) == a && AZ(azs, names[2]) == ""
      ensures CountsOf(names, Regions(), azs) == map[a := 2, b := 0]
    {
      var two, one, none := names[..2], names[..1], names[..0];
      assert names[..2] == two && two[..1] == one && one[..0] == none;
      NonePlaced(none, azs);
      assert CountsOf(one, Regions(), azs) == map[a := 1, b := 0];
      assert CountsOf(two, Regions(), azs) == map[a := 2, b := 0];
    }

    lemma FirstCall(run: History) returns (run': History)
      requires Valid() && run.Valid() && run.Last() == EMPTY
      ensures run'.Valid() && CacheValid(run'.Last())
      ensures run' == run.Extended(Request(Worker(n, ""), Regions(), Items([Worker(n, "")])), run'.Last(), Ok(a))
      ensures AZ(run'.Last().azs, n) == a && p !in run'.Last().azs && x !in run'.Last().azs
    {
      var mid, azs' := FirstPlaces(run.Last());
      run' := Called(run, [Worker(n, "")], mid, [n], 0, azs');
    }

    lemma SecondCall(run: History) returns (run': History)
      requires Valid() && run.Valid() && CacheValid(run.Last()) && p !in run.Last().azs && x !in run.Last().azs
      ensures run'.Valid() && CacheValid(run'.Last())
      ensures run' == run.Extended(Request(Worker(p, ""), Regions(), Items([Worker(n, ""), Worker(p, "")])),
                                   run'.Last(), Ok(a))
      ensures AZ(run'.Last().azs, n) == b && x !in run'.Last().azs
    {
      var mid, azs' := SecondPlaces(run.Last());
      run' := Called(run, [Worker(n, ""), Worker(p, "")], mid, [n, p], 1, azs');
    }

    lemma ThirdCall(run: History) returns (run': History)
      requires Valid() && run.Valid() && CacheValid(run.Last()) && x !in run.Last().azs
      ensures run'.Valid()
      ensures run' == run.Extended(Request(Worker(x, ""), Regions(),
                                           Items([Worker(n, a), Worker(p, a), Worker(x, "")])),
                                   run'.Last(), Ok(b))
      ensures AZ(run'.Last().azs, n) == a
    {
      var mid, azs' := ThirdPlaces(run.Last());
      run' := Called(run, [Worker(n, a), Worker(p, a), Worker(x, "")], mid, [n, p, x], 2, azs');
    }

    // A status only ever records the subregion answered, and yet a refresh switches an assignment
    // directly: the first machine is answered a; the second call refreshes before the status has it, and
    // places that machine in b and its own in a; the third call refreshes with what was answered. Then
    // two machines have been answered a, and none b.
    lemma SwitchingRun() returns (run: History)
      requires Valid()
      ensures run.Valid() && run.caches[0] == EMPTY && |run.requests| == 3
      ensures run.requests[0].m.name == n && run.requests[1].m.name == p
      ensures run.results[0] == run.results[1] == Ok(a)
      ensures forall q <- run.requests :: q.listing.Items? && forall m <- q.listing.machines ::
                m.name == n ==> m.failureDomain == "" || m.failureDomain == a
      ensures AZ(run.caches[1].azs, n) == a && AZ(run.caches[2].azs, n) == b && AZ(run.caches[3].azs, n) == a
    {
      var run1 := FirstCall(History([], [EMPTY], []));
      var run2 := SecondCall(run1);
      run := ThirdCall(run2);
      Unfolds(run1, run2, run);
    }

    lemma Unfolds(run1: History, run2: History, run: History)
      requires |run1.caches| > 0 && |run2.caches| > 0 && |run.caches| > 0
      requires run1 == History([], [EMPTY], []).Extended(Request(Worker(n, ""), Regions(), Items([Worker(n, "")])),
                                                         run1.Last(), Ok(a))
      requires run2 == run1.Extended(Request(Worker(p, ""), Regions(), Items([Worker(n, ""), Worker(p, "")])),
                                     run2.Last(), Ok(a))
      requires run == run2.Extended(Request(Worker(x, ""), Regions(),
                                            Items([Worker(n, a), Worker(p, a), Worker(x, "")])),
                                    run.Last(), Ok(b))
      requires Valid()
      ensures |run.requests| == 3 && |run.caches| == 4 && |run.results| == 3
      ensures run.caches[0] == EMPTY && run.caches[1] == run1.Last() && run.caches[2] == run2.Last()
      ensures run.caches[3] == run.Last() && run.requests[0].m.name == n && run.requests[1].m.name == p
      ensures run.results[0] == run.results[1] == Ok(a)
      ensures forall q <- run.requests :: q.listing.Items? && forall m <- q.listing.machines ::
                m.name == n ==> m.failureDomain == "" || m.failureDomain == a
    {
      assert run.requests[0] == run1.requests[0] && run.requests[1] == run2.requests[1];
    }
  }

  // A run as it unfolds.
  datatype History = History(requests: seq<Request>, caches: seq<Cache>, results: seq<Result>)
  {
    ghost predicate Valid() { Run(requests, caches, results) }

    function Last(): Cache
      requires |caches| > 0
    {
      caches[|caches| - 1]
    }

    function Extended(q: Request, c: Cache, r: Result): History {
      History(requests + [q], caches + [c], results + [r])
    }
  }

  lemma RunExtends(run: History, q: Request, c': Cache, r: Result)
    requires run.Valid() && Serves(q)
    requires LeastNodesCall(run.Last(), q.m, q.regions, q.listing, c', r)
    ensures run.Extended(q, c', r).Valid()
  {
  }
}
