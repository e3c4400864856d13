// The lookups that resolve subnets, NAT services and route tables of a cluster specification, and the
// specifications generated when the user gives none.
module Topology {
  import opened Cidr
  import opened AutoSubnets
  import opened Identifiers
  import opened Options

  datatype NatSpec = NatSpec(name: string, subnetName: string, subregion: string)

  datatype RouteSpec = RouteSpec(destination: string, targetType: string, targetName: string)

  // role is None for the empty role.
  datatype TableSpec = TableSpec(name: string, subnets: seq<string>, role: Option<Role>, subregion: string,
                                 routes: seq<RouteSpec>)

  const NO_NAT := NatSpec("", "", "")
  const ALL := "0.0.0.0/0"

  predicate HasSubstring(s: string, t: string) {
    exists i :: 0 <= i <= |s| && t <= s[i..]
  }

  datatype Cluster = Cluster(name: string, uid: string, netRange: Range, subnets: seq<Subnet>,
                             subregions: seq<string>, subregionName: string,
                             controlPlaneSubnets: seq<string>, loadBalancerSubnet: string,
                             natServices: seq<NatSpec>, natService: NatSpec, routeTables: seq<TableSpec>,
                             internetDisabled: bool, useExistingNet: bool)
  {
    function GetDefaultSubregion(): string {
      if |subregions| > 0 then subregions[0] else subregionName
    }

    function GetSubregions(): (fds: seq<string>)
      ensures |fds| > 0 && fds[0] == GetDefaultSubregion()
    {
      if |subregions| > 0 then subregions else [subregionName]
    }

    ghost function GetSubnets(): seq<Subnet>
      requires IPv4(netRange)
    {
      if |subnets| > 0 then subnets else Generated(netRange, GetSubregions())
    }

    predicate SubnetHasRole(spec: Subnet, role: Option<Role>) {
      if |spec.roles| > 0 then role.Some? && role.value in spec.roles
      else if spec.name in controlPlaneSubnets || HasSubstring(spec.name, "kcp") then role == Some(ControlPlane)
      else if loadBalancerSubnet != "" && spec.name == loadBalancerSubnet then
        role == Some(LoadBalancer) || role == Some(Bastion) || role == Some(Nat)
      else role == Some(Worker)
    }

    predicate SubnetIsPublic(spec: Subnet) {
      SubnetHasRole(spec, Some(Bastion)) || SubnetHasRole(spec, Some(LoadBalancer)) || SubnetHasRole(spec, Some(Nat))
    }

    function Effective(subregion: string): string {
      if subregion != "" then subregion else GetDefaultSubregion()
    }

    predicate Selects(spec: Subnet, name: string, role: Option<Role>, subregion: string) {
      (name != "" && spec.name == name) || (SubnetHasRole(spec, role) && Effective(spec.subregion) == subregion)
    }

    function FirstSubnet(specs: seq<Subnet>, name: string, role: Option<Role>, subregion: string): Option<Subnet> {
      if specs == [] then None
      else if Selects(specs[0], name, role, subregion) then Some(specs[0])
      else FirstSubnet(specs[1..], name, role, subregion)
    }

    ghost function GetSubnet(name: string, role: Option<Role>, subregion: string): Option<Subnet>
      requires IPv4(netRange)
    {
      FirstSubnet(GetSubnets(), name, role, Effective(subregion))
    }

    function NatsOf(specs: seq<Subnet>): seq<NatSpec> {
      if specs == [] then []
      else
        var last := specs[|specs| - 1];
        NatsOf(specs[..|specs| - 1])
        + if SubnetHasRole(last, Some(Nat)) then [NatSpec("", last.name, Effective(last.subregion))] else []
    }

    ghost function GetNatServices(): seq<NatSpec>
      requires IPv4(netRange)
    {
      if internetDisabled || useExistingNet then []
      else if |natServices| > 0 then natServices
      else if natService != NO_NAT then [natService]
      else NatsOf(GetSubnets())
    }

    function FirstNamed(nats: seq<NatSpec>, name: string): Option<NatSpec> {
      if nats == [] then None
      else if nats[0].name == name then Some(nats[0])
      else FirstNamed(nats[1..], name)
    }

    function FirstIn(nats: seq<NatSpec>, subregion: string): Option<NatSpec> {
      if nats == [] then None
      else
        var spec := nats[0].(subregion := Effective(nats[0].subregion));
        if spec.subregion == subregion || subregion == "" then Some(spec) else FirstIn(nats[1..], subregion)
    }

    ghost function GetNatService(name: string, subregion: string): Option<NatSpec>
      requires IPv4(netRange)
    {
      var nats := GetNatServices();
      if name != "" then FirstNamed(nats, name)
      else if |nats| == 1 then Some(nats[0])
      else FirstIn(nats, subregion)
    }

    function GetSubnetName(spec: Subnet): string {
      if spec.name != "" then spec.name
      else
        var fd := Effective(spec.subregion);
        if SubnetIsPublic(spec) then "Public subnet for " + name + "/" + fd
        else if SubnetHasRole(spec, Some(ControlPlane)) then "Controlplane subnet for " + name + "/" + fd
        else if SubnetHasRole(spec, Some(Worker)) then "Worker subnet for " + name + "/" + fd
        else "Subnet for " + name + "/" + fd
    }

    function TableFor(subnet: Subnet): TableSpec {
      TableSpec(GetSubnetName(subnet),
                if subnet.name != "" then [subnet.name] else [],
                if |subnet.roles| > 0 then Some(subnet.roles[0]) else None,
                Effective(subnet.subregion),
                if internetDisabled then []
                else if SubnetIsPublic(subnet) then [RouteSpec(ALL, "gateway", "")]
                else [RouteSpec(ALL, "nat", "")])
    }

    ghost function GetRouteTables(): seq<TableSpec>
      requires IPv4(netRange)
    {
      if |routeTables| > 0 then routeTables
      else seq(|GetSubnets()|, k requires 0 <= k < |GetSubnets()| => TableFor(GetSubnets()[k]))
    }

    function NatToken(service: NatSpec): string {
      NatServiceClientToken(service.name, service.subregion, uid)
    }

    // Nothing is set by hand, and internet is enabled.
    ghost predicate Automatic() {
      && IPv4(netRange) && netRange.Parsed?
      && subnets == [] && natServices == [] && natService == NO_NAT && routeTables == []
      && !internetDisabled && !useExistingNet
    }

    // No two subregions designate the same place. A blank one designates the default one.
    ghost predicate DistinctSubregions() {
      var fds := GetSubregions();
      forall i, j :: 0 <= i < j < |fds| ==> Effective(fds[i]) != Effective(fds[j])
    }

    // ---- Closure of the generated topology ----

    lemma {:induction false} FirstSubnetAt(specs: seq<Subnet>, name: string, role: Option<Role>, subregion: string,
                                           k: nat)
      requires k < |specs| && Selects(specs[k], name, role, subregion)
      requires forall j :: 0 <= j < k ==> !Selects(specs[j], name, role, subregion)
      ensures FirstSubnet(specs, name, role, subregion) == Some(specs[k])
    {
      if k > 0 {
        FirstSubnetAt(specs[1..], name, role, subregion, k - 1);
      }
    }

    // The shape of the generated subnets: three per subregion, one per group of roles.
    ghost predicate Threefold(specs: seq<Subnet>, fds: seq<string>) {
      && |specs| == 3 * |fds|
      && forall k :: 0 <= k < |specs| ==>
           specs[k].name == "" && specs[k].roles == ROLES[k % 3] && specs[k].subregion == fds[k / 3]
    }

    lemma GeneratedIsThreefold()
      requires Automatic()
      ensures Threefold(GetSubnets(), GetSubregions())
    {
      var specs, fds := GetSubnets(), GetSubregions();
      forall k | 0 <= k < |specs|
        ensures specs[k].name == "" && specs[k].roles == ROLES[k % 3] && specs[k].subregion == fds[k / 3]
      {
        assert specs[k] == SubnetAt(Bytes(Base(netRange.prefix)), PatchedMask(netRange.prefix.bits), k, fds[k / 3]);
      }
    }

    // Each role of a generated subnet, with its subregion, leads back to it.
    lemma ThreefoldResolves(specs: seq<Subnet>, k: nat, role: Role)
      requires Threefold(specs, GetSubregions()) && DistinctSubregions()
      requires k < |specs| && role in ROLES[k % 3]
      ensures FirstSubnet(specs, "", Some(role), Effective(GetSubregions()[k / 3])) == Some(specs[k])
    {
      var fds := GetSubregions();
      var fd := Effective(fds[k / 3]);
      forall j | 0 <= j < k
        ensures !Selects(specs[j], "", Some(role), fd)
      {
        if role in ROLES[j % 3] {
          assert j % 3 == k % 3;
          assert j / 3 < k / 3;
        }
      }
      FirstSubnetAt(specs, "", Some(role), fd, k);
    }

    lemma {:induction false} NatsOfThreefold(specs: seq<Subnet>, fds: seq<string>)
      requires Threefold(specs, fds)
      ensures |NatsOf(specs)| == |fds|
      ensures forall i :: 0 <= i < |fds| ==> NatsOf(specs)[i] == NatSpec("", "", Effective(fds[i]))
      decreases |fds|
    {
      if fds != [] {
        var n := |fds| - 1;
        ThreefoldFront(specs, fds);
        NatsOfThreefold(specs[..3 * n], fds[..n]);
        NatsOfLast(specs, fds);
        forall i | 0 <= i < n
          ensures NatsOf(specs)[i] == NatSpec("", "", Effective(fds[i]))
        {
          assert NatsOf(specs[..3 * n])[i] == NatSpec("", "", Effective(fds[..n][i]));
        }
      }
    }

    lemma NatsOfLast(specs: seq<Subnet>, fds: seq<string>)
      requires Threefold(specs, fds) && fds != []
      ensures var n := |fds| - 1;
              NatsOf(specs) == NatsOf(specs[..3 * n]) + [NatSpec("", "", Effective(fds[n]))]
    {
      var m := 3 * (|fds| - 1);
      LastGroup(specs, fds);
      LastThree(specs, m);
      NatsOfGroup(specs[..m], specs[m], specs[m + 1], specs[m + 2]);
    }

    lemma LastThree(specs: seq<Subnet>, m: nat)
      requires |specs| == m + 3
      ensures specs == specs[..m] + [specs[m]] + [specs[m + 1]] + [specs[m + 2]]
    {
    }

    lemma ThreefoldFront(specs: seq<Subnet>, fds: seq<string>)
      requires Threefold(specs, fds) && fds != []
      ensures Threefold(specs[..3 * (|fds| - 1)], fds[..|fds| - 1])
    {
    }

    lemma LastGroup(specs: seq<Subnet>, fds: seq<string>)
      requires Threefold(specs, fds) && fds != []
      ensures var n := |fds| - 1;
              && specs[3 * n].roles == ROLES[0] && specs[3 * n].name == "" && specs[3 * n].subregion == fds[n]
              && specs[3 * n + 1].roles == ROLES[1] && specs[3 * n + 2].roles == ROLES[2]
    {
      var n := |fds| - 1;
      Thirds(n, 0);
      Thirds(n, 1);
      Thirds(n, 2);
    }

    lemma NatsOfGroup(front: seq<Subnet>, one: Subnet, two: Subnet, three: Subnet)
      requires one.roles == ROLES[0] && two.roles == ROLES[1] && three.roles == ROLES[2]
      ensures NatsOf(front + [one] + [two] + [three])
              == NatsOf(front) + [NatSpec("", one.name, Effective(one.subregion))]
    {
      NatsOfNext(front, one);
      NatsOfNext(front + [one], two);
      NatsOfNext(front + [one] + [two], three);
    }

    lemma NatsOfNext(front: seq<Subnet>, next: Subnet)
      requires next.roles in ROLES
      ensures NatsOf(front + [next])
              == if next.roles == ROLES[0] then NatsOf(front) + [NatSpec("", next.name, Effective(next.subregion))]
                 else NatsOf(front)
    {
      assert (front + [next])[..|front|] == front;
    }

    // The i-th subregion of the cluster.
    function RegionAt(i: nat): string
      requires i < |GetSubregions()|
    {
      if |subregions| > 0 then subregions[i] else subregionName
    }

    // The first subnet of each subregion is the public one, found under its three roles.
    lemma PublicResolves(i: nat)
      requires Automatic() && DistinctSubregions() && i < |GetSubregions()|
      ensures |GetSubnets()| == 3 * |GetSubregions()|
      ensures var spec := GetSubnets()[3 * i];
              && spec.roles == [LoadBalancer, Bastion, Nat] && spec.subregion == RegionAt(i)
              && GetSubnet("", Some(LoadBalancer), RegionAt(i)) == Some(spec)
              && GetSubnet("", Some(Bastion), RegionAt(i)) == Some(spec)
              && GetSubnet("", Some(Nat), RegionAt(i)) == Some(spec)
    {
      GroupFound(i, 0, 3 * i, LoadBalancer);
      GroupFound(i, 0, 3 * i, Bastion);
      GroupFound(i, 0, 3 * i, Nat);
    }

    // The second one is for workers.
    lemma WorkersResolve(i: nat)
      requires Automatic() && DistinctSubregions() && i < |GetSubregions()|
      ensures |GetSubnets()| == 3 * |GetSubregions()|
      ensures var spec := GetSubnets()[3 * i + 1];
              && spec.roles == [Worker] && spec.subregion == RegionAt(i)
              && GetSubnet("", Some(Worker), RegionAt(i)) == Some(spec)
    {
      GroupFound(i, 1, 3 * i + 1, Worker);
    }

    // The third one is for the control plane.
    lemma ControlPlaneResolves(i: nat)
      requires Automatic() && DistinctSubregions() && i < |GetSubregions()|
      ensures |GetSubnets()| == 3 * |GetSubregions()|
      ensures var spec := GetSubnets()[3 * i + 2];
              && spec.roles == [ControlPlane] && spec.subregion == RegionAt(i)
              && GetSubnet("", Some(ControlPlane), RegionAt(i)) == Some(spec)
    {
      GroupFound(i, 2, 3 * i + 2, ControlPlane);
    }

    lemma GroupFound(i: nat, r: nat, k: nat, role: Role)
      requires Automatic() && DistinctSubregions() && i < |GetSubregions()|
      requires r < 3 && k == 3 * i + r && role in ROLES[r]
      ensures |GetSubnets()| == 3 * |GetSubregions()|
      ensures GetSubnets()[k].roles == ROLES[r] && GetSubnets()[k].subregion == RegionAt(i)
      ensures GetSubnet("", Some(role), RegionAt(i)) == Some(GetSubnets()[k])
    {
      GeneratedIsThreefold();
      Thirds(i, r);
      SubnetFoundAt(k, role);
    }

    // ---- Lookups in any specification ----

    // The roles of a subnet: those given or, without any, one of three groups by its name.
    lemma RolesMeaning(spec: Subnet, role: Role)
      ensures !SubnetHasRole(spec, None)
      ensures spec.roles != [] ==> (SubnetHasRole(spec, Some(role)) <==> role in spec.roles)
      ensures spec.roles == [] && (spec.name in controlPlaneSubnets || exists a, b :: spec.name == a + "kcp" + b) ==>
                (SubnetHasRole(spec, Some(role)) <==> role == ControlPlane)
      ensures spec.roles == [] && spec.name !in controlPlaneSubnets && !(exists a, b :: spec.name == a + "kcp" + b)
              && loadBalancerSubnet != "" && spec.name == loadBalancerSubnet ==>
                (SubnetHasRole(spec, Some(role)) <==> role == LoadBalancer || role == Bastion || role == Nat)
      ensures spec.roles == [] && spec.name !in controlPlaneSubnets && !(exists a, b :: spec.name == a + "kcp" + b)
              && (loadBalancerSubnet == "" || spec.name != loadBalancerSubnet) ==>
                (SubnetHasRole(spec, Some(role)) <==> role == Worker)
    {
      SubstringMeaning(spec.name, "kcp");
    }

    // The subnet found is the first that has the name, or the role in the subregion; none is found when
    // there is none.
    lemma LookupMeaning(name: string, role: Option<Role>, subregion: string)
      requires IPv4(netRange)
      ensures var specs, place := GetSubnets(), if subregion != "" then subregion else GetDefaultSubregion();
              var found := GetSubnet(name, role, subregion);
              if found.None? then forall k :: 0 <= k < |specs| ==> !Matches(specs[k], name, role, place)
              else exists k :: && 0 <= k < |specs| && found.value == specs[k] && Matches(specs[k], name, role, place)
                               && forall j :: 0 <= j < k ==> !Matches(specs[j], name, role, place)
    {
      FirstMeaning(GetSubnets(), name, role, Effective(subregion));
    }

    predicate Matches(spec: Subnet, name: string, role: Option<Role>, place: string) {
      || (name != "" && spec.name == name)
      || (SubnetHasRole(spec, role)
          && (spec.subregion == place || (spec.subregion == "" && GetDefaultSubregion() == place)))
    }

    lemma {:induction false} FirstMeaning(specs: seq<Subnet>, name: string, role: Option<Role>, place: string)
      requires place != "" || GetDefaultSubregion() == ""
      ensures var found := FirstSubnet(specs, name, role, place);
              if found.None? then forall k :: 0 <= k < |specs| ==> !Matches(specs[k], name, role, place)
              else exists k :: && 0 <= k < |specs| && found.value == specs[k] && Matches(specs[k], name, role, place)
                               && forall j :: 0 <= j < k ==> !Matches(specs[j], name, role, place)
    {
      if specs != [] {
        var rest := specs[1..];
        FirstMeaning(rest, name, role, place);
        assert Selects(specs[0], name, role, place) <==> Matches(specs[0], name, role, place);
        if !Selects(specs[0], name, role, place) && FirstSubnet(specs, name, role, place).Some? {
          var k :| && 0 <= k < |rest| && FirstSubnet(rest, name, role, place).value == rest[k]
                   && Matches(rest[k], name, role, place)
                   && forall j :: 0 <= j < k ==> !Matches(rest[j], name, role, place);
          forall j | 0 <= j < k + 1
            ensures !Matches(specs[j], name, role, place)
          {
            if j > 0 { assert rest[j - 1] == specs[j]; }
          }
          assert specs[k + 1] == rest[k];
        }
        if FirstSubnet(specs, name, role, place).None? {
          forall k | 0 <= k < |specs|
            ensures !Matches(specs[k], name, role, place)
          {
            if k > 0 { assert rest[k - 1] == specs[k]; }
          }
        }
      }
    }

    // Subnets given by hand, with names of their own, and no route tables: the table made for a subnet leads back to
    // it exactly when no earlier subnet of the same subregion has the first role given for it.
    lemma ManualTableResolvesExactly(k: nat)
      requires subnets != [] && routeTables == [] && IPv4(netRange) && k < |subnets|
      requires (forall i :: 0 <= i < |subnets| ==> subnets[i].name != "")
      requires forall i, j :: 0 <= i < j < |subnets| ==> subnets[i].name != subnets[j].name
      ensures |GetRouteTables()| == |subnets|
      ensures var table := GetRouteTables()[k];
              && table.subnets == [subnets[k].name]
              && (GetSubnet(table.subnets[0], table.role, table.subregion) == Some(subnets[k])
                  <==> subnets[k].roles == []
                       || forall j :: 0 <= j < k ==>
                            !(SubnetHasRole(subnets[j], Some(subnets[k].roles[0]))
                              && Effective(subnets[j].subregion) == Effective(subnets[k].subregion)))
    {
      var table := GetRouteTables()[k];
      var place := Effective(subnets[k].subregion);
      assert table == TableFor(subnets[k]);
      forall j | 0 <= j < k
        ensures Matches(subnets[j], subnets[k].name, table.role, place)
                <==> SubnetHasRole(subnets[j], table.role) && Effective(subnets[j].subregion) == place
        ensures !SubnetHasRole(subnets[j], None)
      {
        RolesMeaning(subnets[j], Worker);
      }
      assert Matches(subnets[k], subnets[k].name, table.role, place);
      FoundExactly(subnets[k].name, table.role, place, k);
    }

    // Among subnets with names of their own, one that matches is found exactly when no earlier one does.
    lemma FoundExactly(name: string, role: Option<Role>, place: string, k: nat)
      requires subnets != [] && IPv4(netRange) && k < |subnets| && (place != "" || GetDefaultSubregion() == "")
      requires forall i, j :: 0 <= i < j < |subnets| ==> subnets[i].name != subnets[j].name
      requires Matches(subnets[k], name, role, place)
      ensures GetSubnet(name, role, place) == Some(subnets[k])
         <==> forall j :: 0 <= j < k ==> !Matches(subnets[j], name, role, place)
    {
      FirstMeaning(subnets, name, role, Effective(place));
    }

    // The NAT services: none without internet or in an existing net, else those given, else the one given, else
    // one for each subnet that has the role, in its subregion.
    lemma NatServicesMeaning()
      requires IPv4(netRange)
      ensures internetDisabled || useExistingNet ==> GetNatServices() == []
      ensures !internetDisabled && !useExistingNet && natServices != [] ==> GetNatServices() == natServices
      ensures !internetDisabled && !useExistingNet && natServices == [] ==>
                if natService != NatSpec("", "", "") then GetNatServices() == [natService]
                else forall s :: s in GetNatServices() <==> exists k :: HostsNat(GetSubnets(), k, s)
    {
      NatsMeaning(GetSubnets());
    }

    // The NAT service s is that of the subnet k.
    ghost predicate HostsNat(specs: seq<Subnet>, k: int, s: NatSpec) {
      && 0 <= k < |specs| && SubnetHasRole(specs[k], Some(Nat)) && s.name == "" && s.subnetName == specs[k].name
      && s.subregion == if specs[k].subregion != "" then specs[k].subregion else GetDefaultSubregion()
    }

    lemma {:induction false} NatsMeaning(specs: seq<Subnet>)
      ensures forall s :: s in NatsOf(specs) <==> exists k :: HostsNat(specs, k, s)
    {
      if specs != [] {
        var n := |specs| - 1;
        NatsMeaning(specs[..n]);
        forall s
          ensures s in NatsOf(specs) <==> exists k :: HostsNat(specs, k, s)
        {
          assert forall k :: 0 <= k < n ==> (HostsNat(specs, k, s) <==> HostsNat(specs[..n], k, s));
          assert s in NatsOf(specs) <==> s in NatsOf(specs[..n]) || HostsNat(specs, n, s);
        }
      }
    }

    // The route tables are those given, or one for each subnet: a subnet with a public role has a route to the
    // gateway, any other one to a NAT service, and none without internet.
    lemma TablesMeaning(k: nat)
      requires IPv4(netRange)
      ensures routeTables != [] ==> GetRouteTables() == routeTables
      ensures routeTables == [] ==> |GetRouteTables()| == |GetSubnets()|
      ensures routeTables == [] && k < |GetSubnets()| ==>
                var spec, table := GetSubnets()[k], GetRouteTables()[k];
                && table.subregion == (if spec.subregion != "" then spec.subregion else GetDefaultSubregion())
                && (spec.name != "" ==> table.name == spec.name && table.subnets == [spec.name])
                && (internetDisabled ==> table.routes == [])
                && (!internetDisabled && spec.roles != [] ==>
                      table.routes == if LoadBalancer in spec.roles || Bastion in spec.roles || Nat in spec.roles
                                      then [RouteSpec("0.0.0.0/0", "gateway", "")]
                                      else [RouteSpec("0.0.0.0/0", "nat", "")])
    {
      if routeTables == [] && k < |GetSubnets()| {
        assert GetRouteTables()[k] == TableFor(GetSubnets()[k]);
        RolesMeaning(GetSubnets()[k], Nat);
      }
    }

    // No NAT service waits for itself: the subnets that host one, given or generated, all have a route to the gateway.
    lemma NatSubnetsReachTheGateway(s: NatSpec)
      requires IPv4(netRange) && routeTables == [] && natServices == [] && natService == NO_NAT
      requires s in GetNatServices()
      ensures exists k :: && 0 <= k < |GetSubnets()| && k < |GetRouteTables()| && GetSubnets()[k].name == s.subnetName
                          && GetRouteTables()[k].routes == [RouteSpec("0.0.0.0/0", "gateway", "")]
    {
      NatServicesMeaning();
      var k :| HostsNat(GetSubnets(), k, s);
      assert GetRouteTables()[k] == TableFor(GetSubnets()[k]);
    }

    // The names of the generated tables.
    lemma GeneratedNames(i: nat)
      requires Automatic() && i < |GetSubregions()|
      ensures |GetRouteTables()| == 3 * |GetSubregions()|
      ensures var fd := Effective(RegionAt(i));
              && GetRouteTables()[3 * i].name == "Public subnet for " + name + "/" + fd
              && GetRouteTables()[3 * i + 1].name == "Worker subnet for " + name + "/" + fd
              && GetRouteTables()[3 * i + 2].name == "Controlplane subnet for " + name + "/" + fd
    {
      NameAt(i, 0, 3 * i);
      NameAt(i, 1, 3 * i + 1);
      NameAt(i, 2, 3 * i + 2);
    }

    lemma NameAt(i: nat, r: nat, k: nat)
      requires Automatic() && i < |GetSubregions()| && r < 3 && k == 3 * i + r
      ensures |GetRouteTables()| == 3 * |GetSubregions()|
      ensures GetRouteTables()[k].name == NameOf(r) + name + "/" + Effective(RegionAt(i))
    {
      GeneratedIsThreefold();
      Thirds(i, r);
      assert GetRouteTables()[k] == TableFor(GetSubnets()[k]);
      NameForGroup(GetSubnets()[k], r);
    }

    function NameOf(r: nat): string {
      if r == 0 then "Public subnet for " else if r == 1 then "Worker subnet for " else "Controlplane subnet for "
    }

    lemma NameForGroup(subnet: Subnet, r: nat)
      requires r < 3 && subnet.name == "" && subnet.roles == ROLES[r]
      ensures TableFor(subnet).name == NameOf(r) + name + "/" + Effective(subnet.subregion)
    {
    }

    // The NAT service found: by name, or the only one, or the first of the subregion.
    lemma NatLookupMeaning(name: string, subregion: string)
      requires IPv4(netRange)
      ensures var nats, found := GetNatServices(), GetNatService(name, subregion);
              && (name != "" ==>
                    if found.None? then forall k :: 0 <= k < |nats| ==> nats[k].name != name
                    else exists k :: && 0 <= k < |nats| && found.value == nats[k] && nats[k].name == name
                                     && forall j :: 0 <= j < k ==> nats[j].name != name)
              && (name == "" && |nats| == 1 ==> found == Some(nats[0]))
              && (name == "" && |nats| != 1 ==>
                    if found.None? then forall k :: 0 <= k < |nats| ==> !Near(nats[k], subregion)
                    else exists k :: && 0 <= k < |nats| && found.value == nats[k].(subregion := found.value.subregion)
                                     && Near(nats[k], subregion)
                                     && forall j :: 0 <= j < k ==> !Near(nats[j], subregion))
    {
      FirstNamedMeaning(GetNatServices(), name);
      FirstInMeaning(GetNatServices(), subregion);
    }

    predicate Near(nat_: NatSpec, subregion: string) {
      || subregion == "" || nat_.subregion == subregion
      || (nat_.subregion == "" && GetDefaultSubregion() == subregion)
    }

    lemma {:induction false} FirstNamedMeaning(nats: seq<NatSpec>, name: string)
      ensures var found := FirstNamed(nats, name);
              if found.None? then forall k :: 0 <= k < |nats| ==> nats[k].name != name
              else exists k :: && 0 <= k < |nats| && found.value == nats[k] && nats[k].name == name
                               && forall j :: 0 <= j < k ==> nats[j].name != name
    {
      if nats != [] && nats[0].name != name {
        var rest := nats[1..];
        FirstNamedMeaning(rest, name);
        if FirstNamed(nats, name).Some? {
          var k :| && 0 <= k < |rest| && FirstNamed(rest, name).value == rest[k] && rest[k].name == name
                   && forall j :: 0 <= j < k ==> rest[j].name != name;
          forall j | 0 <= j < k + 1
            ensures nats[j].name != name
          {
            if j > 0 { assert rest[j - 1] == nats[j]; }
          }
          assert nats[k + 1] == rest[k];
        } else {
          forall k | 0 <= k < |nats|
            ensures nats[k].name != name
          {
            if k > 0 { assert rest[k - 1] == nats[k]; }
          }
        }
      }
    }

    lemma {:induction false} FirstInMeaning(nats: seq<NatSpec>, subregion: string)
      ensures var found := FirstIn(nats, subregion);
              if found.None? then forall k :: 0 <= k < |nats| ==> !Near(nats[k], subregion)
              else exists k :: && 0 <= k < |nats| && found.value == nats[k].(subregion := found.value.subregion)
                               && Near(nats[k], subregion)
                               && forall j :: 0 <= j < k ==> !Near(nats[j], subregion)
    {
      if nats != [] && !Near(nats[0], subregion) {
        var rest := nats[1..];
        FirstInMeaning(rest, subregion);
        if FirstIn(nats, subregion).Some? {
          var k :| && 0 <= k < |rest|
                   && FirstIn(rest, subregion).value == rest[k].(subregion := FirstIn(rest, subregion).value.subregion)
                   && Near(rest[k], subregion)
                   && forall j :: 0 <= j < k ==> !Near(rest[j], subregion);
          forall j | 0 <= j < k + 1
            ensures !Near(nats[j], subregion)
          {
            if j > 0 { assert rest[j - 1] == nats[j]; }
          }
          assert nats[k + 1] == rest[k];
        } else {
          forall k | 0 <= k < |nats|
            ensures !Near(nats[k], subregion)
          {
            if k > 0 { assert rest[k - 1] == nats[k]; }
          }
        }
      }
    }

    lemma NatsAre()
      requires Automatic()
      ensures var fds, nats := GetSubregions(), GetNatServices();
              |nats| == |fds| && forall i :: 0 <= i < |fds| ==> nats[i] == NatSpec("", "", Effective(fds[i]))
    {
      GeneratedIsThreefold();
      NatsOfThreefold(GetSubnets(), GetSubregions());
    }

    lemma {:induction false} FirstInAt(nats: seq<NatSpec>, subregion: string, i: nat)
      requires i < |nats| && nats[i].subregion == subregion == Effective(subregion)
      requires forall j :: 0 <= j < i ==> Effective(nats[j].subregion) != subregion
      requires i > 0 ==> subregion != ""
      ensures FirstIn(nats, subregion) == Some(nats[i])
    {
      if i > 0 {
        FirstInAt(nats[1..], subregion, i - 1);
      }
    }

    lemma GeneratedNatResolves(i: nat)
      requires Automatic() && DistinctSubregions() && i < |GetSubregions()|
      ensures i < |GetNatServices()|
      ensures GetNatService("", Effective(GetSubregions()[i])) == Some(GetNatServices()[i])
    {
      NatsAre();
      NatFound(GetNatServices(), GetSubregions(), i);
    }

    lemma NatFound(nats: seq<NatSpec>, fds: seq<string>, i: nat)
      requires |nats| == |fds| && i < |fds| && fds[0] == GetDefaultSubregion()
      requires forall j :: 0 <= j < |nats| ==> nats[j] == NatSpec("", "", Effective(fds[j]))
      requires forall j, k :: 0 <= j < k < |fds| ==> Effective(fds[j]) != Effective(fds[k])
      ensures FirstIn(nats, Effective(fds[i])) == Some(nats[i])
    {
      assert i > 0 ==> Effective(fds[0]) != Effective(fds[i]);
      FirstInAt(nats, Effective(fds[i]), i);
    }

    // The generated specifications refer to each other consistently: each route table leads back to its
    // own subnet, each route to a NAT service leads to that of its own subregion, which sits in the
    // public subnet of that subregion, and the tokens of the NAT services are distinct.
    lemma GeneratedTopologyIsClosed()
      requires Automatic() && DistinctSubregions()
      ensures |GetSubnets()| == |GetRouteTables()| == 3 * |GetSubregions()| && |GetNatServices()| == |GetSubregions()|
      ensures forall k :: 0 <= k < |GetRouteTables()| ==> TableCloses(k)
      ensures forall i :: 0 <= i < |GetNatServices()| ==> NatCloses(i)
      ensures forall i, j :: 0 <= i < j < |GetNatServices()| ==>
                NatToken(GetNatServices()[i]) != NatToken(GetNatServices()[j])
    {
      NatsAre();
      GeneratedIsThreefold();
      forall k: nat | k < |GetRouteTables()|
        ensures TableCloses(k)
      {
        TableClosesAt(k);
      }
      forall i: nat | i < |GetNatServices()|
        ensures NatCloses(i)
      {
        NatClosesAt(i);
      }
      TokensDistinctExactly();
    }

    lemma TableClosesAt(k: nat)
      requires Automatic() && DistinctSubregions() && k < |GetRouteTables()|
      ensures TableCloses(k)
    {
      GeneratedIsThreefold();
      TableAt(k);
      SubnetFoundAt(k, ROLES[k % 3][0]);
      NatFoundAt(k);
    }

    // The k-th table is that of the k-th subnet.
    lemma TableAt(k: nat)
      requires Automatic() && k < |GetRouteTables()| && k < |GetSubnets()|
      ensures TableIs(GetRouteTables()[k], GetSubnets()[k], k % 3)
    {
      GeneratedIsThreefold();
      TableForGroup(GetSubnets()[k], k % 3);
    }

    // Each role of the k-th subnet, with its subregion, leads back to it.
    lemma SubnetFoundAt(k: nat, role: Role)
      requires Automatic() && DistinctSubregions() && k < |GetSubnets()| && role in ROLES[k % 3]
      ensures GetSubnet("", Some(role), Effective(GetSubnets()[k].subregion)) == Some(GetSubnets()[k])
    {
      GeneratedIsThreefold();
      ThreefoldResolves(GetSubnets(), k, role);
    }

    // The subregion of the k-th subnet leads to its NAT service.
    lemma NatFoundAt(k: nat)
      requires Automatic() && DistinctSubregions() && k < |GetSubnets()|
      ensures k / 3 < |GetNatServices()|
      ensures GetNatService("", Effective(GetSubnets()[k].subregion)) == Some(GetNatServices()[k / 3])
    {
      GeneratedIsThreefold();
      GeneratedNatResolves(k / 3);
    }

    predicate TableIs(table: TableSpec, subnet: Subnet, r: nat)
      requires r < 3
    {
      && table.subnets == [] && table.role == Some(ROLES[r][0]) && table.subregion == Effective(subnet.subregion)
      && table.routes == [RouteSpec(ALL, if r == 0 then "gateway" else "nat", "")]
    }

    // The table generated for an unnamed subnet of one of the groups of roles.
    lemma TableForGroup(subnet: Subnet, r: nat)
      requires r < 3 && subnet.name == "" && subnet.roles == ROLES[r] && !internetDisabled
      ensures TableIs(TableFor(subnet), subnet, r)
    {
      assert SubnetIsPublic(subnet) <==> r == 0;
    }

    lemma NatClosesAt(i: nat)
      requires Automatic() && DistinctSubregions() && i < |GetNatServices()|
      ensures NatCloses(i)
    {
      NatsAre();
      PublicSubnetAt(i);
      PublicGroup(GetSubnets()[3 * i]);
    }

    // The first subnet of the i-th subregion is the public one.
    lemma PublicSubnetAt(i: nat)
      requires Automatic() && DistinctSubregions() && i < |GetSubregions()|
      ensures 3 * i < |GetSubnets()|
      ensures var subnet := GetSubnets()[3 * i];
              && subnet.roles == ROLES[0] && subnet.subregion == GetSubregions()[i]
              && GetSubnet("", Some(Nat), Effective(GetSubregions()[i])) == Some(subnet)
    {
      GeneratedIsThreefold();
      Thirds(i, 0);
      SubnetFoundAt(3 * i, Nat);
    }

    lemma PublicGroup(subnet: Subnet)
      requires subnet.roles == ROLES[0]
      ensures SubnetIsPublic(subnet)
    {
    }

    ghost predicate TableCloses(k: nat)
      requires IPv4(netRange)
    {
      && k < |GetRouteTables()| && k < |GetSubnets()| && k / 3 < |GetNatServices()|
      && var table := GetRouteTables()[k];
      && table.subnets == [] && table.role.Some?
      && GetSubnet("", table.role, table.subregion) == Some(GetSubnets()[k])
      && table.routes == [RouteSpec(ALL, if k % 3 == 0 then "gateway" else "nat", "")]
      && GetNatService("", table.subregion) == Some(GetNatServices()[k / 3])
    }

    ghost predicate NatCloses(i: nat)
      requires IPv4(netRange)
    {
      && i < |GetNatServices()| && 3 * i < |GetSubnets()|
      && var service, subnet := GetNatServices()[i], GetSubnets()[3 * i];
      && GetSubnet(service.subnetName, Some(Nat), service.subregion) == Some(subnet)
      && SubnetIsPublic(subnet)
      && Effective(subnet.subregion) == service.subregion
    }

    // The tokens are distinct exactly when the subregions are.
    lemma TokensDistinctExactly()
      requires Automatic()
      ensures (forall i, j :: 0 <= i < j < |GetNatServices()|
                 ==> NatToken(GetNatServices()[i]) != NatToken(GetNatServices()[j]))
              <==> DistinctSubregions()
    {
      var fds, nats := GetSubregions(), GetNatServices();
      NatsAre();
      forall i, j | 0 <= i < j < |nats|
        ensures NatToken(nats[i]) == NatToken(nats[j]) <==> Effective(fds[i]) == Effective(fds[j])
      {
        SameToken(nats[i], nats[j]);
      }
    }

    lemma SameToken(one: NatSpec, other: NatSpec)
      requires one.name == other.name == ""
      ensures NatToken(one) == NatToken(other) <==> one.subregion == other.subregion
    {
      assert NatToken(one) == one.subregion + ("-" + uid);
      assert NatToken(other) == other.subregion + ("-" + uid);
      SuffixCancels(one.subregion, other.subregion, "-" + uid);
    }
  }

  lemma SubstringMeaning(s: string, t: string)
    ensures HasSubstring(s, t) <==> exists a, b :: s == a + t + b
  {
    if i :| 0 <= i <= |s| && t <= s[i..] {
      assert s == s[..i] + t + s[i + |t|..];
    }
    if a, b :| s == a + t + b {
      assert s[|a|..] == t + b;
    }
  }

  lemma SuffixCancels(a: string, b: string, suffix: string)
    ensures a + suffix == b + suffix <==> a == b
  {
    if a + suffix == b + suffix {
      assert (a + suffix)[..|a|] == a;
      assert (b + suffix)[..|b|] == b;
    }
  }
}
