# Verified model of the Outscale cluster API provider

The provider is a Kubernetes controller: it compares the specification of a cluster or of a machine with
what a cloud account holds, and calls the cloud to bring the two together. A pass stops at the first call
that fails and is run again later, so what matters is what any sequence of complete and incomplete passes
leaves behind.

The model follows the controller's own form. What the code updates (a cloud account, a status map, a cache,
a machine) is the mutable state of a class, the loops are loops, and each method is proved against a
specification function or a relation between the state before and the state after. Runs, that is sequences
of passes, faults, losses of the status and moves of the cloud, are then treated by lemmas about these
specifications. A cloud call may fail, and a call that reports a failure may still have had its effect.
Iteration over a map, random draws and the answers of the cloud are nondeterministic.

- `SecurityGroupRules.dfy`: the two-phase diff of one security group's rules, computed from one snapshot.
- `WaterFilling.dfy`, `MultiAZ.dfy`: the allocator that places machines in the least loaded subregion, and its cache.
- `Cidr.dfy`, `AutoSubnets.dfy`, `Pow2.dfy`: the validator of subnet ranges, and the subnets generated byte by byte.
- `Topology.dfy`: the lookups among generated subnets, NAT services and route tables.
- `Identifiers.dfy`: client tokens and provider identifiers.
- `Tracker.dfy`: find-or-create of nets, subnets, NAT services and security groups under crashes and status loss.
- `Pipeline.dfy`: the ordered stages of a cluster pass and the generations that gate them.
- `RouteTables.dfy`: the pass that links subnets to route tables and adds routes, run twice per reconciliation.
- `NetPeeringRoutes.dfy`: the passes that add and delete the routes to a net peering.
- `PublicIps.dfy`: allocation, tracking and release of public IPs.
- `MachineVm.dfy`: the machine pass over a VM and its flexible GPU (fGPU).
- `Options.dfy`, `Faults.dfy`, `Collections.dfy`: an option type, the failure of a call, and facts on sequences and sets.

Some properties that the code or its documentation suggests do not hold on all inputs. For these, the model
keeps the code as it is, proves exactly when the property holds, and gives a witness where one helps:

- An authoritative security-group pass converges, and never deletes what its own additions recognise, if and only
  if every grant asked for is also stated with the exact flow (`SecurityGroupRules.ConvergesExactly`,
  `SecurityGroupRules.DeletesItsOwnExactly`). The additions fold the case of a flow, the deletions do not, and
  neither webhook stops such a flow: that of v1beta2 validates nothing
  (api/v1beta2/osccluster_webhook.go:65-87), that of v1beta1 validates at creation only
  (api/v1beta1/osccluster_webhook.go:45-56). A grant asked for under an inexact flow comes and goes with each
  successful pass (`SecurityGroupRules.InexactFlowToggles`).
- A fault-free route-table pass leaves a selected subnet with exactly one table if and only if it had one, or all the
  specifications that select it open the same one (`RouteTables.PassLinksEachSubnet`).
- A net peering is up to date after a successful pass if and only if it was before, or was not found active
  (`Pipeline.ActivePeeringStaysBehind`); a pass that leaves it behind is possible from every state where it is not up to
  date (`Pipeline.PeeringMayStayBehind`).
- A key that holds no free IP may be given, from a pool, one that another key tracks if and only if the pool lists a
  free one that another key tracks (`PublicIps.PoolSharesExactly`).
- A refresh of the allocator's cache keeps, forgets or switches an assignment exactly as the status has the same
  subregion, none, or another one (`MultiAZ.RefreshTrichotomy`). Even if statuses only ever record what was answered,
  a refresh may switch an assignment directly, and two machines may both be answered one subregion while
  another is empty (`MultiAZ.Scene.SwitchingRun`).
- Looking up a resource again after a loss of the status gives the same identifier if and only if the first one did
  not depend on the status alone (`Tracker.Reconciler.NetAgain` and the members after it;
  `Tracker.LossChangesLookup` is a witness).
- A success of find-or-create makes a duplicate if and only if the identifier remembered is that of a
  resource that is gone while another one lives under the key (`Tracker.Ensure`; `Tracker.GoneMakesDouble` is a
  witness).
- A worker's VM is started without its fGPU attached if and only if the pass read an fGPU that was lost before it
  was ever linked, for a VM that exists; every later start and declaration of readiness is then out of order
  too (`MachineVm.StartsExactly`, `MachineVm.StrandedStartsUnordered`). Only an fGPU lost while attaching is open: the
  cloud may or may not attach it in time. `MachineVm.LossStrands` is such a run from the initial state.
- The generated subnets are accepted by the validator if and only if the net has between 8 and 24 bits and
  its third bytes have room for them (`AutoSubnets.GeneratedAcceptedIff`).
- A single subnet range may cover the net: the validator tests overlapping only (`Cidr.SingleRange`).
- Deleting the peering routes restores all tables if and only if none had a route to the peering before
  (`NetPeeringRoutes.DeleteRestoresExactly`).
- The table made for a subnet given by hand, under a name of its own, leads back to it if and only if its roles are not
  given or no earlier subnet of the subregion has the first of them (`Topology.Cluster.ManualTableResolvesExactly`):
  the lookup tries name and role on each subnet in turn, and takes the first that has either.
- The token of a NAT service without a name has at most 64 characters if and only if its subregion and the identifier of
  the cluster have at most 63 together: only named tokens are cut (`Identifiers.NatTokenParts`).
- Reading back an instance identifier gives the one that was set if and only if it has no slash and no
  newline is in the way (`Identifiers.InstanceRoundTrip`).

## Model

| member | source | states |
|---|---|---|
| SecurityGroupRules.ExistingRanges | controllers/osccluster_securitygroup.go:38-44 | the ranges gathered are exactly those some listed rule of the same protocol and ports has, members or not |
| SecurityGroupRules.CreateMissing | controllers/osccluster_securitygroup.go:45-55 | one specification: on success every missing range was asked for, in order, on failure a prefix of these calls took effect |
| SecurityGroupRules.ReconcileAddRules | controllers/osccluster_securitygroup.go:23-58 | the add phase issues its calls in order, all on success and a prefix on failure, and the cloud is what these calls make of it |
| SecurityGroupRules.OkRanges | controllers/osccluster_securitygroup.go:72-80 | the ranges tolerated are exactly those some specification of the same flow, protocol and ports wants |
| SecurityGroupRules.DeleteStale | controllers/osccluster_securitygroup.go:81-91 | one rule: on success every range nobody wants was asked to be deleted, on failure a prefix |
| SecurityGroupRules.CheckRules | controllers/osccluster_securitygroup.go:64-94 | rules with members are skipped, the others pruned in order |
| SecurityGroupRules.ReconcileDeleteRules | controllers/osccluster_securitygroup.go:61-104 | the delete phase goes through inbound then outbound rules, and stops at the first failure |
| SecurityGroupRules.ReconcileRules | controllers/osccluster_securitygroup.go:156-163 | a pass adds, then deletes only if additions succeeded and the specification is authoritative, both from one snapshot; and, from the fields of the specifications alone, which grants a success leaves: everything stated by a range of the list, or by the single range of a specification without a list, and with authority nothing else outside rules with members |
| SecurityGroupRules.WantedMeaning | api/v1beta2/types.go:390-398 | a grant is wanted if and only if a specification has its flow, protocol and ports, and lists its range, or lists none and has it as its single, not empty, range |
| SecurityGroupRules.PassLeaves | controllers/osccluster_securitygroup.go:156-163 | what a pass leaves for any grant, in terms of the fields of the specifications |
| SecurityGroupRules.FlowSpellings | controllers/osccluster_securitygroup.go:28-33 | a flow is compared with the inbound rules, or the outbound ones, if and only if it is that word with each letter in either case, and with none otherwise |
| SecurityGroupRules.AddCallsMeaning | controllers/osccluster_securitygroup.go:26-56 | a grant is created if and only if it is wanted and no rule of the snapshot has it, the case of its flow apart |
| SecurityGroupRules.DeleteCallsMeaning | controllers/osccluster_securitygroup.go:64-103 | a grant is deleted if and only if it is unwanted and sits in a rule without members |
| SecurityGroupRules.PassCallsMeaning | controllers/osccluster_securitygroup.go:23-104 | what any prefix of a pass can contain, and what it must contain from the end of the additions on |
| SecurityGroupRules.CreatesMeaning | controllers/osccluster_securitygroup.go:26-56 | what a prefix of a pass creates, as the cloud files it: only grants asked for and not listed, and all of them once the additions are over |
| SecurityGroupRules.IntermediateSafety | controllers/osccluster_securitygroup.go:156-163 | at every state a pass goes through no wanted grant present is absent and no guarded one is lost; right after the additions everything asked for is present, and from then on every wanted grant is |
| SecurityGroupRules.EachCallProgresses | controllers/osccluster_securitygroup.go:45-92 | each call that does not repeat an earlier one lowers by exactly one the distance to the specification, except on a grant asked for under an inexact flow only, where it leaves it as it is |
| SecurityGroupRules.PassConverges | controllers/osccluster_securitygroup.go:156-163 | what a successful authoritative pass leaves, for all flows; it reaches the target exactly when no grant asked for under an inexact flow only was present; a failed pass does not move the target |
| SecurityGroupRules.AdditivePass | controllers/osccluster_securitygroup.go:157-160 | without authority a successful pass only adds what is missing |
| SecurityGroupRules.SilentExactlyAtTarget | controllers/osccluster_securitygroup.go:23-104 | exactly when a pass issues no call; if the flows agree, if and only if the cloud is at the target, however it groups ranges in rules |
| SecurityGroupRules.RunConverges | controllers/osccluster_securitygroup.go:107-167 | after any number of passes failing anywhere and one success, exactly when the cloud is at the target; if the flows agree it is, and later passes are silent |
| SecurityGroupRules.InexactFlowToggles | controllers/osccluster_securitygroup.go:28-76 | a grant asked for under an inexact flow only is created by a successful pass if absent and deleted if present |
| SecurityGroupRules.DeletesItsOwnExactly | controllers/osccluster_securitygroup.go:28-90 | no snapshot makes a pass delete a grant that its own additions recognise, if and only if the flows agree |
| SecurityGroupRules.ConvergesExactly | controllers/osccluster_securitygroup.go:156-163 | every successful pass reaches the target, if and only if the flows agree |
| SecurityGroupRules.FoldedFlowDeletesItsOwnRule | controllers/osccluster_securitygroup.go:28-74 | a witness: a lower-case flow for which a pass deletes the rule it wants |
| WaterFilling.GreedyConserves | controllers/oscmachine_multiaz.go:148-165 | placements lose no machine and lower no count |
| WaterFilling.GreedyFills | controllers/oscmachine_multiaz.go:153-164 | counts above the final minimum are untouched, all others end at it or one above |
| WaterFilling.GreedyBalances | controllers/oscmachine_multiaz.go:153-164 | a subregion that received a machine ends at most one above the minimum, and the spread never exceeds the larger of its first value and one |
| WaterFilling.TiesDoNotMatter | controllers/oscmachine_multiaz.go:155-160 | the final multiset of counts is the same for every order of iteration |
| MultiAZ.MultiAZAllocator.AllocateAZ | controllers/oscmachine_multiaz.go:62-73 | no subregion is an error, one is the answer, random mode draws one of them and leaves the cache alone, otherwise a least-nodes call |
| MultiAZ.MultiAZAllocator.AllocateLeastNodeAZ | controllers/oscmachine_multiaz.go:81-101 | a cached subregion is returned as it is; a missing entry causes a refresh first; an empty one causes an allocation |
| MultiAZ.MultiAZAllocator.RefreshWorkers | controllers/oscmachine_multiaz.go:103-135 | after a refresh each deployment that a listed machine is labelled with has exactly the listed machines that carry its label and are no control planes, in the order of the listing, with the subregion of their status, and others are untouched |
| MultiAZ.MultiAZAllocator.Truncate | controllers/oscmachine_multiaz.go:110-119 | the first loop empties the lists of the deployments listed and no other |
| MultiAZ.MultiAZAllocator.Refill | controllers/oscmachine_multiaz.go:121-133 | the second loop appends each worker to its deployment and overwrites its subregion with that of the status |
| MultiAZ.MultiAZAllocator.AllocateOne | controllers/oscmachine_multiaz.go:137-171 | machines before the one asked for, and itself, are placed in order; it is an error if the deployment does not have it, and another one exactly when the machine has no label |
| MultiAZ.MultiAZAllocator.AssignUpTo | controllers/oscmachine_multiaz.go:149-169 | the loop places, greedily, exactly the machines without a subregion up to the one asked for |
| MultiAZ.MultiAZAllocator.PlaceNext | controllers/oscmachine_multiaz.go:150-165 | one machine takes a least loaded subregion and the counts follow |
| MultiAZ.CountPerAZ | controllers/oscmachine_multiaz.go:143-148 | the counts, over the subregions given and those already used |
| MultiAZ.LeastLoaded | controllers/oscmachine_multiaz.go:153-160 | the pick is a minimum of the counts, whatever the order of iteration |
| MultiAZ.CountsMeaning | controllers/oscmachine_multiaz.go:143-148 | what each count is, and which subregions have one |
| MultiAZ.RefreshMeaning | controllers/oscmachine_multiaz.go:103-135 | the two loops together compute the refreshed cache |
| MultiAZ.RefreshedLists | controllers/oscmachine_multiaz.go:110-132 | which machines the list of each deployment holds, and in which order, from the labels and roles of the machines listed |
| MultiAZ.RefreshedEntries | controllers/oscmachine_multiaz.go:121-133 | which entries a refresh writes, and what it writes there |
| MultiAZ.RefreshKeepsValid | controllers/oscmachine_multiaz.go:121-133 | cached lists stay duplicate-free, within their namespace, and only name machines with an entry |
| MultiAZ.AllocationFills | controllers/oscmachine_multiaz.go:137-171 | an allocation fills the counters as water would and conserves the total, a blank configured name included |
| MultiAZ.AllocationBalances | controllers/oscmachine_multiaz.go:137-171 | an allocation keeps the spread within the larger of what it was and one, and a subregion that gains a machine ends at most one above the minimum |
| MultiAZ.AllocationIgnoresTies | controllers/oscmachine_multiaz.go:153-160 | two executions of one allocation load the subregions alike |
| MultiAZ.TallyIsCounts | controllers/oscmachine_multiaz.go:143-152 | without a blank name among the configured ones, the counters of the placement loop are the counts of the machines placed |
| MultiAZ.CallKeeps | controllers/oscmachine_multiaz.go:81-171 | each call keeps the cache valid and keeps a listed worker findable |
| MultiAZ.ListedWorkersAreFound | controllers/oscmachine_multiaz.go:81-171 | in any sequence of calls a labelled worker that stays listed gets a subregion, unless the listing fails |
| MultiAZ.RefreshKeepsExactly | controllers/oscmachine_multiaz.go:130-133 | exactly when a refresh keeps the assignment of a machine |
| MultiAZ.RefreshTrichotomy | controllers/oscmachine_multiaz.go:130-133 | a refresh keeps, forgets or switches an assignment exactly as the status has the same subregion, none, or another one |
| MultiAZ.OnlyRefreshesChange | controllers/oscmachine_multiaz.go:81-101 | an assignment changes in no other call than one that refreshes from a status that differs |
| MultiAZ.AssignmentsStick | controllers/oscmachine_multiaz.go:84-100 | over any run, every call for a machine returns the subregion it was assigned until a refresh reads another one, or none, in its status |
| MultiAZ.AnswersStand | controllers/oscmachine_multiaz.go:81-101 | an answer is still the cached assignment at the end of a run unless a refresh overwrote it |
| MultiAZ.RecordedAnswersNeverSwitch | controllers/oscmachine_multiaz.go:84-133 | an answer that stands is kept or forgotten, never switched, by a refresh from statuses that record it or nothing |
| MultiAZ.AnswersSpread | controllers/oscmachine_multiaz.go:137-171 | the answers of a run, when none is overwritten, are no further apart than the counters of the last cache, and as little once every machine placed has been answered |
| MultiAZ.Scene.SwitchingRun | controllers/oscmachine_multiaz.go:84-168 | a run, for any two subregions and three machines, where a refresh switches an assignment although statuses record what was answered, and two machines are answered one subregion |
| Cidr.ValidateSubnetCidr | api/v1beta1/osccluster_validation.go:197-227 | the complaints are exactly: each text that does not parse, and, if the net parses, each subnet that does not overlap it and each pair that overlaps |
| Cidr.CompareAll | api/v1beta1/osccluster_validation.go:216-225 | the two nested loops raise exactly the clashes with the net and between pairs |
| Cidr.CompareWithRest | api/v1beta1/osccluster_validation.go:220-224 | the inner loop raises exactly the clashes with later subnets |
| Cidr.ParseAll | api/v1beta1/osccluster_validation.go:201-211 | blanks are dropped, the ranges that parse are kept in order, the others raise an error each |
| Cidr.OverlapsMeaning | api/v1beta1/osccluster_validation.go:217-221 | the prefix test holds if and only if some address belongs to both |
| Cidr.OverlapTestContains | api/v1beta1/osccluster_validation.go:197-227 | an accepted list of at least two ranges is pairwise disjoint and each is a proper subset of the net |
| Cidr.ContainedIsAccepted | api/v1beta1/osccluster_validation.go:197-227 | conversely, disjoint ranges inside the net are accepted |
| Cidr.SingleRange | api/v1beta1/osccluster_validation.go:216-219 | one range is accepted if and only if it overlaps the net, and then lies inside exactly when its prefix is not the shorter one |
| AutoSubnets.GetSubnets | cloud/scope/cluster.go:146-174 | the in-place byte increments produce exactly the generated list: three subnets per subregion in order, the first for load balancer, bastion and NAT, the second for workers, the third for the control plane |
| AutoSubnets.SubnetsFor | cloud/scope/cluster.go:158-172 | the outer loop numbers the subnets by threes, with the third byte wrapping around |
| AutoSubnets.SubnetsOf | cloud/scope/cluster.go:159-171 | the inner loop produces one subnet per group of roles |
| AutoSubnets.NextSubnet | cloud/scope/cluster.go:164-170 | one increment moves to the next third byte |
| AutoSubnets.RangeAt | cloud/scope/cluster.go:155-170 | the range of the k-th subnet of a net of at most 24 bits and at least 8: a /24 that agrees with the net up to its second byte and whose third byte is that of the net plus k plus two, modulo 256 |
| AutoSubnets.DigitsMeaning | cloud/scope/cluster.go:167 | how bytes are written in a range that does not parse back: what the digits stand for is the byte, without leading zeros in decimal and with two digits in hexadecimal |
| AutoSubnets.GeneratedAcceptedIff | cloud/scope/cluster.go:146-174 | the generated subnets are accepted, hence disjoint and inside the net, if and only if the net has 8 to 24 bits and room for them |
| AutoSubnets.FittingKeysAreDistinct | controllers/osccluster_resources.go:284-290 | within the capacity the ranges that key subnets in the status are distinct |
| AutoSubnets.WrapsExactly | cloud/scope/cluster.go:158-172 | within the capacity the third byte wraps for one subnet only, and only for nets of 8 to 16 bits |
| Topology.Cluster.ThreefoldResolves | cloud/scope/cluster.go:178-205 | a role and a subregion lead back to the one generated subnet that has them |
| Topology.Cluster.PublicResolves | cloud/scope/cluster.go:159-192 | in every subregion of an automatic cluster the roles LoadBalancer, Bastion and Nat all lead to its first subnet, which has exactly these roles |
| Topology.Cluster.WorkersResolve | cloud/scope/cluster.go:159-192 | the role Worker leads to the second, which has exactly this role |
| Topology.Cluster.ControlPlaneResolves | cloud/scope/cluster.go:159-192 | the role ControlPlane leads to the third, which has exactly this role |
| Topology.Cluster.RolesMeaning | cloud/scope/cluster.go:194-205 | the roles of any subnet: those given, or by its name those of the control plane, of the load balancer, or of workers |
| Topology.Cluster.LookupMeaning | cloud/scope/cluster.go:178-192 | for any specification, the subnet found is the first with the name, or with the role in the subregion, and none is found when there is none |
| Topology.Cluster.ManualTableResolvesExactly | cloud/scope/cluster.go:178-359 | subnets given by hand under names of their own: the table made for a subnet leads back to it exactly when its roles are not given or no earlier subnet of the subregion has the first of them |
| Topology.Cluster.NatServicesMeaning | cloud/scope/cluster.go:256-281 | which NAT services a cluster has: none, those given, the one given, or one for each subnet with the role, in its subregion |
| Topology.Cluster.TablesMeaning | cloud/scope/cluster.go:332-359 | which route tables a cluster has, and which route each has: to the gateway for a subnet with a public role, else to a NAT service, and none without internet |
| Topology.Cluster.NatSubnetsReachTheGateway | cloud/scope/cluster.go:256-359 | whatever the subnets, the one that hosts a generated NAT service has its route to the gateway, never to a NAT service |
| Topology.Cluster.GeneratedNames | cloud/scope/cluster.go:219-237 | the names of the generated tables |
| Topology.Cluster.NatLookupMeaning | cloud/scope/cluster.go:283-305 | for any specification, the NAT service found is the first with the name; without a name it is the only one, or the first of the subregion |
| Topology.Cluster.NatsAre | cloud/scope/cluster.go:256-281 | there is one NAT service per subregion, in order |
| Topology.Cluster.GeneratedNatResolves | cloud/scope/cluster.go:283-305 | a subregion leads to its own NAT service |
| Topology.Cluster.GeneratedTopologyIsClosed | cloud/scope/cluster.go:332-359 | each table leads back to its subnet, each NAT route to the NAT service of its subregion, each NAT service to its public subnet, and NAT tokens are distinct |
| Topology.Cluster.TokensDistinctExactly | cloud/scope/cluster.go:320-329 | NAT tokens are distinct if and only if the subregions are |
| Identifiers.TokenParts | cloud/scope/machine.go:90-96 | a token has at most 64 characters, and what is cut is the start of the name |
| Identifiers.NatTokenParts | cloud/scope/cluster.go:320-329 | what the token of a NAT service is made of; one without a name is never cut, and has at most 64 characters exactly when its subregion and the identifier of the cluster have at most 63 |
| Identifiers.TokensSeparateClusters | cloud/scope/cluster.go:320-329 | clusters whose identifiers have one length share a token if and only if these agree on their last 64 characters |
| Identifiers.TokensSeparateNames | cloud/scope/machine.go:90-96 | within a cluster names share a token if and only if they agree on the characters that fit |
| Identifiers.URLForm | cloud/scope/providerid.go:44-55 | exactly which identifiers built from a subregion and a VM pass the expression |
| Identifiers.InstanceRoundTrip | cloud/scope/machine.go:189-201 | exactly when reading back the instance gives the one that was set |
| Identifiers.MachineScope.SetProviderID | cloud/scope/machine.go:189-201 | the identifier stored, and exactly when the instance read back from it is the VM given |
| Tracker.Locate | controllers/osccluster_resources.go:232-276 | what a lookup finds and what not finding means: the specification's identifier goes first, then the remembered one, then the search by key, then by legacy tag |
| Tracker.Ensure | controllers/osccluster_net.go:20-49 | find or create: it creates only when nothing is found, and a success makes a duplicate exactly when the remembered identifier dangles while the key lives; without faults it succeeds exactly when it may create or something is found |
| Tracker.EnsureAll | controllers/osccluster_subnet.go:34-53 | the create-or-find loop: nothing disappears or newly dangles, nothing becomes double except in slots that dangled, a success serves every specification, and what is created is of specifications that had nothing at the start |
| Tracker.AbsentBefore | controllers/osccluster_subnet.go:34-53 | what is absent at its turn in the loop was absent at the start: the loop creates nothing for a specification that had a resource |
| Tracker.Reconciler.ReconcileNetwork | controllers/osccluster_controller.go:129-148 | the net stage then the subnet stage: exactly when both succeed without faults, and what they leave |
| Tracker.Reconciler.ReconcileNet | controllers/osccluster_net.go:20-49 | the net stage keeps what exists; it creates nothing if the user brings the net or it can be found, otherwise, without faults, it succeeds with one new net under the identifier of the cluster; if the user brings a net that cannot be found, it fails |
| Tracker.Reconciler.ReconcileSubnets | controllers/osccluster_subnet.go:34-53 | the same for subnets, under their net and range: without faults the loop succeeds, exactly unless the user brings the net and a subnet of it cannot be found; a success leaves a subnet for each range, and only missing ones are created |
| Tracker.Reconciler.ReconcileNatServices | controllers/osccluster_natservice.go:39-74 | the same for NAT services, under their token: without faults the loop succeeds, and creates exactly the missing ones |
| Tracker.Reconciler.ReconcileSecurityGroups | controllers/osccluster_securitygroup.go:126-141 | the same for security groups, under their name |
| Tracker.Reconciler.Pass | controllers/osccluster_controller.go:115-200 | a pass interrupted anywhere keeps all that, and creates nothing that the user brings; a complete one leaves each specification with the resource the user set, or a live one of its key, of its legacy tag, or remembered before; without faults it succeeds, exactly unless the user brings a net and it, or one of its subnets, cannot be found |
| Tracker.Reconciler.AnyRun | controllers/osccluster_resources.go:42-75 | the same for any sequence of passes and losses of any part of the status, from any status |
| Tracker.SinceTransitive | controllers/osccluster_resources.go:42-75 | what steps keep composes over any run |
| Tracker.EnsureKeeps | controllers/osccluster_subnet.go:34-53 | one find-or-create keeps what exists, for all specifications |
| Tracker.Reconciler.NetAgain | controllers/osccluster_resources.go:42-75 | a lookup of the net, any run, a loss of the whole status, and the lookup again: unless it fails, exactly when it finds the same net |
| Tracker.Reconciler.SubnetAgain | controllers/osccluster_resources.go:232-257 | the same for a subnet |
| Tracker.Reconciler.NatAgain | controllers/osccluster_resources.go:292-321 | the same for a NAT service, unless names that share a token have different legacy tags; a service that can be found without the status is always found |
| Tracker.Reconciler.GroupAgain | controllers/osccluster_resources.go:446-467 | the same for a security group |
| Tracker.SameId | controllers/osccluster_resources.go:292-321 | a resource that only the status led to is not found again, and others are, unless a run creates one under the key |
| Tracker.SameIdExactly | controllers/osccluster_resources.go:232-257 | the two as one equivalence, when the specifications of the entry all have a legacy tag or this one has none |
| Tracker.GoneMakesDouble | controllers/osccluster_resources.go:42-75 | a witness: a remembered resource that is gone makes a success create a second one under the key |
| Tracker.LossChangesLookup | controllers/osccluster_resources.go:292-321 | a witness: a lookup that finds another resource after a loss of the status |
| Pipeline.ClusterScope.NeedReconciliation | cloud/scope/cluster.go:744-760 | a stage that is not current always runs; otherwise its rule decides |
| Pipeline.RuleMeaning | cloud/scope/cluster.go:720-737 | the rule of a stage is the first one given for it or for all stages; without any, security groups are drawn with a chance of ten in a hundred and the others run on change |
| Pipeline.ClusterScope.SetReconciliationGeneration | cloud/scope/cluster.go:763-768 | one stage records the generation, the others keep theirs |
| Pipeline.ClusterScope.Run | controllers/osccluster_netpeering.go:33-60 | one stage: gate, calls, failure, recording of its own generation only, and whether it found an active net peering; a stage over what the user brings makes no call, any other that succeeds records its generation |
| Pipeline.ClusterScope.Reconcile | controllers/osccluster_controller.go:115-225 | a pass is the visits in order up to the first that fails, and is ready after the last |
| Pipeline.StopKeepsPrefix | controllers/osccluster_controller.go:129-222 | stopping after any stage leaves a prefix of current stages |
| Pipeline.TraceIsUnderway | controllers/osccluster_controller.go:129-222 | what holds after any number of visits: which stages are current, and that the others are as they were |
| Pipeline.PassKeeps | controllers/osccluster_controller.go:115-225 | any pass, complete or not, keeps generations bounded and not decreasing, and the prefix |
| Pipeline.SuccessIsCurrent | controllers/osccluster_controller.go:129-225 | a successful pass is ready with all stages current |
| Pipeline.SuccessMeaning | controllers/osccluster_controller.go:129-225 | which stages, by name, are current after a success, by what the specification enables and what the user brings |
| Pipeline.BroughtIsLeftAlone | controllers/osccluster_controller.go:129-225 | with an existing net or existing groups no pass, complete or not, records the stages that would work on them |
| Pipeline.PassOrder | controllers/osccluster_controller.go:129-225 | no pass records a disabled stage, and, stage by stage, what is recorded comes only after those it depends on are current |
| Pipeline.QuietPassIsSilent | cloud/scope/cluster.go:744-760 | a pass with nothing left to do succeeds, makes no call and records nothing |
| Pipeline.ReachableStates | controllers/osccluster_controller.go:115-225 | in every state reachable by passes, edits and losses, recorded generations are bounded by the object's and current stages form a prefix |
| Pipeline.GenerationsNeverGoDown | cloud/scope/cluster.go:763-768 | over any run that keeps the status, recorded generations never decrease |
| Pipeline.SettledPassIsSilent | cloud/scope/cluster.go:744-760 | after a success, the next pass at that generation changes nothing and makes no cloud call in the on-change mode, unless an outdated peering was found active |
| Pipeline.ActivePeeringStaysBehind | controllers/osccluster_netpeering.go:46-55 | after a successful pass the peering is up to date if and only if it was before or was not found active, while the stages around it are current |
| Pipeline.PeeringMayStayBehind | controllers/osccluster_netpeering.go:46-55 | from every state whose peering is not up to date a pass may succeed and leave it so |
| RouteTables.OwnersOf | controllers/osccluster_routetable.go:83-88 | the map built maps each linked subnet to a table it is linked to, the one listed last if there are several |
| RouteTables.ReconcileTargets | controllers/osccluster_routetable.go:96-129 | the switch with fallthrough over current table and existing link computes the specified steps; a failure leaves one of the states it goes through, and no link is lost or doubled |
| RouteTables.RouteExists | controllers/osccluster_routetable.go:25-29 | whether a table has a route to a destination |
| RouteTables.ReconcileRoutes | controllers/osccluster_routetable.go:21-58 | missing routes are added from the routes read at the start; a failure leaves some of them added |
| RouteTables.ReconcileRouteTables | controllers/osccluster_routetable.go:61-144 | a whole pass computes the specified steps, a failed one stops within one specification, and existing links, tables and routes are kept; a success leaves each table with its routes and exactly the missing ones of the specifications it serves |
| RouteTables.RoutesMeaning | controllers/osccluster_routetable.go:21-58 | one specification: its table keeps its routes in place and gains exactly the routes asked for, each with its own destination and target, whose destination it did not have when read |
| RouteTables.PassAddsRoutes | controllers/osccluster_routetable.go:90-144 | the same over all specifications of a pass, whatever they select and whichever share a table; the table that serves a specification exists |
| RouteTables.TargetsExtend | controllers/osccluster_routetable.go:96-129 | which table serves the subnets of one specification, and exactly which links appear |
| RouteTables.TablesExtend | controllers/osccluster_routetable.go:90-144 | the same over all specifications, whatever they select, with the tables created |
| RouteTables.PassLinksEachSubnet | controllers/osccluster_routetable.go:61-144 | exactly when a pass leaves a selected subnet with one table; links that existed are as they were, others are of selected subnets that had none, and one table is created per specification whose first subnet had none |
| RouteTables.DistinctAgree | controllers/osccluster_routetable.go:90-129 | when no subnet is selected twice, the condition holds |
| RouteTables.TwiceSelectedGetsTwoTables | controllers/osccluster_routetable.go:90-129 | a witness: a subnet selected by two specifications and unlinked gets two tables |
| RouteTables.GeneratedPassServes | controllers/osccluster_routetable.go:61-144 | a pass over generated specifications, from whatever interrupted passes leave, serves each subnet it selects and changes no other |
| RouteTables.ServedPassIsNoOp | controllers/osccluster_routetable.go:61-144 | a pass over subnets already served changes nothing |
| RouteTables.InterruptedPassIsReady | controllers/osccluster_routetable.go:61-144 | a pass that fails anywhere leaves a possible start: each subnet untouched, or with a table of its own and at most one default route |
| RouteTables.InterruptionsHeal | controllers/osccluster_routetable.go:61-144 | any number of passes of either kind failing anywhere, then a complete one, serve every subnet |
| RouteTables.GeneratedReconciliation | controllers/osccluster_controller.go:150-171 | the NAT-role pass then the full pass give one table and one default route per subnet, and a third pass is a no-op |
| NetPeeringRoutes.FirstLinked | controllers/osccluster_netpeering_routes.go:44-51 | the first table linked to the subnet, none exactly when no table is |
| NetPeeringRoutes.PeeringRoutes.AddRoutes | controllers/osccluster_netpeering_routes.go:86-98 | one loop: routes are appended only where missing and free; without faults it succeeds if and only if every table has the route or room for it |
| NetPeeringRoutes.PeeringRoutes.DeleteRoutesOf | controllers/osccluster_netpeering_routes.go:161-170 | the inner loop deletes by destination the routes to the peering listed, one by one |
| NetPeeringRoutes.PeeringRoutes.DeleteRoutes | controllers/osccluster_netpeering_routes.go:160-171 | one loop: only routes to the peering disappear, and on success all of them |
| NetPeeringRoutes.PeeringRoutes.ReconcileRoutes | controllers/osccluster_netpeering_routes.go:80-119 | the add pass over both nets, stopping at the first failure, and exactly when it succeeds: a table that changes gains one route, to the workload range in the management net and to the management range in the workload net; after a success every workload table, and every management table or the first one linked to the subnet named, has a route to the peering |
| NetPeeringRoutes.PeeringRoutes.ReconcileDeleteRoutes | controllers/osccluster_netpeering_routes.go:150-190 | the delete pass over both nets: each table keeps its other routes in order, and after a success the workload tables, and the management ones unless one is singled out, have lost exactly their routes to the peering |
| NetPeeringRoutes.PassAddsMeaning | controllers/osccluster_netpeering_routes.go:86-119 | what an add pass does to each table, complete or not, from the ranges and the subnet of the plan |
| NetPeeringRoutes.PassCompletes | controllers/osccluster_netpeering_routes.go:86-119 | what a complete add pass leaves, from the tables listed |
| NetPeeringRoutes.PassDeletesMeaning | controllers/osccluster_netpeering_routes.go:150-190 | what a complete delete pass leaves, from the tables listed |
| NetPeeringRoutes.PartDoneIs | controllers/osccluster_netpeering_routes.go:161-170 | deleting by destination touches no other route, since a table has one route per destination |
| NetPeeringRoutes.RunKeeps | controllers/osccluster_netpeering_routes.go:86-190 | over any run of add and delete passes, complete or not, other routes stay as they were and routes to the peering never exceed one or what there was |
| NetPeeringRoutes.AddGivesExactlyOne | controllers/osccluster_netpeering_routes.go:86-119 | after any run from tables without such a route, a successful add pass gives each table exactly one |
| NetPeeringRoutes.AddRoutesToTheOtherNet | controllers/osccluster_netpeering_routes.go:86-119 | after any run from tables without such a route and a successful add pass, each route to the peering leads to the other net: to the workload range from the management net, to the management range from the workload net |
| NetPeeringRoutes.AddAgainIsNoOp | controllers/osccluster_netpeering_routes.go:87-89 | repeating the add pass changes nothing |
| NetPeeringRoutes.DeleteRestoresExactly | controllers/osccluster_netpeering_routes.go:160-190 | after any run a successful delete pass restores all tables if and only if none had a route to the peering before it |
| PublicIps.ScanPool | controllers/publicip.go:94-103 | from any offset the circular scan finds a free IP if and only if the pool has one, and then the first in that order |
| PublicIps.IPAllocator.AllocateIP | controllers/publicip.go:39-66 | a tracked free IP is returned unchanged, otherwise, the entry being missing, empty, stale or linked, a pool or new IP is tracked; without faults it fails exactly when the pool has no free IP |
| PublicIps.IPAllocator.AllocateFromPool | controllers/publicip.go:82-104 | an allocation from a pool gives a free IP of it, and succeeds exactly when there is one |
| PublicIps.IPAllocator.RetrackIP | controllers/publicip.go:106-121 | an entry is never overwritten, and a missing or empty one gets an IP that has the address, if there is one |
| PublicIps.IPAllocator.DeallocateIP | controllers/publicip.go:124-148 | only a tracked, free IP without a tag that keeps it is deleted, and is after a success; a linked IP is an error |
| PublicIps.IPAllocator.Release | controllers/osccluster_publicip.go:18-24 | one turn of the loop: the entry is dropped exactly when the release succeeded |
| PublicIps.IPAllocator.ReconcileDeletePublicIp | controllers/osccluster_publicip.go:17-26 | whether it succeeds or stops midway, each key is still tracked or its IP is gone or kept; after a success the map is empty and exactly the tracked IPs that no tag keeps are gone; without faults it fails exactly when a tracked IP is linked |
| PublicIps.ConservesTransitive | controllers/osccluster_publicip.go:17-26 | any number of failed passes conserve as one does |
| PublicIps.AllocationRepeats | controllers/publicip.go:41-54 | over any run, a key that holds a free IP gets it from each successful allocation, and none is created for it |
| PublicIps.AllocationHolds | controllers/publicip.go:64-65 | a successful allocation leaves the key holding what it returned |
| PublicIps.RetrackedAllocation | controllers/publicip.go:106-121 | after a loss of the status, retracking by address then allocating gives the same IP and creates none |
| PublicIps.CreatedIpsAreNotShared | controllers/publicip.go:68-76 | a created IP is not that of another key |
| PublicIps.DrawsExactly | controllers/publicip.go:92-103 | the scan can draw any free IP of the pool and no other |
| PublicIps.PoolSharesExactly | controllers/publicip.go:82-104 | exactly when a key may be given, from a pool, an IP that another key tracks |
| PublicIps.PoolIpsMayBeShared | controllers/publicip.go:79-81 | a witness: two keys given one IP of a pool |
| MachineVm.MachineReconciler.ReadFgpu | controllers/oscmachine_vm.go:35-42 | the fGPU is read only when the specification has one, and not found is not an error |
| MachineVm.MachineReconciler.CreateVmFor | controllers/oscmachine_vm.go:49-182 | for a missing VM: place it with its fGPU, allocate one unless found or for a control plane, then create the VM |
| MachineVm.MachineReconciler.FindOrCreate | controllers/oscmachine_vm.go:33-182 | the part of a pass that ends with a VM, and what was read is still what the cloud shows |
| MachineVm.MachineReconciler.Advance | controllers/oscmachine_vm.go:184-221 | the two switches: link, start, wait, or mark ready |
| MachineVm.MachineReconciler.ReconcileVm | controllers/oscmachine_vm.go:26-272 | a pass obeys the discipline of calls while the world moves and fGPUs get lost, and over a settled cloud it progresses unless a call fails; undisturbed, by the state it finds: a missing VM is created where its fGPU is or with a new one, a stopped one is started, a running one makes the machine ready and recorded, and an fGPU in hand is linked first |
| MachineVm.PassMeaning | controllers/oscmachine_vm.go:26-272 | the same for an undisturbed pass from any state, case by case |
| MachineVm.MachineReconciler.RequeueUntilRecorded | controllers/oscmachine_vm.go:200-218 | requeues of any machine end with it running, ready and recorded; with an fGPU, in its subregion, and attached unless one got lost; without, with none |
| MachineVm.StepKeepsSound | controllers/oscmachine_vm.go:184-221 | each step keeps the invariant, is in order while the fGPU is not lost, and then, if effective, lowers the rank by exactly one |
| MachineVm.RunIsSound | controllers/oscmachine_vm.go:35-221 | the invariant holds in every run, with or without losses |
| MachineVm.RunIsShort | controllers/oscmachine_vm.go:184-221 | without losses the effective steps are counted by the rank: at most ten |
| MachineVm.RunIsPlain | controllers/oscmachine_vm.go:35-221 | in every run a machine that wants no fGPU, or a control plane, has none, is ready only while running and recorded only once ready |
| MachineVm.OrderedUntilLoss | controllers/oscmachine_vm.go:35-221 | in every run everything up to the first loss is in order: created after allocation and with the fGPU, linked while stopped, started once attached, ready when running and attached |
| MachineVm.StrandedStartsUnordered | controllers/oscmachine_vm.go:184-221 | once a pass reads an fGPU lost before it was linked, no later start or declaration of readiness, in any pass, is in order, and the fGPU is never linked |
| MachineVm.AttachedStartsOrdered | controllers/oscmachine_vm.go:184-213 | once attached, the fGPU stays so, lost or not, and later starts are in order |
| MachineVm.StartsExactly | controllers/oscmachine_vm.go:184-213 | over all runs, a start is out of order exactly when its pass read an fGPU lost before it was linked, for a VM that exists, an fGPU lost while attaching being the one open case |
| MachineVm.LossStrands | controllers/oscmachine_vm.go:35-42 | a run from the initial state that starts a VM without its fGPU |
| MachineVm.RoundAdvances | controllers/oscmachine_vm.go:184-221 | each undisturbed round lowers the rank and does not change whether the fGPU will be attached |
| MachineVm.ReadyUnattachedExactly | controllers/oscmachine_vm.go:35-221 | from any state of a machine that wants an fGPU, undisturbed rounds end ready and recorded, with the fGPU attached exactly when it was linked, could be seen, or was still to be allocated |
| MachineVm.PlainMachineEndsReady | controllers/oscmachine_vm.go:184-270 | a machine that wants no fGPU is running, ready and recorded after two undisturbed rounds from any state, and no pass touches an fGPU |

## Left out

- Parsing and printing of address ranges: a range is blank, text that does not parse, or a prefix. IPv6 is covered by the overlap theorems only, since the generation of subnets edits the bytes of an IPv4 address.
- Deletion passes of nets, subnets, NAT services, route tables, security groups and VMs, whose order depends on rules of the cloud that this repository does not contain.
- "At most one" claims for internet services, for route tables left by a failed link, for public IPs after a loss of the status and for fGPUs whose tag was lost: the code does not give them.
- Tracker.Reconciler.SubnetAgain: it and the lookups beside it are about keys under which at most one resource lives and entries that do not dangle: otherwise a search or a creation may give either of two.
- Tracker.Ensure: creating a net and tagging it is one step; between the two, the code itself would lose the net.
- Tracker.Reconciler.Pass: the generation gates of its stages, which Pipeline models, and the public IPs of NAT services.
- Tracker.Reconciler.ReconcileNatServices: does not model the public IP that the loop allocates before each service, so that a pool without a free IP, which makes the stage fail, is no fault here; PublicIps models it, on its own.
- Net access points, load balancer, bastion and internet service are only stages of the pipeline.
- SecurityGroupRules.ReconcileRules: the specifications are parameters; how they are derived from roles and allowed ranges is not modelled. A grant is listed either in rules with members or in rules without, not in both. How the cloud reads a flow is assumed: it files a rule under the flow of that name whatever its case, may refuse it, and refuses any other.
- SecurityGroupRules.FlowSpellings: folding the case of letters outside ASCII is not modelled.
- MultiAZ.MultiAZAllocator.AllocateAZ: calls run one after the other, as the mutex makes them; the initial value of the search for a minimum, the largest integer, is modelled as no minimum yet.
- RouteTables.PassLinksEachSubnet: a cloud that refuses a second table for a subnet would make the pass fail where the model gives two.
- RouteTables.ReconcileRouteTables: names of subnets and targets are resolved to identifiers beforehand, each resolution being one that may fail; that generated names resolve is shown in Topology. The gate and the recording of generations are in Pipeline.
- NetPeeringRoutes.PeeringRoutes.ReconcileRoutes: lookups of the peering, of the nets and of the credentials are not modelled; the tables listed are given.
- MachineVm.MachineReconciler.CreateVmFor: looking up the subnet, the groups and the image, and allocating the public IP, are one call that may fail; the tags are left out.
- MachineVm.MachineReconciler.ReconcileVm: the subnet, groups, image, public IP and tags of the VM, the load balancer and the node addresses are reduced to calls that may fail; the VM lands in the subregion asked for, which excludes specifications that name a subnet elsewhere. VMs are not stopped, terminated or deleted from outside.
- Pipeline.ClusterScope.Run: a stage makes any number of calls; what the calls do is in the other modules.
- Conditions, events, logging, finalizers, timing, conversion of API versions, field validators and defaulting: settled by reading one branch each.
