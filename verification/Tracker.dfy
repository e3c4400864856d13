// The creation of the resources of a cluster, when passes may be interrupted at any cloud call and the
// status that remembers identifiers may be lost. Identifier 0 stands for the empty identifier.
module Tracker {
  import opened Faults

  type Id = nat

  datatype Lookup = Failed | NotFound | Found(id: Id)

  // The live resources of one kind, each under the key that a search by key uses: the owner tag of a
  // net, the net and range of a subnet, the client token of a NAT service, the name of a security group.
  ghost predicate AtMostOne<A>(items: map<Id, A>, key: A) {
    forall i, j :: i in items && j in items && items[i] == key && items[j] == key ==> i == j
  }

  ghost predicate Exists<A>(items: map<Id, A>, key: A) {
    exists i :: i in items && items[i] == key
  }

  // A kind of resource in the cloud. legacy holds the resources found by a name tag of earlier versions.
  // If it is faulty, any call may fail, and a failed creation may have taken place.
  class Store<A(==, !new)> {
    var items: map<Id, A>
    const legacy: map<string, Id>
    var faulty: bool

    ghost predicate Valid()
      reads this
    {
      0 !in items && forall name <- legacy :: legacy[name] in items
    }

    constructor (items: map<Id, A>, legacy: map<string, Id>, faulty: bool)
      requires 0 !in items && forall name <- legacy :: legacy[name] in items
      ensures Valid() && this.items == items && this.legacy == legacy && this.faulty == faulty
    {
      this.items, this.legacy, this.faulty := items, legacy, faulty;
    }

    method Get(id: Id) returns (r: Lookup)
      ensures r.Failed? || r == if id in items then Found(id) else NotFound
      ensures r.Failed? ==> faulty
    {
      var fails := MayFail(faulty);
      r := if fails then Failed else if id in items then Found(id) else NotFound;
    }

    method FindByKey(key: A) returns (r: Lookup)
      requires Valid()
      ensures r.Found? ==> r.id in items && items[r.id] == key && r.id != 0
      ensures r.NotFound? ==> !Exists(items, key)
      ensures r.Failed? ==> faulty
    {
      var fails := MayFail(faulty);
      if fails {
        return Failed;
      }
      var matching := set i | i in items && items[i] == key;
      if matching == {} {
        assert forall i :: i in items && items[i] == key ==> i in matching;
        return NotFound;
      }
      var i :| i in matching;
      return Found(i);
    }

    method FindByTag(name: string) returns (r: Lookup)
      requires Valid()
      ensures r.Found? ==> r.id in items && r.id != 0 && name in legacy && r.id == legacy[name]
      ensures r.NotFound? ==> name !in legacy
      ensures r.Failed? ==> faulty
    {
      var fails := MayFail(faulty);
      r := if fails then Failed else if name in legacy then Found(legacy[name]) else NotFound;
    }

    method Create(key: A) returns (r: Lookup)
      requires Valid()
      modifies this`items
      ensures Valid() && !r.NotFound?
      ensures items == old(items) || Created(old(items), key, items)
      ensures r.Found? ==> r.id != 0 && r.id !in old(items) && items == old(items)[r.id := key]
      ensures r.Failed? ==> faulty
    {
      var id := FreshId(items.Keys);
      var fails := MayFail(faulty);
      var happens: bool := *;
      if happens || !fails {
        items := items[id := key];
      }
      r := if fails then Failed else Found(id);
    }
  }

  ghost predicate Created<A>(items: map<Id, A>, key: A, items': map<Id, A>) {
    exists id: Id :: id != 0 && id !in items && items' == items[id := key]
  }

  method FreshId(ids: set<Id>) returns (id: Id)
    ensures id != 0 && id !in ids
  {
    id := 1;
    var rest := ids;
    while rest != {}
      invariant rest <= ids && id != 0
      invariant forall i :: i in ids && i !in rest ==> i < id
    {
      var i :| i in rest;
      if i >= id {
        id := i + 1;
      }
      rest := rest - {i};
    }
  }

  // ---- Lookups ----

  // What a specification says of one resource: the identifier set by the user (0 if none), the entry that
  // remembers it in the status, the key to search it by, and the name tag of earlier versions ("" if none).
  datatype Resource<A> = Resource(resourceId: Id, slot: string, key: A, legacyName: string)

  type Status = map<string, Id>

  // The identifier known without asking the cloud, 0 if none: that of the specification goes first.
  function Remembered<A>(spec: Resource<A>, status: Status): Id {
    if spec.resourceId != 0 then spec.resourceId
    else if spec.slot in status then status[spec.slot]
    else 0
  }

  // The remembered identifier is that of a resource that is gone.
  predicate Dangling<A>(items: map<Id, A>, spec: Resource<A>, status: Status) {
    Remembered(spec, status) != 0 && Remembered(spec, status) !in items
  }

  predicate HasLegacy<A>(spec: Resource<A>, legacy: map<string, Id>) {
    spec.legacyName != "" && spec.legacyName in legacy
  }

  // What a lookup that succeeds finds: by identifier if one is remembered, else by key, else by legacy tag.
  ghost predicate Locates<A>(items: map<Id, A>, legacy: map<string, Id>, spec: Resource<A>, status: Status, id: Id) {
    && id != 0 && id in items
    && if Remembered(spec, status) != 0 then id == Remembered(spec, status)
       else if Exists(items, spec.key) then items[id] == spec.key
       else HasLegacy(spec, legacy) && id == legacy[spec.legacyName]
  }

  // What it means that nothing is found.
  ghost predicate Absent<A>(items: map<Id, A>, legacy: map<string, Id>, spec: Resource<A>, status: Status) {
    if Remembered(spec, status) != 0 then Dangling(items, spec, status)
    else !Exists(items, spec.key) && !HasLegacy(spec, legacy)
  }

  // Only the entry of the specification may change, and only to a resource found under its key or by its
  // legacy tag.
  ghost predicate Records<A>(items: map<Id, A>, legacy: map<string, Id>, spec: Resource<A>, status: Status,
                             status': Status) {
    && (forall other :: other != spec.slot ==> (other in status' <==> other in status))
    && (forall other <- status :: other != spec.slot ==> status'[other] == status[other])
    && (spec.slot in status' ==>
          || (spec.slot in status && status'[spec.slot] == status[spec.slot])
          || Fits(items, legacy, spec, status'[spec.slot]))
    && (spec.slot in status ==> spec.slot in status')
  }

  ghost predicate Fits<A>(items: map<Id, A>, legacy: map<string, Id>, spec: Resource<A>, id: Id) {
    id in items && (items[id] == spec.key || (HasLegacy(spec, legacy) && id == legacy[spec.legacyName]))
  }

  // Some lookups read the resource again even when the search has just returned it (confirm).
  method Locate<A(==, !new)>(store: Store<A>, spec: Resource<A>, status: Status, confirm: bool)
    returns (r: Lookup, status': Status)
    requires store.Valid()
    ensures Records(store.items, store.legacy, spec, status, status')
    ensures r.Found? ==> Locates(store.items, store.legacy, spec, status, r.id) && r.id == Remembered(spec, status')
    ensures r.NotFound? ==> Absent(store.items, store.legacy, spec, status)
    ensures Remembered(spec, status) != 0 || r.NotFound? ==> status' == status
    ensures status' != status ==> Exists(store.items, spec.key) || HasLegacy(spec, store.legacy)
    ensures r.Failed? ==> store.faulty
  {
    status' := status;
    var id := Remembered(spec, status);
    if id == 0 {
      r := store.FindByKey(spec.key);
      if r.NotFound? && spec.legacyName != "" {
        r := store.FindByTag(spec.legacyName);
        if r.Found? {
          status' := status[spec.slot := r.id];
          r := store.Get(r.id);
        }
        return;
      }
      if r.Found? {
        status' := status[spec.slot := r.id];
      }
      if !r.Found? || !confirm {
        return;
      }
      id := r.id;
    }
    r := store.Get(id);
  }

  // ---- Find or create ----

  // What one find-or-create may do. It creates only when nothing is found.
  ghost predicate EnsureStep<A>(legacy: map<string, Id>, spec: Resource<A>, mayCreate: bool,
                                items: map<Id, A>, status: Status, items': map<Id, A>, status': Status, ok: bool)
  {
    && (items' == items || (mayCreate && Absent(items, legacy, spec, status) && Created(items, spec.key, items')))
    && Records(items', legacy, spec, status, status')
    && (ok && Absent(items, legacy, spec, status) ==> items' != items)
    && (ok && spec.resourceId == 0 ==> Remembered(spec, status') != 0 && Remembered(spec, status') in items')
    && (ok && Absent(items, legacy, spec, status) ==> mayCreate && Exists(items', spec.key))
    && (items' == items && Remembered(spec, status) != 0 ==> status' == status)
  }

  method Ensure<A(==, !new)>(store: Store<A>, spec: Resource<A>, status: Status, mayCreate: bool, confirm: bool)
    returns (ok: bool, status': Status)
    requires store.Valid()
    modifies store`items
    ensures store.Valid()
    ensures EnsureStep(store.legacy, spec, mayCreate, old(store.items), status, store.items, status', ok)
    // Without faults it succeeds, unless nothing is found and it may not create; and then it has changed nothing.
    ensures !store.faulty ==> (ok <==> mayCreate || !Absent(old(store.items), store.legacy, spec, status))
    ensures !mayCreate ==> store.items == old(store.items)
    // A call that succeeds makes a second resource under one key exactly when the identifier
    // remembered is that of a resource that is gone while another one lives under the key.
    ensures ok && AtMostOne(old(store.items), spec.key) ==>
              (!AtMostOne(store.items, spec.key)
               <==> mayCreate && Dangling(old(store.items), spec, status) && Exists(old(store.items), spec.key))
  {
    var r;
    r, status' := Locate(store, spec, status, confirm);
    if r.Failed? || (r.NotFound? && !mayCreate) {
      return false, status';
    }
    if r.Found? {
      return true, status';
    }
    ghost var before := store.items;
    r := store.Create(spec.key);
    CreationKeeps(before, store.items, spec.key);
    if r.Failed? {
      return false, status';
    }
    status' := status'[spec.slot := r.id];
    ok := true;
    if i :| i in before && before[i] == spec.key {
      assert store.items[i] == store.items[r.id] == spec.key && i != r.id;
    }
  }

  lemma CreationKeeps<A(!new)>(items: map<Id, A>, items': map<Id, A>, key: A)
    requires items' == items || Created(items, key, items')
    ensures forall i <- items :: i in items' && items'[i] == items[i]
    ensures forall other :: AtMostOne(items, other) && (other == key ==> !Exists(items, key)) ==>
              AtMostOne(items', other)
    ensures forall other :: other != key && !Exists(items, other) ==> !Exists(items', other)
  {
    if items' != items {
      var id: Id :| id !in items && items' == items[id := key];
      forall other | AtMostOne(items, other) && (other == key ==> !Exists(items, key))
        ensures AtMostOne(items', other)
      {
      }
    }
  }

  // ---- What steps keep ----

  // The slots whose remembered identifier is that of a resource that is gone.
  ghost function Gone<A>(items: map<Id, A>, specs: seq<Resource<A>>, status: Status): set<string> {
    set spec <- specs | Dangling(items, spec, status) :: spec.slot
  }

  // Every specification of the slot can be found by a legacy tag.
  ghost predicate AllLegacy<A>(specs: seq<Resource<A>>, legacy: map<string, Id>, slot: string) {
    forall spec <- specs :: spec.slot == slot ==> HasLegacy(spec, legacy)
  }

  // From (items, status) to (items', status'): nothing disappears, no identifier newly dangles, and, except
  // in slots that dangle, nothing becomes double and what is found by a legacy tag is not created.
  ghost predicate Since<A(!new)>(specs: seq<Resource<A>>, slotOf: A -> string, legacy: map<string, Id>,
                                 items: map<Id, A>, status: Status, items': map<Id, A>, status': Status)
  {
    && (forall i <- items :: i in items' && items'[i] == items[i])
    && Gone(items', specs, status') <= Gone(items, specs, status)
    && (forall key :: slotOf(key) !in Gone(items, specs, status) && AtMostOne(items, key) ==> AtMostOne(items', key))
    && (forall key :: slotOf(key) !in Gone(items, specs, status) && AllLegacy(specs, legacy, slotOf(key)) ==>
          Exists(items', key) ==> Exists(items, key))
  }

  lemma SinceTransitive<A(!new)>(specs: seq<Resource<A>>, slotOf: A -> string, legacy: map<string, Id>,
                                 a: map<Id, A>, sa: Status, b: map<Id, A>, sb: Status, c: map<Id, A>, sc: Status)
    requires Since(specs, slotOf, legacy, a, sa, b, sb) && Since(specs, slotOf, legacy, b, sb, c, sc)
    ensures Since(specs, slotOf, legacy, a, sa, c, sc)
  {
  }

  lemma EnsureKeeps<A(!new)>(specs: seq<Resource<A>>, slotOf: A -> string, legacy: map<string, Id>, spec: Resource<A>,
                             mayCreate: bool, items: map<Id, A>, status: Status,
                             items': map<Id, A>, status': Status, ok: bool)
    requires EnsureStep(legacy, spec, mayCreate, items, status, items', status', ok)
    requires spec in specs && slotOf(spec.key) == spec.slot && forall name <- legacy :: legacy[name] in items
    ensures Since(specs, slotOf, legacy, items, status, items', status')
  {
    CreationKeeps(items, items', spec.key);
    forall other <- specs | Dangling(items', other, status')
      ensures Dangling(items, other, status)
    {
    }
  }

  // The specification is served: by the identifier the user set, or else by a live resource that has the key, or
  // a legacy tag, or was remembered before.
  ghost predicate Served<A>(items: map<Id, A>, legacy: map<string, Id>, spec: Resource<A>,
                            before: Status, status: Status)
  {
    spec.resourceId == 0 ==>
      && spec.slot in status && status[spec.slot] != 0 && status[spec.slot] in items
      && (|| items[status[spec.slot]] == spec.key || status[spec.slot] in legacy.Values
          || (spec.slot in before && before[spec.slot] == status[spec.slot]))
  }

  // Each entry is one that was remembered before, or leads to a live resource that fits a specification.
  ghost predicate Recorded<A>(items: map<Id, A>, legacy: map<string, Id>, specs: seq<Resource<A>>,
                              before: Status, status: Status)
  {
    && before.Keys <= status.Keys
    && forall slot <- status ::
         || (slot in before && before[slot] == status[slot])
         || exists spec <- specs :: spec.slot == slot && Fits(items, legacy, spec, status[slot])
  }

  // No specification of the slot can be found by a legacy tag.
  ghost predicate NoLegacy<A>(specs: seq<Resource<A>>, legacy: map<string, Id>, slot: string) {
    forall spec <- specs :: spec.slot == slot ==> !HasLegacy(spec, legacy)
  }

  // New resources are all under the keys of specifications that had none.
  ghost predicate OnlyKeys<A(!new)>(specs: seq<Resource<A>>, legacy: map<string, Id>, before: Status,
                                    items: map<Id, A>, items': map<Id, A>)
  {
    forall i <- items' ::
      i in items || exists spec <- specs :: items'[i] == spec.key && Absent(items, legacy, spec, before)
  }

  // Specifications that share an entry of the status mean the same resource.
  ghost predicate Coherent<A(!new)>(specs: seq<Resource<A>>, slotOf: A -> string) {
    && (forall spec <- specs :: slotOf(spec.key) == spec.slot)
    && (forall one <- specs, other <- specs :: one.slot == other.slot ==> one.key == other.key)
  }

  lemma EnsureRecords<A(!new)>(specs: seq<Resource<A>>, legacy: map<string, Id>, spec: Resource<A>,
                               mayCreate: bool, items: map<Id, A>, before: Status, status: Status,
                               items': map<Id, A>, status': Status, ok: bool)
    requires EnsureStep(legacy, spec, mayCreate, items, status, items', status', ok) && spec in specs
    requires forall one <- specs, other <- specs :: one.slot == other.slot ==> one.key == other.key
    requires Recorded(items, legacy, specs, before, status) && 0 !in items'
    ensures Recorded(items', legacy, specs, before, status')
    ensures ok ==> Served(items', legacy, spec, before, status')
    ensures forall other <- specs :: Served(items, legacy, other, before, status) ==>
              Served(items', legacy, other, before, status')
  {
    CreationKeeps(items, items', spec.key);
  }

  // What is known of the specifications dealt with: one without a remembered identifier, that no legacy tag leads
  // to, has a resource under its key; and, if nothing may be created, a remembered resource exists.
  ghost predicate Handled<A(!new)>(specs: seq<Resource<A>>, legacy: map<string, Id>, spec: Resource<A>,
                                   mayCreate: bool, before: Status, items: map<Id, A>)
  {
    && (Remembered(spec, before) == 0 && NoLegacy(specs, legacy, spec.slot) ==> Exists(items, spec.key))
    && (Remembered(spec, before) != 0 && !mayCreate ==> !Dangling(items, spec, before))
  }

  // Nothing is created, and what is remembered stays.
  ghost predicate Untouched<A(!new)>(items: map<Id, A>, before: Status, items': map<Id, A>, status: Status) {
    items' == items && forall slot <- before :: before[slot] != 0 ==> slot in status && status[slot] == before[slot]
  }

  lemma EnsureHandles<A(!new)>(specs: seq<Resource<A>>, legacy: map<string, Id>, spec: Resource<A>,
                               mayCreate: bool, items: map<Id, A>, before: Status, status: Status,
                               items': map<Id, A>, status': Status, ok: bool)
    requires EnsureStep(legacy, spec, mayCreate, items, status, items', status', ok) && spec in specs
    requires forall one <- specs, other <- specs :: one.slot == other.slot ==> one.key == other.key
    requires Recorded(items, legacy, specs, before, status) && (!mayCreate ==> Untouched(items, before, items, status))
    ensures ok ==> Handled(specs, legacy, spec, mayCreate, before, items')
    ensures forall other :: Handled(specs, legacy, other, mayCreate, before, items) ==>
              Handled(specs, legacy, other, mayCreate, before, items')
    ensures !mayCreate ==> Untouched(items, before, items', status')
  {
    CreationKeeps(items, items', spec.key);
    assert forall key :: Exists(items, key) ==> Exists(items', key);
  }

  // A specification that was not absent is found at its turn.
  lemma StillFound<A(!new)>(specs: seq<Resource<A>>, legacy: map<string, Id>, spec: Resource<A>,
                            items: map<Id, A>, before: Status, status: Status)
    requires spec in specs && Untouched(items, before, items, status) && Recorded(items, legacy, specs, before, status)
    requires !Absent(items, legacy, spec, before)
    ensures !Absent(items, legacy, spec, status)
  {
  }

  // The loops over the subnets, the NAT services and the security groups of a specification.
  method EnsureAll<A(==, !new)>(store: Store<A>, specs: seq<Resource<A>>, status: Status, mayCreate: bool,
                                confirm: bool, ghost slotOf: A -> string)
    returns (ok: bool, status': Status)
    requires store.Valid() && Coherent(specs, slotOf)
    modifies store`items
    ensures store.Valid()
    ensures Since(specs, slotOf, store.legacy, old(store.items), status, store.items, status')
    ensures ok ==> forall spec <- specs :: Served(store.items, store.legacy, spec, status, status')
    ensures ok ==> forall spec <- specs :: Handled(specs, store.legacy, spec, mayCreate, status, store.items)
    ensures OnlyKeys(specs, store.legacy, status, old(store.items), store.items)
    ensures !mayCreate ==> store.items == old(store.items)
    ensures !store.faulty && mayCreate ==> ok
    ensures !store.faulty && (forall spec <- specs :: !Absent(old(store.items), store.legacy, spec, status)) ==> ok
  {
    status' := status;
    for i := 0 to |specs|
      invariant store.Valid()
      invariant Through(specs, slotOf, store.legacy, mayCreate, old(store.items), status, i, store.items, status')
    {
      ghost var items, previous := store.items, status';
      ok, status' := Ensure(store, specs[i], status', mayCreate, confirm);
      if !ok && !mayCreate && !Absent(items, store.legacy, specs[i], status) {
        StillFound(specs, store.legacy, specs[i], items, status, previous);
      }
      ThroughNext(specs, slotOf, store.legacy, mayCreate, old(store.items), status, i, items, previous,
                  store.items, status', ok);
      if !ok {
        return;
      }
    }
    assert specs[..|specs|] == specs;
    ok := true;
  }

  // The first i specifications have been dealt with.
  ghost predicate Through<A(!new)>(specs: seq<Resource<A>>, slotOf: A -> string, legacy: map<string, Id>,
                                   mayCreate: bool, items0: map<Id, A>, status0: Status, i: nat,
                                   items: map<Id, A>, status: Status)
    requires i <= |specs|
  {
    && Since(specs, slotOf, legacy, items0, status0, items, status)
    && Recorded(items, legacy, specs, status0, status)
    && OnlyKeys(specs, legacy, status0, items0, items)
    && (!mayCreate ==> Untouched(items0, status0, items, status))
    && (forall spec <- specs[..i] :: Served(items, legacy, spec, status0, status))
    && (forall spec <- specs[..i] :: Handled(specs, legacy, spec, mayCreate, status0, items))
  }

  lemma ThroughNext<A(!new)>(specs: seq<Resource<A>>, slotOf: A -> string, legacy: map<string, Id>, mayCreate: bool,
                             items0: map<Id, A>, status0: Status, i: nat, items: map<Id, A>, status: Status,
                             items': map<Id, A>, status': Status, ok: bool)
    requires i < |specs| && Coherent(specs, slotOf) && 0 !in items' && forall name <- legacy :: legacy[name] in items
    requires Through(specs, slotOf, legacy, mayCreate, items0, status0, i, items, status)
    requires EnsureStep(legacy, specs[i], mayCreate, items, status, items', status', ok)
    ensures Through(specs, slotOf, legacy, mayCreate, items0, status0, if ok then i + 1 else i, items', status')
  {
    var spec := specs[i];
    SinceNext(specs, slotOf, legacy, spec, mayCreate, items0, status0, items, status, items', status', ok);
    KeysNext(specs, legacy, spec, mayCreate, items0, status0, items, status, items', status', ok);
    DoneNext(specs, legacy, mayCreate, items0, status0, i, items, status, items', status', ok);
  }

  lemma SinceNext<A(!new)>(specs: seq<Resource<A>>, slotOf: A -> string, legacy: map<string, Id>, spec: Resource<A>,
                           mayCreate: bool, items0: map<Id, A>, status0: Status, items: map<Id, A>, status: Status,
                           items': map<Id, A>, status': Status, ok: bool)
    requires EnsureStep(legacy, spec, mayCreate, items, status, items', status', ok)
    requires spec in specs && slotOf(spec.key) == spec.slot && forall name <- legacy :: legacy[name] in items
    requires Since(specs, slotOf, legacy, items0, status0, items, status)
    ensures Since(specs, slotOf, legacy, items0, status0, items', status')
  {
    EnsureKeeps(specs, slotOf, legacy, spec, mayCreate, items, status, items', status', ok);
    SinceTransitive(specs, slotOf, legacy, items0, status0, items, status, items', status');
  }

  lemma DoneNext<A(!new)>(specs: seq<Resource<A>>, legacy: map<string, Id>, mayCreate: bool,
                          items0: map<Id, A>, status0: Status, i: nat, items: map<Id, A>, status: Status,
                          items': map<Id, A>, status': Status, ok: bool)
    requires i < |specs| && 0 !in items'
    requires forall one <- specs, other <- specs :: one.slot == other.slot ==> one.key == other.key
    requires EnsureStep(legacy, specs[i], mayCreate, items, status, items', status', ok)
    requires Recorded(items, legacy, specs, status0, status)
    requires !mayCreate ==> Untouched(items0, status0, items, status)
    requires forall spec <- specs[..i] :: Served(items, legacy, spec, status0, status)
    requires forall spec <- specs[..i] :: Handled(specs, legacy, spec, mayCreate, status0, items)
    ensures Recorded(items', legacy, specs, status0, status')
    ensures !mayCreate ==> Untouched(items0, status0, items', status')
    ensures var n := if ok then i + 1 else i;
            && (forall spec <- specs[..n] :: Served(items', legacy, spec, status0, status'))
            && (forall spec <- specs[..n] :: Handled(specs, legacy, spec, mayCreate, status0, items'))
  {
    EnsureRecords(specs, legacy, specs[i], mayCreate, items, status0, status, items', status', ok);
    EnsureHandles(specs, legacy, specs[i], mayCreate, items, status0, status, items', status', ok);
    assert specs[..i + 1] == specs[..i] + [specs[i]];
  }

  lemma KeysNext<A(!new)>(specs: seq<Resource<A>>, legacy: map<string, Id>, spec: Resource<A>, mayCreate: bool,
                          items0: map<Id, A>, status0: Status, items: map<Id, A>, status: Status,
                          items': map<Id, A>, status': Status, ok: bool)
    requires EnsureStep(legacy, spec, mayCreate, items, status, items', status', ok) && spec in specs
    requires Recorded(items, legacy, specs, status0, status) && 0 !in items
    requires forall i <- items0 :: i in items && items[i] == items0[i]
    requires OnlyKeys(specs, legacy, status0, items0, items)
    ensures OnlyKeys(specs, legacy, status0, items0, items')
  {
    if items' != items {
      AbsentBefore(specs, legacy, spec, items0, status0, items, status);
    }
  }

  // A specification that is absent at its turn was absent at the start.
  lemma AbsentBefore<A(!new)>(specs: seq<Resource<A>>, legacy: map<string, Id>, spec: Resource<A>,
                              items0: map<Id, A>, status0: Status, items: map<Id, A>, status: Status)
    requires spec in specs && Recorded(items, legacy, specs, status0, status) && 0 !in items
    requires forall i <- items0 :: i in items && items[i] == items0[i]
    requires Absent(items, legacy, spec, status)
    ensures Absent(items0, legacy, spec, status0)
  {
  }

  // ---- The resources of a cluster ----

  datatype SubnetSpec = SubnetSpec(resourceId: Id, range: string)
  datatype NatSpec = NatSpec(token: string, name: string)
  datatype GroupSpec = GroupSpec(resourceId: Id, name: string)

  datatype Cluster = Cluster(uid: string, netResourceId: Id, netName: string, useExistingNet: bool,
                             useExistingGroups: bool, subnets: seq<SubnetSpec>, nats: seq<NatSpec>,
                             groups: seq<GroupSpec>)
  {
    function Legacy(name: string): string {
      if name == "" then "" else name + "-" + uid
    }

    function Net(): Resource<string> {
      Resource(netResourceId, "default", uid, Legacy(netName))
    }

    // Subnets are remembered by range, NAT services by token, security groups by name.
    function Subnets(netId: Id): seq<Resource<(Id, string)>> {
      seq(|subnets|, i requires 0 <= i < |subnets| =>
        Resource(subnets[i].resourceId, subnets[i].range, (netId, subnets[i].range), ""))
    }

    function Nats(): seq<Resource<string>> {
      seq(|nats|, i requires 0 <= i < |nats| => Resource(0, nats[i].token, nats[i].token, Legacy(nats[i].name)))
    }

    function Groups(): seq<Resource<string>> {
      seq(|groups|, i requires 0 <= i < |groups| => Resource(groups[i].resourceId, groups[i].name, groups[i].name, ""))
    }
  }

  // The entry of the status for a resource of a given key.
  ghost function NetSlot(): string -> string { owner => "default" }
  ghost function SubnetSlot(): ((Id, string)) -> string { (key: (Id, string)) => key.1 }
  ghost function NameSlot(): string -> string { (name: string) => name }

  // What dangles and what has a legacy tag does not depend on the net.
  lemma AnyNet(c: Cluster, net: Id, other: Id, legacy: map<string, Id>, items: map<Id, (Id, string)>, status: Status,
               items': map<Id, (Id, string)>, status': Status)
    requires Since(c.Subnets(net), SubnetSlot(), legacy, items, status, items', status')
    ensures Since(c.Subnets(other), SubnetSlot(), legacy, items, status, items', status')
  {
    GoneInAnyNet(c, net, other, items, status);
    GoneInAnyNet(c, net, other, items', status');
    forall slot | AllLegacy(c.Subnets(other), legacy, slot)
      ensures AllLegacy(c.Subnets(net), legacy, slot)
    {
      forall i | 0 <= i < |c.subnets|
        ensures c.subnets[i].range != slot
      {
        assert c.Subnets(other)[i] in c.Subnets(other);
      }
    }
  }

  lemma GoneInAnyNet(c: Cluster, net: Id, other: Id, items: map<Id, (Id, string)>, status: Status)
    ensures Gone(items, c.Subnets(net), status) == Gone(items, c.Subnets(other), status)
  {
    forall i | 0 <= i < |c.subnets|
      ensures c.Subnets(net)[i] in c.Subnets(net) && c.Subnets(other)[i] in c.Subnets(other)
      ensures Dangling(items, c.Subnets(net)[i], status) <==> Dangling(items, c.Subnets(other)[i], status)
    {
    }
  }

  // The status remembers nothing for the slot.
  ghost predicate Blank(status: Status, slot: string) {
    slot in status ==> status[slot] == 0
  }

  // What the loops do, in terms of the cluster.
  lemma SubnetsMade(c: Cluster, net: Id, mayCreate: bool, legacy: map<string, Id>,
                    items: map<Id, (Id, string)>, status: Status, items': map<Id, (Id, string)>, ok: bool)
    requires OnlyKeys(c.Subnets(net), legacy, status, items, items')
    requires !mayCreate ==> items' == items
    requires ok ==> forall spec <- c.Subnets(net) :: Handled(c.Subnets(net), legacy, spec, mayCreate, status, items')
    ensures forall i <- items' :: i !in items ==>
              exists spec <- c.subnets ::
                && items'[i] == (net, spec.range) && (spec.resourceId != 0 ==> spec.resourceId !in items)
                && (spec.resourceId == 0 && Blank(status, spec.range) ==> (net, spec.range) !in items.Values)
    ensures ok ==> forall spec <- c.subnets :: spec.resourceId == 0 && Blank(status, spec.range) ==>
              exists i :: i in items' && items'[i] == (net, spec.range)
    ensures ok && !mayCreate ==> forall spec <- c.Subnets(net) :: !Absent(items, legacy, spec, status)
  {
    var specs := c.Subnets(net);
    forall i <- items' | i !in items
      ensures exists spec <- c.subnets ::
                && items'[i] == (net, spec.range) && (spec.resourceId != 0 ==> spec.resourceId !in items)
                && (spec.resourceId == 0 && Blank(status, spec.range) ==> (net, spec.range) !in items.Values)
    {
      var r :| r in specs && items'[i] == r.key && Absent(items, legacy, r, status);
      var k :| 0 <= k < |specs| && specs[k] == r;
      assert c.subnets[k] in c.subnets;
    }
    if ok {
      forall spec <- c.subnets | spec.resourceId == 0 && Blank(status, spec.range)
        ensures exists i :: i in items' && items'[i] == (net, spec.range)
      {
        var k :| 0 <= k < |c.subnets| && c.subnets[k] == spec;
        assert specs[k] in specs && Handled(specs, legacy, specs[k], mayCreate, status, items');
        assert Exists(items', specs[k].key);
      }
    }
  }

  lemma NatsMade(c: Cluster, legacy: map<string, Id>, items: map<Id, string>, status: Status, items': map<Id, string>,
                 ok: bool)
    requires OnlyKeys(c.Nats(), legacy, status, items, items')
    requires ok ==> forall spec <- c.Nats() :: Handled(c.Nats(), legacy, spec, true, status, items')
    ensures forall i <- items' :: i !in items ==>
              exists spec <- c.nats ::
                && items'[i] == spec.token
                && (Blank(status, spec.token) ==>
                      spec.token !in items.Values && (spec.name == "" || spec.name + "-" + c.uid !in legacy))
    ensures ok ==> forall spec <- c.nats :: Blank(status, spec.token) && NoLegacy(c.Nats(), legacy, spec.token) ==>
              exists i :: i in items' && items'[i] == spec.token
  {
    var specs := c.Nats();
    forall i <- items' | i !in items
      ensures exists spec <- c.nats ::
                && items'[i] == spec.token
                && (Blank(status, spec.token) ==>
                      spec.token !in items.Values && (spec.name == "" || spec.name + "-" + c.uid !in legacy))
    {
      var r :| r in specs && items'[i] == r.key && Absent(items, legacy, r, status);
      var k :| 0 <= k < |specs| && specs[k] == r;
      assert c.nats[k] in c.nats;
    }
    if ok {
      forall spec <- c.nats | Blank(status, spec.token) && NoLegacy(specs, legacy, spec.token)
        ensures exists i :: i in items' && items'[i] == spec.token
      {
        var k :| 0 <= k < |c.nats| && c.nats[k] == spec;
        assert specs[k] in specs && Handled(specs, legacy, specs[k], true, status, items');
        assert Exists(items', specs[k].key);
      }
    }
  }

  lemma GroupsMade(c: Cluster, legacy: map<string, Id>, items: map<Id, string>, status: Status, items': map<Id, string>,
                   ok: bool)
    requires OnlyKeys(c.Groups(), legacy, status, items, items')
    requires ok ==> forall spec <- c.Groups() :: Handled(c.Groups(), legacy, spec, true, status, items')
    ensures forall i <- items' :: i !in items ==>
              exists spec <- c.groups ::
                && items'[i] == spec.name && (spec.resourceId != 0 ==> spec.resourceId !in items)
                && (spec.resourceId == 0 && Blank(status, spec.name) ==> spec.name !in items.Values)
    ensures ok ==> forall spec <- c.groups :: spec.resourceId == 0 && Blank(status, spec.name) ==>
              exists i :: i in items' && items'[i] == spec.name
  {
    var specs := c.Groups();
    forall i <- items' | i !in items
      ensures exists spec <- c.groups ::
                && items'[i] == spec.name && (spec.resourceId != 0 ==> spec.resourceId !in items)
                && (spec.resourceId == 0 && Blank(status, spec.name) ==> spec.name !in items.Values)
    {
      var r :| r in specs && items'[i] == r.key && Absent(items, legacy, r, status);
      var k :| 0 <= k < |specs| && specs[k] == r;
      assert c.groups[k] in c.groups;
    }
    if ok {
      forall spec <- c.groups | spec.resourceId == 0 && Blank(status, spec.name)
        ensures exists i :: i in items' && items'[i] == spec.name
      {
        var k :| 0 <= k < |c.groups| && c.groups[k] == spec;
        assert specs[k] in specs && Handled(specs, legacy, specs[k], true, status, items');
        assert Exists(items', specs[k].key);
      }
    }
  }

  // The live resources of every kind, and what the status remembers.
  datatype Snapshot = Snapshot(nets: map<Id, string>, netStatus: Status,
                               subnets: map<Id, (Id, string)>, subnetStatus: Status,
                               nats: map<Id, string>, natStatus: Status,
                               groups: map<Id, string>, groupStatus: Status)

  class Reconciler {
    const nets: Store<string>
    const subnets: Store<(Id, string)>
    const nats: Store<string>
    const groups: Store<string>
    var netStatus: Status
    var subnetStatus: Status
    var natStatus: Status
    var groupStatus: Status

    ghost predicate Valid()
      reads this, nets, subnets, nats, groups
    {
      && nets != nats && nets != groups && nats != groups
      && nets.Valid() && subnets.Valid() && nats.Valid() && groups.Valid()
    }

    ghost function Now(): Snapshot
      reads this, nets, subnets, nats, groups
    {
      Snapshot(nets.items, netStatus, subnets.items, subnetStatus, nats.items, natStatus, groups.items, groupStatus)
    }

    // What has been kept of every kind since s.
    ghost predicate Kept(c: Cluster, s: Snapshot)
      reads this, nets, subnets, nats, groups
    {
      && Since([c.Net()], NetSlot(), nets.legacy, s.nets, s.netStatus, nets.items, netStatus)
      && Since(c.Subnets(0), SubnetSlot(), subnets.legacy, s.subnets, s.subnetStatus, subnets.items, subnetStatus)
      && Since(c.Nats(), NameSlot(), nats.legacy, s.nats, s.natStatus, nats.items, natStatus)
      && Since(c.Groups(), NameSlot(), groups.legacy, s.groups, s.groupStatus, groups.items, groupStatus)
    }

    constructor (nets: Store<string>, subnets: Store<(Id, string)>, nats: Store<string>, groups: Store<string>)
      requires nets != nats && nets != groups && nats != groups
      requires nets.Valid() && subnets.Valid() && nats.Valid() && groups.Valid()
      ensures Valid()
      ensures this.nets == nets && this.subnets == subnets && this.nats == nats && this.groups == groups
      ensures netStatus == subnetStatus == natStatus == groupStatus == map[]
    {
      this.nets, this.subnets, this.nats, this.groups := nets, subnets, nats, groups;
      netStatus, subnetStatus, natStatus, groupStatus := map[], map[], map[], map[];
    }

    // The creation stages of a pass, in order. It may be interrupted at any cloud call.
    method Pass(c: Cluster) returns (ok: bool)
      requires Valid()
      modifies this, nets`items, subnets`items, nats`items, groups`items
      ensures Valid() && Kept(c, old(Now()))
      ensures ok ==> AllServed(c, old(Now()))
      // What the user brings is never created.
      ensures c.useExistingNet ==>
                nets.items == old(nets.items) && subnets.items == old(subnets.items) && nats.items == old(nats.items)
      ensures c.useExistingGroups ==> groups.items == old(groups.items)
      // Without faults a pass succeeds, exactly unless the user brings a net and it, or one of its subnets,
      // cannot be found.
      ensures Faultless() && !c.useExistingNet ==> ok
      ensures Faultless() && c.useExistingNet ==>
                (ok <==> && !Absent(old(nets.items), nets.legacy, c.Net(), old(netStatus))
                         && forall spec <- c.Subnets(Remembered(c.Net(), netStatus)) ::
                              !Absent(old(subnets.items), subnets.legacy, spec, old(subnetStatus)))
      // A successful pass has created what was missing.
      ensures ok ==> AllMade(c, old(Now()))
    {
      ok := ReconcileNetwork(c);
      if !ok {
        return;
      }
      if !c.useExistingNet {
        ok := ReconcileNatServices(c);
        if !ok {
          return;
        }
      }
      if !c.useExistingGroups {
        ok := ReconcileSecurityGroups(c);
      }
    }

    method ReconcileNetwork(c: Cluster) returns (ok: bool)
      requires nets.Valid() && subnets.Valid()
      modifies this`netStatus, this`subnetStatus, nets`items, subnets`items
      ensures nets.Valid() && subnets.Valid()
      ensures Since([c.Net()], NetSlot(), nets.legacy, old(nets.items), old(netStatus), nets.items, netStatus)
      ensures Since(c.Subnets(0), SubnetSlot(), subnets.legacy, old(subnets.items), old(subnetStatus),
                    subnets.items, subnetStatus)
      ensures ok ==> Served(nets.items, nets.legacy, c.Net(), old(netStatus), netStatus)
      ensures ok ==> forall spec <- c.Subnets(Remembered(c.Net(), netStatus)) ::
                       Served(subnets.items, subnets.legacy, spec, old(subnetStatus), subnetStatus)
      ensures c.useExistingNet ==> nets.items == old(nets.items) && subnets.items == old(subnets.items)
      ensures !nets.faulty && !subnets.faulty && !c.useExistingNet ==> ok
      ensures !nets.faulty && !subnets.faulty && c.useExistingNet ==>
                (ok <==> && !Absent(old(nets.items), nets.legacy, c.Net(), old(netStatus))
                         && forall spec <- c.Subnets(Remembered(c.Net(), netStatus)) ::
                              !Absent(old(subnets.items), subnets.legacy, spec, old(subnetStatus)))
      ensures ok ==> NetMade(c, old(netStatus)) && SubnetsMadeIn(c, old(subnetStatus))
    {
      ok := ReconcileNet(c);
      if !ok {
        return;
      }
      ok := ReconcileSubnets(c);
    }

    ghost predicate Faultless()
      reads this, nets, subnets, nats, groups
    {
      !nets.faulty && !subnets.faulty && !nats.faulty && !groups.faulty
    }

    // What was neither remembered nor found by a legacy tag since s has a live resource under its key: the net
    // under the identifier of the cluster, subnets under the net and their range, NAT services under their
    // token, groups under their name.
    ghost predicate AllMade(c: Cluster, s: Snapshot)
      reads this, nets, subnets, nats, groups
    {
      && NetMade(c, s.netStatus) && SubnetsMadeIn(c, s.subnetStatus)
      && (!c.useExistingNet ==> forall spec <- c.nats ::
            Blank(s.natStatus, spec.token) && NoLegacy(c.Nats(), nats.legacy, spec.token) ==>
              exists i :: i in nats.items && nats.items[i] == spec.token)
      && (!c.useExistingGroups ==> forall spec <- c.groups ::
            spec.resourceId == 0 && Blank(s.groupStatus, spec.name) ==>
              exists i :: i in groups.items && groups.items[i] == spec.name)
    }

    ghost predicate NetMade(c: Cluster, before: Status)
      reads nets
    {
      c.netResourceId == 0 && Blank(before, "default") && c.Legacy(c.netName) !in nets.legacy ==>
        exists i :: i in nets.items && nets.items[i] == c.uid
    }

    ghost predicate SubnetsMadeIn(c: Cluster, before: Status)
      reads this`netStatus, subnets
    {
      forall spec <- c.subnets :: spec.resourceId == 0 && Blank(before, spec.range) ==>
        exists i :: i in subnets.items && subnets.items[i] == (Remembered(c.Net(), netStatus), spec.range)
    }

    method ReconcileNet(c: Cluster) returns (ok: bool)
      requires nets.Valid()
      modifies this`netStatus, nets`items
      ensures nets.Valid()
      ensures Since([c.Net()], NetSlot(), nets.legacy, old(nets.items), old(netStatus), nets.items, netStatus)
      ensures ok ==> Served(nets.items, nets.legacy, c.Net(), old(netStatus), netStatus)
      // A net that the user brings is never created. Otherwise one that cannot be found is, once, under the
      // identifier of the cluster.
      ensures c.useExistingNet || !Absent(old(nets.items), nets.legacy, c.Net(), old(netStatus)) ==>
                nets.items == old(nets.items)
      ensures ok && Absent(old(nets.items), nets.legacy, c.Net(), old(netStatus)) ==>
                !c.useExistingNet
                && exists id: Id :: id !in old(nets.items) && nets.items == old(nets.items)[id := c.uid]
      ensures ok ==> NetMade(c, old(netStatus))
      ensures c.netResourceId != 0 && c.netResourceId in old(nets.items) ==>
                nets.items == old(nets.items) && (ok || nets.faulty)
      ensures !nets.faulty ==>
                (ok <==> !c.useExistingNet || !Absent(old(nets.items), nets.legacy, c.Net(), old(netStatus)))
      // In particular, for a cluster that has none: nothing set by the user, remembered, tagged or found.
      ensures !nets.faulty && c.netResourceId == 0 && Blank(old(netStatus), "default")
              && c.netName + "-" + c.uid !in nets.legacy
              && (forall i <- old(nets.items) :: old(nets.items)[i] != c.uid) ==>
                if c.useExistingNet then !ok && nets.items == old(nets.items)
                else ok && exists id: Id :: id !in old(nets.items) && nets.items == old(nets.items)[id := c.uid]
    {
      ghost var items, status := nets.items, netStatus;
      ok, netStatus := Ensure(nets, c.Net(), netStatus, !c.useExistingNet, true);
      EnsureKeeps([c.Net()], NetSlot(), nets.legacy, c.Net(), !c.useExistingNet, items, status, nets.items,
                  netStatus, ok);
      EnsureRecords([c.Net()], nets.legacy, c.Net(), !c.useExistingNet, items, status, status, nets.items,
                    netStatus, ok);
      CreationKeeps(items, nets.items, c.uid);
      assert ok && Absent(items, nets.legacy, c.Net(), status) ==> Exists(nets.items, c.uid);
    }

    method ReconcileSubnets(c: Cluster) returns (ok: bool)
      requires subnets.Valid()
      modifies this`subnetStatus, subnets`items
      ensures subnets.Valid()
      ensures Since(c.Subnets(0), SubnetSlot(), subnets.legacy, old(subnets.items), old(subnetStatus),
                    subnets.items, subnetStatus)
      ensures ok ==> forall spec <- c.Subnets(Remembered(c.Net(), netStatus)) ::
                       Served(subnets.items, subnets.legacy, spec, old(subnetStatus), subnetStatus)
      ensures c.useExistingNet ==> subnets.items == old(subnets.items)
      ensures !subnets.faulty && !c.useExistingNet ==> ok
      ensures !subnets.faulty && c.useExistingNet ==>
                (ok <==> forall spec <- c.Subnets(Remembered(c.Net(), netStatus)) ::
                           !Absent(old(subnets.items), subnets.legacy, spec, old(subnetStatus)))
      ensures ok ==> forall spec <- c.subnets :: spec.resourceId == 0 && Blank(old(subnetStatus), spec.range) ==>
                exists i :: i in subnets.items && subnets.items[i] == (Remembered(c.Net(), netStatus), spec.range)
      // What is created is what was missing: no subnet that the user names or that the net has already.
      ensures forall i <- subnets.items :: i !in old(subnets.items) ==>
                var net := Remembered(c.Net(), netStatus);
                exists spec <- c.subnets ::
                  && subnets.items[i] == (net, spec.range)
                  && (spec.resourceId != 0 ==> spec.resourceId !in old(subnets.items))
                  && (spec.resourceId == 0 && Blank(old(subnetStatus), spec.range) ==>
                        (net, spec.range) !in old(subnets.items).Values)
    {
      var netId := Remembered(c.Net(), netStatus);
      ok, subnetStatus := EnsureAll(subnets, c.Subnets(netId), subnetStatus, !c.useExistingNet, false, SubnetSlot());
      AnyNet(c, netId, 0, subnets.legacy, old(subnets.items), old(subnetStatus), subnets.items, subnetStatus);
      SubnetsMade(c, netId, !c.useExistingNet, subnets.legacy, old(subnets.items), old(subnetStatus), subnets.items,
                  ok);
    }

    method ReconcileNatServices(c: Cluster) returns (ok: bool)
      requires nats.Valid()
      modifies this`natStatus, nats`items
      ensures nats.Valid()
      ensures Since(c.Nats(), NameSlot(), nats.legacy, old(nats.items), old(natStatus), nats.items, natStatus)
      ensures ok ==> forall spec <- c.Nats() :: Served(nats.items, nats.legacy, spec, old(natStatus), natStatus)
      ensures !nats.faulty ==> ok
      ensures ok ==> forall spec <- c.nats ::
                Blank(old(natStatus), spec.token) && NoLegacy(c.Nats(), nats.legacy, spec.token) ==>
                  exists i :: i in nats.items && nats.items[i] == spec.token
      ensures forall i <- nats.items :: i !in old(nats.items) ==>
                exists spec <- c.nats ::
                  && nats.items[i] == spec.token
                  && (Blank(old(natStatus), spec.token) ==>
                        && spec.token !in old(nats.items).Values
                        && (spec.name == "" || spec.name + "-" + c.uid !in nats.legacy))
    {
      ok, natStatus := EnsureAll(nats, c.Nats(), natStatus, true, false, NameSlot());
      NatsMade(c, nats.legacy, old(nats.items), old(natStatus), nats.items, ok);
    }

    method ReconcileSecurityGroups(c: Cluster) returns (ok: bool)
      requires groups.Valid()
      modifies this`groupStatus, groups`items
      ensures groups.Valid()
      ensures Since(c.Groups(), NameSlot(), groups.legacy, old(groups.items), old(groupStatus),
                    groups.items, groupStatus)
      ensures ok ==> forall spec <- c.Groups() ::
                       Served(groups.items, groups.legacy, spec, old(groupStatus), groupStatus)
      ensures !groups.faulty ==> ok
      ensures ok ==> forall spec <- c.groups :: spec.resourceId == 0 && Blank(old(groupStatus), spec.name) ==>
                exists i :: i in groups.items && groups.items[i] == spec.name
      ensures forall i <- groups.items :: i !in old(groups.items) ==>
                exists spec <- c.groups ::
                  && groups.items[i] == spec.name
                  && (spec.resourceId != 0 ==> spec.resourceId !in old(groups.items))
                  && (spec.resourceId == 0 && Blank(old(groupStatus), spec.name) ==>
                        spec.name !in old(groups.items).Values)
    {
      ok, groupStatus := EnsureAll(groups, c.Groups(), groupStatus, true, false, NameSlot());
      GroupsMade(c, groups.legacy, old(groups.items), old(groupStatus), groups.items, ok);
    }

    // Every specification is served, s being the state at the start of the pass.
    ghost predicate AllServed(c: Cluster, s: Snapshot)
      reads this, nets, subnets, nats, groups
    {
      && Served(nets.items, nets.legacy, c.Net(), s.netStatus, netStatus)
      && (forall spec <- c.Subnets(Remembered(c.Net(), netStatus)) ::
            Served(subnets.items, subnets.legacy, spec, s.subnetStatus, subnetStatus))
      && (!c.useExistingNet ==>
            forall spec <- c.Nats() :: Served(nats.items, nats.legacy, spec, s.natStatus, natStatus))
      && (!c.useExistingGroups ==>
            forall spec <- c.Groups() :: Served(groups.items, groups.legacy, spec, s.groupStatus, groupStatus))
    }

    // A crash may lose any part of what the last passes wrote in the status.
    method LoseStatus(net: set<string>, subnet: set<string>, nat_: set<string>, group: set<string>)
      modifies this
      ensures netStatus == old(netStatus) - net && subnetStatus == old(subnetStatus) - subnet
      ensures natStatus == old(natStatus) - nat_ && groupStatus == old(groupStatus) - group
    {
      netStatus, subnetStatus := netStatus - net, subnetStatus - subnet;
      natStatus, groupStatus := natStatus - nat_, groupStatus - group;
    }

    // Any run of passes, interrupted or not, and of losses of the status: nothing that the cluster
    // already has disappears, and nothing becomes double, except in slots that dangled at the start.
    method AnyRun(c: Cluster, steps: nat)
      requires Valid()
      modifies this, nets`items, subnets`items, nats`items, groups`items
      ensures Valid() && Kept(c, old(Now()))
    {
      for i := 0 to steps
        invariant Valid() && Kept(c, old(Now()))
      {
        PassOrLoss(c);
      }
    }

    method PassOrLoss(c: Cluster)
      requires Valid()
      modifies this, nets`items, subnets`items, nats`items, groups`items
      ensures Valid() && Kept(c, old(Now()))
    {
      var crash: bool := *;
      if crash {
        var net: set<string>, subnet: set<string>, nat_: set<string>, group: set<string> := *, *, *, *;
        LoseStatus(net, subnet, nat_, group);
      } else {
        var _ := Pass(c);
      }
    }

    method LoseAll()
      modifies this
      ensures netStatus == subnetStatus == natStatus == groupStatus == map[]
    {
      netStatus, subnetStatus, natStatus, groupStatus := map[], map[], map[], map[];
    }

    // A lookup of the net, any run, a loss of the whole status, and the lookup again.
    method NetAgain(c: Cluster, steps: nat) returns (first: Lookup, again: Lookup)
      requires Valid() && AtMostOne(nets.items, c.uid)
      modifies this, nets`items, subnets`items, nats`items, groups`items
      ensures first.Found? && !again.Failed? ==>
                (again == first <==> Reliable(old(nets.items), nets.legacy, c.Net(), first.id))
    {
      ghost var items, status := nets.items, netStatus;
      first, netStatus := Locate(nets, c.Net(), netStatus, true);
      ghost var known := netStatus;
      AnyRun(c, steps);
      ghost var kept := netStatus;
      LoseAll();
      again, netStatus := Locate(nets, c.Net(), netStatus, true);
      if first.Found? && again.Found? {
        SameIdExactly([c.Net()], NetSlot(), nets.legacy, c.Net(), items, status, known, first.id,
                      nets.items, kept, again.id);
      }
    }

    // The same for the k-th subnet, in one net.
    method SubnetAgain(c: Cluster, net: Id, k: nat, steps: nat) returns (first: Lookup, again: Lookup)
      requires Valid() && k < |c.subnets| && AtMostOne(subnets.items, (net, c.subnets[k].range))
      requires c.subnets[k].range !in Gone(subnets.items, c.Subnets(net), subnetStatus)
      modifies this, nets`items, subnets`items, nats`items, groups`items
      ensures first.Found? && !again.Failed? ==>
                (again == first <==> Reliable(old(subnets.items), subnets.legacy, c.Subnets(net)[k], first.id))
    {
      ghost var items, status := subnets.items, subnetStatus;
      first, subnetStatus := Locate(subnets, c.Subnets(net)[k], subnetStatus, false);
      ghost var known := subnetStatus;
      AnyRun(c, steps);
      ghost var kept := subnetStatus;
      LoseAll();
      again, subnetStatus := Locate(subnets, c.Subnets(net)[k], subnetStatus, false);
      if first.Found? && again.Found? {
        AnyNet(c, 0, net, subnets.legacy, items, known, subnets.items, kept);
        SameIdExactly(c.Subnets(net), SubnetSlot(), subnets.legacy, c.Subnets(net)[k], items, status, known, first.id,
                      subnets.items, kept, again.id);
      }
    }

    // The same for the k-th NAT service. Names that share a token may have different legacy tags: when
    // one of them has none, a run may create a service under the token.
    method NatAgain(c: Cluster, k: nat, steps: nat) returns (first: Lookup, again: Lookup)
      requires Valid() && k < |c.nats| && AtMostOne(nats.items, c.nats[k].token)
      requires c.nats[k].token !in Gone(nats.items, c.Nats(), natStatus)
      modifies this, nets`items, subnets`items, nats`items, groups`items
      ensures first.Found? && Reliable(old(nats.items), nats.legacy, c.Nats()[k], first.id) ==> !again.NotFound?
      ensures first.Found? && !Reliable(old(nats.items), nats.legacy, c.Nats()[k], first.id) ==> again != first
      ensures first.Found? && !again.Failed?
              && (|| Exists(old(nats.items), c.nats[k].token)
                  || (HasLegacy(c.Nats()[k], nats.legacy) ==> AllLegacy(c.Nats(), nats.legacy, c.nats[k].token))) ==>
                (again == first <==> Reliable(old(nats.items), nats.legacy, c.Nats()[k], first.id))
    {
      ghost var items, status := nats.items, natStatus;
      first, natStatus := Locate(nats, c.Nats()[k], natStatus, false);
      ghost var known := natStatus;
      AnyRun(c, steps);
      ghost var kept := natStatus;
      LoseAll();
      again, natStatus := Locate(nats, c.Nats()[k], natStatus, false);
      if first.Found? && again.Found? {
        SameId(c.Nats(), NameSlot(), nats.legacy, c.Nats()[k], items, status, known, first.id,
               nats.items, kept, again.id);
      }
    }

    // The same for the k-th security group.
    method GroupAgain(c: Cluster, k: nat, steps: nat) returns (first: Lookup, again: Lookup)
      requires Valid() && k < |c.groups| && AtMostOne(groups.items, c.groups[k].name)
      requires c.groups[k].name !in Gone(groups.items, c.Groups(), groupStatus)
      modifies this, nets`items, subnets`items, nats`items, groups`items
      ensures first.Found? && !again.Failed? ==>
                (again == first <==> Reliable(old(groups.items), groups.legacy, c.Groups()[k], first.id))
    {
      ghost var items, status := groups.items, groupStatus;
      first, groupStatus := Locate(groups, c.Groups()[k], groupStatus, false);
      ghost var known := groupStatus;
      AnyRun(c, steps);
      ghost var kept := groupStatus;
      LoseAll();
      again, groupStatus := Locate(groups, c.Groups()[k], groupStatus, false);
      if first.Found? && again.Found? {
        SameIdExactly(c.Groups(), NameSlot(), groups.legacy, c.Groups()[k], items, status, known, first.id,
                      groups.items, kept, again.id);
      }
    }
  }

  // ---- Lookups after a loss of the status ----

  // What does not depend on the status: an identifier set by the user, a resource under the key, or one found
  // by its legacy tag while none is under the key.
  ghost predicate Reliable<A>(items: map<Id, A>, legacy: map<string, Id>, spec: Resource<A>, id: Id) {
    || spec.resourceId != 0
    || (id in items && items[id] == spec.key)
    || (!Exists(items, spec.key) && HasLegacy(spec, legacy) && id == legacy[spec.legacyName])
  }

  // A lookup that found id is followed by a run and a loss of the status; the lookup then finds again. A
  // resource that only the status led to is lost, and others are found again, provided that the run
  // does not create one under the key.
  lemma SameId<A(!new)>(specs: seq<Resource<A>>, slotOf: A -> string, legacy: map<string, Id>, spec: Resource<A>,
                        items: map<Id, A>, status: Status, known: Status, id: Id,
                        items': map<Id, A>, kept: Status, again: Id)
    requires spec in specs && slotOf(spec.key) == spec.slot && AtMostOne(items, spec.key)
    requires spec.slot !in Gone(items, specs, status)
    requires Records(items, legacy, spec, status, known)
    requires Locates(items, legacy, spec, status, id)
    requires forall name <- legacy :: legacy[name] in items
    requires Since(specs, slotOf, legacy, items, known, items', kept) && Locates(items', legacy, spec, map[], again)
    ensures !Reliable(items, legacy, spec, id) ==> again != id
    ensures Reliable(items, legacy, spec, id) && (Exists(items, spec.key) || AllLegacy(specs, legacy, spec.slot)) ==>
              again == id
    ensures spec.resourceId != 0 ==> again == id
  {
    forall other <- specs | other.slot == spec.slot
      ensures !Dangling(items, other, known)
    {
      assert !Dangling(items, other, status);
    }
  }

  lemma SameIdExactly<A(!new)>(specs: seq<Resource<A>>, slotOf: A -> string, legacy: map<string, Id>, spec: Resource<A>,
                               items: map<Id, A>, status: Status, known: Status, id: Id,
                               items': map<Id, A>, kept: Status, again: Id)
    requires spec in specs && slotOf(spec.key) == spec.slot && AtMostOne(items, spec.key)
    requires spec.slot !in Gone(items, specs, status)
    requires Records(items, legacy, spec, status, known)
    requires Locates(items, legacy, spec, status, id)
    requires forall name <- legacy :: legacy[name] in items
    requires Since(specs, slotOf, legacy, items, known, items', kept) && Locates(items', legacy, spec, map[], again)
    requires HasLegacy(spec, legacy) ==> AllLegacy(specs, legacy, spec.slot)
    ensures again == id <==> Reliable(items, legacy, spec, id)
  {
    SameId(specs, slotOf, legacy, spec, items, status, known, id, items', kept, again);
  }

  // ---- Witnesses ----

  // A status that remembers a resource that is gone, while another one lives under the key: finding or creating
  // succeeds, and makes a second one.
  lemma GoneMakesDouble<A(!new)>(slot: string, key: A) returns (items: map<Id, A>, status: Status, items': map<Id, A>,
                                                              status': Status)
    ensures EnsureStep(map[], Resource(0, slot, key, ""), true, items, status, items', status', true)
    ensures AtMostOne(items, key) && !AtMostOne(items', key)
  {
    items, status := map[2 := key], map[slot := 1];
    var id: Id := 3;
    items', status' := items[id := key], map[slot := id];
    assert id !in items && items' == items[id := key];
    assert 2 in items' && 3 in items' && items'[2] == items'[3] == key;
  }

  // A status that remembers a resource under another key, found once by its legacy tag, while one lives
  // under the key: a lookup after a loss of the status finds the other one.
  lemma LossChangesLookup<A(!new)>(slot: string, key: A, other: A, name: string)
    returns (items: map<Id, A>, legacy: map<string, Id>, status: Status)
    requires key != other && name != ""
    ensures var spec := Resource(0, slot, key, name);
            && Locates(items, legacy, spec, status, 1) && Locates(items, legacy, spec, map[], 2)
            && !Reliable(items, legacy, spec, 1)
  {
    items, legacy, status := map[1 := other, 2 := key], map[name := 1], map[slot := 1];
    assert 2 in items && items[2] == key;
    assert Exists(items, key);
  }
}
