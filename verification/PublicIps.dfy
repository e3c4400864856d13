// The allocation of public IPs, the status map that tracks them, and their release.
module PublicIps {
  import opened Options
  import opened Pow2
  import opened Faults

  // linked tells whether the IP is attached to something; kept tells whether it carries a pool tag or a
  // no-delete tag.
  datatype Ip = Ip(address: string, linked: bool, kept: bool)

  type Id = string

  type Listing = seq<(Id, Ip)>

  // The IPs of the cloud, and the entries of the status. An empty identifier counts as no entry.
  datatype State = State(ips: map<Id, Ip>, tracked: map<string, Id>)
  {
    predicate Has(key: string) { key in tracked && tracked[key] != "" }

    // The key tracks an IP that exists.
    predicate Finds(key: string) { Has(key) && tracked[key] in ips }

    // The key tracks an IP that exists and is free.
    predicate Holds(key: string) { Finds(key) && !ips[tracked[key]].linked }
  }

  datatype Allocation = Failed | Allocated(id: Id, address: string)

  // ---- The pool ----

  // The entry k places after off, going round.
  function At(pool: Listing, off: nat, k: nat): (Id, Ip)
    requires |pool| > 0
  {
    pool[(off + k) % |pool|]
  }

  // The first free IP of a pool, in circular order from off.
  ghost predicate FirstFree(pool: Listing, off: nat, i: nat)
    requires |pool| > 0
  {
    i < |pool| && !At(pool, off, i).1.linked && forall k :: 0 <= k < i ==> At(pool, off, k).1.linked
  }

  method ScanPool(pool: Listing, off: nat) returns (found: Option<(Id, Ip)>)
    requires |pool| > 0
    ensures found.Some? <==> exists p <- pool :: !p.1.linked
    ensures found.Some? ==> exists i: nat :: FirstFree(pool, off, i) && found.value == At(pool, off, i)
  {
    var i := 0;
    while i < |pool| && At(pool, off, i).1.linked
      invariant i <= |pool|
      invariant forall k :: 0 <= k < i ==> At(pool, off, k).1.linked
    {
      i := i + 1;
    }
    if i < |pool| {
      assert FirstFree(pool, off, i);
      found := Some(At(pool, off, i));
    } else {
      AllLinked(pool, off);
      found := None;
    }
  }

  lemma AllLinked(pool: Listing, off: nat)
    requires |pool| > 0
    requires forall k :: 0 <= k < |pool| ==> At(pool, off, k).1.linked
    ensures forall p <- pool :: p.1.linked
  {
    forall j | 0 <= j < |pool|
      ensures pool[j].1.linked
    {
      var k := CircularIndex(off, |pool|, j);
      assert At(pool, off, k).1.linked;
    }
  }

  // Every position is reached within one turn.
  lemma CircularIndex(off: nat, n: nat, j: nat) returns (k: nat)
    requires j < n
    ensures k < n && (off + k) % n == j
  {
    var r, q := off % n, off / n;
    Parts(off, n);
    Regroup(q, 1, 0, n);
    if j >= r {
      k := j - r;
      Remainder(off + k, n, q, j);
    } else {
      k := j + n - r;
      Next(q, n);
      Remainder(off + k, n, q + 1, j);
    }
  }

  lemma Next(q: nat, n: nat)
    ensures (q + 1) * n == q * n + n
  {
  }

  lemma Remainder(a: nat, n: nat, q: nat, j: nat)
    requires j < n && a == q * n + j
    ensures a % n == j
  {
    QuotientIs(a, n, q);
    Parts(a, n);
  }

  // ---- Meaning of the calls ----

  // A pool listed by the cloud.
  ghost predicate Lists(pool: Listing, ips: map<Id, Ip>) {
    forall p <- pool :: p.0 != "" && p.0 in ips && ips[p.0] == p.1
  }

  // One free IP more, without a tag that keeps it.
  ghost predicate Created(ips: map<Id, Ip>, ips': map<Id, Ip>) {
    exists id, ip: Ip :: id !in ips && id != "" && !ip.linked && !ip.kept && ips' == ips[id := ip]
  }

  // One call to AllocateIP on key. pool is what listing the pool returns, None without a pool.
  ghost predicate Allocates(s: State, key: string, pool: Option<Listing>, s': State, r: Allocation) {
    if r.Failed? then
      && s'.tracked == s.tracked
      && (s'.ips == s.ips || (pool.None? && !s.Holds(key) && Created(s.ips, s'.ips)))
    else if s.Holds(key) then
      s' == s && r == Allocated(s.tracked[key], s.ips[s.tracked[key]].address)
    else
      && r.id != "" && s'.tracked == s.tracked[key := r.id]
      && r.id in s'.ips && !s'.ips[r.id].linked && s'.ips[r.id].address == r.address
      && (pool.Some? ==> s'.ips == s.ips && exists p <- pool.value :: p.0 == r.id && !p.1.linked)
      && (pool.None? ==> r.id !in s.ips && Created(s.ips, s'.ips))
  }

  // One call to RetrackIP on key, for an address that the resource using the IP still shows.
  ghost predicate Retracks(s: State, key: string, address: string, s': State, ok: bool) {
    && s'.ips == s.ips
    && (s'.tracked == s.tracked
        || (address != "" && !s.Has(key)
            && exists id :: HasAddress(s.ips, id, address) && s'.tracked == s.tracked[key := id]))
    && (ok && address != "" && !s.Has(key) && (exists id :: HasAddress(s.ips, id, address)) ==>
          key in s'.tracked && HasAddress(s.ips, s'.tracked[key], address))
  }

  predicate HasAddress(ips: map<Id, Ip>, id: Id, address: string) {
    id in ips && ips[id].address == address
  }

  // What may be deleted: a tracked IP that exists, is free, and carries no tag that keeps it.
  ghost predicate Deletable(s: State, id: Id) {
    && id in s.ips && !s.ips[id].linked && !s.ips[id].kept
    && exists key :: s.Has(key) && s.tracked[key] == id
  }

  // From s to s', each tracked key is still tracked, or its IP no longer exists, or is kept; IPs may
  // only disappear, and only those that were tracked, free and not kept.
  ghost predicate Conserves(s: State, s': State) {
    && (forall k :: s.Has(k) && !s'.Has(k) ==> s.tracked[k] !in s'.ips || s'.ips[s.tracked[k]].kept)
    && (forall k <- s'.tracked :: k in s.tracked && s'.tracked[k] == s.tracked[k])
    && (forall id <- s'.ips :: id in s.ips && s'.ips[id] == s.ips[id])
    && (forall id <- s.ips :: id !in s'.ips ==> Deletable(s, id))
  }

  // ---- The allocator ----

  class IPAllocator {
    var ips: map<Id, Ip>
    var tracked: map<string, Id>
    // Whether cloud calls may fail.
    var faulty: bool

    ghost function Now(): State
      reads this
    {
      State(ips, tracked)
    }

    method GetPublicIp(id: Id) returns (ok: bool, pip: Option<Ip>)
      ensures !ok ==> faulty
      ensures pip == if id in ips then Some(ips[id]) else None
    {
      var fails := MayFail(faulty);
      ok := !fails;
      pip := if id in ips then Some(ips[id]) else None;
    }

    // A creation that fails may have had its effect.
    method CreatePublicIp(newId: Id, address: string) returns (ok: bool)
      requires newId !in ips && newId != ""
      modifies this`ips
      ensures ok ==> ips == old(ips)[newId := Ip(address, false, false)]
      ensures ips == old(ips) || Created(old(ips), ips)
      ensures ok ==> Created(old(ips), ips)
      ensures !ok ==> faulty
    {
      var fails := MayFail(faulty);
      ok := !fails;
      var effect: bool := *;
      if ok || effect {
        var ip := Ip(address, false, false);
        ips := ips[newId := ip];
      }
    }

    // newId and address are those that a creation would give; off is the random offset.
    method AllocateIP(key: string, listing: Option<Listing>, off: nat, newId: Id, address: string)
      returns (r: Allocation)
      requires listing.Some? ==> Lists(listing.value, ips)
      requires newId !in ips && newId != ""
      modifies this`ips, this`tracked
      ensures Allocates(old(Now()), key, listing, Now(), r)
      ensures !faulty ==> (r.Failed? <==> !old(Now()).Holds(key) && listing.Some?
                                          && forall p <- listing.value :: p.1.linked)
      // The IP tracked is given again if it exists and is free. An entry that is missing, empty, stale or
      // linked gives way to a new IP.
      ensures r.Allocated? && (|| key !in old(tracked) || old(tracked)[key] == "" || old(tracked)[key] !in old(ips)
                               || old(ips)[old(tracked)[key]].linked) ==>
                && tracked == old(tracked)[key := r.id]
                && (listing.None? ==>
                      r == Allocated(newId, address) && ips == old(ips)[newId := Ip(address, false, false)])
                && (listing.Some? ==> ips == old(ips) && r.id in ips && !ips[r.id].linked)
      ensures r.Allocated? && key in old(tracked) && old(tracked)[key] != "" && old(tracked)[key] in old(ips)
              && !old(ips)[old(tracked)[key]].linked ==>
                r.id == old(tracked)[key] && tracked == old(tracked) && ips == old(ips)
    {
      if key in tracked && tracked[key] != "" {
        var ok, pip := GetPublicIp(tracked[key]);
        if !ok {
          return Failed;
        }
        if pip.Some? && !pip.value.linked {
          return Allocated(tracked[key], pip.value.address);
        }
      }
      if listing.Some? {
        r := AllocateFromPool(listing.value, off);
      } else {
        var ok := CreatePublicIp(newId, address);
        r := if ok then Allocated(newId, address) else Failed;
      }
      if r.Allocated? {
        tracked := tracked[key := r.id];
      }
    }

    method AllocateFromPool(pool: Listing, off: nat) returns (r: Allocation)
      requires Lists(pool, ips)
      ensures r.Allocated? ==> exists p <- pool :: p.0 == r.id && !p.1.linked && p.1.address == r.address
      ensures !faulty ==> (r.Allocated? <==> exists p <- pool :: !p.1.linked)
    {
      var fails := MayFail(faulty);
      if fails || |pool| == 0 {
        return Failed;
      }
      var found := ScanPool(pool, off);
      if found.None? {
        return Failed;
      }
      r := Allocated(found.value.0, found.value.1.address);
    }

    // Tracks again an IP lost in a reset of the status.
    method RetrackIP(key: string, publicIp: string) returns (ok: bool)
      modifies this`tracked
      ensures Retracks(old(Now()), key, publicIp, Now(), ok)
      ensures !ok ==> faulty
      // A missing or an empty entry gets an IP that has the address, if there is one.
      ensures ok && publicIp != "" && (key !in old(tracked) || old(tracked)[key] == "")
              && (exists id <- ips :: ips[id].address == publicIp) ==>
                exists id <- ips :: ips[id].address == publicIp && tracked == old(tracked)[key := id]
      ensures key in old(tracked) && old(tracked)[key] != "" ==> tracked == old(tracked)
    {
      if publicIp == "" {
        return true;
      }
      if key in tracked && tracked[key] != "" {
        return true;
      }
      var fails := MayFail(faulty);
      ok := !fails;
      if ok && exists id | id in ips :: HasAddress(ips, id, publicIp) {
        var id :| id in ips && HasAddress(ips, id, publicIp);
        tracked := tracked[key := id];
      }
    }

    method DeallocateIP(key: string) returns (ok: bool)
      modifies this`ips
      ensures || ips == old(ips)
              || (old(Now()).Has(key) && Deletable(old(Now()), tracked[key]) && ips == old(ips) - {tracked[key]})
      ensures ok && Now().Has(key) ==> tracked[key] !in ips || ips[tracked[key]].kept
      ensures old(Now()).Finds(key) && old(ips)[tracked[key]].linked ==> !ok
      ensures key !in tracked || tracked[key] == "" ==> ok && ips == old(ips)
      // What is kept, or linked, stays; what is tracked and neither is gone after a success.
      ensures forall id <- old(ips) :: old(ips)[id].kept || old(ips)[id].linked ==> id in ips && ips[id] == old(ips)[id]
      ensures ok && key in tracked && tracked[key] != "" && tracked[key] in old(ips) && !old(ips)[tracked[key]].kept ==>
                ips == old(ips) - {tracked[key]}
      ensures !ok ==> faulty || (old(Now()).Finds(key) && old(ips)[tracked[key]].linked)
    {
      if key in tracked && tracked[key] != "" {
        var id := tracked[key];
        var read, pip := GetPublicIp(id);
        if !read {
          return false;
        }
        if pip.None? {
          return true;
        }
        if pip.value.linked {
          return false;
        }
        if pip.value.kept {
          return true;
        }
        assert Now().Has(key) && Deletable(Now(), id);
        var fails := MayFail(faulty);
        ok := !fails;
        var effect: bool := *;
        if ok || effect {
          ips := ips - {id};
        }
        return;
      }
      ok := true;
    }

    method UntrackIP(key: string)
      modifies this`tracked
      ensures tracked == old(tracked) - {key}
    {
      tracked := tracked - {key};
    }

    // One turn of the loop below.
    method Release(key: string) returns (ok: bool)
      modifies this`ips, this`tracked
      ensures Conserves(old(Now()), Now())
      ensures tracked == if ok then old(tracked) - {key} else old(tracked)
      ensures forall id <- old(ips) :: old(ips)[id].kept || old(ips)[id].linked ==> id in ips && ips[id] == old(ips)[id]
      ensures ok ==> !LinkedAt(old(Now()), key)
      ensures !ok ==> faulty || LinkedAt(old(Now()), key)
    {
      ok := DeallocateIP(key);
      if ok {
        UntrackIP(key);
      }
    }

    // The loop over the tracked map, in any order, that shrinks it as it goes.
    method ReconcileDeletePublicIp() returns (ok: bool)
      modifies this`ips, this`tracked
      ensures Conserves(old(Now()), Now())
      ensures ok ==> tracked == map[] && NoneLinked(old(Now()))
      // What is kept or linked stays, and so does what is not tracked; the rest is gone after a success.
      ensures forall id <- old(ips) :: old(ips)[id].kept || old(ips)[id].linked ==> id in ips && ips[id] == old(ips)[id]
      ensures ok ==> forall id <- old(ips) ::
                id in ips <==> old(ips)[id].kept || id == "" || forall key <- old(tracked) :: old(tracked)[key] != id
      ensures !ok && !faulty ==> !NoneLinked(old(Now()))
    {
      var todo := tracked.Keys;
      while todo != {}
        invariant todo == tracked.Keys
        invariant Conserves(old(Now()), Now())
        invariant forall k :: LinkedAt(old(Now()), k) ==> LinkedAt(Now(), k)
      {
        var k :| k in todo;
        todo := todo - {k};
        ghost var before := Now();
        ok := Release(k);
        ConservesTransitive(old(Now()), before, Now());
        if !ok {
          assert LinkedAt(before, k) ==> LinkedAt(old(Now()), k);
          return;
        }
        LinkedStay(before, Now(), k);
      }
      ok := true;
    }
  }

  ghost predicate LinkedAt(s: State, key: string) {
    s.Finds(key) && s.ips[s.tracked[key]].linked
  }

  ghost predicate NoneLinked(s: State) {
    forall k :: !LinkedAt(s, k)
  }

  lemma LinkedStay(s: State, s': State, key: string)
    requires Conserves(s, s') && s'.tracked == s.tracked - {key} && !LinkedAt(s, key)
    ensures forall k :: LinkedAt(s, k) ==> LinkedAt(s', k)
  {
    forall k | LinkedAt(s, k)
      ensures LinkedAt(s', k)
    {
      assert k in s'.tracked;
      assert !Deletable(s, s.tracked[k]);
    }
  }

  // Any number of failed deletions in a row conserve as one does.
  lemma ConservesTransitive(a: State, b: State, c: State)
    requires Conserves(a, b) && Conserves(b, c)
    ensures Conserves(a, c)
  {
    forall k | a.Has(k) && !c.Has(k)
      ensures a.tracked[k] !in c.ips || c.ips[a.tracked[k]].kept
    {
    }
    forall id <- a.ips | id !in c.ips
      ensures Deletable(a, id)
    {
      if id in b.ips {
        assert Deletable(b, id);
        var key :| b.Has(key) && b.tracked[key] == id;
        assert a.Has(key) && a.tracked[key] == id;
      }
    }
  }

  // ---- Runs of allocations ----

  // The others event is what the rest of the world does: it may create, link, unlink and delete IPs.
  datatype Event =
    | Allocation(key: string, pool: Option<Listing>, result: Allocation)
    | Retracking(key: string, address: string, ok: bool)
    | Others

  ghost predicate Step(s: State, e: Event, s': State) {
    match e
    case Allocation(key, pool, r) => Allocates(s, key, pool, s', r)
    case Retracking(key, address, ok) => Retracks(s, key, address, s', ok)
    case Others => s'.tracked == s.tracked
  }

  ghost predicate Run(states: seq<State>, events: seq<Event>) {
    |states| == |events| + 1 && forall i :: 0 <= i < |events| ==> Step(states[i], events[i], states[i + 1])
  }

  // No one else links, changes or deletes the IP.
  ghost predicate LeavesAlone(s: State, s': State, id: Id) {
    id in s.ips ==> id in s'.ips && s'.ips[id] == s.ips[id]
  }

  ghost predicate LeftAlone(states: seq<State>, events: seq<Event>, id: Id)
    requires |states| == |events| + 1
  {
    forall i :: 0 <= i < |events| && events[i].Others? ==> LeavesAlone(states[i], states[i + 1], id)
  }

  // The key holds the IP id.
  ghost predicate Keeps(s: State, key: string, id: Id, ip: Ip) {
    s.Holds(key) && s.tracked[key] == id && s.ips[id] == ip
  }

  // What an allocation on key gives while it holds id.
  ghost predicate SameAgain(s: State, e: Event, s': State, id: Id, ip: Ip)
    requires e.Allocation?
  {
    s'.ips == s.ips && (e.result.Failed? || e.result == Allocated(id, ip.address))
  }

  lemma StepKeeps(s: State, e: Event, s': State, key: string, id: Id, ip: Ip)
    requires Step(s, e, s') && Keeps(s, key, id, ip)
    requires e.Others? ==> LeavesAlone(s, s', id)
    ensures Keeps(s', key, id, ip)
    ensures e.Allocation? && e.key == key ==> SameAgain(s, e, s', id, ip)
  {
  }

  // Whatever else is allocated or tracked, and however often calls fail, a key that holds a free IP
  // gets that IP from each successful allocation, and none is created for it.
  lemma {:induction false} AllocationRepeats(states: seq<State>, events: seq<Event>, key: string, id: Id, ip: Ip)
    requires Run(states, events) && LeftAlone(states, events, id) && Keeps(states[0], key, id, ip)
    ensures Keeps(states[|events|], key, id, ip)
    ensures forall i :: 0 <= i < |events| && events[i].Allocation? && events[i].key == key ==>
              SameAgain(states[i], events[i], states[i + 1], id, ip)
  {
    if events != [] {
      var n := |events| - 1;
      AllocationRepeats(states[..n + 1], events[..n], key, id, ip);
      StepKeeps(states[n], events[n], states[n + 1], key, id, ip);
      forall i | 0 <= i < n && events[i].Allocation? && events[i].key == key
        ensures SameAgain(states[i], events[i], states[i + 1], id, ip)
      {
        assert events[..n][i] == events[i];
      }
    }
  }

  // A successful allocation leaves the key holding the IP it returned.
  lemma AllocationHolds(s: State, key: string, pool: Option<Listing>, s': State, r: Allocation)
    requires Allocates(s, key, pool, s', r) && r.Allocated?
    ensures s'.Holds(key) && s'.tracked[key] == r.id && s'.ips[r.id].address == r.address
  {
  }

  // After a reset of the status, tracking again by address and then allocating gives the IP held
  // before the reset, and creates none.
  lemma RetrackedAllocation(s: State, lost: State, key: string, back: State, pool: Option<Listing>,
                            end: State, r: Allocation)
    requires s.Holds(key) && s.ips[s.tracked[key]].address != ""
    requires forall id :: HasAddress(s.ips, id, s.ips[s.tracked[key]].address) ==> id == s.tracked[key]
    requires lost.ips == s.ips && !lost.Has(key)
    requires Retracks(lost, key, s.ips[s.tracked[key]].address, back, true)
    requires Allocates(back, key, pool, end, r)
    ensures end.ips == s.ips && end.Holds(key) && end.tracked[key] == s.tracked[key]
    ensures r.Allocated? ==> r.id == s.tracked[key]
  {
    assert HasAddress(lost.ips, s.tracked[key], s.ips[s.tracked[key]].address);
  }

  // ---- Sharing ----

  // Another key tracks the IP.
  ghost predicate Shares(s: State, key: string, id: Id) {
    exists other :: other != key && s.Has(other) && s.tracked[other] == id
  }

  // From the offset off, the scan draws p.
  ghost predicate Draws(pool: Listing, off: nat, p: (Id, Ip)) {
    |pool| > 0 && exists i: nat :: FirstFree(pool, off, i) && p == At(pool, off, i)
  }

  // The scan can draw any free IP of the pool, and no other.
  lemma DrawsExactly(pool: Listing, p: (Id, Ip))
    ensures (exists off: nat :: Draws(pool, off, p)) <==> p in pool && !p.1.linked
  {
    if p in pool && !p.1.linked {
      var j :| 0 <= j < |pool| && pool[j] == p;
      assert At(pool, j, 0) == p && FirstFree(pool, j, 0);
      assert Draws(pool, j, p);
    }
  }

  // A key that holds no free IP may be given, from a pool, one that another key tracks, exactly when the
  // pool lists a free one that another key tracks.
  lemma PoolSharesExactly(s: State, key: string, pool: Listing)
    requires Lists(pool, s.ips) && !s.Holds(key)
    ensures (exists s', r :: Allocates(s, key, Some(pool), s', r) && r.Allocated? && Shares(s, key, r.id))
       <==> exists p <- pool :: !p.1.linked && Shares(s, key, p.0)
    ensures (exists off: nat, p :: Draws(pool, off, p) && Shares(s, key, p.0))
       <==> exists p <- pool :: !p.1.linked && Shares(s, key, p.0)
  {
    if p :| p in pool && !p.1.linked && Shares(s, key, p.0) {
      DrawsExactly(pool, p);
      var s' := State(s.ips, s.tracked[key := p.0]);
      var r := Allocated(p.0, p.1.address);
      assert Allocates(s, key, Some(pool), s', r);
    }
    forall off: nat, p | Draws(pool, off, p)
      ensures p in pool && !p.1.linked
    {
      DrawsExactly(pool, p);
    }
  }

  // Distinct keys get distinct IPs when both are created, but not from a pool: a pool IP stays free,
  // and can be drawn again, until it is linked.
  lemma CreatedIpsAreNotShared(s: State, key: string, s': State, r: Allocation, other: string)
    requires Allocates(s, key, None, s', r) && r.Allocated? && !s.Holds(key)
    requires other != key && s.Finds(other)
    ensures s'.tracked[other] != r.id
  {
  }

  lemma PoolIpsMayBeShared() returns (s: State, pool: Listing, r: Allocation, s1: State, s2: State)
    ensures Lists(pool, s.ips)
    ensures Allocates(s, "nat", Some(pool), s1, r) && Allocates(s1, "bastion", Some(pool), s2, r)
    ensures r.Allocated? && s2.tracked["nat"] == s2.tracked["bastion"] == r.id
  {
    var ip := Ip("192.0.2.1", false, true);
    pool := [("eipalloc-1", ip)];
    s := State(map["eipalloc-1" := ip], map[]);
    r := Allocated("eipalloc-1", "192.0.2.1");
    s1 := State(s.ips, map["nat" := "eipalloc-1"]);
    s2 := State(s.ips, map["nat" := "eipalloc-1", "bastion" := "eipalloc-1"]);
    assert pool[0].0 == r.id;
    assert s1.tracked == s.tracked["nat" := r.id];
    assert s2.tracked == s1.tracked["bastion" := r.id];
  }
}
