// Counts of machines per subregion, and the effect of placing machines one by one in a least
// loaded subregion, whatever the order in which ties are broken.
module WaterFilling {

  type Counts = map<string, nat>

  ghost predicate IsMin(c: Counts, k: string) {
    k in c && forall j <- c :: c[k] <= c[j]
  }

  ghost predicate IsMax(c: Counts, k: string) {
    k in c && forall j <- c :: c[j] <= c[k]
  }

  // One placement: any least loaded subregion may be chosen.
  ghost predicate Placement(c: Counts, c': Counts) {
    exists k :: IsMin(c, k) && c' == c[k := c[k] + 1]
  }

  // c' is reachable from c by n placements.
  ghost predicate Greedy(c: Counts, n: nat, c': Counts) {
    if n == 0 then c' == c
    else exists mid :: Greedy(c, n - 1, mid) && Placement(mid, c')
  }

  // The counts are filled up to level, as water would: those above it are untouched, and the
  // others end at the level or one above it.
  ghost predicate FilledTo(c: Counts, c': Counts, level: nat) {
    && c'.Keys == c.Keys
    && (exists k <- c' :: c'[k] == level)
    && forall k <- c ::
         if c[k] > level then c'[k] == c[k]
         else c'[k] == level || c'[k] == level + 1
  }

  ghost function Sum(c: Counts): nat {
    if c == map[] then 0 else
    var k :| k in c;
    c[k] + Sum(c - {k})
  }

  ghost function AtLevel(c: Counts, v: nat): set<string> {
    set k | k in c && c[k] == v
  }

  // Same number of subregions at every level, that is, the same multiset of counts.
  ghost predicate SameProfile(c: Counts, d: Counts) {
    forall v: nat :: |AtLevel(c, v)| == |AtLevel(d, v)|
  }

  lemma {:induction false} SumSplit(c: Counts, k: string)
    requires k in c
    ensures Sum(c) == c[k] + Sum(c - {k})
    decreases |c|
  {
    var j :| j in c && Sum(c) == c[j] + Sum(c - {j});
    if j != k {
      SumSplit(c - {j}, k);
      SumSplit(c - {k}, j);
      assert c - {j} - {k} == c - {k} - {j};
    }
  }

  lemma MinExists(c: Counts) returns (k: string)
    requires c != map[]
    ensures IsMin(c, k)
    decreases |c|
  {
    var j :| j in c;
    if c.Keys == {j} {
      k := j;
    } else {
      assert (c - {j}).Keys == c.Keys - {j};
      var m := MinExists(c - {j});
      k := if c[j] <= c[m] then j else m;
      forall i | i in c
        ensures c[k] <= c[i]
      {
        if i != j { assert i in c - {j}; }
      }
    }
  }

  // Placements lose no machine.
  lemma {:induction false} GreedyConserves(c: Counts, n: nat, c': Counts)
    requires Greedy(c, n, c')
    ensures c'.Keys == c.Keys
    ensures Sum(c') == Sum(c) + n
    ensures forall k <- c :: c[k] <= c'[k]
    decreases n
  {
    if n > 0 {
      var mid :| Greedy(c, n - 1, mid) && Placement(mid, c');
      GreedyConserves(c, n - 1, mid);
      var k :| IsMin(mid, k) && c' == mid[k := mid[k] + 1];
      PlacementConserves(mid, k);
    }
  }

  lemma PlacementConserves(c: Counts, k: string)
    requires k in c
    ensures Sum(c[k := c[k] + 1]) == Sum(c) + 1
  {
    var c' := c[k := c[k] + 1];
    SumSplit(c, k);
    SumSplit(c', k);
    assert c - {k} == c' - {k};
  }

  // Placements fill the counts as water would, up to the final minimum.
  lemma {:induction false} GreedyFills(c: Counts, n: nat, c': Counts, m: string)
    requires Greedy(c, n, c') && IsMin(c', m)
    ensures FilledTo(c, c', c'[m])
    decreases n
  {
    if n > 0 {
      var mid :| Greedy(c, n - 1, mid) && Placement(mid, c');
      var k :| IsMin(mid, k) && c' == mid[k := mid[k] + 1];
      GreedyFills(c, n - 1, mid, k);
      PlacementFills(c, mid, k, c', m);
    }
  }

  lemma PlacementFills(c: Counts, mid: Counts, k: string, c': Counts, m: string)
    requires IsMin(mid, k) && FilledTo(c, mid, mid[k])
    requires c' == mid[k := mid[k] + 1]
    requires IsMin(c', m)
    ensures FilledTo(c, c', c'[m])
  {
    assert m in mid && k in c';
    assert mid[k] <= c'[m] <= c'[k] == mid[k] + 1;
    forall j | j in c
      ensures if c[j] > c'[m] then c'[j] == c[j] else c'[j] == c'[m] || c'[j] == c'[m] + 1
    {
      assert mid[k] <= mid[j] && c'[m] <= c'[j];
    }
  }

  // The balance that the allocator promises: a subregion that received a machine ends at most one
  // above the least loaded one, and the spread never exceeds the larger of its first value and one.
  lemma GreedyBalances(c: Counts, n: nat, c': Counts, low: string, high: string, low0: string, high0: string)
    requires Greedy(c, n, c')
    requires IsMin(c', low) && IsMin(c, low0)
    requires IsMax(c', high) && IsMax(c, high0)
    ensures c'.Keys == c.Keys
    ensures forall k <- c :: c[k] <= c'[k]
    ensures forall k <- c :: c[k] < c'[k] ==> c'[k] <= c'[low] + 1
    ensures c'[high] - c'[low] <= if c[high0] - c[low0] > 1 then c[high0] - c[low0] else 1
  {
    GreedyFills(c, n, c', low);
    GreedyConserves(c, n, c');
  }

  // Ties do not matter: whatever subregions are chosen, the final multiset of counts is the same,
  // even from different counts that have the same profile.
  lemma {:induction false} TiesDoNotMatter(c: Counts, d: Counts, n: nat, c': Counts, d': Counts)
    requires SameProfile(c, d)
    requires Greedy(c, n, c') && Greedy(d, n, d')
    ensures SameProfile(c', d')
    decreases n
  {
    if n > 0 {
      var c1 :| Greedy(c, n - 1, c1) && Placement(c1, c');
      var d1 :| Greedy(d, n - 1, d1) && Placement(d1, d');
      TiesDoNotMatter(c, d, n - 1, c1, d1);
      PlacementKeepsProfile(c1, d1, c', d');
    }
  }

  lemma PlacementKeepsProfile(c: Counts, d: Counts, c': Counts, d': Counts)
    requires SameProfile(c, d)
    requires Placement(c, c') && Placement(d, d')
    ensures SameProfile(c', d')
  {
    var k :| IsMin(c, k) && c' == c[k := c[k] + 1];
    var j :| IsMin(d, j) && d' == d[j := d[j] + 1];
    SameMin(c, d, k, j);
    SameMin(d, c, j, k);
    forall v: nat
      ensures |AtLevel(c', v)| == |AtLevel(d', v)|
    {
      PlacementLevels(c, k, v);
      PlacementLevels(d, j, v);
    }
  }

  lemma SameMin(c: Counts, d: Counts, k: string, j: string)
    requires SameProfile(c, d) && IsMin(c, k) && IsMin(d, j)
    ensures c[k] <= d[j]
  {
    assert j in AtLevel(d, d[j]);
    assert |AtLevel(c, d[j])| == |AtLevel(d, d[j])| > 0;
    var i :| i in AtLevel(c, d[j]);
  }

  lemma PlacementLevels(c: Counts, k: string, v: nat)
    requires k in c
    ensures var c' := c[k := c[k] + 1];
            |AtLevel(c', v)| == |AtLevel(c, v)| + (if v == c[k] + 1 then 1 else 0) - (if v == c[k] then 1 else 0)
  {
    var c' := c[k := c[k] + 1];
    if v == c[k] {
      assert AtLevel(c, v) == AtLevel(c', v) + {k};
    } else if v == c[k] + 1 {
      assert AtLevel(c', v) == AtLevel(c, v) + {k};
    } else {
      assert AtLevel(c', v) == AtLevel(c, v);
    }
  }
}
