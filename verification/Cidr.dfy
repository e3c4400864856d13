// Address prefixes (section 3.1 of RFC 4632), and the validation of subnet ranges against the range of the net.
module Cidr {
  import opened Pow2

  datatype Prefix = Prefix(v6: bool, addr: nat, bits: nat)
  {
    function Width(): nat { if v6 then 128 else 32 }

    predicate Valid() { bits <= Width() && addr < Pow(Width()) }

    // The network part of the address, and the address with its host part cleared.
    function Block(n: nat): nat
      requires n <= Width()
    {
      High(addr, Width() - n)
    }

    function Masked(n: nat): nat
      requires n <= Width()
    {
      Block(n) * Pow(Width() - n)
    }

    // The address a, of the given family, belongs to the prefix.
    ghost predicate Contains(family6: bool, a: nat)
      requires bits <= Width()
    {
      family6 == v6 && a < Pow(Width()) && High(a, Width() - bits) == Block(bits)
    }
  }

  // A range as written in a specification: how the standard library reads it is not modelled.
  datatype Range = Blank | Unparsable(text: string) | Parsed(prefix: Prefix)
  {
    predicate Valid() { Parsed? ==> prefix.Valid() }
  }

  predicate Overlaps(p: Prefix, o: Prefix)
    requires p.Valid() && o.Valid()
  {
    if p == o then true
    else if p.v6 != o.v6 then false
    else
      var minBits := if p.bits < o.bits then p.bits else o.bits;
      minBits == 0 || p.Masked(minBits) == o.Masked(minBits)
  }

  datatype Error = Malformed(text: string) | NotInNet(subnet: Prefix) | Clash(one: Prefix, other: Prefix)

  ghost predicate AllValid(specs: seq<Range>) {
    forall spec <- specs :: spec.Valid()
  }

  // The ranges that parse, in order.
  ghost function ParsedOf(specs: seq<Range>): (subnets: seq<Prefix>)
    requires AllValid(specs)
    ensures forall s :: s in subnets <==> Parsed(s) in specs
    ensures forall s <- subnets :: s.Valid()
  {
    if specs == [] then [] else
    var front, last := specs[..|specs| - 1], specs[|specs| - 1];
    assert specs == front + [last];
    ParsedOf(front) + if last.Parsed? then [last.prefix] else []
  }

  ghost predicate Clashing(subnets: seq<Prefix>, a: Prefix, b: Prefix)
    requires forall s <- subnets :: s.Valid()
  {
    exists i, j :: 0 <= i < j < |subnets| && subnets[i] == a && subnets[j] == b && Overlaps(a, b)
  }

  // The complaints, one by one. When the net does not parse, nothing is compared.
  ghost predicate Complains(specs: seq<Range>, net: Range, e: Error)
    requires AllValid(specs) && net.Valid()
  {
    match e
    case Malformed(t) => Unparsable(t) in specs
    case NotInNet(s) => net.Parsed? && s in ParsedOf(specs) && !Overlaps(s, net.prefix)
    case Clash(a, b) => net.Parsed? && Clashing(ParsedOf(specs), a, b)
  }

  method ValidateSubnetCidr(specs: seq<Range>, net: Range) returns (erl: seq<Error>)
    requires AllValid(specs) && net.Valid()
    ensures forall e :: e in erl <==> Complains(specs, net, e)
  {
    var subnets;
    subnets, erl := ParseAll(specs);
    if !net.Parsed? {
      return;
    }
    var more := CompareAll(subnets, net.prefix);
    erl := erl + more;
    forall a, b
      ensures Raised(subnets, net.prefix, |subnets|, Clash(a, b)) <==> Clashing(subnets, a, b)
    {
      RaisedIsClashing(subnets, net.prefix, a, b);
    }
    assert subnets[..|subnets|] == subnets;
  }

  lemma RaisedIsClashing(subnets: seq<Prefix>, net: Prefix, a: Prefix, b: Prefix)
    requires (forall s <- subnets :: s.Valid()) && net.Valid()
    ensures Raised(subnets, net, |subnets|, Clash(a, b)) <==> Clashing(subnets, a, b)
  {
    if Clashing(subnets, a, b) {
      var i, j :| 0 <= i < j < |subnets| && subnets[i] == a && subnets[j] == b && Overlaps(a, b);
      assert RaisedBy(subnets, i, Clash(a, b));
    }
  }

  // What comparing the first upto subnets with the net and with their successors raises.
  ghost predicate Raised(subnets: seq<Prefix>, net: Prefix, upto: nat, e: Error)
    requires (forall s <- subnets :: s.Valid()) && net.Valid() && upto <= |subnets|
  {
    match e
    case Malformed(_) => false
    case NotInNet(s) => s in subnets[..upto] && !Overlaps(s, net)
    case Clash(a, b) => exists k :: 0 <= k < upto && RaisedBy(subnets, k, e)
  }

  ghost predicate RaisedBy(subnets: seq<Prefix>, k: nat, e: Error)
    requires (forall s <- subnets :: s.Valid()) && k < |subnets|
  {
    exists j :: k < j < |subnets| && e == Clash(subnets[k], subnets[j]) && Overlaps(subnets[k], subnets[j])
  }

  method CompareAll(subnets: seq<Prefix>, net: Prefix) returns (erl: seq<Error>)
    requires (forall s <- subnets :: s.Valid()) && net.Valid()
    ensures forall e :: e in erl <==> Raised(subnets, net, |subnets|, e)
  {
    erl := [];
    for i := 0 to |subnets|
      invariant forall e :: e in erl <==> Raised(subnets, net, i, e)
    {
      assert subnets[..i + 1] == subnets[..i] + [subnets[i]];
      if !Overlaps(subnets[i], net) {
        erl := erl + [NotInNet(subnets[i])];
      }
      var clashes := CompareWithRest(subnets, i);
      erl := erl + clashes;
    }
  }

  method CompareWithRest(subnets: seq<Prefix>, i: nat) returns (clashes: seq<Error>)
    requires (forall s <- subnets :: s.Valid()) && i < |subnets|
    ensures forall e :: e in clashes <==> RaisedBy(subnets, i, e)
  {
    clashes := [];
    for j := i + 1 to |subnets|
      invariant forall e :: e in clashes <==>
        exists k :: i < k < j && e == Clash(subnets[i], subnets[k]) && Overlaps(subnets[i], subnets[k])
    {
      if Overlaps(subnets[i], subnets[j]) {
        clashes := clashes + [Clash(subnets[i], subnets[j])];
      }
    }
  }

  method ParseAll(specs: seq<Range>) returns (subnets: seq<Prefix>, erl: seq<Error>)
    requires AllValid(specs)
    ensures subnets == ParsedOf(specs)
    ensures forall e :: e in erl <==> e.Malformed? && Unparsable(e.text) in specs
  {
    subnets, erl := [], [];
    assert specs[..|specs|] == specs;
    for i := 0 to |specs|
      invariant subnets == ParsedOf(specs[..i])
      invariant forall e :: e in erl <==> e.Malformed? && Unparsable(e.text) in specs[..i]
    {
      assert specs[..i + 1] == specs[..i] + [specs[i]];
      assert specs[..i + 1][..i] == specs[..i];
      if specs[i].Blank? {
        continue;
      }
      match specs[i]
      case Unparsable(text) => erl := erl + [Malformed(text)];
      case Parsed(prefix) => subnets := subnets + [prefix];
    }
  }

  // ---- What overlapping means ----

  // Clearing more host bits forgets the difference between two addresses of one block.
  lemma CoarserBlock(a: nat, b: nat, fine: nat, coarse: nat)
    requires fine <= coarse && a / Pow(fine) == b / Pow(fine)
    ensures a / Pow(coarse) == b / Pow(coarse)
  {
    PowAdd(fine, coarse - fine);
    DivDiv(a, Pow(fine), Pow(coarse - fine));
    DivDiv(b, Pow(fine), Pow(coarse - fine));
  }

  lemma SameMask(x: nat, y: nat, d: nat)
    requires d > 0
    ensures x * d == y * d <==> x == y
  {
    if x < y { Monotone(x + 1, y, d); }
    if y < x { Monotone(y + 1, x, d); }
  }

  // Overlapping prefixes are nested: the shorter one contains the longer one.
  lemma OverlapNests(p: Prefix, o: Prefix, family6: bool, a: nat)
    requires p.Valid() && o.Valid() && Overlaps(p, o) && p.bits <= o.bits
    requires o.Contains(family6, a)
    ensures p.Contains(family6, a)
  {
    var w := p.Width();
    CoarserBlock(a, o.addr, w - o.bits, w - p.bits);
    if p.bits == 0 {
      QuotientIs(a, Pow(w), 0);
      QuotientIs(p.addr, Pow(w), 0);
    } else if p != o {
      SameMask(p.Block(p.bits), o.Block(p.bits), Pow(w - p.bits));
    }
  }

  // The code's test on masked addresses is overlapping of address sets, in both directions.
  lemma OverlapsMeaning(p: Prefix, o: Prefix)
    requires p.Valid() && o.Valid()
    ensures Overlaps(p, o) <==> exists family6, a :: p.Contains(family6, a) && o.Contains(family6, a)
  {
    if Overlaps(p, o) {
      assert p.Contains(p.v6, p.addr) && o.Contains(o.v6, o.addr);
      if p.bits <= o.bits {
        OverlapNests(p, o, o.v6, o.addr);
      } else {
        OverlapSymmetric(p, o);
        OverlapNests(o, p, p.v6, p.addr);
      }
    }
    if family6, a :| p.Contains(family6, a) && o.Contains(family6, a) {
      var w := p.Width();
      var m := if p.bits < o.bits then p.bits else o.bits;
      CoarserBlock(a, p.addr, w - p.bits, w - m);
      CoarserBlock(a, o.addr, w - o.bits, w - m);
    }
  }

  lemma OverlapSymmetric(p: Prefix, o: Prefix)
    requires p.Valid() && o.Valid()
    ensures Overlaps(p, o) <==> Overlaps(o, p)
  {
  }

  ghost predicate Disjoint(p: Prefix, o: Prefix)
    requires p.Valid() && o.Valid()
  {
    forall family6, a :: !(p.Contains(family6, a) && o.Contains(family6, a))
  }

  ghost predicate Inside(p: Prefix, o: Prefix)
    requires p.Valid() && o.Valid()
  {
    forall family6, a :: p.Contains(family6, a) ==> o.Contains(family6, a)
  }

  ghost predicate StrictlyInside(p: Prefix, o: Prefix)
    requires p.Valid() && o.Valid()
  {
    Inside(p, o) && exists family6, a :: o.Contains(family6, a) && !p.Contains(family6, a)
  }

  lemma ContainsItself(p: Prefix)
    requires p.Valid()
    ensures p.Contains(p.v6, p.addr)
  {
  }

  // Prefixes of one length are disjoint exactly when their network parts differ.
  lemma DisjointBlocks(p: Prefix, o: Prefix)
    requires p.Valid() && o.Valid() && p.v6 == o.v6 && p.bits == o.bits
    ensures Disjoint(p, o) <==> p.Block(p.bits) != o.Block(o.bits)
  {
    ContainsItself(p);
    if p.Block(p.bits) == o.Block(o.bits) {
      assert o.Contains(p.v6, p.addr);
    }
  }

  // A prefix inside a strictly shorter one leaves out an address of it: that of the neighbouring block.
  lemma LongerIsStrict(p: Prefix, o: Prefix)
    requires p.Valid() && o.Valid() && Overlaps(p, o) && o.bits < p.bits
    ensures StrictlyInside(p, o)
  {
    forall family6, a | p.Contains(family6, a)
      ensures o.Contains(family6, a)
    {
      OverlapSymmetric(p, o);
      OverlapNests(o, p, family6, a);
    }
    var w := p.Width();
    var d := Pow(w - p.bits);
    var q := p.Block(p.bits);
    var next := if q % 2 == 0 then q + 1 else q - 1;
    var a := next * d;
    assert next / 2 == q / 2;
    QuotientIs(a, d, next);
    PowAdd(w - p.bits, 1);
    DivDiv(a, d, 2);
    DivDiv(p.addr, d, 2);
    assert Pow(w - p.bits + 1) == d * 2;
    CoarserBlock(a, p.addr, w - p.bits + 1, w - o.bits);
    assert o.Contains(p.v6, p.addr);
    InRange(a, p.addr, w, w - p.bits + 1);
    assert o.Contains(p.v6, a) && !p.Contains(p.v6, a);
  }

  // An address in the block of an address of the family is an address of the family.
  lemma InRange(a: nat, b: nat, w: nat, n: nat)
    requires n <= w && b < Pow(w) && a / Pow(n) == b / Pow(n)
    ensures a < Pow(w)
  {
    CoarserBlock(a, b, n, w);
    QuotientIs(b, Pow(w), 0);
    assert a == (a / Pow(w)) * Pow(w) + a % Pow(w);
  }

  // ---- What the validation guarantees ----

  ghost predicate Accepts(specs: seq<Range>, net: Range)
    requires AllValid(specs) && net.Valid()
  {
    forall e :: !Complains(specs, net, e)
  }

  // Although the code only tests overlapping, a list of at least two ranges that it accepts is made of
  // pairwise disjoint ranges that lie strictly inside the net. If one covered the net, no other could overlap it.
  lemma OverlapTestContains(specs: seq<Range>, net: Range)
    requires AllValid(specs) && net.Valid() && net.Parsed? && Accepts(specs, net)
    requires |ParsedOf(specs)| >= 2
    ensures var subnets := ParsedOf(specs);
            && (forall i, j :: 0 <= i < j < |subnets| ==> Disjoint(subnets[i], subnets[j]))
            && (forall s <- subnets :: StrictlyInside(s, net.prefix))
    ensures forall spec <- specs :: !spec.Unparsable?
  {
    var subnets, n := ParsedOf(specs), net.prefix;
    forall spec | spec in specs
      ensures !spec.Unparsable?
    {
      if spec.Unparsable? { assert Complains(specs, net, Malformed(spec.text)); }
    }
    forall i, j | 0 <= i < j < |subnets|
      ensures Disjoint(subnets[i], subnets[j])
    {
      assert !Complains(specs, net, Clash(subnets[i], subnets[j]));
      OverlapsMeaning(subnets[i], subnets[j]);
    }
    forall s | s in subnets
      ensures StrictlyInside(s, n)
    {
      assert !Complains(specs, net, NotInNet(s));
      if s.bits <= n.bits {
        var i :| 0 <= i < |subnets| && subnets[i] == s;
        var k := if i == 0 then 1 else 0;
        assert !Complains(specs, net, NotInNet(subnets[k]));
        assert Disjoint(s, subnets[k]);
        CoversTooMuch(s, subnets[k], n);
      } else {
        LongerIsStrict(s, n);
      }
    }
  }

  lemma CoversTooMuch(cover: Prefix, other: Prefix, net: Prefix)
    requires cover.Valid() && other.Valid() && net.Valid()
    requires Overlaps(cover, net) && cover.bits <= net.bits
    requires Overlaps(other, net)
    ensures !Disjoint(cover, other)
  {
    OverlapsMeaning(other, net);
    var family6, a :| other.Contains(family6, a) && net.Contains(family6, a);
    OverlapNests(cover, net, family6, a);
  }

  // Conversely, ranges that all parse, lie inside the net and are pairwise disjoint are accepted.
  lemma ContainedIsAccepted(specs: seq<Range>, net: Range)
    requires AllValid(specs) && net.Valid() && net.Parsed?
    requires forall spec <- specs :: !spec.Unparsable?
    requires forall i, j :: 0 <= i < j < |ParsedOf(specs)| ==> Disjoint(ParsedOf(specs)[i], ParsedOf(specs)[j])
    requires forall s <- ParsedOf(specs) :: Inside(s, net.prefix)
    ensures Accepts(specs, net)
  {
    var subnets := ParsedOf(specs);
    forall e
      ensures !Complains(specs, net, e)
    {
      match e
      case Malformed(t) =>
      case NotInNet(s) =>
        if s in subnets {
          assert s.Contains(s.v6, s.addr);
          OverlapsMeaning(s, net.prefix);
        }
      case Clash(a, b) =>
        if Clashing(subnets, a, b) {
          OverlapsMeaning(a, b);
        }
    }
  }

  // A single range may cover the net: it is accepted as soon as it overlaps the net, and then it
  // lies inside the net exactly when it is not the shorter prefix.
  lemma SingleRange(spec: Range, net: Range)
    requires spec.Parsed? && net.Parsed? && spec.Valid() && net.Valid()
    ensures Accepts([spec], net) <==> Overlaps(spec.prefix, net.prefix)
    ensures Accepts([spec], net) ==> (Inside(spec.prefix, net.prefix) <==> spec.prefix.bits >= net.prefix.bits)
  {
    var s, n := spec.prefix, net.prefix;
    assert [spec][..0] == [];
    assert ParsedOf([]) == [];
    assert ParsedOf([spec]) == [s];
    if Overlaps(s, n) {
      assert forall e :: !Complains([spec], net, e);
      OverlapSymmetric(s, n);
      if s.bits >= n.bits {
        forall family6, a | s.Contains(family6, a)
          ensures n.Contains(family6, a)
        {
          OverlapNests(n, s, family6, a);
        }
      } else {
        LongerIsStrict(n, s);
      }
    } else {
      assert Complains([spec], net, NotInNet(s));
    }
  }
}
