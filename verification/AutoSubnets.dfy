// The subnets generated when a cluster specifies none: three /24 per subregion, by incrementing
// the third byte of the address of the net. IPv4 only.
module AutoSubnets {
  import opened Pow2
  import opened Cidr

  type Byte = b: int | 0 <= b < 256

  datatype Role = ControlPlane | Worker | LoadBalancer | Bastion | Nat | Service | InternalService

  // subregion is "" when the specification does not set it, and so is the name.
  datatype Subnet = Subnet(name: string, range: Range, roles: seq<Role>, subregion: string)

  const ROLES: seq<seq<Role>> := [[LoadBalancer, Bastion, Nat], [Worker], [ControlPlane]]

  // ---- Addresses and masks as bytes ----

  function Addr(ip: seq<Byte>): nat
    requires |ip| == 4
  {
    var a: int, b: int, c: int, d: int := ip[0], ip[1], ip[2], ip[3];
    a * 16777216 + b * 65536 + c * 256 + d
  }

  function Bytes(addr: nat): (ip: seq<Byte>)
    requires addr < 4294967296
    ensures |ip| == 4 && Addr(ip) == addr
  {
    var high := addr / 256;
    var higher := high / 256;
    [higher / 256, higher % 256, high % 256, addr % 256]
  }

  // Incrementing an unsigned byte.
  function Next(b: Byte): Byte {
    var n: int := b;
    (n + 1) % 256
  }

  // Byte i of the mask of length bits.
  function MaskByte(bits: nat, i: nat): Byte {
    if bits >= 8 * i + 8 then 255
    else if bits <= 8 * i then 0
    else PartialByte(bits - 8 * i)
  }

  function PartialByte(ones: nat): Byte
    requires 1 <= ones <= 7
  {
    [128, 192, 224, 240, 248, 252, 254][ones - 1]
  }

  // The number of leading ones of a byte that has no other, -1 for any other byte.
  function LeadingOnes(b: Byte): int {
    match b
    case 0 => 0
    case 128 => 1
    case 192 => 2
    case 224 => 3
    case 240 => 4
    case 248 => 5
    case 252 => 6
    case 254 => 7
    case 255 => 8
    case _ => -1
  }

  // The length of a mask, -1 when its ones are not all leading.
  function MaskLength(mask: seq<Byte>): int {
    if mask == [] then 0
    else if mask[0] == 255 then
      var rest := MaskLength(mask[1..]);
      if rest == -1 then -1 else 8 + rest
    else if forall b <- mask[1..] :: b == 0 then LeadingOnes(mask[0])
    else -1
  }

  function Digit(d: int): char
    requires 0 <= d < 16
  {
    "0123456789abcdef"[d]
  }

  function Decimal(b: Byte): string {
    (if b < 100 then [] else [Digit(b / 100)]) + (if b < 10 then [] else [Digit(b / 10 % 10)]) + [Digit(b % 10)]
  }

  function Hex(b: Byte): string {
    [Digit(b / 16), Digit(b % 16)]
  }

  // What a text in the given base stands for, with the letters a to f for the digits from ten.
  function Value(s: string, base: int): int {
    if s == [] then 0
    else
      var c := s[|s| - 1];
      Value(s[..|s| - 1], base) * base + (if '0' <= c <= '9' then c as int - '0' as int else c as int - 'a' as int + 10)
  }

  lemma ValueNext(s: string, d: int, base: int)
    requires 0 <= d < 16
    ensures Value(s + [Digit(d)], base) == Value(s, base) * base + d
  {
    assert (s + [Digit(d)])[..|s|] == s;
  }

  // A byte is written without leading zeros in decimal, with two digits in hexadecimal.
  lemma DigitsMeaning(b: Byte)
    ensures 1 <= |Decimal(b)| <= 3 && (Decimal(b)[0] == '0' ==> b == 0) && Value(Decimal(b), 10) == b
    ensures |Hex(b)| == 2 && Value(Hex(b), 16) == b
  {
    TwoDigits(b / 16, b % 16, 16);
    DecimalMeaning(b);
  }

  lemma TwoDigits(high: int, low: int, base: int)
    requires 0 <= high < 16 && 0 <= low < 16
    ensures Value([Digit(high), Digit(low)], base) == high * base + low
  {
    ValueNext([], high, base);
    assert [] + [Digit(high)] == [Digit(high)];
    ValueNext([Digit(high)], low, base);
    assert [Digit(high)] + [Digit(low)] == [Digit(high), Digit(low)];
    assert Value([], base) * base == 0;
  }

  lemma DecimalMeaning(b: Byte)
    ensures 1 <= |Decimal(b)| <= 3 && (Decimal(b)[0] == '0' ==> b == 0) && Value(Decimal(b), 10) == b
  {
    var hundreds := if b < 100 then [] else [Digit(b / 100)];
    var tens := if b < 10 then [] else [Digit(b / 10 % 10)];
    LeadingDigit(b / 100);
    assert Value(hundreds, 10) == b / 100;
    NextDigit(hundreds, b / 10);
    assert hundreds + [] == hundreds;
    assert Value(hundreds + tens, 10) == b / 10;
    NextDigit(hundreds + tens, b);
    LeadingDigit(b / 10 % 10);
  }

  lemma LeadingDigit(d: int)
    requires 0 <= d < 10
    ensures Value([], 10) == 0 && Value([Digit(d)], 10) == d && (Digit(d) == '0' <==> d == 0)
  {
    ValueNext([], d, 10);
    assert [] + [Digit(d)] == [Digit(d)];
  }

  lemma NextDigit(s: string, n: nat)
    requires Value(s, 10) == n / 10
    ensures Value(s + [Digit(n % 10)], 10) == n
  {
    ValueNext(s, n % 10, 10);
  }

  // The network as text: a mask that is not a length is written in hexadecimal, which is no valid range.
  function Rendered(ip: seq<Byte>, mask: seq<Byte>): Range
    requires |ip| == |mask| == 4
  {
    var bits := MaskLength(mask);
    if 0 <= bits <= 32 then Parsed(Prefix(false, Addr(ip), bits))
    else Unparsable(Decimal(ip[0]) + "." + Decimal(ip[1]) + "." + Decimal(ip[2]) + "." + Decimal(ip[3])
                    + "/" + Hex(mask[0]) + Hex(mask[1]) + Hex(mask[2]) + Hex(mask[3]))
  }

  // ---- Generation ----

  ghost predicate IPv4(net: Range) {
    net.Valid() && (net.Parsed? ==> !net.prefix.v6)
  }

  // The address of the net: that of its range, without its host part.
  ghost function Base(net: Prefix): (m: nat)
    requires net.Valid() && !net.v6
    ensures m < 4294967296
  {
    Pow32();
    assert Pow(32 - net.bits) > 0;
    Parts(net.addr, Pow(32 - net.bits));
    net.Masked(net.bits)
  }

  // The mask of the net, with its second and third bytes patched.
  function PatchedMask(bits: nat): seq<Byte> {
    [MaskByte(bits, 0), 255, 255, MaskByte(bits, 3)]
  }

  // The k-th subnet, counted from the bytes of the address of the net. The third byte wraps around.
  function SubnetAt(base: seq<Byte>, mask: seq<Byte>, k: nat, subregion: string): Subnet
    requires |base| == |mask| == 4
  {
    Subnet("", Rendered(base[2 := Wrapped(base[2], 2 + k)], mask), ROLES[k % 3], subregion)
  }

  function Wrapped(b: Byte, k: nat): Byte {
    var n: int := b;
    (n + k) % 256
  }

  ghost function Generated(net: Range, subregions: seq<string>): seq<Subnet>
    requires IPv4(net)
  {
    if !net.Parsed? then [] else
    seq(3 * |subregions|, k requires 0 <= k < 3 * |subregions| =>
      SubnetAt(Bytes(Base(net.prefix)), PatchedMask(net.prefix.bits), k, subregions[k / 3]))
  }

  method ParseCIDR(net: Prefix) returns (ip: array<Byte>, mask: array<Byte>)
    requires net.Valid() && !net.v6
    ensures fresh(ip) && fresh(mask) && ip.Length == mask.Length == 4 && ip != mask
    ensures ip[..] == Bytes(Base(net))
    ensures forall i :: 0 <= i < 4 ==> mask[i] == MaskByte(net.bits, i)
  {
    Pow32();
    Parts(net.addr, Pow(32 - net.bits));
    var bytes := Bytes(net.Masked(net.bits));
    ip := new Byte[4](i requires 0 <= i < 4 => bytes[i]);
    mask := new Byte[4](i requires 0 <= i < 4 => MaskByte(net.bits, i));
  }

  method GetSubnets(net: Range, subregions: seq<string>) returns (subnets: seq<Subnet>)
    requires IPv4(net)
    ensures subnets == Generated(net, subregions)
    // Each subregion gets a public subnet, one for workers and one for the control plane, in this order.
    ensures |subnets| == if net.Parsed? then 3 * |subregions| else 0
    ensures forall k :: 0 <= k < |subnets| ==>
              && subnets[k].name == "" && subnets[k].subregion == subregions[k / 3]
              && subnets[k].roles == if k % 3 == 0 then [LoadBalancer, Bastion, Nat]
                                     else if k % 3 == 1 then [Worker] else [ControlPlane]
  {
    subnets := MakeSubnets(net, subregions);
    forall k | 0 <= k < |subnets| {
      GroupAt(k % 3);
    }
  }

  method MakeSubnets(net: Range, subregions: seq<string>) returns (subnets: seq<Subnet>)
    requires IPv4(net)
    ensures subnets == Generated(net, subregions)
  {
    subnets := [];
    if !net.Parsed? {
      return;
    }
    var ip, mask := ParseCIDR(net.prefix);
    ghost var base := ip[..];
    NextWrapped(base[2], 0);
    ip[2] := Next(ip[2]);
    mask[1], mask[2] := 255, 255;
    assert mask[..] == PatchedMask(net.prefix.bits);
    assert ip[..] == base[2 := Wrapped(base[2], 1)];
    subnets := SubnetsFor(ip, mask, subregions, base);
  }

  method SubnetsFor(ip: array<Byte>, mask: array<Byte>, subregions: seq<string>, ghost base: seq<Byte>)
    returns (subnets: seq<Subnet>)
    requires ip.Length == mask.Length == |base| == 4 && ip != mask
    requires ip[..] == base[2 := Wrapped(base[2], 1)]
    modifies ip
    ensures |subnets| == 3 * |subregions|
    ensures forall k :: 0 <= k < |subnets| ==> subnets[k] == SubnetAt(base, old(mask[..]), k, subregions[k / 3])
  {
    subnets := [];
    ghost var bytes := mask[..];
    for i := 0 to |subregions|
      invariant ip[..] == base[2 := Wrapped(base[2], 1 + 3 * i)]
      invariant mask[..] == bytes
      invariant |subnets| == 3 * i && AreNumbered(subnets, base, bytes, subregions)
    {
      var three := SubnetsOf(ip, mask, subregions[i], base, i);
      NumberedExtend(subnets, three, base, bytes, subregions, i);
      subnets := subnets + three;
    }
  }

  ghost predicate AreNumbered(subnets: seq<Subnet>, base: seq<Byte>, mask: seq<Byte>, subregions: seq<string>)
    requires |base| == |mask| == 4 && |subnets| <= 3 * |subregions|
  {
    forall k :: 0 <= k < |subnets| ==> subnets[k] == SubnetAt(base, mask, k, subregions[k / 3])
  }

  lemma NumberedExtend(subnets: seq<Subnet>, three: seq<Subnet>, base: seq<Byte>, mask: seq<Byte>,
                       subregions: seq<string>, i: nat)
    requires |base| == |mask| == 4 && i < |subregions| && |subnets| == 3 * i && |three| == 3
    requires AreNumbered(subnets, base, mask, subregions)
    requires forall l :: 0 <= l < 3 ==> three[l] == SubnetAt(base, mask, 3 * i + l, subregions[i])
    ensures AreNumbered(subnets + three, base, mask, subregions)
  {
    forall k | 0 <= k < 3 * i + 3
      ensures (subnets + three)[k] == SubnetAt(base, mask, k, subregions[k / 3])
    {
      if k >= 3 * i {
        Thirds(i, k - 3 * i);
      }
    }
  }

  // The subnets of one subregion, one per group of roles.
  method SubnetsOf(ip: array<Byte>, mask: array<Byte>, subregion: string, ghost base: seq<Byte>, ghost i: nat)
    returns (three: seq<Subnet>)
    requires ip.Length == mask.Length == |base| == 4 && ip != mask
    requires ip[..] == base[2 := Wrapped(base[2], 1 + 3 * i)]
    modifies ip
    ensures ip[..] == base[2 := Wrapped(base[2], 4 + 3 * i)]
    ensures |three| == 3 && forall l :: 0 <= l < 3 ==> three[l] == SubnetAt(base, mask[..], 3 * i + l, subregion)
  {
    three := [];
    for j := 0 to 3
      invariant ip[..] == base[2 := Wrapped(base[2], 1 + 3 * i + j)]
      invariant mask[..] == old(mask[..])
      invariant |three| == j && forall l :: 0 <= l < j ==> three[l] == SubnetAt(base, mask[..], 3 * i + l, subregion)
    {
      Thirds(i, j);
      var subnet := NextSubnet(ip, mask, ROLES[j], subregion, base, 3 * i + j);
      three := three + [subnet];
    }
  }

  method NextSubnet(ip: array<Byte>, mask: array<Byte>, roles: seq<Role>, subregion: string,
                    ghost base: seq<Byte>, ghost k: nat)
    returns (subnet: Subnet)
    requires ip.Length == mask.Length == |base| == 4 && ip != mask
    requires ip[..] == base[2 := Wrapped(base[2], 1 + k)] && roles == ROLES[k % 3]
    modifies ip
    ensures ip[..] == base[2 := Wrapped(base[2], 2 + k)]
    ensures subnet == SubnetAt(base, mask[..], k, subregion)
  {
    NextWrapped(base[2], 1 + k);
    ip[2] := Next(ip[2]);
    assert ip[..] == base[2 := Wrapped(base[2], 2 + k)];
    subnet := Subnet("", Rendered(ip[..], mask[..]), roles, subregion);
  }

  lemma Thirds(i: nat, j: nat)
    requires j < 3
    ensures (3 * i + j) / 3 == i && (3 * i + j) % 3 == j
  {
  }

  lemma NextWrapped(b: Byte, k: nat)
    ensures Wrapped(b, 0) == b
    ensures Next(Wrapped(b, k)) == Wrapped(b, k + 1)
  {
  }

  lemma Pow32()
    ensures Pow(8) == 256 && Pow(32) == 4294967296
  {
    assert Pow(8) == 256;
    PowAdd(8, 8);
    PowAdd(16, 16);
  }

  // ---- What is generated ----

  lemma GroupAt(r: nat)
    requires r < 3
    ensures ROLES[r] == if r == 0 then [LoadBalancer, Bastion, Nat] else if r == 1 then [Worker] else [ControlPlane]
  {
  }

  // The k-th range is the /24 at the address whose third byte follows that of the net by two plus k, wrapping
  // around. size is that of the net, and base its first address.
  lemma RangeAt(net: Prefix, subregions: seq<string>, k: nat, size: nat, base: nat, addr: nat)
    requires net.Valid() && !net.v6 && 8 <= net.bits <= 24 && k < 3 * |subregions|
    requires size == Pow(32 - net.bits) > 0
    requires base + net.addr % size == net.addr
    requires addr == (base / 256 - base / 256 % 256 + (base / 256 % 256 + 2 + k) % 256) * 256
    ensures Generated(Parsed(net), subregions)[k].range == Parsed(Prefix(false, addr, 24))
  {
    MaskedIs(net);
    BaseEndsInZero(net);
    PatchedLength(net.bits);
    assert Generated(Parsed(net), subregions)[k].range == Parsed(PrefixAt(net, k));
    NumberedAddr(base, k);
  }

  lemma NumberedAddr(m: nat, k: nat)
    requires m < 4294967296 && m % 256 == 0
    ensures var h := m / 256;
            Addr(Bytes(m)[2 := Wrapped(Bytes(m)[2], 2 + k)]) == (h - h % 256 + (h % 256 + 2 + k) % 256) * 256
  {
    OtherThirdByte(m, 0);
    ThirdByteAddr(m, Wrapped(Bytes(m)[2], 2 + k));
  }

  lemma MaskedIs(net: Prefix)
    requires net.Valid() && !net.v6
    ensures Base(net) == net.addr - net.addr % Pow(32 - net.bits)
  {
    Parts(net.addr, Pow(32 - net.bits));
  }

  lemma ThirdByteAddr(m: nat, t: Byte)
    requires m < 4294967296 && m % 256 == 0
    ensures Addr(Bytes(m)[2 := t]) == (m / 256 - m / 256 % 256 + t) * 256
  {
    OtherThirdByte(m, t);
    assert Addr(Bytes(m)[2 := t]) % 256 == m % 256;
  }

  lemma BaseEndsInZero(net: Prefix)
    requires net.Valid() && !net.v6 && net.bits <= 24
    ensures Base(net) % 256 == 0
  {
    var q, d := net.Block(net.bits), Pow(24 - net.bits);
    BaseIsProduct(net);
    MultipleEndsInZero(q * d);
  }

  lemma MultipleEndsInZero(x: nat)
    ensures x * 256 % 256 == 0
  {
  }

  // ---- When the generated subnets are sound ----

  ghost function Ranges(subnets: seq<Subnet>): seq<Range> {
    seq(|subnets|, k requires 0 <= k < |subnets| => subnets[k].range)
  }

  // The exact capacity of a net with a mask of bits: how many subregions its subnets can serve.
  ghost predicate Fits(bits: nat, subregions: nat) {
    && 8 <= bits <= 24
    && if bits <= 16 then 3 * subregions <= 256 else 3 * subregions + 2 <= Pow(24 - bits)
  }

  // What the bytes amount to: the subnets share one mask length, and the k-th has the third byte
  // of the net plus 2 + k, wrapped around; h is the address of the net without its last byte.
  ghost predicate Layout(ps: seq<Prefix>, bits: nat, h: nat, b: Byte) {
    && b == h % 256
    && forall k :: 0 <= k < |ps| ==>
         ps[k].Valid() && !ps[k].v6 && ps[k].bits == bits && ps[k].Block(24) == h - b + Wrapped(b, 2 + k)
  }

  // The subnets generated for an IPv4 net are accepted by the validation of subnet ranges, hence
  // pairwise disjoint and inside the net, exactly when the subregions fit.
  lemma GeneratedAcceptedIff(net: Prefix, subregions: seq<string>)
    requires net.Valid() && !net.v6 && |subregions| > 0
    ensures var ranges := Ranges(Generated(Parsed(net), subregions));
            && AllValid(ranges)
            && (Accepts(ranges, Parsed(net)) <==> Fits(net.bits, |subregions|))
  {
    var ranges := Ranges(Generated(Parsed(net), subregions));
    RangesValid(net, subregions);
    if net.bits < 8 {
      ShortMask(net, subregions);
      assert Complains(ranges, Parsed(net), Malformed(ranges[0].text));
    } else {
      var ps := GeneratedLayout(net, subregions);
      ParsedAs(ranges, ps);
      LayoutAcceptedIff(net, ranges, ps, Base(net) / 256, Base(net) / 256 % 256, |subregions|);
    }
  }

  lemma LayoutAcceptedIff(net: Prefix, ranges: seq<Range>, ps: seq<Prefix>, h: nat, b: Byte, n: nat)
    requires net.Valid() && !net.v6 && 8 <= net.bits && |ps| == 3 * n > 0
    requires AllValid(ranges) && ParsedOf(ranges) == ps && forall r <- ranges :: r.Parsed?
    requires h == Base(net) / 256 && Layout(ps, if net.bits <= 24 then 24 else net.bits, h, b)
    ensures Accepts(ranges, Parsed(net)) <==> Fits(net.bits, n)
  {
    if Accepts(ranges, Parsed(net)) {
      OverlapTestContains(ranges, Parsed(net));
      AcceptedFits(net, ps, h, b, n);
    }
    if Fits(net.bits, n) {
      FittingIsSound(net, ps, h, b, n);
      ContainedIsAccepted(ranges, Parsed(net));
    }
  }

  lemma RangesValid(net: Prefix, subregions: seq<string>)
    requires net.Valid() && !net.v6
    ensures AllValid(Ranges(Generated(Parsed(net), subregions)))
  {
    Pow32();
    forall k: nat, fd
      ensures SubnetAt(Bytes(Base(net)), PatchedMask(net.bits), k, fd).range.Valid()
    {
      OtherThirdByte(Base(net), Wrapped(Bytes(Base(net))[2], 2 + k));
    }
  }

  lemma {:induction false} ParsedOfAll(ranges: seq<Range>)
    requires AllValid(ranges) && forall r <- ranges :: r.Parsed?
    ensures |ParsedOf(ranges)| == |ranges|
    ensures forall k :: 0 <= k < |ranges| ==> ParsedOf(ranges)[k] == ranges[k].prefix
  {
    if ranges != [] {
      var front := ranges[..|ranges| - 1];
      assert ranges == front + [ranges[|ranges| - 1]];
      ParsedOfAll(front);
    }
  }

  lemma ParsedAs(ranges: seq<Range>, ps: seq<Prefix>)
    requires AllValid(ranges) && |ranges| == |ps| && forall k :: 0 <= k < |ps| ==> ranges[k] == Parsed(ps[k])
    ensures ParsedOf(ranges) == ps && forall r <- ranges :: r.Parsed?
  {
    ParsedOfAll(ranges);
  }

  // From 8 bits on, all the generated ranges parse.
  lemma GeneratedLayout(net: Prefix, subregions: seq<string>) returns (ps: seq<Prefix>)
    requires net.Valid() && !net.v6 && 8 <= net.bits
    ensures var ranges := Ranges(Generated(Parsed(net), subregions));
            |ps| == |ranges| == 3 * |subregions| && forall k :: 0 <= k < |ps| ==> ranges[k] == Parsed(ps[k])
    ensures Layout(ps, if net.bits <= 24 then 24 else net.bits, Base(net) / 256, Base(net) / 256 % 256)
  {
    var ranges := Ranges(Generated(Parsed(net), subregions));
    forall k | 0 <= k < |ranges|
      ensures ranges[k] == Parsed(PrefixAt(net, k))
    {
      PatchedLength(net.bits);
    }
    ps := seq(|ranges|, k requires 0 <= k < |ranges| => PrefixAt(net, k));
    forall k | 0 <= k < |ps|
      ensures ps[k].Valid() && ps[k].Block(24)
                               == Base(net) / 256 - Base(net) / 256 % 256 + Wrapped(Base(net) / 256 % 256, 2 + k)
    {
      Pow32();
      OtherThirdByte(Base(net), Wrapped(Bytes(Base(net))[2], 2 + k));
    }
  }

  ghost function PrefixAt(net: Prefix, k: nat): Prefix
    requires net.Valid() && !net.v6
  {
    Prefix(false, Addr(Bytes(Base(net))[2 := Wrapped(Bytes(Base(net))[2], 2 + k)]),
           if net.bits <= 24 then 24 else net.bits)
  }

  // Patching makes the mask 24 bits long, or leaves a longer one as it is.
  lemma PatchedLength(bits: nat)
    requires 8 <= bits <= 32
    ensures MaskLength(PatchedMask(bits)) == if bits <= 24 then 24 else bits
  {
    var last := MaskByte(bits, 3);
    var mask := PatchedMask(bits);
    assert mask[1..] == [255, 255, last] && mask[1..][1..] == [255, last] && mask[1..][1..][1..] == [last];
    assert [last][1..] == [];
    assert MaskLength([last]) == if bits <= 24 then 0 else bits - 24;
    assert MaskLength([255, last]) == 8 + MaskLength([last]);
    assert MaskLength([255, 255, last]) == 16 + MaskLength([last]);
  }

  // Below 8 bits, it leaves a mask that is not a length.
  lemma ShortMask(net: Prefix, subregions: seq<string>)
    requires net.Valid() && !net.v6 && net.bits < 8 && |subregions| > 0
    ensures var ranges := Ranges(Generated(Parsed(net), subregions));
            |ranges| > 0 && ranges[0].Unparsable?
  {
    var mask := PatchedMask(net.bits);
    assert mask[0] != 255;
    assert mask[1..][0] == 255;
    assert 255 in mask[1..];
    assert MaskLength(mask) == -1;
  }

  // Replacing the third byte of an address.
  lemma OtherThirdByte(m: nat, t: Byte)
    requires m < 4294967296
    ensures Addr(Bytes(m)[2 := t]) / 256 == m / 256 - m / 256 % 256 + t
    ensures Bytes(m)[2] == m / 256 % 256
    ensures Addr(Bytes(m)[2 := t]) < 4294967296
  {
    var n: int := t;
    var h := m / 256;
    var a := Addr(Bytes(m)[2 := t]);
    assert a == (h - h % 256 + n) * 256 + m % 256;
    QuotientIs(a, 256, h - h % 256 + n);
  }

  // The address of the net starts a block of its size.
  lemma BaseIsAligned(net: Prefix)
    requires net.Valid() && !net.v6 && net.bits <= 24
    ensures Base(net) / 256 == net.Block(net.bits) * Pow(24 - net.bits)
  {
    var q, d := net.Block(net.bits), Pow(24 - net.bits);
    BaseIsProduct(net);
    QuotientIs(Base(net), 256, q * d);
  }

  lemma BaseIsProduct(net: Prefix)
    requires net.Valid() && !net.v6 && net.bits <= 24
    ensures Base(net) == net.Block(net.bits) * Pow(24 - net.bits) * 256
  {
    var q, d := net.Block(net.bits), Pow(24 - net.bits);
    PowAdd(24 - net.bits, 8);
    Pow32();
    Regroup(q, d, 0, 256);
  }

  lemma InBlock(q: nat, d: nat, b: nat, t: nat)
    requires d > 0 && b <= q * d
    ensures (q * d - b + t) / d == q <==> 0 <= t - b < d
  {
    var x := q * d - b + t;
    if 0 <= t - b < d { QuotientIs(x, d, q); }
    if x / d == q { Parts(x, d); }
  }

  // A /24 lies in the net exactly when its third byte stays within the third bytes of the net.
  lemma InsideIff(net: Prefix, s: Prefix, h: nat, b: nat, t: nat)
    requires net.Valid() && !net.v6 && 8 <= net.bits <= 24
    requires s.Valid() && !s.v6 && s.bits == 24
    requires h == Base(net) / 256 && b == h % 256 && s.Block(24) == h - b + t
    ensures Inside(s, net) <==> 0 <= t - b < Pow(24 - net.bits)
  {
    var q, d := net.Block(net.bits), Pow(24 - net.bits);
    BaseIsAligned(net);
    InsideIsBlock(net, s);
    BlockOfBlock(net, s);
    Parts(h, 256);
    ThirdByteInBlock(q, d, h, b, t);
  }

  lemma ThirdByteInBlock(q: nat, d: nat, h: nat, b: nat, t: nat)
    requires d > 0 && h == q * d && b <= h
    ensures h - b + t >= 0 && (Quotient(h - b + t, d) == q <==> 0 <= t - b < d)
  {
    InBlock(q, d, b, t);
  }

  lemma BlockOfBlock(net: Prefix, s: Prefix)
    requires net.Valid() && !net.v6 && net.bits <= 24 && s.Valid() && !s.v6 && s.bits == 24
    ensures High(s.addr, 32 - net.bits) == Quotient(s.Block(24), Pow(24 - net.bits))
  {
    var m, n: nat := 8, 24 - net.bits;
    HighHigh(s.addr, m, n);
  }

  // A /24 lies in a wider net exactly when its address does.
  lemma InsideIsBlock(net: Prefix, s: Prefix)
    requires net.Valid() && !net.v6 && net.bits <= 24 && s.Valid() && !s.v6 && s.bits == 24
    ensures Inside(s, net) <==> High(s.addr, 32 - net.bits) == net.Block(net.bits)
  {
    ContainsItself(s);
    if High(s.addr, 32 - net.bits) == net.Block(net.bits) {
      forall family6, a | s.Contains(family6, a)
        ensures net.Contains(family6, a)
      {
        CoarserBlock(a, s.addr, 8, 32 - net.bits);
      }
    }
  }

  lemma HighHigh(a: nat, m: nat, n: nat)
    ensures High(a, m + n) == High(a, m) / Pow(n)
  {
    PowAdd(m, n);
    DivDiv(a, Pow(m), Pow(n));
  }

  // The third bytes of the net: all of them up to 16 bits, an aligned interval beyond.
  lemma ThirdBytes(net: Prefix)
    requires net.Valid() && !net.v6 && 8 <= net.bits <= 24
    ensures net.bits <= 16 ==> Pow(24 - net.bits) >= 256 && Base(net) / 256 % 256 == 0
    ensures net.bits > 16 ==> Base(net) / 256 % 256 + Pow(24 - net.bits) <= 256
  {
    var q := net.Block(net.bits);
    BaseIsAligned(net);
    Pow32();
    if net.bits <= 16 {
      PowAdd(8, 16 - net.bits);
      Monotone(1, Pow(16 - net.bits), 256);
      MultipleOf(q, Pow(16 - net.bits));
    } else {
      PowAdd(24 - net.bits, net.bits - 16);
      AlignedRemainder(q, Pow(24 - net.bits), Pow(net.bits - 16));
    }
  }

  lemma MultipleOf(q: nat, m: nat)
    ensures q * (256 * m) % 256 == 0
  {
    var x := q * m;
    assert q * (256 * m) == 256 * x;
    assert 256 * x % 256 == 0;
  }

  lemma AlignedRemainder(q: nat, d: nat, m: nat)
    requires d > 0 && m > 0 && d * m == 256
    ensures (q * d) % 256 + d <= 256
  {
    var x, r := q / m, q % m;
    Parts(q, m);
    Regroup(x, m, r, d);
    assert q * d == x * 256 + r * d;
    Monotone(r + 1, m, d);
    Regroup(0, m, r, d);
    assert (x * 256 + r * d) % 256 == r * d;
  }

  lemma WindowIsInjective(b: Byte, i: nat, j: nat)
    requires i < j < i + 256
    ensures Wrapped(b, i) != Wrapped(b, j)
  {
  }

  // A window of d third bytes starting at b.
  lemma WindowStays(b: Byte, d: nat, i: nat)
    requires i < 256 && (b == 0 || (b + d <= 256 && i < d))
    ensures Wrapped(b, i) == b + i
  {
  }

  lemma WindowLeaves(b: Byte, d: nat)
    requires 0 < d < 256 && b + d <= 256
    ensures !(0 <= Wrapped(b, if d == 1 then 2 else d) - b < d)
  {
  }

  lemma FittingIsSound(net: Prefix, ps: seq<Prefix>, h: nat, b: Byte, n: nat)
    requires net.Valid() && !net.v6 && Fits(net.bits, n) && |ps| == 3 * n
    requires h == Base(net) / 256 && Layout(ps, 24, h, b)
    ensures forall i, j :: 0 <= i < j < |ps| ==> Disjoint(ps[i], ps[j])
    ensures forall s <- ps :: Inside(s, net)
  {
    forall i, j | 0 <= i < j < |ps|
      ensures Disjoint(ps[i], ps[j])
    {
      AtMost256(net, n);
      WindowIsInjective(b, 2 + i, 2 + j);
      DisjointBlocks(ps[i], ps[j]);
    }
    forall k | 0 <= k < |ps|
      ensures Inside(ps[k], net)
    {
      FittingByte(net, b, n, k);
      InsideIff(net, ps[k], h, b, Wrapped(b, 2 + k));
    }
  }

  lemma AtMost256(net: Prefix, n: nat)
    requires net.Valid() && !net.v6 && Fits(net.bits, n)
    ensures 3 * n <= 256
  {
    ThirdBytes(net);
  }

  lemma FittingByte(net: Prefix, b: Byte, n: nat, k: nat)
    requires net.Valid() && !net.v6 && Fits(net.bits, n) && k < 3 * n
    requires b == Base(net) / 256 % 256
    ensures 0 <= Wrapped(b, 2 + k) - b < Pow(24 - net.bits)
  {
    ThirdBytes(net);
    if net.bits <= 16 {
      assert 0 <= Wrapped(0, 2 + k) < 256;
    } else {
      WindowStays(b, Pow(24 - net.bits), 2 + k);
    }
  }

  lemma AcceptedFits(net: Prefix, ps: seq<Prefix>, h: nat, b: Byte, n: nat)
    requires net.Valid() && !net.v6 && 8 <= net.bits && |ps| == 3 * n > 0
    requires h == Base(net) / 256 && Layout(ps, if net.bits <= 24 then 24 else net.bits, h, b)
    requires forall i, j :: 0 <= i < j < |ps| ==> Disjoint(ps[i], ps[j])
    requires forall s <- ps :: Inside(s, net)
    ensures Fits(net.bits, n)
  {
    if net.bits > 24 {
      MovedOut(net, ps[0], h, b);
    } else if net.bits <= 16 {
      if |ps| > 256 {
        Cycles(b);
        DisjointBlocks(ps[0], ps[256]);
      }
    } else if |ps| + 2 > Pow(24 - net.bits) {
      var k := FirstOutside(net, b);
      InsideIff(net, ps[k], h, b, Wrapped(b, 2 + k));
    }
  }

  // The first subnet that leaves a net of 17 to 24 bits.
  lemma FirstOutside(net: Prefix, b: Byte) returns (k: nat)
    requires net.Valid() && !net.v6 && 16 < net.bits <= 24
    requires b == Base(net) / 256 % 256
    ensures !(0 <= Wrapped(b, 2 + k) - b < Pow(24 - net.bits))
    ensures k == 0 || k + 2 == Pow(24 - net.bits)
  {
    ThirdBytes(net);
    var d := Pow(24 - net.bits);
    PowAdd(net.bits - 16, 24 - net.bits);
    Pow32();
    assert d < 256 by { if d >= 256 { Monotone(2, Pow(net.bits - 16), d); } }
    WindowLeaves(b, d);
    k := if d >= 2 then d - 2 else 0;
  }

  // After 256 subnets, the third byte comes back.
  lemma Cycles(b: Byte)
    ensures Wrapped(b, 2) == Wrapped(b, 258)
  {
  }

  // With more than 24 bits the net has a single third byte, and the first subnet has another one.
  lemma MovedOut(net: Prefix, s: Prefix, h: nat, b: Byte)
    requires net.Valid() && !net.v6 && 24 < net.bits
    requires s.Valid() && !s.v6 && s.bits == net.bits
    requires h == Base(net) / 256 && b == h % 256 && s.Block(24) == h - b + Wrapped(b, 2)
    ensures !Inside(s, net)
  {
    ContainsItself(s);
    if net.Contains(false, s.addr) {
      QuotientIs(Base(net), Pow(32 - net.bits), net.Block(net.bits));
      CoarserBlock(s.addr, Base(net), 32 - net.bits, 8);
      Pow32();
    }
  }

  // Within the capacity, the generated ranges, which key the subnets in the status, are pairwise distinct.
  lemma FittingKeysAreDistinct(net: Prefix, subregions: seq<string>)
    requires net.Valid() && !net.v6 && Fits(net.bits, |subregions|)
    ensures var ranges := Ranges(Generated(Parsed(net), subregions));
            forall i, j :: 0 <= i < j < |ranges| ==> ranges[i] != ranges[j]
  {
    var ps := GeneratedLayout(net, subregions);
    AtMost256(net, |subregions|);
    DistinctLayout(ps, Base(net) / 256, Base(net) / 256 % 256);
  }

  lemma DistinctLayout(ps: seq<Prefix>, h: nat, b: Byte)
    requires Layout(ps, 24, h, b) && |ps| <= 256
    ensures forall i, j :: 0 <= i < j < |ps| ==> ps[i] != ps[j]
  {
    forall i, j | 0 <= i < j < |ps|
      ensures ps[i] != ps[j]
    {
      WindowIsInjective(b, 2 + i, 2 + j);
    }
  }

  // Within the capacity the third byte never wraps, except for the last subnet of the 85th subregion
  // of a net of 8 to 16 bits.
  lemma WrapsExactly(net: Prefix, n: nat, j: nat)
    requires net.Valid() && !net.v6 && Fits(net.bits, n) && j < 3 * n
    ensures Base(net) / 256 % 256 + 2 + j > 255 <==> net.bits <= 16 && j == 254
  {
    ThirdBytes(net);
  }
}
