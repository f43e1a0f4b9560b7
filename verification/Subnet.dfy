/** Validation of a subnet's address pools, and what it guarantees to the allocator. */
module Subnet {
  import opened Common

  // Parsed addresses and networks; parsing texts is the address library's business.
  datatype Address = Address(v6: bool, value: nat)

  datatype Net = Net(v6: bool, base: nat, size: nat)

  datatype RangeValue = RangeValue(start: Address, end: Address)

  /** What `IpRange` guarantees: one family, start not after end. */
  type IpRange = r: RangeValue | r.start.v6 == r.end.v6 && r.start.value <= r.end.value
    witness RangeValue(Address(false, 0), Address(false, 0))

  predicate InNet(a: Address, net: Net) {
    a.v6 == net.v6 && net.base <= a.value < net.base + net.size
  }

  predicate Contains(r: IpRange, a: Address) {
    r.start.v6 == a.v6 && r.start.value <= a.value <= r.end.value
  }

  predicate Overlaps(a: IpRange, b: IpRange) {
    a.start.v6 == b.start.v6 && a.start.value <= b.end.value && b.start.value <= a.end.value
  }

  predicate Inside(r: IpRange, net: Net) { InNet(r.start, net) && InNet(r.end, net) }

  /** A subnet's fields; `cidr`, `gateway` and `dns` carry the texts. */
  datatype Spec = Spec(
    cidr: string, gateway: Option<string>, dns: seq<string>, pools: seq<IpRange>, reserved: seq<IpRange>)

  datatype Problem =
    | BadCidr | BadGateway | GatewayOutside | BadDns
    | PoolOutside | ReservedOutside | PoolsOverlap | GatewayInPool

  /** The validity promised: everything inside the CIDR, pools apart, gateway outside pools. */
  ghost predicate Accepts(s: Spec, parseNet: string -> Option<Net>, parseIp: string -> Option<Address>) {
    && parseNet(s.cidr).Some?
    && (s.gateway.Some? ==>
          && parseIp(s.gateway.value).Some? && InNet(parseIp(s.gateway.value).value, parseNet(s.cidr).value)
          && forall i | 0 <= i < |s.pools| :: !Contains(s.pools[i], parseIp(s.gateway.value).value))
    && (forall i | 0 <= i < |s.dns| :: parseIp(s.dns[i]).Some?)
    && (forall i | 0 <= i < |s.pools| :: Inside(s.pools[i], parseNet(s.cidr).value))
    && (forall i | 0 <= i < |s.reserved| :: Inside(s.reserved[i], parseNet(s.cidr).value))
    && forall i, j | 0 <= i < j < |s.pools| :: !Overlaps(s.pools[i], s.pools[j])
  }

  /** The reported problem is really there. */
  ghost predicate Explains(p: Problem, s: Spec, parseNet: string -> Option<Net>, parseIp: string -> Option<Address>) {
    match p
    case BadCidr => parseNet(s.cidr).None?
    case BadGateway => s.gateway.Some? && parseIp(s.gateway.value).None?
    case GatewayOutside =>
      s.gateway.Some? && parseIp(s.gateway.value).Some? && parseNet(s.cidr).Some?
      && !InNet(parseIp(s.gateway.value).value, parseNet(s.cidr).value)
    case BadDns => exists i :: 0 <= i < |s.dns| && parseIp(s.dns[i]).None?
    case PoolOutside =>
      parseNet(s.cidr).Some? && exists i :: 0 <= i < |s.pools| && !Inside(s.pools[i], parseNet(s.cidr).value)
    case ReservedOutside =>
      parseNet(s.cidr).Some? && exists i :: 0 <= i < |s.reserved| && !Inside(s.reserved[i], parseNet(s.cidr).value)
    case PoolsOverlap => exists i, j :: 0 <= i < j < |s.pools| && Overlaps(s.pools[i], s.pools[j])
    case GatewayInPool =>
      s.gateway.Some? && parseIp(s.gateway.value).Some?
      && exists i :: 0 <= i < |s.pools| && Contains(s.pools[i], parseIp(s.gateway.value).value)
  }

  /** `Subnet.__post_init__`: the first problem in checking order, or none. */
  method Validate(s: Spec, parseNet: string -> Option<Net>, parseIp: string -> Option<Address>)
    returns (problem: Option<Problem>)
    ensures problem.None? <==> Accepts(s, parseNet, parseIp)
    ensures problem.Some? ==> Explains(problem.value, s, parseNet, parseIp)
  {
    var net := parseNet(s.cidr);
    if net.None? { return Some(BadCidr); }
    if s.gateway.Some? {
      var gw := parseIp(s.gateway.value);
      if gw.None? { return Some(BadGateway); }
      if !InNet(gw.value, net.value) { return Some(GatewayOutside); }
    }
    for i := 0 to |s.dns|
      invariant forall k | 0 <= k < i :: parseIp(s.dns[k]).Some?
    {
      if parseIp(s.dns[i]).None? { return Some(BadDns); }
    }
    for i := 0 to |s.pools|
      invariant forall k | 0 <= k < i :: Inside(s.pools[k], net.value)
    {
      if !Inside(s.pools[i], net.value) { return Some(PoolOutside); }
    }
    for i := 0 to |s.reserved|
      invariant forall k | 0 <= k < i :: Inside(s.reserved[k], net.value)
    {
      if !Inside(s.reserved[i], net.value) { return Some(ReservedOutside); }
    }
    for i := 0 to |s.pools|
      invariant forall k, l | 0 <= k < i && k < l < |s.pools| :: !Overlaps(s.pools[k], s.pools[l])
    {
      for j := i + 1 to |s.pools|
        invariant forall l | i < l < j :: !Overlaps(s.pools[i], s.pools[l])
      {
        if Overlaps(s.pools[i], s.pools[j]) { return Some(PoolsOverlap); }
      }
    }
    if s.gateway.Some? {
      for i := 0 to |s.pools|
        invariant forall k | 0 <= k < i :: !Contains(s.pools[k], parseIp(s.gateway.value).value)
      {
        if Contains(s.pools[i], parseIp(s.gateway.value).value) { return Some(GatewayInPool); }
      }
    }
    return None;
  }

  // ---- Capacity -------------------------------------------------------------------------

  function Size(r: IpRange): nat { r.end.value - r.start.value + 1 }

  function TotalSize(rs: seq<IpRange>): nat {
    if rs == [] then 0 else TotalSize(rs[..|rs| - 1]) + Size(rs[|rs| - 1])
  }

  /** The numbers from lo up to, not including, hi. */
  ghost function Values(lo: nat, hi: nat): (r: set<nat>)
    ensures forall n :: n in r <==> lo <= n < hi
    ensures |r| == if lo <= hi then hi - lo else 0
    decreases hi
  {
    if lo >= hi then {} else Values(lo, hi - 1) + {hi - 1}
  }

  ghost function ValuesOf(r: IpRange): set<nat> { Values(r.start.value, r.end.value + 1) }

  ghost function Pooled(rs: seq<IpRange>): set<nat> {
    if rs == [] then {} else Pooled(rs[..|rs| - 1]) + ValuesOf(rs[|rs| - 1])
  }

  lemma {:induction false} PooledMember(rs: seq<IpRange>, n: nat) returns (i: nat)
    requires n in Pooled(rs)
    ensures i < |rs| && n in ValuesOf(rs[i])
  {
    var k := |rs| - 1;
    if n in ValuesOf(rs[k]) { i := k; } else { i := PooledMember(rs[..k], n); }
  }

  /** Pools that lie in one network and do not overlap address as many hosts as their sizes
      add up to. */
  lemma {:induction false} PooledCount(rs: seq<IpRange>, net: Net)
    requires forall i | 0 <= i < |rs| :: Inside(rs[i], net)
    requires forall i, j | 0 <= i < j < |rs| :: !Overlaps(rs[i], rs[j])
    ensures |Pooled(rs)| == TotalSize(rs)
    ensures Pooled(rs) <= Values(net.base, net.base + net.size)
  {
    if rs == [] {
    } else {
      var k := |rs| - 1;
      PooledCount(rs[..k], net);
      assert Inside(rs[k], net);
      forall n | n in Pooled(rs[..k]) ensures n !in ValuesOf(rs[k]) {
        var i := PooledMember(rs[..k], n);
        assert Inside(rs[i], net) && !Overlaps(rs[i], rs[k]);
      }
      assert Pooled(rs[..k]) !! ValuesOf(rs[k]);
    }
  }

  lemma {:induction false} SubsetCount(a: set<nat>, b: set<nat>)
    requires a <= b
    ensures |a| <= |b|
  {
    assert b == a + (b - a);
  }

  /** An accepted subnet never promises more addresses than its CIDR has: the pools, and the
      gateway besides, fit. */
  lemma PoolsAndGatewayFit(s: Spec, parseNet: string -> Option<Net>, parseIp: string -> Option<Address>)
    requires Accepts(s, parseNet, parseIp)
    ensures TotalSize(s.pools) + (if s.gateway.Some? then 1 else 0) <= parseNet(s.cidr).value.size
  {
    var net := parseNet(s.cidr).value;
    PooledCount(s.pools, net);
    var all := Values(net.base, net.base + net.size);
    if s.gateway.Some? {
      var gw := parseIp(s.gateway.value).value;
      assert forall i | 0 <= i < |s.pools| :: gw.value !in ValuesOf(s.pools[i]) by {
        assert forall i | 0 <= i < |s.pools| :: Inside(s.pools[i], net) && !Contains(s.pools[i], gw);
      }
      if gw.value in Pooled(s.pools) {
        var _ := PooledMember(s.pools, gw.value);
        assert false;
      }
      SubsetCount(Pooled(s.pools) + {gw.value}, all);
    } else {
      SubsetCount(Pooled(s.pools), all);
    }
  }

  /** Every address of an accepted pool lies in the CIDR, in no other pool, and is not the gateway. */
  lemma PooledAddressIsFree(s: Spec, parseNet: string -> Option<Net>, parseIp: string -> Option<Address>,
                            i: nat, a: Address)
    requires Accepts(s, parseNet, parseIp) && i < |s.pools| && Contains(s.pools[i], a)
    ensures InNet(a, parseNet(s.cidr).value)
    ensures s.gateway.Some? ==> a != parseIp(s.gateway.value).value
    ensures forall j | 0 <= j < |s.pools| && j != i :: !Contains(s.pools[j], a)
  {
    assert Inside(s.pools[i], parseNet(s.cidr).value);
    forall j | 0 <= j < |s.pools| && j != i ensures !Contains(s.pools[j], a) {
      if i < j { assert !Overlaps(s.pools[i], s.pools[j]); } else { assert !Overlaps(s.pools[j], s.pools[i]); }
    }
  }

  // ---- What the range checks mean ---------------------------------------------------------

  /** Two ranges overlap if and only if some address is in both. */
  lemma OverlapsIff(a: IpRange, b: IpRange)
    ensures Overlaps(a, b) <==> exists x :: Contains(a, x) && Contains(b, x)
  {
    if Overlaps(a, b) {
      var x := if a.start.value < b.start.value then b.start else a.start;
      assert Contains(a, x) && Contains(b, x);
    }
  }

  /** A range is inside a network if and only if every address of the range is. */
  lemma InsideIff(r: IpRange, net: Net)
    ensures Inside(r, net) <==> forall x | Contains(r, x) :: InNet(x, net)
  {
    assert Contains(r, r.start) && Contains(r, r.end);
  }

  /** A network holds the addresses of its family from its base on, as many as its size says. */
  lemma NetHolds(net: Net)
    ensures forall n: nat :: InNet(Address(net.v6, n), net) <==> n in Values(net.base, net.base + net.size)
    ensures |Values(net.base, net.base + net.size)| == net.size
    ensures forall a: Address | a.v6 != net.v6 :: !InNet(a, net)
  {
  }
}
