/** The in-memory OVS: bridges holding ports holding interfaces, the idempotent operations
    on them, and the dump that snapshots are made of. */
module OvsStore {
  import opened Common
  import Ordering
  import Text
  import O = OvsState

  datatype Iface = Iface(name: string, ifaceType: string, options: Dict)

  datatype Port = Port(
    name: string, tag: Option<int>, trunks: seq<int>, externalIds: Dict, interfaces: map<string, Iface>)

  datatype Bridge = Bridge(name: string, datapathType: string, externalIds: Dict, ports: map<string, Port>)

  type Bridges = map<string, Bridge>

  // ---- The key-equals-name invariant ---------------------------------------------

  ghost predicate WfPort(p: Port) {
    forall k | k in p.interfaces :: p.interfaces[k].name == k
  }

  ghost predicate WfBridge(b: Bridge) {
    forall k | k in b.ports :: b.ports[k].name == k && WfPort(b.ports[k])
  }

  ghost predicate Wf(bs: Bridges) {
    forall k | k in bs :: bs[k].name == k && WfBridge(bs[k])
  }

  // ---- What each operation does to the contents ------------------------------------

  function NewPort(name: string, ifaceType: string, options: Dict, tag: Option<int>,
                   trunks: seq<int>, externalIds: Dict): (p: Port)
    ensures WfPort(p) && p.name == name
  {
    Port(name, tag, Ordering.Sort(O.IntLeq, trunks), externalIds,
         map[name := Iface(name, ifaceType, options)])
  }

  function VxlanOptions(vni: int, remoteIp: string, localIp: Option<string>, dstPort: int,
                        mtu: Option<int>): Dict {
    map["key" := Text.Str(vni), "remote_ip" := remoteIp, "dst_port" := Text.Str(dstPort)]
    + (if localIp.Some? then map["local_ip" := localIp.value] else map[])
    + (if mtu.Some? then map["mtu_request" := Text.Str(mtu.value)] else map[])
  }

  /** `_ports_equal`: names are not compared. */
  predicate PortsEqual(a: Port, b: Port) {
    && a.tag == b.tag && a.trunks == b.trunks
    && a.externalIds == b.externalIds
    && a.interfaces.Keys == b.interfaces.Keys
    && forall k | k in a.interfaces ::
         a.interfaces[k].ifaceType == b.interfaces[k].ifaceType
         && a.interfaces[k].options == b.interfaces[k].options
  }

  /** Under the invariant, the comparison that skips names is equality of content. */
  lemma PortsEqualIsEquality(a: Port, b: Port)
    requires WfPort(a) && WfPort(b) && a.name == b.name
    ensures PortsEqual(a, b) <==> a == b
  {
    if PortsEqual(a, b) {
      forall k | k in a.interfaces ensures a.interfaces[k] == b.interfaces[k] {}
      assert a.interfaces == b.interfaces;
    }
  }

  function EnsureBridge(bs: Bridges, name: string, datapathType: string, externalIds: Dict): (bool, Bridges) {
    if name !in bs then (true, bs[name := Bridge(name, datapathType, externalIds, map[])])
    else
      var b := bs[name];
      (b.datapathType != datapathType || b.externalIds != externalIds,
       bs[name := b.(datapathType := datapathType, externalIds := externalIds)])
  }

  function DeleteBridge(bs: Bridges, name: string): (bool, Bridges) {
    (name in bs, Drop(bs, name))
  }

  /** None: the bridge does not exist. */
  function EnsurePort(bs: Bridges, bridge: string, port: Port): Option<(bool, Bridges)> {
    if bridge !in bs then None
    else
      var b := bs[bridge];
      if port.name in b.ports && PortsEqual(b.ports[port.name], port) then Some((false, bs))
      else Some((true, bs[bridge := b.(ports := b.ports[port.name := port])]))
  }

  function DeletePort(bs: Bridges, bridge: string, name: string): Option<(bool, Bridges)> {
    if bridge !in bs then None
    else
      var b := bs[bridge];
      Some((name in b.ports, bs[bridge := b.(ports := Drop(b.ports, name))]))
  }

  /** Every operation keeps the invariant and reports a change exactly when there is one. */
  lemma EnsureBridgeExact(bs: Bridges, name: string, datapathType: string, externalIds: Dict)
    requires Wf(bs)
    ensures var r := EnsureBridge(bs, name, datapathType, externalIds);
            Wf(r.1) && (r.0 <==> r.1 != bs)
  {
    var r := EnsureBridge(bs, name, datapathType, externalIds);
    if name in bs && r.1 == bs { assert r.1[name] == bs[name]; }
    if name in bs && !r.0 { assert r.1 == bs; }
  }

  lemma DeleteBridgeExact(bs: Bridges, name: string)
    requires Wf(bs)
    ensures var r := DeleteBridge(bs, name); Wf(r.1) && (r.0 <==> r.1 != bs)
  {
    if name !in bs { assert Drop(bs, name) == bs; }
  }

  lemma EnsurePortExact(bs: Bridges, bridge: string, port: Port)
    requires Wf(bs) && WfPort(port) && bridge in bs
    ensures var r := EnsurePort(bs, bridge, port).value;
            && Wf(r.1) && (r.0 <==> r.1 != bs)
            && r.1 == bs[bridge := bs[bridge].(ports := bs[bridge].ports[port.name := port])]
  {
    var r := EnsurePort(bs, bridge, port).value;
    var b := bs[bridge];
    if port.name in b.ports {
      PortsEqualIsEquality(b.ports[port.name], port);
      if !r.0 { assert b.ports[port.name := port] == b.ports; }
    }
    if r.0 { assert r.1[bridge].ports[port.name] == port; }
  }

  lemma DeletePortExact(bs: Bridges, bridge: string, name: string)
    requires Wf(bs) && bridge in bs
    ensures var r := DeletePort(bs, bridge, name).value; Wf(r.1) && (r.0 <==> r.1 != bs)
  {
    var r := DeletePort(bs, bridge, name).value;
    var b := bs[bridge];
    if name in b.ports { assert name !in r.1[bridge].ports; }
    else { assert Drop(b.ports, name) == b.ports; }
  }

  // ---- Dumps ---------------------------------------------------------------------

  // A dump is JSON; an absent key is None.
  datatype InterfaceDoc = InterfaceDoc(name: Option<string>, ifaceType: Option<string>, options: Option<Dict>)

  datatype PortDoc = PortDoc(
    name: Option<string>, tag: Option<int>, trunks: Option<seq<int>>,
    externalIds: Option<Dict>, interfaces: Option<seq<InterfaceDoc>>)

  datatype BridgeDoc = BridgeDoc(
    name: Option<string>, datapathType: Option<string>, externalIds: Option<Dict>, ports: Option<seq<PortDoc>>)

  datatype OvsDoc = OvsDoc(ovsVersion: Option<string>, bridges: Option<seq<BridgeDoc>>)

  /** `{d["name"]: read(d) for d in docs}`: a later entry wins; a missing name raises. */
  function ReadNamed<D, V>(docs: seq<D>, read: D -> Option<(string, V)>): Option<map<string, V>> {
    if docs == [] then Some(map[])
    else
      var n := |docs| - 1;
      match ReadNamed(docs[..n], read)
      case None => None
      case Some(m) => match read(docs[n]) { case None => None case Some(kv) => Some(m[kv.0 := kv.1]) }
  }

  function ReadInterface(d: InterfaceDoc): Option<(string, Iface)> {
    if d.name.None? then None
    else Some((d.name.value, Iface(d.name.value, OrElse(d.ifaceType, "internal"), OrElse(d.options, map[]))))
  }

  function ReadPort(d: PortDoc): Option<(string, Port)> {
    if d.name.None? then None
    else match ReadNamed(OrElse(d.interfaces, []), ReadInterface)
      case None => None
      case Some(m) => Some((d.name.value,
        Port(d.name.value, d.tag, OrElse(d.trunks, []), OrElse(d.externalIds, map[]), m)))
  }

  function ReadBridge(d: BridgeDoc): Option<(string, Bridge)> {
    if d.name.None? then None
    else match ReadNamed(OrElse(d.ports, []), ReadPort)
      case None => None
      case Some(m) => Some((d.name.value,
        Bridge(d.name.value, OrElse(d.datapathType, "system"), OrElse(d.externalIds, map[]), m)))
  }

  function ReadBridges(d: OvsDoc): Option<Bridges> {
    ReadNamed(OrElse(d.bridges, []), ReadBridge)
  }

  /** `payload.get("ovs_version") or self._ovs_version` */
  function ReadVersion(d: OvsDoc, current: string): string {
    if d.ovsVersion.Some? && d.ovsVersion.value != "" then d.ovsVersion.value else current
  }

  /** `ds` renders the values of `m`, one each, in some order. */
  ghost predicate Renders<D(!new), V(!new)>(ds: seq<D>, m: map<string, V>, rel: (D, V) -> bool) {
    exists ks :: RendersInOrder(ks, ds, m, rel)
  }

  ghost predicate RendersInOrder<D(!new), V(!new)>(ks: seq<string>, ds: seq<D>, m: map<string, V>,
                                                   rel: (D, V) -> bool) {
    && Lists(ks, m) && |ks| == |ds|
    && forall i | 0 <= i < |ks| :: ks[i] in m && rel(ds[i], m[ks[i]])
  }

  function InterfaceToDict(i: Iface): InterfaceDoc {
    InterfaceDoc(Some(i.name), Some(i.ifaceType), Some(i.options))
  }

  ghost predicate IsInterfaceDoc(d: InterfaceDoc, i: Iface) { d == InterfaceToDict(i) }

  ghost predicate IsPortDoc(d: PortDoc, p: Port) {
    && d.name == Some(p.name) && d.tag == p.tag && d.trunks == Some(p.trunks)
    && d.externalIds == Some(p.externalIds)
    && d.interfaces.Some? && Renders(d.interfaces.value, p.interfaces, IsInterfaceDoc)
  }

  ghost predicate IsBridgeDoc(d: BridgeDoc, b: Bridge) {
    && d.name == Some(b.name) && d.datapathType == Some(b.datapathType)
    && d.externalIds == Some(b.externalIds)
    && d.ports.Some? && Renders(d.ports.value, b.ports, IsPortDoc)
  }

  ghost predicate IsDump(d: OvsDoc, version: string, bs: Bridges) {
    && d.ovsVersion == Some(version)
    && d.bridges.Some? && Renders(d.bridges.value, bs, IsBridgeDoc)
  }

  /** Reading back a rendering, whatever its order, rebuilds the dictionary. */
  lemma {:induction false} ReadRendered<D(!new), V(!new)>(
    ks: seq<string>, ds: seq<D>, m: map<string, V>, read: D -> Option<(string, V)>)
    requires |ks| == |ds| && (forall i, j | 0 <= i < j < |ks| :: ks[i] != ks[j])
    requires forall i | 0 <= i < |ks| :: ks[i] in m && read(ds[i]) == Some((ks[i], m[ks[i]]))
    ensures ReadNamed(ds, read) == Some(map k | k in m && k in ks :: m[k])
  {
    if ks == [] {
      assert (map k | k in m && k in ks :: m[k]) == map[];
    } else {
      var n := |ks| - 1;
      ReadRendered(ks[..n], ds[..n], m, read);
      var part := map k | k in m && k in ks[..n] :: m[k];
      assert ks == ks[..n] + [ks[n]];
      assert part[ks[n] := m[ks[n]]] == map k | k in m && k in ks :: m[k];
    }
  }

  lemma ReadAll<D(!new), V(!new)>(ds: seq<D>, m: map<string, V>, rel: (D, V) -> bool,
                                  read: D -> Option<(string, V)>)
    requires Renders(ds, m, rel)
    requires forall k, d | k in m && rel(d, m[k]) :: read(d) == Some((k, m[k]))
    ensures ReadNamed(ds, read) == Some(m)
  {
    var ks :| RendersInOrder(ks, ds, m, rel);
    ReadRendered(ks, ds, m, read);
    KeepAll(m, ks);
  }

  lemma KeepAll<V>(m: map<string, V>, ks: seq<string>)
    requires forall k | k in m :: k in ks
    ensures (map k | k in m && k in ks :: m[k]) == m
  {
  }

  lemma ReadBackPort(d: PortDoc, p: Port)
    requires WfPort(p) && IsPortDoc(d, p)
    ensures ReadPort(d) == Some((p.name, p))
  {
    ReadAll(d.interfaces.value, p.interfaces, IsInterfaceDoc, ReadInterface);
  }

  lemma ReadBackBridge(d: BridgeDoc, b: Bridge)
    requires WfBridge(b) && IsBridgeDoc(d, b)
    ensures ReadBridge(d) == Some((b.name, b))
  {
    forall k, pd | k in b.ports && IsPortDoc(pd, b.ports[k])
      ensures ReadPort(pd) == Some((k, b.ports[k]))
    {
      ReadBackPort(pd, b.ports[k]);
    }
    ReadAll(d.ports.value, b.ports, IsPortDoc, ReadPort);
  }

  /** Restoring a dump gives back exactly the dumped contents. */
  lemma DumpRoundTrip(d: OvsDoc, version: string, bs: Bridges)
    requires Wf(bs) && IsDump(d, version, bs)
    ensures ReadBridges(d) == Some(bs)
    ensures ReadVersion(d, version) == version
  {
    forall k, bd | k in bs && IsBridgeDoc(bd, bs[k])
      ensures ReadBridge(bd) == Some((k, bs[k]))
    {
      ReadBackBridge(bd, bs[k]);
    }
    ReadAll(d.bridges.value, bs, IsBridgeDoc, ReadBridge);
  }

  /** Whatever is restored, the invariant holds afterwards. */
  lemma {:induction false} ReadNamedWf<D(!new), V(!new)>(
    docs: seq<D>, read: D -> Option<(string, V)>, good: (string, V) -> bool)
    requires forall d | d in docs && read(d).Some? :: good(read(d).value.0, read(d).value.1)
    ensures ReadNamed(docs, read).Some? ==>
              forall k | k in ReadNamed(docs, read).value :: good(k, ReadNamed(docs, read).value[k])
  {
    if docs == [] {
    } else {
      ReadNamedWf(docs[..|docs| - 1], read, good);
    }
  }

  ghost predicate GoodInterface(k: string, i: Iface) { i.name == k }
  ghost predicate GoodPort(k: string, p: Port) { p.name == k && WfPort(p) }
  ghost predicate GoodBridge(k: string, b: Bridge) { b.name == k && WfBridge(b) }

  lemma RestoredIsWf(d: OvsDoc)
    requires ReadBridges(d).Some?
    ensures Wf(ReadBridges(d).value)
  {
    forall bd | bd in OrElse(d.bridges, []) && ReadBridge(bd).Some?
      ensures GoodBridge(ReadBridge(bd).value.0, ReadBridge(bd).value.1)
    {
      forall pd | pd in OrElse(bd.ports, []) && ReadPort(pd).Some?
        ensures GoodPort(ReadPort(pd).value.0, ReadPort(pd).value.1)
      {
        ReadNamedWf(OrElse(pd.interfaces, []), ReadInterface, GoodInterface);
      }
      ReadNamedWf(OrElse(bd.ports, []), ReadPort, GoodPort);
    }
    ReadNamedWf(OrElse(d.bridges, []), ReadBridge, GoodBridge);
  }

  // ---- When a restore fails ----------------------------------------------------------

  ghost predicate Lacks<D(!new)>(docs: Option<seq<D>>, bad: D -> bool) {
    docs.Some? && exists d :: d in docs.value && bad(d)
  }

  /** Some bridge, or a port of one, or an interface of one of those, has no name. */
  ghost predicate LacksName(d: OvsDoc) { Lacks(d.bridges, BridgeLacksName) }

  ghost predicate BridgeLacksName(d: BridgeDoc) { d.name.None? || Lacks(d.ports, PortLacksName) }

  ghost predicate PortLacksName(d: PortDoc) { d.name.None? || Lacks(d.interfaces, InterfaceLacksName) }

  ghost predicate InterfaceLacksName(d: InterfaceDoc) { d.name.None? }

  lemma {:induction false} ReadNamedFailsIff<D(!new), V>(docs: seq<D>, read: D -> Option<(string, V)>)
    ensures ReadNamed(docs, read).None? <==> exists d :: d in docs && read(d).None?
  {
    if docs == [] {
    } else {
      var n := |docs| - 1;
      ReadNamedFailsIff(docs[..n], read);
      assert docs == docs[..n] + [docs[n]];
    }
  }

  lemma ReadPortFailsIff(d: PortDoc)
    ensures ReadPort(d).None? <==> PortLacksName(d)
  {
    ReadNamedFailsIff(OrElse(d.interfaces, []), ReadInterface);
  }

  lemma ReadBridgeFailsIff(d: BridgeDoc)
    ensures ReadBridge(d).None? <==> BridgeLacksName(d)
  {
    ReadNamedFailsIff(OrElse(d.ports, []), ReadPort);
    forall p | d.ports.Some? && p in d.ports.value ensures ReadPort(p).None? <==> PortLacksName(p) {
      ReadPortFailsIff(p);
    }
  }

  /** Reading the bridges of a payload fails if and only if a name is missing at some level. */
  lemma RestoreFailsIff(d: OvsDoc)
    ensures ReadBridges(d).None? <==> LacksName(d)
  {
    ReadNamedFailsIff(OrElse(d.bridges, []), ReadBridge);
    forall b | d.bridges.Some? && b in d.bridges.value ensures ReadBridge(b).None? <==> BridgeLacksName(b) {
      ReadBridgeFailsIff(b);
    }
  }

  /** `restore`: whether it returns, and the version and bridges it leaves. The version is
      overwritten before the bridges are read. */
  function Restored(version: string, bs: Bridges, d: OvsDoc): (bool, string, Bridges) {
    match ReadBridges(d)
    case None => (false, ReadVersion(d, version), bs)
    case Some(read) => (true, ReadVersion(d, version), read)
  }

  /** A restore happens wholly or not at all if and only if no name is missing, or the payload
      brings no other version. */
  lemma RestoreIsAtomicIff(version: string, bs: Bridges, d: OvsDoc)
    ensures var r := Restored(version, bs, d);
      r.0 || (r.1 == version && r.2 == bs) <==> !LacksName(d) || ReadVersion(d, version) == version
  {
    RestoreFailsIff(d);
  }

  /** One bridge without a name, and a version: the restore raises, and the version is new. */
  lemma RestoreMayHalfHappen(version: string, bs: Bridges, other: string)
    requires other != "" && other != version
    ensures var d := OvsDoc(Some(other), Some([BridgeDoc(None, None, None, None)]));
      Restored(version, bs, d) == (false, other, bs)
  {
    var nameless := BridgeDoc(None, None, None, None);
    assert ReadBridge(nameless).None? && nameless in [nameless];
    ReadNamedFailsIff([nameless], ReadBridge);
  }

  // ---- The read-only view ----------------------------------------------------------

  function InterfaceToState(i: Iface): O.InterfaceState {
    O.InterfaceState(i.name, i.ifaceType, i.options, "up")
  }

  ghost predicate IsInterfaceState(s: O.InterfaceState, i: Iface) { s == InterfaceToState(i) }

  ghost predicate IsPortState(s: O.PortState, p: Port) {
    && s.name == p.name && s.tag == p.tag && s.trunks == Ordering.Sort(O.IntLeq, p.trunks)
    && s.externalIds == p.externalIds
    && Renders(s.interfaces, p.interfaces, IsInterfaceState)
  }

  ghost predicate IsBridgeState(s: O.BridgeState, b: Bridge) {
    && s.name == b.name && s.datapathType == b.datapathType && s.externalIds == b.externalIds
    && Renders(s.ports, b.ports, IsPortState)
  }

  ghost predicate IsState(s: O.OvsState, version: string, bs: Bridges) {
    s.version == Some(version) && Renders(s.bridges, bs, IsBridgeState)
  }

  lemma RenderedDistinct<D(!new), V(!new)>(ds: seq<D>, m: map<string, V>, rel: (D, V) -> bool, name: D -> string)
    requires Renders(ds, m, rel)
    requires forall k, d | k in m && rel(d, m[k]) :: name(d) == k
    ensures O.Distinct(ds, name)
    ensures forall d | d in ds :: name(d) in m && rel(d, m[name(d)])
  {
    var ks :| RendersInOrder(ks, ds, m, rel);
    forall i | 0 <= i < |ds| ensures name(ds[i]) == ks[i] {
      assert ks[i] in m && rel(ds[i], m[ks[i]]);
    }
  }

  lemma RenderedNamed<D(!new), V(!new)>(
    a: seq<D>, b: seq<D>, m: map<string, V>, rel: (D, V) -> bool, name: D -> string)
    requires Renders(a, m, rel) && Renders(b, m, rel)
    requires forall k, d | k in m && rel(d, m[k]) :: name(d) == k
    ensures forall x | x in a :: O.Named(b, name, name(x))
  {
    var ka :| RendersInOrder(ka, a, m, rel);
    var kb :| RendersInOrder(kb, b, m, rel);
    forall x | x in a ensures O.Named(b, name, name(x)) {
      var i :| 0 <= i < |a| && a[i] == x;
      assert ka[i] in m && ka[i] in kb;
      var j :| 0 <= j < |kb| && kb[j] == ka[i];
      assert rel(b[j], m[kb[j]]) && b[j] in b;
    }
  }

  /** Renderings of two dictionaries are the same list, up to order, exactly when the dictionaries
      have the same keys and what they render under each key is the same. */
  lemma RenderedSameIff<D(!new), V(!new)>(
    a: seq<D>, b: seq<D>, m: map<string, V>, n: map<string, V>, rel: (D, V) -> bool, name: D -> string,
    same: (D, D) -> bool, alike: (V, V) -> bool)
    requires Renders(a, m, rel) && Renders(b, n, rel)
    requires forall k, d | k in m && rel(d, m[k]) :: name(d) == k
    requires forall k, d | k in n && rel(d, n[k]) :: name(d) == k
    requires forall k, x, y | k in m && k in n && rel(x, m[k]) && rel(y, n[k]) :: same(x, y) <==> alike(m[k], n[k])
    ensures O.SameList(a, b, name, same) <==> AlikeMaps(m, n, alike)
  {
    RenderedDistinct(a, m, rel, name);
    RenderedDistinct(b, n, rel, name);
    RenderedAll(a, m, rel, name);
    RenderedAll(b, n, rel, name);
    SameListIff(a, b, m, n, rel, name, same, alike);
  }

  lemma SameListIff<D(!new), V(!new)>(
    a: seq<D>, b: seq<D>, m: map<string, V>, n: map<string, V>, rel: (D, V) -> bool, name: D -> string,
    same: (D, D) -> bool, alike: (V, V) -> bool)
    requires forall d | d in a :: name(d) in m && rel(d, m[name(d)])
    requires forall d | d in b :: name(d) in n && rel(d, n[name(d)])
    requires (forall k | k in m :: O.Named(a, name, k)) && forall k | k in n :: O.Named(b, name, k)
    requires forall k, x, y | k in m && k in n && rel(x, m[k]) && rel(y, n[k]) :: same(x, y) <==> alike(m[k], n[k])
    ensures O.SameList(a, b, name, same) <==> AlikeMaps(m, n, alike)
  {
    if AlikeMaps(m, n, alike) {
      forall x, y | x in a && y in b && name(x) == name(y) ensures same(x, y) {
        assert alike(m[name(x)], n[name(x)]);
      }
    }
    if O.SameList(a, b, name, same) {
      forall k | k in m ensures k in n && alike(m[k], n[k]) {
        var x :| x in a && name(x) == k;
        assert O.Named(b, name, name(x));
        var y :| y in b && name(y) == name(x);
        assert same(x, y);
      }
      forall k | k in n ensures k in m {
        var y :| y in b && name(y) == k;
        assert O.Named(a, name, name(y));
      }
    }
  }

  ghost predicate AlikeMaps<V(!new)>(m: map<string, V>, n: map<string, V>, alike: (V, V) -> bool) {
    m.Keys == n.Keys && forall k | k in m && k in n :: alike(m[k], n[k])
  }

  lemma RenderedAll<D(!new), V(!new)>(ds: seq<D>, m: map<string, V>, rel: (D, V) -> bool, name: D -> string)
    requires Renders(ds, m, rel)
    requires forall k, d | k in m && rel(d, m[k]) :: name(d) == k
    ensures forall k | k in m :: O.Named(ds, name, k)
  {
    var ks :| RendersInOrder(ks, ds, m, rel);
    forall k | k in m ensures O.Named(ds, name, k) {
      assert k in ks;
      var i :| 0 <= i < |ks| && ks[i] == k;
      assert rel(ds[i], m[ks[i]]) && ds[i] in ds;
    }
  }

  ghost predicate SameIface(i: Iface, j: Iface) { i == j }

  /** Equal but for the order of the trunks. */
  ghost predicate SamePort(p: Port, q: Port) {
    && p.name == q.name && p.tag == q.tag && p.externalIds == q.externalIds && p.interfaces == q.interfaces
    && multiset(p.trunks) == multiset(q.trunks)
  }

  ghost predicate SameBridge(b: Bridge, c: Bridge) {
    && b.name == c.name && b.datapathType == c.datapathType && b.externalIds == c.externalIds
    && AlikeMaps(b.ports, c.ports, SamePort)
  }

  /** Equal but for the order of each port's trunks. */
  ghost predicate SameBridges(x: Bridges, y: Bridges) { AlikeMaps(x, y, SameBridge) }

  lemma InterfaceShows(a: O.InterfaceState, i: Iface)
    requires IsInterfaceState(a, i)
    ensures a.name == i.name && a.ifaceType == i.ifaceType && a.options == i.options && a.adminState == "up"
  {
  }

  lemma PortsDiffer(a: O.PortState, b: O.PortState, p: Port, q: Port)
    requires WfPort(p) && WfPort(q) && p.name == q.name && IsPortState(a, p) && IsPortState(b, q)
    ensures O.SamePort(a, b) <==> SamePort(p, q)
    ensures O.Distinct(a.interfaces, O.InterfaceName)
  {
    Ordering.SortSorts(O.IntLeq, p.trunks);
    Ordering.SortSorts(O.IntLeq, q.trunks);
    forall k, x, y | k in p.interfaces && k in q.interfaces
      && IsInterfaceState(x, p.interfaces[k]) && IsInterfaceState(y, q.interfaces[k])
      ensures O.SameInterface(x, y) <==> SameIface(p.interfaces[k], q.interfaces[k])
    {
      InterfaceShows(x, p.interfaces[k]);
      InterfaceShows(y, q.interfaces[k]);
    }
    RenderedSameIff(a.interfaces, b.interfaces, p.interfaces, q.interfaces,
                    IsInterfaceState, O.InterfaceName, O.SameInterface, SameIface);
    SameMaps(p.interfaces, q.interfaces);
    RenderedDistinct(a.interfaces, p.interfaces, IsInterfaceState, O.InterfaceName);
  }

  lemma SameMaps(m: map<string, Iface>, n: map<string, Iface>)
    ensures AlikeMaps(m, n, SameIface) <==> m == n
  {
  }

  lemma BridgesDiffer(a: O.BridgeState, b: O.BridgeState, c: Bridge, d: Bridge)
    requires WfBridge(c) && WfBridge(d) && c.name == d.name && IsBridgeState(a, c) && IsBridgeState(b, d)
    ensures O.SameBridge(a, b) <==> SameBridge(c, d)
    ensures O.DistinctInBridge(a)
  {
    forall k, x, y | k in c.ports && k in d.ports && IsPortState(x, c.ports[k]) && IsPortState(y, d.ports[k])
      ensures O.SamePort(x, y) <==> SamePort(c.ports[k], d.ports[k])
    {
      PortsDiffer(x, y, c.ports[k], d.ports[k]);
    }
    RenderedSameIff(a.ports, b.ports, c.ports, d.ports, IsPortState, O.PortName, O.SamePort, SamePort);
    RenderedDistinct(a.ports, c.ports, IsPortState, O.PortName);
    forall k, x | k in c.ports && IsPortState(x, c.ports[k]) ensures O.Distinct(x.interfaces, O.InterfaceName) {
      PortsDiffer(x, x, c.ports[k], c.ports[k]);
    }
  }

  /** Readings of two stores hash alike if and only if the versions agree and the stores are equal
      but for the order of trunks: the hash sees everything the store holds. */
  lemma HashDecidesStore(a: O.OvsState, b: O.OvsState, v: string, w: string, x: Bridges, y: Bridges)
    requires Wf(x) && Wf(y) && IsState(a, v, x) && IsState(b, w, y)
    ensures O.Hash(a) == O.Hash(b) <==> v == w && SameBridges(x, y)
  {
    forall k, p, q | k in x && k in y && IsBridgeState(p, x[k]) && IsBridgeState(q, y[k])
      ensures O.SameBridge(p, q) <==> SameBridge(x[k], y[k])
    {
      BridgesDiffer(p, q, x[k], y[k]);
    }
    RenderedSameIff(a.bridges, b.bridges, x, y, IsBridgeState, O.BridgeName, O.SameBridge, SameBridge);
    StateDistinct(a, v, x);
    StateDistinct(b, w, y);
    O.HashDecidesContent(a, b);
  }

  lemma StateDistinct(a: O.OvsState, v: string, x: Bridges)
    requires Wf(x) && IsState(a, v, x)
    ensures O.DistinctNames(a)
  {
    forall k, p | k in x && IsBridgeState(p, x[k]) ensures O.DistinctInBridge(p) { BridgesDiffer(p, p, x[k], x[k]); }
    RenderedDistinct(a.bridges, x, IsBridgeState, O.BridgeName);
  }

  lemma SameAsItself(x: Bridges)
    ensures SameBridges(x, x)
  {
  }

  /** Any two readings of one store hash alike, whatever order they list things in. */
  lemma ReadersAgree(a: O.OvsState, b: O.OvsState, version: string, bs: Bridges)
    requires Wf(bs) && IsState(a, version, bs) && IsState(b, version, bs)
    ensures O.Hash(a) == O.Hash(b)
  {
    SameAsItself(bs);
    HashDecidesStore(a, b, version, version, bs, bs);
  }

  /** A reading shows every interface of every port of every bridge as it is stored, and up. */
  lemma StateShows(a: O.OvsState, v: string, x: Bridges, b: string, p: string, i: string)
    returns (bridge: O.BridgeState, port: O.PortState, iface: O.InterfaceState)
    requires Wf(x) && IsState(a, v, x) && b in x && p in x[b].ports && i in x[b].ports[p].interfaces
    ensures a.version == Some(v) && bridge in a.bridges && port in bridge.ports && iface in port.interfaces
    ensures bridge.name == b && bridge.datapathType == x[b].datapathType && bridge.externalIds == x[b].externalIds
    ensures var q := x[b].ports[p];
      port.name == p && port.tag == q.tag && port.externalIds == q.externalIds
      && multiset(port.trunks) == multiset(q.trunks) && Ordering.Sorted(O.IntLeq, port.trunks)
    ensures var j := x[b].ports[p].interfaces[i];
      iface.name == i && iface.ifaceType == j.ifaceType && iface.options == j.options && iface.adminState == "up"
  {
    bridge := Shown(a.bridges, x, IsBridgeState, b);
    port := Shown(bridge.ports, x[b].ports, IsPortState, p);
    iface := Shown(port.interfaces, x[b].ports[p].interfaces, IsInterfaceState, i);
    Ordering.SortSorts(O.IntLeq, x[b].ports[p].trunks);
    InterfaceShows(iface, x[b].ports[p].interfaces[i]);
  }

  lemma Shown<D(!new), V(!new)>(ds: seq<D>, m: map<string, V>, rel: (D, V) -> bool, k: string) returns (d: D)
    requires Renders(ds, m, rel) && k in m
    ensures d in ds && rel(d, m[k])
  {
    var ks :| RendersInOrder(ks, ds, m, rel);
    assert k in ks;
    var i :| 0 <= i < |ks| && ks[i] == k;
    d := ds[i];
  }

  /** What a payload leaves out: no version, or an empty one, keeps the current one; an interface
      without a type is internal, a bridge without one is system, and other gaps are empty. */
  lemma AbsentKeysTakeDefaults(name: string, current: string, d: OvsDoc)
    ensures ReadVersion(d, current) ==
      match d.ovsVersion { case None => current case Some(v) => if |v| == 0 then current else v }
    ensures ReadInterface(InterfaceDoc(Some(name), None, None)) == Some((name, Iface(name, "internal", map[])))
    ensures ReadPort(PortDoc(Some(name), None, None, None, None)) == Some((name, Port(name, None, [], map[], map[])))
    ensures ReadBridge(BridgeDoc(Some(name), None, None, None)) == Some((name, Bridge(name, "system", map[], map[])))
    ensures ReadBridges(OvsDoc(None, None)) == Some(map[])
  {
  }
}
