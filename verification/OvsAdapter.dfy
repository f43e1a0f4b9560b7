/** The object form of the in-memory OVS: bridges are mutable objects kept in a dictionary.
    Every method is proved against the corresponding function on contents. */
module OvsAdapter {
  import opened Common
  import opened OvsStore
  import Ordering
  import O = OvsState

  class BridgeMut {
    var name: string
    var datapathType: string
    var externalIds: Dict
    var ports: map<string, Port>

    constructor (b: Bridge)
      ensures Value() == b
    {
      name, datapathType, externalIds, ports := b.name, b.datapathType, b.externalIds, b.ports;
    }

    function Value(): Bridge
      reads this
    {
      Bridge(name, datapathType, externalIds, ports)
    }
  }

  class FakeOvsdb {
    var ovsVersion: string
    var bridges: map<string, BridgeMut>

    ghost function Repr(): set<object>
      reads this
    {
      {this} + bridges.Values
    }

    ghost function Contents(): Bridges
      reads this, bridges.Values
    {
      map k | k in bridges :: bridges[k].Value()
    }

    /** No two names share a bridge object. */
    ghost predicate Valid()
      reads this, bridges.Values
    {
      forall j, k | j in bridges && k in bridges && j != k :: bridges[j] != bridges[k]
    }

    constructor (version: string)
      ensures Valid() && fresh(Repr())
      ensures ovsVersion == version && Contents() == map[]
    {
      ovsVersion := version;
      bridges := map[];
    }

    method EnsureBridge(name: string, datapathType: string, externalIds: Dict) returns (changed: bool)
      requires Valid()
      modifies Repr()
      ensures Valid() && fresh(Repr() - old(Repr())) && ovsVersion == old(ovsVersion)
      ensures (changed, Contents()) == OvsStore.EnsureBridge(old(Contents()), name, datapathType, externalIds)
    {
      ghost var before := Contents();
      if name !in bridges {
        var b := new BridgeMut(Bridge(name, datapathType, externalIds, map[]));
        bridges := bridges[name := b];
        changed := true;
      } else {
        var existing := bridges[name];
        changed := false;
        if existing.datapathType != datapathType {
          existing.datapathType := datapathType;
          changed := true;
        }
        if existing.externalIds != externalIds {
          existing.externalIds := externalIds;
          changed := true;
        }
      }
      assert Contents() == before[name := bridges[name].Value()];
    }

    method DeleteBridge(name: string) returns (changed: bool)
      requires Valid()
      modifies Repr()
      ensures Valid() && Repr() <= old(Repr()) && ovsVersion == old(ovsVersion)
      ensures (changed, Contents()) == OvsStore.DeleteBridge(old(Contents()), name)
    {
      changed := name in bridges;
      bridges := Drop(bridges, name);
      assert Contents() == Drop(old(Contents()), name);
    }

    method EnsurePort(bridge: string, name: string, ifaceType: string, options: Dict, tag: Option<int>,
                      trunks: seq<int>, externalIds: Dict)
      returns (r: Option<bool>)
      requires Valid()
      modifies Repr()
      ensures Valid() && Repr() == old(Repr()) && ovsVersion == old(ovsVersion)
      ensures match OvsStore.EnsurePort(old(Contents()), bridge,
                      NewPort(name, ifaceType, options, tag, trunks, externalIds))
              case None => r == None && Contents() == old(Contents())
              case Some(e) => r == Some(e.0) && Contents() == e.1
    {
      if bridge !in bridges { return None; }
      var br := bridges[bridge];
      var port := NewPort(name, ifaceType, options, tag, trunks, externalIds);
      if name !in br.ports {
        br.ports := br.ports[name := port];
        return Some(true);
      }
      if PortsEqual(br.ports[name], port) { return Some(false); }
      br.ports := br.ports[name := port];
      return Some(true);
    }

    method DeletePort(bridge: string, name: string) returns (r: Option<bool>)
      requires Valid()
      modifies Repr()
      ensures Valid() && Repr() == old(Repr()) && ovsVersion == old(ovsVersion)
      ensures match OvsStore.DeletePort(old(Contents()), bridge, name)
              case None => r == None && Contents() == old(Contents())
              case Some(e) => r == Some(e.0) && Contents() == e.1
    {
      if bridge !in bridges { return None; }
      var br := bridges[bridge];
      r := Some(name in br.ports);
      br.ports := Drop(br.ports, name);
    }

    method EnsureVxlanPort(bridge: string, name: string, vni: int, remoteIp: string,
                           localIp: Option<string>, dstPort: int, mtu: Option<int>, externalIds: Dict)
      returns (r: Option<bool>)
      requires Valid()
      modifies Repr()
      ensures Valid() && Repr() == old(Repr()) && ovsVersion == old(ovsVersion)
      ensures match OvsStore.EnsurePort(old(Contents()), bridge,
                      NewPort(name, "vxlan", VxlanOptions(vni, remoteIp, localIp, dstPort, mtu), None, [], externalIds))
              case None => r == None && Contents() == old(Contents())
              case Some(e) => r == Some(e.0) && Contents() == e.1
    {
      var options := VxlanOptions(vni, remoteIp, localIp, dstPort, mtu);
      r := EnsurePort(bridge, name, "vxlan", options, None, [], externalIds);
    }

    // ---- Reading, dumping, restoring ------------------------------------------------

    method GetState() returns (s: O.OvsState)
      requires Valid()
      ensures IsState(s, ovsVersion, Contents())
    {
      var ks := Keys(bridges);
      var bs := [];
      for i := 0 to |ks|
        invariant |bs| == i
        invariant forall j | 0 <= j < i :: ks[j] in bridges && IsBridgeState(bs[j], bridges[ks[j]].Value())
      {
        assert ks[i] in ks;
        var b := BridgeToState(bridges[ks[i]].Value());
        bs := bs + [b];
      }
      assert RendersInOrder(ks, bs, Contents(), IsBridgeState);
      s := O.OvsState(Some(ovsVersion), bs);
    }

    method Dump() returns (d: OvsDoc)
      requires Valid()
      ensures IsDump(d, ovsVersion, Contents())
    {
      var ks := Keys(bridges);
      var bs := [];
      for i := 0 to |ks|
        invariant |bs| == i
        invariant forall j | 0 <= j < i :: ks[j] in bridges && IsBridgeDoc(bs[j], bridges[ks[j]].Value())
      {
        assert ks[i] in ks;
        var b := BridgeToDict(bridges[ks[i]].Value());
        bs := bs + [b];
      }
      assert RendersInOrder(ks, bs, Contents(), IsBridgeDoc);
      d := OvsDoc(Some(ovsVersion), Some(bs));
    }

    /** The version is overwritten before the bridges are read: a payload that lacks a name
        raises with only the version changed. */
    method Restore(payload: OvsDoc) returns (ok: bool)
      requires Valid()
      modifies Repr()
      ensures Valid() && fresh(Repr() - old(Repr()))
      ensures (ok, ovsVersion, Contents()) == Restored(old(ovsVersion), old(Contents()), payload)
      ensures ok <==> !LacksName(payload)
    {
      RestoreFailsIff(payload);
      ovsVersion := ReadVersion(payload, ovsVersion);
      var read := ReadBridges(payload);
      if read.None? {
        assert Contents() == old(Contents());
        return false;
      }
      var rebuilt := BuildBridges(read.value);
      bridges := rebuilt;
      assert Contents() == read.value;
      ok := true;
    }
  }

  method BuildBridges(bs: Bridges) returns (objects: map<string, BridgeMut>)
    ensures objects.Keys == bs.Keys
    ensures forall k | k in objects :: fresh(objects[k]) && objects[k].Value() == bs[k]
    ensures forall j, k | j in objects && k in objects && j != k :: objects[j] != objects[k]
  {
    var ks := Keys(bs);
    objects := map[];
    for i := 0 to |ks|
      invariant objects.Keys == set j | 0 <= j < i :: ks[j]
      invariant forall k | k in objects :: fresh(objects[k]) && k in bs && objects[k].Value() == bs[k]
      invariant forall j, k | j in objects && k in objects && j != k :: objects[j] != objects[k]
    {
      assert ks[i] in ks;
      var b := new BridgeMut(bs[ks[i]]);
      objects := objects[ks[i] := b];
    }
    assert forall k | k in bs :: k in ks;
  }

  method PortToState(p: Port) returns (s: O.PortState)
    ensures IsPortState(s, p)
  {
    var ks := Keys(p.interfaces);
    var ifs := seq(|ks|, i requires 0 <= i < |ks| && ks[i] in ks => InterfaceToState(p.interfaces[ks[i]]));
    assert RendersInOrder(ks, ifs, p.interfaces, IsInterfaceState);
    s := O.PortState(p.name, ifs, p.tag, Ordering.Sort(O.IntLeq, p.trunks), p.externalIds);
  }

  method BridgeToState(b: Bridge) returns (s: O.BridgeState)
    ensures IsBridgeState(s, b)
  {
    var ks := Keys(b.ports);
    var ps := [];
    for i := 0 to |ks|
      invariant |ps| == i
      invariant forall j | 0 <= j < i :: ks[j] in b.ports && IsPortState(ps[j], b.ports[ks[j]])
    {
      assert ks[i] in ks;
      var p := PortToState(b.ports[ks[i]]);
      ps := ps + [p];
    }
    assert RendersInOrder(ks, ps, b.ports, IsPortState);
    s := O.BridgeState(b.name, b.datapathType, ps, b.externalIds);
  }

  method PortToDict(p: Port) returns (d: PortDoc)
    ensures IsPortDoc(d, p)
  {
    var ks := Keys(p.interfaces);
    var ifs := seq(|ks|, i requires 0 <= i < |ks| && ks[i] in ks => InterfaceToDict(p.interfaces[ks[i]]));
    assert RendersInOrder(ks, ifs, p.interfaces, IsInterfaceDoc);
    d := PortDoc(Some(p.name), p.tag, Some(p.trunks), Some(p.externalIds), Some(ifs));
  }

  method BridgeToDict(b: Bridge) returns (d: BridgeDoc)
    ensures IsBridgeDoc(d, b)
  {
    var ks := Keys(b.ports);
    var ps := [];
    for i := 0 to |ks|
      invariant |ps| == i
      invariant forall j | 0 <= j < i :: ks[j] in b.ports && IsPortDoc(ps[j], b.ports[ks[j]])
    {
      assert ks[i] in ks;
      var p := PortToDict(b.ports[ks[i]]);
      ps := ps + [p];
    }
    assert RendersInOrder(ks, ps, b.ports, IsPortDoc);
    d := BridgeDoc(Some(b.name), Some(b.datapathType), Some(b.externalIds), Some(ps));
  }
}
