/** Decoding the JSON tables of `ovs-vsctl --format=json` into bridges (section 5.1 of RFC 7047). */
module OvsTables {
  import opened Common
  import O = OvsState

  // ---- JSON values --------------------------------------------------------------------

  datatype Json = Null | Num(n: int) | Str(s: string) | Arr(items: seq<Json>)

  predicate IsTagged(v: Json, tag: string) {
    v.Arr? && |v.items| == 2 && v.items[0] == Str(tag)
  }

  /** `_ovs_uuid`; other values would be printed, which valid tables never need. */
  function OvsUuid(v: Json): Option<string> {
    if IsTagged(v, "uuid") && v.items[1].Str? then Some(v.items[1].s)
    else if v.Str? then Some(v.s) else None
  }

  /** `_ovs_set`: `["set", [...]]`, or a bare scalar standing for itself. */
  function OvsSet(v: Json): Option<seq<Json>> {
    if IsTagged(v, "set") then (if v.items[1].Arr? then Some(v.items[1].items) else None)
    else if v == Null || v == Str("") then Some([])
    else Some([v])
  }

  /** `_ovs_map`: a later pair wins; anything but a map is empty. */
  function OvsMap(v: Json): Option<Dict> {
    if IsTagged(v, "map") then (if v.items[1].Arr? then Pairs(v.items[1].items) else None)
    else Some(map[])
  }

  function Pairs(ps: seq<Json>): Option<Dict> {
    if ps == [] then Some(map[])
    else
      var n := |ps| - 1;
      match Pairs(ps[..n])
      case None => None
      case Some(m) =>
        if ps[n].Arr? && |ps[n].items| == 2 && ps[n].items[0].Str? && ps[n].items[1].Str?
        then Some(m[ps[n].items[0].s := ps[n].items[1].s]) else None
  }

  /** `str(v or default)` */
  function TextOr(v: Json, default: string): Option<string> {
    if v == Null || v == Str("") then Some(default)
    else if v.Str? then Some(v.s) else None
  }

  function AllUuids(vs: seq<Json>): Option<seq<string>> {
    if vs == [] then Some([])
    else match AllUuids(vs[..|vs| - 1])
      case None => None
      case Some(us) => match OvsUuid(vs[|vs| - 1]) case None => None case Some(u) => Some(us + [u])
  }

  function AllInts(vs: seq<Json>): Option<seq<int>> {
    if vs == [] then Some([])
    else match AllInts(vs[..|vs| - 1])
      case None => None
      case Some(ns) => if vs[|vs| - 1].Num? then Some(ns + [vs[|vs| - 1].n]) else None
  }

  // ---- Reading rows ---------------------------------------------------------------------

  function ReadInterface(row: seq<Json>): Option<(string, O.InterfaceState)> {
    if |row| < 4 || !row[1].Str? then None
    else match (OvsUuid(row[0]), TextOr(row[2], "internal"), OvsMap(row[3]))
      case (Some(u), Some(t), Some(options)) => Some((u, O.InterfaceState(row[1].s, t, options, "up")))
      case _ => None
  }

  /** Only a bare number is read as a tag. */
  function ReadTag(v: Json): Option<int> { if v.Num? then Some(v.n) else None }

  function UuidSet(v: Json): Option<seq<string>> {
    match OvsSet(v) case None => None case Some(vs) => AllUuids(vs)
  }

  function IntSet(v: Json): Option<seq<int>> {
    match OvsSet(v) case None => None case Some(vs) => AllInts(vs)
  }

  /** `tuple(table[u] for u in uuids if u in table)` */
  function Resolve<T>(uuids: seq<string>, table: map<string, T>): seq<T> {
    if uuids == [] then []
    else
      var n := |uuids| - 1;
      Resolve(uuids[..n], table) + (if uuids[n] in table then [table[uuids[n]]] else [])
  }

  function ReadPort(row: seq<Json>, interfaces: map<string, O.InterfaceState>): Option<(string, O.PortState)> {
    if |row| < 5 || !row[1].Str? then None
    else match (OvsUuid(row[0]), IntSet(row[3]), UuidSet(row[4]))
      case (Some(u), Some(trunks), Some(refs)) =>
        Some((u, O.PortState(row[1].s, Resolve(refs, interfaces), ReadTag(row[2]), trunks, map[])))
      case _ => None
  }

  function ReadBridge(row: seq<Json>, ports: map<string, O.PortState>): Option<O.BridgeState> {
    if |row| < 3 || !row[0].Str? then None
    else match (TextOr(row[1], "system"), UuidSet(row[2]))
      case (Some(t), Some(refs)) => Some(O.BridgeState(row[0].s, t, Resolve(refs, ports), map[]))
      case _ => None
  }

  type Rows = seq<seq<Json>>

  function InterfaceTable(rows: Rows): Option<map<string, O.InterfaceState>> {
    if rows == [] then Some(map[])
    else match (InterfaceTable(rows[..|rows| - 1]), ReadInterface(rows[|rows| - 1]))
      case (Some(m), Some(e)) => Some(m[e.0 := e.1])
      case _ => None
  }

  function PortTable(rows: Rows, interfaces: map<string, O.InterfaceState>): Option<map<string, O.PortState>> {
    if rows == [] then Some(map[])
    else match (PortTable(rows[..|rows| - 1], interfaces), ReadPort(rows[|rows| - 1], interfaces))
      case (Some(m), Some(e)) => Some(m[e.0 := e.1])
      case _ => None
  }

  function BridgeList(rows: Rows, ports: map<string, O.PortState>): Option<seq<O.BridgeState>> {
    if rows == [] then Some([])
    else match (BridgeList(rows[..|rows| - 1], ports), ReadBridge(rows[|rows| - 1], ports))
      case (Some(bs), Some(b)) => Some(bs + [b])
      case _ => None
  }

  /** `_parse_bridges` on the `data` arrays of the three documents; None: some cell has a shape
      no valid table has. */
  function ParseBridges(bridges: Rows, ports: Rows, interfaces: Rows): Option<seq<O.BridgeState>> {
    match InterfaceTable(interfaces)
    case None => None
    case Some(ifaces) =>
      match PortTable(ports, ifaces)
      case None => None
      case Some(ps) => BridgeList(bridges, ps)
  }

  method Parse(bridges: Rows, ports: Rows, interfaces: Rows) returns (r: Option<seq<O.BridgeState>>)
    ensures r == ParseBridges(bridges, ports, interfaces)
  {
    var ifacesByUuid := InterfaceTable(interfaces);
    if ifacesByUuid.None? { return None; }
    var portsByUuid: map<string, O.PortState> := map[];
    for i := 0 to |ports|
      invariant PortTable(ports[..i], ifacesByUuid.value) == Some(portsByUuid)
    {
      assert ports[..i + 1][..i] == ports[..i];
      var entry := ReadPort(ports[i], ifacesByUuid.value);
      if entry.None? {
        BadPortRow(ports, ifacesByUuid.value, i);
        return None;
      }
      portsByUuid := portsByUuid[entry.value.0 := entry.value.1];
    }
    assert ports[..|ports|] == ports;
    var out: seq<O.BridgeState> := [];
    for i := 0 to |bridges|
      invariant BridgeList(bridges[..i], portsByUuid) == Some(out)
    {
      assert bridges[..i + 1][..i] == bridges[..i];
      var bridge := ReadBridge(bridges[i], portsByUuid);
      if bridge.None? {
        BadBridgeRow(bridges, portsByUuid, i);
        return None;
      }
      out := out + [bridge.value];
    }
    assert bridges[..|bridges|] == bridges;
    r := Some(out);
  }

  lemma {:induction false} BadPortRow(rows: Rows, interfaces: map<string, O.InterfaceState>, i: nat)
    requires i < |rows| && ReadPort(rows[i], interfaces).None?
    ensures PortTable(rows, interfaces) == None
  {
    var n := |rows| - 1;
    if i < n { BadPortRow(rows[..n], interfaces, i); }
  }

  lemma {:induction false} BadBridgeRow(rows: Rows, ports: map<string, O.PortState>, i: nat)
    requires i < |rows| && ReadBridge(rows[i], ports).None?
    ensures BridgeList(rows, ports) == None
  {
    var n := |rows| - 1;
    if i < n { BadBridgeRow(rows[..n], ports, i); }
  }

  // ---- The database the tables describe ---------------------------------------------------

  datatype InterfaceRow = InterfaceRow(uuid: string, name: string, ifaceType: string, options: seq<(string, string)>)
  datatype PortRow = PortRow(uuid: string, name: string, tag: Option<int>, trunks: seq<int>, interfaces: seq<string>)
  datatype BridgeRow = BridgeRow(name: string, datapathType: string, ports: seq<string>)
  datatype Database = Database(bridges: seq<BridgeRow>, ports: seq<PortRow>, interfaces: seq<InterfaceRow>)

  // How the encoder wrote the sets of one row: a set of one element may be bare or tagged.
  datatype PortForm = PortForm(tagTagged: bool, trunksTagged: bool, interfacesTagged: bool)

  function EncodeSet(vs: seq<Json>, tagged: bool): Json {
    if |vs| == 1 && !tagged then vs[0] else Arr([Str("set"), Arr(vs)])
  }

  function EncodeUuid(u: string): Json { Arr([Str("uuid"), Str(u)]) }

  function EncodeUuids(us: seq<string>): (r: seq<Json>)
    ensures |r| == |us| && forall i | 0 <= i < |us| :: r[i] == EncodeUuid(us[i])
  {
    seq(|us|, i requires 0 <= i < |us| => EncodeUuid(us[i]))
  }

  function EncodeInts(ns: seq<int>): (r: seq<Json>)
    ensures |r| == |ns| && forall i | 0 <= i < |ns| :: r[i] == Num(ns[i])
  {
    seq(|ns|, i requires 0 <= i < |ns| => Num(ns[i]))
  }

  function EncodePairs(ps: seq<(string, string)>): (r: seq<Json>)
    ensures |r| == |ps| && forall i | 0 <= i < |ps| :: r[i] == Arr([Str(ps[i].0), Str(ps[i].1)])
  {
    seq(|ps|, i requires 0 <= i < |ps| => Arr([Str(ps[i].0), Str(ps[i].1)]))
  }

  function EncodeInterface(r: InterfaceRow): seq<Json> {
    [EncodeUuid(r.uuid), Str(r.name), Str(r.ifaceType), Arr([Str("map"), Arr(EncodePairs(r.options))])]
  }

  function EncodePort(r: PortRow, f: PortForm): seq<Json> {
    [EncodeUuid(r.uuid), Str(r.name),
     EncodeSet(if r.tag.Some? then [Num(r.tag.value)] else [], f.tagTagged),
     EncodeSet(EncodeInts(r.trunks), f.trunksTagged),
     EncodeSet(EncodeUuids(r.interfaces), f.interfacesTagged)]
  }

  function EncodeBridge(r: BridgeRow, tagged: bool): seq<Json> {
    [Str(r.name), Str(r.datapathType), EncodeSet(EncodeUuids(r.ports), tagged)]
  }

  function EncodeInterfaces(rs: seq<InterfaceRow>): (rows: Rows)
    ensures |rows| == |rs| && forall i | 0 <= i < |rs| :: rows[i] == EncodeInterface(rs[i])
  {
    seq(|rs|, i requires 0 <= i < |rs| => EncodeInterface(rs[i]))
  }

  function EncodePorts(rs: seq<PortRow>, forms: seq<PortForm>): (rows: Rows)
    requires |forms| == |rs|
    ensures |rows| == |rs| && forall i | 0 <= i < |rs| :: rows[i] == EncodePort(rs[i], forms[i])
  {
    seq(|rs|, i requires 0 <= i < |rs| => EncodePort(rs[i], forms[i]))
  }

  function EncodeBridges(rs: seq<BridgeRow>, tagged: seq<bool>): (rows: Rows)
    requires |tagged| == |rs|
    ensures |rows| == |rs| && forall i | 0 <= i < |rs| :: rows[i] == EncodeBridge(rs[i], tagged[i])
  {
    seq(|rs|, i requires 0 <= i < |rs| => EncodeBridge(rs[i], tagged[i]))
  }

  // ---- The tree by naive lookup -------------------------------------------------------------

  /** The last row with the uuid, if any. */
  function FindInterface(rs: seq<InterfaceRow>, u: string): Option<InterfaceRow> {
    if rs == [] then None
    else if rs[|rs| - 1].uuid == u then Some(rs[|rs| - 1])
    else FindInterface(rs[..|rs| - 1], u)
  }

  /** The index of the last row with the uuid, if any. */
  function LastRow(rs: seq<PortRow>, u: string): (k: Option<nat>)
    ensures k.Some? ==> k.value < |rs| && rs[k.value].uuid == u
  {
    if rs == [] then None
    else if rs[|rs| - 1].uuid == u then Some(|rs| - 1)
    else LastRow(rs[..|rs| - 1], u)
  }

  function FindPort(rs: seq<PortRow>, u: string): Option<PortRow> {
    var k := LastRow(rs, u);
    if k.Some? then Some(rs[k.value]) else None
  }

  function OptionsOf(ps: seq<(string, string)>): Dict {
    if ps == [] then map[] else OptionsOf(ps[..|ps| - 1])[ps[|ps| - 1].0 := ps[|ps| - 1].1]
  }

  function InterfaceOf(r: InterfaceRow): O.InterfaceState {
    O.InterfaceState(r.name, if r.ifaceType == "" then "internal" else r.ifaceType, OptionsOf(r.options), "up")
  }

  /** References are followed in order; dangling ones are dropped. */
  function InterfacesOf(rs: seq<InterfaceRow>, refs: seq<string>): seq<O.InterfaceState> {
    if refs == [] then []
    else
      var n := |refs| - 1;
      var found := FindInterface(rs, refs[n]);
      InterfacesOf(rs, refs[..n]) + (if found.Some? then [InterfaceOf(found.value)] else [])
  }

  function PortOf(ifs: seq<InterfaceRow>, r: PortRow): O.PortState {
    O.PortState(r.name, InterfacesOf(ifs, r.interfaces), r.tag, r.trunks, map[])
  }

  function PortsOf(ps: seq<PortRow>, ifs: seq<InterfaceRow>, refs: seq<string>): seq<O.PortState> {
    if refs == [] then []
    else
      var n := |refs| - 1;
      var found := FindPort(ps, refs[n]);
      PortsOf(ps, ifs, refs[..n]) + (if found.Some? then [PortOf(ifs, found.value)] else [])
  }

  function BridgeOf(ps: seq<PortRow>, ifs: seq<InterfaceRow>, r: BridgeRow): O.BridgeState {
    O.BridgeState(r.name, if r.datapathType == "" then "system" else r.datapathType, PortsOf(ps, ifs, r.ports), map[])
  }

  function BridgesOf(bs: seq<BridgeRow>, ps: seq<PortRow>, ifs: seq<InterfaceRow>): (t: seq<O.BridgeState>)
    ensures |t| == |bs| && forall i | 0 <= i < |t| :: t[i] == BridgeOf(ps, ifs, bs[i])
  {
    seq(|bs|, i requires 0 <= i < |bs| => BridgeOf(ps, ifs, bs[i]))
  }

  function TreeOf(db: Database): seq<O.BridgeState> {
    BridgesOf(db.bridges, db.ports, db.interfaces)
  }

  // ---- Decoding cells ------------------------------------------------------------------------

  lemma {:induction false} UuidsBack(us: seq<string>)
    ensures AllUuids(EncodeUuids(us)) == Some(us)
  {
    if us == [] {
    } else {
      var n := |us| - 1;
      UuidsBack(us[..n]);
      assert us == us[..n] + [us[n]];
      assert EncodeUuids(us)[..n] == EncodeUuids(us[..n]);
    }
  }

  lemma {:induction false} IntsBack(ns: seq<int>)
    ensures AllInts(EncodeInts(ns)) == Some(ns)
  {
    if ns == [] {
    } else {
      var n := |ns| - 1;
      IntsBack(ns[..n]);
      assert ns == ns[..n] + [ns[n]];
      assert EncodeInts(ns)[..n] == EncodeInts(ns[..n]);
    }
  }

  lemma {:induction false} PairsBack(ps: seq<(string, string)>)
    ensures Pairs(EncodePairs(ps)) == Some(OptionsOf(ps))
  {
    if ps == [] {
    } else {
      var n := |ps| - 1;
      PairsBack(ps[..n]);
      assert EncodePairs(ps)[..n] == EncodePairs(ps[..n]);
    }
  }

  /** A set is read back in either form, unless its bare element would itself look like a set
      or like nothing. */
  lemma SetBack(vs: seq<Json>, tagged: bool)
    requires forall v | v in vs :: v != Null && v != Str("") && !IsTagged(v, "set")
    ensures OvsSet(EncodeSet(vs, tagged)) == Some(vs)
  {
    if |vs| == 1 && !tagged {
      assert vs == [vs[0]] && vs[0] in vs;
    }
  }

  lemma UuidSetBack(us: seq<string>, tagged: bool)
    ensures UuidSet(EncodeSet(EncodeUuids(us), tagged)) == Some(us)
  {
    SetBack(EncodeUuids(us), tagged);
    UuidsBack(us);
  }

  lemma IntSetBack(ns: seq<int>, tagged: bool)
    ensures IntSet(EncodeSet(EncodeInts(ns), tagged)) == Some(ns)
  {
    SetBack(EncodeInts(ns), tagged);
    IntsBack(ns);
  }

  /** The tag column is the exception: its tagged one-element form is not understood. */
  function SeenTag(r: PortRow, f: PortForm): Option<int> {
    if f.tagTagged then None else r.tag
  }

  function Seen(r: PortRow, f: PortForm): PortRow { r.(tag := SeenTag(r, f)) }

  function SeenPorts(rs: seq<PortRow>, forms: seq<PortForm>): (s: seq<PortRow>)
    requires |forms| == |rs|
    ensures |s| == |rs| && forall i | 0 <= i < |rs| :: s[i] == Seen(rs[i], forms[i])
  {
    seq(|rs|, i requires 0 <= i < |rs| => Seen(rs[i], forms[i]))
  }

  // ---- Tables are lookups -----------------------------------------------------------------------

  lemma {:induction false} InterfaceTableBack(rs: seq<InterfaceRow>)
    ensures InterfaceTable(EncodeInterfaces(rs)).Some?
    ensures forall u :: Get(InterfaceTable(EncodeInterfaces(rs)).value, u) ==
              (var f := FindInterface(rs, u); if f.Some? then Some(InterfaceOf(f.value)) else None)
  {
    if rs == [] {
    } else {
      var n := |rs| - 1;
      InterfaceTableBack(rs[..n]);
      assert EncodeInterfaces(rs)[..n] == EncodeInterfaces(rs[..n]);
      InterfaceBack(rs[n]);
    }
  }

  lemma InterfaceBack(r: InterfaceRow)
    ensures ReadInterface(EncodeInterface(r)) == Some((r.uuid, InterfaceOf(r)))
  {
    PairsBack(r.options);
  }

  lemma {:induction false} ResolveInterfaces(rs: seq<InterfaceRow>, refs: seq<string>,
                                             table: map<string, O.InterfaceState>)
    requires forall u :: Get(table, u) ==
               (var f := FindInterface(rs, u); if f.Some? then Some(InterfaceOf(f.value)) else None)
    ensures Resolve(refs, table) == InterfacesOf(rs, refs)
  {
    if refs == [] {
    } else {
      var n := |refs| - 1;
      ResolveInterfaces(rs, refs[..n], table);
      assert Get(table, refs[n]).Some? <==> refs[n] in table;
    }
  }

  lemma TagBack(tag: Option<int>, tagged: bool)
    ensures ReadTag(EncodeSet(if tag.Some? then [Num(tag.value)] else [], tagged)) == if tagged then None else tag
  {
  }

  lemma PortFrom(row: seq<Json>, table: map<string, O.InterfaceState>, u: string, name: string,
                 tag: Option<int>, trunks: seq<int>, refs: seq<string>)
    requires |row| == 5 && row[0] == EncodeUuid(u) && row[1] == Str(name) && ReadTag(row[2]) == tag
    requires IntSet(row[3]) == Some(trunks) && UuidSet(row[4]) == Some(refs)
    ensures ReadPort(row, table) == Some((u, O.PortState(name, Resolve(refs, table), tag, trunks, map[])))
  {
  }

  lemma PortBack(ifs: seq<InterfaceRow>, r: PortRow, f: PortForm, table: map<string, O.InterfaceState>)
    requires InterfaceTable(EncodeInterfaces(ifs)) == Some(table)
    ensures ReadPort(EncodePort(r, f), table) == Some((r.uuid, PortOf(ifs, Seen(r, f))))
  {
    assert Resolve(r.interfaces, table) == InterfacesOf(ifs, r.interfaces) by {
      InterfaceTableBack(ifs);
      ResolveInterfaces(ifs, r.interfaces, table);
    }
    TagBack(r.tag, f.tagTagged);
    IntSetBack(r.trunks, f.trunksTagged);
    UuidSetBack(r.interfaces, f.interfacesTagged);
    PortFrom(EncodePort(r, f), table, r.uuid, r.name, SeenTag(r, f), r.trunks, r.interfaces);
  }

  /** The table holds, for each uuid, the port of the last row that carries it. */
  ghost predicate IsPortTable(table: map<string, O.PortState>, ps: seq<PortRow>, ifs: seq<InterfaceRow>) {
    forall u :: Get(table, u) == (var f := FindPort(ps, u); if f.Some? then Some(PortOf(ifs, f.value)) else None)
  }

  lemma PortsSnoc(rs: seq<PortRow>, forms: seq<PortForm>)
    requires |forms| == |rs| > 0
    ensures var n := |rs| - 1;
            && EncodePorts(rs, forms)[..n] == EncodePorts(rs[..n], forms[..n])
            && SeenPorts(rs, forms) == SeenPorts(rs[..n], forms[..n]) + [Seen(rs[n], forms[n])]
  {
  }

  lemma BridgesSnoc(bs: seq<BridgeRow>, tagged: seq<bool>, ps: seq<PortRow>, ifs: seq<InterfaceRow>)
    requires |tagged| == |bs| > 0
    ensures var n := |bs| - 1;
            && EncodeBridges(bs, tagged)[..n] == EncodeBridges(bs[..n], tagged[..n])
            && BridgesOf(bs, ps, ifs) == BridgesOf(bs[..n], ps, ifs) + [BridgeOf(ps, ifs, bs[n])]
  {
  }

  lemma TableGrows(table: map<string, O.PortState>, ps: seq<PortRow>, ifs: seq<InterfaceRow>, r: PortRow)
    requires IsPortTable(table, ps, ifs)
    ensures IsPortTable(table[r.uuid := PortOf(ifs, r)], ps + [r], ifs)
  {
    assert (ps + [r])[..|ps|] == ps;
    forall u ensures FindPort(ps + [r], u) == if r.uuid == u then Some(r) else FindPort(ps, u) {}
  }

  lemma {:induction false} PortTableBack(ifs: seq<InterfaceRow>, rs: seq<PortRow>, forms: seq<PortForm>,
                                         table: map<string, O.InterfaceState>)
    requires |forms| == |rs| && InterfaceTable(EncodeInterfaces(ifs)) == Some(table)
    ensures PortTable(EncodePorts(rs, forms), table).Some?
    ensures IsPortTable(PortTable(EncodePorts(rs, forms), table).value, SeenPorts(rs, forms), ifs)
  {
    if rs == [] {
    } else {
      var n := |rs| - 1;
      PortTableBack(ifs, rs[..n], forms[..n], table);
      PortsSnoc(rs, forms);
      PortBack(ifs, rs[n], forms[n], table);
      TableGrows(PortTable(EncodePorts(rs[..n], forms[..n]), table).value, SeenPorts(rs[..n], forms[..n]), ifs,
                 Seen(rs[n], forms[n]));
    }
  }

  lemma {:induction false} ResolvePorts(ps: seq<PortRow>, ifs: seq<InterfaceRow>, refs: seq<string>,
                                        table: map<string, O.PortState>)
    requires IsPortTable(table, ps, ifs)
    ensures Resolve(refs, table) == PortsOf(ps, ifs, refs)
  {
    if refs == [] {
    } else {
      var n := |refs| - 1;
      ResolvePorts(ps, ifs, refs[..n], table);
      assert Get(table, refs[n]).Some? <==> refs[n] in table;
    }
  }

  lemma BridgeBack(b: BridgeRow, tagged: bool, ps: seq<PortRow>, ifs: seq<InterfaceRow>,
                   table: map<string, O.PortState>)
    requires IsPortTable(table, ps, ifs)
    ensures ReadBridge(EncodeBridge(b, tagged), table) == Some(BridgeOf(ps, ifs, b))
  {
    UuidSetBack(b.ports, tagged);
    ResolvePorts(ps, ifs, b.ports, table);
  }

  lemma {:induction false} BridgeListBack(bs: seq<BridgeRow>, tagged: seq<bool>, ps: seq<PortRow>,
                                          ifs: seq<InterfaceRow>, table: map<string, O.PortState>)
    requires |tagged| == |bs| && IsPortTable(table, ps, ifs)
    ensures BridgeList(EncodeBridges(bs, tagged), table) == Some(BridgesOf(bs, ps, ifs))
  {
    if bs == [] {
    } else {
      var n := |bs| - 1;
      BridgeListBack(bs[..n], tagged[..n], ps, ifs, table);
      BridgesSnoc(bs, tagged, ps, ifs);
      BridgeBack(bs[n], tagged[n], ps, ifs, table);
    }
  }

  /** Whatever forms the encoder chose, decoding yields the tree of naive lookups, in row and
      reference order, over the ports as their tag columns are understood. */
  lemma DecodesToTheTree(db: Database, forms: seq<PortForm>, tagged: seq<bool>)
    requires |forms| == |db.ports| && |tagged| == |db.bridges|
    ensures ParseBridges(EncodeBridges(db.bridges, tagged), EncodePorts(db.ports, forms),
                         EncodeInterfaces(db.interfaces))
            == Some(TreeOf(db.(ports := SeenPorts(db.ports, forms))))
  {
    InterfaceTableBack(db.interfaces);
    var ifaces := InterfaceTable(EncodeInterfaces(db.interfaces)).value;
    PortTableBack(db.interfaces, db.ports, forms, ifaces);
    var ports := PortTable(EncodePorts(db.ports, forms), ifaces).value;
    BridgeListBack(db.bridges, tagged, SeenPorts(db.ports, forms), db.interfaces, ports);
  }

  // ---- Exactly when the tree is the database's ------------------------------------------------

  /** The reference dangles, or the tag of the port it names is absent or written bare. */
  ghost predicate Legible(ps: seq<PortRow>, forms: seq<PortForm>, u: string)
    requires |forms| == |ps|
  {
    var k := LastRow(ps, u);
    k.Some? ==> ps[k.value].tag.None? || !forms[k.value].tagTagged
  }

  lemma {:induction false} SeenKeepsRows(ps: seq<PortRow>, forms: seq<PortForm>, u: string)
    requires |forms| == |ps|
    ensures LastRow(SeenPorts(ps, forms), u) == LastRow(ps, u)
  {
    if ps == [] {
    } else {
      var n := |ps| - 1;
      assert SeenPorts(ps, forms)[..n] == SeenPorts(ps[..n], forms[..n]);
      SeenKeepsRows(ps[..n], forms[..n], u);
    }
  }

  lemma {:induction false} PortsSeenIff(ps: seq<PortRow>, forms: seq<PortForm>, ifs: seq<InterfaceRow>,
                                        refs: seq<string>)
    requires |forms| == |ps|
    ensures |PortsOf(SeenPorts(ps, forms), ifs, refs)| == |PortsOf(ps, ifs, refs)|
    ensures PortsOf(SeenPorts(ps, forms), ifs, refs) == PortsOf(ps, ifs, refs) <==> AllLegible(ps, forms, refs)
  {
    if refs == [] {
    } else {
      var n := |refs| - 1;
      PortsSeenIff(ps, forms, ifs, refs[..n]);
      SeenKeepsRows(ps, forms, refs[n]);
      AllLegibleSnoc(ps, forms, refs);
      var a, b := PortsOf(SeenPorts(ps, forms), ifs, refs[..n]), PortsOf(ps, ifs, refs[..n]);
      var seen, plain := FindPort(SeenPorts(ps, forms), refs[n]), FindPort(ps, refs[n]);
      if seen.Some? {
        LastDecides(a, b, PortOf(ifs, seen.value), PortOf(ifs, plain.value));
      } else {
        assert a + [] == a && b + [] == b;
      }
    }
  }

  ghost predicate AllLegible(ps: seq<PortRow>, forms: seq<PortForm>, refs: seq<string>)
    requires |forms| == |ps|
  {
    forall j | 0 <= j < |refs| :: Legible(ps, forms, refs[j])
  }

  lemma AllLegibleSnoc(ps: seq<PortRow>, forms: seq<PortForm>, refs: seq<string>)
    requires |forms| == |ps| && refs != []
    ensures var n := |refs| - 1;
            AllLegible(ps, forms, refs) <==> AllLegible(ps, forms, refs[..n]) && Legible(ps, forms, refs[n])
  {
    var n := |refs| - 1;
    if AllLegible(ps, forms, refs[..n]) && Legible(ps, forms, refs[n]) {
      forall j | 0 <= j < |refs| ensures Legible(ps, forms, refs[j]) {
        if j < n { assert refs[..n][j] == refs[j]; }
      }
    }
  }

  lemma LastDecides<T>(a: seq<T>, b: seq<T>, x: T, y: T)
    requires |a| == |b|
    ensures a + [x] == b + [y] <==> a == b && x == y
  {
    if a + [x] == b + [y] {
      assert a == (a + [x])[..|a|] == b;
      assert (a + [x])[|a|] == x && (b + [y])[|b|] == y;
    }
  }

  /** Decoding gives exactly the database's tree if and only if no port that a bridge refers to
      has its tag written as a tagged one-element set. */
  lemma DecodesExactlyIff(db: Database, forms: seq<PortForm>, tagged: seq<bool>)
    requires |forms| == |db.ports| && |tagged| == |db.bridges|
    ensures ParseBridges(EncodeBridges(db.bridges, tagged), EncodePorts(db.ports, forms),
                         EncodeInterfaces(db.interfaces))
            == Some(TreeOf(db))
            <==> forall i | 0 <= i < |db.bridges| :: AllLegible(db.ports, forms, db.bridges[i].ports)
  {
    DecodesToTheTree(db, forms, tagged);
    var seen := SeenPorts(db.ports, forms);
    var a, b := BridgesOf(db.bridges, seen, db.interfaces), BridgesOf(db.bridges, db.ports, db.interfaces);
    forall i | 0 <= i < |db.bridges|
      ensures a[i] == b[i] <==> AllLegible(db.ports, forms, db.bridges[i].ports)
    {
      PortsSeenIff(db.ports, forms, db.interfaces, db.bridges[i].ports);
    }
    assert a == b <==> forall i | 0 <= i < |db.bridges| :: a[i] == b[i];
  }
}
