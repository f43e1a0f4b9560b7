/** The CoreDNS adapter beside the dictionary store: on exactly which zones they agree. */
module DnsAgreement {
  import opened Common
  import opened EdgeServices
  import opened DnsZone
  import opened CorednsDns
  import Ordering
  import O = OvsState

  // How zones are written and read; the runs and their agreement speak of any such pair.
  datatype Codec = Codec(render: DnsZoneSpec -> string, parse: string -> Parsed)

  /** The adapter's own. */
  function Files(isIp: string -> bool): Codec { Codec(RenderZone, Reader(isIp)) }

  // ---- Runs of both stores ---------------------------------------------------------------

  datatype Op = ApplyOp(spec: DnsZoneSpec) | DeleteOp(zone: string) | ResolveOp(zone: string, name: string)

  datatype Answer = Changed(changed: bool) | Resolved(answer: Result<Option<string>, ()>)

  function FakeOp(zones: map<string, DnsZoneSpec>, op: Op): (Answer, map<string, DnsZoneSpec>) {
    match op
    case ApplyOp(z) => var r := Put(zones, z.zone, z); (Changed(r.0), r.1)
    case DeleteOp(zone) => var r := Pop(zones, zone); (Changed(r.0), r.1)
    case ResolveOp(zone, name) =>
      (Resolved(Ok(if zone in zones then FirstAddress(zones[zone].records, name) else None)), zones)
  }

  function FileOp(files: map<string, string>, op: Op, c: Codec): (Answer, map<string, string>) {
    match op
    case ApplyOp(z) => var r := Put(files, FileName(z.zone), c.render(z)); (Changed(r.0), r.1)
    case DeleteOp(zone) => var r := Pop(files, FileName(zone)); (Changed(r.0), r.1)
    case ResolveOp(zone, name) =>
      var text := Get(files, FileName(zone));
      (Resolved(if text.None? then Ok(None) else Lookup(c.parse(text.value), name)), files)
  }

  function FakeRun(ops: seq<Op>): (seq<Answer>, map<string, DnsZoneSpec>) {
    if ops == [] then ([], map[])
    else
      var before := FakeRun(ops[..|ops| - 1]);
      var r := FakeOp(before.1, ops[|ops| - 1]);
      (before.0 + [r.0], r.1)
  }

  function FileRun(ops: seq<Op>, c: Codec): (seq<Answer>, map<string, string>) {
    if ops == [] then ([], map[])
    else
      var before := FileRun(ops[..|ops| - 1], c);
      var r := FileOp(before.1, ops[|ops| - 1], c);
      (before.0 + [r.0], r.1)
  }

  // ---- What agreement takes ---------------------------------------------------------------

  function NameOf(op: Op): string {
    match op case ApplyOp(z) => z.zone case DeleteOp(zone) => zone case ResolveOp(zone, _) => zone
  }

  /** Runs on the zone names `names` that apply only the specs `specs`. */
  ghost predicate Over(ops: seq<Op>, names: set<string>, specs: iset<DnsZoneSpec>) {
    forall i | 0 <= i < |ops| :: NameOf(ops[i]) in names && (ops[i].ApplyOp? ==> ops[i].spec in specs)
  }

  ghost predicate Named(names: set<string>, specs: iset<DnsZoneSpec>) { forall z | z in specs :: z.zone in names }

  /** No spec shares its file with another name. */
  ghost predicate OwnFiles(names: set<string>, specs: iset<DnsZoneSpec>) {
    forall z, n | z in specs && n in names && StripDots(z.zone) == StripDots(n) :: z.zone == n
  }

  /** A zone's text answers every lookup as its records do. */
  ghost predicate ReadsTrue(z: DnsZoneSpec, c: Codec) {
    forall name :: Lookup(c.parse(c.render(z)), name) == Ok(FirstAddress(z.records, name))
  }

  /** Specs of one name are written differently. */
  ghost predicate ToldApart(specs: iset<DnsZoneSpec>, c: Codec) {
    forall y, z | y in specs && z in specs && y.zone == z.zone && c.render(y) == c.render(z) :: y == z
  }

  ghost predicate Faithful(names: set<string>, specs: iset<DnsZoneSpec>, c: Codec) {
    && OwnFiles(names, specs)
    && (forall z | z in specs :: ReadsTrue(z, c))
    && ToldApart(specs, c)
  }

  /** Names that do not share files. */
  ghost predicate Separable(names: set<string>) {
    forall a, b | a in names && b in names && StripDots(a) == StripDots(b) :: a == b
  }

  lemma NoTrailingDotSeparable(names: set<string>)
    requires forall n | n in names :: n == "" || n[|n| - 1] != '.'
    ensures Separable(names)
  {
  }

  lemma PlainReadsTrue(z: DnsZoneSpec, isIp: string -> bool)
    requires Printable(z, isIp)
    ensures ReadsTrue(z, Files(isIp))
  {
    RoundTrip(z, isIp);
  }

  /** Valid zones whose fields are single words are faithful, where no two names share a file. */
  lemma PrintableIsFaithful(names: set<string>, specs: iset<DnsZoneSpec>, isIp: string -> bool)
    requires Separable(names) && Named(names, specs) && forall z | z in specs :: Printable(z, isIp)
    ensures Faithful(names, specs, Files(isIp))
  {
    forall z | z in specs ensures ReadsTrue(z, Files(isIp)) { PlainReadsTrue(z, isIp); }
    forall y, z | y in specs && z in specs && y.zone == z.zone && RenderZone(y) == RenderZone(z) ensures y == z {
      RenderIsInjective(y, z, isIp);
    }
  }

  // ---- Faithful zones agree -----------------------------------------------------------------

  /** The directory holds exactly the rendered zones of the dictionary. */
  ghost predicate Agree(files: map<string, string>, zones: map<string, DnsZoneSpec>,
                        names: set<string>, specs: iset<DnsZoneSpec>, c: Codec) {
    && (forall n | n in zones :: n in names && zones[n].zone == n && zones[n] in specs)
    && (forall n | n in names :: Get(files, FileName(n)) == FileText(zones, n, c))
  }

  function FileText(zones: map<string, DnsZoneSpec>, n: string, c: Codec): Option<string> {
    if n in zones then Some(c.render(zones[n])) else None
  }

  lemma FilesApart(names: set<string>, specs: iset<DnsZoneSpec>, z: DnsZoneSpec, n: string)
    requires OwnFiles(names, specs) && z in specs && n in names && FileName(n) == FileName(z.zone)
    ensures n == z.zone
  {
    SameFileIff(n, z.zone);
  }

  lemma ApplyAgrees(files: map<string, string>, zones: map<string, DnsZoneSpec>, names: set<string>,
                    specs: iset<DnsZoneSpec>, z: DnsZoneSpec, c: Codec)
    requires OwnFiles(names, specs) && ToldApart(specs, c) && Agree(files, zones, names, specs, c)
    requires z.zone in names && z in specs
    ensures Put(files, FileName(z.zone), c.render(z)).0 == Put(zones, z.zone, z).0
    ensures Agree(Put(files, FileName(z.zone), c.render(z)).1, Put(zones, z.zone, z).1, names, specs, c)
  {
    var f := Put(files, FileName(z.zone), c.render(z)).1;
    var d := Put(zones, z.zone, z).1;
    assert Get(files, FileName(z.zone)) == FileText(zones, z.zone, c);
    forall n | n in names ensures Get(f, FileName(n)) == FileText(d, n, c) {
      assert Get(d, n) == if n == z.zone then Some(z) else Get(zones, n);
      if FileName(n) == FileName(z.zone) { FilesApart(names, specs, z, n); }
      assert Get(files, FileName(n)) == FileText(zones, n, c);
    }
    forall n | n in d ensures n in names && d[n].zone == n && d[n] in specs {
      assert Get(d, n) == if n == z.zone then Some(z) else Get(zones, n);
    }
  }

  lemma DeleteAgrees(files: map<string, string>, zones: map<string, DnsZoneSpec>, names: set<string>,
                     specs: iset<DnsZoneSpec>, zone: string, c: Codec)
    requires OwnFiles(names, specs) && Agree(files, zones, names, specs, c) && zone in names
    ensures Pop(files, FileName(zone)).0 == Pop(zones, zone).0
    ensures Agree(Pop(files, FileName(zone)).1, Pop(zones, zone).1, names, specs, c)
  {
    var f := Pop(files, FileName(zone)).1;
    var d := Pop(zones, zone).1;
    assert Get(files, FileName(zone)) == FileText(zones, zone, c);
    forall n | n in names ensures Get(f, FileName(n)) == FileText(d, n, c) {
      assert Get(d, n) == if n == zone then None else Get(zones, n);
      assert Get(files, FileName(n)) == FileText(zones, n, c);
      if FileName(n) == FileName(zone) && n in zones { FilesApart(names, specs, zones[n], zone); }
    }
    forall n | n in d ensures n in names && d[n].zone == n && d[n] in specs {
      assert Get(d, n) == if n == zone then None else Get(zones, n);
    }
  }

  lemma StepAgrees(files: map<string, string>, zones: map<string, DnsZoneSpec>, names: set<string>,
                   specs: iset<DnsZoneSpec>, op: Op, c: Codec)
    requires Faithful(names, specs, c) && Agree(files, zones, names, specs, c)
    requires NameOf(op) in names && (op.ApplyOp? ==> op.spec in specs)
    ensures FileOp(files, op, c).0 == FakeOp(zones, op).0
    ensures Agree(FileOp(files, op, c).1, FakeOp(zones, op).1, names, specs, c)
  {
    match op
    case ApplyOp(z) => ApplyAgrees(files, zones, names, specs, z, c);
    case DeleteOp(zone) => DeleteAgrees(files, zones, names, specs, zone, c);
    case ResolveOp(zone, name) =>
      assert Get(files, FileName(zone)) == FileText(zones, zone, c);
      assert zone in zones ==> ReadsTrue(zones[zone], c);
  }

  /** Over any sequence of calls that applies faithful zones, both stores give the same
      `changed` flags and the same lookups. */
  lemma {:induction false} RunsAgree(ops: seq<Op>, names: set<string>, specs: iset<DnsZoneSpec>, c: Codec)
    requires Faithful(names, specs, c) && Over(ops, names, specs)
    ensures FileRun(ops, c).0 == FakeRun(ops).0
    ensures Agree(FileRun(ops, c).1, FakeRun(ops).1, names, specs, c)
  {
    if ops == [] {
    } else {
      var n := |ops| - 1;
      RunsAgree(ops[..n], names, specs, c);
      StepAgrees(FileRun(ops[..n], c).1, FakeRun(ops[..n]).1, names, specs, ops[n], c);
    }
  }

  // ---- Unfaithful zones do not ---------------------------------------------------------------

  lemma TwoOps(a: Op, b: Op, c: Codec)
    ensures var f, d := FileOp(map[], a, c), FakeOp(map[], a);
      && FileRun([a, b], c).0 == [f.0, FileOp(f.1, b, c).0]
      && FakeRun([a, b]).0 == [d.0, FakeOp(d.1, b).0]
  {
    OneOp(a, c);
    assert [a, b][..1] == [a];
  }

  lemma OneOp(a: Op, c: Codec)
    ensures FileRun([a], c) == ([FileOp(map[], a, c).0], FileOp(map[], a, c).1)
    ensures FakeRun([a]) == ([FakeOp(map[], a).0], FakeOp(map[], a).1)
  {
    assert [a][..0] == [];
    assert FileRun([], c) == ([], map[]) && FakeRun([]) == ([], map[]);
    assert [] + [FileOp(map[], a, c).0] == [FileOp(map[], a, c).0];
    assert [] + [FakeOp(map[], a).0] == [FakeOp(map[], a).0];
  }

  lemma AfterApply(z: DnsZoneSpec, op: Op, c: Codec)
    ensures FileRun([ApplyOp(z), op], c).0 == [Changed(true), FileOp(map[FileName(z.zone) := c.render(z)], op, c).0]
    ensures FakeRun([ApplyOp(z), op]).0 == [Changed(true), FakeOp(map[z.zone := z], op).0]
  {
    TwoOps(ApplyOp(z), op, c);
  }

  /** Two names with one file: apply one, delete the other. */
  lemma SharedFileDisagrees(z: DnsZoneSpec, other: string, c: Codec)
    requires z.zone != other && StripDots(z.zone) == StripDots(other)
    ensures FileRun([ApplyOp(z), DeleteOp(other)], c).0 != FakeRun([ApplyOp(z), DeleteOp(other)]).0
  {
    SameFileIff(z.zone, other);
    AfterApply(z, DeleteOp(other), c);
  }

  /** A text that answers a lookup otherwise than its records do: apply, look up. */
  lemma MisreadDisagrees(z: DnsZoneSpec, name: string, c: Codec)
    requires Lookup(c.parse(c.render(z)), name) != Ok(FirstAddress(z.records, name))
    ensures FileRun([ApplyOp(z), ResolveOp(z.zone, name)], c).0
         != FakeRun([ApplyOp(z), ResolveOp(z.zone, name)]).0
  {
    AfterApply(z, ResolveOp(z.zone, name), c);
  }

  /** Two specs with one text: apply one, then the other. */
  lemma SameTextDisagrees(y: DnsZoneSpec, z: DnsZoneSpec, c: Codec)
    requires y != z && y.zone == z.zone && c.render(y) == c.render(z)
    ensures FileRun([ApplyOp(y), ApplyOp(z)], c).0 != FakeRun([ApplyOp(y), ApplyOp(z)]).0
  {
    AfterApply(y, ApplyOp(z), c);
  }

  lemma UnfaithfulDisagrees(names: set<string>, specs: iset<DnsZoneSpec>, c: Codec) returns (ops: seq<Op>)
    requires Named(names, specs) && !Faithful(names, specs, c)
    ensures Over(ops, names, specs) && FileRun(ops, c).0 != FakeRun(ops).0
  {
    if !OwnFiles(names, specs) {
      var z, n :| z in specs && n in names && StripDots(z.zone) == StripDots(n) && z.zone != n;
      ops := [ApplyOp(z), DeleteOp(n)];
      SharedFileDisagrees(z, n, c);
    } else if !ToldApart(specs, c) {
      var y, z :| y in specs && z in specs && y.zone == z.zone && c.render(y) == c.render(z) && y != z;
      ops := [ApplyOp(y), ApplyOp(z)];
      SameTextDisagrees(y, z, c);
    } else {
      var z :| z in specs && !ReadsTrue(z, c);
      var name :| Lookup(c.parse(c.render(z)), name) != Ok(FirstAddress(z.records, name));
      ops := [ApplyOp(z), ResolveOp(z.zone, name)];
      MisreadDisagrees(z, name, c);
    }
  }

  /** The stores give the same answers on all runs over some names and specs if and only if no
      spec shares its file, each one's text answers lookups as its records do, and no two specs
      of a name have one text. */
  lemma AgreementIff(names: set<string>, specs: iset<DnsZoneSpec>, c: Codec)
    requires Named(names, specs)
    ensures Faithful(names, specs, c) <==>
            forall ops | Over(ops, names, specs) :: FileRun(ops, c).0 == FakeRun(ops).0
  {
    if Faithful(names, specs, c) {
      forall ops | Over(ops, names, specs) ensures FileRun(ops, c).0 == FakeRun(ops).0 {
        RunsAgree(ops, names, specs, c);
      }
    } else {
      var _ := UnfaithfulDisagrees(names, specs, c);
    }
  }

  // ---- Valid zones that are not faithful -------------------------------------------------------

  /** An address record whose name contains a space is never found in the file, though its zone
      may be valid. */
  lemma SpacedNameIsLost(z: DnsZoneSpec, i: nat, isIp: string -> bool)
    requires i < |z.records| && z.records[i].rtype in {A, AAAA} && !NoSpace(z.records[i].name)
    ensures FirstAddress(z.records, z.records[i].name).Some?
    ensures Lookup(ParseZone(RenderZone(z), isIp), z.records[i].name) in {Err(()), Ok(None)}
    ensures !ReadsTrue(z, Files(isIp))
  {
    FoundAt(z.records, i);
    ParsedIsPlain(RenderZone(z), isIp);
    var parsed := ParseZone(RenderZone(z), isIp);
    if parsed.Zone? { NotFound(parsed.spec.records, z.records[i].name); }
  }

  lemma {:induction false} FoundAt(rs: seq<DnsRecord>, i: nat)
    requires i < |rs| && rs[i].rtype in {A, AAAA}
    ensures FirstAddress(rs, rs[i].name).Some?
  {
    if i == 0 {
    } else {
      FoundAt(rs[1..], i - 1);
    }
  }

  lemma {:induction false} NotFound(rs: seq<DnsRecord>, name: string)
    requires forall i | 0 <= i < |rs| :: rs[i].name != name
    ensures FirstAddress(rs, name) == None
  {
    if rs == [] {
    } else {
      NotFound(rs[1..], name);
    }
  }

  lemma SpacedNameIsValid(zone: string, ip: string, isIp: string -> bool)
    requires ValidZoneName(zone) && isIp(ip)
    ensures Valid(DnsZoneSpec(zone, [DnsRecord("a b", A, ip, 300)], DEFAULT_SOA), isIp)
    ensures !NoSpace("a b")
  {
    assert "a b"[1] == ' ' && "a b"[1] in "a b" && IsSpace(' ');
  }

  /** Such a zone is valid, and one application and one lookup show the difference. */
  lemma SpacedNameDisagrees(zone: string, ip: string, isIp: string -> bool)
    requires ValidZoneName(zone) && isIp(ip)
    ensures var z := DnsZoneSpec(zone, [DnsRecord("a b", A, ip, 300)], DEFAULT_SOA);
      && Valid(z, isIp)
      && FileRun([ApplyOp(z), ResolveOp(zone, "a b")], Files(isIp)).0 != FakeRun([ApplyOp(z), ResolveOp(zone, "a b")]).0
  {
    var z := DnsZoneSpec(zone, [DnsRecord("a b", A, ip, 300)], DEFAULT_SOA);
    SpacedNameIsValid(zone, ip, isIp);
    assert z.records[0].name == "a b";
    SpacedNameIsLost(z, 0, isIp);
    MisreadDisagrees(z, "a b", Files(isIp));
  }

  /** The zone with one alias record, whose unchecked value ends in a line of its own. */
  function Nested(zone: string, alias: DnsRecord, r: DnsRecord): DnsZoneSpec {
    DnsZoneSpec(zone, [alias.(value := alias.value + ("\n" + RecordLine(r)))], DEFAULT_SOA)
  }

  /** It is written as the zone with two records is. */
  lemma NestedSameText(zone: string, alias: DnsRecord, r: DnsRecord)
    ensures RenderZone(Nested(zone, alias, r)) == RenderZone(DnsZoneSpec(zone, [alias, r], DEFAULT_SOA))
  {
    var y, w := Nested(zone, alias, r), DnsZoneSpec(zone, [alias, r], DEFAULT_SOA);
    RenderedText(y);
    RenderedText(w);
    NestedRecords(alias, r);
    SameHead(y, w, RecordsText(y.records));
  }

  lemma NestedRecords(alias: DnsRecord, r: DnsRecord)
    ensures RecordsText([alias.(value := alias.value + ("\n" + RecordLine(r)))]) == RecordsText([alias, r])
  {
    var nested := alias.(value := alias.value + ("\n" + RecordLine(r)));
    var tail := "\n" + RecordsText([]);
    RecordTextIsLine(r, tail);
    assert [alias, r][1..] == [r] && [r][1..] == [] && [nested][1..] == [];
    assert RecordsText([r]) == RecordText(r, tail);
    assert nested.value + tail == alias.value + ("\n" + (RecordLine(r) + tail));
  }

  lemma SameHead(a: DnsZoneSpec, b: DnsZoneSpec, rest: string)
    requires a.zone == b.zone && a.soaEmail == b.soaEmail
    ensures HeadText(a, rest) == HeadText(b, rest)
  {
  }

  /** Both zones are valid, for the value of an alias is not checked. */
  lemma NestedIsValid(zone: string, ip: string, isIp: string -> bool)
    requires ValidZoneName(zone) && isIp(ip)
    ensures Valid(Nested(zone, Alias("x"), Host(ip)), isIp)
    ensures FirstAddress(Nested(zone, Alias("x"), Host(ip)).records, "b") == None
  {
  }

  function Alias(value: string): DnsRecord { DnsRecord("a", CNAME, value, 300) }

  function Host(ip: string): DnsRecord { DnsRecord("b", A, ip, 300) }

  lemma AliasAndHostPrintable(zone: string, ip: string, isIp: string -> bool)
    requires ValidZoneName(zone) && NoSpace(zone) && isIp(ip) && NoSpace(ip) && ip != ""
    ensures Printable(DnsZoneSpec(zone, [Alias("x"), Host(ip)], DEFAULT_SOA), isIp)
    ensures FirstAddress([Alias("x"), Host(ip)], "b") == Some(ip)
  {
    PlainAliasAndHost(ip, isIp);
    assert [Alias("x"), Host(ip)][1..] == [Host(ip)];
    SoaOnOneLine();
  }

  lemma PlainAliasAndHost(ip: string, isIp: string -> bool)
    requires isIp(ip) && NoSpace(ip) && ip != ""
    ensures PlainRecord(Alias("x")) && ValidRecord(Alias("x"), isIp)
    ensures PlainRecord(Host(ip)) && ValidRecord(Host(ip), isIp)
  {
  }

  lemma SoaOnOneLine()
    ensures '\n' !in DEFAULT_SOA
  {
  }

  /** So rendering is not injective on valid zones, and the file may resolve a name that the
      zone does not have. */
  lemma AliasValueIsNotOneRecord(zone: string, ip: string, isIp: string -> bool)
    requires ValidZoneName(zone) && NoSpace(zone) && isIp(ip) && NoSpace(ip) && ip != ""
    ensures var y := Nested(zone, Alias("x"), Host(ip));
      var w := DnsZoneSpec(zone, [Alias("x"), Host(ip)], DEFAULT_SOA);
      && Valid(y, isIp) && Valid(w, isIp) && y != w && RenderZone(y) == RenderZone(w)
      && FirstAddress(y.records, "b") == None && Lookup(ParseZone(RenderZone(y), isIp), "b") == Ok(Some(ip))
  {
    var y, w := Nested(zone, Alias("x"), Host(ip)), DnsZoneSpec(zone, [Alias("x"), Host(ip)], DEFAULT_SOA);
    assert |y.records| == 1 && |w.records| == 2;
    NestedIsValid(zone, ip, isIp);
    AliasAndHostPrintable(zone, ip, isIp);
    SameLookup(y, w, "b", isIp) by { NestedSameText(zone, Alias("x"), Host(ip)); }
  }

  lemma SameLookup(y: DnsZoneSpec, w: DnsZoneSpec, name: string, isIp: string -> bool)
    requires Printable(w, isIp) && RenderZone(y) == RenderZone(w)
    ensures Lookup(ParseZone(RenderZone(y), isIp), name) == Ok(FirstAddress(w.records, name))
    ensures Valid(w, isIp) && RenderZone(y) == RenderZone(w)
  {
    PlainReadsTrue(w, isIp);
    assert Lookup(Files(isIp).parse(Files(isIp).render(w)), name) == Ok(FirstAddress(w.records, name));
  }

  // ---- Listings ---------------------------------------------------------------------------------

  /** No file without its zone. */
  ghost predicate NoStray(files: map<string, string>, zones: map<string, DnsZoneSpec>) {
    forall f | f in files :: HasZone(zones, f)
  }

  ghost predicate HasZone(zones: map<string, DnsZoneSpec>, f: string) {
    exists n :: n in zones && FileName(n) == f
  }

  lemma StepNoStray(files: map<string, string>, zones: map<string, DnsZoneSpec>, op: Op, c: Codec)
    requires NoStray(files, zones)
    ensures NoStray(FileOp(files, op, c).1, FakeOp(zones, op).1)
  {
    var fs, zs := FileOp(files, op, c).1, FakeOp(zones, op).1;
    forall f | f in fs ensures HasZone(zs, f) {
      if op.ApplyOp? && f == FileName(op.spec.zone) {
        assert Get(zs, op.spec.zone) == Some(op.spec);
      } else {
        assert Get(fs, f) == Get(files, f);
        var n :| n in zones && FileName(n) == f;
        assert Get(zs, n) == Get(zones, n);
      }
    }
  }

  lemma {:induction false} RunsNoStray(ops: seq<Op>, c: Codec)
    ensures NoStray(FileRun(ops, c).1, FakeRun(ops).1)
  {
    if ops == [] {
    } else {
      var n := |ops| - 1;
      RunsNoStray(ops[..n], c);
      StepNoStray(FileRun(ops[..n], c).1, FakeRun(ops[..n]).1, ops[n], c);
    }
  }

  /** What reading back makes of a stored zone. */
  function ReadBack(z: DnsZoneSpec): DnsZoneSpec { z.(soaEmail := DEFAULT_SOA) }

  /** What a file reads as is the dictionary's entry for it. */
  ghost predicate Holds(zones: map<string, DnsZoneSpec>, f: string, p: Parsed) {
    && p.Zone? && p.spec.zone in zones
    && p.spec == ReadBack(zones[p.spec.zone]) && FileName(p.spec.zone) == f
  }

  /** A zone's text reads back as the zone, but for the SOA address. */
  ghost predicate ReadsBack(z: DnsZoneSpec, c: Codec) {
    c.parse(c.render(z)) == Zone(ReadBack(z))
  }

  lemma FileHolds(files: map<string, string>, zones: map<string, DnsZoneSpec>, names: set<string>,
                  specs: iset<DnsZoneSpec>, f: string, c: Codec)
    requires Agree(files, zones, names, specs, c) && HasZone(zones, f) && f in files
    requires forall z | z in specs :: ReadsBack(z, c)
    ensures Holds(zones, f, c.parse(files[f]))
  {
    var n :| n in zones && FileName(n) == f;
    assert Get(files, FileName(n)) == FileText(zones, n, c);
    assert ReadsBack(zones[n], c);
  }

  lemma {:induction false} ReadsEach(ks: seq<string>, files: map<string, string>, zones: map<string, DnsZoneSpec>,
                                     parse: string -> Parsed)
    requires forall f | f in files :: Holds(zones, f, parse(files[f]))
    requires forall k | k in ks :: k in files
    ensures var r := ReadFiles(ks, files, parse);
      && r.Ok? && |r.value| == |ks|
      && forall i | 0 <= i < |ks| :: Holds(zones, ks[i], Zone(r.value[i]))
  {
    if ks == [] {
    } else {
      var n := |ks| - 1;
      ReadsEach(ks[..n], files, zones, parse);
      assert Holds(zones, ks[n], parse(files[ks[n]]));
    }
  }

  /** `zs` are the dictionary's zones, each once, in file order, as reading back leaves them. */
  ghost predicate ListsZones(zs: seq<DnsZoneSpec>, zones: map<string, DnsZoneSpec>) {
    && |zs| == |zones|
    && (forall z | z in zs :: z.zone in zones && z == ReadBack(zones[z.zone]))
    && (forall n | n in zones :: ReadBack(zones[n]) in zs)
    && forall i, j | 0 <= i < j < |zs| ::
         FileName(zs[i].zone) != FileName(zs[j].zone) && Ordering.StrLeq(FileName(zs[i].zone), FileName(zs[j].zone))
  }

  lemma ListsAll(ks: seq<string>, zs: seq<DnsZoneSpec>, files: map<string, string>, zones: map<string, DnsZoneSpec>)
    requires Lists(ks, files) && Ordering.Sorted(O.ByName(Self), ks) && |zs| == |ks|
    requires forall i | 0 <= i < |ks| :: Holds(zones, ks[i], Zone(zs[i]))
    requires forall n | n in zones :: zones[n].zone == n && FileName(n) in files
    requires Separable(zones.Keys)
    ensures ListsZones(zs, zones)
  {
    forall i, j | 0 <= i < j < |zs|
      ensures FileName(zs[i].zone) != FileName(zs[j].zone)
      ensures Ordering.StrLeq(FileName(zs[i].zone), FileName(zs[j].zone))
    {
      InFileOrder(ks, i, j);
      assert Holds(zones, ks[i], Zone(zs[i])) && Holds(zones, ks[j], Zone(zs[j]));
    }
    forall n | n in zones ensures ReadBack(zones[n]) in zs {
      assert FileName(n) in ks;
      var i :| 0 <= i < |ks| && ks[i] == FileName(n);
      Located(ks[i], zs[i], zones, n);
    }
    ListedAreStored(ks, zs, zones);
    OneForEach(zs, zones);
  }

  lemma InFileOrder(ks: seq<string>, i: nat, j: nat)
    requires Ordering.Sorted(O.ByName(Self), ks) && i < j < |ks|
    ensures Ordering.StrLeq(ks[i], ks[j])
  {
    assert O.ByName(Self)(ks[i], ks[j]) == Ordering.StrLeq(Self(ks[i]), Self(ks[j]));
  }

  lemma Located(f: string, z: DnsZoneSpec, zones: map<string, DnsZoneSpec>, n: string)
    requires Holds(zones, f, Zone(z)) && n in zones && f == FileName(n) && Separable(zones.Keys)
    ensures z == ReadBack(zones[n])
  {
    SameFileIff(z.zone, n);
  }

  lemma ListedAreStored(ks: seq<string>, zs: seq<DnsZoneSpec>, zones: map<string, DnsZoneSpec>)
    requires |zs| == |ks| && forall i | 0 <= i < |ks| :: Holds(zones, ks[i], Zone(zs[i]))
    ensures forall z | z in zs :: z.zone in zones && z == ReadBack(zones[z.zone])
  {
    forall z | z in zs ensures z.zone in zones && z == ReadBack(zones[z.zone]) {
      var i :| 0 <= i < |zs| && zs[i] == z;
      assert Holds(zones, ks[i], Zone(zs[i]));
    }
  }

  lemma ZonesOwnFiles(names: set<string>, specs: iset<DnsZoneSpec>, zones: map<string, DnsZoneSpec>)
    requires OwnFiles(names, specs) && forall n | n in zones :: n in names && zones[n].zone == n && zones[n] in specs
    ensures Separable(zones.Keys)
  {
    forall a, b | a in zones.Keys && b in zones.Keys && StripDots(a) == StripDots(b) ensures a == b {
      assert zones[a] in specs && b in names;
    }
  }

  /** After a run over faithful zones that read back, a listing succeeds and gives exactly the
      dictionary's zones, each once, with the default SOA address, in the order of their files. */
  lemma ListingAgrees(ops: seq<Op>, names: set<string>, specs: iset<DnsZoneSpec>, c: Codec,
                      r: Result<seq<DnsZoneSpec>, ()>)
    requires Faithful(names, specs, c) && Over(ops, names, specs) && forall z | z in specs :: ReadsBack(z, c)
    requires IsListing(r, FileRun(ops, c).1, c.parse)
    ensures r.Ok? && ListsZones(r.value, FakeRun(ops).1)
  {
    var files, zones := FileRun(ops, c).1, FakeRun(ops).1;
    RunsAgree(ops, names, specs, c);
    RunsNoStray(ops, c);
    forall f | f in files ensures Holds(zones, f, c.parse(files[f])) {
      FileHolds(files, zones, names, specs, f, c);
    }
    forall n | n in zones ensures zones[n].zone == n && FileName(n) in files {
      assert Get(files, FileName(n)) == FileText(zones, n, c);
    }
    ZonesOwnFiles(names, specs, zones);
    var ks :| IsListingOf(ks, r, files, c.parse);
    ReadsEach(ks, files, zones, c.parse);
    ListsAll(ks, r.value, files, zones);
  }

  lemma OneFile(f: string, text: string, parse: string -> Parsed)
    ensures ReadFiles([f], map[f := text], parse) ==
      match parse(text) { case Raised => Err(()) case NotOurs => Ok([]) case Zone(spec) => Ok([spec]) }
  {
    var none: seq<DnsZoneSpec> := [];
    assert [f][..0] == [] && ReadFiles([], map[f := text], parse) == Ok(none);
    if parse(text).Zone? { assert none + [parse(text).spec] == [parse(text).spec]; }
  }

  lemma OneKey(f: string, text: string)
    ensures Lists([f], map[f := text]) && Ordering.Sorted(O.ByName(Self), [f])
  {
  }

  lemma OneZone(zs: seq<DnsZoneSpec>, z: DnsZoneSpec)
    requires ListsZones(zs, map[z.zone := z])
    ensures ReadBack(z) in zs
  {
    assert map[z.zone := z][z.zone] == z;
  }

  /** A listing right after one application shows whether the zone reads back. */
  lemma OneListing(z: DnsZoneSpec, c: Codec) returns (r: Result<seq<DnsZoneSpec>, ()>)
    ensures IsListing(r, FileRun([ApplyOp(z)], c).1, c.parse)
    ensures r.Ok? && ListsZones(r.value, FakeRun([ApplyOp(z)]).1) ==> ReadsBack(z, c)
  {
    var f, text := FileName(z.zone), c.render(z);
    OneOp(ApplyOp(z), c);
    OneFile(f, text, c.parse);
    OneKey(f, text);
    r := ReadFiles([f], map[f := text], c.parse);
    assert IsListingOf([f], r, map[f := text], c.parse);
    if r.Ok? && ListsZones(r.value, map[z.zone := z]) { OneZone(r.value, z); }
  }

  /** Listings agree on all runs over faithful zones if and only if every zone reads back. */
  lemma ListingAgreesIff(names: set<string>, specs: iset<DnsZoneSpec>, c: Codec)
    requires Faithful(names, specs, c) && Named(names, specs)
    ensures (forall z | z in specs :: ReadsBack(z, c)) <==>
            forall ops, r | Over(ops, names, specs) && IsListing(r, FileRun(ops, c).1, c.parse) ::
              r.Ok? && ListsZones(r.value, FakeRun(ops).1)
  {
    if forall z | z in specs :: ReadsBack(z, c) {
      forall ops, r | Over(ops, names, specs) && IsListing(r, FileRun(ops, c).1, c.parse)
        ensures r.Ok? && ListsZones(r.value, FakeRun(ops).1)
      {
        ListingAgrees(ops, names, specs, c, r);
      }
    } else {
      var z :| z in specs && !ReadsBack(z, c);
      var _ := OneListing(z, c);
      assert Over([ApplyOp(z)], names, specs);
    }
  }

  /** A list of distinct zones that are those of the dictionary is as long as the dictionary. */
  lemma OneForEach(zs: seq<DnsZoneSpec>, zones: map<string, DnsZoneSpec>)
    requires forall i, j | 0 <= i < j < |zs| :: FileName(zs[i].zone) != FileName(zs[j].zone)
    requires forall z | z in zs :: z.zone in zones
    requires forall n | n in zones :: zones[n].zone == n && ReadBack(zones[n]) in zs
    ensures |zs| == |zones|
  {
    var ns := set i | 0 <= i < |zs| :: zs[i].zone;
    forall n | n in zones ensures n in ns {
      var i :| 0 <= i < |zs| && zs[i] == ReadBack(zones[n]);
      assert zs[i].zone == n;
    }
    assert ns == zones.Keys;
    CountZones(zs, ns);
  }

  lemma {:induction false} CountZones(zs: seq<DnsZoneSpec>, ns: set<string>)
    requires forall i, j | 0 <= i < j < |zs| :: FileName(zs[i].zone) != FileName(zs[j].zone)
    requires ns == set i | 0 <= i < |zs| :: zs[i].zone
    ensures |ns| == |zs|
  {
    if zs == [] {
    } else {
      var k := |zs| - 1;
      var before := set i | 0 <= i < k :: zs[..k][i].zone;
      CountZones(zs[..k], before);
      assert zs[k].zone !in before;
      assert ns == before + {zs[k].zone};
    }
  }
}
