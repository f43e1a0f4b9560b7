/** The CoreDNS adapter over a directory of zone files: what it reads back is what it wrote,
    and it answers like the plain dictionary store. */
module CorednsDns {
  import opened Common
  import opened EdgeServices
  import opened DnsZone
  import Ordering
  import Text
  import O = OvsState

  // ---- Round trip ---------------------------------------------------------------------

  /** What a printed record may contain and still be read back. */
  predicate PlainRecord(r: DnsRecord) {
    NoSpace(r.name) && NoSpace(r.value) && r.value != "" && r.ttlSeconds >= 0
  }

  predicate Plain(z: DnsZoneSpec) {
    NoSpace(z.zone) && forall i | 0 <= i < |z.records| :: PlainRecord(z.records[i])
  }

  /** What the value objects guarantee when they are built. */
  predicate Valid(z: DnsZoneSpec, isIp: string -> bool) {
    ValidZoneName(z.zone) && forall i | 0 <= i < |z.records| :: ValidRecord(z.records[i], isIp)
  }

  function Raw(r: DnsRecord): RawRecord {
    RawRecord(r.name, Text.Str(r.ttlSeconds), TypeName(r.rtype), r.value)
  }

  lemma FirstReadBack(r: DnsRecord, rest: string)
    requires PlainRecord(r) && r.name != ""
    ensures FindAll(RecordText(r, "\n" + rest), true) == [Raw(r)] + FindAll(rest, true)
  {
    MatchesItsLine(r.name, Text.Str(r.ttlSeconds), TypeName(r.rtype), r.value, "\n" + rest);
    SkipToNewline("", rest);
    assert "" + ("\n" + rest) == "\n" + rest;
  }

  lemma {:induction false} RecordsReadBack(rs: seq<DnsRecord>)
    requires forall i | 0 <= i < |rs| :: PlainRecord(rs[i]) && rs[i].name != ""
    ensures var found := FindAll(RecordsText(rs), true);
            |found| == |rs| && forall i | 0 <= i < |rs| :: found[i] == Raw(rs[i])
  {
    if rs == [] {
    } else {
      FirstReadBack(rs[0], RecordsText(rs[1..]));
      RecordsReadBack(rs[1..]);
    }
  }

  lemma RecordReadBack(r: DnsRecord)
    requires PlainRecord(r)
    ensures RecordOf(Raw(r)) == r
  {
    Text.DecimalRoundTrip(r.ttlSeconds);
  }

  lemma MatchesHeader(zone: string, t: string)
    requires NoSpace(zone) && zone != ""
    ensures MatchHeader(HEADER + (zone + ("\n" + t))) == Some(zone)
  {
    var u := "\n" + t;
    var s := HEADER + (zone + u);
    assert s[|HEADER|..] == zone + u;
    WordIs(zone, u);
    assert s[|HEADER| + |zone|..] == u;
    assert IsSpace('\n') && Spaces(u)[0] == '\n';
  }

  lemma HeaderReadBack(z: DnsZoneSpec, rest: string)
    requires NoSpace(z.zone) && z.zone != ""
    ensures FindHeader(HeadText(z, rest), true) == Some(z.zone)
  {
    MatchesHeader(z.zone, FromOrigin(z, rest));
  }

  /** Parsing a rendered zone gives back its name and its records, in order; the SOA address
      alone is replaced by the default. */
  lemma RoundTrip(z: DnsZoneSpec, isIp: string -> bool)
    requires Valid(z, isIp) && Plain(z) && '\n' !in z.soaEmail
    ensures ParseZone(RenderZone(z), isIp) == Zone(z.(soaEmail := DEFAULT_SOA))
  {
    RenderedText(z);
    HeaderReadBack(z, RecordsText(z.records));
    SkipHead(z, RecordsText(z.records));
    RecordsReadBack(z.records);
    RecordsRebuilt(FindAll(RenderZone(z), true), z.records);
  }

  /** What the value objects refuse: a slash in a record's name, an address that is none, a zone
      name that ends in two dots. */
  ghost predicate Refused(z: DnsZoneSpec, isIp: string -> bool) {
    || (exists i :: 0 <= i < |z.records| && RefusedRecord(z.records[i], isIp))
    || (|z.zone| >= 2 && z.zone[|z.zone| - 2] == '.' && z.zone[|z.zone| - 1] == '.')
  }

  predicate RefusedRecord(r: DnsRecord, isIp: string -> bool) {
    '/' in r.name || ((r.rtype == A || r.rtype == AAAA) && !isIp(r.value))
  }

  /** The other way round: a file that says something refused is not read at all, not even in
      part, and a lookup in it raises. */
  lemma RefusedFileRaises(z: DnsZoneSpec, isIp: string -> bool, name: string)
    requires Plain(z) && z.zone != "" && '\n' !in z.soaEmail
    requires forall k | 0 <= k < |z.records| :: z.records[k].name != ""
    requires Refused(z, isIp)
    ensures ParseZone(RenderZone(z), isIp) == Raised
    ensures Lookup(ParseZone(RenderZone(z), isIp), name) == Err(())
  {
    var text := RenderZone(z);
    assert FindHeader(text, true) == Some(z.zone) && FindAll(text, true) == FindAll(RecordsText(z.records), true) by {
      RenderedText(z);
      HeaderReadBack(z, RecordsText(z.records));
      SkipHead(z, RecordsText(z.records));
    }
    RecordsReadBack(z.records);
    RecordsRebuilt(FindAll(text, true), z.records);
    RaisedFrom(text, z, isIp);
  }

  lemma RaisedFrom(text: string, z: DnsZoneSpec, isIp: string -> bool)
    requires FindHeader(text, true) == Some(z.zone) && RecordsOf(FindAll(text, true)) == z.records
    requires Refused(z, isIp)
    ensures ParseZone(text, isIp) == Raised
  {
    if i :| 0 <= i < |z.records| && RefusedRecord(z.records[i], isIp) {
      assert !ValidRecord(z.records[i], isIp);
    }
  }

  lemma RecordsRebuilt(found: seq<RawRecord>, rs: seq<DnsRecord>)
    requires |found| == |rs| && forall i | 0 <= i < |rs| :: PlainRecord(rs[i]) && found[i] == Raw(rs[i])
    ensures RecordsOf(found) == rs
  {
    forall i | 0 <= i < |rs| ensures RecordsOf(found)[i] == rs[i] { RecordReadBack(rs[i]); }
  }

  // ---- Nothing else can be read back ----------------------------------------------------

  ghost predicate GoodRaw(r: RawRecord) {
    && NoSpace(r.name) && NoSpace(r.value) && r.value != ""
    && forall c | c in r.ttl :: Text.IsDigit(c)
  }

  lemma MatchedIsGood(s: string)
    ensures MatchRecord(s).Some? ==> GoodRaw(MatchRecord(s).value.0)
  {
  }

  lemma {:induction false} FoundAreGood(s: string, lineStart: bool)
    ensures forall i | 0 <= i < |FindAll(s, lineStart)| :: GoodRaw(FindAll(s, lineStart)[i])
    decreases |s|
  {
    if s == "" {
    } else {
      MatchShrinks(s);
      if lineStart && MatchRecord(s).Some? {
        MatchedIsGood(s);
        FoundAreGood(MatchRecord(s).value.1, false);
      } else {
        FoundAreGood(s[1..], s[0] == '\n');
      }
    }
  }

  lemma {:induction false} HeaderHasNoSpace(s: string, lineStart: bool)
    ensures FindHeader(s, lineStart).Some? ==> NoSpace(FindHeader(s, lineStart).value)
  {
    if s == "" {
    } else {
      HeaderHasNoSpace(s[1..], s[0] == '\n');
    }
  }

  /** Whatever a file says, what is read from it is plain. */
  lemma ParsedIsPlain(text: string, isIp: string -> bool)
    ensures ParseZone(text, isIp).Zone? ==> Plain(ParseZone(text, isIp).spec)
  {
    HeaderHasNoSpace(text, true);
    FoundAreGood(text, true);
  }

  /** A valid zone whose SOA address stays on its line survives a round trip exactly when it is plain:
      no space in its name, and in every record no space, a value, and no negative TTL. */
  lemma RoundTripIff(z: DnsZoneSpec, isIp: string -> bool)
    requires Valid(z, isIp) && '\n' !in z.soaEmail
    ensures ParseZone(RenderZone(z), isIp) == Zone(z.(soaEmail := DEFAULT_SOA)) <==> Plain(z)
  {
    if Plain(z) { RoundTrip(z, isIp); }
    ParsedIsPlain(RenderZone(z), isIp);
  }

  // ---- Rendering is injective --------------------------------------------------------------

  lemma CancelLeft(p: string, x: string, y: string)
    requires p + x == p + y
    ensures x == y
  {
    assert x == (p + x)[|p|..] && y == (p + y)[|p|..];
  }

  lemma CancelRight(x: string, y: string, t: string)
    requires x + t == y + t
    ensures x == y
  {
    assert |x| == |y|;
    assert x == (x + t)[..|x|] && y == (y + t)[..|y|];
  }

  /** With the same name and the same rest, the text determines the SOA address. */
  lemma SoaDetermined(a: DnsZoneSpec, b: DnsZoneSpec, rest: string)
    requires a.zone == b.zone && HeadText(a, rest) == HeadText(b, rest)
    ensures a.soaEmail == b.soaEmail
  {
    CancelLeft(HEADER, a.zone + ("\n" + FromOrigin(a, rest)), b.zone + ("\n" + FromOrigin(b, rest)));
    CancelLeft(a.zone, "\n" + FromOrigin(a, rest), "\n" + FromOrigin(b, rest));
    CancelLeft("\n", FromOrigin(a, rest), FromOrigin(b, rest));
    var f := Fqdn(a.zone);
    CancelLeft("$ORIGIN", " " + (f + ("\n" + FromTtl(a, rest))), " " + (f + ("\n" + FromTtl(b, rest))));
    CancelLeft(" ", f + ("\n" + FromTtl(a, rest)), f + ("\n" + FromTtl(b, rest)));
    CancelLeft(f, "\n" + FromTtl(a, rest), "\n" + FromTtl(b, rest));
    CancelLeft("\n", FromTtl(a, rest), FromTtl(b, rest));
    SoaFromTtl(a, b, rest);
  }

  lemma SoaFromTtl(a: DnsZoneSpec, b: DnsZoneSpec, rest: string)
    requires a.zone == b.zone && FromTtl(a, rest) == FromTtl(b, rest)
    ensures a.soaEmail == b.soaEmail
  {
    CancelLeft("$TTL", " " + ("300" + ("\n" + FromSoa(a, rest))), " " + ("300" + ("\n" + FromSoa(b, rest))));
    CancelLeft(" ", "300" + ("\n" + FromSoa(a, rest)), "300" + ("\n" + FromSoa(b, rest)));
    CancelLeft("300", "\n" + FromSoa(a, rest), "\n" + FromSoa(b, rest));
    CancelLeft("\n", FromSoa(a, rest), FromSoa(b, rest));
    CancelRight(SoaLine(a), SoaLine(b), "\n" + FromTimers(a, rest));
    SoaFromLine(a, b);
  }

  lemma SoaFromLine(a: DnsZoneSpec, b: DnsZoneSpec)
    requires a.zone == b.zone && SoaLine(a) == SoaLine(b)
    ensures a.soaEmail == b.soaEmail
  {
    var f := Fqdn(a.zone);
    var x, y := a.soaEmail + " ( 1 ; serial", b.soaEmail + " ( 1 ; serial";
    CancelLeft("@", " " + ("IN SOA ns1." + (f + (" " + x))), " " + ("IN SOA ns1." + (f + (" " + y))));
    CancelLeft(" ", "IN SOA ns1." + (f + (" " + x)), "IN SOA ns1." + (f + (" " + y)));
    CancelLeft("IN SOA ns1.", f + (" " + x), f + (" " + y));
    CancelLeft(f, " " + x, " " + y);
    CancelLeft(" ", x, y);
    CancelRight(a.soaEmail, b.soaEmail, " ( 1 ; serial");
  }

  predicate Printable(z: DnsZoneSpec, isIp: string -> bool) {
    Valid(z, isIp) && Plain(z) && '\n' !in z.soaEmail
  }

  /** Different zones are written differently. */
  lemma RenderIsInjective(a: DnsZoneSpec, b: DnsZoneSpec, isIp: string -> bool)
    requires Printable(a, isIp) && Printable(b, isIp) && RenderZone(a) == RenderZone(b)
    ensures a == b
  {
    RoundTrip(a, isIp);
    RoundTrip(b, isIp);
    assert a.(soaEmail := DEFAULT_SOA) == b.(soaEmail := DEFAULT_SOA);
    RenderedText(a);
    RenderedText(b);
    SoaDetermined(a, b, RecordsText(a.records));
  }

  // ---- The adapter -----------------------------------------------------------------------

  function StripDots(zone: string): string {
    if zone != "" && zone[|zone| - 1] == '.' then StripDots(zone[..|zone| - 1]) else zone
  }

  /** `_zone_filename`: trailing dots are dropped, so some names share a file. */
  function FileName(zone: string): string { "db." + StripDots(zone) }

  /** A file is named after its zone: `db.` and the name without the dots at its end. */
  lemma {:induction false} FileIsNamedAfter(zone: string)
    ensures FileName(zone)[..3] == "db." && FileName(zone)[3..] == StripDots(zone) <= zone
    ensures StripDots(zone) != "" ==> StripDots(zone)[|StripDots(zone)| - 1] != '.'
    ensures forall i | |StripDots(zone)| <= i < |zone| :: zone[i] == '.'
  {
    if zone == "" || zone[|zone| - 1] != '.' {
    } else {
      FileIsNamedAfter(zone[..|zone| - 1]);
    }
  }

  lemma SameFileIff(a: string, b: string)
    ensures FileName(a) == FileName(b) <==> StripDots(a) == StripDots(b)
  {
    if FileName(a) == FileName(b) { CancelLeft("db.", StripDots(a), StripDots(b)); }
  }

  function Resolve(p: Parsed, name: string): Option<string> {
    if p.Zone? then FirstAddress(p.spec.records, name) else None
  }

  /** What a lookup answers from a parsed file; Err: a value object refused the content. */
  function Lookup(p: Parsed, name: string): Result<Option<string>, ()> {
    if p.Raised? then Err(()) else Ok(Resolve(p, name))
  }

  function Self(s: string): string { s }

  /** The reader as a function on texts. */
  function Reader(isIp: string -> bool): string -> Parsed { (text: string) => ParseZone(text, isIp) }

  /** The zones read from the files `ks`, in that order; files without a header are skipped. */
  function ReadFiles(ks: seq<string>, files: map<string, string>, parse: string -> Parsed): Result<seq<DnsZoneSpec>, ()>
    requires forall k | k in ks :: k in files
  {
    if ks == [] then Ok([])
    else
      var n := |ks| - 1;
      match ReadFiles(ks[..n], files, parse)
      case Err(_) => Err(())
      case Ok(zs) =>
        match parse(files[ks[n]])
        case Raised => Err(())
        case NotOurs => Ok(zs)
        case Zone(spec) => Ok(zs + [spec])
  }

  lemma {:induction false} ErrStays(ks: seq<string>, files: map<string, string>, parse: string -> Parsed, i: nat)
    requires (forall k | k in ks :: k in files) && i < |ks| && parse(files[ks[i]]).Raised?
    ensures ReadFiles(ks, files, parse) == Err(())
  {
    var n := |ks| - 1;
    if i < n { ErrStays(ks[..n], files, parse, i); }
  }

  /** The result of reading the whole directory in the order of its file names. */
  ghost predicate IsListing(r: Result<seq<DnsZoneSpec>, ()>, files: map<string, string>, parse: string -> Parsed) {
    exists ks :: IsListingOf(ks, r, files, parse)
  }

  ghost predicate IsListingOf(ks: seq<string>, r: Result<seq<DnsZoneSpec>, ()>, files: map<string, string>,
                              parse: string -> Parsed) {
    Lists(ks, files) && Ordering.Sorted(O.ByName(Self), ks) && r == ReadFiles(ks, files, parse)
  }

  method ReadInOrder(ks: seq<string>, files: map<string, string>, parse: string -> Parsed)
    returns (r: Result<seq<DnsZoneSpec>, ()>)
    requires forall k | k in ks :: k in files
    ensures r == ReadFiles(ks, files, parse)
  {
    var zones: seq<DnsZoneSpec> := [];
    for i := 0 to |ks|
      invariant ReadFiles(ks[..i], files, parse) == Ok(zones)
    {
      assert ks[..i + 1][..i] == ks[..i] && ks[i] in ks;
      match parse(files[ks[i]]) {
        case Raised =>
          ErrStays(ks, files, parse, i);
          return Err(());
        case NotOurs =>
        case Zone(spec) => zones := zones + [spec];
      }
    }
    assert ks[..|ks|] == ks;
    r := Ok(zones);
  }

  method SortedKeys(files: map<string, string>) returns (ks: seq<string>)
    ensures Lists(ks, files) && Ordering.Sorted(O.ByName(Self), ks)
  {
    var names := Keys(files);
    ks := Ordering.Sort(O.ByName(Self), names);
    O.SortByName(names, Self);
    assert forall i, j | 0 <= i < j < |ks| :: Self(ks[i]) != Self(ks[j]);
  }

  method Render(zone: DnsZoneSpec) returns (text: string)
    ensures text == RenderZone(zone)
  {
    var lines := HeadLines(zone);
    for i := 0 to |zone.records|
      invariant lines == HeadLines(zone) + RecordLines(zone.records[..i])
    {
      assert zone.records[..i + 1][..i] == zone.records[..i];
      lines := lines + [RecordLine(zone.records[i])];
    }
    assert zone.records[..|zone.records|] == zone.records;
    text := Join(lines) + "\n";
  }

  method Parse(text: string, isIp: string -> bool) returns (p: Parsed)
    ensures p == ParseZone(text, isIp)
  {
    var header := FindHeader(text, true);
    if header.None? { return NotOurs; }
    var found := FindAll(text, true);
    var records: seq<DnsRecord> := [];
    for i := 0 to |found|
      invariant records == RecordsOf(found)[..i]
      invariant forall j | 0 <= j < i :: ValidRecord(RecordsOf(found)[j], isIp)
    {
      var record := RecordOf(found[i]);
      if !ValidRecord(record, isIp) {
        assert !ValidRecord(RecordsOf(found)[i], isIp);
        return Raised;
      }
      records := records + [record];
    }
    assert records == RecordsOf(found);
    if !ValidZoneName(header.value) { return Raised; }
    p := Zone(DnsZoneSpec(header.value, records, DEFAULT_SOA));
  }

  class CorednsDns {
    var files: map<string, string>
    const isIp: string -> bool

    constructor (isIp: string -> bool)
      ensures files == map[] && this.isIp == isIp
    {
      files := map[];
      this.isIp := isIp;
    }

    method Apply(zone: DnsZoneSpec) returns (changed: bool)
      modifies this
      ensures (changed, files) == Put(old(files), FileName(zone.zone), RenderZone(zone))
    {
      var rendered := Render(zone);
      var target := FileName(zone.zone);
      var existing := Get(files, target);
      if existing == Some(rendered) { return false; }
      files := files[target := rendered];
      return true;
    }

    method Delete(zone: string) returns (changed: bool)
      modifies this
      ensures (changed, files) == Pop(old(files), FileName(zone))
    {
      var target := FileName(zone);
      if target !in files {
        assert Drop(files, target) == files;
        return false;
      }
      files := Drop(files, target);
      return true;
    }

    method ListZones() returns (r: Result<seq<DnsZoneSpec>, ()>)
      ensures IsListing(r, files, Reader(isIp))
    {
      var ks := SortedKeys(files);
      r := ReadInOrder(ks, files, Reader(isIp));
      assert IsListingOf(ks, r, files, Reader(isIp));
    }

    /** Err: a value object refused the file's content. */
    method ResolveCheck(zone: string, name: string) returns (answer: Result<Option<string>, ()>)
      ensures var text := Get(files, FileName(zone));
              answer == if text.None? then Ok(None) else Lookup(ParseZone(text.value, isIp), name)
    {
      var path := FileName(zone);
      if path !in files { return Ok(None); }
      var parsed := Parse(files[path], isIp);
      match parsed {
        case Raised => return Err(());
        case NotOurs => return Ok(None);
        case Zone(spec) =>
          for i := 0 to |spec.records|
            invariant FirstAddress(spec.records, name) == FirstAddress(spec.records[i..], name)
          {
            if spec.records[i].name == name && spec.records[i].rtype in {A, AAAA} {
              return Ok(Some(spec.records[i].value));
            }
            assert spec.records[i..][1..] == spec.records[i + 1..];
          }
          return Ok(None);
      }
    }
  }
}
