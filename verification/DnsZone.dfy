/** CoreDNS zone files: the text written for a zone, and the two regular expressions that
    read it back, as functions on text. */
module DnsZone {
  import opened Common
  import opened EdgeServices
  import Text

  // ---- Characters and runs ------------------------------------------------------------

  /** What `\s` matches in a Python string. */
  predicate IsSpace(c: char) {
    || '\t' <= c <= '\r' || c == ' ' || '\U{1c}' <= c <= '\U{1f}' || c == '\U{85}' || c == '\U{a0}'
    || c == '\U{1680}' || '\U{2000}' <= c <= '\U{200a}' || c == '\U{2028}' || c == '\U{2029}'
    || c == '\U{202f}' || c == '\U{205f}' || c == '\U{3000}'
  }

  predicate NoSpace(s: string) { forall c | c in s :: !IsSpace(c) }

  /** `\S+` or nothing: the longest run without space. */
  function Word(s: string): (w: string)
    ensures w <= s && NoSpace(w)
  {
    if s == "" || IsSpace(s[0]) then "" else [s[0]] + Word(s[1..])
  }

  /** `\d+` or nothing. */
  function Digits(s: string): (d: string)
    ensures d <= s && forall c | c in d :: Text.IsDigit(c)
  {
    if s == "" || !Text.IsDigit(s[0]) then "" else [s[0]] + Digits(s[1..])
  }

  /** `\s*` */
  function Spaces(s: string): (w: string)
    ensures w <= s
  {
    if s == "" || !IsSpace(s[0]) then "" else [s[0]] + Spaces(s[1..])
  }

  /** The text behind `\s+`, which must match. */
  function Gap(s: string): Option<string> {
    if Spaces(s) == "" then None else Some(s[|Spaces(s)|..])
  }

  // ---- Reading ------------------------------------------------------------------------

  datatype RawRecord = RawRecord(name: string, ttl: string, rtype: string, value: string)

  predicate IsTypeName(w: string) { w == "A" || w == "AAAA" || w == "CNAME" }

  /** The part of the record expression from IN on: type, value, and what follows. */
  function MatchData(s4: string): Option<(string, string, string)> {
    if !("IN" <= s4) then None else
    match Gap(s4[2..]) case None => None case Some(s6) =>
    var rtype := Word(s6);
    if !IsTypeName(rtype) then None else
    match Gap(s6[|rtype|..]) case None => None case Some(s8) =>
    var value := Word(s8);
    if value == "" then None else
    var rest := s8[|value|..];
    if rest == "" || rest[0] == '\n' then Some((rtype, value, rest)) else None
  }

  /** The record expression, matched at the head of s: the match and what follows it. Its
      tokens cannot shrink by backtracking, since each must be followed by a space or an end. */
  function MatchRecord(s: string): Option<(RawRecord, string)> {
    var name := Word(s);
    if name == "" then None else
    match Gap(s[|name|..]) case None => None case Some(s2) =>
    var ttl := Digits(s2);
    if ttl == "" then None else
    match Gap(s2[|ttl|..]) case None => None case Some(s4) =>
    match MatchData(s4) case None => None case Some(m) =>
    Some((RawRecord(name, ttl, m.0, m.1), m.2))
  }

  lemma MatchShrinks(s: string)
    ensures MatchRecord(s).Some? ==> |MatchRecord(s).value.1| < |s|
  {
  }

  /** `finditer`: matches may begin only at a line start, and never overlap. */
  function FindAll(s: string, lineStart: bool): seq<RawRecord>
    decreases |s|
  {
    if s == "" then []
    else
      MatchShrinks(s);
      if lineStart && MatchRecord(s).Some? then
        var m := MatchRecord(s).value;
        [m.0] + FindAll(m.1, false)
      else FindAll(s[1..], s[0] == '\n')
  }

  const MANAGED := "managed by sdn-controller; zone="

  const HEADER := ";" + (" " + MANAGED)

  /** The header expression at the head of s. */
  function MatchHeader(s: string): Option<string> {
    if !(HEADER <= s) then None
    else
      var zone := Word(s[|HEADER|..]);
      var after := s[|HEADER| + |zone|..];
      if zone != "" && (after == Spaces(after) || '\n' in Spaces(after)) then Some(zone) else None
  }

  /** `search` */
  function FindHeader(s: string, lineStart: bool): Option<string> {
    if s == "" then None
    else if lineStart && MatchHeader(s).Some? then MatchHeader(s)
    else FindHeader(s[1..], s[0] == '\n')
  }

  const DEFAULT_SOA := "hostmaster.invalid."

  // The checks of the value objects; isIp says which strings are addresses.
  predicate ValidRecord(r: DnsRecord, isIp: string -> bool) {
    && r.name != "" && '/' !in r.name && '\n' !in r.name
    && (r.rtype in {A, AAAA} ==> isIp(r.value))
  }

  predicate ValidZoneName(zone: string) {
    && zone != "" && ' ' !in zone
    && !(|zone| >= 2 && zone[|zone| - 2..] == "..")
  }

  function TypeOf(w: string): RecordType { if w == "A" then A else if w == "AAAA" then AAAA else CNAME }

  function TypeName(t: RecordType): string {
    match t case A => "A" case AAAA => "AAAA" case CNAME => "CNAME"
  }

  function RecordOf(r: RawRecord): DnsRecord {
    DnsRecord(r.name, TypeOf(r.rtype), r.value,
              if forall c | c in r.ttl :: Text.IsDigit(c) then Text.ReadDecimal(r.ttl) else 0)
  }

  function RecordsOf(rs: seq<RawRecord>): (r: seq<DnsRecord>)
    ensures |r| == |rs| && forall i | 0 <= i < |rs| :: r[i] == RecordOf(rs[i])
  {
    seq(|rs|, i requires 0 <= i < |rs| => RecordOf(rs[i]))
  }

  // NotOurs: no header. Raised: a value object refused what was read, which the reader does
  // not catch.
  datatype Parsed = NotOurs | Raised | Zone(spec: DnsZoneSpec)

  function ParseZone(text: string, isIp: string -> bool): Parsed {
    match FindHeader(text, true)
    case None => NotOurs
    case Some(zone) =>
      var records := RecordsOf(FindAll(text, true));
      if (exists i | 0 <= i < |records| :: !ValidRecord(records[i], isIp)) || !ValidZoneName(zone) then Raised
      else Zone(DnsZoneSpec(zone, records, DEFAULT_SOA))
  }

  // ---- Writing ------------------------------------------------------------------------

  function Fqdn(zone: string): string {
    if zone != "" && zone[|zone| - 1] == '.' then zone else zone + "."
  }

  /** The origin a zone file declares is absolute: the name, and a dot behind it if it has none. */
  lemma OriginIsAbsolute(zone: string)
    ensures var f := Fqdn(zone);
      && f != "" && f[|f| - 1] == '.' && zone <= f && |f| <= |zone| + 1
      && (|f| == |zone| <==> zone != "" && zone[|zone| - 1] == '.')
  {
  }

  /** The numbers of the SOA record, written over several physical lines. */
  const TIMERS := " ( 1 ; serial" + ("\n" + (" 3600 ; refresh" + ("\n" + (" 600 ; retry" + ("\n" +
    (" 604800 ; expire" + ("\n" + (" 300 ; minimum" + ("\n" + ")")))))))))

  function HeadLines(z: DnsZoneSpec): seq<string> {
    [ HEADER + z.zone,
      "$ORIGIN " + Fqdn(z.zone),
      "$TTL 300",
      "@ IN SOA ns1." + Fqdn(z.zone) + " " + z.soaEmail + TIMERS,
      "@ IN NS ns1." + Fqdn(z.zone) ]
  }

  /** A record's line followed by u. */
  function RecordText(r: DnsRecord, u: string): string {
    r.name + (" " + (Text.Str(r.ttlSeconds) + (" " + ("IN" + (" " + (TypeName(r.rtype) + (" " + (r.value + u))))))))
  }

  function RecordLine(r: DnsRecord): string { RecordText(r, "") }

  function Lines(line: DnsRecord -> string, rs: seq<DnsRecord>): seq<string> {
    if rs == [] then [] else Lines(line, rs[..|rs| - 1]) + [line(rs[|rs| - 1])]
  }

  function RecordLines(rs: seq<DnsRecord>): seq<string> { Lines(RecordLine, rs) }

  /** `"\n".join(lines)` */
  function Join(lines: seq<string>): string {
    if |lines| == 0 then "" else if |lines| == 1 then lines[0]
    else Join(lines[..|lines| - 1]) + "\n" + lines[|lines| - 1]
  }

  /** Every line followed by its newline. */
  function Unlines(lines: seq<string>): string {
    if lines == [] then "" else Unlines(lines[..|lines| - 1]) + lines[|lines| - 1] + "\n"
  }

  function RenderZone(z: DnsZoneSpec): string {
    Join(HeadLines(z) + RecordLines(z.records)) + "\n"
  }

  // ---- Tokens -------------------------------------------------------------------------

  lemma {:induction false} WordIs(w: string, t: string)
    requires NoSpace(w) && (t == "" || IsSpace(t[0]))
    ensures Word(w + t) == w
  {
    if w == "" {
      assert w + t == t;
    } else {
      assert (w + t)[1..] == w[1..] + t;
      WordIs(w[1..], t);
    }
  }

  lemma {:induction false} DigitsAre(d: string, t: string)
    requires (forall c | c in d :: Text.IsDigit(c)) && (t == "" || !Text.IsDigit(t[0]))
    ensures Digits(d + t) == d
  {
    if d == "" {
      assert d + t == t;
    } else {
      assert (d + t)[1..] == d[1..] + t;
      DigitsAre(d[1..], t);
    }
  }

  lemma OneGap(c: string, t: string)
    requires |c| == 1 && IsSpace(c[0]) && t != "" && !IsSpace(t[0])
    ensures Gap(c + t) == Some(t)
  {
    assert (c + t)[1..] == t;
    assert Spaces(t) == "";
    assert Spaces(c + t) == [c[0]];
  }

  /** The head word and the one space behind it are split off. */
  lemma SplitWord(w: string, c: string, t: string)
    requires NoSpace(w) && |c| == 1 && IsSpace(c[0]) && t != "" && !IsSpace(t[0])
    ensures Word(w + (c + t)) == w && Gap((w + (c + t))[|w|..]) == Some(t)
  {
    WordIs(w, c + t);
    assert (w + (c + t))[|w|..] == c + t;
    OneGap(c, t);
  }

  lemma SplitDigits(d: string, c: string, t: string)
    requires (forall x | x in d :: Text.IsDigit(x)) && |c| == 1 && IsSpace(c[0]) && t != "" && !IsSpace(t[0])
    ensures Digits(d + (c + t)) == d && Gap((d + (c + t))[|d|..]) == Some(t)
  {
    DigitsAre(d, c + t);
    assert (d + (c + t))[|d|..] == c + t;
    OneGap(c, t);
  }

  lemma Behind(p: string, t: string)
    ensures p <= p + t && (p + t)[|p|..] == t
  {
  }

  lemma DataFrom(s4: string, s6: string, s8: string, rtype: string, value: string, t: string)
    requires "IN" <= s4 && Gap(s4[2..]) == Some(s6)
    requires Word(s6) == rtype && IsTypeName(rtype) && Gap(s6[|rtype|..]) == Some(s8)
    requires Word(s8) == value && value != "" && s8[|value|..] == t && (t == "" || t[0] == '\n')
    ensures MatchData(s4) == Some((rtype, value, t))
  {
  }

  lemma MatchesItsData(rtype: string, value: string, t: string)
    requires IsTypeName(rtype) && value != "" && NoSpace(value)
    requires t == "" || t[0] == '\n'
    ensures MatchData("IN" + (" " + (rtype + (" " + (value + t))))) == Some((rtype, value, t))
  {
    var s8 := value + t;
    var s6 := rtype + (" " + s8);
    assert value[0] in value;
    Behind("IN", " " + s6);
    OneGap(" ", s6);
    SplitWord(rtype, " ", s8);
    WordIs(value, t);
    Behind(value, t);
    DataFrom("IN" + (" " + s6), s6, s8, rtype, value, t);
  }

  /** A printed record is read back, wherever it stands. */
  lemma MatchesItsLine(name: string, ttl: string, rtype: string, value: string, t: string)
    requires name != "" && NoSpace(name)
    requires ttl != "" && forall c | c in ttl :: Text.IsDigit(c)
    requires IsTypeName(rtype) && value != "" && NoSpace(value)
    requires t == "" || t[0] == '\n'
    ensures MatchRecord(name + (" " + (ttl + (" " + ("IN" + (" " + (rtype + (" " + (value + t)))))))))
            == Some((RawRecord(name, ttl, rtype, value), t))
  {
    var s4 := "IN" + (" " + (rtype + (" " + (value + t))));
    var s2 := ttl + (" " + s4);
    assert ttl[0] in ttl;
    SplitWord(name, " ", s2);
    SplitDigits(ttl, " ", s4);
    MatchesItsData(rtype, value, t);
  }

  // ---- Lines that are no records ---------------------------------------------------------

  /** The word after the first is not a number. */
  lemma NotANumber(w: string, c: string, t: string)
    requires w != "" && NoSpace(w) && |c| == 1 && IsSpace(c[0])
    requires t != "" && !IsSpace(t[0]) && !Text.IsDigit(t[0])
    ensures MatchRecord(w + (c + t)) == None
  {
    SplitWord(w, c, t);
  }

  /** The word after the number is not IN. */
  lemma NotIn(w: string, d: string, c: string, t: string)
    requires w != "" && NoSpace(w) && |c| == 1 && IsSpace(c[0])
    requires d != "" && forall x | x in d :: Text.IsDigit(x)
    requires t != "" && !IsSpace(t[0]) && t[0] != 'I'
    ensures MatchRecord(w + (" " + (d + (c + t)))) == None
  {
    assert d[0] in d;
    SplitWord(w, " ", d + (c + t));
    SplitDigits(d, c, t);
  }

  lemma {:induction false} DigitsStayInside(f: string, t: string)
    requires f != "" && NoSpace(f) && !Text.IsDigit(f[|f| - 1])
    ensures |Digits(f + t)| < |f|
  {
    if Text.IsDigit(f[0]) {
      assert (f + t)[1..] == f[1..] + t;
      assert f[1..][|f[1..]| - 1] == f[|f| - 1];
      DigitsStayInside(f[1..], t);
    }
  }

  /** The second word may begin with digits, but something else is glued to them. */
  lemma NotOnlyDigits(w: string, f: string, t: string)
    requires w != "" && NoSpace(w)
    requires f != "" && NoSpace(f) && !Text.IsDigit(f[|f| - 1])
    ensures MatchRecord(w + (" " + (f + t))) == None
  {
    var s2 := f + t;
    assert f[0] in f;
    SplitWord(w, " ", s2);
    DigitsStayInside(f, t);
    var ttl := Digits(s2);
    assert s2[|ttl|..][0] == f[|ttl|] && f[|ttl|] in f;
  }

  /** Re-bracketing a line that begins with a word and a space. */
  lemma Bracket(w: string, c: string, t: string, u: string)
    ensures (w + (c + t)) + u == w + (c + (t + u))
  {
  }

  lemma {:induction false} SkipToNewline(t: string, rest: string)
    requires '\n' !in t
    ensures FindAll(t + ("\n" + rest), false) == FindAll(rest, true)
  {
    var s := t + ("\n" + rest);
    if t == "" {
      assert s == "\n" + rest && s[1..] == rest;
    } else {
      assert s[1..] == t[1..] + ("\n" + rest);
      SkipToNewline(t[1..], rest);
    }
  }

  /** A line without a match contributes nothing. */
  lemma SkipLine(line: string, rest: string)
    requires '\n' !in line && MatchRecord(line + ("\n" + rest)) == None
    ensures FindAll(line + ("\n" + rest), true) == FindAll(rest, true)
  {
    var s := line + ("\n" + rest);
    if line == "" {
      assert s[1..] == rest;
    } else {
      assert s[1..] == line[1..] + ("\n" + rest);
      SkipToNewline(line[1..], rest);
    }
  }

  lemma SkipBlankLine(line: string, rest: string)
    requires line != "" && IsSpace(line[0]) && '\n' !in line
    ensures FindAll(line + ("\n" + rest), true) == FindAll(rest, true)
  {
    assert Word(line + ("\n" + rest)) == "";
    SkipLine(line, rest);
  }

  lemma NoSpaceNoNewline(s: string)
    requires NoSpace(s)
    ensures '\n' !in s
  {
    assert IsSpace('\n');
  }

  // ---- The head of a zone file ------------------------------------------------------------

  // Its physical lines.
  function SoaLine(z: DnsZoneSpec): string {
    "@" + (" " + ("IN SOA ns1." + (Fqdn(z.zone) + (" " + (z.soaEmail + " ( 1 ; serial")))))
  }

  function NsLine(z: DnsZoneSpec): string { "@" + (" " + ("IN NS ns1." + Fqdn(z.zone))) }

  function FromNs(z: DnsZoneSpec, rest: string): string { ")" + ("\n" + (NsLine(z) + ("\n" + rest))) }

  function FromTimers(z: DnsZoneSpec, rest: string): string {
    " 3600 ; refresh" + ("\n" + (" 600 ; retry" + ("\n" + (" 604800 ; expire" + ("\n" +
    (" 300 ; minimum" + ("\n" + FromNs(z, rest))))))))
  }

  function FromSoa(z: DnsZoneSpec, rest: string): string { SoaLine(z) + ("\n" + FromTimers(z, rest)) }

  function FromTtl(z: DnsZoneSpec, rest: string): string { "$TTL" + (" " + ("300" + ("\n" + FromSoa(z, rest)))) }

  function FromOrigin(z: DnsZoneSpec, rest: string): string {
    "$ORIGIN" + (" " + (Fqdn(z.zone) + ("\n" + FromTtl(z, rest))))
  }

  function HeadText(z: DnsZoneSpec, rest: string): string {
    HEADER + (z.zone + ("\n" + FromOrigin(z, rest)))
  }

  lemma SkipNs(z: DnsZoneSpec, rest: string)
    requires NoSpace(z.zone)
    ensures FindAll(FromNs(z, rest), true) == FindAll(rest, true)
  {
    var t := NsLine(z) + ("\n" + rest);
    assert t[0] == '@';
    NotANumber(")", "\n", t);
    SkipLine(")", t);
    SkipNsLine(z, rest);
  }

  lemma SkipNsLine(z: DnsZoneSpec, rest: string)
    requires NoSpace(z.zone)
    ensures FindAll(NsLine(z) + ("\n" + rest), true) == FindAll(rest, true)
  {
    var ns := "IN NS ns1." + Fqdn(z.zone);
    NotANumber("@", " ", ns + ("\n" + rest));
    Bracket("@", " ", ns, "\n" + rest);
    NoSpaceNoNewline(Fqdn(z.zone));
    SkipLine(NsLine(z), rest);
  }

  lemma SkipTimers(z: DnsZoneSpec, rest: string)
    requires NoSpace(z.zone)
    ensures FindAll(FromTimers(z, rest), true) == FindAll(rest, true)
  {
    var d := FromNs(z, rest);
    var c := " 300 ; minimum" + ("\n" + d);
    var b := " 604800 ; expire" + ("\n" + c);
    var a := " 600 ; retry" + ("\n" + b);
    SkipBlankLine(" 3600 ; refresh", a);
    SkipBlankLine(" 600 ; retry", b);
    SkipBlankLine(" 604800 ; expire", c);
    SkipBlankLine(" 300 ; minimum", d);
    SkipNs(z, rest);
  }

  lemma SkipSoa(z: DnsZoneSpec, rest: string)
    requires NoSpace(z.zone) && '\n' !in z.soaEmail
    ensures FindAll(FromSoa(z, rest), true) == FindAll(rest, true)
  {
    var soa := "IN SOA ns1." + (Fqdn(z.zone) + (" " + (z.soaEmail + " ( 1 ; serial")));
    var t := "\n" + FromTimers(z, rest);
    NotANumber("@", " ", soa + t);
    Bracket("@", " ", soa, t);
    NoSpaceNoNewline(Fqdn(z.zone));
    SkipLine(SoaLine(z), FromTimers(z, rest));
    SkipTimers(z, rest);
  }

  lemma SkipTtlLine(t: string)
    requires t != "" && t[0] == '@'
    ensures FindAll("$TTL" + (" " + ("300" + ("\n" + t))), true) == FindAll(t, true)
  {
    NotIn("$TTL", "300", "\n", t);
    Bracket("$TTL", " ", "300", "\n" + t);
    SkipLine("$TTL" + (" " + "300"), t);
  }

  lemma SkipOriginLine(z: DnsZoneSpec, rest: string)
    requires NoSpace(z.zone)
    ensures FindAll(FromOrigin(z, rest), true) == FindAll(FromTtl(z, rest), true)
  {
    var f := Fqdn(z.zone);
    var t := FromTtl(z, rest);
    NotOnlyDigits("$ORIGIN", f, "\n" + t);
    NoSpaceNoNewline(f);
    Bracket("$ORIGIN", " ", f, "\n" + t);
    SkipLine("$ORIGIN" + (" " + f), t);
  }

  lemma SkipHeader(zone: string, rest: string)
    requires NoSpace(zone)
    ensures FindAll(HEADER + (zone + ("\n" + rest)), true) == FindAll(rest, true)
  {
    var tail := MANAGED + zone;
    var line := ";" + (" " + tail);
    assert '\n' !in line by { NoSpaceNoNewline(zone); }
    assert MatchRecord(line + ("\n" + rest)) == None by {
      NotANumber(";", " ", tail + ("\n" + rest));
      Bracket(";", " ", tail, "\n" + rest);
    }
    SkipLine(line, rest);
    HeaderSplit(zone, "\n" + rest);
  }

  /** Nothing in the head of a zone file reads as a record, not even across its lines. */
  lemma SkipHead(z: DnsZoneSpec, rest: string)
    requires NoSpace(z.zone) && '\n' !in z.soaEmail
    ensures FindAll(HeadText(z, rest), true) == FindAll(rest, true)
  {
    SkipHeader(z.zone, FromOrigin(z, rest));
    SkipOriginLine(z, rest);
    SkipTtlLine(FromSoa(z, rest));
    SkipSoa(z, rest);
  }

  lemma HeaderSplit(zone: string, t: string)
    ensures HEADER + (zone + t) == (";" + (" " + (MANAGED + zone))) + t
  {
    Assoc(HEADER, zone, t);
    Bracket(";", " ", MANAGED, zone);
  }

  // ---- The rendered text is the head followed by the records --------------------------------

  function RecordsText(rs: seq<DnsRecord>): string {
    if rs == [] then "" else RecordText(rs[0], "\n" + RecordsText(rs[1..]))
  }

  lemma {:induction false} JoinIsUnlines(lines: seq<string>)
    requires lines != []
    ensures Join(lines) + "\n" == Unlines(lines)
  {
    if |lines| > 1 { JoinIsUnlines(lines[..|lines| - 1]); }
    else { assert Unlines(lines[..0]) == ""; }
  }

  lemma {:induction false} UnlinesAppend(a: seq<string>, b: seq<string>)
    ensures Unlines(a + b) == Unlines(a) + Unlines(b)
  {
    if b == [] {
      assert a + b == a;
    } else {
      var n := |b| - 1;
      assert (a + b)[..|a + b| - 1] == a + b[..n];
      UnlinesAppend(a, b[..n]);
    }
  }

  lemma RecordTextIsLine(r: DnsRecord, u: string)
    ensures RecordText(r, u) == RecordLine(r) + u
  {
    var t := TypeName(r.rtype);
    var n := Text.Str(r.ttlSeconds);
    assert r.value + u == (r.value + "") + u;
    Bracket(t, " ", r.value + "", u);
    Bracket("IN", " ", t + (" " + (r.value + "")), u);
    Bracket(n, " ", "IN" + (" " + (t + (" " + (r.value + "")))), u);
    Bracket(r.name, " ", n + (" " + ("IN" + (" " + (t + (" " + (r.value + "")))))), u);
  }

  lemma {:induction false} LinesCons(line: DnsRecord -> string, rs: seq<DnsRecord>)
    requires rs != []
    ensures Lines(line, rs) == [line(rs[0])] + Lines(line, rs[1..])
  {
    var n := |rs| - 1;
    if n == 0 {
    } else {
      LinesCons(line, rs[..n]);
      assert rs[..n][1..] == rs[1..][..n - 1];
    }
  }

  lemma UnlinesOne(line: string)
    ensures Unlines([line]) == line + "\n"
  {
    assert [line][..0] == [];
  }

  lemma Assoc(a: string, b: string, c: string)
    ensures (a + b) + c == a + (b + c)
  {
  }

  lemma {:induction false} RecordsTextIsUnlines(rs: seq<DnsRecord>)
    ensures Unlines(RecordLines(rs)) == RecordsText(rs)
  {
    if rs == [] {
    } else {
      var line := RecordLine(rs[0]);
      LinesCons(RecordLine, rs);
      UnlinesAppend([line], RecordLines(rs[1..]));
      UnlinesOne(line);
      RecordsTextIsUnlines(rs[1..]);
      Assoc(line, "\n", RecordsText(rs[1..]));
      RecordTextIsLine(rs[0], "\n" + RecordsText(rs[1..]));
    }
  }

  // One line of a list of lines, bracketed to the right.
  lemma UnlinesCons(line: string, lines: seq<string>, rest: string)
    ensures Unlines([line] + lines) + rest == line + ("\n" + (Unlines(lines) + rest))
  {
    UnlinesAppend([line], lines);
    UnlinesOne(line);
    Assoc(line, "\n", Unlines(lines));
    Assoc(line, "\n" + Unlines(lines), rest);
    Assoc("\n", Unlines(lines), rest);
  }

  lemma HeadLinesText(z: DnsZoneSpec, rest: string)
    ensures var l := HeadLines(z);
            Unlines(l) + rest ==
            l[0] + ("\n" + (l[1] + ("\n" + (l[2] + ("\n" + (l[3] + ("\n" + (l[4] + ("\n" + rest)))))))))
  {
    var l := HeadLines(z);
    assert l == [l[0]] + [l[1], l[2], l[3], l[4]];
    assert [l[1], l[2], l[3], l[4]] == [l[1]] + [l[2], l[3], l[4]];
    assert [l[2], l[3], l[4]] == [l[2]] + [l[3], l[4]];
    assert [l[3], l[4]] == [l[3]] + [l[4]];
    assert [l[4]] == [l[4]] + [];
    UnlinesCons(l[0], [l[1], l[2], l[3], l[4]], rest);
    UnlinesCons(l[1], [l[2], l[3], l[4]], rest);
    UnlinesCons(l[2], [l[3], l[4]], rest);
    UnlinesCons(l[3], [l[4]], rest);
    UnlinesCons(l[4], [], rest);
    assert Unlines([]) + rest == rest;
  }

  lemma TimersText(u: string)
    ensures TIMERS + u == " ( 1 ; serial" + ("\n" + (" 3600 ; refresh" + ("\n" + (" 600 ; retry" + ("\n" +
              (" 604800 ; expire" + ("\n" + (" 300 ; minimum" + ("\n" + (")" + u))))))))))
  {
    var e := " 300 ; minimum" + ("\n" + ")");
    var d := " 604800 ; expire" + ("\n" + e);
    var c := " 600 ; retry" + ("\n" + d);
    var b := " 3600 ; refresh" + ("\n" + c);
    Bracket(" ( 1 ; serial", "\n", b, u);
    Bracket(" 3600 ; refresh", "\n", c, u);
    Bracket(" 600 ; retry", "\n", d, u);
    Bracket(" 604800 ; expire", "\n", e, u);
    Bracket(" 300 ; minimum", "\n", ")", u);
  }

  lemma SoaText(z: DnsZoneSpec, rest: string)
    ensures HeadLines(z)[3] + ("\n" + (NsLine(z) + ("\n" + rest))) == FromSoa(z, rest)
  {
    var f := Fqdn(z.zone);
    var u := "\n" + (NsLine(z) + ("\n" + rest));
    var at := "@ IN SOA ns1.";
    assert at == "@" + (" " + "IN SOA ns1.");
    assert HeadLines(z)[3] == at + f + " " + z.soaEmail + TIMERS;
    Assoc(at + f + " " + z.soaEmail, TIMERS, u);
    TimersText(u);
    var timers := "\n" + FromTimers(z, rest);
    assert TIMERS + u == " ( 1 ; serial" + timers;
    SoaBracket(at, f, z.soaEmail, timers);
    assert at + (f + (" " + (z.soaEmail + " ( 1 ; serial"))) == SoaLine(z);
  }

  lemma SoaBracket(at: string, f: string, soa: string, timers: string)
    ensures at + f + " " + soa + (" ( 1 ; serial" + timers) == (at + (f + (" " + (soa + " ( 1 ; serial")))) + timers
  {
  }

  /** What is written for a zone is its head, physical line by physical line, then its records. */
  lemma RenderedText(z: DnsZoneSpec)
    ensures RenderZone(z) == HeadText(z, RecordsText(z.records))
  {
    var rest := RecordsText(z.records);
    var l := HeadLines(z);
    JoinIsUnlines(l + RecordLines(z.records));
    UnlinesAppend(l, RecordLines(z.records));
    RecordsTextIsUnlines(z.records);
    HeadLinesText(z, rest);
    NsText(z);
    SoaText(z, rest);
    TtlText(FromSoa(z, rest));
    OriginText(Fqdn(z.zone), "\n" + FromTtl(z, rest));
    Assoc(HEADER, z.zone, "\n" + FromOrigin(z, rest));
  }

  lemma NsText(z: DnsZoneSpec)
    ensures HeadLines(z)[4] == NsLine(z)
  {
    assert "@ IN NS ns1." == "@" + (" " + "IN NS ns1.");
  }

  lemma TtlText(u: string)
    ensures "$TTL 300" + ("\n" + u) == "$TTL" + (" " + ("300" + ("\n" + u)))
  {
    assert "$TTL 300" == "$TTL" + (" " + "300");
  }

  lemma OriginText(f: string, u: string)
    ensures "$ORIGIN " + f + u == "$ORIGIN" + (" " + (f + u))
  {
    assert "$ORIGIN " == "$ORIGIN" + " ";
  }
}
