/** Which zones CoreDNS files serve as the dictionary store does, in terms of their fields: how
    a line splits into words decides whether it is read as a record. */
module DnsTidy {
  import opened Common
  import opened EdgeServices
  import opened DnsZone
  import opened CorednsDns
  import opened DnsAgreement
  import Text

  // ---- Counting words ---------------------------------------------------------------------

  /** The words of s; if s continues a word, that one is not counted again. */
  function Words(s: string, inside: bool): nat {
    if s == "" then 0
    else if IsSpace(s[0]) then Words(s[1..], false)
    else (if inside then 0 else 1) + Words(s[1..], true)
  }

  predicate AtBreak(s: string) { s == "" || IsSpace(s[0]) }

  predicate Blank(s: string) { forall c | c in s :: IsSpace(c) }

  lemma {:induction false} RestOfWord(w: string, t: string)
    requires NoSpace(w)
    ensures Words(w + t, true) == Words(t, true)
  {
    if w == "" {
      assert w + t == t;
    } else {
      assert (w + t)[1..] == w[1..] + t;
      RestOfWord(w[1..], t);
    }
  }

  /** A word followed by a space or the end counts once. */
  lemma WordCounts(w: string, t: string)
    requires NoSpace(w) && w != "" && AtBreak(t)
    ensures Words(w + t, false) == 1 + Words(t, false)
  {
    assert (w + t)[0] == w[0] && (w + t)[1..] == w[1..] + t;
    RestOfWord(w[1..], t);
  }

  lemma {:induction false} BlankCounts(b: string, t: string)
    requires Blank(b)
    ensures Words(b + t, false) == Words(t, false)
  {
    if b == "" {
      assert b + t == t;
    } else {
      assert (b + t)[1..] == b[1..] + t;
      BlankCounts(b[1..], t);
    }
  }

  /** A space separates what stands before it from what follows. */
  lemma {:induction false} SpaceCounts(a: string, c: string, t: string, inside: bool)
    requires |c| == 1 && IsSpace(c[0])
    ensures Words(a + (c + t), inside) == Words(a, inside) + Words(t, false)
  {
    if a == "" {
      assert a + (c + t) == c + t && (c + t)[1..] == t;
    } else {
      assert (a + (c + t))[1..] == a[1..] + (c + t);
      SpaceCounts(a[1..], c, t, !IsSpace(a[0]));
    }
  }

  lemma {:induction false} InsideCountsLess(s: string)
    ensures Words(s, true) <= Words(s, false) <= 1 + Words(s, true)
  {
  }

  /** The tail of a text has no more words than the text, its broken first word aside. */
  lemma {:induction false} TailCounts(s: string, k: nat, inside: bool)
    requires k <= |s|
    ensures Words(s[k..], true) <= Words(s, inside)
  {
    if k == 0 {
      assert s[0..] == s;
      InsideCountsLess(s);
    } else {
      assert s[1..][k - 1..] == s[k..];
      TailCounts(s[1..], k - 1, !IsSpace(s[0]));
    }
  }

  lemma {:induction false} NoWordsIsBlank(s: string)
    requires Words(s, false) == 0
    ensures Blank(s)
  {
    if s == "" {
    } else {
      NoWordsIsBlank(s[1..]);
      assert s == [s[0]] + s[1..];
    }
  }

  // ---- A match takes five words ----------------------------------------------------------------

  predicate Tail(t: string, s: string) { |t| <= |s| && s[|s| - |t|..] == t }

  lemma TailOfTail(u: string, t: string, s: string)
    requires Tail(u, t) && Tail(t, s)
    ensures Tail(u, s)
  {
    assert s[|s| - |u|..] == s[|s| - |t|..][|t| - |u|..];
  }

  lemma {:induction false} SpacesBlank(s: string)
    ensures Blank(Spaces(s)) && s == Spaces(s) + s[|Spaces(s)|..]
  {
    if s == "" || !IsSpace(s[0]) {
    } else {
      SpacesBlank(s[1..]);
    }
  }

  /** A token and the gap behind it are one word. */
  lemma TokenCounts(s: string, w: string, t: string)
    requires w <= s && w != "" && NoSpace(w) && Gap(s[|w|..]) == Some(t)
    ensures Words(s, false) == 1 + Words(t, false) && Tail(t, s)
  {
    var u := s[|w|..];
    SpacesBlank(u);
    assert s == w + u;
    WordCounts(w, u);
    BlankCounts(Spaces(u), t);
  }

  lemma DigitsNoSpace(d: string)
    requires forall c | c in d :: Text.IsDigit(c)
    ensures NoSpace(d)
  {
  }

  lemma LastTakesOne(s: string)
    requires Word(s) != ""
    ensures var rest := s[|Word(s)|..];
      Tail(rest, s) && (rest == "" || rest[0] == '\n' ==> Words(s, false) == 1 + Words(rest, false))
  {
    var rest := s[|Word(s)|..];
    assert s == Word(s) + rest;
    if AtBreak(rest) { WordCounts(Word(s), rest); }
  }

  lemma DataTakesThree(s: string)
    requires MatchData(s).Some?
    ensures var rest := MatchData(s).value.2;
      Tail(rest, s) && (rest == "" || rest[0] == '\n') && Words(s, false) == 3 + Words(rest, false)
  {
    var s6 := Gap(s[2..]).value;
    var s8 := Gap(s6[|Word(s6)|..]).value;
    var rest := MatchData(s).value.2;
    assert rest == s8[|Word(s8)|..];
    assert Words(s, false) == 1 + Words(s6, false) && Tail(s6, s) by {
      assert NoSpace("IN") && |"IN"| == 2;
      TokenCounts(s, "IN", s6);
    }
    assert Words(s6, false) == 1 + Words(s8, false) && Tail(s8, s6) by { TokenCounts(s6, Word(s6), s8); }
    LastTakesOne(s8);
    TailOfTail(s8, s6, s);
    TailOfTail(rest, s8, s);
  }

  lemma MatchTakesFive(s: string)
    requires MatchRecord(s).Some?
    ensures var rest := MatchRecord(s).value.1;
      Tail(rest, s) && (rest == "" || rest[0] == '\n') && Words(s, false) == 5 + Words(rest, false)
  {
    var name := Word(s);
    var s2 := Gap(s[|name|..]).value;
    var ttl := Digits(s2);
    var s4 := Gap(s2[|ttl|..]).value;
    DigitsNoSpace(ttl);
    TokenCounts(s, name, s2);
    TokenCounts(s2, ttl, s4);
    DataTakesThree(s4);
    TailOfTail(s4, s2, s);
    TailOfTail(MatchRecord(s).value.1, s4, s);
  }

  /** So a line of more words than five matches nothing, not even across its end. */
  lemma LongLineMatchesNothing(line: string, u: string)
    requires '\n' !in line && Words(line, false) > 5
    ensures MatchRecord(line + ("\n" + u)) == None
  {
    var s := line + ("\n" + u);
    SpaceCounts(line, "\n", u, false);
    if MatchRecord(s).Some? {
      MatchTakesFive(s);
      EndsAtLineEnd(line, u, MatchRecord(s).value.1);
    }
  }

  lemma EndsAtLineEnd(line: string, u: string, rest: string)
    requires '\n' !in line && Tail(rest, line + ("\n" + u)) && (rest == "" || rest[0] == '\n')
    ensures Words(rest, false) <= Words(u, false)
  {
    var s := line + ("\n" + u);
    var v := "\n" + u;
    assert forall k | 0 <= k < |line| :: s[k] == line[k] && s[k] != '\n';
    assert rest != "" ==> s[|s| - |rest|] == '\n';
    assert |rest| <= |v|;
    assert rest == v[|v| - |rest|..];
    TailCounts(v, |v| - |rest|, false);
    assert Words(rest, false) == Words(rest, true);
    assert v[1..] == u;
  }

  /** The header must fill its line: a name with white space inside is not read as a zone. */
  lemma HeaderFillsItsLine(w: string, g: string, t: string)
    requires NoSpace(w) && g != "" && Blank(g) && '\n' !in g && t != "" && !IsSpace(t[0])
    ensures MatchHeader(HEADER + (w + (g + t))) == None
  {
    var s := HEADER + (w + (g + t));
    Behind(HEADER, w + (g + t));
    WordIs(w, g + t);
    assert s[|HEADER| + |w|..] == g + t;
    SpacesAre(g, t);
    assert |g + t| != |g|;
  }

  // ---- One record's line -----------------------------------------------------------------------

  /** What is asked of a record, its name and TTL aside. */
  predicate TidyRecord(r: DnsRecord) {
    NoSpace(r.value) && r.value != "" && r.name != "" && '\n' !in r.name
  }

  /** One word, perhaps with spaces behind it. */
  predicate OneWord(name: string) {
    Word(name) != "" && Blank(name[|Word(name)|..])
  }

  /** The record's line is read. */
  predicate Seen(r: DnsRecord) { OneWord(r.name) && r.ttlSeconds >= 0 }

  function Trimmed(r: DnsRecord): DnsRecord { r.(name := Word(r.name)) }

  lemma StrIsWord(n: int)
    ensures NoSpace(Text.Str(n)) && Text.Str(n) != ""
    ensures n >= 0 ==> forall c | c in Text.Str(n) :: Text.IsDigit(c)
    ensures n < 0 ==> Text.Str(n)[0] == '-'
  {
    var d := Text.Decimal(if n < 0 then -n else n);
    DigitsNoSpace(d);
  }

  lemma TypeIsWord(t: RecordType)
    ensures IsTypeName(TypeName(t)) && NoSpace(TypeName(t)) && TypeName(t) != ""
  {
  }

  /** The part of a line behind its name. */
  function DataText(r: DnsRecord, u: string): string {
    Text.Str(r.ttlSeconds) + (" " + ("IN" + (" " + (TypeName(r.rtype) + (" " + (r.value + u))))))
  }

  lemma DataCounts(r: DnsRecord)
    requires TidyRecord(r)
    ensures Words(DataText(r, ""), false) == 4
  {
    var t, v := TypeName(r.rtype), r.value + "";
    StrIsWord(r.ttlSeconds);
    TypeIsWord(r.rtype);
    assert NoSpace("IN") && "IN" != "";
    SpaceCounts(Text.Str(r.ttlSeconds), " ", "IN" + (" " + (t + (" " + v))), false);
    SpaceCounts("IN", " ", t + (" " + v), false);
    SpaceCounts(t, " ", v, false);
    OneWordCounts(Text.Str(r.ttlSeconds));
    OneWordCounts("IN");
    OneWordCounts(t);
    OneWordCounts(r.value);
    assert v == r.value;
  }

  lemma OneWordCounts(w: string)
    requires NoSpace(w) && w != ""
    ensures Words(w, false) == 1
  {
    WordCounts(w, "");
    assert w + "" == w;
  }

  lemma LineCounts(r: DnsRecord)
    requires TidyRecord(r)
    ensures Words(RecordLine(r), false) == Words(r.name, false) + 4
    ensures '\n' !in RecordLine(r)
  {
    assert RecordLine(r) == r.name + (" " + DataText(r, ""));
    SpaceCounts(r.name, " ", DataText(r, ""), false);
    DataCounts(r);
    DataOnOneLine(r);
  }

  lemma DataOnOneLine(r: DnsRecord)
    requires TidyRecord(r)
    ensures '\n' !in DataText(r, "")
  {
    StrIsWord(r.ttlSeconds);
    TypeIsWord(r.rtype);
    NoSpaceNoNewline(Text.Str(r.ttlSeconds));
    NoSpaceNoNewline(TypeName(r.rtype));
    NoSpaceNoNewline(r.value);
  }

  lemma {:induction false} WordEnds(s: string)
    ensures AtBreak(s[|Word(s)|..]) && s == Word(s) + s[|Word(s)|..]
  {
    if s == "" || IsSpace(s[0]) {
    } else {
      WordEnds(s[1..]);
    }
  }

  lemma ManyWords(name: string)
    requires Word(name) != "" && !OneWord(name)
    ensures Words(name, false) >= 2
  {
    var rest := name[|Word(name)|..];
    WordEnds(name);
    WordCounts(Word(name), rest);
    if Words(rest, false) == 0 { NoWordsIsBlank(rest); }
  }

  lemma {:induction false} SpacesAre(g: string, t: string)
    requires Blank(g) && (t == "" || !IsSpace(t[0]))
    ensures Spaces(g + t) == g
  {
    if g == "" {
      assert g + t == t;
    } else {
      assert (g + t)[1..] == g[1..] + t;
      SpacesAre(g[1..], t);
    }
  }

  /** The head word and the spaces behind it are split off. */
  lemma SplitGap(w: string, g: string, t: string)
    requires NoSpace(w) && g != "" && Blank(g) && t != "" && !IsSpace(t[0])
    ensures Word(w + (g + t)) == w && Gap((w + (g + t))[|w|..]) == Some(t)
  {
    WordIs(w, g + t);
    assert (w + (g + t))[|w|..] == g + t;
    SpacesAre(g, t);
    assert (g + t)[|g|..] == t;
  }

  /** How a record's text begins when its name is one word. */
  lemma NameSplits(r: DnsRecord, u: string)
    requires OneWord(r.name)
    ensures var w, s2 := Word(r.name), DataText(r, u); var s := RecordText(r, u);
      s2 != "" && !IsSpace(s2[0]) && Word(s) == w && Gap(s[|w|..]) == Some(s2)
  {
    var w, s2 := Word(r.name), DataText(r, u);
    var g := r.name[|w|..];
    StrIsWord(r.ttlSeconds);
    assert Text.Str(r.ttlSeconds)[0] in Text.Str(r.ttlSeconds);
    assert IsSpace(' ') && Blank(g + " ");
    WordEnds(r.name);
    assert RecordText(r, u) == r.name + (" " + s2);
    Regroup(w, g, s2);
    SplitGap(w, g + " ", s2);
  }

  lemma Regroup(w: string, g: string, t: string)
    ensures (w + g) + (" " + t) == w + ((g + " ") + t)
  {
  }

  lemma DataMatches(r: DnsRecord, u: string)
    requires TidyRecord(r) && r.ttlSeconds >= 0 && (u == "" || u[0] == '\n')
    ensures var s2 := DataText(r, u); var ttl := Text.Str(r.ttlSeconds);
      && Digits(s2) == ttl && ttl != "" && Gap(s2[|ttl|..]).Some?
      && MatchData(Gap(s2[|ttl|..]).value) == Some((TypeName(r.rtype), r.value, u))
  {
    var ttl := Text.Str(r.ttlSeconds);
    var s4 := "IN" + (" " + (TypeName(r.rtype) + (" " + (r.value + u))));
    StrIsWord(r.ttlSeconds);
    TypeIsWord(r.rtype);
    SplitDigits(ttl, " ", s4);
    MatchesItsData(TypeName(r.rtype), r.value, u);
  }

  lemma SeenMatches(r: DnsRecord, u: string)
    requires TidyRecord(r) && Seen(r) && (u == "" || u[0] == '\n')
    ensures MatchRecord(RecordText(r, u)) == Some((Raw(Trimmed(r)), u))
  {
    NameSplits(r, u);
    DataMatches(r, u);
  }

  lemma UnseenMatchesNothing(r: DnsRecord, u: string)
    requires TidyRecord(r) && !Seen(r)
    ensures MatchRecord(RecordLine(r) + ("\n" + u)) == None
  {
    RecordTextIsLine(r, "\n" + u);
    LineCounts(r);
    if OneWord(r.name) {
      NameSplits(r, "\n" + u);
      StrIsWord(r.ttlSeconds);
    } else if Word(r.name) == "" {
      assert RecordText(r, "\n" + u)[0] == r.name[0];
    } else {
      ManyWords(r.name);
      LongLineMatchesNothing(RecordLine(r), u);
    }
  }

  /** A tidy record's line is read exactly when its name is one word and its TTL not negative. */
  lemma LineIsReadIff(r: DnsRecord, u: string)
    requires TidyRecord(r)
    ensures MatchRecord(RecordText(r, "\n" + u)) == if Seen(r) then Some((Raw(Trimmed(r)), "\n" + u)) else None
  {
    if Seen(r) {
      SeenMatches(r, "\n" + u);
    } else {
      UnseenMatchesNothing(r, u);
      RecordTextIsLine(r, "\n" + u);
    }
  }

  lemma FindLine(r: DnsRecord, u: string)
    requires TidyRecord(r)
    ensures FindAll(RecordText(r, "\n" + u), true) == (if Seen(r) then [Raw(Trimmed(r))] else []) + FindAll(u, true)
  {
    LineIsReadIff(r, u);
    if Seen(r) {
      SkipToNewline("", u);
      assert "" + ("\n" + u) == "\n" + u;
    } else {
      RecordTextIsLine(r, "\n" + u);
      LineCounts(r);
      SkipLine(RecordLine(r), u);
    }
  }

  // ---- One zone --------------------------------------------------------------------------------

  function SeenRecords(rs: seq<DnsRecord>): seq<DnsRecord> {
    if rs == [] then [] else (if Seen(rs[0]) then [Trimmed(rs[0])] else []) + SeenRecords(rs[1..])
  }

  /** A valid zone whose name, and each of whose values, is one word, and whose SOA address stays
      on its line. Record names and TTLs are free. */
  predicate Tidy(z: DnsZoneSpec, isIp: string -> bool) {
    && Valid(z, isIp) && NoSpace(z.zone) && '\n' !in z.soaEmail
    && forall i | 0 <= i < |z.records| :: TidyRecord(z.records[i])
  }

  lemma {:induction false} RecordsSeen(rs: seq<DnsRecord>)
    requires forall i | 0 <= i < |rs| :: TidyRecord(rs[i])
    ensures var found, seen := FindAll(RecordsText(rs), true), SeenRecords(rs);
      |found| == |seen| && forall i | 0 <= i < |seen| :: found[i] == Raw(seen[i])
  {
    if rs == [] {
    } else {
      FindLine(rs[0], RecordsText(rs[1..]));
      RecordsSeen(rs[1..]);
    }
  }

  lemma {:induction false} SeenArePlain(rs: seq<DnsRecord>, isIp: string -> bool)
    requires forall i | 0 <= i < |rs| :: TidyRecord(rs[i]) && ValidRecord(rs[i], isIp)
    ensures forall r | r in SeenRecords(rs) :: PlainRecord(r) && ValidRecord(r, isIp)
  {
    if rs == [] {
    } else {
      SeenArePlain(rs[1..], isIp);
      if Seen(rs[0]) { TrimmedIsPlain(rs[0], isIp); }
    }
  }

  lemma TrimmedIsPlain(r: DnsRecord, isIp: string -> bool)
    requires TidyRecord(r) && ValidRecord(r, isIp) && Seen(r)
    ensures PlainRecord(Trimmed(r)) && ValidRecord(Trimmed(r), isIp)
  {
    assert forall c | c in Word(r.name) :: c in r.name;
  }

  /** What a tidy zone reads back as. */
  lemma TidyReadsAs(z: DnsZoneSpec, isIp: string -> bool)
    requires Tidy(z, isIp)
    ensures ParseZone(RenderZone(z), isIp) == Zone(DnsZoneSpec(z.zone, SeenRecords(z.records), DEFAULT_SOA))
  {
    var seen := SeenRecords(z.records);
    var text := RenderZone(z);
    assert FindHeader(text, true) == Some(z.zone) && FindAll(text, true) == FindAll(RecordsText(z.records), true) by {
      RenderedText(z);
      HeaderReadBack(z, RecordsText(z.records));
      SkipHead(z, RecordsText(z.records));
    }
    RecordsSeen(z.records);
    SeenArePlain(z.records, isIp);
    assert forall i | 0 <= i < |seen| :: seen[i] in seen;
    RecordsRebuilt(FindAll(text, true), seen);
    ParsedFrom(text, z.zone, seen, isIp);
  }

  lemma ParsedFrom(text: string, zone: string, records: seq<DnsRecord>, isIp: string -> bool)
    requires FindHeader(text, true) == Some(zone) && RecordsOf(FindAll(text, true)) == records
    requires ValidZoneName(zone) && forall r | r in records :: ValidRecord(r, isIp)
    ensures ParseZone(text, isIp) == Zone(DnsZoneSpec(zone, records, DEFAULT_SOA))
  {
  }

  // ---- Which lookups are answered ----------------------------------------------------------------

  predicate IsAddress(r: DnsRecord) { r.rtype in {A, AAAA} }

  /** The records whose TTL is not negative. */
  function Lasting(rs: seq<DnsRecord>): seq<DnsRecord> {
    if rs == [] then [] else (if rs[0].ttlSeconds >= 0 then [rs[0]] else []) + Lasting(rs[1..])
  }

  /** Every address record's name has no space, and dropping the records of negative TTL changes
      the first address of no name. */
  ghost predicate AddressesRead(z: DnsZoneSpec) {
    forall i | 0 <= i < |z.records| && IsAddress(z.records[i]) :: AddressRead(z.records, z.records[i].name)
  }

  predicate AddressRead(rs: seq<DnsRecord>, name: string) {
    NoSpace(name) && FirstAddress(Lasting(rs), name) == FirstAddress(rs, name)
  }

  lemma PlainNameIsOneWord(name: string)
    requires NoSpace(name) && name != ""
    ensures OneWord(name) && Word(name) == name
  {
    WordIs(name, "");
    assert name + "" == name;
  }

  lemma {:induction false} SeenAnswers(rs: seq<DnsRecord>, name: string)
    requires forall i | 0 <= i < |rs| :: TidyRecord(rs[i]) && (IsAddress(rs[i]) ==> NoSpace(rs[i].name))
    ensures FirstAddress(SeenRecords(rs), name) == FirstAddress(Lasting(rs), name)
  {
    if rs == [] {
    } else {
      SeenAnswers(rs[1..], name);
      if IsAddress(rs[0]) { PlainNameIsOneWord(rs[0].name); }
      AnswerCons(if Seen(rs[0]) then [Trimmed(rs[0])] else [], SeenRecords(rs[1..]), name);
      AnswerCons(if rs[0].ttlSeconds >= 0 then [rs[0]] else [], Lasting(rs[1..]), name);
    }
  }

  lemma AnswerCons(head: seq<DnsRecord>, rs: seq<DnsRecord>, name: string)
    requires |head| <= 1
    ensures FirstAddress(head + rs, name) ==
      if head != [] && head[0].name == name && IsAddress(head[0]) then Some(head[0].value) else FirstAddress(rs, name)
  {
    if head == [] {
      assert head + rs == rs;
    } else {
      assert (head + rs)[1..] == rs;
    }
  }

  lemma {:induction false} NoSuchAddress(rs: seq<DnsRecord>, name: string)
    requires forall i | 0 <= i < |rs| && IsAddress(rs[i]) :: rs[i].name != name
    ensures FirstAddress(rs, name) == None && FirstAddress(Lasting(rs), name) == None
  {
    if rs == [] {
    } else {
      NoSuchAddress(rs[1..], name);
      AnswerCons(if rs[0].ttlSeconds >= 0 then [rs[0]] else [], Lasting(rs[1..]), name);
    }
  }

  /** A tidy zone's text answers every lookup as its records do if and only if its address
      records are read. */
  lemma ReadsTrueIff(z: DnsZoneSpec, isIp: string -> bool)
    requires Tidy(z, isIp)
    ensures ReadsTrue(z, Files(isIp)) <==> AddressesRead(z)
  {
    if i :| 0 <= i < |z.records| && IsAddress(z.records[i]) && !NoSpace(z.records[i].name) {
      SpacedNameIsLost(z, i, isIp);
      assert !AddressRead(z.records, z.records[i].name);
    } else {
      forall name
        ensures Lookup(Files(isIp).parse(Files(isIp).render(z)), name) == Ok(FirstAddress(Lasting(z.records), name))
      {
        TidyAnswers(z, name, isIp);
      }
      if AddressesRead(z) {
        forall name ensures FirstAddress(Lasting(z.records), name) == FirstAddress(z.records, name) {
          NameRead(z, name);
        }
      }
    }
  }

  lemma TidyAnswers(z: DnsZoneSpec, name: string, isIp: string -> bool)
    requires Tidy(z, isIp)
    requires forall i | 0 <= i < |z.records| && IsAddress(z.records[i]) :: NoSpace(z.records[i].name)
    ensures Lookup(Files(isIp).parse(Files(isIp).render(z)), name) == Ok(FirstAddress(Lasting(z.records), name))
  {
    TidyReadsAs(z, isIp);
    SeenAnswers(z.records, name);
  }

  lemma NameRead(z: DnsZoneSpec, name: string)
    requires AddressesRead(z)
    ensures FirstAddress(Lasting(z.records), name) == FirstAddress(z.records, name)
  {
    if i :| 0 <= i < |z.records| && IsAddress(z.records[i]) && z.records[i].name == name {
      assert AddressRead(z.records, z.records[i].name);
    } else {
      NoSuchAddress(z.records, name);
    }
  }

  lemma {:induction false} AllLast(rs: seq<DnsRecord>)
    requires forall i | 0 <= i < |rs| :: rs[i].ttlSeconds >= 0
    ensures Lasting(rs) == rs
  {
    if rs == [] {
    } else {
      AllLast(rs[1..]);
    }
  }

  /** Without negative TTLs: no address record's name has a space. */
  lemma AddressesReadIff(z: DnsZoneSpec)
    requires forall i | 0 <= i < |z.records| :: z.records[i].ttlSeconds >= 0
    ensures AddressesRead(z) <==>
      forall i | 0 <= i < |z.records| && IsAddress(z.records[i]) :: NoSpace(z.records[i].name)
  {
    AllLast(z.records);
    assert forall i | 0 <= i < |z.records| ::
      AddressRead(z.records, z.records[i].name) <==> NoSpace(z.records[i].name);
  }

  // ---- Tidy zones are told apart -----------------------------------------------------------------

  lemma CutLine(a: string, x: string, b: string, y: string)
    requires '\n' !in a && '\n' !in b && a + ("\n" + x) == b + ("\n" + y)
    ensures a == b && x == y
  {
    var s := a + ("\n" + x);
    assert forall k | 0 <= k < |a| :: s[k] == a[k] && s[k] != '\n';
    assert forall k | 0 <= k < |b| :: s[k] == b[k] && s[k] != '\n';
    assert s[|a|] == '\n' && s[|b|] == '\n';
    assert |a| == |b|;
    assert a == s[..|a|] && b == s[..|b|];
    assert x == s[|a| + 1..] && y == s[|b| + 1..];
  }

  /** Texts that end in a space and a word determine both parts. */
  lemma CutLast(p: string, v: string, q: string, w: string)
    requires NoSpace(v) && NoSpace(w) && p + (" " + v) == q + (" " + w)
    ensures p == q && v == w
  {
    var s := p + (" " + v);
    assert IsSpace(' ');
    assert forall k | |p| < k < |s| :: s[k] == v[k - |p| - 1] && s[k] != ' ';
    assert forall k | |q| < k < |s| :: s[k] == w[k - |q| - 1] && s[k] != ' ';
    assert s[|p|] == ' ' && s[|q|] == ' ';
    assert |p| == |q|;
    assert p == s[..|p|] && q == s[..|q|];
    assert v == s[|p| + 1..] && w == s[|q| + 1..];
  }

  lemma StrInjective(m: int, n: int)
    requires Text.Str(m) == Text.Str(n)
    ensures m == n
  {
    StrIsWord(m);
    StrIsWord(n);
    assert m >= 0 ==> Text.Str(m)[0] in Text.Str(m);
    assert n >= 0 ==> Text.Str(n)[0] in Text.Str(n);
    var a, b := if m < 0 then -m else m, if n < 0 then -n else n;
    if m < 0 { CancelLeft("-", Text.Decimal(a), Text.Decimal(b)); }
    Text.DecimalRoundTrip(a);
    Text.DecimalRoundTrip(b);
  }

  lemma FromTheEnd(n: string, d: string, t: string, v: string)
    ensures n + (" " + (d + (" " + ("IN" + (" " + (t + (" " + v))))))) ==
            (((n + (" " + d)) + (" " + "IN")) + (" " + t)) + (" " + v)
  {
    Bracket("IN", " ", t, " " + v);
    Bracket(d, " ", "IN", " " + t);
    Bracket(d, " ", "IN" + (" " + t), " " + v);
    Bracket(n, " ", d, " " + "IN");
    Bracket(n, " ", d + (" " + "IN"), " " + t);
    Bracket(n, " ", d + (" " + ("IN" + (" " + t))), " " + v);
  }

  lemma LineInjective(r: DnsRecord, q: DnsRecord)
    requires TidyRecord(r) && TidyRecord(q) && RecordLine(r) == RecordLine(q)
    ensures r == q
  {
    var d, e := Text.Str(r.ttlSeconds), Text.Str(q.ttlSeconds);
    var t, u := TypeName(r.rtype), TypeName(q.rtype);
    LineFromTheEnd(r);
    LineFromTheEnd(q);
    StrIsWord(r.ttlSeconds);
    StrIsWord(q.ttlSeconds);
    TypeIsWord(r.rtype);
    TypeIsWord(q.rtype);
    CutLast(((r.name + (" " + d)) + (" " + "IN")) + (" " + t), r.value,
            ((q.name + (" " + e)) + (" " + "IN")) + (" " + u), q.value);
    CutLast((r.name + (" " + d)) + (" " + "IN"), t, (q.name + (" " + e)) + (" " + "IN"), u);
    CancelRight(r.name + (" " + d), q.name + (" " + e), " " + "IN");
    CutLast(r.name, d, q.name, e);
    StrInjective(r.ttlSeconds, q.ttlSeconds);
  }

  lemma LineFromTheEnd(r: DnsRecord)
    ensures RecordLine(r) ==
      (((r.name + (" " + Text.Str(r.ttlSeconds))) + (" " + "IN")) + (" " + TypeName(r.rtype))) + (" " + r.value)
  {
    assert r.value + "" == r.value;
    FromTheEnd(r.name, Text.Str(r.ttlSeconds), TypeName(r.rtype), r.value);
  }

  lemma {:induction false} RecordsInjective(rs: seq<DnsRecord>, qs: seq<DnsRecord>)
    requires forall i | 0 <= i < |rs| :: TidyRecord(rs[i])
    requires forall i | 0 <= i < |qs| :: TidyRecord(qs[i])
    requires RecordsText(rs) == RecordsText(qs)
    ensures rs == qs
  {
    if rs == [] || qs == [] {
      assert rs != [] ==> RecordsText(rs) != "";
      assert qs != [] ==> RecordsText(qs) != "";
    } else {
      FirstRecordInjective(rs[0], qs[0], RecordsText(rs[1..]), RecordsText(qs[1..]));
      RecordsInjective(rs[1..], qs[1..]);
      assert rs == [rs[0]] + rs[1..] && qs == [qs[0]] + qs[1..];
    }
  }

  lemma FirstRecordInjective(r: DnsRecord, q: DnsRecord, x: string, y: string)
    requires TidyRecord(r) && TidyRecord(q) && RecordText(r, "\n" + x) == RecordText(q, "\n" + y)
    ensures r == q && x == y
  {
    RecordTextIsLine(r, "\n" + x);
    RecordTextIsLine(q, "\n" + y);
    LineCounts(r);
    LineCounts(q);
    CutLine(RecordLine(r), x, RecordLine(q), y);
    LineInjective(r, q);
  }

  /** The head up to the SOA line, as a prefix. */
  function HeadPrefix(zone: string): string {
    HEADER + (zone + ("\n" + ("$ORIGIN" + (" " + (Fqdn(zone) + ("\n" + ("$TTL" + (" " + ("300" + "\n")))))))))
  }

  lemma HeadIsPrefix(z: DnsZoneSpec, rest: string)
    ensures HeadText(z, rest) == HeadPrefix(z.zone) + FromSoa(z, rest)
  {
    var s, f := FromSoa(z, rest), Fqdn(z.zone);
    Bracket("300", "\n", "", s);
    assert "\n" + "" == "\n" && "" + s == s;
    Bracket("$TTL", " ", "300" + "\n", s);
    Bracket(f, "\n", "$TTL" + (" " + ("300" + "\n")), s);
    Bracket("$ORIGIN", " ", f + ("\n" + ("$TTL" + (" " + ("300" + "\n")))), s);
    var o := "$ORIGIN" + (" " + (f + ("\n" + ("$TTL" + (" " + ("300" + "\n"))))));
    Bracket(z.zone, "\n", o, s);
    Assoc(HEADER, z.zone + ("\n" + o), s);
  }

  lemma TimersInjective(y: DnsZoneSpec, z: DnsZoneSpec, a: string, b: string)
    requires y.zone == z.zone && FromTimers(y, a) == FromTimers(z, b)
    ensures a == b
  {
    var p, q := FromNs(y, a), FromNs(z, b);
    CancelLine(" 3600 ; refresh",
               " 600 ; retry" + ("\n" + (" 604800 ; expire" + ("\n" + (" 300 ; minimum" + ("\n" + p))))),
               " 600 ; retry" + ("\n" + (" 604800 ; expire" + ("\n" + (" 300 ; minimum" + ("\n" + q))))));
    CancelLine(" 600 ; retry", " 604800 ; expire" + ("\n" + (" 300 ; minimum" + ("\n" + p))),
               " 604800 ; expire" + ("\n" + (" 300 ; minimum" + ("\n" + q))));
    CancelLine(" 604800 ; expire", " 300 ; minimum" + ("\n" + p), " 300 ; minimum" + ("\n" + q));
    CancelLine(" 300 ; minimum", p, q);
    CancelLine(")", NsLine(y) + ("\n" + a), NsLine(z) + ("\n" + b));
    CancelLine(NsLine(y), a, b);
  }

  lemma CancelLine(line: string, x: string, y: string)
    requires line + ("\n" + x) == line + ("\n" + y)
    ensures x == y
  {
    CancelLeft(line, "\n" + x, "\n" + y);
    CancelLeft("\n", x, y);
  }

  lemma SoaOneLine(z: DnsZoneSpec)
    requires NoSpace(z.zone) && '\n' !in z.soaEmail
    ensures '\n' !in SoaLine(z)
  {
    NoSpaceNoNewline(Fqdn(z.zone));
  }

  lemma SameZoneName(y: DnsZoneSpec, z: DnsZoneSpec, a: string, b: string)
    requires NoSpace(y.zone) && NoSpace(z.zone) && HeadText(y, a) == HeadText(z, b)
    ensures y.zone == z.zone
  {
    var o, p := FromOrigin(y, a), FromOrigin(z, b);
    CancelLeft(HEADER, y.zone + ("\n" + o), z.zone + ("\n" + p));
    NoSpaceNoNewline(y.zone);
    NoSpaceNoNewline(z.zone);
    CutLine(y.zone, o, z.zone, p);
  }

  /** Different tidy zones are written differently. */
  lemma TidyIsInjective(y: DnsZoneSpec, z: DnsZoneSpec, isIp: string -> bool)
    requires Tidy(y, isIp) && Tidy(z, isIp) && RenderZone(y) == RenderZone(z)
    ensures y == z
  {
    var a, b := RecordsText(y.records), RecordsText(z.records);
    RenderedText(y);
    RenderedText(z);
    SameZoneName(y, z, a, b);
    HeadIsPrefix(y, a);
    HeadIsPrefix(z, b);
    CancelLeft(HeadPrefix(y.zone), FromSoa(y, a), FromSoa(z, b));
    SoaOneLine(y);
    SoaOneLine(z);
    CutLine(SoaLine(y), FromTimers(y, a), SoaLine(z), FromTimers(z, b));
    SoaFromLine(y, z);
    TimersInjective(y, z, a, b);
    RecordsInjective(y.records, z.records);
  }

  // ---- Exactly which tidy zones agree --------------------------------------------------------------

  lemma FaithfulIff(names: set<string>, specs: iset<DnsZoneSpec>, isIp: string -> bool)
    requires forall z | z in specs :: Tidy(z, isIp)
    ensures Faithful(names, specs, Files(isIp)) <==>
            OwnFiles(names, specs) && forall z | z in specs :: AddressesRead(z)
  {
    forall z | z in specs ensures ReadsTrue(z, Files(isIp)) <==> AddressesRead(z) { ReadsTrueIff(z, isIp); }
    forall y, z | y in specs && z in specs && y.zone == z.zone && Files(isIp).render(y) == Files(isIp).render(z)
      ensures y == z
    {
      TidyIsInjective(y, z, isIp);
    }
  }

  /** Over some names and tidy zones, the adapter gives the dictionary store's answers on all
      runs if and only if no zone shares its file with another name and every zone's address
      records are read. */
  lemma FilesAgreeIff(names: set<string>, specs: iset<DnsZoneSpec>, isIp: string -> bool)
    requires Named(names, specs) && forall z | z in specs :: Tidy(z, isIp)
    ensures (OwnFiles(names, specs) && forall z | z in specs :: AddressesRead(z)) <==>
            forall ops | Over(ops, names, specs) :: FileRun(ops, Files(isIp)).0 == FakeRun(ops).0
  {
    FaithfulIff(names, specs, isIp);
    AgreementIff(names, specs, Files(isIp));
  }

  ghost predicate RunsAgreeOn(names: set<string>, specs: iset<DnsZoneSpec>, c: Codec) {
    forall ops | Over(ops, names, specs) :: FileRun(ops, c).0 == FakeRun(ops).0
  }

  ghost predicate ListingsAgreeOn(names: set<string>, specs: iset<DnsZoneSpec>, c: Codec) {
    forall ops, r | Over(ops, names, specs) && IsListing(r, FileRun(ops, c).1, c.parse) ::
      r.Ok? && ListsZones(r.value, FakeRun(ops).1)
  }

  ghost predicate AllReadBack(specs: iset<DnsZoneSpec>, c: Codec) { forall z | z in specs :: ReadsBack(z, c) }

  ghost predicate AllPlain(specs: iset<DnsZoneSpec>) { forall z | z in specs :: Plain(z) }

  ghost predicate AllAddressesRead(specs: iset<DnsZoneSpec>) { forall z | z in specs :: AddressesRead(z) }

  lemma ListingPart(names: set<string>, specs: iset<DnsZoneSpec>, c: Codec)
    requires Faithful(names, specs, c) && Named(names, specs)
    ensures ListingsAgreeOn(names, specs, c) <==> AllReadBack(specs, c)
  {
    ListingAgreesIff(names, specs, c);
  }

  lemma PlainPart(specs: iset<DnsZoneSpec>, isIp: string -> bool)
    requires forall z | z in specs :: Tidy(z, isIp)
    ensures AllPlain(specs) <==> AllReadBack(specs, Files(isIp))
    ensures AllPlain(specs) ==> AllAddressesRead(specs)
  {
    forall z | z in specs ensures ReadsBack(z, Files(isIp)) <==> Plain(z) { PlainIffReadsBack(z, isIp); }
    forall z | z in specs && Plain(z) ensures AddressesRead(z) { AddressesReadIff(z); }
  }

  /** And it also lists the dictionary's zones after every run if and only if every record of
      every zone is plain. */
  lemma FilesListIff(names: set<string>, specs: iset<DnsZoneSpec>, isIp: string -> bool)
    requires Named(names, specs) && forall z | z in specs :: Tidy(z, isIp)
    ensures OwnFiles(names, specs) && AllPlain(specs) <==>
            RunsAgreeOn(names, specs, Files(isIp)) && ListingsAgreeOn(names, specs, Files(isIp))
  {
    var c := Files(isIp);
    PlainPart(specs, isIp);
    assert RunsAgreeOn(names, specs, c) <==> OwnFiles(names, specs) && AllAddressesRead(specs) by {
      FilesAgreeIff(names, specs, isIp);
    }
    assert Faithful(names, specs, c) <==> OwnFiles(names, specs) && AllAddressesRead(specs) by {
      FaithfulIff(names, specs, isIp);
    }
    if Faithful(names, specs, c) { ListingPart(names, specs, c); }
  }

  lemma PlainIffReadsBack(z: DnsZoneSpec, isIp: string -> bool)
    requires Valid(z, isIp) && '\n' !in z.soaEmail
    ensures ReadsBack(z, Files(isIp)) <==> Plain(z)
  {
    RoundTripIff(z, isIp);
  }

  // ---- Valid zones that are not tidy ---------------------------------------------------------------

  /** An address record of negative TTL is valid, and alone under its name it is never found. */
  lemma NegativeTtlIsLost(zone: string, ip: string, ttl: int, isIp: string -> bool)
    requires ValidZoneName(zone) && NoSpace(zone) && isIp(ip) && NoSpace(ip) && ip != "" && ttl < 0
    ensures var z := DnsZoneSpec(zone, [Host(ip).(ttlSeconds := ttl)], DEFAULT_SOA);
      Valid(z, isIp) && !ReadsTrue(z, Files(isIp))
  {
    var r := Host(ip).(ttlSeconds := ttl);
    var z := DnsZoneSpec(zone, [r], DEFAULT_SOA);
    PlainAliasAndHost(ip, isIp);
    SoaOnOneLine();
    assert NoSpace("b") && '\n' !in "b" && "b" != "";
    assert TidyRecord(r) && z.records[0] == r;
    ReadsTrueIff(z, isIp);
    assert [r][1..] == [] && Lasting([r]) == [];
    assert !AddressRead(z.records, z.records[0].name);
  }

  /** What a line says behind its name: `300 IN <type> <value>`. */
  function Tail300(rtype: string, value: string): string {
    Text.Str(300) + (" " + ("IN" + (" " + (rtype + (" " + value)))))
  }

  // An alias `n` of `x 300 IN A <ip>` and an address record of `n 300 IN CNAME x`: one line.
  function LongAlias(ip: string): DnsRecord { DnsRecord("n", CNAME, "x" + (" " + Tail300("A", ip)), 300) }

  function LongHost(ip: string): DnsRecord { DnsRecord("n" + (" " + Tail300("CNAME", "x")), A, ip, 300) }

  lemma LongLine(ip: string)
    ensures RecordLine(LongAlias(ip)) == RecordLine(LongHost(ip))
  {
    var d, u := Text.Str(300), " " + Tail300("A", ip);
    assert ip + "" == ip && ("x" + u) + "" == "x" + u;
    Bracket("CNAME", " ", "x", u);
    Bracket("IN", " ", "CNAME" + (" " + "x"), u);
    Bracket(d, " ", "IN" + (" " + ("CNAME" + (" " + "x"))), u);
    Bracket("n", " ", Tail300("CNAME", "x"), u);
    assert RecordLine(LongHost(ip)) == ("n" + (" " + Tail300("CNAME", "x"))) + u;
    assert RecordLine(LongAlias(ip)) == "n" + (" " + Tail300("CNAME", "x" + u));
  }

  lemma SameLineSameText(zone: string, r: DnsRecord, q: DnsRecord)
    requires RecordLine(r) == RecordLine(q)
    ensures RenderZone(DnsZoneSpec(zone, [r], DEFAULT_SOA)) == RenderZone(DnsZoneSpec(zone, [q], DEFAULT_SOA))
  {
    var y, z := DnsZoneSpec(zone, [r], DEFAULT_SOA), DnsZoneSpec(zone, [q], DEFAULT_SOA);
    assert [r][1..] == [] && [q][1..] == [];
    RecordTextIsLine(r, "\n" + RecordsText([]));
    RecordTextIsLine(q, "\n" + RecordsText([]));
    RenderedText(y);
    RenderedText(z);
    SameHead(y, z, RecordsText(y.records));
  }

  /** So two valid zones of one record may have one text without any line end in a field. */
  lemma OneLineTwoZones(zone: string, ip: string, isIp: string -> bool)
    requires ValidZoneName(zone) && isIp(ip)
    ensures var y, z := DnsZoneSpec(zone, [LongAlias(ip)], DEFAULT_SOA), DnsZoneSpec(zone, [LongHost(ip)], DEFAULT_SOA);
      Valid(y, isIp) && Valid(z, isIp) && y != z && RenderZone(y) == RenderZone(z)
  {
    LongLine(ip);
    SameLineSameText(zone, LongAlias(ip), LongHost(ip));
    assert LongAlias(ip).rtype != LongHost(ip).rtype;
    assert [LongAlias(ip)][0] != [LongHost(ip)][0];
    LongRecordsValid(ip, isIp);
  }

  lemma LongRecordsValid(ip: string, isIp: string -> bool)
    requires isIp(ip)
    ensures ValidRecord(LongAlias(ip), isIp) && ValidRecord(LongHost(ip), isIp)
  {
    NotInTail('/', "CNAME", "x");
    NotInTail('\n', "CNAME", "x");
  }

  lemma NotInTail(c: char, rtype: string, value: string)
    requires !Text.IsDigit(c) && c != ' ' && c != 'I' && c != 'N' && c !in rtype && c !in value
    ensures c !in Tail300(rtype, value)
  {
    StrIsWord(300);
    assert c !in Text.Str(300);
  }

  /** The SOA address is not checked: one that runs over a line end may carry a record. */
  function SoaWith(r: DnsRecord): string { "x" + ("\n" + (RecordLine(r) + ("\n" + ";"))) }

  /** The SOA line then ends after the address's first word. */
  function ShortSoaLine(zone: string): string { "@" + (" " + ("IN SOA ns1." + (Fqdn(zone) + (" " + "x")))) }

  lemma SoaSplits(zone: string, r: DnsRecord, t: string)
    ensures ("@" + (" " + ("IN SOA ns1." + (Fqdn(zone) + (" " + (SoaWith(r) + " ( 1 ; serial")))))) + ("\n" + t)
      == ShortSoaLine(zone) + ("\n" + (RecordLine(r) + ("\n" + ((";" + (" " + "( 1 ; serial")) + ("\n" + t)))))
  {
    var l, e := RecordLine(r), " ( 1 ; serial";
    var u := "\n" + t;
    assert e == " " + "( 1 ; serial";
    Bracket(";", "", e, u);
    assert SoaWith(r) + e == "x" + ("\n" + (l + ("\n" + (";" + e))));
    var soa := "x" + ("\n" + (l + ("\n" + (";" + e))));
    assert soa + u == "x" + ("\n" + (l + ("\n" + ((";" + e) + u))));
    var f := Fqdn(zone);
    LongBracket(f, soa, u);
    LongBracket(f, "x", "\n" + (l + ("\n" + ((";" + e) + u))));
  }

  lemma LongBracket(f: string, soa: string, u: string)
    ensures ("@" + (" " + ("IN SOA ns1." + (f + (" " + soa))))) + u
         == "@" + (" " + ("IN SOA ns1." + (f + (" " + (soa + u)))))
  {
    Bracket(f, " ", soa, u);
    Assoc("IN SOA ns1.", f + (" " + soa), u);
    Bracket("@", " ", "IN SOA ns1." + (f + (" " + soa)), u);
  }

  lemma SkipShortSoa(zone: string, t: string)
    requires NoSpace(zone)
    ensures FindAll(ShortSoaLine(zone) + ("\n" + t), true) == FindAll(t, true)
  {
    var soa := "IN SOA ns1." + (Fqdn(zone) + (" " + "x"));
    NotANumber("@", " ", soa + ("\n" + t));
    Bracket("@", " ", soa, "\n" + t);
    NoSpaceNoNewline(Fqdn(zone));
    SkipLine(ShortSoaLine(zone), t);
  }

  lemma SkipSerial(t: string)
    ensures FindAll((";" + (" " + "( 1 ; serial")) + ("\n" + t), true) == FindAll(t, true)
  {
    NotANumber(";", " ", "( 1 ; serial" + ("\n" + t));
    Bracket(";", " ", "( 1 ; serial", "\n" + t);
    SkipLine(";" + (" " + "( 1 ; serial"), t);
  }

  lemma SoaRecordRead(z: DnsZoneSpec, r: DnsRecord, rest: string)
    requires NoSpace(z.zone) && z.soaEmail == SoaWith(r) && PlainRecord(r) && r.name != ""
    ensures FindAll(FromSoa(z, rest), true) == [Raw(r)] + FindAll(rest, true)
  {
    var t := FromTimers(z, rest);
    var serial := (";" + (" " + "( 1 ; serial")) + ("\n" + t);
    SoaSplits(z.zone, r, t);
    SkipShortSoa(z.zone, RecordLine(r) + ("\n" + serial));
    RecordTextIsLine(r, "\n" + serial);
    FirstReadBack(r, serial);
    SkipSerial(t);
    SkipTimers(z, rest);
  }

  /** Such a zone is valid and plain and does not survive: its file resolves a name that none of
      its records has. */
  lemma SoaMayCarryARecord(zone: string, ip: string, isIp: string -> bool)
    requires ValidZoneName(zone) && NoSpace(zone) && isIp(ip) && NoSpace(ip) && ip != ""
    ensures var z := DnsZoneSpec(zone, [], SoaWith(Host(ip)));
      && Valid(z, isIp) && Plain(z)
      && ParseZone(RenderZone(z), isIp) == Zone(DnsZoneSpec(zone, [Host(ip)], DEFAULT_SOA))
      && FirstAddress(z.records, "b") == None && FirstAddress([Host(ip)], "b") == Some(ip)
  {
    var z := DnsZoneSpec(zone, [], SoaWith(Host(ip)));
    var text := RenderZone(z);
    PlainAliasAndHost(ip, isIp);
    assert FindHeader(text, true) == Some(zone) && FindAll(text, true) == [Raw(Host(ip))] by {
      RenderedText(z);
      HeaderReadBack(z, "");
      SkipToSoa(z, "");
      SoaRecordRead(z, Host(ip), "");
    }
    RecordsRebuilt([Raw(Host(ip))], [Host(ip)]);
    ParsedFrom(text, zone, [Host(ip)], isIp);
  }

  lemma SkipToSoa(z: DnsZoneSpec, rest: string)
    requires NoSpace(z.zone)
    ensures FindAll(HeadText(z, rest), true) == FindAll(FromSoa(z, rest), true)
  {
    SkipHeader(z.zone, FromOrigin(z, rest));
    SkipOriginLine(z, rest);
    SkipTtlLine(FromSoa(z, rest));
  }
}
