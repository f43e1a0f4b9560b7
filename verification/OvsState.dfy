/** The read-only view of local OVS and its canonical form, whose encoding is what the
    state hash is taken over. */
module OvsState {
  import opened Common
  import opened Ordering

  datatype InterfaceState = InterfaceState(name: string, ifaceType: string, options: Dict, adminState: string)

  datatype PortState = PortState(
    name: string, interfaces: seq<InterfaceState>, tag: Option<int>, trunks: seq<int>, externalIds: Dict)

  datatype BridgeState = BridgeState(
    name: string, datapathType: string, ports: seq<PortState>, externalIds: Dict)

  datatype OvsState = OvsState(version: Option<string>, bridges: seq<BridgeState>)

  // ---- Named lists -------------------------------------------------------------

  function ByName<T>(name: T -> string): (T, T) -> bool {
    (x, y) => StrLeq(name(x), name(y))
  }

  function MapSeq<S, T>(f: S -> T, s: seq<S>): (r: seq<T>)
    ensures |r| == |s| && forall i | 0 <= i < |s| :: r[i] == f(s[i])
  {
    seq(|s|, i requires 0 <= i < |s| => f(s[i]))
  }

  /** `[x.to_canonical() for x in sorted(xs, key=name)]` */
  function CanonList<T>(s: seq<T>, name: T -> string, canon: T -> T): seq<T> {
    MapSeq(canon, Sort(ByName(name), s))
  }

  ghost predicate Distinct<T>(s: seq<T>, name: T -> string) {
    forall i, j | 0 <= i < j < |s| :: name(s[i]) != name(s[j])
  }

  ghost predicate Named<T>(s: seq<T>, name: T -> string, n: string) {
    exists x :: x in s && name(x) == n
  }

  /** The lists carry the same names, and elements with equal names are the same. */
  ghost predicate SameList<T(!new)>(a: seq<T>, b: seq<T>, name: T -> string, same: (T, T) -> bool) {
    && (forall x | x in a :: Named(b, name, name(x)))
    && (forall y | y in b :: Named(a, name, name(y)))
    && forall x, y | x in a && y in b && name(x) == name(y) :: same(x, y)
  }

  lemma ByNameIsTotalPreorder<T(!new)>(name: T -> string)
    ensures TotalPreorder(ByName(name))
  {
    forall x, y ensures ByName(name)(x, y) || ByName(name)(y, x) {
      StrLeqTotal(name(x), name(y));
    }
    forall x, y, z | ByName(name)(x, y) && ByName(name)(y, z) ensures ByName(name)(x, z) {
      StrLeqTransitive(name(x), name(y), name(z));
    }
  }

  /** In a list with distinct names a name determines the element. */
  lemma NameDetermines<T>(s: seq<T>, name: T -> string, x: T, y: T)
    requires Distinct(s, name) && x in s && y in s && name(x) == name(y)
    ensures x == y
  {
    var i :| 0 <= i < |s| && s[i] == x;
    var j :| 0 <= j < |s| && s[j] == y;
    assert i == j;
  }

  /** Sorting by name keeps the elements and the distinctness of their names. */
  lemma SortByName<T(!new)>(s: seq<T>, name: T -> string)
    requires Distinct(s, name)
    ensures Sorted(ByName(name), Sort(ByName(name), s)) && Distinct(Sort(ByName(name), s), name)
    ensures forall x :: x in Sort(ByName(name), s) <==> x in s
  {
    ByNameIsTotalPreorder(name);
    SortSorts(ByName(name), s);
    var r := Sort(ByName(name), s);
    forall i, j | 0 <= i < j < |r| ensures name(r[i]) != name(r[j]) {
      if name(r[i]) == name(r[j]) {
        assert r[i] in s && r[j] in s;
        NameDetermines(s, name, r[i], r[j]);
        Twice(r, i, j);
        assert multiset(s)[r[i]] >= 2;
        Once(s, name, r[i]);
      }
    }
  }

  /** Two name-sorted lists with the same names agree name by name. */
  lemma {:induction false} NamesAlign<T(!new)>(a: seq<T>, b: seq<T>, name: T -> string)
    requires Sorted(ByName(name), a) && Distinct(a, name)
    requires Sorted(ByName(name), b) && Distinct(b, name)
    requires forall x | x in a :: Named(b, name, name(x))
    requires forall y | y in b :: Named(a, name, name(y))
    ensures |a| == |b| && forall i | 0 <= i < |a| :: name(a[i]) == name(b[i])
  {
    assert a != [] ==> Named(b, name, name(a[0]));
    assert b != [] ==> Named(a, name, name(b[0]));
    if a == [] {
    } else {
      var y :| y in b && name(y) == name(a[0]);
      var x :| x in a && name(x) == name(b[0]);
      HeadLeast(a, name, x);
      HeadLeast(b, name, y);
      StrLeqTotal(name(a[0]), name(b[0]));
      TailNamed(a, b, name);
      TailNamed(b, a, name);
      NamesAlign(a[1..], b[1..], name);
    }
  }

  lemma HeadLeast<T(!new)>(s: seq<T>, name: T -> string, x: T)
    requires Sorted(ByName(name), s) && x in s
    ensures StrLeq(name(s[0]), name(x))
  {
    var i :| 0 <= i < |s| && s[i] == x;
    StrLeqTotal(name(x), name(x));
    if i > 0 { assert ByName(name)(s[0], s[i]); }
  }

  lemma TailNamed<T(!new)>(a: seq<T>, b: seq<T>, name: T -> string)
    requires a != [] && b != [] && Distinct(a, name) && name(a[0]) == name(b[0])
    requires forall x | x in a :: Named(b, name, name(x))
    ensures forall x | x in a[1..] :: Named(b[1..], name, name(x))
  {
    forall x | x in a[1..] ensures Named(b[1..], name, name(x)) {
      var i :| 0 <= i < |a[1..]| && a[1..][i] == x;
      assert a[i + 1] == x && name(a[0]) != name(x);
      assert Named(b, name, name(x));
      var y :| y in b && name(y) == name(x);
      var j :| 0 <= j < |b| && b[j] == y;
      assert y == b[1..][j - 1];
    }
  }

  /** If an element's canonical form decides sameness and fixes its name, then the canonical
      list decides sameness of lists. */
  lemma NormalList<T(!new)>(a: seq<T>, b: seq<T>, name: T -> string, canon: T -> T, same: (T, T) -> bool)
    requires Distinct(a, name) && Distinct(b, name)
    requires forall x, y | x in a && y in b :: same(x, y) <==> canon(x) == canon(y)
    requires forall x, y | x in a && y in b && canon(x) == canon(y) :: name(x) == name(y)
    ensures CanonList(a, name, canon) == CanonList(b, name, canon) <==> SameList(a, b, name, same)
  {
    if SameList(a, b, name, same) { SameGivesCanon(a, b, name, canon, same); }
    if CanonList(a, name, canon) == CanonList(b, name, canon) {
      SortByName(a, name);
      SortByName(b, name);
      var sa, sb := Sort(ByName(name), a), Sort(ByName(name), b);
      Partner(a, b, sa, sb, name, canon);
      Partner(b, a, sb, sa, name, canon);
      forall x, y | x in a && y in b && name(x) == name(y) ensures same(x, y) {
        var z :| z in b && canon(z) == canon(x);
        NameDetermines(b, name, y, z);
      }
    }
  }

  lemma SameGivesCanon<T(!new)>(a: seq<T>, b: seq<T>, name: T -> string, canon: T -> T, same: (T, T) -> bool)
    requires Distinct(a, name) && Distinct(b, name)
    requires forall x, y | x in a && y in b :: same(x, y) <==> canon(x) == canon(y)
    requires SameList(a, b, name, same)
    ensures CanonList(a, name, canon) == CanonList(b, name, canon)
  {
    SortByName(a, name);
    SortByName(b, name);
    var sa, sb := Sort(ByName(name), a), Sort(ByName(name), b);
    NamedTransfer(a, b, sa, sb, name);
    NamedTransfer(b, a, sb, sa, name);
    NamesAlign(sa, sb, name);
    AlignedCanon(a, b, sa, sb, name, canon, same);
  }

  lemma AlignedCanon<T(!new)>(a: seq<T>, b: seq<T>, sa: seq<T>, sb: seq<T>,
                              name: T -> string, canon: T -> T, same: (T, T) -> bool)
    requires (forall x | x in sa :: x in a) && (forall y | y in sb :: y in b)
    requires |sa| == |sb| && forall i | 0 <= i < |sa| :: name(sa[i]) == name(sb[i])
    requires forall x, y | x in a && y in b && name(x) == name(y) :: same(x, y)
    requires forall x, y | x in a && y in b :: same(x, y) <==> canon(x) == canon(y)
    ensures MapSeq(canon, sa) == MapSeq(canon, sb)
  {
    forall i | 0 <= i < |sa| ensures canon(sa[i]) == canon(sb[i]) {
      assert sa[i] in a && sb[i] in b;
    }
  }

  lemma NamedTransfer<T(!new)>(a: seq<T>, b: seq<T>, sa: seq<T>, sb: seq<T>, name: T -> string)
    requires (forall x :: x in sa <==> x in a) && (forall y :: y in sb <==> y in b)
    requires forall x | x in a :: Named(b, name, name(x))
    ensures forall x | x in sa :: Named(sb, name, name(x))
  {
    forall x | x in sa ensures Named(sb, name, name(x)) {
      var y :| y in b && name(y) == name(x);
      assert y in sb;
    }
  }

  lemma Partner<T(!new)>(a: seq<T>, b: seq<T>, sa: seq<T>, sb: seq<T>, name: T -> string, canon: T -> T)
    requires MapSeq(canon, sa) == MapSeq(canon, sb)
    requires (forall x :: x in sa <==> x in a) && (forall y :: y in sb <==> y in b)
    requires forall x, y | x in a && y in b && canon(x) == canon(y) :: name(x) == name(y)
    ensures forall x | x in a :: exists y :: y in b && canon(y) == canon(x)
    ensures forall x | x in a :: Named(b, name, name(x))
  {
    forall x | x in a ensures (exists y :: y in b && canon(y) == canon(x)) && Named(b, name, name(x)) {
      var i :| 0 <= i < |sa| && sa[i] == x;
      assert MapSeq(canon, sa)[i] == MapSeq(canon, sb)[i];
      assert sb[i] in b && canon(sb[i]) == canon(x);
    }
  }

  // ---- The four levels ---------------------------------------------------------

  predicate IntLeq(a: int, b: int) { a <= b }

  function InterfaceName(i: InterfaceState): string { i.name }
  function PortName(p: PortState): string { p.name }
  function BridgeName(b: BridgeState): string { b.name }

  function CanonInterface(i: InterfaceState): InterfaceState { i }

  function CanonPort(p: PortState): PortState {
    PortState(p.name, CanonList(p.interfaces, InterfaceName, CanonInterface), p.tag,
              Sort(IntLeq, p.trunks), p.externalIds)
  }

  function CanonBridge(b: BridgeState): BridgeState {
    BridgeState(b.name, b.datapathType, CanonList(b.ports, PortName, CanonPort), b.externalIds)
  }

  /** `OvsState.to_canonical()`; dictionaries are order-free already. */
  function Canon(s: OvsState): OvsState {
    OvsState(s.version, CanonList(s.bridges, BridgeName, CanonBridge))
  }

  /** The state hash. SHA-256 over the JSON text of the canonical form is taken to be
      injective, so the canonical form itself stands for it. */
  function Hash(s: OvsState): OvsState { Canon(s) }

  ghost predicate SameInterface(a: InterfaceState, b: InterfaceState) { a == b }

  ghost predicate SamePort(a: PortState, b: PortState) {
    && a.name == b.name && a.tag == b.tag && a.externalIds == b.externalIds
    && multiset(a.trunks) == multiset(b.trunks)
    && SameList(a.interfaces, b.interfaces, InterfaceName, SameInterface)
  }

  ghost predicate SameBridge(a: BridgeState, b: BridgeState) {
    && a.name == b.name && a.datapathType == b.datapathType && a.externalIds == b.externalIds
    && SameList(a.ports, b.ports, PortName, SamePort)
  }

  /** Equality of content: no mention of order at any level. */
  ghost predicate Same(a: OvsState, b: OvsState) {
    a.version == b.version && SameList(a.bridges, b.bridges, BridgeName, SameBridge)
  }

  ghost predicate DistinctNames(s: OvsState) {
    && Distinct(s.bridges, BridgeName)
    && forall b | b in s.bridges :: DistinctInBridge(b)
  }

  ghost predicate DistinctInBridge(b: BridgeState) {
    && Distinct(b.ports, PortName)
    && forall p | p in b.ports :: Distinct(p.interfaces, InterfaceName)
  }

  lemma TrunksNormal(a: seq<int>, b: seq<int>)
    ensures Sort(IntLeq, a) == Sort(IntLeq, b) <==> multiset(a) == multiset(b)
  {
    SortSorts(IntLeq, a);
    SortSorts(IntLeq, b);
    if multiset(a) == multiset(b) { SortedUnique(IntLeq, Sort(IntLeq, a), Sort(IntLeq, b)); }
  }

  lemma PortNormal(a: PortState, b: PortState)
    requires Distinct(a.interfaces, InterfaceName) && Distinct(b.interfaces, InterfaceName)
    ensures CanonPort(a) == CanonPort(b) <==> SamePort(a, b)
  {
    TrunksNormal(a.trunks, b.trunks);
    NormalList(a.interfaces, b.interfaces, InterfaceName, CanonInterface, SameInterface);
  }

  lemma BridgeNormal(a: BridgeState, b: BridgeState)
    requires DistinctInBridge(a) && DistinctInBridge(b)
    ensures CanonBridge(a) == CanonBridge(b) <==> SameBridge(a, b)
  {
    forall p, q | p in a.ports && q in b.ports
      ensures SamePort(p, q) <==> CanonPort(p) == CanonPort(q)
    {
      PortNormal(p, q);
    }
    NormalList(a.ports, b.ports, PortName, CanonPort, SamePort);
  }

  /** The canonical form is a true normal form: it decides content equality. */
  lemma HashDecidesContent(a: OvsState, b: OvsState)
    requires DistinctNames(a) && DistinctNames(b)
    ensures Hash(a) == Hash(b) <==> Same(a, b)
  {
    forall p, q | p in a.bridges && q in b.bridges
      ensures SameBridge(p, q) <==> CanonBridge(p) == CanonBridge(q)
    {
      BridgeNormal(p, q);
    }
    NormalList(a.bridges, b.bridges, BridgeName, CanonBridge, SameBridge);
  }

  /** Without distinct names the hash does depend on tuple order. */
  lemma DuplicateNamesBreakTheHash(x: BridgeState, y: BridgeState)
    requires x.name == y.name && CanonBridge(x) != CanonBridge(y)
    ensures Hash(OvsState(None, [x, y])) != Hash(OvsState(None, [y, x]))
  {
    var le := ByName(BridgeName);
    StrLeqTotal(x.name, y.name);
    assert le(x, y) == StrLeq(BridgeName(x), BridgeName(y));
    assert le(y, x);
    assert [x, y][..1] == [x] && [y, x][..1] == [y];
    SortFixed(le, [x]);
    SortFixed(le, [y]);
    assert Insert(le, [x], y) == [x] + Insert(le, [], y);
    assert Insert(le, [y], x) == [y] + Insert(le, [], x);
    assert Hash(OvsState(None, [x, y])).bridges[0] == CanonBridge(x);
    assert Hash(OvsState(None, [y, x])).bridges[0] == CanonBridge(y);
  }

  // ---- Exactly when order does not matter ----------------------------------------------------

  /** Same-named elements have one canonical form. */
  ghost predicate TwinsAgree<T(!new)>(s: seq<T>, name: T -> string, canon: T -> T) {
    forall x, y | x in s && y in s && name(x) == name(y) :: canon(x) == canon(y)
  }

  ghost predicate OrderFree<T(!new)>(s: seq<T>, name: T -> string, canon: T -> T) {
    forall t | multiset(t) == multiset(s) :: CanonList(t, name, canon) == CanonList(s, name, canon)
  }

  lemma Taken<T>(s: seq<T>, i: nat)
    requires i < |s|
    ensures multiset(s) == multiset(s[..i] + s[i + 1..]) + multiset{s[i]}
  {
    assert s == s[..i] + [s[i]] + s[i + 1..];
  }

  lemma MapTaken<T>(f: T -> T, s: seq<T>, i: nat)
    requires i < |s|
    ensures multiset(MapSeq(f, s)) == multiset(MapSeq(f, s[..i] + s[i + 1..])) + multiset{f(s[i])}
  {
    var m := MapSeq(f, s);
    Taken(m, i);
    assert m[..i] + m[i + 1..] == MapSeq(f, s[..i] + s[i + 1..]);
  }

  lemma SameRest<T>(a: seq<T>, b: seq<T>, i: nat)
    requires a != [] && i < |b| && b[i] == a[0] && multiset(a) == multiset(b)
    ensures multiset(a[1..]) == multiset(b[..i] + b[i + 1..])
  {
    var x, rest := a[0], b[..i] + b[i + 1..];
    Taken(b, i);
    assert a == [x] + a[1..];
    assert multiset(a[1..]) == multiset(a) - multiset{x};
    assert multiset(rest) == multiset(b) - multiset{x};
  }

  lemma {:induction false} MapMultiset<T>(f: T -> T, a: seq<T>, b: seq<T>)
    requires multiset(a) == multiset(b)
    ensures multiset(MapSeq(f, a)) == multiset(MapSeq(f, b))
  {
    assert |multiset(a)| == |a| && |multiset(b)| == |b|;
    if a == [] {
    } else {
      assert a[0] in multiset(b);
      var i :| 0 <= i < |b| && b[i] == a[0];
      var rest := b[..i] + b[i + 1..];
      SameRest(a, b, i);
      MapMultiset(f, a[1..], rest);
      MapTaken(f, b, i);
      assert MapSeq(f, a) == [f(a[0])] + MapSeq(f, a[1..]);
    }
  }

  lemma TwinsAgreeSuffices<T(!new)>(s: seq<T>, t: seq<T>, name: T -> string, canon: T -> T)
    requires TwinsAgree(s, name, canon) && multiset(t) == multiset(s)
    requires forall x :: name(canon(x)) == name(x)
    ensures CanonList(t, name, canon) == CanonList(s, name, canon)
  {
    var le := ByName(name);
    ByNameIsTotalPreorder(name);
    SortSorts(le, s);
    SortSorts(le, t);
    var a, b := CanonList(s, name, canon), CanonList(t, name, canon);
    MapMultiset(canon, Sort(le, s), Sort(le, t));
    CanonSorted(Sort(le, s), name, canon);
    CanonSorted(Sort(le, t), name, canon);
    forall x, y | x in a && y in a && le(x, y) && le(y, x) ensures x == y {
      StrLeqTotal(name(x), name(y));
      var i :| 0 <= i < |a| && a[i] == x;
      var j :| 0 <= j < |a| && a[j] == y;
      assert Sort(le, s)[i] in s && Sort(le, s)[j] in s;
    }
    SortedUnique(le, a, b);
  }

  lemma CanonSorted<T(!new)>(s: seq<T>, name: T -> string, canon: T -> T)
    requires Sorted(ByName(name), s) && forall x :: name(canon(x)) == name(x)
    ensures Sorted(ByName(name), MapSeq(canon, s))
  {
    var c := MapSeq(canon, s);
    forall i, j | 0 <= i < j < |c| ensures ByName(name)(c[i], c[j]) { assert ByName(name)(s[i], s[j]); }
  }

  /** Lists with the same canonical forms in order have the same forms among the ties of x. */
  lemma {:induction false} TiesAlign<T(!new)>(a: seq<T>, b: seq<T>, name: T -> string, canon: T -> T, x: T)
    requires MapSeq(canon, a) == MapSeq(canon, b) && forall y :: name(canon(y)) == name(y)
    ensures MapSeq(canon, Ties(ByName(name), a, x)) == MapSeq(canon, Ties(ByName(name), b, x))
  {
    assert |MapSeq(canon, a)| == |a| && |MapSeq(canon, b)| == |b|;
    if a == [] {
    } else {
      assert canon(a[0]) == MapSeq(canon, a)[0] == MapSeq(canon, b)[0] == canon(b[0]);
      assert name(a[0]) == name(b[0]);
      assert MapSeq(canon, a[1..]) == MapSeq(canon, a)[1..] == MapSeq(canon, b)[1..] == MapSeq(canon, b[1..]);
      TiesAlign(a[1..], b[1..], name, canon, x);
    }
  }

  /** Two same-named elements at the head: the canonical list starts their tie with the first. */
  lemma TwinsInFront<T(!new)>(x: T, y: T, rest: seq<T>, name: T -> string, canon: T -> T)
    requires name(x) == name(y) && canon(x) != canon(y) && forall z :: name(canon(z)) == name(z)
    ensures CanonList([x, y] + rest, name, canon) != CanonList([y, x] + rest, name, canon)
  {
    var le := ByName(name);
    ByNameIsTotalPreorder(name);
    var a, b := [x, y] + rest, [y, x] + rest;
    SortStable(le, a, x);
    SortStable(le, b, x);
    StrLeqTotal(name(x), name(y));
    assert le(x, x) && le(x, y) && le(y, x);
    assert a[0] == x && b[0] == y;
    assert Ties(le, a, x) == [x] + Ties(le, a[1..], x) && Ties(le, b, x) == [y] + Ties(le, b[1..], x);
    assert MapSeq(canon, Ties(le, a, x))[0] == canon(x) && MapSeq(canon, Ties(le, b, x))[0] == canon(y);
    if CanonList(a, name, canon) == CanonList(b, name, canon) {
      TiesAlign(Sort(le, a), Sort(le, b), name, canon, x);
    }
  }

  /** A canonical list ignores the order it was given in if and only if same-named elements
      have one canonical form. */
  lemma OrderFreeIff<T(!new)>(s: seq<T>, name: T -> string, canon: T -> T)
    requires forall x :: name(canon(x)) == name(x)
    ensures OrderFree(s, name, canon) <==> TwinsAgree(s, name, canon)
  {
    if TwinsAgree(s, name, canon) {
      forall t | multiset(t) == multiset(s) ensures CanonList(t, name, canon) == CanonList(s, name, canon) {
        TwinsAgreeSuffices(s, t, name, canon);
      }
    } else {
      var x, y :| x in s && y in s && name(x) == name(y) && canon(x) != canon(y);
      var rest := ToFront(s, x, y);
      assert multiset([y, x] + rest) == multiset([x, y] + rest);
      TwinsInFront(x, y, rest, name, canon);
    }
  }

  lemma ToFront<T>(s: seq<T>, x: T, y: T) returns (rest: seq<T>)
    requires x in s && y in s && x != y
    ensures multiset([x, y] + rest) == multiset(s)
  {
    var i :| 0 <= i < |s| && s[i] == x;
    var r := s[..i] + s[i + 1..];
    Taken(s, i);
    assert y in multiset(s) && y in multiset(r);
    var j :| 0 <= j < |r| && r[j] == y;
    rest := r[..j] + r[j + 1..];
    Taken(r, j);
  }

  /** The hash ignores the order of the bridges if and only if same-named bridges have one
      canonical form; likewise a bridge and its ports, and a port and its interfaces. */
  lemma HashIgnoresOrderIff(s: OvsState)
    ensures (forall t | multiset(t) == multiset(s.bridges) :: Hash(s.(bridges := t)) == Hash(s))
            <==> TwinsAgree(s.bridges, BridgeName, CanonBridge)
  {
    OrderFreeIff(s.bridges, BridgeName, CanonBridge);
    forall t ensures Hash(s.(bridges := t)) == Hash(s)
      <==> CanonList(t, BridgeName, CanonBridge) == CanonList(s.bridges, BridgeName, CanonBridge) {}
  }

  lemma BridgeIgnoresOrderIff(b: BridgeState)
    ensures (forall t | multiset(t) == multiset(b.ports) :: CanonBridge(b.(ports := t)) == CanonBridge(b))
            <==> TwinsAgree(b.ports, PortName, CanonPort)
  {
    OrderFreeIff(b.ports, PortName, CanonPort);
    forall t ensures CanonBridge(b.(ports := t)) == CanonBridge(b)
      <==> CanonList(t, PortName, CanonPort) == CanonList(b.ports, PortName, CanonPort) {}
  }

  lemma PortIgnoresOrderIff(p: PortState)
    ensures (forall t | multiset(t) == multiset(p.interfaces) :: CanonPort(p.(interfaces := t)) == CanonPort(p))
            <==> TwinsAgree(p.interfaces, InterfaceName, CanonInterface)
  {
    OrderFreeIff(p.interfaces, InterfaceName, CanonInterface);
    forall t ensures CanonPort(p.(interfaces := t)) == CanonPort(p)
      <==> CanonList(t, InterfaceName, CanonInterface) == CanonList(p.interfaces, InterfaceName, CanonInterface) {}
  }
}
