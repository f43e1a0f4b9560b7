/** Python's `sorted(xs, key=...)`: a stable sort, and the order on strings it uses. */
module Ordering {

  /** Strings compare code point by code point. */
  predicate StrLeq(a: string, b: string) {
    a == "" || (b != "" && (a[0] < b[0] || (a[0] == b[0] && StrLeq(a[1..], b[1..]))))
  }

  /** The order is lexicographic: a beginning comes first, else the first difference decides. */
  lemma {:induction false} StrLeqIff(a: string, b: string)
    ensures StrLeq(a, b) <==> a <= b || exists i :: DiffersFirst(a, b, i) && a[i] < b[i]
  {
    if a == "" || b == "" {
    } else if a[0] == b[0] {
      StrLeqIff(a[1..], b[1..]);
      assert a == [a[0]] + a[1..] && b == [b[0]] + b[1..];
      forall i ensures DiffersFirst(a[1..], b[1..], i) <==> DiffersFirst(a, b, i + 1) {}
      if i :| DiffersFirst(a[1..], b[1..], i) && a[1..][i] < b[1..][i] {
        assert DiffersFirst(a, b, i + 1) && a[i + 1] < b[i + 1];
      }
      if i :| DiffersFirst(a, b, i) && a[i] < b[i] {
        assert DiffersFirst(a[1..], b[1..], i - 1);
      }
    } else {
      assert DiffersFirst(a, b, 0);
    }
  }

  predicate DiffersFirst(a: string, b: string, i: int) {
    0 <= i < |a| && i < |b| && a[i] != b[i] && forall j | 0 <= j < i :: a[j] == b[j]
  }

  lemma {:induction false} StrLeqTotal(a: string, b: string)
    ensures StrLeq(a, b) || StrLeq(b, a)
    ensures StrLeq(a, b) && StrLeq(b, a) ==> a == b
  {
    if a != "" && b != "" {
      StrLeqTotal(a[1..], b[1..]);
      assert a == [a[0]] + a[1..] && b == [b[0]] + b[1..];
    }
  }

  lemma {:induction false} StrLeqTransitive(a: string, b: string, c: string)
    requires StrLeq(a, b) && StrLeq(b, c)
    ensures StrLeq(a, c)
  {
    if a != "" && a[0] == b[0] == c[0] {
      StrLeqTransitive(a[1..], b[1..], c[1..]);
    }
  }

  /** What `sorted` needs of the comparison of two keys. */
  ghost predicate TotalPreorder<T(!new)>(le: (T, T) -> bool) {
    && (forall x, y :: le(x, y) || le(y, x))
    && (forall x, y, z :: le(x, y) && le(y, z) ==> le(x, z))
  }

  ghost predicate Sorted<T>(le: (T, T) -> bool, s: seq<T>) {
    forall i, j | 0 <= i < j < |s| :: le(s[i], s[j])
  }

  /** Puts x behind every leading element that is not greater than it. */
  function Insert<T>(le: (T, T) -> bool, s: seq<T>, x: T): seq<T> {
    if s == [] then [x]
    else if le(s[0], x) then [s[0]] + Insert(le, s[1..], x)
    else [x] + s
  }

  function Sort<T>(le: (T, T) -> bool, s: seq<T>): seq<T> {
    if s == [] then [] else Insert(le, Sort(le, s[..|s| - 1]), s[|s| - 1])
  }

  lemma {:induction false} InsertAdds<T>(le: (T, T) -> bool, s: seq<T>, x: T)
    ensures multiset(Insert(le, s, x)) == multiset(s) + multiset{x}
    ensures forall y :: y in Insert(le, s, x) <==> y in s || y == x
  {
    if s == [] {
    } else {
      assert s == [s[0]] + s[1..];
      InsertAdds(le, s[1..], x);
    }
  }

  lemma {:induction false} InsertKeeps<T(!new)>(le: (T, T) -> bool, s: seq<T>, x: T)
    requires TotalPreorder(le) && Sorted(le, s)
    ensures Sorted(le, Insert(le, s, x))
    ensures multiset(Insert(le, s, x)) == multiset(s) + multiset{x}
  {
    InsertAdds(le, s, x);
    if s == [] {
    } else if le(s[0], x) {
      InsertKeeps(le, s[1..], x);
      InsertAdds(le, s[1..], x);
      SortedCons(le, s[0], Insert(le, s[1..], x));
    } else {
      SortedCons(le, x, s);
    }
  }

  lemma SortedCons<T>(le: (T, T) -> bool, x: T, s: seq<T>)
    requires Sorted(le, s) && forall y | y in s :: le(x, y)
    ensures Sorted(le, [x] + s)
  {
    assert forall j | 0 <= j < |s| :: s[j] in s;
  }

  /** Sorting orders the sequence and neither loses nor invents an element. */
  lemma {:induction false} SortSorts<T(!new)>(le: (T, T) -> bool, s: seq<T>)
    requires TotalPreorder(le)
    ensures Sorted(le, Sort(le, s))
    ensures multiset(Sort(le, s)) == multiset(s)
    ensures forall x :: x in Sort(le, s) <==> x in s
    ensures |Sort(le, s)| == |s|
  {
    if s != [] {
      var n := |s| - 1;
      assert s == s[..n] + [s[n]];
      SortSorts(le, s[..n]);
      InsertKeeps(le, Sort(le, s[..n]), s[n]);
    }
    assert forall x :: x in Sort(le, s) <==> x in multiset(Sort(le, s));
    assert |Sort(le, s)| == |multiset(Sort(le, s))|;
  }

  /** The elements of s that tie with x, in the order they stand in s. */
  function Ties<T>(le: (T, T) -> bool, s: seq<T>, x: T): seq<T> {
    if s == [] then []
    else (if le(s[0], x) && le(x, s[0]) then [s[0]] else []) + Ties(le, s[1..], x)
  }

  lemma {:induction false} TiesAppend<T>(le: (T, T) -> bool, a: seq<T>, b: seq<T>, x: T)
    ensures Ties(le, a + b, x) == Ties(le, a, x) + Ties(le, b, x)
  {
    if a == [] {
      assert a + b == b;
    } else {
      assert (a + b)[1..] == a[1..] + b;
      TiesAppend(le, a[1..], b, x);
    }
  }

  lemma {:induction false} InsertStable<T(!new)>(le: (T, T) -> bool, s: seq<T>, y: T, x: T)
    requires TotalPreorder(le) && Sorted(le, s)
    ensures Ties(le, Insert(le, s, y), x) == Ties(le, s, x) + Ties(le, [y], x)
  {
    if s == [] {
    } else if le(s[0], y) {
      InsertStable(le, s[1..], y, x);
      var r := Insert(le, s[1..], y);
      assert ([s[0]] + r)[0] == s[0] && ([s[0]] + r)[1..] == r;
      assert Ties(le, s, x) == (if le(s[0], x) && le(x, s[0]) then [s[0]] else []) + Ties(le, s[1..], x);
    } else {
      assert ([y] + s)[1..] == s;
      TiesAppend(le, [y], s, x);
      if le(x, y) && le(y, x) { NoTiesAbove(le, s, x); }
    }
  }

  lemma {:induction false} NoTiesAbove<T(!new)>(le: (T, T) -> bool, s: seq<T>, x: T)
    requires TotalPreorder(le) && Sorted(le, s) && (s != [] ==> !le(s[0], x))
    ensures Ties(le, s, x) == []
  {
    if s == [] {
    } else {
      NoTiesAbove(le, s[1..], x);
    }
  }

  /** Elements that tie keep their relative order. */
  lemma {:induction false} SortStable<T(!new)>(le: (T, T) -> bool, s: seq<T>, x: T)
    requires TotalPreorder(le)
    ensures Ties(le, Sort(le, s), x) == Ties(le, s, x)
  {
    if s == [] {
    } else {
      var n := |s| - 1;
      SortStable(le, s[..n], x);
      SortSorts(le, s[..n]);
      InsertStable(le, Sort(le, s[..n]), s[n], x);
      TiesAppend(le, s[..n], [s[n]], x);
      assert s == s[..n] + [s[n]];
    }
  }

  lemma HeadIsBelow<T>(le: (T, T) -> bool, s: seq<T>, x: T)
    requires Sorted(le, s) && x in s
    ensures x == s[0] || le(s[0], x)
  {
  }

  lemma SameTail<T>(a: seq<T>, b: seq<T>)
    requires a != [] && b != [] && a[0] == b[0] && multiset(a) == multiset(b)
    ensures multiset(a[1..]) == multiset(b[1..])
  {
    assert a == [a[0]] + a[1..] && b == [a[0]] + b[1..];
    assert multiset(a[1..]) == multiset(a) - multiset{a[0]};
    assert multiset(b[1..]) == multiset(b) - multiset{a[0]};
  }

  /** Where no two different elements tie, the sorted arrangement is unique. */
  lemma {:induction false} SortedUnique<T(!new)>(le: (T, T) -> bool, a: seq<T>, b: seq<T>)
    requires Sorted(le, a) && Sorted(le, b) && multiset(a) == multiset(b)
    requires forall x, y | x in a && y in a && le(x, y) && le(y, x) :: x == y
    ensures a == b
  {
    assert |multiset(a)| == |a| && |multiset(b)| == |b|;
    if a == [] {
    } else {
      assert a[0] in multiset(b) && b[0] in multiset(a);
      HeadIsBelow(le, a, b[0]);
      HeadIsBelow(le, b, a[0]);
      SameTail(a, b);
      assert forall x | x in a[1..] :: x in a;
      SortedUnique(le, a[1..], b[1..]);
      assert a == [a[0]] + a[1..] && b == [b[0]] + b[1..];
    }
  }

  lemma Twice<T>(s: seq<T>, i: nat, j: nat)
    requires i < j < |s| && s[i] == s[j]
    ensures multiset(s)[s[i]] >= 2
  {
    assert s == s[..i] + [s[i]] + s[i + 1..j] + [s[j]] + s[j + 1..];
  }

  /** Where keys are distinct no element occurs twice. */
  lemma {:induction false} Once<T, K>(s: seq<T>, key: T -> K, x: T)
    requires forall i, j | 0 <= i < j < |s| :: key(s[i]) != key(s[j])
    ensures multiset(s)[x] <= 1
  {
    if s == [] {
    } else {
      assert s == [s[0]] + s[1..];
      if s[0] == x {
        assert forall k | 0 <= k < |s[1..]| :: s[1..][k] == s[k + 1];
        assert x !in s[1..];
        assert x !in multiset(s[1..]);
      } else {
        Once(s[1..], key, x);
      }
    }
  }

  lemma {:induction false} InsertLargest<T(!new)>(le: (T, T) -> bool, s: seq<T>, x: T)
    requires forall y | y in s :: le(y, x)
    ensures Insert(le, s, x) == s + [x]
  {
    if s == [] {
    } else {
      InsertLargest(le, s[1..], x);
    }
  }

  /** Sorting what is already sorted changes nothing. */
  lemma {:induction false} SortFixed<T(!new)>(le: (T, T) -> bool, s: seq<T>)
    requires Sorted(le, s)
    ensures Sort(le, s) == s
  {
    if s == [] {
    } else {
      var n := |s| - 1;
      SortFixed(le, s[..n]);
      InsertLargest(le, s[..n], s[n]);
      assert s == s[..n] + [s[n]];
    }
  }
}
