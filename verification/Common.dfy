/** Shared vocabulary: optional values, results, and Python dictionaries read as maps. */
module Common {

  datatype Option<+T> = None | Some(value: T)

  datatype Result<+T, +E> = Ok(value: T) | Err(error: E)

  /** A Python `dict[str, str]`; insertion order carries no meaning here. */
  type Dict = map<string, string>

  /** `d.get(k)` */
  function Get<V>(m: map<string, V>, k: string): Option<V> {
    if k in m then Some(m[k]) else None
  }

  /** `d or default` on an optional value: a missing value takes the default. */
  function OrElse<T>(o: Option<T>, default: T): T {
    if o.Some? then o.value else default
  }

  /** `d.pop(k, None)` */
  function Drop<V>(m: map<string, V>, k: string): map<string, V> {
    map j | j in m && j != k :: m[j]
  }

  /** `s` lists every key of `m` once, in some order: one possible dictionary iteration. */
  ghost predicate Lists<V>(s: seq<string>, m: map<string, V>) {
    && (forall i, j | 0 <= i < j < |s| :: s[i] != s[j])
    && (forall k :: k in s <==> k in m)
  }

  /** Iterates over a dictionary's keys, in an order the caller may not rely on. */
  method Keys<V>(m: map<string, V>) returns (s: seq<string>)
    ensures Lists(s, m)
  {
    s := [];
    var rest := m.Keys;
    while rest != {}
      invariant rest <= m.Keys
      invariant forall i, j | 0 <= i < j < |s| :: s[i] != s[j]
      invariant forall k :: k in s <==> k in m && k !in rest
      decreases |rest|
    {
      var k :| k in rest;
      rest := rest - {k};
      s := s + [k];
    }
  }
}
