/** Ordering rows for `sort_values`: the sort keys both cleaners use, their order,
    and a sort that returns a sorted permutation of its input. The library sort is
    not stable, so only "some sorted permutation" is promised of it; the model
    sorts by insertion. */
module Sorting {
  import opened Text

  /** A sort key: a parsed instant (`datetime64`), a timestamp that did not parse
      (`NaT`, which `sort_values` puts last), or a plain string. One sort uses
      either instants and `NaT`, or strings, never both. */
  datatype SortKey = Instant(t: int) | NotATime | Str(s: string)

  /** Ascending order: instants by time, then `NaT`; strings by Python's order. */
  predicate KeyLe(a: SortKey, b: SortKey) {
    match a
    case Instant(s) => !b.Instant? || s <= b.t
    case NotATime => !b.Instant?
    case Str(s) => b.Str? && LexLe(s, b.s)
  }

  lemma KeyLeTotal(a: SortKey, b: SortKey)
    ensures KeyLe(a, b) || KeyLe(b, a)
  {
    if a.Str? && b.Str? {
      LexLeTotal(a.s, b.s);
    }
  }

  lemma KeyLeTransitive(a: SortKey, b: SortKey, c: SortKey)
    requires KeyLe(a, b) && KeyLe(b, c)
    ensures KeyLe(a, c)
  {
    if a.Str? {
      LexLeTransitive(a.s, b.s, c.s);
    }
  }

  /** Every element's key is at most the key of every later element. */
  predicate SortedBy<T>(xs: seq<T>, key: T -> SortKey) {
    forall i, j :: 0 <= i < j < |xs| ==> KeyLe(key(xs[i]), key(xs[j]))
  }

  /** Puts `x` before the first element whose key is not below it. */
  function Insert<T>(x: T, s: seq<T>, key: T -> SortKey): (r: seq<T>)
    requires SortedBy(s, key)
    ensures multiset(r) == multiset(s) + multiset{x}
    ensures SortedBy(r, key)
    ensures r[0] == x || (|s| > 0 && r[0] == s[0])
    decreases |s|
  {
    if |s| == 0 then [x]
    else if KeyLe(key(x), key(s[0])) then
      InsertFrontSorted(x, s, key);
      [x] + s
    else
      KeyLeTotal(key(x), key(s[0]));
      var rest := Insert(x, s[1..], key);
      assert s == [s[0]] + s[1..];
      InsertFrontSorted(s[0], rest, key);
      [s[0]] + rest
  }

  /** An element at most the head of a sorted sequence may go in front of it. */
  lemma InsertFrontSorted<T>(x: T, s: seq<T>, key: T -> SortKey)
    requires SortedBy(s, key) && |s| > 0 && KeyLe(key(x), key(s[0]))
    ensures SortedBy([x] + s, key)
  {
    forall j | 0 < j <= |s| ensures KeyLe(key(x), key(([x] + s)[j])) {
      if j > 1 {
        KeyLeTransitive(key(x), key(s[0]), key(s[j - 1]));
      }
    }
  }

  /** A sorted permutation of `xs`. */
  function SortBy<T>(xs: seq<T>, key: T -> SortKey): (r: seq<T>)
    ensures multiset(r) == multiset(xs)
    ensures SortedBy(r, key)
    decreases |xs|
  {
    if |xs| == 0 then []
    else
      assert xs == [xs[0]] + xs[1..];
      Insert(xs[0], SortBy(xs[1..], key), key)
  }
}
