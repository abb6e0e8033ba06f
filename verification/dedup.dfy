/** pandas `drop_duplicates(subset=[key], keep="last")` on a sequence of rows,
    the "last write wins" map view of a sequence, and the facts the merge and
    clean steps rely on: unique keys, the kept row is the last one, concatenation,
    idempotence. Everything is generic in the row type `T` and the key type `K`. */
module Dedup {
  import opened Base

  /** The keys that occur in `xs`. */
  function Keys<T, K>(xs: seq<T>, key: T -> K): set<K>
    decreases |xs|
  {
    if |xs| == 0 then {} else {key(xs[0])} + Keys(xs[1..], key)
  }

  /** A key occurs exactly when some element carries it. */
  lemma {:induction false} KeysMember<T, K>(xs: seq<T>, key: T -> K, k: K)
    ensures k in Keys(xs, key) <==> exists j :: 0 <= j < |xs| && key(xs[j]) == k
    decreases |xs|
  {
    if |xs| > 0 {
      var t := xs[1..];
      KeysMember(t, key, k);
      if k in Keys(t, key) {
        var j :| 0 <= j < |t| && key(t[j]) == k;
        assert xs[j + 1] == t[j];
      }
      if exists j :: 0 <= j < |xs| && key(xs[j]) == k {
        var j :| 0 <= j < |xs| && key(xs[j]) == k;
        if j > 0 { assert t[j - 1] == xs[j]; }
      }
    }
  }

  /** No two elements share a key. */
  predicate UniqueKeys<T, K(==)>(xs: seq<T>, key: T -> K) {
    forall i, j :: 0 <= i < j < |xs| ==> key(xs[i]) != key(xs[j])
  }

  /** Reordering a key-unique sequence keeps it key-unique. */
  lemma UniqueKeysPermutation<T, K>(a: seq<T>, b: seq<T>, key: T -> K)
    requires multiset(a) == multiset(b) && UniqueKeys(a, key)
    ensures UniqueKeys(b, key)
  {
    assert Distinct(a);
    forall i, j | 0 <= i < j < |b| ensures key(b[i]) != key(b[j]) {
      MultiplicityTwo(b, i, j);
      DistinctMultiplicity(a, b[i]);
      assert b[i] in multiset(a) && b[j] in multiset(a);
      var i' :| 0 <= i' < |a| && a[i'] == b[i];
      var j' :| 0 <= j' < |a| && a[j'] == b[j];
      assert i' != j';
    }
  }

  /** Two positions holding the same value give it multiplicity at least two. */
  lemma MultiplicityTwo<T>(b: seq<T>, i: int, j: int)
    requires 0 <= i < j < |b|
    ensures b[i] == b[j] ==> multiset(b)[b[i]] >= 2
  {
    if b[i] == b[j] {
      assert b == b[..j] + [b[j]] + b[j + 1..];
      assert b[i] in b[..j];
    }
  }

  /** `xs[j]` is the last element of `xs` with its key. */
  ghost predicate LastOfKey<T, K>(xs: seq<T>, key: T -> K, j: int) {
    0 <= j < |xs| && forall j' :: j < j' < |xs| ==> key(xs[j']) != key(xs[j])
  }

  lemma KeysCons<T, K>(x: T, xs: seq<T>, key: T -> K)
    ensures Keys([x] + xs, key) == {key(x)} + Keys(xs, key)
  {
    assert ([x] + xs)[1..] == xs;
  }

  lemma {:induction false} KeysAppend<T, K>(xs: seq<T>, ys: seq<T>, key: T -> K)
    ensures Keys(xs + ys, key) == Keys(xs, key) + Keys(ys, key)
    decreases |xs|
  {
    if |xs| == 0 {
      assert xs + ys == ys;
    } else {
      assert (xs + ys)[1..] == xs[1..] + ys;
      assert (xs + ys)[0] == xs[0];
      KeysAppend(xs[1..], ys, key);
    }
  }

  /** The first element's key does not occur again. */
  lemma HeadKeyFresh<T, K>(xs: seq<T>, key: T -> K)
    requires |xs| > 0
    requires forall j :: 0 < j < |xs| ==> key(xs[j]) != key(xs[0])
    ensures key(xs[0]) !in Keys(xs[1..], key)
  {
    var t := xs[1..];
    forall j | 0 <= j < |t| ensures key(t[j]) != key(xs[0]) {
      assert t[j] == xs[j + 1];
    }
    KeysMember(t, key, key(xs[0]));
  }

  lemma UniqueTail<T, K>(xs: seq<T>, key: T -> K)
    requires |xs| > 0 && UniqueKeys(xs, key)
    ensures UniqueKeys(xs[1..], key)
    ensures key(xs[0]) !in Keys(xs[1..], key)
  {
    HeadKeyFresh(xs, key);
  }

  lemma UniqueCons<T, K>(x: T, xs: seq<T>, key: T -> K)
    requires UniqueKeys(xs, key) && key(x) !in Keys(xs, key)
    ensures UniqueKeys([x] + xs, key)
  {
    var r := [x] + xs;
    forall i, j | 0 <= i < j < |r| ensures key(r[i]) != key(r[j]) {
      assert r[j] == xs[j - 1];
      if i == 0 {
        KeysMember(xs, key, key(xs[j - 1]));
      } else {
        assert r[i] == xs[i - 1];
      }
    }
  }

  /** Keep-last deduplication: an element survives exactly when no later element
      has its key; the survivors keep their relative order. */
  function DedupKeepLast<T, K(==)>(xs: seq<T>, key: T -> K): (r: seq<T>)
    ensures |r| <= |xs|
    ensures Keys(r, key) == Keys(xs, key)
    ensures UniqueKeys(r, key)
    decreases |xs|
  {
    if |xs| == 0 then []
    else
      var rest := DedupKeepLast(xs[1..], key);
      assert xs == [xs[0]] + xs[1..];
      KeysCons(xs[0], xs[1..], key);
      if key(xs[0]) in Keys(xs[1..], key) then
        rest
      else
        KeysCons(xs[0], rest, key);
        UniqueCons(xs[0], rest, key);
        [xs[0]] + rest
  }

  /** A last-of-its-key element of the tail is a last-of-its-key element of the whole. */
  lemma LastOfKeyUntail<T, K>(xs: seq<T>, key: T -> K, j: int)
    requires 0 < j && LastOfKey(xs, key, j)
    ensures LastOfKey(xs[1..], key, j - 1)
  {
    forall j' | j - 1 < j' < |xs| - 1 ensures key(xs[1..][j']) != key(xs[1..][j - 1]) {
      assert xs[1..][j'] == xs[j' + 1];
    }
  }

  lemma LastOfKeyTail<T, K>(xs: seq<T>, key: T -> K, j: int)
    requires |xs| > 0 && LastOfKey(xs[1..], key, j)
    ensures LastOfKey(xs, key, j + 1)
  {
    forall j' | j + 1 < j' < |xs| ensures key(xs[j']) != key(xs[j + 1]) {
      assert xs[j'] == xs[1..][j' - 1];
    }
  }

  /** Every survivor is the last element of `xs` with its key. */
  lemma {:induction false} DedupOnlyLast<T, K>(xs: seq<T>, key: T -> K)
    ensures forall i :: 0 <= i < |DedupKeepLast(xs, key)| ==>
      exists j :: LastOfKey(xs, key, j) && DedupKeepLast(xs, key)[i] == xs[j]
    decreases |xs|
  {
    if |xs| > 0 {
      var t := xs[1..];
      var rest := DedupKeepLast(t, key);
      var r := DedupKeepLast(xs, key);
      DedupOnlyLast(t, key);
      assert xs == [xs[0]] + t;
      DedupCons(xs[0], t, key);
      var shift := if key(xs[0]) in Keys(t, key) then 0 else 1;
      if shift == 1 {
        forall j' | 0 < j' < |xs| ensures key(xs[j']) != key(xs[0]) {
          assert xs[j'] == t[j' - 1];
          KeysMember(t, key, key(t[j' - 1]));
        }
        assert LastOfKey(xs, key, 0);
      }
      forall i | 0 <= i < |r| ensures exists j :: LastOfKey(xs, key, j) && r[i] == xs[j] {
        if i < shift {
          assert r[i] == xs[0];
        } else {
          assert r[i] == rest[i - shift];
          var j :| LastOfKey(t, key, j) && rest[i - shift] == t[j];
          LastOfKeyTail(xs, key, j);
          assert r[i] == xs[j + 1];
        }
      }
      assert forall i :: 0 <= i < |r| ==> exists j :: LastOfKey(xs, key, j) && r[i] == xs[j];
    } else {
      assert |DedupKeepLast(xs, key)| == 0;
    }
  }

  /** Where the survivors come from: each is the last element of its key, and
      their positions in the input increase, so the survivors keep the input order. */
  lemma {:induction false} DedupOrigins<T, K>(xs: seq<T>, key: T -> K) returns (pos: seq<int>)
    ensures |pos| == |DedupKeepLast(xs, key)|
    ensures forall i :: 0 <= i < |pos| ==> LastOfKey(xs, key, pos[i]) && DedupKeepLast(xs, key)[i] == xs[pos[i]]
    ensures forall i, j :: 0 <= i < j < |pos| ==> pos[i] < pos[j]
    decreases |xs|
  {
    if |xs| == 0 {
      pos := [];
    } else {
      var t := xs[1..];
      var p := DedupOrigins(t, key);
      var shifted := ShiftOrigins(xs, key, p);
      assert xs == [xs[0]] + t;
      DedupCons(xs[0], t, key);
      if key(xs[0]) in Keys(t, key) {
        assert DedupKeepLast(xs, key) == DedupKeepLast(t, key);
        pos := shifted;
      } else {
        assert DedupKeepLast(xs, key) == [xs[0]] + DedupKeepLast(t, key);
        pos := OriginsWithHead(xs, key, DedupKeepLast(t, key), shifted);
      }
    }
  }

  /** When the first element's key does not recur, the first element survives
      ahead of the survivors `rest` of the tail, at position 0. */
  lemma OriginsWithHead<T, K>(xs: seq<T>, key: T -> K, rest: seq<T>, q: seq<int>) returns (pos: seq<int>)
    requires |xs| > 0 && key(xs[0]) !in Keys(xs[1..], key)
    requires |q| == |rest|
    requires forall i :: 0 <= i < |q| ==> 1 <= q[i] && LastOfKey(xs, key, q[i]) && rest[i] == xs[q[i]]
    requires forall i, j :: 0 <= i < j < |q| ==> q[i] < q[j]
    ensures |pos| == |[xs[0]] + rest|
    ensures forall i :: 0 <= i < |pos| ==> LastOfKey(xs, key, pos[i]) && ([xs[0]] + rest)[i] == xs[pos[i]]
    ensures forall i, j :: 0 <= i < j < |pos| ==> pos[i] < pos[j]
  {
    var t := xs[1..];
    forall j' | 0 < j' < |xs| ensures key(xs[j']) != key(xs[0]) {
      assert xs[j'] == t[j' - 1];
      KeysMember(t, key, key(t[j' - 1]));
    }
    assert LastOfKey(xs, key, 0);
    pos := [0] + q;
  }

  /** Positions of survivors in the tail of `xs`, moved one place right, are
      positions of the same elements in `xs`, still last of their key. */
  lemma ShiftOrigins<T, K>(xs: seq<T>, key: T -> K, p: seq<int>) returns (q: seq<int>)
    requires |xs| > 0 && |p| == |DedupKeepLast(xs[1..], key)|
    requires forall i :: 0 <= i < |p| ==> LastOfKey(xs[1..], key, p[i]) && DedupKeepLast(xs[1..], key)[i] == xs[1..][p[i]]
    requires forall i, j :: 0 <= i < j < |p| ==> p[i] < p[j]
    ensures |q| == |p|
    ensures forall i :: 0 <= i < |q| ==> 1 <= q[i] && LastOfKey(xs, key, q[i]) && DedupKeepLast(xs[1..], key)[i] == xs[q[i]]
    ensures forall i, j :: 0 <= i < j < |q| ==> q[i] < q[j]
  {
    q := seq(|p|, i requires 0 <= i < |p| => p[i] + 1);
    forall i | 0 <= i < |p| ensures LastOfKey(xs, key, q[i]) && xs[q[i]] == xs[1..][p[i]] {
      LastOfKeyTail(xs, key, p[i]);
    }
  }

  /** `drop_duplicates` keeps the survivors in their input order: of two
      survivors, the earlier one comes from an earlier position. */
  lemma DedupKeepsOrder<T, K>(xs: seq<T>, key: T -> K)
    ensures forall i, j :: 0 <= i < j < |DedupKeepLast(xs, key)| ==>
      exists p, q :: 0 <= p < q < |xs| && LastOfKey(xs, key, p) && LastOfKey(xs, key, q)
        && DedupKeepLast(xs, key)[i] == xs[p] && DedupKeepLast(xs, key)[j] == xs[q]
  {
    var pos := DedupOrigins(xs, key);
    var r := DedupKeepLast(xs, key);
    forall i, j | 0 <= i < j < |r|
      ensures exists p, q :: 0 <= p < q < |xs| && LastOfKey(xs, key, p) && LastOfKey(xs, key, q) && r[i] == xs[p] && r[j] == xs[q]
    {
      OrderFromPositions(xs, key, r, pos, i, j);
    }
  }

  /** Two elements found at increasing positions, each last of its key, come in input order. */
  lemma OrderFromPositions<T, K>(xs: seq<T>, key: T -> K, r: seq<T>, pos: seq<int>, i: int, j: int)
    requires |pos| == |r| && 0 <= i < j < |r|
    requires forall i :: 0 <= i < |pos| ==> LastOfKey(xs, key, pos[i]) && r[i] == xs[pos[i]]
    requires forall i, j :: 0 <= i < j < |pos| ==> pos[i] < pos[j]
    ensures exists p, q :: 0 <= p < q < |xs| && LastOfKey(xs, key, p) && LastOfKey(xs, key, q) && r[i] == xs[p] && r[j] == xs[q]
  {
    var p, q := pos[i], pos[j];
    assert 0 <= p < q < |xs| && LastOfKey(xs, key, p) && LastOfKey(xs, key, q) && r[i] == xs[p] && r[j] == xs[q];
  }

  /** Two keys that tell the same elements apart deduplicate alike. */
  lemma {:induction false} DedupSameSplit<T, K, L>(xs: seq<T>, k1: T -> K, k2: T -> L)
    requires forall i, j :: 0 <= i < |xs| && 0 <= j < |xs| ==> (k1(xs[i]) == k1(xs[j]) <==> k2(xs[i]) == k2(xs[j]))
    ensures DedupKeepLast(xs, k1) == DedupKeepLast(xs, k2)
    decreases |xs|
  {
    if |xs| > 0 {
      var t := xs[1..];
      forall i, j | 0 <= i < |t| && 0 <= j < |t| ensures k1(t[i]) == k1(t[j]) <==> k2(t[i]) == k2(t[j]) {
        assert t[i] == xs[i + 1] && t[j] == xs[j + 1];
      }
      DedupSameSplit(t, k1, k2);
      KeysMember(t, k1, k1(xs[0]));
      KeysMember(t, k2, k2(xs[0]));
      if k1(xs[0]) in Keys(t, k1) {
        var j :| 0 <= j < |t| && k1(t[j]) == k1(xs[0]);
        assert t[j] == xs[j + 1];
      }
      if k2(xs[0]) in Keys(t, k2) {
        var j :| 0 <= j < |t| && k2(t[j]) == k2(xs[0]);
        assert t[j] == xs[j + 1];
      }
    }
  }

  /** Deduplication only keeps elements of its input. */
  lemma DedupElementsFrom<T, K>(xs: seq<T>, key: T -> K)
    ensures forall i :: 0 <= i < |DedupKeepLast(xs, key)| ==> DedupKeepLast(xs, key)[i] in xs
  {
    DedupOnlyLast(xs, key);
  }

  /** Every element that is the last with its key survives. */
  lemma {:induction false} DedupKeepsLast<T, K>(xs: seq<T>, key: T -> K)
    ensures forall j :: LastOfKey(xs, key, j) ==> xs[j] in DedupKeepLast(xs, key)
    decreases |xs|
  {
    if |xs| > 0 {
      var t := xs[1..];
      DedupKeepsLast(t, key);
      assert xs == [xs[0]] + t;
      DedupCons(xs[0], t, key);
      forall j | LastOfKey(xs, key, j) ensures xs[j] in DedupKeepLast(xs, key) {
        if j == 0 {
          HeadKeyFresh(xs, key);
        } else {
          LastOfKeyUntail(xs, key, j);
          assert xs[j] == t[j - 1];
        }
      }
    }
  }

  /** The elements whose key is not in `ks`, in order. */
  function DropKeys<T, K>(xs: seq<T>, key: T -> K, ks: set<K>): (r: seq<T>)
    ensures |r| <= |xs|
    decreases |xs|
  {
    if |xs| == 0 then []
    else if key(xs[0]) in ks then DropKeys(xs[1..], key, ks)
    else [xs[0]] + DropKeys(xs[1..], key, ks)
  }

  /** `DropKeys` keeps exactly the elements whose key is outside `ks`. */
  lemma {:induction false} DropKeysMembers<T, K>(xs: seq<T>, key: T -> K, ks: set<K>)
    ensures forall y :: y in DropKeys(xs, key, ks) <==> y in xs && key(y) !in ks
    decreases |xs|
  {
    if |xs| > 0 {
      DropKeysMembers(xs[1..], key, ks);
      assert xs == [xs[0]] + xs[1..];
    }
  }

  /** Dropping no keys keeps every element. */
  lemma {:induction false} DropKeysNone<T, K>(xs: seq<T>, key: T -> K)
    ensures DropKeys(xs, key, {}) == xs
    decreases |xs|
  {
    if |xs| > 0 {
      DropKeysNone(xs[1..], key);
    }
  }

  /** Dropping keys that do not occur keeps every element. */
  lemma {:induction false} DropKeysUntouched<T, K>(xs: seq<T>, key: T -> K, ks: set<K>)
    requires Keys(xs, key) !! ks
    ensures DropKeys(xs, key, ks) == xs
    decreases |xs|
  {
    if |xs| > 0 {
      KeysCons(xs[0], xs[1..], key);
      assert xs == [xs[0]] + xs[1..];
      DropKeysUntouched(xs[1..], key, ks);
    }
  }

  lemma {:induction false} DropKeysAppend<T, K>(xs: seq<T>, ys: seq<T>, key: T -> K, ks: set<K>)
    ensures DropKeys(xs + ys, key, ks) == DropKeys(xs, key, ks) + DropKeys(ys, key, ks)
    decreases |xs|
  {
    if |xs| > 0 {
      assert (xs + ys)[1..] == xs[1..] + ys;
      assert (xs + ys)[0] == xs[0];
      DropKeysAppend(xs[1..], ys, key, ks);
    } else {
      assert xs + ys == ys;
    }
  }

  lemma {:induction false} DropKeysTwice<T, K>(xs: seq<T>, key: T -> K, ks: set<K>, ls: set<K>)
    ensures DropKeys(DropKeys(xs, key, ks), key, ls) == DropKeys(xs, key, ks + ls)
    decreases |xs|
  {
    if |xs| > 0 {
      DropKeysTwice(xs[1..], key, ks, ls);
    }
  }

  lemma {:induction false} DropKeysAll<T, K>(xs: seq<T>, key: T -> K, ks: set<K>)
    requires Keys(xs, key) <= ks
    ensures DropKeys(xs, key, ks) == []
    decreases |xs|
  {
    if |xs| > 0 {
      KeysCons(xs[0], xs[1..], key);
      assert xs == [xs[0]] + xs[1..];
      DropKeysAll(xs[1..], key, ks);
    }
  }

  lemma {:induction false} DropKeysUnique<T, K>(xs: seq<T>, key: T -> K, ks: set<K>)
    requires UniqueKeys(xs, key)
    ensures UniqueKeys(DropKeys(xs, key, ks), key)
    ensures Keys(DropKeys(xs, key, ks), key) == Keys(xs, key) - ks
    decreases |xs|
  {
    if |xs| > 0 {
      var t := xs[1..];
      UniqueTail(xs, key);
      DropKeysUnique(t, key, ks);
      KeysCons(xs[0], t, key);
      assert xs == [xs[0]] + t;
      var dt := DropKeys(t, key, ks);
      if key(xs[0]) !in ks {
        KeysCons(xs[0], dt, key);
        UniqueCons(xs[0], dt, key);
      }
    }
  }

  /** Deduplicating an already duplicate-free sequence changes nothing. */
  lemma {:induction false} DedupOfUnique<T, K>(xs: seq<T>, key: T -> K)
    requires UniqueKeys(xs, key)
    ensures DedupKeepLast(xs, key) == xs
    decreases |xs|
  {
    if |xs| > 0 {
      var t := xs[1..];
      UniqueTail(xs, key);
      DedupOfUnique(t, key);
      assert xs == [xs[0]] + t;
    }
  }

  /** Deduplication is idempotent. */
  lemma DedupIdempotent<T, K>(xs: seq<T>, key: T -> K)
    ensures DedupKeepLast(DedupKeepLast(xs, key), key) == DedupKeepLast(xs, key)
  {
    DedupOfUnique(DedupKeepLast(xs, key), key);
  }

  lemma DropKeysCons<T, K>(x: T, xs: seq<T>, key: T -> K, ks: set<K>)
    ensures DropKeys([x] + xs, key, ks) == if key(x) in ks then DropKeys(xs, key, ks) else [x] + DropKeys(xs, key, ks)
  {
    assert ([x] + xs)[0] == x;
    assert ([x] + xs)[1..] == xs;
  }

  lemma DedupCons<T, K>(x: T, xs: seq<T>, key: T -> K)
    ensures DedupKeepLast([x] + xs, key)
         == if key(x) in Keys(xs, key) then DedupKeepLast(xs, key) else [x] + DedupKeepLast(xs, key)
  {
    assert ([x] + xs)[1..] == xs;
    assert ([x] + xs)[0] == x;
  }

  /** Deduplicating a concatenation: the survivors of `xs` whose key does not occur
      in `ys` (in their order), followed by the survivors of `ys`. So every key of
      `ys` is represented by its last element in `ys`. */
  lemma {:induction false} DedupAppend<T, K>(xs: seq<T>, ys: seq<T>, key: T -> K)
    ensures DedupKeepLast(xs + ys, key)
         == DropKeys(DedupKeepLast(xs, key), key, Keys(ys, key)) + DedupKeepLast(ys, key)
    decreases |xs|
  {
    if |xs| == 0 {
      assert xs + ys == ys;
    } else {
      var t := xs[1..];
      assert xs == [xs[0]] + t;
      assert xs + ys == [xs[0]] + (t + ys);
      DedupAppend(t, ys, key);
      DedupAppendStep(xs[0], t, ys, t + ys, key);
    }
  }

  /** The inductive step of `DedupAppend`: from `t` to `[x] + t`. */
  lemma DedupAppendStep<T, K>(x: T, t: seq<T>, ys: seq<T>, tys: seq<T>, key: T -> K)
    requires tys == t + ys
    requires DedupKeepLast(tys, key) == DropKeys(DedupKeepLast(t, key), key, Keys(ys, key)) + DedupKeepLast(ys, key)
    ensures DedupKeepLast([x] + tys, key)
         == DropKeys(DedupKeepLast([x] + t, key), key, Keys(ys, key)) + DedupKeepLast(ys, key)
  {
    KeysAppend(t, ys, key);
    DedupCons(x, tys, key);
    DedupCons(x, t, key);
    if key(x) !in Keys(t, key) {
      var dt := DedupKeepLast(t, key);
      DropKeysCons(x, dt, key, Keys(ys, key));
      if key(x) !in Keys(ys, key) {
        SeqAssoc([x], DropKeys(dt, key, Keys(ys, key)), DedupKeepLast(ys, key));
      }
    }
  }

  /** Merging the same batch a second time changes nothing. */
  lemma MergeTwice<T, K>(existing: seq<T>, batch: seq<T>, key: T -> K)
    ensures DedupKeepLast(DedupKeepLast(existing + batch, key) + batch, key)
         == DedupKeepLast(existing + batch, key)
  {
    var once := DedupKeepLast(existing + batch, key);
    var kb := Keys(batch, key);
    var kept := DropKeys(DedupKeepLast(existing, key), key, kb);
    var newer := DedupKeepLast(batch, key);
    DedupAppend(existing, batch, key);
    DedupAppend(once, batch, key);
    DedupOfUnique(once, key);
    DropKeysAgain(DedupKeepLast(existing, key), newer, key, kb);
  }

  lemma DropKeysAgain<T, K>(xs: seq<T>, ys: seq<T>, key: T -> K, ks: set<K>)
    requires Keys(ys, key) <= ks
    ensures DropKeys(DropKeys(xs, key, ks) + ys, key, ks) == DropKeys(xs, key, ks)
  {
    DropKeysAppend(DropKeys(xs, key, ks), ys, key, ks);
    DropKeysTwice(xs, key, ks, ks);
    assert ks + ks == ks;
    DropKeysAll(ys, key, ks);
  }

  lemma {:induction false} UniqueKeysCount<T, K>(xs: seq<T>, key: T -> K)
    requires UniqueKeys(xs, key)
    ensures |Keys(xs, key)| == |xs|
    decreases |xs|
  {
    if |xs| > 0 {
      var t := xs[1..];
      assert xs == [xs[0]] + t;
      KeysCons(xs[0], t, key);
      UniqueTail(xs, key);
      UniqueKeysCount(t, key);
    }
  }

  /** Deduplication keeps exactly one element per distinct key. */
  lemma DedupCount<T, K>(xs: seq<T>, key: T -> K)
    ensures |DedupKeepLast(xs, key)| == |Keys(xs, key)|
  {
    UniqueKeysCount(DedupKeepLast(xs, key), key);
  }

  // ---------------------------------------------------------------------------
  // Last-write-wins map view
  // ---------------------------------------------------------------------------

  /** Each key mapped to the last element that carries it. */
  function LastByKey<T, K>(xs: seq<T>, key: T -> K): (m: map<K, T>)
    ensures m.Keys == Keys(xs, key)
    decreases |xs|
  {
    if |xs| == 0 then map[]
    else
      var init := xs[..|xs| - 1];
      var m := LastByKey(init, key)[key(xs[|xs| - 1]) := xs[|xs| - 1]];
      assert xs == init + [xs[|xs| - 1]];
      KeysAppend(init, [xs[|xs| - 1]], key);
      m
  }

  /** The map view of a concatenation is the first map overridden by the second. */
  lemma {:induction false} LastByKeyAppend<T, K>(xs: seq<T>, ys: seq<T>, key: T -> K)
    ensures LastByKey(xs + ys, key) == LastByKey(xs, key) + LastByKey(ys, key)
    decreases |ys|
  {
    if |ys| == 0 {
      assert xs + ys == xs;
    } else {
      var init := ys[..|ys| - 1];
      var last := ys[|ys| - 1];
      assert (xs + ys)[..|xs + ys| - 1] == xs + init;
      assert (xs + ys)[|xs + ys| - 1] == last;
      assert LastByKey(xs + ys, key) == LastByKey(xs + init, key)[key(last) := last];
      assert LastByKey(ys, key) == LastByKey(init, key)[key(last) := last];
      LastByKeyAppend(xs, init, key);
      OverrideThenUpdate(LastByKey(xs, key), LastByKey(init, key), key(last), last);
    }
  }

  /** Updating an overridden map is overriding with the updated map. */
  lemma OverrideThenUpdate<K, V>(a: map<K, V>, b: map<K, V>, k: K, v: V)
    ensures (a + b)[k := v] == a + b[k := v]
  {
  }

  /** The map view sends every key to the last element carrying it. */
  lemma {:induction false} LastByKeyIsLast<T, K>(xs: seq<T>, key: T -> K, j: int)
    requires LastOfKey(xs, key, j)
    ensures key(xs[j]) in LastByKey(xs, key) && LastByKey(xs, key)[key(xs[j])] == xs[j]
    decreases |xs|
  {
    var n := |xs| - 1;
    var init := xs[..n];
    KeysMember(xs, key, key(xs[j]));
    if j < n {
      assert LastOfKey(init, key, j);
      LastByKeyIsLast(init, key, j);
    }
  }

  /** Deduplication does not change the map view. */
  lemma DedupLastByKey<T, K>(xs: seq<T>, key: T -> K)
    ensures LastByKey(DedupKeepLast(xs, key), key) == LastByKey(xs, key)
  {
    var r := DedupKeepLast(xs, key);
    forall k | k in Keys(xs, key) ensures k in LastByKey(r, key) && LastByKey(r, key)[k] == LastByKey(xs, key)[k] {
      DedupLastAt(xs, key, k);
    }
  }

  /** The survivor carrying a key is the last element of the input with that key. */
  lemma DedupLastAt<T, K>(xs: seq<T>, key: T -> K, k: K)
    requires k in Keys(xs, key)
    ensures k in LastByKey(DedupKeepLast(xs, key), key)
    ensures LastByKey(DedupKeepLast(xs, key), key)[k] == LastByKey(xs, key)[k]
  {
    var r := DedupKeepLast(xs, key);
    DedupOnlyLast(xs, key);
    KeysMember(r, key, k);
    var i :| 0 <= i < |r| && key(r[i]) == k;
    var j :| LastOfKey(xs, key, j) && r[i] == xs[j];
    LastByKeyIsLast(xs, key, j);
    assert LastOfKey(r, key, i);
    LastByKeyIsLast(r, key, i);
  }

  /** Dropping keys removes them from the map view and keeps the rest. */
  lemma {:induction false} DropKeysLastByKey<T, K>(xs: seq<T>, key: T -> K, ks: set<K>)
    ensures LastByKey(DropKeys(xs, key, ks), key) == LastByKey(xs, key) - ks
    decreases |xs|
  {
    if |xs| > 0 {
      var t := xs[1..];
      DropKeysLastByKey(t, key, ks);
      assert xs == [xs[0]] + t;
      LastByKeyAppend([xs[0]], t, key);
      var head := LastByKey([xs[0]], key);
      assert head.Keys == {key(xs[0])} by { KeysCons(xs[0], [], key); }
      if key(xs[0]) in ks {
        RemoveCoveredOverride(head, LastByKey(t, key), ks);
      } else {
        LastByKeyAppend([xs[0]], DropKeys(t, key, ks), key);
        RemoveOutsideOverride(head, LastByKey(t, key), ks);
      }
    }
  }

  /** Removing keys that cover the overriding map removes its entries altogether. */
  lemma RemoveCoveredOverride<K, V>(a: map<K, V>, b: map<K, V>, ks: set<K>)
    requires a.Keys <= ks
    ensures (a + b) - ks == b - ks
  {
  }

  /** Removing keys the overriding map does not use commutes with the override. */
  lemma RemoveOutsideOverride<K, V>(a: map<K, V>, b: map<K, V>, ks: set<K>)
    requires a.Keys !! ks
    ensures a + (b - ks) == (a + b) - ks
  {
  }

  /** Two key-unique sequences with disjoint keys concatenate to a key-unique one. */
  lemma UniqueAppend<T, K>(xs: seq<T>, ys: seq<T>, key: T -> K)
    requires UniqueKeys(xs, key) && UniqueKeys(ys, key)
    requires Keys(xs, key) !! Keys(ys, key)
    ensures UniqueKeys(xs + ys, key)
  {
    forall i, j | 0 <= i < j < |xs + ys| ensures key((xs + ys)[i]) != key((xs + ys)[j]) {
      if i < |xs| <= j {
        KeysMember(xs, key, key(xs[i]));
        KeysMember(ys, key, key(ys[j - |xs|]));
      }
    }
  }
}
