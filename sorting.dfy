/**
 * The stable sort the engine relies on (JavaScript's `Array.prototype.sort`
 * with a numeric comparator `(a, b) => key(a) - key(b)`, stable since ES2019),
 * written once as an insertion sort keyed by a real number.
 */
module Sorting {

  /** `s` is in non-decreasing order of `key`. */
  ghost predicate SortedBy<T>(s: seq<T>, key: T -> real) {
    forall i, j :: 0 <= i < j < |s| ==> key(s[i]) <= key(s[j])
  }

  /** In a multiset, elements with equal keys are equal and occur at most once. */
  ghost predicate KeyUnique<T, K>(m: multiset<T>, key: T -> K) {
    && (forall x, y :: x in m && y in m && key(x) == key(y) ==> x == y)
    && (forall x :: x in m ==> m[x] <= 1)
  }

  /** Inserts `x` into a sorted sequence after every element whose key is not larger. */
  function Insert<T>(x: T, s: seq<T>, key: T -> real): (r: seq<T>)
    ensures multiset(r) == multiset(s) + multiset{x}
    ensures |r| == |s| + 1
  {
    if |s| == 0 then [x]
    else if key(x) < key(s[0]) then [x] + s
    else
      assert s == [s[0]] + s[1..];
      [s[0]] + Insert(x, s[1..], key)
  }

  lemma {:induction false} InsertSorted<T>(x: T, s: seq<T>, key: T -> real)
    requires SortedBy(s, key)
    ensures SortedBy(Insert(x, s, key), key)
  {
    if |s| > 0 && !(key(x) < key(s[0])) {
      var rest := Insert(x, s[1..], key);
      InsertSorted(x, s[1..], key);
      forall k | 0 <= k < |rest| ensures key(s[0]) <= key(rest[k]) {
        assert rest[k] in multiset(rest);
        if rest[k] != x {
          assert rest[k] in multiset(s[1..]);
          var m :| 0 <= m < |s[1..]| && s[1..][m] == rest[k];
          assert s[1..][m] == s[m + 1];
        }
      }
      var r := [s[0]] + rest;
      forall i, j | 0 <= i < j < |r| ensures key(r[i]) <= key(r[j]) {
        if i == 0 {
          assert r[j] == rest[j - 1];
        } else {
          assert r[i] == rest[i - 1] && r[j] == rest[j - 1];
        }
      }
    }
  }

  /** Stable sort of `s` by `key`: later elements are inserted after earlier equal-keyed ones. */
  function SortBy<T>(s: seq<T>, key: T -> real): (r: seq<T>)
    ensures multiset(r) == multiset(s)
    ensures |r| == |s|
    ensures SortedBy(r, key)
  {
    if |s| == 0 then []
    else
      assert s == s[..|s| - 1] + [s[|s| - 1]];
      var sorted := SortBy(s[..|s| - 1], key);
      InsertSorted(s[|s| - 1], sorted, key);
      Insert(s[|s| - 1], sorted, key)
  }

  /** The elements of `s` whose key is `v`, in their order in `s`. */
  function WithKey<T>(s: seq<T>, key: T -> real, v: real): (r: seq<T>)
    ensures |r| <= |s|
  {
    if |s| == 0 then []
    else KeyPiece(s[0], key, v) + WithKey(s[1..], key, v)
  }

  /** The piece `WithKey` takes from one element. */
  function KeyPiece<T>(x: T, key: T -> real, v: real): seq<T> {
    if key(x) == v then [x] else []
  }

  lemma WithKeyCons<T>(x: T, s: seq<T>, key: T -> real, v: real)
    ensures WithKey([x] + s, key, v) == KeyPiece(x, key, v) + WithKey(s, key, v)
  {
    assert ([x] + s)[0] == x && ([x] + s)[1..] == s;
  }

  lemma {:induction false} WithKeyAppend<T>(a: seq<T>, b: seq<T>, key: T -> real, v: real)
    ensures WithKey(a + b, key, v) == WithKey(a, key, v) + WithKey(b, key, v)
  {
    if |a| > 0 {
      var h := KeyPiece(a[0], key, v);
      assert a == [a[0]] + a[1..] && a + b == [a[0]] + (a[1..] + b);
      WithKeyCons(a[0], a[1..] + b, key, v);
      WithKeyCons(a[0], a[1..], key, v);
      WithKeyAppend(a[1..], b, key, v);
      assert h + (WithKey(a[1..], key, v) + WithKey(b, key, v)) == (h + WithKey(a[1..], key, v)) + WithKey(b, key, v);
    } else {
      assert a + b == b;
    }
  }

  lemma {:induction false} WithKeyNone<T>(s: seq<T>, key: T -> real, v: real)
    requires forall i :: 0 <= i < |s| ==> key(s[i]) != v
    ensures WithKey(s, key, v) == []
  {
    if |s| > 0 {
      WithKeyNone(s[1..], key, v);
    }
  }

  /** Inserting into a sorted sequence puts `x` after every element of its key. */
  lemma {:induction false} InsertWithKey<T>(x: T, s: seq<T>, key: T -> real, v: real)
    requires SortedBy(s, key)
    ensures WithKey(Insert(x, s, key), key, v) == WithKey(s, key, v) + KeyPiece(x, key, v)
    decreases |s|, 1
  {
    if |s| == 0 {
      WithKeyCons(x, [], key, v);
      assert Insert(x, s, key) == [x] + [];
    } else if key(x) < key(s[0]) {
      assert Insert(x, s, key) == [x] + s;
      WithKeyCons(x, s, key, v);
      if key(x) == v {
        forall i | 0 <= i < |s| ensures key(s[i]) != v {
          assert key(s[0]) <= key(s[i]);
        }
        WithKeyNone(s, key, v);
      }
    } else {
      InsertStep(x, s, key, v);
    }
  }

  lemma InsertStep<T>(x: T, s: seq<T>, key: T -> real, v: real)
    requires SortedBy(s, key) && |s| > 0 && !(key(x) < key(s[0]))
    ensures WithKey(Insert(x, s, key), key, v) == WithKey(s, key, v) + KeyPiece(x, key, v)
    decreases |s|, 0
  {
    InsertUnfold(x, s, key);
    SortedTail(s, key);
    InsertWithKey(x, s[1..], key, v);
    ConsPieces(s[0], s[1..], Insert(x, s[1..], key), KeyPiece(x, key, v), key, v);
    assert [s[0]] + s[1..] == s;
  }

  lemma InsertUnfold<T>(x: T, s: seq<T>, key: T -> real)
    requires |s| > 0 && !(key(x) < key(s[0]))
    ensures Insert(x, s, key) == [s[0]] + Insert(x, s[1..], key)
  {
  }

  /** Putting one element in front of both sides keeps a `WithKey` equation. */
  lemma ConsPieces<T>(y: T, t: seq<T>, rest: seq<T>, p: seq<T>, key: T -> real, v: real)
    requires WithKey(rest, key, v) == WithKey(t, key, v) + p
    ensures WithKey([y] + rest, key, v) == WithKey([y] + t, key, v) + p
  {
    var h := KeyPiece(y, key, v);
    WithKeyCons(y, rest, key, v);
    WithKeyCons(y, t, key, v);
    assert h + (WithKey(t, key, v) + p) == (h + WithKey(t, key, v)) + p;
  }

  /**
   * `SortBy` is stable: for every key value, the elements with that key keep
   * their relative order.
   */
  lemma {:induction false} SortByStable<T>(s: seq<T>, key: T -> real, v: real)
    ensures WithKey(SortBy(s, key), key, v) == WithKey(s, key, v)
  {
    if |s| > 0 {
      var init := s[..|s| - 1];
      var x := s[|s| - 1];
      var sorted := SortBy(init, key);
      SortByStable(init, key, v);
      SortByUnfold(s, key);
      InsertWithKey(x, sorted, key, v);
      WithKeyLast(s, key, v);
    }
  }

  lemma WithKeyLast<T>(s: seq<T>, key: T -> real, v: real)
    requires |s| > 0
    ensures WithKey(s, key, v) == WithKey(s[..|s| - 1], key, v) + KeyPiece(s[|s| - 1], key, v)
  {
    assert s == s[..|s| - 1] + [s[|s| - 1]];
    WithKeySnoc(s[..|s| - 1], s[|s| - 1], key, v);
  }

  lemma SortByUnfold<T>(s: seq<T>, key: T -> real)
    requires |s| > 0
    ensures SortBy(s, key) == Insert(s[|s| - 1], SortBy(s[..|s| - 1], key), key)
  {
  }

  lemma WithKeySnoc<T>(s: seq<T>, x: T, key: T -> real, v: real)
    ensures WithKey(s + [x], key, v) == WithKey(s, key, v) + KeyPiece(x, key, v)
  {
    WithKeyAppend(s, [x], key, v);
    WithKeyCons(x, [], key, v);
    assert [x] + [] == [x];
    assert KeyPiece(x, key, v) + [] == KeyPiece(x, key, v);
  }

  /** Two sorted arrangements of one key-unique multiset are the same sequence. */
  lemma {:induction false} SortedPermutationUnique<T>(a: seq<T>, b: seq<T>, key: T -> real)
    requires SortedBy(a, key) && SortedBy(b, key)
    requires multiset(a) == multiset(b)
    requires KeyUnique(multiset(a), key)
    ensures a == b
  {
    assert |b| == |multiset(b)| == |multiset(a)| == |a|;
    if |a| > 0 {
      HeadsEqual(a, b, key);
      assert a == [a[0]] + a[1..] && b == [b[0]] + b[1..];
      assert multiset(a[1..]) == multiset(a) - multiset{a[0]};
      assert multiset(b[1..]) == multiset(b) - multiset{b[0]};
      SubKeyUnique(multiset(a), multiset(a[1..]), key);
      SortedTail(a, key);
      SortedTail(b, key);
      SortedPermutationUnique(a[1..], b[1..], key);
    }
  }

  lemma SortedTail<T>(a: seq<T>, key: T -> real)
    requires SortedBy(a, key) && |a| > 0
    ensures SortedBy(a[1..], key)
  {
    forall i, j | 0 <= i < j < |a[1..]| ensures key(a[1..][i]) <= key(a[1..][j]) {
      assert a[1..][i] == a[i + 1] && a[1..][j] == a[j + 1];
    }
  }

  lemma HeadsEqual<T>(a: seq<T>, b: seq<T>, key: T -> real)
    requires SortedBy(a, key) && SortedBy(b, key)
    requires multiset(a) == multiset(b) && |a| > 0 && |b| > 0
    requires KeyUnique(multiset(a), key)
    ensures a[0] == b[0]
  {
    assert a[0] in multiset(b);
    var i :| 0 <= i < |b| && b[i] == a[0];
    assert b[0] in multiset(a);
    var j :| 0 <= j < |a| && a[j] == b[0];
    assert key(b[0]) <= key(b[i]);
    assert key(a[0]) <= key(a[j]);
    assert a[0] in multiset(a) && b[0] in multiset(a);
  }

  /** Positional distinctness of keys gives the multiset form `KeyUnique`. */
  lemma {:induction false} DistinctKeysUnique<T, K>(s: seq<T>, key: T -> K)
    requires forall i, j :: 0 <= i < j < |s| ==> key(s[i]) != key(s[j])
    ensures KeyUnique(multiset(s), key)
  {
    forall x, y | x in multiset(s) && y in multiset(s) && key(x) == key(y) ensures x == y {
      var i :| 0 <= i < |s| && s[i] == x;
      var j :| 0 <= j < |s| && s[j] == y;
      assert i == j;
    }
    CountAtMostOne(s, key);
  }

  lemma {:induction false} CountAtMostOne<T, K>(s: seq<T>, key: T -> K)
    requires forall i, j :: 0 <= i < j < |s| ==> key(s[i]) != key(s[j])
    ensures forall x :: x in multiset(s) ==> multiset(s)[x] <= 1
  {
    if |s| > 0 {
      var p := s[..|s| - 1];
      assert s == p + [s[|s| - 1]];
      CountAtMostOne(p, key);
      assert forall i :: 0 <= i < |p| ==> p[i] == s[i];
      assert s[|s| - 1] !in p;
    }
  }

  /** Positions of a sequence whose multiset is key-unique carry distinct keys. */
  lemma UniqueKeysDistinct<T, K>(s: seq<T>, key: T -> K, i: int, j: int)
    requires KeyUnique(multiset(s), key)
    requires 0 <= i < j < |s|
    ensures key(s[i]) != key(s[j])
  {
    assert s[i] in multiset(s) && s[j] in multiset(s);
    assert s == s[..j] + s[j..];
    assert s[i] in s[..j] && s[j] in s[j..];
    assert multiset(s)[s[j]] == multiset(s[..j])[s[j]] + multiset(s[j..])[s[j]];
  }

  /** A sub-multiset of a key-unique multiset is key-unique. */
  lemma SubKeyUnique<T, K>(m: multiset<T>, n: multiset<T>, key: T -> K)
    requires KeyUnique(m, key) && n <= m
    ensures KeyUnique(n, key)
  {
    forall x | x in n ensures n[x] <= 1 { assert n[x] <= m[x]; }
  }
}
