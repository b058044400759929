/**
 * Python's `sorted(xs, key=..., reverse=...)` and `list.sort(key=...)` on
 * string keys: a stable sort. It is written as an insertion sort, proved to
 * return an ordered permutation that keeps elements with equal keys in
 * their original order.
 */
module Sorting {
  import opened Text
  import opened Seqs

  /** a may come before b: ascending, or descending when `reverse` is set. */
  predicate InOrder(a: string, b: string, reverse: bool) {
    if reverse then StrLe(b, a) else StrLe(a, b)
  }

  predicate SortedBy<T>(s: seq<T>, key: T -> string, reverse: bool) {
    forall i, j :: 0 <= i < j < |s| ==> InOrder(key(s[i]), key(s[j]), reverse)
  }

  /** The elements of s whose key is k, in order. */
  function WithKey<T>(s: seq<T>, key: T -> string, k: string): seq<T> {
    if s == [] then []
    else if key(s[0]) == k then [s[0]] + WithKey(s[1..], key, k)
    else WithKey(s[1..], key, k)
  }

  /** Put x before the first element it may precede. */
  function InsertBy<T>(x: T, s: seq<T>, key: T -> string, reverse: bool): (r: seq<T>)
    ensures multiset(r) == multiset(s) + multiset{x}
  {
    if s == [] then [x]
    else if InOrder(key(x), key(s[0]), reverse) then [x] + s
    else
      assert s == [s[0]] + s[1..];
      [s[0]] + InsertBy(x, s[1..], key, reverse)
  }

  lemma InOrderTotal(a: string, b: string, reverse: bool)
    ensures InOrder(a, b, reverse) || InOrder(b, a, reverse)
  {
    StrLeTotal(a, b);
  }

  lemma InOrderTransitive(a: string, b: string, c: string, reverse: bool)
    requires InOrder(a, b, reverse) && InOrder(b, c, reverse)
    ensures InOrder(a, c, reverse)
  {
    if reverse { StrLeTransitive(c, b, a); } else { StrLeTransitive(a, b, c); }
  }

  /** Every key in s may come after `first`. */
  predicate AllAfter<T>(first: string, s: seq<T>, key: T -> string, reverse: bool) {
    forall i :: 0 <= i < |s| ==> InOrder(first, key(s[i]), reverse)
  }

  lemma AllAfterCons<T>(first: string, y: T, t: seq<T>, key: T -> string, reverse: bool)
    requires InOrder(first, key(y), reverse) && AllAfter(first, t, key, reverse)
    ensures AllAfter(first, [y] + t, key, reverse)
  {
    forall i | 0 <= i < |[y] + t| ensures InOrder(first, key(([y] + t)[i]), reverse) {
      if i > 0 { assert ([y] + t)[i] == t[i - 1]; }
    }
  }

  lemma AllAfterWeaken<T>(a: string, b: string, s: seq<T>, key: T -> string, reverse: bool)
    requires InOrder(a, b, reverse) && AllAfter(b, s, key, reverse)
    ensures AllAfter(a, s, key, reverse)
  {
    forall i | 0 <= i < |s| ensures InOrder(a, key(s[i]), reverse) {
      InOrderTransitive(a, b, key(s[i]), reverse);
    }
  }

  lemma AllAfterTail<T>(first: string, s: seq<T>, key: T -> string, reverse: bool)
    requires s != [] && AllAfter(first, s, key, reverse)
    ensures AllAfter(first, s[1..], key, reverse)
  {
    forall i | 0 <= i < |s[1..]| ensures InOrder(first, key(s[1..][i]), reverse) {
      assert s[1..][i] == s[i + 1];
    }
  }

  /** A sorted sequence is its first element before a sorted rest whose keys all may follow it. */
  lemma SortedTail<T>(s: seq<T>, key: T -> string, reverse: bool)
    requires s != [] && SortedBy(s, key, reverse)
    ensures SortedBy(s[1..], key, reverse) && AllAfter(key(s[0]), s[1..], key, reverse)
  {
    forall i, j | 0 <= i < j < |s[1..]| ensures InOrder(key(s[1..][i]), key(s[1..][j]), reverse) {
      assert s[1..][i] == s[i + 1] && s[1..][j] == s[j + 1];
    }
    forall i | 0 <= i < |s[1..]| ensures InOrder(key(s[0]), key(s[1..][i]), reverse) {
      assert s[1..][i] == s[i + 1];
    }
  }

  lemma SortedCons<T>(y: T, t: seq<T>, key: T -> string, reverse: bool)
    requires SortedBy(t, key, reverse) && AllAfter(key(y), t, key, reverse)
    ensures SortedBy([y] + t, key, reverse)
  {
    var r := [y] + t;
    forall i, j | 0 <= i < j < |r| ensures InOrder(key(r[i]), key(r[j]), reverse) {
      assert r[j] == t[j - 1];
      if i > 0 { assert r[i] == t[i - 1]; }
    }
  }

  lemma {:induction false} InsertByAfter<T>(first: string, x: T, s: seq<T>, key: T -> string, reverse: bool)
    requires InOrder(first, key(x), reverse) && AllAfter(first, s, key, reverse)
    ensures AllAfter(first, InsertBy(x, s, key, reverse), key, reverse)
  {
    if s == [] {
      assert InsertBy(x, s, key, reverse) == [x] + s;
      AllAfterCons(first, x, s, key, reverse);
    } else if InOrder(key(x), key(s[0]), reverse) {
      assert InsertBy(x, s, key, reverse) == [x] + s;
      AllAfterCons(first, x, s, key, reverse);
    } else {
      var t := InsertBy(x, s[1..], key, reverse);
      AllAfterTail(first, s, key, reverse);
      InsertByAfter(first, x, s[1..], key, reverse);
      assert InsertBy(x, s, key, reverse) == [s[0]] + t;
      AllAfterCons(first, s[0], t, key, reverse);
    }
  }

  lemma {:induction false} InsertBySorted<T>(x: T, s: seq<T>, key: T -> string, reverse: bool)
    requires SortedBy(s, key, reverse)
    ensures SortedBy(InsertBy(x, s, key, reverse), key, reverse)
  {
    if s == [] {
      assert InsertBy(x, s, key, reverse) == [x];
    } else if InOrder(key(x), key(s[0]), reverse) {
      SortedTail(s, key, reverse);
      AllAfterWeaken(key(x), key(s[0]), s[1..], key, reverse);
      assert s == [s[0]] + s[1..];
      AllAfterCons(key(x), s[0], s[1..], key, reverse);
      assert InsertBy(x, s, key, reverse) == [x] + s;
      SortedCons(x, s, key, reverse);
    } else {
      InOrderTotal(key(x), key(s[0]), reverse);
      var t := InsertBy(x, s[1..], key, reverse);
      SortedTail(s, key, reverse);
      InsertBySorted(x, s[1..], key, reverse);
      InsertByAfter(key(s[0]), x, s[1..], key, reverse);
      assert InsertBy(x, s, key, reverse) == [s[0]] + t;
      SortedCons(s[0], t, key, reverse);
    }
  }

  /** `sorted(s, key=key, reverse=reverse)`. */
  function SortBy<T>(s: seq<T>, key: T -> string, reverse: bool): (r: seq<T>)
    ensures multiset(r) == multiset(s)
    ensures SortedBy(r, key, reverse)
  {
    if s == [] then []
    else
      assert s == [s[0]] + s[1..];
      InsertBySorted(s[0], SortBy(s[1..], key, reverse), key, reverse);
      InsertBy(s[0], SortBy(s[1..], key, reverse), key, reverse)
  }

  lemma WithKeyCons<T>(y: T, s: seq<T>, key: T -> string, k: string)
    ensures WithKey([y] + s, key, k) == if key(y) == k then [y] + WithKey(s, key, k) else WithKey(s, key, k)
  {
    assert ([y] + s)[0] == y;
    assert ([y] + s)[1..] == s;
  }

  lemma InOrderReflexive(a: string, reverse: bool)
    ensures InOrder(a, a, reverse)
  {
    StrLeTotal(a, a);
  }

  /** Inserting x adds x to the elements with its key, in front of those of s. */
  lemma {:induction false} InsertByWithKey<T>(x: T, s: seq<T>, key: T -> string, reverse: bool, k: string)
    ensures WithKey(InsertBy(x, s, key, reverse), key, k)
         == if key(x) == k then [x] + WithKey(s, key, k) else WithKey(s, key, k)
  {
    if s == [] {
      assert InsertBy(x, s, key, reverse) == [x] + s;
      WithKeyCons(x, s, key, k);
    } else if InOrder(key(x), key(s[0]), reverse) {
      WithKeyCons(x, s, key, k);
    } else {
      var t := InsertBy(x, s[1..], key, reverse);
      InsertByWithKey(x, s[1..], key, reverse, k);
      assert InsertBy(x, s, key, reverse) == [s[0]] + t;
      WithKeyCons(s[0], t, key, k);
      assert s == [s[0]] + s[1..];
      WithKeyCons(s[0], s[1..], key, k);
      if key(s[0]) == k {
        InOrderReflexive(k, reverse);
        assert key(x) != k;
      }
    }
  }

  /** The elements with key k are exactly the elements of s whose key is k. */
  lemma {:induction false} WithKeyMembers<T>(s: seq<T>, key: T -> string, k: string)
    ensures forall i :: 0 <= i < |WithKey(s, key, k)| ==>
      WithKey(s, key, k)[i] in s && key(WithKey(s, key, k)[i]) == k
    ensures forall i :: 0 <= i < |s| && key(s[i]) == k ==> s[i] in WithKey(s, key, k)
  {
    if s != [] {
      WithKeyMembers(s[1..], key, k);
      assert forall i :: 1 <= i < |s| ==> s[i] == s[1..][i - 1];
    }
  }

  /** Stability: among elements with equal keys, the sort keeps the input order. */
  lemma {:induction false} SortByStable<T>(s: seq<T>, key: T -> string, reverse: bool, k: string)
    ensures WithKey(SortBy(s, key, reverse), key, k) == WithKey(s, key, k)
  {
    if s != [] {
      SortByStable(s[1..], key, reverse, k);
      InsertByWithKey(s[0], SortBy(s[1..], key, reverse), key, reverse, k);
    }
  }

  lemma {:induction false} WithKeyOfConcat<T>(a: seq<T>, b: seq<T>, key: T -> string, k: string)
    ensures WithKey(a + b, key, k) == WithKey(a, key, k) + WithKey(b, key, k)
  {
    if a == [] {
      assert a + b == b;
    } else {
      assert a + b == [a[0]] + (a[1..] + b);
      assert a == [a[0]] + a[1..];
      WithKeyCons(a[0], a[1..] + b, key, k);
      WithKeyCons(a[0], a[1..], key, k);
      WithKeyOfConcat(a[1..], b, key, k);
      if key(a[0]) == k {
        AppendAssoc([a[0]], WithKey(a[1..], key, k), WithKey(b, key, k));
      }
    }
  }

  /** Names from the greatest down. */
  predicate Descending(s: seq<string>) {
    forall i, j :: 0 <= i < j < |s| ==> StrLe(s[j], s[i])
  }

  /** Deleting names from a descending sequence leaves it descending. */
  lemma {:induction false} DescendingSubsequence(a: seq<string>, b: seq<string>)
    requires IsSubsequence(a, b) && Descending(b)
    ensures Descending(a)
    decreases |b|
  {
    if a != [] {
      var b' := b[1..];
      assert Descending(b') by {
        forall i, j | 0 <= i < j < |b'| ensures StrLe(b'[j], b'[i]) {
          assert b'[i] == b[i + 1] && b'[j] == b[j + 1];
        }
      }
      if a[0] == b[0] && IsSubsequence(a[1..], b') {
        DescendingSubsequence(a[1..], b');
        SubsequenceMembers(a[1..], b');
        forall i, j | 0 <= i < j < |a| ensures StrLe(a[j], a[i]) {
          assert a[j] == a[1..][j - 1];
          if i == 0 {
            assert a[j] in b';
            var m :| 0 <= m < |b'| && b'[m] == a[j];
            assert b[m + 1] == a[j];
          } else {
            assert a[i] == a[1..][i - 1];
          }
        }
      } else {
        DescendingSubsequence(a, b');
      }
    }
  }

  function Identity(s: string): string { s }

  /** `sorted(names, reverse=True)`: names from the greatest down. */
  function SortDescending(names: seq<string>): (r: seq<string>)
    ensures multiset(r) == multiset(names)
    ensures forall i, j :: 0 <= i < j < |r| ==> StrLe(r[j], r[i])
  {
    var r := SortBy(names, Identity, true);
    assert SortedBy(r, Identity, true);
    r
  }

  /** `sorted(names)`. */
  function SortAscending(names: seq<string>): (r: seq<string>)
    ensures multiset(r) == multiset(names)
    ensures forall i, j :: 0 <= i < j < |r| ==> StrLe(r[i], r[j])
  {
    var r := SortBy(names, Identity, false);
    assert SortedBy(r, Identity, false);
    r
  }

  /** `sorted(names, reverse=True)[0]` is the greatest of the names. */
  lemma {:induction false} FirstOfDescendingIsGreatest(names: seq<string>)
    requires names != []
    ensures SortDescending(names)[0] in names
    ensures forall n :: n in names ==> StrLe(n, SortDescending(names)[0])
  {
    var r := SortDescending(names);
    assert |r| == |multiset(r)| == |multiset(names)| == |names|;
    assert r[0] in multiset(r);
    forall n | n in names ensures StrLe(n, r[0]) {
      assert n in multiset(names);
      assert n in multiset(r);
      var j :| 0 <= j < |r| && r[j] == n;
      if j > 0 {
      }
    }
  }
}
