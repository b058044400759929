/**
 * Generic facts about sequences: filtering, subsequences, distinctness and
 * first-occurrence de-duplication (the `if x not in seen: seen.add(x)`
 * idiom).
 */
module Seqs {

  predicate Distinct<T(==)>(s: seq<T>) {
    forall i, j :: 0 <= i < j < |s| ==> s[i] != s[j]
  }

  /** Regrouping a concatenation, stated once so that callers need not rediscover it. */
  lemma AppendAssoc<T>(a: seq<T>, b: seq<T>, c: seq<T>)
    ensures (a + b) + c == a + (b + c)
  {
  }

  lemma AppendNil<T>(s: seq<T>)
    ensures s + [] == s
  {
  }

  /** `[f(x) for x in xs]`. */
  function MapSeq<A, B>(xs: seq<A>, f: A -> B): (r: seq<B>)
    ensures |r| == |xs|
    ensures forall k :: 0 <= k < |xs| ==> r[k] == f(xs[k])
  {
    seq(|xs|, k requires 0 <= k < |xs| => f(xs[k]))
  }

  lemma MapSeqAppend<A, B>(xs: seq<A>, ys: seq<A>, f: A -> B)
    ensures MapSeq(xs + ys, f) == MapSeq(xs, f) + MapSeq(ys, f)
  {
  }

  /** The elements of s that satisfy p, in order (`[x for x in s if p(x)]`). */
  function Filter<T>(s: seq<T>, p: T -> bool): (r: seq<T>)
    ensures |r| <= |s|
    ensures forall i :: 0 <= i < |r| ==> r[i] in s && p(r[i])
    ensures forall i :: 0 <= i < |s| && p(s[i]) ==> s[i] in r
  {
    if s == [] then [] else (if p(s[0]) then [s[0]] else []) + Filter(s[1..], p)
  }

  lemma FilterConcat<T>(a: seq<T>, b: seq<T>, p: T -> bool)
    ensures Filter(a + b, p) == Filter(a, p) + Filter(b, p)
  {
    if a != [] {
      assert (a + b)[0] == a[0];
      assert (a + b)[1..] == a[1..] + b;
      FilterConcat(a[1..], b, p);
    } else {
      assert a + b == b;
    }
  }

  /** a is b with some elements deleted. */
  predicate IsSubsequence<T(==)>(a: seq<T>, b: seq<T>) {
    a == [] || (b != [] && ((a[0] == b[0] && IsSubsequence(a[1..], b[1..])) || IsSubsequence(a, b[1..])))
  }

  lemma SubsequenceOfCons<T>(a: seq<T>, x: T, b: seq<T>)
    requires IsSubsequence(a, b)
    ensures IsSubsequence(a, [x] + b) && IsSubsequence([x] + a, [x] + b)
  {
    assert ([x] + b)[1..] == b;
    assert ([x] + a)[1..] == a;
  }

  /** Deleting elements adds none. */
  lemma {:induction false} SubsequenceMembers<T>(a: seq<T>, b: seq<T>)
    requires IsSubsequence(a, b)
    ensures forall x :: x in a ==> x in b
    decreases |b|
  {
    if a != [] {
      if a[0] == b[0] && IsSubsequence(a[1..], b[1..]) {
        SubsequenceMembers(a[1..], b[1..]);
        assert forall x :: x in a ==> x == a[0] || x in a[1..];
      } else {
        SubsequenceMembers(a, b[1..]);
      }
    }
  }

  /**
   * First-occurrence de-duplication: walk xs and keep an element unless it
   * is already in `seen` or was kept before.
   */
  function Dedup<T(==)>(xs: seq<T>, seen: set<T>): (r: seq<T>)
  {
    if xs == [] then []
    else if xs[0] in seen then Dedup(xs[1..], seen)
    else [xs[0]] + Dedup(xs[1..], seen + {xs[0]})
  }

  /** The elements of xs, each at the place where it occurs for the first time. */
  function FirstOccurrences<T(==)>(xs: seq<T>): seq<T>
  {
    if xs == [] then []
    else
      var n := |xs| - 1;
      FirstOccurrences(xs[..n]) + (if xs[n] in xs[..n] then [] else [xs[n]])
  }

  function Elements<T>(xs: seq<T>): set<T> {
    set x | x in xs
  }

  lemma {:induction false} DedupAppend<T>(p: seq<T>, q: seq<T>, seen: set<T>)
    ensures Dedup(p + q, seen) == Dedup(p, seen) + Dedup(q, seen + Elements(p))
  {
    if p == [] {
      assert p + q == q;
      assert Elements(p) == {};
      assert seen + Elements(p) == seen;
    } else {
      assert (p + q)[0] == p[0];
      assert (p + q)[1..] == p[1..] + q;
      if p[0] in seen {
        DedupAppend(p[1..], q, seen);
        assert seen + Elements(p[1..]) == seen + Elements(p);
      } else {
        DedupAppend(p[1..], q, seen + {p[0]});
        assert seen + {p[0]} + Elements(p[1..]) == seen + Elements(p);
      }
    }
  }

  /** The loop keeps exactly the first occurrence of every element, in order. */
  lemma {:induction false} DedupIsFirstOccurrences<T>(xs: seq<T>)
    ensures Dedup(xs, {}) == FirstOccurrences(xs)
  {
    if xs != [] {
      var n := |xs| - 1;
      assert xs == xs[..n] + [xs[n]];
      DedupAppend(xs[..n], [xs[n]], {});
      DedupIsFirstOccurrences(xs[..n]);
      assert [xs[n]][1..] == [];
      assert xs[n] in {} + Elements(xs[..n]) <==> xs[n] in xs[..n];
    }
  }

  /** The kept elements are pairwise distinct and none of them was seen before. */
  lemma {:induction false} DedupDistinct<T>(xs: seq<T>, seen: set<T>)
    ensures Distinct(Dedup(xs, seen))
    ensures forall x {:trigger x in Dedup(xs, seen)} :: x in Dedup(xs, seen) <==> x in xs && x !in seen
  {
    if xs != [] {
      if xs[0] in seen {
        DedupDistinct(xs[1..], seen);
        assert xs == [xs[0]] + xs[1..];
      } else {
        DedupDistinct(xs[1..], seen + {xs[0]});
        assert xs == [xs[0]] + xs[1..];
        var r := Dedup(xs, seen);
        assert r == [xs[0]] + Dedup(xs[1..], seen + {xs[0]});
        forall i, j | 0 <= i < j < |r| ensures r[i] != r[j] {
          if i == 0 {
            assert r[j] in Dedup(xs[1..], seen + {xs[0]});
          } else {
            assert r[i] == Dedup(xs[1..], seen + {xs[0]})[i - 1];
            assert r[j] == Dedup(xs[1..], seen + {xs[0]})[j - 1];
          }
        }
      }
    }
  }

  /** De-duplication only deletes elements. */
  lemma {:induction false} DedupSubsequence<T>(xs: seq<T>, seen: set<T>)
    ensures IsSubsequence(Dedup(xs, seen), xs)
  {
    if xs != [] {
      assert xs == [xs[0]] + xs[1..];
      if xs[0] in seen {
        DedupSubsequence(xs[1..], seen);
        SubsequenceOfCons(Dedup(xs[1..], seen), xs[0], xs[1..]);
      } else {
        DedupSubsequence(xs[1..], seen + {xs[0]});
        SubsequenceOfCons(Dedup(xs[1..], seen + {xs[0]}), xs[0], xs[1..]);
      }
    }
  }
}
