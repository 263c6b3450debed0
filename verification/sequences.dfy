/**
 Generic sequence vocabulary used by the correlator: order-preserving
 subsequences, ordering by an integer key, the per-key projection that
 characterises a stable sort, and a stable insertion sort proved against it.
 */
module Sequences {

  /** `a` can be obtained from `b` by deleting elements, keeping the order of the rest. */
  predicate IsSubsequence<T(==)>(a: seq<T>, b: seq<T>)
    decreases |b|
  {
    if a == [] then true
    else if b == [] then false
    else (a[0] == b[0] && IsSubsequence(a[1..], b[1..])) || IsSubsequence(a, b[1..])
  }

  /** A subsequence is never longer than the sequence it is taken from: a
      standalone companion of `IsSubsequence`, holding for every subsequence
      and not only for the filter's. */
  lemma {:induction false} SubsequenceNotLonger<T>(a: seq<T>, b: seq<T>)
    requires IsSubsequence(a, b)
    ensures |a| <= |b|
    decreases |b|
  {
    if a != [] {
      if a[0] == b[0] && IsSubsequence(a[1..], b[1..]) {
        SubsequenceNotLonger(a[1..], b[1..]);
      } else {
        SubsequenceNotLonger(a, b[1..]);
      }
    }
  }

  /** `s` is in nondecreasing order of `key`. */
  ghost predicate SortedBy<T>(s: seq<T>, key: T -> int)
  {
    forall i, j :: 0 <= i < j < |s| ==> key(s[i]) <= key(s[j])
  }

  /** In a sorted sequence, an element's key is at most that of any later one. */
  lemma SortedPair<T>(s: seq<T>, key: T -> int, i: int, j: int)
    requires SortedBy(s, key) && 0 <= i <= j < |s|
    ensures key(s[i]) <= key(s[j])
  {
    if i < j {
      assert key(s[i]) <= key(s[j]);
    }
  }

  /** The elements of `s` whose key is `k`, in their order in `s`. */
  function WithKey<T>(s: seq<T>, key: T -> int, k: int): seq<T>
    decreases |s|
  {
    if s == [] then []
    else if key(s[0]) == k then [s[0]] + WithKey(s[1..], key, k)
    else WithKey(s[1..], key, k)
  }

  /** Every key's elements appear in `r` in the same relative order as in `s`. */
  ghost predicate SameKeyOrder<T>(r: seq<T>, s: seq<T>, key: T -> int)
  {
    forall k :: WithKey(r, key, k) == WithKey(s, key, k)
  }

  /** `f` applied to every element of `s`. */
  function MapSeq<A, B>(s: seq<A>, f: A -> B): seq<B>
  {
    seq(|s|, i requires 0 <= i < |s| => f(s[i]))
  }

  /** The sequences of `ss` one after the other. */
  function Concat<T>(ss: seq<seq<T>>): seq<T>
    decreases |ss|
  {
    if ss == [] then [] else ss[0] + Concat(ss[1..])
  }

  /** An element occurs in the concatenation exactly when it occurs in one of
      the concatenated sequences. */
  lemma {:induction false} ConcatMembers<T>(ss: seq<seq<T>>, x: T)
    ensures x in Concat(ss) <==> exists i :: 0 <= i < |ss| && x in ss[i]
    decreases |ss|
  {
    if ss != [] {
      ConcatMembers(ss[1..], x);
      assert forall i :: 1 <= i < |ss| ==> ss[1..][i - 1] == ss[i];
    }
  }

  /** Appending one more sequence to `ss` appends its elements. */
  lemma {:induction false} ConcatSnoc<T>(ss: seq<seq<T>>, x: seq<T>)
    ensures Concat(ss + [x]) == Concat(ss) + x
    decreases |ss|
  {
    if ss == [] {
      assert [] + [x] == [x] && [x][1..] == [];
      assert x + [] == x;
    } else {
      ConcatSnoc(ss[1..], x);
      DropAppend(ss, [x]);
      AppendAssoc(ss[0], Concat(ss[1..]), x);
    }
  }

  /** Six sequences laid end to end hold the elements of all six. */
  lemma ConcatSix<T>(a: seq<T>, b: seq<T>, c: seq<T>, d: seq<T>, e: seq<T>, f: seq<T>)
    ensures multiset(Concat([a, b, c, d, e, f]))
      == multiset(a) + multiset(b) + multiset(c) + multiset(d) + multiset(e) + multiset(f)
  {
    assert multiset(Concat([f])) == multiset(f) by {
      assert [f][1..] == [];
      assert f + [] == f;
    }
    assert multiset(Concat([e, f])) == multiset(e) + multiset(Concat([f])) by {
      assert [e, f][1..] == [f];
    }
    assert multiset(Concat([d, e, f])) == multiset(d) + multiset(Concat([e, f])) by {
      assert [d, e, f][1..] == [e, f];
    }
    assert multiset(Concat([c, d, e, f])) == multiset(c) + multiset(Concat([d, e, f])) by {
      assert [c, d, e, f][1..] == [d, e, f];
    }
    assert multiset(Concat([b, c, d, e, f])) == multiset(b) + multiset(Concat([c, d, e, f])) by {
      assert [b, c, d, e, f][1..] == [c, d, e, f];
    }
    assert multiset(Concat([a, b, c, d, e, f])) == multiset(a) + multiset(Concat([b, c, d, e, f])) by {
      assert [a, b, c, d, e, f][1..] == [b, c, d, e, f];
    }
  }

  /** Dropping the head of a concatenation whose first part is non-empty. */
  lemma DropAppend<T>(a: seq<T>, b: seq<T>)
    requires |a| > 0
    ensures (a + b)[0] == a[0] && (a + b)[1..] == a[1..] + b
  {
  }

  lemma PrefixSplit<T>(r: seq<T>, p: seq<T>)
    requires |p| <= |r| && r[..|p|] == p
    ensures r == p + r[|p|..]
  {
  }

  /** The prefix of `s` of length `j + 1` is the prefix of length `j`
      followed by `s[j]`. */
  lemma TakeSnoc<T>(s: seq<T>, j: int)
    requires 0 <= j < |s|
    ensures s[..j + 1] == s[..j] + [s[j]]
  {
  }

  lemma AppendAssoc<T>(x: seq<T>, y: seq<T>, z: seq<T>)
    ensures (x + y) + z == x + (y + z)
  {
  }

  /** A non-empty sequence, alone or after another, is its front followed
      by its last element. */
  lemma SplitLast<T>(a: seq<T>, b: seq<T>)
    requires |b| > 0
    ensures b == b[..|b| - 1] + [b[|b| - 1]]
    ensures a + b == (a + b[..|b| - 1]) + [b[|b| - 1]]
  {
    assert b == b[..|b| - 1] + [b[|b| - 1]];
  }

  lemma TakeTake<T>(s: seq<T>, n: int, m: int)
    requires 0 <= m <= n <= |s|
    ensures s[..n][..m] == s[..m]
  {
  }

  lemma MapSeqAppend<A, B>(a: seq<A>, b: seq<A>, f: A -> B)
    ensures MapSeq(a + b, f) == MapSeq(a, f) + MapSeq(b, f)
  {
  }

  lemma {:induction false} WithKeyAppend<T>(a: seq<T>, b: seq<T>, key: T -> int, k: int)
    ensures WithKey(a + b, key, k) == WithKey(a, key, k) + WithKey(b, key, k)
    decreases |a|
  {
    if a == [] {
      assert a + b == b;
    } else {
      var ab := a + b;
      assert ab[0] == a[0];
      assert ab[1..] == a[1..] + b;
      WithKeyAppend(a[1..], b, key, k);
      var rest := WithKey(a[1..], key, k);
      if key(a[0]) == k {
        assert [a[0]] + (rest + WithKey(b, key, k)) == ([a[0]] + rest) + WithKey(b, key, k);
      }
    }
  }

  /** The projection on key `k` holds exactly the elements of `s` whose key is `k`. */
  lemma {:induction false} WithKeyMembers<T>(s: seq<T>, key: T -> int, k: int, x: T)
    ensures x in WithKey(s, key, k) <==> x in s && key(x) == k
    decreases |s|
  {
    if s != [] {
      WithKeyMembers(s[1..], key, k, x);
      assert s == [s[0]] + s[1..];
    }
  }

  /** Mapping commutes with the per-key projection when `f` keeps keys. */
  lemma {:induction false} WithKeyMap<A, B>(s: seq<A>, f: A -> B, ka: A -> int, kb: B -> int, k: int)
    requires forall x :: kb(f(x)) == ka(x)
    ensures WithKey(MapSeq(s, f), kb, k) == MapSeq(WithKey(s, ka, k), f)
    decreases |s|
  {
    if s != [] {
      var m := MapSeq(s, f);
      assert m[1..] == MapSeq(s[1..], f);
      assert m[0] == f(s[0]);
      WithKeyMap(s[1..], f, ka, kb, k);
      if ka(s[0]) == k {
        MapSeqAppend([s[0]], WithKey(s[1..], ka, k), f);
      }
    }
  }

  /** Inserts `x` in front of the first element whose key is at least `key(x)`. */
  function Insert<T>(x: T, s: seq<T>, key: T -> int): (r: seq<T>)
    ensures |r| == |s| + 1
    decreases |s|
  {
    if s == [] then [x]
    else if key(x) <= key(s[0]) then [x] + s
    else [s[0]] + Insert(x, s[1..], key)
  }

  /** Insertion adds `x` and nothing else. */
  lemma {:induction false} InsertPermutes<T>(x: T, s: seq<T>, key: T -> int)
    ensures multiset(Insert(x, s, key)) == multiset(s) + multiset{x}
    decreases |s|
  {
    if s != [] && key(s[0]) < key(x) {
      InsertPermutes(x, s[1..], key);
      assert s == [s[0]] + s[1..];
    }
  }

  lemma {:induction false} InsertSorted<T>(x: T, s: seq<T>, key: T -> int)
    requires SortedBy(s, key)
    ensures SortedBy(Insert(x, s, key), key)
    decreases |s|
  {
    if s != [] && key(s[0]) < key(x) {
      var t := Insert(x, s[1..], key);
      InsertSorted(x, s[1..], key);
      InsertPermutes(x, s[1..], key);
      forall m | 0 <= m < |t|
        ensures key(s[0]) <= key(t[m])
      {
        assert t[m] in multiset(t);
        if t[m] != x {
          assert t[m] in multiset(s[1..]);
          var n :| 0 <= n < |s[1..]| && s[1..][n] == t[m];
          SortedPair(s, key, 0, n + 1);
        }
      }
      var r := [s[0]] + t;
      forall i, j | 0 <= i < j < |r|
        ensures key(r[i]) <= key(r[j])
      {
        assert r[j] == t[j - 1];
        if i > 0 {
          assert r[i] == t[i - 1];
          SortedPair(t, key, i - 1, j - 1);
        }
      }
    }
  }

  /** The elements with key `k` of a sequence headed by `y`. */
  lemma WithKeyCons<T>(y: T, t: seq<T>, key: T -> int, k: int)
    ensures WithKey([y] + t, key, k) == (if key(y) == k then [y] else []) + WithKey(t, key, k)
  {
    var r := [y] + t;
    assert r[0] == y && r[1..] == t;
    if key(y) != k {
      assert [] + WithKey(t, key, k) == WithKey(t, key, k);
    }
  }

  /** Elements before the insertion point have keys strictly below `key(x)`,
      so `x` lands after every earlier element carrying its own key. */
  lemma {:induction false} InsertStable<T>(x: T, s: seq<T>, key: T -> int, k: int)
    ensures WithKey(Insert(x, s, key), key, k)
         == (if key(x) == k then [x] else []) + WithKey(s, key, k)
    decreases |s|
  {
    if s == [] {
      WithKeyCons(x, [], key, k);
      assert [x] + [] == [x];
    } else if key(x) <= key(s[0]) {
      WithKeyCons(x, s, key, k);
    } else {
      InsertStable(x, s[1..], key, k);
      InsertStableStep(x, s, key, k);
    }
  }

  /** The inductive step of `InsertStable`, where `x` goes past `s[0]`. */
  lemma InsertStableStep<T>(x: T, s: seq<T>, key: T -> int, k: int)
    requires s != [] && key(s[0]) < key(x)
    requires WithKey(Insert(x, s[1..], key), key, k)
          == (if key(x) == k then [x] else []) + WithKey(s[1..], key, k)
    ensures WithKey(Insert(x, s, key), key, k)
         == (if key(x) == k then [x] else []) + WithKey(s, key, k)
  {
    var t := Insert(x, s[1..], key);
    var rest := WithKey(s[1..], key, k);
    WithKeyCons(s[0], t, key, k);
    WithKeyCons(s[0], s[1..], key, k);
    assert s == [s[0]] + s[1..];
    if key(s[0]) == k {
      assert WithKey(t, key, k) == rest;
    } else if key(x) == k {
      assert WithKey(s, key, k) == rest;
    } else {
      assert WithKey(s, key, k) == rest;
      assert [] + rest == rest;
    }
  }

  /** Stable insertion sort by `key`: the result is ordered by key, a
      permutation of the input, and for every key the elements carrying it
      keep their original relative order. */
  function SortBy<T>(s: seq<T>, key: T -> int): (r: seq<T>)
    ensures |r| == |s|
    ensures multiset(r) == multiset(s)
    ensures SortedBy(r, key)
    ensures SameKeyOrder(r, s, key)
    decreases |s|
  {
    if s == [] then []
    else
      var rest := SortBy(s[1..], key);
      assert s == [s[0]] + s[1..];
      InsertSorted(s[0], rest, key);
      InsertPermutes(s[0], rest, key);
      assert SameKeyOrder(Insert(s[0], rest, key), s, key) by {
        forall k
          ensures WithKey(Insert(s[0], rest, key), key, k) == WithKey(s, key, k)
        {
          InsertStable(s[0], rest, key, k);
        }
      }
      Insert(s[0], rest, key)
  }

  /** Ordering by key together with the per-key projections determines a
      sequence completely: two such sequences are equal. */
  lemma {:induction false} StableOrderUnique<T>(a: seq<T>, b: seq<T>, key: T -> int)
    requires SortedBy(a, key) && SortedBy(b, key)
    requires SameKeyOrder(a, b, key)
    ensures a == b
    decreases |a|
  {
    if a == [] {
    } else {
      var ka := key(a[0]);
      assert WithKey(a, key, ka) != [];
      assert b != [];
      var kb := key(b[0]);
      WithKeyMembers(a, key, ka, a[0]);
      WithKeyMembers(b, key, ka, a[0]);
      var i :| 0 <= i < |b| && b[i] == a[0];
      assert kb <= ka by { if i > 0 { assert key(b[0]) <= key(b[i]); } }
      WithKeyMembers(b, key, kb, b[0]);
      WithKeyMembers(a, key, kb, b[0]);
      var j :| 0 <= j < |a| && a[j] == b[0];
      assert ka <= kb by { if j > 0 { assert key(a[0]) <= key(a[j]); } }
      assert a[0] == b[0] by {
        assert WithKey(a, key, ka)[0] == a[0];
        assert WithKey(b, key, ka)[0] == b[0];
      }
      forall k
        ensures WithKey(a[1..], key, k) == WithKey(b[1..], key, k)
      {
        assert WithKey(a, key, k) == WithKey(b, key, k);
        if ka == k {
          assert WithKey(a[1..], key, k) == WithKey(a, key, k)[1..];
          assert WithKey(b[1..], key, k) == WithKey(b, key, k)[1..];
        } else {
          assert WithKey(a, key, k) == WithKey(a[1..], key, k);
          assert WithKey(b, key, k) == WithKey(b[1..], key, k);
        }
      }
      StableOrderUnique(a[1..], b[1..], key);
      assert a == [a[0]] + a[1..];
      assert b == [b[0]] + b[1..];
    }
  }

  /** `SortBy` is THE stable sort: a sequence equals `SortBy(s, key)` if and
      only if it is ordered by key and keeps every key's elements of `s` in
      their original order. */
  lemma SortByCharacterised<T>(s: seq<T>, r: seq<T>, key: T -> int)
    ensures r == SortBy(s, key) <==> SortedBy(r, key) && SameKeyOrder(r, s, key)
  {
    if SortedBy(r, key) && SameKeyOrder(r, s, key) {
      var t := SortBy(s, key);
      assert SameKeyOrder(r, t, key);
      StableOrderUnique(r, t, key);
    }
  }

  /** The first and the last element of a sorted non-empty sequence carry its
      least and its greatest key. */
  lemma SortByEnds<T>(s: seq<T>, key: T -> int)
    requires |s| > 0
    ensures SortBy(s, key)[0] in s && SortBy(s, key)[|s| - 1] in s
    ensures forall i :: 0 <= i < |s| ==> key(SortBy(s, key)[0]) <= key(s[i]) <= key(SortBy(s, key)[|s| - 1])
  {
    var r := SortBy(s, key);
    assert r[0] in multiset(s) && r[|s| - 1] in multiset(s);
    forall i | 0 <= i < |s|
      ensures key(r[0]) <= key(s[i]) <= key(r[|s| - 1])
    {
      assert s[i] in multiset(r);
      var j :| 0 <= j < |r| && r[j] == s[i];
      SortedPair(r, key, 0, j);
      SortedPair(r, key, j, |r| - 1);
    }
  }

  /** Sorting an already ordered sequence leaves it unchanged. */
  lemma SortBySortedIdentity<T>(s: seq<T>, key: T -> int)
    requires SortedBy(s, key)
    ensures SortBy(s, key) == s
  {
    StableOrderUnique(SortBy(s, key), s, key);
  }

  /** Sorting then mapping equals mapping then sorting, when the map keeps keys. */
  lemma MapSortCommute<A, B>(s: seq<A>, f: A -> B, ka: A -> int, kb: B -> int)
    requires forall x :: kb(f(x)) == ka(x)
    ensures MapSeq(SortBy(s, ka), f) == SortBy(MapSeq(s, f), kb)
  {
    var sorted := SortBy(s, ka);
    var lhs := MapSeq(sorted, f);
    assert SortedBy(lhs, kb) by {
      forall i, j | 0 <= i < j < |lhs|
        ensures kb(lhs[i]) <= kb(lhs[j])
      {
        assert kb(lhs[i]) == ka(sorted[i]);
        assert kb(lhs[j]) == ka(sorted[j]);
      }
    }
    assert SameKeyOrder(lhs, MapSeq(s, f), kb) by {
      forall k
        ensures WithKey(lhs, kb, k) == WithKey(MapSeq(s, f), kb, k)
      {
        WithKeyMap(sorted, f, ka, kb, k);
        WithKeyMap(s, f, ka, kb, k);
      }
    }
    SortByCharacterised(MapSeq(s, f), lhs, kb);
  }
}
