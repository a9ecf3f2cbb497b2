/** Facts about sequences and multisets that several models share. */
module Sequences {

  lemma Regroup<T>(a: seq<T>, b: seq<T>, c: seq<T>)
    ensures a + b + c == a + (b + c)
  {
  }

  lemma RegroupFour<T>(a: seq<T>, b: seq<T>, c: seq<T>, d: seq<T>)
    ensures a + b + c + d == a + (b + c + d) == a + (b + (c + d))
  {
    assert a + b + c + d == a + b + (c + d);
  }

  lemma SamePrefix<T>(a: seq<T>, b: seq<T>, c: seq<T>)
    ensures a + b == a + c <==> b == c
  {
    if a + b == a + c {
      assert b == (a + b)[|a|..] && c == (a + c)[|a|..];
    }
  }

  function Without<T>(s: seq<T>, p: nat): seq<T>
    requires p < |s|
  {
    s[..p] + s[p + 1..]
  }

  lemma WithoutAt<T>(s: seq<T>, p: nat, i: nat)
    requires p < |s| && i < |s| && i != p
    ensures |Without(s, p)| == |s| - 1
    ensures if i < p then Without(s, p)[i] == s[i] else Without(s, p)[i - 1] == s[i]
  {
  }

  ghost predicate Distinct<T(!new)>(s: seq<T>) {
    forall i, j | 0 <= i < j < |s| :: s[i] != s[j]
  }

  lemma DistinctWithout<T(!new)>(s: seq<T>, p: nat)
    requires Distinct(s) && p < |s|
    ensures Distinct(Without(s, p)) && s[p] !in Without(s, p)
  {
  }

  lemma DistinctAppend<T(!new)>(a: seq<T>, b: seq<T>)
    requires Distinct(a) && Distinct(b) && forall x | x in a :: x !in b
    ensures Distinct(a + b)
  {
    forall i, j | 0 <= i < j < |a + b| ensures (a + b)[i] != (a + b)[j] {
      if i < |a| <= j { assert a[i] in a && b[j - |a|] in b; }
    }
  }

  // ---------- parts put together ----------

  function Concat<T>(parts: seq<seq<T>>): seq<T> {
    if parts == [] then [] else parts[0] + Concat(parts[1..])
  }

  lemma {:induction false} ConcatGrows<T>(parts: seq<seq<T>>, part: seq<T>)
    ensures Concat(parts + [part]) == Concat(parts) + part
  {
    if parts == [] {
      assert [part][1..] == [];
    } else {
      ConcatGrows(parts[1..], part);
      assert (parts + [part])[1..] == parts[1..] + [part];
    }
  }

  lemma ConcatUpTo<T>(parts: seq<seq<T>>, n: nat)
    requires n < |parts|
    ensures Concat(parts[..n + 1]) == Concat(parts[..n]) + parts[n]
  {
    assert parts[..n + 1] == parts[..n] + [parts[n]];
    ConcatGrows(parts[..n], parts[n]);
  }

  lemma {:induction false} InConcat<T>(parts: seq<seq<T>>, x: T) returns (k: nat)
    requires x in Concat(parts)
    ensures k < |parts| && x in parts[k]
  {
    if x in parts[0] {
      k := 0;
    } else {
      k := InConcat(parts[1..], x);
      k := k + 1;
    }
  }

  lemma {:induction false} InConcatIff<T>(parts: seq<seq<T>>, x: T)
    ensures x in Concat(parts) <==> exists k | 0 <= k < |parts| :: x in parts[k]
  {
    if parts != [] {
      InConcatIff(parts[1..], x);
      if k :| 0 < k < |parts| && x in parts[k] { assert x in parts[1..][k - 1]; }
      if k :| 0 <= k < |parts[1..]| && x in parts[1..][k] { assert x in parts[k + 1]; }
    }
  }

  /** Parts without repetitions that share nothing make up a whole without repetitions. */
  lemma {:induction false} DistinctConcat<T(!new)>(parts: seq<seq<T>>)
    requires forall i | 0 <= i < |parts| :: Distinct(parts[i])
    requires forall i, j, x | 0 <= i < j < |parts| && x in parts[i] :: x !in parts[j]
    ensures Distinct(Concat(parts))
  {
    if parts != [] {
      DistinctConcat(parts[1..]);
      forall x | x in parts[0] ensures x !in Concat(parts[1..]) {
        if x in Concat(parts[1..]) { var k := InConcat(parts[1..], x); }
      }
      DistinctAppend(parts[0], Concat(parts[1..]));
    }
  }

  // ---------- parts taken in some order ----------

  /** An order in which n things may happen. */
  ghost predicate IsOrder(order: seq<nat>, n: nat) {
    && |order| == n && Distinct(order)
    && (forall i | 0 <= i < n :: order[i] < n)
    && (forall k: nat | k < n :: k in order)
  }

  /** What the parts at some indices hold together. */
  function Bag<T>(parts: seq<seq<T>>, order: seq<nat>): multiset<T>
    requires forall i | 0 <= i < |order| :: order[i] < |parts|
  {
    if order == [] then multiset{} else Bag(parts, order[..|order| - 1]) + multiset(parts[order[|order| - 1]])
  }

  lemma {:induction false} BagLast<T>(parts: seq<seq<T>>, order: seq<nat>, k: nat)
    requires (forall i | 0 <= i < |order| :: order[i] < |parts|) && k < |parts|
    ensures Bag(parts, order + [k]) == Bag(parts, order) + multiset(parts[k])
  {
    assert (order + [k])[..|order|] == order;
  }

  lemma {:induction false} BagAround<T>(parts: seq<seq<T>>, a: seq<nat>, k: nat, b: seq<nat>)
    requires k < |parts| && (forall i | 0 <= i < |a| :: a[i] < |parts|) && (forall i | 0 <= i < |b| :: b[i] < |parts|)
    ensures Bag(parts, a + [k] + b) == Bag(parts, a + b) + multiset(parts[k])
    decreases |b|
  {
    if b == [] {
      BagLast(parts, a, k);
      assert a + [k] + b == a + [k] && a + b == a;
    } else {
      var before, last := b[..|b| - 1], b[|b| - 1];
      BagAround(parts, a, k, before);
      BagLast(parts, a + [k] + before, last);
      BagLast(parts, a + before, last);
      assert b == before + [last];
      Regroup(a + [k], before, [last]);
      Regroup(a, before, [last]);
    }
  }

  lemma BagWithout<T>(parts: seq<seq<T>>, order: seq<nat>, p: nat)
    requires p < |order| && forall i | 0 <= i < |order| :: order[i] < |parts|
    ensures Bag(parts, order) == Bag(parts, Without(order, p)) + multiset(parts[order[p]])
  {
    BagAround(parts, order[..p], order[p], order[p + 1..]);
    assert order == order[..p] + [order[p]] + order[p + 1..];
  }

  /** Indices below n, none twice, that leave out only empty parts. */
  ghost predicate Covers<T>(parts: seq<seq<T>>, order: seq<nat>, n: nat) {
    && n <= |parts| && Distinct(order)
    && (forall i | 0 <= i < |order| :: order[i] < n)
    && (forall k: nat | k < n :: k in order || parts[k] == [])
  }

  lemma CoversWithout<T>(parts: seq<seq<T>>, order: seq<nat>, n: nat) returns (p: nat)
    requires n > 0 && Covers(parts, order, n) && n - 1 in order
    ensures p < |order| && order[p] == n - 1 && Covers(parts, Without(order, p), n - 1)
  {
    p :| 0 <= p < |order| && order[p] == n - 1;
    var rest := Without(order, p);
    DistinctWithout(order, p);
    forall i | 0 <= i < |rest| ensures rest[i] < n - 1 {
      WithoutAt(order, p, if i < p then i else i + 1);
      assert rest[i] in rest;
    }
    forall k: nat | k < n - 1 ensures k in rest || parts[k] == [] {
      if k in order {
        var i :| 0 <= i < |order| && order[i] == k;
        WithoutAt(order, p, i);
      }
    }
  }

  lemma CoversLess<T>(parts: seq<seq<T>>, order: seq<nat>, n: nat)
    requires n > 0 && Covers(parts, order, n) && n - 1 !in order
    ensures Covers(parts, order, n - 1)
  {
    forall i | 0 <= i < |order| ensures order[i] < n - 1 { assert order[i] in order; }
  }

  /** In whatever order the parts are taken, they hold together what all hold. */
  lemma {:induction false} BagOfAll<T>(parts: seq<seq<T>>, order: seq<nat>, n: nat)
    requires Covers(parts, order, n)
    ensures Bag(parts, order) == multiset(Concat(parts[..n]))
    decreases n
  {
    if n > 0 {
      ConcatUpTo(parts, n - 1);
      if n - 1 in order {
        var p := CoversWithout(parts, order, n);
        BagWithout(parts, order, p);
        BagOfAll(parts, Without(order, p), n - 1);
      } else {
        CoversLess(parts, order, n);
        BagOfAll(parts, order, n - 1);
        assert Concat(parts[..n - 1]) + [] == Concat(parts[..n - 1]);
      }
    }
  }
}
