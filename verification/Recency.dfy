/**
 Keys in the order of their last occurrence in a trace, and the last few of them: what "least
 recently used" refers to, whatever the cache does.
 */
module Recency {

  predicate Distinct<K(==,!new)>(s: seq<K>) {
    forall i, j :: 0 <= i < j < |s| ==> s[i] != s[j]
  }

  function Without<K(==,!new)>(s: seq<K>, k: K): (t: seq<K>)
    ensures forall x :: x in t <==> x in s && x != k
  {
    if s == [] then []
    else
      var rest := Without(s[..|s| - 1], k);
      if s[|s| - 1] == k then rest else rest + [s[|s| - 1]]
  }

  /** The keys of a trace, least recently touched first. */
  function ByLastTouch<K(==,!new)>(trace: seq<K>): (r: seq<K>)
    ensures forall x :: x in r <==> x in trace
  {
    if trace == [] then []
    else
      var k := trace[|trace| - 1];
      Without(ByLastTouch(trace[..|trace| - 1]), k) + [k]
  }

  function LastN<K>(s: seq<K>, n: nat): seq<K> {
    if |s| <= n then s else s[|s| - n..]
  }

  lemma {:induction false} WithoutKeepsDistinct<K(!new)>(s: seq<K>, k: K)
    requires Distinct(s)
    ensures Distinct(Without(s, k))
    ensures |Without(s, k)| == if k in s then |s| - 1 else |s|
  {
    if s != [] {
      var front, last := s[..|s| - 1], s[|s| - 1];
      WithoutKeepsDistinct(front, k);
      assert s == front + [last];
      assert last !in front;
    }
  }

  lemma {:induction false} RecencyDistinct<K(!new)>(trace: seq<K>)
    ensures Distinct(ByLastTouch(trace))
  {
    if trace != [] {
      var front, k := trace[..|trace| - 1], trace[|trace| - 1];
      RecencyDistinct(front);
      WithoutKeepsDistinct(ByLastTouch(front), k);
    }
  }

  lemma {:induction false} WithoutConcat<K(!new)>(a: seq<K>, b: seq<K>, k: K)
    ensures Without(a + b, k) == Without(a, k) + Without(b, k)
    decreases |b|
  {
    if b == [] {
      assert a + b == a;
    } else {
      var front := b[..|b| - 1];
      assert (a + b)[..|a + b| - 1] == a + front;
      WithoutConcat(a, front, k);
    }
  }

  lemma LastNConcat<K(!new)>(a: seq<K>, b: seq<K>, n: nat)
    requires |b| >= n
    ensures LastN(a + b, n) == LastN(b, n)
  {
  }

  lemma OldNeverReturns<K(!new)>(older: seq<K>, kept: seq<K>, k: K, n: nat)
    requires Distinct(kept) && |kept| == n > 0
    ensures LastN(Without(older + kept, k), n - 1) == LastN(Without(kept, k), n - 1)
  {
    WithoutConcat(older, kept, k);
    WithoutKeepsDistinct(kept, k);
    LastNConcat(Without(older, k), Without(kept, k), n - 1);
  }

  lemma LastNSnoc<K(!new)>(s: seq<K>, k: K, n: nat)
    requires n > 0
    ensures LastN(s + [k], n) == LastN(s, n - 1) + [k]
  {
  }

  /** Moving a key to the end and then keeping the last n, or keeping the last n first: the same. */
  lemma MoveToEnd<K(!new)>(r: seq<K>, k: K, n: nat)
    requires Distinct(r) && n > 0
    ensures LastN(Without(r, k) + [k], n) == LastN(Without(LastN(r, n), k), n - 1) + [k]
  {
    LastNSnoc(Without(r, k), k, n);
    if |r| > n {
      var older, kept := r[..|r| - n], r[|r| - n..];
      assert r == older + kept;
      OldNeverReturns(older, kept, k, n);
    } else {
      WithoutKeepsDistinct(r, k);
    }
  }

  // ----- how many other keys were touched since -----

  function LastPlace<K(==,!new)>(trace: seq<K>, k: K): (i: int)
    ensures -1 <= i < |trace|
    ensures i >= 0 <==> k in trace
    ensures i >= 0 ==> trace[i] == k
    ensures forall j :: i < j < |trace| ==> trace[j] != k
  {
    if trace == [] then -1
    else if trace[|trace| - 1] == k then |trace| - 1
    else
      assert trace == trace[..|trace| - 1] + [trace[|trace| - 1]];
      LastPlace(trace[..|trace| - 1], k)
  }

  function KeysOf<K(!new)>(s: seq<K>): set<K> {
    set x | x in s
  }

  lemma {:induction false} DistinctSize<K(!new)>(s: seq<K>)
    requires Distinct(s)
    ensures |KeysOf(s)| == |s|
  {
    if s != [] {
      var front, last := s[..|s| - 1], s[|s| - 1];
      DistinctSize(front);
      assert s == front + [last];
      assert last !in front;
      assert KeysOf(s) == KeysOf(front) + {last};
    }
  }

  /** The keys touched after the last touch of a key. */
  function Since<K(==,!new)>(trace: seq<K>, k: K): seq<K> {
    trace[LastPlace(trace, k) + 1..]
  }

  lemma SinceSnoc<K(!new)>(trace: seq<K>, last: K, k: K)
    requires last != k
    ensures Since(trace + [last], k) == Since(trace, k) + [last]
  {
    assert (trace + [last])[..|trace|] == trace;
  }

  lemma MoveBehind<K(!new)>(older: seq<K>, k: K, newer: seq<K>, last: K)
    requires last != k
    ensures Without(older + [k] + newer, last) == Without(older, last) + [k] + Without(newer, last)
  {
    WithoutConcat(older + [k], newer, last);
    WithoutConcat(older, [k], last);
    assert [k][..0] == [];
  }

  /** What stands behind a key in recency order are exactly the keys touched after it. */
  lemma {:induction false} Behind<K(!new)>(trace: seq<K>, k: K) returns (older: seq<K>, newer: seq<K>)
    requires k in trace
    ensures ByLastTouch(trace) == older + [k] + newer
    ensures forall x :: x in newer <==> x in Since(trace, k)
  {
    var front, last := trace[..|trace| - 1], trace[|trace| - 1];
    assert trace == front + [last];
    if last == k {
      older, newer := Without(ByLastTouch(front), k), [];
      assert Since(trace, k) == [];
    } else {
      older, newer := Behind(front, k);
      MoveBehind(older, k, newer, last);
      SinceSnoc(front, last, k);
      older, newer := Without(older, last), Without(newer, last) + [last];
    }
  }

  lemma LastNSplit<K(!new)>(older: seq<K>, k: K, newer: seq<K>, n: nat)
    requires Distinct(older + [k] + newer)
    ensures k in LastN(older + [k] + newer, n) <==> |newer| < n
  {
    var r := older + [k] + newer;
    assert r[|older|] == k;
    if |newer| < n {
      assert |r| > n ==> LastN(r, n)[|older| - (|r| - n)] == k;
    }
  }

  lemma DistinctTail<K(!new)>(front: seq<K>, back: seq<K>)
    requires Distinct(front + back)
    ensures Distinct(back)
  {
    forall i, j | 0 <= i < j < |back|
      ensures back[i] != back[j]
    {
      assert (front + back)[|front| + i] == back[i] && (front + back)[|front| + j] == back[j];
    }
  }

  /** A key is among the n most recent exactly when fewer than n different keys were touched since. */
  lemma RecentIff<K(!new)>(trace: seq<K>, k: K, n: nat)
    ensures k in LastN(ByLastTouch(trace), n) <==> k in trace && |KeysOf(Since(trace, k))| < n
  {
    RecencyDistinct(trace);
    if k in trace {
      var older, newer := Behind(trace, k);
      LastNSplit(older, k, newer, n);
      DistinctTail(older + [k], newer);
      DistinctSize(newer);
      assert KeysOf(newer) == KeysOf(Since(trace, k));
    }
  }
}
