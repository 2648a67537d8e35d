/** Keeping the first item of every key, in order. */
module Dedupe {
  import Orders

  ghost predicate HasKey<T, K>(key: T -> K, items: seq<T>, k: K) {
    exists x :: x in items && key(x) == k
  }

  ghost function FirstPerKey<T, K>(key: T -> K, items: seq<T>): seq<T> {
    if items == [] then []
    else
      var rest := items[..|items| - 1];
      var last := items[|items| - 1];
      FirstPerKey(key, rest) + if HasKey(key, rest, key(last)) then [] else [last]
  }

  lemma Snoc<T, K>(key: T -> K, rest: seq<T>, last: T)
    ensures FirstPerKey(key, rest + [last]) ==
            FirstPerKey(key, rest) + if HasKey(key, rest, key(last)) then [] else [last]
  {
    assert (rest + [last])[..|rest|] == rest;
  }

  /** What is kept comes from the items, no key twice, and no key is lost. */
  lemma {:induction false} FirstPerKeyKeepsKeys<T, K>(key: T -> K, items: seq<T>)
    ensures forall x :: x in FirstPerKey(key, items) ==> x in items
    ensures forall x :: x in items ==> HasKey(key, FirstPerKey(key, items), key(x))
    ensures forall i, j :: 0 <= i < j < |FirstPerKey(key, items)| ==>
              key(FirstPerKey(key, items)[i]) != key(FirstPerKey(key, items)[j])
  {
    if items != [] {
      var rest := items[..|items| - 1];
      var last := items[|items| - 1];
      var kept := FirstPerKey(key, items);
      FirstPerKeyKeepsKeys(key, rest);
      assert items == rest + [last];
      forall x | x in items
        ensures HasKey(key, kept, key(x))
      {
        assert HasKey(key, rest, key(x)) || kept == FirstPerKey(key, rest) + [last];
        if HasKey(key, rest, key(x)) {
          var y :| y in rest && key(y) == key(x);
          var z :| z in FirstPerKey(key, rest) && key(z) == key(y);
          assert z in kept;
        } else {
          assert x == last && last in kept;
        }
      }
    }
  }

  method KeepFirst<T, K(==)>(key: T -> K, items: seq<T>) returns (out: seq<T>)
    ensures out == FirstPerKey(key, items)
  {
    var seen: set<K> := {};
    out := [];
    ghost var done: seq<T> := [];
    for i := 0 to |items|
      invariant done == items[..i]
      invariant forall k :: k in seen <==> HasKey(key, done, k)
      invariant out == FirstPerKey(key, done)
    {
      Snoc(key, done, items[i]);
      assert out + [] == out;
      var k := key(items[i]);
      assert k in seen <==> HasKey(key, done, k);
      if k !in seen {
        seen := seen + {k};
        out := out + [items[i]];
      }
      done := done + [items[i]];
    }
    assert done == items;
  }

  lemma {:induction false} CoveredTailIsDropped<T, K>(key: T -> K, a: seq<T>, b: seq<T>)
    requires forall x :: x in b ==> HasKey(key, a, key(x))
    ensures FirstPerKey(key, a + b) == FirstPerKey(key, a)
    decreases |b|
  {
    if b == [] {
      assert a + b == a;
    } else {
      var rest := b[..|b| - 1];
      var last := b[|b| - 1];
      assert (a + b)[..|a + b| - 1] == a + rest;
      var x :| x in a && key(x) == key(last);
      assert x in a + rest;
      CoveredTailIsDropped(key, a, rest);
    }
  }

  // ----- does deduplication keep a bad item? -----

  ghost predicate AnyBad<T(!new)>(bad: T -> bool, items: seq<T>) {
    exists x :: x in items && bad(x)
  }

  /** Every item that shares the key of `x` is bad. */
  ghost predicate WholeKeyBad<T(!new), K>(key: T -> K, bad: T -> bool, items: seq<T>, x: T) {
    forall y :: y in items && key(y) == key(x) ==> bad(y)
  }

  function Keep<T(!new)>(bad: T -> bool, items: seq<T>, wanted: bool): (r: seq<T>)
    ensures forall x :: x in r <==> x in items && bad(x) == wanted
  {
    if items == [] then []
    else (if bad(items[0]) == wanted then [items[0]] else []) + Keep(bad, items[1..], wanted)
  }

  lemma {:induction false} KeepPartitions<T(!new)>(bad: T -> bool, items: seq<T>)
    ensures multiset(Keep(bad, items, false) + Keep(bad, items, true)) == multiset(items)
  {
    if items != [] {
      KeepPartitions(bad, items[1..]);
      assert items == [items[0]] + items[1..];
    }
  }

  /** In whatever order the items arrive, deduplicating them keeps a bad one if there is one. */
  ghost predicate OrderNeverHidesBad<T(!new), K>(key: T -> K, bad: T -> bool, items: seq<T>) {
    forall arrived {:trigger FirstPerKey(key, arrived)} :: multiset(arrived) == multiset(items) ==>
      (AnyBad(bad, FirstPerKey(key, arrived)) <==> AnyBad(bad, items))
  }

  lemma WholeKeyBadIsKept<T(!new), K>(key: T -> K, bad: T -> bool, items: seq<T>, arrived: seq<T>, x: T)
    requires multiset(arrived) == multiset(items) && x in items && WholeKeyBad(key, bad, items, x)
    ensures AnyBad(bad, FirstPerKey(key, arrived))
  {
    Orders.SameItems(arrived, items);
    FirstPerKeyKeepsKeys(key, arrived);
    assert HasKey(key, FirstPerKey(key, arrived), key(x));
    var y :| y in FirstPerKey(key, arrived) && key(y) == key(x);
    assert bad(y);
  }

  lemma GoodFirstHidesBad<T(!new), K>(key: T -> K, bad: T -> bool, items: seq<T>) returns (arrived: seq<T>)
    requires forall x :: x in items && bad(x) ==> !WholeKeyBad(key, bad, items, x)
    ensures multiset(arrived) == multiset(items) && !AnyBad(bad, FirstPerKey(key, arrived))
  {
    var good, rest := Keep(bad, items, false), Keep(bad, items, true);
    arrived := good + rest;
    KeepPartitions(bad, items);
    forall x | x in rest
      ensures HasKey(key, good, key(x))
    {
      assert !WholeKeyBad(key, bad, items, x);
      var y :| y in items && key(y) == key(x) && !bad(y);
      assert y in good;
    }
    CoveredTailIsDropped(key, good, rest);
    FirstPerKeyKeepsKeys(key, good);
  }

  lemma OrderNeverHidesBadIff<T(!new), K>(key: T -> K, bad: T -> bool, items: seq<T>)
    ensures OrderNeverHidesBad(key, bad, items) <==>
            !AnyBad(bad, items) || exists x :: x in items && WholeKeyBad(key, bad, items, x)
  {
    if exists x :: x in items && WholeKeyBad(key, bad, items, x) {
      var x :| x in items && WholeKeyBad(key, bad, items, x);
      forall arrived {:trigger FirstPerKey(key, arrived)} | multiset(arrived) == multiset(items)
        ensures AnyBad(bad, FirstPerKey(key, arrived))
      {
        WholeKeyBadIsKept(key, bad, items, arrived, x);
      }
      assert bad(x);
    } else if !AnyBad(bad, items) {
      forall arrived {:trigger FirstPerKey(key, arrived)} | multiset(arrived) == multiset(items)
        ensures !AnyBad(bad, FirstPerKey(key, arrived))
      {
        Orders.SameItems(arrived, items);
        FirstPerKeyKeepsKeys(key, arrived);
      }
    } else {
      var arrived := GoodFirstHidesBad(key, bad, items);
      assert AnyBad(bad, FirstPerKey(key, arrived)) != AnyBad(bad, items);
    }
  }
}
