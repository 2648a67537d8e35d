/** The bounded cache: a touch moves a key to the end, and the front is dropped. */
module LruCache {
  import opened Options
  import opened Recency

  datatype Entry<K, V> = Entry(key: K, value: V)

  function Keys<K, V>(es: seq<Entry<K, V>>): (keys: seq<K>)
    ensures |keys| == |es| && forall i :: 0 <= i < |es| ==> keys[i] == es[i].key
  {
    seq(|es|, i requires 0 <= i < |es| => es[i].key)
  }

  // ----- insertion-ordered maps -----

  function Lookup<K(==), V>(es: seq<Entry<K, V>>, k: K): Option<V> {
    if es == [] then None
    else if es[|es| - 1].key == k then Some(es[|es| - 1].value)
    else Lookup(es[..|es| - 1], k)
  }

  function Drop<K(==), V>(es: seq<Entry<K, V>>, k: K): seq<Entry<K, V>> {
    if es == [] then []
    else
      var rest := Drop(es[..|es| - 1], k);
      if es[|es| - 1].key == k then rest else rest + [es[|es| - 1]]
  }

  function KeepUnless<K, V>(es: seq<Entry<K, V>>, unwanted: (K, V) -> bool): seq<Entry<K, V>> {
    if es == [] then []
    else
      var rest := KeepUnless(es[..|es| - 1], unwanted);
      var last := es[|es| - 1];
      if unwanted(last.key, last.value) then rest else rest + [last]
  }

  lemma {:induction false} DropKeys<K(!new), V>(es: seq<Entry<K, V>>, k: K)
    ensures Keys(Drop(es, k)) == Without(Keys(es), k)
  {
    if es != [] {
      var front := es[..|es| - 1];
      DropKeys(front, k);
      assert Keys(es)[..|es| - 1] == Keys(front);
    }
  }

  lemma {:induction false} DropAbsent<K(!new), V>(es: seq<Entry<K, V>>, k: K)
    requires k !in Keys(es)
    ensures Drop(es, k) == es
  {
    if es != [] {
      var front := es[..|es| - 1];
      assert Keys(es) == Keys(front) + [es[|es| - 1].key];
      DropAbsent(front, k);
      assert es == front + [es[|es| - 1]];
    }
  }

  lemma {:induction false} LookupIff<K(!new), V>(es: seq<Entry<K, V>>, k: K)
    ensures Lookup(es, k).Some? <==> k in Keys(es)
  {
    if es != [] {
      var front := es[..|es| - 1];
      LookupIff(front, k);
      assert Keys(es) == Keys(front) + [es[|es| - 1].key];
    }
  }

  // ----- the operations on the whole state -----

  datatype Op<!K, !V> = Get(k: K) | Set(k: K, v: V) | Delete(k: K) | DeleteWhere(unwanted: (K, V) -> bool) | Clear

  function Evict<K, V>(es: seq<Entry<K, V>>, max: nat): seq<Entry<K, V>>
    requires max > 0
  {
    LastN(es, max - 1)
  }

  function After<K(==), V>(es: seq<Entry<K, V>>, op: Op<K, V>, max: nat): seq<Entry<K, V>>
    requires max > 0
  {
    match op
    case Get(k) =>
      (match Lookup(es, k)
       case None => es
       case Some(v) => Drop(es, k) + [Entry(k, v)])
    case Set(k, v) => Evict(Drop(es, k), max) + [Entry(k, v)]
    case Delete(k) => Drop(es, k)
    case DeleteWhere(unwanted) => KeepUnless(es, unwanted)
    case Clear => []
  }

  class BoundedLruCache<K(==,!new), V> {
    const maxEntries: nat
    var entries: seq<Entry<K, V>>

    ghost predicate Valid()
      reads this
    {
      maxEntries > 0 && |entries| <= maxEntries && Distinct(Keys(entries))
    }

    constructor (maxEntries: nat)
      requires maxEntries > 0
      ensures Valid() && entries == [] && this.maxEntries == maxEntries
    {
      this.maxEntries := maxEntries;
      entries := [];
    }

    method Has(key: K) returns (held: bool)
      requires Valid()
      ensures held <==> key in Keys(entries)
    {
      LookupIff(entries, key);
      held := Lookup(entries, key).Some?;
    }

    /** The map's own deletion. */
    method Forget(key: K) returns (held: bool)
      requires Valid()
      modifies this
      ensures Valid() && entries == Drop(old(entries), key) && key !in Keys(entries)
      ensures held <==> key in Keys(old(entries))
    {
      LookupIff(entries, key);
      DropKeys(entries, key);
      WithoutKeepsDistinct(Keys(entries), key);
      held := Lookup(entries, key).Some?;
      entries := Drop(entries, key);
    }

    /** The map's own insertion of an absent key: at the end. */
    method Append(key: K, value: V)
      requires Valid() && key !in Keys(entries) && |entries| < maxEntries
      modifies this
      ensures Valid() && entries == old(entries) + [Entry(key, value)]
    {
      entries := entries + [Entry(key, value)];
    }

    method Get(key: K) returns (value: Option<V>)
      requires Valid()
      modifies this
      ensures Valid() && value == Lookup(old(entries), key)
      ensures entries == After(old(entries), Op.Get(key), maxEntries)
    {
      value := Lookup(entries, key);
      if value.None? {
        return;
      }
      LookupIff(entries, key);
      DropKeys(entries, key);
      WithoutKeepsDistinct(Keys(entries), key);
      var _ := Forget(key);
      Append(key, value.value);
    }

    method Set(key: K, value: V)
      requires Valid()
      modifies this
      ensures Valid()
      ensures entries == After(old(entries), Op.Set(key, value), maxEntries)
    {
      var _ := Forget(key);
      ghost var kept := entries;
      while |entries| >= maxEntries
        invariant Valid() && key !in Keys(entries)
        invariant Evict(entries, maxEntries) == Evict(kept, maxEntries)
        decreases |entries|
      {
        assert Keys(entries[1..]) == Keys(entries)[1..];
        entries := entries[1..];
      }
      Append(key, value);
    }

    method Delete(key: K) returns (held: bool)
      requires Valid()
      modifies this
      ensures Valid() && (held <==> key in Keys(old(entries)))
      ensures entries == After(old(entries), Op.Delete(key), maxEntries)
    {
      held := Forget(key);
    }

    /** One visit: the entry goes if it is unwanted. */
    method Visit(all: seq<Entry<K, V>>, i: nat, unwanted: (K, V) -> bool) returns (gone: bool)
      requires Valid() && i < |all| && Thinned(all, i, unwanted, entries)
      modifies this
      ensures Valid() && Thinned(all, i + 1, unwanted, entries)
      ensures |entries| == |old(entries)| - if gone then 1 else 0
    {
      var entry := all[i];
      VisitNext(all, i, unwanted, entries);
      gone := unwanted(entry.key, entry.value);
      if gone {
        entries := Drop(entries, entry.key);
      }
    }

    /** Deleting while iterating: each entry is visited once, in order. */
    method DeleteWhere(unwanted: (K, V) -> bool) returns (deleted: nat)
      requires Valid()
      modifies this
      ensures Valid()
      ensures entries == After(old(entries), Op.DeleteWhere(unwanted), maxEntries)
      ensures deleted == |old(entries)| - |entries|
    {
      var all := entries;
      deleted := 0;
      ThinnedStart(all, unwanted);
      for i := 0 to |all|
        invariant Valid() && Thinned(all, i, unwanted, entries)
        invariant deleted + |entries| == |all|
      {
        var gone := Visit(all, i, unwanted);
        if gone {
          deleted := deleted + 1;
        }
      }
      ThinnedEnd(all, unwanted, entries, maxEntries);
    }

    method Clear()
      requires Valid()
      modifies this
      ensures Valid() && entries == After(old(entries), Op.Clear, maxEntries)
    {
      entries := [];
    }
  }

  lemma KeepNext<K(!new), V>(all: seq<Entry<K, V>>, i: nat, unwanted: (K, V) -> bool)
    requires i < |all|
    ensures KeepUnless(all[..i + 1], unwanted) ==
            KeepUnless(all[..i], unwanted) + if unwanted(all[i].key, all[i].value) then [] else [all[i]]
    ensures all[i..] == [all[i]] + all[i + 1..]
  {
    assert all[..i + 1][..i] == all[..i];
  }

  /** The first entries have been visited: those unwanted are gone. */
  ghost predicate Thinned<K, V>(all: seq<Entry<K, V>>, i: nat, unwanted: (K, V) -> bool, es: seq<Entry<K, V>>)
    requires i <= |all|
  {
    es == KeepUnless(all[..i], unwanted) + all[i..]
  }

  lemma ThinnedStart<K, V>(all: seq<Entry<K, V>>, unwanted: (K, V) -> bool)
    ensures Thinned(all, 0, unwanted, all)
  {
  }

  lemma ThinnedEnd<K, V>(all: seq<Entry<K, V>>, unwanted: (K, V) -> bool, es: seq<Entry<K, V>>, max: nat)
    requires max > 0 && Thinned(all, |all|, unwanted, es)
    ensures es == After(all, Op.DeleteWhere(unwanted), max)
  {
    assert all[..|all|] == all;
  }

  /** Visiting one entry of the map being thinned out. */
  lemma VisitNext<K(!new), V>(all: seq<Entry<K, V>>, i: nat, unwanted: (K, V) -> bool, es: seq<Entry<K, V>>)
    requires i < |all| && Thinned(all, i, unwanted, es) && Distinct(Keys(es))
    ensures var left := if unwanted(all[i].key, all[i].value) then Drop(es, all[i].key) else es;
            && Thinned(all, i + 1, unwanted, left) && Distinct(Keys(left))
            && |left| == |es| - if unwanted(all[i].key, all[i].value) then 1 else 0
  {
    var front, entry, back := KeepUnless(all[..i], unwanted), all[i], all[i + 1..];
    KeepNext(all, i, unwanted);
    assert es == front + [entry] + back;
    DropMiddle(front, entry, back);
    DropKeys(es, entry.key);
    WithoutKeepsDistinct(Keys(es), entry.key);
  }

  lemma DropMiddle<K(!new), V>(front: seq<Entry<K, V>>, entry: Entry<K, V>, back: seq<Entry<K, V>>)
    requires Distinct(Keys(front + [entry] + back))
    ensures Drop(front + [entry] + back, entry.key) == front + back
  {
    DropConcat(front + [entry], back, entry.key);
    DropConcat(front, [entry], entry.key);
    OthersDiffer(front, entry, back);
    DropAbsent(front, entry.key);
    DropAbsent(back, entry.key);
    assert [entry][..0] == [];
  }

  lemma OthersDiffer<K(!new), V>(front: seq<Entry<K, V>>, entry: Entry<K, V>, back: seq<Entry<K, V>>)
    requires Distinct(Keys(front + [entry] + back))
    ensures entry.key !in Keys(front) && entry.key !in Keys(back)
  {
    var keys := Keys(front + [entry] + back);
    assert keys == Keys(front) + [entry.key] + Keys(back);
    assert keys[|front|] == entry.key;
    forall i | 0 <= i < |keys| && i != |front|
      ensures keys[i] != entry.key
    {
    }
    assert forall i :: 0 <= i < |front| ==> Keys(front)[i] == keys[i];
    assert forall i :: 0 <= i < |back| ==> Keys(back)[i] == keys[|front| + 1 + i];
  }

  lemma {:induction false} DropConcat<K(!new), V>(a: seq<Entry<K, V>>, b: seq<Entry<K, V>>, k: K)
    ensures Drop(a + b, k) == Drop(a, k) + Drop(b, k)
    decreases |b|
  {
    if b == [] {
      assert a + b == a;
    } else {
      assert (a + b)[..|a + b| - 1] == a + b[..|b| - 1];
      DropConcat(a, b[..|b| - 1], k);
    }
  }

  // ----- whole histories -----

  /** The state after a history that starts with an empty cache. */
  function Run<K(==), V>(ops: seq<Op<K, V>>, max: nat): seq<Entry<K, V>>
    requires max > 0
  {
    if ops == [] then [] else After(Run(ops[..|ops| - 1], max), ops[|ops| - 1], max)
  }

  function Touched<K(==), V>(es: seq<Entry<K, V>>, op: Op<K, V>): seq<K> {
    match op
    case Set(k, _) => [k]
    case Get(k) => if Lookup(es, k).Some? then [k] else []
    case _ => []
  }

  /** The keys touched, in order: by every set, and by every get that found its key. */
  function Touches<K(==), V>(ops: seq<Op<K, V>>, max: nat): seq<K>
    requires max > 0
  {
    if ops == [] then []
    else
      var front := ops[..|ops| - 1];
      Touches(front, max) + Touched(Run(front, max), ops[|ops| - 1])
  }

  function LastSet<K(==), V>(ops: seq<Op<K, V>>, k: K): Option<V> {
    if ops == [] then None
    else
      match ops[|ops| - 1]
      case Set(key, v) => if key == k then Some(v) else LastSet(ops[..|ops| - 1], k)
      case _ => LastSet(ops[..|ops| - 1], k)
  }

  predicate OnlyGetsAndSets<K, V>(ops: seq<Op<K, V>>) {
    forall i :: 0 <= i < |ops| ==> ops[i].Get? || ops[i].Set?
  }

  lemma TouchMoves<K(!new), V>(es: seq<Entry<K, V>>, k: K, v: V, trace: seq<K>, max: nat)
    requires max > 0 && Keys(es) == LastN(ByLastTouch(trace), max)
    ensures Keys(Evict(Drop(es, k), max) + [Entry(k, v)]) == LastN(ByLastTouch(trace + [k]), max)
  {
    RecencyDistinct(trace);
    MoveToEnd(ByLastTouch(trace), k, max);
    RecencySnoc(trace, k);
    DropKeys(es, k);
    EvictKeys(Drop(es, k), max);
    KeysSnoc(Evict(Drop(es, k), max), Entry(k, v));
  }

  lemma RecencySnoc<K(!new)>(trace: seq<K>, k: K)
    ensures ByLastTouch(trace + [k]) == Without(ByLastTouch(trace), k) + [k]
  {
    assert (trace + [k])[..|trace|] == trace;
  }

  lemma EvictKeys<K(!new), V>(es: seq<Entry<K, V>>, max: nat)
    requires max > 0
    ensures Keys(Evict(es, max)) == LastN(Keys(es), max - 1)
  {
  }

  lemma KeysSnoc<K(!new), V>(es: seq<Entry<K, V>>, entry: Entry<K, V>)
    ensures Keys(es + [entry]) == Keys(es) + [entry.key]
  {
  }

  lemma HitEvictsNone<K(!new), V>(es: seq<Entry<K, V>>, k: K, max: nat)
    requires max > 0 && |es| <= max && Distinct(Keys(es)) && k in Keys(es)
    ensures Evict(Drop(es, k), max) == Drop(es, k)
  {
    DropKeys(es, k);
    WithoutKeepsDistinct(Keys(es), k);
  }

  lemma LastNDistinct<K(!new)>(s: seq<K>, n: nat)
    requires Distinct(s)
    ensures Distinct(LastN(s, n)) && |LastN(s, n)| <= n
  {
  }

  /** With only gets and sets the cache holds exactly the most recently touched keys, in that order. */
  lemma {:induction false} HoldsMostRecent<K(!new), V>(ops: seq<Op<K, V>>, max: nat)
    requires max > 0 && OnlyGetsAndSets(ops)
    ensures Keys(Run(ops, max)) == LastN(ByLastTouch(Touches(ops, max)), max)
  {
    if ops != [] {
      var front, op := ops[..|ops| - 1], ops[|ops| - 1];
      HoldsMostRecent(front, max);
      var es, trace := Run(front, max), Touches(front, max);
      LookupIff(es, op.k);
      match op
      case Set(k, v) =>
        TouchMoves(es, k, v, trace, max);
      case Get(k) =>
        if Lookup(es, k).Some? {
          RecencyDistinct(trace);
          LastNDistinct(ByLastTouch(trace), max);
          HitEvictsNone(es, k, max);
          TouchMoves(es, k, Lookup(es, k).value, trace, max);
        } else {
          assert trace + [] == trace;
        }
    }
  }

  /** A get finds its key exactly when fewer than `max` different keys were touched since that key was. */
  lemma HitIff<K(!new), V>(ops: seq<Op<K, V>>, k: K, max: nat)
    requires max > 0 && OnlyGetsAndSets(ops)
    ensures Lookup(Run(ops, max), k).Some? <==>
            k in Touches(ops, max) && |KeysOf(Since(Touches(ops, max), k))| < max
  {
    HoldsMostRecent(ops, max);
    LookupIff(Run(ops, max), k);
    RecentIff(Touches(ops, max), k, max);
  }

  // ----- histories with deletions -----

  /** Entries stand in the order their keys were last touched, so no key stands twice. */
  ghost predicate InTouchOrder<K(!new), V>(es: seq<Entry<K, V>>, trace: seq<K>) {
    && (forall i :: 0 <= i < |es| ==> es[i].key in trace)
    && forall i, j :: 0 <= i < j < |es| ==> LastPlace(trace, es[i].key) < LastPlace(trace, es[j].key)
  }

  ghost predicate LastValues<K(!new), V>(es: seq<Entry<K, V>>, ops: seq<Op<K, V>>) {
    forall i :: 0 <= i < |es| ==> LastSet(ops, es[i].key) == Some(es[i].value)
  }

  /** What stays of a sequence when some of its items are taken out, in order. */
  ghost predicate Within<T(!new)>(kept: seq<T>, all: seq<T>, places: seq<nat>) {
    && |places| == |kept| <= |all|
    && (forall i :: 0 <= i < |kept| ==> places[i] < |all| && kept[i] == all[places[i]])
    && forall i, j :: 0 <= i < j < |places| ==> places[i] < places[j]
  }

  lemma SnocWithin<T(!new)>(kept: seq<T>, all: seq<T>, places: seq<nat>, last: T, taken: bool)
    returns (grown: seq<nat>)
    requires Within(kept, all, places)
    ensures Within(if taken then kept + [last] else kept, all + [last], grown)
  {
    grown := if taken then places + [|all|] else places;
  }

  lemma {:induction false} DropWithin<K(!new), V(!new)>(es: seq<Entry<K, V>>, k: K) returns (places: seq<nat>)
    ensures Within(Drop(es, k), es, places)
    ensures forall i :: 0 <= i < |Drop(es, k)| ==> Drop(es, k)[i].key != k
  {
    places := [];
    if es != [] {
      var front, last := es[..|es| - 1], es[|es| - 1];
      places := DropWithin(front, k);
      assert es == front + [last];
      places := SnocWithin(Drop(front, k), front, places, last, last.key != k);
    }
  }

  lemma {:induction false} KeepWithin<K(!new), V(!new)>(es: seq<Entry<K, V>>, unwanted: (K, V) -> bool)
    returns (places: seq<nat>)
    ensures Within(KeepUnless(es, unwanted), es, places)
  {
    places := [];
    if es != [] {
      var front, last := es[..|es| - 1], es[|es| - 1];
      places := KeepWithin(front, unwanted);
      assert es == front + [last];
      places := SnocWithin(KeepUnless(front, unwanted), front, places, last, !unwanted(last.key, last.value));
    }
  }

  lemma LastNKeepsOrder<K(!new), V(!new)>(es: seq<Entry<K, V>>, n: nat, trace: seq<K>, ops: seq<Op<K, V>>)
    requires InTouchOrder(es, trace) && LastValues(es, ops)
    ensures InTouchOrder(LastN(es, n), trace) && LastValues(LastN(es, n), ops)
  {
  }

  /** Putting a key that is not there at the end, once it has been touched. */
  lemma TouchKeepsOrder<K(!new), V(!new)>(es: seq<Entry<K, V>>, k: K, v: V, trace: seq<K>)
    requires InTouchOrder(es, trace) && forall i :: 0 <= i < |es| ==> es[i].key != k
    ensures InTouchOrder(es + [Entry(k, v)], trace + [k])
  {
    assert (trace + [k])[..|trace|] == trace;
    forall x | x != k
      ensures LastPlace(trace + [k], x) == LastPlace(trace, x)
    {
    }
  }

  /** A further operation changes the last value of its own key at most. */
  lemma LastSetSnoc<K(!new), V(!new)>(ops: seq<Op<K, V>>, op: Op<K, V>, k: K)
    ensures LastSet(ops + [op], k) == if op.Set? && op.k == k then Some(op.v) else LastSet(ops, k)
  {
    assert (ops + [op])[..|ops|] == ops;
  }

  lemma ValuesSnoc<K(!new), V(!new)>(es: seq<Entry<K, V>>, ops: seq<Op<K, V>>, op: Op<K, V>)
    requires LastValues(es, ops) && (op.Set? ==> forall i :: 0 <= i < |es| ==> es[i].key != op.k)
    ensures LastValues(es, ops + [op])
  {
    forall i | 0 <= i < |es|
      ensures LastSet(ops + [op], es[i].key) == Some(es[i].value)
    {
      LastSetSnoc(ops, op, es[i].key);
    }
  }

  lemma {:induction false} LookupIsThere<K(!new), V(!new)>(es: seq<Entry<K, V>>, k: K)
    requires Lookup(es, k).Some?
    ensures exists i :: 0 <= i < |es| && es[i] == Entry(k, Lookup(es, k).value)
  {
    var front, last := es[..|es| - 1], es[|es| - 1];
    if last.key == k {
      assert es[|es| - 1] == Entry(k, Lookup(es, k).value);
    } else {
      LookupIsThere(front, k);
    }
  }

  /** What is left when a key is taken out and the oldest make room. */
  lemma RestKept<K(!new), V(!new)>(es: seq<Entry<K, V>>, k: K, n: nat, trace: seq<K>, ops: seq<Op<K, V>>)
    requires InTouchOrder(es, trace) && LastValues(es, ops)
    ensures var rest := LastN(Drop(es, k), n);
            && |rest| <= n && InTouchOrder(rest, trace) && LastValues(rest, ops)
            && forall i :: 0 <= i < |rest| ==> rest[i].key != k
  {
    var places := DropWithin(es, k);
    LastNKeepsOrder(Drop(es, k), n, trace, ops);
  }

  lemma PutAtEnd<K(!new), V(!new)>(
    rest: seq<Entry<K, V>>, k: K, v: V, trace: seq<K>, ops: seq<Op<K, V>>, op: Op<K, V>)
    requires InTouchOrder(rest, trace) && LastValues(rest, ops) && forall i :: 0 <= i < |rest| ==> rest[i].key != k
    requires op == Op.Set(k, v) || (op == Op.Get(k) && LastSet(ops, k) == Some(v))
    ensures InTouchOrder(rest + [Entry(k, v)], trace + [k])
    ensures LastValues(rest + [Entry(k, v)], ops + [op])
  {
    TouchKeepsOrder(rest, k, v, trace);
    ValuesSnoc(rest, ops, op);
    LastSetSnoc(ops, op, k);
  }

  /**
   After any history, deletions included: at most `max` entries, in the order of their last touch
   (hence no key twice), each with the value last set for its key.
   */
  lemma {:induction false} HistoryInvariant<K(!new), V(!new)>(ops: seq<Op<K, V>>, max: nat)
    requires max > 0
    ensures |Run(ops, max)| <= max
    ensures InTouchOrder(Run(ops, max), Touches(ops, max))
    ensures forall i :: 0 <= i < |Run(ops, max)| ==> Run(ops, max)[i].key in Touches(ops, max)
    ensures forall i, j :: 0 <= i < j < |Run(ops, max)| ==>
              LastPlace(Touches(ops, max), Run(ops, max)[i].key) < LastPlace(Touches(ops, max), Run(ops, max)[j].key)
    ensures LastValues(Run(ops, max), ops)
  {
    if ops != [] {
      var front, op := ops[..|ops| - 1], ops[|ops| - 1];
      HistoryInvariant(front, max);
      assert ops == front + [op];
      NextKeepsInvariant(Run(front, max), Touches(front, max), front, op, max);
    }
  }

  /** What every history keeps. */
  ghost predicate Kept<K(!new), V(!new)>(es: seq<Entry<K, V>>, trace: seq<K>, ops: seq<Op<K, V>>, max: nat) {
    |es| <= max && InTouchOrder(es, trace) && LastValues(es, ops)
  }

  lemma HitKeepsInvariant<K(!new), V(!new)>(
    es: seq<Entry<K, V>>, trace: seq<K>, ops: seq<Op<K, V>>, k: K, max: nat)
    requires max > 0 && Kept(es, trace, ops, max) && Lookup(es, k).Some?
    ensures Kept(Drop(es, k) + [Entry(k, Lookup(es, k).value)], trace + [k], ops + [Op.Get(k)], max)
  {
    LookupIsThere(es, k);
    DropShorter(es, k);
    RestKept(es, k, max - 1, trace, ops);
    PutAtEnd(Drop(es, k), k, Lookup(es, k).value, trace, ops, Op.Get(k));
  }

  lemma ThinnedKeepsInvariant<K(!new), V(!new)>(
    kept: seq<Entry<K, V>>, es: seq<Entry<K, V>>, places: seq<nat>,
    trace: seq<K>, ops: seq<Op<K, V>>, op: Op<K, V>, max: nat)
    requires Within(kept, es, places) && Kept(es, trace, ops, max) && !op.Set?
    ensures Kept(kept, trace, ops + [op], max)
  {
    ValuesSnoc(kept, ops, op);
  }

  lemma SetKeepsInvariant<K(!new), V(!new)>(
    es: seq<Entry<K, V>>, trace: seq<K>, ops: seq<Op<K, V>>, k: K, v: V, max: nat)
    requires max > 0 && Kept(es, trace, ops, max)
    ensures Kept(Evict(Drop(es, k), max) + [Entry(k, v)], trace + [k], ops + [Op.Set(k, v)], max)
  {
    RestKept(es, k, max - 1, trace, ops);
    PutAtEnd(Evict(Drop(es, k), max), k, v, trace, ops, Op.Set(k, v));
  }

  lemma NextKeepsInvariant<K(!new), V(!new)>(
    es: seq<Entry<K, V>>, trace: seq<K>, ops: seq<Op<K, V>>, op: Op<K, V>, max: nat)
    requires max > 0 && Kept(es, trace, ops, max)
    ensures Kept(After(es, op, max), trace + Touched(es, op), ops + [op], max)
  {
    assert trace + [] == trace;
    match op
    case Set(k, v) =>
      SetKeepsInvariant(es, trace, ops, k, v, max);
    case Get(k) =>
      if Lookup(es, k).Some? {
        HitKeepsInvariant(es, trace, ops, k, max);
      } else {
        ValuesSnoc(es, ops, op);
      }
    case Delete(k) =>
      var places := DropWithin(es, k);
      ThinnedKeepsInvariant(Drop(es, k), es, places, trace, ops, op, max);
    case DeleteWhere(unwanted) =>
      var places := KeepWithin(es, unwanted);
      ThinnedKeepsInvariant(KeepUnless(es, unwanted), es, places, trace, ops, op, max);
    case Clear =>
  }

  lemma {:induction false} DropShorter<K(!new), V(!new)>(es: seq<Entry<K, V>>, k: K)
    requires Lookup(es, k).Some?
    ensures |Drop(es, k)| < |es|
  {
    var front := es[..|es| - 1];
    if es[|es| - 1].key == k {
      var _ := DropWithin(front, k);
    } else {
      DropShorter(front, k);
    }
  }
}
