/**
 Comparers in the JavaScript style (negative, zero, positive): what a total preorder is, stable
 sorting, and keeping a maximum per key.
 */
module Orders {

  type Comparer<!T> = (T, T) -> int

  function Sign(x: int): int {
    if x < 0 then -1 else if x > 0 then 1 else 0
  }

  /** Swapping the arguments flips the sign, and "not above" is transitive. */
  ghost predicate TotalPreorder<T(!new)>(cmp: Comparer<T>) {
    && (forall x, y :: Sign(cmp(x, y)) == -Sign(cmp(y, x)))
    && (forall x, y, z :: cmp(x, y) <= 0 && cmp(y, z) <= 0 ==> cmp(x, z) <= 0)
  }

  // ----- text, compared code unit by code unit -----

  function CompareText(a: string, b: string): (r: int)
    ensures r == 0 <==> a == b
    ensures -1 <= r <= 1
  {
    if a == "" && b == "" then 0
    else if a == "" then -1
    else if b == "" then 1
    else if a[0] != b[0] then (if a[0] < b[0] then -1 else 1)
    else
      assert a == [a[0]] + a[1..] && b == [b[0]] + b[1..];
      CompareText(a[1..], b[1..])
  }

  /** The first different character decides, and with none the longer text is higher. */
  lemma {:induction false} TextDecides(front: string, c: char, d: char, s: string, t: string)
    ensures c < d ==> CompareText(front + [c] + s, front + [d] + t) == -1
    ensures CompareText(front, front + [c] + s) == -1
  {
    var a, b := front + [c] + s, front + [d] + t;
    if front == "" {
      assert a[0] == c && b[0] == d;
    } else {
      assert a[1..] == front[1..] + [c] + s && b[1..] == front[1..] + [d] + t;
      assert a[0] == front[0] == b[0];
      TextDecides(front[1..], c, d, s, t);
    }
  }

  lemma {:induction false} TextFlips(a: string, b: string)
    ensures CompareText(a, b) == -CompareText(b, a)
  {
    if a != "" && b != "" && a[0] == b[0] {
      TextFlips(a[1..], b[1..]);
    }
  }

  lemma {:induction false} TextTransitive(a: string, b: string, c: string)
    requires CompareText(a, b) <= 0 && CompareText(b, c) <= 0
    ensures CompareText(a, c) <= 0
    decreases |a|
  {
    if a != "" && b != "" && c != "" && a[0] == b[0] && b[0] == c[0] {
      TextTransitive(a[1..], b[1..], c[1..]);
    }
  }

  // ----- stable sorting -----

  ghost predicate Sorted<T(!new)>(cmp: Comparer<T>, s: seq<T>) {
    forall i, j :: 0 <= i < j < |s| ==> cmp(s[i], s[j]) <= 0
  }

  function Insert<T>(cmp: Comparer<T>, x: T, s: seq<T>): seq<T> {
    if s == [] || cmp(x, s[|s| - 1]) >= 0 then s + [x]
    else Insert(cmp, x, s[..|s| - 1]) + [s[|s| - 1]]
  }

  /** A stable sort: every item goes after those already placed that are not above it. */
  function StableSort<T>(cmp: Comparer<T>, s: seq<T>): seq<T> {
    if s == [] then [] else Insert(cmp, s[|s| - 1], StableSort(cmp, s[..|s| - 1]))
  }

  lemma {:induction false} InsertKeepsItems<T>(cmp: Comparer<T>, x: T, s: seq<T>)
    ensures multiset(Insert(cmp, x, s)) == multiset(s) + multiset{x}
  {
    if s != [] && cmp(x, s[|s| - 1]) < 0 {
      InsertKeepsItems(cmp, x, s[..|s| - 1]);
      assert s == s[..|s| - 1] + [s[|s| - 1]];
    }
  }

  ghost predicate AllBelow<T(!new)>(cmp: Comparer<T>, s: seq<T>, top: T) {
    forall i :: 0 <= i < |s| ==> cmp(s[i], top) <= 0
  }

  lemma SortedSnoc<T(!new)>(cmp: Comparer<T>, s: seq<T>, x: T)
    requires Sorted(cmp, s) && AllBelow(cmp, s, x)
    ensures Sorted(cmp, s + [x])
  {
  }

  lemma {:induction false} InsertKeepsSorted<T(!new)>(cmp: Comparer<T>, x: T, s: seq<T>)
    requires TotalPreorder(cmp) && Sorted(cmp, s)
    ensures Sorted(cmp, Insert(cmp, x, s))
  {
    if s != [] {
      var last, rest := s[|s| - 1], s[..|s| - 1];
      assert Sign(cmp(x, last)) == -Sign(cmp(last, x));
      if cmp(x, last) >= 0 {
        SortedSnoc(cmp, s, x);
      } else {
        InsertKeepsSorted(cmp, x, rest);
        InsertedBelow(cmp, x, rest, last);
        SortedSnoc(cmp, Insert(cmp, x, rest), last);
      }
    }
  }

  lemma InsertedBelow<T(!new)>(cmp: Comparer<T>, x: T, s: seq<T>, top: T)
    requires cmp(x, top) <= 0 && AllBelow(cmp, s, top)
    ensures AllBelow(cmp, Insert(cmp, x, s), top)
  {
    InsertKeepsItems(cmp, x, s);
    var t := Insert(cmp, x, s);
    forall i | 0 <= i < |t|
      ensures cmp(t[i], top) <= 0
    {
      assert t[i] in multiset(t);
      assert t[i] in multiset(s) || t[i] == x;
    }
  }

  lemma {:induction false} SortKeepsItems<T>(cmp: Comparer<T>, s: seq<T>)
    ensures multiset(StableSort(cmp, s)) == multiset(s)
  {
    if s != [] {
      var rest, last := s[..|s| - 1], s[|s| - 1];
      SortKeepsItems(cmp, rest);
      InsertKeepsItems(cmp, last, StableSort(cmp, rest));
      assert s == rest + [last];
    }
  }

  lemma {:induction false} SortIsSorted<T(!new)>(cmp: Comparer<T>, s: seq<T>)
    requires TotalPreorder(cmp)
    ensures Sorted(cmp, StableSort(cmp, s))
  {
    if s != [] {
      SortIsSorted(cmp, s[..|s| - 1]);
      InsertKeepsSorted(cmp, s[|s| - 1], StableSort(cmp, s[..|s| - 1]));
    }
  }

  lemma SortSorts<T(!new)>(cmp: Comparer<T>, s: seq<T>)
    requires TotalPreorder(cmp)
    ensures Sorted(cmp, StableSort(cmp, s)) && multiset(StableSort(cmp, s)) == multiset(s)
  {
    SortKeepsItems(cmp, s);
    SortIsSorted(cmp, s);
  }

  lemma SameItems<T>(s: seq<T>, t: seq<T>)
    requires multiset(s) == multiset(t)
    ensures forall x :: x in s <==> x in t
  {
    assert forall x :: x in s <==> x in multiset(s);
    assert forall x :: x in t <==> x in multiset(t);
  }

  function Filter<T(!new)>(wanted: T -> bool, s: seq<T>): (r: seq<T>)
    ensures forall x :: x in r <==> x in s && wanted(x)
  {
    if s == [] then []
    else (if wanted(s[0]) then [s[0]] else []) + Filter(wanted, s[1..])
  }

  lemma {:induction false} FilterKeepsSorted<T(!new)>(cmp: Comparer<T>, wanted: T -> bool, s: seq<T>)
    requires Sorted(cmp, s)
    ensures Sorted(cmp, Filter(wanted, s))
  {
    if s != [] {
      var rest := s[1..];
      assert forall i :: 0 <= i < |rest| ==> rest[i] == s[i + 1];
      FilterKeepsSorted(cmp, wanted, rest);
      forall x | x in Filter(wanted, rest)
        ensures cmp(s[0], x) <= 0
      {
        var i :| 0 <= i < |rest| && rest[i] == x;
      }
    }
  }

  lemma LastIsMaximal<T(!new)>(cmp: Comparer<T>, s: seq<T>)
    requires TotalPreorder(cmp) && Sorted(cmp, s) && s != []
    ensures s[|s| - 1] in s && forall x :: x in s ==> cmp(x, s[|s| - 1]) <= 0
  {
    var last := s[|s| - 1];
    assert Sign(cmp(last, last)) == -Sign(cmp(last, last));
  }

  /** The last of the sorted wanted items, or of all if none is wanted. */
  function LastOfPool<T(!new)>(cmp: Comparer<T>, wanted: T -> bool, items: seq<T>): T
    requires items != []
  {
    var sorted := StableSort(cmp, items);
    var chosen := Filter(wanted, sorted);
    SortKeepsItems(cmp, items);
    assert items[0] in multiset(items);
    if |chosen| > 0 then chosen[|chosen| - 1] else sorted[|sorted| - 1]
  }

  /** An item, wanted if any is, that nothing of its kind outranks. */
  ghost predicate IsBest<T(!new)>(cmp: Comparer<T>, wanted: T -> bool, items: seq<T>, best: T) {
    && best in items
    && (wanted(best) <==> exists x :: x in items && wanted(x))
    && forall x :: x in items && wanted(x) == wanted(best) ==> cmp(x, best) <= 0
  }

  lemma LastOfPoolIsBest<T(!new)>(cmp: Comparer<T>, wanted: T -> bool, items: seq<T>)
    requires TotalPreorder(cmp) && items != []
    ensures IsBest(cmp, wanted, items, LastOfPool(cmp, wanted, items))
  {
    SortSorts(cmp, items);
    var sorted := StableSort(cmp, items);
    SameItems(items, sorted);
    assert items[0] in sorted;
    FilterKeepsSorted(cmp, wanted, sorted);
    LastIsMaximal(cmp, sorted);
    var chosen := Filter(wanted, sorted);
    if |chosen| > 0 {
      LastIsMaximal(cmp, chosen);
    } else {
      assert forall x :: x in items ==> x !in chosen;
    }
  }

  /** No two items of the sequence compare equal. */
  ghost predicate NoTies<T(!new)>(cmp: Comparer<T>, s: seq<T>) {
    forall i, j :: 0 <= i < j < |s| ==> cmp(s[i], s[j]) != 0
  }

  ghost predicate StrictlySorted<T(!new)>(cmp: Comparer<T>, s: seq<T>) {
    forall i, j :: 0 <= i < j < |s| ==> cmp(s[i], s[j]) < 0
  }

  /** Two strictly sorted sequences with the same items are the same sequence. */
  lemma {:induction false} StrictSortUnique<T(!new)>(cmp: Comparer<T>, s: seq<T>, t: seq<T>)
    requires TotalPreorder(cmp) && StrictlySorted(cmp, s) && StrictlySorted(cmp, t)
    requires multiset(s) == multiset(t) && |s| == |t|
    ensures s == t
    decreases |s|
  {
    if s != [] {
      HeadsAgree(cmp, s, t);
      var rest, others := TailsAgree(cmp, s, t);
      StrictSortUnique(cmp, rest, others);
    }
  }

  lemma TailsAgree<T(!new)>(cmp: Comparer<T>, s: seq<T>, t: seq<T>) returns (rest: seq<T>, others: seq<T>)
    requires StrictlySorted(cmp, s) && StrictlySorted(cmp, t) && multiset(s) == multiset(t)
    requires s != [] && t != [] && s[0] == t[0]
    ensures s == [s[0]] + rest && t == [t[0]] + others && multiset(rest) == multiset(others)
    ensures StrictlySorted(cmp, rest) && StrictlySorted(cmp, others)
  {
    rest, others := s[1..], t[1..];
    TailSorted(cmp, s);
    TailSorted(cmp, t);
    TailItems(s);
    TailItems(t);
  }

  lemma TailItems<T(!new)>(s: seq<T>)
    requires s != []
    ensures s == [s[0]] + s[1..] && multiset(s[1..]) == multiset(s) - multiset{s[0]}
  {
    assert s == [s[0]] + s[1..];
  }

  lemma TailSorted<T(!new)>(cmp: Comparer<T>, s: seq<T>)
    requires s != [] && StrictlySorted(cmp, s)
    ensures StrictlySorted(cmp, s[1..])
  {
    forall i, j | 0 <= i < j < |s[1..]|
      ensures cmp(s[1..][i], s[1..][j]) < 0
    {
      assert s[1..][i] == s[i + 1] && s[1..][j] == s[j + 1];
    }
  }

  lemma HeadsAgree<T(!new)>(cmp: Comparer<T>, s: seq<T>, t: seq<T>)
    requires TotalPreorder(cmp) && StrictlySorted(cmp, s) && StrictlySorted(cmp, t)
    requires multiset(s) == multiset(t) && s != [] && t != []
    ensures s[0] == t[0]
  {
    assert s[0] in multiset(t) && t[0] in multiset(s);
    var i :| 0 <= i < |t| && t[i] == s[0];
    var j :| 0 <= j < |s| && s[j] == t[0];
    assert Sign(cmp(s[0], t[0])) == -Sign(cmp(t[0], s[0]));
  }

  /** Ties apart, a multiset comparison finds no pair of equal-ranking items in any arrangement. */
  lemma NoTiesIsStrict<T(!new)>(cmp: Comparer<T>, s: seq<T>, t: seq<T>)
    requires TotalPreorder(cmp) && NoTies(cmp, s) && Sorted(cmp, t) && multiset(s) == multiset(t)
    ensures StrictlySorted(cmp, t)
  {
    forall i, j | 0 <= i < j < |t|
      ensures cmp(t[i], t[j]) < 0
    {
      if cmp(t[i], t[j]) == 0 {
        TieTransfers(cmp, t, s, i, j);
      }
    }
  }

  lemma TieTransfers<T(!new)>(cmp: Comparer<T>, t: seq<T>, s: seq<T>, i: nat, j: nat)
    requires TotalPreorder(cmp) && i < j < |t| && cmp(t[i], t[j]) == 0 && multiset(s) == multiset(t)
    ensures !NoTies(cmp, s)
  {
    assert Sign(cmp(t[i], t[j])) == -Sign(cmp(t[j], t[i]));
    if t[i] == t[j] {
      assert t == t[..i] + [t[i]] + t[i + 1..j] + [t[j]] + t[j + 1..];
      assert multiset(s)[t[i]] >= 2;
      TwoPlaces(s, t[i]);
      var a, b :| 0 <= a < b < |s| && s[a] == t[i] && s[b] == t[i];
      assert cmp(s[a], s[b]) == 0;
    } else {
      assert t[i] in multiset(s) && t[j] in multiset(s);
      var a :| 0 <= a < |s| && s[a] == t[i];
      var b :| 0 <= b < |s| && s[b] == t[j];
      if a < b {
        assert cmp(s[a], s[b]) == 0;
      } else {
        assert cmp(s[b], s[a]) == 0;
      }
    }
  }

  lemma {:induction false} TwoPlaces<T>(s: seq<T>, x: T)
    requires multiset(s)[x] >= 2
    ensures exists a, b :: 0 <= a < b < |s| && s[a] == x && s[b] == x
  {
    assert x in multiset(s);
    var a :| 0 <= a < |s| && s[a] == x;
    assert s == s[..a] + [x] + s[a + 1..];
    if x in s[..a] {
      var b :| 0 <= b < a && s[b] == x;
    } else {
      assert multiset(s[..a])[x] == 0;
      assert x in multiset(s[a + 1..]);
      var b :| 0 <= b < |s[a + 1..]| && s[a + 1..][b] == x;
      assert s[a + 1 + b] == x;
    }
  }

  /** Sorting forgets the input order when no two items tie. */
  lemma SortForgetsOrder<T(!new)>(cmp: Comparer<T>, s: seq<T>, t: seq<T>)
    requires TotalPreorder(cmp) && NoTies(cmp, s) && multiset(s) == multiset(t)
    ensures StableSort(cmp, s) == StableSort(cmp, t)
  {
    SortSorts(cmp, s);
    SortSorts(cmp, t);
    NoTiesIsStrict(cmp, s, StableSort(cmp, s));
    NoTiesIsStrict(cmp, s, StableSort(cmp, t));
    assert |StableSort(cmp, s)| == |multiset(s)| == |StableSort(cmp, t)|;
    StrictSortUnique(cmp, StableSort(cmp, s), StableSort(cmp, t));
  }

  // ----- keeping a maximum per key -----

  datatype Keyed = Skip | Under(key: string)

  ghost predicate InGroup<T(!new)>(items: seq<T>, keyOf: T -> Keyed, key: string, x: T) {
    x in items && keyOf(x) == Under(key)
  }

  ghost predicate IsMaximum<T(!new)>(items: seq<T>, keyOf: T -> Keyed, cmp: Comparer<T>, key: string, x: T) {
    InGroup(items, keyOf, key, x) && forall y :: InGroup(items, keyOf, key, y) ==> cmp(y, x) <= 0
  }

  /** Exactly the keys that occur, each with a maximum of its group, in whatever order the items come. */
  method KeepMaximum<T(!new)>(items: seq<T>, keyOf: T -> Keyed, cmp: Comparer<T>) returns (kept: map<string, T>)
    requires TotalPreorder(cmp)
    ensures forall key :: key in kept <==> exists x :: InGroup(items, keyOf, key, x)
    ensures forall key :: key in kept ==> IsMaximum(items, keyOf, cmp, key, kept[key])
  {
    kept := map[];
    ghost var done: seq<T> := [];
    for i := 0 to |items|
      invariant done == items[..i]
      invariant forall key :: key in kept <==> exists x :: InGroup(done, keyOf, key, x)
      invariant forall key :: key in kept ==> IsMaximum(done, keyOf, cmp, key, kept[key])
    {
      var x := items[i];
      GroupGrows(done, x, keyOf);
      var keyed := keyOf(x);
      assert Sign(cmp(x, x)) == -Sign(cmp(x, x));
      ghost var before := done;
      done := done + [x];
      if keyed.Under? {
        assert InGroup(done, keyOf, keyed.key, x);
        if keyed.key !in kept {
          kept := kept[keyed.key := x];
        } else {
          var current := kept[keyed.key];
          assert Sign(cmp(x, current)) == -Sign(cmp(current, x));
          if cmp(x, current) > 0 {
            kept := kept[keyed.key := x];
          }
        }
      }
    }
    assert done == items;
  }

  lemma GroupGrows<T(!new)>(items: seq<T>, last: T, keyOf: T -> Keyed)
    ensures forall key, x :: InGroup(items + [last], keyOf, key, x) <==>
                             InGroup(items, keyOf, key, x) || (x == last && keyOf(x) == Under(key))
  {
    assert forall x :: x in items + [last] <==> x in items || x == last;
  }

  /** Two arrangements of the same items keep items that rank the same. */
  lemma ArrangementDoesNotMatter<T(!new)>(
    items: seq<T>, others: seq<T>, keyOf: T -> Keyed, cmp: Comparer<T>, key: string, x: T, y: T)
    requires TotalPreorder(cmp) && multiset(items) == multiset(others)
    requires IsMaximum(items, keyOf, cmp, key, x) && IsMaximum(others, keyOf, cmp, key, y)
    ensures cmp(x, y) == 0
  {
    assert x in multiset(others) && y in multiset(items);
    assert InGroup(others, keyOf, key, x) && InGroup(items, keyOf, key, y);
    assert Sign(cmp(x, y)) == -Sign(cmp(y, x));
  }
}
