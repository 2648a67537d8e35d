/**
 Byte strings: where a pattern occurs, the first occurrence as `Buffer.indexOf` finds it, and views
 of a stretch as `subarray` gives them.
 */
module Bytes {

  newtype Byte = b: int | 0 <= b < 256

  predicate At(body: seq<Byte>, pattern: seq<Byte>, i: int) {
    0 <= i <= |body| - |pattern| && forall j :: 0 <= j < |pattern| ==> body[i + j] == pattern[j]
  }

  ghost predicate IsFirst(body: seq<Byte>, pattern: seq<Byte>, from: nat, i: int) {
    from <= i && At(body, pattern, i) && forall k :: from <= k < i ==> !At(body, pattern, k)
  }

  /** The first occurrence at or after `from`, or -1. */
  ghost function IndexOf(body: seq<Byte>, pattern: seq<Byte>, from: nat): (i: int)
    ensures i == -1 || from <= i <= |body| - |pattern|
  {
    if i :| IsFirst(body, pattern, from, i) then i else -1
  }

  lemma {:induction false} SomeFirst(body: seq<Byte>, pattern: seq<Byte>, from: nat, k: int)
    requires from <= k && At(body, pattern, k)
    ensures exists i :: IsFirst(body, pattern, from, i)
    decreases k
  {
    if j :| from <= j < k && At(body, pattern, j) {
      SomeFirst(body, pattern, from, j);
    } else {
      assert IsFirst(body, pattern, from, k);
    }
  }

  /** What the search finds is the first occurrence, and it fails only when there is none. */
  lemma IndexOfIsFirst(body: seq<Byte>, pattern: seq<Byte>, from: nat, i: int)
    ensures IndexOf(body, pattern, from) == i && i >= 0 <==> IsFirst(body, pattern, from, i)
    ensures IndexOf(body, pattern, from) == -1 <==> forall k :: from <= k ==> !At(body, pattern, k)
  {
    if k :| from <= k && At(body, pattern, k) {
      SomeFirst(body, pattern, from, k);
    }
  }

  method Search(body: seq<Byte>, pattern: seq<Byte>, from: nat) returns (i: int)
    ensures i == IndexOf(body, pattern, from)
  {
    i := from;
    while i <= |body| - |pattern|
      invariant from <= i
      invariant forall k :: from <= k < i ==> !At(body, pattern, k)
    {
      if At(body, pattern, i) {
        assert IsFirst(body, pattern, from, i);
        return;
      }
      i := i + 1;
    }
    i := -1;
  }

  ghost predicate Contains(body: seq<Byte>, pattern: seq<Byte>) {
    exists k :: At(body, pattern, k)
  }

  lemma AtConcat(body: seq<Byte>, x: seq<Byte>, y: seq<Byte>, i: int)
    requires At(body, x + y, i)
    ensures At(body, x, i) && At(body, y, i + |x|)
  {
    forall j | 0 <= j < |x|
      ensures body[i + j] == x[j]
    {
      assert (x + y)[j] == x[j];
    }
    forall j | 0 <= j < |y|
      ensures body[i + |x| + j] == y[j]
    {
      assert (x + y)[|x| + j] == y[j];
    }
  }

  lemma AtSlice(body: seq<Byte>, x: seq<Byte>, i: int)
    requires At(body, x, i)
    ensures body[i..i + |x|] == x
  {
  }

  /** An occurrence inside a stretch of the body is an occurrence in that stretch. */
  lemma AtWithin(body: seq<Byte>, stretch: seq<Byte>, start: int, pattern: seq<Byte>, k: int)
    requires At(body, stretch, start) && At(body, pattern, k)
    requires start <= k && k + |pattern| <= start + |stretch|
    ensures At(stretch, pattern, k - start)
  {
    forall j | 0 <= j < |pattern|
      ensures stretch[k - start + j] == pattern[j]
    {
      assert body[k + j] == pattern[j];
      assert body[start + (k - start + j)] == stretch[k - start + j];
    }
  }

  lemma NoneEarlier(body: seq<Byte>, start: nat, stretch: seq<Byte>, pattern: seq<Byte>, at: nat, k: int)
    requires At(body, stretch, start) && IndexOf(stretch, pattern, 0) == at && start <= k < start + at
    requires |stretch| == at + |pattern|
    ensures !At(body, pattern, k)
  {
    IndexOfIsFirst(stretch, pattern, 0, at);
    if At(body, pattern, k) {
      AtWithin(body, stretch, start, pattern, k);
    }
  }

  predicate Followed(body: seq<Byte>, start: nat, text: seq<Byte>, end: seq<Byte>) {
    At(body, text, start) && At(body, end, start + |text|)
  }

  /** A pattern written after `front` is first met where it was put, when `front + pattern` alone says so. */
  lemma FoundInPlace(body: seq<Byte>, start: nat, front: seq<Byte>, pattern: seq<Byte>)
    requires Followed(body, start, front, pattern)
    requires IndexOf(front + pattern, pattern, 0) == |front|
    ensures IndexOf(body, pattern, start) == start + |front|
  {
    forall k | start <= k < start + |front|
      ensures !At(body, pattern, k)
    {
      NoneEarlier(body, start, front + pattern, pattern, |front|, k);
    }
    IndexOfIsFirst(body, pattern, start, start + |front|);
  }

  /** A stretch of a body: the readers hand out views (`subarray`), not copies. */
  datatype Span = Span(from: nat, to: nat)

  predicate Covers(body: seq<Byte>, span: Span, text: seq<Byte>) {
    span.to == span.from + |text| && At(body, text, span.from)
  }
}
