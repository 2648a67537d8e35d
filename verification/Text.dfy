/**
 Text and one character: the first and the last place of it, splitting on it, joining with it, and
 that the last two undo each other; and white space at the ends of a text and of its pieces.
 */
module Text {

  /** The first (or last) place of a character, or -1. */
  function IndexOf(s: string, c: char): (i: int)
    ensures -1 <= i < |s|
    ensures i >= 0 ==> s[i] == c && c !in s[..i]
    ensures i < 0 ==> c !in s
  {
    if s == "" then -1
    else if s[0] == c then 0
    else
      var rest := IndexOf(s[1..], c);
      assert s == [s[0]] + s[1..];
      if rest < 0 then -1
      else
        assert s[..rest + 1] == [s[0]] + s[1..][..rest];
        rest + 1
  }

  function LastIndexOf(s: string, c: char): (i: int)
    ensures -1 <= i < |s|
    ensures i >= 0 ==> s[i] == c && c !in s[i + 1..]
    ensures i < 0 ==> c !in s
  {
    if s == "" then -1
    else if s[|s| - 1] == c then |s| - 1
    else
      var rest := LastIndexOf(s[..|s| - 1], c);
      assert s == s[..|s| - 1] + [s[|s| - 1]];
      if rest >= 0 then
        assert s[rest + 1..] == s[..|s| - 1][rest + 1..] + [s[|s| - 1]];
        rest
      else rest
  }

  /** Pieces between the separators; text without one is a single piece. */
  function Split(s: string, c: char): (parts: seq<string>)
    ensures |parts| > 0 && forall p :: p in parts ==> c !in p
    decreases |s|
  {
    var i := IndexOf(s, c);
    if i < 0 then [s] else [s[..i]] + Split(s[i + 1..], c)
  }

  function Join(parts: seq<string>, c: char): string {
    if parts == [] then ""
    else if |parts| == 1 then parts[0]
    else parts[0] + [c] + Join(parts[1..], c)
  }

  lemma {:induction false} JoinSplit(s: string, c: char)
    ensures Join(Split(s, c), c) == s
    decreases |s|
  {
    var i := IndexOf(s, c);
    if i >= 0 {
      var rest := Split(s[i + 1..], c);
      JoinSplit(s[i + 1..], c);
      assert s == s[..i] + [c] + s[i + 1..];
    }
  }

  /** The first separator of a text is where its clean front part ends. */
  lemma {:induction false} IndexOfAt(front: string, c: char, rest: string)
    requires c !in front
    ensures IndexOf(front + [c] + rest, c) == |front|
  {
    var s := front + [c] + rest;
    if front != "" {
      assert s[0] == front[0];
      assert s[1..] == front[1..] + [c] + rest;
      IndexOfAt(front[1..], c, rest);
    }
  }

  /** A clean front part is the first piece. */
  lemma SplitAt(front: string, c: char, rest: string)
    requires c !in front
    ensures Split(front + [c] + rest, c) == [front] + Split(rest, c)
  {
    var s := front + [c] + rest;
    IndexOfAt(front, c, rest);
    assert s[..|front|] == front && s[|front| + 1..] == rest;
  }

  lemma SplitClean(s: string, c: char)
    requires c !in s
    ensures Split(s, c) == [s]
  {
  }

  lemma {:induction false} SplitJoin(parts: seq<string>, c: char)
    requires parts != [] && forall p :: p in parts ==> c !in p
    ensures Split(Join(parts, c), c) == parts
  {
    assert parts[0] in parts;
    if |parts| == 1 {
      SplitClean(parts[0], c);
    } else {
      SplitAt(parts[0], c, Join(parts[1..], c));
      SplitJoin(parts[1..], c);
      assert parts == [parts[0]] + parts[1..];
    }
  }

  lemma {:induction false} SplitConcat(front: string, back: string, c: char)
    ensures Split(front + [c] + back, c) == Split(front, c) + Split(back, c)
    decreases |front|
  {
    var i := IndexOf(front, c);
    if i < 0 {
      SplitAt(front, c, back);
    } else {
      var first, second := front[..i], front[i + 1..];
      assert front == first + [c] + second;
      SplitAt(first, c, second);
      SplitAt(first, c, second + [c] + back);
      SplitConcat(second, back, c);
      Regroup(first, c, second, back);
      Reassociate([first], Split(second, c), Split(back, c));
    }
  }

  lemma Regroup(first: string, c: char, second: string, back: string)
    ensures first + [c] + second + [c] + back == first + [c] + (second + [c] + back)
  {
  }

  lemma Reassociate(a: seq<string>, b: seq<string>, c: seq<string>)
    ensures a + (b + c) == a + b + c
  {
  }

  // ----- white space at the ends -----

  /** The white space and line ends `trim` removes. */
  predicate IsSpace(c: char) {
    || '\t' <= c <= '\r' || c == ' ' || c == '\U{A0}' || c == '\U{1680}' || '\U{2000}' <= c <= '\U{200A}'
    || c == '\U{2028}' || c == '\U{2029}' || c == '\U{202F}' || c == '\U{205F}' || c == '\U{3000}' || c == '\U{FEFF}'
  }

  function Trim(s: string): string
    decreases |s|
  {
    if s == "" then ""
    else if IsSpace(s[0]) then Trim(s[1..])
    else if IsSpace(s[|s| - 1]) then Trim(s[..|s| - 1])
    else s
  }

  lemma TrimNothing(s: string)
    requires s != "" && !IsSpace(s[0]) && !IsSpace(s[|s| - 1])
    ensures Trim(s) == s
  {
  }

  lemma {:induction false} TrimSnoc(s: string, space: char)
    requires IsSpace(space)
    ensures Trim(s + [space]) == Trim(s)
  {
    var t := s + [space];
    if s != "" && IsSpace(s[0]) {
      assert t[1..] == s[1..] + [space];
      TrimSnoc(s[1..], space);
    } else {
      assert t[..|t| - 1] == s;
    }
  }

  lemma {:induction false} TrimKeeps(s: string, c: char)
    requires c in s && !IsSpace(c)
    ensures c in Trim(s)
    decreases |s|
  {
    if IsSpace(s[0]) {
      TrimKeeps(s[1..], c);
    } else if IsSpace(s[|s| - 1]) {
      TrimKeeps(s[..|s| - 1], c);
    }
  }

  /** Piece by piece the same but for white space at the ends. */
  predicate SameTrimmed(a: seq<string>, b: seq<string>) {
    |a| == |b| && forall i :: 0 <= i < |a| ==> Trim(a[i]) == Trim(b[i])
  }

  lemma TrimCons(space: char, s: string)
    requires IsSpace(space)
    ensures Trim([space] + s) == Trim(s)
  {
    assert ([space] + s)[1..] == s;
  }

  lemma SameFrom(a: string, b: string, rest: seq<string>, others: seq<string>)
    requires Trim(a) == Trim(b) && SameTrimmed(rest, others)
    ensures SameTrimmed([a] + rest, [b] + others)
  {
  }

  lemma SplitAfterSpace(space: char, s: string, c: char)
    requires IsSpace(space) && space != c
    ensures SameTrimmed(Split(s, c), Split([space] + s, c))
  {
    var i := IndexOf(s, c);
    if i < 0 {
      SplitClean(s, c);
      SplitClean([space] + s, c);
      TrimCons(space, s);
    } else {
      var first, rest := s[..i], s[i + 1..];
      assert s == first + [c] + rest && [space] + s == ([space] + first) + [c] + rest;
      SplitAt(first, c, rest);
      SplitAt([space] + first, c, rest);
      TrimCons(space, first);
      SameFrom(first, [space] + first, Split(rest, c), Split(rest, c));
    }
  }

  lemma {:induction false} SplitBeforeSpace(s: string, space: char, c: char)
    requires IsSpace(space) && space != c
    ensures SameTrimmed(Split(s, c), Split(s + [space], c))
    decreases |s|
  {
    var i := IndexOf(s, c);
    if i < 0 {
      SplitClean(s, c);
      SplitClean(s + [space], c);
      TrimSnoc(s, space);
    } else {
      var first, rest := s[..i], s[i + 1..];
      assert s == first + [c] + rest && s + [space] == first + [c] + (rest + [space]);
      SplitAt(first, c, rest);
      SplitAt(first, c, rest + [space]);
      SplitBeforeSpace(rest, space, c);
      SameFrom(first, first, Split(rest, c), Split(rest + [space], c));
    }
  }

  /** Trimming a text before it is split changes its pieces at their ends only. */
  lemma {:induction false} SplitTrimmed(s: string, c: char)
    requires !IsSpace(c)
    ensures SameTrimmed(Split(Trim(s), c), Split(s, c))
    decreases |s|
  {
    if s != "" && IsSpace(s[0]) {
      assert s == [s[0]] + s[1..];
      SplitAfterSpace(s[0], s[1..], c);
      SplitTrimmed(s[1..], c);
    } else if s != "" && IsSpace(s[|s| - 1]) {
      var shorter := s[..|s| - 1];
      assert s == shorter + [s[|s| - 1]];
      SplitBeforeSpace(shorter, s[|s| - 1], c);
      SplitTrimmed(shorter, c);
    }
  }
}
