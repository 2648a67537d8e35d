/** IPv4 and IPv6 addresses as text, canonical as in section 4.2 of RFC 5952. */
module IpText {
  import opened Bytes
  import Digits
  import Hex
  import Text

  // ----- groups of sixteen bits -----

  function HighByte(value: nat): Byte {
    (value / 256 % 256) as Byte
  }

  function LowByte(value: nat): Byte {
    (value % 256) as Byte
  }

  function Pair(high: Byte, low: Byte): (value: nat)
    ensures value < 65536 && HighByte(value) == high && LowByte(value) == low
  {
    high as nat * 256 + low as nat
  }

  function Groups(bytes: seq<Byte>): (groups: seq<nat>)
    requires |bytes| == 16
    ensures |groups| == 8
  {
    seq(8, i requires 0 <= i < 8 => Pair(bytes[2 * i], bytes[2 * i + 1]))
  }

  function Ungroup(groups: seq<nat>): (bytes: seq<Byte>)
    requires |groups| == 8
    ensures |bytes| == 16
  {
    seq(16, i requires 0 <= i < 16 => if i % 2 == 0 then HighByte(groups[i / 2]) else LowByte(groups[i / 2]))
  }

  lemma UngroupGroups(bytes: seq<Byte>)
    requires |bytes| == 16
    ensures Ungroup(Groups(bytes)) == bytes
  {
    forall i | 0 <= i < 16
      ensures Ungroup(Groups(bytes))[i] == bytes[i]
    {
      assert i == 2 * (i / 2) || i == 2 * (i / 2) + 1;
    }
  }

  // ----- the zero run to compress -----

  function ZerosFrom(groups: seq<nat>, i: nat): (n: nat)
    requires i <= |groups|
    ensures i + n <= |groups|
    ensures forall k :: i <= k < i + n ==> groups[k] == 0
    ensures i + n < |groups| ==> groups[i + n] != 0
    decreases |groups| - i
  {
    if i == |groups| || groups[i] != 0 then 0 else 1 + ZerosFrom(groups, i + 1)
  }

  datatype Run = Run(start: int, length: nat)

  ghost predicate IsZeroRun(groups: seq<nat>, start: nat, length: nat) {
    start + length <= |groups| && forall k :: start <= k < start + length ==> groups[k] == 0
  }

  /** No zero run is longer, and none of that length starts further left. */
  ghost predicate IsLeftmostLongest(groups: seq<nat>, run: Run) {
    && (run.length == 0 ==> run.start == -1)
    && (run.length > 0 ==> run.start >= 0 && IsZeroRun(groups, run.start, run.length))
    && forall start: nat, length: nat | IsZeroRun(groups, start, length) && length > 0 ::
         length < run.length || (length == run.length && run.start <= start)
  }

  /** Among the runs that start before `i`. */
  ghost predicate BestBefore(groups: seq<nat>, run: Run, i: nat) {
    && (run.length == 0 ==> run.start == -1)
    && (run.length > 0 ==> 0 <= run.start < i && IsZeroRun(groups, run.start, run.length))
    && forall start: nat, length: nat | start < i && IsZeroRun(groups, start, length) && length > 0 ::
         length < run.length || (length == run.length && run.start <= start)
  }

  /** The two nested scans of the source. */
  method BestZeroRun(groups: seq<nat>) returns (best: Run)
    ensures IsLeftmostLongest(groups, best)
    ensures best.length == 0 || (0 <= best.start && IsZeroRun(groups, best.start, best.length))
    ensures forall start: nat, length: nat | IsZeroRun(groups, start, length) && length > 0 ::
              length <= best.length && (length == best.length ==> best.start <= start)
  {
    best := Run(-1, 0);
    var i := 0;
    while i < |groups|
      invariant i <= |groups|
      invariant i == 0 || i == |groups| || groups[i - 1] != 0 || groups[i] != 0
      invariant BestBefore(groups, best, i)
    {
      if groups[i] != 0 {
        i := i + 1;
      } else {
        var j := i;
        while j < |groups| && groups[j] == 0
          invariant i <= j <= |groups| && IsZeroRun(groups, i, j - i)
        {
          j := j + 1;
        }
        ghost var before := best;
        if j - i > best.length {
          best := Run(i, j - i);
        }
        i := j;
      }
    }
  }

  // ----- printing -----

  function HexGroups(groups: seq<nat>): (parts: seq<string>)
    ensures |parts| == |groups|
  {
    seq(|groups|, i requires 0 <= i < |groups| => Hex.Print(groups[i]))
  }

  function HexJoin(groups: seq<nat>): string {
    Text.Join(HexGroups(groups), ':')
  }

  const GAP := "::"

  /** The canonical text, given the run to compress. */
  function Canonical(groups: seq<nat>, best: Run): string
    requires best.length >= 2 ==> 0 <= best.start && best.start + best.length <= |groups|
  {
    if best.length < 2 then HexJoin(groups)
    else HexJoin(groups[..best.start]) + GAP + HexJoin(groups[best.start + best.length..])
  }

  /** `formatIpv6`: the leftmost longest zero run is compressed, unless it is a single group. */
  method FormatIpv6(bytes: seq<Byte>) returns (text: string)
    requires |bytes| == 16
    ensures exists best :: IsLeftmostLongest(Groups(bytes), best) && text == Canonical(Groups(bytes), best)
  {
    var groups := Groups(bytes);
    var best := BestZeroRun(groups);
    text := Canonical(groups, best);
  }

  // ----- expanding -----

  /** The first `::`, or -1. */
  function GapAt(s: string): (i: int)
    ensures -1 <= i <= |s| - 2 || i == -1
  {
    if |s| < 2 then -1
    else if s[..2] == GAP then 0
    else
      var rest := GapAt(s[1..]);
      if rest < 0 then -1 else rest + 1
  }

  function SplitGroups(s: string): seq<string> {
    if s == "" then [] else Text.Split(s, ':')
  }

  /** One part of a dotted address, as it lands in a byte. */
  function ByteOf(part: string): Byte {
    if Digits.AllDigits(part) then (Digits.Value(part) % 256) as Byte else 0
  }

  function Ipv4Bytes(text: string): (bytes: seq<Byte>)
    ensures |bytes| == 4
  {
    var parts := Text.Split(text, '.');
    seq(4, i requires 0 <= i < 4 => if i < |parts| then ByteOf(parts[i]) else 0)
  }

  /** A dotted last group stands for two groups. */
  function Embedded(groups: seq<string>): seq<string> {
    if groups != [] && '.' in groups[|groups| - 1] then
      var v4 := Ipv4Bytes(groups[|groups| - 1]);
      groups[..|groups| - 1] + [Hex.Print(Pair(v4[0], v4[1])), Hex.Print(Pair(v4[2], v4[3]))]
    else groups
  }

  /** The written groups around as many zero groups as are missing from eight. */
  function Filled(head: seq<string>, tail: seq<string>): seq<string> {
    var missing := if 8 - |head| - |tail| > 0 then 8 - |head| - |tail| else 0;
    head + seq(missing, i => "0") + tail
  }

  function AllGroups(text: string): seq<string> {
    var gap := GapAt(text);
    if gap < 0 then Filled(Embedded(SplitGroups(text)), [])
    else Filled(SplitGroups(text[..gap]), Embedded(SplitGroups(text[gap + 2..])))
  }

  function GroupValues(groups: seq<string>): (values: seq<nat>)
    ensures |values| == 8
  {
    seq(8, i => if 0 <= i < |groups| then Hex.Parse(groups[i]) else 0)
  }

  /** `ipv6Bytes`. */
  function Ipv6Bytes(text: string): (bytes: seq<Byte>)
    ensures |bytes| == 16
  {
    Ungroup(GroupValues(AllGroups(text)))
  }

  // ----- what was printed is expanded again -----

  /** Non-empty groups free of colons and dots, which is how groups are printed. */
  ghost predicate Plain(parts: seq<string>) {
    forall i :: 0 <= i < |parts| ==> parts[i] != "" && ':' !in parts[i] && '.' !in parts[i]
  }

  lemma {:induction false} NoGapAcross(front: string, rest: string)
    requires ':' !in front && rest != "" && rest[0] != ':' && GapAt(rest) == -1
    ensures GapAt(front + [':'] + rest) == -1
    decreases |front|
  {
    var s := front + [':'] + rest;
    if front == "" {
      assert s[..2][1] == rest[0];
      assert s[1..] == rest;
    } else {
      assert s[..2][0] == front[0];
      assert s[1..] == front[1..] + [':'] + rest;
      NoGapAcross(front[1..], rest);
    }
  }

  lemma {:induction false} NoGapWithin(s: string)
    requires ':' !in s
    ensures GapAt(s) == -1
  {
    if |s| >= 2 {
      assert s[..2][0] == s[0];
      NoGapWithin(s[1..]);
    }
  }

  lemma {:induction false} JoinHasNoGap(parts: seq<string>)
    requires Plain(parts)
    ensures GapAt(Text.Join(parts, ':')) == -1
    ensures parts != [] ==> Text.Join(parts, ':') != "" && Text.Join(parts, ':')[0] != ':'
    ensures parts != [] ==> Text.Join(parts, ':')[|Text.Join(parts, ':')| - 1] != ':'
  {
    if |parts| == 1 {
      NoGapWithin(parts[0]);
    } else if |parts| > 1 {
      JoinHasNoGap(parts[1..]);
      NoGapAcross(parts[0], Text.Join(parts[1..], ':'));
    }
  }

  lemma {:induction false} GapAfter(front: string, rest: string)
    requires GapAt(front) == -1 && (front != "" ==> front[|front| - 1] != ':')
    ensures GapAt(front + GAP + rest) == |front|
    decreases |front|
  {
    var s := front + GAP + rest;
    if front == "" {
      assert s[..2] == GAP;
    } else {
      assert s[1..] == front[1..] + GAP + rest;
      if |front| == 1 {
        assert s[..2][0] == front[0];
      } else {
        assert s[..2] == front[..2];
      }
      GapAfter(front[1..], rest);
    }
  }

  lemma SplitsBack(parts: seq<string>)
    requires Plain(parts)
    ensures SplitGroups(Text.Join(parts, ':')) == parts && Embedded(parts) == parts
  {
    if parts != [] {
      JoinHasNoGap(parts);
      Text.SplitJoin(parts, ':');
    }
  }

  lemma GroupsOfJoin(parts: seq<string>)
    requires Plain(parts)
    ensures AllGroups(Text.Join(parts, ':')) == Filled(parts, [])
  {
    JoinHasNoGap(parts);
    SplitsBack(parts);
  }

  lemma GroupsOfGapped(front: seq<string>, back: seq<string>)
    requires Plain(front) && Plain(back)
    ensures AllGroups(Text.Join(front, ':') + GAP + Text.Join(back, ':')) == Filled(front, back)
  {
    var head, tail := Text.Join(front, ':'), Text.Join(back, ':');
    var text := head + GAP + tail;
    JoinHasNoGap(front);
    GapAfter(head, tail);
    assert text[..|head|] == head && text[|head| + 2..] == tail;
    SplitsBack(front);
    SplitsBack(back);
  }

  lemma FilledValues(groups: seq<nat>, start: nat, length: nat)
    requires |groups| == 8 && IsZeroRun(groups, start, length)
    ensures GroupValues(Filled(HexGroups(groups[..start]), HexGroups(groups[start + length..]))) == groups
  {
    var filled := Filled(HexGroups(groups[..start]), HexGroups(groups[start + length..]));
    assert |filled| == 8;
    forall i | 0 <= i < 8
      ensures Hex.Parse(filled[i]) == groups[i]
    {
      Hex.ParsePrint(groups[i]);
      if start <= i < start + length {
        assert filled[i] == "0" == Hex.Print(0);
      } else {
        assert filled[i] == Hex.Print(groups[i]);
      }
    }
  }

  lemma WholeReadsBack(groups: seq<nat>)
    requires |groups| == 8
    ensures GroupValues(AllGroups(HexJoin(groups))) == groups
  {
    GroupsOfJoin(HexGroups(groups));
    FilledValues(groups, 8, 0);
    assert groups[..8] == groups && HexGroups(groups[8..]) == [];
  }

  lemma GappedReadsBack(groups: seq<nat>, start: nat, length: nat)
    requires |groups| == 8 && IsZeroRun(groups, start, length)
    ensures GroupValues(AllGroups(HexJoin(groups[..start]) + GAP + HexJoin(groups[start + length..]))) == groups
  {
    GroupsOfGapped(HexGroups(groups[..start]), HexGroups(groups[start + length..]));
    FilledValues(groups, start, length);
  }

  lemma CanonicalReadsBack(groups: seq<nat>, best: Run)
    requires |groups| == 8 && IsLeftmostLongest(groups, best)
    ensures GroupValues(AllGroups(Canonical(groups, best))) == groups
  {
    if best.length < 2 {
      WholeReadsBack(groups);
    } else {
      GappedReadsBack(groups, best.start, best.length);
    }
  }

  /** Printing an address and expanding the text gives the address back, for all sixteen-byte addresses. */
  lemma RoundTrip(bytes: seq<Byte>, best: Run)
    requires |bytes| == 16 && IsLeftmostLongest(Groups(bytes), best)
    ensures Ipv6Bytes(Canonical(Groups(bytes), best)) == bytes
  {
    CanonicalReadsBack(Groups(bytes), best);
    UngroupGroups(bytes);
  }

  /** The text contains `::` exactly when a run of at least two zero groups exists. */
  lemma GapIffRun(groups: seq<nat>, best: Run)
    requires |groups| == 8 && IsLeftmostLongest(groups, best)
    ensures GapAt(Canonical(groups, best)) >= 0 <==> exists start: nat :: IsZeroRun(groups, start, 2)
  {
    if best.length < 2 {
      JoinHasNoGap(HexGroups(groups));
    } else {
      CompressedHasGap(groups, best);
      assert IsZeroRun(groups, best.start, 2);
    }
  }

  lemma CompressedHasGap(groups: seq<nat>, best: Run)
    requires best.length >= 2 && 0 <= best.start && best.start + best.length <= |groups|
    ensures GapAt(Canonical(groups, best)) >= 0
  {
    var front, back := HexGroups(groups[..best.start]), HexGroups(groups[best.start + best.length..]);
    JoinHasNoGap(front);
    GapAfter(Text.Join(front, ':'), Text.Join(back, ':'));
  }

  // ----- IPv4 -----

  function Dotted(bytes: seq<Byte>): string
    requires |bytes| == 4
  {
    Text.Join(DecimalParts(bytes), '.')
  }

  function DecimalParts(bytes: seq<Byte>): (parts: seq<string>)
    ensures |parts| == |bytes|
  {
    seq(|bytes|, i requires 0 <= i < |bytes| => Digits.Decimal(bytes[i] as nat))
  }

  lemma DottedRoundTrip(bytes: seq<Byte>)
    requires |bytes| == 4
    ensures Ipv4Bytes(Dotted(bytes)) == bytes
  {
    var parts := DecimalParts(bytes);
    assert forall p :: p in parts ==> '.' !in p;
    Text.SplitJoin(parts, '.');
    forall i | 0 <= i < 4
      ensures ByteOf(parts[i]) == bytes[i]
    {
      Digits.DecimalRoundTrip(bytes[i] as nat);
    }
    assert Text.Split(Dotted(bytes), '.') == parts;
  }

  const MAPPED_TEXT := "::ffff:"

  function MappedBytes(v4: seq<Byte>): seq<Byte> {
    [0, 0, 0, 0, 0, 0, 0, 0, 0, 0, 0xff, 0xff] + v4
  }

  lemma DottedShape(v4: seq<Byte>)
    requires |v4| == 4
    ensures '.' in Dotted(v4) && ':' !in Dotted(v4)
  {
    var p := DecimalParts(v4);
    assert Dotted(v4) == p[0] + ['.'] + Text.Join(p[1..], '.');
    assert Dotted(v4)[|p[0]|] == '.';
    NoColon(p);
  }

  lemma {:induction false} NoColon(parts: seq<string>)
    requires forall i :: 0 <= i < |parts| ==> Digits.AllDigits(parts[i])
    ensures ':' !in Text.Join(parts, '.')
  {
    if |parts| > 1 {
      NoColon(parts[1..]);
    }
  }

  lemma MappedGroups(dotted: string)
    requires ':' !in dotted && '.' in dotted
    ensures AllGroups(MAPPED_TEXT + dotted) == Filled([], Embedded(["ffff", dotted]))
  {
    var tail := "ffff" + [':'] + dotted;
    var text := MAPPED_TEXT + dotted;
    GapAfter("", tail);
    assert text == "" + GAP + tail;
    assert text[2..] == tail && text[..0] == "";
    assert ["ffff"] + [dotted] == ["ffff", dotted];
    Text.SplitJoin(["ffff", dotted], ':');
  }

  lemma LastThree(x: string, y: string, z: string, k: nat)
    requires k < 8
    ensures GroupValues(Filled([], [x, y, z]))[k] ==
            Hex.Parse(if k < 5 then "0" else if k == 5 then x else if k == 6 then y else z)
  {
    var groups := Filled([], [x, y, z]);
    assert |groups| == 8;
    assert groups[k] == if k < 5 then "0" else if k == 5 then x else if k == 6 then y else z;
  }

  /** A number printed in one of the last three places is read back there. */
  lemma LastThreeRead(x: nat, y: nat, z: nat, k: nat)
    requires k < 8
    ensures GroupValues(Filled([], [Hex.Print(x), Hex.Print(y), Hex.Print(z)]))[k] ==
            if k < 5 then 0 else if k == 5 then x else if k == 6 then y else z
  {
    LastThree(Hex.Print(x), Hex.Print(y), Hex.Print(z), k);
    Hex.ParsePrint(0);
    Hex.ParsePrint(x);
    Hex.ParsePrint(y);
    Hex.ParsePrint(z);
    Zero();
  }

  lemma Zero()
    ensures Hex.Print(0) == "0"
  {
  }

  lemma AllOnes()
    ensures Hex.Print(0xffff) == "ffff"
  {
    assert Hex.Print(0xf) == "f" && Hex.Print(0xff) == "ff" && Hex.Print(0xfff) == "fff";
  }

  lemma EmbeddedIs(front: string, dotted: string, v4: seq<Byte>)
    requires |v4| == 4 && Ipv4Bytes(dotted) == v4 && '.' in dotted
    ensures Embedded([front, dotted]) == [front, Hex.Print(Pair(v4[0], v4[1])), Hex.Print(Pair(v4[2], v4[3]))]
  {
    var groups := [front, dotted];
    assert groups[..|groups| - 1] == [front];
  }

  lemma GroupsOfMapped(v4: seq<Byte>, k: nat)
    requires |v4| == 4 && k < 8
    ensures Groups(MappedBytes(v4))[k] ==
            if k < 5 then 0 else if k == 5 then 0xffff else Pair(v4[2 * k - 12], v4[2 * k - 11])
  {
    var bytes := MappedBytes(v4);
    if k < 5 {
      assert bytes[2 * k] == 0 && bytes[2 * k + 1] == 0;
    } else if k == 5 {
      assert bytes[10] == 0xff && bytes[11] == 0xff;
    } else {
      assert bytes[2 * k] == v4[2 * k - 12] && bytes[2 * k + 1] == v4[2 * k - 11];
    }
  }

  lemma MappedValues(v4: seq<Byte>, groups: seq<string>)
    requires |v4| == 4
    requires groups == Filled([], ["ffff", Hex.Print(Pair(v4[0], v4[1])), Hex.Print(Pair(v4[2], v4[3]))])
    ensures Ungroup(GroupValues(groups)) == MappedBytes(v4)
  {
    var values, expected := GroupValues(groups), Groups(MappedBytes(v4));
    AllOnes();
    forall k: nat | k < 8
      ensures values[k] == expected[k]
    {
      LastThreeRead(0xffff, Pair(v4[0], v4[1]), Pair(v4[2], v4[3]), k);
      GroupsOfMapped(v4, k);
    }
    assert values == expected;
    UngroupGroups(MappedBytes(v4));
  }

  /** The IPv6 spelling of an IPv4 address expands to its mapped form. */
  lemma MappedReadsBack(v4: seq<Byte>)
    requires |v4| == 4
    ensures Ipv6Bytes(MAPPED_TEXT + Dotted(v4)) == MappedBytes(v4)
  {
    var dotted := Dotted(v4);
    DottedRoundTrip(v4);
    DottedShape(v4);
    MappedGroups(dotted);
    EmbeddedIs("ffff", dotted, v4);
    MappedValues(v4, AllGroups(MAPPED_TEXT + dotted));
  }
}
