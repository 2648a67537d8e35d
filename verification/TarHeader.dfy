/**
 The 512-byte ustar header of the pacman database: splitting a path, laying out the fields in place,
 and the checksum over them.
 */
module TarHeader {
  import opened Bytes
  import opened Options
  import opened Octal
  import opened TarStream

  const SLASH: Byte := 47

  // ----- splitting a path over name and prefix -----

  datatype PathParts = PathParts(name: seq<Byte>, prefix: seq<Byte>)

  /** A slash that leaves at most 100 bytes for the name and at most 155 for the prefix. */
  predicate Fits(path: seq<Byte>, i: int) {
    && 0 < i < |path| && path[i] == SLASH
    && 0 < |path| - i - 1 <= 100 && i <= 155
  }

  /** What ustar has room for: a prefix of 1 to 155 bytes and a name of 1 to 100. */
  predicate HalvesFit(prefix: int, name: int) {
    1 <= prefix <= 155 && 1 <= name <= 100
  }

  function LastFit(path: seq<Byte>, i: int): (fit: Option<int>)
    requires i < |path|
    ensures fit.Some? ==> Fits(path, fit.value) && fit.value <= i
    ensures fit.Some? ==> forall k :: fit.value < k <= i ==> !Fits(path, k)
    ensures fit.None? ==> forall k :: k <= i ==> !Fits(path, k)
    decreases i
  {
    if i <= 0 then None else if Fits(path, i) then Some(i) else LastFit(path, i - 1)
  }

  function Split(path: seq<Byte>): (parts: Option<PathParts>)
    ensures parts.Some? ==> |parts.value.name| <= 100 && |parts.value.prefix| <= 155
  {
    if |path| <= 100 then Some(PathParts(path, []))
    else
      var fit := LastFit(path, |path| - 1);
      if fit.None? then None else Some(PathParts(path[fit.value + 1..], path[..fit.value]))
  }

  method UstarPathParts(path: seq<Byte>) returns (parts: Option<PathParts>)
    ensures parts == Split(path)
    ensures |path| <= 100 ==> parts == Some(PathParts(path, []))
    ensures |path| > 100 ==>
              match parts
              case None => forall i :: 0 < i < |path| && path[i] == SLASH ==> !HalvesFit(i, |path| - i - 1)
              case Some(p) =>
                var i := |p.prefix|;
                && i + 1 < |path| && path == p.prefix + [SLASH] + p.name && HalvesFit(i, |p.name|)
                && forall k :: i < k < |path| && path[k] == SLASH ==> !HalvesFit(k, |path| - k - 1)
  {
    if |path| <= 100 {
      return Some(PathParts(path, []));
    }
    var i := |path| - 1;
    while i > 0
      invariant 0 <= i < |path| && LastFit(path, |path| - 1) == LastFit(path, i)
      invariant forall k :: i < k < |path| && path[k] == SLASH ==> !HalvesFit(k, |path| - k - 1)
    {
      if Fits(path, i) {
        return Some(PathParts(path[i + 1..], path[..i]));
      }
      i := i - 1;
    }
    return None;
  }

  /** A path that is not cut is recovered from its parts, and a refused one has no admissible slash at all. */
  lemma SplitKeepsPath(path: seq<Byte>)
    ensures match Split(path)
            case None => |path| > 100 && forall i :: !Fits(path, i)
            case Some(PathParts(name, prefix)) =>
              path == if prefix == [] then name else prefix + [SLASH] + name
  {
    match Split(path)
    case None =>
      forall i
        ensures !Fits(path, i)
      {
        assert i >= |path| ==> !Fits(path, i);
      }
    case Some(_) =>
  }

  // ----- fields -----

  /** `bytes.subarray(0, max)`. */
  function Cut(text: seq<Byte>, max: nat): (t: seq<Byte>)
    ensures |t| <= max
  {
    if |text| <= max then text else text[..max]
  }

  /** What a zeroed stretch of `width` bytes holds once `text` is written at its start. */
  function Field(text: seq<Byte>, width: nat): (f: seq<Byte>)
    ensures |f| == width
  {
    Cut(text, width) + Zeros(width - |Cut(text, width)|)
  }

  function Written(s: seq<Byte>, text: seq<Byte>, at: nat): (r: seq<Byte>)
    requires at + |text| <= |s|
    ensures |r| == |s|
  {
    s[..at] + text + s[at + |text|..]
  }

  const MODE: seq<Byte> := [48, 48, 48, 48, 54, 52, 52, 0]
  const NO_ID: seq<Byte> := [48, 48, 48, 48, 48, 48, 48, 0]
  const EPOCH: seq<Byte> := [48, 48, 48, 48, 48, 48, 48, 48, 48, 48, 48, 0]
  const REGULAR: seq<Byte> := [0x30]
  const USTAR: seq<Byte> := [117, 115, 116, 97, 114, 0]
  const VERSION: seq<Byte> := [48, 48]

  function SizeText(size: nat): seq<Byte> {
    PadStart(Print(size), 11) + [0]
  }

  /** A name field and the mode, user and group after it. */
  function Owned(name: seq<Byte>): (s: seq<Byte>)
    ensures |s| == |name| + 24
  {
    name + Field(MODE, 8) + Field(NO_ID, 8) + Field(NO_ID, 8)
  }

  /** The 148 bytes before the checksum: name, mode, user, group, size, modification time. */
  function Before(name: seq<Byte>, size: nat): (s: seq<Byte>)
    ensures |s| == 148
  {
    Owned(Field(name, 100)) + Field(SizeText(size), 12) + Field(EPOCH, 12)
  }

  /** The 356 bytes after it: type, no link name, magic, version, no owner or device, prefix. */
  function After(prefix: seq<Byte>): (s: seq<Byte>)
    ensures |s| == 356
  {
    Field(REGULAR, 1) + Zeros(100) + Field(USTAR, 6) + Field(VERSION, 2) + Zeros(80) + Field(prefix, 155) + Zeros(12)
  }

  function Sum(s: seq<Byte>): nat {
    if s == [] then 0 else Sum(s[..|s| - 1]) + s[|s| - 1] as nat
  }

  function ChecksumText(sum: nat): seq<Byte> {
    PadStart(Print(sum), 6) + [0, SPACE]
  }

  /** The header: the checksum is the sum of all bytes, its own counted as spaces. */
  function Header(parts: PathParts, size: nat): (h: seq<Byte>)
    ensures |h| == 512
  {
    var before, after := Before(parts.name, size), After(parts.prefix);
    before + Field(ChecksumText(Sum(before + Repeat(SPACE, 8) + after)), 8) + after
  }

  lemma {:induction false} SumBound(s: seq<Byte>)
    ensures Sum(s) <= 255 * |s|
  {
    if s != [] {
      SumBound(s[..|s| - 1]);
    }
  }

  /** The sum of a header always fits its six digits: nothing of the checksum is ever cut, and it reads back. */
  lemma ChecksumFits(s: seq<Byte>)
    requires |s| == 512
    ensures |ChecksumText(Sum(s))| == 8 && Field(ChecksumText(Sum(s)), 8) == ChecksumText(Sum(s))
    ensures AllOctal(ChecksumText(Sum(s))[..6]) && Value(ChecksumText(Sum(s))[..6]) == Sum(s)
  {
    SumBound(s);
    assert Pow8(6) == 8 * 8 * 8 * 8 * 8 * 8 * Pow8(0);
    PaddedReadsBack(Sum(s), 6);
    assert ChecksumText(Sum(s))[..6] == PadStart(Print(Sum(s)), 6);
  }

  // ----- filling the header in place -----

  method Write(header: array<Byte>, text: seq<Byte>, at: nat)
    requires at + |text| <= header.Length
    modifies header
    ensures header[..] == Written(old(header[..]), text, at)
  {
    for i := 0 to |text|
      invariant forall k :: 0 <= k < header.Length ==>
                              header[k] == if at <= k < at + i then text[k - at] else old(header[k])
    {
      header[at + i] := text[i];
    }
  }

  /** One field, written at the start of the zeros that are left. */
  method WriteNext(header: array<Byte>, text: seq<Byte>, at: nat, max: nat, ghost front: seq<Byte>)
    requires |front| == at && at + max <= header.Length
    requires header[..] == front + Zeros(header.Length - at)
    modifies header
    ensures header[..] == front + Field(text, max) + Zeros(header.Length - at - max)
  {
    Write(header, Cut(text, max), at);
  }

  method FillBefore(header: array<Byte>, name: seq<Byte>, size: nat)
    requires header.Length == 512 && header[..] == Zeros(512)
    modifies header
    ensures header[..] == Before(name, size) + Zeros(364)
  {
    assert header[..] == [] + Zeros(512);
    WriteNext(header, name, 0, 100, []);
    assert [] + Field(name, 100) == Field(name, 100);
    FillOwner(header, Field(name, 100));
    ghost var front := Owned(Field(name, 100));
    WriteNext(header, SizeText(size), 124, 12, front);
    front := front + Field(SizeText(size), 12);
    WriteNext(header, EPOCH, 136, 12, front);
  }

  method FillOwner(header: array<Byte>, ghost name: seq<Byte>)
    requires header.Length == 512 && |name| == 100 && header[..] == name + Zeros(412)
    modifies header
    ensures header[..] == Owned(name) + Zeros(388)
  {
    ghost var front := name;
    WriteNext(header, MODE, 100, 8, front);
    front := front + Field(MODE, 8);
    WriteNext(header, NO_ID, 108, 8, front);
    front := front + Field(NO_ID, 8);
    WriteNext(header, NO_ID, 116, 8, front);
  }

  method FillAfter(header: array<Byte>, prefix: seq<Byte>, ghost before: seq<Byte>)
    requires header.Length == 512 && |before| == 148 && header[..] == before + Zeros(364)
    modifies header
    ensures header[..] == before + Zeros(8) + After(prefix)
  {
    ghost var front := before + Zeros(8);
    WriteNext(header, REGULAR, 156, 1, front);
    front := front + Field(REGULAR, 1);
    front := front + Zeros(100);
    WriteNext(header, USTAR, 257, 6, front);
    front := front + Field(USTAR, 6);
    WriteNext(header, VERSION, 263, 2, front);
    front := front + Field(VERSION, 2);
    front := front + Zeros(80);
    WriteNext(header, prefix, 345, 155, front);
    Regroup7(before + Zeros(8), Field(REGULAR, 1), Zeros(100), Field(USTAR, 6), Field(VERSION, 2), Zeros(80),
             Field(prefix, 155), Zeros(12));
  }

  lemma Regroup7(
    front: seq<Byte>, a: seq<Byte>, b: seq<Byte>, c: seq<Byte>, d: seq<Byte>, e: seq<Byte>, f: seq<Byte>, g: seq<Byte>)
    ensures front + a + b + c + d + e + f + g == front + (a + b + c + d + e + f + g)
  {
  }

  lemma WriteMiddle(before: seq<Byte>, middle: seq<Byte>, after: seq<Byte>, text: seq<Byte>)
    requires |text| == |middle|
    ensures Written(before + middle + after, text, |before|) == before + text + after
  {
    var s := before + middle + after;
    assert s[..|before|] == before && s[|before| + |text|..] == after;
  }

  method SumBytes(header: array<Byte>) returns (sum: nat)
    ensures sum == Sum(header[..])
  {
    sum := 0;
    for i := 0 to header.Length
      invariant sum == Sum(header[..i])
    {
      assert header[..i + 1][..i] == header[..i];
      sum := sum + header[i] as nat;
    }
    assert header[..header.Length] == header[..];
  }

  /** `tarHeader`: refused exactly for a path that cannot be split. */
  method TarHeader(path: seq<Byte>, size: nat) returns (r: Result<seq<Byte>>)
    ensures r.Err? <==> Split(path).None?
    ensures r.Ok? ==> r.value == Header(Split(path).value, size)
  {
    var split := UstarPathParts(path);
    if split.None? {
      return Err("arch db: entry path too long for ustar");
    }
    var parts := split.value;
    var header := new Byte[512](_ => 0);
    assert header[..] == Zeros(512);
    FillBefore(header, parts.name, size);
    ghost var before, after := Before(parts.name, size), After(parts.prefix);
    FillAfter(header, parts.prefix, before);
    WriteMiddle(before, Zeros(8), after, Repeat(SPACE, 8));
    Write(header, Repeat(SPACE, 8), 148);
    var sum := SumBytes(header);
    ChecksumFits(header[..]);
    WriteMiddle(before, Repeat(SPACE, 8), after, ChecksumText(sum));
    Write(header, Cut(ChecksumText(sum), 8), 148);
    return Ok(header[..]);
  }
}
