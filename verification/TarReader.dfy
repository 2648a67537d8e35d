/**
 What the tar reader makes of a header, and its loop over any bytes; and that a header written for a
 short name shows exactly that name and its size.
 */
module TarReader {
  import opened Bytes
  import opened Options
  import opened Octal
  import opened TarStream
  import opened TarHeader

  predicate AllAscii(s: seq<Byte>) {
    forall i :: 0 <= i < |s| ==> s[i] < 128
  }

  function Chars(s: seq<Byte>): (t: string)
    ensures |t| == |s| && forall i :: 0 <= i < |s| ==> t[i] == s[i] as char
  {
    seq(|s|, i requires 0 <= i < |s| => s[i] as char)
  }

  ghost predicate ReadsAscii(decode: seq<Byte> -> string) {
    forall s :: AllAscii(s) ==> decode(s) == Chars(s)
  }

  /** A UTF-8 decoder, of which no more is used than that it reads ASCII as it stands. */
  type Decoder = decode: seq<Byte> -> string | ReadsAscii(decode) ghost witness (s: seq<Byte>) => Chars(s)

  function UntilNul(field: seq<Byte>): (name: seq<Byte>)
    ensures |name| <= |field|
  {
    if field == [] || field[0] == 0 then [] else [field[0]] + UntilNul(field[1..])
  }

  function SizeDigits(field: seq<Byte>): seq<Byte> {
    if field == [] then []
    else
      var last := field[|field| - 1];
      SizeDigits(field[..|field| - 1]) + if last == 0 || last == SPACE then [] else [last]
  }

  /** The size a header states, unless its text is not a number or negative. */
  function SizeOf(text: seq<Byte>): Option<nat> {
    if text == [] then Some(0)
    else
      match ParseInt(text)
      case None => None
      case Some(v) => if v < 0 then None else Some(v)
  }

  predicate AllZero(s: seq<Byte>) {
    forall i :: 0 <= i < |s| ==> s[i] == 0
  }

  function See(decode: Decoder, header: seq<Byte>): Seen {
    if |header| != 512 || AllZero(header) then End
    else
      var name := decode(UntilNul(header[..100]));
      var size := SizeOf(SizeDigits(header[124..136]));
      if name == "" || size.None? then End else Member(name, size.value)
  }

  function Reader(decode: Decoder): seq<Byte> -> Seen {
    (header: seq<Byte>) => See(decode, header)
  }

  // ----- the loops -----

  method ReadName(header: seq<Byte>) returns (name: seq<Byte>)
    requires |header| == 512
    ensures name == UntilNul(header[..100])
  {
    var field := header[..100];
    var nameEnd := 0;
    while nameEnd < 100 && field[nameEnd] != 0
      invariant nameEnd <= 100
      invariant UntilNul(field) == field[..nameEnd] + UntilNul(field[nameEnd..])
    {
      NameGrows(field, nameEnd);
      nameEnd := nameEnd + 1;
    }
    name := field[..nameEnd];
  }

  lemma NameGrows(field: seq<Byte>, k: nat)
    requires k < |field| && field[k] != 0
    ensures field[..k] + UntilNul(field[k..]) == field[..k + 1] + UntilNul(field[k + 1..])
  {
    assert field[k..][1..] == field[k + 1..];
    assert field[..k + 1] == field[..k] + [field[k]];
  }

  method ReadSizeText(header: seq<Byte>) returns (text: seq<Byte>)
    requires |header| == 512
    ensures text == SizeDigits(header[124..136])
  {
    text := [];
    for i := 124 to 136
      invariant text == SizeDigits(header[124..i])
    {
      assert header[124..i + 1][..i - 124] == header[124..i];
      if header[i] != 0 && header[i] != SPACE {
        text := text + [header[i]];
      }
    }
  }

  method ReadHeader(decode: Decoder, header: seq<Byte>) returns (seen: Seen)
    requires |header| == 512
    ensures seen == See(decode, header)
  {
    if AllZero(header) {
      return End;
    }
    var field := ReadName(header);
    var name := decode(field);
    var text := ReadSizeText(header);
    var size := SizeOf(text);
    if name == "" || size.None? {
      return End;
    }
    return Member(name, size.value);
  }

  /** Where the walk goes after a member that is not wanted. */
  lemma StepOver(
    see: seq<Byte> -> Seen, tar: seq<Byte>, wanted: seq<string>, offset: nat, scanned: nat, seen: Seen, next: nat)
    requires offset + 512 <= |tar| && scanned < MAX_TAR_ENTRIES && seen == see(tar[offset..offset + 512])
    requires seen.Member? && offset + 512 + seen.size <= |tar| && seen.name !in wanted
    requires next == offset + 512 + RoundUp(seen.size)
    ensures Find(see, tar, wanted, offset, scanned) == Find(see, tar, wanted, next, scanned + 1)
  {
  }

  /** The reader's loop, on any byte string at all. */
  method ReadTarFile(decode: Decoder, tar: seq<Byte>, wanted: seq<string>) returns (found: Option<Span>)
    ensures found == Find(Reader(decode), tar, wanted, 0, 0)
  {
    ghost var see := Reader(decode);
    ghost var answer := Find(see, tar, wanted, 0, 0);
    var offset, scanned := 0, 0;
    while offset + 512 <= |tar| && scanned < MAX_TAR_ENTRIES
      invariant answer == Find(see, tar, wanted, offset, scanned)
      decreases |tar| - offset
    {
      var seen := ReadHeader(decode, tar[offset..offset + 512]);
      var start := offset + 512;
      if seen.End? || start + seen.size > |tar| {
        break;
      }
      if seen.name in wanted {
        return Some(Span(start, start + seen.size));
      }
      var next := start + RoundUp(seen.size);
      StepOver(see, tar, wanted, offset, scanned, seen, next);
      offset, scanned := next, scanned + 1;
    }
    return None;
  }

  // ----- headers read back -----

  predicate NulFree(s: seq<Byte>) {
    forall i :: 0 <= i < |s| ==> s[i] != 0
  }

  lemma {:induction false} NameEnds(name: seq<Byte>, k: nat)
    requires NulFree(name)
    ensures UntilNul(name + Zeros(k)) == name
  {
    if name != [] {
      assert (name + Zeros(k))[1..] == name[1..] + Zeros(k);
      NameEnds(name[1..], k);
      assert name == [name[0]] + name[1..];
    } else if k > 0 {
      assert (name + Zeros(k))[0] == Zeros(k)[0] == 0;
    }
  }

  lemma {:induction false} DigitsKept(digits: seq<Byte>)
    requires AllOctal(digits)
    ensures SizeDigits(digits) == digits
  {
    if digits != [] {
      DigitsKept(digits[..|digits| - 1]);
    }
  }

  lemma DropsEnd(digits: seq<Byte>)
    requires AllOctal(digits)
    ensures SizeDigits(digits + [0]) == digits
  {
    var text := digits + [0];
    assert text[..|text| - 1] == digits && text[|text| - 1] == 0;
    DigitsKept(digits);
    assert SizeDigits(text) == SizeDigits(digits) + [];
  }

  lemma SizeReadsBack(size: nat)
    requires size < Pow8(11)
    ensures SizeOf(SizeDigits(Field(SizeText(size), 12))) == Some(size)
  {
    PaddedReadsBack(size, 11);
    FullField(SizeText(size), 12);
    DropsEnd(PadStart(Print(size), 11));
    ParsesDigits(PadStart(Print(size), 11));
  }

  lemma FullField(text: seq<Byte>, width: nat)
    requires |text| == width
    ensures Field(text, width) == text
  {
    assert Zeros(0) == [];
  }

  lemma HeaderFields(parts: PathParts, size: nat)
    ensures Header(parts, size)[..100] == Field(parts.name, 100)
    ensures Header(parts, size)[124..136] == Field(SizeText(size), 12)
  {
    var before := Before(parts.name, size);
    var h := Header(parts, size);
    assert h[..100] == before[..100];
    assert h[124..136] == before[124..136];
  }

  /** The fixed fields of a header, at the places and in the spelling POSIX gives them. */
  lemma FixedFields(parts: PathParts, size: nat)
    ensures var h := Header(parts, size);
            && Chars(h[100..108]) == "0000644\0" && Chars(h[108..116]) == "0000000\0" && Chars(h[116..124]) == "0000000\0"
            && Chars(h[136..148]) == "00000000000\0"
            && h[156] as char == '0' && Chars(h[257..263]) == "ustar\0" && Chars(h[263..265]) == "00"
            && AllZero(h[157..257]) && AllZero(h[265..345]) && AllZero(h[500..512])
            && h[345..500] == Field(parts.prefix, 155)
  {
    var h, before, after := Header(parts, size), Before(parts.name, size), After(parts.prefix);
    assert h[..148] == before && h[156..] == after;
    FieldsBefore(parts.name, size);
    FieldsAfter(parts.prefix);
    assert h[100..108] == before[100..108] && h[108..116] == before[108..116] && h[116..124] == before[116..124];
    assert h[136..148] == before[136..148];
    assert h[157..257] == after[1..101] && h[257..263] == after[101..107] && h[263..265] == after[107..109];
    assert h[265..345] == after[109..189] && h[345..500] == after[189..344] && h[500..512] == after[344..];
  }

  lemma FieldsBefore(name: seq<Byte>, size: nat)
    ensures var b := Before(name, size);
            && Chars(b[100..108]) == "0000644\0" && Chars(b[108..116]) == "0000000\0" && Chars(b[116..124]) == "0000000\0"
            && Chars(b[136..148]) == "00000000000\0"
  {
    var b := Before(name, size);
    FullField(MODE, 8);
    FullField(NO_ID, 8);
    FullField(EPOCH, 12);
    assert b[100..108] == MODE && b[108..116] == NO_ID && b[116..124] == NO_ID && b[136..148] == EPOCH;
  }

  lemma FieldsAfter(prefix: seq<Byte>)
    ensures var a := After(prefix);
            && a[0] as char == '0' && Chars(a[101..107]) == "ustar\0" && Chars(a[107..109]) == "00"
            && AllZero(a[1..101]) && AllZero(a[109..189]) && AllZero(a[344..])
            && a[189..344] == Field(prefix, 155)
  {
    var a := After(prefix);
    FullField(REGULAR, 1);
    FullField(USTAR, 6);
    FullField(VERSION, 2);
    assert a[..1] == REGULAR && a[1..101] == Zeros(100) && a[101..107] == USTAR && a[107..109] == VERSION;
    assert a[109..189] == Zeros(80) && a[189..344] == Field(prefix, 155) && a[344..] == Zeros(12);
  }

  /** A size field of blanks and NULs alone counts as zero. */
  lemma {:induction false} BlankSizeIsZero(field: seq<Byte>)
    requires forall i :: 0 <= i < |field| ==> field[i] == 0 || field[i] == SPACE
    ensures SizeOf(SizeDigits(field)) == Some(0)
  {
    if field != [] {
      BlankSizeIsZero(field[..|field| - 1]);
      assert SizeDigits(field) == SizeDigits(field[..|field| - 1]) + [];
      NothingLeft(field[..|field| - 1]);
    }
  }

  lemma {:induction false} NothingLeft(field: seq<Byte>)
    requires forall i :: 0 <= i < |field| ==> field[i] == 0 || field[i] == SPACE
    ensures SizeDigits(field) == []
  {
    if field != [] {
      NothingLeft(field[..|field| - 1]);
    }
  }

  lemma SeesFields(decode: Decoder, header: seq<Byte>, name: seq<Byte>, size: nat)
    requires |header| == 512 && header[0] != 0 && AllAscii(name)
    requires UntilNul(header[..100]) == name != [] && SizeOf(SizeDigits(header[124..136])) == Some(size)
    ensures See(decode, header) == Member(Chars(name), size)
  {
  }

  lemma NameField(name: seq<Byte>)
    requires 0 < |name| <= 100 && NulFree(name)
    ensures Field(name, 100)[0] != 0 && UntilNul(Field(name, 100)) == name
  {
    NameEnds(name, 100 - |name|);
  }

  /** A header shows the reader exactly the name field and the size it was made for. */
  lemma HeaderSeen(decode: Decoder, parts: PathParts, size: nat)
    requires 0 < |parts.name| <= 100 && NulFree(parts.name) && AllAscii(parts.name) && size < Pow8(11)
    ensures See(decode, Header(parts, size)) == Member(Chars(parts.name), size)
  {
    var header := Header(parts, size);
    HeaderFields(parts, size);
    NameField(parts.name);
    SizeReadsBack(size);
    assert header[0] == header[..100][0];
    SeesFields(decode, header, parts.name, size);
  }
}
