/**
 How the socket peer and the hops of `x-forwarded-for` are read: trimming, brackets, ports and zones,
 and the address itself, whose syntax the runtime's `isIP` decides.
 */
module AddressText {
  import opened Options
  import opened Text
  import Bytes
  import opened IpText
  import opened ProxyRange
  import Digits
  import Hex

  /** A parsed address candidate; None when the text is not an address. */
  type Candidate = c: Option<Ip> | c.Some? ==> ValidIp(c.value) witness None

  /** `isIP`: the family a text is written in, if it is an address at all. */
  type IsIp = string -> Option<Family>

  predicate IsPort(s: string) {
    1 <= |s| <= 5 && Digits.AllDigits(s)
  }

  predicate IsOctet(s: string) {
    1 <= |s| <= 3 && Digits.AllDigits(s)
  }

  /** Four short numbers and a port. */
  predicate IsDottedWithPort(text: string) {
    var colon := LastIndexOf(text, ':');
    && colon >= 0 && IsPort(text[colon + 1..])
    && FourOctets(Split(text[..colon], '.'))
  }

  predicate FourOctets(parts: seq<string>) {
    |parts| == 4 && IsOctet(parts[0]) && IsOctet(parts[1]) && IsOctet(parts[2]) && IsOctet(parts[3])
  }

  /** What is left without brackets and port; None when the brackets are not as they should be. */
  function Bare(text: string): Option<string> {
    if text != "" && text[0] == '[' then
      var end := IndexOf(text, ']');
      if end < 0 then None
      else
        var rest := text[end + 1..];
        if rest != "" && !(rest[0] == ':' && IsPort(rest[1..])) then None else Some(text[1..end])
    else if IsDottedWithPort(text) then Some(text[..LastIndexOf(text, ':')])
    else Some(text)
  }

  function WithoutZone(text: string): string {
    var zone := IndexOf(text, '%');
    if zone >= 0 then text[..zone] else text
  }

  function ParseIp(isIp: IsIp, text: string): Candidate {
    match isIp(text)
    case None => None
    case Some(V4) => Some(Ip(V4, Ipv4Bytes(text)))
    case Some(V6) => Some(Ip(V6, Ipv6Bytes(text)))
  }

  function ParseTrimmed(isIp: IsIp, text: string): Candidate {
    if text == "" then None
    else
      match Bare(text)
      case None => None
      case Some(bare) =>
        var ip := ParseIp(isIp, WithoutZone(bare));
        if ip.None? then None else Some(NormalizeMapped(ip.value))
  }

  /** `parseCandidate`. */
  function ParseCandidate(isIp: IsIp, raw: Option<string>): Candidate {
    if raw.None? then None else ParseTrimmed(isIp, Trim(raw.value))
  }

  function Parser(isIp: IsIp): string -> Candidate {
    (raw: string) => ParseCandidate(isIp, Some(raw))
  }

  function ParseAll(parse: string -> Candidate, pieces: seq<string>): (parsed: seq<Candidate>)
    ensures |parsed| == |pieces| && forall i :: 0 <= i < |pieces| ==> parsed[i] == parse(pieces[i])
  {
    seq(|pieces|, i requires 0 <= i < |pieces| => parse(pieces[i]))
  }

  lemma ParseAllConcat(parse: string -> Candidate, a: seq<string>, b: seq<string>)
    ensures ParseAll(parse, a + b) == ParseAll(parse, a) + ParseAll(parse, b)
  {
  }

  /** The pieces of the header, none when it is absent or blank. */
  function HeaderPieces(header: Option<string>): seq<string> {
    var trimmed := if header.Some? then Trim(header.value) else "";
    if trimmed == "" then [] else Split(trimmed, ',')
  }

  function Hops(isIp: IsIp, header: Option<string>): seq<Candidate> {
    ParseAll(Parser(isIp), HeaderPieces(header))
  }

  lemma SamePiecesSameHops(isIp: IsIp, a: seq<string>, b: seq<string>)
    requires SameTrimmed(a, b)
    ensures ParseAll(Parser(isIp), a) == ParseAll(Parser(isIp), b)
  {
  }

  lemma HopsOfWhole(isIp: IsIp, header: string)
    requires Trim(header) != ""
    ensures Hops(isIp, Some(header)) == ParseAll(Parser(isIp), Split(header, ','))
  {
    SplitTrimmed(header, ',');
    SamePiecesSameHops(isIp, Split(Trim(header), ','), Split(header, ','));
  }

  /** A header appended to another, after a comma, contributes its own hops, read as they would be alone. */
  lemma HopsOfBoth(isIp: IsIp, front: string, back: string)
    requires Trim(back) != ""
    ensures Hops(isIp, Some(front + "," + back)) == ParseAll(Parser(isIp), Split(front, ',')) + Hops(isIp, Some(back))
  {
    var whole := front + "," + back;
    assert whole[|front|] == ',';
    TrimKeeps(whole, ',');
    HopsOfWhole(isIp, whole);
    HopsOfWhole(isIp, back);
    SplitConcat(front, back, ',');
    ParseAllConcat(Parser(isIp), Split(front, ','), Split(back, ','));
  }

  lemma LonePieces()
    ensures HeaderPieces(Some(",")) == ["", ""]
  {
    TrimNothing(",");
    assert Split(",", ',') == ["", ""];
  }

  lemma BlankIsNone(isIp: IsIp)
    ensures Parser(isIp)("") == None
  {
    assert Trim("") == "";
  }

  /** A lone comma is two malformed hops. */
  lemma LoneComma(isIp: IsIp)
    ensures Hops(isIp, Some(",")) == [None, None]
  {
    LonePieces();
    BlankIsNone(isIp);
    BothNone(Parser(isIp), ["", ""]);
  }

  lemma BothNone(parse: string -> Candidate, pieces: seq<string>)
    requires pieces == ["", ""] && parse("") == None
    ensures ParseAll(parse, pieces) == [None, None]
  {
  }

  // ----- brackets, ports and zones -----

  /** One to five digits. */
  ghost predicate ShortDigits(s: string, most: nat) {
    1 <= |s| <= most && forall i :: 0 <= i < |s| ==> '0' <= s[i] <= '9'
  }

  /** A bracketed text is what is inside, when nothing follows the bracket, or a colon and a port. */
  lemma BracketsIff(inside: string, rest: string)
    requires ']' !in inside
    ensures Bare("[" + inside + "]" + rest) ==
            if rest == "" || (rest[0] == ':' && ShortDigits(rest[1..], 5)) then Some(inside) else None
  {
    var text := "[" + inside + "]" + rest;
    assert text == ("[" + inside) + [']'] + rest;
    IndexOfAt("[" + inside, ']', rest);
    assert text[|inside| + 2..] == rest && text[1..|inside| + 1] == inside;
  }

  lemma OpenBracketIsNone(inside: string)
    requires ']' !in inside
    ensures Bare("[" + inside) == None
  {
    var text := "[" + inside;
    assert forall i :: 0 <= i < |text| ==> text[i] != ']';
  }

  /** Four numbers of one to three digits, dots between them. */
  ghost predicate FourNumbers(text: string) {
    exists a, b, c, d ::
      && ShortDigits(a, 3) && ShortDigits(b, 3) && ShortDigits(c, 3) && ShortDigits(d, 3)
      && text == a + "." + b + "." + c + "." + d
  }

  lemma NoDotInDigits(s: string, most: nat)
    requires ShortDigits(s, most)
    ensures '.' !in s && ':' !in s
  {
  }

  lemma FourNumbersSplit(a: string, b: string, c: string, d: string)
    requires '.' !in a && '.' !in b && '.' !in c && '.' !in d
    ensures Split(a + "." + b + "." + c + "." + d, '.') == [a, b, c, d]
  {
    JoinFour([a, b, c, d]);
    SplitJoin([a, b, c, d], '.');
  }

  lemma FourNumbersSplitUp(text: string)
    requires FourNumbers(text)
    ensures FourOctets(Split(text, '.'))
  {
    var a, b, c, d :|
      && ShortDigits(a, 3) && ShortDigits(b, 3) && ShortDigits(c, 3) && ShortDigits(d, 3)
      && text == a + "." + b + "." + c + "." + d;
    NoDotInDigits(a, 3);
    NoDotInDigits(b, 3);
    NoDotInDigits(c, 3);
    NoDotInDigits(d, 3);
    FourNumbersSplit(a, b, c, d);
  }

  lemma SplitUpIsFourNumbers(text: string)
    requires FourOctets(Split(text, '.'))
    ensures FourNumbers(text)
  {
    var parts := Split(text, '.');
    JoinSplit(text, '.');
    JoinFour(parts);
    assert ShortDigits(parts[0], 3) && ShortDigits(parts[1], 3) && ShortDigits(parts[2], 3) && ShortDigits(parts[3], 3);
  }

  lemma FourNumbersIff(text: string)
    ensures FourNumbers(text) <==> FourOctets(Split(text, '.'))
  {
    if FourNumbers(text) {
      FourNumbersSplitUp(text);
    }
    if FourOctets(Split(text, '.')) {
      SplitUpIsFourNumbers(text);
    }
  }

  lemma JoinFour(parts: seq<string>)
    requires |parts| == 4
    ensures Join(parts, '.') == parts[0] + "." + parts[1] + "." + parts[2] + "." + parts[3]
  {
    var tail := parts[1..];
    assert Join(parts, '.') == parts[0] + ['.'] + (parts[1] + ['.'] + (parts[2] + ['.'] + parts[3])) by {
      assert tail[1..] == parts[2..] && parts[2..][1..] == [parts[3]];
      assert Join([parts[3]], '.') == parts[3];
      assert Join(parts[2..], '.') == parts[2] + ['.'] + parts[3];
      assert Join(tail, '.') == parts[1] + ['.'] + Join(parts[2..], '.');
    }
  }

  lemma DottedWithPortIff(front: string, port: string)
    requires ':' !in port
    ensures IsDottedWithPort(front + ":" + port) <==> IsPort(port) && FourOctets(Split(front, '.'))
  {
    var text := front + ":" + port;
    LastColon(front, port);
    assert text[..|front|] == front && text[|front| + 1..] == port;
  }

  /** Without brackets a text is cut only when it is a dotted address and a port, and then the port is what goes. */
  lemma PortIff(front: string, port: string)
    requires front == "" || front[0] != '['
    requires ':' !in port
    ensures Bare(front + ":" + port) ==
            Some(if FourNumbers(front) && ShortDigits(port, 5) then front else front + ":" + port)
  {
    var text := front + ":" + port;
    DottedWithPortIff(front, port);
    LastColon(front, port);
    FourNumbersIff(front);
    PortIs(port);
    assert text[0] != '[' && text[..|front|] == front;
  }

  lemma PortIs(port: string)
    ensures IsPort(port) <==> ShortDigits(port, 5)
  {
  }

  lemma {:induction false} LastColon(front: string, back: string)
    requires ':' !in back
    ensures LastIndexOf(front + ":" + back, ':') == |front|
  {
    var s := front + ":" + back;
    if back != "" {
      var shorter := back[..|back| - 1];
      assert s[..|s| - 1] == front + ":" + shorter && s[|s| - 1] == back[|back| - 1];
      LastColon(front, shorter);
    }
  }

  /** A zone is cut off; without one the text stays. */
  lemma ZoneIsCut(text: string, zone: string)
    requires '%' !in text
    ensures WithoutZone(text) == text && WithoutZone(text + "%" + zone) == text
  {
    IndexOfAt(text, '%', zone);
    assert text + "%" + zone == text + ['%'] + zone;
  }

  // ----- printed addresses are read again -----

  /** The text the server prints for an address. */
  ghost predicate Prints(ip: Ip, text: string)
    requires ValidIp(ip)
  {
    if ip.family.V4? then text == Dotted(ip.bytes)
    else exists best :: IsLeftmostLongest(Groups(ip.bytes), best) && text == Canonical(Groups(ip.bytes), best)
  }

  /** Digits, letters, dots and colons; in particular no white space, bracket, comma or zone. */
  predicate IsAddressChar(c: char) {
    Digits.IsDigit(c) || 'a' <= c <= 'z' || 'A' <= c <= 'Z' || c == '.' || c == ':'
  }

  predicate Clean(text: string) {
    forall i :: 0 <= i < |text| ==> IsAddressChar(text[i])
  }

  lemma {:induction false} JoinClean(parts: seq<string>, c: char)
    requires IsAddressChar(c) && forall i :: 0 <= i < |parts| ==> Clean(parts[i])
    ensures Clean(Join(parts, c))
  {
    if |parts| > 1 {
      JoinClean(parts[1..], c);
    }
  }

  lemma HexIsClean(groups: seq<nat>)
    ensures Clean(HexJoin(groups))
  {
    var parts := HexGroups(groups);
    forall i | 0 <= i < |parts|
      ensures Clean(parts[i])
    {
      assert Hex.AllHex(parts[i]);
    }
    JoinClean(parts, ':');
  }

  lemma {:induction false} NoDots(parts: seq<string>)
    requires forall i :: 0 <= i < |parts| ==> '.' !in parts[i]
    ensures '.' !in Join(parts, ':')
  {
    if |parts| > 1 {
      NoDots(parts[1..]);
    }
  }

  lemma HexHasNoDot(groups: seq<nat>)
    ensures '.' !in HexJoin(groups)
  {
    NoDots(HexGroups(groups));
  }

  lemma CanonicalIsClean(groups: seq<nat>, best: Run)
    requires IsLeftmostLongest(groups, best)
    ensures Clean(Canonical(groups, best)) && '.' !in Canonical(groups, best)
  {
    if best.length < 2 {
      HexIsClean(groups);
      HexHasNoDot(groups);
    } else {
      HexIsClean(groups[..best.start]);
      HexHasNoDot(groups[..best.start]);
      HexIsClean(groups[best.start + best.length..]);
      HexHasNoDot(groups[best.start + best.length..]);
    }
  }

  lemma PortHasBoth(text: string)
    requires IsDottedWithPort(text)
    ensures ':' in text && '.' in text
  {
    var colon := LastIndexOf(text, ':');
    var front := text[..colon];
    assert Text.IndexOf(front, '.') >= 0;
    assert front[Text.IndexOf(front, '.')] == '.';
    assert text[colon] == ':' && text[Text.IndexOf(front, '.')] == '.';
  }

  lemma DottedIsClean(bytes: seq<Bytes.Byte>)
    requires |bytes| == 4
    ensures Clean(Dotted(bytes)) && ':' !in Dotted(bytes) && Dotted(bytes) != ""
  {
    var parts := DecimalParts(bytes);
    forall i | 0 <= i < |parts|
      ensures Clean(parts[i])
    {
      assert Digits.AllDigits(parts[i]);
    }
    JoinClean(parts, '.');
    DottedShape(bytes);
  }

  lemma CleanIsTrimmed(text: string)
    requires Clean(text) && text != ""
    ensures Trim(text) == text && Trim(" " + text) == text
  {
    assert IsAddressChar(text[0]) && IsAddressChar(text[|text| - 1]);
    TrimNothing(text);
    assert (" " + text)[1..] == text;
  }

  lemma CleanIsBare(text: string)
    requires Clean(text) && text != "" && (':' !in text || '.' !in text)
    ensures Bare(text) == Some(text)
  {
    assert IsAddressChar(text[0]);
    if IsDottedWithPort(text) {
      PortHasBoth(text);
    }
  }

  lemma CleanHasNone(text: string, c: char)
    requires Clean(text) && !IsAddressChar(c)
    ensures c !in text
  {
  }

  lemma CanonicalIsNotEmpty(groups: seq<nat>, best: Run)
    requires groups != [] && IsLeftmostLongest(groups, best)
    ensures Canonical(groups, best) != ""
  {
    if best.length < 2 {
      var parts := HexGroups(groups);
      assert parts[0] != "";
    }
  }

  lemma PrintedIsClean(ip: Ip, text: string)
    requires ValidIp(ip) && Prints(ip, text)
    ensures text != "" && Clean(text) && (':' !in text || '.' !in text)
    ensures if ip.family.V4? then Ipv4Bytes(text) == ip.bytes else Ipv6Bytes(text) == ip.bytes
  {
    if ip.family.V4? {
      DottedIsClean(ip.bytes);
      DottedRoundTrip(ip.bytes);
    } else {
      var best :| IsLeftmostLongest(Groups(ip.bytes), best) && text == Canonical(Groups(ip.bytes), best);
      CanonicalIsClean(Groups(ip.bytes), best);
      CanonicalIsNotEmpty(Groups(ip.bytes), best);
      RoundTrip(ip.bytes, best);
    }
  }

  /** Nothing is trimmed or cut off a printed address. */
  ghost predicate Whole(text: string) {
    && text != "" && Trim(text) == text && Trim(" " + text) == text
    && Bare(text) == Some(text) && WithoutZone(text) == text && ',' !in text
  }

  lemma PrintedIsWhole(ip: Ip, text: string)
    requires ValidIp(ip) && Prints(ip, text)
    ensures Whole(text)
  {
    PrintedIsClean(ip, text);
    CleanIsTrimmed(text);
    CleanIsBare(text);
    CleanHasNone(text, '%');
    CleanHasNone(text, ',');
  }

  lemma ParsesTo(isIp: IsIp, ip: Ip, text: string)
    requires ValidIp(ip) && isIp(text) == Some(ip.family)
    requires if ip.family.V4? then Ipv4Bytes(text) == ip.bytes else Ipv6Bytes(text) == ip.bytes
    ensures ParseIp(isIp, text) == Some(ip)
  {
  }

  /** What the server prints for an address is read as that address, alone or after a comma and a blank. */
  lemma PrintedIsRead(isIp: IsIp, ip: Ip, text: string)
    requires ValidIp(ip) && Prints(ip, text) && isIp(text) == Some(ip.family)
    ensures ParseCandidate(isIp, Some(text)) == Some(NormalizeMapped(ip))
    ensures Hops(isIp, Some(" " + text)) == [Some(NormalizeMapped(ip))]
  {
    PrintedIsWhole(ip, text);
    PrintedIsClean(ip, text);
    ParsesTo(isIp, ip, text);
    CleanIsParsed(isIp, text);
    OneHop(isIp, text);
  }

  lemma CleanIsParsed(isIp: IsIp, text: string)
    requires Whole(text)
    ensures ParseCandidate(isIp, Some(text)) ==
            if ParseIp(isIp, text).None? then None else Some(NormalizeMapped(ParseIp(isIp, text).value))
  {
  }

  lemma OneHop(isIp: IsIp, text: string)
    requires Whole(text)
    ensures Hops(isIp, Some(" " + text)) == [ParseCandidate(isIp, Some(text))]
  {
    assert Split(text, ',') == [text];
  }
}
