/** Which address a request came from: the peer, or the rightmost forwarded hop that is not a trusted proxy. */
module ClientIp {
  import opened Options
  import opened IpText
  import opened Text
  import opened ProxyRange
  import opened AddressText

  const UNKNOWN_CLIENT_IP := "unknown"

  type Ranges = r: seq<Range> | forall i :: 0 <= i < |r| ==> ValidRange(r[i])

  predicate IsTrusted(ip: Ip, ranges: Ranges)
    requires ValidIp(ip)
  {
    exists i :: 0 <= i < |ranges| && ProxyRange.Contains(ranges[i], ip)
  }

  /** A hop the walk does not step over: malformed, or not one of our proxies. */
  predicate Stops(hop: Candidate, ranges: Ranges) {
    hop.None? || !IsTrusted(hop.value, ranges)
  }

  /** The hop the right-to-left walk stops at. */
  function LastStop(hops: seq<Candidate>, ranges: Ranges): (i: int)
    ensures -1 <= i < |hops|
    ensures i >= 0 ==> Stops(hops[i], ranges)
    ensures forall k :: i < k < |hops| ==> !Stops(hops[k], ranges)
  {
    if hops == [] then -1
    else if Stops(hops[|hops| - 1], ranges) then |hops| - 1
    else LastStop(hops[..|hops| - 1], ranges)
  }

  /** None stands for "unknown". An absent header has no hops. */
  function Resolve(peer: Candidate, hops: seq<Candidate>, ranges: Ranges): Candidate {
    if peer.None? then None
    else if !IsTrusted(peer.value, ranges) then peer
    else
      var stop := LastStop(hops, ranges);
      if stop >= 0 then hops[stop] else peer
  }

  method CheckTrusted(ip: Ip, ranges: Ranges) returns (trusted: bool)
    requires ValidIp(ip)
    ensures trusted <==> IsTrusted(ip, ranges)
  {
    for i := 0 to |ranges|
      invariant forall k :: 0 <= k < i ==> !ProxyRange.Contains(ranges[k], ip)
    {
      var inside := RangeContains(ranges[i], ip);
      if inside {
        return true;
      }
    }
    return false;
  }

  lemma {:induction false} LastStopIs(hops: seq<Candidate>, ranges: Ranges, stop: int)
    requires -1 <= stop < |hops| && (stop >= 0 ==> Stops(hops[stop], ranges))
    requires forall k :: stop < k < |hops| ==> !Stops(hops[k], ranges)
    ensures LastStop(hops, ranges) == stop
  {
    var last := LastStop(hops, ranges);
    assert last >= 0 ==> Stops(hops[last], ranges);
  }

  method CheckStops(hop: Candidate, ranges: Ranges) returns (stops: bool)
    ensures stops <==> Stops(hop, ranges)
  {
    if hop.None? {
      return true;
    }
    var trusted := CheckTrusted(hop.value, ranges);
    return !trusted;
  }

  /** The rightmost hop that stops the walk, read one by one. */
  method WalkHops(parse: string -> Candidate, pieces: seq<string>, ranges: Ranges) returns (stop: int, hop: Candidate)
    ensures stop == LastStop(ParseAll(parse, pieces), ranges)
    ensures stop >= 0 ==> hop == ParseAll(parse, pieces)[stop]
  {
    ghost var hops := ParseAll(parse, pieces);
    var i := |pieces| - 1;
    while i >= 0
      invariant -1 <= i < |pieces|
      invariant forall k :: i < k < |pieces| ==> !Stops(hops[k], ranges)
    {
      hop := parse(pieces[i]);
      var stops := CheckStops(hop, ranges);
      if stops {
        LastStopIs(hops, ranges, i);
        return i, hop;
      }
      i := i - 1;
    }
    LastStopIs(hops, ranges, -1);
    return -1, None;
  }

  /** `resolveClientIp`, on the texts of the peer's address and of the header. */
  method ResolveClientIp(isIp: IsIp, peerAddress: Option<string>, forwardedFor: Option<string>, ranges: Ranges)
    returns (text: string)
    ensures var client := Resolve(ParseCandidate(isIp, peerAddress), Hops(isIp, forwardedFor), ranges);
            if client.None? then text == UNKNOWN_CLIENT_IP else Prints(client.value, text)
  {
    var peer := ParseCandidate(isIp, peerAddress);
    if peer.None? {
      return UNKNOWN_CLIENT_IP;
    }
    var client := peer;
    var trusted := CheckTrusted(peer.value, ranges);
    if trusted {
      var stop, hop := WalkHops(Parser(isIp), HeaderPieces(forwardedFor), ranges);
      if stop >= 0 {
        client := hop;
      }
    }
    if client.None? {
      return UNKNOWN_CLIENT_IP;
    }
    text := FormatIp(client.value);
  }

  lemma {:induction false} StopInBack(forged: seq<Candidate>, appended: seq<Candidate>, ranges: Ranges)
    requires LastStop(appended, ranges) >= 0
    ensures LastStop(forged + appended, ranges) == |forged| + LastStop(appended, ranges)
  {
    if !Stops(appended[|appended| - 1], ranges) {
      var shorter := appended[..|appended| - 1];
      assert (forged + appended)[..|forged + appended| - 1] == forged + shorter;
      StopInBack(forged, shorter, ranges);
    }
  }

  /** Hops a client puts in front of those our proxies appended change nothing, once one of the appended hops stops the walk. */
  lemma ForgedHopsIgnored(peer: Candidate, forged: seq<Candidate>, appended: seq<Candidate>, ranges: Ranges)
    requires exists i :: 0 <= i < |appended| && Stops(appended[i], ranges)
    ensures Resolve(peer, forged + appended, ranges) == Resolve(peer, appended, ranges)
  {
    StopInBack(forged, appended, ranges);
  }

  /**
   The same of header texts: whatever a client puts in front of what our proxies append, commas,
   blanks and malformed addresses included, changes nothing.
   */
  lemma ForgedTextIgnored(isIp: IsIp, peer: Candidate, forged: string, appended: string, ranges: Ranges)
    requires exists i :: 0 <= i < |Hops(isIp, Some(appended))| && Stops(Hops(isIp, Some(appended))[i], ranges)
    ensures Resolve(peer, Hops(isIp, Some(forged + "," + appended)), ranges) ==
            Resolve(peer, Hops(isIp, Some(appended)), ranges)
  {
    HopsOfBoth(isIp, forged, appended);
    ForgedHopsIgnored(peer, ParseAll(Parser(isIp), Split(forged, ',')), Hops(isIp, Some(appended)), ranges);
  }

  /**
   End to end: when a trusted proxy appends the printed address it saw, and that address is not one
   of our proxies, then that address is the client, whatever header the client sent.
   */
  lemma AppendedAddressIsClient(isIp: IsIp, peer: Candidate, forged: string, seen: Ip, text: string, ranges: Ranges)
    requires peer.Some? && IsTrusted(peer.value, ranges)
    requires ValidIp(seen) && Prints(seen, text) && isIp(text) == Some(seen.family)
    requires !IsTrusted(NormalizeMapped(seen), ranges)
    ensures Resolve(peer, Hops(isIp, Some(forged + ", " + text)), ranges) == Some(NormalizeMapped(seen))
  {
    var appended := " " + text;
    PrintedIsRead(isIp, seen, text);
    OnlyStop(peer, NormalizeMapped(seen), ranges);
    assert Stops(Hops(isIp, Some(appended))[0], ranges);
    CommaAndBlank(forged, text);
    ForgedTextIgnored(isIp, peer, forged, appended, ranges);
  }

  lemma CommaAndBlank(front: string, back: string)
    ensures front + ", " + back == front + "," + (" " + back)
  {
    assert ", " == "," + " ";
  }

  lemma OnlyStop(peer: Candidate, hop: Ip, ranges: Ranges)
    requires peer.Some? && IsTrusted(peer.value, ranges) && ValidIp(hop) && !IsTrusted(hop, ranges)
    ensures Stops(Some(hop), ranges) && Resolve(peer, [Some(hop)], ranges) == Some(hop)
  {
    LastStopIs([Some(hop)], ranges, 0);
  }

  /** The forwarded header can change the answer if and only if the peer is a trusted proxy. */
  lemma HeaderMattersIff(isIp: IsIp, peer: Candidate, ranges: Ranges)
    ensures (exists header, other :: Resolve(peer, Hops(isIp, header), ranges) != Resolve(peer, Hops(isIp, other), ranges)) <==>
            peer.Some? && IsTrusted(peer.value, ranges)
  {
    if peer.Some? && IsTrusted(peer.value, ranges) {
      LoneComma(isIp);
      LastStopIs([None, None], ranges, 1);
      assert Resolve(peer, Hops(isIp, None), ranges) == peer;
      assert Resolve(peer, Hops(isIp, Some(",")), ranges) == None;
    }
  }

  /** A trusted proxy is named as the client only when it is the peer and every hop is trusted too. */
  lemma TrustedClientIsPeer(peer: Candidate, hops: seq<Candidate>, ranges: Ranges)
    requires Resolve(peer, hops, ranges).Some?
    ensures IsTrusted(Resolve(peer, hops, ranges).value, ranges) <==>
            IsTrusted(peer.value, ranges) && forall i :: 0 <= i < |hops| ==> !Stops(hops[i], ranges)
  {
    var stop := LastStop(hops, ranges);
    assert stop >= 0 ==> Stops(hops[stop], ranges);
  }

  /** The printed client address denotes the address it was printed from. */
  method FormatIp(ip: Ip) returns (text: string)
    requires ValidIp(ip)
    ensures Prints(ip, text)
    ensures if ip.family.V4? then Ipv4Bytes(text) == ip.bytes else Ipv6Bytes(text) == ip.bytes
  {
    if ip.family.V4? {
      text := Dotted(ip.bytes);
    } else {
      text := FormatIpv6(ip.bytes);
    }
    PrintedIsClean(ip, text);
  }
}
