module Multipart {
  // Splitting a multipart/form-data body into its parts (the Chef and CocoaPods registries share the
  // loop), against the encoder of section 5.1.1 of RFC 2046.

  import opened Bytes

  const CR: Byte := 13
  const LF: Byte := 10
  const DASH: Byte := 45

  /** The header block and the data of one part, as views of the body. */
  datatype View = View(headers: Span, data: Span)

  /** A header block and data. */
  datatype Part = Part(headers: seq<Byte>, data: seq<Byte>)

  /** The view is this part. */
  predicate Shows(body: seq<Byte>, view: View, part: Part) {
    Covers(body, view.headers, part.headers) && Covers(body, view.data, part.data)
  }

  /** View by view, in order, these parts and no others. */
  predicate ShowsAll(body: seq<Byte>, views: seq<View>, parts: seq<Part>) {
    |views| == |parts| && forall i :: 0 <= i < |views| ==> Shows(body, views[i], parts[i])
  }

  /** The byte strings the loop looks for. */
  datatype Wire = Wire(closing: seq<Byte>, crlf: seq<Byte>, headerEnd: seq<Byte>, marker: seq<Byte>, delimiter: seq<Byte>)

  function WireOf(boundary: seq<Byte>): (w: Wire)
    ensures Coherent(w) && Bytewise(w)
    ensures CR !in boundary ==> LeadsOnce(w.delimiter)
  {
    var dashes, crlf := [DASH, DASH], [CR, LF];
    Wire(dashes, crlf, crlf + crlf, dashes + boundary, crlf + (dashes + boundary))
  }

  /** The byte strings, spelled out: CR LF, twice it, and two dashes before the boundary. */
  lemma WireIs(boundary: seq<Byte>)
    ensures var w := WireOf(boundary);
            && w.closing == [45, 45] && w.crlf == [13, 10] && w.headerEnd == [13, 10, 13, 10]
            && w.marker == [45, 45] + boundary && w.delimiter == [13, 10, 45, 45] + boundary
  {
  }

  predicate Coherent(w: Wire) {
    && |w.crlf| > 0
    && |w.delimiter| == |w.crlf| + |w.marker|
    && Apart(w.closing, w.crlf)
  }

  predicate Bytewise(w: Wire) {
    && w.crlf == [CR, LF] && w.headerEnd == [CR, LF, CR, LF]
    && |w.delimiter| >= 4 && w.delimiter[0] == CR && w.delimiter[1] == LF && w.delimiter[2] == DASH
  }

  predicate Apart(p: seq<Byte>, q: seq<Byte>) {
    |p| > 0 && |q| > 0 && p[0] != q[0]
  }

  /** The first byte does not occur again. */
  predicate LeadsOnce(d: seq<Byte>) {
    |d| > 0 && forall i :: 0 < i < |d| ==> d[i] != d[0]
  }

  /** What one turn of the loop does: stop, or read a part and land past the marker after it. */
  datatype Turn = Stop | Read(view: View, after: nat)

  /** One turn from a cursor just past a marker; -1 as a search result ends the loop. */
  ghost function TakeTurn(w: Wire, body: seq<Byte>, cursor: nat): (turn: Turn)
    requires Coherent(w)
    ensures turn.Read? ==> cursor < turn.after <= |body|
  {
    if IndexOf(body, w.closing, cursor) == cursor || IndexOf(body, w.crlf, cursor) != cursor then Stop
    else
      var start := cursor + |w.crlf|;
      var headerEnd := IndexOf(body, w.headerEnd, start);
      if headerEnd < 0 then Stop
      else
        var dataStart := headerEnd + |w.headerEnd|;
        var next := IndexOf(body, w.delimiter, dataStart);
        if next < 0 then Stop
        else
          Read(View(Span(start, headerEnd), Span(dataStart, next)), next + |w.delimiter|)
  }

  ghost function PartsFrom(w: Wire, body: seq<Byte>, cursor: nat): seq<View>
    requires Coherent(w)
    decreases |body| - cursor
  {
    match TakeTurn(w, body, cursor)
    case Stop => []
    case Read(view, after) => [view] + PartsFrom(w, body, after)
  }

  /** The parts of a body: from just past its first marker. */
  ghost function Parts(w: Wire, body: seq<Byte>): seq<View>
    requires Coherent(w)
  {
    var first := IndexOf(body, w.marker, 0);
    if first < 0 then [] else PartsFrom(w, body, first + |w.marker|)
  }

  /** The body of the source's loop, from a cursor just past a marker. */
  method ReadPart(w: Wire, body: seq<Byte>, cursor: nat) returns (turn: Turn)
    requires Coherent(w)
    ensures turn == TakeTurn(w, body, cursor)
  {
    var closing := Search(body, w.closing, cursor);
    if closing == cursor {
      return Stop;
    }
    var lineEnd := Search(body, w.crlf, cursor);
    if lineEnd != cursor {
      return Stop;
    }
    var start := cursor + |w.crlf|;
    var headerEnd := Search(body, w.headerEnd, start);
    if headerEnd < 0 {
      return Stop;
    }
    var dataStart := headerEnd + |w.headerEnd|;
    var next := Search(body, w.delimiter, dataStart);
    if next < 0 {
      return Stop;
    }
    return Read(View(Span(start, headerEnd), Span(dataStart, next)), next + |w.delimiter|);
  }

  /** The cursor loop of the source. The cursor strictly advances, so it ends on every body. */
  method ParseMultipartParts(w: Wire, body: seq<Byte>) returns (parts: seq<View>)
    requires Coherent(w)
    ensures parts == Parts(w, body)
  {
    parts := [];
    var first := Search(body, w.marker, 0);
    if first < 0 {
      return;
    }
    var cursor := first + |w.marker|;
    ghost var all := PartsFrom(w, body, cursor);
    var turn := ReadPart(w, body, cursor);
    while turn.Read?
      invariant 0 <= cursor <= |body| && turn == TakeTurn(w, body, cursor)
      invariant all == parts + PartsFrom(w, body, cursor)
      decreases |body| - cursor
    {
      OneMore(parts, turn.view, PartsFrom(w, body, turn.after));
      parts := parts + [turn.view];
      cursor := turn.after;
      turn := ReadPart(w, body, cursor);
    }
  }

  lemma OneMore(read: seq<View>, view: View, rest: seq<View>)
    ensures read + ([view] + rest) == (read + [view]) + rest
  {
  }

  // ----- encoding -----

  /** A part on the wire: its header lines, an empty line, its data. With no header line there is only the empty line. */
  function EncodePart(w: Wire, part: Part): seq<Byte> {
    if part.headers == [] then w.crlf + part.data else part.headers + w.headerEnd + part.data
  }

  /** Everything after a marker: a part and the next marker each time, then the closing dashes. */
  function EncodeRest(w: Wire, parts: seq<Part>, epilogue: seq<Byte>): seq<Byte> {
    if parts == [] then w.closing + epilogue
    else w.crlf + EncodePart(w, parts[0]) + w.delimiter + EncodeRest(w, parts[1..], epilogue)
  }

  function Encode(w: Wire, preamble: seq<Byte>, parts: seq<Part>, epilogue: seq<Byte>): seq<Byte> {
    preamble + w.marker + EncodeRest(w, parts, epilogue)
  }

  /** The header block is ended by its first empty line, and the data does not hold the delimiter. */
  ghost predicate Sendable(w: Wire, part: Part) {
    && IndexOf(part.headers + w.headerEnd, w.headerEnd, 0) == |part.headers|
    && !Contains(part.data, w.delimiter)
  }

  ghost predicate AllSendable(w: Wire, parts: seq<Part>) {
    forall i :: 0 <= i < |parts| ==> Sendable(w, parts[i])
  }

  predicate AllHaveHeaders(parts: seq<Part>) {
    forall i :: 0 <= i < |parts| ==> parts[i].headers != []
  }

  // ----- finding what was written -----

  lemma NoOverlap(data: seq<Byte>, d: seq<Byte>, k: nat)
    requires LeadsOnce(d) && k < |data| < k + |d|
    ensures !At(data + d, d, k)
  {
    var j := |data| - k;
    assert (data + d)[k + j] == d[0] != d[j];
  }

  /** The delimiter starts with the only CR it has, so it cannot begin inside the data and end beyond it. */
  lemma DataEndsAtDelimiter(data: seq<Byte>, d: seq<Byte>)
    requires LeadsOnce(d) && !Contains(data, d)
    ensures IndexOf(data + d, d, 0) == |data|
  {
    var text := data + d;
    forall k | 0 <= k < |data|
      ensures !At(text, d, k)
    {
      if k + |d| > |data| {
        NoOverlap(data, d, k);
      } else if At(text, d, k) {
        IndexOfIsFirst(data, d, 0, k);
        AtWithin(text, data, 0, d, k);
      }
    }
    IndexOfIsFirst(text, d, 0, |data|);
  }

  function EncodedLength(w: Wire, part: Part): nat {
    |w.crlf| + |part.headers| + |w.headerEnd| + |part.data| + |w.delimiter|
  }

  /** An encoded part with headers, piece by piece, and the delimiter after it. */
  predicate LaidOut(w: Wire, body: seq<Byte>, start: nat, part: Part) {
    var headers := start + |w.crlf|;
    var data := headers + |part.headers| + |w.headerEnd|;
    && At(body, w.crlf, start)
    && Followed(body, headers, part.headers, w.headerEnd)
    && Followed(body, data, part.data, w.delimiter)
  }

  lemma DataEndFound(w: Wire, body: seq<Byte>, from: nat, data: seq<Byte>)
    requires LeadsOnce(w.delimiter) && !Contains(data, w.delimiter)
    requires Followed(body, from, data, w.delimiter)
    ensures IndexOf(body, w.delimiter, from) == from + |data|
  {
    DataEndsAtDelimiter(data, w.delimiter);
    FoundInPlace(body, from, data, w.delimiter);
  }

  /** One turn of the loop on an encoded part with headers: it is read back and the cursor lands past the next marker. */
  lemma ReadsOnePart(w: Wire, body: seq<Byte>, start: nat, part: Part)
    requires Coherent(w) && LeadsOnce(w.delimiter) && Sendable(w, part) && LaidOut(w, body, start, part)
    ensures TakeTurn(w, body, start).Read? && Shows(body, TakeTurn(w, body, start).view, part)
    ensures TakeTurn(w, body, start).after == start + EncodedLength(w, part)
  {
    var headerEnd := start + |w.crlf| + |part.headers|;
    OpensPart(w, body, start);
    HeaderEndFound(w, body, start + |w.crlf|, part);
    DataEndFound(w, body, headerEnd + |w.headerEnd|, part.data);
    TurnReads(w, body, start, headerEnd, headerEnd + |w.headerEnd| + |part.data|);
  }

  lemma HeaderEndFound(w: Wire, body: seq<Byte>, start: nat, part: Part)
    requires Sendable(w, part) && Followed(body, start, part.headers, w.headerEnd)
    ensures IndexOf(body, w.headerEnd, start) == start + |part.headers|
  {
    FoundInPlace(body, start, part.headers, w.headerEnd);
  }

  lemma OpensPart(w: Wire, body: seq<Byte>, start: nat)
    requires Coherent(w) && At(body, w.crlf, start)
    ensures IndexOf(body, w.closing, start) != start && IndexOf(body, w.crlf, start) == start
  {
    IndexOfIsFirst(body, w.closing, start, start);
    IndexOfIsFirst(body, w.crlf, start, start);
  }

  lemma TurnReads(w: Wire, body: seq<Byte>, cursor: nat, headerEnd: nat, next: nat)
    requires Coherent(w) && IndexOf(body, w.closing, cursor) != cursor && IndexOf(body, w.crlf, cursor) == cursor
    requires IndexOf(body, w.headerEnd, cursor + |w.crlf|) == headerEnd
    requires IndexOf(body, w.delimiter, headerEnd + |w.headerEnd|) == next
    ensures TakeTurn(w, body, cursor) ==
            Read(View(Span(cursor + |w.crlf|, headerEnd), Span(headerEnd + |w.headerEnd|, next)), next + |w.delimiter|)
  {
  }

  lemma EncodedIsLaidOut(w: Wire, body: seq<Byte>, start: nat, parts: seq<Part>, epilogue: seq<Byte>)
    requires parts != [] && parts[0].headers != [] && At(body, EncodeRest(w, parts, epilogue), start)
    ensures LaidOut(w, body, start, parts[0])
    ensures At(body, EncodeRest(w, parts[1..], epilogue), start + EncodedLength(w, parts[0]))
  {
    var part := parts[0];
    var rest := EncodeRest(w, parts[1..], epilogue);
    AtConcat(body, w.crlf + EncodePart(w, part) + w.delimiter, rest, start);
    AtConcat(body, w.crlf + EncodePart(w, part), w.delimiter, start);
    AtConcat(body, w.crlf, EncodePart(w, part), start);
    PartIsLaidOut(w, body, start + |w.crlf|, part);
  }

  lemma PartIsLaidOut(w: Wire, body: seq<Byte>, at: nat, part: Part)
    requires part.headers != [] && At(body, EncodePart(w, part), at)
    ensures At(body, part.headers, at) && At(body, w.headerEnd, at + |part.headers|)
    ensures At(body, part.data, at + |part.headers| + |w.headerEnd|)
  {
    AtConcat(body, part.headers + w.headerEnd, part.data, at);
    AtConcat(body, part.headers, w.headerEnd, at);
  }

  lemma ReadsNoPart(w: Wire, body: seq<Byte>, start: nat, epilogue: seq<Byte>)
    requires Coherent(w) && At(body, w.closing + epilogue, start)
    ensures PartsFrom(w, body, start) == []
  {
    AtConcat(body, w.closing, epilogue, start);
    IndexOfIsFirst(body, w.closing, start, start);
  }

  /** The turn taken at an encoded part, and what is left after it. */
  lemma ReadsFirstPart(w: Wire, body: seq<Byte>, start: nat, parts: seq<Part>, epilogue: seq<Byte>)
    requires Coherent(w) && LeadsOnce(w.delimiter) && parts != [] && parts[0].headers != [] && Sendable(w, parts[0])
    requires At(body, EncodeRest(w, parts, epilogue), start)
    ensures var turn := TakeTurn(w, body, start);
            && turn.Read? && Shows(body, turn.view, parts[0])
            && At(body, EncodeRest(w, parts[1..], epilogue), turn.after)
  {
    EncodedIsLaidOut(w, body, start, parts, epilogue);
    ReadsOnePart(w, body, start, parts[0]);
  }

  lemma {:induction false} ReadsAllParts(w: Wire, body: seq<Byte>, start: nat, parts: seq<Part>, epilogue: seq<Byte>)
    requires Coherent(w) && LeadsOnce(w.delimiter) && AllSendable(w, parts) && AllHaveHeaders(parts)
    requires At(body, EncodeRest(w, parts, epilogue), start)
    ensures ShowsAll(body, PartsFrom(w, body, start), parts)
    decreases |parts|
  {
    if parts == [] {
      ReadsNoPart(w, body, start, epilogue);
    } else {
      ReadsFirstPart(w, body, start, parts, epilogue);
      var turn := TakeTurn(w, body, start);
      ReadsAllParts(w, body, turn.after, parts[1..], epilogue);
    }
  }

  /** The preamble does not itself hold the marker, nor run into it. */
  ghost predicate CleanPreamble(w: Wire, preamble: seq<Byte>) {
    IndexOf(preamble + w.marker, w.marker, 0) == |preamble|
  }

  lemma FirstMarkerFound(w: Wire, preamble: seq<Byte>, rest: seq<Byte>, body: seq<Byte>)
    requires CleanPreamble(w, preamble) && At(body, preamble + w.marker + rest, 0)
    ensures IndexOf(body, w.marker, 0) == |preamble| && At(body, rest, |preamble| + |w.marker|)
  {
    AtConcat(body, preamble + w.marker, rest, 0);
    AtConcat(body, preamble, w.marker, 0);
    FoundInPlace(body, 0, preamble, w.marker);
  }

  // ----- a part with no header line -----

  predicate LaidOutBare(w: Wire, body: seq<Byte>, start: nat, part: Part) {
    && At(body, w.crlf, start) && At(body, w.crlf, start + 2) && At(body, part.data, start + 4)
    && At(body, w.delimiter, start + 4 + |part.data|)
  }

  lemma BareIsLaidOut(w: Wire, body: seq<Byte>, start: nat, parts: seq<Part>, epilogue: seq<Byte>)
    requires Bytewise(w) && parts != [] && parts[0].headers == [] && At(body, EncodeRest(w, parts, epilogue), start)
    ensures LaidOutBare(w, body, start, parts[0])
  {
    var part := parts[0];
    AtConcat(body, w.crlf + (w.crlf + part.data) + w.delimiter, EncodeRest(w, parts[1..], epilogue), start);
    AtConcat(body, w.crlf + (w.crlf + part.data), w.delimiter, start);
    AtConcat(body, w.crlf, w.crlf + part.data, start);
    AtConcat(body, w.crlf, part.data, start + 2);
  }

  /** Where such a part was written no turn shows it: the search for the empty line looks past the only one there is. */
  lemma BareIsNotShown(w: Wire, body: seq<Byte>, start: nat, part: Part)
    requires Coherent(w) && Bytewise(w) && part.headers == [] && LaidOutBare(w, body, start, part)
    ensures var turn := TakeTurn(w, body, start);
            !(turn.Read? && Shows(body, turn.view, part))
  {
    var turn := TakeTurn(w, body, start);
    if turn.Read? && Shows(body, turn.view, part) {
      NextIsTooLate(w, body, start, part, turn.view.data.to);
    }
  }

  lemma NextIsTooLate(w: Wire, body: seq<Byte>, start: nat, part: Part, next: nat)
    requires Coherent(w) && Bytewise(w) && LaidOutBare(w, body, start, part)
    requires next == start + 6 + |part.data| && IndexOf(body, w.headerEnd, start + 2) == start + 2
    ensures IndexOf(body, w.delimiter, start + 6) != next
  {
    IndexOfIsFirst(body, w.headerEnd, start + 2, start + 2);
    IndexOfIsFirst(body, w.delimiter, start + 6, next);
    var written := start + 4 + |part.data|;
    assert body[written + 0] == CR && body[written + 2] == DASH;
    assert body[start + 2 + 3] == w.headerEnd[3] == LF;
  }

  lemma ShowsRest(w: Wire, body: seq<Byte>, start: nat, turn: Turn, parts: seq<Part>)
    requires Coherent(w) && parts != [] && turn == TakeTurn(w, body, start)
    requires ShowsAll(body, PartsFrom(w, body, start), parts)
    ensures turn.Read? && Shows(body, turn.view, parts[0])
    ensures ShowsAll(body, PartsFrom(w, body, turn.after), parts[1..])
  {
    assert turn.Read?;
    var views := PartsFrom(w, body, turn.after);
    assert PartsFrom(w, body, start) == [turn.view] + views;
    assert forall i :: 0 <= i < |views| ==> views[i] == PartsFrom(w, body, start)[i + 1];
  }

  lemma {:induction false} BareIsLost(w: Wire, body: seq<Byte>, start: nat, parts: seq<Part>, epilogue: seq<Byte>)
    requires Coherent(w) && Bytewise(w) && LeadsOnce(w.delimiter) && AllSendable(w, parts)
    requires At(body, EncodeRest(w, parts, epilogue), start)
    requires ShowsAll(body, PartsFrom(w, body, start), parts)
    ensures AllHaveHeaders(parts)
    decreases |parts|
  {
    if parts != [] {
      var turn := TakeTurn(w, body, start);
      ShowsRest(w, body, start, turn, parts);
      if parts[0].headers == [] {
        BareIsLaidOut(w, body, start, parts, epilogue);
        BareIsNotShown(w, body, start, parts[0]);
      } else {
        ReadsFirstPart(w, body, start, parts, epilogue);
        BareIsLost(w, body, turn.after, parts[1..], epilogue);
      }
    }
  }

  // ----- the round trip -----

  lemma ReadsFromFirst(w: Wire, body: seq<Byte>, start: nat, parts: seq<Part>, epilogue: seq<Byte>, views: seq<View>)
    requires Coherent(w) && Bytewise(w) && LeadsOnce(w.delimiter) && AllSendable(w, parts)
    requires At(body, EncodeRest(w, parts, epilogue), start) && views == PartsFrom(w, body, start)
    ensures ShowsAll(body, views, parts) <==> AllHaveHeaders(parts)
  {
    if AllHaveHeaders(parts) {
      ReadsAllParts(w, body, start, parts, epilogue);
    } else if ShowsAll(body, views, parts) {
      BareIsLost(w, body, start, parts, epilogue);
    }
  }

  lemma PartsBegin(w: Wire, body: seq<Byte>, first: nat)
    requires Coherent(w) && IndexOf(body, w.marker, 0) == first
    ensures Parts(w, body) == PartsFrom(w, body, first + |w.marker|)
  {
  }

  lemma ReadsFromMarker(w: Wire, body: seq<Byte>, first: nat, parts: seq<Part>, epilogue: seq<Byte>)
    requires Coherent(w) && Bytewise(w) && LeadsOnce(w.delimiter) && AllSendable(w, parts)
    requires IndexOf(body, w.marker, 0) == first && At(body, EncodeRest(w, parts, epilogue), first + |w.marker|)
    ensures ShowsAll(body, Parts(w, body), parts) <==> AllHaveHeaders(parts)
  {
    PartsBegin(w, body, first);
    ReadsFromFirst(w, body, first + |w.marker|, parts, epilogue, Parts(w, body));
  }

  lemma EncodedReadsBack(w: Wire, preamble: seq<Byte>, parts: seq<Part>, epilogue: seq<Byte>, body: seq<Byte>)
    requires Coherent(w) && Bytewise(w) && LeadsOnce(w.delimiter) && AllSendable(w, parts) && CleanPreamble(w, preamble)
    requires At(body, Encode(w, preamble, parts, epilogue), 0)
    ensures ShowsAll(body, Parts(w, body), parts) <==> AllHaveHeaders(parts)
  {
    FirstMarkerFound(w, preamble, EncodeRest(w, parts, epilogue), body);
    ReadsFromMarker(w, body, |preamble|, parts, epilogue);
  }

  /**
   For a boundary without CR, encoding and then parsing gives back every part's header block and
   data, in order, whatever precedes the first marker and follows the closing one: exactly when
   every part has a header line.
   */
  lemma RoundTripIff(boundary: seq<Byte>, preamble: seq<Byte>, parts: seq<Part>, epilogue: seq<Byte>)
    requires CR !in boundary
    requires AllSendable(WireOf(boundary), parts) && CleanPreamble(WireOf(boundary), preamble)
    ensures var body := Encode(WireOf(boundary), preamble, parts, epilogue);
            ShowsAll(body, Parts(WireOf(boundary), body), parts) <==> AllHaveHeaders(parts)
  {
    var w := WireOf(boundary);
    EncodedReadsBack(w, preamble, parts, epilogue, Encode(w, preamble, parts, epilogue));
  }
}
