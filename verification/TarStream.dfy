/**
 A tar stream as a row of members, and the walk that finds a member by its name in it, whatever the
 headers look like inside.
 */
module TarStream {
  import opened Bytes
  import opened Options

  const MAX_TAR_ENTRIES: nat := 512

  function Zeros(n: nat): (s: seq<Byte>)
    ensures |s| == n && forall i :: 0 <= i < n ==> s[i] == 0
  {
    seq(n, i => 0)
  }

  // ----- writing -----

  /** One member: the name its header shows, the header, the data. */
  datatype Piece = Piece(name: string, header: seq<Byte>, data: seq<Byte>)

  function PadTo512(size: nat): (pad: nat)
    ensures (size + pad) % 512 == 0 && pad < 512
  {
    (512 - size % 512) % 512
  }

  function Block(piece: Piece): seq<Byte> {
    piece.header + piece.data + Zeros(PadTo512(|piece.data|))
  }

  /** The members in order, each padded, and two zero blocks. */
  function Stream(pieces: seq<Piece>): seq<Byte> {
    if pieces == [] then Zeros(1024)
    else Block(pieces[0]) + Stream(pieces[1..])
  }

  predicate FullHeaders(pieces: seq<Piece>) {
    forall i :: 0 <= i < |pieces| ==> |pieces[i].header| == 512
  }

  lemma BlockLength(piece: Piece)
    requires |piece.header| == 512
    ensures |Block(piece)| % 512 == 0 && |Block(piece)| == 512 + RoundUp(|piece.data|)
  {
    assert |Block(piece)| == 512 + (|piece.data| + PadTo512(|piece.data|));
  }

  lemma {:induction false} StreamLength(pieces: seq<Piece>)
    requires FullHeaders(pieces)
    ensures |Stream(pieces)| % 512 == 0 && |Stream(pieces)| >= 1024
  {
    if pieces != [] {
      BlockLength(pieces[0]);
      assert FullHeaders(pieces[1..]);
      StreamLength(pieces[1..]);
      WholeBlocks(|Block(pieces[0])|, |Stream(pieces[1..])|);
      assert |Stream(pieces)| == |Block(pieces[0])| + |Stream(pieces[1..])|;
    } else {
      assert |Stream(pieces)| == 1024;
    }
  }

  lemma WholeBlocks(a: nat, b: nat)
    requires a % 512 == 0 && b % 512 == 0
    ensures (a + b) % 512 == 0
  {
  }

  /** The members without the closing blocks, which is how the writer grows the stream. */
  function Body(pieces: seq<Piece>): seq<Byte> {
    if pieces == [] then [] else Body(pieces[..|pieces| - 1]) + Block(pieces[|pieces| - 1])
  }

  lemma {:induction false} StreamFrom(front: seq<Piece>, back: seq<Piece>)
    ensures Stream(front + back) == Body(front) + Stream(back)
    decreases |front|
  {
    if front == [] {
      assert front + back == back;
    } else {
      var last := front[|front| - 1];
      var before := front[..|front| - 1];
      assert front + back == before + ([last] + back);
      StreamFrom(before, [last] + back);
      assert ([last] + back)[1..] == back;
      Reassociate(Body(before), Block(last), Stream(back));
    }
  }

  lemma Reassociate(a: seq<Byte>, b: seq<Byte>, c: seq<Byte>)
    ensures a + (b + c) == a + b + c
  {
  }

  /** The stream is its members followed by the two zero blocks. */
  lemma StreamIsBody(pieces: seq<Piece>)
    ensures Stream(pieces) == Body(pieces) + Zeros(1024)
  {
    StreamFrom(pieces, []);
    assert pieces + [] == pieces;
  }

  // ----- reading -----

  /** What a reader makes of one header: the end of the archive (or something unreadable), or a name and a size. */
  datatype Seen = End | Member(name: string, size: nat)

  function RoundUp(size: nat): (r: nat)
    ensures size <= r < size + 512 && r % 512 == 0
  {
    (size + 511) / 512 * 512
  }

  /** The bytes of the first member with a wanted name, from a place in the stream and so many members on. */
  function Find(see: seq<Byte> -> Seen, tar: seq<Byte>, wanted: seq<string>, offset: nat, scanned: nat): Option<Span>
    decreases |tar| - offset
  {
    if offset + 512 > |tar| || scanned >= MAX_TAR_ENTRIES then None
    else
      match see(tar[offset..offset + 512])
      case End => None
      case Member(name, size) =>
        var start := offset + 512;
        if start + size > |tar| then None
        else if name in wanted then Some(Span(start, start + size))
        else Find(see, tar, wanted, start + RoundUp(size), scanned + 1)
  }

  // ----- the walk on what was written -----

  ghost predicate Shown(see: seq<Byte> -> Seen, piece: Piece) {
    |piece.header| == 512 && see(piece.header) == Member(piece.name, |piece.data|)
  }

  /** The reader sees each header as it was meant, and a zero block as the end. */
  ghost predicate AllShown(see: seq<Byte> -> Seen, pieces: seq<Piece>) {
    see(Zeros(512)) == End && forall i :: 0 <= i < |pieces| ==> Shown(see, pieces[i])
  }

  /** The first of so many members that answers to a wanted name. */
  function FirstWanted(pieces: seq<Piece>, wanted: seq<string>, budget: nat): Option<Piece> {
    if pieces == [] || budget == 0 then None
    else if pieces[0].name in wanted then Some(pieces[0])
    else FirstWanted(pieces[1..], wanted, budget - 1)
  }

  ghost predicate Answers(tar: seq<Byte>, found: Option<Span>, piece: Option<Piece>) {
    match piece
    case None => found.None?
    case Some(p) => found.Some? && Covers(tar, found.value, p.data)
  }

  /** One member laid out at `offset`: header, data, and where the next begins. */
  lemma MemberLaidOut(tar: seq<Byte>, offset: nat, pieces: seq<Piece>)
    requires pieces != [] && |pieces[0].header| == 512 && At(tar, Stream(pieces), offset)
    ensures At(tar, pieces[0].header, offset) && At(tar, pieces[0].data, offset + 512)
    ensures At(tar, Stream(pieces[1..]), offset + 512 + RoundUp(|pieces[0].data|))
  {
    BlockLength(pieces[0]);
    AtConcat(tar, Block(pieces[0]), Stream(pieces[1..]), offset);
    BlockLaidOut(tar, offset, pieces[0]);
  }

  lemma BlockLaidOut(tar: seq<Byte>, offset: nat, piece: Piece)
    requires |piece.header| == 512 && At(tar, Block(piece), offset)
    ensures At(tar, piece.header, offset) && At(tar, piece.data, offset + 512)
  {
    AtConcat(tar, piece.header + piece.data, Zeros(PadTo512(|piece.data|)), offset);
    AtConcat(tar, piece.header, piece.data, offset);
  }

  lemma EndSeen(see: seq<Byte> -> Seen, tar: seq<Byte>, wanted: seq<string>, offset: nat, scanned: nat)
    requires see(Zeros(512)) == End && At(tar, Zeros(1024), offset)
    ensures Find(see, tar, wanted, offset, scanned).None?
  {
    assert Zeros(1024) == Zeros(512) + Zeros(512);
    AtConcat(tar, Zeros(512), Zeros(512), offset);
    AtSlice(tar, Zeros(512), offset);
  }

  lemma FindStep(see: seq<Byte> -> Seen, tar: seq<Byte>, wanted: seq<string>, offset: nat, scanned: nat, piece: Piece)
    requires Shown(see, piece) && scanned < MAX_TAR_ENTRIES
    requires At(tar, piece.header, offset) && At(tar, piece.data, offset + 512)
    ensures Find(see, tar, wanted, offset, scanned) ==
            if piece.name in wanted then Some(Span(offset + 512, offset + 512 + |piece.data|))
            else Find(see, tar, wanted, offset + 512 + RoundUp(|piece.data|), scanned + 1)
  {
    AtSlice(tar, piece.header, offset);
  }

  lemma {:induction false} FindsFirstWanted(
    see: seq<Byte> -> Seen, tar: seq<Byte>, wanted: seq<string>, offset: nat, scanned: nat, pieces: seq<Piece>)
    requires AllShown(see, pieces) && scanned <= MAX_TAR_ENTRIES && At(tar, Stream(pieces), offset)
    ensures Answers(tar, Find(see, tar, wanted, offset, scanned), FirstWanted(pieces, wanted, MAX_TAR_ENTRIES - scanned))
    decreases |pieces|
  {
    if pieces == [] {
      EndSeen(see, tar, wanted, offset, scanned);
    } else if scanned < MAX_TAR_ENTRIES {
      MemberLaidOut(tar, offset, pieces);
      FindStep(see, tar, wanted, offset, scanned, pieces[0]);
      if pieces[0].name !in wanted {
        FindsFirstWanted(see, tar, wanted, offset + 512 + RoundUp(|pieces[0].data|), scanned + 1, pieces[1..]);
      }
    }
  }

  // ----- looking up one name -----

  /** Within the budget a name finds a member that bears it, and fails exactly when none does. */
  lemma {:induction false} FirstNamed(pieces: seq<Piece>, name: string, budget: nat)
    requires |pieces| <= budget
    ensures match FirstWanted(pieces, [name], budget)
            case None => forall i :: 0 <= i < |pieces| ==> pieces[i].name != name
            case Some(p) => p.name == name && p in pieces
  {
    if pieces != [] && pieces[0].name != name {
      FirstNamed(pieces[1..], name, budget - 1);
      assert forall i :: 0 < i < |pieces| ==> pieces[i] == pieces[1..][i - 1];
    }
  }
}
