/** The pacman database: sorted entries archived as `<pkgname>-<pkgver>/desc`, and what can be found in it again. */
module TarArchive {
  import opened Bytes
  import opened Options
  import opened Octal
  import opened Orders
  import opened TarStream
  import opened TarHeader
  import opened TarReader

  /** One package version; `desc` is its rendered description. */
  datatype Entry = Entry(pkgname: string, pkgver: string, arch: string, filename: string, desc: seq<Byte>)

  predicate IsAlnum(c: char) {
    'a' <= c <= 'z' || 'A' <= c <= 'Z' || '0' <= c <= '9'
  }

  predicate IsNameChar(c: char) {
    IsAlnum(c) || c == '@' || c == '.' || c == '_' || c == '+' || c == '-'
  }

  predicate IsVersionChar(c: char) {
    IsAlnum(c) || c == '.' || c == '_' || c == '+' || c == ':' || c == '~' || c == '-'
  }

  /** What publishing lets through. */
  predicate Validated(e: Entry) {
    && (forall i :: 0 <= i < |e.pkgname| ==> IsNameChar(e.pkgname[i]))
    && (forall i :: 0 <= i < |e.pkgver| ==> IsVersionChar(e.pkgver[i]))
  }

  predicate AllValidated(entries: seq<Entry>) {
    forall i :: 0 <= i < |entries| ==> Validated(entries[i])
  }

  predicate IsAscii(s: string) {
    forall i :: 0 <= i < |s| ==> s[i] < 128 as char
  }

  function Encode(s: string): (b: seq<Byte>)
    requires IsAscii(s)
    ensures |b| == |s| && forall i :: 0 <= i < |s| ==> b[i] as int == s[i] as int
  {
    seq(|s|, i requires 0 <= i < |s| => s[i] as Byte)
  }

  const DESC := "desc"

  function Stem(e: Entry): string {
    e.pkgname + "-" + e.pkgver
  }

  predicate IsStemChar(c: char) {
    IsNameChar(c) || IsVersionChar(c)
  }

  function Path(e: Entry): (path: seq<Byte>)
    requires Validated(e)
    ensures |path| == |e.pkgname| + |e.pkgver| + 6
  {
    Encode(Stem(e)) + [SLASH] + Encode(DESC)
  }

  function PathText(e: Entry): string {
    Stem(e) + "/" + DESC
  }

  lemma PathReads(e: Entry)
    requires Validated(e)
    ensures AllAscii(Path(e)) && Chars(Path(e)) == PathText(e)
    ensures AllAscii(Encode(DESC)) && Chars(Encode(DESC)) == DESC
  {
    var stem := Encode(Stem(e));
    assert forall i :: 0 <= i < |stem| ==> stem[i] as char == Stem(e)[i];
  }

  // ----- which paths a header can hold -----

  /** The only slash is the one before `desc`. */
  lemma OneSlash(e: Entry, i: int)
    requires Validated(e)
    ensures Fits(Path(e), i) <==> i == |Stem(e)| && i <= 155
    ensures NulFree(Path(e))
  {
    var path, n := Path(e), |Stem(e)|;
    assert path[n] == SLASH;
    forall k | 0 <= k < |path|
      ensures path[k] != 0 && (path[k] == SLASH <==> k == n)
    {
      if k < n {
        assert path[k] == Encode(Stem(e))[k] && IsStemChar(Stem(e)[k]);
      } else if k > n {
        assert path[k] == Encode(DESC)[k - n - 1];
      }
    }
  }

  /**
   A path is representable exactly when name and version have at most 154 characters together; it is
   stored whole up to 94, and above that the name field holds only `desc`.
   */
  lemma PathSplits(e: Entry)
    requires Validated(e)
    ensures Split(Path(e)).Some? <==> |e.pkgname| + |e.pkgver| <= 154
    ensures Split(Path(e)).Some? ==>
              Split(Path(e)).value.name == if |e.pkgname| + |e.pkgver| <= 94 then Path(e) else Encode(DESC)
  {
    forall i
      ensures Fits(Path(e), i) <==> i == |Stem(e)| && i <= 155
    {
      OneSlash(e, i);
    }
    SplitsAt(Path(e), |Stem(e)|);
    assert Path(e)[|Stem(e)| + 1..] == Encode(DESC);
  }

  lemma SplitsAt(path: seq<Byte>, n: nat)
    requires |path| == n + 5 && forall i :: Fits(path, i) <==> i == n && i <= 155
    ensures Split(path).Some? <==> n <= 155
    ensures Split(path).Some? ==> Split(path).value.name == if n <= 95 then path else path[n + 1..]
  {
    if n > 95 {
      assert Fits(path, n) <==> n <= 155;
      var fit := LastFit(path, |path| - 1);
      assert fit.Some? ==> Fits(path, fit.value);
    }
  }

  predicate Representable(e: Entry) {
    |e.pkgname| + |e.pkgver| <= 154
  }

  predicate AllRepresentable(entries: seq<Entry>) {
    forall i :: 0 <= i < |entries| ==> Representable(entries[i])
  }

  function PieceOf(e: Entry): Piece
    requires Validated(e) && Representable(e)
  {
    PathSplits(e);
    Piece(Chars(Split(Path(e)).value.name), Header(Split(Path(e)).value, |e.desc|), e.desc)
  }

  function Pieces(entries: seq<Entry>): (pieces: seq<Piece>)
    requires AllValidated(entries) && AllRepresentable(entries)
    ensures |pieces| == |entries|
  {
    seq(|entries|, i requires 0 <= i < |entries| => PieceOf(entries[i]))
  }

  // ----- the order of the entries -----

  function Then(a: int, b: int): int {
    if a != 0 then a else b
  }

  function CompareEntries(a: Entry, b: Entry): int {
    Then(CompareText(a.pkgname, b.pkgname),
    Then(CompareText(a.pkgver, b.pkgver),
    Then(CompareText(a.arch, b.arch), CompareText(a.filename, b.filename))))
  }

  ghost predicate FlipsAndChains(xy: int, yx: int, yz: int, xz: int) {
    Sign(xy) == -Sign(yx) && (xy <= 0 && yz <= 0 ==> xz <= 0) && (xy <= 0 && yz <= 0 && xz == 0 ==> xy == 0 && yz == 0)
  }

  lemma TextChains(a: string, b: string, c: string)
    ensures FlipsAndChains(CompareText(a, b), CompareText(b, a), CompareText(b, c), CompareText(a, c))
  {
    TextFlips(a, b);
    TextFlips(b, c);
    if CompareText(a, b) <= 0 && CompareText(b, c) <= 0 {
      TextTransitive(a, b, c);
      if CompareText(a, c) == 0 {
        assert a == c;
      }
    }
  }

  lemma EntriesChain(a: Entry, b: Entry, c: Entry)
    ensures FlipsAndChains(CompareEntries(a, b), CompareEntries(b, a), CompareEntries(b, c), CompareEntries(a, c))
  {
    TextChains(a.pkgname, b.pkgname, c.pkgname);
    TextChains(a.pkgver, b.pkgver, c.pkgver);
    TextChains(a.arch, b.arch, c.arch);
    TextChains(a.filename, b.filename, c.filename);
  }

  lemma EntriesTotalPreorder()
    ensures TotalPreorder(CompareEntries)
  {
    forall a, b
      ensures Sign(CompareEntries(a, b)) == -Sign(CompareEntries(b, a))
    {
      EntriesChain(a, b, a);
    }
    forall a, b, c | CompareEntries(a, b) <= 0 && CompareEntries(b, c) <= 0
      ensures CompareEntries(a, c) <= 0
    {
      EntriesChain(a, b, c);
    }
  }

  function SortedEntries(entries: seq<Entry>): seq<Entry> {
    StableSort(CompareEntries, entries)
  }

  lemma SortedHasSame(entries: seq<Entry>)
    ensures multiset(SortedEntries(entries)) == multiset(entries)
    ensures forall e :: e in SortedEntries(entries) <==> e in entries
  {
    EntriesTotalPreorder();
    SortSorts(CompareEntries, entries);
    SameItems(entries, SortedEntries(entries));
  }

  lemma SortedValidated(entries: seq<Entry>)
    requires AllValidated(entries)
    ensures AllValidated(SortedEntries(entries))
    ensures AllRepresentable(SortedEntries(entries)) <==> AllRepresentable(entries)
  {
    SortedHasSame(entries);
    var sorted := SortedEntries(entries);
    forall i | 0 <= i < |sorted|
      ensures Validated(sorted[i]) && (AllRepresentable(entries) ==> Representable(sorted[i]))
    {
      assert sorted[i] in entries;
    }
    if AllRepresentable(sorted) {
      forall i | 0 <= i < |entries|
        ensures Representable(entries[i])
      {
        assert entries[i] in sorted;
      }
    }
  }

  /** The archive of the sorted entries. */
  function Db(entries: seq<Entry>): seq<Byte>
    requires AllValidated(entries) && AllRepresentable(entries)
  {
    SortedValidated(entries);
    Stream(Pieces(SortedEntries(entries)))
  }

  /** The database does not depend on the order the entries come in, when no two share all four keys. */
  lemma DbForgetsOrder(entries: seq<Entry>, others: seq<Entry>)
    requires AllValidated(entries) && AllRepresentable(entries) && AllValidated(others) && AllRepresentable(others)
    requires multiset(entries) == multiset(others) && NoTies(CompareEntries, entries)
    ensures Db(entries) == Db(others)
  {
    EntriesTotalPreorder();
    SortForgetsOrder(CompareEntries, entries, others);
  }

  lemma DbLength(entries: seq<Entry>)
    requires AllValidated(entries) && AllRepresentable(entries)
    ensures |Db(entries)| % 512 == 0 && |Db(entries)| >= 1024
  {
    SortedValidated(entries);
    StreamLength(Pieces(SortedEntries(entries)));
  }

  // ----- building it -----

  function Flatten(chunks: seq<seq<Byte>>): seq<Byte> {
    if chunks == [] then [] else Flatten(chunks[..|chunks| - 1]) + chunks[|chunks| - 1]
  }

  lemma FlattenSnoc(chunks: seq<seq<Byte>>, chunk: seq<Byte>)
    ensures Flatten(chunks + [chunk]) == Flatten(chunks) + chunk
  {
    assert (chunks + [chunk])[..|chunks|] == chunks;
  }

  lemma {:induction false} FlattenGrows(chunks: seq<seq<Byte>>, k: nat)
    requires k <= |chunks|
    ensures |Flatten(chunks[..k])| <= |Flatten(chunks)|
    decreases |chunks| - k
  {
    if k < |chunks| {
      FlattenGrows(chunks, k + 1);
      assert chunks[..k + 1][..k] == chunks[..k];
    } else {
      assert chunks[..k] == chunks;
    }
  }

  method TotalLength(chunks: seq<seq<Byte>>) returns (total: nat)
    ensures total == |Flatten(chunks)|
  {
    total := 0;
    for k := 0 to |chunks|
      invariant total == |Flatten(chunks[..k])|
    {
      assert chunks[..k + 1][..k] == chunks[..k];
      total := total + |chunks[k]|;
    }
    assert chunks[..|chunks|] == chunks;
  }

  /** The copying loop: the chunks one after the other in a buffer of exactly their total length. */
  method CopyChunks(chunks: seq<seq<Byte>>) returns (tar: array<Byte>)
    ensures tar[..] == Flatten(chunks)
  {
    var total := TotalLength(chunks);
    tar := new Byte[total];
    var offset := 0;
    for k := 0 to |chunks|
      invariant offset == |Flatten(chunks[..k])| <= total == tar.Length
      invariant tar[..offset] == Flatten(chunks[..k])
    {
      assert chunks[..k + 1][..k] == chunks[..k];
      FlattenGrows(chunks, k + 1);
      Write(tar, chunks[k], offset);
      offset := offset + |chunks[k]|;
    }
    assert chunks[..|chunks|] == chunks;
    assert tar[..total] == tar[..];
  }

  /** Header, data and, unless it is empty, padding. */
  method PushPiece(chunks: seq<seq<Byte>>, header: seq<Byte>, desc: seq<Byte>, ghost piece: Piece)
    returns (grown: seq<seq<Byte>>)
    requires piece.header == header && piece.data == desc
    ensures Flatten(grown) == Flatten(chunks) + Block(piece)
  {
    FlattenSnoc(chunks, header);
    grown := chunks + [header];
    FlattenSnoc(grown, desc);
    grown := grown + [desc];
    Reassociate(Flatten(chunks), header, desc);
    var pad := PadTo512(|desc|);
    Reassociate(Flatten(chunks), header + desc, Zeros(pad));
    if pad > 0 {
      FlattenSnoc(grown, Zeros(pad));
      grown := grown + [Zeros(pad)];
    } else {
      assert Flatten(grown) + Zeros(0) == Flatten(grown);
    }
  }

  /** One turn of the building loop, or the header's refusal. */
  method PushEntry(chunks: seq<seq<Byte>>, entry: Entry) returns (r: Result<seq<seq<Byte>>>)
    requires Validated(entry)
    ensures r.Ok? <==> Representable(entry)
    ensures r.Ok? ==> Flatten(r.value) == Flatten(chunks) + Block(PieceOf(entry))
  {
    PathSplits(entry);
    var header := TarHeader.TarHeader(Path(entry), |entry.desc|);
    if header.Err? {
      return Err(header.error);
    }
    var grown := PushPiece(chunks, header.value, entry.desc, PieceOf(entry));
    return Ok(grown);
  }

  lemma DbIs(entries: seq<Entry>, body: seq<Byte>)
    requires AllValidated(entries) && AllRepresentable(entries)
    requires AllValidated(SortedEntries(entries)) && AllRepresentable(SortedEntries(entries))
    requires body == Body(Pieces(SortedEntries(entries)))
    ensures body + Zeros(1024) == Db(entries)
  {
    StreamIsBody(Pieces(SortedEntries(entries)));
  }

  /** `buildDbTar`: refused exactly when some name and version are together too long for a header. */
  method BuildDbTar(entries: seq<Entry>) returns (r: Result<seq<Byte>>)
    requires AllValidated(entries)
    ensures r.Ok? <==> AllRepresentable(entries)
    ensures r.Ok? ==> r.value == Db(entries)
  {
    SortedValidated(entries);
    var sorted := SortedEntries(entries);
    var chunks: seq<seq<Byte>> := [];
    for i := 0 to |sorted|
      invariant AllRepresentable(sorted[..i])
      invariant Flatten(chunks) == Body(Pieces(sorted[..i]))
    {
      var pushed := PushEntry(chunks, sorted[i]);
      if pushed.Err? {
        return Err(pushed.error);
      }
      PiecesSnoc(sorted, i);
      chunks := pushed.value;
    }
    assert sorted[..|sorted|] == sorted;
    DbIs(entries, Flatten(chunks));
    FlattenSnoc(chunks, Zeros(1024));
    var tar := CopyChunks(chunks + [Zeros(1024)]);
    return Ok(tar[..]);
  }

  lemma PiecesSnoc(entries: seq<Entry>, i: nat)
    requires i < |entries| && AllValidated(entries) && AllRepresentable(entries[..i]) && Representable(entries[i])
    ensures AllRepresentable(entries[..i + 1])
    ensures Body(Pieces(entries[..i + 1])) == Body(Pieces(entries[..i])) + Block(PieceOf(entries[i]))
  {
    assert entries[..i + 1] == entries[..i] + [entries[i]];
    var pieces := Pieces(entries[..i + 1]);
    assert pieces[..i] == Pieces(entries[..i]) && pieces[i] == PieceOf(entries[i]);
  }

  // ----- reading it -----

  predicate SmallEnough(entries: seq<Entry>) {
    forall i :: 0 <= i < |entries| ==> |entries[i].desc| < Pow8(11)
  }

  lemma PieceShown(decode: Decoder, e: Entry)
    requires Validated(e) && Representable(e) && |e.desc| < Pow8(11)
    ensures Shown(Reader(decode), PieceOf(e))
  {
    PathSplits(e);
    PathReads(e);
    OneSlash(e, 0);
    assert NulFree(Encode(DESC));
    HeaderSeen(decode, Split(Path(e)).value, |e.desc|);
  }

  /** Reading the database gives the first of its first 512 sorted entries that answers to a wanted name, or nothing. */
  lemma DbReadsFirstWanted(decode: Decoder, entries: seq<Entry>, wanted: seq<string>)
    requires AllValidated(entries) && AllRepresentable(entries) && SmallEnough(entries)
    ensures AllValidated(SortedEntries(entries)) && AllRepresentable(SortedEntries(entries))
    ensures Answers(Db(entries), Find(Reader(decode), Db(entries), wanted, 0, 0),
                    FirstWanted(Pieces(SortedEntries(entries)), wanted, MAX_TAR_ENTRIES))
  {
    SortedValidated(entries);
    SortedHasSame(entries);
    var sorted := SortedEntries(entries);
    var pieces := Pieces(sorted);
    forall i | 0 <= i < |pieces|
      ensures Shown(Reader(decode), pieces[i])
    {
      assert sorted[i] in entries;
      PieceShown(decode, sorted[i]);
    }
    FindsFirstWanted(Reader(decode), Stream(pieces), wanted, 0, 0, pieces);
  }

  // ----- looking entries up -----

  /** The description stored under a path. */
  function Lookup(decode: Decoder, entries: seq<Entry>, path: string): Option<Span>
    requires AllValidated(entries) && AllRepresentable(entries)
  {
    Find(Reader(decode), Db(entries), [path], 0, 0)
  }

  ghost predicate DistinctPaths(entries: seq<Entry>) {
    forall e, f :: e in entries && f in entries && e != f ==> PathText(e) != PathText(f)
  }

  /** Stored whole in the name field. */
  predicate IsShort(e: Entry) {
    |e.pkgname| + |e.pkgver| <= 94
  }

  lemma NotDesc(e: Entry)
    ensures PathText(e) != DESC
  {
    assert |PathText(e)| > |DESC|;
  }

  function StoredName(e: Entry): string {
    if IsShort(e) then PathText(e) else DESC
  }

  /** A look-up finds the description of an entry stored under that name, and fails exactly when there is none. */
  lemma LookupFinds(decode: Decoder, entries: seq<Entry>, name: string)
    requires AllValidated(entries) && AllRepresentable(entries) && SmallEnough(entries)
    requires |entries| <= MAX_TAR_ENTRIES
    ensures match Lookup(decode, entries, name)
            case None => forall e :: e in entries ==> StoredName(e) != name
            case Some(span) => exists e :: e in entries && StoredName(e) == name && Covers(Db(entries), span, e.desc)
  {
    DbReadsFirstWanted(decode, entries, [name]);
    SortedHasSame(entries);
    var sorted := SortedEntries(entries);
    assert |sorted| == |multiset(sorted)| == |entries|;
    FirstStored(sorted, name, MAX_TAR_ENTRIES);
  }

  lemma FirstStored(entries: seq<Entry>, name: string, budget: nat)
    requires AllValidated(entries) && AllRepresentable(entries) && |entries| <= budget
    ensures match FirstWanted(Pieces(entries), [name], budget)
            case None => forall e :: e in entries ==> StoredName(e) != name
            case Some(p) => exists e :: e in entries && StoredName(e) == name && p.data == e.desc
  {
    var pieces := Pieces(entries);
    FirstNamed(pieces, name, budget);
    PieceNames(entries);
    match FirstWanted(pieces, [name], budget)
    case None =>
      forall e | e in entries
        ensures StoredName(e) != name
      {
        var i :| 0 <= i < |entries| && entries[i] == e;
        assert pieces[i].name == StoredName(e);
      }
    case Some(p) =>
      var i :| 0 <= i < |pieces| && pieces[i] == p;
      assert entries[i] in entries;
  }

  lemma PieceNames(entries: seq<Entry>)
    requires AllValidated(entries) && AllRepresentable(entries)
    ensures forall i :: 0 <= i < |entries| ==>
                          && Pieces(entries)[i].data == entries[i].desc
                          && Pieces(entries)[i].name == StoredName(entries[i])
  {
    forall i | 0 <= i < |entries|
      ensures Pieces(entries)[i].name == StoredName(entries[i])
    {
      PathSplits(entries[i]);
      PathReads(entries[i]);
    }
  }

  lemma LongerPath(e: Entry, f: Entry)
    requires !IsShort(e)
    ensures StoredName(f) != PathText(e)
  {
    if IsShort(f) {
      assert |PathText(f)| < |PathText(e)|;
    } else {
      NotDesc(e);
    }
  }

  /**
   Round trip: with distinct paths, an entry's exact description is found under its path exactly when
   name and version are short enough to be stored whole; a longer one is not found there at all.
   */
  lemma EntryFoundIffShort(decode: Decoder, entries: seq<Entry>, e: Entry)
    requires AllValidated(entries) && AllRepresentable(entries) && SmallEnough(entries)
    requires |entries| <= MAX_TAR_ENTRIES && DistinctPaths(entries) && e in entries
    ensures IsShort(e) ==> Lookup(decode, entries, PathText(e)).Some? && Covers(Db(entries), Lookup(decode, entries, PathText(e)).value, e.desc)
    ensures !IsShort(e) ==> Lookup(decode, entries, PathText(e)).None?
  {
    LookupFinds(decode, entries, PathText(e));
    if IsShort(e) {
      assert StoredName(e) == PathText(e);
      var f :| f in entries && StoredName(f) == PathText(e) && Covers(Db(entries), Lookup(decode, entries, PathText(e)).value, f.desc);
      NotDesc(e);
      assert PathText(f) == PathText(e);
    } else {
      forall f | f in entries
        ensures StoredName(f) != PathText(e)
      {
        LongerPath(e, f);
      }
    }
  }

  /** A path no entry has is not found, except that the bare name `desc` finds some entry once one is too long. */
  lemma AbsentNotFound(decode: Decoder, entries: seq<Entry>, name: string)
    requires AllValidated(entries) && AllRepresentable(entries) && SmallEnough(entries)
    requires |entries| <= MAX_TAR_ENTRIES && forall e :: e in entries ==> PathText(e) != name
    ensures Lookup(decode, entries, name).None? <==> (name == DESC ==> forall e :: e in entries ==> IsShort(e))
  {
    LookupFinds(decode, entries, name);
  }
}
