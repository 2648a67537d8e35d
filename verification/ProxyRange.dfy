/** Trusted-proxy ranges: prefix comparison of addresses, IPv4-mapped addresses, and what a written range means. */
module ProxyRange {
  import opened Bytes
  import opened Options
  import opened IpText
  import opened Powers

  datatype Family = V4 | V6

  /** An address: 4 bytes for IPv4, 16 for IPv6. */
  datatype Ip = Ip(family: Family, bytes: seq<Byte>)

  datatype Range = Range(family: Family, bytes: seq<Byte>, prefixBits: nat)

  function Width(family: Family): nat {
    if family.V4? then 4 else 16
  }

  predicate ValidIp(ip: Ip) {
    |ip.bytes| == Width(ip.family)
  }

  predicate ValidRange(range: Range) {
    |range.bytes| == Width(range.family) && range.prefixBits <= 8 * |range.bytes|
  }

  // ----- prefixes as integers -----

  /** The bytes as one integer, most significant first. */
  function Big(bytes: seq<Byte>): nat {
    if bytes == [] then 0 else bytes[0] as nat * Pow2(8 * (|bytes| - 1)) + Big(bytes[1..])
  }

  function ShiftRight(n: nat, k: nat): nat {
    if k == 0 then n else ShiftRight(n / 2, k - 1)
  }

  /** The integer made of the first `bits` bits. */
  function Top(bytes: seq<Byte>, bits: nat): nat
    requires bits <= 8 * |bytes|
  {
    ShiftRight(Big(bytes), 8 * |bytes| - bits)
  }

  /** A byte under a mask of its `bits` highest bits. */
  function Masked(b: Byte, bits: nat): nat
    requires bits <= 8
  {
    ShiftRight(b as nat, 8 - bits) * Pow2(8 - bits)
  }

  /** Byte by byte, the last one masked. */
  predicate Agree(a: seq<Byte>, b: seq<Byte>, bits: nat)
    requires |a| == |b| && bits <= 8 * |a|
    decreases bits
  {
    if bits == 0 then true
    else if bits >= 8 then a[0] == b[0] && Agree(a[1..], b[1..], bits - 8)
    else Masked(a[0], bits) == Masked(b[0], bits)
  }

  lemma {:induction false} PowAdd(m: nat, n: nat)
    ensures Pow2(m + n) == Pow2(m) * Pow2(n)
  {
    if m > 0 {
      PowAdd(m - 1, n);
    }
  }

  lemma {:induction false} BigBound(bytes: seq<Byte>)
    ensures Big(bytes) < Pow2(8 * |bytes|)
  {
    if bytes != [] {
      var w := Pow2(8 * (|bytes| - 1));
      BigBound(bytes[1..]);
      PowAdd(8, 8 * (|bytes| - 1));
      Scale(bytes[0] as nat, w);
    }
  }

  lemma Scale(d: nat, w: nat)
    requires d < 256
    ensures d * w + w <= 256 * w
  {
  }

  /** Shifting `x * 2^k + r`. */
  lemma {:induction false} ShiftSum(x: nat, k: nat, r: nat)
    ensures ShiftRight(x * Pow2(k) + r, k) == x + ShiftRight(r, k)
  {
    if k > 0 {
      assert x * Pow2(k) == 2 * (x * Pow2(k - 1));
      ShiftDouble(x * Pow2(k - 1), r, k);
      ShiftSum(x, k - 1, r / 2);
    }
  }

  lemma ShiftDouble(half: nat, r: nat, k: nat)
    requires k > 0
    ensures ShiftRight(2 * half + r, k) == ShiftRight(half + r / 2, k - 1)
    ensures ShiftRight(r, k) == ShiftRight(r / 2, k - 1)
  {
    assert (2 * half + r) / 2 == half + r / 2;
  }

  lemma {:induction false} ShiftBound(n: nat, k: nat, m: nat)
    requires n < m * Pow2(k)
    ensures ShiftRight(n, k) < m
  {
    if k > 0 {
      assert m * Pow2(k) == 2 * (m * Pow2(k - 1));
      ShiftBound(n / 2, k - 1, m);
    }
  }

  lemma {:induction false} ShiftTwice(n: nat, j: nat, k: nat)
    ensures ShiftRight(n, j + k) == ShiftRight(ShiftRight(n, j), k)
  {
    if j > 0 {
      ShiftTwice(n / 2, j - 1, k);
    }
  }

  lemma {:induction false} TimesGrows(m: nat, q: nat, d: nat)
    requires m <= q
    ensures m * d <= q * d
    decreases q
  {
    if m < q {
      TimesGrows(m, q - 1, d);
    }
  }

  /** With the first byte whole, the prefix is that byte followed by a prefix of the rest. */
  lemma TopOfByte(bytes: seq<Byte>, bits: nat)
    requires bytes != [] && 8 <= bits <= 8 * |bytes|
    ensures Top(bytes, bits) == bytes[0] as nat * Pow2(bits - 8) + Top(bytes[1..], bits - 8)
    ensures Top(bytes[1..], bits - 8) < Pow2(bits - 8)
  {
    var k, rest := 8 * |bytes| - bits, Big(bytes[1..]);
    PowAdd(bits - 8, k);
    BigBound(bytes[1..]);
    ShiftBound(rest, k, Pow2(bits - 8));
    Reorder(bytes[0] as nat, Pow2(bits - 8), Pow2(k));
    ShiftSum(bytes[0] as nat * Pow2(bits - 8), k, rest);
  }

  lemma Reorder(x: nat, m: nat, d: nat)
    ensures x * (m * d) == x * m * d
  {
  }

  /** With less than a byte, only the first byte counts. */
  lemma TopInByte(bytes: seq<Byte>, bits: nat)
    requires bytes != [] && bits <= 8
    ensures Top(bytes, bits) == ShiftRight(bytes[0] as nat, 8 - bits)
  {
    var low, rest := 8 * (|bytes| - 1), Big(bytes[1..]);
    BigBound(bytes[1..]);
    ShiftBound(rest, low, 1);
    ShiftSum(bytes[0] as nat, low, rest);
    ShiftTwice(Big(bytes), low, 8 - bits);
  }

  lemma PairInjective(x: nat, y: nat, m: nat, r: nat, s: nat)
    requires r < m && s < m && x * m + r == y * m + s
    ensures x == y && r == s
  {
    if x < y {
      TimesGrows(x + 1, y, m);
    } else if y < x {
      TimesGrows(y + 1, x, m);
    }
  }

  lemma NoBits(bytes: seq<Byte>)
    ensures Top(bytes, 0) == 0
  {
    BigBound(bytes);
    ShiftBound(Big(bytes), 8 * |bytes|, 1);
  }

  /** Comparing masked bytes is comparing the leading bits as integers. */
  lemma {:induction false} AgreeIffTop(a: seq<Byte>, b: seq<Byte>, bits: nat)
    requires |a| == |b| && bits <= 8 * |a|
    ensures Agree(a, b, bits) <==> Top(a, bits) == Top(b, bits)
    decreases bits
  {
    if bits == 0 {
      NoBits(a);
      NoBits(b);
    } else if bits >= 8 {
      AgreeIffTop(a[1..], b[1..], bits - 8);
      TopOfByte(a, bits);
      TopOfByte(b, bits);
      if Top(a, bits) == Top(b, bits) {
        PairInjective(a[0] as nat, b[0] as nat, Pow2(bits - 8), Top(a[1..], bits - 8), Top(b[1..], bits - 8));
      }
    } else {
      TopInByte(a, bits);
      TopInByte(b, bits);
      SameQuotient(ShiftRight(a[0] as nat, 8 - bits), ShiftRight(b[0] as nat, 8 - bits), Pow2(8 - bits));
    }
  }

  lemma SameQuotient(x: nat, y: nat, d: nat)
    requires d > 0
    ensures x * d == y * d <==> x == y
  {
    if x * d == y * d {
      PairInjective(x, y, d, 0, 0);
    }
  }

  // ----- containment -----

  predicate Contains(range: Range, ip: Ip)
    requires ValidRange(range) && ValidIp(ip)
  {
    range.family == ip.family && Agree(range.bytes, ip.bytes, range.prefixBits)
  }

  /** The loop of the source: an address is in a range when the leading bits, read as integers, are equal. */
  method RangeContains(range: Range, ip: Ip) returns (inside: bool)
    requires ValidRange(range) && ValidIp(ip)
    ensures inside <==> range.family == ip.family && Top(range.bytes, range.prefixBits) == Top(ip.bytes, range.prefixBits)
    ensures inside <==> Contains(range, ip)
  {
    if range.family != ip.family {
      return false;
    }
    AgreeIffTop(range.bytes, ip.bytes, range.prefixBits);
    var i, bits: int := 0, range.prefixBits;
    while bits > 0
      invariant 0 <= i <= |range.bytes| && bits <= 8 * (|range.bytes| - i)
      invariant Agree(range.bytes, ip.bytes, range.prefixBits) <==>
                bits <= 0 || Agree(range.bytes[i..], ip.bytes[i..], bits)
    {
      var kept := if bits >= 8 then 8 else bits;
      if Masked(ip.bytes[i], kept) != Masked(range.bytes[i], kept) {
        return false;
      }
      assert range.bytes[i..][1..] == range.bytes[i + 1..] && ip.bytes[i..][1..] == ip.bytes[i + 1..];
      i, bits := i + 1, bits - 8;
    }
    return true;
  }

  // ----- IPv4-mapped addresses -----

  predicate IsMapped(bytes: seq<Byte>)
    requires |bytes| == 16
  {
    bytes[..12] == MappedBytes([])
  }

  function NormalizeMapped(ip: Ip): (n: Ip)
    requires ValidIp(ip)
    ensures ValidIp(n)
  {
    if ip.family.V6? && IsMapped(ip.bytes) then Ip(V4, ip.bytes[12..]) else ip
  }

  /** The sixteen bytes of any address. */
  function Embed(ip: Ip): (bytes: seq<Byte>)
    requires ValidIp(ip)
    ensures |bytes| == 16
  {
    if ip.family.V4? then MappedBytes(ip.bytes) else ip.bytes
  }

  /** Normalising changes the spelling, never the address. */
  lemma NormalizeKeepsAddress(ip: Ip)
    requires ValidIp(ip)
    ensures Embed(NormalizeMapped(ip)) == Embed(ip)
    ensures NormalizeMapped(ip).family.V4? <==> IsMapped(Embed(ip))
  {
  }

  lemma {:induction false} AgreeAfter(front: seq<Byte>, a: seq<Byte>, b: seq<Byte>, bits: nat)
    requires |a| == |b| && bits <= 8 * |a|
    ensures Agree(front + a, front + b, 8 * |front| + bits) <==> Agree(a, b, bits)
    decreases |front|
  {
    if front == [] {
      assert front + a == a && front + b == b;
    } else {
      assert (front + a)[1..] == front[1..] + a && (front + b)[1..] == front[1..] + b;
      AgreeAfter(front[1..], a, b, bits);
    }
  }

  lemma {:induction false} AgreeMeansEqual(a: seq<Byte>, b: seq<Byte>, n: nat, bits: nat)
    requires |a| == |b| && bits <= 8 * |a| && 8 * n <= bits && Agree(a, b, bits)
    ensures a[..n] == b[..n]
    decreases n
  {
    if n > 0 {
      AgreeMeansEqual(a[1..], b[1..], n - 1, bits - 8);
      assert a[..n] == [a[0]] + a[1..][..n - 1] && b[..n] == [b[0]] + b[1..][..n - 1];
    }
  }

  // ----- written ranges -----

  /** A parsed address with the prefix written after it, if one was. */
  function CompileRange(base: Ip, prefix: Option<nat>): (range: Option<Range>)
    requires ValidIp(base)
    ensures range.Some? ==> ValidRange(range.value)
  {
    match prefix
    case None =>
      var ip := NormalizeMapped(base);
      Some(Range(ip.family, ip.bytes, 8 * Width(ip.family)))
    case Some(bits) =>
      if bits > 8 * Width(base.family) then None
      else
        var ip := NormalizeMapped(base);
        if ip.family.V4? && bits >= 96 then
          if bits - 96 > 32 then None else Some(Range(V4, ip.bytes, bits - 96))
        else Some(Range(base.family, base.bytes, bits))
  }

  /** The same prefix counted on the sixteen-byte form. */
  function EmbeddedBits(base: Ip, prefix: Option<nat>): nat {
    match prefix
    case None => 128
    case Some(bits) => if base.family.V4? then 96 + bits else bits
  }

  lemma MappedSplits(bytes: seq<Byte>)
    requires |bytes| == 16 && IsMapped(bytes)
    ensures bytes == MappedBytes([]) + bytes[12..] && MappedBytes(bytes[12..]) == bytes
  {
    assert bytes == bytes[..12] + bytes[12..];
  }

  /** For two mapped addresses a prefix from 96 bits on is a prefix of the IPv4 addresses. */
  lemma MappedAgree(a: seq<Byte>, b: seq<Byte>, bits: nat)
    requires |a| == 16 && |b| == 16 && IsMapped(a) && IsMapped(b) && 96 <= bits <= 128
    ensures Agree(a, b, bits) <==> Agree(a[12..], b[12..], bits - 96)
  {
    MappedSplits(a);
    MappedSplits(b);
    AgreeAfter(MappedBytes([]), a[12..], b[12..], bits - 96);
  }

  /** A prefix that long is shared only with other mapped addresses. */
  lemma MappedOnly(a: seq<Byte>, b: seq<Byte>, bits: nat)
    requires |a| == 16 && |b| == 16 && IsMapped(a) && 96 <= bits <= 128 && Agree(a, b, bits)
    ensures IsMapped(b)
  {
    AgreeMeansEqual(a, b, 12, bits);
  }

  /** Ranges kept as IPv4: the base is mapped and the prefix covers the whole mapping. */
  lemma FourByteRange(base: seq<Byte>, bits: nat, ip: Ip)
    requires |base| == 16 && IsMapped(base) && 96 <= bits <= 128 && ValidIp(ip)
    ensures Contains(Range(V4, base[12..], bits - 96), NormalizeMapped(ip)) <==> Top(base, bits) == Top(Embed(ip), bits)
  {
    NormalizeKeepsAddress(ip);
    AgreeIffTop(base, Embed(ip), bits);
    if IsMapped(Embed(ip)) {
      MappedAgree(base, Embed(ip), bits);
      assert NormalizeMapped(ip).bytes == Embed(ip)[12..];
    } else if Agree(base, Embed(ip), bits) {
      MappedOnly(base, Embed(ip), bits);
    }
  }

  /**
   What a written range means, whatever the spelling of range and address: agreement of the leading
   bits of the sixteen-byte forms. One family is lost: a mapped address never matches a range whose
   base is not mapped or whose prefix is shorter than the mapping, `::/0` for one.
   */
  lemma CompiledRangeMeans(base: Ip, prefix: Option<nat>, ip: Ip)
    requires ValidIp(base) && ValidIp(ip) && CompileRange(base, prefix).Some?
    ensures EmbeddedBits(base, prefix) <= 128
    ensures Contains(CompileRange(base, prefix).value, NormalizeMapped(ip)) <==>
            && Top(Embed(base), EmbeddedBits(base, prefix)) == Top(Embed(ip), EmbeddedBits(base, prefix))
            && (IsMapped(Embed(ip)) ==> IsMapped(Embed(base)) && EmbeddedBits(base, prefix) >= 96)
  {
    var bits := EmbeddedBits(base, prefix);
    var range := CompileRange(base, prefix).value;
    NormalizeKeepsAddress(base);
    NormalizeKeepsAddress(ip);
    if IsMapped(Embed(base)) && bits >= 96 {
      assert range.bytes == Embed(base)[12..] && range == Range(V4, Embed(base)[12..], bits - 96);
      FourByteRange(Embed(base), bits, ip);
    } else {
      assert range == Range(V6, base.bytes, bits);
      AgreeIffTop(base.bytes, Embed(ip), bits);
    }
  }

  /** A range written in mapped form is the IPv4 range written in dotted form. */
  lemma MappedSpellingIsIpv4(v4: seq<Byte>, k: nat)
    requires |v4| == 4 && k <= 32
    ensures CompileRange(Ip(V6, MappedBytes(v4)), Some(96 + k)) == CompileRange(Ip(V4, v4), Some(k)) == Some(Range(V4, v4, k))
  {
    assert MappedBytes(v4)[..12] == MappedBytes([]) && MappedBytes(v4)[12..] == v4;
  }
}
