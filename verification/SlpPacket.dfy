/** Compression of whole IPv6 packets, with or without a UDP header, for the 6LoWPAN layer. */
module SlpPacket {
  import opened Wrappers
  import opened Iphc
  import opened IphcHeader
  import opened UdpNhc
  import opened ExtNhc

  const UDP_SIZE: nat := 8
  const HEADER_SIZE: nat := 40

  /** Packets without extension headers whose transport header is complete. */
  predicate Simple(p: seq<bv8>) {
    && |p| >= HEADER_SIZE
    && if p[6] == UDP then |p| >= HEADER_SIZE + UDP_SIZE else !Compressible(p[6])
  }

  function HeadLength(p: seq<bv8>): (n: nat)
    requires Simple(p)
    ensures n <= |p|
  {
    if p[6] == UDP then HEADER_SIZE + UDP_SIZE else HEADER_SIZE
  }

  /** The compressed headers (`pico_iphc_compress`, without the payload). */
  function Head(p: seq<bv8>, ls: Link, ld: Link): Option<seq<bv8>>
    requires Simple(p)
  {
    match Encode(p[..40], ls, ld)
    case None => None
    case Some(e) => Some(if p[6] == UDP then e + UdpEncode(p[40..48]) else e)
  }

  function Compress(p: seq<bv8>, ls: Link, ld: Link): Option<seq<bv8>>
    requires Simple(p)
  {
    match Head(p, ls, ld)
    case None => None
    case Some(e) => Some(e + p[HeadLength(p)..])
  }

  /** How many headers may follow the IPv6 header: the decompressor has a table of eight chunks,
      of which the payload is one. */
  const MORE: nat := 6

  /** What decompression reads behind the IPv6 header is there, and there are not too many headers. */
  predicate Followable(t: seq<bv8>, left: nat)
    decreases |t|
  {
    && t != []
    && if IsUdpDispatch(t[0]) then left > 0 && |t| >= UdpUsed(t[0])
       else IsExtension(t[0]) ==> left > 0 && ExtReadable(t) && Followable(t[ExtUsed(t)..], left - 1)
  }

  function UnpackedSize(t: seq<bv8>, left: nat): int
    requires Followable(t, left)
    decreases |t|
  {
    if IsUdpDispatch(t[0]) then UDP_SIZE + |t| - UdpUsed(t[0])
    else if IsExtension(t[0]) then Aligned(ExtLength(t)) + UnpackedSize(t[ExtUsed(t)..], left - 1)
    else |t|
  }

  /** The headers that follow, rebuilt one after the other, and the payload. */
  function Unpacked(t: seq<bv8>, left: nat): (u: seq<bv8>)
    requires Followable(t, left)
    ensures |u| == UnpackedSize(t, left)
    decreases |t|
  {
    if IsUdpDispatch(t[0]) then UdpDecode(t, |t| - UdpUsed(t[0])) + t[UdpUsed(t[0])..]
    else if IsExtension(t[0]) then ExtRebuilt(t) + Unpacked(t[ExtUsed(t)..], left - 1)
    else t
  }

  /** What decompression reads is there. */
  predicate Decompressible(c: seq<bv8>) {
    Readable(c) && Followable(c[Taken(c)..], MORE)
  }

  /** `pico_ipv6_finalize`: the length, and the next header when it is missing. */
  function Finalize(d: seq<bv8>, nh: bv8): (f: seq<bv8>)
    requires |d| >= HEADER_SIZE
    ensures |f| == |d|
  {
    d[..4] + Word(|d| - HEADER_SIZE) + [if d[6] == 0 then nh else d[6]] + d[7..]
  }

  /** `pico_iphc_decompress`. */
  function Decompress(c: seq<bv8>, ls: Link, ld: Link): (d: Option<seq<bv8>>)
    requires Decompressible(c)
    ensures d.Some? ==> |d.value| >= HEADER_SIZE
  {
    match Decode(c, ls, ld)
    case None => None
    case Some(h) =>
      var t := c[Taken(c)..];
      Some(Finalize(h + Unpacked(t, MORE), NextOf(t[0])))
  }

  // ---------- Round trip ----------

  /** `p` with the length fields of its headers recomputed. */
  function Relengthed(p: seq<bv8>): (r: seq<bv8>)
    requires Simple(p)
    ensures |r| == |p|
  {
    var n := Word(|p| - HEADER_SIZE);
    if p[6] == UDP then p[..4] + n + p[6..44] + n + p[46..] else p[..4] + n + p[6..]
  }

  /** The headers survive, and the payload of a packet whose next header is carried in-line does
      not begin like a compressed header that the decompressor goes on to. */
  predicate Transparent(p: seq<bv8>, ls: Link, ld: Link)
    requires Simple(p)
  {
    && Faithful(p[..40], ls, ld)
    && if p[6] == UDP then !Smeared(p[40..48])
       else |p| > HEADER_SIZE && !IsUdpDispatch(p[40]) && !IsExtension(p[40])
  }

  /** The dispatch that `pico_6lowpan_decompress` and `pico_6lowpan_process_in` go by. */
  lemma Dispatched(p: seq<bv8>, ls: Link, ld: Link)
    requires Simple(p) && Head(p, ls, ld).Some?
    ensures var e := Head(p, ls, ld).value; |e| >= 2 && IsIphc(e[0]) && e[0] & 0x80 == 0
  {
    EncodeUnfolded(p[..40], ls, ld);
    FirstOf(p[..40]);
  }

  lemma NotBoth(b: bv8)
    ensures IsUdpDispatch(b) <==> NextOf(b) == UDP
    ensures !IsUdpDispatch(b) && !IsExtension(b) <==> NextOf(b) == 0
    ensures !(IsUdpDispatch(b) && IsExtension(b))
  {
  }

  lemma UdpDispatched(u: UdpHeader, rest: seq<bv8>)
    ensures var b := (UdpEncode(u) + rest)[0];
            IsUdpDispatch(b) && NextOf(b) == UDP
  {
    DispatchSays(Mode(u));
    NotBoth((UdpEncode(u) + rest)[0]);
  }

  lemma FinalizeBlank(h: Header, t: seq<bv8>, nh: bv8)
    requires if Compressible(h[6]) then nh == h[6] else true
    ensures |Blanked(h)| == 40
    ensures Finalize(Blanked(h) + t, nh) == h[..4] + Word(|t|) + h[6..] + t
  {
    hide Word;
    assert Compressible(0);
  }

  lemma HeaderSlices(p: seq<bv8>)
    requires |p| >= 40
    ensures p[..40][..4] == p[..4] && p[..40][6..] == p[6..40] && p[6..] == p[6..40] + p[40..]
  {
  }

  lemma UdpSlices(p: seq<bv8>)
    requires |p| >= 48
    ensures p[40..48][..4] == p[40..44] && p[40..48][6..] == p[46..48]
    ensures p[6..44] == p[6..40] + p[40..44] && p[46..] == p[46..48] + p[48..]
  {
  }

  lemma Regrouped(a: seq<bv8>, n: seq<bv8>, b: seq<bv8>, c: seq<bv8>, d: seq<bv8>, e: seq<bv8>)
    ensures a + n + (b + c) + n + (d + e) == a + n + b + (c + n + d + e)
  {
  }

  lemma RelengthedParts(p: seq<bv8>)
    requires Simple(p)
    ensures Relengthed(p) ==
            if p[6] == UDP then
              p[..40][..4] + Word(|p| - 40) + p[..40][6..] + (p[40..48][..4] + Word(|p| - 40) + p[40..48][6..] + p[48..])
            else p[..40][..4] + Word(|p| - 40) + p[..40][6..] + p[40..]
  {
    var n := Word(|p| - HEADER_SIZE);
    hide Word;
    HeaderSlices(p);
    if p[6] == UDP {
      UdpSlices(p);
      Regrouped(p[..4], n, p[6..40], p[40..44], p[46..48], p[48..]);
    } else {
      assert p[..4] + n + (p[6..40] + p[40..]) == p[..4] + n + p[6..40] + p[40..];
    }
  }

  /** What becomes of a compressed header that comes back, and what follows it. */
  lemma HeaderComesBack(h: Header, t: seq<bv8>, ls: Link, ld: Link)
    requires Faithful(h, ls, ld) && Followable(t, MORE)
    ensures Encode(h, ls, ld).Some?
    ensures var c := Encode(h, ls, ld).value + t;
            && Decompressible(c)
            && Decompress(c, ls, ld) == Some(Finalize(Blanked(h) + Unpacked(t, MORE), NextOf(t[0])))
  {
    hide Encode, Decode, Readable, Taken, Faithful, Followable, Unpacked, NextOf, Finalize, Blanked;
    RoundTripsIff(h, ls, ld, t);
    var e := Encode(h, ls, ld).value;
    assert (e + t)[|e|..] == t;
  }

  lemma UdpUnpacked(u: UdpHeader, rest: seq<bv8>)
    requires !Smeared(u)
    ensures var t := UdpEncode(u) + rest;
            && Followable(t, MORE) && NextOf(t[0]) == UDP
            && Unpacked(t, MORE) == u[..4] + Word(8 + |rest|) + u[6..] + rest
  {
    hide UdpEncode, UdpDecode, UdpUsed, Smeared, IsUdpDispatch, IsExtension, NextOf, Word;
    var t := UdpEncode(u) + rest;
    UdpRoundTripsIff(u, rest);
    UdpDispatched(u, rest);
    assert t[UdpUsed(t[0])..] == rest;
  }

  lemma UdpComesBack(h: Header, u: UdpHeader, rest: seq<bv8>, ls: Link, ld: Link)
    requires Faithful(h, ls, ld) && h[6] == UDP && !Smeared(u)
    ensures Encode(h, ls, ld).Some?
    ensures var c := Encode(h, ls, ld).value + (UdpEncode(u) + rest);
            var n := Word(8 + |rest|);
            && Decompressible(c)
            && Decompress(c, ls, ld) == Some(h[..4] + n + h[6..] + (u[..4] + n + u[6..] + rest))
  {
    hide Encode, Faithful, UdpEncode, Smeared, Finalize, Blanked, Octet, Decompress, Decompressible, Followable, Unpacked, NextOf;
    UdpUnpacked(u, rest);
    HeaderComesBack(h, UdpEncode(u) + rest, ls, ld);
    FinalizeBlank(h, u[..4] + Word(8 + |rest|) + u[6..] + rest, UDP);
  }

  lemma PlainComesBack(h: Header, t: seq<bv8>, ls: Link, ld: Link)
    requires Faithful(h, ls, ld) && !Compressible(h[6]) && t != [] && !IsUdpDispatch(t[0]) && !IsExtension(t[0])
    ensures Encode(h, ls, ld).Some?
    ensures var c := Encode(h, ls, ld).value + t;
            Decompressible(c) && Decompress(c, ls, ld) == Some(h[..4] + Word(|t|) + h[6..] + t)
  {
    hide Encode, Faithful, Finalize, Blanked, Word, Decompress, Decompressible, NextOf, IsUdpDispatch, IsExtension;
    NotBoth(t[0]);
    HeaderComesBack(h, t, ls, ld);
    FinalizeBlank(h, t, 0);
  }

  /** What follows the compressed header of a packet. */
  function Tail(p: seq<bv8>): seq<bv8>
    requires Simple(p)
  {
    if p[6] == UDP then UdpEncode(p[40..48]) + p[48..] else p[40..]
  }

  lemma CompressShape(p: seq<bv8>, ls: Link, ld: Link)
    requires Simple(p)
    ensures Compress(p, ls, ld).Some? <==> Encode(p[..40], ls, ld).Some?
    ensures Compress(p, ls, ld).Some? ==> Compress(p, ls, ld).value == Encode(p[..40], ls, ld).value + Tail(p)
  {
    hide Encode, UdpEncode;
    if p[6] == UDP && Encode(p[..40], ls, ld).Some? {
      var e, u := Encode(p[..40], ls, ld).value, UdpEncode(p[40..48]);
      assert e + u + p[48..] == e + (u + p[48..]);
    }
  }

  /** Compressing and decompressing gives the packet back, with its length fields recomputed. */
  lemma PacketRoundTrips(p: seq<bv8>, ls: Link, ld: Link)
    requires Simple(p) && Transparent(p, ls, ld)
    ensures var c := Compress(p, ls, ld);
            c.Some? && Decompressible(c.value) && Decompress(c.value, ls, ld) == Some(Relengthed(p))
  {
    hide Encode, Faithful, UdpEncode, Smeared, IsUdpDispatch, IsExtension, Relengthed, Word,
      Decompress, Decompressible, Compress;
    CompressShape(p, ls, ld);
    RelengthedParts(p);
    if p[6] == UDP {
      UdpComesBack(p[..40], p[40..48], p[48..], ls, ld);
    } else {
      PlainComesBack(p[..40], p[40..], ls, ld);
    }
  }

  /** How long what is decompressed becomes, from the compressed octets. */
  function DecompressedSize(c: seq<bv8>): int
    requires Decompressible(c)
  {
    HEADER_SIZE + UnpackedSize(c[Taken(c)..], MORE)
  }

  lemma UsedBounds(b: bv8)
    ensures 2 <= UdpUsed(b) <= 7
  {
    hide Compression, ChecksumElided;
  }

  lemma FinalizeKeeps(d: seq<bv8>, nh: bv8)
    requires |d| >= HEADER_SIZE
    ensures Finalize(d, nh)[..4] == d[..4] && Finalize(d, nh)[7..] == d[7..]
  {
    hide Word;
  }

  lemma HeaderAndBehind(h: Header, t: seq<bv8>, r: seq<bv8>)
    requires |r| == HEADER_SIZE + |t| && r[..4] == (h + t)[..4] && r[7..] == (h + t)[7..]
    ensures r[..4] == h[..4] && r[8..40] == h[8..]
    ensures |t| >= 4 ==> r[40..44] == t[..4]
  {
    forall i | 7 <= i < |r|
      ensures r[i] == (h + t)[i]
    {
      assert r[i] == r[7..][i - 7];
    }
  }

  lemma DecompressParts(c: seq<bv8>, ls: Link, ld: Link)
    requires Decompressible(c) && Decompress(c, ls, ld).Some?
    ensures |Decompress(c, ls, ld).value| == DecompressedSize(c)
    ensures Decode(c, ls, ld).Some?
    ensures var r, h, u := Decompress(c, ls, ld).value, Decode(c, ls, ld).value, Unpacked(c[Taken(c)..], MORE);
            && r[..4] == h[..4] && r[8..40] == h[8..]
            && (|u| >= 4 ==> |r| >= 44 && r[40..44] == u[..4])
  {
    hide Taken, Decode, Unpacked, UnpackedSize, NextOf, Finalize, IsUdpDispatch, IsExtension, ExtReadable, UdpUsed, ExtUsed;
    var h, t := Decode(c, ls, ld).value, c[Taken(c)..];
    FinalizeKeeps(h + Unpacked(t, MORE), NextOf(t[0]));
    HeaderAndBehind(h, Unpacked(t, MORE), Finalize(h + Unpacked(t, MORE), NextOf(t[0])));
  }

  lemma SameFrom(r: seq<bv8>, p: seq<bv8>, i: nat, j: nat)
    requires i <= j <= |r| && j <= |p| && forall k | i <= k < j :: r[k] == p[k]
    ensures r[i..j] == p[i..j]
  {
  }

  /** `p` with its octets 4 and 5 and all behind `m` replaced. */
  lemma Respliced(p: seq<bv8>, n: seq<bv8>, m: seq<bv8>, t: seq<bv8>, r: seq<bv8>)
    requires |n| == 2 && 34 <= |m| && 6 + |m| <= |p| && m == p[6..6 + |m|] && r == p[..4] + n + m + t
    ensures r[..4] == p[..40][..4] && r[8..40] == p[..40][8..]
    ensures |m| == 38 ==> r[40..44] == p[40..44]
    ensures 6 + |m| > 40 ==> r[40] == p[40]
  {
    forall i | 0 <= i < 4
      ensures r[i] == p[i]
    {
    }
    forall i | 6 <= i < 6 + |m|
      ensures r[i] == p[i]
    {
      assert r[i] == m[i - 6];
    }
    SameFrom(r, p, 0, 4);
    SameFrom(r, p, 8, 40);
    assert p[0..4] == p[..40][..4] && p[8..40] == p[..40][8..];
    if |m| == 38 {
      SameFrom(r, p, 40, 44);
    }
  }

  lemma RelengthedKeeps(p: seq<bv8>)
    requires Simple(p)
    ensures var r := Relengthed(p);
            && r[..4] == p[..40][..4] && r[8..40] == p[..40][8..]
            && (p[6] == UDP ==> r[40..44] == p[40..48][..4]) && (|p| > HEADER_SIZE ==> r[40] == p[40])
  {
    var r, n := Relengthed(p), Word(|p| - HEADER_SIZE);
    hide Word, Relengthed;
    if p[6] == UDP {
      Respliced(p, n, p[6..44], n + p[46..], r);
    } else {
      Respliced(p, n, p[6..], [], r);
    }
  }

  lemma PortsFirst(t: seq<bv8>)
    requires |t| >= 1 && |t| >= UdpUsed(t[0])
    ensures UdpDecode(t, |t| - UdpUsed(t[0]))[..4] == PortsRebuilt(t)
  {
    hide UdpUsed, PortsRebuilt, ChecksumRebuilt, Word;
  }

  /** The decompressor never puts a dispatch octet into a header that it rebuilds. */
  lemma NeverDispatch(b: bv8, next: bv8)
    requires IsExtension(b)
    ensures NextOf(next) != b
  {
  }

  /** What is found behind the header when it is no extension header. */
  lemma PlainSizes(t: seq<bv8>)
    requires Followable(t, MORE) && !IsExtension(t[0])
    ensures if IsUdpDispatch(t[0]) then |t| + 1 <= UnpackedSize(t, MORE) <= |t| + 6 else UnpackedSize(t, MORE) == |t|
  {
    hide UdpUsed, IsExtension, IsUdpDispatch;
    UsedBounds(t[0]);
  }

  lemma UnpackedFirst(t: seq<bv8>)
    requires Followable(t, MORE)
    ensures IsUdpDispatch(t[0]) ==> |Unpacked(t, MORE)| >= 4 && Unpacked(t, MORE)[..4] == UdpDecode(t, |t| - UdpUsed(t[0]))[..4]
    ensures !IsUdpDispatch(t[0]) && IsExtension(t[0]) ==>
              ExtReadable(t) && |Unpacked(t, MORE)| >= 4 && Unpacked(t, MORE)[..4][0] == NextOf(t[ExtUsed(t)])
  {
    hide UdpUsed, IsExtension, IsUdpDispatch, UdpDecode, NextOf, ExtUsed, ExtLength, ExtHead;
  }

  /** The decompressor takes eight or more octets of what follows the header, `tail` octets, for
      the header, and finds an extension header behind them. */
  predicate Misled(c: seq<bv8>, tail: nat)
    requires Decompressible(c)
  {
    Taken(c) + tail >= |c| + 8 && IsExtension(c[Taken(c)])
  }

  /** A header that is given back has come back, unless the decompressor was misled. */
  lemma HeaderOnlyIf(p: seq<bv8>, t: seq<bv8>, ls: Link, ld: Link)
    requires Simple(p) && Encode(p[..40], ls, ld).Some?
    requires t == if p[6] == UDP then UdpEncode(p[40..48]) + p[48..] else p[40..]
    requires var c := Encode(p[..40], ls, ld).value + t;
             && Decompressible(c) && !Misled(c, |t|)
             && Decompress(c, ls, ld) == Some(Relengthed(p))
    ensures Faithful(p[..40], ls, ld)
  {
    hide Encode, Faithful, UdpEncode, UdpUsed, IsUdpDispatch, IsExtension, Relengthed, Blanked, Word,
      Decompress, Taken, Decode, Unpacked, UnpackedSize, ExtReadable, ExtUsed;
    var h: Header := p[..40];
    var c := Encode(h, ls, ld).value + t;
    DecompressParts(c, ls, ld);
    RelengthedKeeps(p);
    if !IsExtension(c[Taken(c)]) {
      PlainSizes(c[Taken(c)..]);
    }
    HeaderMisses(h, ls, ld, t);
  }

  lemma PayloadOnlyIf(p: seq<bv8>, t: seq<bv8>, ls: Link, ld: Link)
    requires Simple(p) && Faithful(p[..40], ls, ld) && Encode(p[..40], ls, ld).Some?
    requires t == if p[6] == UDP then UdpEncode(p[40..48]) + p[48..] else p[40..]
    requires var c := Encode(p[..40], ls, ld).value + t;
             && Decompressible(c) && Decompress(c, ls, ld) == Some(Relengthed(p))
    ensures Transparent(p, ls, ld)
  {
    hide Encode, Faithful, UdpEncode, UdpUsed, Smeared, IsUdpDispatch, IsExtension, Relengthed, Blanked, Word,
      Decompress, Taken, Decode, UdpDecode, PortsRebuilt, Unpacked, UnpackedSize, NextOf, ExtUsed;
    var h: Header := p[..40];
    var e := Encode(h, ls, ld).value;
    var c := e + t;
    DecompressParts(c, ls, ld);
    RelengthedKeeps(p);
    RoundTripsIff(h, ls, ld, t);
    assert c[|e|..] == t;
    UnpackedFirst(t);
    if p[6] == UDP {
      var u: UdpHeader := p[40..48];
      UdpDispatched(u, p[48..]);
      UsedIsMade(u);
      PortsIff(u, p[48..]);
      PortsFirst(t);
      assert t[0] == UdpEncode(u)[0];
    } else if IsExtension(t[0]) {
      NotBoth(t[0]);
      NeverDispatch(t[0], t[ExtUsed(t)]);
    } else {
      PlainSizes(t);
    }
  }

  /** Exactly which packets come back from compression, where decompression reads what is there
      and is not misled. */
  lemma PacketRoundTripsIff(p: seq<bv8>, ls: Link, ld: Link)
    requires Simple(p)
    requires var c := Compress(p, ls, ld);
             c.Some? ==> Decompressible(c.value) && !Misled(c.value, |Tail(p)|)
    ensures var c := Compress(p, ls, ld);
            c.Some? && Decompress(c.value, ls, ld) == Some(Relengthed(p)) <==> Transparent(p, ls, ld)
  {
    hide Transparent, Compress, Decompress, Decompressible, Relengthed, Encode, UdpEncode, Faithful, Misled, Taken, Readable;
    var c := Compress(p, ls, ld);
    CompressShape(p, ls, ld);
    if Transparent(p, ls, ld) {
      PacketRoundTrips(p, ls, ld);
    } else if c.Some? && Decompress(c.value, ls, ld) == Some(Relengthed(p)) {
      HeaderOnlyIf(p, Tail(p), ls, ld);
      PayloadOnlyIf(p, Tail(p), ls, ld);
    }
  }

  /** It is never misled when the header comes back. */
  lemma NeverMisled(p: seq<bv8>, ls: Link, ld: Link)
    requires Simple(p) && Faithful(p[..40], ls, ld)
    ensures Compress(p, ls, ld).Some?
    ensures Decompressible(Compress(p, ls, ld).value) ==> !Misled(Compress(p, ls, ld).value, |Tail(p)|)
  {
    hide Compress, Decompressible, Encode, UdpEncode, Faithful, Taken, Readable;
    CompressShape(p, ls, ld);
    RoundTripsIff(p[..40], ls, ld, Tail(p));
  }

  lemma HopByHopLike(b: bv8)
    requires b == 0xE0 || b == 0xE1
    ensures !IsExtension(b) && !IsUdpDispatch(b)
  {
  }

  /** A payload like compressed hop-by-hop options, a TCP segment from port 0xE000 to 0xE1FF say,
      is left alone. */
  lemma HopByHopLikeComesBack(p: seq<bv8>, ls: Link, ld: Link)
    requires |p| > HEADER_SIZE && !Compressible(p[6]) && Faithful(p[..40], ls, ld) && (p[40] == 0xE0 || p[40] == 0xE1)
    ensures Compress(p, ls, ld).Some? && Decompressible(Compress(p, ls, ld).value)
    ensures Decompress(Compress(p, ls, ld).value, ls, ld) == Some(p[..4] + Word(|p| - HEADER_SIZE) + p[6..])
  {
    hide Compress, Decompress, Decompressible, Faithful, Word;
    HopByHopLike(p[40]);
    PacketRoundTrips(p, ls, ld);
  }

  /** In particular a packet whose length fields are right comes back unchanged. */
  lemma ConsistentPacketUnchanged(p: seq<bv8>, ls: Link, ld: Link)
    requires Simple(p) && Transparent(p, ls, ld)
    requires p[4..6] == Word(|p| - 40) && (p[6] == UDP ==> p[44..46] == Word(|p| - 40))
    ensures Compress(p, ls, ld).Some? && Decompressible(Compress(p, ls, ld).value)
    ensures Decompress(Compress(p, ls, ld).value, ls, ld) == Some(p)
  {
    hide Word, Transparent, Compress, Decompress, Decompressible;
    PacketRoundTrips(p, ls, ld);
    if p[6] == UDP {
      assert p == p[..4] + p[4..6] + p[6..44] + p[44..46] + p[46..];
    } else {
      assert p == p[..4] + p[4..6] + p[6..];
    }
  }
}
