/** Compression of the UDP header (section 4.3 of RFC 6282). */
module UdpNhc {
  import opened IphcDriver

  type UdpHeader = u: seq<bv8> | |u| == 8 witness seq(8, _ => 0)

  const UDP_DISPATCH: bv8 := 0xF0
  const BOTH: bv8 := 3
  const SOURCE_ONLY: bv8 := 2
  const DESTINATION_ONLY: bv8 := 1

  // ---------- Ports, as two octets ----------

  /** The port is 0xF0Bx. */
  predicate InF0B(hi: bv8, lo: bv8) {
    hi == 0xF0 && lo & 0xF0 == 0xB0
  }

  predicate InF0(hi: bv8) {
    hi == 0xF0
  }

  function Nibbles(s: bv8, d: bv8): bv8 {
    (s << 4) | (d & 0x0F)
  }

  /** The source port is rebuilt from the upper nibble, the destination port from the whole octet. */
  function SourceLow(b: bv8): bv8 {
    0xB0 | (b >> 4)
  }

  function DestinationLow(b: bv8): bv8 {
    0xB0 | b
  }

  function Compression(b: bv8): bv8 {
    b & 0x03
  }

  predicate ChecksumElided(b: bv8) {
    b & 0x04 != 0
  }

  predicate IsUdpDispatch(b: bv8) {
    b & 0xF8 == UDP_DISPATCH
  }

  function Dispatch(mode: bv8): bv8 {
    UDP_DISPATCH | mode
  }

  function Mode(u: UdpHeader): bv8 {
    if InF0B(u[0], u[1]) && InF0B(u[2], u[3]) then BOTH
    else if InF0(u[0]) then SOURCE_ONLY
    else if InF0(u[2]) then DESTINATION_ONLY
    else 0
  }

  function PortsCarried(u: UdpHeader): seq<bv8> {
    if Mode(u) == BOTH then [Nibbles(u[1], u[3])]
    else if Mode(u) == SOURCE_ONLY then [u[1], u[2], u[3]]
    else if Mode(u) == DESTINATION_ONLY then [u[0], u[1], u[3]]
    else u[..4]
  }

  /** What `compressor_nhc_udp` makes: the length is left out, the checksum is kept. */
  function UdpEncode(u: UdpHeader): (e: seq<bv8>)
    ensures 4 <= |e| <= 7
  {
    [Dispatch(Mode(u))] + PortsCarried(u) + u[6..]
  }

  function PortsUsed(mode: bv8): nat {
    if mode == BOTH then 2 else if mode == SOURCE_ONLY || mode == DESTINATION_ONLY then 4 else 5
  }

  function UdpUsed(b: bv8): nat {
    PortsUsed(Compression(b)) + if ChecksumElided(b) then 0 else 2
  }

  function PortsRebuilt(c: seq<bv8>): (p: seq<bv8>)
    requires |c| >= 1 && |c| >= UdpUsed(c[0])
    ensures |p| == 4
  {
    var mode := Compression(c[0]);
    if mode == BOTH then [0xF0, SourceLow(c[1]), 0xF0, DestinationLow(c[1])]
    else if mode == SOURCE_ONLY then [0xF0, c[1], c[2], c[3]]
    else if mode == DESTINATION_ONLY then [c[1], c[2], 0xF0, c[3]]
    else c[1..5]
  }

  function Octet(n: int): bv8 {
    (n % 256) as bv8
  }

  lemma {:induction false} SomeByte(m: nat) returns (b: bv8)
    requires m < 256
    ensures b as nat == m
  {
    if m == 0 {
      b := 0;
    } else {
      b := SomeByte(m - 1);
      b := b + 1;
    }
  }

  lemma ByteBack(b: bv8)
    ensures (b as nat) as bv8 == b
  {
  }

  lemma ByteValue(m: nat)
    requires m < 256
    ensures (m as bv8) as nat == m
  {
    var b := SomeByte(m);
    ByteBack(b);
  }

  lemma OctetValue(n: int)
    ensures Octet(n) as nat == n % 256
  {
    ByteValue(n % 256);
  }

  /** A 16-bit word in network order; longer values wrap around. */
  function Word(n: int): seq<bv8> {
    [Octet(n / 256), Octet(n)]
  }

  function ChecksumRebuilt(c: seq<bv8>): seq<bv8>
    requires |c| >= 1 && |c| >= UdpUsed(c[0])
  {
    var n := PortsUsed(Compression(c[0]));
    if ChecksumElided(c[0]) then [0, 0] else c[n..n + 2]
  }

  /** What `decompressor_nhc_udp` rebuilds, when `payload` octets follow the compressed header. */
  function UdpDecode(c: seq<bv8>, payload: int): UdpHeader
    requires |c| >= 1 && |c| >= UdpUsed(c[0])
  {
    PortsRebuilt(c) + Word(payload + 8) + ChecksumRebuilt(c)
  }

  // ---------- Round trip ----------

  /** Compressing, followed by anything, and decompressing takes exactly what was made and gives
      the ports and the checksum back, with the length that fits the payload. */
  ghost predicate UdpRoundTrips(u: UdpHeader, rest: seq<bv8>) {
    var c := UdpEncode(u) + rest;
    && |c| >= UdpUsed(c[0]) == |UdpEncode(u)|
    && UdpDecode(c, |c| - UdpUsed(c[0])) == u[..4] + Word(|rest| + 8) + u[6..]
  }

  /** Both ports are 0xF0Bx and bit 2 of the source port is set. */
  predicate Smeared(u: UdpHeader) {
    InF0B(u[0], u[1]) && InF0B(u[2], u[3]) && u[1] & 0x04 != 0
  }

  lemma DispatchSays(mode: bv8)
    requires mode <= 3
    ensures Compression(Dispatch(mode)) == mode && !ChecksumElided(Dispatch(mode)) && IsUdpDispatch(Dispatch(mode))
  {
  }

  lemma NibbleBits(s: bv8, d: bv8)
    requires s & 0xF0 == 0xB0 && d & 0xF0 == 0xB0
    ensures SourceLow(Nibbles(s, d)) == s
    ensures DestinationLow(Nibbles(s, d)) == d <==> s & 0x04 == 0
  {
  }

  lemma UsedIsMade(u: UdpHeader)
    ensures Compression(UdpEncode(u)[0]) == Mode(u) && !ChecksumElided(UdpEncode(u)[0])
    ensures |PortsCarried(u)| + 1 == PortsUsed(Mode(u)) && UdpUsed(UdpEncode(u)[0]) == |UdpEncode(u)|
  {
    hide Compression, Dispatch, ChecksumElided;
    DispatchSays(Mode(u));
  }

  lemma PortsIff(u: UdpHeader, rest: seq<bv8>)
    requires UdpUsed(UdpEncode(u)[0]) == |UdpEncode(u)|
    ensures PortsRebuilt(UdpEncode(u) + rest) == u[..4] <==> !Smeared(u)
  {
    hide Compression, Dispatch, ChecksumElided, Nibbles, SourceLow, DestinationLow, UdpUsed;
    UsedIsMade(u);
    var c := UdpEncode(u) + rest;
    if Mode(u) == BOTH {
      NibbleBits(u[1], u[3]);
      assert u[..4] == [u[0], u[1], u[2], u[3]];
      assert PortsRebuilt(c)[3] == DestinationLow(Nibbles(u[1], u[3]));
    } else if Mode(u) == 0 {
      assert c[1..5] == u[..4];
    } else {
      assert u[..4] == [u[0], u[1], u[2], u[3]];
    }
  }

  lemma ChecksumKept(u: UdpHeader, rest: seq<bv8>)
    requires UdpUsed(UdpEncode(u)[0]) == |UdpEncode(u)|
    ensures ChecksumRebuilt(UdpEncode(u) + rest) == u[6..]
  {
    hide Compression, Dispatch, ChecksumElided, PortsCarried;
    UsedIsMade(u);
  }

  lemma Parts(p: seq<bv8>, l: seq<bv8>, q: seq<bv8>, t: seq<bv8>)
    requires |p| == |q|
    ensures p + l + t == q + l + t <==> p == q
  {
    assert (p + l + t)[..|p|] == p && (q + l + t)[..|p|] == q;
  }

  /** Exactly which UDP headers come back. */
  lemma UdpRoundTripsIff(u: UdpHeader, rest: seq<bv8>)
    ensures UdpRoundTrips(u, rest) <==> !Smeared(u)
  {
    hide UdpUsed, UdpEncode, PortsRebuilt, ChecksumRebuilt, Word, Smeared;
    UsedIsMade(u);
    PortsIff(u, rest);
    ChecksumKept(u, rest);
    Parts(PortsRebuilt(UdpEncode(u) + rest), Word(|rest| + 8), u[..4], u[6..]);
  }

  /** The ports 0xF0B4 and 0xF0B0: the destination port comes back as 0xF0F0. */
  lemma SmearedExample(c0: bv8, c1: bv8, rest: seq<bv8>)
    ensures var u: UdpHeader := [0xF0, 0xB4, 0xF0, 0xB0, 0, 8, c0, c1];
            && !UdpRoundTrips(u, rest)
            && |UdpEncode(u) + rest| >= UdpUsed((UdpEncode(u) + rest)[0])
            && PortsRebuilt(UdpEncode(u) + rest) == [0xF0, 0xB4, 0xF0, 0xF0]
  {
    var u: UdpHeader := [0xF0, 0xB4, 0xF0, 0xB0, 0, 8, c0, c1];
    UdpRoundTripsIff(u, rest);
    UsedIsMade(u);
    assert Nibbles(0xB4, 0xB0) == 0x40 && SourceLow(0x40) == 0xB4 && DestinationLow(0x40) == 0xF0;
  }

  // ---------- On buffers ----------

  lemma WrittenAt(a: seq<bv8>, d: nat, v: seq<bv8>)
    requires d + |v| <= |a|
    ensures forall k | 0 <= k < |a| :: Written(a, d, v)[k] == if d <= k < d + |v| then v[k - d] else a[k]
  {
  }

  /** `buf_move` between two buffers, octet by octet. */
  method MoveIn(dst: array<bv8>, d: nat, src: array<bv8>, s: nat, len: nat)
    requires dst != src && d + len <= dst.Length && s + len <= src.Length
    modifies dst
    ensures forall k | 0 <= k < dst.Length ::
              dst[k] == if d <= k < d + len then src[s - d + k] else old(dst[k])
  {
    WrittenAt(dst[..], d, src[s..s + len]);
    BufMove(dst, d, src, s, len);
    forall k | 0 <= k < dst.Length
      ensures dst[k] == dst[..][k]
    {
    }
  }

  /** The dispatch octet and the ports. */
  method CompressPorts(hdr: array<bv8>, o: nat, buf: array<bv8>, ghost u: UdpHeader) returns (len: nat)
    requires o + 8 <= hdr.Length && hdr != buf && buf.Length == 8 && u == hdr[o..o + 8]
    modifies buf
    ensures 2 <= len <= 5 && buf[..len] == [Dispatch(Mode(u))] + PortsCarried(u)
  {
    hide Dispatch, Nibbles, InF0B, InF0;
    var s1, s2, d1, d2 := hdr[o], hdr[o + 1], hdr[o + 2], hdr[o + 3];
    assert u[0] == s1 && u[1] == s2 && u[2] == d1 && u[3] == d2;
    assert u[..4] == [s1, s2, d1, d2];
    buf[0] := Dispatch(0);
    if InF0B(s1, s2) && InF0B(d1, d2) {
      buf[0] := Dispatch(BOTH);
      buf[1] := Nibbles(s2, d2);
      len := 2;
    } else if InF0(s1) {
      buf[0] := Dispatch(SOURCE_ONLY);
      buf[1] := s2;
      MoveIn(buf, 2, hdr, o + 2, 2);
      len := 4;
    } else if InF0(d1) {
      buf[0] := Dispatch(DESTINATION_ONLY);
      buf[3] := d2;
      MoveIn(buf, 1, hdr, o, 2);
      len := 4;
    } else {
      MoveIn(buf, 1, hdr, o, 4);
      len := 5;
    }
  }

  /** `compressor_nhc_udp`. */
  method CompressorNhcUdp(hdr: array<bv8>, o: nat) returns (buf: array<bv8>, len: nat)
    requires o + 8 <= hdr.Length
    ensures fresh(buf) && len <= buf.Length && buf[..len] == UdpEncode(hdr[o..o + 8])
  {
    hide Dispatch, Mode, PortsCarried;
    ghost var u: UdpHeader := hdr[o..o + 8];
    buf := new bv8[8](_ => 0);
    len := CompressPorts(hdr, o, buf, u);
    ghost var ports := buf[..len];
    MoveIn(buf, len, hdr, o + 6, 2);
    len := len + 2;
    assert buf[..len] == ports + u[6..];
  }

  method DecompressPorts(c: array<bv8>, o: nat, hdr: array<bv8>) returns (len: nat)
    requires o < c.Length && o + UdpUsed(c[o]) <= c.Length && c != hdr && hdr.Length == 8
    modifies hdr
    ensures len == PortsUsed(Compression(c[o])) && hdr[..4] == PortsRebuilt(c[o..])
    ensures hdr[4..] == old(hdr[4..])
  {
    hide Compression, ChecksumElided, SourceLow, DestinationLow;
    var mode := Compression(c[o]);
    if mode == BOTH {
      hdr[0], hdr[1], hdr[2], hdr[3] := 0xF0, SourceLow(c[o + 1]), 0xF0, DestinationLow(c[o + 1]);
      len := 2;
    } else if mode == SOURCE_ONLY {
      hdr[2], hdr[3] := c[o + 2], c[o + 3];
      hdr[0], hdr[1] := 0xF0, c[o + 1];
      len := 4;
    } else if mode == DESTINATION_ONLY {
      hdr[0], hdr[1] := c[o + 1], c[o + 2];
      hdr[2], hdr[3] := 0xF0, c[o + 3];
      len := 4;
    } else {
      MoveIn(hdr, 0, c, o + 1, 4);
      assert hdr[..4] == c[o..][1..5];
      len := 5;
    }
  }

  /** The checksum, when it is carried. */
  method DecompressChecksum(c: array<bv8>, o: nat, hdr: array<bv8>) returns (len: nat)
    requires o < c.Length && o + UdpUsed(c[o]) <= c.Length && c != hdr && hdr.Length == 8 && hdr[6] == 0 == hdr[7]
    modifies hdr
    ensures len == UdpUsed(c[o]) && hdr[6..] == ChecksumRebuilt(c[o..]) && hdr[..4] == old(hdr[..4])
  {
    hide Compression, ChecksumElided, PortsUsed;
    ghost var t, ports := c[o..], hdr[..4];
    len := PortsUsed(Compression(c[o]));
    if !ChecksumElided(c[o]) {
      ghost var sum := c[o + len..o + len + 2];
      MoveIn(hdr, 6, c, o + len, 2);
      assert hdr[6..] == sum == t[len..len + 2];
      len := len + 2;
    }
    assert hdr[..4] == ports;
  }

  /** `decompressor_nhc_udp`, for a frame of `frameLength` octets of which `processed` precede
      the compressed header. */
  method DecompressorNhcUdp(c: array<bv8>, o: nat, frameLength: nat, processed: nat) returns (hdr: array<bv8>, len: nat)
    requires o < c.Length && o + UdpUsed(c[o]) <= c.Length
    ensures fresh(hdr) && len == UdpUsed(c[o])
    ensures hdr[..] == UdpDecode(c[o..], frameLength - (processed + len))
  {
    hide Compression, ChecksumElided, Octet, PortsRebuilt, PortsUsed, UdpUsed, ChecksumRebuilt;
    hdr := new bv8[8](_ => 0);
    len := DecompressPorts(c, o, hdr);
    assert hdr[4..][2] == hdr[6] && hdr[4..][3] == hdr[7];
    len := DecompressChecksum(c, o, hdr);
    ghost var ports, sum := hdr[..4], hdr[6..];
    var n := frameLength - (processed + len) + 8;
    hdr[4], hdr[5] := Octet(n / 256), Octet(n);
    assert hdr[..] == ports + [Octet(n / 256), Octet(n)] + sum;
  }
}
