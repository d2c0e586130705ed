/** Compression of the IPv6 extension headers (section 4.2 of RFC 6282). */
module ExtNhc {
  import opened IphcHeader
  import opened IphcDriver
  import opened UdpNhc

  const HOPBYHOP: bv8 := 0
  const ROUTING: bv8 := 43
  const FRAG: bv8 := 44
  const DESTOPT: bv8 := 60

  // ---------- Dispatch octets ----------

  function Eid(b: bv8): bv8 {
    b & 0x0E
  }

  predicate InExtRange(b: bv8) {
    b & 0xF0 == 0xE0
  }

  /** Bit 2, which tells the decompressor that the next header is not carried. */
  predicate NextLeftOut(b: bv8) {
    b & 0x04 != 0
  }

  /** The next header that a dispatch octet announces (`ext_nh_retrieve`). Nothing and the
      hop-by-hop options are both zero. */
  function NextOf(b: bv8): (nh: bv8)
    ensures nh == 0 || nh == ROUTING || nh == FRAG || nh == DESTOPT || nh == UDP
  {
    if InExtRange(b) then
      if Eid(b) == 2 then ROUTING else if Eid(b) == 4 then FRAG else if Eid(b) == 6 then DESTOPT else 0
    else if IsUdpDispatch(b) then UDP
    else 0
  }

  /** An extension header that the decompressor goes on to: never hop-by-hop options. */
  predicate IsExtension(b: bv8) {
    NextOf(b) != 0 && NextOf(b) != UDP
  }

  function ExtDispatch(eid: bv8, flag: bool): bv8 {
    0xE0 | eid | (if flag then 1 else 0)
  }

  function EidOf(nh: bv8): bv8 {
    if nh == ROUTING then 2 else if nh == FRAG then 4 else if nh == DESTOPT then 6 else 0
  }

  lemma DispatchBits(eid: bv8, flag: bool)
    requires eid == 0 || eid == 2 || eid == 4 || eid == 6
    ensures var b := ExtDispatch(eid, flag);
            && InExtRange(b) && Eid(b) == eid && (NextLeftOut(b) <==> eid == 4 || eid == 6)
  {
  }

  lemma LeftOutBy(b: bv8)
    ensures Eid(b) == 2 ==> !NextLeftOut(b)
    ensures Eid(b) == 4 || Eid(b) == 6 ==> NextLeftOut(b)
    ensures InExtRange(b) ==> !IsUdpDispatch(b)
  {
  }

  // ---------- Compression ----------

  /** The octets of an extension header, from its kind and its length field (`ext_hdr_len`). */
  function ExtSize(nh: bv8, length: bv8): nat {
    if nh == FRAG then 8 else 8 * (length as nat + 1)
  }

  /** An extension header of kind `nh` with all its octets. */
  predicate IsExt(nh: bv8, x: seq<bv8>) {
    && (nh == HOPBYHOP || nh == ROUTING || nh == FRAG || nh == DESTOPT)
    && |x| >= 8 && |x| == ExtSize(nh, x[1])
  }

  /** The header as compression leaves it in the frame: the length counts octets. */
  function Recounted(nh: bv8, x: seq<bv8>): (y: seq<bv8>)
    requires IsExt(nh, x)
    ensures |y| == |x|
  {
    if nh == FRAG then x else x[1 := Octet(|x| - 2)]
  }

  /** What `compressor_nhc_ext` makes: the next header is left out when it is compressed itself. */
  function ExtEncode(nh: bv8, x: seq<bv8>): (e: seq<bv8>)
    requires IsExt(nh, x)
    ensures |e| == if Compressible(x[0]) then |x| else |x| + 1
  {
    var y := Recounted(nh, x);
    [ExtDispatch(EidOf(nh), Compressible(x[0]))] + if Compressible(x[0]) then y[1..] else y
  }

  // ---------- Decompression ----------

  /** The octets of the header that is rebuilt, before it is padded (`ext_compressed_length`). */
  function ExtLength(t: seq<bv8>): (n: nat)
    requires |t| >= 3
    ensures n >= 2
  {
    if Eid(t[0]) == 4 then 8
    else if NextLeftOut(t[0]) then 2 + t[1] as nat
    else 2 + t[2] as nat
  }

  /** The octets that stand before the data and are not counted. */
  function ExtHead(t: seq<bv8>): nat
    requires |t| >= 3
  {
    if Eid(t[0]) != 4 && NextLeftOut(t[0]) then 1 else 0
  }

  function ExtUsed(t: seq<bv8>): (n: nat)
    requires |t| >= 3
    ensures n >= 2
  {
    if Eid(t[0]) == 4 then 8 else ExtLength(t) + 1 - ExtHead(t)
  }

  /** What decompression reads is there, and the octet behind it. */
  predicate ExtReadable(t: seq<bv8>) {
    |t| >= 3 && |t| > ExtUsed(t)
  }

  function Aligned(n: nat): (a: nat)
    ensures n <= a < n + 8 && a % 8 == 0
  {
    if n % 8 == 0 then n else (n / 8 + 1) * 8
  }

  /** Pad1 or PadN (`ext_align`). */
  function Padding(n: nat): (s: seq<bv8>)
    requires n < 8
    ensures |s| == n
  {
    if n == 0 then [] else if n == 1 then [0] else [1, Octet(n - 2)] + seq(n - 2, _ => 0)
  }

  /** What `decompressor_nhc_ext` rebuilds. Its next header comes from the octet that follows. */
  function ExtRebuilt(t: seq<bv8>): (x: seq<bv8>)
    requires ExtReadable(t)
    ensures |x| == Aligned(ExtLength(t)) && |x| >= 8
  {
    var n, h := ExtLength(t), ExtHead(t);
    [NextOf(t[ExtUsed(t)]), Octet(Aligned(n) / 8 - 1)] + t[3 - h..1 + n - h] + Padding(Aligned(n) - n)
  }

  lemma DispatchNext(nh: bv8, b: bv8)
    requires (nh == ROUTING || nh == FRAG || nh == DESTOPT) && InExtRange(b) && Eid(b) == EidOf(nh)
    ensures NextOf(b) == nh && IsExtension(b)
  {
  }

  // ---------- Round trip ----------

  /** Compressing, followed by anything, and decompressing takes exactly what was made and gives
      the header back. */
  ghost predicate ExtRoundTrips(nh: bv8, x: seq<bv8>, rest: seq<bv8>)
    requires IsExt(nh, x) && rest != []
  {
    var e := ExtEncode(nh, x);
    && IsExtension((e + rest)[0])
    && ExtReadable(e + rest) && ExtUsed(e + rest) == |e| && ExtRebuilt(e + rest) == x
  }

  /** Destination options whose next header is compressed and follows, if they have at most 256
      octets. */
  predicate OptionsSurvive(nh: bv8, x: seq<bv8>, next: bv8)
    requires IsExt(nh, x)
  {
    nh == DESTOPT && Compressible(x[0]) && |x| <= 256 && NextOf(next) == x[0]
  }

  /** A fragment header is rebuilt one octet too far on: all that is carried must be one octet,
      the one that follows. */
  predicate FragSurvives(nh: bv8, x: seq<bv8>, next: bv8)
    requires IsExt(nh, x)
  {
    && nh == FRAG && Compressible(x[0]) && NextOf(next) == x[0] && x[1] == 0
    && x[2] == next && x[3] == next && x[4] == next && x[5] == next && x[6] == next && x[7] == next
  }

  lemma NextCompressible(b: bv8)
    ensures Compressible(NextOf(b))
  {
  }

  /** The octets of a compressed header, and what stands behind it. */
  lemma EncodedAt(nh: bv8, x: seq<bv8>, rest: seq<bv8>)
    requires IsExt(nh, x) && rest != []
    ensures var e := ExtEncode(nh, x);
            var t := e + rest;
            && t[|e|] == rest[0] && InExtRange(t[0]) && Eid(t[0]) == EidOf(nh)
            && (NextLeftOut(t[0]) <==> nh == FRAG || nh == DESTOPT)
            && t[1..|e|] == if Compressible(x[0]) then Recounted(nh, x)[1..] else Recounted(nh, x)
  {
    hide Eid, InExtRange, NextLeftOut, ExtDispatch, Recounted, Compressible, ExtSize;
    DispatchBits(EidOf(nh), Compressible(x[0]));
  }

  lemma {:induction false} AllEqual(x: seq<bv8>, i: nat, j: nat)
    requires i <= j < |x| && forall k | i <= k < j :: x[k] == x[k + 1]
    ensures x[i] == x[j]
  {
    if i < j {
      AllEqual(x, i, j - 1);
    }
  }

  lemma OctetBack(b: bv8)
    ensures Octet(b as nat) == b
  {
    ByteBack(b);
  }

  lemma Eighths(v: nat, n: nat)
    requires n == 8 * (v + 1)
    ensures n / 8 - 1 == v && n % 8 == 0 && Aligned(n) == n
  {
  }

  lemma SizeField(nh: bv8, x: seq<bv8>)
    requires IsExt(nh, x) && nh != FRAG
    ensures x[1] == Octet(|x| / 8 - 1) && |x| % 8 == 0 && Aligned(|x|) == |x|
    ensures Octet(|x| - 2) as nat == (|x| - 2) % 256
  {
    hide Octet, Aligned;
    OctetValue(|x| - 2);
    OctetBack(x[1]);
    Eighths(x[1] as nat, |x|);
  }

  lemma JustBelow(n: nat)
    requires n >= 8 && n % 8 == 0
    ensures Aligned(n - 1) == n
  {
  }

  lemma RoutingAt(x: seq<bv8>, rest: seq<bv8>)
    requires IsExt(ROUTING, x) && rest != [] && Compressible(x[0])
    ensures var t := ExtEncode(ROUTING, x) + rest;
            && t[2..|x|] == x[2..] && ExtHead(t) == 0
            && ExtLength(t) == 2 + x[2] as nat && ExtUsed(t) == 3 + x[2] as nat
  {
    hide InExtRange, ExtDispatch, Compressible, NextOf, Octet, Aligned, ExtEncode, IsExtension, ExtSize;
    EncodedAt(ROUTING, x, rest);
    var t, n := ExtEncode(ROUTING, x) + rest, |x|;
    assert t[2..n] == t[1..n][1..] == x[2..];
    assert t[2] == t[2..n][0] == x[2];
  }

  lemma RebuiltAt(t: seq<bv8>, k: nat)
    requires ExtReadable(t) && ExtHead(t) == 0 && 2 <= k < ExtLength(t) && 1 + ExtLength(t) <= |t|
    ensures ExtRebuilt(t)[k] == t[k + 1]
  {
    hide Aligned, NextOf, Octet, ExtLength, ExtUsed, ExtHead;
    assert t[3..1 + ExtLength(t)][k - 2] == t[k + 1];
  }

  lemma RebuiltEnd(t: seq<bv8>)
    requires ExtReadable(t) && ExtHead(t) == 0 && 1 + ExtLength(t) == Aligned(ExtLength(t))
    ensures ExtRebuilt(t)[ExtLength(t)] == 0
  {
    hide Aligned, NextOf, Octet, ExtLength, ExtUsed, ExtHead;
  }

  lemma RoutingRebuilt(x: seq<bv8>, t: seq<bv8>)
    requires |x| >= 8 && ExtReadable(t) && ExtHead(t) == 0 && ExtUsed(t) == |x| == ExtLength(t) + 1 == Aligned(|x| - 1)
    requires t[2..|x|] == x[2..] && x[2] as nat == |x| - 3
    ensures ExtRebuilt(t) != x
  {
    hide Aligned, NextOf, Octet, ExtLength, ExtUsed, ExtHead, ExtRebuilt;
    var r, n := ExtRebuilt(t), |x|;
    if r == x {
      forall k | 2 <= k < n - 1
        ensures x[k] == x[k + 1]
      {
        RebuiltAt(t, k);
        assert t[k + 1] == t[2..n][k - 1] == x[2..][k - 1];
      }
      AllEqual(x, 2, n - 1);
      RebuiltEnd(t);
    }
  }

  lemma RoutingLost(x: seq<bv8>, rest: seq<bv8>)
    requires IsExt(ROUTING, x) && rest != [] && Compressible(x[0])
    ensures !ExtRoundTrips(ROUTING, x, rest)
  {
    hide Compressible, NextOf, Octet, Aligned, ExtEncode, IsExtension, ExtLength, ExtUsed, ExtHead, ExtRebuilt, Padding, ExtSize;
    RoutingAt(x, rest);
    SizeField(ROUTING, x);
    JustBelow(|x|);
    if ExtRoundTrips(ROUTING, x, rest) {
      RoutingRebuilt(x, ExtEncode(ROUTING, x) + rest);
    }
  }

  lemma OptionsAt(x: seq<bv8>, rest: seq<bv8>)
    requires IsExt(DESTOPT, x) && rest != [] && Compressible(x[0])
    ensures var t, n := ExtEncode(DESTOPT, x) + rest, |x|;
            && IsExtension(t[0]) && t[n] == rest[0] && t[2..n] == x[2..]
            && ExtLength(t) == ExtUsed(t) == 2 + (n - 2) % 256 && ExtHead(t) == 1
  {
    hide InExtRange, ExtDispatch, Compressible, NextOf, Octet, Aligned, ExtEncode, IsExtension;
    EncodedAt(DESTOPT, x, rest);
    SizeField(DESTOPT, x);
    var t, n := ExtEncode(DESTOPT, x) + rest, |x|;
    DispatchNext(DESTOPT, t[0]);
    assert t[1] == t[1..n][0] == Octet(n - 2);
    assert t[2..n] == t[1..n][1..] == x[2..];
  }

  lemma OptionsRebuilt(x: seq<bv8>, t: seq<bv8>)
    requires |x| >= 8 && ExtReadable(t) && ExtHead(t) == 1 && ExtLength(t) == ExtUsed(t) == |x| == Aligned(|x|)
    requires t[2..|x|] == x[2..] && x[1] == Octet(|x| / 8 - 1)
    ensures ExtRebuilt(t) == x <==> NextOf(t[|x|]) == x[0]
  {
    hide Aligned, NextOf, Octet, ExtLength, ExtUsed, ExtHead;
    var head: seq<bv8> := [NextOf(t[|x|]), x[1]];
    assert ExtRebuilt(t) == head + x[2..] + [];
    assert x == [x[0], x[1]] + x[2..];
    assert ExtRebuilt(t)[0] == head[0];
  }

  lemma Counted(n: nat)
    requires n >= 8 && n % 8 == 0
    ensures 2 + (n - 2) % 256 == n <==> n <= 256
  {
  }

  lemma OptionsIff(x: seq<bv8>, rest: seq<bv8>)
    requires IsExt(DESTOPT, x) && rest != [] && Compressible(x[0])
    ensures ExtRoundTrips(DESTOPT, x, rest) <==> OptionsSurvive(DESTOPT, x, rest[0])
  {
    hide Compressible, NextOf, Octet, Aligned, ExtEncode, IsExtension, ExtLength, ExtUsed, ExtHead, ExtRebuilt, Padding, ExtSize;
    OptionsAt(x, rest);
    SizeField(DESTOPT, x);
    Counted(|x|);
    var t, n := ExtEncode(DESTOPT, x) + rest, |x|;
    if n <= 256 {
      OptionsRebuilt(x, t);
    }
  }

  lemma Shifted(t: seq<bv8>, x: seq<bv8>, next: bv8)
    requires |x| == 8 && |t| >= 9 && t[1..8] == x[1..] && t[8] == next
    ensures t[3..9] == x[3..] + [next]
  {
    assert t[3..9] == t[1..8][2..] + [t[8]];
  }

  lemma ShiftedIff(x: seq<bv8>, next: bv8)
    requires |x| == 8
    ensures x[3..] + [next] == x[2..] <==>
            x[2] == next && x[3] == next && x[4] == next && x[5] == next && x[6] == next && x[7] == next
  {
    var a, b := x[3..] + [next], x[2..];
    assert a[0] == x[3] && a[1] == x[4] && a[2] == x[5] && a[3] == x[6] && a[4] == x[7] && a[5] == next;
    assert b[0] == x[2] && b[1] == x[3] && b[2] == x[4] && b[3] == x[5] && b[4] == x[6] && b[5] == x[7];
  }

  lemma FragAt(x: seq<bv8>, rest: seq<bv8>)
    requires IsExt(FRAG, x) && rest != [] && Compressible(x[0])
    ensures var t := ExtEncode(FRAG, x) + rest;
            && IsExtension(t[0]) && |t| >= 9 && t[8] == rest[0] && t[3..9] == x[3..] + [rest[0]]
            && ExtLength(t) == ExtUsed(t) == 8 && ExtHead(t) == 0
  {
    hide InExtRange, ExtDispatch, Compressible, NextOf, Octet, Aligned, ExtEncode, IsExtension;
    EncodedAt(FRAG, x, rest);
    var t := ExtEncode(FRAG, x) + rest;
    DispatchNext(FRAG, t[0]);
    Shifted(t, x, rest[0]);
  }

  lemma FragRebuilt(x: seq<bv8>, t: seq<bv8>, next: bv8)
    requires |x| == 8 && ExtReadable(t) && ExtLength(t) == ExtUsed(t) == 8 && ExtHead(t) == 0
    requires |t| >= 9 && t[8] == next && t[3..9] == x[3..] + [next]
    ensures ExtRebuilt(t) == [NextOf(next), 0] + (x[3..] + [next])
  {
    hide NextOf, ExtLength, ExtUsed, ExtHead;
  }

  lemma Pairs(a: seq<bv8>, m: seq<bv8>, x: seq<bv8>)
    requires |a| == 2 && |x| == 2 + |m|
    ensures a + m == x <==> a[0] == x[0] && a[1] == x[1] && m == x[2..]
  {
    assert x == [x[0], x[1]] + x[2..];
    assert (a + m)[2..] == m && (a + m)[0] == a[0] && (a + m)[1] == a[1];
  }

  lemma FragIff(x: seq<bv8>, rest: seq<bv8>)
    requires IsExt(FRAG, x) && rest != [] && Compressible(x[0])
    ensures ExtRoundTrips(FRAG, x, rest) <==> FragSurvives(FRAG, x, rest[0])
  {
    hide Compressible, NextOf, Octet, Aligned, ExtEncode, IsExtension, ExtLength, ExtUsed, ExtHead, ExtRebuilt, Padding;
    FragAt(x, rest);
    var t, m := ExtEncode(FRAG, x) + rest, x[3..] + [rest[0]];
    FragRebuilt(x, t, rest[0]);
    Pairs([NextOf(rest[0]), 0], m, x);
    ShiftedIff(x, rest[0]);
  }

  /** The decompressor takes compressed hop-by-hop options for the end of the headers. */
  lemma HopByHopLeft(b: bv8)
    requires Eid(b) == 0
    ensures !IsExtension(b)
  {
  }

  /** Exactly which extension headers come back. A routing header never does. */
  lemma ExtRoundTripsIff(nh: bv8, x: seq<bv8>, rest: seq<bv8>)
    requires IsExt(nh, x) && rest != []
    ensures ExtRoundTrips(nh, x, rest) <==> OptionsSurvive(nh, x, rest[0]) || FragSurvives(nh, x, rest[0])
  {
    hide Eid, InExtRange, NextLeftOut, ExtDispatch, Compressible, NextOf, ExtUsed, ExtEncode;
    EncodedAt(nh, x, rest);
    var t := ExtEncode(nh, x) + rest;
    if !Compressible(x[0]) {
      if ExtReadable(t) {
        NextCompressible(t[ExtUsed(t)]);
      }
    } else if nh == ROUTING {
      RoutingLost(x, rest);
    } else if nh == DESTOPT {
      OptionsIff(x, rest);
    } else if nh == FRAG {
      FragIff(x, rest);
    } else {
      HopByHopLeft(t[0]);
    }
  }

  // ---------- On buffers ----------

  lemma RecountedIn(p: seq<bv8>, r: seq<bv8>, o: nat, nh: bv8, n: nat)
    requires o + n <= |p| && 8 <= n && IsExt(nh, p[o..o + n])
    requires r == if nh == FRAG then p else p[o + 1 := Octet(n - 2)]
    ensures |r| == |p| && r[o..o + n] == Recounted(nh, p[o..o + n])
    ensures r == p[..o] + Recounted(nh, p[o..o + n]) + p[o + n..]
  {
    hide Octet;
    var x := p[o..o + n];
    assert p == p[..o] + x + p[o + n..];
    if nh != FRAG {
      assert r == p[..o] + x[1 := Octet(n - 2)] + p[o + n..];
    }
  }

  /** The length field of the header at `o` is overwritten. */
  method Recount(hdr: array<bv8>, o: nat, nh: bv8, n: nat)
    requires 8 <= n && o + n <= hdr.Length && IsExt(nh, hdr[o..o + n])
    modifies hdr
    ensures hdr[..] == old(hdr[..o]) + Recounted(nh, old(hdr[o..o + n])) + old(hdr[o + n..])
    ensures hdr[o..o + n] == Recounted(nh, old(hdr[o..o + n]))
  {
    hide Octet, IsExt;
    ghost var p := hdr[..];
    assert p[o..o + n] == hdr[o..o + n] && p[..o] == hdr[..o] && p[o + n..] == hdr[o + n..];
    if nh != FRAG {
      hdr[o + 1] := Octet(n - 2);
    }
    RecountedIn(p, hdr[..], o, nh, n);
    assert hdr[..][o..o + n] == hdr[o..o + n];
  }

  /** A dispatch octet, and the header behind it or, when `lead` is zero, under it. */
  method Prefixed(hdr: array<bv8>, o: nat, n: nat, lead: nat, dispatch: bv8) returns (buf: array<bv8>)
    requires 8 <= n && o + n <= hdr.Length && lead <= 1
    ensures fresh(buf) && buf[..] == [dispatch] + hdr[o + 1 - lead..o + n]
  {
    buf := new bv8[lead + n](_ => 0);
    MoveIn(buf, lead, hdr, o, n);
    buf[0] := dispatch;
  }

  /** `compressor_nhc_ext`, for the header `x` of kind `nh` at `o`, whose length in the frame is
      overwritten. */
  method CompressorNhcExt(hdr: array<bv8>, o: nat, nh: bv8, ghost x: seq<bv8>) returns (buf: array<bv8>, next: bv8)
    requires o + |x| <= hdr.Length && x == hdr[o..o + |x|] && IsExt(nh, x)
    modifies hdr
    ensures fresh(buf) && buf[..] == ExtEncode(nh, x) && next == x[0]
    ensures hdr[..] == old(hdr[..o]) + Recounted(nh, x) + old(hdr[o + |x|..])
  {
    hide ExtDispatch, Compressible, Octet, Recounted, ExtSize, EidOf;
    assert x[0] == hdr[o] && x[1] == hdr[o + 1];
    next := hdr[o];
    var lead := if Compressible(next) then 0 else 1;
    var n := ExtSize(nh, hdr[o + 1]);
    Recount(hdr, o, nh, n);
    ghost var y := hdr[o..o + n];
    assert hdr[o + 1..o + n] == y[1..];
    buf := Prefixed(hdr, o, n, lead, ExtDispatch(EidOf(nh), lead == 0));
  }

  /** `ext_align`, on a buffer of zeros behind `len`. */
  method ExtAlign(buf: array<bv8>, len: nat)
    requires len <= buf.Length < len + 8 && forall k | len <= k < buf.Length :: buf[k] == 0
    modifies buf
    ensures buf[..] == old(buf[..len]) + Padding(buf.Length - len)
  {
    hide Octet;
    ghost var front := buf[..len];
    var padlen := buf.Length - len;
    if padlen == 1 {
      buf[len] := 0;
    } else if padlen > 1 {
      buf[len] := 1;
      buf[len + 1] := Octet(padlen - 2);
    }
    assert buf[..len] == front;
    assert buf[len..] == Padding(padlen);
    assert buf[..] == buf[..len] + buf[len..];
  }

  /** `ext_compressed_length`. */
  method ExtCompressedLength(c: array<bv8>, o: nat) returns (len: nat, used: nat, head: nat)
    requires o < c.Length && ExtReadable(c[o..])
    ensures len == ExtLength(c[o..]) && used == ExtUsed(c[o..]) && head == ExtHead(c[o..])
  {
    hide Eid, NextLeftOut;
    ghost var t := c[o..];
    assert t[0] == c[o] && t[1] == c[o + 1] && t[2] == c[o + 2];
    if Eid(c[o]) == 4 {
      return 8, 8, 0;
    }
    if !NextLeftOut(c[o]) {
      len := 2 + c[o + 2] as nat;
      return len, len + 1, 0;
    }
    len := 2 + c[o + 1] as nat;
    return len, len, 1;
  }

  /** The octets behind the dispatch, under a next header and a length, and zeros behind them. */
  method Refilled(c: array<bv8>, o: nat, len: nat, head: nat, alloc: nat, nh: bv8, size: bv8) returns (ext: array<bv8>)
    requires 2 <= len <= alloc && head <= 1 && o + 1 + len - head <= c.Length
    ensures fresh(ext) && ext.Length == alloc
    ensures ext[..len] == [nh, size] + c[o + 3 - head..o + 1 + len - head]
    ensures forall k | len <= k < alloc :: ext[k] == 0
  {
    ghost var m := c[o + 3 - head..o + 1 + len - head];
    ext := new bv8[alloc](_ => 0);
    MoveIn(ext, head, c, o + 1, len - head);
    ext[0] := nh;
    ext[1] := size;
    forall k | 2 <= k < len
      ensures ext[k] == m[k - 2]
    {
    }
    assert ext[..len] == [nh, size] + m;
  }

  lemma SliceBehind(s: seq<bv8>, o: nat, i: nat, j: nat)
    requires i <= j && o + j <= |s|
    ensures s[o..][i..j] == s[o + i..o + j]
  {
  }

  /** `decompressor_nhc_ext`, at `o`. */
  method DecompressorNhcExt(c: array<bv8>, o: nat) returns (ext: array<bv8>, used: nat)
    requires o < c.Length && IsExtension(c[o]) && ExtReadable(c[o..])
    ensures fresh(ext) && used == ExtUsed(c[o..]) && ext[..] == ExtRebuilt(c[o..])
  {
    hide Octet, NextOf, Aligned, Eid, NextLeftOut, IsExtension, Padding;
    ghost var t := c[o..];
    var len, head;
    len, used, head := ExtCompressedLength(c, o);
    assert t == c[..][o..];
    SliceBehind(c[..], o, 3 - head, 1 + len - head);
    var alloc := Aligned(len);
    ext := Refilled(c, o, len, head, alloc, NextOf(c[o + used]), Octet(alloc / 8 - 1));
    ExtAlign(ext, len);
  }
}
