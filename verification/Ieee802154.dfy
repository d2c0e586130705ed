/** The IEEE 802.15.4 header: addresses turned between the two orders of octets, and the link
    address that belongs to an IPv6 destination. */
module Ieee802154 {
  import opened Wrappers
  import opened Iphc

  const MIN_HEADER: nat := 5
  const BROADCAST: bv8 := 0xFF

  function Size(mode: nat): nat {
    if mode == 2 then 2 else if mode == 3 then 8 else 0
  }

  // ---------- Turning addresses ----------

  function Reversed(s: seq<bv8>): (r: seq<bv8>)
    ensures |r| == |s| && forall i | 0 <= i < |s| :: r[i] == s[|s| - 1 - i]
  {
    if s == [] then [] else Reversed(s[1..]) + [s[0]]
  }

  lemma ReversedTwice(s: seq<bv8>)
    ensures Reversed(Reversed(s)) == s
  {
  }

  function Xor(a: bv8, b: bv8): bv8 {
    a ^ b
  }

  lemma XorSwaps(a: bv8, b: bv8)
    ensures Xor(Xor(a, b), b) == a && Xor(Xor(a, b), a) == b
  {
  }

  /** `pico_swap`, of two different places: three exclusive-ors. */
  method Swap(data: array<bv8>, i: nat, j: nat)
    requires i < data.Length && j < data.Length && i != j
    modifies data
    ensures data[i] == old(data[j]) && data[j] == old(data[i])
    ensures forall k | 0 <= k < data.Length && k != i && k != j :: data[k] == old(data[k])
  {
    hide Xor;
    XorSwaps(data[i], data[j]);
    data[i] := Xor(data[i], data[j]);
    data[j] := Xor(data[i], data[j]);
    data[i] := Xor(data[i], data[j]);
  }

  /** `addr_802154_to_ietf`, and `addr_802154_to_ieee` which is the same. */
  method ToIetf(data: array<bv8>, mode: nat)
    requires data.Length == 8
    modifies data
    ensures data[..] == Reversed(old(data[..Size(mode)])) + old(data[Size(mode)..])
  {
    var n := Size(mode);
    var i := 0;
    while i < n / 2
      invariant 0 <= i <= n / 2
      invariant forall k | 0 <= k < data.Length ::
                  data[k] == if k < i || n - i <= k < n then old(data[n - 1 - k]) else old(data[k])
    {
      Swap(data, i, n - 1 - i);
      i := i + 1;
    }
    ghost var was := old(data[..n]);
    assert forall k | 0 <= k < n :: Reversed(was)[k] == was[n - 1 - k];
  }

  // ---------- The header ----------

  function ModeBits(mode: nat): bv8 {
    if mode == 1 then 1 else if mode == 2 then 2 else if mode == 3 then 3 else 0
  }

  function ModeOf(b: bv8): nat {
    if b == 1 then 1 else if b == 2 then 2 else if b == 3 then 3 else 0
  }

  /** The control field: a data frame with these flags, and the two addressing modes. */
  function ControlLow(sec: bool, ack: bool, intraPan: bool): bv8 {
    0x01 | (if sec then 0x08 else 0x00) | (if ack then 0x20 else 0x00) | (if intraPan then 0x40 else 0x00)
  }

  function ControlHigh(dst: bv8, src: bv8): bv8 {
    (dst << 2) | (src << 6)
  }

  function DstBits(b: bv8): bv8 {
    (b >> 2) & 0x03
  }

  function SrcBits(b: bv8): bv8 {
    (b >> 6) & 0x03
  }

  predicate Secured(b: bv8) {
    b & 0x08 != 0
  }

  lemma ModesRead(dst: bv8, src: bv8)
    requires dst <= 3 && src <= 3
    ensures DstBits(ControlHigh(dst, src)) == dst && SrcBits(ControlHigh(dst, src)) == src
  {
  }

  lemma SecuredRead(sec: bool, ack: bool, intraPan: bool)
    ensures Secured(ControlLow(sec, ack, intraPan)) <==> sec
  {
  }

  datatype Flags = Flags(sec: bool, ack: bool, intraPan: bool)

  /** What `frame_802154_format` writes: the addresses least significant octet first, the
      destination in front. */
  function Header(sequence: bv8, f: Flags, pan: (bv8, bv8), src: Link, dst: Link): seq<bv8> {
    [ControlLow(f.sec, f.ack, f.intraPan), ControlHigh(ModeBits(dst.mode), ModeBits(src.mode)), sequence, pan.1, pan.0]
    + Reversed(dst.data[..Size(dst.mode)]) + Reversed(src.data[..Size(src.mode)])
  }

  function DstMode(h: seq<bv8>): (mode: nat)
    requires |h| >= MIN_HEADER
    ensures mode <= 3
  {
    ModeOf(DstBits(h[1]))
  }

  function SrcMode(h: seq<bv8>): (mode: nat)
    requires |h| >= MIN_HEADER
    ensures mode <= 3
  {
    ModeOf(SrcBits(h[1]))
  }

  /** `frame_802154_hdr_len`. */
  function HeaderLength(h: seq<bv8>): nat
    requires |h| >= MIN_HEADER
  {
    MIN_HEADER + Size(SrcMode(h)) + Size(DstMode(h))
  }

  predicate Complete(h: seq<bv8>) {
    |h| >= MIN_HEADER && |h| >= HeaderLength(h)
  }

  function Padded(s: seq<bv8>): (d: seq<bv8>)
    requires |s| <= 8
    ensures |d| == 8
  {
    s + ZEROS[..8 - |s|]
  }

  /** `frame_802154_dst`. */
  function ReadDst(h: seq<bv8>): Link
    requires Complete(h)
  {
    var n := Size(DstMode(h));
    LinkAddress(DstMode(h), Padded(Reversed(h[MIN_HEADER..MIN_HEADER + n])))
  }

  /** `frame_802154_src`. */
  function ReadSrc(h: seq<bv8>): Link
    requires Complete(h)
  {
    var n, m := Size(DstMode(h)), Size(SrcMode(h));
    LinkAddress(SrcMode(h), Padded(Reversed(h[MIN_HEADER + n..MIN_HEADER + n + m])))
  }

  /** The part of an address that its mode makes use of. */
  function Used(l: Link): Link
    requires l.mode <= 3
  {
    LinkAddress(l.mode, Padded(l.data[..Size(l.mode)]))
  }

  lemma ModeRoundTrips(mode: nat)
    requires mode <= 3
    ensures ModeOf(ModeBits(mode)) == mode && ModeBits(mode) <= 3
  {
  }

  lemma Parts(front: seq<bv8>, d: seq<bv8>, s: seq<bv8>, payload: seq<bv8>)
    requires |front| == MIN_HEADER
    ensures var frame := front + d + s + payload;
            && (forall i | 0 <= i < MIN_HEADER :: frame[i] == front[i])
            && frame[MIN_HEADER..MIN_HEADER + |d|] == d
            && frame[MIN_HEADER + |d|..MIN_HEADER + |d| + |s|] == s
  {
  }

  /** Reading a header that was written, in front of any payload. */
  lemma HeaderRoundTrips(sequence: bv8, f: Flags, pan: (bv8, bv8), src: Link, dst: Link, payload: seq<bv8>)
    requires src.mode <= 3 && dst.mode <= 3
    ensures var h := Header(sequence, f, pan, src, dst);
            var frame := h + payload;
            && Complete(frame) && HeaderLength(frame) == |h|
            && ReadDst(frame) == Used(dst) && ReadSrc(frame) == Used(src)
            && (Secured(frame[0]) <==> f.sec) && frame[2] == sequence
  {
    hide ControlHigh, ControlLow, DstBits, SrcBits, Secured, ModeBits, ModeOf, Reversed, Padded;
    ModeRoundTrips(dst.mode);
    ModeRoundTrips(src.mode);
    ModesRead(ModeBits(dst.mode), ModeBits(src.mode));
    SecuredRead(f.sec, f.ack, f.intraPan);
    var d, s := dst.data[..Size(dst.mode)], src.data[..Size(src.mode)];
    ReversedTwice(d);
    ReversedTwice(s);
    var front := [ControlLow(f.sec, f.ack, f.intraPan), ControlHigh(ModeBits(dst.mode), ModeBits(src.mode)),
                  sequence, pan.1, pan.0];
    Parts(front, Reversed(d), Reversed(s), payload);
    assert Header(sequence, f, pan, src, dst) + payload == front + Reversed(d) + Reversed(s) + payload;
  }

  // ---------- Destinations ----------

  /** `addr_802154_ll_dst`. */
  function LinkOfDestination(a: Address): Link {
    if a[0] == 0xFF then LinkAddress(2, Padded([BROADCAST, BROADCAST]))
    else if Iid16(a[8..]) then LinkAddress(2, Padded([a[14], a[15]]))
    else LinkAddress(3, [FlipLocal(a[8])] + a[9..])
  }

  lemma FlipTwice(b: bv8)
    ensures FlipLocal(FlipLocal(b)) == b
  {
  }

  /** Exactly which unicast destinations are found again from their link address. */
  lemma IidRoundTripsIff(a: Address)
    requires a[0] != 0xFF
    ensures LinkIid(LinkOfDestination(a)) == Some(a[8..]) <==> (Iid16(a[8..]) ==> a[8] == 0 && a[9] == 0)
  {
    hide FlipLocal;
    FlipTwice(a[8]);
    var iid := a[8..];
    assert iid[0] == a[8] && iid[1] == a[9] && iid[6] == a[14] && iid[7] == a[15];
    var l := LinkOfDestination(a);
    if Iid16(iid) {
      assert iid == [iid[0], iid[1], 0, 0xFF, 0xFE, 0, a[14], a[15]];
      assert LinkIid(l) == Some([0, 0, 0, 0xFF, 0xFE, 0, a[14], a[15]]);
      assert LinkIid(l).value[0] == 0 && LinkIid(l).value[1] == 0;
    } else {
      assert l.data[1..] == a[9..];
      assert iid == [a[8]] + a[9..];
    }
  }

  /** The identifier 01 00 00 ff fe 00 00 07 is one of 16 bits that starts otherwise: what is found
      again starts with zero. */
  lemma IidExample()
    ensures var a: Address := [0xFE, 0x80, 0, 0, 0, 0, 0, 0, 0x01, 0, 0, 0xFF, 0xFE, 0, 0, 0x07];
            LinkIid(LinkOfDestination(a)) == Some([0, 0, 0, 0xFF, 0xFE, 0, 0, 0x07]) && a[8] != 0
  {
  }

  /** So a link-local destination is elided from the compressed header exactly then. */
  lemma DestinationElidedIff(a: Address)
    requires IsLinkLocal(a)
    ensures KindOf(a, LinkOfDestination(a), false) == Derived <==> (Iid16(a[8..]) ==> a[8] == 0 && a[9] == 0)
  {
    IidRoundTripsIff(a);
  }

  // ---------- On frames ----------

  method Put(buf: array<bv8>, at: nat, data: array<bv8>, n: nat)
    requires buf != data && at + n <= buf.Length && n <= data.Length
    modifies buf
    ensures buf[..] == old(buf[..])[..at] + data[..n] + old(buf[..])[at + n..]
  {
    forall k | 0 <= k < n {
      buf[at + k] := data[k];
    }
  }

  lemma Assembled(b: seq<bv8>, front: seq<bv8>, d: seq<bv8>, s: seq<bv8>)
    requires |front| == MIN_HEADER && MIN_HEADER + |d| + |s| <= |b|
    ensures var x := front + b[MIN_HEADER..];
            var y := x[..MIN_HEADER] + d + x[MIN_HEADER + |d|..];
            y[..MIN_HEADER + |d|] + s + y[MIN_HEADER + |d| + |s|..] == front + d + s + b[MIN_HEADER + |d| + |s|..]
  {
  }

  method FormatFront(buf: array<bv8>, sequence: bv8, f: Flags, pan: (bv8, bv8), src: bv8, dst: bv8)
    requires MIN_HEADER <= buf.Length
    modifies buf
    ensures buf[..MIN_HEADER] == [ControlLow(f.sec, f.ack, f.intraPan), ControlHigh(dst, src), sequence, pan.1, pan.0]
    ensures buf[MIN_HEADER..] == old(buf[MIN_HEADER..])
  {
    hide ControlHigh, ControlLow;
    buf[0] := ControlLow(f.sec, f.ack, f.intraPan);
    buf[1] := ControlHigh(dst, src);
    buf[2] := sequence;
    buf[3], buf[4] := pan.1, pan.0;
  }

  /** A copy of an address in the other order. */
  method Turned(l: Link) returns (data: array<bv8>)
    requires l.mode <= 3
    ensures fresh(data) && data.Length == 8
    ensures data[..Size(l.mode)] == Reversed(l.data[..Size(l.mode)])
    ensures data[Size(l.mode)..] == l.data[Size(l.mode)..]
  {
    hide Reversed;
    data := new bv8[8](i requires 0 <= i < 8 => l.data[i]);
    assert data[..] == l.data;
    assert data[..Size(l.mode)] == l.data[..Size(l.mode)] && data[Size(l.mode)..] == l.data[Size(l.mode)..];
    ToIetf(data, l.mode);
  }

  /** `frame_802154_format`, on copies of the addresses. */
  method Format(buf: array<bv8>, sequence: bv8, f: Flags, pan: (bv8, bv8), src: Link, dst: Link)
    requires src.mode <= 3 && dst.mode <= 3
    requires MIN_HEADER + Size(dst.mode) + Size(src.mode) <= buf.Length
    modifies buf
    ensures var h := Header(sequence, f, pan, src, dst);
            |h| <= buf.Length && buf[..] == h + old(buf[MIN_HEADER + Size(dst.mode) + Size(src.mode)..])
  {
    hide ControlHigh, ControlLow, ModeBits, Reversed;
    var n, m := Size(dst.mode), Size(src.mode);
    ghost var b := buf[..];
    FormatFront(buf, sequence, f, pan, ModeBits(src.mode), ModeBits(dst.mode));
    ghost var front, x := buf[..MIN_HEADER], buf[..];
    assert x == front + b[MIN_HEADER..] by {
      assert b[MIN_HEADER..] == x[MIN_HEADER..];
    }
    var d := Turned(dst);
    assert buf[..] == x;
    Put(buf, MIN_HEADER, d, n);
    ghost var y := buf[..];
    var s := Turned(src);
    assert buf[..] == y;
    Put(buf, MIN_HEADER + n, s, m);
    Assembled(b, front, Reversed(dst.data[..n]), Reversed(src.data[..m]));
  }

  /** The address of `mode` at `at` (`frame_802154_src` and `frame_802154_dst`). */
  method ReadAt(h: array<bv8>, at: nat, mode: nat) returns (l: Link)
    requires mode <= 3 && at + Size(mode) <= h.Length
    ensures l == LinkAddress(mode, Padded(Reversed(h[at..at + Size(mode)])))
  {
    hide Reversed;
    var n := Size(mode);
    ghost var a := h[at..at + n];
    var raw := LinkAddress(mode, Padded(h[at..at + n]));
    assert raw.data[..n] == a && raw.data[n..] == ZEROS[..8 - n];
    var data := Turned(raw);
    assert data[..] == data[..n] + data[n..];
    l := LinkAddress(mode, data[..]);
  }

  method ReadAddress(h: array<bv8>, isSource: bool) returns (l: Link)
    requires Complete(h[..])
    ensures l == if isSource then ReadSrc(h[..]) else ReadDst(h[..])
  {
    hide DstBits, SrcBits, Reversed, ModeOf, Padded;
    var dst, src := DstMode(h[..]), SrcMode(h[..]);
    if isSource {
      l := ReadAt(h, MIN_HEADER + Size(dst), src);
      assert h[..][MIN_HEADER + Size(dst)..MIN_HEADER + Size(dst) + Size(src)]
          == h[MIN_HEADER + Size(dst)..MIN_HEADER + Size(dst) + Size(src)];
    } else {
      l := ReadAt(h, MIN_HEADER, dst);
      assert h[..][MIN_HEADER..MIN_HEADER + Size(dst)] == h[MIN_HEADER..MIN_HEADER + Size(dst)];
    }
  }
}
