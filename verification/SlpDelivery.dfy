/** From one end of a 6LoWPAN link to the other: the fragments on the wire, the table of datagrams
    being reassembled, and what the receiver hands over. */
module SlpDelivery {
  import opened Wrappers
  import opened Iphc
  import opened IphcHeader
  import opened UdpNhc
  import ExtNhc
  import opened SlpPacket
  import opened SlpFragments
  import opened Permutations

  const FRAG1: bv8 := 0xC0
  const FRAGN: bv8 := 0xE0
  const IPV6_DISPATCH: bv8 := 0x41

  // ---------- The wire ----------

  function LowThree(b: bv8): bv8 {
    b & 0x07
  }

  function FragDispatch(b: bv8): bv8 {
    b & 0xF8
  }

  function WithSize(dispatch: bv8, hi: bv8): bv8 {
    dispatch | LowThree(hi)
  }

  /** The octets that `frag_fill` writes before the payload. */
  function FragHeader(dispatch: bv8, size: nat, tag: nat): seq<bv8> {
    [WithSize(dispatch, Octet(size / 256)), Octet(size), Octet(tag / 256), Octet(tag)]
  }

  function FirstWire(k: Cookie, c: seq<bv8>): seq<bv8>
    requires k.copied <= |c|
  {
    FragHeader(FRAG1, k.size, k.tag) + c[..k.copied]
  }

  function NextWire(k: Cookie, c: seq<bv8>, n: nat): seq<bv8>
    requires k.copied + n <= |c|
  {
    FragHeader(FRAGN, k.size, k.tag) + [Octet(k.off)] + c[k.copied..k.copied + n]
  }

  function NextWires(k: Cookie, c: seq<bv8>, room: nat -> int): seq<seq<bv8>>
    requires InStep(k, |c|) && Roomy(room, |c|)
    decreases |c| - k.copied
  {
    NextInStep(k, |c|, room(k.copied));
    var u, n := Units(k, |c|, room(k.copied)), Copy(k, |c|, room(k.copied));
    var next := Updated(k, u, n);
    [NextWire(k, c, n)] + if next.copied >= |c| then [] else NextWires(next, c, room)
  }

  /** Everything that is sent for the compressed frame `c` of a datagram of `size` octets. */
  function Wires(c: seq<bv8>, size: nat, comp: nat, room: nat -> int, tag: nat): seq<seq<bv8>>
    requires Splittable(|c|, size, comp, room(0)) && Roomy(room, |c|)
  {
    FirstInStep(|c|, size, comp, room(0), tag);
    var k := FirstCookie(|c|, size, comp, room(0), tag);
    [FirstWire(k, c)] + NextWires(k, c, room)
  }

  function SizeOf(w: seq<bv8>): nat
    requires |w| >= 4
  {
    (LowThree(w[0]) as nat) * 256 + w[1] as nat
  }

  function TagOf(w: seq<bv8>): nat
    requires |w| >= 4
  {
    (w[2] as nat) * 256 + w[3] as nat
  }

  lemma WithSizeBits(hi: bv8)
    requires hi <= 7
    ensures LowThree(WithSize(FRAG1, hi)) == hi && FragDispatch(WithSize(FRAG1, hi)) == FRAG1
    ensures LowThree(WithSize(FRAGN, hi)) == hi && FragDispatch(WithSize(FRAGN, hi)) == FRAGN
  {
  }

  lemma SmallOctet(n: int)
    requires 0 <= n < 8
    ensures Octet(n) <= 7
  {
  }

  lemma WordBack(n: nat)
    requires n < 65536
    ensures n / 256 % 256 * 256 + n % 256 == n
  {
  }

  lemma TagReadBack(tag: nat, w: seq<bv8>)
    requires tag < 65536 && |w| >= 4 && w[2] == Octet(tag / 256) && w[3] == Octet(tag)
    ensures TagOf(w) == tag
  {
    hide Octet;
    OctetValue(tag / 256);
    OctetValue(tag);
    WordBack(tag);
  }

  lemma SizeReadBack(size: nat, w: seq<bv8>)
    requires size <= 2047 && |w| >= 4 && LowThree(w[0]) == Octet(size / 256) && w[1] == Octet(size)
    ensures SizeOf(w) == size
  {
    hide Octet, LowThree;
    OctetValue(size / 256);
    OctetValue(size);
    WordBack(size);
  }

  /** The fragment header is read back. */
  lemma HeaderRoundTrips(size: nat, tag: nat, rest: seq<bv8>)
    requires size <= 2047 && tag < 65536
    ensures var f, n := FragHeader(FRAG1, size, tag) + rest, FragHeader(FRAGN, size, tag) + rest;
            && FragDispatch(f[0]) == FRAG1 && SizeOf(f) == size && TagOf(f) == tag
            && FragDispatch(n[0]) == FRAGN && SizeOf(n) == size && TagOf(n) == tag
  {
    hide LowThree, FragDispatch, WithSize, Octet, SizeOf, TagOf;
    SmallOctet(size / 256);
    WithSizeBits(Octet(size / 256));
    var f, n := FragHeader(FRAG1, size, tag) + rest, FragHeader(FRAGN, size, tag) + rest;
    SizeReadBack(size, f);
    TagReadBack(tag, f);
    SizeReadBack(size, n);
    TagReadBack(tag, n);
  }

  // ---------- Reading a fragment ----------

  /** What the comparison of link addresses looks at (`addr_802154_cmp`). */
  function Identity(l: Link): LinkAddress {
    LinkAddress(l.mode, l.data[..if l.mode == 2 then 2 else if l.mode == 3 then 8 else 0])
  }

  datatype Arrival = Arrival(wire: seq<bv8>, src: Link, dst: Link)

  /** What tells datagrams apart (`frag_cmp`). */
  datatype Key = Key(size: nat, tag: nat, src: LinkAddress, dst: LinkAddress)

  function KeyOf(a: Arrival): Key
    requires |a.wire| >= 5
  {
    Key(SizeOf(a.wire), TagOf(a.wire), Identity(a.src), Identity(a.dst))
  }

  /** `pico_6lowpan_decompress`. */
  function Plain(t: seq<bv8>, ls: Link, ld: Link): Option<seq<bv8>>
    requires t != [] && (IsIphc(t[0]) ==> Decompressible(t))
  {
    if IsIphc(t[0]) then Decompress(t, ls, ld)
    else if t[0] == IPV6_DISPATCH then Some(t[1..])
    else None
  }

  /** A fragment header is there, and what decompression reads. */
  predicate FragmentReadable(a: Arrival) {
    && |a.wire| >= 5
    && (FragDispatch(a.wire[0]) == FRAG1 && IsIphc(a.wire[4]) ==> Decompressible(a.wire[4..]))
  }

  /** The piece of a datagram that a frame carries; none for frames that are dropped. */
  function PieceOf(a: Arrival): Option<Piece>
    requires FragmentReadable(a)
  {
    if FragDispatch(a.wire[0]) == FRAG1 then
      match Plain(a.wire[4..], a.src, a.dst)
      case None => None
      case Some(d) => Some(Piece(0, d))
    else if FragDispatch(a.wire[0]) == FRAGN then
      Some(Piece(8 * (a.wire[4] as nat), a.wire[5..]))
    else None
  }

  /** The piece lies within its datagram, and the datagram holds an IPv6 header. */
  predicate Acceptable(a: Arrival) {
    && FragmentReadable(a)
    && (PieceOf(a).Some? ==>
          && HEADER_SIZE <= KeyOf(a).size
          && PieceOf(a).value.off + |PieceOf(a).value.data| <= KeyOf(a).size)
  }

  function Target(p: Piece, j: nat): nat {
    p.off + j
  }

  /** Every octet that the receiver copies falls into the buffer of its datagram. */
  ghost predicate CopyInside(a: Arrival)
    requires FragmentReadable(a) && PieceOf(a).Some?
  {
    var p := PieceOf(a).value;
    forall j | 0 <= j < |p.data| :: Target(p, j) < SizeOf(a.wire)
  }

  /** How long the contents of a first fragment are after decompression, from its octets. */
  function PlainLength(t: seq<bv8>): int
    requires t != [] && (IsIphc(t[0]) ==> Decompressible(t))
  {
    if IsIphc(t[0]) then DecompressedSize(t)
    else |t| - 1
  }

  lemma PlainSize(t: seq<bv8>, ls: Link, ld: Link)
    requires t != [] && (IsIphc(t[0]) ==> Decompressible(t)) && Plain(t, ls, ld).Some?
    ensures |Plain(t, ls, ld).value| == PlainLength(t)
  {
    hide Decompress, DecompressedSize, Decompressible;
    if IsIphc(t[0]) {
      DecompressParts(t, ls, ld);
    }
  }

  /** The receiver does not look whether a fragment lies in its datagram: exactly when it does,
      from what is on the wire. */
  lemma CopyInsideIff(a: Arrival)
    requires FragmentReadable(a) && PieceOf(a).Some?
    ensures CopyInside(a) <==>
            if FragDispatch(a.wire[0]) == FRAG1 then PlainLength(a.wire[4..]) <= SizeOf(a.wire)
            else |a.wire| == 5 || 8 * (a.wire[4] as nat) + |a.wire| - 5 <= SizeOf(a.wire)
  {
    hide FragDispatch, SizeOf, PlainLength, Plain, Decompressible;
    var p := PieceOf(a).value;
    if FragDispatch(a.wire[0]) == FRAG1 {
      PlainSize(a.wire[4..], a.src, a.dst);
    }
    if CopyInside(a) && p.data != [] {
      assert Target(p, |p.data| - 1) < SizeOf(a.wire);
    }
  }

  // ---------- The table ----------

  type Table = map<Key, Entry>

  ghost predicate Sized(t: Table) {
    forall k | k in t :: |t[k].buf| == k.size
  }

  function SlotOf(t: Table, k: Key): Slot {
    if k in t then Filling(t[k]) else Empty
  }

  function WithSlot(t: Table, k: Key, s: Slot): Table {
    match s
    case Empty => t - {k}
    case Filling(e) => t[k := e]
  }

  function Finished(o: Outcome): Outcome
    requires o.Delivered? ==> |o.d| >= HEADER_SIZE
  {
    match o
    case Nothing => Nothing
    case Delivered(d) => Delivered(Finalize(d, 0))
  }

  /** `defrag`. */
  function Defrag(t: Table, a: Arrival): (r: (Table, Outcome))
    requires Sized(t) && Acceptable(a)
    ensures Sized(r.0)
  {
    match PieceOf(a)
    case None => (t, Nothing)
    case Some(p) =>
      var k := KeyOf(a);
      var r := Accept(SlotOf(t, k), k.size, p);
      (WithSlot(t, k, r.0), Finished(r.1))
  }

  ghost predicate AllAcceptable(arrivals: seq<Arrival>) {
    forall i | 0 <= i < |arrivals| :: Acceptable(arrivals[i])
  }

  /** A run of the receiver: the table, and what came out at each arrival. */
  function Receive(t: Table, arrivals: seq<Arrival>): (r: (Table, seq<Outcome>))
    requires Sized(t) && AllAcceptable(arrivals)
    ensures Sized(r.0) && |r.1| == |arrivals|
    decreases |arrivals|
  {
    if arrivals == [] then (t, [])
    else
      var n := |arrivals| - 1;
      var before := Receive(t, arrivals[..n]);
      var now := Defrag(before.0, arrivals[n]);
      (now.0, before.1 + [now.1])
  }

  predicate CarriesPiece(a: Arrival) {
    Acceptable(a) && PieceOf(a).Some?
  }

  /** The arrivals that carry a piece of datagram `k`. */
  predicate Concerns(a: Arrival, k: Key) {
    CarriesPiece(a) && KeyOf(a) == k
  }

  function Own(arrivals: seq<Arrival>, k: Key): (o: seq<Arrival>)
    ensures forall i | 0 <= i < |o| :: Concerns(o[i], k)
  {
    if arrivals == [] then []
    else
      var n := |arrivals| - 1;
      Own(arrivals[..n], k) + if Concerns(arrivals[n], k) then [arrivals[n]] else []
  }

  /** What came out at those arrivals. */
  function OwnOutcomes(arrivals: seq<Arrival>, outcomes: seq<Outcome>, k: Key): seq<Outcome>
    requires |outcomes| == |arrivals|
  {
    if arrivals == [] then []
    else
      var n := |arrivals| - 1;
      OwnOutcomes(arrivals[..n], outcomes[..n], k) + if Concerns(arrivals[n], k) then [outcomes[n]] else []
  }

  function Load(a: Arrival): Piece {
    if CarriesPiece(a) then PieceOf(a).value else Piece(0, [])
  }

  function Pieces(own: seq<Arrival>): (ps: seq<Piece>)
    ensures |ps| == |own|
  {
    Mapped(Load, own)
  }

  function FinishedAll(os: seq<Outcome>): (r: seq<Outcome>)
    requires forall i | 0 <= i < |os| :: os[i].Delivered? ==> |os[i].d| >= HEADER_SIZE
    ensures |r| == |os|
  {
    if os == [] then [] else FinishedAll(os[..|os| - 1]) + [Finished(os[|os| - 1])]
  }

  lemma AcceptNext(s: Slot, size: nat, ps: seq<Piece>, p: Piece)
    requires AllFit(ps, size) && p.off + |p.data| <= size && (s.Filling? ==> |s.e.buf| == size)
    ensures AllFit(ps + [p], size)
    ensures var before := AcceptAll(s, size, ps);
            var now := Accept(before.0, size, p);
            AcceptAll(s, size, ps + [p]) == (now.0, before.1 + [now.1])
  {
    assert (ps + [p])[..|ps|] == ps;
    assert ps + [p] != [];
  }

  lemma DefragElsewhere(t: Table, a: Arrival, k: Key)
    requires Sized(t) && Acceptable(a) && !Concerns(a, k)
    ensures SlotOf(Defrag(t, a).0, k) == SlotOf(t, k)
  {
  }

  lemma DefragHere(t: Table, a: Arrival, k: Key)
    requires Sized(t) && Acceptable(a) && Concerns(a, k)
    ensures HEADER_SIZE <= k.size && Fits(SlotOf(t, k), k.size, PieceOf(a).value)
    ensures var r := Accept(SlotOf(t, k), k.size, PieceOf(a).value);
            SlotOf(Defrag(t, a).0, k) == r.0 && Defrag(t, a).1 == Finished(r.1)
  {
  }

  ghost predicate LongEnough(os: seq<Outcome>) {
    forall i | 0 <= i < |os| :: os[i].Delivered? ==> |os[i].d| >= HEADER_SIZE
  }

  lemma AcceptNone(s: Slot, size: nat)
    requires s.Filling? ==> |s.e.buf| == size
    ensures AllFit([], size) && AcceptAll(s, size, []) == (s, [])
  {
  }

  lemma FinishNext(os: seq<Outcome>, o: Outcome)
    requires LongEnough(os) && (o.Delivered? ==> |o.d| >= HEADER_SIZE)
    ensures LongEnough(os + [o]) && FinishedAll(os + [o]) == FinishedAll(os) + [Finished(o)]
  {
    assert (os + [o])[..|os|] == os;
  }

  /** Datagrams do not disturb each other: for the arrivals of one, the receiver acts as if there
      were no others. */
  lemma {:induction false} Isolated(t: Table, arrivals: seq<Arrival>, k: Key)
    requires Sized(t) && AllAcceptable(arrivals)
    ensures AllFit(Pieces(Own(arrivals, k)), k.size)
    ensures var alone := AcceptAll(SlotOf(t, k), k.size, Pieces(Own(arrivals, k)));
            var all := Receive(t, arrivals);
            && SlotOf(all.0, k) == alone.0 && LongEnough(alone.1)
            && OwnOutcomes(arrivals, all.1, k) == FinishedAll(alone.1)
    decreases |arrivals|
  {
    hide Defrag, Accept, PieceOf, KeyOf, AcceptAll, FragmentReadable;
    if arrivals == [] {
      AcceptNone(SlotOf(t, k), k.size);
    } else {
      var n := |arrivals| - 1;
      var init, last := arrivals[..n], arrivals[n];
      Isolated(t, init, k);
      var before := Receive(t, init);
      var now := Defrag(before.0, last);
      assert (before.1 + [now.1])[..n] == before.1;
      if Concerns(last, k) {
        DefragHere(before.0, last, k);
        var own, p := Own(init, k), PieceOf(last).value;
        assert Own(arrivals, k) == own + [last];
        assert (own + [last])[..|own|] == own;
        assert Pieces(own + [last]) == Pieces(own) + [p];
        AcceptNext(SlotOf(t, k), k.size, Pieces(own), p);
        FinishNext(AcceptAll(SlotOf(t, k), k.size, Pieces(own)).1, Accept(SlotOf(before.0, k), k.size, p).1);
      } else {
        DefragElsewhere(before.0, last, k);
        assert Own(arrivals, k) == Own(init, k);
        assert OwnOutcomes(arrivals, Receive(t, arrivals).1, k) == OwnOutcomes(init, before.1, k);
      }
    }
  }

  // ---------- From the sender to the receiver ----------

  /** A later fragment as it is on the wire. */
  function WireOf(size: nat, tag: nat, p: Piece): seq<bv8> {
    FragHeader(FRAGN, size, tag) + [Octet(p.off / 8)] + p.data
  }

  lemma {:induction false} NextWiresCarry(k: Cookie, c: seq<bv8>, room: nat -> int)
    requires InStep(k, |c|) && Roomy(room, |c|)
    ensures |NextWires(k, c, room)| == |Rest(k, c, room)|
    ensures forall i | 0 <= i < |Rest(k, c, room)| ::
              NextWires(k, c, room)[i] == WireOf(k.size, k.tag, Rest(k, c, room)[i])
    decreases |c| - k.copied
  {
    hide Units, Copy, FragHeader;
    var avail := room(k.copied);
    NextInStep(k, |c|, avail);
    NextOffset(k, |c|, avail);
    var u, n := Units(k, |c|, avail), Copy(k, |c|, avail);
    var next := Updated(k, u, n);
    if next.copied < |c| {
      NextWiresCarry(next, c, room);
    }
  }

  lemma HeaderLength(size: nat, tag: nat)
    ensures |FragHeader(FRAG1, size, tag)| == 4 && |FragHeader(FRAGN, size, tag)| == 4
  {
  }

  lemma WireCarries(size: nat, tag: nat, p: Piece, ls: Link, ld: Link)
    requires HEADER_SIZE <= size <= 2047 && tag < 65536
    requires p.off % 8 == 0 && p.off < 2048 && p.off + |p.data| <= size
    ensures var a := Arrival(WireOf(size, tag, p), ls, ld);
            && Concerns(a, Key(size, tag, Identity(ls), Identity(ld))) && PieceOf(a) == Some(p)
  {
    hide Octet, FragDispatch, SizeOf, TagOf, FragHeader, Identity, Decompressible, Plain;
    var w := WireOf(size, tag, p);
    assert w == FragHeader(FRAGN, size, tag) + ([Octet(p.off / 8)] + p.data);
    HeaderRoundTrips(size, tag, [Octet(p.off / 8)] + p.data);
    HeaderLength(size, tag);
    OctetValue(p.off / 8);
    assert w[5..] == p.data;
  }

  /** A packet with right length fields that the splitter is used for; a packet whose next header
      is carried in-line has some payload in its first fragment. */
  ghost predicate Sendable(p: seq<bv8>, ls: Link, ld: Link, room: nat -> int) {
    && Simple(p) && Transparent(p, ls, ld) && |p| <= 2047 && p[4..6] == Word(|p| - HEADER_SIZE)
    && Head(p, ls, ld).Some?
    && var comp := |Head(p, ls, ld).value|;
    && Roomy(room, |p| - HeadLength(p) + comp)
    && comp + FRAG1_SIZE + (if p[6] == UDP then 0 else 8) <= room(0)
  }

  function Cookie1(p: seq<bv8>, ls: Link, ld: Link, room: nat -> int, tag: nat): (k: Cookie)
    requires Simple(p) && Head(p, ls, ld).Some?
  {
    var comp := |Head(p, ls, ld).value|;
    FirstCookie(comp + |p| - HeadLength(p), |p|, comp, room(0), tag)
  }

  lemma TagOnly(len: nat, size: nat, comp: nat, avail: int, tag: nat)
    ensures FirstCookie(len, size, comp, avail, tag) == FirstCookie(len, size, comp, avail, 0).(tag := tag)
    ensures FirstCookie(len, size, comp, avail, tag).size == size
  {
    hide U8, U16;
  }

  lemma HeadSize(p: seq<bv8>, ls: Link, ld: Link)
    requires Simple(p) && Head(p, ls, ld).Some?
    ensures 2 <= |Head(p, ls, ld).value| <= 49
  {
    hide Encode, UdpEncode;
  }

  lemma Splits(p: seq<bv8>, ls: Link, ld: Link, room: nat -> int)
    requires Sendable(p, ls, ld, room)
    ensures var comp := |Head(p, ls, ld).value|;
            && Splittable(comp + |p| - HeadLength(p), |p|, comp, room(0))
            && Compress(p, ls, ld).Some? && |Compress(p, ls, ld).value| == comp + |p| - HeadLength(p)
  {
    hide Transparent, Head, Word;
    HeadSize(p, ls, ld);
  }

  lemma CookieTag(p: seq<bv8>, ls: Link, ld: Link, room: nat -> int, tag: nat)
    requires Sendable(p, ls, ld, room)
    ensures Cookie1(p, ls, ld, room, tag) == Cookie1(p, ls, ld, room, 0).(tag := tag)
    ensures var comp := |Head(p, ls, ld).value|;
            && Splittable(comp + |p| - HeadLength(p), |p|, comp, room(0))
            && InStep(Cookie1(p, ls, ld, room, tag), comp + |p| - HeadLength(p))
            && comp <= Cookie1(p, ls, ld, room, tag).copied && Cookie1(p, ls, ld, room, tag).size == |p|
            && Compress(p, ls, ld).Some? && |Compress(p, ls, ld).value| == comp + |p| - HeadLength(p)
  {
    hide FirstCookie, InStep, Splittable, Transparent, Head, Word, Compress;
    var comp := |Head(p, ls, ld).value|;
    Splits(p, ls, ld, room);
    TagOnly(comp + |p| - HeadLength(p), |p|, comp, room(0), tag);
    FirstInStep(comp + |p| - HeadLength(p), |p|, comp, room(0), tag);
  }

  lemma FirstPartSize(p: seq<bv8>, ls: Link, ld: Link, room: nat -> int)
    requires Sendable(p, ls, ld, room)
    ensures HeadLength(p) <= 8 * Cookie1(p, ls, ld, room, 0).off <= |p|
  {
    hide Transparent, Head, Word, FirstCookie;
    CookieTag(p, ls, ld, room, 0);
  }

  /** The part of the packet that is in the first fragment. */
  function FirstPart(p: seq<bv8>, ls: Link, ld: Link, room: nat -> int): (q: seq<bv8>)
    requires Sendable(p, ls, ld, room)
    ensures HeadLength(p) <= |q| <= |p| && q == p[..|q|] && Simple(q)
    ensures |q| == 8 * Cookie1(p, ls, ld, room, 0).off
  {
    FirstPartSize(p, ls, ld, room);
    p[..8 * Cookie1(p, ls, ld, room, 0).off]
  }

  lemma SameHead(p: seq<bv8>, q: seq<bv8>, ls: Link, ld: Link)
    requires Simple(p) && Simple(q) && |q| <= |p| && q == p[..|q|]
    ensures Head(q, ls, ld) == Head(p, ls, ld) && HeadLength(q) == HeadLength(p)
    ensures Transparent(p, ls, ld) && (p[6] == UDP || |q| > HEADER_SIZE) ==> Transparent(q, ls, ld)
  {
    hide Encode, UdpEncode, Faithful, Smeared, IsUdpDispatch, ExtNhc.IsExtension;
    assert q[..40] == p[..40] && q[6] == p[6];
    if p[6] == UDP {
      assert q[40..48] == p[40..48];
    } else if |q| > HEADER_SIZE {
      assert q[40] == p[40];
    }
  }

  lemma EnoughPayload(p: seq<bv8>, ls: Link, ld: Link, room: nat -> int)
    requires Sendable(p, ls, ld, room)
    ensures p[6] == UDP || |FirstPart(p, ls, ld, room)| > HEADER_SIZE
  {
    hide FirstCookie, Transparent, Head, Word;
    CookieTag(p, ls, ld, room, 0);
    var comp := |Head(p, ls, ld).value|;
    FirstInStep(comp + |p| - HeadLength(p), |p|, comp, room(0), 0);
  }

  /** Decompressing the first fragment gives the first part of the packet, with length fields
      that fit the fragment. */
  lemma FirstDecompressed(p: seq<bv8>, ls: Link, ld: Link, room: nat -> int)
    requires Sendable(p, ls, ld, room) && Compress(p, ls, ld).Some?
    ensures var c, n := Compress(p, ls, ld).value, Cookie1(p, ls, ld, room, 0).copied;
            && n <= |c| && Decompressible(c[..n]) && Decompress(c[..n], ls, ld) == Some(Relengthed(FirstPart(p, ls, ld, room)))
            && c[n..] == p[|FirstPart(p, ls, ld, room)|..]
  {
    hide FirstCookie, Decompressible, Decompress, Relengthed, Faithful, Smeared, IsUdpDispatch, ExtNhc.IsExtension, Splittable, Head;
    CookieTag(p, ls, ld, room, 0);
    var q := FirstPart(p, ls, ld, room);
    var head, h := Head(p, ls, ld).value, HeadLength(p);
    var c, n := Compress(p, ls, ld).value, Cookie1(p, ls, ld, room, 0).copied;
    assert c == head + p[h..];
    assert |q| == h + (n - |head|);
    SameHead(p, q, ls, ld);
    assert q[h..] == p[h..][..n - |head|];
    assert c[..n] == head + q[h..];
    assert c[n..] == p[|q|..];
    EnoughPayload(p, ls, ld, room);
    PacketRoundTrips(q, ls, ld);
  }

  function Sent(ws: seq<seq<bv8>>, ls: Link, ld: Link): (sent: seq<Arrival>)
    ensures |sent| == |ws|
    ensures forall i | 0 <= i < |ws| :: sent[i] == Arrival(ws[i], ls, ld)
  {
    seq(|ws|, i requires 0 <= i < |ws| => Arrival(ws[i], ls, ld))
  }

  function DatagramKey(p: seq<bv8>, ls: Link, ld: Link, tag: nat): Key {
    Key(|p|, tag, Identity(ls), Identity(ld))
  }

  /** The frames that are sent for a packet, with the link addresses they travel under. */
  function Frames(p: seq<bv8>, ls: Link, ld: Link, room: nat -> int, tag: nat): seq<Arrival>
    requires Sendable(p, ls, ld, room)
  {
    CookieTag(p, ls, ld, room, tag);
    Sent(Wires(Compress(p, ls, ld).value, |p|, |Head(p, ls, ld).value|, room, tag), ls, ld)
  }

  /** What the pieces add up to, before the length is put right. */
  function Rebuilt(p: seq<bv8>, ls: Link, ld: Link, room: nat -> int): (d: seq<bv8>)
    requires Sendable(p, ls, ld, room)
    ensures |d| == |p|
  {
    var q := FirstPart(p, ls, ld, room);
    Relengthed(q) + p[|q|..]
  }

  function AllPieces(p: seq<bv8>, ls: Link, ld: Link, room: nat -> int): seq<Piece>
    requires Sendable(p, ls, ld, room)
  {
    CookieTag(p, ls, ld, room, 0);
    [Piece(0, Relengthed(FirstPart(p, ls, ld, room)))]
    + Rest(Cookie1(p, ls, ld, room, 0), Compress(p, ls, ld).value, room)
  }

  /** Where the cursor stood when a later piece was cut. */
  function CursorOf(p: seq<bv8>, ls: Link, ld: Link, x: Piece): nat
    requires Simple(p) && Compress(p, ls, ld).Some?
  {
    CursorAt(x.off, |Compress(p, ls, ld).value|, |p|)
  }

  lemma RestNonEmpty(k: Cookie, c: seq<bv8>, room: nat -> int)
    requires InStep(k, |c|) && Roomy(room, |c|)
    ensures Rest(k, c, room) != []
  {
  }

  lemma Behind(a: seq<bv8>, b: seq<bv8>)
    ensures (a + b)[..|a|] == a == (a + b)[0..|a|] && (a + b)[|a|..] == b
  {
  }

  /** A first part and the pieces behind it tile the whole. */
  lemma TilesBehind(k: Cookie, c: seq<bv8>, room: nat -> int, first: seq<bv8>, b: seq<bv8>)
    requires InStep(k, |c|) && Roomy(room, |c|) && 0 < |first| == 8 * k.off && k.size == |first| + |b| && c[k.copied..] == b
    ensures var ps := [Piece(0, first)] + Rest(k, c, room);
            && Tiles(ps, 0, k.size, first + b) && |ps| >= 2
            && forall i | 1 <= i < |ps| ::
                 && ps[i].off % 8 == 0 && ps[i].off < 2048 && ps[i].off + |ps[i].data| <= k.size
                 && |ps[i].data| + FRAGN_SIZE <= room(CursorAt(ps[i].off, |c|, k.size))
  {
    hide Tiles, Rest, Roomy, InStep;
    var d := first + b;
    Behind(first, b);
    RestTiles(k, c, room, d);
    RestFits(k, c, room);
    RestNonEmpty(k, c, room);
    TilesParts(Rest(k, c, room), 8 * k.off, |d|, d);
    TilesCons(Piece(0, first), Rest(k, c, room), k.size, d);
  }

  /** The pieces tile the datagram. */
  lemma PiecesTile(p: seq<bv8>, ls: Link, ld: Link, room: nat -> int)
    requires Sendable(p, ls, ld, room)
    ensures Tiles(AllPieces(p, ls, ld, room), 0, |p|, Rebuilt(p, ls, ld, room)) && |AllPieces(p, ls, ld, room)| >= 2
    ensures forall i | 1 <= i < |AllPieces(p, ls, ld, room)| ::
              var x := AllPieces(p, ls, ld, room)[i];
              x.off % 8 == 0 && x.off < 2048 && x.off + |x.data| <= |p| && |x.data| + FRAGN_SIZE <= room(CursorOf(p, ls, ld, x))
  {
    hide FirstCookie, Transparent, Head, Relengthed, Tiles, Rest, Word, Roomy, Compress, InStep, Decompressible, Decompress,
      Splittable, CursorAt;
    CookieTag(p, ls, ld, room, 0);
    FirstDecompressed(p, ls, ld, room);
    var q := FirstPart(p, ls, ld, room);
    TilesBehind(Cookie1(p, ls, ld, room, 0), Compress(p, ls, ld).value, room, Relengthed(q), p[|q|..]);
  }

  lemma StepIgnoresTag(k: Cookie, len: nat, avail: int, tag: nat)
    ensures var k1 := k.(tag := tag);
            && Units(k1, len, avail) == Units(k, len, avail) && Copy(k1, len, avail) == Copy(k, len, avail)
            && forall u: nat, n: nat :: Updated(k1, u, n) == Updated(k, u, n).(tag := tag)
  {
    hide U8, U16;
  }

  lemma {:induction false} RestIgnoresTag(k: Cookie, c: seq<bv8>, room: nat -> int, tag: nat)
    requires InStep(k, |c|) && Roomy(room, |c|)
    ensures InStep(k.(tag := tag), |c|) && Rest(k.(tag := tag), c, room) == Rest(k, c, room)
    decreases |c| - k.copied
  {
    hide Units, Copy, Updated;
    var avail := room(k.copied);
    NextInStep(k, |c|, avail);
    StepIgnoresTag(k, |c|, avail, tag);
    var next := Updated(k, Units(k, |c|, avail), Copy(k, |c|, avail));
    if next.copied < |c| {
      RestIgnoresTag(next, c, room, tag);
    }
  }

  lemma FirstCarries(p: seq<bv8>, ls: Link, ld: Link, room: nat -> int, tag: nat)
    requires Sendable(p, ls, ld, room) && tag < 65536
    ensures var c := Compress(p, ls, ld).value;
            var k := Cookie1(p, ls, ld, room, tag);
            && k.copied <= |c|
            && var a := Arrival(FirstWire(k, c), ls, ld);
            && Concerns(a, DatagramKey(p, ls, ld, tag))
            && PieceOf(a) == Some(Piece(0, Relengthed(FirstPart(p, ls, ld, room))))
  {
    hide FirstCookie, Transparent, Relengthed, Octet, FragDispatch, SizeOf, TagOf, FragHeader, Identity, Decompressible,
      Decompress, Word, Head;
    CookieTag(p, ls, ld, room, tag);
    FirstDecompressed(p, ls, ld, room);
    Dispatched(p, ls, ld);
    var c := Compress(p, ls, ld).value;
    var k := Cookie1(p, ls, ld, room, tag);
    var w := FirstWire(k, c);
    HeaderRoundTrips(|p|, tag, c[..k.copied]);
    HeaderLength(|p|, tag);
    assert w[4..] == c[..k.copied];
    assert w[4] == c[0];
  }

  lemma FirstFits(p: seq<bv8>, ls: Link, ld: Link, room: nat -> int, tag: nat)
    requires Sendable(p, ls, ld, room)
    ensures Cookie1(p, ls, ld, room, tag).copied + FRAG1_SIZE <= room(0)
  {
    hide FirstCookie, Transparent, Head, Word, Splittable, InStep, Compress;
    Splits(p, ls, ld, room);
    var comp := |Head(p, ls, ld).value|;
    FirstInStep(comp + |p| - HeadLength(p), |p|, comp, room(0), tag);
  }

  /** Each frame carries its piece, fits the link, and belongs to the datagram. */
  lemma FramesCarry(p: seq<bv8>, ls: Link, ld: Link, room: nat -> int, tag: nat)
    requires Sendable(p, ls, ld, room) && tag < 65536
    ensures var fs, ps := Frames(p, ls, ld, room, tag), AllPieces(p, ls, ld, room);
            && |fs| == |ps|
            && forall i | 0 <= i < |fs| ::
                 && Concerns(fs[i], DatagramKey(p, ls, ld, tag)) && PieceOf(fs[i]) == Some(ps[i])
                 && fs[i].src == ls && fs[i].dst == ld && |fs[i].wire| <= room(if i == 0 then 0 else CursorOf(p, ls, ld, ps[i]))
  {
    hide FirstCookie, Transparent, Head, Relengthed, Word, PieceOf, KeyOf, FragmentReadable, Rest, NextWires, FragHeader,
      Identity;
    var fs, ps := Frames(p, ls, ld, room, tag), AllPieces(p, ls, ld, room);
    CookieTag(p, ls, ld, room, tag);
    PiecesTile(p, ls, ld, room);
    HeaderLength(|p|, tag);
    FirstCarries(p, ls, ld, room, tag);
    FirstFits(p, ls, ld, room, tag);
    var c, k := Compress(p, ls, ld).value, Cookie1(p, ls, ld, room, tag);
    RestIgnoresTag(Cookie1(p, ls, ld, room, 0), c, room, tag);
    NextWiresCarry(k, c, room);
    var ws := [FirstWire(k, c)] + NextWires(k, c, room);
    assert fs == Sent(ws, ls, ld);
    assert ps == [Piece(0, Relengthed(FirstPart(p, ls, ld, room)))] + Rest(k, c, room);
    forall i | 0 <= i < |fs|
      ensures Concerns(fs[i], DatagramKey(p, ls, ld, tag)) && PieceOf(fs[i]) == Some(ps[i])
      ensures fs[i].src == ls && fs[i].dst == ld && |fs[i].wire| <= room(if i == 0 then 0 else CursorOf(p, ls, ld, ps[i]))
    {
      if i > 0 {
        assert ws[i] == NextWires(k, c, room)[i - 1] && ps[i] == Rest(k, c, room)[i - 1];
        WireCarries(|p|, tag, ps[i], ls, ld);
      }
    }
  }

  // ---------- Delivery ----------

  /** The packet as it is handed over: the UDP length is the one of the first fragment. */
  function Received(p: seq<bv8>, ls: Link, ld: Link, room: nat -> int): seq<bv8>
    requires Sendable(p, ls, ld, room)
  {
    if p[6] == UDP then p[..44] + Word(|FirstPart(p, ls, ld, room)| - HEADER_SIZE) + p[46..] else p
  }

  lemma FinalizePlain(d: seq<bv8>)
    requires |d| >= HEADER_SIZE
    ensures Finalize(d, 0) == d[..4] + Word(|d| - HEADER_SIZE) + d[6..]
  {
    hide Word;
    assert d[6..] == [d[6]] + d[7..];
  }

  /** Both lengths of the first part are `w`; the first of them becomes `v`. */
  lemma UdpLengths(q: seq<bv8>, rest: seq<bv8>, w: seq<bv8>, v: seq<bv8>, d: seq<bv8>)
    requires |q| >= 48 && |w| == |v| == 2 && q[4..6] == v
    requires d == q[..4] + w + q[6..44] + w + q[46..] + rest
    ensures d[..4] + v + d[6..] == (q + rest)[..44] + w + (q + rest)[46..]
  {
    var x, y := d[..4] + v + d[6..], (q + rest)[..44] + w + (q + rest)[46..];
    assert q[4] == v[0] && q[5] == v[1];
    assert |d| == |q| + |rest|;
    forall i | 0 <= i < |q| + |rest|
      ensures x[i] == y[i]
    {
    }
  }

  lemma PlainLengths(q: seq<bv8>, rest: seq<bv8>, w: seq<bv8>, v: seq<bv8>, d: seq<bv8>)
    requires |q| >= 40 && |w| == |v| == 2 && q[4..6] == v
    requires d == q[..4] + w + q[6..] + rest
    ensures d[..4] + v + d[6..] == q + rest
  {
    var x := d[..4] + v + d[6..];
    assert q[4] == v[0] && q[5] == v[1];
    assert |d| == |q| + |rest|;
    forall i | 0 <= i < |q| + |rest|
      ensures x[i] == (q + rest)[i]
    {
    }
  }

  lemma Halves(p: seq<bv8>, n: nat)
    requires n <= |p|
    ensures p[..n] + p[n..] == p
  {
  }

  /** The first part `q` with its own lengths, the rest behind it, and then the length put right. */
  lemma FinishedParts(p: seq<bv8>, q: seq<bv8>)
    requires Simple(p) && Simple(q) && |q| <= |p| && q == p[..|q|] && p[4..6] == Word(|p| - HEADER_SIZE)
    ensures Finalize(Relengthed(q) + p[|q|..], 0) ==
            if p[6] == UDP then p[..44] + Word(|q| - HEADER_SIZE) + p[46..] else p
  {
    hide Finalize, Compressible;
    var d, w, v, rest := Relengthed(q) + p[|q|..], Word(|q| - HEADER_SIZE), Word(|p| - HEADER_SIZE), p[|q|..];
    hide Word;
    FinalizePlain(d);
    Halves(p, |q|);
    assert q[6] == p[6] && q[4..6] == p[4..6] == v;
    if p[6] == UDP {
      UdpLengths(q, rest, w, v, d);
    } else {
      PlainLengths(q, rest, w, v, d);
    }
  }

  lemma RebuiltFinished(p: seq<bv8>, ls: Link, ld: Link, room: nat -> int)
    requires Sendable(p, ls, ld, room)
    ensures Finalize(Rebuilt(p, ls, ld, room), 0) == Received(p, ls, ld, room)
  {
    hide Transparent, FirstCookie, Head, Finalize, Cookie1, Roomy, Compressible, Relengthed, Word;
    FinishedParts(p, FirstPart(p, ls, ld, room));
  }

  lemma {:induction false} FinishedNothing(n: nat)
    ensures LongEnough(seq(n, _ => Nothing)) && FinishedAll(seq(n, _ => Nothing)) == seq(n, _ => Nothing)
  {
    if n > 0 {
      FinishedNothing(n - 1);
      assert seq(n, _ => Nothing) == seq(n - 1, _ => Nothing) + [Nothing];
      FinishNext(seq(n - 1, _ => Nothing), Nothing);
    }
  }

  lemma FinishedOnce(n: nat, d: seq<bv8>)
    requires |d| >= HEADER_SIZE
    ensures LongEnough(seq(n, _ => Nothing) + [Delivered(d)])
    ensures FinishedAll(seq(n, _ => Nothing) + [Delivered(d)]) == seq(n, _ => Nothing) + [Delivered(Finalize(d, 0))]
  {
    FinishedNothing(n);
    FinishNext(seq(n, _ => Nothing), Delivered(d));
  }

  lemma FramesLoad(p: seq<bv8>, ls: Link, ld: Link, room: nat -> int, tag: nat)
    requires Sendable(p, ls, ld, room) && tag < 65536
    ensures Pieces(Frames(p, ls, ld, room, tag)) == AllPieces(p, ls, ld, room)
  {
    hide Frames, AllPieces, PieceOf, FragmentReadable, KeyOf;
    FramesCarry(p, ls, ld, room, tag);
    var fs := Frames(p, ls, ld, room, tag);
    forall i | 0 <= i < |fs|
      ensures Pieces(fs)[i] == AllPieces(p, ls, ld, room)[i]
    {
      assert CarriesPiece(fs[i]);
    }
  }

  lemma SizesOf(p: seq<bv8>, ls: Link, ld: Link, room: nat -> int)
    requires Sendable(p, ls, ld, room)
    ensures HEADER_SIZE <= |p| <= 2047
  {
  }

  /** Compressed, split, delivered in any order and between the frames of any other datagrams:
      the packet comes out once, at its last frame, and only its UDP length differs. */
  lemma DeliveredInAnyOrder(p: seq<bv8>, ls: Link, ld: Link, room: nat -> int, tag: nat, t: Table, arrivals: seq<Arrival>)
    requires Sendable(p, ls, ld, room) && tag < 65536
    requires Sized(t) && AllAcceptable(arrivals) && DatagramKey(p, ls, ld, tag) !in t
    requires multiset(Own(arrivals, DatagramKey(p, ls, ld, tag))) == multiset(Frames(p, ls, ld, room, tag))
    ensures var k := DatagramKey(p, ls, ld, tag);
            var r := Receive(t, arrivals);
            && k !in r.0
            && OwnOutcomes(arrivals, r.1, k) ==
               seq(|Frames(p, ls, ld, room, tag)| - 1, _ => Nothing) + [Delivered(Received(p, ls, ld, room))]
  {
    hide Sendable, Frames, Concerns, CarriesPiece, PieceOf, Receive, Own, OwnOutcomes, AcceptAll, Tiles, Identity,
      AllPieces, Rebuilt, Received, FirstPart, FinishedAll, Finalize, Mapped, Load;
    var k := DatagramKey(p, ls, ld, tag);
    var fs, ps, own := Frames(p, ls, ld, room, tag), AllPieces(p, ls, ld, room), Own(arrivals, k);
    var d := Rebuilt(p, ls, ld, room);
    FramesLoad(p, ls, ld, room, tag);
    PiecesTile(p, ls, ld, room);
    MappedPermutation(Load, own, fs);
    SameSize(own, fs);
    SizesOf(p, ls, ld, room);
    AnyOrder(ps, Pieces(own), d);
    Isolated(t, arrivals, k);
    FinishedOnce(|fs| - 1, d);
    RebuiltFinished(p, ls, ld, room);
  }

  lemma {:induction false} AllOwn(arrivals: seq<Arrival>, k: Key)
    requires forall i | 0 <= i < |arrivals| :: Concerns(arrivals[i], k)
    ensures Own(arrivals, k) == arrivals
  {
    hide Concerns;
    if arrivals != [] {
      AllOwn(arrivals[..|arrivals| - 1], k);
      assert arrivals == arrivals[..|arrivals| - 1] + [arrivals[|arrivals| - 1]];
    }
  }

  /** In particular, the frames as they were sent, to a receiver that holds nothing. */
  lemma DeliveredAsSent(p: seq<bv8>, ls: Link, ld: Link, room: nat -> int, tag: nat)
    requires Sendable(p, ls, ld, room) && tag < 65536
    ensures AllAcceptable(Frames(p, ls, ld, room, tag))
    ensures var fs := Frames(p, ls, ld, room, tag);
            OwnOutcomes(fs, Receive(map[], fs).1, DatagramKey(p, ls, ld, tag)) ==
            seq(|fs| - 1, _ => Nothing) + [Delivered(Received(p, ls, ld, room))]
  {
    hide Sendable, Frames, Receive, Own, OwnOutcomes, Received, Acceptable, PieceOf, FragmentReadable;
    var fs := Frames(p, ls, ld, room, tag);
    FramesCarry(p, ls, ld, room, tag);
    AllOwn(fs, DatagramKey(p, ls, ld, tag));
    DeliveredInAnyOrder(p, ls, ld, room, tag, map[], fs);
  }

  // ---------- Repeated fragments ----------

  lemma FinalizeAt(d: seq<bv8>)
    requires |d| >= HEADER_SIZE
    ensures forall j | 0 <= j < |d| && j != 4 && j != 5 :: Finalize(d, 0)[j] == d[j]
  {
    hide Word;
  }

  lemma VersionSet(b: bv8)
    requires IsVersion6(b)
    ensures b != 0
  {
  }

  lemma {:induction false} TilesFrom(ps: seq<Piece>, at: nat, end: nat, d: seq<bv8>, i: nat)
    requires Tiles(ps, at, end, d) && 0 < i < |ps|
    ensures ps[i].off >= at + |ps[0].data|
  {
    if i == 1 {
      assert ps[1..] != [] && ps[1] == ps[1..][0];
    } else {
      TilesFrom(ps[1..], at + |ps[0].data|, end, d, i - 1);
    }
  }

  /** The first piece starts with the version, and the others lie behind the length field. */
  lemma PieceKinds(p: seq<bv8>, ls: Link, ld: Link, room: nat -> int, i: nat)
    requires Sendable(p, ls, ld, room) && i < |AllPieces(p, ls, ld, room)|
    ensures var x := AllPieces(p, ls, ld, room)[i];
            if i == 0 then x.off == 0 && |x.data| > 0 && x.data[0] != 0 else x.off >= 6
  {
    hide FirstCookie, Head, Word, Roomy, Compress, InStep, Decompressible, Decompress, Splittable, Rest, Determined, Compatible;
    CookieTag(p, ls, ld, room, 0);
    PiecesTile(p, ls, ld, room);
    if i == 0 {
      VersionSet(p[0]);
    } else {
      var ps := AllPieces(p, ls, ld, room);
      TilesFrom(ps, 0, |p|, Rebuilt(p, ls, ld, room), i);
    }
  }

  /** What is handed over is the packet as it is otherwise exactly when what was held is whole. */
  lemma FinishedHeldIff(p: seq<bv8>, ls: Link, ld: Link, room: nat -> int, qs: seq<Piece>, buf: seq<bv8>)
    requires Sendable(p, ls, ld, room) && Holds(buf, Rebuilt(p, ls, ld, room), qs)
    requires forall q | q in qs :: q in AllPieces(p, ls, ld, room)
    ensures |buf| == |p|
    ensures Finalize(buf, 0) == Received(p, ls, ld, room) <==>
            forall x | x in AllPieces(p, ls, ld, room) :: x in qs || AllZero(x.data)
  {
    hide Sendable, AllPieces, Rebuilt, Received, Finalize, Tiles, AllZero, FirstPart;
    var d, ps := Rebuilt(p, ls, ld, room), AllPieces(p, ls, ld, room);
    SizesOf(p, ls, ld, room);
    PiecesTile(p, ls, ld, room);
    RebuiltFinished(p, ls, ld, room);
    HeldIff(ps, qs, buf, d);
    TilesParts(ps, 0, |d|, d);
    FinalizeAt(buf);
    FinalizeAt(d);
    if Finalize(buf, 0) == Finalize(d, 0) {
      forall i | 0 <= i < |ps| && ps[i] !in qs
        ensures AllZero(ps[i].data)
      {
        PieceKinds(p, ls, ld, room, i);
        assert IsPart(ps[i], d);
        if i == 0 {
          PartAt(ps[0], d, 0);
          Missing(ps, qs, buf, d, ps[0], 0);
        } else {
          MissingZero(ps, qs, buf, d, ps[i]);
        }
      }
    }
  }

  /** Fragments may arrive more than once, and others not at all: nothing comes out before the
      octets counted reach the size, and what comes out then is the packet exactly when every
      piece has arrived that is not all zeros. */
  lemma DeliveredWithRepetitions(p: seq<bv8>, ls: Link, ld: Link, room: nat -> int, tag: nat, t: Table, arrivals: seq<Arrival>)
    requires Sendable(p, ls, ld, room) && tag < 65536
    requires Sized(t) && AllAcceptable(arrivals) && DatagramKey(p, ls, ld, tag) !in t
    requires var own := Own(arrivals, DatagramKey(p, ls, ld, tag));
             && own != [] && (forall a | a in own :: a in Frames(p, ls, ld, room, tag))
             && SlpFragments.Octets(Pieces(own)[..|own| - 1]) < |p| <= SlpFragments.Octets(Pieces(own))
    ensures var k := DatagramKey(p, ls, ld, tag);
            var r := Receive(t, arrivals);
            var o, n := OwnOutcomes(arrivals, r.1, k), |Own(arrivals, k)|;
            && k !in r.0 && |o| == n && o == seq(n - 1, _ => Nothing) + [o[n - 1]] && o[n - 1].Delivered?
            && (o[n - 1] == Delivered(Received(p, ls, ld, room)) <==>
                forall x | x in AllPieces(p, ls, ld, room) :: x in Pieces(Own(arrivals, k)) || AllZero(x.data))
  {
    hide Sendable, Frames, Concerns, CarriesPiece, PieceOf, Receive, Own, OwnOutcomes, AcceptAll, Tiles, Identity,
      AllPieces, Rebuilt, Received, FirstPart, FinishedAll, Finalize, Mapped, Load, Holds, AllZero, SlpFragments.Octets;
    var k := DatagramKey(p, ls, ld, tag);
    var own, ps := Own(arrivals, k), AllPieces(p, ls, ld, room);
    var n, d := |own|, Rebuilt(p, ls, ld, room);
    FramesLoad(p, ls, ld, room, tag);
    PiecesTile(p, ls, ld, room);
    SizesOf(p, ls, ld, room);
    MappedSubset(Load, own, Frames(p, ls, ld, room, tag));
    WithRepetitions(ps, Pieces(own), d);
    var alone := AcceptAll(Empty, |p|, Pieces(own));
    var buf := alone.1[n - 1].d;
    Isolated(t, arrivals, k);
    FinishedOnce(n - 1, buf);
    FinishedHeldIff(p, ls, ld, room, Pieces(own), buf);
  }
}
