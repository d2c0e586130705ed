/** Fragmentation and reassembly in the 6LoWPAN layer (section 5.3 of RFC 4944). Offsets count
    octets of the decompressed datagram, while the cursor of the sender runs over the compressed
    one. */
module SlpFragments {
  import opened Permutations

  const FRAG1_SIZE: nat := 4
  const FRAGN_SIZE: nat := 5

  function U8(n: int): nat {
    n % 256
  }

  function U16(n: int): nat {
    n % 65536
  }

  // ---------- Splitting ----------

  /** What is kept between the fragments of a datagram. */
  datatype Cookie = Cookie(size: nat, tag: nat, off: nat, copied: nat)

  /** The first fragment of a compressed frame of `len` octets, `comp` of them headers
      (`frag_1st_comp`). */
  function FirstCookie(len: nat, size: nat, comp: nat, avail: int, tag: nat): Cookie {
    var diff := U16(size - len);
    var deco := U16(comp + diff);
    var rest := U16(avail - FRAG1_SIZE - comp);
    var off := U8(U16(rest + deco) / 8);
    var aligned := U16(U16(off * 8) - deco);
    Cookie(size, tag, off, U16(aligned + comp))
  }

  /** Eights of octets and octets that the next fragment moves on (`frag_nth`). */
  function Units(k: Cookie, len: nat, avail: int): nat {
    if U16(len - k.copied) <= U16(avail - FRAGN_SIZE) then 0 else U8(U16(avail - FRAGN_SIZE) / 8)
  }

  function Copy(k: Cookie, len: nat, avail: int): nat {
    if U16(len - k.copied) <= U16(avail - FRAGN_SIZE) then U16(len - k.copied) else U16(Units(k, len, avail) * 8)
  }

  /** `frag_update`. */
  function Updated(k: Cookie, units: nat, copy: nat): Cookie {
    k.(off := U8(k.off + units), copied := U16(k.copied + copy))
  }

  /** The frames and the link room for which the splitter is used: the frame does not fit, its
      headers do, and the decompressed headers fill whole units. */
  predicate Splittable(len: nat, size: nat, comp: nat, avail: int) {
    && comp <= len < 65536 && size <= 2047
    && 0 <= comp + (size - len) && (comp + (size - len)) % 8 == 0
    && 13 <= avail < len && comp + FRAG1_SIZE <= avail
  }

  /** The offset of the decompressed datagram and the cursor keep in step. */
  predicate InStep(k: Cookie, len: nat) {
    && len < 65536 && k.size <= 2047 && k.copied < len && 8 * k.off == k.copied + (k.size - len)
  }

  lemma Small(n: int)
    ensures 0 <= n < 65536 ==> U16(n) == n
    ensures 0 <= n < 256 ==> U8(n) == n
  {
  }

  lemma Wraps(a: int, b: int)
    ensures U16(a + U16(b)) == U16(a + b)
  {
  }

  lemma FirstInStep(len: nat, size: nat, comp: nat, avail: int, tag: nat)
    requires Splittable(len, size, comp, avail)
    ensures var k := FirstCookie(len, size, comp, avail, tag);
            InStep(k, len) && comp <= k.copied && k.copied + FRAG1_SIZE <= avail < k.copied + FRAG1_SIZE + 8
  {
    hide U8, U16;
    var deco := comp + (size - len);
    var rest := avail - FRAG1_SIZE - comp;
    var off := (rest + deco) / 8;
    assert rest + deco < 8 * off + 8 && 8 * off <= rest + deco;
    Wraps(comp, size - len);
    Small(deco);
    Small(rest);
    Small(rest + deco);
    Small(off);
    Small(off * 8);
    Small(off * 8 - deco);
    Small(off * 8 - deco + comp);
  }

  lemma NextInStep(k: Cookie, len: nat, avail: int)
    requires InStep(k, len) && 13 <= avail < len
    ensures var u, c := Units(k, len, avail), Copy(k, len, avail);
            && 0 < c <= len - k.copied && c + FRAGN_SIZE <= avail
            && (c < len - k.copied ==> InStep(Updated(k, u, c), len))
            && Updated(k, u, c).copied == k.copied + c
  {
    hide U8, U16;
    var u := (avail - FRAGN_SIZE) / 8;
    assert avail - FRAGN_SIZE < 8 * u + 8 && 8 * u <= avail - FRAGN_SIZE;
    Small(len - k.copied);
    Small(avail - FRAGN_SIZE);
    Small(u);
    Small(u * 8);
    Small(k.off + u);
    Small(k.copied + u * 8);
    Small(len);
  }

  /** The room the link has when the cursor stands at a place: always some, never for all. */
  ghost predicate Roomy(room: nat -> int, len: nat) {
    forall n :: 13 <= room(n) < len
  }

  /** What a fragment covers: where its octets go in the decompressed datagram. */
  datatype Piece = Piece(off: nat, data: seq<bv8>)

  /** The pieces after the first, of the compressed frame `c`. */
  function Rest(k: Cookie, c: seq<bv8>, room: nat -> int): seq<Piece>
    requires InStep(k, |c|) && Roomy(room, |c|)
    decreases |c| - k.copied
  {
    var avail := room(k.copied);
    NextInStep(k, |c|, avail);
    var u, n := Units(k, |c|, avail), Copy(k, |c|, avail);
    var next := Updated(k, u, n);
    [Piece(8 * k.off, c[k.copied..k.copied + n])] +
    if next.copied >= |c| then [] else Rest(next, c, room)
  }

  /** The pieces lie one behind the other from `at` to `end`, none of them empty, and have the
      octets of `d` there. */
  ghost predicate Tiles(ps: seq<Piece>, at: nat, end: nat, d: seq<bv8>) {
    if ps == [] then at == end
    else
      && var p := ps[0];
      p.off == at && 0 < |p.data| && at + |p.data| <= |d| && d[at..at + |p.data|] == p.data
      && Tiles(ps[1..], at + |p.data|, end, d)
  }

  /** Where the cursor stands in the compressed frame, from the offset in the datagram. */
  function CursorAt(off: nat, len: nat, size: nat): nat {
    if off + len >= size then off + len - size else 0
  }

  lemma NextOffset(k: Cookie, len: nat, avail: int)
    requires InStep(k, len) && 13 <= avail < len
    ensures var u, n := Units(k, len, avail), Copy(k, len, avail);
            && Updated(k, u, n).size == k.size
            && (n < len - k.copied ==> 8 * Updated(k, u, n).off == 8 * k.off + n)
  {
    NextInStep(k, len, avail);
  }

  lemma TilesCons(p: Piece, ps: seq<Piece>, end: nat, d: seq<bv8>)
    requires 0 < |p.data| && p.off + |p.data| <= |d| && d[p.off..p.off + |p.data|] == p.data
    requires Tiles(ps, p.off + |p.data|, end, d)
    ensures Tiles([p] + ps, p.off, end, d)
  {
    assert ([p] + ps)[1..] == ps;
  }

  /** Where the ends of two sequences agree, the next `n` octets and what follows them do. */
  lemma SameTail(c: seq<bv8>, i: nat, d: seq<bv8>, at: nat, n: nat)
    requires i + n <= |c| && at <= |d| && d[at..] == c[i..]
    ensures at + n <= |d| && d[at..at + n] == c[i..i + n] && d[at + n..] == c[i + n..]
    ensures i + n == |c| ==> at + n == |d|
  {
    assert |d[at..]| == |c[i..]|;
    assert d[at..at + n] == d[at..][..n] && c[i..i + n] == c[i..][..n];
    assert d[at + n..] == d[at..][n..] && c[i + n..] == c[i..][n..];
  }

  /** The later fragments tile the datagram behind the first. */
  lemma {:induction false} RestTiles(k: Cookie, c: seq<bv8>, room: nat -> int, d: seq<bv8>)
    requires InStep(k, |c|) && Roomy(room, |c|)
    requires |d| == k.size && d[8 * k.off..] == c[k.copied..]
    ensures Tiles(Rest(k, c, room), 8 * k.off, |d|, d)
    decreases |c| - k.copied
  {
    hide Units, Copy, Updated, Tiles;
    var avail := room(k.copied);
    NextInStep(k, |c|, avail);
    NextOffset(k, |c|, avail);
    var u, n := Units(k, |c|, avail), Copy(k, |c|, avail);
    var next := Updated(k, u, n);
    var at := 8 * k.off;
    SameTail(c, k.copied, d, at, n);
    var p := Piece(at, c[k.copied..k.copied + n]);
    if next.copied < |c| {
      RestTiles(next, c, room, d);
      TilesCons(p, Rest(next, c, room), |d|, d);
    } else {
      TilesCons(p, [], |d|, d);
    }
  }

  /** Each of them fits the room that the link has when it is cut. */
  lemma {:induction false} RestFits(k: Cookie, c: seq<bv8>, room: nat -> int)
    requires InStep(k, |c|) && Roomy(room, |c|)
    ensures forall p | p in Rest(k, c, room) ::
              |p.data| + FRAGN_SIZE <= room(CursorAt(p.off, |c|, k.size)) && p.off % 8 == 0 && p.off < 2048
    decreases |c| - k.copied
  {
    hide Units, Copy, Updated;
    var avail := room(k.copied);
    NextInStep(k, |c|, avail);
    NextOffset(k, |c|, avail);
    var u, n := Units(k, |c|, avail), Copy(k, |c|, avail);
    var next := Updated(k, u, n);
    var p := Piece(8 * k.off, c[k.copied..k.copied + n]);
    assert CursorAt(p.off, |c|, k.size) == k.copied;
    if next.copied < |c| {
      RestFits(next, c, room);
      assert Rest(k, c, room) == [p] + Rest(next, c, room);
    } else {
      assert Rest(k, c, room) == [p];
    }
  }

  // ---------- Reassembly of one datagram ----------

  /** A datagram being reassembled. */
  datatype Entry = Entry(buf: seq<bv8>, copied: nat)
  datatype Slot = Empty | Filling(e: Entry)
  datatype Outcome = Nothing | Delivered(d: seq<bv8>)

  function Placed(buf: seq<bv8>, p: Piece): (r: seq<bv8>)
    requires p.off + |p.data| <= |buf|
    ensures |r| == |buf|
  {
    buf[..p.off] + p.data + buf[p.off + |p.data|..]
  }

  function Zeros(n: nat): (z: seq<bv8>)
    ensures |z| == n
  {
    seq(n, _ => 0)
  }

  predicate Fits(s: Slot, size: nat, p: Piece) {
    && p.off + |p.data| <= size
    && (s.Filling? ==> |s.e.buf| == size)
  }

  /** One fragment (`defrag_new`, `defrag_update`). */
  function Accept(s: Slot, size: nat, p: Piece): (r: (Slot, Outcome))
    requires Fits(s, size, p)
    ensures r.0.Filling? ==> |r.0.e.buf| == size
    ensures r.1.Delivered? ==> |r.1.d| == size && r.0 == Empty
  {
    match s
    case Empty => (Filling(Entry(Placed(Zeros(size), p), U16(|p.data|))), Nothing)
    case Filling(e) =>
      var n := U16(e.copied + U16(|p.data|));
      if n >= size then (Empty, Delivered(Placed(e.buf, p)))
      else (Filling(Entry(Placed(e.buf, p), n)), Nothing)
  }

  predicate AllFit(ps: seq<Piece>, size: nat) {
    forall p | p in ps :: p.off + |p.data| <= size
  }

  /** A run: the last slot and what came out at each step. */
  function AcceptAll(s: Slot, size: nat, ps: seq<Piece>): (r: (Slot, seq<Outcome>))
    requires AllFit(ps, size) && (s.Filling? ==> |s.e.buf| == size)
    ensures r.0.Filling? ==> |r.0.e.buf| == size
    ensures |r.1| == |ps|
    decreases |ps|
  {
    if ps == [] then (s, [])
    else
      var before := AcceptAll(s, size, ps[..|ps| - 1]);
      var now := Accept(before.0, size, ps[|ps| - 1]);
      (now.0, before.1 + [now.1])
  }

  function Octets(ps: seq<Piece>): nat {
    if ps == [] then 0 else Octets(ps[..|ps| - 1]) + |ps[|ps| - 1].data|
  }

  /** The octet at `j` is in one of the pieces. */
  ghost predicate Reached(ps: seq<Piece>, j: int) {
    exists p :: p in ps && p.off <= j < p.off + |p.data|
  }

  /** The octets of `d` where a piece has put them, and zeros elsewhere. */
  ghost predicate Holds(buf: seq<bv8>, d: seq<bv8>, ps: seq<Piece>) {
    |buf| == |d| && forall j | 0 <= j < |d| :: buf[j] == if Reached(ps, j) then d[j] else 0
  }

  ghost predicate IsPart(p: Piece, d: seq<bv8>) {
    p.off + |p.data| <= |d| && p.data == d[p.off..p.off + |p.data|]
  }

  lemma ReachedNext(init: seq<Piece>, last: Piece, j: int)
    ensures Reached(init + [last], j) <==> Reached(init, j) || last.off <= j < last.off + |last.data|
  {
    if Reached(init, j) {
      var p :| p in init && p.off <= j < p.off + |p.data|;
      assert p in init + [last];
    }
    assert last in init + [last];
  }

  /** One more piece of `d`. */
  lemma PlaceOne(buf: seq<bv8>, d: seq<bv8>, init: seq<Piece>, last: Piece)
    requires IsPart(last, d) && Holds(buf, d, init)
    ensures Holds(Placed(buf, last), d, init + [last])
  {
    var r := Placed(buf, last);
    forall j | 0 <= j < |d|
      ensures r[j] == if Reached(init + [last], j) then d[j] else 0
    {
      ReachedNext(init, last, j);
      if last.off <= j < last.off + |last.data| {
        assert last.data[j - last.off] == d[j];
      }
    }
  }

  lemma HoldsNothing(d: seq<bv8>)
    ensures Holds(Zeros(|d|), d, [])
  {
  }

  lemma Unfold(ps: seq<Piece>, size: nat)
    requires 0 < |ps|
    ensures Octets(ps) == Octets(ps[..|ps| - 1]) + |ps[|ps| - 1].data| && Octets([]) == 0
    ensures AllFit(ps, size) ==>
              var before := AcceptAll(Empty, size, ps[..|ps| - 1]);
              var now := Accept(before.0, size, ps[|ps| - 1]);
              && AcceptAll(Empty, size, ps) == (now.0, before.1 + [now.1])
              && (|ps| == 1 ==> before == (Empty, []))
  {
  }

  lemma PartsFit(qs: seq<Piece>, d: seq<bv8>)
    requires forall q | q in qs :: IsPart(q, d)
    ensures AllFit(qs, |d|)
  {
  }

  /** The first piece. */
  lemma AcceptFirst(d: seq<bv8>, p: Piece)
    requires IsPart(p, d) && |d| < 65536
    ensures var r := Accept(Empty, |d|, p);
            r == (Filling(Entry(r.0.e.buf, |p.data|)), Nothing) && Holds(r.0.e.buf, d, [p])
  {
    hide U16, Holds, Placed, Zeros;
    Small(|p.data|);
    HoldsNothing(d);
    PlaceOne(Zeros(|d|), d, [], p);
    assert [] + [p] == [p];
  }

  /** One more piece, which may complete the datagram. */
  lemma AcceptPart(e: Entry, d: seq<bv8>, init: seq<Piece>, p: Piece)
    requires IsPart(p, d) && Holds(e.buf, d, init) && e.copied + |p.data| < 65536
    ensures var b := Placed(e.buf, p);
            && Holds(b, d, init + [p])
            && Accept(Filling(e), |d|, p) ==
               if e.copied + |p.data| < |d| then (Filling(Entry(b, e.copied + |p.data|)), Nothing) else (Empty, Delivered(b))
  {
    hide U16, Placed;
    Small(|p.data|);
    Small(e.copied + |p.data|);
    PlaceOne(e.buf, d, init, p);
  }

  /** While less than the datagram has arrived, nothing comes out and every piece is in place. */
  lemma {:induction false} Filled(ps: seq<Piece>, d: seq<bv8>)
    requires 0 < |ps| && Octets(ps) < |d| < 65536 && forall p | p in ps :: IsPart(p, d)
    ensures AllFit(ps, |d|)
    ensures var r := AcceptAll(Empty, |d|, ps);
            && r.0.Filling? && r.0.e.copied == Octets(ps) && Holds(r.0.e.buf, d, ps)
            && (forall i | 0 <= i < |r.1| :: r.1[i] == Nothing)
  {
    hide Holds, AcceptAll, Octets, Accept, Placed, IsPart, AllFit;
    var init, last := ps[..|ps| - 1], ps[|ps| - 1];
    PartsFit(ps, d);
    Unfold(ps, |d|);
    assert ps == init + [last];
    assert forall p | p in init :: p in ps;
    assert last in ps;
    if init == [] {
      AcceptFirst(d, last);
    } else {
      Filled(init, d);
      AcceptPart(AcceptAll(Empty, |d|, init).0.e, d, init, last);
    }
  }

  // ---------- Any order ----------

  lemma {:induction false} OctetsConcat(ps: seq<Piece>, qs: seq<Piece>)
    ensures Octets(ps + qs) == Octets(ps) + Octets(qs)
  {
    if qs == [] {
      assert ps + qs == ps;
    } else {
      var n := |qs| - 1;
      OctetsConcat(ps, qs[..n]);
      assert (ps + qs)[..|ps| + n] == ps + qs[..n];
    }
  }

  lemma OctetsOne(p: Piece)
    ensures Octets([p]) == |p.data|
  {
    assert [p][..0] == [];
  }

  lemma OctetsRemove(ps: seq<Piece>, i: nat)
    requires i < |ps|
    ensures Octets(ps) == Octets(ps[..i] + ps[i + 1..]) + |ps[i].data|
  {
    hide Octets;
    OctetsOne(ps[i]);
    OctetsConcat(ps[..i], [ps[i]]);
    OctetsConcat(ps[..i] + [ps[i]], ps[i + 1..]);
    OctetsConcat(ps[..i], ps[i + 1..]);
    assert ps == ps[..i] + [ps[i]] + ps[i + 1..];
  }

  lemma {:induction false} OctetsOfPermutation(ps: seq<Piece>, qs: seq<Piece>)
    requires multiset(ps) == multiset(qs)
    ensures Octets(ps) == Octets(qs)
    decreases |ps|
  {
    hide Octets;
    SameSize(ps, qs);
    if ps == [] {
      assert qs == [];
    } else {
      var i := Partner(ps, qs);
      OctetsOfPermutation(ps[1..], qs[..i] + qs[i + 1..]);
      OctetsRemove(ps, 0);
      assert ps[..0] + ps[1..] == ps[1..];
      OctetsRemove(qs, i);
    }
  }

  lemma {:induction false} TilesOctets(ps: seq<Piece>, at: nat, end: nat, d: seq<bv8>)
    requires Tiles(ps, at, end, d)
    ensures at + Octets(ps) == end
  {
    if ps != [] {
      hide Octets;
      TilesOctets(ps[1..], at + |ps[0].data|, end, d);
      OctetsOne(ps[0]);
      OctetsConcat([ps[0]], ps[1..]);
      assert ps == [ps[0]] + ps[1..];
    }
  }

  lemma {:induction false} TilesParts(ps: seq<Piece>, at: nat, end: nat, d: seq<bv8>)
    requires Tiles(ps, at, end, d)
    ensures forall p | p in ps :: IsPart(p, d) && 0 < |p.data|
  {
    if ps != [] {
      TilesParts(ps[1..], at + |ps[0].data|, end, d);
      assert IsPart(ps[0], d);
      forall p | p in ps
        ensures IsPart(p, d) && 0 < |p.data|
      {
        assert p == ps[0] || p in ps[1..];
      }
    }
  }

  lemma {:induction false} TilesCover(ps: seq<Piece>, at: nat, end: nat, d: seq<bv8>, j: nat)
    requires Tiles(ps, at, end, d) && at <= j < end
    ensures exists p :: p in ps && p.off <= j < p.off + |p.data|
  {
    var p := ps[0];
    assert p in ps;
    if j >= at + |p.data| {
      TilesCover(ps[1..], at + |p.data|, end, d, j);
      var q :| q in ps[1..] && q.off <= j < q.off + |q.data|;
      assert q in ps;
    }
  }

  /** The pieces of a tiling do not overlap. */
  lemma {:induction false} TilesOnce(ps: seq<Piece>, at: nat, end: nat, d: seq<bv8>, p: Piece, q: Piece, j: nat)
    requires Tiles(ps, at, end, d) && p in ps && q in ps
    requires p.off <= j < p.off + |p.data| && q.off <= j < q.off + |q.data|
    ensures p == q && at <= p.off
  {
    var next := at + |ps[0].data|;
    if p != ps[0] && q != ps[0] {
      TilesOnce(ps[1..], next, end, d, p, q, j);
    } else if p != ps[0] {
      TilesOnce(ps[1..], next, end, d, p, p, j);
    } else if q != ps[0] {
      TilesOnce(ps[1..], next, end, d, q, q, j);
    }
  }

  lemma {:induction false} Covered(ps: seq<Piece>, qs: seq<Piece>, buf: seq<bv8>, d: seq<bv8>)
    requires Tiles(ps, 0, |d|, d) && Holds(buf, d, qs) && forall p | p in ps :: p in qs
    ensures buf == d
  {
    forall j | 0 <= j < |d|
      ensures buf[j] == d[j]
    {
      TilesCover(ps, 0, |d|, d, j);
      assert Reached(qs, j);
    }
  }

  ghost predicate AllZero(s: seq<bv8>) {
    forall i | 0 <= i < |s| :: s[i] == 0
  }

  /** Where a piece has not arrived there are zeros. */
  lemma Missing(ps: seq<Piece>, qs: seq<Piece>, buf: seq<bv8>, d: seq<bv8>, p: Piece, j: nat)
    requires Tiles(ps, 0, |d|, d) && Holds(buf, d, qs) && forall q | q in qs :: q in ps
    requires p in ps && p !in qs && p.off <= j < p.off + |p.data| && j < |d|
    ensures buf[j] == 0
  {
    if Reached(qs, j) {
      var q :| q in qs && q.off <= j < q.off + |q.data|;
      TilesOnce(ps, 0, |d|, d, p, q, j);
    }
  }

  lemma PartAt(p: Piece, d: seq<bv8>, j: nat)
    requires IsPart(p, d) && p.off <= j < p.off + |p.data|
    ensures p.data[j - p.off] == d[j]
  {
    assert p.data[j - p.off] == d[p.off..p.off + |p.data|][j - p.off];
  }

  /** Where what is held agrees with the datagram, a missing piece is all zeros. */
  lemma MissingZero(ps: seq<Piece>, qs: seq<Piece>, buf: seq<bv8>, d: seq<bv8>, p: Piece)
    requires Tiles(ps, 0, |d|, d) && Holds(buf, d, qs) && forall q | q in qs :: q in ps
    requires p in ps && p !in qs && p.off + |p.data| <= |d| && forall j | p.off <= j < p.off + |p.data| :: buf[j] == d[j]
    ensures AllZero(p.data)
  {
    hide Tiles, Holds, IsPart;
    TilesParts(ps, 0, |d|, d);
    forall i | 0 <= i < |p.data|
      ensures p.data[i] == 0
    {
      Missing(ps, qs, buf, d, p, p.off + i);
      PartAt(p, d, p.off + i);
    }
  }

  lemma HeldAll(ps: seq<Piece>, qs: seq<Piece>, buf: seq<bv8>, d: seq<bv8>)
    requires Tiles(ps, 0, |d|, d) && Holds(buf, d, qs) && forall p | p in ps :: p in qs || AllZero(p.data)
    ensures buf == d
  {
    hide Tiles, IsPart;
    TilesParts(ps, 0, |d|, d);
    forall j | 0 <= j < |d|
      ensures buf[j] == d[j]
    {
      TilesCover(ps, 0, |d|, d, j);
      var p :| p in ps && p.off <= j < p.off + |p.data|;
      PartAt(p, d, j);
      if p in qs {
        assert Reached(qs, j);
      }
    }
  }

  /** What is held is the datagram exactly when every piece has arrived that is not all zeros. */
  lemma HeldIff(ps: seq<Piece>, qs: seq<Piece>, buf: seq<bv8>, d: seq<bv8>)
    requires Tiles(ps, 0, |d|, d) && Holds(buf, d, qs) && forall q | q in qs :: q in ps
    ensures buf == d <==> forall p | p in ps :: p in qs || AllZero(p.data)
  {
    hide Tiles, Holds, AllZero;
    TilesParts(ps, 0, |d|, d);
    if buf == d {
      forall p | p in ps && p !in qs
        ensures AllZero(p.data)
      {
        assert IsPart(p, d);
        MissingZero(ps, qs, buf, d, p);
      }
    }
    if forall p | p in ps :: p in qs || AllZero(p.data) {
      HeldAll(ps, qs, buf, d);
    }
  }

  /** The piece with which the octets counted reach the size completes the datagram. */
  lemma {:induction false} Last(qs: seq<Piece>, d: seq<bv8>)
    requires 2 <= |qs| && |d| < 65536 && forall q | q in qs :: IsPart(q, d)
    requires Octets(qs[..|qs| - 1]) < |d| <= Octets(qs) < 65536
    ensures AllFit(qs, |d|)
    ensures var r := AcceptAll(Empty, |d|, qs);
            && r.0 == Empty && |r.1| == |qs| && r.1[|qs| - 1].Delivered? && Holds(r.1[|qs| - 1].d, d, qs)
            && (forall i | 0 <= i < |qs| - 1 :: r.1[i] == Nothing)
  {
    hide Holds, AcceptAll, Octets, Accept, Placed, IsPart, AllFit;
    var n := |qs| - 1;
    var init, last := qs[..n], qs[n];
    PartsFit(qs, d);
    Unfold(qs, |d|);
    assert qs == init + [last];
    assert forall p | p in init :: p in qs;
    assert last in qs;
    Filled(init, d);
    AcceptPart(AcceptAll(Empty, |d|, init).0.e, d, init, last);
  }

  /** The pieces of a datagram, each once, in any order: nothing comes out before the last one,
      and then the whole datagram does. */
  lemma {:induction false} AnyOrder(ps: seq<Piece>, qs: seq<Piece>, d: seq<bv8>)
    requires Tiles(ps, 0, |d|, d) && 2 <= |ps| && |d| < 65536 && multiset(qs) == multiset(ps)
    ensures |qs| == |ps| && AllFit(qs, |d|)
    ensures AcceptAll(Empty, |d|, qs) == (Empty, seq(|qs| - 1, _ => Nothing) + [Delivered(d)])
  {
    TilesOctets(ps, 0, |d|, d);
    TilesParts(ps, 0, |d|, d);
    OctetsOfPermutation(ps, qs);
    assert |multiset(qs)| == |qs| && |multiset(ps)| == |ps|;
    forall q | q in qs
      ensures IsPart(q, d) && 0 < |q.data|
    {
      assert q in multiset(ps);
    }
    forall p | p in ps
      ensures p in qs
    {
      assert p in multiset(qs);
    }
    assert qs[|qs| - 1] in qs;
    Last(qs, d);
    var r := AcceptAll(Empty, |d|, qs);
    Covered(ps, qs, r.1[|qs| - 1].d, d);
    assert r.1 == seq(|qs| - 1, _ => Nothing) + [Delivered(d)];
  }

  /** A piece of a tiling of several is shorter than the whole. */
  lemma PieceShorter(ps: seq<Piece>, d: seq<bv8>, p: Piece)
    requires Tiles(ps, 0, |d|, d) && 2 <= |ps| && p in ps
    ensures 0 < |p.data| < |d|
  {
    TilesParts(ps, 0, |d|, d);
    var q := if ps[0] == p then ps[1] else ps[0];
    assert q in ps;
    if |p.data| == |d| && ps[0] != p {
      TilesOnce(ps, 0, |d|, d, p, q, q.off);
    }
  }

  /** The pieces of a datagram with repetitions: nothing comes out before the octets counted reach
      the size, and then what has arrived does, with zeros where nothing has. */
  lemma {:induction false} WithRepetitions(ps: seq<Piece>, qs: seq<Piece>, d: seq<bv8>)
    requires Tiles(ps, 0, |d|, d) && 2 <= |ps| && |d| <= 2047 && forall q | q in qs :: q in ps
    requires qs != [] && Octets(qs[..|qs| - 1]) < |d| <= Octets(qs)
    ensures AllFit(qs, |d|) && 2 <= |qs|
    ensures var r := AcceptAll(Empty, |d|, qs);
            && r.0 == Empty && |r.1| == |qs| && r.1[|qs| - 1].Delivered?
            && r.1 == seq(|qs| - 1, _ => Nothing) + [r.1[|qs| - 1]]
            && Holds(r.1[|qs| - 1].d, d, qs)
            && (r.1[|qs| - 1].d == d <==> forall p | p in ps :: p in qs || AllZero(p.data))
  {
    hide Octets, Holds, AcceptAll, Tiles, IsPart;
    var n := |qs| - 1;
    assert qs[n] in qs;
    PieceShorter(ps, d, qs[n]);
    TilesParts(ps, 0, |d|, d);
    Unfold(qs, |d|);
    Last(qs, d);
    var r := AcceptAll(Empty, |d|, qs);
    HeldIff(ps, qs, r.1[n].d, d);
    assert r.1 == seq(n, _ => Nothing) + [r.1[n]];
  }
}
