/** The fragmenting sender and the reassembling receiver of the 6LoWPAN layer, on their state. */
module SlpDriver {
  import opened Wrappers
  import Iphc
  import IphcHeader
  import IphcDriver
  import UdpNhc
  import ExtNhc
  import SlpPacket
  import opened SlpFragments
  import opened SlpDelivery

  lemma NextWiresStep(k: Cookie, c: seq<bv8>, room: nat -> int)
    requires InStep(k, |c|) && Roomy(room, |c|)
    ensures (NextInStep(k, |c|, room(k.copied));
             var u, n := Units(k, |c|, room(k.copied)), Copy(k, |c|, room(k.copied));
             var next := Updated(k, u, n);
             && k.copied + n <= |c|
             && NextWires(k, c, room) ==
                [NextWire(k, c, n)] + if next.copied >= |c| then [] else NextWires(next, c, room))
  {
    NextInStep(k, |c|, room(k.copied));
  }

  lemma WrittenBehind(s: seq<bv8>, d: nat, v: seq<bv8>)
    requires d + |v| == |s|
    ensures IphcDriver.Written(s, d, v) == s[..d] + v
  {
  }

  /** A compressed datagram being sent: the frame, and the cookie kept for its later fragments. */
  class FragSender {
    const frame: array<bv8>
    var size: nat
    var tag: nat
    var off: nat
    var copied: nat

    constructor (frame: array<bv8>)
      ensures this.frame == frame
    {
      this.frame := frame;
      size, tag, off, copied := 0, 0, 0, 0;
    }

    ghost function Progress(): Cookie
      reads this
    {
      Cookie(size, tag, off, copied)
    }

    /** `frag_fill`: the header, and octets of the frame behind it. */
    method FragFill(frag: array<bv8>, dispatch: bv8, off: nat, offset: nat, copy: nat)
      requires frag != frame && (offset == 4 || offset == 5) && frag.Length == offset + copy && 5 <= frag.Length
      requires copied + copy <= frame.Length
      modifies frag
      ensures frag[..] == FragHeader(dispatch, size, tag) + (if offset == 5 then [UdpNhc.Octet(off)] else [])
                          + frame[copied..copied + copy]
    {
      hide WithSize, UdpNhc.Octet, IphcDriver.Written;
      frag[0] := WithSize(dispatch, UdpNhc.Octet(size / 256));
      frag[1] := UdpNhc.Octet(size);
      frag[2] := UdpNhc.Octet(tag / 256);
      frag[3] := UdpNhc.Octet(tag);
      frag[4] := UdpNhc.Octet(off);
      ghost var s := frag[..];
      assert s[..offset] == FragHeader(dispatch, size, tag) + (if offset == 5 then [UdpNhc.Octet(off)] else []);
      IphcDriver.BufMove(frag, offset, frame, copied, copy);
      WrittenBehind(s, offset, frame[copied..copied + copy]);
    }

    /** `frag_1st_comp`: the first fragment, and the cookie for the others. */
    method Frag1stComp(dgramSize: nat, comp: nat, avail: int, dgramTag: nat) returns (frag: array<bv8>)
      requires Splittable(frame.Length, dgramSize, comp, avail) && 2 <= comp
      modifies this
      ensures fresh(frag)
      ensures Progress() == FirstCookie(frame.Length, dgramSize, comp, avail, dgramTag)
      ensures copied <= frame.Length && frag[..] == FirstWire(Progress(), frame[..])
    {
      hide U8, U16, FragHeader, WithSize;
      FirstInStep(frame.Length, dgramSize, comp, avail, dgramTag);
      var diff := U16(dgramSize - frame.Length);
      var deco := U16(comp + diff);
      var rest := U16(avail - FRAG1_SIZE - comp);
      var units := U8(U16(rest + deco) / 8);
      rest := U16(U16(units * 8) - deco);
      var copy := U16(rest + comp);
      size, tag, off, copied := dgramSize, dgramTag, units, 0;
      frag := new bv8[FRAG1_SIZE + copy](_ => 0);
      FragFill(frag, FRAG1, 0, FRAG1_SIZE, copy);
      copied := copy;
    }

    /** `frag_nth` and `frag_update`: the next fragment, and whether it is the last. */
    method FragNth(avail: int) returns (frag: array<bv8>, done: bool)
      requires InStep(Progress(), frame.Length) && 13 <= avail < frame.Length
      modifies this
      ensures fresh(frag)
      ensures var k := old(Progress());
              var u, n := Units(k, frame.Length, avail), Copy(k, frame.Length, avail);
              && k.copied + n <= frame.Length && frag[..] == NextWire(k, frame[..], n)
              && Progress() == Updated(k, u, n) && (done <==> copied >= frame.Length)
    {
      hide U8, U16, FragHeader, WithSize;
      NextInStep(Progress(), frame.Length, avail);
      var left := U16(frame.Length - copied);
      var units, copy := 0, left;
      if left > U16(avail - FRAGN_SIZE) {
        units := U8(U16(avail - FRAGN_SIZE) / 8);
        copy := U16(units * 8);
      }
      frag := new bv8[FRAGN_SIZE + copy](_ => 0);
      FragFill(frag, FRAGN, off, FRAGN_SIZE, copy);
      off := U8(off + units);
      copied := U16(copied + copy);
      done := copied >= frame.Length;
    }

    /** All fragments of the frame, for a link whose room may differ from one to the next. It ends. */
    method SendAll(dgramSize: nat, comp: nat, room: nat -> int, dgramTag: nat) returns (wires: seq<seq<bv8>>)
      requires Splittable(frame.Length, dgramSize, comp, room(0)) && Roomy(room, frame.Length) && 2 <= comp
      modifies this
      ensures wires == Wires(frame[..], dgramSize, comp, room, dgramTag)
    {
      hide FirstCookie, Units, Copy, Updated, FirstWire, NextWire, NextWires, Splittable;
      FirstInStep(frame.Length, dgramSize, comp, room(0), dgramTag);
      var frag := Frag1stComp(dgramSize, comp, room(0), dgramTag);
      wires := [frag[..]];
      ghost var c, all := frame[..], Wires(frame[..], dgramSize, comp, room, dgramTag);
      var done := false;
      while !done
        invariant frame[..] == c
        invariant if done then wires == all
                  else InStep(Progress(), frame.Length) && wires + NextWires(Progress(), c, room) == all
        decreases !done, frame.Length - copied
      {
        NextInStep(Progress(), frame.Length, room(copied));
        ghost var k := Progress();
        frag, done := FragNth(room(copied));
        NextWiresStep(k, c, room);
        wires := wires + [frag[..]];
      }
    }
  }

  /** The receiver: the datagrams being reassembled. */
  class Reassembler {
    var table: Table

    constructor ()
      ensures table == map[]
    {
      table := map[];
    }

    /** `defrag`, with `defrag_new` and `defrag_update`. */
    method Process(a: Arrival) returns (o: Outcome)
      requires Sized(table) && Acceptable(a)
      modifies this
      ensures Sized(table) && (table, o) == Defrag(old(table), a)
    {
      hide FragDispatch, Plain, UdpNhc.Octet, Placed, SlpPacket.Finalize, SlpPacket.Decompressible, SizeOf, TagOf, Identity, IphcHeader.IsIphc;
      var off, data;
      if FragDispatch(a.wire[0]) == FRAG1 {
        var d := Plain(a.wire[4..], a.src, a.dst);
        if d.None? {
          return Nothing;
        }
        off, data := 0, d.value;
      } else if FragDispatch(a.wire[0]) == FRAGN {
        off, data := 8 * (a.wire[4] as nat), a.wire[5..];
      } else {
        return Nothing;
      }
      var k := KeyOf(a);
      var p := Piece(off, data);
      if k in table {
        var e := table[k];
        var buf, copied := Placed(e.buf, p), U16(e.copied + U16(|data|));
        if copied >= k.size {
          table := table - {k};
          return Delivered(SlpPacket.Finalize(buf, 0));
        }
        table := table[k := Entry(buf, copied)];
      } else {
        table := table[k := Entry(Placed(Zeros(k.size), p), U16(|data|))];
      }
      o := Nothing;
    }
  }

  // ---------- Decompression of a frame ----------

  lemma UnpackedStep(t: seq<bv8>, left: nat)
    requires SlpPacket.Followable(t, left)
    ensures ExtNhc.NextOf(t[0]) == 0 ==> SlpPacket.Unpacked(t, left) == t
    ensures ExtNhc.NextOf(t[0]) == IphcHeader.UDP ==>
              && left > 0 && |t| >= UdpNhc.UdpUsed(t[0])
              && SlpPacket.Unpacked(t, left) ==
                 UdpNhc.UdpDecode(t, |t| - UdpNhc.UdpUsed(t[0])) + t[UdpNhc.UdpUsed(t[0])..]
    ensures ExtNhc.IsExtension(t[0]) ==>
              && left > 0 && ExtNhc.ExtReadable(t) && ExtNhc.ExtUsed(t) < |t|
              && SlpPacket.Followable(t[ExtNhc.ExtUsed(t)..], left - 1)
              && SlpPacket.Unpacked(t, left) ==
                 ExtNhc.ExtRebuilt(t) + SlpPacket.Unpacked(t[ExtNhc.ExtUsed(t)..], left - 1)
  {
    SlpPacket.NotBoth(t[0]);
    hide UdpNhc.IsUdpDispatch, ExtNhc.NextOf, UdpNhc.UdpUsed, UdpNhc.UdpDecode, ExtNhc.ExtUsed, ExtNhc.ExtRebuilt;
  }

  lemma Joined(a: seq<bv8>, b: seq<bv8>, c: seq<bv8>)
    ensures (a + b) + c == a + (b + c)
  {
  }

  lemma Further(s: seq<bv8>, o: nat, n: nat)
    requires o + n <= |s|
    ensures s[o..][n..] == s[o + n..]
  {
  }

  lemma FollowableStarts(t: seq<bv8>, left: nat)
    requires SlpPacket.Followable(t, left)
    ensures t != []
  {
  }

  /** One header that `dispatch` announces at `o`, rebuilt, and how many octets it took. */
  method DecompressChunk(c: array<bv8>, o: nat, dispatch: bv8, ghost left: nat) returns (chunk: seq<bv8>, used: nat, more: bool)
    requires o < c.Length && dispatch == ExtNhc.NextOf(c[o]) != 0 && SlpPacket.Followable(c[o..], left)
    ensures left > 0 && o + used <= c.Length && (more <==> dispatch != IphcHeader.UDP)
    ensures more ==> o + used < c.Length && SlpPacket.Followable(c[o + used..], left - 1)
    ensures SlpPacket.Unpacked(c[o..], left) ==
            chunk + if more then SlpPacket.Unpacked(c[o + used..], left - 1) else c[o + used..]
  {
    hide SlpPacket.Followable, SlpPacket.Unpacked, ExtNhc.NextOf, UdpNhc.UdpUsed, UdpNhc.UdpDecode, ExtNhc.ExtUsed, ExtNhc.ExtRebuilt,
      ExtNhc.ExtReadable;
    ghost var t := c[o..];
    assert t[0] == c[o] && t == c[..][o..];
    UnpackedStep(t, left);
    more := dispatch != IphcHeader.UDP;
    var buf;
    if more {
      buf, used := ExtNhc.DecompressorNhcExt(c, o);
      FollowableStarts(t[used..], left - 1);
    } else {
      buf, used := UdpNhc.DecompressorNhcUdp(c, o, c.Length, o);
    }
    Further(c[..], o, used);
    assert c[o + used..] == c[..][o + used..];
    chunk := buf[..];
  }

  /** The loop of `pico_iphc_decompress` behind the IPv6 header: one header after the other, until
      none is announced or the UDP header was one. What is rebuilt is collected in `chunks`. */
  method DecompressChunks(c: array<bv8>, start: nat, header: seq<bv8>) returns (d: seq<bv8>)
    requires start <= c.Length && SlpPacket.Followable(c[start..], SlpPacket.MORE)
    ensures d == header + SlpPacket.Unpacked(c[start..], SlpPacket.MORE)
  {
    hide SlpPacket.Followable, SlpPacket.Unpacked, ExtNhc.NextOf;
    ghost var all := header + SlpPacket.Unpacked(c[start..], SlpPacket.MORE);
    FollowableStarts(c[start..], SlpPacket.MORE);
    var o: nat, i: nat := start, 1;
    var chunks, more := header, true;
    var dispatch := ExtNhc.NextOf(c[o]);
    while dispatch != 0 && more && i < 8
      invariant o <= c.Length && 1 <= i <= 7
      invariant if more
                then && o < c.Length && dispatch == ExtNhc.NextOf(c[o]) && SlpPacket.Followable(c[o..], 7 - i)
                     && all == chunks + SlpPacket.Unpacked(c[o..], 7 - i)
                else all == chunks + c[o..]
      decreases more, 8 - i
    {
      var chunk, used;
      chunk, used, more := DecompressChunk(c, o, dispatch, 7 - i);
      Joined(chunks, chunk, if more then SlpPacket.Unpacked(c[o + used..], 6 - i) else c[o + used..]);
      chunks, o, i := chunks + chunk, o + used, i + 1;
      if more {
        dispatch := ExtNhc.NextOf(c[o]);
      }
    }
    if more {
      assert c[o..][0] == c[o];
      UnpackedStep(c[o..], 7 - i);
    }
    d := chunks + c[o..];
  }

  /** `pico_iphc_decompress`, with `pico_ipv6_finalize`. */
  method IphcDecompress(c: array<bv8>, ls: Iphc.Link, ld: Iphc.Link) returns (d: Option<seq<bv8>>)
    requires SlpPacket.Decompressible(c[..])
    ensures d == SlpPacket.Decompress(c[..], ls, ld)
  {
    hide SlpPacket.Followable, SlpPacket.Unpacked, ExtNhc.NextOf, SlpPacket.Finalize, IphcHeader.Decode, IphcHeader.Taken;
    var ok, header, taken := IphcDriver.DecompressorIphc(c, ls, ld);
    if !ok {
      return None;
    }
    assert c[taken..] == c[..][taken..];
    FollowableStarts(c[taken..], SlpPacket.MORE);
    var nh := ExtNhc.NextOf(c[taken]);
    var whole := DecompressChunks(c, taken, header[..]);
    d := Some(SlpPacket.Finalize(whole, nh));
  }
}
