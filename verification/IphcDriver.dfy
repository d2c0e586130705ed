/** The field compressors and decompressors of the 6LoWPAN layer, on its buffers. */
module IphcDriver {
  import opened Wrappers
  import opened Iphc
  import opened IphcHeader

  // ---------- Buffers ----------

  /** `a` with `v` written at `d`. */
  ghost function Written(a: seq<bv8>, d: nat, v: seq<bv8>): seq<bv8>
    requires d + |v| <= |a|
  {
    a[..d] + v + a[d + |v|..]
  }

  lemma WriteAfter(a: seq<bv8>, d: nat, v: seq<bv8>, k: nat)
    requires k < |v| && d + |v| <= |a|
    ensures Written(a, d, v[..k])[d + k := v[k]] == Written(a, d, v[..k + 1])
    ensures forall j | d + k <= j < |a| :: Written(a, d, v[..k])[j] == a[j]
  {
    assert v[..k + 1] == v[..k] + [v[k]];
  }

  lemma WriteBefore(a: seq<bv8>, d: nat, v: seq<bv8>, k: nat)
    requires 0 < k <= |v| && d + |v| <= |a|
    ensures Written(a, d + k, v[k..])[d + k - 1 := v[k - 1]] == Written(a, d + k - 1, v[k - 1..])
    ensures forall j | 0 <= j < d + k :: Written(a, d + k, v[k..])[j] == a[j]
  {
    assert v[k - 1..] == [v[k - 1]] + v[k..];
  }

  lemma WriteNone(a: seq<bv8>, d: nat)
    requires d <= |a|
    ensures Written(a, d, []) == a
  {
  }

  /** `buf_move`: the copy is right for overlapping buffers too. */
  method BufMove(dst: array<bv8>, d: nat, src: array<bv8>, s: nat, len: nat)
    requires d + len <= dst.Length && s + len <= src.Length
    modifies dst
    ensures dst[..] == Written(old(dst[..]), d, old(src[s..s + len]))
  {
    hide Written;
    ghost var a, v := dst[..], src[s..s + len];
    if d < s {
      var k := 0;
      WriteNone(a, d);
      assert v[..0] == [];
      while k < len
        invariant 0 <= k <= len
        invariant dst[..] == Written(a, d, v[..k])
        invariant dst != src ==> src[..] == old(src[..])
      {
        WriteAfter(a, d, v, k);
        dst[d + k] := src[s + k];
        k := k + 1;
      }
      assert v[..len] == v;
    } else {
      var k := len;
      WriteNone(a, d + len);
      assert v[len..] == [];
      while k > 0
        invariant 0 <= k <= len
        invariant dst[..] == Written(a, d + k, v[k..])
        invariant dst != src ==> src[..] == old(src[..])
      {
        WriteBefore(a, d, v, k);
        k := k - 1;
        dst[d + k] := src[s + k];
      }
      assert v[0..] == v;
    }
  }

  // ---------- Compression ----------

  /** The buffer of a header being compressed: the two fixed octets, one for a context, and what
      is carried. */
  ghost predicate Holds(s: seq<bv8>, x: Coded) {
    && |s| == 43 && 3 + |x.carried| <= 43
    && s[0] == x.first && s[1] == x.second
    && s[3..3 + |x.carried|] == x.carried
  }

  ghost function Adding(x: Coded, first: bv8, second: bv8, v: seq<bv8>): Coded {
    Coded(first, second, x.carried + v)
  }

  lemma Append(s: seq<bv8>, x: Coded, first: bv8, second: bv8, v: seq<bv8>)
    requires Holds(s, x) && 3 + |x.carried| + |v| <= 43
    ensures Holds(Written(s[0 := first][1 := second], 3 + |x.carried|, v), Adding(x, first, second, v))
  {
    var r := Written(s[0 := first][1 := second], 3 + |x.carried|, v);
    var n := |x.carried|;
    forall i | 0 <= i < n + |v|
      ensures r[3 + i] == (x.carried + v)[i]
    {
      if i < n {
        assert r[3 + i] == s[3 + i] == s[3..3 + n][i];
      }
    }
    assert r[3..3 + (n + |v|)] == x.carried + v;
  }

  lemma WriteOne(s: seq<bv8>, c: nat, b: bv8)
    requires c < |s|
    ensures s[c := b] == Written(s, c, [b])
  {
  }

  lemma WriteTwice(s: seq<bv8>, c: nat, v: seq<bv8>, w: seq<bv8>)
    requires c + |v| + |w| <= |s|
    ensures Written(Written(s, c, v), c + |v|, w) == Written(s, c, v + w)
  {
  }

  function Masked(b: bv8): bv8 {
    b & 0x0F
  }

  lemma MaskedBits(h0: bv8, h1: bv8)
    ensures Ecn(Masked(h0)) == Ecn(h0) && Dscp(Masked(h0), h1) == Dscp(h0, h1) && Class(Masked(h0), h1) == Class(h0, h1)
  {
  }

  lemma JoinClass(h0: bv8, h1: bv8)
    ensures Join(Ecn(h0), Dscp(h0, h1)) == Class(h0, h1)
    ensures Class(h0, h1) == 0 <==> Ecn(h0) == 0 && Dscp(h0, h1) == 0
  {
  }

  function ToIphc(b: bv8): bv8 {
    (b & 0x07) | 0x60
  }

  lemma MarkVtfSteps(b: bv8, mode: bv8)
    ensures Join(ToIphc(b), mode) == MarkVtf(b, mode)
  {
  }

  /** Writes what is carried of the traffic class and the flow label. */
  method EmitVtf(buf: array<bv8>, ecn: bv8, dscp: bv8, o1: bv8, o2: bv8, o3: bv8, ghost h: Header)
    returns (mode: bv8, ret: nat)
    requires buf.Length == 43 && h[1] == o1 && h[2] == o2 && h[3] == o3
    requires Ecn(h[0]) == ecn && Dscp(h[0], o1) == dscp
    modifies buf
    ensures mode == VtfMode(h) && ret == |VtfCarried(h)|
    ensures ret <= 4 && buf[..3] == old(buf[..3]) && buf[3..3 + ret] == VtfCarried(h)
  {
    hide Ecn, Dscp, Class, LowNibble, Join;
    JoinClass(h[0], h[1]);
    if !(LowNibble(o1) == 0 && o2 == 0 && o3 == 0) {
      if dscp == 0 {
        mode, ret := 0x08, 3;
        buf[3], buf[4], buf[5] := Join(ecn, LowNibble(o1)), o2, o3;
      } else {
        mode, ret := 0x00, 4;
        buf[3], buf[4], buf[5], buf[6] := Join(ecn, dscp), LowNibble(o1), o2, o3;
      }
    } else if ecn != 0 || dscp != 0 {
      mode, ret := 0x10, 1;
      buf[3] := Join(ecn, dscp);
    } else {
      mode, ret := 0x18, 0;
    }
  }

  /** `compressor_vtf`, which also clears the version of the header it reads. */
  method CompressorVtf(ori: array<bv8>, buf: array<bv8>, ghost h: Header) returns (ret: nat)
    requires ori != buf && ori[..] == h && buf.Length == 43
    modifies ori, buf
    ensures ori[..] == h[0 := Masked(h[0])]
    ensures ret == |VtfCarried(h)| <= 4 && buf[3..3 + ret] == VtfCarried(h)
    ensures buf[0] == MarkVtf(old(buf[0]), VtfMode(h)) && buf[1] == old(buf[1])
  {
    hide Ecn, Dscp, Class, LowNibble, Join, MarkVtf, Masked, ToIphc, VtfMode, VtfCarried;
    MaskedBits(h[0], h[1]);
    MarkVtfSteps(buf[0], VtfMode(h));
    ori[0] := Masked(ori[0]);
    assert ori[..] == h[0 := Masked(h[0])];
    var o0, o1, o2, o3 := ori[0], ori[1], ori[2], ori[3];
    assert o1 == h[1] && o2 == h[2] && o3 == h[3];
    var mode;
    ghost var front := buf[..3];
    mode, ret := EmitVtf(buf, Ecn(o0), Dscp(o0, o1), o1, o2, o3, h);
    assert buf[0] == front[0] && buf[1] == front[1];
    ghost var carried := buf[3..3 + ret];
    buf[0] := Join(ToIphc(buf[0]), mode);
    assert buf[3..3 + ret] == carried;
  }

  /** `compressor_nh`. */
  method CompressorNh(ori: array<bv8>, o: nat, buf: array<bv8>, c: nat) returns (ret: nat)
    requires ori != buf && o < ori.Length && c < buf.Length == 43 && 3 <= c
    modifies buf
    ensures var v := if Compressible(ori[o]) then [] else [ori[o]];
            && ret == |v|
            && buf[..] == Written(old(buf[..])[0 := MarkNext(old(buf[0]), Compressible(ori[o]))], c, v)
  {
    hide MarkNext, Compressible;
    buf[0] := MarkNext(buf[0], Compressible(ori[o]));
    if Compressible(ori[o]) {
      ret := 0;
    } else {
      buf[c] := ori[o];
      ret := 1;
    }
  }

  /** `compressor_hl`. */
  method CompressorHl(ori: array<bv8>, o: nat, buf: array<bv8>, c: nat) returns (ret: nat)
    requires ori != buf && o < ori.Length && c < buf.Length == 43 && 3 <= c
    modifies buf
    ensures var v := if HopCode(ori[o]) != 0 then [] else [ori[o]];
            && ret == |v|
            && buf[..] == Written(old(buf[..])[0 := MarkHop(old(buf[0]), HopCode(ori[o]))], c, v)
  {
    hide MarkHop, HopCode;
    buf[0] := MarkHop(buf[0], HopCode(ori[o]));
    if HopCode(ori[o]) != 0 {
      ret := 0;
    } else {
      buf[c] := ori[o];
      ret := 1;
    }
  }

  /** `addr_comp_mcast`, for an address copied into `a`. */
  method AddrCompMcast(buf: array<bv8>, c: nat, a: array<bv8>, ghost ip: Address) returns (ret: nat)
    requires a != buf && a[..] == ip && 3 <= c && c + 16 <= buf.Length == 43
    modifies buf
    ensures var k := GroupKind(ip);
            && ret == |Carried(k, ip)|
            && buf[..] == Written(old(buf[..])[1 := GroupMark(old(buf[1]), GroupMode(k))], c, Carried(k, ip))
  {
    hide Written, GroupMark;
    ghost var s := buf[..][1 := GroupMark(buf[1], GroupMode(GroupKind(ip)))];
    assert a[11..16] == ip[11..] && a[13..16] == ip[13..] && a[0..16] == ip;
    if a[8] == 0 && a[9] == 0 && a[10] == 0 && (a[11] != 0 || a[12] != 0) {
      buf[1] := GroupMark(buf[1], 1);
      buf[c] := a[1];
      WriteOne(s, c, ip[1]);
      BufMove(buf, c + 1, a, 11, 5);
      WriteTwice(s, c, [ip[1]], a[11..16]);
      ret := 6;
    } else if a[8] == 0 && a[9] == 0 && a[10] == 0 && a[11] == 0 && a[12] == 0 && (a[13] != 0 || a[14] != 0) {
      buf[1] := GroupMark(buf[1], 2);
      buf[c] := a[1];
      WriteOne(s, c, ip[1]);
      BufMove(buf, c + 1, a, 13, 3);
      WriteTwice(s, c, [ip[1]], a[13..16]);
      ret := 4;
    } else if a[1] == 0x02 && a[14] == 0 && a[15] != 0 {
      buf[1] := GroupMark(buf[1], 3);
      buf[c] := a[15];
      WriteOne(s, c, ip[15]);
      ret := 1;
    } else {
      buf[1] := GroupMark(buf[1], 0);
      BufMove(buf, c, a, 0, 16);
      ret := 16;
    }
  }

  /** Whether the interface identifier is the one of the link address, or the link address has
      none (`addr_ll_derived`). */
  method AddrLlDerived(a: array<bv8>, ll: Link) returns (r: int)
    requires a.Length == 16
    ensures r == match LinkIid(ll) case None => -1 case Some(iid) => if iid == a[8..] then 1 else 0
  {
    var iid := LinkIid(ll);
    if iid.None? {
      return -1;
    }
    r := if iid.value == a[8..] then 1 else 0;
  }

  /** `addr_comp_mode`. */
  method AddrCompMode(buf: array<bv8>, a: array<bv8>, ll: Link, isSource: bool, ghost ip: Address) returns (len: int)
    requires a != buf && a[..] == ip && buf.Length == 43
    modifies buf
    ensures var k := LocalKind(ip, ll);
            && (len == -1 <==> k.Underivable?)
            && (len != -1 ==> len == |Carried(k, ip)|)
            && buf[..] == old(buf[..])[1 := LocalMark(old(buf[1]), if k.Underivable? then 0 else LocalMode(k), isSource)]
  {
    hide LocalMark, LinkIid;
    var mac := AddrLlDerived(a, ll);
    assert a[8..] == ip[8..];
    if mac > 0 {
      buf[1] := LocalMark(buf[1], 3, isSource);
      len := 0;
    } else if mac == 0 && Iid16(a[8..]) {
      buf[1] := LocalMark(buf[1], 2, isSource);
      len := 2;
    } else if mac == 0 {
      buf[1] := LocalMark(buf[1], 1, isSource);
      len := 8;
    } else {
      buf[1] := LocalMark(buf[1], 0, isSource);
      len := -1;
    }
  }

  /** The end of an address copied into `a` is carried. */
  method CarryEnd(buf: array<bv8>, c: nat, a: array<bv8>, len: nat, ghost ip: Address)
    requires a != buf && a[..] == ip && len <= 16 && c + 16 <= buf.Length == 43
    modifies buf
    ensures buf[..] == Written(old(buf[..]), c, ip[16 - len..])
  {
    hide Written;
    assert a[16 - len..16] == ip[16 - len..];
    BufMove(buf, c, a, 16 - len, len);
  }

  /** `addr_comp_iid` of an address carried in full. */
  method CompressFull(buf: array<bv8>, c: nat, a: array<bv8>, unspecified: bool, isSource: bool, ghost ip: Address)
    returns (len: nat)
    requires a != buf && a[..] == ip && 3 <= c && c + 16 <= buf.Length == 43
    modifies buf
    ensures var k := if unspecified then Unspecified else Full;
            && len == |Carried(k, ip)|
            && buf[..] == Written(old(buf[..])[1 := KindMark(old(buf[1]), k, isSource)], c, Carried(k, ip))
  {
    hide Written, StatelessMark, UnspecifiedMark;
    ghost var s := buf[..];
    if unspecified {
      buf[1] := UnspecifiedMark(buf[1]);
    }
    buf[1] := StatelessMark(buf[1]);
    assert buf[..] == s[1 := KindMark(s[1], if unspecified then Unspecified else Full, isSource)];
    assert ip[16 - 16..] == ip;
    CarryEnd(buf, c, a, 16, ip);
    len := 16;
  }

  /** `addr_comp_iid` of a link-local address. */
  method CompressLocal(buf: array<bv8>, c: nat, a: array<bv8>, ll: Link, isSource: bool, ghost ip: Address)
    returns (len: int)
    requires a != buf && a[..] == ip && 3 <= c && c + 16 <= buf.Length == 43
    modifies buf
    ensures var k := LocalKind(ip, ll);
            && (len < 0 <==> k.Underivable?)
            && (len >= 0 ==>
                  len == |Carried(k, ip)| &&
                  buf[..] == Written(old(buf[..])[1 := KindMark(old(buf[1]), k, isSource)], c, Carried(k, ip)))
  {
    hide Written, LocalMark, LocalKind;
    len := AddrCompMode(buf, a, ll, isSource, ip);
    if len >= 0 {
      assert ip[16..] == [];
      CarryEnd(buf, c, a, len, ip);
    }
  }

  /** The order in which the kinds are told apart. */
  lemma KindCases(ip: Address, ll: Link, isSource: bool)
    ensures KindOf(ip, ll, isSource) ==
            if isSource && ip == ANY then Unspecified
            else if ip[0] == 0xFF then GroupKind(ip)
            else if IsLinkLocal(ip) then LocalKind(ip, ll)
            else Full
  {
  }

  /** `addr_comp_iid` of a multicast address. */
  method CompressGroup(buf: array<bv8>, c: nat, a: array<bv8>, isSource: bool, ghost ip: Address) returns (len: nat)
    requires a != buf && a[..] == ip && 3 <= c && c + 16 <= buf.Length == 43
    modifies buf
    ensures var k := GroupKind(ip);
            && len == |Carried(k, ip)| && !k.Underivable?
            && buf[..] == Written(old(buf[..])[1 := KindMark(old(buf[1]), k, isSource)], c, Carried(k, ip))
  {
    hide Written, GroupMark, GroupKind, Carried;
    len := AddrCompMcast(buf, c, a, ip);
  }

  lemma WroteAll(s: seq<bv8>, v: seq<bv8>)
    requires |s| == |v|
    ensures Written(s, 0, v) == v
  {
  }

  /** `compressor_src` and `compressor_dst`, for devices without contexts. */
  method CompressorAddress(ori: array<bv8>, o: nat, buf: array<bv8>, c: nat, ll: Link, isSource: bool) returns (ret: int)
    requires ori != buf && o + 16 <= ori.Length && 3 <= c && c + 16 <= buf.Length == 43
    modifies buf
    ensures var ip: Address := ori[o..o + 16];
            var k := KindOf(ip, ll, isSource);
            && (ret < 0 <==> k.Underivable?)
            && (ret >= 0 ==>
                  ret == |Carried(k, ip)| &&
                  buf[..] == Written(old(buf[..])[1 := Mark(old(buf[1]), k, isSource)], c, Carried(k, ip)))
  {
    hide Written, PrefixMark, KindMark, IsLinkLocal, LocalKind, GroupKind, KindOf, Carried;
    ghost var ip: Address := ori[o..o + 16];
    KindCases(ip, ll, isSource);
    var a := new bv8[16];
    WroteAll(a[..], ip);
    BufMove(a, 0, ori, o, 16);
    ghost var s := buf[..];
    buf[1] := PrefixMark(buf[1], isSource);
    ghost var m := Mark(s[1], KindOf(ip, ll, isSource), isSource);
    assert buf[..][1 := m] == s[1 := m];
    if isSource && a[..] == ANY {
      var n := CompressFull(buf, c, a, true, isSource, ip);
      ret := n;
    } else if a[0] == 0xFF {
      var n := CompressGroup(buf, c, a, isSource, ip);
      ret := n;
    } else if IsLinkLocal(a[..]) {
      ret := CompressLocal(buf, c, a, ll, isSource, ip);
    } else {
      var n := CompressFull(buf, c, a, false, isSource, ip);
      ret := n;
    }
  }

  // The table-driven loop.

  ghost function ClearedVersion(h: Header): seq<bv8> {
    h[0 := Masked(h[0])]
  }

  lemma ClearedElsewhere(h: Header)
    ensures ClearedVersion(h)[6] == h[6] && ClearedVersion(h)[7] == h[7]
    ensures ClearedVersion(h)[8..24] == Source(h) && ClearedVersion(h)[24..40] == Destination(h)
  {
    hide Masked;
  }

  lemma VtfHolds(s: seq<bv8>, x: Coded, h: Header, ls: Link, ld: Link)
    requires |s| == 43 && x.carried == [] && |VtfCarried(h)| <= 4
    requires s[0] == MarkVtf(x.first, VtfMode(h)) && s[1] == x.second && s[3..3 + |VtfCarried(h)|] == VtfCarried(h)
    ensures Holds(s, CodeField(0, h, ls, ld, x))
  {
    hide MarkVtf;
    assert [] + VtfCarried(h) == VtfCarried(h);
  }

  lemma HoldsSize(s: seq<bv8>, x: Coded)
    requires Holds(s, x)
    ensures |s| == 43 && s[0] == x.first && s[1] == x.second
  {
  }

  lemma AppendNothing(x: Coded)
    ensures Coded(x.first, x.second, x.carried + []) == x
  {
  }

  lemma AppendFirst(s: seq<bv8>, x: Coded, first: bv8, v: seq<bv8>)
    requires Holds(s, x) && 3 + |x.carried| + |v| <= 43
    ensures Holds(Written(s[0 := first], 3 + |x.carried|, v), Coded(first, x.second, x.carried + v))
  {
    Append(s, x, first, x.second, v);
    assert s[0 := first][1 := x.second] == s[0 := first];
  }

  lemma AppendSecond(s: seq<bv8>, x: Coded, second: bv8, v: seq<bv8>)
    requires Holds(s, x) && 3 + |x.carried| + |v| <= 43
    ensures Holds(Written(s[1 := second], 3 + |x.carried|, v), Coded(x.first, second, x.carried + v))
  {
    Append(s, x, x.first, second, v);
    assert s[0 := x.first] == s;
  }

  /** One entry of the table; the second has no compressor. */
  method CompressField(i: nat, ori: array<bv8>, buf: array<bv8>, c: nat, ls: Link, ld: Link, ghost h: Header, ghost x: Coded)
    returns (ret: int)
    requires i < FIELDS && ori != buf && Holds(buf[..], x) && c == 3 + |x.carried| && |x.carried| <= FieldStart(i)
    requires ori[..] == if i == 0 then h else ClearedVersion(h)
    modifies ori, buf
    ensures ori[..] == ClearedVersion(h)
    ensures ret < 0 <==> FieldFails(i, h, ls, ld)
    ensures ret >= 0 ==> ret == |FieldCarried(i, h, ls, ld)| && Holds(buf[..], CodeField(i, h, ls, ld, x))
  {
    hide Written, Masked, Mark, MarkVtf, MarkNext, MarkHop, KindOf, VtfMode, VtfCarried, Compressible, HopCode, Carried, Holds;
    ClearedElsewhere(h);
    HoldsSize(buf[..], x);
    var o := FieldStart(i);
    ret := 0;
    if i == 0 {
      var n := CompressorVtf(ori, buf, h);
      assert buf[..][3..3 + n] == buf[3..3 + n];
      VtfHolds(buf[..], x, h, ls, ld);
      ret := n;
    } else if i == 1 {
      AppendNothing(x);
    } else if i == 2 {
      AppendFirst(buf[..], x, MarkNext(x.first, Compressible(h[6])), FieldCarried(i, h, ls, ld));
      var n := CompressorNh(ori, o, buf, c);
      ret := n;
    } else if i == 3 {
      AppendFirst(buf[..], x, MarkHop(x.first, HopCode(h[7])), FieldCarried(i, h, ls, ld));
      var n := CompressorHl(ori, o, buf, c);
      ret := n;
    } else if i == 4 {
      AppendSecond(buf[..], x, Mark(x.second, SourceKind(h, ls), true), FieldCarried(i, h, ls, ld));
      ret := CompressorAddress(ori, o, buf, c, ls, true);
    } else {
      AppendSecond(buf[..], x, Mark(x.second, DestinationKind(h, ld), false), FieldCarried(i, h, ls, ld));
      ret := CompressorAddress(ori, o, buf, c, ld, false);
    }
  }

  lemma {:induction false} CodeStops(i: nat, j: nat, h: Header, ls: Link, ld: Link)
    requires i < j && FieldFails(i, h, ls, ld)
    ensures CodeUpTo(j, h, ls, ld) == None
  {
    if i + 1 < j {
      CodeStops(i, j - 1, h, ls, ld);
    }
  }

  lemma CodeNext(i: nat, h: Header, ls: Link, ld: Link, x: Coded)
    ensures var y := CodeField(i, h, ls, ld, x); |y.carried| == |x.carried| + |FieldCarried(i, h, ls, ld)|
    ensures CodeUpTo(i, h, ls, ld) == Some(x) && !FieldFails(i, h, ls, ld) ==>
            CodeUpTo(i + 1, h, ls, ld) == Some(CodeField(i, h, ls, ld, x))
  {
  }

  lemma EncodeIs(h: Header, ls: Link, ld: Link)
    ensures CodeUpTo(0, h, ls, ld) == Some(Coded(0, 0, []))
    ensures Encode(h, ls, ld) ==
            match CodeUpTo(FIELDS, h, ls, ld) case None => None case Some(x) => Some(Octets(x))
  {
  }

  lemma NoContext(h: Header, ls: Link, ld: Link)
    ensures CodeUpTo(FIELDS, h, ls, ld).Some? ==> Start(CodeUpTo(FIELDS, h, ls, ld).value.second) == 2
  {
    hide Mark, First, CodeUpTo, KindOf, Front, Carried;
    var s, d := SourceKind(h, ls), DestinationKind(h, ld);
    EncodeUnfolded(h, ls, ld);
    OneSurvives(Destination(h), ld, false, []);
    if !s.Underivable? && !d.Underivable? {
      SecondSays(s, d);
      var e := Encode(h, ls, ld).value;
      assert e[1] == Second(s, d);
      assert Octets(CodeUpTo(FIELDS, h, ls, ld).value)[1] == CodeUpTo(FIELDS, h, ls, ld).value.second;
    }
  }

  lemma StartHolds(s: seq<bv8>)
    requires |s| == 43 && s[0] == 0 && s[1] == 0
    ensures Holds(s, Coded(0, 0, []))
  {
  }

  lemma Unpack(s: seq<bv8>, x: Coded)
    requires Holds(s, x)
    ensures |s| == 43 && s[0] == x.first && s[1] == x.second && 3 + |x.carried| <= 43 && s[3..3 + |x.carried|] == x.carried
  {
  }

  lemma MoveUp(s: seq<bv8>, x: Coded)
    requires Holds(s, x)
    ensures 2 + |x.carried| <= |s| && Written(s, 2, x.carried)[..2 + |x.carried|] == Octets(x)
  {
  }

  /** `compressor_iphc`: the fields one after the other, and then the two fixed octets moved up
      to them. */
  method CompressorIphc(hdr: array<bv8>, ls: Link, ld: Link) returns (ok: bool, buf: array<bv8>, len: nat)
    requires hdr.Length == 40
    modifies hdr
    ensures hdr[..] == ClearedVersion(old(hdr[..])) && fresh(buf)
    ensures ok <==> Encode(old(hdr[..]), ls, ld).Some?
    ensures ok ==> len <= buf.Length && buf[..len] == Encode(old(hdr[..]), ls, ld).value
  {
    hide Written, Masked, Holds, FieldCarried, FieldFails, Encode, CodeUpTo, CodeField;
    ghost var h: Header := hdr[..];
    buf := new bv8[43](_ => 0);
    StartHolds(buf[..]);
    EncodeIs(h, ls, ld);
    ghost var x := Coded(0, 0, []);
    var i := 0;
    len := 0;
    while i < FIELDS
      invariant 0 <= i <= FIELDS && hdr[..] == (if i == 0 then h else ClearedVersion(h))
      invariant CodeUpTo(i, h, ls, ld) == Some(x) && Holds(buf[..], x) && len == |x.carried|
    {
      var ret := CompressField(i, hdr, buf, 3 + len, ls, ld, h, x);
      if ret < 0 {
        CodeStops(i, FIELDS, h, ls, ld);
        return false, buf, len;
      }
      CodeNext(i, h, ls, ld, x);
      x := CodeField(i, h, ls, ld, x);
      len := len + ret;
      i := i + 1;
    }
    NoContext(h, ls, ld);
    Unpack(buf[..], x);
    var start := Start(buf[1]);
    if start == 2 {
      MoveUp(buf[..], x);
      BufMove(buf, 2, buf, 3, len);
    }
    len := len + start;
    ok := true;
  }

  // ---------- Decompression ----------

  /** Overwriting the end of what was written. */
  lemma WriteTail(s: seq<bv8>, o: nat, p: seq<bv8>, k: nat, v: seq<bv8>)
    requires o + |p| <= |s| && k + |v| == |p|
    ensures Written(Written(s, o, p), o + k, v) == Written(s, o, p[..k] + v)
  {
  }

  lemma WriteAt(s: seq<bv8>, o: nat, p: seq<bv8>, k: nat, b: bv8)
    requires o + |p| <= |s| && k < |p|
    ensures Written(s, o, p)[o + k := b] == Written(s, o, p[k := b])
  {
  }

  lemma JoinZero()
    ensures forall b :: Join(0, b) == b
  {
  }

  /** `decompressor_vtf`, into a header that is still zero. */
  method DecompressorVtf(ori: array<bv8>, comp: array<bv8>, at: nat, mode: bv8) returns (ret: nat)
    requires ori != comp && ori.Length == 40 && ori[..4] == [0, 0, 0, 0]
    requires at + VtfUsed(mode) <= comp.Length
    modifies ori
    ensures ret == VtfUsed(mode)
    ensures ori[..] == Written(old(ori[..]), 0, VtfRebuilt(mode, comp[at..]))
  {
    hide Version6, HighNibble, LowNibble, ClearDscp, Join;
    assert forall k | 0 <= k < 4 :: ori[k] == ori[..4][k];
    JoinZero();
    if mode == 0x00 {
      ori[0] := Version6(comp[at]);
      ori[1] := Join(ori[1], HighNibble(comp[at]));
      ori[1] := Join(ori[1], comp[at + 1]);
      ori[2], ori[3] := comp[at + 2], comp[at + 3];
      ret := 4;
    } else if mode == 0x08 {
      ori[0] := ClearDscp(Version6(comp[at]));
      ori[1] := LowNibble(comp[at]);
      ori[2], ori[3] := comp[at + 1], comp[at + 2];
      ret := 3;
    } else if mode == 0x10 {
      ori[0] := Version6(comp[at]);
      ori[1] := HighNibble(comp[at]);
      ret := 1;
    } else {
      ori[0] := 0x60;
      ret := 0;
    }
  }

  /** `addr_decomp_prefix` without contexts: anything stateful is refused. */
  method AddrDecompPrefix(ori: array<bv8>, o: nat, second: bv8) returns (ok: bool)
    requires o + 16 <= ori.Length
    modifies ori
    ensures ok <==> !Stateful(second)
    ensures ori[..] == if ok then Written(old(ori[..]), o, LINK_LOCAL) else old(ori[..])
  {
    hide Stateful;
    if Stateful(second) {
      return false;
    }
    var ll := new bv8[16](i requires 0 <= i < 16 => LINK_LOCAL[i]);
    assert ll[0..16] == LINK_LOCAL;
    BufMove(ori, o, ll, 0, 16);
    ok := true;
  }

  lemma WriteOver(s: seq<bv8>, o: nat, p: seq<bv8>, v: seq<bv8>)
    requires o + |p| <= |s| && |v| == |p|
    ensures Written(Written(s, o, p), o, v) == Written(s, o, v)
  {
  }

  /** `addr_decomp_iid`, over the link-local prefix. */
  method AddrDecompIid(ori: array<bv8>, o: nat, comp: array<bv8>, at: nat, mode: bv8, ll: Link, ghost s: seq<bv8>)
    returns (ret: nat)
    requires ori != comp && o + 16 <= ori.Length && |s| == ori.Length && ori[..] == Written(s, o, LINK_LOCAL)
    requires at + LocalUsed(mode) <= comp.Length
    modifies ori
    ensures ret == LocalUsed(mode)
    ensures ori[..] == Written(s, o, LocalRebuilt(mode, comp[at..], ll))
  {
    hide Written, LinkIid;
    ghost var c := comp[at..];
    if mode == 1 {
      assert comp[at..at + 8] == c[..8];
      WriteTail(s, o, LINK_LOCAL, 8, c[..8]);
      BufMove(ori, o + 8, comp, at, 8);
      ret := 8;
    } else if mode == 2 {
      assert comp[at..at + 2] == c[..2];
      WriteTail(s, o, LINK_LOCAL, 14, c[..2]);
      BufMove(ori, o + 14, comp, at, 2);
      ret := 2;
    } else if mode == 3 {
      var iid := LinkIid(ll);
      if iid.Some? {
        var a := new bv8[8](i requires 0 <= i < 8 => iid.value[i]);
        assert a[0..8] == iid.value;
        WriteTail(s, o, LINK_LOCAL, 8, iid.value);
        BufMove(ori, o + 8, a, 0, 8);
      }
      ret := 0;
    } else {
      assert comp[at..at + 16] == c[..16];
      WriteOver(s, o, LINK_LOCAL, c[..16]);
      BufMove(ori, o, comp, at, 16);
      ret := 16;
    }
  }

  lemma StartGroup(s: seq<bv8>, o: nat, x: bv8)
    requires o + 16 <= |s|
    ensures Written(s, o, ZEROS)[o := 0xFF][o + 1 := x] == Written(s, o, [0xFF, x] + ZEROS[..14])
  {
  }

  /** An address whose first octets are `0xFF` and `x` and which is zero from there on. */
  method ClearGroup(ori: array<bv8>, o: nat, x: bv8, ghost s: seq<bv8>)
    requires o + 16 <= ori.Length && |s| == ori.Length && ori[..] == Written(s, o, LINK_LOCAL)
    modifies ori
    ensures ori[..] == Written(s, o, [0xFF, x] + ZEROS[..14])
  {
    hide Written;
    var zeros := new bv8[16](_ => 0);
    assert zeros[0..16] == ZEROS;
    WriteOver(s, o, LINK_LOCAL, ZEROS);
    StartGroup(s, o, x);
    BufMove(ori, o, zeros, 0, 16);
    ori[o] := 0xFF;
    ori[o + 1] := x;
  }

  lemma SmallGroup(s: seq<bv8>, o: nat, x: bv8)
    requires o + 16 <= |s|
    ensures Written(s, o, [0xFF, x] + ZEROS[..14])[o + 1 := 0x02][o + 15 := x]
         == Written(s, o, [0xFF, 0x02] + ZEROS[..13] + [x])
  {
    hide Written;
    var p := [0xFF, x] + ZEROS[..14];
    WriteAt(s, o, p, 1, 0x02);
    WriteAt(s, o, p[1 := 0x02], 15, x);
    assert p[1 := 0x02][15 := x] == [0xFF, 0x02] + ZEROS[..13] + [x];
  }

  /** `addr_decomp_mcast`. */
  method AddrDecompMcast(ori: array<bv8>, o: nat, comp: array<bv8>, at: nat, mode: bv8, ghost s: seq<bv8>) returns (ret: nat)
    requires ori != comp && o + 16 <= ori.Length && |s| == ori.Length && ori[..] == Written(s, o, LINK_LOCAL)
    requires at + GroupUsed(mode) <= comp.Length
    modifies ori
    ensures ret == GroupUsed(mode)
    ensures ori[..] == Written(s, o, GroupRebuilt(mode, comp[at..]))
  {
    hide Written;
    var x := comp[at];
    ClearGroup(ori, o, x, s);
    ghost var p := [0xFF, x] + ZEROS[..14];
    if mode == 1 {
      assert comp[at + 1..at + 6] == comp[at..][1..6];
      WriteTail(s, o, p, 11, comp[at..][1..6]);
      BufMove(ori, o + 11, comp, at + 1, 5);
      assert p[..11] == [0xFF, x] + ZEROS[..9];
      ret := 6;
    } else if mode == 2 {
      assert comp[at + 1..at + 4] == comp[at..][1..4];
      WriteTail(s, o, p, 13, comp[at..][1..4]);
      BufMove(ori, o + 13, comp, at + 1, 3);
      assert p[..13] == [0xFF, x] + ZEROS[..11];
      ret := 4;
    } else if mode == 3 {
      SmallGroup(s, o, x);
      ori[o + 1] := 0x02;
      ori[o + 15] := x;
      ret := 1;
    } else {
      assert comp[at..at + 16] == comp[at..][..16];
      WriteOver(s, o, p, comp[at..][..16]);
      BufMove(ori, o, comp, at, 16);
      ret := 16;
    }
  }

  lemma WriteZeros(s: seq<bv8>, o: nat)
    requires o + 2 <= |s| && s[o] == 0 && s[o + 1] == 0
    ensures Written(s, o, [0, 0]) == s
  {
  }

  /** One entry of the table. */
  method DecompressField(i: nat, ori: array<bv8>, comp: array<bv8>, at: nat, first: bv8, second: bv8, ls: Link, ld: Link)
    returns (ret: int)
    requires i < FIELDS && ori != comp && ori.Length == 40 && at + FieldUsed(i, first, second) <= comp.Length
    requires forall k | FieldStart(i) <= k < 40 :: ori[k] == 0
    modifies ori
    ensures ret < 0 <==> i >= 4 && Stateful(second)
    ensures ret >= 0 ==>
              ret == FieldUsed(i, first, second) &&
              ori[..] == Written(old(ori[..]), FieldStart(i), FieldRebuilt(i, first, second, comp[at..], ls, ld))
  {
    hide Written, Stateful, IsGroup, NextElided, ModeOfVtf, ModeOfHop, SourceMode, DestinationMode,
      VtfRebuilt, LocalRebuilt, GroupRebuilt, VtfUsed, LocalUsed, GroupUsed;
    ghost var s := ori[..];
    var o := FieldStart(i);
    ret := 0;
    if i == 0 {
      assert ori[..4] == [0, 0, 0, 0];
      var n := DecompressorVtf(ori, comp, at, ModeOfVtf(first));
      ret := n;
    } else if i == 1 {
      WriteZeros(s, 4);
    } else if i == 2 {
      if NextElided(first) {
        WriteOne(s, o, 0);
        ori[o] := 0;
      } else {
        WriteOne(s, o, comp[at]);
        ori[o] := comp[at];
        ret := 1;
      }
    } else if i == 3 {
      if ModeOfHop(first) != 0 {
        WriteOne(s, o, HopOf(ModeOfHop(first), 0));
        ori[o] := HopOf(ModeOfHop(first), 0);
      } else {
        WriteOne(s, o, comp[at]);
        ori[o] := comp[at];
        ret := 1;
      }
    } else {
      var ok := AddrDecompPrefix(ori, o, second);
      if !ok {
        return -1;
      }
      var n;
      if i == 4 {
        n := AddrDecompIid(ori, o, comp, at, SourceMode(second), ls, s);
      } else if IsGroup(second) {
        n := AddrDecompMcast(ori, o, comp, at, DestinationMode(second), s);
      } else {
        n := AddrDecompIid(ori, o, comp, at, DestinationMode(second), ld, s);
      }
      ret := n;
    }
  }

  lemma {:induction false} UsedGrows(i: nat, j: nat, first: bv8, second: bv8)
    requires i <= j
    ensures UsedUpTo(i, first, second) <= UsedUpTo(j, first, second)
  {
    if i < j {
      UsedGrows(i, j - 1, first, second);
    }
  }

  lemma DecodeIs(c: seq<bv8>, ls: Link, ld: Link)
    requires Readable(c)
    ensures var t := c[Start(c[1])..];
            && UsedUpTo(0, c[0], c[1]) == 0 && RebuiltUpTo(0, c[0], c[1], t, ls, ld) == []
            && UsedUpTo(FIELDS, c[0], c[1]) <= |t|
            && Decode(c, ls, ld) ==
               if Stateful(c[1]) then None else Some(RebuiltUpTo(FIELDS, c[0], c[1], t, ls, ld))
  {
  }

  lemma UsedStep(i: nat, first: bv8, second: bv8)
    ensures UsedUpTo(i + 1, first, second) == UsedUpTo(i, first, second) + FieldUsed(i, first, second)
  {
  }

  lemma ExtendZeros(s: seq<bv8>, r: seq<bv8>, v: seq<bv8>)
    requires |s| == 40 && |r| + |v| <= 40 && s == r + seq(40 - |r|, _ => 0)
    ensures Written(s, |r|, v) == r + v + seq(40 - |r + v|, _ => 0)
  {
  }

  /** `decompressor_iphc`. */
  method DecompressorIphc(comp: array<bv8>, ls: Link, ld: Link) returns (ok: bool, ori: array<bv8>, taken: nat)
    requires Readable(comp[..])
    ensures ok <==> Decode(comp[..], ls, ld).Some?
    ensures ok ==> ori[..] == Decode(comp[..], ls, ld).value && taken == Taken(comp[..])
    ensures fresh(ori)
  {
    hide Written, UsedUpTo, FieldUsed, RebuiltUpTo, FieldRebuilt, Start, Stateful, Decode;
    var first, second := comp[0], comp[1];
    ghost var c := comp[..][Start(second)..];
    DecodeIs(comp[..], ls, ld);
    ori := new bv8[40](_ => 0);
    taken := Start(second);
    var i := 0;
    ghost var r := [];
    while i < FIELDS
      invariant 0 <= i <= FIELDS && (i > 4 ==> !Stateful(second))
      invariant |r| == FieldStart(i) && ori[..] == r + seq(40 - |r|, _ => 0)
      invariant UsedUpTo(i, first, second) <= |c| && r == RebuiltUpTo(i, first, second, c, ls, ld)
      invariant taken == Start(second) + UsedUpTo(i, first, second)
    {
      UsedStep(i, first, second);
      UsedGrows(i + 1, FIELDS, first, second);
      NextField(i, first, second, c, ls, ld);
      ghost var v := FieldRebuilt(i, first, second, c[UsedUpTo(i, first, second)..], ls, ld);
      ExtendZeros(ori[..], r, v);
      assert comp[taken..] == c[UsedUpTo(i, first, second)..];
      assert forall k | |r| <= k < 40 :: ori[k] == ori[..][k];
      var ret := DecompressField(i, ori, comp, taken, first, second, ls, ld);
      if ret < 0 {
        return false, ori, taken;
      }
      taken := taken + ret;
      r := r + v;
      i := i + 1;
    }
    assert ori[..] == r;
    ok := true;
  }
}
