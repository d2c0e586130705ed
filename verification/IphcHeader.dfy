/** The whole compressed IPv6 header: the table of fields, and what survives
    (sections 3.1.1 and 3.2 of RFC 6282). */
module IphcHeader {
  import opened Wrappers
  import opened Iphc

  type Header = h: seq<bv8> | |h| == 40 witness seq(40, _ => 0)

  // ---------- Traffic class and flow label ----------

  function Ecn(h0: bv8): bv8 {
    (h0 << 4) & 0xC0
  }

  function Dscp(h0: bv8, h1: bv8): bv8 {
    ((h0 << 4) & 0x30) | ((h1 & 0xF0) >> 4)
  }

  function Class(h0: bv8, h1: bv8): bv8 {
    Ecn(h0) | Dscp(h0, h1)
  }

  function LowNibble(b: bv8): bv8 {
    b & 0x0F
  }

  function Join(x: bv8, y: bv8): bv8 {
    x | y
  }

  predicate NoFlow(h: Header) {
    LowNibble(h[1]) == 0 && h[2] == 0 && h[3] == 0
  }

  function VtfMode(h: Header): bv8 {
    if !NoFlow(h) then
      if Dscp(h[0], h[1]) == 0 then 0x08 else 0x00
    else if Class(h[0], h[1]) != 0 then 0x10
    else 0x18
  }

  function VtfCarried(h: Header): seq<bv8> {
    if !NoFlow(h) then
      if Dscp(h[0], h[1]) == 0 then [Join(Ecn(h[0]), LowNibble(h[1])), h[2], h[3]]
      else [Class(h[0], h[1]), LowNibble(h[1]), h[2], h[3]]
    else if Class(h[0], h[1]) != 0 then [Class(h[0], h[1])]
    else []
  }

  function VtfUsed(mode: bv8): nat {
    if mode == 0x00 then 4 else if mode == 0x08 then 3 else if mode == 0x10 then 1 else 0
  }

  function Version6(b: bv8): bv8 {
    0x60 | (b >> 4)
  }

  function HighNibble(b: bv8): bv8 {
    (b << 4) & 0xF0
  }

  function ClearDscp(b: bv8): bv8 {
    b & 0xFC
  }

  function VtfRebuilt(mode: bv8, c: seq<bv8>): seq<bv8>
    requires |c| >= VtfUsed(mode)
  {
    if mode == 0x00 then [Version6(c[0]), Join(HighNibble(c[0]), c[1]), c[2], c[3]]
    else if mode == 0x08 then [ClearDscp(Version6(c[0])), LowNibble(c[0]), c[1], c[2]]
    else if mode == 0x10 then [Version6(c[0]), HighNibble(c[0]), 0, 0]
    else [0x60, 0, 0, 0]
  }

  predicate IsVersion6(b: bv8) {
    b & 0xF0 == 0x60
  }

  lemma ClassBits(h0: bv8, h1: bv8)
    ensures Version6(Class(h0, h1)) == h0 <==> IsVersion6(h0)
    ensures Join(HighNibble(Class(h0, h1)), LowNibble(h1)) == h1
  {
  }

  lemma EcnBits(h0: bv8, h1: bv8)
    requires Dscp(h0, h1) == 0
    ensures ClearDscp(Version6(Join(Ecn(h0), LowNibble(h1)))) == h0 <==> IsVersion6(h0)
    ensures LowNibble(Join(Ecn(h0), LowNibble(h1))) == h1
  {
  }

  lemma NoFlowBits(h0: bv8, h1: bv8)
    requires LowNibble(h1) == 0
    ensures HighNibble(Class(h0, h1)) == h1
    ensures Class(h0, h1) == 0 ==> h1 == 0 && (h0 == 0x60 <==> IsVersion6(h0))
  {
  }

  lemma VtfSurvives(h: Header, rest: seq<bv8>)
    ensures |VtfCarried(h)| == VtfUsed(VtfMode(h))
    ensures VtfRebuilt(VtfMode(h), VtfCarried(h) + rest) == h[..4] <==> IsVersion6(h[0])
  {
    hide Ecn, Dscp, Class, LowNibble, HighNibble, Version6, ClearDscp, Join, IsVersion6;
    ClassBits(h[0], h[1]);
    if Dscp(h[0], h[1]) == 0 {
      EcnBits(h[0], h[1]);
    }
    if NoFlow(h) {
      NoFlowBits(h[0], h[1]);
    }
  }

  // ---------- Next header and hop limit ----------

  const UDP: bv8 := 17

  /** Hop-by-hop, routing, fragment and destination options, and UDP. */
  predicate Compressible(nh: bv8) {
    nh == 0 || nh == 43 || nh == 44 || nh == 60 || nh == UDP
  }

  function HopCode(hl: bv8): bv8 {
    if hl == 1 then 1 else if hl == 64 then 2 else if hl == 255 then 3 else 0
  }

  function HopOf(code: bv8, carried: bv8): bv8 {
    if code == 1 then 1 else if code == 2 then 64 else if code == 3 then 255 else carried
  }

  // ---------- The first octet ----------

  function MarkVtf(b: bv8, mode: bv8): bv8 {
    ((b & 0x07) | 0x60) | mode
  }

  function MarkNext(b: bv8, compressed: bool): bv8 {
    if compressed then (b & 0xFB) | 0x04 else b & 0xFB
  }

  function MarkHop(b: bv8, code: bv8): bv8 {
    (b & 0xFC) | code
  }

  function ModeOfVtf(b: bv8): bv8 {
    b & 0x18
  }

  predicate NextElided(b: bv8) {
    b & 0x04 != 0
  }

  function ModeOfHop(b: bv8): bv8 {
    b & 0x03
  }

  predicate IsIphc(b: bv8) {
    b & 0xE0 == 0x60
  }

  lemma FirstSays(mode: bv8, compressed: bool, code: bv8)
    requires mode == 0x00 || mode == 0x08 || mode == 0x10 || mode == 0x18
    requires code <= 3
    ensures var b := MarkHop(MarkNext(MarkVtf(0, mode), compressed), code);
            && ModeOfVtf(b) == mode && (NextElided(b) <==> compressed) && ModeOfHop(b) == code
            && IsIphc(b) && b & 0x80 == 0
  {
  }

  // ---------- The table of fields ----------

  /** A header being compressed: the two fixed octets and what is carried after them. */
  datatype Coded = Coded(first: bv8, second: bv8, carried: seq<bv8>)

  const FIELDS: nat := 6

  function FieldSize(i: nat): nat {
    if i == 0 then 4 else if i == 1 then 2 else if i < 4 then 1 else 16
  }

  function FieldStart(i: nat): nat {
    if i == 0 then 0 else if i == 1 then 4 else if i == 2 then 6 else if i == 3 then 7
    else if i == 4 then 8 else if i == 5 then 24 else 40
  }

  function Source(h: Header): Address {
    h[8..24]
  }

  function Destination(h: Header): Address {
    h[24..40]
  }

  function SourceKind(h: Header, ls: Link): Kind {
    KindOf(Source(h), ls, true)
  }

  function DestinationKind(h: Header, ld: Link): Kind {
    KindOf(Destination(h), ld, false)
  }

  function FieldCarried(i: nat, h: Header, ls: Link, ld: Link): (v: seq<bv8>)
    ensures |v| <= FieldSize(i)
  {
    if i == 0 then VtfCarried(h)
    else if i == 2 then if Compressible(h[6]) then [] else [h[6]]
    else if i == 3 then if HopCode(h[7]) != 0 then [] else [h[7]]
    else if i == 4 then Carried(SourceKind(h, ls), Source(h))
    else if i == 5 then Carried(DestinationKind(h, ld), Destination(h))
    else []
  }

  function FieldFirst(i: nat, b: bv8, h: Header): bv8 {
    if i == 0 then MarkVtf(b, VtfMode(h))
    else if i == 2 then MarkNext(b, Compressible(h[6]))
    else if i == 3 then MarkHop(b, HopCode(h[7]))
    else b
  }

  function FieldSecond(i: nat, b: bv8, h: Header, ls: Link, ld: Link): bv8 {
    if i == 4 then Mark(b, SourceKind(h, ls), true)
    else if i == 5 then Mark(b, DestinationKind(h, ld), false)
    else b
  }

  predicate FieldFails(i: nat, h: Header, ls: Link, ld: Link) {
    || (i == 4 && SourceKind(h, ls).Underivable?)
    || (i == 5 && DestinationKind(h, ld).Underivable?)
  }

  function CodeField(i: nat, h: Header, ls: Link, ld: Link, x: Coded): Coded {
    Coded(FieldFirst(i, x.first, h), FieldSecond(i, x.second, h, ls, ld), x.carried + FieldCarried(i, h, ls, ld))
  }

  /** The first `i` fields. */
  function CodeUpTo(i: nat, h: Header, ls: Link, ld: Link): (x: Option<Coded>)
    ensures x.Some? ==> |x.value.carried| <= FieldStart(i)
  {
    if i == 0 then Some(Coded(0, 0, []))
    else
      match CodeUpTo(i - 1, h, ls, ld)
      case None => None
      case Some(x) => if FieldFails(i - 1, h, ls, ld) then None else Some(CodeField(i - 1, h, ls, ld, x))
  }

  function Octets(x: Coded): seq<bv8> {
    [x.first, x.second] + x.carried
  }

  /** What `compressor_iphc` produces. */
  function Encode(h: Header, ls: Link, ld: Link): (e: Option<seq<bv8>>)
    ensures e.Some? ==> 2 <= |e.value| <= 42
  {
    match CodeUpTo(FIELDS, h, ls, ld)
    case None => None
    case Some(x) => Some(Octets(x))
  }

  // ---------- Decompression ----------

  /** Where the carried octets start; the extension octet is there when a context is used. */
  function Start(second: bv8): nat {
    if second & 0x80 != 0 then 3 else 2
  }

  function FieldUsed(i: nat, first: bv8, second: bv8): nat {
    if i == 0 then VtfUsed(ModeOfVtf(first))
    else if i == 2 then if NextElided(first) then 0 else 1
    else if i == 3 then if ModeOfHop(first) != 0 then 0 else 1
    else if i == 4 then LocalUsed(SourceMode(second))
    else if i == 5 then DestinationUsed(second)
    else 0
  }

  function UsedUpTo(i: nat, first: bv8, second: bv8): nat {
    if i == 0 then 0 else UsedUpTo(i - 1, first, second) + FieldUsed(i - 1, first, second)
  }

  function FieldRebuilt(i: nat, first: bv8, second: bv8, c: seq<bv8>, ls: Link, ld: Link): (v: seq<bv8>)
    requires i < FIELDS && |c| >= FieldUsed(i, first, second)
    ensures |v| == FieldSize(i)
  {
    if i == 0 then VtfRebuilt(ModeOfVtf(first), c)
    else if i == 1 then [0, 0]
    else if i == 2 then if NextElided(first) then [0] else [c[0]]
    else if i == 3 then if ModeOfHop(first) != 0 then [HopOf(ModeOfHop(first), 0)] else [c[0]]
    else if i == 4 then LocalRebuilt(SourceMode(second), c, ls)
    else DestinationRebuilt(second, c, ld)
  }

  function RebuiltUpTo(i: nat, first: bv8, second: bv8, c: seq<bv8>, ls: Link, ld: Link): (v: seq<bv8>)
    requires i <= FIELDS && |c| >= UsedUpTo(i, first, second)
    ensures |v| == FieldStart(i)
  {
    if i == 0 then []
    else
      RebuiltUpTo(i - 1, first, second, c, ls, ld) +
      FieldRebuilt(i - 1, first, second, c[UsedUpTo(i - 1, first, second)..], ls, ld)
  }

  function Taken(c: seq<bv8>): nat
    requires |c| >= 2
  {
    Start(c[1]) + UsedUpTo(FIELDS, c[0], c[1])
  }

  predicate Readable(c: seq<bv8>) {
    |c| >= 2 && |c| >= Taken(c)
  }

  /** What `decompressor_iphc` makes of `c`: it fails when a context is asked for. */
  function Decode(c: seq<bv8>, ls: Link, ld: Link): Option<Header>
    requires Readable(c)
  {
    if Stateful(c[1]) then None
    else Some(RebuiltUpTo(FIELDS, c[0], c[1], c[Start(c[1])..], ls, ld))
  }

  // ---------- Round trip ----------

  /** The header with the fields that are restored from elsewhere left zero. */
  function Blanked(h: Header): Header {
    h[..4] + [0, 0] + [if Compressible(h[6]) then 0 else h[6]] + h[7..]
  }

  /** Compressing, followed by anything, and decompressing takes exactly what was made and
      gives the header back. */
  ghost predicate RoundTrips(h: Header, ls: Link, ld: Link, rest: seq<bv8>) {
    var e := Encode(h, ls, ld);
    && e.Some?
    && var c := e.value + rest;
    && Readable(c) && Taken(c) == |e.value| && Decode(c, ls, ld) == Some(Blanked(h))
  }

  /** A condition on the header and the link addresses alone. */
  predicate Faithful(h: Header, ls: Link, ld: Link) {
    var s, d := SourceKind(h, ls), DestinationKind(h, ld);
    && IsVersion6(h[0])
    && Determined(s, Source(h)) && Determined(d, Destination(h)) && Compatible(s, d)
  }

  function First(h: Header): bv8 {
    MarkHop(MarkNext(MarkVtf(0, VtfMode(h)), Compressible(h[6])), HopCode(h[7]))
  }

  function Front(h: Header): seq<bv8> {
    VtfCarried(h) + (if Compressible(h[6]) then [] else [h[6]]) + (if HopCode(h[7]) != 0 then [] else [h[7]])
  }

  lemma EncodeUnfolded(h: Header, ls: Link, ld: Link)
    ensures var s, d := SourceKind(h, ls), DestinationKind(h, ld);
            Encode(h, ls, ld) ==
            if s.Underivable? || d.Underivable? then None
            else Some([First(h), Second(s, d)] + (Front(h) + Carried(s, Source(h)) + Carried(d, Destination(h))))
  {
    hide MarkVtf, MarkNext, MarkHop, Mark, KindOf, Carried, VtfCarried, VtfMode, Compressible, HopCode;
    var v := VtfCarried(h);
    assert [] + v == v && v + [] == v;
    assert CodeUpTo(1, h, ls, ld) == Some(Coded(MarkVtf(0, VtfMode(h)), 0, v));
    assert CodeUpTo(2, h, ls, ld) == CodeUpTo(1, h, ls, ld);
    assert CodeUpTo(4, h, ls, ld) == Some(Coded(First(h), 0, Front(h)));
    assert CodeUpTo(5, h, ls, ld).Some? ==> CodeUpTo(5, h, ls, ld).value.first == First(h);
  }

  lemma FirstOf(h: Header)
    ensures var b := First(h);
            && ModeOfVtf(b) == VtfMode(h) && (NextElided(b) <==> Compressible(h[6])) && ModeOfHop(b) == HopCode(h[7])
            && IsIphc(b) && b & 0x80 == 0
  {
    FirstSays(VtfMode(h), Compressible(h[6]), HopCode(h[7]));
  }

  function NextCarried(h: Header): seq<bv8> {
    if Compressible(h[6]) then [] else [h[6]]
  }

  lemma FrontUsed(h: Header, b: bv8)
    ensures var f, v, n := First(h), |VtfCarried(h)|, |NextCarried(h)|;
            && UsedUpTo(0, f, b) == 0 && UsedUpTo(1, f, b) == UsedUpTo(2, f, b) == v
            && UsedUpTo(3, f, b) == v + n && UsedUpTo(4, f, b) == |Front(h)|
  {
    hide First, VtfUsed, VtfCarried, ModeOfVtf, ModeOfHop, NextElided, Compressible;
    FirstOf(h);
    VtfSurvives(h, []);
  }

  lemma NextField(i: nat, f: bv8, b: bv8, c: seq<bv8>, ls: Link, ld: Link)
    requires i < FIELDS && UsedUpTo(i + 1, f, b) <= |c|
    ensures RebuiltUpTo(i + 1, f, b, c, ls, ld) ==
            RebuiltUpTo(i, f, b, c, ls, ld) + FieldRebuilt(i, f, b, c[UsedUpTo(i, f, b)..], ls, ld)
  {
  }

  lemma FrontSlices(h: Header, rest: seq<bv8>)
    ensures var c, v, n := Front(h) + rest, |VtfCarried(h)|, |NextCarried(h)|;
            && c[0..] == c && c[..v] == VtfCarried(h)
            && (!Compressible(h[6]) ==> |c[v..]| > 0 && c[v..][0] == h[6])
            && (HopCode(h[7]) == 0 ==> |c[v + n..]| > 0 && c[v + n..][0] == h[7])
            && v + n <= |c|
  {
    hide VtfCarried, Compressible, HopCode;
  }

  lemma FrontFields(h: Header, b: bv8, rest: seq<bv8>, ls: Link, ld: Link)
    ensures var f, c, v, n := First(h), Front(h) + rest, |VtfCarried(h)|, |NextCarried(h)|;
            && FieldUsed(0, f, b) == v && FieldUsed(1, f, b) == 0
            && FieldUsed(2, f, b) == n && FieldUsed(3, f, b) <= |c[v + n..]|
            && (FieldRebuilt(0, f, b, c, ls, ld) == h[..4] <==> IsVersion6(h[0]))
            && FieldRebuilt(1, f, b, c[v..], ls, ld) == [0, 0]
            && FieldRebuilt(2, f, b, c[v..], ls, ld) == [if Compressible(h[6]) then 0 else h[6]]
            && FieldRebuilt(3, f, b, c[v + n..], ls, ld) == [h[7]]
  {
    hide First, VtfUsed, VtfCarried, VtfRebuilt, VtfMode, ModeOfVtf, ModeOfHop, NextElided, Compressible, IsVersion6;
    FirstOf(h);
    FrontSlices(h, rest);
    var c := Front(h) + rest;
    VtfSurvives(h, c[|VtfCarried(h)|..]);
    assert c == VtfCarried(h) + c[|VtfCarried(h)|..];
  }

  lemma FrontParts(h: Header, v: seq<bv8>, blank: bv8)
    requires |v| == 4 && blank == if Compressible(h[6]) then 0 else h[6]
    ensures [] + v + [0, 0] + [blank] + [h[7]] == Blanked(h)[..8] <==> v == h[..4]
    ensures ([] + v + [0, 0] + [blank] + [h[7]])[..4] == v
  {
    var r := [] + v + [0, 0] + [blank] + [h[7]];
    assert Blanked(h)[..8] == h[..4] + [0, 0] + [blank] + [h[7]];
    assert r[..4] == v && Blanked(h)[..8][..4] == h[..4];
  }

  /** The first four fields. */
  lemma FrontRebuilt(h: Header, b: bv8, rest: seq<bv8>, ls: Link, ld: Link)
    ensures UsedUpTo(4, First(h), b) == |Front(h)|
    ensures RebuiltUpTo(4, First(h), b, Front(h) + rest, ls, ld) == Blanked(h)[..8] <==> IsVersion6(h[0])
    ensures RebuiltUpTo(4, First(h), b, Front(h) + rest, ls, ld)[..4] == h[..4] ==> IsVersion6(h[0])
  {
    hide First, Front, IsVersion6, UsedUpTo, RebuiltUpTo, FieldRebuilt, FieldUsed, Compressible, NextCarried, VtfCarried;
    FrontUsed(h, b);
    FrontSlices(h, rest);
    FrontFields(h, b, rest, ls, ld);
    var f, c := First(h), Front(h) + rest;
    NextField(0, f, b, c, ls, ld);
    NextField(1, f, b, c, ls, ld);
    NextField(2, f, b, c, ls, ld);
    NextField(3, f, b, c, ls, ld);
    FrontParts(h, FieldRebuilt(0, f, b, c, ls, ld), if Compressible(h[6]) then 0 else h[6]);
  }

  lemma UsedParts(f: bv8, b: bv8)
    ensures UsedUpTo(5, f, b) == UsedUpTo(4, f, b) + LocalUsed(SourceMode(b))
    ensures UsedUpTo(6, f, b) == UsedUpTo(5, f, b) + DestinationUsed(b)
  {
  }

  /** The addresses. */
  lemma BackRebuilt(f: bv8, b: bv8, c: seq<bv8>, ls: Link, ld: Link)
    requires |c| >= UsedUpTo(6, f, b)
    ensures var n := UsedUpTo(4, f, b);
            var m := LocalUsed(SourceMode(b));
            && UsedUpTo(6, f, b) == n + m + DestinationUsed(b)
            && RebuiltUpTo(6, f, b, c, ls, ld) ==
               RebuiltUpTo(4, f, b, c, ls, ld) + LocalRebuilt(SourceMode(b), c[n..], ls)
               + DestinationRebuilt(b, c[n..][m..], ld)
  {
    hide UsedUpTo, RebuiltUpTo, LocalUsed, SourceMode, DestinationUsed, DestinationRebuilt, LocalRebuilt;
    UsedParts(f, b);
    NextField(4, f, b, c, ls, ld);
    NextField(5, f, b, c, ls, ld);
    assert c[UsedUpTo(4, f, b)..][LocalUsed(SourceMode(b))..] == c[UsedUpTo(5, f, b)..];
  }

  lemma BlankedBehind(h: Header)
    ensures |Blanked(h)| == 40 && Blanked(h)[8..24] == Source(h) && Blanked(h)[24..] == Destination(h)
  {
    var b := Blanked(h);
    forall i | 7 <= i < 40
      ensures b[i] == h[i]
    {
      assert b[i] == h[7..][i - 7];
    }
  }

  lemma Parts(h: Header, r: seq<bv8>, s: seq<bv8>, d: seq<bv8>)
    requires |r| == 8 && |s| == 16 && |d| == 16
    ensures r + s + d == Blanked(h) <==> r == Blanked(h)[..8] && s == Source(h) && d == Destination(h)
  {
    var b := Blanked(h);
    BlankedBehind(h);
    assert b == b[..8] + b[8..24] + b[24..];
    var x := r + s + d;
    assert x[..8] == r && x[8..24] == s && x[24..] == d;
  }

  lemma NotUnderivable(h: Header, ls: Link, ld: Link)
    ensures Faithful(h, ls, ld) ==> !SourceKind(h, ls).Underivable? && !DestinationKind(h, ld).Underivable?
    ensures !DestinationKind(h, ld).Unspecified?
  {
    OneSurvives(Destination(h), ld, false, []);
  }

  /** Exactly which headers come back, whatever follows. */
  lemma RoundTripsIff(h: Header, ls: Link, ld: Link, rest: seq<bv8>)
    ensures RoundTrips(h, ls, ld, rest) <==> Faithful(h, ls, ld)
  {
    hide First, Front, IsVersion6, UsedUpTo, RebuiltUpTo, KindOf, Second, Encode, Carried, Determined, Compatible,
      Stateful, SourceMode, LocalUsed, DestinationUsed, LocalRebuilt, DestinationRebuilt, Blanked, Source, Destination;
    var s, d := SourceKind(h, ls), DestinationKind(h, ld);
    EncodeUnfolded(h, ls, ld);
    PairSurvivesIff(Source(h), Destination(h), ls, ld, rest);
    NotUnderivable(h, ls, ld);
    if !s.Underivable? && !d.Underivable? {
      var v := Carried(s, Source(h)) + Carried(d, Destination(h));
      var f, b := First(h), Second(s, d);
      SecondSays(s, d);
      var e := [f, b] + (Front(h) + Carried(s, Source(h)) + Carried(d, Destination(h)));
      var t := Front(h) + (v + rest);
      assert e + rest == [f, b] + t;
      assert (e + rest)[2..] == t && t[|Front(h)|..] == v + rest;
      FrontRebuilt(h, b, v + rest, ls, ld);
      UsedParts(f, b);
      if |v| == LocalUsed(SourceMode(b)) + DestinationUsed(b) {
        BackRebuilt(f, b, t, ls, ld);
        Parts(h, RebuiltUpTo(4, f, b, t, ls, ld), LocalRebuilt(SourceMode(b), v + rest, ls),
              DestinationRebuilt(b, (v + rest)[LocalUsed(SourceMode(b))..], ld));
      }
    }
  }

  lemma AddressesAt(r: seq<bv8>, s: seq<bv8>, d: seq<bv8>)
    requires |r| == 8 && |s| == 16 && |d| == 16
    ensures var x := r + s + d; x[..4] == r[..4] && x[8..][..16] == s && x[8..][16..] == d
  {
  }

  /** A header that does not come back is not rebuilt either when octets of what follows it are
      taken with it, unless they are eight or more. */
  lemma HeaderMisses(h: Header, ls: Link, ld: Link, rest: seq<bv8>)
    requires Encode(h, ls, ld).Some? && Readable(Encode(h, ls, ld).value + rest)
    requires var e := Encode(h, ls, ld).value;
             var x := Decode(e + rest, ls, ld);
             && Taken(e + rest) < |e| + 8
             && x.Some? && x.value[..4] == h[..4] && x.value[8..] == h[8..]
    ensures Faithful(h, ls, ld)
  {
    hide First, Front, IsVersion6, UsedUpTo, RebuiltUpTo, KindOf, Second, Encode, Carried, Determined, Compatible,
      Stateful, SourceMode, LocalUsed, DestinationUsed, LocalRebuilt, DestinationRebuilt, PairSurvives;
    var s, d := SourceKind(h, ls), DestinationKind(h, ld);
    EncodeUnfolded(h, ls, ld);
    NotUnderivable(h, ls, ld);
    var v := Carried(s, Source(h)) + Carried(d, Destination(h));
    var f, b := First(h), Second(s, d);
    SecondSays(s, d);
    var e := [f, b] + (Front(h) + Carried(s, Source(h)) + Carried(d, Destination(h)));
    var t := Front(h) + (v + rest);
    assert e + rest == [f, b] + t;
    assert (e + rest)[2..] == t && t[|Front(h)|..] == v + rest;
    FrontRebuilt(h, b, v + rest, ls, ld);
    UsedParts(f, b);
    BackRebuilt(f, b, t, ls, ld);
    AddressesAt(RebuiltUpTo(4, f, b, t, ls, ld), LocalRebuilt(SourceMode(b), v + rest, ls),
                DestinationRebuilt(b, (v + rest)[LocalUsed(SourceMode(b))..], ld));
    assert h[8..][..16] == Source(h) && h[8..][16..] == Destination(h);
    PairMisses(Source(h), Destination(h), ls, ld, rest);
    PairSurvivesIff(Source(h), Destination(h), ls, ld, rest);
  }

  const LOCAL_ONE: Address := [0xFE, 0x80, 0, 0, 0, 0, 0, 0] + [0, 0, 0, 0, 0, 0, 0, 1]
  const GLOBAL_ONE: Address := [0x20, 0x01, 0x0D, 0xB8, 0, 0, 0, 0, 0, 0, 0, 0, 0, 0, 0, 1]

  /** A header from fe80::1, which is elided, to 2001:db8::1, which is carried in full and clears
      the mode of the source. */
  const ELIDED_TO_GLOBAL: Header := [0x60, 0, 0, 0, 0, 0, 17, 64] + LOCAL_ONE + GLOBAL_ONE

  const LINK_ONE: Link := LinkAddress(3, [0x02] + [0, 0, 0, 0, 0, 0, 1])

  lemma LinkOneIid()
    ensures LinkIid(LINK_ONE) == Some(LOCAL_ONE[8..])
  {
    assert FlipLocal(0x02) == 0;
    assert LINK_ONE.data[1..] == [0, 0, 0, 0, 0, 0, 1];
    assert LOCAL_ONE[8..] == [0, 0, 0, 0, 0, 0, 0, 1];
    assert LINK_ONE.data[0] == 0x02;
    assert [FlipLocal(LINK_ONE.data[0])] + LINK_ONE.data[1..] == LOCAL_ONE[8..];
  }

  /** It does not come back. The link address is the one the identifier belongs to. */
  lemma ElidedSourceExample(ld: Link, rest: seq<bv8>)
    ensures var h, ls := ELIDED_TO_GLOBAL, LINK_ONE;
            && SourceKind(h, ls) == Derived && DestinationKind(h, ld) == Full
            && Encode(h, ls, ld).Some? && !RoundTrips(h, ls, ld, rest)
  {
    var h, ls := ELIDED_TO_GLOBAL, LINK_ONE;
    hide Encode, RoundTrips, LinkIid;
    LinkOneIid();
    assert Source(h) == LOCAL_ONE && Destination(h) == GLOBAL_ONE;
    assert IsLinkLocal(LOCAL_ONE) && LOCAL_ONE[0] != 0xFF && LOCAL_ONE != ANY && LOCAL_ONE[0] == 0xFE;
    assert GLOBAL_ONE[0] == 0x20 && !IsLinkLocal(GLOBAL_ONE);
    EncodeUnfolded(h, ls, ld);
    RoundTripsIff(h, ls, ld, rest);
  }
}
