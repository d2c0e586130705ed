/** Compression of the fixed IPv6 header without contexts (section 3.1 of RFC 6282), with the
    interface identifiers of IEEE 802.15.4 addresses. */
module Iphc {
  import opened Wrappers

  // ---------- Link-layer addresses ----------

  /** An IEEE 802.15.4 address; mode 2 is short, mode 3 is extended. */
  datatype LinkAddress = LinkAddress(mode: nat, data: seq<bv8>)
  type Link = l: LinkAddress | |l.data| == 8 witness LinkAddress(0, [0, 0, 0, 0, 0, 0, 0, 0])

  /** Exclusive-or with the universal/local bit. */
  function FlipLocal(b: bv8): bv8 {
    b ^ 0x02
  }

  /** The interface identifier that belongs to a link-layer address (`addr_802154_iid`). */
  function LinkIid(ll: Link): (iid: Option<seq<bv8>>)
    ensures iid.Some? ==> |iid.value| == 8
  {
    if ll.mode == 2 then Some([0, 0, 0, 0xFF, 0xFE, 0, ll.data[0], ll.data[1]])
    else if ll.mode == 3 then Some([FlipLocal(ll.data[0])] + ll.data[1..])
    else None
  }

  predicate Iid16(iid: seq<bv8>)
    requires |iid| == 8
  {
    iid[2] == 0 && iid[3] == 0xFF && iid[4] == 0xFE && iid[5] == 0
  }

  // ---------- Addresses ----------

  type Address = a: seq<bv8> | |a| == 16 witness seq(16, _ => 0)

  const ANY: Address := [0, 0, 0, 0, 0, 0, 0, 0, 0, 0, 0, 0, 0, 0, 0, 0]
  const LINK_LOCAL: Address := [0xFE, 0x80, 0, 0, 0, 0, 0, 0, 0, 0, 0, 0xFF, 0xFE, 0, 0, 0]

  predicate IsLinkLocal(a: Address) {
    a[0] == 0xFE && a[1] >> 6 == 2
  }

  /** How an address is carried. */
  datatype Kind = Full | Unspecified | Derived | Short | Long | Underivable
                | GroupFull | Group48 | Group32 | Group8

  predicate IsGroupKind(k: Kind) {
    k.GroupFull? || k.Group48? || k.Group32? || k.Group8?
  }

  function GroupKind(a: Address): (k: Kind)
    ensures IsGroupKind(k)
  {
    if a[8] == 0 && a[9] == 0 && a[10] == 0 && (a[11] != 0 || a[12] != 0) then Group48
    else if a[8] == 0 && a[9] == 0 && a[10] == 0 && a[11] == 0 && a[12] == 0 && (a[13] != 0 || a[14] != 0) then Group32
    else if a[1] == 0x02 && a[14] == 0 && a[15] != 0 then Group8
    else GroupFull
  }

  predicate IsLocalKind(k: Kind) {
    k.Derived? || k.Short? || k.Long?
  }

  function LocalKind(a: Address, ll: Link): (k: Kind)
    ensures IsLocalKind(k) || k.Underivable?
  {
    match LinkIid(ll)
    case None => Underivable
    case Some(iid) =>
      if iid == a[8..] then Derived else if Iid16(a[8..]) then Short else Long
  }

  function KindOf(a: Address, ll: Link, isSource: bool): Kind {
    if isSource && a == ANY then Unspecified
    else if a[0] == 0xFF then GroupKind(a)
    else if IsLinkLocal(a) then LocalKind(a, ll)
    else Full
  }

  /** The octets of an address that are carried. */
  function Carried(k: Kind, a: Address): (v: seq<bv8>)
    ensures |v| <= 16
  {
    match k
    case Full | Unspecified | GroupFull => a
    case Derived | Underivable => []
    case Short => a[14..]
    case Long => a[8..]
    case Group48 => [a[1]] + a[11..]
    case Group32 => [a[1]] + a[13..]
    case Group8 => [a[15]]
  }

  /** The low bits of the second octet for a multicast address. */
  function GroupMode(k: Kind): bv8 {
    match k
    case Group48 => 1
    case Group32 => 2
    case Group8 => 3
    case _ => 0
  }

  function LocalMode(k: Kind): bv8 {
    match k
    case Derived => 3
    case Short => 2
    case _ => 1
  }

  function PrefixMark(b: bv8, isSource: bool): bv8 {
    if isSource then b & 0xBF else b & 0xFB
  }

  /** Clears the mode of the source, whichever address is being compressed. */
  function StatelessMark(b: bv8): bv8 {
    b & 0xCF
  }

  function UnspecifiedMark(b: bv8): bv8 {
    b | 0x40
  }

  function LocalMark(b: bv8, mode: bv8, isSource: bool): bv8 {
    if isSource then (b & 0xC0) | (mode << 4) else (b & 0xFC) | mode
  }

  function GroupMark(b: bv8, mode: bv8): bv8 {
    ((b & 0xFC) | 0x08) | mode
  }

  function KindMark(p: bv8, k: Kind, isSource: bool): bv8 {
    match k
    case Full => StatelessMark(p)
    case Unspecified => StatelessMark(UnspecifiedMark(p))
    case Derived | Short | Long => LocalMark(p, LocalMode(k), isSource)
    case Underivable => LocalMark(p, 0, isSource)
    case GroupFull | Group48 | Group32 | Group8 => GroupMark(p, GroupMode(k))
  }

  /** The second octet once an address of kind `k` is compressed. */
  function Mark(b: bv8, k: Kind, isSource: bool): bv8 {
    KindMark(PrefixMark(b, isSource), k, isSource)
  }

  /** An address rebuilt from its mode and the octets that follow, and how many of them it took. */
  function LocalUsed(mode: bv8): nat {
    if mode == 1 then 8 else if mode == 2 then 2 else if mode == 3 then 0 else 16
  }

  function LocalRebuilt(mode: bv8, c: seq<bv8>, ll: Link): Address
    requires |c| >= LocalUsed(mode)
  {
    if mode == 1 then LINK_LOCAL[..8] + c[..8]
    else if mode == 2 then LINK_LOCAL[..14] + c[..2]
    else if mode == 3 then
      match LinkIid(ll)
      case Some(iid) => LINK_LOCAL[..8] + iid
      case None => LINK_LOCAL
    else c[..16]
  }

  function GroupUsed(mode: bv8): nat {
    if mode == 1 then 6 else if mode == 2 then 4 else if mode == 3 then 1 else 16
  }

  const ZEROS: seq<bv8> := [0, 0, 0, 0, 0, 0, 0, 0, 0, 0, 0, 0, 0, 0, 0, 0]

  function GroupRebuilt(mode: bv8, c: seq<bv8>): Address
    requires |c| >= GroupUsed(mode)
  {
    if mode == 1 then [0xFF, c[0]] + ZEROS[..9] + c[1..6]
    else if mode == 2 then [0xFF, c[0]] + ZEROS[..11] + c[1..4]
    else if mode == 3 then [0xFF, 0x02] + ZEROS[..13] + [c[0]]
    else c[..16]
  }

  function SourceMode(b: bv8): bv8 {
    (b & 0x30) >> 4
  }

  function DestinationMode(b: bv8): bv8 {
    b & 0x03
  }

  predicate Stateful(b: bv8) {
    b & 0x40 != 0
  }

  predicate IsGroup(b: bv8) {
    b & 0x08 != 0
  }

  function DestinationUsed(b: bv8): nat {
    if IsGroup(b) then GroupUsed(DestinationMode(b)) else LocalUsed(DestinationMode(b))
  }

  function DestinationRebuilt(b: bv8, c: seq<bv8>, ll: Link): Address
    requires |c| >= DestinationUsed(b)
  {
    if IsGroup(b) then GroupRebuilt(DestinationMode(b), c) else LocalRebuilt(DestinationMode(b), c, ll)
  }

  // ---------- When an address survives ----------

  predicate SubnetZero(a: Address) {
    a[..8] == LINK_LOCAL[..8]
  }

  /** What an address of kind `k` must look like for its carried octets to determine it. */
  predicate Determined(k: Kind, a: Address) {
    match k
    case Full | Unspecified | GroupFull => true
    case Derived | Long => SubnetZero(a)
    case Short => SubnetZero(a) && a[8] == 0 && a[9] == 0
    case Group48 | Group32 => a[2..8] == ZEROS[..6]
    case Group8 => a[2..14] == ZEROS[..12]
    case Underivable => false
  }

  /** The kinds of source and destination that do not overwrite each other's mode. */
  predicate Compatible(s: Kind, d: Kind) {
    match s
    case Full => true
    case Derived | Short | Long => d != Full
    case GroupFull => d.Full? || d.GroupFull? || d.Group48? || d.Group32? || d.Group8?
    case _ => false
  }

  function Second(s: Kind, d: Kind): bv8 {
    Mark(Mark(0, s, true), d, false)
  }

  lemma LocalSurvives(a: Address, ll: Link, isSource: bool, rest: seq<bv8>)
    requires var k := KindOf(a, ll, isSource); k.Derived? || k.Short? || k.Long?
    ensures var k := KindOf(a, ll, isSource);
            && |Carried(k, a)| == LocalUsed(LocalMode(k))
            && (LocalRebuilt(LocalMode(k), Carried(k, a) + rest, ll) == a <==> Determined(k, a))
  {
    var k := KindOf(a, ll, isSource);
    var c := Carried(k, a) + rest;
    assert a == a[..8] + a[8..];
    match k
    case Derived =>
    case Long => assert c[..8] == a[8..];
    case Short =>
      assert c[..2] == a[14..];
      assert a[8..][0] == a[8] && a[8..][1] == a[9];
      assert a == a[..8] + [a[8], a[9]] + [0, 0xFF, 0xFE, 0] + a[14..];
      assert LINK_LOCAL[..14] == LINK_LOCAL[..8] + [0, 0] + [0, 0xFF, 0xFE, 0];
      var r := LocalRebuilt(2, c, ll);
      assert r[..8] == LINK_LOCAL[..8] && r[8] == 0 && r[9] == 0;
  }

  /** An address whose octets from 8 to `n` are zero, and one that is rebuilt from its ends. */
  lemma Middle(a: Address, r: Address, n: nat)
    requires 8 <= n <= 16 && (forall i | 8 <= i < n :: a[i] == 0 == r[i]) && (forall i | 2 <= i < 8 :: r[i] == 0)
    requires a[0] == r[0] && a[1] == r[1] && a[n..] == r[n..]
    ensures r == a <==> a[2..8] == ZEROS[..6]
  {
    assert r[2..8] == ZEROS[..6];
    if a[2..8] == ZEROS[..6] {
      forall i | 0 <= i < 16
        ensures r[i] == a[i]
      {
        if 2 <= i < 8 {
          assert a[i] == a[2..8][i - 2] == r[2..8][i - 2];
        } else if n <= i {
          assert a[i] == a[n..][i - n] == r[n..][i - n];
        }
      }
    }
  }

  lemma Group48Survives(a: Address, c: seq<bv8>)
    requires GroupKind(a) == Group48 && |c| >= 6 && a[0] == 0xFF && c[..6] == [a[1]] + a[11..]
    ensures GroupRebuilt(1, c) == a <==> Determined(Group48, a)
  {
    var r := GroupRebuilt(1, c);
    assert c[1..6] == c[..6][1..] == a[11..] && c[0] == c[..6][0];
    assert r[11..] == a[11..];
    Middle(a, r, 11);
  }

  lemma Group32Survives(a: Address, c: seq<bv8>)
    requires GroupKind(a) == Group32 && |c| >= 4 && a[0] == 0xFF && c[..4] == [a[1]] + a[13..]
    ensures GroupRebuilt(2, c) == a <==> Determined(Group32, a)
  {
    var r := GroupRebuilt(2, c);
    assert c[1..4] == c[..4][1..] == a[13..] && c[0] == c[..4][0];
    assert r[13..] == a[13..];
    Middle(a, r, 13);
  }

  lemma Group8Survives(a: Address, c: seq<bv8>)
    requires GroupKind(a) == Group8 && |c| >= 1 && a[0] == 0xFF && c[0] == a[15]
    ensures GroupRebuilt(3, c) == a <==> Determined(Group8, a)
  {
    var r := GroupRebuilt(3, c);
    assert r[2..14] == ZEROS[..12];
    assert a == [a[0], a[1]] + a[2..14] + [a[14], a[15]];
    assert r == [0xFF, 0x02] + r[2..14] + [0, a[15]];
  }

  lemma FullDetermined(a: Address)
    ensures Determined(GroupFull, a)
  {
  }

  lemma GroupSurvives(a: Address, rest: seq<bv8>)
    requires a[0] == 0xFF
    ensures var k := GroupKind(a);
            && |Carried(k, a)| == GroupUsed(GroupMode(k))
            && (GroupRebuilt(GroupMode(k), Carried(k, a) + rest) == a <==> Determined(k, a))
  {
    hide Determined, GroupKind;
    var k := GroupKind(a);
    var c := Carried(k, a) + rest;
    match k
    case Group48 => Group48Survives(a, c);
    case Group32 => Group32Survives(a, c);
    case Group8 => Group8Survives(a, c);
    case GroupFull =>
      assert c[..16] == a;
      FullDetermined(a);
  }

  /** What the second octet says, for every pair of kinds. */
  lemma SecondSays(s: Kind, d: Kind)
    requires !s.Underivable? && !d.Underivable? && !d.Unspecified?
    ensures var b := Second(s, d);
            && b & 0x80 == 0 && (Stateful(b) <==> s.Unspecified?)
            && SourceMode(b) == (if IsLocalKind(s) && !d.Full? then LocalMode(s) else 0)
            && (IsGroup(b) <==> IsGroupKind(s) || IsGroupKind(d))
            && DestinationMode(b) == (if IsLocalKind(d) then LocalMode(d)
                                      else if d.Full? then GroupMode(s) else GroupMode(d))
  {
  }

  ghost predicate PairSurvives(s: Address, d: Address, ls: Link, ld: Link, rest: seq<bv8>) {
    var ks, kd := KindOf(s, ls, true), KindOf(d, ld, false);
    && !ks.Underivable? && !kd.Underivable?
    && var b := Second(ks, kd);
    var v := Carried(ks, s) + Carried(kd, d);
    var n := LocalUsed(SourceMode(b));
    && !Stateful(b) && |v| == n + DestinationUsed(b)
    && LocalRebuilt(SourceMode(b), v + rest, ls) == s
    && DestinationRebuilt(b, (v + rest)[n..], ld) == d
  }

  lemma InlineRebuilt(c: seq<bv8>, ll: Link)
    ensures |c| >= 16 ==> LocalRebuilt(0, c, ll) == c[..16] && GroupRebuilt(0, c) == c[..16]
  {
  }

  lemma GroupStart(mode: bv8, c: seq<bv8>)
    requires mode != 0 && mode <= 3 && |c| >= GroupUsed(mode)
    ensures GroupRebuilt(mode, c)[0] == 0xFF
  {
  }

  /** Kinds that overwrite each other's mode: a wrong length, or a multicast address where
      there was none. */
  lemma Clash(s: Address, d: Address, ls: Link, ld: Link, rest: seq<bv8>)
    requires var ks, kd := KindOf(s, ls, true), KindOf(d, ld, false);
             !Compatible(ks, kd) && !ks.Unspecified? && !ks.Underivable? && !kd.Underivable?
    ensures !PairSurvives(s, d, ls, ld, rest)
  {
    hide Mark, Stateful, SourceMode, DestinationMode, IsGroup, GroupRebuilt, LocalRebuilt;
    var ks, kd := KindOf(s, ls, true), KindOf(d, ld, false);
    SecondSays(ks, kd);
    if IsGroupKind(ks) && PairSurvives(s, d, ls, ld, rest) {
      var b := Second(ks, kd);
      if DestinationMode(b) != 0 {
        GroupStart(DestinationMode(b), (Carried(ks, s) + Carried(kd, d) + rest)[LocalUsed(SourceMode(b))..]);
      }
    }
  }

  /** Each address alone. */
  lemma OneSurvives(a: Address, ll: Link, isSource: bool, rest: seq<bv8>)
    ensures var k := KindOf(a, ll, isSource);
            var c := Carried(k, a);
            && (k.Unspecified? ==> isSource)
            && (IsLocalKind(k) ==>
                  |c| == LocalUsed(LocalMode(k)) &&
                  (LocalRebuilt(LocalMode(k), c + rest, ll) == a <==> Determined(k, a)))
            && (IsGroupKind(k) ==>
                  |c| == GroupUsed(GroupMode(k)) &&
                  (GroupRebuilt(GroupMode(k), c + rest) == a <==> Determined(k, a)))
            && (k.Full? || k.GroupFull? ==> |c| == 16 && LocalRebuilt(0, c + rest, ll) == a && Determined(k, a))
  {
    hide GroupRebuilt, LocalRebuilt;
    var k := KindOf(a, ll, isSource);
    if IsLocalKind(k) {
      LocalSurvives(a, ll, isSource, rest);
    } else if IsGroupKind(k) {
      GroupSurvives(a, rest);
    }
    InlineRebuilt(a + rest, ll);
    assert (a + rest)[..16] == a;
  }

  lemma PairFits(s: Address, d: Address, ls: Link, ld: Link, rest: seq<bv8>)
    requires Compatible(KindOf(s, ls, true), KindOf(d, ld, false)) && !KindOf(d, ld, false).Underivable?
    ensures PairSurvives(s, d, ls, ld, rest) <==>
            Determined(KindOf(s, ls, true), s) && Determined(KindOf(d, ld, false), d)
  {
    hide Mark, Stateful, SourceMode, DestinationMode, IsGroup, GroupRebuilt, LocalRebuilt, Determined, KindOf;
    var ks, kd := KindOf(s, ls, true), KindOf(d, ld, false);
    OneSurvives(s, ls, true, Carried(kd, d) + rest);
    OneSurvives(d, ld, false, rest);
    SecondSays(ks, kd);
    var cs, cd := Carried(ks, s), Carried(kd, d);
    assert cs + cd + rest == cs + (cd + rest);
    assert (cs + cd + rest)[|cs|..] == cd + rest;
    InlineRebuilt(cd + rest, ld);
  }

  /** Exactly which pairs of addresses come back. */
  lemma PairSurvivesIff(s: Address, d: Address, ls: Link, ld: Link, rest: seq<bv8>)
    ensures PairSurvives(s, d, ls, ld, rest) <==>
            var ks, kd := KindOf(s, ls, true), KindOf(d, ld, false);
            Determined(ks, s) && Determined(kd, d) && Compatible(ks, kd)
  {
    hide Mark, Stateful, SourceMode, DestinationMode, IsGroup, GroupRebuilt, LocalRebuilt;
    var ks, kd := KindOf(s, ls, true), KindOf(d, ld, false);
    if !ks.Underivable? && !kd.Underivable? {
      SecondSays(ks, kd);
      if Compatible(ks, kd) {
        PairFits(s, d, ls, ld, rest);
      } else if !ks.Unspecified? {
        Clash(s, d, ls, ld, rest);
      }
    }
  }

  /** What is rebuilt from the octets of both addresses and what follows them. */
  ghost predicate PairRebuilt(s: Address, d: Address, ls: Link, ld: Link, rest: seq<bv8>) {
    var ks, kd := KindOf(s, ls, true), KindOf(d, ld, false);
    var b := Second(ks, kd);
    var v := Carried(ks, s) + Carried(kd, d);
    var n := LocalUsed(SourceMode(b));
    && |v + rest| >= n + DestinationUsed(b)
    && LocalRebuilt(SourceMode(b), v + rest, ls) == s
    && DestinationRebuilt(b, (v + rest)[n..], ld) == d
  }

  /** Addresses that do not come back are rebuilt wrongly, or eight octets of what follows them
      are taken with them. */
  lemma PairMisses(s: Address, d: Address, ls: Link, ld: Link, rest: seq<bv8>)
    requires var ks, kd := KindOf(s, ls, true), KindOf(d, ld, false);
             !ks.Unspecified? && !ks.Underivable? && !kd.Underivable? && PairRebuilt(s, d, ls, ld, rest)
    ensures var ks, kd := KindOf(s, ls, true), KindOf(d, ld, false);
            || PairSurvives(s, d, ls, ld, rest)
            || LocalUsed(SourceMode(Second(ks, kd))) + DestinationUsed(Second(ks, kd))
               >= |Carried(ks, s) + Carried(kd, d)| + 8
  {
    hide Mark, Stateful, SourceMode, DestinationMode, IsGroup, GroupRebuilt, LocalRebuilt;
    var ks, kd := KindOf(s, ls, true), KindOf(d, ld, false);
    OneSurvives(s, ls, true, Carried(kd, d) + rest);
    OneSurvives(d, ld, false, rest);
    SecondSays(ks, kd);
    var b := Second(ks, kd);
    if !Compatible(ks, kd) && IsGroupKind(ks) && DestinationMode(b) != 0 {
      GroupStart(DestinationMode(b), (Carried(ks, s) + Carried(kd, d) + rest)[LocalUsed(SourceMode(b))..]);
    }
  }
}
