/** Compression of names in DNS packets, and their decompression (section 4.1.4 of RFC 1035). */
module DnsCompression {
  import opened Wrappers

  type Octet = x: int | 0 <= x < 256

  const HEADER: nat := 12

  // ---------- Names ----------

  /** A sequence of labels of 1 to 63 octets, none of them zero, and a zero octet. */
  ghost predicate IsName(s: seq<Octet>) {
    && s != []
    && if s[0] == 0 then |s| == 1
       else
         && s[0] < 64 && s[0] + 1 < |s|
         && (forall i | 1 <= i <= s[0] :: s[i] != 0)
         && IsName(s[s[0] + 1..])
  }

  /** The first label of a name. */
  lemma Head(s: seq<Octet>)
    requires IsName(s)
    ensures s != [] && s[0] < 64
    ensures if s[0] == 0 then s == [0]
            else s[0] + 1 < |s| && IsName(s[s[0] + 1..])
  {
  }

  /** Only the last octet of a name is zero. */
  lemma {:induction false} OneZero(s: seq<Octet>)
    requires IsName(s)
    ensures forall i | 0 <= i < |s| :: s[i] == 0 <==> i == |s| - 1
  {
    if s[0] != 0 {
      var t := s[s[0] + 1..];
      OneZero(t);
      forall i | s[0] < i < |s|
        ensures s[i] == t[i - s[0] - 1]
      {
      }
    }
  }

  // ---------- Decompression ----------

  function Pointer(hi: Octet, lo: Octet): nat {
    hi % 64 * 256 + lo
  }

  /** The name at `at`, read in at most `steps` labels and pointers and within `p`. */
  function Decode(p: seq<Octet>, at: nat, steps: nat): Option<seq<Octet>>
    decreases steps
  {
    if steps == 0 || at >= |p| then None
    else if p[at] == 0 then Some([0])
    else if p[at] >= 64 then
      if at + 1 >= |p| then None else Decode(p, Pointer(p[at], p[at + 1]), steps - 1)
    else if at + p[at] + 1 > |p| then None
    else
      match Decode(p, at + p[at] + 1, steps - 1)
      case None => None
      case Some(rest) => Some(p[at..at + p[at] + 1] + rest)
  }

  /** The name at `at` ends before `end`, with a zero octet or with a pointer. */
  ghost predicate Ends(p: seq<Octet>, at: nat, end: nat)
    decreases end - at
  {
    && at < end <= |p|
    && if p[at] == 0 then end == at + 1
       else if p[at] >= 64 then end == at + 2
       else Ends(p, at + p[at] + 1, end)
  }

  /** More steps change nothing. */
  lemma {:induction false} DecodeMonotone(p: seq<Octet>, at: nat, steps: nat, more: nat)
    requires Decode(p, at, steps).Some? && steps <= more
    ensures Decode(p, at, more) == Decode(p, at, steps)
    decreases steps
  {
    if p[at] == 0 {
    } else if p[at] >= 64 {
      DecodeMonotone(p, Pointer(p[at], p[at + 1]), steps - 1, more - 1);
    } else {
      DecodeMonotone(p, at + p[at] + 1, steps - 1, more - 1);
    }
  }

  lemma SliceWithin(p: seq<Octet>, n: nat, i: nat, j: nat)
    requires i <= j <= n <= |p|
    ensures p[..n][i..j] == p[i..j]
  {
  }

  /** What is read within the first `n` octets does not depend on the others. */
  lemma {:induction false} DecodeWithin(p: seq<Octet>, c: seq<Octet>, n: nat, at: nat, steps: nat)
    requires n <= |p| && n <= |c| && c[..n] == p[..n] && Decode(p[..n], at, steps).Some?
    ensures Decode(c, at, steps) == Decode(p[..n], at, steps)
    decreases steps
  {
    var b := p[..n];
    assert c[at] == c[..n][at] == b[at];
    if b[at] == 0 {
    } else if b[at] >= 64 {
      assert c[at + 1] == c[..n][at + 1] == b[at + 1];
      DecodeWithin(p, c, n, Pointer(b[at], b[at + 1]), steps - 1);
    } else {
      DecodeWithin(p, c, n, at + b[at] + 1, steps - 1);
      SliceWithin(c, n, at, at + b[at] + 1);
      SliceWithin(p, n, at, at + b[at] + 1);
    }
  }

  lemma Standing(p: seq<Octet>, at: nat, s: seq<Octet>)
    requires at + |s| <= |p| && p[at..at + |s|] == s
    ensures forall k | 0 <= k < |s| :: s[k] == p[at + k]
  {
  }

  /** Where `s` stands, its first `n` octets stand and behind them the others. */
  lemma CutSlices(p: seq<Octet>, at: nat, s: seq<Octet>, n: nat)
    requires n <= |s| && at + |s| <= |p| && p[at..at + |s|] == s
    ensures p[at..at + n] == s[..n] && p[at + n..at + |s|] == s[n..]
  {
    Standing(p, at, s);
    forall k | 0 <= k < n
      ensures p[at..at + n][k] == s[..n][k]
    {
    }
    forall k | 0 <= k < |s| - n
      ensures p[at + n..at + |s|][k] == s[n..][k]
    {
      assert s[n..][k] == s[n + k] == p[at + (n + k)];
    }
  }

  /** The first label of a name, and the rest, where the name stands. */
  lemma Cut(p: seq<Octet>, at: nat, s: seq<Octet>)
    requires IsName(s) && at + |s| <= |p| && p[at..at + |s|] == s
    ensures p[at] == s[0] < 64 && (s[0] == 0 ==> s == [0])
    ensures s[0] != 0 ==>
              var n := s[0] + 1;
              n < |s| && IsName(s[n..]) && p[at..at + n] == s[..n] && p[at + n..at + |s|] == s[n..]
  {
    hide *;
    Head(s);
    Standing(p, at, s);
    if s[0] != 0 {
      CutSlices(p, at, s, s[0] + 1);
    }
  }

  lemma DecodeLabel(p: seq<Octet>, at: nat, steps: nat)
    requires at < |p| && 0 < p[at] < 64 && at + p[at] + 1 <= |p| && Decode(p, at + p[at] + 1, steps).Some?
    ensures Decode(p, at, steps + 1) == Some(p[at..at + p[at] + 1] + Decode(p, at + p[at] + 1, steps).value)
  {
  }

  lemma DecodePointer(p: seq<Octet>, at: nat, steps: nat)
    requires at + 1 < |p| && 64 <= p[at]
    ensures Decode(p, at, steps + 1) == Decode(p, Pointer(p[at], p[at + 1]), steps)
  {
  }

  lemma Glue(s: seq<Octet>, n: nat)
    requires n <= |s|
    ensures s == s[..n] + s[n..]
  {
  }

  lemma DecodeRoot(p: seq<Octet>, at: nat, steps: nat)
    requires at < |p| && p[at] == 0 && 0 < steps
    ensures Decode(p, at, steps) == Some([0])
  {
  }

  /** An uncompressed name is read as it stands. */
  lemma {:induction false} PlainDecodes(p: seq<Octet>, at: nat, s: seq<Octet>)
    requires IsName(s) && at + |s| <= |p| && p[at..at + |s|] == s
    ensures |s| > 0 && Decode(p, at, |s|) == Some(s)
    decreases |s|
  {
    hide *;
    Head(s);
    Cut(p, at, s);
    if s[0] == 0 {
      DecodeRoot(p, at, 1);
    } else {
      var n := s[0] + 1;
      PlainDecodes(p, at + n, s[n..]);
      DecodeMonotone(p, at + n, |s[n..]|, |s| - 1);
      DecodeLabel(p, at, |s| - 1);
      Glue(s, n);
    }
  }

  // ---------- Where a suffix occurs before ----------

  ghost predicate OccursAt(p: seq<Octet>, t: nat, at: nat, end: nat)
    requires at <= end <= |p| && t <= at
  {
    p[t..t + (end - at)] == p[at..end]
  }

  /** The first place from `from` on, and before `at`, where `p[at..end]` occurs. */
  ghost function Occurrence(p: seq<Octet>, from: nat, at: nat, end: nat): (t: Option<nat>)
    requires at <= end <= |p|
    ensures t.Some? ==> from <= t.value < at && OccursAt(p, t.value, at, end)
    decreases at - from
  {
    if from >= at then None
    else if OccursAt(p, from, at, end) then Some(from)
    else Occurrence(p, from + 1, at, end)
  }

  /** Where compression cuts the name that ends at `end`, and where it points: at the first
      label from which the rest of the name occurs before. The root alone does not count. */
  ghost function Suffix(p: seq<Octet>, at: nat, end: nat): (r: Option<(nat, nat)>)
    requires at < end <= |p| && IsName(p[at..end])
    ensures r.Some? ==> at <= r.value.0 && r.value.0 + 2 < end && HEADER <= r.value.1 < r.value.0
    ensures r.Some? ==> OccursAt(p, r.value.1, r.value.0, end) && IsName(p[r.value.0..end])
    decreases end - at
  {
    if p[at] == 0 then None
    else
      match Occurrence(p, HEADER, at, end)
      case Some(t) => Some((at, t))
      case None =>
        assert p[at..end][p[at] + 1..] == p[at + p[at] + 1..end];
        Suffix(p, at + p[at] + 1, end)
  }

  /** The packet with a pointer to `t` instead of the octets from `q` to `end`. */
  ghost function Replaced(p: seq<Octet>, q: nat, t: nat, end: nat): (c: seq<Octet>)
    requires q + 2 <= end <= |p| && t < 16384
    ensures |c| == |p| - (end - q - 2)
  {
    p[..q] + [192 + t / 256, t % 256] + p[end..]
  }

  /** Where the source cuts the name: at a suffix that occurs before, or else at the root, for
      which any zero octet before it will do. */
  ghost function CutAt(p: seq<Octet>, at: nat, end: nat): (r: Option<(nat, nat)>)
    requires at < end <= |p| && IsName(p[at..end])
    ensures r.Some? ==> at <= r.value.0 < end && HEADER <= r.value.1 < r.value.0
  {
    match Suffix(p, at, end)
    case Some(c) => Some(c)
    case None =>
      match Occurrence(p, HEADER, end - 1, end)
      case Some(t) => Some((end - 1, t))
      case None => None
  }

  lemma CutIsSuffix(p: seq<Octet>, at: nat, end: nat)
    requires at < end <= |p| && IsName(p[at..end]) && Suffix(p, at, end).Some?
    ensures CutAt(p, at, end) == Suffix(p, at, end)
  {
    hide Suffix, Occurrence, IsName;
  }

  /** A pointer over the root and the octet behind it. The packet grows by the octet `behind` it. */
  ghost function Overwritten(p: seq<Octet>, behind: Octet, q: nat, t: nat): (c: seq<Octet>)
    requires q < |p| && t < 16384
    ensures |c| == |p| + 1
  {
    (p + [behind])[q := 192 + t / 256][q + 1 := t % 256]
  }

  /** The packet once the name from `at` to `end` has been compressed. */
  ghost function Compressed(p: seq<Octet>, behind: Octet, at: nat, end: nat): seq<Octet>
    requires at < end <= |p| && end <= 16384 && IsName(p[at..end]) && CutAt(p, at, end).Some?
  {
    var (q, t) := CutAt(p, at, end).value;
    if Suffix(p, at, end).Some? then Replaced(p, q, t, end) else Overwritten(p, behind, q, t)
  }

  // ---------- What compression keeps ----------

  /** The occurrence lies wholly before the suffix. */
  lemma NoOverlap(p: seq<Octet>, t: nat, q: nat, end: nat)
    requires q <= end <= |p| && t < q && OccursAt(p, t, q, end) && IsName(p[q..end])
    ensures t + (end - q) <= q
  {
    var s := p[q..end];
    OneZero(s);
    var n := end - q;
    assert p[t..t + n][n - 1] == s[n - 1] == 0;
    assert p[t + n - 1] == 0;
    forall i | q <= i < end - 1
      ensures p[i] != 0
    {
      assert s[i - q] == p[i];
    }
  }

  lemma SuffixNext(p: seq<Octet>, at: nat, end: nat)
    requires at < end <= |p| && IsName(p[at..end]) && Suffix(p, at, end).Some?
    ensures var (q, t) := Suffix(p, at, end).value;
            q != at ==>
              var n := p[at] + 1;
              && 1 < n && at + n <= q && at + n < end && p[at..end][n..] == p[at + n..end] && IsName(p[at + n..end])
              && Suffix(p, at + n, end) == Some((q, t))
  {
    Head(p[at..end]);
    assert p[at] == p[at..end][0];
    if p[at] != 0 {
      assert p[at..end][p[at] + 1..] == p[at + p[at] + 1..end];
    }
  }

  lemma ReplacedBefore(p: seq<Octet>, q: nat, t: nat, end: nat)
    requires q + 2 <= end <= |p| && t < 16384
    ensures var c := Replaced(p, q, t, end);
            && c[..q] == p[..q] && (forall i | 0 <= i < q :: c[i] == p[i])
            && c[q] == 192 + t / 256 && c[q + 1] == t % 256 && c[q + 2..] == p[end..]
  {
  }

  lemma PointerDecodes(p: seq<Octet>, q: nat, t: nat, end: nat)
    requires q + 2 <= end <= |p| && IsName(p[q..end]) && t < q < 16384 && OccursAt(p, t, q, end)
    ensures Decode(Replaced(p, q, t, end), q, end - q + 1) == Some(p[q..end])
  {
    hide IsName, Decode, Replaced;
    var c := Replaced(p, q, t, end);
    var s := p[q..end];
    ReplacedBefore(p, q, t, end);
    NoOverlap(p, t, q, end);
    SliceWithin(c, q, t, t + |s|);
    SliceWithin(p, q, t, t + |s|);
    PlainDecodes(c, t, s);
    assert Pointer(c[q], c[q + 1]) == t;
    DecodePointer(c, q, |s|);
  }

  /** The name still decodes to what it was, in as many steps as it had octets. */
  lemma {:induction false} NameKept(p: seq<Octet>, at: nat, q: nat, t: nat, end: nat)
    requires at < end <= |p| && IsName(p[at..end]) && Suffix(p, at, end) == Some((q, t)) && q < 16384
    ensures Decode(Replaced(p, q, t, end), at, end - at + 1) == Some(p[at..end])
    decreases end - at
  {
    hide IsName, Decode, Suffix, Replaced;
    var c := Replaced(p, q, t, end);
    SuffixNext(p, at, end);
    ReplacedBefore(p, q, t, end);
    if q == at {
      PointerDecodes(p, q, t, end);
    } else {
      Cut(p, at, p[at..end]);
      var n := p[at] + 1;
      NameKept(p, at + n, q, t, end);
      DecodeMonotone(c, at + n, end - (at + n) + 1, end - at);
      SliceWithin(c, q, at, at + n);
      SliceWithin(p, q, at, at + n);
      DecodeLabel(c, at, end - at);
      Glue(p[at..end], n);
    }
  }

  /** What compressing the name at `at` keeps: the pointer goes back; the name decodes to what it
      was; so does every name that was read before the cut; and what followed the name follows
      it still. */
  lemma CompressionKeeps(p: seq<Octet>, at: nat, end: nat)
    requires at < end <= |p| && IsName(p[at..end]) && Suffix(p, at, end).Some? && end <= 16384
    ensures var (q, t) := Suffix(p, at, end).value;
            var c := Replaced(p, q, t, end);
            && t < q && Decode(c, at, end - at + 1) == Some(p[at..end])
            && (forall e, steps | Decode(p[..q], e, steps).Some? :: Decode(c, e, steps) == Decode(p, e, steps))
            && c[q + 2..] == p[end..]
  {
    hide IsName, Decode, Suffix, Replaced;
    var (q, t) := Suffix(p, at, end).value;
    var c := Replaced(p, q, t, end);
    NameKept(p, at, q, t, end);
    ReplacedBefore(p, q, t, end);
    forall e, steps | Decode(p[..q], e, steps).Some?
      ensures Decode(c, e, steps) == Decode(p, e, steps)
    {
      DecodeWithin(p, c, q, e, steps);
      DecodeWithin(p, p, q, e, steps);
    }
  }

  lemma NameEnds(p: seq<Octet>, at: nat, end: nat)
    requires at < end <= |p| && IsName(p[at..end])
    ensures p[end - 1] == 0
  {
    OneZero(p[at..end]);
    assert p[at..end][end - at - 1] == p[end - 1];
  }

  lemma OverwrittenBefore(p: seq<Octet>, behind: Octet, q: nat, t: nat)
    requires q < |p| && t < 16384
    ensures var c := Overwritten(p, behind, q, t);
            && c[..q] == p[..q] && (forall i | 0 <= i < q :: c[i] == p[i])
            && c[q] == 192 + t / 256 && c[q + 1] == t % 256 && c[q + 2..] == (p + [behind])[q + 2..]
  {
  }

  /** The zero at which the cut at the root points. */
  lemma RootPointsAtZero(p: seq<Octet>, at: nat, end: nat)
    requires at < end <= |p| && IsName(p[at..end]) && CutAt(p, at, end).Some? && Suffix(p, at, end).None?
    ensures var (q, t) := CutAt(p, at, end).value;
            q == end - 1 && t < q && p[t] == 0
  {
    hide IsName, Suffix;
    NameEnds(p, at, end);
    var t := CutAt(p, at, end).value.1;
    assert p[t..t + 1][0] == p[end - 1..end][0];
  }

  lemma RootPointer(c: seq<Octet>, q: nat, t: nat)
    requires q + 1 < |c| && t < q && t < 16384 && c[q] == 192 + t / 256 && c[q + 1] == t % 256 && c[t] == 0
    ensures Decode(c, q, 2) == Some([0])
  {
    assert Pointer(c[q], c[q + 1]) == t;
    DecodeRoot(c, t, 1);
    DecodePointer(c, q, 1);
  }

  /** Cut at the root, a name still decodes to what it was. */
  lemma {:induction false} RootKept(p: seq<Octet>, behind: Octet, at: nat, end: nat, t: nat)
    requires at < end <= |p| && end <= 16384 && IsName(p[at..end]) && t < end - 1 && p[t] == 0
    ensures var c := Overwritten(p, behind, end - 1, t);
            Decode(c, at, end - at + 1) == Some(p[at..end]) && Ends(c, at, end + 1)
    decreases end - at
  {
    hide IsName, Decode, Overwritten;
    var c, q := Overwritten(p, behind, end - 1, t), end - 1;
    OverwrittenBefore(p, behind, q, t);
    Cut(p, at, p[at..end]);
    if p[at] == 0 {
      RootPointer(c, q, t);
    } else {
      var n := p[at] + 1;
      RootKept(p, behind, at + n, end, t);
      DecodeMonotone(c, at + n, end - (at + n) + 1, end - at);
      SliceWithin(c, q, at, at + n);
      SliceWithin(p, q, at, at + n);
      DecodeLabel(c, at, end - at);
      Glue(p[at..end], n);
    }
  }

  /** The name decodes to what it was, and what followed it ends a packet that has not grown. */
  ghost predicate Intact(p: seq<Octet>, c: seq<Octet>, at: nat, end: nat)
    requires at < end <= |p|
  {
    && |c| <= |p| && |c| >= |p| - end
    && Decode(c, at, end - at + 1) == Some(p[at..end])
    && c[|c| - (|p| - end)..] == p[end..]
  }

  /** All octets from `end` on are `b`. */
  ghost predicate AllAre(p: seq<Octet>, end: nat, b: Octet)
    requires end <= |p|
  {
    forall j | end <= j < |p| :: p[j] == b
  }

  /** Taking the first octet away and putting `b` behind shows, unless all octets are `b`. */
  lemma {:induction false} ShiftShows(s: seq<Octet>, b: Octet)
    ensures (s + [b])[1..] == s <==> AllAre(s, 0, b)
  {
    if s != [] {
      ShiftShows(s[1..], b);
      var t := s[1..] + [b];
      assert (s + [b])[1..] == t;
      if t == s {
        assert (s[1..] + [b])[1..] == s[1..];
        forall j | 0 <= j < |s|
          ensures s[j] == b
        {
          if j > 0 {
            assert s[j] == s[1..][j - 1];
          } else {
            assert s[0] == t[0];
          }
        }
      }
      if AllAre(s, 0, b) {
        assert t == s;
      }
    }
  }

  /** What a cut at the root does: the name is still read, but behind it the first octet is gone
      and another one has come in, which shows unless all are the same. */
  lemma RootCutLoses(p: seq<Octet>, behind: Octet, at: nat, end: nat)
    requires at < end <= |p| && end <= 16384 && IsName(p[at..end]) && CutAt(p, at, end).Some? && Suffix(p, at, end).None?
    ensures var c := Compressed(p, behind, at, end);
            && |c| == |p| + 1 && Decode(c, at, end - at + 1) == Some(p[at..end]) && Ends(c, at, end + 1)
            && c[..end - 1] == p[..end - 1] && c[end + 1..] == (p[end..] + [behind])[1..]
            && (c[end + 1..] == p[end..] <==> AllAre(p, end, behind))
  {
    hide IsName, Decode, Suffix, Overwritten;
    RootPointsAtZero(p, at, end);
    var t := CutAt(p, at, end).value.1;
    RootKept(p, behind, at, end, t);
    OverwrittenBefore(p, behind, end - 1, t);
    assert (p + [behind])[end + 1..] == (p[end..] + [behind])[1..];
    ShiftShows(p[end..], behind);
    assert AllAre(p[end..], 0, behind) <==> AllAre(p, end, behind) by {
      if AllAre(p[end..], 0, behind) {
        forall j | end <= j < |p|
          ensures p[j] == behind
        {
          assert p[j] == p[end..][j - end];
        }
      }
    }
  }

  /** Exactly when compression leaves the packet intact: when a suffix other than the root occurs
      before. */
  lemma IntactIff(p: seq<Octet>, behind: Octet, at: nat, end: nat)
    requires at < end <= |p| && end <= 16384 && IsName(p[at..end]) && CutAt(p, at, end).Some?
    ensures var c := Compressed(p, behind, at, end);
            && (Intact(p, c, at, end) <==> Suffix(p, at, end).Some?)
            && (Suffix(p, at, end).None? ==> c[end + 1..] == (p[end..] + [behind])[1..])
  {
    hide IsName, Decode, Suffix, Replaced;
    if Suffix(p, at, end).Some? {
      var (q, t) := Suffix(p, at, end).value;
      NameKept(p, at, q, t, end);
      ReplacedBefore(p, q, t, end);
      assert |p| - (end - q - 2) - (|p| - end) == q + 2;
    } else {
      RootCutLoses(p, behind, at, end);
    }
  }

  // ---------- On buffers ----------

  /** The length of a zero-terminated string. */
  method StringLength(packet: array<Octet>, at: nat, ghost end: nat) returns (n: nat)
    requires at < end <= packet.Length && packet[end - 1] == 0
    ensures at + n < end && packet[at + n] == 0 && forall i | at <= i < at + n :: packet[i] != 0
  {
    n := 0;
    while packet[at + n] != 0
      invariant at + n < end && forall i | at <= i < at + n :: packet[i] != 0
      decreases end - n
    {
      n := n + 1;
    }
  }

  /** Comparison of two stretches of the packet (`memcmp`). */
  method SameOctets(packet: array<Octet>, t: nat, at: nat, n: nat) returns (same: bool)
    requires t + n <= packet.Length && at + n <= packet.Length
    ensures same <==> packet[t..t + n] == packet[at..at + n]
  {
    ghost var x, y := packet[t..t + n], packet[at..at + n];
    var i := 0;
    while i < n && packet[t + i] == packet[at + i]
      invariant 0 <= i <= n && forall j | 0 <= j < i :: x[j] == y[j]
    {
      assert x[i] == packet[t + i] && y[i] == packet[at + i];
      i := i + 1;
    }
    assert i < n ==> x[i] == packet[t + i] && y[i] == packet[at + i];
    same := i == n;
  }

  lemma NameLength(p: seq<Octet>, at: nat, end: nat, n: nat)
    requires at < end <= |p| && IsName(p[at..end])
    requires at + n < end && p[at + n] == 0 && forall i | at <= i < at + n :: p[i] != 0
    ensures at + n + 1 == end && p[end - 1] == 0
  {
    var s := p[at..end];
    OneZero(s);
    assert s[n] == p[at + n] && s[|s| - 1] == p[end - 1];
  }

  /** `pico_dns_packet_compress_find_ptr`, for a name that ends at `end`. */
  method CompressFindPtr(packet: array<Octet>, name: nat, len: nat, ghost end: nat) returns (t: Option<nat>)
    requires name < end <= len <= packet.Length && IsName(packet[..][name..end])
    ensures t == Occurrence(packet[..], HEADER, name, end)
  {
    hide IsName;
    ghost var p := packet[..];
    if name < HEADER || name > HEADER + len {
      return None;
    }
    NameEnds(p, name, end);
    var cursor := HEADER;
    while cursor < name
      invariant HEADER <= cursor <= name
      invariant Occurrence(p, HEADER, name, end) == Occurrence(p, cursor, name, end)
    {
      var n := StringLength(packet, name, end);
      NameLength(p, name, end, n);
      var same := SameOctets(packet, cursor, name, n + 1);
      assert packet[cursor..cursor + (n + 1)] == p[cursor..cursor + (end - name)];
      assert packet[name..name + (n + 1)] == p[name..end];
      if same {
        return Some(cursor);
      }
      cursor := cursor + 1;
    }
    t := None;
  }

  /** The step of the search: the cut is here, at a suffix or at the root, or it is further on. */
  lemma CutHere(p: seq<Octet>, at: nat, end: nat)
    requires at < end <= |p| && IsName(p[at..end]) && CutAt(p, at, end).Some?
    ensures match Occurrence(p, HEADER, at, end)
            case Some(t) =>
              && CutAt(p, at, end) == Some((at, t))
              && Suffix(p, at, end) == if at == end - 1 then None else Some((at, t))
            case None =>
              && p[at] != 0
              && var next := at + p[at] as int + 1;
              && at < next < end && IsName(p[next..end])
              && CutAt(p, next, end) == CutAt(p, at, end) && Suffix(p, next, end) == Suffix(p, at, end)
    ensures at == end - 1 <==> p[at] == 0
  {
    hide IsName, Occurrence;
    Head(p[at..end]);
    NameEnds(p, at, end);
    assert p[at] == p[at..end][0];
    assert p[at] != 0 ==> p[at..end][p[at] + 1..] == p[at + p[at] + 1..end];
  }

  ghost function Pointing(p: seq<Octet>, q: nat, t: nat): (s: seq<Octet>)
    requires q + 1 < |p| && t < 16384
    ensures |s| == |p|
  {
    p[q := 192 + t / 256][q + 1 := t % 256]
  }

  method WritePointer(packet: array<Octet>, q: nat, t: nat)
    requires q + 1 < packet.Length && t < 16384
    modifies packet
    ensures packet[..] == Pointing(old(packet[..]), q, t)
  {
    packet[q] := 192 + t / 256;
    packet[q + 1] := t % 256;
  }

  /** What is in the buffer once `p[from..len]` has been moved up by `difference`, unless that would
      go in front of it. */
  ghost function MovedUp(p: seq<Octet>, from: nat, difference: nat, len: nat): (s: seq<Octet>)
    requires from <= len <= |p|
    ensures |s| == |p|
  {
    seq(|p|, j requires 0 <= j < |p| =>
      if difference <= from && from - difference <= j < len - difference then p[j + difference] else p[j])
  }

  lemma RootAssembled(p: seq<Octet>, c: seq<Octet>, q: nat, t: nat, len: nat)
    requires q < len < |p| && len <= 16384 && t < 16384 && c == MovedUp(Pointing(p, q, t), q + 1, 65535, len)
    ensures c[..len + 1] == Overwritten(p[..len], p[len], q, t)
  {
    assert p[..len] + [p[len]] == p[..len + 1];
  }

  lemma Assembled(p: seq<Octet>, c: seq<Octet>, q: nat, t: nat, end: nat, len: nat)
    requires q + 2 <= end <= len <= |p| && t < 16384 && c == MovedUp(Pointing(p, q, t), end, end - (q + 2), len)
    ensures c[..len - (end - (q + 2))] == Replaced(p[..len], q, t, end)
  {
    var s := Pointing(p, q, t);
    assert c[..len - (end - (q + 2))] == s[..q + 2] + s[end..len];
    assert s[..q + 2] == p[..len][..q] + [192 + t / 256, t % 256];
    assert s[end..len] == p[..len][end..];
  }

  /** Moves the octets from `from` to `len` up by `difference`; what would go in front of the
      packet is counted. */
  method MoveUp(packet: array<Octet>, from: nat, difference: nat, len: nat) returns (stray: nat)
    requires from <= len <= packet.Length && (difference <= from || len <= difference)
    modifies packet
    ensures stray == if difference <= from then 0 else len - from
    ensures packet[..] == MovedUp(old(packet[..]), from, difference, len)
  {
    var i := from;
    stray := 0;
    while i < len
      invariant from <= i <= len
      invariant stray == if difference <= from then 0 else i - from
      invariant forall j | 0 <= j < packet.Length ::
                  packet[j] == if difference <= from && from - difference <= j < i - difference
                               then old(packet[j + difference]) else old(packet[j])
    {
      if difference <= i {
        packet[i - difference] := packet[i];
      } else {
        stray := stray + 1;
      }
      i := i + 1;
    }
  }

  /** Writes the pointer and moves up what follows the name. The difference is a 16-bit number. */
  method Replace(packet: array<Octet>, q: nat, t: nat, len: nat, ghost end: nat) returns (newLen: nat, stray: nat)
    requires q < end <= len <= packet.Length && len <= 16384 && t < q && IsName(packet[..][q..end])
    requires q + 1 == end ==> len < packet.Length
    modifies packet
    ensures newLen <= packet.Length
    ensures q + 2 <= end ==> stray == 0 && packet[..newLen] == Replaced(old(packet[..len]), q, t, end)
    ensures q + 1 == end ==>
              && newLen == len + 1 && stray == len - end
              && packet[..newLen] == Overwritten(old(packet[..len]), old(packet[len]), q, t)
  {
    hide *;
    ghost var p := packet[..];
    NameEnds(p, q, end);
    var n := StringLength(packet, q, end);
    NameLength(p, q, end, n);
    var after := q + n + 1;
    var difference := (after - (q + 2)) % 65536;
    WritePointer(packet, q, t);
    stray := MoveUp(packet, after, difference, len);
    newLen := (len - difference) % 65536;
    if q + 1 == end {
      RootAssembled(p, packet[..], q, t, len);
    } else {
      Assembled(p, packet[..], q, t, end, len);
    }
    assert packet[..][..newLen] == packet[..newLen];
    assert p[..len] == old(packet[..len]);
  }

  /** `pico_dns_packet_compress_name`, for a name before which there is a zero octet at least.
      Cut at the root, it makes the length grow, and writes `stray` octets in front of the packet. */
  method CompressName(packet: array<Octet>, name: nat, len: nat, ghost end: nat) returns (newLen: nat, stray: nat)
    requires name < end <= len <= packet.Length && len <= 16384 && IsName(packet[..][name..end])
    requires CutAt(packet[..], name, end).Some?
    requires Suffix(packet[..], name, end).None? ==> len < packet.Length
    modifies packet
    ensures newLen <= packet.Length
    ensures match Suffix(old(packet[..]), name, end)
            case Some((q, t)) => stray == 0 && packet[..newLen] == Replaced(old(packet[..len]), q, t, end)
            case None =>
              && newLen == len + 1 && stray == len - end
              && packet[..newLen] ==
                 Overwritten(old(packet[..len]), old(packet[len]), end - 1, CutAt(old(packet[..]), name, end).value.1)
  {
    hide IsName, Suffix, Occurrence, CutAt;
    ghost var p := packet[..];
    var lbl := name;
    while true
      invariant name <= lbl < end && packet[..] == p && IsName(p[lbl..end])
      invariant CutAt(p, lbl, end) == CutAt(p, name, end) && CutAt(p, lbl, end).Some?
      invariant Suffix(p, lbl, end) == Suffix(p, name, end)
      decreases end - lbl
    {
      CutHere(p, lbl, end);
      var found := CompressFindPtr(packet, lbl, len, end);
      if found.Some? {
        newLen, stray := Replace(packet, lbl, found.value, len, end);
        return;
      }
      lbl := lbl + packet[lbl] + 1;
    }
  }

  /** A string ends at its first zero. */
  function Terminated(s: seq<Octet>): seq<Octet> {
    if s == [] || s[0] == 0 then s[..if s == [] then 0 else 1] else [s[0]] + Terminated(s[1..])
  }

  lemma {:induction false} TerminatedAt(s: seq<Octet>, n: nat)
    requires n < |s| && s[n] == 0 && forall i | 0 <= i < n :: s[i] != 0
    ensures Terminated(s) == s[..n + 1]
  {
    if n > 0 {
      TerminatedAt(s[1..], n - 1);
      assert s[..n + 1] == [s[0]] + s[1..][..n];
    }
  }

  lemma NameTerminated(s: seq<Octet>)
    requires IsName(s)
    ensures Terminated(s) == s
  {
    OneZero(s);
    TerminatedAt(s, |s| - 1);
    assert s[..|s|] == s;
  }

  lemma PointerIs(hi: Octet, lo: Octet)
    ensures Pointer(hi, lo) == hi as int % 64 * 256 + lo
  {
  }

  /** Ends the name in the buffer, and copies what a string of it is. */
  method Returned(dest: array<Octet>, d: nat, ghost whole: seq<Octet>) returns (r: seq<Octet>)
    requires d < dest.Length && whole == dest[..d] + [0]
    modifies dest
    ensures r == Terminated(whole)
  {
    hide Terminated;
    dest[d] := 0;
    assert dest[..d + 1] == whole;
    var n := StringLength(dest, 0, d + 1);
    TerminatedAt(whole, n);
    r := dest[..n + 1];
  }

  lemma Regroup(x: seq<Octet>, y: seq<Octet>, z: seq<Octet>)
    ensures x + (y + z) == (x + y) + z
  {
  }

  lemma DecodeNonEmpty(p: seq<Octet>, at: nat, steps: nat)
    requires Decode(p, at, steps).Some?
    ensures |Decode(p, at, steps).value| > 0
    decreases steps
  {
  }

  lemma DecodeStep(p: seq<Octet>, at: nat, steps: nat)
    requires Decode(p, at, steps).Some?
    ensures 0 < steps && at < |p|
    ensures var d := Decode(p, at, steps).value;
            if p[at] == 0 then d == [0]
            else if p[at] >= 64 then
              at + 1 < |p| && Decode(p, Pointer(p[at], p[at + 1]), steps - 1) == Some(d)
            else
              && var n := p[at] + 1;
              && at + n <= |p| && Decode(p, at + n, steps - 1).Some?
              && d == p[at..at + n] + Decode(p, at + n, steps - 1).value
  {
  }

  lemma TakeLabel(p: seq<Octet>, at: nat, steps: nat, x: seq<Octet>, whole: seq<Octet>)
    requires Decode(p, at, steps).Some? && whole == x + Decode(p, at, steps).value && 0 < p[at] < 64
    ensures 0 < steps && at + p[at] + 1 <= |p| && Decode(p, at + p[at] + 1, steps - 1).Some?
    ensures whole == (x + p[at..at + p[at] + 1]) + Decode(p, at + p[at] + 1, steps - 1).value
    ensures |x| + p[at] as int + 1 < |whole|
  {
    hide Decode;
    DecodeStep(p, at, steps);
    DecodeNonEmpty(p, at + p[at] + 1, steps - 1);
    Regroup(x, p[at..at + p[at] + 1], Decode(p, at + p[at] + 1, steps - 1).value);
  }

  /** Copies a label and its length. */
  method CopyLabel(packet: array<Octet>, from: nat, dest: array<Octet>, d: nat, n: nat)
    requires packet != dest && from + n <= packet.Length && d + n <= dest.Length
    modifies dest
    ensures dest[..d + n] == old(dest[..d]) + packet[..][from..from + n]
  {
    forall k | 0 <= k < n {
      dest[d + k] := packet[from + k];
    }
  }

  /** `pico_dns_decompress_name`, for a name that can be read and fits the buffer. It ends. */
  method DecompressName(name: nat, packet: array<Octet>, ghost steps: nat) returns (r: seq<Octet>)
    requires Decode(packet[..], name, steps).Some? && |Decode(packet[..], name, steps).value| <= 256
    ensures r == Terminated(Decode(packet[..], name, steps).value)
  {
    hide *;
    ghost var p, whole, left := packet[..], Decode(packet[..], name, steps).value, steps;
    var dest := new Octet[256](_ => 0);
    var d: nat, cursor: nat := 0, name;
    ghost var x := [];
    DecodeStep(p, cursor, left);
    assert whole == x + whole;
    while packet[cursor] != 0
      invariant packet[..] == p && 0 < left && cursor < |p| && d < 256
      invariant Decode(p, cursor, left).Some? && whole == x + Decode(p, cursor, left).value && dest[..d] == x
      decreases left
    {
      DecodeStep(p, cursor, left);
      var first: int := packet[cursor];
      if first >= 64 {
        var low: int := packet[cursor + 1];
        PointerIs(packet[cursor], packet[cursor + 1]);
        cursor := first % 64 * 256 + low;
      } else {
        TakeLabel(p, cursor, left, x, whole);
        CopyLabel(packet, cursor, dest, d, first + 1);
        x := x + p[cursor..cursor + first + 1];
        d := d + first + 1;
        cursor := cursor + first + 1;
      }
      left := left - 1;
      DecodeStep(p, cursor, left);
    }
    DecodeStep(p, cursor, left);
    r := Returned(dest, d, whole);
  }

  /** `pico_dns_namelen_comp`: one less than what the name takes in the packet, compressed or
      not. */
  method NamelenComp(packet: array<Octet>, name: nat, ghost end: nat) returns (len: nat)
    requires Ends(packet[..], name, end) && end - name <= 255
    ensures len + 1 == end - name
  {
    var lbl := name;
    while packet[lbl] != 0 && lbl - name < 255
      invariant name <= lbl && Ends(packet[..], lbl, end)
      decreases end - lbl
    {
      if packet[lbl] >= 64 {
        break;
      }
      lbl := lbl + packet[lbl] as int + 1;
    }
    len := lbl - name;
    if packet[lbl] != 0 {
      len := len + 1;
    }
  }
}
