/** Name compression over the questions and records of a whole DNS packet. */
module DnsPacket {
  import opened Wrappers
  import opened DnsCompression

  /** An entry of a section: its name, and the octets that follow the name. */
  datatype Record = Record(name: seq<Octet>, data: seq<Octet>)

  const QUESTION_SUFFIX: nat := 4
  const RECORD_SUFFIX: nat := 10

  /** Behind the name of a question there are its type and class. */
  predicate IsQuestion(r: Record) {
    |r.data| == QUESTION_SUFFIX
  }

  /** Behind the name of a record there are its type, class, time to live, and the length of what
      comes last. */
  predicate IsRecord(r: Record) {
    |r.data| >= RECORD_SUFFIX && |r.data| == RECORD_SUFFIX + r.data[8] as int * 256 + r.data[9]
  }

  ghost predicate AllNames(rs: seq<Record>) {
    forall i | 0 <= i < |rs| :: IsName(rs[i].name) && |rs[i].name| <= 255
  }

  /** The entries one behind the other, before compression. */
  ghost function Layout(rs: seq<Record>): seq<Octet> {
    if rs == [] then [] else rs[0].name + rs[0].data + Layout(rs[1..])
  }

  lemma StandsBehind(done: seq<Octet>, name: seq<Octet>)
    ensures (done + name)[|done|..|done| + |name|] == name && (done + name)[..|done|] == done
  {
  }

  /** A suffix of the name other than the root occurs before it. */
  ghost predicate HasShort(done: seq<Octet>, name: seq<Octet>)
    requires IsName(name)
  {
    StandsBehind(done, name);
    Suffix(done + name, |done|, |done| + |name|).Some?
  }

  /** Where the name behind `done` is cut, and the place before it where its end occurs. */
  ghost function ShortCut(done: seq<Octet>, name: seq<Octet>): (c: (nat, nat))
    requires IsName(name) && HasShort(done, name)
    ensures |done| <= c.0 && c.0 + 2 < |done| + |name| && c.1 < c.0
  {
    StandsBehind(done, name);
    Suffix(done + name, |done|, |done| + |name|).value
  }

  /** The name behind `done`, cut where a suffix occurs before. */
  ghost function Short(done: seq<Octet>, name: seq<Octet>): (c: seq<Octet>)
    requires IsName(name) && |done| + |name| <= 16384 && HasShort(done, name)
    ensures |done| <= |c| <= |done| + |name| && c[..|done|] == done
  {
    var p, cut := done + name, ShortCut(done, name);
    assert p[..cut.0][..|done|] == done;
    Replaced(p, cut.0, cut.1, |done| + |name|)
  }

  ghost function Next(done: seq<Octet>, rs: seq<Record>, skip: bool): (c: seq<Octet>)
    requires AllNames(rs) && rs != [] && |done| + |Layout(rs)| <= 16384 && (skip || HasShort(done, rs[0].name))
    ensures |done| <= |c| <= |done| + |rs[0].name| + |rs[0].data| && c[..|done|] == done
  {
    var r := rs[0];
    if skip then done + r.name + r.data else Short(done, r.name) + r.data
  }

  /** Each name but a skipped one has a suffix that occurs before it by then. */
  ghost predicate Suffixed(done: seq<Octet>, rs: seq<Record>, skip: bool)
    requires AllNames(rs) && |done| + |Layout(rs)| <= 16384
    decreases |rs|
  {
    rs == [] || ((skip || HasShort(done, rs[0].name)) && Suffixed(Next(done, rs, skip), rs[1..], false))
  }

  /** What there is behind `done` after the entries are compressed in turn; the name of the first
      one may be left alone. */
  ghost function Packed(done: seq<Octet>, rs: seq<Record>, skip: bool): (c: seq<Octet>)
    requires AllNames(rs) && |done| + |Layout(rs)| <= 16384 && Suffixed(done, rs, skip)
    ensures |done| <= |c| <= |done| + |Layout(rs)| && c[..|done|] == done
    decreases |rs|
  {
    if rs == [] then done
    else
      var next := Next(done, rs, skip);
      var c := Packed(next, rs[1..], false);
      assert c[..|done|] == c[..|next|][..|done|] == next[..|done|];
      c
  }

  /** Where the names start after compression. */
  ghost function Starts(done: seq<Octet>, rs: seq<Record>, skip: bool): (s: seq<nat>)
    requires AllNames(rs) && |done| + |Layout(rs)| <= 16384 && Suffixed(done, rs, skip)
    ensures |s| == |rs|
    decreases |rs|
  {
    if rs == [] then [] else [|done|] + Starts(Next(done, rs, skip), rs[1..], false)
  }

  /** The cut, where the name stands. */
  lemma ShortCutIs(done: seq<Octet>, name: seq<Octet>)
    requires IsName(name) && name != [] && HasShort(done, name)
    ensures var p, end := done + name, |done| + |name|;
            p[|done|..end] == name && Suffix(p, |done|, end) == Some(ShortCut(done, name))
  {
    StandsBehind(done, name);
  }

  lemma ShortIs(done: seq<Octet>, name: seq<Octet>)
    requires IsName(name) && |done| + |name| <= 16384 && HasShort(done, name)
    ensures Short(done, name) == Replaced(done + name, ShortCut(done, name).0, ShortCut(done, name).1, |done| + |name|)
  {
    hide IsName, HasShort, ShortCut, Replaced;
  }

  lemma ShortDecodes(done: seq<Octet>, name: seq<Octet>)
    requires IsName(name) && |done| + |name| <= 16384 && HasShort(done, name)
    ensures Decode(Short(done, name), |done|, |name| + 1) == Some(name)
  {
    hide IsName, Decode, Suffix, Replaced, HasShort, ShortCut;
    Head(name);
    ShortCutIs(done, name);
    var cut := ShortCut(done, name);
    NameKept(done + name, |done|, cut.0, cut.1, |done| + |name|);
  }

  /** What decodes still does when something is put behind. */
  lemma DecodesInFront(c: seq<Octet>, data: seq<Octet>, at: nat, steps: nat)
    requires Decode(c, at, steps).Some?
    ensures Decode(c + data, at, steps) == Decode(c, at, steps)
  {
    hide *;
    assert c[..|c|] == c && (c + data)[..|c|] == c;
    DecodeWithin(c, c + data, |c|, at, steps);
  }

  lemma PlainBehind(done: seq<Octet>, name: seq<Octet>, data: seq<Octet>)
    requires IsName(name)
    ensures Decode(done + name + data, |done|, |name| + 1) == Some(name)
  {
    hide *;
    StandsBehind(done, name);
    PlainDecodes(done + name, |done|, name);
    DecodeMonotone(done + name, |done|, |name|, |name| + 1);
    DecodesInFront(done + name, data, |done|, |name| + 1);
  }

  lemma NextDecodes(done: seq<Octet>, rs: seq<Record>, skip: bool)
    requires AllNames(rs) && rs != [] && |done| + |Layout(rs)| <= 16384 && (skip || HasShort(done, rs[0].name))
    ensures Decode(Next(done, rs, skip), |done|, |rs[0].name| + 1) == Some(rs[0].name)
  {
    hide IsName, Decode, Short, HasShort;
    var r := rs[0];
    if skip {
      PlainBehind(done, r.name, r.data);
    } else {
      ShortDecodes(done, r.name);
      DecodesInFront(Short(done, r.name), r.data, |done|, |r.name| + 1);
    }
  }

  /** Every name of a packet that is compressed so decodes to what it was. */
  lemma {:induction false} AllNamesSurvive(done: seq<Octet>, rs: seq<Record>, skip: bool)
    requires AllNames(rs) && |done| + |Layout(rs)| <= 16384 && Suffixed(done, rs, skip)
    ensures forall i | 0 <= i < |rs| ::
              Decode(Packed(done, rs, skip), Starts(done, rs, skip)[i], |rs[i].name| + 1) == Some(rs[i].name)
    decreases |rs|
  {
    hide IsName, Decode, Short, Next, HasShort;
    if rs != [] {
      var next := Next(done, rs, skip);
      var c := Packed(done, rs, skip);
      AllNamesSurvive(next, rs[1..], false);
      NextDecodes(done, rs, skip);
      assert c[..|next|] == next && next[..|next|] == next;
      DecodeWithin(next, c, |next|, |done|, |rs[0].name| + 1);
      forall i | 0 <= i < |rs|
        ensures Decode(c, Starts(done, rs, skip)[i], |rs[i].name| + 1) == Some(rs[i].name)
      {
        if i > 0 {
          assert rs[i] == rs[1..][i - 1];
        }
      }
    }
  }

  // ---------- On the packet ----------

  lemma OccursLocal(p: seq<Octet>, c: seq<Octet>, t: nat, at: nat, end: nat)
    requires t <= at <= end <= |p| && end <= |c| && p[..end] == c[..end]
    ensures OccursAt(p, t, at, end) <==> OccursAt(c, t, at, end)
  {
    SliceWithin(p, end, t, t + (end - at));
    SliceWithin(c, end, t, t + (end - at));
    SliceWithin(p, end, at, end);
    SliceWithin(c, end, at, end);
  }

  lemma {:induction false} OccurrenceLocal(p: seq<Octet>, c: seq<Octet>, from: nat, at: nat, end: nat)
    requires at <= end <= |p| && end <= |c| && p[..end] == c[..end]
    ensures Occurrence(p, from, at, end) == Occurrence(c, from, at, end)
    decreases at - from
  {
    hide OccursAt;
    if from < at {
      OccursLocal(p, c, from, at, end);
      OccurrenceLocal(p, c, from + 1, at, end);
    }
  }

  lemma SuffixStep(p: seq<Octet>, at: nat, end: nat, s: seq<Octet>)
    requires at < end <= |p| && IsName(s) && p[at..end] == s
    ensures p[at] == s[0]
    ensures s[0] == 0 ==> Suffix(p, at, end) == None
    ensures s[0] != 0 ==>
              var n := s[0] + 1;
              && n < |s| && IsName(s[n..]) && at + n < end && p[at + n..end] == s[n..]
              && Suffix(p, at, end) == match Occurrence(p, HEADER, at, end)
                                       case Some(t) => Some((at, t))
                                       case None => Suffix(p, at + n, end)
  {
    hide IsName, Occurrence;
    Cut(p, at, s);
  }

  lemma {:induction false} SuffixSame(p: seq<Octet>, c: seq<Octet>, at: nat, end: nat, s: seq<Octet>)
    requires at < end <= |p| && end <= |c| && p[..end] == c[..end] && IsName(s) && p[at..end] == s == c[at..end]
    ensures Suffix(p, at, end) == Suffix(c, at, end)
    decreases end - at
  {
    hide IsName, Occurrence, Suffix;
    SuffixStep(p, at, end, s);
    SuffixStep(c, at, end, s);
    OccurrenceLocal(p, c, HEADER, at, end);
    if s[0] != 0 {
      SuffixSame(p, c, at + s[0] + 1, end, s[s[0] + 1..]);
    }
  }

  /** Where a name is cut does not depend on what follows it. */
  lemma SuffixLocal(p: seq<Octet>, c: seq<Octet>, at: nat, end: nat)
    requires at < end <= |p| && end <= |c| && p[..end] == c[..end] && IsName(p[at..end])
    ensures IsName(c[at..end]) && Suffix(p, at, end) == Suffix(c, at, end)
  {
    hide IsName, Suffix;
    SliceWithin(p, end, at, end);
    SliceWithin(c, end, at, end);
    SuffixSame(p, c, at, end, p[at..end]);
  }

  lemma {:induction false} NameEndsThere(p: seq<Octet>, at: nat, end: nat)
    requires at < end <= |p| && IsName(p[at..end])
    ensures Ends(p, at, end)
    decreases end - at
  {
    hide IsName;
    Cut(p, at, p[at..end]);
    if p[at] != 0 {
      NameEndsThere(p, at + p[at] + 1, end);
    }
  }

  lemma {:induction false} ShortEndsThere(p: seq<Octet>, c: seq<Octet>, at: nat, q: nat, t: nat, end: nat)
    requires at < end <= |p| && IsName(p[at..end]) && Suffix(p, at, end) == Some((q, t)) && end <= 16384
    requires |c| >= q + 2 && c[..q + 2] == Replaced(p, q, t, end)[..q + 2]
    ensures Ends(c, at, q + 2)
    decreases end - at
  {
    hide IsName, Suffix, Replaced;
    ReplacedBefore(p, q, t, end);
    var r := Replaced(p, q, t, end);
    assert c[q] == c[..q + 2][q] == r[q];
    if q != at {
      Cut(p, at, p[at..end]);
      SuffixNext(p, at, end);
      assert c[at] == c[..q + 2][at] == r[at] == p[at];
      ShortEndsThere(p, c, at + p[at] + 1, q, t, end);
    }
  }

  lemma HasShortIs(done: seq<Octet>, name: seq<Octet>)
    requires IsName(name)
    ensures (done + name)[|done|..|done| + |name|] == name
    ensures HasShort(done, name) <==> Suffix(done + name, |done|, |done| + |name|).Some?
  {
    StandsBehind(done, name);
  }

  /** Cutting the name in front of `rest` and cutting it alone. */
  lemma ReplacedInFront(done: seq<Octet>, name: seq<Octet>, rest: seq<Octet>, q: nat, t: nat)
    requires q + 2 <= |done| + |name| && t < 16384
    ensures Replaced(done + name + rest, q, t, |done| + |name|) == Replaced(done + name, q, t, |done| + |name|) + rest
  {
    var p := done + name;
    assert (p + rest)[..q] == p[..q] && (p + rest)[|p|..] == rest;
  }

  lemma SuffixOfPrefix(p: seq<Octet>, x: seq<Octet>, at: nat, name: seq<Octet>)
    requires IsName(name) && at < |x| <= |p| && p[..|x|] == x && x[at..|x|] == name
    ensures IsName(p[at..|x|]) && Suffix(p, at, |x|) == Suffix(x, at, |x|)
  {
    hide *;
    assert x[..|x|] == x;
    SuffixLocal(x, p, at, |x|);
  }

  lemma PrefixOf(p: seq<Octet>, len: nat, x: seq<Octet>, y: seq<Octet>)
    requires len <= |p| && p[..len] == x + y
    ensures |x| <= len && p[..|x|] == x == x[..|x|]
  {
    assert p[..len][..|x|] == p[..|x|];
  }

  /** A name in a packet, and alone. */
  lemma InPacket(p: seq<Octet>, len: nat, x: seq<Octet>, at: nat, name: seq<Octet>, tail: seq<Octet>)
    requires IsName(name) && name != [] && len <= |p| && p[..len] == x + tail
    requires at < |x| && x[at..|x|] == name
    ensures |x| <= len && p[..|x|] == x && p[..at] == x[..at] && p[at..|x|] == name
    ensures IsName(p[at..|x|]) && Suffix(p, at, |x|) == Suffix(x, at, |x|)
  {
    hide *;
    PrefixOf(p, len, x, tail);
    SuffixOfPrefix(p, x, at, name);
    SliceWithin(p, |x|, at, |x|);
    SliceWithin(p, |x|, 0, at);
  }

  lemma ReplacedLength(p: seq<Octet>, q: nat, t: nat, end: nat)
    requires q + 2 <= end == |p| && t < 16384
    ensures |Replaced(p, q, t, end)| == q + 2
  {
  }

  lemma ShortThere(done: seq<Octet>, name: seq<Octet>, c: seq<Octet>, len: nat, tail: seq<Octet>)
    requires IsName(name) && |done| + |name| <= 16384 && HasShort(done, name)
    requires len <= |c| && c[..len] == Short(done, name) + tail
    ensures Ends(c, |done|, |Short(done, name)|)
  {
    hide *;
    Head(name);
    HasShortIs(done, name);
    ShortCutIs(done, name);
    ShortIs(done, name);
    var p, end := done + name, |done| + |name|;
    var q, t := ShortCut(done, name).0, ShortCut(done, name).1;
    var s := Short(done, name);
    ReplacedLength(p, q, t, end);
    assert c[..q + 2] == c[..len][..q + 2] == s == s[..q + 2];
    ShortEndsThere(p, c, |done|, q, t, end);
  }

  /** A name in front of `tail` is compressed. */
  method CompressBehind(packet: array<Octet>, at: nat, len: nat, ghost name: seq<Octet>, ghost tail: seq<Octet>)
    returns (newLen: nat)
    requires at <= len <= packet.Length && len <= 16384 && IsName(name)
    requires packet[..len] == packet[..at] + name + tail && HasShort(packet[..at], name)
    modifies packet
    ensures newLen <= packet.Length && packet[..newLen] == Short(old(packet[..at]), name) + tail
    ensures Ends(packet[..], at, |Short(old(packet[..at]), name)|)
  {
    hide *;
    Head(name);
    ghost var done, end := packet[..at], at + |name|;
    HasShortIs(done, name);
    InPacket(packet[..], len, done + name, at, name, tail);
    ShortCutIs(done, name);
    ShortIs(done, name);
    ghost var cut := ShortCut(done, name);
    ReplacedInFront(done, name, tail, cut.0, cut.1);
    CutIsSuffix(packet[..], at, end);
    var stray;
    newLen, stray := CompressName(packet, at, len, end);
    ShortThere(done, name, packet[..], newLen, tail);
  }

  lemma Passed(p: seq<Octet>, c: seq<Octet>, data: seq<Octet>, rest: seq<Octet>)
    requires p == c + (data + rest)
    ensures |c| + |data| <= |p| && p[..|c|] == c && p[..|c| + |data|] == c + data && p == c + data + rest
    ensures p[|c|..|c| + |data|] == data
  {
  }

  lemma SliceAgain(s: seq<Octet>, n: nat, i: nat, j: nat)
    requires i <= j <= n <= |s|
    ensures s[..n][i..j] == s[i..j] && s[..n][..i] == s[..i]
  {
  }

  lemma PassedIn(s: seq<Octet>, len: nat, c: seq<Octet>, data: seq<Octet>, rest: seq<Octet>)
    requires len <= |s| && s[..len] == c + (data + rest)
    ensures |c| + |data| <= len && s[..|c|] == c && s[|c|..|c| + |data|] == data
  {
    Passed(s[..len], c, data, rest);
    SliceAgain(s, len, |c|, |c| + |data|);
  }

  /** One entry: its name is compressed, and passed over. */
  method CompressOne(packet: array<Octet>, at: nat, len: nat, skip: bool, ghost r: Record, ghost rest: seq<Octet>)
    returns (stop: nat, newLen: nat)
    requires at <= len <= packet.Length && len <= 16384 && IsName(r.name) && |r.name| <= 255
    requires packet[..len] == packet[..at] + r.name + (r.data + rest)
    requires skip || HasShort(packet[..at], r.name)
    modifies packet
    ensures stop + |r.data| <= newLen <= packet.Length && newLen <= len
    ensures packet[..newLen] == packet[..stop] + (r.data + rest) && packet[stop..stop + |r.data|] == r.data
    ensures packet[..stop] == if skip then old(packet[..at]) + r.name else Short(old(packet[..at]), r.name)
  {
    hide *;
    Head(r.name);
    newLen := len;
    ghost var done := packet[..at];
    ghost var c := done + r.name;
    if !skip {
      newLen := CompressBehind(packet, at, len, r.name, r.data + rest);
      c := Short(done, r.name);
    } else {
      HasShortIs(done, r.name);
      InPacket(packet[..], len, c, at, r.name, r.data + rest);
      NameEndsThere(packet[..], at, |c|);
    }
    var n := NamelenComp(packet, at, |c|);
    stop := at + n + 1;
    assert |c| == stop;
    PassedIn(packet[..], newLen, c, r.data, rest);
    assert packet[..newLen] == packet[..][..newLen] && packet[..stop] == packet[..][..stop];
  }

  lemma LayoutNext(done: seq<Octet>, rs: seq<Record>)
    requires rs != []
    ensures Layout(rs) == rs[0].name + rs[0].data + Layout(rs[1..])
    ensures done + Layout(rs) == done + rs[0].name + (rs[0].data + Layout(rs[1..]))
  {
    hide IsName;
    var x, y, z := rs[0].name, rs[0].data, Layout(rs[1..]);
    Regroup(x, y, z);
    Regroup(done, x, y + z);
  }

  lemma PackedNext(done: seq<Octet>, rs: seq<Record>, skip: bool)
    requires AllNames(rs) && rs != [] && |done| + |Layout(rs)| <= 16384 && Suffixed(done, rs, skip)
    ensures AllNames(rs[1..]) && (skip || HasShort(done, rs[0].name))
    ensures var next := Next(done, rs, skip);
            && next == (if skip then done + rs[0].name else Short(done, rs[0].name)) + rs[0].data
            && |next| + |Layout(rs[1..])| <= 16384 && Suffixed(next, rs[1..], false)
            && Packed(done, rs, skip) == Packed(next, rs[1..], false)
  {
    hide IsName, HasShort, Short;
  }

  lemma FirstName(rs: seq<Record>)
    requires AllNames(rs) && rs != []
    ensures IsName(rs[0].name) && |rs[0].name| <= 255
  {
  }

  lemma NextFits(done: seq<Octet>, rs: seq<Record>, skip: bool)
    requires AllNames(rs) && rs != [] && |done| + |Layout(rs)| <= 16384 && (skip || (FirstName(rs); HasShort(done, rs[0].name)))
    ensures AllNames(rs[1..]) && |Next(done, rs, skip)| + |Layout(rs[1..])| <= 16384
  {
    hide IsName, HasShort, Short;
    LayoutNext(done, rs);
  }

  lemma PackedNone(done: seq<Octet>, skip: bool)
    ensures Layout([]) == [] && AllNames([])
    ensures |done| <= 16384 ==> Suffixed(done, [], skip) && Packed(done, [], skip) == done
  {
  }

  // ---------- Walking the compressed packet ----------

  /** The entry `r` stands at `at`: its name ends at `stop`, as its labels or a pointer say, and
      decodes to what it was, and its data follow. */
  ghost predicate EntryAt(c: seq<Octet>, at: nat, r: Record, stop: nat) {
    && Ends(c, at, stop) && Decode(c, at, |r.name| + 1) == Some(r.name)
    && stop + |r.data| <= |c| && c[stop..stop + |r.data|] == r.data
  }

  /** The entries stand one behind the other, from `at` to the end. */
  ghost predicate EntriesAt(c: seq<Octet>, at: nat, rs: seq<Record>)
    decreases |rs|
  {
    if rs == [] then at == |c|
    else exists stop: nat :: EntryAt(c, at, rs[0], stop) && EntriesAt(c, stop + |rs[0].data|, rs[1..])
  }

  lemma SlicesBehind(c: seq<Octet>, x: seq<Octet>, data: seq<Octet>, n: nat)
    requires n == |x| + |data| <= |c| && c[..n] == x + data
    ensures c[..|x|] == x && c[|x|..n] == data
  {
    assert c[..n][..|x|] == c[..|x|] && c[..n][|x|..] == c[|x|..n];
  }

  lemma NameStandsIn(c: seq<Octet>, done: seq<Octet>, name: seq<Octet>)
    requires |done| + |name| <= |c| && c[..|done| + |name|] == done + name
    ensures c[|done|..|done| + |name|] == name
  {
    assert c[..|done| + |name|][|done|..] == c[|done|..|done| + |name|];
  }

  lemma EntryFound(done: seq<Octet>, rs: seq<Record>, skip: bool)
    requires AllNames(rs) && rs != [] && |done| + |Layout(rs)| <= 16384 && Suffixed(done, rs, skip)
    ensures var c, r := Packed(done, rs, skip), rs[0];
            && |Next(done, rs, skip)| >= |r.data| && EntryAt(c, |done|, r, |Next(done, rs, skip)| - |r.data|)
  {
    hide IsName, Decode, Short, Next, HasShort, Packed, Suffixed, Layout, AllNames;
    FirstName(rs);
    var r := rs[0];
    PackedNext(done, rs, skip);
    NextDecodes(done, rs, skip);
    LayoutNext(done, rs);
    Head(r.name);
    var next, c := Next(done, rs, skip), Packed(done, rs, skip);
    var x := if skip then done + r.name else Short(done, r.name);
    assert c[..|next|] == next && next[..|next|] == next;
    DecodeWithin(next, c, |next|, |done|, |r.name| + 1);
    SlicesBehind(c, x, r.data, |next|);
    if skip {
      NameStandsIn(c, done, r.name);
      NameEndsThere(c, |done|, |x|);
    } else {
      ShortThere(done, r.name, c, |next|, r.data);
    }
  }

  /** Walking the compressed packet, name by name and data by data, finds the entries there were. */
  lemma {:induction false} EntriesFound(done: seq<Octet>, rs: seq<Record>, skip: bool)
    requires AllNames(rs) && |done| + |Layout(rs)| <= 16384 && Suffixed(done, rs, skip)
    ensures EntriesAt(Packed(done, rs, skip), |done|, rs)
    decreases |rs|
  {
    hide Next, HasShort, Packed, Suffixed, Layout, AllNames, EntryAt;
    if rs == [] {
      PackedNone(done, skip);
    } else {
      EntryFound(done, rs, skip);
      PackedNext(done, rs, skip);
      EntriesFound(Next(done, rs, skip), rs[1..], false);
    }
  }

  /** How far a packet is: what is before `cursor` is done, `rest` comes behind it, and `target` is
      what it will be. */
  ghost predicate Underway(packet: seq<Octet>, cursor: nat, rest: seq<Record>, skip: bool, target: seq<Octet>) {
    && cursor <= |packet| <= 16384 && AllNames(rest) && packet == packet[..cursor] + Layout(rest)
    && Suffixed(packet[..cursor], rest, skip) && Packed(packet[..cursor], rest, skip) == target
  }

  lemma UnderwayHere(p: seq<Octet>, cursor: nat, rest: seq<Record>, skip: bool, target: seq<Octet>)
    requires rest != [] && Underway(p, cursor, rest, skip, target)
    ensures cursor <= |p| <= 16384 && IsName(rest[0].name) && |rest[0].name| <= 255
    ensures p == p[..cursor] + rest[0].name + (rest[0].data + Layout(rest[1..]))
    ensures skip || HasShort(p[..cursor], rest[0].name)
  {
    hide IsName, Suffixed, Packed, Layout, HasShort, Short, Next, AllNames;
    FirstName(rest);
    LayoutNext(p[..cursor], rest);
    PackedNext(p[..cursor], rest, skip);
  }

  lemma UnderwayNext(p: seq<Octet>, cursor: nat, rest: seq<Record>, skip: bool, target: seq<Octet>, c: seq<Octet>, x: seq<Octet>)
    requires rest != [] && Underway(p, cursor, rest, skip, target)
    requires |c| <= 16384 && c == x + (rest[0].data + Layout(rest[1..]))
    requires IsName(rest[0].name) && (skip || HasShort(p[..cursor], rest[0].name))
    requires cursor <= |p| <= 16384 && |p[..cursor]| + |rest[0].name| <= 16384
    requires x == if skip then p[..cursor] + rest[0].name else Short(p[..cursor], rest[0].name)
    ensures Underway(c, |x| + |rest[0].data|, rest[1..], false, target)
  {
    hide IsName, Suffixed, Packed, Layout, HasShort, Short, Next, AllNames;
    PackedNext(p[..cursor], rest, skip);
    Passed(c, x, rest[0].data, Layout(rest[1..]));
  }

  /** One entry further. */
  method NextEntry(packet: array<Octet>, cursor: nat, len: nat, skip: bool, ghost rest: seq<Record>, ghost target: seq<Octet>)
    returns (stop: nat, newLen: nat)
    requires len <= packet.Length && rest != [] && Underway(packet[..len], cursor, rest, skip, target)
    modifies packet
    ensures stop + |rest[0].data| <= newLen <= packet.Length && packet[stop..stop + |rest[0].data|] == rest[0].data
    ensures Underway(packet[..newLen], stop + |rest[0].data|, rest[1..], false, target)
  {
    hide *;
    ghost var before := packet[..len];
    UnderwayHere(before, cursor, rest, skip, target);
    SliceAgain(packet[..], len, cursor, cursor);
    assert before == packet[..][..len] && packet[..cursor] == packet[..][..cursor];
    stop, newLen := CompressOne(packet, cursor, len, skip, rest[0], Layout(rest[1..]));
    UnderwayNext(before, cursor, rest, skip, target, packet[..newLen], packet[..stop]);
  }

  lemma Finished(p: seq<Octet>, cursor: nat, skip: bool, target: seq<Octet>)
    requires Underway(p, cursor, [], skip, target)
    ensures p == target
  {
    PackedNone(p[..cursor], skip);
  }

  /** `pico_dns_compress_record_sections`: the length of each record is read from the packet. The
      first is left alone when no question comes before it. */
  method CompressSections(packet: array<Octet>, at: nat, len: nat, count: nat, questions: nat,
                          ghost rs: seq<Record>, ghost target: seq<Octet>)
    returns (newLen: nat)
    requires len <= packet.Length && |rs| == count && (forall r | r in rs :: IsRecord(r))
    requires Underway(packet[..len], at, rs, questions == 0, target)
    modifies packet
    ensures newLen <= packet.Length && packet[..newLen] == target
  {
    hide Underway;
    var cursor: nat, i: nat := at, 0;
    newLen := len;
    ghost var rest := rs;
    while i < count
      invariant 0 <= i <= count && |rest| == count - i && (forall r | r in rest :: IsRecord(r))
      invariant newLen <= packet.Length && Underway(packet[..newLen], cursor, rest, questions == 0 && i == 0, target)
    {
      assert rest[0] in rest;
      var suffix;
      suffix, newLen := NextEntry(packet, cursor, newLen, questions == 0 && i == 0, rest, target);
      assert packet[suffix + 8] == rest[0].data[8] && packet[suffix + 9] == rest[0].data[9];
      var rdlength: int := packet[suffix + 8] as int * 256 + packet[suffix + 9];
      cursor := suffix + RECORD_SUFFIX + rdlength;
      rest := rest[1..];
      i := i + 1;
    }
    Finished(packet[..newLen], cursor, questions == 0 && i == 0, target);
  }

  /** `pico_dns_packet_compress`: the questions, of which the first cannot be compressed, and then
      the records. */
  method CompressPacket(packet: array<Octet>, len: nat, questions: nat, records: nat,
                        ghost qs: seq<Record>, ghost rs: seq<Record>)
    returns (newLen: nat)
    requires HEADER <= len <= packet.Length && len <= 16384 && |qs| == questions && |rs| == records
    requires AllNames(qs + rs) && (forall q | q in qs :: IsQuestion(q)) && (forall r | r in rs :: IsRecord(r))
    requires packet[..len] == packet[..HEADER] + Layout(qs + rs)
    requires Suffixed(packet[..HEADER], qs + rs, true)
    modifies packet
    ensures newLen <= packet.Length && packet[..newLen] == Packed(old(packet[..HEADER]), qs + rs, true)
  {
    hide Packed, Suffixed, AllNames, Layout;
    ghost var target := Packed(packet[..HEADER], qs + rs, true);
    assert packet[..len][..HEADER] == packet[..HEADER];
    var cursor: nat, i: nat := HEADER, 0;
    newLen := len;
    assert qs[0..] == qs;
    {
      hide Underway;
      while i < questions
        invariant 0 <= i <= questions
        invariant newLen <= packet.Length && Underway(packet[..newLen], cursor, qs[i..] + rs, i == 0, target)
      {
        assert qs[i] in qs && (qs[i..] + rs)[0] == qs[i];
        assert (qs[i..] + rs)[1..] == qs[i + 1..] + rs;
        cursor, newLen := NextEntry(packet, cursor, newLen, i == 0, qs[i..] + rs, target);
        cursor := cursor + QUESTION_SUFFIX;
        i := i + 1;
      }
      assert qs[i..] + rs == rs;
      newLen := CompressSections(packet, cursor, newLen, records, questions, rs, target);
    }
  }

  // ---------- When a packet stays intact ----------

  /** The first name, in the whole packet and alone. */
  lemma InWhole(done: seq<Octet>, rs: seq<Record>, p: seq<Octet>, end: nat)
    requires AllNames(rs) && rs != [] && p == done + Layout(rs) && end == |done| + |rs[0].name|
    ensures |done| < end <= |p| && p[|done|..end] == rs[0].name && IsName(rs[0].name)
    ensures Suffix(p, |done|, end).Some? <==> HasShort(done, rs[0].name)
  {
    hide *;
    FirstName(rs);
    Head(rs[0].name);
    LayoutNext(done, rs);
    var x, tail := done + rs[0].name, rs[0].data + Layout(rs[1..]);
    HasShortIs(done, rs[0].name);
    assert (x + tail)[..|x + tail|] == x + tail;
    InPacket(x + tail, |x + tail|, x, |done|, rs[0].name, tail);
  }

  ghost predicate HasZero(done: seq<Octet>) {
    exists t :: HEADER <= t < |done| && done[t] == 0
  }

  lemma {:induction false} ZeroOccurs(p: seq<Octet>, from: nat, root: nat, t: nat)
    requires from <= t < root < |p| && p[t] == 0 == p[root]
    ensures Occurrence(p, from, root, root + 1).Some?
    decreases t - from
  {
    if from < t {
      ZeroOccurs(p, from + 1, root, t);
    } else {
      assert p[t..t + 1] == [0] == p[root..root + 1];
    }
  }

  /** Behind a zero there is always a cut, if only at the root: the search ends with the name. */
  lemma CutBehindZero(done: seq<Octet>, rs: seq<Record>, p: seq<Octet>, end: nat)
    requires AllNames(rs) && rs != [] && p == done + Layout(rs) && end == |done| + |rs[0].name| && HasZero(done)
    ensures |done| < end <= |p| && IsName(p[|done|..end]) && CutAt(p, |done|, end).Some?
  {
    hide IsName, Suffix, Layout, AllNames;
    InWhole(done, rs, p, end);
    var t :| HEADER <= t < |done| && done[t] == 0;
    NameEnds(p, |done|, end);
    ZeroOccurs(p, HEADER, end - 1, t);
  }

  /** Compressing the first name leaves the packet intact. */
  ghost predicate EntryIntact(done: seq<Octet>, rs: seq<Record>, behind: Octet)
    requires AllNames(rs) && rs != [] && |done| + |Layout(rs)| <= 16384 && HasZero(done)
  {
    var p, end := done + Layout(rs), |done| + |rs[0].name|;
    InWhole(done, rs, p, end);
    CutAt(p, |done|, end).Some? && Intact(p, Compressed(p, behind, |done|, end), |done|, end)
  }

  /** It does exactly when a suffix other than the root occurs before. */
  lemma EntryIntactIff(done: seq<Octet>, rs: seq<Record>, behind: Octet)
    requires AllNames(rs) && rs != [] && |done| + |Layout(rs)| <= 16384 && HasZero(done)
    ensures EntryIntact(done, rs, behind) <==> HasShort(done, rs[0].name)
  {
    hide Intact, Compressed, Suffix, IsName, HasShort, Layout, AllNames, Occurrence;
    InWhole(done, rs, done + Layout(rs), |done| + |rs[0].name|);
    CutBehindZero(done, rs, done + Layout(rs), |done| + |rs[0].name|);
    IntactIff(done + Layout(rs), behind, |done|, |done| + |rs[0].name|);
  }

  /** Otherwise it is cut at the root: the packet grows by an octet, and the first one behind the
      name is lost. */
  lemma EntryLoses(done: seq<Octet>, rs: seq<Record>, behind: Octet, p: seq<Octet>, end: nat)
    requires AllNames(rs) && rs != [] && p == done + Layout(rs) && |p| <= 16384 && HasZero(done)
    requires !HasShort(done, rs[0].name) && end == |done| + |rs[0].name|
    ensures |done| < end <= |p| && IsName(p[|done|..end]) && CutAt(p, |done|, end).Some?
    ensures var c := Compressed(p, behind, |done|, end);
            && |c| == |p| + 1 && Ends(c, |done|, end + 1)
            && c[end + 1..] == (rs[0].data + Layout(rs[1..]) + [behind])[1..]
  {
    hide Intact, Compressed, Suffix, IsName, HasShort, Layout, AllNames, Occurrence, Ends;
    InWhole(done, rs, p, end);
    CutBehindZero(done, rs, p, end);
    RootCutLoses(p, behind, |done|, end);
    LayoutNext(done, rs);
    assert p[end..] == rs[0].data + Layout(rs[1..]);
  }

  lemma ZeroOf(s: seq<Octet>, t: nat, c: seq<Octet>)
    requires HEADER <= t < |s| <= |c| && s[t] == 0 && c[..|s|] == s
    ensures HasZero(c)
  {
    assert c[t] == c[..|s|][t];
  }

  lemma NameHasZero(done: seq<Octet>, name: seq<Octet>)
    requires IsName(name) && name != [] && HEADER <= |done|
    ensures HasZero(done + name)
  {
    hide IsName;
    StandsBehind(done, name);
    NameEnds(done + name, |done|, |done| + |name|);
    assert (done + name)[|done| + |name| - 1] == 0;
  }

  /** A zero stays, and a name brings one. */
  lemma NextHasZero(done: seq<Octet>, rs: seq<Record>, skip: bool)
    requires AllNames(rs) && rs != [] && |done| + |Layout(rs)| <= 16384 && HEADER <= |done|
    requires skip || (FirstName(rs); HasShort(done, rs[0].name) && HasZero(done))
    ensures HasZero(Next(done, rs, skip))
  {
    hide IsName, HasShort, Short, Layout;
    var next, r := Next(done, rs, skip), rs[0];
    FirstName(rs);
    if skip {
      Head(r.name);
      NameHasZero(done, r.name);
      var x := done + r.name;
      var t :| HEADER <= t < |x| && x[t] == 0;
      assert next[..|x|] == x;
      ZeroOf(x, t, next);
    } else {
      var t :| HEADER <= t < |done| && done[t] == 0;
      ZeroOf(done, t, next);
    }
  }

  lemma GoesOn(done: seq<Octet>, rs: seq<Record>, skip: bool, behind: Octet)
    requires AllNames(rs) && rs != [] && |done| + |Layout(rs)| <= 16384 && HEADER <= |done|
    requires skip || (HasZero(done) && EntryIntact(done, rs, behind))
    ensures (FirstName(rs); skip || HasShort(done, rs[0].name))
    ensures HasZero(Next(done, rs, skip)) && AllNames(rs[1..]) && |Next(done, rs, skip)| + |Layout(rs[1..])| <= 16384
  {
    hide EntryIntact, HasShort, Next, AllNames, Layout, HasZero;
    FirstName(rs);
    if !skip {
      EntryIntactIff(done, rs, behind);
    }
    NextHasZero(done, rs, skip);
    NextFits(done, rs, skip);
  }

  /** Every name that is compressed, in turn, leaves the packet intact. There is a zero before it,
      as the first name is not compressed. */
  ghost predicate StaysIntact(done: seq<Octet>, rs: seq<Record>, skip: bool, behind: Octet)
    requires AllNames(rs) && |done| + |Layout(rs)| <= 16384 && HEADER <= |done| && (skip || HasZero(done))
    decreases |rs|
  {
    rs == [] ||
    (&& (skip || EntryIntact(done, rs, behind))
     && (GoesOn(done, rs, skip, behind); StaysIntact(Next(done, rs, skip), rs[1..], false, behind)))
  }

  /** Exactly when compression leaves a packet intact, name by name: when of each name that is
      compressed a suffix other than the root occurs before it by then. */
  lemma {:induction false} StaysIntactIff(done: seq<Octet>, rs: seq<Record>, skip: bool, behind: Octet)
    requires AllNames(rs) && |done| + |Layout(rs)| <= 16384 && HEADER <= |done| && (skip || HasZero(done))
    ensures StaysIntact(done, rs, skip, behind) <==> Suffixed(done, rs, skip)
    decreases |rs|
  {
    hide EntryIntact, HasShort, Next, AllNames, Layout, HasZero;
    if rs != [] {
      FirstName(rs);
      if !skip {
        EntryIntactIff(done, rs, behind);
      }
      if skip || HasShort(done, rs[0].name) {
        NextFits(done, rs, skip);
        NextHasZero(done, rs, skip);
        StaysIntactIff(Next(done, rs, skip), rs[1..], false, behind);
      }
    }
  }

  // ---------- End to end ----------

  /** The name decodes from the packet, whatever the buffer holds behind it. */
  lemma CutInFront(p: seq<Octet>, c: seq<Octet>, at: nat, end: nat, len: nat, newLen: nat)
    requires at < end <= len <= |p| && end <= 16384 && IsName(p[at..end]) && Suffix(p, at, end).Some?
    requires newLen <= |c|
    requires c[..newLen] == Replaced(p[..len], Suffix(p, at, end).value.0, Suffix(p, at, end).value.1, end)
    ensures Decode(c, at, end - at + 1) == Some(p[at..end])
  {
    hide *;
    var (q, t) := Suffix(p, at, end).value;
    var b := p[..len];
    assert b[..end] == p[..end];
    SliceWithin(p, len, at, end);
    SuffixLocal(p, b, at, end);
    NameKept(b, at, q, t, end);
    var d := Replaced(b, q, t, end);
    assert |d| == newLen && d[..newLen] == d;
    DecodeWithin(d, c, newLen, at, end - at + 1);
  }

  lemma RootInFront(p: seq<Octet>, c: seq<Octet>, at: nat, end: nat, len: nat, newLen: nat, behind: Octet)
    requires at < end <= len <= |p| && end <= 16384 && IsName(p[at..end]) && Suffix(p, at, end).None? && CutAt(p, at, end).Some?
    requires newLen <= |c|
    requires c[..newLen] == Overwritten(p[..len], behind, end - 1, CutAt(p, at, end).value.1)
    ensures Decode(c, at, end - at + 1) == Some(p[at..end])
  {
    hide *;
    RootPointsAtZero(p, at, end);
    var t := CutAt(p, at, end).value.1;
    var b := p[..len];
    SliceWithin(p, len, at, end);
    RootKept(b, behind, at, end, t);
    var d := Overwritten(b, behind, end - 1, t);
    assert |d| == newLen && d[..newLen] == d;
    DecodeWithin(d, c, newLen, at, end - at + 1);
  }

  /** From one end to the other: a name that is compressed, if only at the root, is returned by
      decompression. */
  method CompressAndReturn(packet: array<Octet>, name: nat, len: nat, ghost end: nat) returns (r: seq<Octet>)
    requires name < end <= len <= packet.Length && len <= 16384 && end - name <= 256
    requires IsName(packet[..][name..end]) && CutAt(packet[..], name, end).Some?
    requires Suffix(packet[..], name, end).None? ==> len < packet.Length
    modifies packet
    ensures r == old(packet[name..end])
  {
    hide *;
    ghost var p, s := packet[..], packet[name..end];
    ghost var behind := if len < packet.Length then packet[len] else 0;
    assert p[name..end] == s && p[..len] == packet[..len];
    var newLen, stray := CompressName(packet, name, len, end);
    if Suffix(p, name, end).Some? {
      ghost var cut := Suffix(p, name, end).value;
      CutInFront(p, packet[..], name, end, len, newLen);
    } else {
      RootInFront(p, packet[..], name, end, len, newLen, behind);
    }
    r := DecompressName(name, packet, end - name + 1);
    NameTerminated(s);
  }

  const NO_HEADER: seq<Octet> := [0, 0, 0, 0, 0, 0, 0, 0, 0, 0, 0, 0]
  const QUESTION_A: seq<Octet> := [1, 97, 0, 0, 1, 0, 1]
  const QUESTION_B: seq<Octet> := [1, 98, 0, 0, 1, 0, 1]
  const TWO_NAMES: seq<Octet> := NO_HEADER + QUESTION_A + QUESTION_B

  lemma TwoNamesAt()
    ensures |TWO_NAMES| == 26
    ensures forall j | 0 <= j < 7 :: TWO_NAMES[12 + j] == QUESTION_A[j] && TWO_NAMES[19 + j] == QUESTION_B[j]
  {
    assert |NO_HEADER| == 12;
  }

  lemma OneLetterName(p: seq<Octet>, at: nat)
    requires at + 3 <= |p| && p[at] == 1 && p[at + 1] != 0 && p[at + 2] == 0
    ensures IsName(p[at..at + 3])
    ensures Suffix(p, at, at + 3) == match Occurrence(p, HEADER, at, at + 3) case None => None case Some(t) => Some((at, t))
  {
    var s := p[at..at + 3];
    assert s == [1, p[at + 1], 0] && s[2..] == [0] == p[at + 2..at + 3];
    assert IsName([0]);
    assert s[s[0] + 1..] == [0] && IsName(s);
    var next := at + p[at] as int + 1;
    assert next == at + 2 && Suffix(p, next, at + 3) == None;
  }

  lemma ZeroAt(p: seq<Octet>, root: nat)
    requires 14 < root < |p| && p[12] != 0 && p[13] != 0 && p[14] == 0 == p[root]
    ensures Occurrence(p, HEADER, root, root + 1) == Some(14)
  {
    assert p[root..root + 1] == [0] == p[14..15];
    assert p[12..13][0] != p[root..root + 1][0] && p[13..14][0] != p[root..root + 1][0];
    assert Occurrence(p, 13, root, root + 1) == Occurrence(p, 14, root, root + 1);
  }

  /** No place is like `at` when none of them has its second octet. */
  lemma {:induction false} NoOccurrence(p: seq<Octet>, from: nat, at: nat, end: nat)
    requires at + 1 < end <= |p| && forall j | from < j <= at :: p[j] != p[at + 1]
    ensures Occurrence(p, from, at, end) == None
    decreases at - from
  {
    if from < at {
      assert p[from..from + (end - at)][1] != p[at..end][1];
      NoOccurrence(p, from + 1, at, end);
    }
  }

  /** A name of which only the root occurs before, the second of two one-letter names: compression
      cuts it at the root, and the packet is not left intact. */
  lemma RootCutExample()
    ensures |TWO_NAMES| == 26
    ensures IsName(TWO_NAMES[19..22]) && Suffix(TWO_NAMES, 19, 22).None? && CutAt(TWO_NAMES, 19, 22) == Some((21, 14))
    ensures !Intact(TWO_NAMES, Compressed(TWO_NAMES, 0, 19, 22), 19, 22)
  {
    var p := TWO_NAMES;
    hide TWO_NAMES;
    TwoNamesAt();
    assert p[12 + 0] == QUESTION_A[0] == 1 && p[12 + 1] == QUESTION_A[1] == 97 && p[12 + 2] == QUESTION_A[2] == 0;
    assert p[12 + 3] == QUESTION_A[3] == 0 && p[12 + 4] == QUESTION_A[4] == 1;
    assert p[12 + 5] == QUESTION_A[5] == 0 && p[12 + 6] == QUESTION_A[6] == 1;
    assert p[19 + 0] == QUESTION_B[0] == 1 && p[19 + 1] == QUESTION_B[1] == 98 && p[19 + 2] == QUESTION_B[2] == 0;
    OneLetterName(p, 19);
    NoOccurrence(p, 12, 19, 22);
    ZeroAt(p, 21);
    IntactIff(p, 0, 19, 22);
  }
}
