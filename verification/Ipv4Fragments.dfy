/** Splitting of large IPv4 payloads and their reassembly (section 3.2 of RFC 791). One datagram
    is reassembled at a time; its fragments are kept in the order of their offsets. */
module Ipv4Fragments {
  import opened Wrappers

  const MAX_PAYLOAD: nat := 1480
  const MORE_FRAGMENTS: nat := 0x2000
  const DONT_FRAGMENT: nat := 0x4000
  const ICMP4: nat := 1
  const UDP: nat := 17

  /** A fragment: the fields of its header that matter here, with the flags and the offset in
      `frag`, and its payload. */
  datatype Fragment = Fragment(id: nat, src: nat, dst: nat, proto: nat, frag: nat, data: seq<bv8>)

  /** The 13 bits of the offset count eights of octets. */
  function Off(f: Fragment): nat {
    f.frag % 0x2000 * 8
  }

  predicate More(f: Fragment) {
    f.frag / MORE_FRAGMENTS % 2 == 1
  }

  // ---------- Splitting ----------

  function FragWord(total: nat, more: bool): nat {
    total / 8 + if more then MORE_FRAGMENTS else 0
  }

  /** What `pico_ipv4_frame_push` leaves of the flags and the offset. */
  function Pushed(proto: nat, frag: nat): nat {
    if proto == UDP || proto == ICMP4 then frag else DONT_FRAGMENT
  }

  function Space(len: nat, total: nat): nat
    requires total <= len
  {
    if len - total > MAX_PAYLOAD then MAX_PAYLOAD else len - total
  }

  function Cut(payload: seq<bv8>, total: nat, id: nat, src: nat, dst: nat, proto: nat): Fragment
    requires total <= |payload|
  {
    var space := Space(|payload|, total);
    Fragment(id, src, dst, proto, Pushed(proto, FragWord(total, space + total < |payload|)), payload[total..total + space])
  }

  /** The fragments from octet `total` on. */
  function Fragments(payload: seq<bv8>, total: nat, id: nat, src: nat, dst: nat, proto: nat): seq<Fragment>
    decreases |payload| - total
  {
    if total >= |payload| then []
    else
      [Cut(payload, total, id, src, dst, proto)]
      + Fragments(payload, total + Space(|payload|, total), id, src, dst, proto)
  }

  lemma FragWordSays(total: nat, more: bool)
    requires total < 65536
    ensures FragWord(total, more) % 0x2000 == total / 8
    ensures FragWord(total, more) / MORE_FRAGMENTS % 2 == 1 <==> more
  {
  }

  class Sender {
    var progressiveId: nat

    constructor ()
      ensures progressiveId == 0x91C0
    {
      progressiveId := 0x91C0;
    }

    /** `pico_ipv4_frame_push`, as far as the fragmentation fields go: the identification moves
        on behind a frame that no other follows. */
    method FramePush(src: nat, dst: nat, proto: nat, frag: nat, data: seq<bv8>) returns (f: Fragment)
      modifies this
      ensures f == Fragment(old(progressiveId), src, dst, proto, Pushed(proto, frag), data)
      ensures progressiveId == if frag / MORE_FRAGMENTS % 2 == 1 then old(progressiveId)
                               else (old(progressiveId) + 1) % 65536
    {
      var id := progressiveId;
      if frag / MORE_FRAGMENTS % 2 == 0 {
        progressiveId := (progressiveId + 1) % 65536;
      }
      f := Fragment(id, src, dst, proto, if proto == UDP || proto == ICMP4 then frag else DONT_FRAGMENT, data);
    }

    /** `pico_ipv4_rebound_large`: all fragments of a payload go out under one identification. */
    method ReboundLarge(payload: seq<bv8>, src: nat, dst: nat, proto: nat) returns (sent: seq<Fragment>)
      requires |payload| < 65536
      modifies this
      ensures sent == Fragments(payload, 0, old(progressiveId), src, dst, proto)
      ensures progressiveId == if payload == [] then old(progressiveId) else (old(progressiveId) + 1) % 65536
    {
      var total := 0;
      sent := [];
      while total < |payload|
        invariant 0 <= total <= |payload|
        invariant sent + Fragments(payload, total, old(progressiveId), src, dst, proto)
               == Fragments(payload, 0, old(progressiveId), src, dst, proto)
        invariant progressiveId == if 0 < total == |payload| then (old(progressiveId) + 1) % 65536
                                   else old(progressiveId)
      {
        var space := |payload| - total;
        if space > MAX_PAYLOAD {
          space := MAX_PAYLOAD;
        }
        var more := space + total < |payload|;
        FragWordSays(total, more);
        var f := FramePush(src, dst, proto, FragWord(total, more), payload[total..total + space]);
        sent := sent + [f];
        total := (total + space) % 65536;
      }
    }
  }

  // ---------- Reassembly ----------

  datatype State = State(tree: seq<Fragment>, cur: nat)
  datatype Datagram = Datagram(src: nat, dst: nat, proto: nat, payload: seq<bv8>)

  /** Insertion by offset; an offset that is there is refused. */
  function Insert(tree: seq<Fragment>, f: Fragment): Option<seq<Fragment>> {
    if tree == [] || Off(f) < Off(tree[0]) then Some([f] + tree)
    else if Off(f) == Off(tree[0]) then None
    else
      match Insert(tree[1..], f)
      case None => None
      case Some(t) => Some([tree[0]] + t)
  }

  /** `pico_fragments_check_complete`: the length up to a fragment that no other follows, when
      there are no gaps. */
  function Length(tree: seq<Fragment>, bookmark: nat): Option<nat> {
    if tree == [] || Off(tree[0]) != bookmark then None
    else
      var n := bookmark + |tree[0].data|;
      if More(tree[0]) then Length(tree[1..], n) else Some(n)
  }

  function Joined(tree: seq<Fragment>): seq<bv8> {
    if tree == [] then [] else tree[0].data + Joined(tree[1..])
  }

  lemma {:induction false} LengthJoined(tree: seq<Fragment>, bookmark: nat)
    ensures Length(tree, bookmark).Some? ==> bookmark <= Length(tree, bookmark).value <= bookmark + |Joined(tree)|
  {
    if tree != [] {
      LengthJoined(tree[1..], bookmark + |tree[0].data|);
    }
  }

  /** The fragments stored behind the one that completes the set. */
  function Behind(tree: seq<Fragment>): seq<Fragment> {
    if tree == [] then [] else if More(tree[0]) then Behind(tree[1..]) else tree[1..]
  }

  lemma {:induction false} CopiedLength(tree: seq<Fragment>, bookmark: nat)
    requires Length(tree, bookmark).Some?
    ensures bookmark + |Joined(tree)| == Length(tree, bookmark).value + |Joined(Behind(tree))|
  {
    if More(tree[0]) {
      CopiedLength(tree[1..], bookmark + |tree[0].data|);
    }
  }

  /** Every stored fragment is copied into a buffer of the length up to the completing one: the
      copy fits exactly when nothing is stored behind that one. */
  lemma CopyFitsIff(tree: seq<Fragment>)
    requires Length(tree, 0).Some?
    ensures |Joined(tree)| <= Length(tree, 0).value <==> Joined(Behind(tree)) == []
  {
    CopiedLength(tree, 0);
  }

  /** `pico_fragments_reassemble`, when the set is complete: what the buffer holds. */
  function Completed(s: State, proto: nat): (State, Option<Datagram>) {
    match Length(s.tree, 0)
    case None => (s, None)
    case Some(n) =>
      LengthJoined(s.tree, 0);
      assert s.tree != [];
      (State([], s.cur), Some(Datagram(s.tree[0].src, s.tree[0].dst, proto, Joined(s.tree)[..n])))
  }

  predicate Matches(f: Fragment, first: Fragment) {
    f.src == first.src && f.dst == first.dst
  }

  /** `pico_ipv4_process_frag`. */
  function Process(s: State, f: Fragment): (State, Option<Datagram>) {
    if s.tree != [] then
      var t := if f.id != s.cur && Off(f) == 0 then State([], 0) else s;
      if t.tree != [] && Matches(f, t.tree[0]) && f.id == t.cur then
        match Insert(t.tree, f)
        case None => (t, None)
        case Some(tree) => Completed(State(tree, t.cur), f.proto)
      else Completed(t, f.proto)
    else if s.cur != 0 && f.id == s.cur then (s, None)
    else Completed(State([f], f.id), f.proto)
  }

  datatype Event = Arrives(f: Fragment) | Expires

  /** `pico_frag_expire` empties the tree and keeps the identification. */
  function Happen(s: State, e: Event): (State, Option<Datagram>) {
    match e
    case Arrives(f) => Process(s, f)
    case Expires => (State([], s.cur), None)
  }

  /** A run: the last state, and what was handed over at each event. */
  function Run(s: State, events: seq<Event>): (r: (State, seq<Option<Datagram>>))
    ensures |r.1| == |events|
    decreases |events|
  {
    if events == [] then (s, [])
    else
      var n := |events| - 1;
      var before := Run(s, events[..n]);
      var now := Happen(before.0, events[n]);
      (now.0, before.1 + [now.1])
  }

  // ---------- What every state keeps ----------

  ghost predicate Sorted(tree: seq<Fragment>) {
    forall i, j | 0 <= i < j < |tree| :: Off(tree[i]) < Off(tree[j])
  }

  /** The stored fragments have one source, one destination and the current identification, and
      different offsets; a complete set is never kept. */
  ghost predicate Coherent(s: State) {
    && Sorted(s.tree)
    && (forall i | 0 <= i < |s.tree| :: s.tree[i].id == s.cur && Matches(s.tree[i], s.tree[0]))
    && Length(s.tree, 0) == None
  }

  /** Insertion keeps the order and adds exactly one fragment. */
  lemma {:induction false} InsertSorted(tree: seq<Fragment>, f: Fragment)
    requires Sorted(tree)
    ensures match Insert(tree, f)
            case None => exists i :: 0 <= i < |tree| && Off(tree[i]) == Off(f)
            case Some(t) =>
              && Sorted(t) && |t| == |tree| + 1
              && (forall x :: x in t <==> x in tree || x == f)
              && (forall i | 0 <= i < |tree| :: Off(tree[i]) != Off(f))
  {
    hide Off;
    if tree != [] && Off(f) > Off(tree[0]) {
      assert tree == [tree[0]] + tree[1..];
      InsertSorted(tree[1..], f);
      match Insert(tree[1..], f)
      case None =>
        var i :| 0 <= i < |tree[1..]| && Off(tree[1..][i]) == Off(f);
        assert Off(tree[i + 1]) == Off(f);
      case Some(t) =>
        forall i | 0 <= i < |t|
          ensures Off(tree[0]) < Off(t[i])
        {
          assert t[i] in t;
        }
        forall i | 0 <= i < |tree|
          ensures Off(tree[i]) != Off(f)
        {
          assert i > 0 ==> tree[i] == tree[1..][i - 1];
        }
    }
  }

  lemma ProcessKeeps(s: State, f: Fragment)
    requires Coherent(s)
    ensures Coherent(Process(s, f).0)
  {
    if s.tree != [] {
      InsertSorted(s.tree, f);
      match Insert(s.tree, f)
      case None =>
      case Some(t) =>
        forall i | 0 <= i < |t|
          ensures t[i] in s.tree || t[i] == f
        {
          assert t[i] in t;
        }
        assert t[0] in t;
    }
  }

  lemma NothingYet()
    ensures Length([], 0) == None
  {
  }

  /** On every run of arrivals and expiries. */
  lemma {:induction false} RunKeeps(s: State, events: seq<Event>)
    requires Coherent(s)
    ensures Coherent(Run(s, events).0)
    decreases |events|
  {
    hide Process;
    if events != [] {
      var n := |events| - 1;
      RunKeeps(s, events[..n]);
      match events[n]
      case Arrives(f) => ProcessKeeps(Run(s, events[..n]).0, f);
      case Expires => NothingYet();
    }
  }

  /** Nothing but fragments of the current identification, and expiries. */
  ghost predicate OnlyOwn(events: seq<Event>, id: nat) {
    forall i | 0 <= i < |events| && events[i].Arrives? :: events[i].f.id == id
  }

  /** After an expiry nothing of that identification is handed over, and nothing of it is even
      kept, until a fragment of another one arrives. */
  lemma {:induction false} ExpiredStaysSilent(s: State, events: seq<Event>)
    requires s.tree == [] && s.cur != 0 && OnlyOwn(events, s.cur)
    ensures Run(s, events).0 == s
    ensures forall i | 0 <= i < |events| :: Run(s, events).1[i] == None
    decreases |events|
  {
    if events != [] {
      ExpiredStaysSilent(s, events[..|events| - 1]);
    }
  }

  /** While a datagram is being reassembled, later fragments of others are passed over, and so
      are fragments of other hosts under the same identification. */
  lemma StrangersPassedOver(s: State, f: Fragment)
    requires Coherent(s) && s.tree != []
    requires (f.id != s.cur && Off(f) != 0) || (f.id == s.cur && !Matches(f, s.tree[0]))
    ensures Process(s, f) == (s, None)
  {
  }

  /** The first fragment of another datagram ends the reassembly, and is itself lost. */
  lemma NewFirstIsLost(s: State, f: Fragment)
    requires Coherent(s) && s.tree != [] && f.id != s.cur && Off(f) == 0
    ensures Process(s, f) == (State([], 0), None)
  {
  }

  // ---------- Splitting, and delivery in any order ----------

  /** The fragments lie one behind the other from `at` to the end of the payload, and all but the
      last announce another. */
  ghost predicate Chain(fs: seq<Fragment>, at: nat, payload: seq<bv8>) {
    if fs == [] then at == |payload|
    else
      var f := fs[0];
      && Off(f) == at && 0 < |f.data| && at + |f.data| <= |payload| && f.data == payload[at..at + |f.data|]
      && (More(f) <==> fs[1..] != [])
      && Chain(fs[1..], at + |f.data|, payload)
  }

  ghost predicate From(fs: seq<Fragment>, id: nat, src: nat, dst: nat, proto: nat) {
    forall f | f in fs :: f.id == id && f.src == src && f.dst == dst && f.proto == proto
  }

  /** What the sender produces, for the protocols whose fragments keep their offsets. */
  lemma {:induction false} FragmentsChain(payload: seq<bv8>, total: nat, id: nat, src: nat, dst: nat, proto: nat)
    requires total <= |payload| < 65536 && (proto == UDP || proto == ICMP4)
    requires total % 8 == 0 || total == |payload|
    ensures var fs := Fragments(payload, total, id, src, dst, proto);
            && Chain(fs, total, payload) && From(fs, id, src, dst, proto)
            && forall f | f in fs :: |f.data| <= MAX_PAYLOAD
    decreases |payload| - total
  {
    if total < |payload| {
      var space := Space(|payload|, total);
      var f := Cut(payload, total, id, src, dst, proto);
      FragmentsChain(payload, total + space, id, src, dst, proto);
      FragWordSays(total, space + total < |payload|);
      var rest := Fragments(payload, total + space, id, src, dst, proto);
      assert ([f] + rest)[1..] == rest;
      assert rest == [] <==> total + space == |payload|;
    }
  }

  lemma {:induction false} ChainOffsets(fs: seq<Fragment>, at: nat, payload: seq<bv8>)
    requires Chain(fs, at, payload)
    ensures forall i | 0 <= i < |fs| :: at <= Off(fs[i]) && (i > 0 ==> at < Off(fs[i]))
    ensures Sorted(fs)
  {
    if fs != [] {
      ChainOffsets(fs[1..], at + |fs[0].data|, payload);
      forall i | 0 < i < |fs|
        ensures at < Off(fs[i])
      {
        assert fs[i] == fs[1..][i - 1];
      }
      forall i, j | 0 <= i < j < |fs|
        ensures Off(fs[i]) < Off(fs[j])
      {
        if i > 0 {
          assert fs[i] == fs[1..][i - 1] && fs[j] == fs[1..][j - 1];
        }
      }
    }
  }

  lemma {:induction false} ChainComplete(fs: seq<Fragment>, at: nat, payload: seq<bv8>)
    requires Chain(fs, at, payload) && fs != []
    ensures Length(fs, at) == Some(|payload|) && Joined(fs) == payload[at..]
  {
    var n := at + |fs[0].data|;
    if fs[1..] != [] {
      ChainComplete(fs[1..], n, payload);
      assert payload[at..] == payload[at..n] + payload[n..];
    } else {
      assert Joined(fs[1..]) == [];
      assert payload[at..n] == payload[at..];
    }
  }

  /** The smallest of a sorted part of the chain. */
  lemma Foremost(tree: seq<Fragment>, fs: seq<Fragment>, at: nat, payload: seq<bv8>)
    requires Chain(fs, at, payload) && Sorted(tree) && tree != [] && forall x | x in tree :: x in fs
    ensures Off(tree[0]) >= at && fs != []
    ensures Off(tree[0]) == at ==> tree[0] == fs[0]
    ensures tree[0] == fs[0] ==> forall x | x in tree[1..] :: x in fs[1..]
    ensures fs[0] in tree ==> tree[0] == fs[0]
  {
    ChainOffsets(fs, at, payload);
    assert tree[0] in tree;
    var k :| 0 <= k < |fs| && fs[k] == tree[0];
    if tree[0] == fs[0] {
      forall x | x in tree[1..]
        ensures x in fs[1..]
      {
        var i :| 0 <= i < |tree[1..]| && tree[1..][i] == x;
        assert x == tree[i + 1] && x in tree;
        var j :| 0 <= j < |fs| && fs[j] == x;
        assert Off(x) > Off(tree[0]);
        assert x == fs[1..][j - 1];
      }
    }
  }

  /** Only the whole chain is complete. */
  lemma {:induction false} OnlyWhole(tree: seq<Fragment>, fs: seq<Fragment>, at: nat, payload: seq<bv8>)
    requires Chain(fs, at, payload) && Sorted(tree) && forall x | x in tree :: x in fs
    ensures Length(tree, at).Some? ==> tree == fs
    ensures (forall x | x in fs :: x in tree) ==> tree == fs
  {
    if tree != [] {
      Foremost(tree, fs, at, payload);
      if tree[0] == fs[0] {
        OnlyWhole(tree[1..], fs[1..], at + |fs[0].data|, payload);
        assert tree == [tree[0]] + tree[1..] && fs == [fs[0]] + fs[1..];
        if forall x | x in fs :: x in tree {
          ChainOffsets(fs, at, payload);
          forall x | x in fs[1..]
            ensures x in tree[1..]
          {
            assert x in fs && x in tree;
          }
        }
      }
    } else if fs != [] {
      assert fs[0] in fs;
    }
  }

  ghost function Elements(fs: seq<Fragment>): set<Fragment> {
    set f | f in fs
  }

  /** How far a datagram with fragments `fs` is, when those in `a` have arrived. */
  ghost predicate Stage(s: State, fs: seq<Fragment>, a: set<Fragment>, id: nat) {
    && Coherent(s)
    && if a == {} then s.tree == [] && s.cur != id
       else if a == Elements(fs) then s.tree == [] && s.cur == id
       else s.cur == id && Elements(s.tree) == a
  }

  ghost function Outcome(fs: seq<Fragment>, a: set<Fragment>, f: Fragment, d: Datagram): Option<Datagram> {
    if a != Elements(fs) && a + {f} == Elements(fs) then Some(d) else None
  }

  lemma CompletedIff(s: State, fs: seq<Fragment>, d: Datagram, id: nat)
    requires Chain(fs, 0, d.payload) && From(fs, id, d.src, d.dst, d.proto) && fs != []
    requires Sorted(s.tree) && Elements(s.tree) <= Elements(fs) && s.tree != []
    ensures Completed(s, d.proto) ==
            if Elements(s.tree) == Elements(fs) then (State([], s.cur), Some(d)) else (s, None)
  {
    forall x | x in s.tree
      ensures x in fs
    {
      assert x in Elements(s.tree);
    }
    if Elements(s.tree) == Elements(fs) {
      forall x | x in fs
        ensures x in s.tree
      {
        assert x in Elements(fs);
      }
    }
    OnlyWhole(s.tree, fs, 0, d.payload);
    ChainComplete(fs, 0, d.payload);
    assert fs[0] in fs;
    assert d.payload[0..] == d.payload == d.payload[..|d.payload|];
  }

  lemma StageFirst(s: State, fs: seq<Fragment>, f: Fragment, d: Datagram, id: nat)
    requires Chain(fs, 0, d.payload) && From(fs, id, d.src, d.dst, d.proto) && f in fs
    requires s.tree == [] && s.cur != id
    ensures Process(s, f) ==
            if Elements(fs) == {f} then (State([], id), Some(d)) else (State([f], id), None)
    ensures Elements([f]) == {f} == {} + {f}
  {
    hide Chain, Length, Joined, Off, More;
    CompletedIff(State([f], f.id), fs, d, id);
  }

  lemma StageLate(s: State, f: Fragment, id: nat)
    requires s.tree == [] && s.cur == id == f.id && id != 0
    ensures Process(s, f) == (s, None)
  {
  }

  lemma SameOffset(fs: seq<Fragment>, f: Fragment, g: Fragment, payload: seq<bv8>)
    requires Chain(fs, 0, payload) && f in fs && g in fs && Off(f) == Off(g)
    ensures f == g
  {
    ChainOffsets(fs, 0, payload);
  }

  lemma StageMiddle(s: State, fs: seq<Fragment>, a: set<Fragment>, f: Fragment, d: Datagram, id: nat)
    requires Chain(fs, 0, d.payload) && From(fs, id, d.src, d.dst, d.proto)
    requires a <= Elements(fs) && f in fs && Coherent(s) && s.cur == id && Elements(s.tree) == a && a != {}
    requires a != Elements(fs)
    ensures var r := Process(s, f);
            && r.1 == Outcome(fs, a, f, d) && r.0.cur == id
            && if a + {f} == Elements(fs) then r.0.tree == [] else Elements(r.0.tree) == a + {f}
  {
    hide Chain, Length, Joined, Off, More, Completed;
    assert s.tree != [];
    assert s.tree[0] in Elements(s.tree);
    InsertSorted(s.tree, f);
    match Insert(s.tree, f)
    case None =>
      var i :| 0 <= i < |s.tree| && Off(s.tree[i]) == Off(f);
      assert s.tree[i] in Elements(s.tree);
      SameOffset(fs, s.tree[i], f, d.payload);
      assert a + {f} == a;
    case Some(t) =>
      assert Elements(t) == a + {f};
      CompletedIff(State(t, s.cur), fs, d, id);
  }

  /** The next fragment of the datagram, new or not. */
  lemma StageNext(s: State, fs: seq<Fragment>, a: set<Fragment>, f: Fragment, d: Datagram, id: nat)
    requires Chain(fs, 0, d.payload) && From(fs, id, d.src, d.dst, d.proto) && id != 0
    requires a <= Elements(fs) && f in fs && Stage(s, fs, a, id)
    ensures Stage(Process(s, f).0, fs, a + {f}, id)
    ensures Process(s, f).1 == Outcome(fs, a, f, d)
  {
    hide Chain, Length, Joined, Off, More, Process;
    ProcessKeeps(s, f);
    if a == {} {
      StageFirst(s, fs, f, d, id);
    } else if a == Elements(fs) {
      StageLate(s, f, id);
      assert a + {f} == a;
    } else {
      StageMiddle(s, fs, a, f, d, id);
    }
  }

  function Arrivals(fs: seq<Fragment>): (events: seq<Event>)
    ensures |events| == |fs| && forall i | 0 <= i < |fs| :: events[i] == Arrives(fs[i])
  {
    seq(|fs|, i requires 0 <= i < |fs| => Arrives(fs[i]))
  }

  /** `d` comes out exactly at the arrival that completes `fs`. */
  ghost predicate OnceWhenWhole(outcomes: seq<Option<Datagram>>, fs: seq<Fragment>, arrivals: seq<Fragment>, d: Datagram)
  {
    && |outcomes| == |arrivals|
    && forall i | 0 <= i < |arrivals| ::
         outcomes[i] ==
         if Elements(arrivals[..i]) != Elements(fs) && Elements(arrivals[..i + 1]) == Elements(fs) then Some(d) else None
  }

  lemma WholeNext(outcomes: seq<Option<Datagram>>, fs: seq<Fragment>, arrivals: seq<Fragment>, d: Datagram, f: Fragment)
    requires OnceWhenWhole(outcomes, fs, arrivals, d)
    ensures Elements(arrivals + [f]) == Elements(arrivals) + {f}
    ensures OnceWhenWhole(outcomes + [Outcome(fs, Elements(arrivals), f, d)], fs, arrivals + [f], d)
  {
    var n := |arrivals|;
    forall i | 0 <= i <= n
      ensures (arrivals + [f])[..i] == arrivals[..i]
    {
    }
    assert (arrivals + [f])[..n + 1] == arrivals + [f];
    assert arrivals[..n] == arrivals;
  }

  /** Arrivals of one datagram, in any order and with repetitions: it is handed over exactly once,
      when the last missing fragment arrives. */
  lemma {:induction false} DeliveredOnce(s: State, fs: seq<Fragment>, arrivals: seq<Fragment>, d: Datagram, id: nat)
    requires Chain(fs, 0, d.payload) && From(fs, id, d.src, d.dst, d.proto) && id != 0
    requires s.tree == [] && s.cur != id && Elements(arrivals) <= Elements(fs)
    ensures Stage(Run(s, Arrivals(arrivals)).0, fs, Elements(arrivals), id)
    ensures OnceWhenWhole(Run(s, Arrivals(arrivals)).1, fs, arrivals, d)
    decreases |arrivals|
  {
    hide Chain, From, Process, Outcome, Length;
    if arrivals == [] {
      assert Elements(arrivals) == {};
      NothingYet();
    } else {
      var n := |arrivals| - 1;
      var init, f := arrivals[..n], arrivals[n];
      assert arrivals == init + [f];
      assert f in Elements(arrivals);
      assert Elements(init) <= Elements(arrivals);
      DeliveredOnce(s, fs, init, d, id);
      assert Arrivals(arrivals)[..n] == Arrivals(init);
      var before := Run(s, Arrivals(init));
      StageNext(before.0, fs, Elements(init), f, d, id);
      WholeNext(before.1, fs, init, d, f);
    }
  }

  /** From `pico_ipv4_rebound_large` to the receiver. */
  lemma SplitAndReassembled(payload: seq<bv8>, id: nat, src: nat, dst: nat, proto: nat, s: State, arrivals: seq<Fragment>)
    requires 0 < |payload| <= 65515 && (proto == UDP || proto == ICMP4) && id != 0
    requires s.tree == [] && s.cur != id
    requires Elements(arrivals) <= Elements(Fragments(payload, 0, id, src, dst, proto))
    ensures OnceWhenWhole(Run(s, Arrivals(arrivals)).1, Fragments(payload, 0, id, src, dst, proto), arrivals,
                          Datagram(src, dst, proto, payload))
  {
    hide Run, Elements, Chain, From, Fragments, Stage;
    FragmentsChain(payload, 0, id, src, dst, proto);
    DeliveredOnce(s, Fragments(payload, 0, id, src, dst, proto), arrivals, Datagram(src, dst, proto, payload), id);
  }

  // ---------- The receiver's state ----------

  class Receiver {
    var tree: seq<Fragment>
    var cur: nat

    ghost function Now(): State
      reads this
    {
      State(tree, cur)
    }

    constructor ()
      ensures Now() == State([], 0)
    {
      tree, cur := [], 0;
    }

    /** `pico_fragments_reassemble`: the payloads of all stored fragments are copied one behind the
        other, `copied` octets in all, and the tree is emptied. The buffer has room for `len`. */
    method Reassemble(len: nat, proto: nat) returns (d: Option<Datagram>, copied: nat)
      requires Length(tree, 0) == Some(len)
      modifies this
      ensures (Now(), d) == Completed(old(Now()), proto)
      ensures copied == |Joined(old(tree))|
    {
      LengthJoined(tree, 0);
      var first := tree[0];
      var full: seq<bv8> := [];
      while tree != []
        invariant full + Joined(tree) == old(Joined(tree)) && cur == old(cur)
        decreases |tree|
      {
        full := full + tree[0].data;
        tree := tree[1..];
      }
      assert full == full + Joined(tree);
      copied := |full|;
      d := Some(Datagram(first.src, first.dst, proto, full[..len]));
    }

    /** `pico_fragments_check_complete`: the loop stops at a gap, and at a fragment that no other
        follows. */
    method CheckComplete(proto: nat) returns (d: Option<Datagram>)
      modifies this
      ensures (Now(), d) == Completed(old(Now()), proto)
    {
      var bookmark: nat, i := 0, 0;
      assert tree[0..] == tree;
      while i < |tree|
        invariant 0 <= i <= |tree| && Now() == old(Now())
        invariant Length(tree[i..], bookmark) == Length(tree, 0)
      {
        assert tree[i..][1..] == tree[i + 1..];
        if Off(tree[i]) != bookmark {
          return None;
        }
        bookmark := bookmark + |tree[i].data|;
        if !More(tree[i]) {
          var whole, _ := Reassemble(bookmark, proto);
          return whole;
        }
        i := i + 1;
      }
      d := None;
    }

    /** `pico_frag_expire`. */
    method Expire()
      modifies this
      ensures (Now(), None) == Happen(old(Now()), Expires)
    {
      while tree != []
        invariant cur == old(cur)
        decreases |tree|
      {
        tree := tree[1..];
      }
    }

    /** `pico_ipv4_process_frag`. */
    method ProcessFrag(f: Fragment) returns (d: Option<Datagram>)
      modifies this
      ensures (Now(), d) == Process(old(Now()), f)
    {
      if tree != [] {
        if f.id != cur && Off(f) == 0 {
          tree, cur := [], 0;
        }
        if tree != [] && Matches(f, tree[0]) && f.id == cur {
          match Insert(tree, f)
          case None => return None;
          case Some(t) => tree := t;
        }
      } else {
        if cur != 0 && f.id == cur {
          return None;
        }
        cur := f.id;
        tree := [f];
      }
      d := CheckComplete(f.proto);
    }
  }
}
