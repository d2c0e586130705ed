/** Octet stuffing, the resumable deframer and control frames of the PPP driver
    (section 4.2 of RFC 1662). */
module PppFraming {
  import Fcs

  const FLAG: bv8 := 0x7E
  const ESCAPE: bv8 := 0x7D
  const ADDRESS: bv8 := 0xFF
  const CONTROL: bv8 := 0x03
  const MAX_PACKET: nat := 2048

  // ---------- Sending ----------

  /** The driver's test for an octet that must be escaped, computed in a wider word. */
  predicate Special(b: bv8) {
    ((b as bv16) + 1) >> 1 == 0x3F
  }

  lemma SpecialMeans(b: bv8)
    ensures Special(b) <==> b == FLAG || b == ESCAPE
  {
  }

  function Flip(b: bv8): bv8 {
    b ^ 0x20
  }

  lemma FlipTwice(b: bv8)
    ensures Flip(Flip(b)) == b
    ensures Special(b) ==> Flip(b) != FLAG
  {
  }

  function Stuff(s: seq<bv8>): seq<bv8> {
    if s == [] then []
    else
      var b := s[|s| - 1];
      Stuff(s[..|s| - 1]) + if Special(b) then [ESCAPE, Flip(b)] else [b]
  }

  /** What goes to the serial line for a frame: the first and last octets are never escaped. */
  function OnWire(frame: seq<bv8>): seq<bv8> {
    if |frame| < 2 then frame
    else [frame[0]] + Stuff(frame[1..|frame| - 1]) + [frame[|frame| - 1]]
  }

  function Specials(s: seq<bv8>): nat {
    if s == [] then 0
    else Specials(s[..|s| - 1]) + if Special(s[|s| - 1]) then 1 else 0
  }

  lemma {:induction false} StuffLength(s: seq<bv8>)
    ensures |Stuff(s)| == |s| + Specials(s)
    ensures Specials(s) == 0 ==> Stuff(s) == s
  {
    if s != [] {
      StuffLength(s[..|s| - 1]);
    }
  }

  method CountSpecials(buf: array<bv8>, len: nat) returns (extra: nat)
    requires len <= buf.Length
    ensures len < 2 ==> extra == 0
    ensures len >= 2 ==> extra == Specials(buf[1..len - 1])
  {
    hide Special;
    extra := 0;
    var i := 1;
    while i < len - 1
      invariant i == 1 || i <= len - 1
      invariant len < 2 ==> i == 1 && extra == 0
      invariant len >= 2 ==> 1 <= i <= len - 1 && extra == Specials(buf[1..i])
    {
      assert buf[1..i + 1][..i - 1] == buf[1..i];
      if Special(buf[i]) {
        extra := extra + 1;
      }
      i := i + 1;
    }
  }

  lemma StuffStep(s: seq<bv8>, i: nat)
    requires i < |s|
    ensures Stuff(s[..i + 1]) == Stuff(s[..i]) + if Special(s[i]) then [ESCAPE, Flip(s[i])] else [s[i]]
  {
    hide Special, Flip;
    assert s[..i + 1][..i] == s[..i];
  }

  lemma {:induction false} StuffRoom(s: seq<bv8>, i: nat)
    requires i <= |s|
    ensures |Stuff(s[..i])| <= |Stuff(s)|
    decreases |s|
  {
    if i < |s| {
      StuffRoom(s[..|s| - 1], i);
      assert s[..|s| - 1][..i] == s[..i];
    } else {
      assert s[..i] == s;
    }
  }

  /** Writes the stuffed octets of `buf[1..len - 1]` from offset 1 of `out`. */
  method StuffInto(buf: array<bv8>, len: nat, out: array<bv8>)
    requires 2 <= len <= buf.Length && out != buf
    requires out.Length == 2 + |Stuff(buf[1..len - 1])|
    modifies out
    ensures out[0] == old(out[0]) && out[1..out.Length - 1] == Stuff(buf[1..len - 1])
  {
    hide Special, Flip;
    ghost var body := buf[1..len - 1];
    var i, j := 1, 1;
    while i < len - 1
      invariant 1 <= i <= len - 1
      invariant j == 1 + |Stuff(body[..i - 1])| <= out.Length - 1
      invariant out[0] == old(out[0]) && out[1..j] == Stuff(body[..i - 1])
    {
      assert buf[i] == body[i - 1];
      StuffStep(body, i - 1);
      StuffRoom(body, i);
      if Special(buf[i]) {
        out[j] := ESCAPE;
        out[j + 1] := Flip(buf[i]);
        assert out[1..j + 2] == out[1..j] + [ESCAPE, Flip(buf[i])];
        j := j + 2;
      } else {
        out[j] := buf[i];
        assert out[1..j + 1] == out[1..j] + [buf[i]];
        j := j + 1;
      }
      i := i + 1;
    }
    assert body[..i - 1] == body;
  }

  /** `ppp_serial_send_escape`: the buffer and length given to the serial line. */
  method SendEscaped(buf: array<bv8>, len: nat) returns (out: array<bv8>, n: nat)
    requires len <= buf.Length
    ensures n <= out.Length && out[..n] == OnWire(buf[..len])
    ensures out == buf || fresh(out)
  {
    hide Special, Flip, Stuff, Specials;
    var extra := CountSpecials(buf, len);
    if len >= 2 {
      StuffLength(buf[1..len - 1]);
      assert buf[..len][1..len - 1] == buf[1..len - 1];
    }
    if extra == 0 {
      assert len >= 2 ==> buf[..len] == [buf[0]] + buf[1..len - 1] + [buf[len - 1]];
      return buf, len;
    }
    n := len + extra;
    out := new bv8[n];
    out[0] := buf[0];
    StuffInto(buf, len, out);
    out[n - 1] := buf[len - 1];
    assert out[..n] == [out[0]] + out[1..n - 1] + [out[n - 1]];
  }

  // ---------- Receiving ----------

  /** The static variables of the poll function, and what it has handed over. */
  datatype Receiver = Receiver(body: seq<bv8>, escaped: bool, frames: seq<seq<bv8>>)

  function Clean(frames: seq<seq<bv8>>): Receiver {
    Receiver([], false, frames)
  }

  /** One octet from the serial line while the modem is connected. */
  function Octet(r: Receiver, b: bv8): Receiver {
    if b == FLAG then
      if r.escaped then Clean(r.frames)
      else if |r.body| > 1 then Clean(r.frames + [r.body])
      else r
    else if r.escaped then Receiver(r.body + [Flip(b)], false, r.frames)
    else if b == ESCAPE then r.(escaped := true)
    else r.(body := r.body + [b])
  }

  function Feed(r: Receiver, s: seq<bv8>): Receiver {
    if s == [] then r else Octet(Feed(r, s[..|s| - 1]), s[|s| - 1])
  }

  /** How a stream is cut does not matter. */
  lemma {:induction false} FeedConcat(r: Receiver, s: seq<bv8>, t: seq<bv8>)
    ensures Feed(r, s + t) == Feed(Feed(r, s), t)
  {
    if t == [] {
      assert s + t == s;
    } else {
      assert (s + t)[..|s + t| - 1] == s + t[..|t| - 1];
      FeedConcat(r, s, t[..|t| - 1]);
    }
  }

  class Deframer {
    var buf: array<bv8>
    var len: nat
    var escaped: bool
    var frames: seq<seq<bv8>>

    ghost predicate Valid()
      reads this
    {
      buf.Length == MAX_PACKET && len <= MAX_PACKET
    }

    ghost function State(): Receiver
      requires Valid()
      reads this, buf
    {
      Receiver(buf[..len], escaped, frames)
    }

    constructor ()
      ensures Valid() && fresh(buf) && State() == Clean([])
    {
      buf := new bv8[MAX_PACKET];
      len, escaped, frames := 0, false, [];
    }

    /** The body of the loop: one octet, and whether it ended a frame. */
    method Take(b: bv8) returns (frame: bool)
      requires Valid() && len < MAX_PACKET
      modifies this, buf
      ensures Valid() && buf == old(buf)
      ensures State() == Octet(old(State()), b)
      ensures |frames| == |old(frames)| + if frame then 1 else 0
    {
      hide Flip;
      frame := false;
      buf[len] := b;
      if buf[len] == FLAG {
        if escaped {
          escaped := false;
          len := 0;
        }
        if len > 1 {
          frames := frames + [buf[..len]];
          frame := true;
          len := 0;
        }
      } else if escaped {
        buf[len] := Flip(buf[len]);
        escaped := false;
        len := len + 1;
      } else if buf[len] == ESCAPE {
        escaped := true;
      } else {
        len := len + 1;
      }
    }

    /** `pico_ppp_poll` in the connected state: `serial` is what the line still holds, of
        which `consumed` octets are read. The octet is stored before it is looked at, so that a
        poll that is entered with a full buffer stores it behind the buffer. */
    method Poll(serial: seq<bv8>, loopScore: int) returns (consumed: nat, score: int, overrun: bool)
      requires Valid()
      modifies this, buf
      ensures Valid() && buf == old(buf)
      ensures overrun <==> old(len) == MAX_PACKET && serial != []
      ensures consumed <= |serial|
      ensures State() == Feed(old(State()), serial[..consumed])
      ensures score == loopScore - (|frames| - |old(frames)|)
      ensures overrun || consumed == |serial| || len == MAX_PACKET || score <= 0
    {
      hide Octet;
      consumed, score, overrun := 0, loopScore, len == MAX_PACKET && serial != [];
      if len == MAX_PACKET {
        return;
      }
      while true
        invariant Valid() && buf == old(buf) && len < MAX_PACKET
        invariant consumed <= |serial|
        invariant State() == Feed(old(State()), serial[..consumed])
        invariant score == loopScore - (|frames| - |old(frames)|)
        decreases |serial| - consumed
      {
        if consumed == |serial| {
          break;
        }
        assert serial[..consumed + 1][..consumed] == serial[..consumed];
        var frame := Take(serial[consumed]);
        consumed := consumed + 1;
        if frame {
          score := score - 1;
        }
        if !(len < buf.Length && score > 0) {
          break;
        }
      }
    }
  }

  // ---------- Framing round trip ----------

  /** The octets of a body travel between two flags. */
  function Framed(body: seq<bv8>): seq<bv8> {
    [FLAG] + body + [FLAG]
  }

  function WireOf(bodies: seq<seq<bv8>>): seq<bv8> {
    if bodies == [] then []
    else WireOf(bodies[..|bodies| - 1]) + OnWire(Framed(bodies[|bodies| - 1]))
  }

  lemma FeedOne(r: Receiver, x: bv8)
    ensures Feed(r, [x]) == Octet(r, x)
  {
    hide Octet;
    assert [x][..0] == [];
  }

  lemma FeedTwo(r: Receiver, x: bv8, y: bv8)
    ensures Feed(r, [x, y]) == Octet(Octet(r, x), y)
  {
    hide Octet;
    FeedOne(r, x);
    FeedOne(Octet(r, x), y);
    FeedConcat(r, [x], [y]);
    assert [x, y] == [x] + [y];
  }

  lemma OctetsOfBody(body: seq<bv8>, b: bv8, frames: seq<seq<bv8>>)
    ensures Special(b) ==> Octet(Octet(Receiver(body, false, frames), ESCAPE), Flip(b)) == Receiver(body + [b], false, frames)
    ensures !Special(b) ==> Octet(Receiver(body, false, frames), b) == Receiver(body + [b], false, frames)
  {
    hide Special, Flip;
    SpecialMeans(b);
    FlipTwice(b);
  }

  lemma {:induction false} FeedStuffed(body: seq<bv8>, frames: seq<seq<bv8>>)
    ensures Feed(Clean(frames), Stuff(body)) == Receiver(body, false, frames)
  {
    hide Special, Flip, Octet;
    if body != [] {
      var init, b := body[..|body| - 1], body[|body| - 1];
      FeedStuffed(init, frames);
      OctetsOfBody(init, b, frames);
      if Special(b) {
        FeedConcat(Clean(frames), Stuff(init), [ESCAPE, Flip(b)]);
        FeedTwo(Receiver(init, false, frames), ESCAPE, Flip(b));
      } else {
        FeedConcat(Clean(frames), Stuff(init), [b]);
        FeedOne(Receiver(init, false, frames), b);
      }
      assert init + [b] == body;
    }
  }

  lemma FramedOnWire(body: seq<bv8>)
    ensures OnWire(Framed(body)) == [FLAG] + Stuff(body) + [FLAG]
  {
    assert Framed(body)[1..|Framed(body)| - 1] == body;
  }

  lemma FeedFrame(body: seq<bv8>, frames: seq<seq<bv8>>)
    requires 2 <= |body|
    ensures Feed(Clean(frames), OnWire(Framed(body))) == Clean(frames + [body])
  {
    FramedOnWire(body);
    FeedConcat(Clean(frames), [FLAG] + Stuff(body), [FLAG]);
    FeedConcat(Clean(frames), [FLAG], Stuff(body));
    FeedOne(Clean(frames), FLAG);
    FeedStuffed(body, frames);
    FeedOne(Receiver(body, false, frames), FLAG);
  }

  /** Whatever was sent is what is handed over, in order, and the deframer ends up clean. */
  lemma {:induction false} FramesRoundTrip(bodies: seq<seq<bv8>>, frames: seq<seq<bv8>>)
    requires forall i | 0 <= i < |bodies| :: 2 <= |bodies[i]|
    ensures Feed(Clean(frames), WireOf(bodies)) == Clean(frames + bodies)
  {
    hide Octet, Special, Flip, OnWire, Framed;
    if bodies == [] {
      assert frames + bodies == frames;
    } else {
      var init, last := bodies[..|bodies| - 1], bodies[|bodies| - 1];
      FramesRoundTrip(init, frames);
      FeedConcat(Clean(frames), WireOf(init), OnWire(Framed(last)));
      FeedFrame(last, frames + init);
      assert frames + init + [last] == frames + bodies;
    }
  }

  // ---------- The buffer never fills ----------

  lemma {:induction false} StuffHasNoFlag(s: seq<bv8>)
    ensures FLAG !in Stuff(s)
  {
    if s != [] {
      StuffHasNoFlag(s[..|s| - 1]);
      SpecialMeans(s[|s| - 1]);
      FlipTwice(s[|s| - 1]);
    }
  }

  lemma {:induction false} BodyGrows(r: Receiver, s: seq<bv8>)
    requires FLAG !in s
    ensures |r.body| <= |Feed(r, s).body|
  {
    if s != [] {
      BodyGrows(r, s[..|s| - 1]);
    }
  }

  lemma FramePrefixFits(body: seq<bv8>, frames: seq<seq<bv8>>, m: nat)
    requires 2 <= |body| && m <= |OnWire(Framed(body))|
    ensures |Feed(Clean(frames), OnWire(Framed(body))[..m]).body| <= |body|
  {
    hide Special, Flip, OnWire, Framed;
    var wire := OnWire(Framed(body));
    FramedOnWire(body);
    FeedFrame(body, frames);
    if m == |wire| {
      assert wire[..m] == wire;
    } else if m > 0 {
      var head, tail := Stuff(body)[..m - 1], Stuff(body)[m - 1..];
      assert wire[..m] == [FLAG] + head;
      FeedConcat(Clean(frames), [FLAG], head);
      FeedOne(Clean(frames), FLAG);
      assert Stuff(body) == head + tail;
      StuffHasNoFlag(body);
      FeedConcat(Clean(frames), head, tail);
      BodyGrows(Feed(Clean(frames), head), tail);
      FeedStuffed(body, frames);
    }
  }

  lemma {:induction false} PrefixFits(bodies: seq<seq<bv8>>, frames: seq<seq<bv8>>, k: nat)
    requires forall i | 0 <= i < |bodies| :: 2 <= |bodies[i]| < MAX_PACKET
    requires k <= |WireOf(bodies)|
    ensures |Feed(Clean(frames), WireOf(bodies)[..k]).body| < MAX_PACKET
    decreases |bodies|
  {
    hide Octet, Special, Flip, OnWire, Framed;
    if bodies != [] {
      var init, last := bodies[..|bodies| - 1], bodies[|bodies| - 1];
      if k <= |WireOf(init)| {
        PrefixFits(init, frames, k);
        assert WireOf(bodies)[..k] == WireOf(init)[..k];
      } else {
        var m := k - |WireOf(init)|;
        assert WireOf(bodies)[..k] == WireOf(init) + OnWire(Framed(last))[..m];
        FramesRoundTrip(init, frames);
        FeedConcat(Clean(frames), WireOf(init), OnWire(Framed(last))[..m]);
        FramePrefixFits(last, frames + init, m);
      }
    }
  }

  /** The states a deframer goes through when a stream is consumed by successive polls:
      `cuts` are the positions the calls stop at, as the contract of `Poll` says. */
  ghost predicate PolledThrough(states: seq<Receiver>, cuts: seq<nat>, stream: seq<bv8>) {
    && |states| == |cuts| && |cuts| > 0 && cuts[0] == 0 && cuts[|cuts| - 1] == |stream|
    && (forall i | 0 <= i < |cuts| :: cuts[i] <= |stream|)
    && (forall i | 0 < i < |cuts| ::
          cuts[i - 1] <= cuts[i] && states[i] == Feed(states[i - 1], stream[cuts[i - 1]..cuts[i]]))
  }

  lemma {:induction false} PolledPrefix(states: seq<Receiver>, cuts: seq<nat>, stream: seq<bv8>, i: nat)
    requires PolledThrough(states, cuts, stream) && i < |cuts|
    ensures states[i] == Feed(states[0], stream[..cuts[i]])
  {
    if i == 0 {
      assert stream[..cuts[0]] == [];
    } else {
      PolledPrefix(states, cuts, stream, i - 1);
      assert stream[..cuts[i]] == stream[..cuts[i - 1]] + stream[cuts[i - 1]..cuts[i]];
      FeedConcat(states[0], stream[..cuts[i - 1]], stream[cuts[i - 1]..cuts[i]]);
    }
  }

  /** However the stream is cut: every poll finds room in the buffer, and at the end exactly
      the bodies sent have been handed over, in order. */
  lemma PolledRoundTrip(bodies: seq<seq<bv8>>, states: seq<Receiver>, cuts: seq<nat>, frames: seq<seq<bv8>>)
    requires forall i | 0 <= i < |bodies| :: 2 <= |bodies[i]| < MAX_PACKET
    requires PolledThrough(states, cuts, WireOf(bodies)) && states[0] == Clean(frames)
    ensures states[|states| - 1] == Clean(frames + bodies)
    ensures forall i | 0 <= i < |states| :: |states[i].body| < MAX_PACKET
  {
    forall i | 0 <= i < |states|
      ensures |states[i].body| < MAX_PACKET
    {
      PolledPrefix(states, cuts, WireOf(bodies), i);
      PrefixFits(bodies, frames, cuts[i]);
    }
    PolledPrefix(states, cuts, WireOf(bodies), |cuts| - 1);
    assert WireOf(bodies)[..|WireOf(bodies)|] == WireOf(bodies);
    FramesRoundTrip(bodies, frames);
  }

  // ---------- When the buffer fills ----------

  ghost predicate FlagFree(s: seq<bv8>) {
    forall i | 0 <= i < |s| :: s[i] != FLAG
  }

  /** How many octets of a stretch without flags are stored, and whether an escape is open behind
      it. */
  function Stored(s: seq<bv8>): (nat, bool) {
    if s == [] then (0, false)
    else
      var before := Stored(s[..|s| - 1]);
      if !before.1 && s[|s| - 1] == ESCAPE then (before.0, true) else (before.0 + 1, false)
  }

  lemma {:induction false} FlagFreeGrows(r: Receiver, s: seq<bv8>)
    requires FlagFree(s) && !r.escaped
    ensures |Feed(r, s).body| == |r.body| + Stored(s).0 && Feed(r, s).escaped == Stored(s).1
  {
    if s != [] {
      FlagFreeGrows(r, s[..|s| - 1]);
    }
  }

  /** Behind a flag at most one octet is held: a single octet between flags is kept. */
  lemma AtMostOneBehindFlag(r: Receiver, s: seq<bv8>, i: nat)
    requires i <= |s| && (i == 0 ==> r.body == [] && !r.escaped) && (i > 0 ==> s[i - 1] == FLAG)
    ensures |Feed(r, s[..i]).body| <= 1 && !Feed(r, s[..i]).escaped
  {
    if i > 0 {
      assert s[..i][..i - 1] == s[..i - 1];
    }
  }

  /** From position `i`, at the start or behind a flag, to `j` the stream has no flag, and with what
      is held at `i` stores exactly a buffer. */
  ghost predicate Overlong(s: seq<bv8>, frames: seq<seq<bv8>>, i: nat, j: nat) {
    && i <= j <= |s| && (i > 0 ==> s[i - 1] == FLAG) && FlagFree(s[i..j])
    && |Feed(Clean(frames), s[..i]).body| + Stored(s[i..j]).0 == MAX_PACKET
  }

  lemma StretchStored(r: Receiver, s: seq<bv8>, i: nat, j: nat)
    requires i <= j <= |s| && r.body == [] && !r.escaped && (i > 0 ==> s[i - 1] == FLAG) && FlagFree(s[i..j])
    ensures |Feed(r, s[..j]).body| == |Feed(r, s[..i]).body| + Stored(s[i..j]).0
  {
    AtMostOneBehindFlag(r, s, i);
    FlagFreeGrows(Feed(r, s[..i]), s[i..j]);
    assert s[..j] == s[..i] + s[i..j];
    FeedConcat(r, s[..i], s[i..j]);
  }

  lemma {:induction false} LastFlag(s: seq<bv8>, k: nat) returns (i: nat)
    requires k <= |s|
    ensures i <= k && (i > 0 ==> s[i - 1] == FLAG) && FlagFree(s[i..k])
  {
    if k == 0 || s[k - 1] == FLAG {
      i := k;
    } else {
      i := LastFlag(s, k - 1);
      assert s[i..k] == s[i..k - 1] + [s[k - 1]];
    }
  }

  /** Exactly the streams that fill the buffer, so that the next poll overruns it: those with 2048
      stored octets and no flag between, of which one may be left from before. */
  lemma FullIff(s: seq<bv8>, frames: seq<seq<bv8>>)
    ensures (exists k :: 0 <= k <= |s| && |Feed(Clean(frames), s[..k]).body| == MAX_PACKET) <==>
            (exists i: nat, j: nat :: Overlong(s, frames, i, j))
  {
    var r := Clean(frames);
    forall i: nat, j: nat | Overlong(s, frames, i, j)
      ensures |Feed(r, s[..j]).body| == MAX_PACKET
    {
      StretchStored(r, s, i, j);
    }
    forall k | 0 <= k <= |s| && |Feed(r, s[..k]).body| == MAX_PACKET
      ensures exists i: nat, j: nat :: Overlong(s, frames, i, j)
    {
      var i := LastFlag(s, k);
      StretchStored(r, s, i, k);
      assert Overlong(s, frames, i, k);
    }
  }

  lemma OneMoreAtMost(r: Receiver, s: seq<bv8>, k: nat)
    requires k < |s|
    ensures |Feed(r, s[..k + 1]).body| <= |Feed(r, s[..k]).body| + 1
  {
    assert s[..k + 1][..k] == s[..k];
  }

  /** A body that gets longer than `n` is exactly that long at some point. */
  lemma {:induction false} Between(r: Receiver, s: seq<bv8>, k: nat, n: nat) returns (m: nat)
    requires k <= |s| && |r.body| <= n <= |Feed(r, s[..k]).body|
    ensures m <= k && |Feed(r, s[..m]).body| == n
  {
    if |Feed(r, s[..k]).body| == n {
      m := k;
    } else {
      OneMoreAtMost(r, s, k - 1);
      m := Between(r, s, k - 1, n);
    }
  }

  lemma FeedFlag(frames: seq<seq<bv8>>)
    ensures Feed(Clean(frames), [FLAG]) == Clean(frames)
  {
    FeedOne(Clean(frames), FLAG);
  }

  /** Exactly which frames a clean deframer has room for: bodies of at most 2047 octets. */
  lemma FitsIff(body: seq<bv8>, frames: seq<seq<bv8>>)
    requires 2 <= |body|
    ensures (forall k | 0 <= k <= |OnWire(Framed(body))| :: |Feed(Clean(frames), OnWire(Framed(body))[..k]).body| < MAX_PACKET)
            <==> |body| < MAX_PACKET
  {
    hide Special, Flip, OnWire, Framed, Octet;
    var wire := OnWire(Framed(body));
    FramedOnWire(body);
    if |body| < MAX_PACKET {
      forall k | 0 <= k <= |wire|
        ensures |Feed(Clean(frames), wire[..k]).body| < MAX_PACKET
      {
        FramePrefixFits(body, frames, k);
      }
    } else {
      var k := 1 + |Stuff(body)|;
      assert wire[..k] == [FLAG] + Stuff(body);
      FeedConcat(Clean(frames), [FLAG], Stuff(body));
      FeedFlag(frames);
      FeedStuffed(body, frames);
      var m := Between(Clean(frames), wire, k, MAX_PACKET);
    }
  }

  // ---------- Control frames ----------

  function CtlBody(code: bv16, payload: seq<bv8>): seq<bv8> {
    var covered := [ADDRESS, CONTROL, Fcs.LowOctet(code), Fcs.HighOctet(code)] + payload;
    covered + Fcs.Trailer(covered)
  }

  lemma Enclosed(p: seq<bv8>, len: nat, covered: seq<bv8>)
    requires 8 <= len <= |p| && p[0] == FLAG && p[len - 1] == FLAG && p[1..len - 3] == covered
    ensures p[..len] == [FLAG] + (covered + [p[len - 3], p[len - 2]]) + [FLAG]
  {
    var q := [FLAG] + (covered + [p[len - 3], p[len - 2]]) + [FLAG];
    forall i | 0 <= i < len
      ensures p[..len][i] == q[i]
    {
      if 1 <= i < len - 3 {
        assert q[i] == covered[i - 1] == p[1..len - 3][i - 1] == p[i];
      }
    }
  }

  /** `pico_ppp_ctl_send`: the payload is in place at offset 5, the rest is filled in. */
  method CtlSend(code: bv16, pkt: array<bv8>, len: nat) returns (out: array<bv8>, n: nat)
    requires 8 <= len <= pkt.Length
    modifies pkt
    ensures n <= out.Length
    ensures out[..n] == OnWire(Framed(CtlBody(code, old(pkt[5..len - 3]))))
  {
    hide Special, Flip, Fcs.LowOctet, Fcs.HighOctet, OnWire, Fcs.Fold, Fcs.Finish;
    ghost var payload := pkt[5..len - 3];
    pkt[0] := FLAG;
    pkt[1] := ADDRESS;
    pkt[2] := CONTROL;
    pkt[3] := Fcs.LowOctet(code);
    pkt[4] := Fcs.HighOctet(code);
    ghost var covered := pkt[1..len - 3];
    assert covered == [ADDRESS, CONTROL, Fcs.LowOctet(code), Fcs.HighOctet(code)] + payload;
    var fcs := Fcs.Continue(Fcs.INITIAL, pkt, 1, len - 4);
    fcs := Fcs.Finish(fcs);
    pkt[len - 3] := Fcs.LowOctet(fcs);
    pkt[len - 2] := Fcs.HighOctet(fcs);
    pkt[len - 1] := FLAG;
    assert pkt[1..len - 3] == covered;
    Enclosed(pkt[..], len, covered);
    assert pkt[..][..len] == pkt[..len];
    out, n := SendEscaped(pkt, len);
  }

  /** What `ppp_process_packet` passes on for a frame that is handed over. */
  datatype Outcome = Dropped | Payload(data: seq<bv8>)

  function Process(frame: seq<bv8>): Outcome
    requires 4 <= |frame|
  {
    if !Fcs.Passes(frame) then Dropped
    else if frame[0] == ADDRESS && frame[1] == CONTROL then Payload(frame[2..|frame| - 2])
    else Payload(frame[..|frame| - 2])
  }

  /** Every control frame the driver builds passes the check of the peer's driver, which then
      dispatches on exactly the protocol number and payload that were sent. */
  lemma CtlDelivered(code: bv16, payload: seq<bv8>, states: seq<Receiver>, cuts: seq<nat>, frames: seq<seq<bv8>>)
    requires |payload| + 6 < MAX_PACKET
    requires PolledThrough(states, cuts, WireOf([CtlBody(code, payload)])) && states[0] == Clean(frames)
    ensures states[|states| - 1] == Clean(frames + [CtlBody(code, payload)])
    ensures forall i | 0 <= i < |states| :: |states[i].body| < MAX_PACKET
    ensures Process(CtlBody(code, payload)) == Payload([Fcs.LowOctet(code), Fcs.HighOctet(code)] + payload)
  {
    hide Special, Flip, Fcs.LowOctet, Fcs.HighOctet, OnWire, Framed, Fcs.Trailer, Fcs.Passes, Feed, PolledThrough, WireOf;
    var covered := [ADDRESS, CONTROL, Fcs.LowOctet(code), Fcs.HighOctet(code)] + payload;
    PolledRoundTrip([CtlBody(code, payload)], states, cuts, frames);
    Fcs.PassesIffTrailer(covered, Fcs.Trailer(covered));
    assert CtlBody(code, payload)[2..|CtlBody(code, payload)| - 2] == [Fcs.LowOctet(code), Fcs.HighOctet(code)] + payload;
  }
}
