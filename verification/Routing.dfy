/** The IPv4 routes and links: which route is found, and what adding and deleting keep. Addresses
    and masks are words as they are in memory, in network order on a little-endian host. */
module Routing {
  import opened Wrappers

  /** A 32-bit word. */
  type Word = n: int | 0 <= n < 0x1_0000_0000

  const ANY: Word := 0
  const BROADCAST: Word := 0xFFFF_FFFF

  /** Swaps the octets (`long_be`). */
  function LongBe(x: Word): Word {
    x % 0x100 * 0x100_0000 + x / 0x100 % 0x100 * 0x1_0000 + x / 0x1_0000 % 0x100 * 0x100 + x / 0x100_0000
  }

  function Masked(a: Word, m: Word): Word {
    (a as bv32 & m as bv32) as int
  }

  // ---------- Masks ----------

  /** The bits of a mask in host order, the highest first. */
  predicate Bit(m: Word, i: nat)
    requires i < 32
  {
    (m as bv32 << i) & 0x8000_0000 != 0
  }

  ghost predicate Contiguous(m: Word, n: nat) {
    n <= 32 && forall i | 0 <= i < 32 :: Bit(m, i) <==> i < n
  }

  /** `pico_ipv4_valid_netmask`: the length of a mask, of exactly those whose ones all come before
      their zeros. */
  method ValidNetmask(mask: Word) returns (r: int)
    ensures r >= 0 ==> Contiguous(LongBe(mask), r)
    ensures r < 0 ==> r == -1 && forall n :: !Contiguous(LongBe(mask), n)
  {
    hide Bit, LongBe;
    var swapped := LongBe(mask);
    var cnt, end, i := 0, false, 0;
    while i < 32
      invariant 0 <= cnt <= i <= 32 && (end <==> cnt < i)
      invariant forall j | 0 <= j < i :: Bit(swapped, j) <==> j < cnt
    {
      if Bit(swapped, i) {
        if end {
          assert !Bit(swapped, cnt);
          return -1;
        }
        cnt := cnt + 1;
      } else {
        end := true;
      }
      i := i + 1;
    }
    r := cnt;
  }

  // ---------- Links and routes ----------

  /** A link; `id` tells it from one that was there before with the same address. */
  datatype Link = Link(id: nat, dev: nat, address: Word, netmask: Word)

  datatype Route = Route(dest: Word, netmask: Word, gateway: Word, metric: nat, link: Link)

  /** `ipv4_link_compare`: the device counts for the unspecified address alone. */
  predicate SameLink(a: Word, aDev: nat, b: Word, bDev: nat) {
    a == b && (a == ANY && aDev != 0 && bDev != 0 ==> aDev == bDev)
  }

  function Host(m: Word): Word {
    LongBe(m)
  }

  /** `ipv4_route_compare`: by the mask in host order, the destination, and the metric. */
  function RouteCompare(a: Route, b: Route): int {
    if Host(a.netmask) < Host(b.netmask) then -1
    else if Host(b.netmask) < Host(a.netmask) then 1
    else if a.dest < b.dest then -1
    else if b.dest < a.dest then 1
    else if a.metric < b.metric then -1
    else if a.metric > b.metric then 1
    else 0
  }

  lemma CompareFlips(a: Route, b: Route)
    ensures RouteCompare(a, b) < 0 <==> RouteCompare(b, a) > 0
    ensures RouteCompare(a, b) == 0 <==> RouteCompare(b, a) == 0
  {
  }

  lemma CompareTransitive(a: Route, b: Route, c: Route)
    ensures RouteCompare(a, b) <= 0 && RouteCompare(b, c) < 0 ==> RouteCompare(a, c) < 0
    ensures RouteCompare(a, b) < 0 && RouteCompare(b, c) <= 0 ==> RouteCompare(a, c) < 0
  {
    hide LongBe;
  }

  lemma MasksInOrder(a: Route, b: Route)
    requires RouteCompare(a, b) <= 0
    ensures Host(a.netmask) <= Host(b.netmask)
  {
    hide LongBe;
  }

  ghost predicate Sorted(rs: seq<Route>) {
    forall i, j | 0 <= i < j < |rs| :: RouteCompare(rs[i], rs[j]) < 0
  }

  function Insert(rs: seq<Route>, r: Route): Option<seq<Route>> {
    if rs == [] || RouteCompare(r, rs[0]) < 0 then Some([r] + rs)
    else if RouteCompare(r, rs[0]) == 0 then None
    else
      match Insert(rs[1..], r)
      case None => None
      case Some(t) => Some([rs[0]] + t)
  }

  lemma {:induction false} InsertSorted(rs: seq<Route>, r: Route)
    requires Sorted(rs)
    ensures match Insert(rs, r)
            case None => exists q :: q in rs && RouteCompare(r, q) == 0
            case Some(t) => Sorted(t) && forall q :: q in t <==> q in rs || q == r
  {
    hide RouteCompare;
    if rs != [] {
      assert rs == [rs[0]] + rs[1..];
      CompareFlips(r, rs[0]);
      if RouteCompare(r, rs[0]) < 0 {
        forall j | 0 <= j < |rs|
          ensures RouteCompare(r, rs[j]) < 0
        {
          CompareTransitive(r, rs[0], rs[j]);
        }
      } else if RouteCompare(r, rs[0]) > 0 {
        InsertSorted(rs[1..], r);
        match Insert(rs[1..], r)
        case None =>
          var q :| q in rs[1..] && RouteCompare(r, q) == 0;
          assert q in rs;
        case Some(t) =>
          forall i | 0 <= i < |t|
            ensures RouteCompare(rs[0], t[i]) < 0
          {
            assert t[i] in t;
          }
      }
    }
  }

  predicate HasKey(r: Route, dest: Word, netmask: Word, metric: nat) {
    r.dest == dest && r.netmask == netmask && r.metric == metric
  }

  /** The routes for which `keep` holds, in their order. */
  function Kept(rs: seq<Route>, keep: Route -> bool): seq<Route> {
    if rs == [] then [] else (if keep(rs[0]) then [rs[0]] else []) + Kept(rs[1..], keep)
  }

  function WithoutKey(rs: seq<Route>, dest: Word, netmask: Word, metric: nat): seq<Route> {
    Kept(rs, r => !HasKey(r, dest, netmask, metric))
  }

  function WithoutLink(rs: seq<Route>, l: Link): seq<Route> {
    Kept(rs, (r: Route) => r.link != l)
  }

  /** Leaving some out keeps the order. */
  lemma {:induction false} KeptSorted(rs: seq<Route>, keep: Route -> bool)
    requires Sorted(rs)
    ensures Sorted(Kept(rs, keep))
    ensures forall r :: r in Kept(rs, keep) <==> r in rs && keep(r)
  {
    hide RouteCompare;
    if rs != [] {
      KeptSorted(rs[1..], keep);
      assert rs == [rs[0]] + rs[1..];
      var t := Kept(rs[1..], keep);
      forall i | 0 <= i < |t|
        ensures RouteCompare(rs[0], t[i]) < 0
      {
        assert t[i] in t && t[i] in rs[1..];
      }
    }
  }

  lemma {:induction false} KeptSplits(x: seq<Route>, y: seq<Route>, keep: Route -> bool)
    ensures Kept(x + y, keep) == Kept(x, keep) + Kept(y, keep)
  {
    if x == [] {
      assert x + y == y;
    } else {
      var first := if keep(x[0]) then [x[0]] else [];
      KeptSplits(x[1..], y, keep);
      assert (x + y)[0] == x[0] && (x + y)[1..] == x[1..] + y;
      assert first + (Kept(x[1..], keep) + Kept(y, keep)) == (first + Kept(x[1..], keep)) + Kept(y, keep);
    }
  }

  lemma {:induction false} KeptAll(x: seq<Route>, keep: Route -> bool)
    requires forall q | q in x :: keep(q)
    ensures Kept(x, keep) == x
  {
    if x != [] {
      assert x[0] in x;
      KeptAll(x[1..], keep);
      assert x == [x[0]] + x[1..];
    }
  }

  lemma KeptOne(r: Route, keep: Route -> bool)
    ensures Kept([r], keep) == if keep(r) then [r] else []
  {
    assert [r][1..] == [];
  }

  // ---------- The tables ----------

  datatype Tables = Tables(routes: seq<Route>, links: seq<Link>, bcast: Option<Link>, mcast: Option<Link>, nextId: nat)

  const EMPTY: Tables := Tables([], [], None, None, 0)

  ghost predicate LiveOrNull(l: Option<Link>, s: Tables) {
    l.Some? ==> l.value in s.links
  }

  /** Every route goes over a link that is there, and the default links are there or null. */
  ghost predicate Sound(s: Tables) {
    && Sorted(s.routes)
    && (forall r | r in s.routes :: r.link in s.links)
    && LiveOrNull(s.bcast, s) && LiveOrNull(s.mcast, s)
    && (forall l | l in s.links :: l.id < s.nextId)
    && (forall i, j | 0 <= i < j < |s.links| :: s.links[i].id != s.links[j].id)
  }

  predicate Matches(a: Word, r: Route) {
    Masked(a, r.netmask) == r.dest
  }

  /** The last route in the order that matches. */
  function LastMatch(rs: seq<Route>, a: Word): Option<Route> {
    if rs == [] then None
    else if Matches(a, rs[|rs| - 1]) then Some(rs[|rs| - 1])
    else LastMatch(rs[..|rs| - 1], a)
  }

  /** Where a packet goes: the gateway, null for a neighbour, and the link. */
  datatype Way = Way(gateway: Word, link: Option<Link>)

  /** `route_find`. */
  function RouteFind(s: Tables, a: Word): Option<Way> {
    if a == ANY then None
    else if a == BROADCAST then Some(Way(ANY, s.bcast))
    else
      match LastMatch(s.routes, a)
      case None => None
      case Some(r) => Some(Way(r.gateway, Some(r.link)))
  }

  /** The route that is found has the longest mask of those that match, and one is found when any
      matches. */
  lemma {:induction false} LongestMatch(rs: seq<Route>, a: Word)
    requires Sorted(rs)
    ensures match LastMatch(rs, a)
            case None => forall r | r in rs :: !Matches(a, r)
            case Some(r) =>
              && r in rs && Matches(a, r)
              && forall q | q in rs && Matches(a, q) :: Host(q.netmask) <= Host(r.netmask)
  {
    hide RouteCompare, Host, Matches;
    if rs != [] {
      var n := |rs| - 1;
      assert rs == rs[..n] + [rs[n]];
      LongestMatch(rs[..n], a);
      forall q | q in rs
        ensures Host(q.netmask) <= Host(rs[n].netmask)
      {
        var i :| 0 <= i < |rs| && rs[i] == q;
        if i < n {
          MasksInOrder(rs[i], rs[n]);
        }
      }
    }
  }

  predicate FindKey(rs: seq<Route>, dest: Word, netmask: Word, metric: nat) {
    exists r :: r in rs && HasKey(r, dest, netmask, metric)
  }

  /** `pico_ipv4_route_add`. */
  function RouteAdd(s: Tables, dest: Word, netmask: Word, gateway: Word, metric: nat, link: Option<Link>): (Tables, bool) {
    if FindKey(s.routes, dest, netmask, metric) then (s, false)
    else
      var way := if gateway == ANY then Some(Way(ANY, link)) else RouteFind(s, gateway);
      if way.None? || way.value.gateway != ANY || way.value.link.None? then (s, false)
      else
        match Insert(s.routes, Route(dest, netmask, gateway, metric, way.value.link.value))
        case None => (s, false)
        case Some(rs) => (s.(routes := rs), true)
  }

  /** `pico_ipv4_route_del`. */
  function RouteDel(s: Tables, dest: Word, netmask: Word, metric: nat): (Tables, bool) {
    if FindKey(s.routes, dest, netmask, metric) then
      (s.(routes := WithoutKey(s.routes, dest, netmask, metric)), true)
    else (s, false)
  }

  const MCAST_NETWORK: Word := 0x0000_00E0
  const MCAST_NETMASK: Word := 0x0000_00F0

  /** The link that `ipv4_link_compare` takes for equal. */
  function FindLink(links: seq<Link>, address: Word, dev: nat): (l: Option<Link>)
    ensures l.Some? ==> l.value in links && SameLink(address, dev, l.value.address, l.value.dev)
    ensures l.None? ==> forall k | k in links :: !SameLink(address, dev, k.address, k.dev)
  {
    if links == [] then None
    else if SameLink(address, dev, links[0].address, links[0].dev) then Some(links[0])
    else FindLink(links[1..], address, dev)
  }

  /** `pico_ipv4_link_add`, for a device that is not null. */
  function LinkAdd(s: Tables, dev: nat, address: Word, netmask: Word): (Tables, bool) {
    if dev == 0 || FindLink(s.links, address, dev).Some? then (s, false)
    else
      var l := Link(s.nextId, dev, address, netmask);
      var s1 := s.(links := s.links + [l], nextId := s.nextId + 1);
      var s2 := if s1.mcast.None? then
                  RouteAdd(s1.(mcast := Some(l)), MCAST_NETWORK, MCAST_NETMASK, ANY, 1, Some(l)).0
                else s1;
      var s3 := RouteAdd(s2, Masked(address, netmask), netmask, ANY, 1, Some(l)).0;
      (if s3.bcast.None? then s3.(bcast := Some(l)) else s3, true)
  }

  function Remove(links: seq<Link>, l: Link): seq<Link> {
    if links == [] then [] else if links[0] == l then links[1..] else [links[0]] + Remove(links[1..], l)
  }

  /** `pico_ipv4_link_del`. */
  function LinkDel(s: Tables, dev: nat, address: Word): (Tables, bool) {
    if dev == 0 then (s, false)
    else
      match FindLink(s.links, address, dev)
      case None => (s, false)
      case Some(l) =>
        var s1 := if s.mcast == Some(l) then RouteDel(s.(mcast := None), MCAST_NETWORK, MCAST_NETMASK, 1).0 else s;
        var s2 := s1.(routes := WithoutLink(s1.routes, l), links := Remove(s1.links, l));
        (if s2.bcast == Some(l) then s2.(bcast := None) else s2, true)
  }

  // ---------- Runs ----------

  datatype Event =
    | AddLink(dev: nat, address: Word, netmask: Word)
    | DelLink(dev: nat, address: Word)
    | AddRoute(dest: Word, netmask: Word, gateway: Word, metric: nat, link: Option<Link>)
    | DelRoute(dest: Word, netmask: Word, metric: nat)
    | SetBroadcast(link: Option<Link>)

  /** Callers pass links that are there, or null. */
  ghost predicate Allowed(s: Tables, e: Event) {
    match e
    case AddRoute(_, _, _, _, l) => LiveOrNull(l, s)
    case SetBroadcast(l) => LiveOrNull(l, s)
    case _ => true
  }

  function Step(s: Tables, e: Event): Tables {
    match e
    case AddLink(dev, address, netmask) => LinkAdd(s, dev, address, netmask).0
    case DelLink(dev, address) => LinkDel(s, dev, address).0
    case AddRoute(dest, netmask, gateway, metric, l) => RouteAdd(s, dest, netmask, gateway, metric, l).0
    case DelRoute(dest, netmask, metric) => RouteDel(s, dest, netmask, metric).0
    case SetBroadcast(l) => if l.Some? then s.(bcast := l) else s
  }

  ghost predicate IsRun(s: Tables, events: seq<Event>, t: Tables)
    decreases |events|
  {
    if events == [] then t == s
    else Allowed(s, events[0]) && IsRun(Step(s, events[0]), events[1..], t)
  }

  lemma RouteAddKeeps(s: Tables, dest: Word, netmask: Word, gateway: Word, metric: nat, link: Option<Link>)
    requires Sound(s) && LiveOrNull(link, s)
    ensures var t := RouteAdd(s, dest, netmask, gateway, metric, link).0;
            Sound(t) && t.links == s.links && t.nextId == s.nextId && t.bcast == s.bcast && t.mcast == s.mcast
  {
    hide RouteCompare, LongBe, Matches, Insert;
    LongestMatch(s.routes, gateway);
    var way := if gateway == ANY then Some(Way(ANY, link)) else RouteFind(s, gateway);
    if way.Some? && way.value.link.Some? {
      InsertSorted(s.routes, Route(dest, netmask, gateway, metric, way.value.link.value));
    }
  }

  lemma RouteDelKeeps(s: Tables, dest: Word, netmask: Word, metric: nat)
    requires Sound(s)
    ensures var t := RouteDel(s, dest, netmask, metric).0;
            Sound(t) && t.links == s.links && t.nextId == s.nextId && t.bcast == s.bcast && t.mcast == s.mcast
  {
    hide RouteCompare, Kept;
    KeptSorted(s.routes, r => !HasKey(r, dest, netmask, metric));
  }

  lemma LinkAddKeeps(s: Tables, dev: nat, address: Word, netmask: Word)
    requires Sound(s)
    ensures Sound(LinkAdd(s, dev, address, netmask).0)
  {
    hide RouteAdd, Sorted, Masked;
    if dev != 0 && FindLink(s.links, address, dev).None? {
      var l := Link(s.nextId, dev, address, netmask);
      var s1 := s.(links := s.links + [l], nextId := s.nextId + 1);
      assert forall k | k in s.links :: k in s1.links;
      assert l in s1.links;
      assert Sound(s1);
      var s2 := s1;
      if s1.mcast.None? {
        RouteAddKeeps(s1.(mcast := Some(l)), MCAST_NETWORK, MCAST_NETMASK, ANY, 1, Some(l));
        s2 := RouteAdd(s1.(mcast := Some(l)), MCAST_NETWORK, MCAST_NETMASK, ANY, 1, Some(l)).0;
      }
      RouteAddKeeps(s2, Masked(address, netmask), netmask, ANY, 1, Some(l));
    }
  }

  lemma {:induction false} RemoveOne(links: seq<Link>, l: Link)
    requires l in links && forall i, j | 0 <= i < j < |links| :: links[i].id != links[j].id
    ensures var t := Remove(links, l);
            && (forall k :: k in t <==> k in links && k != l)
            && (forall i, j | 0 <= i < j < |t| :: t[i].id != t[j].id)
  {
    assert links == [links[0]] + links[1..];
    if links[0] != l {
      RemoveOne(links[1..], l);
      var t := Remove(links[1..], l);
      forall i | 0 <= i < |t|
        ensures links[0].id != t[i].id
      {
        assert t[i] in t && t[i] in links[1..];
      }
    } else {
      assert forall k | k in links[1..] :: k.id != links[0].id;
    }
  }

  lemma LinkDelKeeps(s: Tables, dev: nat, address: Word)
    requires Sound(s)
    ensures Sound(LinkDel(s, dev, address).0)
  {
    hide RouteDel, Kept, Sorted, Remove;
    if dev != 0 && FindLink(s.links, address, dev).Some? {
      var l := FindLink(s.links, address, dev).value;
      var s1 := s;
      if s.mcast == Some(l) {
        RouteDelKeeps(s.(mcast := None), MCAST_NETWORK, MCAST_NETMASK, 1);
        s1 := RouteDel(s.(mcast := None), MCAST_NETWORK, MCAST_NETMASK, 1).0;
      }
      KeptSorted(s1.routes, (r: Route) => r.link != l);
      RemoveOne(s1.links, l);
    }
  }

  lemma StepKeeps(s: Tables, e: Event)
    requires Sound(s) && Allowed(s, e)
    ensures Sound(Step(s, e))
  {
    hide LinkAdd, LinkDel, RouteAdd, RouteDel, Sorted;
    match e
    case AddLink(dev, address, netmask) => LinkAddKeeps(s, dev, address, netmask);
    case DelLink(dev, address) => LinkDelKeeps(s, dev, address);
    case AddRoute(dest, netmask, gateway, metric, l) => RouteAddKeeps(s, dest, netmask, gateway, metric, l);
    case DelRoute(dest, netmask, metric) => RouteDelKeeps(s, dest, netmask, metric);
    case SetBroadcast(l) =>
  }

  /** On every run the routes and the default links stay on links that are there. */
  lemma {:induction false} RunKeeps(s: Tables, events: seq<Event>, t: Tables)
    requires Sound(s) && IsRun(s, events, t)
    ensures Sound(t)
    decreases |events|
  {
    hide Step, Sound, Allowed;
    if events != [] {
      StepKeeps(s, events[0]);
      RunKeeps(Step(s, events[0]), events[1..], t);
    }
  }

  // ---------- In place ----------

  lemma NothingPassed(all: seq<Route>, l: Link)
    ensures WithoutLink(all[..0], l) == [] && [] + all[0..] == all
  {
  }

  /** What is kept of one route more. */
  lemma NextPassed(all: seq<Route>, i: nat, l: Link)
    requires i < |all|
    ensures var kept := WithoutLink(all[..i], l);
            && WithoutLink(all[..i + 1], l) == (if all[i].link == l then kept else kept + [all[i]])
            && kept + all[i..] == kept + [all[i]] + all[i + 1..]
  {
    hide Kept;
    var keep := (r: Route) => r.link != l;
    assert all[..i + 1] == all[..i] + [all[i]];
    KeptSplits(all[..i], [all[i]], keep);
    KeptOne(all[i], keep);
    assert all[i..] == [all[i]] + all[i + 1..];
  }

  lemma OtherKeys(all: seq<Route>, i: nat)
    requires i < |all| && Sorted(all)
    ensures forall q | q in all[..i] || q in all[i + 1..] :: !HasKey(q, all[i].dest, all[i].netmask, all[i].metric)
  {
    var r := all[i];
    forall q | q in all[..i] || q in all[i + 1..]
      ensures !HasKey(q, r.dest, r.netmask, r.metric)
    {
      var j :| 0 <= j < |all| && j != i && all[j] == q;
      assert RouteCompare(q, r) != 0 || RouteCompare(r, q) != 0;
    }
  }

  /** Deleting by the key of the route at `i` deletes that route alone. */
  lemma OnlyOneKey(all: seq<Route>, i: nat, l: Link)
    requires i < |all| && Sorted(all)
    ensures var r, kept := all[i], WithoutLink(all[..i], l);
            && FindKey(kept + all[i..], r.dest, r.netmask, r.metric)
            && WithoutKey(kept + all[i..], r.dest, r.netmask, r.metric) == kept + all[i + 1..]
  {
    hide Kept;
    var r, kept, rest := all[i], WithoutLink(all[..i], l), all[i + 1..];
    var keep := (q: Route) => !HasKey(q, r.dest, r.netmask, r.metric);
    assert all[i..] == [r] + rest;
    assert r in kept + all[i..] && HasKey(r, r.dest, r.netmask, r.metric);
    KeptSorted(all[..i], (q: Route) => q.link != l);
    OtherKeys(all, i);
    KeptSplits(kept, [r] + rest, keep);
    KeptSplits([r], rest, keep);
    KeptOne(r, keep);
    KeptAll(kept, keep);
    KeptAll(rest, keep);
  }

  /** The trees of routes and links, and the default links. */
  class Router {
    var routes: seq<Route>
    var links: seq<Link>
    var bcast: Option<Link>
    var mcast: Option<Link>
    var nextId: nat

    ghost function Now(): Tables
      reads this
    {
      Tables(routes, links, bcast, mcast, nextId)
    }

    constructor ()
      ensures Now() == EMPTY && Sound(Now())
    {
      routes, links, bcast, mcast, nextId := [], [], None, None, 0;
    }

    /** `route_find`: from the last route to the first. */
    method Find(a: Word) returns (way: Option<Way>)
      ensures way == RouteFind(Now(), a)
    {
      if a == ANY {
        return None;
      }
      if a == BROADCAST {
        return Some(Way(ANY, bcast));
      }
      var i := |routes|;
      assert routes[..i] == routes;
      while i > 0
        invariant 0 <= i <= |routes| && LastMatch(routes[..i], a) == LastMatch(routes, a)
      {
        assert routes[..i][..i - 1] == routes[..i - 1];
        if Matches(a, routes[i - 1]) {
          return Some(Way(routes[i - 1].gateway, Some(routes[i - 1].link)));
        }
        i := i - 1;
      }
      way := None;
    }

    /** `pico_ipv4_route_add`. */
    method AddARoute(dest: Word, netmask: Word, gateway: Word, metric: nat, link: Option<Link>) returns (ok: bool)
      modifies this
      ensures (Now(), ok) == RouteAdd(old(Now()), dest, netmask, gateway, metric, link)
    {
      hide Insert, RouteFind;
      if FindKey(routes, dest, netmask, metric) {
        return false;
      }
      var over := link;
      if gateway != ANY {
        var way := Find(gateway);
        if way.None? || way.value.gateway != ANY {
          return false;
        }
        over := way.value.link;
      }
      if over.None? {
        return false;
      }
      match Insert(routes, Route(dest, netmask, gateway, metric, over.value))
      case None => ok := false;
      case Some(rs) =>
        routes := rs;
        ok := true;
    }

    /** `pico_ipv4_route_del`. */
    method DeleteRoute(dest: Word, netmask: Word, metric: nat) returns (ok: bool)
      modifies this`routes
      ensures (Now(), ok) == RouteDel(old(Now()), dest, netmask, metric)
    {
      ok := FindKey(routes, dest, netmask, metric);
      if ok {
        routes := WithoutKey(routes, dest, netmask, metric);
      }
    }

    /** `pico_ipv4_link_add`. */
    method AddALink(dev: nat, address: Word, netmask: Word) returns (ok: bool)
      modifies this
      ensures (Now(), ok) == LinkAdd(old(Now()), dev, address, netmask)
    {
      hide RouteAdd, Masked;
      if dev == 0 || FindLink(links, address, dev).Some? {
        return false;
      }
      var l := Link(nextId, dev, address, netmask);
      links, nextId := links + [l], nextId + 1;
      if mcast.None? {
        mcast := Some(l);
        var _ := AddARoute(MCAST_NETWORK, MCAST_NETMASK, ANY, 1, Some(l));
      }
      var _ := AddARoute(Masked(address, netmask), netmask, ANY, 1, Some(l));
      if bcast.None? {
        bcast := Some(l);
      }
      ok := true;
    }

    /** `pico_ipv4_cleanup_routes`: each route over `l` is deleted by its key. */
    method CleanupRoutes(l: Link)
      requires Sorted(routes)
      modifies this`routes
      ensures routes == WithoutLink(old(routes), l)
    {
      hide RouteCompare, Kept, WithoutLink, Sorted;
      var i, all := 0, routes;
      ghost var kept := [];
      NothingPassed(all, l);
      while i < |all|
        invariant 0 <= i <= |all| && routes == kept + all[i..] && kept == WithoutLink(all[..i], l)
      {
        var r := all[i];
        NextPassed(all, i, l);
        if r.link == l {
          OnlyOneKey(all, i, l);
          var _ := DeleteRoute(r.dest, r.netmask, r.metric);
        } else {
          kept := kept + [r];
        }
        i := i + 1;
      }
      assert all[..i] == all;
    }

    /** `pico_ipv4_link_del`. */
    method DeleteLink(dev: nat, address: Word) returns (ok: bool)
      requires Sound(Now())
      modifies this
      ensures (Now(), ok) == LinkDel(old(Now()), dev, address)
    {
      hide RouteDel, RouteCompare;
      if dev == 0 {
        return false;
      }
      match FindLink(links, address, dev)
      case None => return false;
      case Some(l) =>
        if mcast == Some(l) {
          mcast := None;
          RouteDelKeeps(Now(), MCAST_NETWORK, MCAST_NETMASK, 1);
          var _ := DeleteRoute(MCAST_NETWORK, MCAST_NETMASK, 1);
        }
        CleanupRoutes(l);
        links := Remove(links, l);
        if bcast == Some(l) {
          bcast := None;
        }
        ok := true;
    }
  }
}
