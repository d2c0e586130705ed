/** The binary heap of include/heap.h: elements 1..n in an array that is kept in blocks and
    grown one element at a time. */
module TimerHeap {
  /** An element: the field it is ordered by, and the rest; zero stands for a timer that is
      cancelled. */
  datatype Elem = Elem(key: nat, payload: int)

  /** What a callback may do: start a timer, for which there may be memory, or cancel one. */
  datatype Act = Start(el: Elem, memory: bool) | Cancel(id: int)

  const MAX_BLOCK_COUNT: nat := 16

  // ---------- Heaps as sequences; index 0 is not used ----------

  ghost predicate Ordered(c: seq<Elem>, n: nat)
    requires n < |c|
  {
    forall j | 2 <= j <= n :: c[j / 2].key <= c[j].key
  }

  /** The elements at 1..n. */
  ghost function Contents(c: seq<Elem>, n: nat): multiset<Elem>
    requires n < |c| || n == 0
  {
    if n == 0 then multiset{} else multiset(c[1..n + 1])
  }

  ghost predicate IsMin(e: Elem, m: multiset<Elem>) {
    e in m && forall x | x in m :: e.key <= x.key
  }

  lemma {:induction false} RootLeads(c: seq<Elem>, n: nat, j: nat)
    requires n < |c| && Ordered(c, n) && 1 <= j <= n
    ensures c[1].key <= c[j].key
  {
    if j > 1 {
      RootLeads(c, n, j / 2);
    }
  }

  lemma RootIsMin(c: seq<Elem>, n: nat)
    requires 1 <= n < |c| && Ordered(c, n)
    ensures IsMin(c[1], Contents(c, n))
  {
    forall x | x in c[1..n + 1]
      ensures c[1].key <= x.key
    {
      var j :| 1 <= j < n + 1 && c[j] == x;
      RootLeads(c, n, j);
    }
    assert c[1] == c[1..n + 1][0];
  }

  function Swap(c: seq<Elem>, i: nat, j: nat): seq<Elem>
    requires i < |c| && j < |c|
  {
    c[i := c[j]][j := c[i]]
  }

  /** Swapping is what moving `j` to `i` does, when `e` is waiting to be stored. */
  lemma SwapIsMove(s: seq<Elem>, i: nat, j: nat, e: Elem)
    requires i < |s| && j < |s| && i != j
    ensures Swap(s[i := e], j, i) == s[i := s[j]][j := e] == Swap(s[i := e], i, j)
  {
  }

  lemma SwapContents(c: seq<Elem>, n: nat, i: nat, j: nat)
    requires 1 <= i < j <= n < |c|
    ensures Contents(Swap(c, i, j), n) == Contents(c, n)
  {
    var d := Swap(c, i, j);
    assert c[1..n + 1] == c[1..i] + [c[i]] + c[i + 1..j] + [c[j]] + c[j + 1..n + 1];
    assert d[1..n + 1] == c[1..i] + [c[j]] + c[i + 1..j] + [c[i]] + c[j + 1..n + 1];
  }

  /** Adding one at the end. */
  lemma GrowContents(c: seq<Elem>, n: nat, e: Elem)
    requires n + 1 < |c|
    ensures Contents(c[n + 1 := e], n + 1) == Contents(c, n) + multiset{e}
  {
    assert c[n + 1 := e][1..n + 2] == c[1..n + 1] + [e];
  }

  /** Moving the last over the first. */
  lemma ShrinkContents(c: seq<Elem>, n: nat)
    requires 1 <= n < |c|
    ensures Contents(c[1 := c[n]], n - 1) == Contents(c, n) - multiset{c[1]}
  {
    if n == 1 {
      assert c[1..2] == [c[1]];
    } else {
      assert c[1..n + 1] == [c[1]] + c[2..n] + [c[n]];
      assert c[1 := c[n]][1..n] == [c[n]] + c[2..n];
    }
  }

  /** All in order but for the element at `i`, which may be too small for its parent. */
  ghost predicate RisingAt(c: seq<Elem>, n: nat, i: nat)
    requires n < |c| && 1 <= i <= n
  {
    && (forall j | 2 <= j <= n && j != i :: c[j / 2].key <= c[j].key)
    && (forall j | 2 <= j <= n && j / 2 == i && 2 <= i :: c[i / 2].key <= c[j].key)
  }

  lemma Rise(c: seq<Elem>, n: nat, i: nat)
    requires n < |c| && 2 <= i <= n && RisingAt(c, n, i) && c[i / 2].key > c[i].key
    ensures RisingAt(Swap(c, i / 2, i), n, i / 2)
  {
    var d, p := Swap(c, i / 2, i), i / 2;
    forall j | 2 <= j <= n && j != p
      ensures d[j / 2].key <= d[j].key
    {
      if j / 2 == i {
      } else if j / 2 == p {
      }
    }
    forall j | 2 <= j <= n && j / 2 == p && 2 <= p
      ensures d[p / 2].key <= d[j].key
    {
      assert c[p / 2].key <= c[p].key;
    }
  }

  /** All in order but for the element at `i`, which may be too large for its children. */
  ghost predicate SinkingAt(c: seq<Elem>, n: nat, i: nat)
    requires n < |c|
  {
    && (forall j | 2 <= j <= n && j / 2 != i :: c[j / 2].key <= c[j].key)
    && (forall j | 2 <= j <= n && j / 2 == i && 2 <= i :: c[i / 2].key <= c[j].key)
  }

  lemma Sink(c: seq<Elem>, n: nat, i: nat, child: nat)
    requires n < |c| && 1 <= i && (child == 2 * i || child == 2 * i + 1) && child <= n
    requires SinkingAt(c, n, i) && c[i].key > c[child].key
    requires forall j | 2 <= j <= n && j / 2 == i :: c[child].key <= c[j].key
    ensures SinkingAt(Swap(c, i, child), n, child)
  {
    var d := Swap(c, i, child);
    forall j | 2 <= j <= n && j / 2 != child
      ensures d[j / 2].key <= d[j].key
    {
      if j == i {
        assert c[i / 2].key <= c[child].key;
      }
    }
    forall j | 2 <= j <= n && j / 2 == child
      ensures d[child / 2].key <= d[j].key
    {
    }
  }

  lemma RiseDone(c: seq<Elem>, n: nat, i: nat)
    requires n < |c| && 1 <= i <= n && RisingAt(c, n, i)
    requires i == 1 || c[i / 2].key <= c[i].key
    ensures Ordered(c, n)
  {
  }

  lemma SinkStart(c: seq<Elem>, n: nat)
    requires n + 1 < |c| && Ordered(c, n + 1)
    ensures SinkingAt(c[1 := c[n + 1]], n, 1)
  {
  }

  lemma SinkDone(c: seq<Elem>, n: nat, i: nat)
    requires n < |c| && 1 <= i < |c| && SinkingAt(c, n, i)
    requires forall j | 2 <= j <= n && j / 2 == i :: c[i].key <= c[j].key
    ensures Ordered(c, n)
  {
  }

  // ---------- Index arithmetic ----------

  function Block(i: nat, per: nat): nat
    requires per > 0
  {
    i / per
  }

  function Offset(i: nat, per: nat): nat
    requires per > 0
  {
    i % per
  }

  lemma ProductNonNegative(x: nat, y: nat)
    ensures x * y >= 0
  {
  }

  lemma NextMultiple(per: nat, a: int, b: int)
    ensures a < b ==> per * a + per <= per * b
  {
    if a < b {
      ProductNonNegative(per, b - a - 1);
    }
  }

  lemma Divide(i: nat, per: nat)
    requires 0 < per
    ensures i == per * Block(i, per) + Offset(i, per) && Offset(i, per) < per
  {
  }

  lemma DivideUnique(i: nat, per: nat, q: nat, r: nat)
    requires 0 < per && i == per * q + r && r < per
    ensures Block(i, per) == q && Offset(i, per) == r
  {
    hide Block, Offset;
    Divide(i, per);
    NextMultiple(per, Block(i, per), q);
    NextMultiple(per, q, Block(i, per));
  }

  /** An index and the one after it. */
  lemma Successor(i: nat, per: nat)
    requires 0 < per
    ensures if Offset(i, per) + 1 < per
            then Block(i + 1, per) == Block(i, per) && Offset(i + 1, per) == Offset(i, per) + 1
            else Block(i + 1, per) == Block(i, per) + 1 && Offset(i + 1, per) == 0
  {
    hide Block, Offset;
    Divide(i, per);
    if Offset(i, per) + 1 < per {
      DivideUnique(i + 1, per, Block(i, per), Offset(i, per) + 1);
    } else {
      DivideUnique(i + 1, per, Block(i, per) + 1, 0);
    }
  }

  lemma Apart(i: nat, j: nat, per: nat)
    requires 0 < per
    ensures Block(i, per) == Block(j, per) && Offset(i, per) == Offset(j, per) ==> i == j
    ensures i < j && Block(i, per) == Block(j, per) ==> Offset(i, per) < Offset(j, per)
  {
    hide Block, Offset;
    Divide(i, per);
    Divide(j, per);
  }

  lemma BlockInRange(n: nat, per: nat)
    requires 0 < per && n + 1 <= per * MAX_BLOCK_COUNT
    ensures Block(n, per) < MAX_BLOCK_COUNT
  {
    hide Block, Offset;
    Divide(n, per);
    NextMultiple(per, MAX_BLOCK_COUNT - 1, Block(n, per));
  }

  // ---------- Keys ----------

  ghost function Pick(m: multiset<Elem>): (e: Elem)
    requires m != multiset{}
    ensures e in m
  {
    var e :| e in m;
    e
  }

  ghost function Keys(m: multiset<Elem>): multiset<nat>
    decreases |m|
  {
    if m == multiset{} then multiset{} else multiset{Pick(m).key} + Keys(m - multiset{Pick(m)})
  }

  lemma TakenBack<T>(a: multiset<T>, k: T)
    ensures (a + multiset{k}) - multiset{k} == a
  {
  }

  lemma PutBack<T>(a: multiset<T>, k: T)
    requires k in a
    ensures a == (a - multiset{k}) + multiset{k}
  {
  }

  lemma AllIn<T>(a: multiset<T>, b: multiset<T>, e: T)
    ensures (a + b) + multiset{e} == a + (b + multiset{e})
  {
  }

  lemma TakenOther<T>(m: multiset<T>, e: T, x: T)
    requires x in m + multiset{e} && x != e
    ensures x in m && (m + multiset{e}) - multiset{x} == (m - multiset{x}) + multiset{e}
  {
  }

  lemma KeysUnfolded(m: multiset<Elem>)
    requires m != multiset{}
    ensures Keys(m) == Keys(m - multiset{Pick(m)}) + multiset{Pick(m).key} && |m - multiset{Pick(m)}| < |m|
  {
  }

  lemma Exchanged<T>(a: multiset<T>, x: T, y: T)
    ensures (a + multiset{x}) + multiset{y} == (a + multiset{y}) + multiset{x}
  {
  }

  lemma {:induction false} KeysAdd(m: multiset<Elem>, e: Elem)
    ensures Keys(m + multiset{e}) == Keys(m) + multiset{e.key}
    decreases |m|
  {
    hide Keys;
    var x := Pick(m + multiset{e});
    KeysUnfolded(m + multiset{e});
    if x == e {
      TakenBack(m, e);
    } else {
      TakenOther(m, e, x);
      PutBack(m, x);
      var r := m - multiset{x};
      KeysAdd(r, e);
      KeysAdd(r, x);
      Exchanged(Keys(r), e.key, x.key);
    }
  }

  lemma KeysRemove(m: multiset<Elem>, e: Elem)
    requires e in m
    ensures Keys(m) == Keys(m - multiset{e}) + multiset{e.key} && e.key in Keys(m)
    ensures Keys(m) - multiset{e.key} == Keys(m - multiset{e})
  {
    hide Keys;
    PutBack(m, e);
    KeysAdd(m - multiset{e}, e);
    TakenBack(Keys(m - multiset{e}), e.key);
  }

  /** Replacing an element by one with its key. */
  lemma KeysReplace(m: multiset<Elem>, e: Elem, f: Elem)
    requires e in m && f.key == e.key
    ensures Keys((m - multiset{e}) + multiset{f}) == Keys(m)
  {
    hide Keys;
    KeysRemove(m, e);
    KeysAdd(m - multiset{e}, f);
  }

  lemma {:induction false} KeysWhose(m: multiset<Elem>, k: nat)
    requires k in Keys(m)
    ensures exists e :: e in m && e.key == k
    decreases |m|
  {
    var x := Pick(m);
    if x.key != k {
      KeysWhose(m - multiset{x}, k);
      var e :| e in m - multiset{x} && e.key == k;
      assert e in m;
    }
  }

  lemma Associated<T>(a: multiset<T>, b: multiset<T>, e: T)
    requires e in b
    ensures a + b == (a + (b - multiset{e})) + multiset{e}
  {
  }

  lemma {:induction false} KeysBoth(a: multiset<Elem>, b: multiset<Elem>)
    ensures Keys(a + b) == Keys(a) + Keys(b)
    decreases |b|
  {
    if b == multiset{} {
      assert a + b == a;
    } else {
      hide Keys;
      var e := Pick(b);
      KeysBoth(a, b - multiset{e});
      Associated(a, b, e);
      KeysAdd(a + (b - multiset{e}), e);
      KeysRemove(b, e);
    }
  }

  /** Of a balance, one element goes from one side of its place to another, and some come in. */
  lemma Balanced<T>(a: multiset<T>, p: multiset<T>, l: multiset<T>, s: multiset<T>, b: multiset<T>, m: multiset<T>, k: T)
    requires a + p == l + s && b + multiset{k} == a + m
    ensures b + (p + multiset{k}) == l + (s + m)
  {
    forall x: T
      ensures (b + (p + multiset{k}))[x] == (l + (s + m))[x]
    {
      assert (a + p)[x] == (l + s)[x] && (b + multiset{k})[x] == (a + m)[x];
    }
  }

  lemma LeftOver<T>(a: multiset<T>, l: multiset<T>, s: multiset<T>, b: multiset<T>, m: multiset<T>, k: T)
    requires a == l + s && b + multiset{k} == a + m && k in l
    ensures b == (l - multiset{k}) + (s + m)
  {
    forall x: T
      ensures b[x] == ((l - multiset{k}) + (s + m))[x]
    {
      assert a[x] == (l + s)[x] && (b + multiset{k})[x] == (a + m)[x];
    }
  }

  lemma InSeveral<T>(s: seq<T>, t: seq<T>, e: T)
    ensures multiset(s + t) == multiset(s) + multiset(t) && multiset(s + [e]) == multiset(s) + multiset{e}
  {
  }

  // ---------- Timers that start and cancel timers ----------

  ghost predicate NoCancel(acts: seq<Act>) {
    forall a | a in acts :: a.Start?
  }

  /** One element may have been cancelled. */
  ghost predicate Cancelled(before: multiset<Elem>, after: multiset<Elem>) {
    || after == before
    || exists e :: e in before && e.payload != 0 && after == (before - multiset{e}) + multiset{e.(payload := 0)}
  }

  /** Timers were started, and some may have been cancelled: no key is lost, and what is not
      cancelled was there or was started. */
  ghost predicate Changed(before: multiset<Elem>, started: seq<Elem>, after: multiset<Elem>) {
    && Keys(after) == Keys(before) + Keys(multiset(started))
    && forall e: Elem | e.payload != 0 :: after[e] <= before[e] + multiset(started)[e]
  }

  lemma OneAmong<T>(a: seq<T>, e: T, b: seq<T>)
    ensures multiset(a + [e] + b) == multiset(a + b) + multiset{e}
  {
    assert a + [e] + b == a + ([e] + b);
  }

  lemma Around(c: seq<Elem>, n: nat, i: nat, f: Elem)
    requires 1 <= i <= n < |c|
    ensures var s := c[1..n + 1];
            && s == s[..i - 1] + [c[i]] + s[i..] && c[i] in s
            && c[i := f][1..n + 1] == s[..i - 1] + [f] + s[i..]
  {
    assert c[1..n + 1][i - 1] == c[i];
  }

  lemma CancelledOne(c: seq<Elem>, n: nat, i: nat)
    requires 1 <= i <= n < |c| && c[i].payload != 0
    ensures Cancelled(Contents(c, n), Contents(c[i := c[i].(payload := 0)], n))
  {
    var s, e, f := c[1..n + 1], c[i], c[i].(payload := 0);
    var t := c[i := f][1..n + 1];
    Around(c, n, i, f);
    OneAmong(s[..i - 1], e, s[i..]);
    OneAmong(s[..i - 1], f, s[i..]);
    TakenBack(multiset(s[..i - 1] + s[i..]), e);
    assert multiset(t) == (multiset(s) - multiset{e}) + multiset{f};
    assert e in s;
  }

  lemma ChangedNone(m: multiset<Elem>)
    ensures Changed(m, [], m)
  {
  }

  lemma ChangedStart(before: multiset<Elem>, started: seq<Elem>, m: multiset<Elem>, el: Elem)
    requires Changed(before, started, m)
    ensures Changed(before, started + [el], m + multiset{el})
  {
    hide Keys;
    KeysAdd(m, el);
    KeysAdd(multiset(started), el);
    InSeveral(started, [], el);
    AllIn(Keys(before), Keys(multiset(started)), el.key);
  }

  lemma ChangedCancel(before: multiset<Elem>, started: seq<Elem>, m: multiset<Elem>, after: multiset<Elem>)
    requires Changed(before, started, m) && Cancelled(m, after)
    ensures Changed(before, started, after)
  {
    if after != m {
      var e :| e in m && e.payload != 0 && after == (m - multiset{e}) + multiset{e.(payload := 0)};
      KeysReplace(m, e, e.(payload := 0));
    }
  }

  lemma OneMore(before: multiset<Elem>, started: seq<Elem>, e: Elem)
    ensures (before + multiset(started)) + multiset{e} == before + multiset(started + [e])
  {
  }

  /** Of `all`, `popped` came first, sorted and below `now`; `present` is what there is, with what
      was started, none of it due. */
  ghost predicate InOrder(popped: seq<Elem>, started: seq<Elem>, present: multiset<Elem>, all: multiset<Elem>, now: nat) {
    && (forall i, j | 0 <= i <= j < |popped| :: popped[i].key <= popped[j].key)
    && (forall e | e in popped :: e.key < now) && (forall e | e in started :: now <= e.key)
    && (forall d, e | d in popped && e in present :: d.key <= e.key)
    && Keys(present) + Keys(multiset(popped)) == Keys(all) + Keys(multiset(started))
    && (forall e: Elem | e.payload != 0 :: present[e] + multiset(popped)[e] <= all[e] + multiset(started)[e])
  }

  /** The root `first` is removed behind its callback, which started `more`. */
  ghost predicate Fired(present: multiset<Elem>, first: Elem, more: seq<Elem>, after: multiset<Elem>) {
    && Keys(after) + multiset{first.key} == Keys(present) + Keys(multiset(more))
    && (forall e: Elem | e.payload != 0 :: after[e] + multiset{first}[e] <= present[e] + multiset(more)[e])
    && (forall e | e in after :: first.key <= e.key)
  }

  lemma SortedNext(popped: seq<Elem>, first: Elem)
    requires forall i, j | 0 <= i <= j < |popped| :: popped[i].key <= popped[j].key
    requires forall d | d in popped :: d.key <= first.key
    ensures forall i, j | 0 <= i <= j < |popped + [first]| :: (popped + [first])[i].key <= (popped + [first])[j].key
  {
    forall i, j | 0 <= i <= j < |popped + [first]|
      ensures (popped + [first])[i].key <= (popped + [first])[j].key
    {
      if i < j == |popped| {
        assert popped[i] in popped;
      }
    }
  }

  lemma KeysNext(popped: seq<Elem>, started: seq<Elem>, present: multiset<Elem>, all: multiset<Elem>,
                 first: Elem, more: seq<Elem>, after: multiset<Elem>)
    requires Keys(present) + Keys(multiset(popped)) == Keys(all) + Keys(multiset(started))
    requires Keys(after) + multiset{first.key} == Keys(present) + Keys(multiset(more))
    ensures Keys(after) + Keys(multiset(popped + [first])) == Keys(all) + Keys(multiset(started + more))
  {
    hide Keys;
    InSeveral(popped, [], first);
    InSeveral(started, more, first);
    KeysAdd(multiset(popped), first);
    KeysBoth(multiset(started), multiset(more));
    Balanced(Keys(present), Keys(multiset(popped)), Keys(all), Keys(multiset(started)), Keys(after), Keys(multiset(more)), first.key);
  }

  /** What fired stays in order, and in front of what is left. */
  lemma FireNext(popped: seq<Elem>, started: seq<Elem>, present: multiset<Elem>, all: multiset<Elem>, now: nat,
                 first: Elem, more: seq<Elem>, after: multiset<Elem>)
    requires InOrder(popped, started, present, all, now) && first in present && first.key < now
    requires Fired(present, first, more, after) && forall e | e in more :: now <= e.key
    ensures InOrder(popped + [first], started + more, after, all, now)
  {
    hide Keys;
    SortedNext(popped, first);
    KeysNext(popped, started, present, all, first, more, after);
    InSeveral(popped, [], first);
    InSeveral(started, more, first);
    forall e: Elem | e.payload != 0
      ensures after[e] + multiset(popped + [first])[e] <= all[e] + multiset(started + more)[e]
    {
      assert (multiset(popped) + multiset{first})[e] == multiset(popped)[e] + multiset{first}[e];
      assert (multiset(started) + multiset(more))[e] == multiset(started)[e] + multiset(more)[e];
    }
  }

  /** The root is removed from what there is behind its callback. */
  lemma FiredBy(present: multiset<Elem>, first: Elem, more: seq<Elem>, m: multiset<Elem>, after: multiset<Elem>)
    requires Changed(present, more, m) && IsMin(first, m) && after == m - multiset{first}
    ensures Fired(present, first, more, after)
    ensures after + multiset{first} == m
  {
    hide Keys;
    KeysRemove(m, first);
    PutBack(m, first);
    forall e: Elem | e.payload != 0
      ensures after[e] + multiset{first}[e] <= present[e] + multiset(more)[e]
    {
      assert (after + multiset{first})[e] == m[e];
    }
  }

  /** A key that is due is one of those that were there. */
  lemma DueWasThere(left: multiset<nat>, started: seq<Elem>, present: multiset<Elem>, first: Elem, now: nat)
    requires Keys(present) == left + Keys(multiset(started)) && first in present && first.key < now
    requires forall e | e in started :: now <= e.key
    ensures first.key in left && |left - multiset{first.key}| < |left|
  {
    hide Keys;
    KeysRemove(present, first);
    if first.key in Keys(multiset(started)) {
      KeysWhose(multiset(started), first.key);
    }
  }

  lemma InMin(e: Elem, m: multiset<Elem>)
    requires IsMin(e, m)
    ensures e in m
  {
  }

  lemma AllFrom(first: Elem, m: multiset<Elem>, now: nat)
    requires IsMin(first, m) && now <= first.key
    ensures forall e | e in m :: now <= e.key
  {
  }

  lemma InOrderStart(all: multiset<Elem>, now: nat)
    ensures InOrder([], [], all, all, now)
  {
  }

  lemma LeftNext(left: multiset<nat>, started: seq<Elem>, present: multiset<Elem>, first: Elem, more: seq<Elem>, after: multiset<Elem>)
    requires Keys(present) == left + Keys(multiset(started)) && first.key in left && Fired(present, first, more, after)
    ensures Keys(after) == (left - multiset{first.key}) + Keys(multiset(started + more))
  {
    hide Keys;
    InSeveral(started, more, first);
    KeysBoth(multiset(started), multiset(more));
    LeftOver(Keys(present), left, Keys(multiset(started)), Keys(after), Keys(multiset(more)), first.key);
  }

  lemma Moved(popped: seq<Elem>, started: seq<Elem>, present: multiset<Elem>, all: multiset<Elem>, first: Elem, more: seq<Elem>, after: multiset<Elem>)
    requires present + multiset(popped) == all + multiset(started) && after + multiset{first} == present + multiset(more)
    ensures after + multiset(popped + [first]) == all + multiset(started + more)
  {
    InSeveral(popped, [], first);
    InSeveral(started, more, first);
    Balanced(present, multiset(popped), all, multiset(started), after, multiset(more), first);
  }

  /** Those that were not cancelled when they came first. */
  function Live(popped: seq<Elem>): seq<Elem> {
    if popped == [] then []
    else
      var e := popped[|popped| - 1];
      Live(popped[..|popped| - 1]) + if e.payload != 0 then [e] else []
  }

  lemma LiveNext(popped: seq<Elem>, first: Elem)
    ensures Live(popped + [first]) == if first.payload != 0 then Live(popped) + [first] else Live(popped)
  {
    assert (popped + [first])[..|popped|] == popped;
  }

  /** How far the timers are: `left` are the keys still there of those that were. When nothing is
      cancelled, no element is lost either. */
  ghost predicate Underway(popped: seq<Elem>, fired: seq<Elem>, started: seq<Elem>, present: multiset<Elem>, left: multiset<nat>,
                           all: multiset<Elem>, now: nat, calm: bool)
  {
    && InOrder(popped, started, present, all, now) && fired == Live(popped)
    && Keys(present) == left + Keys(multiset(started)) && (forall e | e in started :: now <= e.key)
    && (calm ==> present + multiset(popped) == all + multiset(started))
  }

  lemma UnderwayStart(all: multiset<Elem>, now: nat, calm: bool)
    ensures Underway([], [], [], all, Keys(all), all, now, calm)
  {
    InOrderStart(all, now);
    assert all + multiset([]) == all;
  }

  lemma StillLater(started: seq<Elem>, more: seq<Elem>, now: nat)
    requires (forall e | e in started :: now <= e.key) && forall e | e in more :: now <= e.key
    ensures forall e | e in started + more :: now <= e.key
  {
  }

  lemma UnderwayNext(popped: seq<Elem>, fired: seq<Elem>, started: seq<Elem>, present: multiset<Elem>, left: multiset<nat>,
                     all: multiset<Elem>, now: nat, calm: bool, first: Elem, more: seq<Elem>, after: multiset<Elem>)
    requires Underway(popped, fired, started, present, left, all, now, calm) && IsMin(first, present) && first.key < now
    requires Fired(present, first, more, after) && forall e | e in more :: now <= e.key
    requires calm ==> after + multiset{first} == present + multiset(more)
    ensures |left - multiset{first.key}| < |left|
    ensures Underway(popped + [first], if first.payload != 0 then fired + [first] else fired, started + more, after,
                     left - multiset{first.key}, all, now, calm)
  {
    hide InOrder, Fired, Keys, IsMin, Live;
    InMin(first, present);
    DueWasThere(left, started, present, first, now);
    FireNext(popped, started, present, all, now, first, more, after);
    LeftNext(left, started, present, first, more, after);
    LiveNext(popped, first);
    StillLater(started, more, now);
    if calm {
      Moved(popped, started, present, all, first, more, after);
    }
  }

  lemma UnderwayEnd(popped: seq<Elem>, fired: seq<Elem>, started: seq<Elem>, present: multiset<Elem>, left: multiset<nat>,
                    all: multiset<Elem>, now: nat, calm: bool)
    requires Underway(popped, fired, started, present, left, all, now, calm)
    ensures InOrder(popped, started, present, all, now) && fired == Live(popped)
    ensures calm ==> present + multiset(popped) == all + multiset(started)
  {
  }

  /** What fires was there from the start, and fires once for each time it was there. */
  lemma FiredWasThere(popped: seq<Elem>, started: seq<Elem>, present: multiset<Elem>, all: multiset<Elem>, now: nat, e: Elem)
    requires InOrder(popped, started, present, all, now) && e in popped && e.payload != 0
    ensures multiset(popped)[e] + present[e] <= all[e] && e in all
  {
    assert e in multiset(popped);
    assert e !in started && multiset(started)[e] == 0;
  }

  // ---------- The heap ----------

  lemma SamePrefix(b: seq<Elem>, c: seq<Elem>, n: nat)
    requires 1 <= n <= |b| && n < |c| && b[..n] == c[..n]
    ensures Contents(c, n - 1) == Contents(b, n - 1)
    ensures forall j | 0 <= j < n :: b[j] == c[j]
  {
    if n > 1 {
      assert b[1..n] == b[..n][1..n] == c[..n][1..n] == c[1..n];
    }
    forall j | 0 <= j < n
      ensures b[j] == c[j]
    {
      assert b[..n][j] == c[..n][j];
    }
  }

  lemma InsertRising(b: seq<Elem>, c: seq<Elem>, n: nat, el: Elem)
    requires 1 <= n <= |b| && n < |c| && Ordered(b, n - 1) && forall j | 0 <= j < n :: b[j] == c[j]
    ensures RisingAt(c[n := el], n, n)
  {
  }

  lemma InsertStart(b: seq<Elem>, c: seq<Elem>, n: nat, el: Elem)
    requires 1 <= n <= |b| && n < |c| && b[..n] == c[..n] && Ordered(b, n - 1)
    ensures RisingAt(c[n := el], n, n)
    ensures Contents(c[n := el], n) == Contents(b, n - 1) + multiset{el}
  {
    hide Contents, RisingAt, Ordered;
    SamePrefix(b, c, n);
    GrowContents(c, n - 1, el);
    InsertRising(b, c, n, el);
  }

  /** The block length the source computes for index `n`: one more than its offset. */
  lemma BlockLength(n: nat, per: nat)
    requires 0 < per
    ensures (if (n + 1) % per == 0 then per else (n + 1) % per) == Offset(n, per) + 1
  {
    Divide(n, per);
    Successor(n, per);
    assert Offset(n + 1, per) == (n + 1) % per;
  }

  lemma Predecessor(n: nat, per: nat)
    requires 0 < per && 0 < Offset(n, per)
    ensures 0 < n && Block(n - 1, per) == Block(n, per) && Offset(n - 1, per) == Offset(n, per) - 1
  {
    hide Block, Offset;
    Divide(n, per);
    ProductNonNegative(per, Block(n, per));
    DivideUnique(n - 1, per, Block(n, per), Offset(n, per) - 1);
  }

  class Heap {
    const perBlock: nat
    const top: array<array?<Elem>>
    var size: nat
    var n: nat
    /** What is stored at the indices that have storage; index 0 is not used. */
    ghost var cells: seq<Elem>

    ghost function Blocks(): set<object>
      reads top
    {
      set b | 0 <= b < top.Length && top[b] != null :: top[b] as object
    }

    ghost predicate Holds(i: nat, e: Elem)
      reads top, Blocks()
    {
      && perBlock > 0
      && var b := Block(i, perBlock);
      b < top.Length && top[b] != null && Offset(i, perBlock) < top[b].Length
      && top[b][Offset(i, perBlock)] == e
    }

    /** The indices of `cells` have storage, each its own. */
    ghost predicate Stored()
      reads this`cells, top, Blocks()
    {
      && perBlock > 0 && top.Length == MAX_BLOCK_COUNT && |cells| > 0
      && (forall i: nat | 1 <= i < |cells| :: Holds(i, cells[i]))
      && (forall b, c | 0 <= b < c < MAX_BLOCK_COUNT && top[b] != null :: top[b] != top[c])
    }

    /** The counter `size` may run ahead of the last index with storage, by one; nothing in use
        lies beyond that index. */
    ghost predicate Shaped()
      reads this, top, Blocks()
    {
      Stored() && n < |cells| && |cells| - 1 <= size <= |cells|
    }

    ghost predicate Valid()
      reads this, top, Blocks()
    {
      Shaped() && Ordered(cells, n)
    }

    ghost function Elements(): multiset<Elem>
      requires Shaped()
      reads this, top, Blocks()
    {
      Contents(cells, n)
    }

    /** `heap_init`, for elements of which `per` fit a block. */
    constructor (per: nat)
      requires per > 0
      ensures Valid() && perBlock == per && fresh(top) && Blocks() == {}
      ensures n == 0 && size == 0 && Elements() == multiset{}
    {
      perBlock := per;
      top := new array?<Elem>[MAX_BLOCK_COUNT](_ => null);
      size, n, cells := 0, 0, [Elem(0, 0)];
    }

    method GetElement(idx: nat) returns (e: Elem)
      requires Stored() && 1 <= idx < |cells|
      ensures e == cells[idx]
    {
      assert Holds(idx, cells[idx]);
      e := top[Block(idx, perBlock)][Offset(idx, perBlock)];
    }

    method PutElement(idx: nat, e: Elem)
      requires Stored() && 1 <= idx < |cells|
      modifies this`cells, Blocks()
      ensures Stored() && Blocks() == old(Blocks()) && cells == old(cells)[idx := e]
    {
      hide Block, Offset;
      assert Holds(idx, cells[idx]);
      top[Block(idx, perBlock)][Offset(idx, perBlock)] := e;
      cells := cells[idx := e];
      forall i: nat | 1 <= i < |cells|
        ensures Holds(i, cells[i])
      {
        assert old(Holds(i, cells[i]));
        Apart(i, idx, perBlock);
      }
    }

    /** The storage that `heap_increase_size` makes for the block of index `n`: just long enough
        to hold it, with what the block held before it. */
    method Regrown(elements: nat) returns (block: array<Elem>)
      requires Stored() && 1 <= n <= |cells|
      requires elements == Offset(n, perBlock) + 1 && Block(n, perBlock) < MAX_BLOCK_COUNT
      ensures fresh(block) && block.Length == elements
      ensures forall i: nat | 1 <= i < n && Block(i, perBlock) == Block(n, perBlock) ::
                Offset(i, perBlock) < elements - 1 && block[Offset(i, perBlock)] == cells[i]
    {
      hide Block, Offset;
      block := new Elem[elements](_ => Elem(0, 0));
      var b := Block(n, perBlock);
      if top[b] != null {
        if elements > 1 && n > 1 {
          Predecessor(n, perBlock);
          assert Holds(n - 1, cells[n - 1]);
        }
        forall k | 0 <= k < elements - 1 && k < top[b].Length {
          block[k] := top[b][k];
        }
      }
      forall i: nat | 1 <= i < n && Block(i, perBlock) == b
        ensures Offset(i, perBlock) < elements - 1 && block[Offset(i, perBlock)] == cells[i]
      {
        assert Holds(i, cells[i]);
        Apart(i, n, perBlock);
      }
    }

    /** `heap_increase_size`, called with `n` already counting the new element. */
    method IncreaseSize(allocOk: bool) returns (ok: bool)
      requires Stored() && 1 <= n <= |cells| <= n + 1
      modifies this`size, this`cells, top
      ensures Stored() && fresh(Blocks() - old(Blocks()))
      ensures ok <==> n + 1 <= perBlock * MAX_BLOCK_COUNT && allocOk
      ensures !ok ==> size == old(size) && cells == old(cells) && Blocks() == old(Blocks())
      ensures ok ==> size == old(size) + 1 && |cells| == n + 1 && cells[..n] == old(cells)[..n]
    {
      hide Block, Offset;
      var elements := (n + 1) % perBlock;
      elements := if elements == 0 then perBlock else elements;
      BlockLength(n, perBlock);
      if n + 1 > perBlock * MAX_BLOCK_COUNT || !allocOk {
        return false;
      }
      BlockInRange(n, perBlock);
      var newTop := Regrown(elements);
      top[Block(n, perBlock)] := newTop;
      size := size + 1;
      cells := cells[..n] + [newTop[elements - 1]];
      forall i: nat | 1 <= i < |cells|
        ensures Holds(i, cells[i])
      {
        if i < n {
          assert old(Holds(i, cells[i]));
        }
      }
      ok := true;
    }

    /** The loop of `heap_insert`: the last place is free for `el`. */
    method SiftUp(el: Elem)
      requires Shaped() && 2 <= n && RisingAt(cells[n := el], n, n)
      modifies this`cells, Blocks()
      ensures Valid() && Blocks() == old(Blocks())
      ensures Contents(cells, n) == Contents(old(cells)[n := el], n)
      ensures old(cells)[1].key <= el.key ==> cells[1] == old(cells)[1]
    {
      hide Block, Offset, Swap, Ordered, RisingAt, Contents, Heap.Stored;
      ghost var c := cells[n := el];
      var i := n;
      while i > 1
        invariant 1 <= i <= n && Shaped() && Blocks() == old(Blocks())
        invariant c == cells[i := el] && RisingAt(c, n, i)
        invariant Contents(c, n) == Contents(old(cells)[n := el], n)
        invariant if i > 1 then cells[1] == old(cells)[1] else old(cells)[1].key > el.key
      {
        var half := GetElement(i / 2);
        if !(half.key > el.key) {
          break;
        }
        SwapContents(c, n, i / 2, i);
        Rise(c, n, i);
        SwapIsMove(cells, i, i / 2, el);
        PutElement(i, half);
        c := Swap(c, i / 2, i);
        i := i / 2;
      }
      RiseDone(c, n, i);
      PutElement(i, el);
    }

    /** `heap_insert`. */
    method Insert(el: Elem, allocOk: bool) returns (ok: bool)
      requires Valid()
      modifies this, top, Blocks()
      ensures Valid() && fresh(Blocks() - old(Blocks()))
      ensures ok <==> old(n) + 1 < old(size) || (old(n) + 2 <= perBlock * MAX_BLOCK_COUNT && allocOk)
      ensures !ok ==> n == old(n) && size == old(size) && cells == old(cells)
      ensures ok ==> n == old(n) + 1 && Elements() == old(Elements()) + multiset{el}
      ensures ok && old(n) > 0 && old(cells)[1].key <= el.key ==> cells[1] == old(cells)[1]
    {
      hide Block, Offset, Swap, Ordered, RisingAt, Contents, Heap.Stored;
      n := n + 1;
      if n >= size {
        var grown := IncreaseSize(allocOk);
        if !grown {
          n := n - 1;
          return false;
        }
      }
      assert cells[..n] == old(cells)[..n];
      InsertStart(old(cells), cells, n, el);
      if n == 1 {
        RiseDone(cells[1 := el], 1, 1);
        PutElement(1, el);
        return true;
      }
      SiftUp(el);
      ok := true;
    }

    /** The child that moves up. */
    method LesserChild(i: nat) returns (child: nat)
      requires Shaped() && 1 <= i && 2 * i <= n
      ensures (child == 2 * i || child == 2 * i + 1) && child <= n
      ensures forall j | 2 <= j <= n && j / 2 == i :: cells[child].key <= cells[j].key
    {
      child := 2 * i;
      var left := GetElement(child);
      if child != n {
        var right := GetElement(child + 1);
        if right.key < left.key {
          child := child + 1;
        }
      }
    }

    /** The loop of `heap_peek`: the first place is free for `last`. */
    method SiftDown(last: Elem)
      requires Shaped() && 1 < |cells| && SinkingAt(cells[1 := last], n, 1)
      modifies this`cells, Blocks()
      ensures Valid() && Blocks() == old(Blocks())
      ensures Contents(cells, n) == Contents(old(cells)[1 := last], n)
    {
      hide Block, Offset, Swap, Ordered, SinkingAt, Contents, Heap.Stored;
      var i := 1;
      ghost var c := cells[1 := last];
      while i * 2 <= n
        invariant 1 <= i < |cells| && (i > 1 ==> i <= n) && Shaped() && Blocks() == old(Blocks())
        invariant c == cells[i := last] && SinkingAt(c, n, i)
        invariant Contents(c, n) == Contents(old(cells)[1 := last], n)
        decreases n - i
      {
        var child := LesserChild(i);
        var left := GetElement(child);
        if !(last.key > left.key) {
          break;
        }
        SwapContents(c, n, i, child);
        Sink(c, n, i, child);
        SwapIsMove(cells, i, child, last);
        PutElement(i, left);
        c := Swap(c, i, child);
        i := child;
      }
      SinkDone(c, n, i);
      PutElement(i, last);
    }

    /** `heap_peek`, which also removes the element it returns. */
    method Peek() returns (ok: bool, first: Elem)
      requires Valid()
      modifies this, Blocks()
      ensures Valid() && Blocks() == old(Blocks()) && size == old(size)
      ensures ok <==> old(n) > 0
      ensures !ok ==> n == old(n) && cells == old(cells)
      ensures ok ==> first == old(cells)[1] && IsMin(first, old(Elements())) && n == old(n) - 1
      ensures ok ==> Elements() == old(Elements()) - multiset{first}
    {
      hide Block, Offset, IsMin, Swap, Ordered, SinkingAt, Contents, Heap.Stored;
      first := Elem(0, 0);
      if n == 0 {
        return false, first;
      }
      RootIsMin(cells, n);
      ShrinkContents(cells, n);
      first := GetElement(1);
      var last := GetElement(n);
      n := n - 1;
      SinkStart(cells, n);
      SiftDown(last);
      ok := true;
    }

    /** `heap_first`. */
    method First() returns (ok: bool, first: Elem)
      requires Valid()
      ensures ok <==> n > 0
      ensures if ok then first == cells[1] && IsMin(first, Elements()) else Elements() == multiset{}
    {
      hide Block, Offset, IsMin;
      first := Elem(0, 0);
      if n == 0 {
        return false, first;
      }
      RootIsMin(cells, n);
      first := GetElement(1);
      ok := true;
    }

    /** `pico_timer_cancel`: the first element with the number `id`, if there is one, loses it and
        stays where it is. */
    method CancelTimer(id: int)
      requires Valid()
      modifies this`cells, Blocks()
      ensures Valid() && Blocks() == old(Blocks())
      ensures id == 0 || (forall i | 1 <= i <= n :: old(cells)[i].payload != id) ==> cells == old(cells)
      ensures id != 0 && (exists i :: 1 <= i <= n && old(cells)[i].payload == id) ==>
                exists i :: 1 <= i <= n && old(cells)[i].payload == id
                            && (forall j | 1 <= j < i :: old(cells)[j].payload != id)
                            && cells == old(cells)[i := old(cells)[i].(payload := 0)]
      ensures Cancelled(old(Elements()), Elements())
      ensures n > 0 && old(cells)[1].payload != id ==> cells[1] == old(cells)[1]
    {
      hide Block, Offset, Contents, Heap.Stored;
      if id == 0 {
        return;
      }
      var i := 1;
      while i <= n
        invariant 1 <= i <= n + 1 && Valid() && cells == old(cells) && Blocks() == old(Blocks())
        invariant forall j | 1 <= j < i :: cells[j].payload != id
      {
        var e := GetElement(i);
        if e.payload == id {
          CancelledOne(cells, n, i);
          PutElement(i, e.(payload := 0));
          return;
        }
        i := i + 1;
      }
    }

    /** What the callback of the root does. No timer it starts is due before the root, which it does
        not cancel, so that the root stays where it is. */
    method RunActs(acts: seq<Act>) returns (started: seq<Elem>)
      requires Valid() && n > 0 && forall a | a in acts && a.Start? :: cells[1].key <= a.el.key
      requires Cancel(cells[1].payload) !in acts
      modifies this, top, Blocks()
      ensures Valid() && fresh(Blocks() - old(Blocks())) && n >= old(n) && cells[1] == old(cells)[1]
      ensures Changed(old(Elements()), started, Elements())
      ensures NoCancel(acts) ==> Elements() == old(Elements()) + multiset(started)
      ensures forall e | e in started :: exists a :: a in acts && a.Start? && a.el == e
    {
      hide Block, Offset, Ordered, Contents, Heap.Stored, Cancelled, Changed;
      started := [];
      ChangedNone(Elements());
      var i := 0;
      while i < |acts|
        invariant 0 <= i <= |acts|
        invariant Valid() && fresh(Blocks() - old(Blocks())) && n >= old(n) && cells[1] == old(cells)[1]
        invariant Changed(old(Elements()), started, Elements())
        invariant NoCancel(acts) ==> Elements() == old(Elements()) + multiset(started)
        invariant forall e | e in started :: exists a :: a in acts && a.Start? && a.el == e
      {
        assert acts[i] in acts;
        ghost var before := Elements();
        match acts[i] {
          case Start(el, memory) =>
            var ok := Insert(el, memory);
            if ok {
              OneMore(old(Elements()), started, el);
              ChangedStart(old(Elements()), started, before, el);
              started := started + [el];
            }
          case Cancel(id) =>
            CancelTimer(id);
            ChangedCancel(old(Elements()), started, before, Elements());
        }
        i := i + 1;
      }
    }

    /** The callback of the root runs, unless the root is cancelled, and then the root is removed. */
    method FireRoot(now: nat, acts: seq<Act>) returns (started: seq<Elem>)
      requires Valid() && n > 0 && cells[1].key < now && forall a | a in acts && a.Start? :: now <= a.el.key
      requires Cancel(cells[1].payload) !in acts
      modifies this, top, Blocks()
      ensures Valid() && fresh(Blocks() - old(Blocks()))
      ensures Fired(old(Elements()), old(cells)[1], started, Elements())
      ensures NoCancel(acts) ==> Elements() + multiset{old(cells)[1]} == old(Elements()) + multiset(started)
      ensures old(cells)[1].payload == 0 ==> started == []
      ensures forall e | e in started :: now <= e.key
    {
      hide Block, Offset, Ordered, Contents, Keys, Fired, Changed, Heap.Stored;
      started := [];
      ChangedNone(Elements());
      var root := GetElement(1);
      if root.payload != 0 {
        started := RunActs(acts);
      }
      ghost var before := Elements();
      var ok, first := Peek();
      FiredBy(old(Elements()), first, started, before, Elements());
    }

    /** `pico_check_timers`: the timers due before `now` come first in the order of their expiry, each
        once, and those that are not cancelled by then fire; the others, and those that the
        callbacks start, which are due at `now` or later, stay. */
    method CheckTimers(now: nat, callback: Elem -> seq<Act>) returns (popped: seq<Elem>, fired: seq<Elem>, started: seq<Elem>)
      requires Valid() && forall e, a | a in callback(e) && a.Start? :: now <= a.el.key
      requires forall e: Elem :: Cancel(e.payload) !in callback(e)
      modifies this, top, Blocks()
      ensures Valid() && fresh(Blocks() - old(Blocks()))
      ensures InOrder(popped, started, Elements(), old(Elements()), now) && fired == Live(popped)
      ensures forall e | e in Elements() :: now <= e.key
      ensures (forall e :: NoCancel(callback(e))) ==>
                Elements() + multiset(popped) == old(Elements()) + multiset(started)
    {
      hide Block, Offset, Ordered, Contents, IsMin, InOrder, Fired, NoCancel, Keys, Live, Underway, Heap.Stored;
      popped, fired, started := [], [], [];
      ghost var all, calm := Elements(), forall e :: NoCancel(callback(e));
      ghost var left := Keys(all);
      UnderwayStart(all, now, calm);
      var some, first := First();
      while some && first.key < now
        invariant Valid() && fresh(Blocks() - old(Blocks()))
        invariant some <==> n > 0
        invariant if some then first == cells[1] && IsMin(first, Elements()) else Elements() == multiset{}
        invariant Underway(popped, fired, started, Elements(), left, all, now, calm)
        decreases |left|
      {
        ghost var before := Elements();
        var more := FireRoot(now, callback(first));
        UnderwayNext(popped, fired, started, before, left, all, now, calm, first, more, Elements());
        popped, started := popped + [first], started + more;
        left := left - multiset{first.key};
        if first.payload != 0 {
          fired := fired + [first];
        }
        some, first := First();
      }
      UnderwayEnd(popped, fired, started, Elements(), left, all, now, calm);
      if some {
        AllFrom(first, Elements(), now);
      }
    }
  }
}
