/** Sequences with the same elements, in whatever order. */
module Permutations {
  function Mapped<A, B>(f: A -> B, xs: seq<A>): (ys: seq<B>)
    ensures |ys| == |xs|
    ensures forall i | 0 <= i < |xs| :: ys[i] == f(xs[i])
  {
    seq(|xs|, i requires 0 <= i < |xs| => f(xs[i]))
  }

  lemma WithoutOne<T>(xs: seq<T>, i: nat)
    requires i < |xs|
    ensures multiset(xs) == multiset(xs[..i] + xs[i + 1..]) + multiset{xs[i]}
  {
    assert xs == xs[..i] + [xs[i]] + xs[i + 1..];
  }

  lemma MappedWithoutOne<A, B>(f: A -> B, xs: seq<A>, i: nat)
    requires i < |xs|
    ensures multiset(Mapped(f, xs)) == multiset(Mapped(f, xs[..i] + xs[i + 1..])) + multiset{f(xs[i])}
  {
    WithoutOne(Mapped(f, xs), i);
    assert Mapped(f, xs)[..i] + Mapped(f, xs)[i + 1..] == Mapped(f, xs[..i] + xs[i + 1..]);
  }

  lemma Cancel<T>(a: multiset<T>, b: multiset<T>, e: T)
    requires a + multiset{e} == b + multiset{e}
    ensures a == b
  {
    assert a == (a + multiset{e}) - multiset{e};
    assert b == (b + multiset{e}) - multiset{e};
  }

  lemma Partner<T>(xs: seq<T>, ys: seq<T>) returns (i: nat)
    requires xs != [] && multiset(xs) == multiset(ys)
    ensures i < |ys| && ys[i] == xs[0] && multiset(xs[1..]) == multiset(ys[..i] + ys[i + 1..])
  {
    assert xs[0] in multiset(xs);
    i :| 0 <= i < |ys| && ys[i] == xs[0];
    assert xs[..0] + xs[1..] == xs[1..];
    WithoutOne(xs, 0);
    WithoutOne(ys, i);
    Cancel(multiset(xs[1..]), multiset(ys[..i] + ys[i + 1..]), xs[0]);
  }

  lemma SameSize<T>(xs: seq<T>, ys: seq<T>)
    requires multiset(xs) == multiset(ys)
    ensures |xs| == |ys|
  {
    assert |multiset(xs)| == |xs| && |multiset(ys)| == |ys|;
  }

  lemma MappedRest<A, B>(f: A -> B, xs: seq<A>)
    requires xs != []
    ensures multiset(Mapped(f, xs)) == multiset(Mapped(f, xs[1..])) + multiset{f(xs[0])}
  {
    MappedWithoutOne(f, xs, 0);
    assert xs[..0] + xs[1..] == xs[1..];
  }

  lemma {:induction false} MappedPermutation<A, B>(f: A -> B, xs: seq<A>, ys: seq<A>)
    requires multiset(xs) == multiset(ys)
    ensures multiset(Mapped(f, xs)) == multiset(Mapped(f, ys))
    decreases |xs|
  {
    hide Mapped;
    SameSize(xs, ys);
    if xs != [] {
      var i := Partner(xs, ys);
      var x, y := xs[1..], ys[..i] + ys[i + 1..];
      MappedPermutation(f, x, y);
      MappedRest(f, xs);
      MappedWithoutOne(f, ys, i);
      assert multiset(Mapped(f, xs)) == multiset(Mapped(f, x)) + multiset{f(xs[0])};
      assert multiset(Mapped(f, ys)) == multiset(Mapped(f, y)) + multiset{f(ys[i])};
    }
  }

  lemma MappedSubset<A, B>(f: A -> B, xs: seq<A>, ys: seq<A>)
    requires forall x | x in xs :: x in ys
    ensures forall z | z in Mapped(f, xs) :: z in Mapped(f, ys)
  {
    forall z | z in Mapped(f, xs)
      ensures z in Mapped(f, ys)
    {
      var i :| 0 <= i < |xs| && Mapped(f, xs)[i] == z;
      assert xs[i] in xs;
      var j :| 0 <= j < |ys| && ys[j] == xs[i];
      assert Mapped(f, ys)[j] == z;
    }
  }
}
