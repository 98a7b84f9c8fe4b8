/** Mapping each element of a list to a list and joining the results. */
module Flats {
  import Sorting

  function Flat<T, U>(xs: seq<T>, f: T -> seq<U>): seq<U>
  {
    if xs == [] then [] else Flat(xs[..|xs| - 1], f) + f(xs[|xs| - 1])
  }

  lemma {:induction false} FlatConcat<T, U>(a: seq<T>, b: seq<T>, f: T -> seq<U>)
    ensures Flat(a + b, f) == Flat(a, f) + Flat(b, f)
    decreases |b|
  {
    if b == [] {
      assert a + b == a;
    } else {
      var n := |b| - 1;
      assert (a + b)[..|a + b| - 1] == a + b[..n];
      FlatConcat(a, b[..n], f);
    }
  }

  lemma {:induction false} FlatOne<T, U>(x: T, f: T -> seq<U>)
    ensures Flat([x], f) == f(x)
  {
  }

  lemma {:induction false} FlatPermutes<T, U>(a: seq<T>, b: seq<T>, f: T -> seq<U>)
    requires multiset(a) == multiset(b)
    ensures multiset(Flat(a, f)) == multiset(Flat(b, f))
    decreases |a|
  {
    Sorting.SameSize(a, b);
    if a != [] {
      var n := |a| - 1;
      var front, x := a[..n], a[n];
      assert a == front + [x];
      assert x in multiset(b);
      var k :| 0 <= k < |b| && b[k] == x;
      var rest := b[..k] + b[k + 1..];
      FlatWithout(b, k, f);
      assert multiset(front) == multiset(a) - multiset{x} == multiset(rest);
      FlatPermutes(front, rest, f);
    }
  }

  lemma {:induction false} FlatWithout<T, U>(a: seq<T>, k: nat, f: T -> seq<U>)
    requires k < |a|
    ensures multiset(a[..k] + a[k + 1..]) == multiset(a) - multiset{a[k]}
    ensures multiset(Flat(a, f)) == multiset(Flat(a[..k] + a[k + 1..], f)) + multiset(f(a[k]))
  {
    assert a == a[..k] + ([a[k]] + a[k + 1..]);
    FlatConcat(a[..k], [a[k]] + a[k + 1..], f);
    FlatConcat([a[k]], a[k + 1..], f);
    FlatConcat(a[..k], a[k + 1..], f);
    FlatOne(a[k], f);
  }

  lemma {:induction false} FlatMembers<T, U>(xs: seq<T>, f: T -> seq<U>, x: U)
    ensures x in Flat(xs, f) <==> exists i :: 0 <= i < |xs| && x in f(xs[i])
  {
    if xs != [] {
      var n := |xs| - 1;
      FlatMembers(xs[..n], f, x);
      if x in Flat(xs, f) {
        if x in Flat(xs[..n], f) {
          var i :| 0 <= i < n && x in f(xs[..n][i]);
          assert x in f(xs[i]);
        } else {
          assert x in f(xs[n]);
        }
      }
      if i :| 0 <= i < |xs| && x in f(xs[i]) {
        if i < n { assert x in f(xs[..n][i]); }
      }
    }
  }

  lemma {:induction false} FlatEmpty<T, U>(xs: seq<T>, f: T -> seq<U>)
    ensures Flat(xs, f) == [] <==> forall i :: 0 <= i < |xs| ==> f(xs[i]) == []
    decreases |xs|
  {
    if xs != [] {
      var n := |xs| - 1;
      FlatEmpty(xs[..n], f);
      assert forall i :: 0 <= i < n ==> xs[..n][i] == xs[i];
      assert Flat(xs, f) == Flat(xs[..n], f) + f(xs[n]);
      if Flat(xs, f) == [] {
        assert |Flat(xs[..n], f)| == 0 && |f(xs[n])| == 0;
        forall i | 0 <= i < |xs| ensures f(xs[i]) == [] {
          if i < n { assert f(xs[..n][i]) == []; }
        }
      } else if Flat(xs[..n], f) != [] {
        var i :| 0 <= i < n && f(xs[..n][i]) != [];
        assert f(xs[i]) != [];
      }
    }
  }

  lemma {:induction false} FlatSnoc<T, U>(xs: seq<T>, n: nat, f: T -> seq<U>)
    requires n < |xs|
    ensures Flat(xs[..n + 1], f) == Flat(xs[..n], f) + f(xs[n])
  {
    assert xs[..n + 1][..n] == xs[..n];
  }
}
