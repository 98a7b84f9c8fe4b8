/** Lists without repeats and the elements of a list. */
module Lists {

  ghost predicate NoRepeats<T>(xs: seq<T>)
  {
    forall i, j :: 0 <= i < j < |xs| ==> xs[i] != xs[j]
  }

  function Elems<T(==)>(xs: seq<T>): set<T> { set x | x in xs }

  lemma {:induction false} ElemsTail<T>(xs: seq<T>)
    requires NoRepeats(xs) && xs != []
    ensures Elems(xs[1..]) == Elems(xs) - {xs[0]} && NoRepeats(xs[1..])
  {
    assert xs == [xs[0]] + xs[1..];
  }

  lemma {:induction false} ElemsCount<T>(xs: seq<T>)
    requires NoRepeats(xs)
    ensures |Elems(xs)| == |xs|
  {
    if xs == [] {
      assert Elems(xs) == {};
    } else {
      ElemsTail(xs);
      ElemsCount(xs[1..]);
    }
  }

  lemma {:induction false} OnceEach<T>(xs: seq<T>, x: T)
    requires NoRepeats(xs)
    ensures multiset(xs)[x] == if x in xs then 1 else 0
  {
    if xs != [] {
      ElemsTail(xs);
      assert xs == [xs[0]] + xs[1..];
      OnceEach(xs[1..], x);
    }
  }

  lemma {:induction false} SameMembers<T>(xs: seq<T>, ys: seq<T>)
    requires NoRepeats(xs) && NoRepeats(ys) && forall x :: x in xs <==> x in ys
    ensures multiset(xs) == multiset(ys)
  {
    forall x ensures multiset(xs)[x] == multiset(ys)[x] {
      OnceEach(xs, x);
      OnceEach(ys, x);
    }
  }

  /** A permutation of a list without repeats has none either. */
  lemma {:induction false} PermutedOnce<T>(xs: seq<T>, ys: seq<T>)
    requires multiset(xs) == multiset(ys) && NoRepeats(xs)
    ensures NoRepeats(ys) && forall x :: x in xs <==> x in ys
  {
    forall i, j | 0 <= i < j < |ys| ensures ys[i] != ys[j] {
      Twice(ys, i, j);
      OnceEach(xs, ys[i]);
    }
    forall x ensures x in xs <==> x in ys {
      assert x in xs <==> x in multiset(xs);
      assert x in ys <==> x in multiset(ys);
    }
  }

  lemma {:induction false} Twice<T>(ys: seq<T>, i: nat, j: nat)
    requires i < j < |ys|
    ensures ys[i] == ys[j] ==> multiset(ys)[ys[i]] >= 2
  {
    assert ys == ys[..i] + [ys[i]] + ys[i + 1..j] + [ys[j]] + ys[j + 1..];
  }
}
