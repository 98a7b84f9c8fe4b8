/** Most-recent-first lists in which every entry is identified by a key.
    The tier-1 cookie jar and the link-handle table both refine this. */
module Recency {

  /** `xs` without the entries that carry key `k`. */
  function Without<T, K(==)>(xs: seq<T>, key: T -> K, k: K): seq<T>
  {
    if xs == [] then []
    else if key(xs[0]) == k then Without(xs[1..], key, k)
    else [xs[0]] + Without(xs[1..], key, k)
  }

  /** Bring `x` to the front, replacing any entry with its key. */
  function Touch<T, K(==)>(xs: seq<T>, key: T -> K, x: T): seq<T>
  {
    [x] + Without(xs, key, key(x))
  }

  function TouchAll<T, K(==)>(xs: seq<T>, key: T -> K, batch: seq<T>): seq<T>
    decreases |batch|
  {
    if batch == [] then xs else TouchAll(Touch(xs, key, batch[0]), key, batch[1..])
  }

  function Capped<T>(xs: seq<T>, cap: nat): seq<T>
  {
    if |xs| <= cap then xs else xs[..cap]
  }

  /** Some entry of `xs` carries key `k`. */
  predicate HasKey<T, K(==)>(xs: seq<T>, key: T -> K, k: K)
  {
    exists i :: 0 <= i < |xs| && key(xs[i]) == k
  }

  ghost predicate DistinctKeys<T, K>(xs: seq<T>, key: T -> K)
  {
    forall i, j :: 0 <= i < j < |xs| ==> key(xs[i]) != key(xs[j])
  }

  /** The reference: the rows of `history` that no later row supersedes,
      latest first. */
  function MostRecentDistinct<T, K(==)>(history: seq<T>, key: T -> K): seq<T>
  {
    if history == [] then []
    else
      MostRecentDistinct(history[1..], key)
      + if HasKey(history[1..], key, key(history[0])) then [] else [history[0]]
  }

  // ---- Without ----

  lemma {:induction false} WithoutKeys<T, K>(xs: seq<T>, key: T -> K, k: K)
    ensures |Without(xs, key, k)| <= |xs|
    ensures forall i :: 0 <= i < |Without(xs, key, k)| ==> key(Without(xs, key, k)[i]) != k
    ensures forall j :: 0 <= j < |xs| && key(xs[j]) != k ==> xs[j] in Without(xs, key, k)
    ensures forall i :: 0 <= i < |Without(xs, key, k)| ==> Without(xs, key, k)[i] in xs
  {
    if xs != [] {
      WithoutKeys(xs[1..], key, k);
    }
  }

  lemma {:induction false} WithoutDistinct<T, K>(xs: seq<T>, key: T -> K, k: K)
    requires DistinctKeys(xs, key)
    ensures DistinctKeys(Without(xs, key, k), key)
  {
    if xs != [] {
      WithoutDistinct(xs[1..], key, k);
      WithoutKeys(xs[1..], key, k);
    }
  }

  lemma {:induction false} WithoutAbsent<T, K>(xs: seq<T>, key: T -> K, k: K)
    requires !HasKey(xs, key, k)
    ensures Without(xs, key, k) == xs
  {
    if xs != [] {
      assert key(xs[0]) != k;
      assert forall i :: 0 <= i < |xs[1..]| ==> xs[1..][i] == xs[i + 1];
      WithoutAbsent(xs[1..], key, k);
    }
  }

  lemma {:induction false} WithoutConcat<T, K>(xs: seq<T>, ys: seq<T>, key: T -> K, k: K)
    ensures Without(xs + ys, key, k) == Without(xs, key, k) + Without(ys, key, k)
  {
    if xs == [] {
      assert xs + ys == ys;
    } else {
      assert (xs + ys)[1..] == xs[1..] + ys;
      WithoutConcat(xs[1..], ys, key, k);
    }
  }

  lemma {:induction false} WithoutComm<T, K>(xs: seq<T>, key: T -> K, k: K, l: K)
    ensures Without(Without(xs, key, k), key, l) == Without(Without(xs, key, l), key, k)
  {
    if xs != [] {
      WithoutComm(xs[1..], key, k, l);
    }
  }

  /** With distinct keys, removing by key is removing one position. */
  lemma {:induction false} WithoutAt<T, K>(xs: seq<T>, key: T -> K, i: nat)
    requires DistinctKeys(xs, key) && i < |xs|
    ensures Without(xs, key, key(xs[i])) == xs[..i] + xs[i + 1..]
  {
    if i == 0 {
      assert !HasKey(xs[1..], key, key(xs[0]));
      WithoutAbsent(xs[1..], key, key(xs[0]));
    } else {
      var rest := xs[1..];
      assert rest[i - 1] == xs[i] && forall j :: 0 <= j < |rest| ==> rest[j] == xs[j + 1];
      WithoutAt(rest, key, i - 1);
      CutOne(xs, i);
    }
  }

  lemma {:induction false} CutOne<T>(xs: seq<T>, i: nat)
    requires 0 < i < |xs|
    ensures xs[..i] + xs[i + 1..] == [xs[0]] + (xs[1..][..i - 1] + xs[1..][i..])
  {
  }

  // ---- Capping commutes with touching ----

  /** Cutting a list and then removing a key keeps every row the uncut
      removal would keep in front. */
  lemma {:induction false} CapWithout<T, K>(xs: seq<T>, key: T -> K, k: K, n: nat)
    requires DistinctKeys(xs, key)
    ensures Capped(Without(Capped(xs, n + 1), key, k), n) == Capped(Without(xs, key, k), n)
  {
    if n + 1 < |xs| {
      var front, back := xs[..n + 1], xs[n + 1..];
      assert xs == front + back;
      WithoutConcat(front, back, key, k);
      WithoutKeys(front, key, k);
      if HasKey(front, key, k) {
        var i :| 0 <= i < |front| && key(front[i]) == k;
        WithoutAt(front, key, i);
        assert |Without(front, key, k)| == n;
      } else {
        WithoutAbsent(front, key, k);
      }
    }
  }

  lemma {:induction false} TouchDistinct<T, K>(xs: seq<T>, key: T -> K, x: T)
    requires DistinctKeys(xs, key)
    ensures DistinctKeys(Touch(xs, key, x), key)
  {
    WithoutDistinct(xs, key, key(x));
    WithoutKeys(xs, key, key(x));
  }

  lemma {:induction false} TouchAllDistinct<T, K>(xs: seq<T>, key: T -> K, batch: seq<T>)
    requires DistinctKeys(xs, key)
    ensures DistinctKeys(TouchAll(xs, key, batch), key)
    decreases |batch|
  {
    if batch != [] {
      TouchDistinct(xs, key, batch[0]);
      TouchAllDistinct(Touch(xs, key, batch[0]), key, batch[1..]);
    }
  }

  lemma {:induction false} CapTouch<T, K>(xs: seq<T>, key: T -> K, x: T, cap: nat)
    requires DistinctKeys(xs, key)
    ensures Capped(Touch(Capped(xs, cap), key, x), cap) == Capped(Touch(xs, key, x), cap)
  {
    if 0 < cap {
      CapWithout(xs, key, key(x), cap - 1);
      var a, b := Without(Capped(xs, cap), key, key(x)), Without(xs, key, key(x));
      assert Capped([x] + a, cap) == [x] + Capped(a, cap - 1);
      assert Capped([x] + b, cap) == [x] + Capped(b, cap - 1);
    }
  }

  /** A list cut before a batch is touched and cut again after it holds what
      an uncut list would hold in front. */
  lemma {:induction false} CapTouchAll<T, K>(xs: seq<T>, key: T -> K, batch: seq<T>, cap: nat)
    requires DistinctKeys(xs, key)
    ensures Capped(TouchAll(Capped(xs, cap), key, batch), cap) == Capped(TouchAll(xs, key, batch), cap)
    decreases |batch|
  {
    if batch != [] {
      var x, rest := batch[0], batch[1..];
      var cut, full := Touch(Capped(xs, cap), key, x), Touch(xs, key, x);
      TouchDistinct(xs, key, x);
      assert DistinctKeys(Capped(xs, cap), key);
      TouchDistinct(Capped(xs, cap), key, x);
      CapTouch(xs, key, x, cap);
      CapTouchAll(cut, key, rest, cap);
      CapTouchAll(full, key, rest, cap);
    }
  }

  // ---- Refinement of the reference ----

  lemma {:induction false} TouchAllSplit<T, K>(xs: seq<T>, key: T -> K, a: seq<T>, b: seq<T>)
    ensures TouchAll(xs, key, a + b) == TouchAll(TouchAll(xs, key, a), key, b)
    decreases |a|
  {
    if a == [] {
      assert a + b == b;
    } else {
      assert (a + b)[1..] == a[1..] + b;
      TouchAllSplit(Touch(xs, key, a[0]), key, a[1..], b);
    }
  }

  lemma {:induction false} HasKeyConcat<T, K>(xs: seq<T>, ys: seq<T>, key: T -> K, k: K)
    ensures HasKey(xs + ys, key, k) <==> HasKey(xs, key, k) || HasKey(ys, key, k)
  {
    if HasKey(xs, key, k) {
      var i :| 0 <= i < |xs| && key(xs[i]) == k;
      assert key((xs + ys)[i]) == k;
    }
    if HasKey(ys, key, k) {
      var i :| 0 <= i < |ys| && key(ys[i]) == k;
      assert key((xs + ys)[|xs| + i]) == k;
    }
  }

  lemma {:induction false} MostRecentSnoc<T, K>(h: seq<T>, key: T -> K, x: T)
    ensures MostRecentDistinct(h + [x], key) == Touch(MostRecentDistinct(h, key), key, x)
  {
    var k := key(x);
    if h == [] {
      assert h + [x] == [x];
      assert MostRecentDistinct([x], key) == [x];
    } else {
      var y, t := h[0], h[1..];
      assert (h + [x])[0] == y && (h + [x])[1..] == t + [x];
      MostRecentSnoc(t, key, x);
      HasKeyConcat(t, [x], key, key(y));
      assert HasKey([x], key, key(y)) <==> k == key(y) by {
        if k == key(y) { assert key([x][0]) == key(y); }
      }
      var tail := if HasKey(t, key, key(y)) then [] else [y];
      WithoutConcat(MostRecentDistinct(t, key), tail, key, k);
      assert Without([y], key, k) == if key(y) == k then [] else [y];
    }
  }

  lemma {:induction false} TouchAllIsMostRecent<T, K>(h: seq<T>, key: T -> K)
    ensures TouchAll([], key, h) == MostRecentDistinct(h, key)
  {
    if h != [] {
      var n := |h| - 1;
      assert h == h[..n] + [h[n]];
      TouchAllIsMostRecent(h[..n], key);
      MostRecentSnoc(h[..n], key, h[n]);
      TouchAllSplit([], key, h[..n], [h[n]]);
    }
  }

  /** What the reference contains: distinct keys, exactly the keys seen. */
  lemma {:induction false} MostRecentKeys<T, K>(h: seq<T>, key: T -> K)
    ensures DistinctKeys(MostRecentDistinct(h, key), key)
    ensures forall k :: HasKey(MostRecentDistinct(h, key), key, k) <==> HasKey(h, key, k)
  {
    if h != [] {
      var y, t := h[0], h[1..];
      MostRecentKeys(t, key);
      var tail := if HasKey(t, key, key(y)) then [] else [y];
      forall k ensures HasKey(MostRecentDistinct(h, key), key, k) <==> HasKey(h, key, k) {
        assert h == [y] + t;
        HasKeyConcat(MostRecentDistinct(t, key), tail, key, k);
        HasKeyConcat([y], t, key, k);
        assert HasKey([y], key, k) <==> key(y) == k by {
          if key(y) == k { assert key([y][0]) == k; }
        }
        if tail == [y] { assert HasKey(tail, key, k) <==> key(y) == k; }
      }
    }
  }

  /** A row that no later one supersedes is in it. */
  lemma {:induction false} LatestStands<T, K>(h: seq<T>, key: T -> K, i: nat)
    requires i < |h| && forall j :: i < j < |h| ==> key(h[j]) != key(h[i])
    ensures h[i] in MostRecentDistinct(h, key) && |MostRecentDistinct(h, key)| <= |h|
  {
    var t := h[1..];
    ShorterDistinct(t, key);
    assert forall j :: 0 <= j < |t| ==> t[j] == h[j + 1];
    if i > 0 {
      LatestStands(t, key, i - 1);
    }
  }

  lemma {:induction false} ShorterDistinct<T, K>(h: seq<T>, key: T -> K)
    ensures |MostRecentDistinct(h, key)| <= |h|
  {
    if h != [] { ShorterDistinct(h[1..], key); }
  }

  // ---- Touching a batch twice ----

  lemma {:induction false} WithoutTouchAll<T, K>(xs: seq<T>, key: T -> K, batch: seq<T>, k: K)
    requires HasKey(batch, key, k)
    ensures TouchAll(Without(xs, key, k), key, batch) == TouchAll(xs, key, batch)
    decreases |batch|
  {
    var x, rest := batch[0], batch[1..];
    WithoutComm(xs, key, k, key(x));
    if key(x) == k {
      assert Without(Without(xs, key, k), key, k) == Without(xs, key, k) by {
        WithoutKeys(xs, key, k);
        WithoutAbsent(Without(xs, key, k), key, k);
      }
    } else {
      assert HasKey(rest, key, k) by {
        var i :| 0 <= i < |batch| && key(batch[i]) == k;
        assert key(rest[i - 1]) == k;
      }
      assert Touch(Without(xs, key, k), key, x) == Without(Touch(xs, key, x), key, k);
      WithoutTouchAll(Touch(xs, key, x), key, rest, k);
    }
  }

  /** Touching the same batch again changes nothing. */
  lemma {:induction false} TouchAllTwice<T, K>(xs: seq<T>, key: T -> K, batch: seq<T>)
    ensures TouchAll(TouchAll(xs, key, batch), key, batch) == TouchAll(xs, key, batch)
  {
    TouchAllAbsorbs(xs, key, batch, batch);
  }

  /** A later batch that covers every key of an earlier one erases its effect. */
  lemma {:induction false} TouchAllAbsorbs<T, K>(xs: seq<T>, key: T -> K, early: seq<T>, batch: seq<T>)
    requires forall i :: 0 <= i < |early| ==> HasKey(batch, key, key(early[i]))
    ensures TouchAll(TouchAll(xs, key, early), key, batch) == TouchAll(xs, key, batch)
    decreases |early|
  {
    if early != [] {
      var x := early[0];
      TouchAllAbsorbs(Touch(xs, key, x), key, early[1..], batch);
      var touched := Touch(xs, key, x);
      assert Without(touched, key, key(x)) == Without(xs, key, key(x)) by {
        WithoutKeys(xs, key, key(x));
        WithoutAbsent(Without(xs, key, key(x)), key, key(x));
      }
      WithoutTouchAll(touched, key, batch, key(x));
      WithoutTouchAll(xs, key, batch, key(x));
    }
  }

  // ---- Which batches move nothing ----

  /** What a batch leaves in front does not depend on what stood behind. */
  lemma {:induction false} TouchAllFront<T, K>(front: seq<T>, back: seq<T>, key: T -> K, batch: seq<T>)
    ensures exists rest :: TouchAll(front + back, key, batch) == TouchAll(front, key, batch) + rest
    decreases |batch|
  {
    if batch == [] {
      assert TouchAll(front + back, key, batch) == TouchAll(front, key, batch) + back;
    } else {
      var x := batch[0];
      WithoutConcat(front, back, key, key(x));
      var back' := Without(back, key, key(x));
      assert Touch(front + back, key, x) == Touch(front, key, x) + back';
      TouchAllFront(Touch(front, key, x), back', key, batch[1..]);
      var rest :| TouchAll(Touch(front, key, x) + back', key, batch[1..]) == TouchAll(Touch(front, key, x), key, batch[1..]) + rest;
      assert TouchAll(front + back, key, batch) == TouchAll(front, key, batch) + rest;
    }
  }

  /** Rows the batch has no key of stay where they are, behind. */
  lemma {:induction false} TouchAllApart<T, K>(front: seq<T>, back: seq<T>, key: T -> K, batch: seq<T>)
    requires forall i :: 0 <= i < |batch| ==> !HasKey(back, key, key(batch[i]))
    ensures TouchAll(front + back, key, batch) == TouchAll(front, key, batch) + back
    decreases |batch|
  {
    if batch != [] {
      var x := batch[0];
      WithoutConcat(front, back, key, key(x));
      WithoutAbsent(back, key, key(x));
      assert Touch(front + back, key, x) == Touch(front, key, x) + back;
      TouchAllApart(Touch(front, key, x), back, key, batch[1..]);
    }
  }

  /** Touching a batch leaves a list as it was exactly when the batch's most
      recent distinct rows already stand in front of it. */
  lemma {:induction false} TouchAllStill<T, K>(xs: seq<T>, key: T -> K, batch: seq<T>, cap: nat)
    requires DistinctKeys(xs, key) && |xs| <= cap
    ensures Capped(TouchAll(xs, key, batch), cap) == xs <==> Capped(MostRecentDistinct(batch, key), cap) <= xs
  {
    var m := MostRecentDistinct(batch, key);
    TouchAllIsMostRecent(batch, key);
    TouchAllFront([], xs, key, batch);
    assert [] + xs == xs;
    var rest :| TouchAll(xs, key, batch) == m + rest;
    if |m| <= cap && m <= xs {
      StandsInFront(xs, key, batch);
    }
  }

  lemma {:induction false} StandsInFront<T, K>(xs: seq<T>, key: T -> K, batch: seq<T>)
    requires DistinctKeys(xs, key) && MostRecentDistinct(batch, key) <= xs
    ensures TouchAll(xs, key, batch) == xs
  {
    var m := MostRecentDistinct(batch, key);
    var back := xs[|m|..];
    TouchAllIsMostRecent(batch, key);
    assert xs == m + back;
    MostRecentKeys(batch, key);
    forall i | 0 <= i < |batch| ensures !HasKey(back, key, key(batch[i])) {
      assert HasKey(batch, key, key(batch[i]));
      var j :| 0 <= j < |m| && key(m[j]) == key(batch[i]);
      assert forall k :: 0 <= k < |back| ==> back[k] == xs[|m| + k];
      assert key(xs[j]) == key(batch[i]);
    }
    TouchAllApart(m, back, key, batch);
    TouchAllTwice([], key, batch);
  }
}
