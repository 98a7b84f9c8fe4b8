/** The cookie rows of one host: how a list of rows takes new versions. */
module SessionRows {
  import opened Options
  import opened Tier1Jar
  import opened Lists
  import Recency

  datatype RowId = RowId(name: string, domain: string, path: string)

  function IdOf(c: Cookie): RowId { RowId(c.name, c.domain, c.path) }

  /** Rows are one cookie when name, domain and path are the same, letter for
      letter: cookies on different paths live side by side. */
  predicate SameRow(a: Cookie, b: Cookie) { a.name == b.name && a.domain == b.domain && a.path == b.path }

  ghost predicate UniqueRows(cs: seq<Cookie>) { Recency.DistinctKeys(cs, IdOf) }

  function FindRow(cs: seq<Cookie>, id: RowId): (r: Option<nat>)
    ensures r.Some? ==> r.value < |cs| && IdOf(cs[r.value]) == id && forall i :: 0 <= i < r.value ==> IdOf(cs[i]) != id
    ensures r.None? ==> forall i :: 0 <= i < |cs| ==> IdOf(cs[i]) != id
  {
    if cs == [] then None
    else if IdOf(cs[0]) == id then Some(0)
    else
      var r := FindRow(cs[1..], id);
      if r.None? then None else Some(r.value + 1)
  }

  function RefreshRow(cs: seq<Cookie>, c: Cookie): seq<Cookie>
  {
    var at := FindRow(cs, IdOf(c));
    if at.Some? then cs[at.value := c] else cs
  }

  function RefreshOrAppend(cs: seq<Cookie>, c: Cookie): seq<Cookie>
  {
    if FindRow(cs, IdOf(c)).Some? then RefreshRow(cs, c) else cs + [c]
  }

  function RefreshOrPush(cs: seq<Cookie>, c: Cookie): seq<Cookie>
  {
    if FindRow(cs, IdOf(c)).Some? then RefreshRow(cs, c) else [c] + cs
  }

  // ---- Versions of a row ----

  /** Which of the cookies offered count. */
  type Choice = Cookie -> bool

  predicate Takes(ok: Choice, c: Cookie, id: RowId) { ok(c) && IdOf(c) == id }

  /** The last version of a row that a batch brings. */
  function Latest(batch: seq<Cookie>, ok: Choice, id: RowId): (r: Option<Cookie>)
    ensures r.None? ==> forall i :: 0 <= i < |batch| ==> !Takes(ok, batch[i], id)
    ensures r.Some? ==> exists i :: 0 <= i < |batch| && batch[i] == r.value && Takes(ok, batch[i], id)
                                    && forall j :: i < j < |batch| ==> !Takes(ok, batch[j], id)
  {
    if batch == [] then None
    else
      var n := |batch| - 1;
      if Takes(ok, batch[n], id) then Some(batch[n]) else Latest(batch[..n], ok, id)
  }

  /** The place of the first version; the length of the batch if it has none. */
  function FirstAt(batch: seq<Cookie>, ok: Choice, id: RowId): (n: nat)
    ensures n <= |batch| && (n < |batch| ==> Takes(ok, batch[n], id))
    ensures forall i :: 0 <= i < n ==> !Takes(ok, batch[i], id)
  {
    if batch == [] then 0
    else
      var n := FirstAt(batch[..|batch| - 1], ok, id);
      if n < |batch| - 1 || Takes(ok, batch[|batch| - 1], id) then n else |batch|
  }

  predicate Known(cs: seq<Cookie>, id: RowId) { exists i :: 0 <= i < |cs| && IdOf(cs[i]) == id }

  /** No earlier row is the same cookie. */
  predicate Leads(cs: seq<Cookie>, i: nat)
    requires i < |cs|
  {
    forall j :: 0 <= j < i ==> IdOf(cs[j]) != IdOf(cs[i])
  }

  /** The row at `i` after the batch: its last version, if the batch brings one. */
  function Current(cs: seq<Cookie>, batch: seq<Cookie>, ok: Choice, i: nat): Cookie
    requires i < |cs|
  {
    var last := Latest(batch, ok, IdOf(cs[i]));
    if Leads(cs, i) && last.Some? then last.value else cs[i]
  }

  /** The cookies the batch brings that were not known, latest arrival first. */
  function Arrived(cs: seq<Cookie>, batch: seq<Cookie>, ok: Choice): seq<RowId>
  {
    if batch == [] then []
    else
      var n := |batch| - 1;
      var rest, id := Arrived(cs, batch[..n], ok), IdOf(batch[n]);
      if ok(batch[n]) && !Known(cs, id) && id !in rest then [id] + rest else rest
  }

  lemma {:induction false} LatestSnoc(batch: seq<Cookie>, ok: Choice, c: Cookie, id: RowId)
    ensures Latest(batch + [c], ok, id) == if Takes(ok, c, id) then Some(c) else Latest(batch, ok, id)
  {
    assert (batch + [c])[..|batch|] == batch;
  }

  lemma {:induction false} FirstAtSnoc(batch: seq<Cookie>, ok: Choice, c: Cookie, id: RowId)
    ensures FirstAt(batch + [c], ok, id) ==
      var n := FirstAt(batch, ok, id); if n < |batch| || Takes(ok, c, id) then n else |batch| + 1
    ensures Latest(batch, ok, id).Some? <==> FirstAt(batch, ok, id) < |batch|
  {
    assert (batch + [c])[..|batch|] == batch;
  }

  lemma {:induction false} ArrivedSnoc(cs: seq<Cookie>, batch: seq<Cookie>, ok: Choice, c: Cookie)
    ensures var a := Arrived(cs, batch, ok);
      Arrived(cs, batch + [c], ok) == if ok(c) && !Known(cs, IdOf(c)) && IdOf(c) !in a then [IdOf(c)] + a else a
  {
    assert (batch + [c])[..|batch|] == batch;
  }

  /** They are the unknown cookies with a version in the batch, each once. */
  lemma {:induction false} ArrivedMembers(cs: seq<Cookie>, batch: seq<Cookie>, ok: Choice)
    ensures NoRepeats(Arrived(cs, batch, ok))
    ensures forall id :: id in Arrived(cs, batch, ok) <==> !Known(cs, id) && Latest(batch, ok, id).Some?
  {
    if batch != [] {
      var n := |batch| - 1;
      var front, c := batch[..n], batch[n];
      assert batch == front + [c];
      ArrivedMembers(cs, front, ok);
      ArrivedSnoc(cs, front, ok, c);
      forall id ensures id in Arrived(cs, batch, ok) <==> !Known(cs, id) && Latest(batch, ok, id).Some? {
        LatestSnoc(front, ok, c, id);
      }
    }
  }

  lemma {:induction false} ArrivedFacts(cs: seq<Cookie>, batch: seq<Cookie>, ok: Choice, id: RowId)
    ensures NoRepeats(Arrived(cs, batch, ok)) && (id in Arrived(cs, batch, ok) ==> !Known(cs, id))
  {
    ArrivedMembers(cs, batch, ok);
  }

  /** Where the first versions stand. */
  function Places(ids: seq<RowId>, batch: seq<Cookie>, ok: Choice): seq<nat>
  {
    seq(|ids|, i requires 0 <= i < |ids| => FirstAt(batch, ok, ids[i]))
  }

  predicate Decreasing(ns: seq<nat>) { forall i, j :: 0 <= i < j < |ns| ==> ns[i] > ns[j] }

  lemma {:induction false} PlacesKept(ids: seq<RowId>, batch: seq<Cookie>, ok: Choice, c: Cookie)
    requires forall i :: 0 <= i < |ids| ==> Latest(batch, ok, ids[i]).Some?
    ensures Places(ids, batch + [c], ok) == Places(ids, batch, ok)
    ensures forall i :: 0 <= i < |ids| ==> Places(ids, batch, ok)[i] < |batch|
  {
    forall i | 0 <= i < |ids|
      ensures FirstAt(batch + [c], ok, ids[i]) == FirstAt(batch, ok, ids[i]) < |batch|
    {
      FirstAtSnoc(batch, ok, c, ids[i]);
    }
  }

  lemma {:induction false} DecreasingCons(n: nat, ns: seq<nat>)
    requires Decreasing(ns) && forall i :: 0 <= i < |ns| ==> ns[i] < n
    ensures Decreasing([n] + ns)
  {
  }

  /** They stand in the order of their first versions, the last one first. */
  lemma {:induction false} ArrivedOrder(cs: seq<Cookie>, batch: seq<Cookie>, ok: Choice)
    ensures Decreasing(Places(Arrived(cs, batch, ok), batch, ok))
  {
    if batch != [] {
      var n := |batch| - 1;
      var front, c := batch[..n], batch[n];
      var rest := Arrived(cs, front, ok);
      assert batch == front + [c];
      ArrivedOrder(cs, front, ok);
      ArrivedSnoc(cs, front, ok, c);
      ArrivedHave(cs, front, ok);
      PlacesKept(rest, front, ok, c);
      if Arrived(cs, batch, ok) != rest {
        NewPlace(cs, front, ok, c);
        DecreasingCons(n, Places(rest, front, ok));
      }
    }
  }

  lemma {:induction false} ArrivedHave(cs: seq<Cookie>, batch: seq<Cookie>, ok: Choice)
    ensures var a := Arrived(cs, batch, ok); forall i :: 0 <= i < |a| ==> Latest(batch, ok, a[i]).Some?
  {
    ArrivedMembers(cs, batch, ok);
    var a := Arrived(cs, batch, ok);
    forall i | 0 <= i < |a| ensures Latest(batch, ok, a[i]).Some? {
      assert a[i] in a;
    }
  }

  lemma {:induction false} NewPlace(cs: seq<Cookie>, batch: seq<Cookie>, ok: Choice, c: Cookie)
    requires ok(c) && !Known(cs, IdOf(c)) && IdOf(c) !in Arrived(cs, batch, ok)
    ensures var a := Arrived(cs, batch, ok);
      Places([IdOf(c)] + a, batch + [c], ok) == [|batch|] + Places(a, batch, ok)
  {
    var a := Arrived(cs, batch, ok);
    ArrivedMembers(cs, batch, ok);
    FirstAtSnoc(batch, ok, c, IdOf(c));
    ArrivedHave(cs, batch, ok);
    PlacesKept(a, batch, ok, c);
    forall i | 0 <= i < |a| ensures FirstAt(batch + [c], ok, a[i]) == FirstAt(batch, ok, a[i]) {
      assert Places(a, batch + [c], ok)[i] == Places(a, batch, ok)[i];
    }
  }

  // ---- What a batch makes of a list ----

  /** Every row is its last version, where it stood. */
  ghost predicate Refreshed(cs: seq<Cookie>, batch: seq<Cookie>, ok: Choice, rows: seq<Cookie>)
  {
    |rows| == |cs| && forall i :: 0 <= i < |cs| ==> rows[i] == Current(cs, batch, ok, i)
  }

  /** The cookies of these identities, each in its last version. */
  ghost predicate Arrivals(ids: seq<RowId>, batch: seq<Cookie>, ok: Choice, rows: seq<Cookie>)
  {
    |rows| == |ids| && forall i :: 0 <= i < |ids| ==> IdOf(rows[i]) == ids[i] && Latest(batch, ok, ids[i]) == Some(rows[i])
  }

  /** Known rows are refreshed where they stand; what is new stands in front,
      latest arrival first. */
  ghost predicate Merged(cs: seq<Cookie>, batch: seq<Cookie>, ok: Choice, rows: seq<Cookie>)
  {
    var ids := Arrived(cs, batch, ok);
    |rows| == |ids| + |cs| && Arrivals(ids, batch, ok, rows[..|ids|]) && Refreshed(cs, batch, ok, rows[|ids|..])
  }

  function Reversed<T>(xs: seq<T>): seq<T> { seq(|xs|, i requires 0 <= i < |xs| => xs[|xs| - 1 - i]) }

  /** Known rows are refreshed where they stand; what is new stands behind, in
      the order of arrival. */
  ghost predicate Appended(cs: seq<Cookie>, batch: seq<Cookie>, ok: Choice, rows: seq<Cookie>)
  {
    var ids := Reversed(Arrived(cs, batch, ok));
    |rows| == |cs| + |ids| && Refreshed(cs, batch, ok, rows[..|cs|]) && Arrivals(ids, batch, ok, rows[|cs|..])
  }

  lemma {:induction false} NothingMerged(cs: seq<Cookie>, ok: Choice)
    ensures Refreshed(cs, [], ok, cs) && Merged(cs, [], ok, cs) && Appended(cs, [], ok, cs)
  {
    assert cs[0..] == cs && cs[..|cs|] == cs;
  }

  /** One more cookie, as its place in the list. */
  lemma {:induction false} RefreshedStep(cs: seq<Cookie>, batch: seq<Cookie>, ok: Choice, rows: seq<Cookie>, c: Cookie)
    requires Refreshed(cs, batch, ok, rows)
    ensures !ok(c) ==> Refreshed(cs, batch + [c], ok, rows)
    ensures ok(c) ==> Refreshed(cs, batch + [c], ok, RefreshRow(rows, c))
    ensures FindRow(rows, IdOf(c)).Some? <==> Known(cs, IdOf(c))
  {
    var at := FindRow(rows, IdOf(c));
    forall i | 0 <= i < |cs|
      ensures IdOf(rows[i]) == IdOf(cs[i])
      ensures Current(cs, batch + [c], ok, i) == if Leads(cs, i) && Takes(ok, c, IdOf(cs[i])) then c else rows[i]
    {
      LatestSnoc(batch, ok, c, IdOf(cs[i]));
    }
    if at.Some? {
      assert IdOf(cs[at.value]) == IdOf(c) && Leads(cs, at.value);
      forall i | 0 <= i < |cs| && IdOf(cs[i]) == IdOf(c) && i != at.value ensures !Leads(cs, i) {
        assert IdOf(rows[i]) == IdOf(c);
      }
    }
  }

  /** A known arrival takes a new version. */
  lemma {:induction false} ArrivalsStep(ids: seq<RowId>, batch: seq<Cookie>, ok: Choice, rows: seq<Cookie>, c: Cookie)
    requires Arrivals(ids, batch, ok, rows) && NoRepeats(ids)
    ensures !ok(c) || IdOf(c) !in ids ==> Arrivals(ids, batch + [c], ok, rows)
    ensures ok(c) && IdOf(c) in ids ==> Arrivals(ids, batch + [c], ok, RefreshRow(rows, c))
    ensures FindRow(rows, IdOf(c)).Some? <==> IdOf(c) in ids
  {
    ArrivalsFind(ids, batch, ok, rows, c);
    if ok(c) && IdOf(c) in ids {
      ArrivalsRefresh(ids, batch, ok, rows, c, FindRow(rows, IdOf(c)).value);
    } else {
      forall i | 0 <= i < |ids| ensures Latest(batch + [c], ok, ids[i]) == Latest(batch, ok, ids[i]) {
        LatestSnoc(batch, ok, c, ids[i]);
      }
    }
  }

  lemma {:induction false} ArrivalsFind(ids: seq<RowId>, batch: seq<Cookie>, ok: Choice, rows: seq<Cookie>, c: Cookie)
    requires Arrivals(ids, batch, ok, rows)
    ensures FindRow(rows, IdOf(c)).Some? <==> IdOf(c) in ids
    ensures FindRow(rows, IdOf(c)).Some? ==> ids[FindRow(rows, IdOf(c)).value] == IdOf(c)
  {
    var at := FindRow(rows, IdOf(c));
    if at.Some? {
      assert IdOf(rows[at.value]) == ids[at.value];
    } else {
      forall i | 0 <= i < |ids| ensures ids[i] != IdOf(c) {
        assert IdOf(rows[i]) == ids[i];
      }
    }
  }

  lemma {:induction false} ArrivalsRefresh(ids: seq<RowId>, batch: seq<Cookie>, ok: Choice, rows: seq<Cookie>, c: Cookie, k: nat)
    requires Arrivals(ids, batch, ok, rows) && NoRepeats(ids) && ok(c) && k < |ids| && ids[k] == IdOf(c)
    ensures Arrivals(ids, batch + [c], ok, rows[k := c])
  {
    forall i | 0 <= i < |ids|
      ensures IdOf(rows[k := c][i]) == ids[i] && Latest(batch + [c], ok, ids[i]) == Some(rows[k := c][i])
    {
      LatestSnoc(batch, ok, c, ids[i]);
      assert i != k ==> ids[i] != ids[k];
      assert IdOf(rows[i]) == ids[i];
    }
  }

  lemma {:induction false} FindConcat(a: seq<Cookie>, b: seq<Cookie>, id: RowId)
    ensures FindRow(a + b, id) ==
      if FindRow(a, id).Some? then FindRow(a, id)
      else if FindRow(b, id).Some? then Some(|a| + FindRow(b, id).value)
      else None
    decreases |a|
  {
    if a == [] {
      assert a + b == b;
    } else {
      var x, rest := a[0], a[1..];
      assert a == [x] + rest;
      InFront(x, rest, b);
      FindCons(x, rest, id);
      FindCons(x, rest + b, id);
      FindConcat(rest, b, id);
    }
  }

  lemma {:induction false} FindCons(x: Cookie, s: seq<Cookie>, id: RowId)
    ensures FindRow([x] + s, id) ==
      if IdOf(x) == id then Some(0) else if FindRow(s, id).Some? then Some(FindRow(s, id).value + 1) else None
  {
    assert ([x] + s)[1..] == s;
  }

  lemma {:induction false} RefreshConcat(a: seq<Cookie>, b: seq<Cookie>, c: Cookie)
    ensures RefreshRow(a + b, c) == if FindRow(a, IdOf(c)).Some? then RefreshRow(a, c) + b else a + RefreshRow(b, c)
  {
    FindConcat(a, b, IdOf(c));
    var at := FindRow(a + b, IdOf(c));
    if at.Some? { UpdateConcat(a, b, at.value, c); }
  }

  lemma {:induction false} UpdateConcat(a: seq<Cookie>, b: seq<Cookie>, n: nat, c: Cookie)
    requires n < |a| + |b|
    ensures (a + b)[n := c] == if n < |a| then a[n := c] + b else a + b[n - |a| := c]
  {
  }

  lemma {:induction false} MergedFrom(cs: seq<Cookie>, batch: seq<Cookie>, ok: Choice, ids: seq<RowId>, front: seq<Cookie>, back: seq<Cookie>)
    requires ids == Arrived(cs, batch, ok) && Arrivals(ids, batch, ok, front) && Refreshed(cs, batch, ok, back)
    ensures Merged(cs, batch, ok, front + back)
  {
    Halves(front, back, |ids|);
  }

  /** One more cookie. */
  lemma {:induction false} MergedStep(cs: seq<Cookie>, batch: seq<Cookie>, ok: Choice, rows: seq<Cookie>, c: Cookie)
    requires Merged(cs, batch, ok, rows)
    ensures Merged(cs, batch + [c], ok, if ok(c) then RefreshOrPush(rows, c) else rows)
  {
    var ids := Arrived(cs, batch, ok);
    assert rows == rows[..|ids|] + rows[|ids|..];
    MergedParts(cs, batch, ok, ids, rows[..|ids|], rows[|ids|..], c);
  }

  lemma {:induction false} MergedParts(cs: seq<Cookie>, batch: seq<Cookie>, ok: Choice, ids: seq<RowId>, front: seq<Cookie>, back: seq<Cookie>, c: Cookie)
    requires ids == Arrived(cs, batch, ok) && Arrivals(ids, batch, ok, front) && Refreshed(cs, batch, ok, back)
    ensures Merged(cs, batch + [c], ok, if ok(c) then RefreshOrPush(front + back, c) else front + back)
  {
    ArrivedFacts(cs, batch, ok, IdOf(c));
    ArrivedSnoc(cs, batch, ok, c);
    RefreshConcat(front, back, c);
    FindConcat(front, back, IdOf(c));
    ArrivalsFind(ids, batch, ok, front, c);
    RefreshedFind(cs, batch, ok, back, c);
    if ok(c) && IdOf(c) in ids {
      KeepsUnknown(cs, batch, ok, back, c);
      ArrivalsStep(ids, batch, ok, front, c);
      MergedFrom(cs, batch + [c], ok, ids, RefreshRow(front, c), back);
    } else if ok(c) && !Known(cs, IdOf(c)) {
      MergedNew(cs, batch, ok, ids, front, back, c);
      InFront(c, front, back);
    } else {
      RefreshedStep(cs, batch, ok, back, c);
      ArrivalsStep(ids, batch, ok, front, c);
      MergedFrom(cs, batch + [c], ok, ids, front, if ok(c) then RefreshRow(back, c) else back);
    }
  }

  lemma {:induction false} InFront<T>(x: T, a: seq<T>, b: seq<T>)
    ensures [x] + (a + b) == ([x] + a) + b
  {
  }

  lemma {:induction false} MergedNew(cs: seq<Cookie>, batch: seq<Cookie>, ok: Choice, ids: seq<RowId>, front: seq<Cookie>, back: seq<Cookie>, c: Cookie)
    requires ids == Arrived(cs, batch, ok) && Arrivals(ids, batch, ok, front) && Refreshed(cs, batch, ok, back)
    requires ok(c) && !Known(cs, IdOf(c)) && IdOf(c) !in ids
    ensures Merged(cs, batch + [c], ok, ([c] + front) + back)
  {
    ArrivedFacts(cs, batch, ok, IdOf(c));
    ArrivedSnoc(cs, batch, ok, c);
    KeepsUnknown(cs, batch, ok, back, c);
    NewArrival(ids, batch, ok, front, c);
    MergedFrom(cs, batch + [c], ok, [IdOf(c)] + ids, [c] + front, back);
  }

  lemma {:induction false} RefreshedFind(cs: seq<Cookie>, batch: seq<Cookie>, ok: Choice, rows: seq<Cookie>, c: Cookie)
    requires Refreshed(cs, batch, ok, rows)
    ensures FindRow(rows, IdOf(c)).Some? <==> Known(cs, IdOf(c))
  {
    RefreshedStep(cs, batch, ok, rows, c);
  }

  lemma {:induction false} Halves<T>(a: seq<T>, b: seq<T>, n: nat)
    requires |a| == n
    ensures (a + b)[..n] == a && (a + b)[n..] == b
  {
  }

  /** A cookie the list does not know changes none of its rows. */
  lemma {:induction false} KeepsUnknown(cs: seq<Cookie>, batch: seq<Cookie>, ok: Choice, rows: seq<Cookie>, c: Cookie)
    requires Refreshed(cs, batch, ok, rows) && !Known(cs, IdOf(c))
    ensures Refreshed(cs, batch + [c], ok, rows)
  {
    forall i | 0 <= i < |cs| ensures Latest(batch + [c], ok, IdOf(cs[i])) == Latest(batch, ok, IdOf(cs[i])) {
      LatestSnoc(batch, ok, c, IdOf(cs[i]));
    }
  }

  lemma {:induction false} NewArrival(ids: seq<RowId>, batch: seq<Cookie>, ok: Choice, rows: seq<Cookie>, c: Cookie)
    requires Arrivals(ids, batch, ok, rows) && NoRepeats(ids) && ok(c) && IdOf(c) !in ids
    ensures Arrivals([IdOf(c)] + ids, batch + [c], ok, [c] + rows)
    ensures Arrivals(ids + [IdOf(c)], batch + [c], ok, rows + [c])
  {
    ArrivalsStep(ids, batch, ok, rows, c);
    LatestSnoc(batch, ok, c, IdOf(c));
  }

  lemma {:induction false} ReversedCons<T>(x: T, xs: seq<T>)
    ensures Reversed([x] + xs) == Reversed(xs) + [x]
  {
  }

  lemma {:induction false} ReversedMembers<T>(xs: seq<T>)
    requires NoRepeats(xs)
    ensures NoRepeats(Reversed(xs)) && |Reversed(xs)| == |xs| && forall x :: x in Reversed(xs) <==> x in xs
  {
    forall x | x in xs ensures x in Reversed(xs) {
      var i :| 0 <= i < |xs| && xs[i] == x;
      assert Reversed(xs)[|xs| - 1 - i] == x;
    }
  }

  lemma {:induction false} AppendedFrom(cs: seq<Cookie>, batch: seq<Cookie>, ok: Choice, ids: seq<RowId>, front: seq<Cookie>, back: seq<Cookie>)
    requires ids == Reversed(Arrived(cs, batch, ok)) && Refreshed(cs, batch, ok, front) && Arrivals(ids, batch, ok, back)
    ensures Appended(cs, batch, ok, front + back)
  {
    Halves(front, back, |cs|);
  }

  lemma {:induction false} AppendedStep(cs: seq<Cookie>, batch: seq<Cookie>, ok: Choice, rows: seq<Cookie>, c: Cookie)
    requires Appended(cs, batch, ok, rows)
    ensures Appended(cs, batch + [c], ok, if ok(c) then RefreshOrAppend(rows, c) else rows)
  {
    var a := Arrived(cs, batch, ok);
    assert rows == rows[..|cs|] + rows[|cs|..];
    AppendedParts(cs, batch, ok, a, rows[..|cs|], rows[|cs|..], c);
  }

  lemma {:induction false} AppendedParts(cs: seq<Cookie>, batch: seq<Cookie>, ok: Choice, a: seq<RowId>, front: seq<Cookie>, back: seq<Cookie>, c: Cookie)
    requires a == Arrived(cs, batch, ok) && Refreshed(cs, batch, ok, front) && Arrivals(Reversed(a), batch, ok, back)
    ensures Appended(cs, batch + [c], ok, if ok(c) then RefreshOrAppend(front + back, c) else front + back)
  {
    var ids := Reversed(a);
    ArrivedFacts(cs, batch, ok, IdOf(c));
    ReversedMembers(a);
    ArrivedSnoc(cs, batch, ok, c);
    RefreshConcat(front, back, c);
    FindConcat(front, back, IdOf(c));
    ArrivalsFind(ids, batch, ok, back, c);
    RefreshedFind(cs, batch, ok, front, c);
    if ok(c) && IdOf(c) in a {
      KeepsUnknown(cs, batch, ok, front, c);
      ArrivalsStep(ids, batch, ok, back, c);
      AppendedFrom(cs, batch + [c], ok, ids, front, RefreshRow(back, c));
    } else if ok(c) && !Known(cs, IdOf(c)) {
      AppendedNew(cs, batch, ok, a, front, back, c);
      Behind(front, back, c);
    } else {
      RefreshedStep(cs, batch, ok, front, c);
      ArrivalsStep(ids, batch, ok, back, c);
      AppendedFrom(cs, batch + [c], ok, ids, if ok(c) then RefreshRow(front, c) else front, back);
    }
  }

  lemma {:induction false} Behind<T>(a: seq<T>, b: seq<T>, x: T)
    ensures (a + b) + [x] == a + (b + [x])
  {
  }

  lemma {:induction false} AppendedNew(cs: seq<Cookie>, batch: seq<Cookie>, ok: Choice, a: seq<RowId>, front: seq<Cookie>, back: seq<Cookie>, c: Cookie)
    requires a == Arrived(cs, batch, ok) && Refreshed(cs, batch, ok, front) && Arrivals(Reversed(a), batch, ok, back)
    requires ok(c) && !Known(cs, IdOf(c)) && IdOf(c) !in a
    ensures Appended(cs, batch + [c], ok, front + (back + [c]))
  {
    ArrivedFacts(cs, batch, ok, IdOf(c));
    ReversedMembers(a);
    ArrivedSnoc(cs, batch, ok, c);
    KeepsUnknown(cs, batch, ok, front, c);
    NewArrival(Reversed(a), batch, ok, back, c);
    ReversedCons(IdOf(c), a);
    AppendedFrom(cs, batch + [c], ok, Reversed(a) + [IdOf(c)], front, back + [c]);
  }

  // ---- The lists themselves ----

  /** Every cookie of the batch refreshed in place or put in front. */
  function Pushed(cs: seq<Cookie>, batch: seq<Cookie>, ok: Choice): seq<Cookie>
  {
    if batch == [] then cs
    else
      var n := |batch| - 1;
      var rows := Pushed(cs, batch[..n], ok);
      if ok(batch[n]) then RefreshOrPush(rows, batch[n]) else rows
  }

  /** Every cookie of the batch refreshed in place or put behind. */
  function Queued(cs: seq<Cookie>, batch: seq<Cookie>, ok: Choice): seq<Cookie>
  {
    if batch == [] then cs
    else
      var n := |batch| - 1;
      var rows := Queued(cs, batch[..n], ok);
      if ok(batch[n]) then RefreshOrAppend(rows, batch[n]) else rows
  }

  /** Every known cookie of the batch refreshed in place. */
  function Renewed(cs: seq<Cookie>, batch: seq<Cookie>, ok: Choice): seq<Cookie>
  {
    if batch == [] then cs
    else
      var n := |batch| - 1;
      var rows := Renewed(cs, batch[..n], ok);
      if ok(batch[n]) then RefreshRow(rows, batch[n]) else rows
  }

  lemma {:induction false} PushedIsMerged(cs: seq<Cookie>, batch: seq<Cookie>, ok: Choice)
    ensures Merged(cs, batch, ok, Pushed(cs, batch, ok))
  {
    if batch == [] {
      NothingMerged(cs, ok);
    } else {
      var n := |batch| - 1;
      PushedIsMerged(cs, batch[..n], ok);
      MergedStep(cs, batch[..n], ok, Pushed(cs, batch[..n], ok), batch[n]);
      assert batch == batch[..n] + [batch[n]];
    }
  }

  lemma {:induction false} QueuedIsAppended(cs: seq<Cookie>, batch: seq<Cookie>, ok: Choice)
    ensures Appended(cs, batch, ok, Queued(cs, batch, ok))
  {
    if batch == [] {
      NothingMerged(cs, ok);
    } else {
      var n := |batch| - 1;
      QueuedIsAppended(cs, batch[..n], ok);
      AppendedStep(cs, batch[..n], ok, Queued(cs, batch[..n], ok), batch[n]);
      assert batch == batch[..n] + [batch[n]];
    }
  }

  lemma {:induction false} RenewedIsRefreshed(cs: seq<Cookie>, batch: seq<Cookie>, ok: Choice)
    ensures Refreshed(cs, batch, ok, Renewed(cs, batch, ok))
  {
    if batch == [] {
      NothingMerged(cs, ok);
    } else {
      var n := |batch| - 1;
      RenewedIsRefreshed(cs, batch[..n], ok);
      RefreshedStep(cs, batch[..n], ok, Renewed(cs, batch[..n], ok), batch[n]);
      assert batch == batch[..n] + [batch[n]];
    }
  }
}
