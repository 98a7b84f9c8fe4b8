/** The handle table of src/handles.rs: link handles with LRU eviction, search
    handles with FIFO eviction, and resolution back to URLs. */
module Handles {
  import opened Options
  import opened Text
  import opened Lists
  import Recency

  type Id = string

  type Url = string

  const MAX_L_ENTRIES: nat := 2048
  const MAX_S_ENTRIES: nat := 2048
  const ID_LEN: nat := 8

  datatype LEntry = LEntry(url: Url, at: nat, stamp: nat)

  function Same(u: Url): Url { u }

  // ---- Identifiers ----

  function Base62(d: nat): char
    requires d < 62
  {
    if d < 10 then (d + '0' as int) as char
    else if d < 36 then (d - 10 + 'a' as int) as char
    else (d - 36 + 'A' as int) as char
  }

  predicate IsBase62(c: char) { '0' <= c <= '9' || 'a' <= c <= 'z' || 'A' <= c <= 'Z' }

  /** Prefix and eight base62 characters: what the generator returns. */
  predicate WellFormed(prefix: char, id: Id)
  {
    |id| == ID_LEN + 1 && id[0] == prefix && forall i :: 1 <= i < |id| ==> IsBase62(id[i])
  }

  function Digits(n: nat, k: nat): (s: string)
    ensures |s| == k && forall i :: 0 <= i < k ==> IsBase62(s[i])
  {
    if k == 0 then "" else Digits(n / 62, k - 1) + [Base62(n % 62)]
  }

  function Pow62(k: nat): nat { if k == 0 then 1 else 62 * Pow62(k - 1) }

  lemma {:induction false} DigitsInjective(m: nat, n: nat, k: nat)
    requires m < Pow62(k) && n < Pow62(k) && Digits(m, k) == Digits(n, k)
    ensures m == n
  {
    if k > 0 {
      var a, b := Digits(m / 62, k - 1), Digits(n / 62, k - 1);
      assert Digits(m, k)[..k - 1] == a && Digits(n, k)[..k - 1] == b;
      assert Digits(m, k)[k - 1] == Base62(m % 62) && Digits(n, k)[k - 1] == Base62(n % 62);
      DigitsInjective(m / 62, n / 62, k - 1);
    }
  }

  /** Fewer taken identifiers than candidates leave one free. */
  lemma {:induction false} SomeFree(taken: set<Id>, prefix: char, n: nat)
    requires |taken| < n <= Pow62(ID_LEN)
    ensures exists i: nat :: i < n && [prefix] + Digits(i, ID_LEN) !in taken
  {
    var last := [prefix] + Digits(n - 1, ID_LEN);
    if last in taken {
      SomeFree(taken - {last}, prefix, n - 1);
      var i: nat :| i < n - 1 && [prefix] + Digits(i, ID_LEN) !in taken - {last};
      if [prefix] + Digits(i, ID_LEN) == last {
        assert ([prefix] + Digits(i, ID_LEN))[1..] == Digits(i, ID_LEN) && last[1..] == Digits(n - 1, ID_LEN);
        DigitsInjective(i, n - 1, ID_LEN);
      }
      assert [prefix] + Digits(i, ID_LEN) !in taken;
    }
  }

  lemma {:induction false} Pow62Big()
    ensures Pow62(ID_LEN) > 2 * MAX_L_ENTRIES
  {
  }

  /** Draw candidates until one is not taken. Which one is drawn is not part of
      the contract: callers hold for every well-formed choice. */
  method FreshId(prefix: char, taken: set<Id>) returns (id: Id)
    requires |taken| <= 2 * MAX_L_ENTRIES
    ensures WellFormed(prefix, id) && id !in taken
  {
    Pow62Big();
    SomeFree(taken, prefix, |taken| + 1);
    ghost var free: nat :| free <= |taken| && [prefix] + Digits(free, ID_LEN) !in taken;
    var n := 0;
    id := [prefix] + Digits(n, ID_LEN);
    while id in taken
      invariant n <= free && id == [prefix] + Digits(n, ID_LEN)
      decreases free - n
    {
      n := n + 1;
      id := [prefix] + Digits(n, ID_LEN);
    }
  }

  // ---- The link table as a value ----

  ghost predicate Inverse(l: map<Id, LEntry>, rev: map<Url, Id>)
  {
    && (forall id :: id in l ==> l[id].url in rev && rev[l[id].url] == id)
    && (forall u :: u in rev ==> rev[u] in l && l[rev[u]].url == u)
  }

  /** When each live URL was last interned. */
  ghost function Stamps(l: map<Id, LEntry>, rev: map<Url, Id>): map<Url, nat>
    requires Inverse(l, rev)
  {
    map u | u in rev :: l[rev[u]].stamp
  }

  /** `xs` lists URLs by falling stamp. */
  ghost predicate Falling(stamps: map<Url, nat>, xs: seq<Url>)
  {
    xs == [] ||
    (&& xs[0] in stamps
     && (forall u :: u in xs[1..] ==> u in stamps && stamps[u] < stamps[xs[0]])
     && Falling(stamps, xs[1..]))
  }

  /** `recent` lists the stamped URLs, latest first. */
  ghost predicate ByRecency(stamps: map<Url, nat>, recent: seq<Url>)
  {
    Falling(stamps, recent) && |recent| == |stamps| && forall u :: u in recent <==> u in stamps
  }

  ghost predicate Linked(l: map<Id, LEntry>, rev: map<Url, Id>, nextSeq: nat, recent: seq<Url>)
  {
    Inverse(l, rev) && ByRecency(Stamps(l, rev), recent) && forall u :: u in rev ==> l[rev[u]].stamp <= nextSeq
  }

  ghost predicate Minted(prefix: char, ids: set<Id>) { forall id :: id in ids ==> WellFormed(prefix, id) }

  /** The entry with the smallest stamp. */
  method Oldest(l: map<Id, LEntry>) returns (id: Id)
    requires l != map[]
    ensures id in l && forall other :: other in l ==> l[id].stamp <= l[other].stamp
  {
    id :| id in l;
    var left := l.Keys - {id};
    while left != {}
      invariant left <= l.Keys && id in l && id !in left
      invariant forall other :: other in l && other !in left ==> l[id].stamp <= l[other].stamp
      decreases left
    {
      var next :| next in left;
      left := left - {next};
      if l[next].stamp < l[id].stamp {
        id := next;
      }
    }
  }

  /** No URL changed its handle between the two tables. */
  ghost predicate Consistent(rev: map<Url, Id>, was: map<Url, Id>)
  {
    forall u :: u in rev && u in was ==> rev[u] == was[u]
  }

  ghost predicate Subtable(rev: map<Url, Id>, was: map<Url, Id>)
  {
    forall u :: u in rev ==> u in was && rev[u] == was[u]
  }

  class HandleTable {
    var l: map<Id, LEntry>
    var rev: map<Url, Id>
    var s: map<Id, Url>
    var sOrder: seq<Id>
    var nextSeq: nat
    /** Live link URLs, most recently interned first. */
    ghost var recent: seq<Url>

    ghost predicate Valid()
      reads this
    {
      LinksValid() && SearchesValid()
    }

    ghost predicate LinksValid()
      reads this`l, this`rev, this`nextSeq, this`recent
    {
      Linked(l, rev, nextSeq, recent) && |l| <= MAX_L_ENTRIES && Minted('L', l.Keys)
    }

    ghost predicate SearchesValid()
      reads this`s, this`sOrder
    {
      Queued(s, sOrder) && |sOrder| <= MAX_S_ENTRIES && Minted('S', s.Keys)
    }

    constructor ()
      ensures Valid() && recent == [] && sOrder == []
    {
      l, rev, s, sOrder, nextSeq := map[], map[], map[], [], 0;
      recent := [];
    }

    /** A live URL keeps its handle; a new one gets a fresh handle, and the
        least recently interned URL leaves past the cap. */
    method InternLink(url: Url, now: nat) returns (id: Id)
      requires LinksValid()
      modifies this`l, this`rev, this`nextSeq, this`recent
      ensures LinksValid()
      ensures recent == Recency.Capped(Recency.Touch(old(recent), Same, url), MAX_L_ENTRIES)
      ensures url in rev && rev[url] == id
      ensures Consistent(rev, old(rev))
    {
      if url in rev {
        id := rev[url];
        Refresh(url, now);
      } else {
        id := Mint(url, now);
        EvictLinks();
        Newcomer(l, rev, nextSeq, recent, old(rev), url, id);
      }
    }

    method Refresh(url: Url, now: nat)
      requires LinksValid() && url in rev
      modifies this`l, this`nextSeq, this`recent
      ensures LinksValid()
      ensures recent == Recency.Capped(Recency.Touch(old(recent), Same, url), MAX_L_ENTRIES)
    {
      var id := rev[url];
      nextSeq := nextSeq + 1;
      TouchLive(l, rev, recent, url, now, nextSeq);
      TouchLiveKeys(l, id, l[id].(at := now, stamp := nextSeq));
      l := l[id := l[id].(at := now, stamp := nextSeq)];
      recent := Recency.Touch(recent, Same, url);
    }

    method Mint(url: Url, now: nat) returns (id: Id)
      requires LinksValid() && url !in rev
      modifies this`l, this`rev, this`nextSeq, this`recent
      ensures Linked(l, rev, nextSeq, recent) && Minted('L', l.Keys)
      ensures recent == Recency.Touch(old(recent), Same, url)
      ensures id !in old(l) && rev == old(rev)[url := id]
    {
      id := FreshId('L', l.Keys);
      nextSeq := nextSeq + 1;
      Added(old(l), old(rev), nextSeq, old(recent), url, id, now);
      l := l[id := LEntry(url, now, nextSeq)];
      rev := rev[url := id];
      recent := Recency.Touch(recent, Same, url);
    }

    method EvictLinks()
      requires Linked(l, rev, nextSeq, recent) && Minted('L', l.Keys)
      modifies this`l, this`rev, this`recent
      ensures LinksValid()
      ensures recent == Recency.Capped(old(recent), MAX_L_ENTRIES)
      ensures Subtable(rev, old(rev))
    {
      LinkedCount(l, rev, nextSeq, recent);
      while |l| > MAX_L_ENTRIES
        invariant Evicting(l, rev, nextSeq, recent, old(rev), old(recent))
        decreases |l|
      {
        ghost var full, urls, order := l, rev, recent;
        ghost var oldest := EvictOne();
        EvictStep(full, urls, nextSeq, order, oldest, l, rev, recent, old(rev), old(recent));
      }
    }

    method EvictOne() returns (ghost oldest: Id)
      requires l != map[] && recent != []
      modifies this`l, this`rev, this`recent
      ensures oldest in old(l) && forall other :: other in old(l) ==> old(l)[oldest].stamp <= old(l)[other].stamp
      ensures l == old(l) - {oldest} && rev == old(rev) - {old(l)[oldest].url}
      ensures recent == old(recent)[..|old(recent)| - 1]
    {
      var id := Oldest(l);
      recent := recent[..|recent| - 1];
      rev := rev - {l[id].url};
      l := l - {id};
      oldest := id;
    }

    /** Mint one handle per result, oldest handles leaving past the cap. */
    method SetSearchResults(urls: seq<Url>) returns (handles: seq<Id>)
      requires SearchesValid()
      modifies this`s, this`sOrder
      ensures SearchesValid()
      ensures |handles| == |urls|
      ensures sOrder == Newest(old(sOrder) + handles, MAX_S_ENTRIES)
      ensures BoundTo(s, old(s), handles, urls)
    {
      handles := [];
      for i := 0 to |urls|
        invariant SearchesValid() && |handles| == i
        invariant Batch(s, sOrder, old(s), old(sOrder), handles, urls[..i])
      {
        ghost var before, order := s, sOrder;
        var id := MintSearch(urls[i]);
        BatchSnoc(s, before, order, old(s), old(sOrder), handles, urls, i, id);
        handles := handles + [id];
      }
      assert urls[..|urls|] == urls;
    }

    method MintSearch(url: Url) returns (id: Id)
      requires SearchesValid()
      modifies this`s, this`sOrder
      ensures SearchesValid()
      ensures sOrder == Newest(old(sOrder) + [id], MAX_S_ENTRIES)
      ensures id !in old(s) && Gained(s, old(s), id, url)
    {
      id := FreshId('S', s.Keys);
      Enqueue(s, sOrder, id, url);
      s := s[id := url];
      sOrder := sOrder + [id];
      EvictSearches();
    }

    method EvictSearches()
      requires Queued(s, sOrder) && Minted('S', s.Keys)
      modifies this`s, this`sOrder
      ensures SearchesValid()
      ensures sOrder == Newest(old(sOrder), MAX_S_ENTRIES)
      ensures Subsearch(s, old(s))
    {
      while |s| > MAX_S_ENTRIES
        invariant Queued(s, sOrder) && Minted('S', s.Keys)
        invariant Newest(sOrder, MAX_S_ENTRIES) == Newest(old(sOrder), MAX_S_ENTRIES)
        invariant Subsearch(s, old(s))
        decreases |s|
      {
        NewestTail(sOrder, MAX_S_ENTRIES);
        DropOldestSearch(old(s));
      }
    }

    method DropOldestSearch(ghost was: map<Id, Url>)
      requires Queued(s, sOrder) && Minted('S', s.Keys) && sOrder != [] && Subsearch(s, was)
      modifies this`s, this`sOrder
      ensures Queued(s, sOrder) && Minted('S', s.Keys) && Subsearch(s, was)
      ensures sOrder == old(sOrder)[1..] && |s| == |old(s)| - 1
    {
      Dequeue(s, sOrder);
      DequeueShrinks(s, sOrder[0], was);
      s, sOrder := s - {sOrder[0]}, sOrder[1..];
    }
  }

  ghost predicate Subsearch(s: map<Id, Url>, was: map<Id, Url>)
  {
    forall id :: id in s ==> id in was && s[id] == was[id]
  }

  lemma {:induction false} NewestTail(order: seq<Id>, n: nat)
    requires |order| > n
    ensures Newest(order[1..], n) == Newest(order, n)
  {
  }

  /** The queue lists the search table's keys, each once. */
  ghost predicate Queued(s: map<Id, Url>, order: seq<Id>)
  {
    NoRepeats(order) && |order| == |s| && forall id :: id in order <==> id in s
  }

  lemma {:induction false} Enqueue(s: map<Id, Url>, order: seq<Id>, id: Id, url: Url)
    requires Queued(s, order) && id !in s
    ensures Queued(s[id := url], order + [id])
  {
  }

  lemma {:induction false} Dequeue(s: map<Id, Url>, order: seq<Id>)
    requires Queued(s, order) && order != []
    ensures Queued(s - {order[0]}, order[1..])
  {
  }

  lemma {:induction false} DequeueShrinks(s: map<Id, Url>, id: Id, was: map<Id, Url>)
    requires Minted('S', s.Keys) && Subsearch(s, was) && id in s
    ensures Minted('S', (s - {id}).Keys) && Subsearch(s - {id}, was) && |s - {id}| == |s| - 1
  {
    assert (s - {id}).Keys == s.Keys - {id};
  }

  function Newest(xs: seq<Id>, n: nat): seq<Id> { if |xs| <= n then xs else xs[|xs| - n..] }

  /** What `id` was bound to last: a handle of this batch, or its older URL. */
  function Bound(s: map<Id, Url>, handles: seq<Id>, urls: seq<Url>, id: Id): Url
    requires |handles| == |urls|
  {
    if handles == [] then if id in s then s[id] else ""
    else
      var n := |handles| - 1;
      if handles[n] == id then urls[n] else Bound(s, handles[..n], urls[..n], id)
  }

  /** Every live search handle keeps the URL it was minted for. */
  ghost predicate BoundTo(s: map<Id, Url>, was: map<Id, Url>, handles: seq<Id>, urls: seq<Url>)
    requires |handles| == |urls|
  {
    forall id :: id in s ==> (id in handles || id in was) && s[id] == Bound(was, handles, urls, id)
  }

  ghost predicate Gained(s: map<Id, Url>, was: map<Id, Url>, id: Id, url: Url)
  {
    forall k :: k in s ==> if k == id then s[k] == url else k in was && s[k] == was[k]
  }

  ghost predicate Batch(s: map<Id, Url>, order: seq<Id>, was: map<Id, Url>, wasOrder: seq<Id>, handles: seq<Id>, urls: seq<Url>)
  {
    |handles| == |urls| && order == Newest(wasOrder + handles, MAX_S_ENTRIES) && BoundTo(s, was, handles, urls)
  }

  lemma {:induction false} BatchSnoc(s: map<Id, Url>, before: map<Id, Url>, order: seq<Id>, was: map<Id, Url>, wasOrder: seq<Id>,
                  handles: seq<Id>, urls: seq<Url>, i: nat, id: Id)
    requires i < |urls| && Batch(before, order, was, wasOrder, handles, urls[..i]) && Gained(s, before, id, urls[i])
    ensures Batch(s, Newest(order + [id], MAX_S_ENTRIES), was, wasOrder, handles + [id], urls[..i + 1])
  {
    BoundSnoc(s, before, was, handles, urls[..i], id, urls[i]);
    NewestSnoc(wasOrder, handles, id, MAX_S_ENTRIES);
    assert urls[..i + 1] == urls[..i] + [urls[i]];
  }

  lemma {:induction false} BoundSnoc(s: map<Id, Url>, before: map<Id, Url>, was: map<Id, Url>, handles: seq<Id>, urls: seq<Url>, id: Id, url: Url)
    requires |handles| == |urls| && BoundTo(before, was, handles, urls) && Gained(s, before, id, url)
    ensures BoundTo(s, was, handles + [id], urls + [url])
  {
  }

  lemma {:induction false} NewestSnoc(order: seq<Id>, handles: seq<Id>, id: Id, n: nat)
    ensures Newest(Newest(order + handles, n) + [id], n) == Newest(order + (handles + [id]), n)
  {
  }

  /** A batch no longer than the table comes back with distinct handles, each
      bound to its own URL. */
  lemma {:induction false} BatchResolves(order: seq<Id>, before: map<Id, Url>, after: map<Id, Url>, handles: seq<Id>, urls: seq<Url>, i: nat)
    requires |handles| == |urls| <= MAX_S_ENTRIES && i < |urls|
    requires Queued(after, Newest(order + handles, MAX_S_ENTRIES)) && BoundTo(after, before, handles, urls)
    ensures NoRepeats(handles)
    ensures handles[i] in after && after[handles[i]] == urls[i]
  {
    var queue := Newest(order + handles, MAX_S_ENTRIES);
    var skip := |queue| - |handles|;
    assert forall k :: 0 <= k < |handles| ==> queue[skip + k] == handles[k];
    assert handles[i] in queue;
    BoundAt(before, handles, urls, i);
  }

  lemma {:induction false} BoundAt(s: map<Id, Url>, handles: seq<Id>, urls: seq<Url>, i: nat)
    requires |handles| == |urls| && i < |urls| && NoRepeats(handles)
    ensures Bound(s, handles, urls, handles[i]) == urls[i]
  {
    var n := |handles| - 1;
    if i < n {
      BoundAt(s, handles[..n], urls[..n], i);
    }
  }

  // ---- Lists by falling stamp ----

  lemma {:induction false} FallingElsewhere(stamps: map<Url, nat>, xs: seq<Url>, url: Url, stamp: nat)
    requires Falling(stamps, xs) && url !in xs
    ensures Falling(stamps[url := stamp], xs)
  {
    if xs != [] {
      FallingElsewhere(stamps, xs[1..], url, stamp);
    }
  }

  lemma {:induction false} FallingWithout(stamps: map<Url, nat>, xs: seq<Url>, url: Url)
    requires Falling(stamps, xs)
    ensures Falling(stamps, Recency.Without(xs, Same, url))
    ensures forall u :: u in Recency.Without(xs, Same, url) <==> u in xs && u != url
    ensures |Recency.Without(xs, Same, url)| == |xs| - if url in xs then 1 else 0
  {
    if xs != [] {
      FallingWithout(stamps, xs[1..], url);
      assert forall u :: u in xs <==> u == xs[0] || u in xs[1..];
      var rest := Recency.Without(xs[1..], Same, url);
      if xs[0] != url {
        assert Recency.Without(xs, Same, url) == [xs[0]] + rest && ([xs[0]] + rest)[1..] == rest;
      }
    }
  }

  lemma {:induction false} FallingTake(stamps: map<Url, nat>, xs: seq<Url>, n: nat)
    requires Falling(stamps, xs) && n <= |xs|
    ensures Falling(stamps, xs[..n])
  {
    if n > 0 {
      FallingTake(stamps, xs[1..], n - 1);
      assert xs[..n][1..] == xs[1..][..n - 1];
    }
  }

  lemma {:induction false} FallingLast(stamps: map<Url, nat>, xs: seq<Url>)
    requires Falling(stamps, xs) && xs != []
    ensures forall u :: u in xs[..|xs| - 1] ==> u in stamps && stamps[u] > stamps[xs[|xs| - 1]]
    ensures xs[|xs| - 1] in stamps
  {
    if |xs| > 1 {
      FallingLast(stamps, xs[1..]);
      var n := |xs| - 1;
      assert xs[..n] == [xs[0]] + xs[1..][..n - 1];
      assert xs[1..][n - 1] == xs[n];
    }
  }

  lemma {:induction false} FallingDistinct(stamps: map<Url, nat>, xs: seq<Url>)
    requires Falling(stamps, xs)
    ensures Recency.DistinctKeys(xs, Same)
  {
    if xs != [] {
      FallingDistinct(stamps, xs[1..]);
      assert forall j :: 1 <= j < |xs| ==> xs[j] == xs[1..][j - 1];
    }
  }

  lemma {:induction false} FallingCons(stamps: map<Url, nat>, url: Url, rest: seq<Url>)
    requires Falling(stamps, rest) && url in stamps
    requires forall u :: u in rest ==> u in stamps && stamps[u] < stamps[url]
    ensures Falling(stamps, [url] + rest)
  {
  }

  /** Interning a URL now puts it in front, live before or not. */
  lemma {:induction false} TouchStamps(stamps: map<Url, nat>, recent: seq<Url>, url: Url, stamp: nat)
    requires ByRecency(stamps, recent) && forall u :: u in stamps ==> stamps[u] < stamp
    ensures ByRecency(stamps[url := stamp], Recency.Touch(recent, Same, url))
  {
    var rest, stamps' := Recency.Without(recent, Same, url), stamps[url := stamp];
    TouchMembers(stamps, recent, url, stamp);
    assert Recency.Touch(recent, Same, url) == [url] + rest;
    assert Falling(stamps', rest) by {
      FallingWithout(stamps, recent, url);
      FallingElsewhere(stamps, rest, url, stamp);
    }
    FallingCons(stamps', url, rest);
  }

  lemma {:induction false} TouchMembers(stamps: map<Url, nat>, recent: seq<Url>, url: Url, stamp: nat)
    requires |recent| == |stamps| && forall u :: u in recent <==> u in stamps
    requires forall u :: u in stamps ==> stamps[u] < stamp
    requires Falling(stamps, recent)
    ensures var rest, stamps' := Recency.Without(recent, Same, url), stamps[url := stamp];
      && (forall u :: u in rest <==> u in stamps && u != url)
      && 1 + |rest| == |stamps'|
      && (forall u :: u in [url] + rest <==> u in stamps')
  {
    FallingWithout(stamps, recent, url);
    assert stamps[url := stamp].Keys == stamps.Keys + {url};
  }

  lemma {:induction false} DropLast(stamps: map<Url, nat>, recent: seq<Url>, url: Url)
    requires ByRecency(stamps, recent) && url in stamps && forall u :: u in stamps ==> stamps[url] <= stamps[u]
    ensures |recent| > 0 && recent[|recent| - 1] == url
    ensures ByRecency(stamps - {url}, recent[..|recent| - 1])
  {
    assert url in recent;
    FallingLast(stamps, recent);
    var n := |recent| - 1;
    assert recent == recent[..n] + [recent[n]];
    FallingTake(stamps, recent, n);
    FallingSubset(stamps, recent[..n], url);
    assert (stamps - {url}).Keys == stamps.Keys - {url};
  }

  lemma {:induction false} FallingSubset(stamps: map<Url, nat>, xs: seq<Url>, url: Url)
    requires Falling(stamps, xs) && url !in xs
    ensures Falling(stamps - {url}, xs)
  {
    if xs != [] {
      FallingSubset(stamps, xs[1..], url);
    }
  }

  // ---- The link table's steps ----

  lemma {:induction false} TouchLive(l: map<Id, LEntry>, rev: map<Url, Id>, recent: seq<Url>, url: Url, now: nat, stamp: nat)
    requires stamp > 0 && Linked(l, rev, stamp - 1, recent) && url in rev
    ensures Linked(l[rev[url] := l[rev[url]].(at := now, stamp := stamp)], rev, stamp, Recency.Touch(recent, Same, url))
    ensures |Recency.Touch(recent, Same, url)| == |recent| == |l|
  {
    Restamped(l, rev, url, now, stamp);
    TouchStamps(Stamps(l, rev), recent, url, stamp);
    SameCount(l, rev);
    assert Stamps(l, rev).Keys == rev.Keys;
  }

  lemma {:induction false} Restamped(l: map<Id, LEntry>, rev: map<Url, Id>, url: Url, now: nat, stamp: nat)
    requires Inverse(l, rev) && url in rev
    ensures var l' := l[rev[url] := l[rev[url]].(at := now, stamp := stamp)];
      Inverse(l', rev) && Stamps(l', rev) == Stamps(l, rev)[url := stamp]
  {
    var l' := l[rev[url] := l[rev[url]].(at := now, stamp := stamp)];
    assert Inverse(l', rev);
    assert Stamps(l', rev).Keys == rev.Keys == Stamps(l, rev)[url := stamp].Keys;
  }

  lemma {:induction false} AddNew(l: map<Id, LEntry>, rev: map<Url, Id>, nextSeq: nat, recent: seq<Url>, url: Url, id: Id, now: nat)
    requires Linked(l, rev, nextSeq, recent) && url !in rev && id !in l
    ensures Linked(l[id := LEntry(url, now, nextSeq + 1)], rev[url := id], nextSeq + 1, Recency.Touch(recent, Same, url))
  {
    var l', rev' := l[id := LEntry(url, now, nextSeq + 1)], rev[url := id];
    AddInverse(l, rev, url, id, now, nextSeq + 1);
    assert ByRecency(Stamps(l', rev'), Recency.Touch(recent, Same, url)) by {
      TouchStamps(Stamps(l, rev), recent, url, nextSeq + 1);
    }
  }

  lemma {:induction false} AddInverse(l: map<Id, LEntry>, rev: map<Url, Id>, url: Url, id: Id, now: nat, stamp: nat)
    requires Inverse(l, rev) && url !in rev && id !in l
    ensures Inverse(l[id := LEntry(url, now, stamp)], rev[url := id])
    ensures Stamps(l[id := LEntry(url, now, stamp)], rev[url := id]) == Stamps(l, rev)[url := stamp]
  {
  }

  /** The entry with the smallest stamp is the last of the recency list. */
  lemma {:induction false} DropOldest(l: map<Id, LEntry>, rev: map<Url, Id>, nextSeq: nat, recent: seq<Url>, oldest: Id)
    requires Linked(l, rev, nextSeq, recent) && oldest in l
    requires forall other :: other in l ==> l[oldest].stamp <= l[other].stamp
    ensures |recent| > 0 && recent[|recent| - 1] == l[oldest].url
    ensures Linked(l - {oldest}, rev - {l[oldest].url}, nextSeq, recent[..|recent| - 1])
  {
    var url := l[oldest].url;
    DropLast(Stamps(l, rev), recent, url);
    var l', rev' := l - {oldest}, rev - {url};
    assert Inverse(l', rev');
    assert Stamps(l', rev') == Stamps(l, rev) - {url};
  }

  /** Mutually inverse maps are equally large. */
  lemma {:induction false} SameCount(l: map<Id, LEntry>, rev: map<Url, Id>)
    requires Inverse(l, rev)
    ensures |l| == |rev|
    decreases |l|
  {
    if l == map[] {
      if u :| u in rev { assert rev[u] in l; }
      assert rev == map[];
    } else {
      var id :| id in l;
      var l', rev' := l - {id}, rev - {l[id].url};
      assert l'.Keys == l.Keys - {id} && rev'.Keys == rev.Keys - {l[id].url};
      assert Inverse(l', rev');
      SameCount(l', rev');
    }
  }

  lemma {:induction false} LinkedCount(l: map<Id, LEntry>, rev: map<Url, Id>, nextSeq: nat, recent: seq<Url>)
    requires Linked(l, rev, nextSeq, recent)
    ensures |recent| == |l| == |rev|
  {
    SameCount(l, rev);
    assert Stamps(l, rev).Keys == rev.Keys;
  }

  /** The oldest entries are leaving the table, and no other moves. */
  ghost predicate Evicting(l: map<Id, LEntry>, rev: map<Url, Id>, nextSeq: nat, recent: seq<Url>, rev0: map<Url, Id>, recent0: seq<Url>)
  {
    && Linked(l, rev, nextSeq, recent) && Minted('L', l.Keys) && |l| == |recent|
    && Recency.Capped(recent, MAX_L_ENTRIES) == Recency.Capped(recent0, MAX_L_ENTRIES)
    && Subtable(rev, rev0)
  }

  lemma {:induction false} EvictStep(l: map<Id, LEntry>, rev: map<Url, Id>, nextSeq: nat, recent: seq<Url>, oldest: Id,
                                     l': map<Id, LEntry>, rev': map<Url, Id>, recent': seq<Url>, rev0: map<Url, Id>, recent0: seq<Url>)
    requires Evicting(l, rev, nextSeq, recent, rev0, recent0) && |l| > MAX_L_ENTRIES
    requires oldest in l && forall other :: other in l ==> l[oldest].stamp <= l[other].stamp
    requires l' == l - {oldest} && rev' == rev - {l[oldest].url} && recent' == recent[..|recent| - 1]
    ensures Evicting(l', rev', nextSeq, recent', rev0, recent0) && |l'| < |l|
  {
    DropOldest(l, rev, nextSeq, recent, oldest);
    DropCount(l, rev, nextSeq, recent, oldest);
  }

  lemma {:induction false} DropCount(l: map<Id, LEntry>, rev: map<Url, Id>, nextSeq: nat, recent: seq<Url>, oldest: Id)
    requires Linked(l, rev, nextSeq, recent) && oldest in l && Minted('L', l.Keys)
    ensures |recent| == |l| && |l - {oldest}| == |l| - 1 && Minted('L', (l - {oldest}).Keys)
  {
    LinkedCount(l, rev, nextSeq, recent);
    assert (l - {oldest}).Keys == l.Keys - {oldest};
  }

  /** The URL just minted is first in recency, so eviction spares it. */
  lemma {:induction false} Newcomer(l: map<Id, LEntry>, rev: map<Url, Id>, nextSeq: nat, recent: seq<Url>, was: map<Url, Id>, url: Url, id: Id)
    requires Linked(l, rev, nextSeq, recent) && recent != [] && recent[0] == url
    requires url !in was && Subtable(rev, was[url := id])
    ensures url in rev && rev[url] == id && Consistent(rev, was)
  {
  }

  lemma {:induction false} Added(l: map<Id, LEntry>, rev: map<Url, Id>, stamp: nat, recent: seq<Url>, url: Url, id: Id, now: nat)
    requires stamp > 0 && Linked(l, rev, stamp - 1, recent) && url !in rev && id !in l
    requires Minted('L', l.Keys) && WellFormed('L', id)
    ensures Linked(l[id := LEntry(url, now, stamp)], rev[url := id], stamp, Recency.Touch(recent, Same, url))
    ensures Minted('L', l[id := LEntry(url, now, stamp)].Keys)
  {
    AddNew(l, rev, stamp - 1, recent, url, id, now);
  }

  lemma {:induction false} TouchLiveKeys(l: map<Id, LEntry>, id: Id, e: LEntry)
    requires id in l
    ensures l[id := e].Keys == l.Keys && |l[id := e]| == |l|
  {
  }

  /** No two entries share a stamp, so eviction never has to choose. */
  lemma {:induction false} StampsDistinct(l: map<Id, LEntry>, rev: map<Url, Id>, nextSeq: nat, recent: seq<Url>, i: Id, j: Id)
    requires Linked(l, rev, nextSeq, recent) && i in l && j in l && l[i].stamp == l[j].stamp
    ensures i == j
  {
    var stamps := Stamps(l, rev);
    var u, v := l[i].url, l[j].url;
    assert u in recent && v in recent && stamps[u] == stamps[v];
    FallingOnce(stamps, recent, u, v);
  }

  lemma {:induction false} FallingOnce(stamps: map<Url, nat>, xs: seq<Url>, u: Url, v: Url)
    requires Falling(stamps, xs) && u in xs && v in xs && u in stamps && v in stamps && stamps[u] == stamps[v]
    ensures u == v
  {
    assert forall w :: w in xs <==> w == xs[0] || w in xs[1..];
    if u != xs[0] && v != xs[0] {
      FallingOnce(stamps, xs[1..], u, v);
    }
  }

  // ---- Runs of interning ----

  /** From an empty table, the live URLs are the 2048 most recently interned
      distinct ones. */
  method InternAll(t: HandleTable, urls: seq<Url>, now: nat)
    requires t.LinksValid() && t.recent == []
    modifies t
    ensures t.LinksValid()
    ensures t.recent == Recency.Capped(Recency.MostRecentDistinct(urls, Same), 2048)
  {
    assert Recency.TouchAll(t.recent, Same, urls[0..]) == Recency.TouchAll([], Same, urls);
    for i := 0 to |urls|
      invariant t.LinksValid()
      invariant Recency.Capped(Recency.TouchAll(t.recent, Same, urls[i..]), MAX_L_ENTRIES) == Final(urls)
      invariant |t.recent| <= MAX_L_ENTRIES
    {
      FallingDistinct(Stamps(t.l, t.rev), t.recent);
      InternOne(t.recent, urls[i..]);
      var id := t.InternLink(urls[i], now);
      assert urls[i..][1..] == urls[i + 1..];
    }
    Recency.TouchAllIsMostRecent(urls, Same);
  }

  ghost function Final(urls: seq<Url>): seq<Url>
  {
    Recency.Capped(Recency.TouchAll([], Same, urls), MAX_L_ENTRIES)
  }

  lemma {:induction false} InternOne(recent: seq<Url>, urls: seq<Url>)
    requires urls != [] && Recency.DistinctKeys(recent, Same)
    ensures var next := Recency.Capped(Recency.Touch(recent, Same, urls[0]), MAX_L_ENTRIES);
      Recency.Capped(Recency.TouchAll(next, Same, urls[1..]), MAX_L_ENTRIES)
      == Recency.Capped(Recency.TouchAll(recent, Same, urls), MAX_L_ENTRIES)
  {
    Recency.TouchDistinct(recent, Same, urls[0]);
    Recency.CapTouchAll(Recency.Touch(recent, Same, urls[0]), Same, urls[1..], MAX_L_ENTRIES);
  }

  // ---- Resolution ----

  function Resolve(l: map<Id, LEntry>, s: map<Id, Url>, text: string): Option<Url>
  {
    var h := Trim(text, IsWhitespace);
    var lower := AsciiLower(h);
    if StartsWith(lower, "s") then
      if lower in s then Some(s[lower]) else if h in s then Some(s[h]) else None
    else if StartsWith(lower, "l") then
      if lower in l then Some(l[lower].url) else if h in l then Some(l[h].url) else None
    else None
  }

  /** Every handle ever minted has an upper-case prefix, so the lower-case probe
      never hits: a handle resolves in its exact spelling and no other. */
  lemma {:induction false} ResolvesExactly(l: map<Id, LEntry>, s: map<Id, Url>, text: string)
    requires Minted('L', l.Keys) && Minted('S', s.Keys)
    ensures var h := Trim(text, IsWhitespace);
      Resolve(l, s, text) == if h in s then Some(s[h]) else if h in l then Some(l[h].url) else None
  {
  }

  lemma {:induction false} TrimClean(h: string)
    requires forall i :: 0 <= i < |h| ==> !IsWhitespace(h[i])
    ensures Trim(h, IsWhitespace) == h
  {
  }

  lemma {:induction false} MintedResolves(l: map<Id, LEntry>, s: map<Id, Url>, id: Id)
    requires Minted('L', l.Keys) && Minted('S', s.Keys) && id in l
    ensures Resolve(l, s, id) == Some(l[id].url)
  {
  }

  /** So a live handle in lower case resolves to nothing. */
  lemma {:induction false} LowerCaseMisses(l: map<Id, LEntry>, s: map<Id, Url>, id: Id)
    requires Minted('L', l.Keys) && Minted('S', s.Keys) && id in l
    ensures Resolve(l, s, id).Some? && Resolve(l, s, AsciiLower(id)).None?
  {
    MintedResolves(l, s, id);
    assert forall i :: 0 <= i < |id| ==> IsBase62(id[i]) by { assert IsBase62('L'); }
    LowerPlain(id);
    TrimClean(AsciiLower(id));
    ResolvesExactly(l, s, AsciiLower(id));
    assert AsciiLower(id)[0] == 'l';
  }

  lemma {:induction false} LowerPlain(h: string)
    requires forall i :: 0 <= i < |h| ==> IsBase62(h[i])
    ensures |AsciiLower(h)| == |h|
    ensures forall i :: 0 <= i < |h| ==> AsciiLower(h)[i] == LowerChar(h[i]) && !IsWhitespace(AsciiLower(h)[i])
  {
    if h != "" {
      assert forall i :: 0 <= i < |h[1..]| ==> h[1..][i] == h[i + 1];
      LowerPlain(h[1..]);
    }
  }
}
