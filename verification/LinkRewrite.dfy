/** Rewriting markdown link URLs to handles: src/handles.rs. */
module LinkRewrite {
  import opened Options
  import opened Text
  import opened LinkText
  import opened Handles
  import opened Lists
  import Recency

  // ---- The text ----

  /** Of `md`, all but `rest` has become `out`, its URLs `done` replaced by
      `names`. */
  ghost predicate Progress(md: string, rest: string, done: seq<Url>, names: seq<Id>, out: string)
  {
    && |done| == |names|
    && Urls(md) == done + Urls(rest)
    && forall tail: seq<Id> :: |tail| == |Urls(rest)| ==> Rewrite(md, names + tail) == out + Rewrite(rest, tail)
  }

  lemma {:induction false} Begin(md: string)
    ensures Progress(md, md, [], [], "")
  {
    forall tail: seq<Id> | |tail| == |Urls(md)|
      ensures Rewrite(md, [] + tail) == "" + Rewrite(md, tail)
    {
      assert [] + tail == tail;
    }
  }

  lemma {:induction false} AfterCopy(md: string, rest: string, done: seq<Url>, names: seq<Id>, out: string, cut: nat)
    requires Progress(md, rest, done, names, out) && NextLink(rest) == Copy(cut)
    ensures cut <= |rest| && Progress(md, rest[cut..], done, names, out + rest[..cut])
  {
    UrlsPast(rest, cut);
    forall tail: seq<Id> | |tail| == |Urls(rest[cut..])|
      ensures Rewrite(md, names + tail) == out + rest[..cut] + Rewrite(rest[cut..], tail)
    {
      CopyTail(rest, out, cut, tail);
      assert Rewrite(md, names + tail) == out + Rewrite(rest, tail);
    }
  }

  lemma {:induction false} CopyTail(rest: string, out: string, cut: nat, tail: seq<Id>)
    requires NextLink(rest) == Copy(cut) && |tail| == |Urls(rest)|
    ensures cut <= |rest| && |Urls(rest[cut..])| == |tail|
    ensures out + Rewrite(rest, tail) == out + rest[..cut] + Rewrite(rest[cut..], tail)
  {
  }

  lemma {:induction false} AfterSwap(md: string, rest: string, done: seq<Url>, names: seq<Id>, out: string, start: nat, len: nat, name: Id)
    requires Progress(md, rest, done, names, out) && NextLink(rest) == Swap(start, len)
    ensures start + len < |rest|
    ensures Progress(md, rest[start + len + 1..], done + [rest[start..start + len]], names + [name], out + (rest[..start] + name + ")"))
  {
    var url, rest' := rest[start..start + len], rest[start + len + 1..];
    UrlsSwapped(rest, start, len);
    assert done + ([url] + Urls(rest')) == done + [url] + Urls(rest');
    forall tail: seq<Id> | |tail| == |Urls(rest')|
      ensures Rewrite(md, names + [name] + tail) == out + (rest[..start] + name + ")") + Rewrite(rest', tail)
    {
      assert |[name] + tail| == |Urls(rest)|;
      assert Rewrite(md, names + ([name] + tail)) == out + Rewrite(rest, [name] + tail);
      Regroup(names, [name], tail);
      SwapTail(rest, rest', start, len, out, name, tail);
    }
  }

  lemma {:induction false} SwapTail(rest: string, rest': string, start: nat, len: nat, out: string, name: Id, tail: seq<Id>)
    requires NextLink(rest) == Swap(start, len) && rest' == rest[start + len + 1..]
    requires |tail| == |Urls(rest')| && |[name] + tail| == |Urls(rest)|
    ensures out + Rewrite(rest, [name] + tail) == out + (rest[..start] + name + ")") + Rewrite(rest', tail)
  {
    SwapLabels(rest, start, len, name, tail, rest');
    Regroup(out, rest[..start] + name + ")", Rewrite(rest', tail));
  }

  lemma {:induction false} Regroup<T>(a: seq<T>, b: seq<T>, c: seq<T>)
    ensures a + (b + c) == a + b + c
  {
  }

  lemma {:induction false} AtEnd(md: string, rest: string, done: seq<Url>, names: seq<Id>, out: string)
    requires Progress(md, rest, done, names, out) && NextLink(rest).Stop?
    ensures Urls(md) == done && Rewrite(md, names) == out + rest
  {
    assert Urls(rest) == [];
    assert done + [] == done && names + [] == names;
    assert Rewrite(md, names + []) == out + Rewrite(rest, []);
  }

  method Locate(rest: string) returns (next: Next)
    ensures next == NextLink(rest)
  {
    var rel := Find(rest, OPENING);
    if rel.None? {
      return Stop;
    }
    var start := rel.value + 2;
    var close := FindClose(rest[start..]);
    if close.None? {
      return Stop;
    }
    next := if HasSpace(rest[start..][..close.value]) then Copy(start + 4) else Swap(start, close.value);
  }

  // ---- The table ----

  /** Each URL is live under the handle written for it. */
  ghost predicate AllBound(rev: map<Url, Id>, urls: seq<Url>, names: seq<Id>)
    requires |urls| == |names|
  {
    forall i :: 0 <= i < |urls| ==> urls[i] in rev && rev[urls[i]] == names[i]
  }

  function Kept(recent: seq<Url>, urls: seq<Url>): seq<Url>
  {
    Recency.Capped(Recency.TouchAll(recent, Same, urls), MAX_L_ENTRIES)
  }

  /** With at most 2048 distinct URLs, none of them has been evicted. */
  lemma {:induction false} AllKept(recent: seq<Url>, urls: seq<Url>, u: Url)
    requires |Elems(urls)| <= MAX_L_ENTRIES && u in urls
    ensures u in Kept(recent, urls)
  {
    var front := Recency.MostRecentDistinct(urls, Same);
    Recency.MostRecentKeys(urls, Same);
    Recency.TouchAllIsMostRecent(urls, Same);
    Recency.TouchAllFront([], recent, Same, urls);
    assert [] + recent == recent;
    var rest :| Recency.TouchAll(recent, Same, urls) == front + rest;
    SameElems(front, urls);
    ElemsCount(front);
    assert u in front by { assert u in Elems(front); }
    var i :| 0 <= i < |front| && front[i] == u;
    assert Kept(recent, urls)[i] == u;
  }

  lemma {:induction false} SameElems(front: seq<Url>, urls: seq<Url>)
    requires forall k :: Recency.HasKey(front, Same, k) <==> Recency.HasKey(urls, Same, k)
    ensures Elems(front) == Elems(urls)
  {
    forall u ensures u in front <==> u in urls {
      Carries(front, u);
      Carries(urls, u);
    }
  }

  lemma {:induction false} Carries(xs: seq<Url>, u: Url)
    ensures u in xs <==> Recency.HasKey(xs, Same, u)
  {
  }

  /** After one more URL is interned, every handle written so far is live,
      unless more than 2048 distinct URLs have come by. */
  lemma {:induction false} StillBound(was: map<Url, Id>, rev: map<Url, Id>, before: seq<Url>, done: seq<Url>, names: seq<Id>, url: Url, name: Id)
    requires |done| == |names|
    requires |Elems(done)| <= MAX_L_ENTRIES ==> AllBound(was, done, names)
    requires Consistent(rev, was) && url in rev && rev[url] == name
    requires forall u :: u in Kept(before, done + [url]) ==> u in rev
    ensures |Elems(done + [url])| <= MAX_L_ENTRIES ==> AllBound(rev, done + [url], names + [name])
  {
    var urls := done + [url];
    if |Elems(urls)| <= MAX_L_ENTRIES {
      FewerElems(done, url);
      forall i | 0 <= i < |urls|
        ensures urls[i] in rev && rev[urls[i]] == (names + [name])[i]
      {
        AllKept(before, urls, urls[i]);
      }
    }
  }

  lemma {:induction false} FewerElems(done: seq<Url>, url: Url)
    ensures |Elems(done)| <= |Elems(done + [url])|
  {
    assert Elems(done + [url]) == Elems(done) + {url};
    Within(Elems(done), Elems(done + [url]));
  }

  lemma {:induction false} KeptSnoc(recent: seq<Url>, urls: seq<Url>, url: Url)
    requires Recency.DistinctKeys(recent, Same)
    ensures Recency.Capped(Recency.Touch(Kept(recent, urls), Same, url), MAX_L_ENTRIES) == Kept(recent, urls + [url])
  {
    var all := Recency.TouchAll(recent, Same, urls);
    Recency.TouchAllDistinct(recent, Same, urls);
    Recency.CapTouch(all, Same, url, MAX_L_ENTRIES);
    Recency.TouchAllSplit(recent, Same, urls, [url]);
    assert [url][1..] == [];
    assert Recency.TouchAll(all, Same, [url]) == Recency.TouchAll(Recency.Touch(all, Same, url), Same, [url][1..]);
  }

  lemma {:induction false} RecentLive(l: map<Id, LEntry>, rev: map<Url, Id>, nextSeq: nat, recent: seq<Url>)
    requires Linked(l, rev, nextSeq, recent)
    ensures Recency.DistinctKeys(recent, Same) && forall u :: u in recent <==> u in rev
  {
    FallingDistinct(Stamps(l, rev), recent);
  }

  predicate AllMinted(names: seq<Id>) { forall i :: 0 <= i < |names| ==> WellFormed('L', names[i]) }

  lemma {:induction false} MintedAreLabels(names: seq<Id>)
    requires AllMinted(names)
    ensures AllLabels(names)
  {
  }

  /** Where the table stands once the URLs `done` have been interned. */
  ghost predicate Interned(rev: map<Url, Id>, recent: seq<Url>, before: seq<Url>, done: seq<Url>, names: seq<Id>)
  {
    && |done| == |names| && AllMinted(names)
    && recent == Kept(before, done)
    && (|Elems(done)| <= MAX_L_ENTRIES ==> AllBound(rev, done, names))
  }

  lemma {:induction false} InternedBegin(rev: map<Url, Id>, recent: seq<Url>)
    requires |recent| <= MAX_L_ENTRIES
    ensures Interned(rev, recent, recent, [], [])
  {
  }

  /** Intern one URL of the document. */
  method InternUrl(t: HandleTable, url: Url, now: nat, ghost before: seq<Url>, ghost done: seq<Url>, ghost names: seq<Id>)
    returns (id: Id)
    requires t.LinksValid() && Interned(t.rev, t.recent, before, done, names) && Recency.DistinctKeys(before, Same)
    modifies t`l, t`rev, t`nextSeq, t`recent
    ensures t.LinksValid() && Interned(t.rev, t.recent, before, done + [url], names + [id])
  {
    ghost var was, recent := t.rev, t.recent;
    id := t.InternLink(url, now);
    RecentLive(t.l, t.rev, t.nextSeq, t.recent);
    LiveIsMinted(t.l, t.rev, url);
    InternedSnoc(was, recent, t.rev, t.recent, before, done, names, url, id);
  }

  lemma {:induction false} InternedSnoc(was: map<Url, Id>, recent: seq<Url>, rev: map<Url, Id>, recent': seq<Url>,
                                        before: seq<Url>, done: seq<Url>, names: seq<Id>, url: Url, id: Id)
    requires Interned(was, recent, before, done, names) && Recency.DistinctKeys(before, Same)
    requires recent' == Recency.Capped(Recency.Touch(recent, Same, url), MAX_L_ENTRIES)
    requires url in rev && rev[url] == id && WellFormed('L', id) && Consistent(rev, was)
    requires forall u :: u in recent' ==> u in rev
    ensures Interned(rev, recent', before, done + [url], names + [id])
  {
    KeptSnoc(before, done, url);
    StillBound(was, rev, before, done, names, url, id);
  }

  lemma {:induction false} LiveIsMinted(l: map<Id, LEntry>, rev: map<Url, Id>, url: Url)
    requires Inverse(l, rev) && Minted('L', l.Keys) && url in rev
    ensures WellFormed('L', rev[url])
  {
  }

  /** Replace the URL of the link `Locate` found. */
  method SwapOne(t: HandleTable, rest: string, next: Next, now: nat, out: string,
                 ghost md: string, ghost before: seq<Url>, ghost done: seq<Url>, ghost names: seq<Id>)
    returns (rest': string, out': string, ghost done': seq<Url>, ghost names': seq<Id>)
    requires next == NextLink(rest) && next.Swap? && Progress(md, rest, done, names, out)
    requires t.LinksValid() && Recency.DistinctKeys(before, Same) && Interned(t.rev, t.recent, before, done, names)
    modifies t`l, t`rev, t`nextSeq, t`recent
    ensures t.LinksValid() && Interned(t.rev, t.recent, before, done', names')
    ensures Progress(md, rest', done', names', out') && |done'| == |done| + 1 && |rest'| < |rest|
  {
    var start, len := next.start, next.len;
    var url := rest[start..start + len];
    var id := InternUrl(t, url, now, before, done, names);
    rest', out' := rest[start + len + 1..], out + (rest[..start] + id + ")");
    done', names' := done + [url], names + [id];
    assert Progress(md, rest', done', names', out') by {
      AfterSwap(md, rest, done, names, out, start, len, id);
    }
  }

  /** Replace the URL of every link that has one, and count them. */
  method ReplaceLinkUrls(t: HandleTable, md: string, now: nat) returns (out: string, count: nat, ghost names: seq<Id>)
    requires t.LinksValid()
    modifies t`l, t`rev, t`nextSeq, t`recent
    ensures t.LinksValid()
    ensures count == |Urls(md)| == |names|
    ensures out == Rewrite(md, names)
    ensures Interned(t.rev, t.recent, old(t.recent), Urls(md), names)
  {
    out, count, names := "", 0, [];
    var rest := md;
    ghost var done: seq<Url>, before := [], t.recent;
    Begin(md);
    StartInterning(t);
    var next := Locate(rest);
    while !next.Stop?
      invariant next == NextLink(rest) && count == |done|
      invariant Progress(md, rest, done, names, out)
      invariant t.LinksValid() && Interned(t.rev, t.recent, before, done, names)
      decreases |rest|
    {
      if next.Copy? {
        AfterCopy(md, rest, done, names, out, next.cut);
        out, rest := out + rest[..next.cut], rest[next.cut..];
      } else {
        rest, out, done, names := SwapOne(t, rest, next, now, out, md, before, done, names);
        count := count + 1;
      }
      next := Locate(rest);
    }
    AtEnd(md, rest, done, names, out);
    out := out + rest;
  }

  lemma {:induction false} StartInterning(t: HandleTable)
    requires t.LinksValid()
    ensures Recency.DistinctKeys(t.recent, Same) && Interned(t.rev, t.recent, t.recent, [], [])
  {
    RecentLive(t.l, t.rev, t.nextSeq, t.recent);
    LinkedCount(t.l, t.rev, t.nextSeq, t.recent);
    InternedBegin(t.rev, t.recent);
  }

  // ---- What the document gets ----

  ghost predicate AllResolve(l: map<Id, LEntry>, s: map<Id, Url>, urls: seq<Url>, names: seq<Id>)
    requires |urls| == |names|
  {
    forall i :: 0 <= i < |urls| ==> Resolve(l, s, names[i]) == Some(urls[i])
  }

  /** On return every handle written resolves to the URL it replaced exactly
      when the document has at most 2048 distinct ones. */
  lemma {:induction false} LosslessIff(l: map<Id, LEntry>, rev: map<Url, Id>, s: map<Id, Url>, recent: seq<Url>, before: seq<Url>, urls: seq<Url>, names: seq<Id>)
    requires Inverse(l, rev) && |l| <= MAX_L_ENTRIES && Minted('L', l.Keys) && Minted('S', s.Keys)
    requires Interned(rev, recent, before, urls, names)
    ensures AllResolve(l, s, urls, names) <==> |Elems(urls)| <= 2048
  {
    if |Elems(urls)| <= MAX_L_ENTRIES {
      forall i | 0 <= i < |urls|
        ensures Resolve(l, s, names[i]) == Some(urls[i])
      {
        MintedResolves(l, s, names[i]);
      }
    } else {
      Overflow(l, rev, urls);
      var i :| 0 <= i < |urls| && urls[i] !in rev;
      ResolvesLive(l, rev, s, names[i]);
    }
  }

  lemma {:induction false} Overflow(l: map<Id, LEntry>, rev: map<Url, Id>, urls: seq<Url>)
    requires Inverse(l, rev) && |l| <= MAX_L_ENTRIES < |Elems(urls)|
    ensures exists i :: 0 <= i < |urls| && urls[i] !in rev
  {
    SameCount(l, rev);
    if forall i :: 0 <= i < |urls| ==> urls[i] in rev {
      Within(Elems(urls), rev.Keys);
    }
  }

  lemma {:induction false} Within(a: set<Url>, b: set<Url>)
    requires a <= b
    ensures |a| <= |b|
  {
    assert b == a + (b - a);
  }

  lemma {:induction false} ResolvesLive(l: map<Id, LEntry>, rev: map<Url, Id>, s: map<Id, Url>, id: Id)
    requires Inverse(l, rev) && Minted('L', l.Keys) && Minted('S', s.Keys) && WellFormed('L', id)
    ensures Resolve(l, s, id).Some? ==> Resolve(l, s, id).value in rev
  {
  }

  /** A second pass over the output changes nothing and counts nothing. */
  lemma {:induction false} SecondPass(md: string, names: seq<Id>)
    requires |names| == |Urls(md)| && AllMinted(names)
    ensures Urls(Rewrite(md, names)) == [] && Rewrite(Rewrite(md, names), []) == Rewrite(md, names)
  {
    MintedAreLabels(names);
    NoSecondPass(md, names);
    RewriteRoundTrip(Rewrite(md, names));
  }

  method RewriteTwice(t: HandleTable, md: string, now: nat) returns (out: string, again: string, count: nat)
    requires t.LinksValid()
    modifies t`l, t`rev, t`nextSeq, t`recent
    ensures t.LinksValid()
    ensures again == out && count == 0
    ensures t.recent == Kept(old(t.recent), Urls(md))
  {
    var first: nat;
    ghost var names, none;
    out, first, names := ReplaceLinkUrls(t, md, now);
    SecondPass(md, names);
    ghost var recent := t.recent;
    again, count, none := ReplaceLinkUrls(t, out, now);
    assert none == [];
    assert Kept(recent, []) == recent;
  }
}
