/** Reading rewritten markdown back: putting URLs in the place of handles. */
module LinkBack {
  import opened Options
  import opened Text
  import opened Lists
  import opened LinkText
  import opened Handles
  import opened LinkRewrite

  /** What each handle resolves to. */
  type Table = map<string, string>

  const NAME_LEN: nat := 9

  /** Length of "](", a handle and ")". */
  const TARGET_LEN: nat := 12

  ghost predicate Sound(table: Table)
  {
    forall h :: h in table ==> |h| == NAME_LEN && Label(h) && table[h] != "" && table[h][0] == 'h'
  }

  /** A handle of the table is a link target at position `i`. */
  predicate StandsAt(s: string, i: nat, table: Table)
  {
    && i + TARGET_LEN <= |s|
    && s[i] == ']' && s[i + 1] == '(' && s[i + 2..i + 11] in table && s[i + 11] == ')'
  }

  ghost predicate NoneStand(s: string, n: nat, table: Table) { forall i :: 0 <= i < n ==> !StandsAt(s, i, table) }

  /** Every link target that is a handle of the table becomes its URL. */
  function PutBack(s: string, table: Table): string
    decreases |s|
  {
    if s == "" then ""
    else if StandsAt(s, 0, table) then "](" + table[s[2..11]] + ")" + PutBack(s[TARGET_LEN..], table)
    else [s[0]] + PutBack(s[1..], table)
  }

  /** A handle stands as a link target in the text that rewriting keeps: outside
      the URLs it replaces. */
  ghost predicate Collides(t: string, table: Table)
    decreases |t|, 1
  {
    CollidesAt(t, NextLink(t), table)
  }

  ghost predicate CollidesAt(t: string, next: Next, table: Table)
    requires Fits(t, next)
    decreases |t|, 0
  {
    match next
    case Stop => !NoneStand(t, |t|, table)
    case Copy(cut) => !NoneStand(t, cut, table) || Collides(t[cut..], table)
    case Swap(start, len) => !NoneStand(t, start, table) || Collides(t[start + len + 1..], table)
  }

  // ---- Where handles stand ----

  lemma {:induction false} StandsTail(s: string, i: nat, table: Table)
    requires s != ""
    ensures StandsAt(s, i + 1, table) <==> StandsAt(s[1..], i, table)
  {
    if i + 1 + TARGET_LEN <= |s| {
      assert s[1..][i + 2..i + 11] == s[i + 3..i + 12];
    }
  }

  lemma {:induction false} StandsSame(s: string, t: string, i: nat, table: Table)
    requires i + TARGET_LEN <= |s| && i + TARGET_LEN <= |t| && s[..i + TARGET_LEN] == t[..i + TARGET_LEN]
    ensures StandsAt(s, i, table) <==> StandsAt(t, i, table)
  {
    var n := i + TARGET_LEN;
    assert s[i] == s[..n][i] && s[i + 1] == s[..n][i + 1] && s[i + 11] == s[..n][i + 11];
    assert t[i] == t[..n][i] && t[i + 1] == t[..n][i + 1] && t[i + 11] == t[..n][i + 11];
    assert s[i + 2..i + 11] == s[..n][i + 2..i + 11] == t[..n][i + 2..i + 11] == t[i + 2..i + 11];
  }

  /** A handle in place leaves no ']' behind its first character, and its third
      is no 'h'. */
  lemma {:induction false} StandsPlain(s: string, i: nat, table: Table)
    requires Sound(table) && StandsAt(s, i, table)
    ensures s[i + 2] != 'h' && forall j :: i < j < i + TARGET_LEN ==> s[j] != ']'
  {
    var h := s[i + 2..i + 11];
    assert h[0] == s[i + 2];
    forall j | i < j < i + TARGET_LEN ensures s[j] != ']' {
      if i + 2 <= j < i + 11 {
        assert s[j] == h[j - i - 2];
        assert Plain(h[j - i - 2]);
      }
    }
  }

  lemma {:induction false} FirstStand(s: string, n: nat, table: Table) returns (i: nat)
    requires !NoneStand(s, n, table)
    ensures i < n && StandsAt(s, i, table) && NoneStand(s, i, table)
  {
    i := 0;
    while !StandsAt(s, i, table)
      invariant i < n && NoneStand(s, i, table)
      invariant exists j :: i <= j < n && StandsAt(s, j, table)
      decreases n - i
    {
      i := i + 1;
    }
  }

  // ---- Putting back over a prefix ----

  lemma {:induction false} PutBackSkip(s: string, n: nat, table: Table)
    requires n <= |s| && NoneStand(s, n, table)
    ensures PutBack(s, table) == s[..n] + PutBack(s[n..], table)
    decreases n
  {
    if n == 0 {
      assert s[0..] == s;
    } else {
      forall i | 0 <= i < n - 1 ensures !StandsAt(s[1..], i, table) {
        StandsTail(s, i, table);
      }
      PutBackSkip(s[1..], n - 1, table);
      assert !StandsAt(s, 0, table);
      PutBackCons(s, table);
      Recut(s, n, PutBack(s[n..], table));
    }
  }

  lemma {:induction false} PutBackCons(s: string, table: Table)
    requires s != "" && !StandsAt(s, 0, table)
    ensures PutBack(s, table) == [s[0]] + PutBack(s[1..], table)
  {
  }

  lemma {:induction false} Recut(s: string, n: nat, rest: string)
    requires 0 < n <= |s|
    ensures s[1..][n - 1..] == s[n..] && [s[0]] + (s[1..][..n - 1] + rest) == s[..n] + rest
  {
    assert s[..n] == [s[0]] + s[1..][..n - 1];
  }

  lemma {:induction false} PutBackAt(s: string, n: nat, table: Table)
    requires NoneStand(s, n, table) && StandsAt(s, n, table)
    ensures PutBack(s, table) == s[..n] + ("](" + table[s[n + 2..n + 11]] + ")") + PutBack(s[n + TARGET_LEN..], table)
  {
    var o := s[n..];
    PutBackSkip(s, n, table);
    assert o[2..11] == s[n + 2..n + 11] && o[TARGET_LEN..] == s[n + TARGET_LEN..];
    assert o[0] == s[n] && o[1] == s[n + 1] && o[11] == s[n + 11];
    assert StandsAt(o, 0, table);
  }

  /** The first handle that stood in the text already comes out as its URL. */
  lemma {:induction false} StandBreaks(s: string, t: string, i: nat, table: Table)
    requires Sound(table) && NoneStand(s, i, table) && StandsAt(s, i, table)
    requires i + TARGET_LEN <= |t| && s[..i + TARGET_LEN] == t[..i + TARGET_LEN]
    ensures PutBack(s, table) != t
  {
    PutBackAt(s, i, table);
    StandsPlain(s, i, table);
    var h := s[i + 2..i + 11];
    var r := PutBack(s, table);
    assert r[i + 2] == ("](" + table[h] + ")")[2] == table[h][0] == 'h';
    assert t[i + 2] == t[..i + TARGET_LEN][i + 2] == s[..i + TARGET_LEN][i + 2] == s[i + 2];
  }

  // ---- Around a link ----

  /** No handle stands across the start of a link. */
  lemma {:induction false} NoneAcross(s: string, i: nat, at: nat, table: Table)
    requires Sound(table) && i < at < i + TARGET_LEN && at < |s| && s[at] == ']'
    ensures !StandsAt(s, i, table)
  {
    if StandsAt(s, i, table) {
      StandsPlain(s, i, table);
    }
  }

  /** What two texts share up to a link stands in both or neither. */
  lemma {:induction false} SharedFront(s: string, t: string, at: nat, table: Table)
    requires Sound(table) && at < |s| && at < |t| && s[..at + 1] == t[..at + 1] && s[at] == ']'
    ensures NoneStand(s, at, table) <==> NoneStand(t, at, table)
  {
    assert t[at] == t[..at + 1][at] == s[..at + 1][at];
    forall i | 0 <= i < at ensures StandsAt(s, i, table) <==> StandsAt(t, i, table) {
      if at < i + TARGET_LEN {
        NoneAcross(s, i, at, table);
        NoneAcross(t, i, at, table);
      } else {
        var n := i + TARGET_LEN;
        assert s[..n] == s[..at + 1][..n] == t[..at + 1][..n] == t[..n];
        StandsSame(s, t, i, table);
      }
    }
  }

  /** A handle that stands in front of a link breaks the way back. */
  lemma {:induction false} FrontBreaks(s: string, t: string, at: nat, table: Table)
    requires Sound(table) && at < |s| && at < |t| && s[..at + 1] == t[..at + 1] && s[at] == ']'
    requires !NoneStand(t, at, table)
    ensures PutBack(s, table) != t
  {
    SharedFront(s, t, at, table);
    var i := FirstStand(s, at, table);
    if at < i + TARGET_LEN {
      NoneAcross(s, i, at, table);
    }
    var n := i + TARGET_LEN;
    assert s[..n] == s[..at + 1][..n] == t[..at + 1][..n] == t[..n];
    StandBreaks(s, t, i, table);
  }

  // ---- The way back ----

  /** The table knows each handle as the URL it replaced. */
  ghost predicate Knows(table: Table, names: seq<string>, urls: seq<string>)
  {
    |names| == |urls| && forall i :: 0 <= i < |names| ==> names[i] in table && table[names[i]] == urls[i]
  }

  lemma {:induction false} KnowsTail(table: Table, names: seq<string>, urls: seq<string>)
    requires Knows(table, names, urls) && names != []
    ensures Knows(table, names[1..], urls[1..])
  {
    forall i | 0 <= i < |names| - 1 ensures names[1..][i] in table && table[names[1..][i]] == urls[1..][i] {
      assert names[1..][i] == names[i + 1];
    }
  }

  /** Putting URLs back into the rewritten text gives the input exactly when no
      handle of the table stood as a link target in the text that was kept. */
  lemma {:induction false} PutBackIff(t: string, names: seq<string>, table: Table)
    requires Sound(table) && Knows(table, names, Urls(t))
    ensures PutBack(Rewrite(t, names), table) == t <==> !Collides(t, table)
    decreases |t|, 1
  {
    match NextLink(t)
    case Stop => StopBack(t, table);
    case Copy(cut) => PutBackCopy(t, cut, names, table);
    case Swap(start, len) => PutBackSwap(t, start, len, names, table);
  }

  lemma {:induction false} PutBackCopy(t: string, cut: nat, names: seq<string>, table: Table)
    requires Sound(table) && Knows(table, names, Urls(t)) && NextLink(t) == Copy(cut)
    ensures PutBack(Rewrite(t, names), table) == t <==> !Collides(t, table)
    decreases |t|, 0
  {
    UrlsPast(t, cut);
    PutBackIff(t[cut..], names, table);
    CopyCase(t, cut, names, table);
  }

  lemma {:induction false} PutBackSwap(t: string, start: nat, len: nat, names: seq<string>, table: Table)
    requires Sound(table) && Knows(table, names, Urls(t)) && NextLink(t) == Swap(start, len)
    ensures PutBack(Rewrite(t, names), table) == t <==> !Collides(t, table)
    decreases |t|, 0
  {
    var tail := t[start + len + 1..];
    KnowsSwapped(t, start, len, names, table);
    PutBackIff(tail, names[1..], table);
    SwapCase(t, start, len, names[0], names[1..], tail, table);
    CollidesSwap(t, start, len, table);
  }

  lemma {:induction false} KnowsSwapped(t: string, start: nat, len: nat, names: seq<string>, table: Table)
    requires Knows(table, names, Urls(t)) && NextLink(t) == Swap(start, len)
    ensures start + len < |t| && names != [] && [names[0]] + names[1..] == names
    ensures names[0] in table && table[names[0]] == t[start..start + len]
    ensures Knows(table, names[1..], Urls(t[start + len + 1..]))
  {
    UrlsSwapped(t, start, len);
    KnowsTail(table, names, Urls(t));
  }

  lemma {:induction false} CopyCase(t: string, cut: nat, names: seq<string>, table: Table)
    requires Sound(table) && NextLink(t) == Copy(cut) && |names| == |Urls(t)|
    requires |names| == |Urls(t[cut..])| && (PutBack(Rewrite(t[cut..], names), table) == t[cut..] <==> !Collides(t[cut..], table))
    ensures PutBack(Rewrite(t, names), table) == t <==> !Collides(t, table)
  {
    CopyLabels(t, names);
    CopyFacts(t);
    CopyBack(t, cut, Rewrite(t[cut..], names), table);
  }

  lemma {:induction false} SwapCase(t: string, start: nat, len: nat, name: string, names: seq<string>, tail: string, table: Table)
    requires Sound(table) && NextLink(t) == Swap(start, len) && start + len < |t| && tail == t[start + len + 1..]
    requires name in table && table[name] == t[start..start + len] && |names| == |Urls(tail)|
    ensures |[name] + names| == |Urls(t)|
    ensures PutBack(Rewrite(t, [name] + names), table) == t
       <==> NoneStand(t, start, table) && PutBack(Rewrite(tail, names), table) == tail
  {
    SwapShape(t, start, len);
    SwapLabels(t, start, len, name, names, tail);
    SwapBackWith(t, start, len, name, Rewrite(tail, names), Rewrite(t, [name] + names), table);
  }

  lemma {:induction false} SwapShape(t: string, start: nat, len: nat)
    requires NextLink(t) == Swap(start, len)
    ensures 2 <= start && start + len < |t| && start + 4 <= |t|
    ensures t[start - 2..start] == "](" && t[start..start + 4] == "http" && t[start + len] == ')'
  {
    SwapFacts(t);
  }

  lemma {:induction false} CollidesSwap(t: string, start: nat, len: nat, table: Table)
    requires NextLink(t) == Swap(start, len)
    ensures start + len < |t| && t[start + len] == ')'
    ensures Collides(t, table) <==> !NoneStand(t, start, table) || Collides(t[start + len + 1..], table)
  {
    assert Collides(t, table) == CollidesAt(t, Swap(start, len), table);
  }

  lemma {:induction false} SwapBackWith(t: string, start: nat, len: nat, name: string, o: string, s: string, table: Table)
    requires Sound(table) && 2 <= start && start + len < |t| && start + 4 <= |t|
    requires t[start - 2..start] == "](" && t[start..start + 4] == "http" && t[start + len] == ')'
    requires name in table && table[name] == t[start..start + len]
    requires s == t[..start] + name + ")" + o
    ensures PutBack(s, table) == t <==> NoneStand(t, start, table) && PutBack(o, table) == t[start + len + 1..]
  {
    SwapBack(t, start, len, name, o, table);
  }

  lemma {:induction false} StopBack(t: string, table: Table)
    requires Sound(table)
    ensures PutBack(t, table) == t <==> NoneStand(t, |t|, table)
  {
    if NoneStand(t, |t|, table) {
      PutBackSkip(t, |t|, table);
      assert t[|t|..] == "" && t[..|t|] == t;
    } else {
      var i := FirstStand(t, |t|, table);
      StandBreaks(t, t, i, table);
    }
  }

  lemma {:induction false} CopyBack(t: string, cut: nat, o: string, table: Table)
    requires Sound(table) && 6 <= cut <= |t| && t[cut - 6..cut] == OPENING
    ensures PutBack(t[..cut] + o, table) == t <==> NoneStand(t, cut, table) && PutBack(o, table) == t[cut..]
  {
    var s, at := t[..cut] + o, cut - 6;
    assert t[at] == t[at..cut][0] == ']' && s[..at + 1] == t[..at + 1];
    if NoneStand(t, cut, table) {
      SharedFront(s, t, at, table);
      forall i | 0 <= i < cut ensures !StandsAt(s, i, table) {
        if i >= at { LinkStandsNot(t, s, cut, i, table); }
      }
      PutBackSkip(s, cut, table);
      assert s[..cut] == t[..cut] && s[cut..] == o;
      SamePrefix2(t, cut, PutBack(o, table));
    } else {
      var i := FirstStand(t, cut, table);
      if i >= at { LinkStandsNot(t, t, cut, i, table); }
      FrontBreaks(s, t, at, table);
    }
  }

  lemma {:induction false} SamePrefix2(t: string, n: nat, o: string)
    requires n <= |t|
    ensures t[..n] + o == t <==> o == t[n..]
  {
    assert t == t[..n] + t[n..];
    if t[..n] + o == t { assert (t[..n] + o)[n..] == o; }
  }

  /** No handle stands inside "](http". */
  lemma {:induction false} LinkStandsNot(t: string, s: string, cut: nat, i: nat, table: Table)
    requires Sound(table) && 6 <= cut <= |t| && cut <= |s| && t[cut - 6..cut] == OPENING && s[..cut] == t[..cut]
    requires cut - 6 <= i < cut
    ensures !StandsAt(s, i, table)
  {
    var at := cut - 6;
    assert forall j :: at <= j < cut ==> s[j] == s[..cut][j] == t[..cut][j] == t[j] == t[at..cut][j - at];
    if StandsAt(s, i, table) { StandsPlain(s, i, table); }
  }

  lemma {:induction false} SwapBack(t: string, start: nat, len: nat, name: string, o: string, table: Table)
    requires Sound(table) && 2 <= start && start + len < |t| && start + 4 <= |t|
    requires t[start - 2..start] == "](" && t[start..start + 4] == "http" && t[start + len] == ')'
    requires name in table && table[name] == t[start..start + len]
    ensures PutBack(t[..start] + name + ")" + o, table) == t
       <==> NoneStand(t, start, table) && PutBack(o, table) == t[start + len + 1..]
  {
    var s, at := t[..start] + name + ")" + o, start - 2;
    assert t[at] == t[at..start][0] == ']' && t[at + 1] == t[at..start][1] == '(' && t[start] == t[start..start + 4][0] == 'h';
    assert s[..start] == t[..start];
    assert s[..at + 1] == t[..at + 1];
    LinkStandsNotIn(t, start, table);
    if NoneStand(t, start, table) {
      SharedFront(s, t, at, table);
      assert s[at + 2..at + 11] == name && s[at + 11] == ')' && s[at + TARGET_LEN..] == o;
      assert s[at] == t[..start][at] && s[at + 1] == t[..start][at + 1];
      PutBackAt(s, at, table);
      assert s[..at] == t[..at];
      Reassemble2(t, start, len, PutBack(o, table));
    } else {
      FrontBreaks(s, t, at, table);
    }
  }

  /** No handle stands on the "](" of a link, nor on its '('. */
  lemma {:induction false} LinkStandsNotIn(t: string, start: nat, table: Table)
    requires Sound(table) && 2 <= start < |t| && t[start - 2] == ']' && t[start - 1] == '(' && t[start] == 'h'
    ensures NoneStand(t, start, table) <==> NoneStand(t, start - 2, table)
  {
    if StandsAt(t, start - 2, table) { StandsPlain(t, start - 2, table); }
    assert !StandsAt(t, start - 1, table);
  }

  lemma {:induction false} Reassemble2(t: string, start: nat, len: nat, o: string)
    requires 2 <= start && start + len < |t| && t[start - 2..start] == "](" && t[start + len] == ')'
    ensures t[..start - 2] + ("](" + t[start..start + len] + ")") + o == t <==> o == t[start + len + 1..]
  {
    var n := start + len + 1;
    assert t[..start - 2] + ("](" + t[start..start + len] + ")") == t[..n] by {
      assert t[..n] == t[..start - 2] + t[start - 2..start] + t[start..start + len] + [t[start + len]];
    }
    SamePrefix2(t, n, o);
  }

  /** Where no handle of the table is a link target at all, none collides. */
  lemma {:induction false} CollidesStands(t: string, table: Table)
    requires Collides(t, table)
    ensures !NoneStand(t, |t|, table)
    decreases |t|
  {
    match NextLink(t)
    case Stop =>
    case Copy(cut) =>
      if NoneStand(t, cut, table) { CollidesBehind(t, cut, table); }
    case Swap(start, len) =>
      if NoneStand(t, start, table) { CollidesBehind(t, start + len + 1, table); }
  }

  lemma {:induction false} CollidesBehind(t: string, n: nat, table: Table)
    requires 0 < n <= |t| && Collides(t[n..], table)
    ensures !NoneStand(t, |t|, table)
    decreases |t|, 0
  {
    CollidesStands(t[n..], table);
    var i := FirstStand(t[n..], |t[n..]|, table);
    StandsBehind(t, n, i, table);
  }

  lemma {:induction false} StandsBehind(t: string, n: nat, i: nat, table: Table)
    requires n <= |t|
    ensures StandsAt(t, n + i, table) <==> StandsAt(t[n..], i, table)
  {
    if n + i + TARGET_LEN <= |t| {
      assert t[n..][i + 2..i + 11] == t[n + i + 2..n + i + 11];
    }
  }

  // ---- With the table a rewrite leaves ----

  /** The handles written, as the table resolves them. */
  function Written(l: map<Id, LEntry>, names: seq<Id>): Table { map id | id in l && id in names :: l[id].url }

  lemma {:induction false} UrlsAreHttp(t: string)
    ensures forall i :: 0 <= i < |Urls(t)| ==> Urls(t)[i] != "" && Urls(t)[i][0] == 'h'
    decreases |t|
  {
    match NextLink(t)
    case Stop =>
    case Copy(cut) =>
      UrlsPast(t, cut);
      UrlsAreHttp(t[cut..]);
    case Swap(start, len) =>
      UrlsSwapped(t, start, len);
      SwapShape(t, start, len);
      assert t[start] == t[start..start + 4][0] == 'h';
      UrlsAreHttp(t[start + len + 1..]);
  }

  lemma {:induction false} WrittenKnows(l: map<Id, LEntry>, rev: map<Url, Id>, urls: seq<Url>, names: seq<Id>)
    requires Inverse(l, rev) && |urls| == |names| && AllBound(rev, urls, names)
    ensures Knows(Written(l, names), names, urls)
  {
    forall i | 0 <= i < |names| ensures names[i] in Written(l, names) && Written(l, names)[names[i]] == urls[i] {
      assert urls[i] in rev && rev[urls[i]] == names[i];
      assert names[i] in names;
    }
  }

  lemma {:induction false} WrittenSound(l: map<Id, LEntry>, urls: seq<Url>, names: seq<Id>)
    requires Minted('L', l.Keys) && Knows(Written(l, names), names, urls)
    requires forall i :: 0 <= i < |urls| ==> urls[i] != "" && urls[i][0] == 'h'
    ensures Sound(Written(l, names))
  {
    var table := Written(l, names);
    forall h | h in table ensures |h| == NAME_LEN && Label(h) && table[h] != "" && table[h][0] == 'h' {
      MintedNames(l, h);
      var i :| 0 <= i < |names| && names[i] == h;
      assert table[names[i]] == urls[i];
    }
  }

  lemma {:induction false} MintedNames(l: map<Id, LEntry>, id: Id)
    requires Minted('L', l.Keys) && id in l
    ensures |id| == NAME_LEN && Label(id)
  {
    assert WellFormed('L', id);
    forall i | 0 <= i < |id| ensures Plain(id[i]) {
      assert i == 0 || IsBase62(id[i]);
    }
  }

  /** From the output text and the handles written, the input comes back exactly
      when none of these handles stood as a link target in the kept text. */
  lemma {:induction false} WayBackIff(l: map<Id, LEntry>, rev: map<Url, Id>, recent: seq<Url>, before: seq<Url>, md: string, names: seq<Id>)
    requires Inverse(l, rev) && Minted('L', l.Keys) && Interned(rev, recent, before, Urls(md), names)
    requires |Elems(Urls(md))| <= MAX_L_ENTRIES
    ensures PutBack(Rewrite(md, names), Written(l, names)) == md <==> !Collides(md, Written(l, names))
  {
    UrlsAreHttp(md);
    WrittenKnows(l, rev, Urls(md), names);
    WrittenSound(l, Urls(md), names);
    PutBackIff(md, names, Written(l, names));
  }

  // ---- Two texts, one output ----

  function LinkOf(target: string): string { "](" + target + ")" }

  const TINY: string := "httpx"

  lemma {:induction false} TinyLink(rest: string)
    ensures NextLink(LinkOf(TINY) + rest) == Swap(2, 5)
    ensures (LinkOf(TINY) + rest)[2..7] == TINY && (LinkOf(TINY) + rest)[8..] == rest
  {
    var s := LinkOf(TINY) + rest;
    assert s[..6] == OPENING;
    assert Find(s, OPENING) == Some(0);
    var o := s[2..];
    assert o == TINY + (")" + rest);
    TinyCloses(o, rest);
    assert o[..5] == TINY;
    assert !HasSpace(TINY) by { assert TINY[1..] == "ttpx" && "ttpx"[1..] == "tpx" && "tpx"[1..] == "px" && "px"[1..] == "x" && "x"[1..] == ""; }
    assert Judge(o) == Clean(5);
  }

  lemma {:induction false} TinyCloses(o: string, rest: string)
    requires o == TINY + (")" + rest)
    ensures CloseAt(o, 0) == Some(5)
  {
    assert o[0] == 'h' && o[1..][0] == 't' && o[1..][1..][0] == 't' && o[1..][1..][1..][0] == 'p' && o[1..][1..][1..][1..][0] == 'x';
    assert o[1..][1..][1..][1..][1..][0] == ')';
    assert CloseAt(o[1..][1..][1..][1..][1..], 0) == Some(0);
    assert CloseAt(o[1..][1..][1..][1..], 0) == Some(1);
    assert CloseAt(o[1..][1..][1..], 0) == Some(2);
    assert CloseAt(o[1..][1..], 0) == Some(3);
    assert CloseAt(o[1..], 0) == Some(4);
  }

  lemma {:induction false} HandleIsNoLink(name: string, rest: string)
    requires |name| == NAME_LEN && Label(name)
    ensures NoneBefore(LinkOf(name) + rest, OPENING, TARGET_LEN) && (LinkOf(name) + rest)[TARGET_LEN..] == rest
  {
    var s := LinkOf(name) + rest;
    assert forall j :: 2 <= j < 11 ==> s[j] == name[j - 2];
    forall i | 0 <= i < TARGET_LEN ensures !StartsWith(s[i..], OPENING) {
      if i == 0 {
        Mismatch(s, 0, OPENING, 2);
      } else {
        assert 2 <= i < 11 ==> Plain(s[i]) by { if 2 <= i < 11 { assert Plain(name[i - 2]); } }
        Mismatch(s, i, OPENING, 0);
      }
    }
  }

  /** A handle that already stands in the text makes two different texts rewrite
      to one: nothing can tell them apart afterwards. */
  lemma {:induction false} TwoTextsOneOutput(name: string)
    requires |name| == NAME_LEN && Label(name)
    ensures var a, b := LinkOf(TINY) + LinkOf(name), LinkOf(name) + LinkOf(TINY);
      && a != b && Urls(a) == Urls(b) == [TINY]
      && Rewrite(a, [name]) == Rewrite(b, [name])
  {
    var a, b := LinkOf(TINY) + LinkOf(name), LinkOf(name) + LinkOf(TINY);
    assert a[2] == 'h' && b[2] == name[0];
    BeforeName(name);
    BehindName(name);
  }

  lemma {:induction false} BeforeName(name: string)
    requires |name| == NAME_LEN && Label(name)
    ensures var a := LinkOf(TINY) + LinkOf(name);
      Urls(a) == [TINY] && Rewrite(a, [name]) == LinkOf(name) + LinkOf(name)
  {
    var a := LinkOf(TINY) + LinkOf(name);
    NameAlone(name);
    TinyLink(LinkOf(name));
    UrlsSwapped(a, 2, 5);
    SwapLabels(a, 2, 5, name, [], LinkOf(name));
    assert a[..2] == "](";
    assert LinkOf(name) + LinkOf(name) == "](" + name + ")" + LinkOf(name);
    assert [name] + [] == [name];
  }

  lemma {:induction false} NameAlone(name: string)
    requires |name| == NAME_LEN && Label(name)
    ensures Urls(LinkOf(name)) == [] && Rewrite(LinkOf(name), []) == LinkOf(name)
  {
    var s := LinkOf(name);
    assert s + "" == s;
    HandleIsNoLink(name, "");
    FindFrom(s, OPENING, TARGET_LEN);
    assert s[TARGET_LEN..] == "";
    assert NextLink(s).Stop?;
  }

  lemma {:induction false} BehindName(name: string)
    requires |name| == NAME_LEN && Label(name)
    ensures var b := LinkOf(name) + LinkOf(TINY);
      Urls(b) == [TINY] && Rewrite(b, [name]) == LinkOf(name) + LinkOf(name)
  {
    var b := LinkOf(name) + LinkOf(TINY);
    HandleIsNoLink(name, LinkOf(TINY));
    NextFrom(b, TARGET_LEN);
    assert LinkOf(TINY) + "" == LinkOf(TINY);
    TinyLink("");
    assert NextLink(b) == Swap(14, 5);
    assert b[14..19] == TINY && b[20..] == "";
    UrlsSwapped(b, 14, 5);
    assert Urls("") == [] && Rewrite("", []) == "";
    SwapLabels(b, 14, 5, name, [], "");
    assert b[..14] == LinkOf(name) + "](";
    assert [name] + [] == [name];
    assert LinkOf(name) + "](" + name + ")" + "" == LinkOf(name) + LinkOf(name);
  }
}
