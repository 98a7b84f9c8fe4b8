/** The compiled URL-rule matcher of src/rules.rs. */
module Rules {
  import opened Options
  import opened Text
  import opened Labels
  import Sorting
  import opened Lists
  import opened Flats

  datatype Action = Allow | Deny

  datatype DenyKind = Walled | Permanent

  datatype UrlRule = UrlRule(enabled: bool, action: Action, message: Option<string>, kind: DenyKind, reason: Option<string>)

  datatype CompiledRule = CompiledRule(key: string, host: string, exact: bool, scheme: Option<string>, rule: UrlRule)

  /** A parsed host with its canonical spelling; an IPv6 address may map an
      IPv4 one. */
  datatype Host =
    | Domain(text: string)
    | Ipv4(text: string)
    | Ipv6(text: string, mapped: Option<string>)

  datatype Url = Url(scheme: string, host: Option<Host>)

  type Postings = map<string, seq<nat>>

  datatype RuleSet = RuleSet(rules: seq<CompiledRule>, exact: Postings, tree: Postings)

  // ---- Which rules fit a URL ----

  function Address(ip: Host): string
  {
    if ip.Ipv6? && ip.mapped.Some? then ip.mapped.value else ip.text
  }

  predicate HostFits(r: CompiledRule, host: Host)
  {
    if host.Domain? then
      var d := TrimEnd(host.text, IsDot);
      d != "" && if r.exact then r.host == d else LabelSuffix(r.host, d)
    else r.host == Address(host)
  }

  predicate Fits(r: CompiledRule, url: Url)
  {
    url.host.Some? && HostFits(r, url.host.value) && (r.scheme.None? || r.scheme.value == url.scheme)
  }

  /** The linear scan that the index replaces. */
  function Scan(rules: seq<CompiledRule>, url: Url): seq<CompiledRule>
  {
    if rules == [] then []
    else
      var n := |rules| - 1;
      Scan(rules[..n], url) + if Fits(rules[n], url) then [rules[n]] else []
  }

  // ---- Precedence ----

  function Dots(host: string): nat { if host == "" then 0 else (if host[0] == '.' then 1 else 0) + Dots(host[1..]) }

  function LabelCount(r: CompiledRule): nat { Dots(r.host) + 1 }

  predicate Precedes(a: CompiledRule, b: CompiledRule)
  {
    if LabelCount(a) != LabelCount(b) then LabelCount(a) > LabelCount(b)
    else if a.exact != b.exact then a.exact
    else if a.scheme.Some? != b.scheme.Some? then a.scheme.Some?
    else StringLe(a.key, b.key)
  }

  lemma {:induction false} PrecedesTotal()
    ensures Sorting.TotalPreorder(Precedes)
  {
    forall a, b ensures Precedes(a, b) || Precedes(b, a) {
      StringLeTotal(a.key, b.key);
    }
    forall a, b, c | Precedes(a, b) && Precedes(b, c) ensures Precedes(a, c) {
      if StringLe(a.key, b.key) && StringLe(b.key, c.key) { StringLeTrans(a.key, b.key, c.key); }
    }
  }

  // ---- The index ----

  function Lookup(index: Postings, host: string): seq<nat> { if host in index then index[host] else [] }

  /** The positions below `n` of the rules for `host` in one form. */
  function Positions(rules: seq<CompiledRule>, n: nat, exact: bool, host: string): seq<nat>
    requires n <= |rules|
  {
    if n == 0 then []
    else Positions(rules, n - 1, exact, host)
         + if rules[n - 1].exact == exact && rules[n - 1].host == host then [n - 1] else []
  }

  ghost predicate Indexes(index: Postings, rules: seq<CompiledRule>, n: nat, exact: bool)
    requires n <= |rules|
  {
    forall host :: Lookup(index, host) == Positions(rules, n, exact, host)
  }

  ghost predicate Indexed(table: RuleSet)
  {
    && Indexes(table.exact, table.rules, |table.rules|, true)
    && Indexes(table.tree, table.rules, |table.rules|, false)
  }

  method FromCompiled(rules: seq<CompiledRule>) returns (table: RuleSet)
    ensures Indexed(table) && table.rules == rules
  {
    var exact: Postings, tree: Postings := map[], map[];
    for i := 0 to |rules|
      invariant Indexes(exact, rules, i, true) && Indexes(tree, rules, i, false)
    {
      Posted(exact, rules, i, true);
      Posted(tree, rules, i, false);
      var host := rules[i].host;
      if rules[i].exact {
        exact := exact[host := Lookup(exact, host) + [i]];
      } else {
        tree := tree[host := Lookup(tree, host) + [i]];
      }
    }
    table := RuleSet(rules, exact, tree);
  }

  lemma {:induction false} Posted(index: Postings, rules: seq<CompiledRule>, i: nat, exact: bool)
    requires i < |rules| && Indexes(index, rules, i, exact)
    ensures var host := rules[i].host;
      Indexes(if rules[i].exact == exact then index[host := Lookup(index, host) + [i]] else index, rules, i + 1, exact)
  {
    var index' := if rules[i].exact == exact then index[rules[i].host := Lookup(index, rules[i].host) + [i]] else index;
    forall host ensures Lookup(index', host) == Positions(rules, i + 1, exact, host) {
      assert Lookup(index, host) == Positions(rules, i, exact, host);
    }
  }

  // ---- Looking a host up ----

  /** Positions found by walking the dots of `d`. */
  function Walk(rules: seq<CompiledRule>, d: string): seq<nat>
    decreases |d|
  {
    var dot := FindChar(d, IsDot);
    Positions(rules, |rules|, false, d) + if dot.None? then [] else Walk(rules, d[dot.value + 1..])
  }

  function Hits(rules: seq<CompiledRule>, host: Host): seq<nat>
  {
    if host.Domain? then
      var d := TrimEnd(host.text, IsDot);
      if d == "" then [] else Positions(rules, |rules|, true, d) + Walk(rules, d)
    else
      Positions(rules, |rules|, true, Address(host)) + Positions(rules, |rules|, false, Address(host))
  }

  lemma {:induction false} PositionsMeaning(rules: seq<CompiledRule>, n: nat, exact: bool, host: string)
    requires n <= |rules|
    ensures var ps := Positions(rules, n, exact, host);
      NoRepeats(ps) && forall i: nat :: i in ps <==> i < n && rules[i].exact == exact && rules[i].host == host
  {
    if n > 0 {
      PositionsMeaning(rules, n - 1, exact, host);
    }
  }

  lemma {:induction false} LabelSuffixStep(h: string, d: string)
    ensures LabelSuffix(h, d) <==>
      h == d || (FindChar(d, IsDot).Some? && LabelSuffix(h, d[FindChar(d, IsDot).value + 1..]))
  {
  }

  lemma {:induction false} WalkMeaning(rules: seq<CompiledRule>, d: string)
    ensures NoRepeats(Walk(rules, d))
    ensures forall i: nat :: i in Walk(rules, d) <==> i < |rules| && !rules[i].exact && LabelSuffix(rules[i].host, d)
    decreases |d|
  {
    var here, dot := Positions(rules, |rules|, false, d), FindChar(d, IsDot);
    PositionsMeaning(rules, |rules|, false, d);
    if dot.Some? {
      WalkMeaning(rules, d[dot.value + 1..]);
      JoinRepeats(here, Walk(rules, d[dot.value + 1..]));
    }
    forall i: nat
      ensures i in Walk(rules, d) <==> i < |rules| && !rules[i].exact && LabelSuffix(rules[i].host, d)
    {
      if i < |rules| { LabelSuffixStep(rules[i].host, d); }
    }
  }

  lemma {:induction false} JoinRepeats(a: seq<nat>, b: seq<nat>)
    requires NoRepeats(a) && NoRepeats(b) && forall x :: x in a ==> x !in b
    ensures NoRepeats(a + b)
  {
    var c := a + b;
    forall i, j | 0 <= i < j < |c| ensures c[i] != c[j] {
      assert i < |a| ==> c[i] in a;
      assert j >= |a| ==> c[j] in b;
    }
  }

  lemma {:induction false} HitsMeaning(rules: seq<CompiledRule>, host: Host)
    ensures NoRepeats(Hits(rules, host))
    ensures forall i: nat :: i in Hits(rules, host) <==> i < |rules| && HostFits(rules[i], host)
  {
    if host.Domain? {
      var d := TrimEnd(host.text, IsDot);
      PositionsMeaning(rules, |rules|, true, d);
      WalkMeaning(rules, d);
      JoinRepeats(Positions(rules, |rules|, true, d), Walk(rules, d));
    } else {
      PositionsMeaning(rules, |rules|, true, Address(host));
      PositionsMeaning(rules, |rules|, false, Address(host));
      JoinRepeats(Positions(rules, |rules|, true, Address(host)), Positions(rules, |rules|, false, Address(host)));
    }
  }

  // ---- Matching ----

  predicate SchemeFits(r: CompiledRule, scheme: string) { r.scheme.None? || r.scheme.value == scheme }

  function Picker(rules: seq<CompiledRule>, scheme: string): nat -> seq<CompiledRule>
  {
    (i: nat) => if i < |rules| && SchemeFits(rules[i], scheme) then [rules[i]] else []
  }

  function FitsHere(rules: seq<CompiledRule>, i: nat, host: Host): seq<nat>
    requires i < |rules|
  {
    if HostFits(rules[i], host) then [i] else []
  }

  /** Every position whose rule's host fits, in order. */
  function Fitting(rules: seq<CompiledRule>, n: nat, host: Host): seq<nat>
    requires n <= |rules|
  {
    if n == 0 then [] else Fitting(rules, n - 1, host) + FitsHere(rules, n - 1, host)
  }

  lemma {:induction false} FittingMeaning(rules: seq<CompiledRule>, n: nat, host: Host)
    requires n <= |rules|
    ensures NoRepeats(Fitting(rules, n, host))
    ensures forall i: nat :: i in Fitting(rules, n, host) <==> i < n && HostFits(rules[i], host)
  {
    if n > 0 {
      FittingMeaning(rules, n - 1, host);
    }
  }

  /** Picking the fitting positions is the linear scan. */
  lemma {:induction false} PickIsScan(rules: seq<CompiledRule>, n: nat, host: Host, scheme: string)
    requires n <= |rules|
    ensures Flat(Fitting(rules, n, host), Picker(rules, scheme)) == Scan(rules[..n], Url(scheme, Some(host)))
  {
    if n > 0 {
      PickIsScan(rules, n - 1, host, scheme);
      ScanSnoc(rules, n, Url(scheme, Some(host)));
      PickHere(rules, n - 1, host, scheme);
      FlatConcat(Fitting(rules, n - 1, host), FitsHere(rules, n - 1, host), Picker(rules, scheme));
    }
  }

  lemma {:induction false} PickHere(rules: seq<CompiledRule>, i: nat, host: Host, scheme: string)
    requires i < |rules|
    ensures Flat(FitsHere(rules, i, host), Picker(rules, scheme))
         == if Fits(rules[i], Url(scheme, Some(host))) then [rules[i]] else []
  {
  }

  lemma {:induction false} ScanSnoc(rules: seq<CompiledRule>, n: nat, url: Url)
    requires 0 < n <= |rules|
    ensures Scan(rules[..n], url) == Scan(rules[..n - 1], url) + if Fits(rules[n - 1], url) then [rules[n - 1]] else []
  {
    assert rules[..n][..n - 1] == rules[..n - 1];
  }

  /** The index finds exactly what a scan of every rule finds. */
  lemma {:induction false} IndexAgrees(rules: seq<CompiledRule>, host: Host, scheme: string)
    ensures multiset(Flat(Hits(rules, host), Picker(rules, scheme))) == multiset(Scan(rules, Url(scheme, Some(host))))
  {
    var hits, all := Hits(rules, host), Fitting(rules, |rules|, host);
    HitsMeaning(rules, host);
    FittingMeaning(rules, |rules|, host);
    SameMembers(hits, all);
    FlatPermutes(hits, all, Picker(rules, scheme));
    PickIsScan(rules, |rules|, host, scheme);
    assert rules[..|rules|] == rules;
  }

  /** Collect the positions of the rules a host hits. */
  method Collect(table: RuleSet, host: Host) returns (hits: seq<nat>)
    requires Indexed(table)
    ensures hits == Hits(table.rules, host)
  {
    if host.Domain? {
      var domain := TrimEnd(host.text, IsDot);
      if domain == "" {
        return [];
      }
      hits := CollectTree(table, domain);
      hits := Lookup(table.exact, domain) + hits;
    } else {
      var address := Address(host);
      hits := Lookup(table.exact, address) + Lookup(table.tree, address);
    }
  }

  /** Look up each suffix of `domain` that starts at a label. */
  method CollectTree(table: RuleSet, domain: string) returns (hits: seq<nat>)
    requires Indexes(table.tree, table.rules, |table.rules|, false)
    ensures hits == Walk(table.rules, domain)
  {
    hits := [];
    var suffix := domain;
    while true
      invariant hits + Walk(table.rules, suffix) == Walk(table.rules, domain)
      decreases |suffix|
    {
      WalkHere(table.rules, suffix, hits);
      LookedUp(table, suffix);
      hits := hits + Lookup(table.tree, suffix);
      var dot := FindChar(suffix, IsDot);
      if dot.None? {
        return;
      }
      suffix := suffix[dot.value + 1..];
    }
  }

  lemma {:induction false} LookedUp(table: RuleSet, host: string)
    requires Indexes(table.tree, table.rules, |table.rules|, false)
    ensures Lookup(table.tree, host) == Positions(table.rules, |table.rules|, false, host)
  {
  }

  /** What the walk finds past the first dot of `d`. */
  function Onward(rules: seq<CompiledRule>, d: string): seq<nat>
  {
    var dot := FindChar(d, IsDot);
    if dot.None? then [] else Walk(rules, d[dot.value + 1..])
  }

  lemma {:induction false} WalkHere(rules: seq<CompiledRule>, d: string, hits: seq<nat>)
    ensures hits + Walk(rules, d) == (hits + Positions(rules, |rules|, false, d)) + Onward(rules, d)
    ensures FindChar(d, IsDot).None? ==> hits + Walk(rules, d) == hits + Positions(rules, |rules|, false, d)
  {
    var here := Positions(rules, |rules|, false, d);
    assert Walk(rules, d) == here + Onward(rules, d);
    assert hits + (here + Onward(rules, d)) == (hits + here) + Onward(rules, d);
  }

  method Select(rules: seq<CompiledRule>, hits: seq<nat>, scheme: string) returns (found: seq<CompiledRule>)
    ensures found == Flat(hits, Picker(rules, scheme))
  {
    found := [];
    for i := 0 to |hits|
      invariant found == Flat(hits[..i], Picker(rules, scheme))
    {
      FlatSnoc(hits, i, Picker(rules, scheme));
      if hits[i] < |rules| && SchemeFits(rules[hits[i]], scheme) {
        found := found + [rules[hits[i]]];
      }
    }
    assert hits[..|hits|] == hits;
  }

  /** Every rule that fits `url`, most specific first. */
  method Matches(table: RuleSet, url: Url) returns (out: seq<CompiledRule>)
    requires Indexed(table)
    ensures multiset(out) == multiset(Scan(table.rules, url))
    ensures Sorting.SortedBy(out, Precedes)
    ensures forall i, j :: 0 <= i < j < |out| ==> Narrower(out[i], out[j])
  {
    if table.rules == [] || url.host.None? {
      ScanNowhere(table.rules, url);
      return [];
    }
    var hits := Collect(table, url.host.value);
    IndexAgrees(table.rules, url.host.value, url.scheme);
    var found := Select(table.rules, hits, url.scheme);
    assert url == Url(url.scheme, Some(url.host.value));
    out := Ordered(found);
    SortedNarrows(table.rules, url, out);
  }

  lemma {:induction false} SortedNarrows(rules: seq<CompiledRule>, url: Url, out: seq<CompiledRule>)
    requires multiset(out) == multiset(Scan(rules, url)) && Sorting.SortedBy(out, Precedes)
    ensures forall i, j :: 0 <= i < j < |out| ==> Narrower(out[i], out[j])
  {
    Sorting.Members(out, Scan(rules, url));
    ScanMembers(rules, url);
    forall i, j | 0 <= i < j < |out| ensures Narrower(out[i], out[j]) {
      assert out[i] in out && out[j] in out;
      PrecedesNarrows(out[i], out[j], url);
    }
  }

  method Ordered(found: seq<CompiledRule>) returns (out: seq<CompiledRule>)
    ensures multiset(out) == multiset(found) && Sorting.SortedBy(out, Precedes)
  {
    out := Sorting.Sort(found, Precedes);
    Sorting.SortPermutes(found, Precedes);
    PrecedesTotal();
    Sorting.SortSorts(found, Precedes);
  }

  lemma {:induction false} ScanNowhere(rules: seq<CompiledRule>, url: Url)
    ensures rules == [] || url.host.None? ==> Scan(rules, url) == []
  {
    if rules != [] && url.host.None? {
      ScanNowhere(rules[..|rules| - 1], url);
    }
  }

  // ---- The winner ----

  /** `w` is the most specific enabled rule that fits `url`, if any does. */
  ghost predicate Wins(rules: seq<CompiledRule>, url: Url, w: Option<CompiledRule>)
  {
    match w
    case None => forall r :: r in rules && Fits(r, url) ==> !r.rule.enabled
    case Some(best) =>
      && best in rules && Fits(best, url) && best.rule.enabled
      && forall r :: r in rules && Fits(r, url) && r.rule.enabled ==> Precedes(best, r)
  }

  lemma {:induction false} ScanMembers(rules: seq<CompiledRule>, url: Url)
    ensures forall r :: r in Scan(rules, url) <==> r in rules && Fits(r, url)
  {
    if rules != [] {
      var n := |rules| - 1;
      ScanMembers(rules[..n], url);
      assert rules == rules[..n] + [rules[n]];
    }
  }

  method Eval(table: RuleSet, url: Url) returns (w: Option<CompiledRule>)
    requires Indexed(table)
    ensures Wins(table.rules, url, w)
    ensures w.Some? ==> forall r :: r in table.rules && Fits(r, url) && r.rule.enabled ==> Narrower(w.value, r)
  {
    var out := Matches(table, url);
    Sorting.Members(out, Scan(table.rules, url));
    ScanMembers(table.rules, url);
    for i := 0 to |out|
      invariant forall j :: 0 <= j < i ==> !out[j].rule.enabled
    {
      if out[i].rule.enabled {
        FirstWins(out, i);
        WinnerNarrows(table.rules, url, out[i]);
        return Some(out[i]);
      }
    }
    w := None;
  }

  lemma {:induction false} WinnerNarrows(rules: seq<CompiledRule>, url: Url, w: CompiledRule)
    requires Wins(rules, url, Some(w))
    ensures forall r :: r in rules && Fits(r, url) && r.rule.enabled ==> Narrower(w, r)
  {
    forall r | r in rules && Fits(r, url) && r.rule.enabled ensures Narrower(w, r) {
      WinnerNarrowest(rules, url, w, r);
    }
  }

  lemma {:induction false} FirstWins(out: seq<CompiledRule>, i: nat)
    requires i < |out| && Sorting.SortedBy(out, Precedes) && forall j :: 0 <= j < i ==> !out[j].rule.enabled
    ensures forall r :: r in out && r.rule.enabled ==> Precedes(out[i], r)
  {
    PrecedesTotal();
  }

  ghost predicate DistinctKeys(rules: seq<CompiledRule>)
  {
    forall i, j :: 0 <= i < j < |rules| ==> rules[i].key != rules[j].key
  }

  lemma {:induction false} SameRank(a: CompiledRule, b: CompiledRule)
    requires Precedes(a, b) && Precedes(b, a)
    ensures LabelCount(a) == LabelCount(b) && a.exact == b.exact && a.scheme.Some? == b.scheme.Some? && a.key == b.key
  {
    StringLeAntisym(a.key, b.key);
  }

  /** With distinct keys there is one winner. */
  lemma {:induction false} WinnerUnique(rules: seq<CompiledRule>, url: Url, v: Option<CompiledRule>, w: Option<CompiledRule>)
    requires DistinctKeys(rules) && Wins(rules, url, v) && Wins(rules, url, w)
    ensures v == w
  {
    if v.Some? && w.Some? {
      SameRank(v.value, w.value);
      var i :| 0 <= i < |rules| && rules[i] == v.value;
      var j :| 0 <= j < |rules| && rules[j] == w.value;
      assert i == j;
    }
  }

  function Enabled(rules: seq<CompiledRule>): seq<CompiledRule>
  {
    if rules == [] then [] else (if rules[0].rule.enabled then [rules[0]] else []) + Enabled(rules[1..])
  }

  lemma {:induction false} EnabledMembers(rules: seq<CompiledRule>)
    ensures forall r :: r in Enabled(rules) <==> r in rules && r.rule.enabled
  {
    if rules != [] {
      EnabledMembers(rules[1..]);
      assert rules == [rules[0]] + rules[1..];
    }
  }

  /** A disabled rule counts for nothing, as if it were not written. */
  lemma {:induction false} DisabledIsAbsent(rules: seq<CompiledRule>, url: Url, w: Option<CompiledRule>)
    ensures Wins(rules, url, w) <==> Wins(Enabled(rules), url, w)
  {
    EnabledMembers(rules);
  }

  /** Evaluating a set and the set without its disabled rules agree. */
  method EvalIgnoresDisabled(rules: seq<CompiledRule>, url: Url) returns (w: Option<CompiledRule>, v: Option<CompiledRule>)
    requires DistinctKeys(rules)
    ensures v == w && Wins(rules, url, w)
  {
    var all := FromCompiled(rules);
    w := Eval(all, url);
    var enabled := FromCompiled(Enabled(rules));
    v := Eval(enabled, url);
    DisabledIsAbsent(rules, url, v);
    WinnerUnique(rules, url, v, w);
  }

  // ---- Hosts that are the same site ----

  function Dotted(host: Host, n: nat): Host
    requires host.Domain?
  {
    if n == 0 then host else Domain(Dotted(host, n - 1).text + ".")
  }

  /** Trailing dots do not escape a rule. */
  lemma {:induction false} TrailingDots(rules: seq<CompiledRule>, scheme: string, host: Host, n: nat)
    requires host.Domain?
    ensures Scan(rules, Url(scheme, Some(Dotted(host, n)))) == Scan(rules, Url(scheme, Some(host)))
    decreases |rules|
  {
    TrimDots(host, n);
    if rules != [] {
      TrailingDots(rules[..|rules| - 1], scheme, host, n);
    }
  }

  lemma {:induction false} TrimDots(host: Host, n: nat)
    requires host.Domain?
    ensures Dotted(host, n).Domain? && TrimEnd(Dotted(host, n).text, IsDot) == TrimEnd(host.text, IsDot)
  {
    if n > 0 {
      TrimDots(host, n - 1);
      var s := Dotted(host, n - 1).text;
      assert (s + ".")[..|s|] == s;
    }
  }

  /** Nor does spelling an IPv4 address as a mapped IPv6 one. */
  lemma {:induction false} MappedIsIpv4(rules: seq<CompiledRule>, scheme: string, text: string, v4: string)
    ensures Scan(rules, Url(scheme, Some(Ipv6(text, Some(v4))))) == Scan(rules, Url(scheme, Some(Ipv4(v4))))
  {
    if rules != [] {
      MappedIsIpv4(rules[..|rules| - 1], scheme, text, v4);
    }
  }

  // ---- Specificity decides ----

  lemma {:induction false} DotsConcat(a: string, b: string)
    ensures Dots(a + b) == Dots(a) + Dots(b)
  {
    if a == "" {
      assert a + b == b;
    } else {
      assert (a + b)[1..] == a[1..] + b;
      DotsConcat(a[1..], b);
    }
  }

  lemma {:induction false} LongerHasMoreDots(g: string, h: string, d: string)
    requires LabelSuffix(g, d) && LabelSuffix(h, d) && |g| < |h|
    ensures Dots(g) < Dots(h)
  {
    var n := |h| - |g|;
    assert h == h[..n - 1] + ("." + g);
    DotsConcat(h[..n - 1], "." + g);
    assert ("." + g)[1..] == g;
  }

  /** Two rules that fit one URL with as many labels name the same host. */
  lemma {:induction false} SameLabelsSameHost(a: CompiledRule, b: CompiledRule, url: Url)
    requires Fits(a, url) && Fits(b, url) && LabelCount(a) == LabelCount(b)
    ensures a.host == b.host
  {
    if url.host.value.Domain? {
      var d := TrimEnd(url.host.value.text, IsDot);
      if |a.host| < |b.host| { LongerHasMoreDots(a.host, b.host, d); }
      if |b.host| < |a.host| { LongerHasMoreDots(b.host, a.host, d); }
    }
  }

  lemma {:induction false} SuffixOfLonger(g: string, h: string, d: string)
    requires LabelSuffix(g, d) && LabelSuffix(h, d) && |g| <= |h|
    ensures LabelSuffix(g, h)
  {
    var n := |d| - |h|;
    assert forall i :: 0 <= i < |h| ==> h[i] == d[n..][i] == d[n + i];
    assert h[|h| - |g|..] == d[|d| - |g|..];
  }

  /** Both rules fit `url`. Then `a` is at least as specific: its host goes on
      with the labels of `b`'s host, and of one host the exact form comes before
      the tree and a named scheme before none. */
  predicate Narrower(a: CompiledRule, b: CompiledRule)
  {
    && TailOf(LabelsOf(b.host), LabelsOf(a.host))
    && (a.host == b.host && b.exact ==> a.exact)
    && (a.host == b.host && a.exact == b.exact && b.scheme.Some? ==> a.scheme.Some?)
  }

  /** What precedence means among the rules that fit one URL. */
  lemma {:induction false} PrecedesNarrows(a: CompiledRule, b: CompiledRule, url: Url)
    requires Fits(a, url) && Fits(b, url) && Precedes(a, b)
    ensures Narrower(a, b)
  {
    LabelSuffixIff(b.host, a.host);
    if url.host.value.Domain? {
      var d := TrimEnd(url.host.value.text, IsDot);
      if |a.host| < |b.host| { LongerHasMoreDots(a.host, b.host, d); }
      SuffixOfLonger(b.host, a.host, d);
    }
  }

  /** The winner against every enabled rule that fits: none names a longer host,
      and of the winner's own host none is exact or names a scheme unless the
      winner does. */
  lemma {:induction false} WinnerNarrowest(rules: seq<CompiledRule>, url: Url, w: CompiledRule, r: CompiledRule)
    requires Wins(rules, url, Some(w)) && r in rules && Fits(r, url) && r.rule.enabled
    ensures Narrower(w, r)
  {
    PrecedesNarrows(w, r, url);
  }

  /** Which rules fit a domain: an exact one names it, a tree one its last
      labels. */
  lemma {:induction false} FitsDomain(r: CompiledRule, url: Url)
    requires url.host.Some? && url.host.value.Domain?
    ensures var d := TrimEnd(url.host.value.text, IsDot);
      Fits(r, url) <==>
        && d != "" && (r.scheme.None? || r.scheme == Some(url.scheme))
        && if r.exact then LabelsOf(r.host) == LabelsOf(d) else TailOf(LabelsOf(r.host), LabelsOf(d))
  {
    var d := TrimEnd(url.host.value.text, IsDot);
    LabelSuffixIff(r.host, d);
    JoinLabels(r.host);
    JoinLabels(d);
  }

  datatype Pattern = Pattern(host: string, exact: bool, scheme: Option<string>)

  function PatternOf(r: CompiledRule): Pattern { Pattern(r.host, r.exact, r.scheme) }

  ghost predicate NoDuplicates(rules: seq<CompiledRule>)
  {
    forall i, j :: 0 <= i < j < |rules| ==> PatternOf(rules[i]) != PatternOf(rules[j])
  }

  /** Once duplicates are rejected, the key never decides between two rules
      that fit the same URL. */
  lemma {:induction false} KeyNeverDecides(rules: seq<CompiledRule>, i: nat, j: nat, url: Url)
    requires NoDuplicates(rules) && i < |rules| && j < |rules| && i != j && Fits(rules[i], url) && Fits(rules[j], url)
    ensures var a, b := rules[i], rules[j];
      LabelCount(a) != LabelCount(b) || a.exact != b.exact || a.scheme.Some? != b.scheme.Some?
  {
    var a, b := rules[i], rules[j];
    if LabelCount(a) == LabelCount(b) {
      SameLabelsSameHost(a, b, url);
      assert PatternOf(rules[if i < j then i else j]) != PatternOf(rules[if i < j then j else i]);
    }
  }

  /** The first two rules of one pattern, if there are any. */
  method CheckDuplicates(rules: seq<CompiledRule>) returns (clash: Option<(nat, nat)>)
    ensures clash.None? <==> NoDuplicates(rules)
    ensures clash.Some? ==>
      && clash.value.0 < clash.value.1 < |rules|
      && PatternOf(rules[clash.value.0]) == PatternOf(rules[clash.value.1])
      && NoDuplicates(rules[..clash.value.1])
  {
    var seen: map<Pattern, nat> := map[];
    for i := 0 to |rules|
      invariant NoDuplicates(rules[..i])
      invariant forall p :: p in seen ==> seen[p] < i && PatternOf(rules[seen[p]]) == p
      invariant forall j :: 0 <= j < i ==> PatternOf(rules[j]) in seen
    {
      var pattern := PatternOf(rules[i]);
      if pattern in seen {
        return Some((seen[pattern], i));
      }
      seen := seen[pattern := i];
    }
    assert rules[..|rules|] == rules;
    clash := None;
  }
}
