/** The session vault of src/state.rs: per-host login cookies, and the harvest,
    login and logout edits its helpers make. */
module SessionVault {
  import opened Options
  import opened Text
  import opened Labels
  import opened Tier1Jar
  import opened Lists
  import opened SessionRows
  import Recency

  /** The session fields of a domain profile. */
  datatype SessionPart = SessionPart(cookies: seq<Cookie>, explicit: bool, cleared: nat)

  const NO_SESSION: SessionPart := SessionPart([], false, 0)

  type Vault = map<string, SessionPart>

  /** What the name, character-set and public-suffix checks decide. */
  datatype Hygiene = Hygiene(clean: Cookie -> bool, authShaped: string -> bool)

  const SESSION_MAX: nat := 500
  const SESSION_VALUE_MAX: nat := 8192
  const PER_DOMAIN_MAX: nat := 50
  const LOGIN_DOMAIN_MAX: nat := 500
  const LOGIN_TOTAL_MAX: nat := 5000
  const EPOCH_MAX: nat := 0xFFFF_FFFF_FFFF_FFFF

  predicate Usable(g: Hygiene, c: Cookie, now: nat)
  {
    && c.domain != "" && c.name != "" && c.value != "" && |c.value| <= SESSION_VALUE_MAX
    && (c.path != "" ==> c.path[0] == '/')
    && g.clean(c)
    && !Expired(c, now)
  }

  predicate Worthy(g: Hygiene, c: Cookie, now: nat)
  {
    Usable(g, c, now) && (c.expiresAt.None? || g.authShaped(AsciiLower(c.name)))
  }

  function At(v: Vault, host: string): SessionPart { if host in v then v[host] else NO_SESSION }

  // ---- Rows of one host ----

  /** Take a harvested cookie: refresh its row in place, else put it first. */
  function MergeRow(g: Hygiene, cs: seq<Cookie>, c: Cookie, now: nat): seq<Cookie>
  {
    if Worthy(g, c, now) then RefreshOrPush(cs, c) else cs
  }

  function WorthyAt(g: Hygiene, now: nat): Choice { c => Worthy(g, c, now) }

  function MergeRows(g: Hygiene, cs: seq<Cookie>, harvested: seq<Cookie>, now: nat): seq<Cookie>
    decreases |harvested|
  {
    if harvested == [] then cs else MergeRows(g, MergeRow(g, cs, harvested[0], now), harvested[1..], now)
  }

  function MergeOne(g: Hygiene, cs: seq<Cookie>, c: Cookie, now: nat): seq<Cookie>
  {
    Recency.Capped(MergeRow(g, cs, c, now), PER_DOMAIN_MAX)
  }

  method MergeSessionCookies(g: Hygiene, vault: seq<Cookie>, harvested: seq<Cookie>, now: nat) returns (merged: seq<Cookie>)
    ensures merged == Recency.Capped(MergeRows(g, vault, harvested, now), PER_DOMAIN_MAX)
    ensures exists uncut :: Merged(vault, harvested, WorthyAt(g, now), uncut) && merged == Recency.Capped(uncut, PER_DOMAIN_MAX)
    ensures |merged| <= 50 && (UniqueRows(vault) ==> UniqueRows(merged))
  {
    MergeRowsMerged(g, vault, harvested, now);
    merged := vault;
    for i := 0 to |harvested|
      invariant MergeRows(g, merged, harvested[i..], now) == MergeRows(g, vault, harvested, now)
      invariant UniqueRows(vault) ==> UniqueRows(merged)
    {
      var c := harvested[i];
      assert harvested[i..][1..] == harvested[i + 1..];
      if UniqueRows(merged) { RowEditsKeepUnique(g, merged, c, now); }
      if !Worthy(g, c, now) {
        continue;
      }
      var at := FindRow(merged, IdOf(c));
      if at.Some? {
        merged := merged[at.value := c];
      } else {
        merged := [c] + merged;
      }
    }
    merged := Recency.Capped(merged, PER_DOMAIN_MAX);
  }

  /** Going on where `done` has led. */
  lemma {:induction false} MergeRowsPushed(g: Hygiene, cs: seq<Cookie>, done: seq<Cookie>, todo: seq<Cookie>, now: nat)
    ensures MergeRows(g, Pushed(cs, done, WorthyAt(g, now)), todo, now) == Pushed(cs, done + todo, WorthyAt(g, now))
    decreases |todo|
  {
    if todo == [] {
      assert done + todo == done;
    } else {
      assert done + todo == (done + [todo[0]]) + todo[1..];
      assert (done + [todo[0]])[..|done|] == done;
      MergeRowsPushed(g, cs, done + [todo[0]], todo[1..], now);
    }
  }

  lemma {:induction false} MergeRowsMerged(g: Hygiene, cs: seq<Cookie>, harvested: seq<Cookie>, now: nat)
    ensures Merged(cs, harvested, WorthyAt(g, now), MergeRows(g, cs, harvested, now))
  {
    assert [] + harvested == harvested && Pushed(cs, [], WorthyAt(g, now)) == cs;
    MergeRowsPushed(g, cs, [], harvested, now);
    PushedIsMerged(cs, harvested, WorthyAt(g, now));
  }

  // ---- Harvest ----

  function HarvestOne(g: Hygiene, v: Vault, c: Cookie, now: nat): Vault
  {
    if !Usable(g, c, now) then v
    else
      var host := FoldDomain(c.domain);
      var p := At(v, host);
      v[host := p.(cookies := if p.explicit then RefreshRow(p.cookies, c) else MergeOne(g, p.cookies, c, now))]
  }

  function HarvestAll(g: Hygiene, v: Vault, cs: seq<Cookie>, now: nat): Vault
    decreases |cs|
  {
    if cs == [] then v else HarvestAll(g, HarvestOne(g, v, cs[0], now), cs[1..], now)
  }

  function AutoHosts(v: Vault): set<string> { set h | h in v && !v[h].explicit }

  ghost function Total(v: Vault, hosts: set<string>): nat
  {
    if hosts == {} then 0
    else
      var h :| h in hosts;
      |At(v, h).cookies| + Total(v, hosts - {h})
  }

  function Dropped(p: SessionPart, excess: nat): (n: nat)
    ensures n <= |p.cookies| && n <= excess && (n == |p.cookies| || n == excess)
  {
    if |p.cookies| < excess then |p.cookies| else excess
  }

  function Cut(p: SessionPart, excess: nat): SessionPart
  {
    p.(cookies := p.cookies[..|p.cookies| - Dropped(p, excess)])
  }

  /** Empty the hosts of `order`, first to last, until `excess` cookies are gone. */
  function TrimHosts(v: Vault, order: seq<string>, excess: nat): Vault
    decreases |order|
  {
    if order == [] || excess == 0 then v
    else
      var p := At(v, order[0]);
      TrimHosts(v[order[0] := Cut(p, excess)], order[1..], excess - Dropped(p, excess))
  }

  ghost function CapVault(v: Vault, order: seq<string>): Vault
  {
    var total := Total(v, AutoHosts(v));
    if total > SESSION_MAX then TrimHosts(v, order, total - SESSION_MAX) else v
  }

  ghost function Harvest(g: Hygiene, v: Vault, cs: seq<Cookie>, order: seq<string>, now: nat): Vault
  {
    CapVault(HarvestAll(g, v, cs, now), order)
  }

  ghost predicate EnumeratesAuto(v: Vault, order: seq<string>)
  {
    && NoRepeats(order)
    && (forall h :: h in order <==> h in v && !v[h].explicit && v[h].cookies != [])
  }

  // ---- Sums ----

  lemma {:induction false} TotalRemove(v: Vault, hosts: set<string>, h: string)
    requires h in hosts
    ensures Total(v, hosts) == |At(v, h).cookies| + Total(v, hosts - {h})
  {
    var g :| g in hosts && Total(v, hosts) == |At(v, g).cookies| + Total(v, hosts - {g});
    if g != h {
      TotalRemove(v, hosts - {g}, h);
      TotalRemove(v, hosts - {h}, g);
      assert hosts - {g} - {h} == hosts - {h} - {g};
    }
  }

  /** Sums over two vaults agree when every host holds equally many cookies
      and only empty hosts are listed in one alone. */
  lemma {:induction false} TotalSame(v: Vault, w: Vault, hosts: set<string>, others: set<string>)
    requires forall h :: h in hosts && h in others ==> |At(v, h).cookies| == |At(w, h).cookies|
    requires forall h :: h in hosts && h !in others ==> At(v, h).cookies == []
    requires forall h :: h in others && h !in hosts ==> At(w, h).cookies == []
    ensures Total(v, hosts) == Total(w, others)
    decreases |hosts| + |others|
  {
    if h :| h in hosts {
      TotalRemove(v, hosts, h);
      if h in others {
        TotalRemove(w, others, h);
        TotalSame(v, w, hosts - {h}, others - {h});
      } else {
        TotalSame(v, w, hosts - {h}, others);
      }
    } else if h :| h in others {
      TotalRemove(w, others, h);
      TotalSame(v, w, hosts, others - {h});
    }
  }

  // ---- The session cap ----

  lemma {:induction false} TrimFrame(v: Vault, order: seq<string>, excess: nat)
    ensures forall h :: h !in order ==> At(TrimHosts(v, order, excess), h) == At(v, h)
    ensures forall h :: At(TrimHosts(v, order, excess), h).cookies <= At(v, h).cookies
    ensures forall h :: At(TrimHosts(v, order, excess), h).explicit == At(v, h).explicit
    ensures forall h :: At(TrimHosts(v, order, excess), h).cleared == At(v, h).cleared
    ensures TrimHosts(v, order, excess).Keys <= v.Keys + Elems(order)
    ensures TrimHosts(v, order, excess).Keys >= v.Keys
    decreases |order|
  {
    if order != [] && excess != 0 {
      var p := At(v, order[0]);
      var v' := v[order[0] := Cut(p, excess)];
      TrimFrame(v', order[1..], excess - Dropped(p, excess));
      forall h ensures At(TrimHosts(v, order, excess), h).cookies <= At(v, h).cookies {
        assert At(v', h).cookies <= At(v, h).cookies;
      }
    }
  }

  lemma {:induction false} TotalUpdate(v: Vault, hosts: set<string>, h: string, p: SessionPart)
    ensures Total(v[h := p], hosts) + (if h in hosts then |At(v, h).cookies| else 0)
         == Total(v, hosts) + (if h in hosts then |p.cookies| else 0)
  {
    if h in hosts {
      TotalRemove(v, hosts, h);
      TotalRemove(v[h := p], hosts, h);
    }
    TotalSame(v, v[h := p], hosts - {h}, hosts - {h});
    if h !in hosts { assert hosts - {h} == hosts; }
  }

  lemma {:induction false} TrimTotal(v: Vault, order: seq<string>, excess: nat, hosts: set<string>)
    requires NoRepeats(order) && Elems(order) <= hosts
    requires excess <= Total(v, Elems(order))
    ensures Total(TrimHosts(v, order, excess), hosts) + excess == Total(v, hosts)
    decreases |order|
  {
    if order == [] {
      assert Elems(order) == {};
    } else if excess != 0 {
      var h0 := order[0];
      var p := At(v, h0);
      var cut, drop := Cut(p, excess), Dropped(p, excess);
      assert h0 in Elems(order);
      ElemsTail(order);
      TotalRemove(v, Elems(order), h0);
      TotalUpdate(v, Elems(order[1..]), h0, cut);
      TotalUpdate(v, hosts, h0, cut);
      TrimTotal(v[h0 := cut], order[1..], excess - drop, hosts);
    }
  }

  /** A host is trimmed only once every earlier host is empty. */
  lemma {:induction false} TrimInOrder(v: Vault, order: seq<string>, excess: nat, i: nat, j: nat)
    requires NoRepeats(order)
    requires i < j < |order|
    requires At(TrimHosts(v, order, excess), order[j]).cookies != At(v, order[j]).cookies
    ensures At(TrimHosts(v, order, excess), order[i]).cookies == []
    decreases |order|
  {
    var p := At(v, order[0]);
    var v', drop := v[order[0] := Cut(p, excess)], Dropped(p, excess);
    TrimFrame(v', order[1..], excess - drop);
    if i > 0 {
      TrimInOrder(v', order[1..], excess - drop, i - 1, j - 1);
    }
  }

  /** The harvest cap conserves: the automatic hosts end with min(total, 500)
      cookies, explicit logins lose none, every host keeps a prefix of its
      newest-first list, and hosts empty strictly in order. */
  lemma {:induction false} SessionCap(v: Vault, order: seq<string>)
    requires EnumeratesAuto(v, order)
    ensures var r, total := CapVault(v, order), Total(v, AutoHosts(v));
      && r.Keys == v.Keys
      && AutoHosts(r) == AutoHosts(v)
      && Total(r, AutoHosts(r)) == (if total < 500 then total else 500)
      && (forall h :: h in v && v[h].explicit ==> r[h] == v[h])
      && (forall h :: h in v ==> r[h].cookies <= v[h].cookies)
      && (forall i, j :: 0 <= i < j < |order| && r[order[j]].cookies != v[order[j]].cookies ==> r[order[i]].cookies == [])
  {
    var total := Total(v, AutoHosts(v));
    if total > SESSION_MAX {
      var excess := total - SESSION_MAX;
      TotalSame(v, v, AutoHosts(v), Elems(order));
      TrimFrame(v, order, excess);
      TrimTotal(v, order, excess, AutoHosts(v));
      var r := TrimHosts(v, order, excess);
      assert r.Keys == v.Keys;
      assert forall h :: h in v ==> r[h] == At(r, h) && v[h] == At(v, h);
      assert AutoHosts(r) == AutoHosts(v);
      forall i, j | 0 <= i < j < |order| && r[order[j]].cookies != v[order[j]].cookies
        ensures r[order[i]].cookies == []
      {
        TrimInOrder(v, order, excess, i, j);
      }
    }
  }

  // ---- Rows stay unique ----

  ghost predicate UniqueVault(v: Vault)
  {
    forall h :: h in v ==> UniqueRows(v[h].cookies)
  }

  lemma {:induction false} HarvestKeepsUnique(g: Hygiene, v: Vault, cs: seq<Cookie>, order: seq<string>, now: nat)
    requires UniqueVault(v)
    ensures UniqueVault(Harvest(g, v, cs, order, now))
  {
    HarvestAllKeepsUnique(g, v, cs, now);
    var w := HarvestAll(g, v, cs, now);
    var total := Total(w, AutoHosts(w));
    if total > SESSION_MAX {
      TrimFrame(w, order, total - SESSION_MAX);
      var r := TrimHosts(w, order, total - SESSION_MAX);
      forall h | h in r ensures UniqueRows(r[h].cookies) {
        assert At(r, h).cookies <= At(w, h).cookies;
        assert UniqueRows(At(w, h).cookies);
      }
    }
  }

  lemma {:induction false} HarvestAllKeepsUnique(g: Hygiene, v: Vault, cs: seq<Cookie>, now: nat)
    requires UniqueVault(v)
    ensures UniqueVault(HarvestAll(g, v, cs, now))
    decreases |cs|
  {
    if cs != [] {
      var c := cs[0];
      RowEditsKeepUnique(g, At(v, FoldDomain(c.domain)).cookies, c, now);
      HarvestAllKeepsUnique(g, HarvestOne(g, v, c, now), cs[1..], now);
    }
  }

  lemma {:induction false} RowEditsKeepUnique(g: Hygiene, cs: seq<Cookie>, c: Cookie, now: nat)
    requires UniqueRows(cs)
    ensures UniqueRows(MergeRow(g, cs, c, now)) && UniqueRows(MergeOne(g, cs, c, now)) && UniqueRows(RefreshRow(cs, c)) && UniqueRows(RefreshOrAppend(cs, c))
  {
  }

  // ---- Logout ----

  function TrimBrackets(s: string): string { Trim(s, IsBracket) }

  /** Cookies of `host` feed the session of `domain`: same host, a subdomain,
      or a parent. */
  predicate BelongsTo(domain: string, host: string)
  {
    var d, h := AsciiLower(TrimBrackets(domain)), AsciiLower(TrimBrackets(host));
    h == d || EndsWith(h, "." + d) || EndsWith(d, "." + h)
  }

  /** Without brackets and letter case. */
  function Bare(host: string): string { AsciiLower(TrimBrackets(host)) }

  /** One of the two hosts is the other or lies below it. */
  predicate SameSite(a: string, b: string)
  {
    TailOf(LabelsOf(Bare(a)), LabelsOf(Bare(b))) || TailOf(LabelsOf(Bare(b)), LabelsOf(Bare(a)))
  }

  /** Cookies of a host belong to a domain exactly when the labels of one are
      the last labels of the other. */
  lemma {:induction false} BelongsIff(domain: string, host: string)
    ensures BelongsTo(domain, host) <==> SameSite(domain, host)
    ensures var d, h := Bare(domain), Bare(host);
      BelongsTo(domain, host) <==> h == d || (exists a :: h == a + "." + d) || (exists a :: d == a + "." + h)
  {
    var d, h := Bare(domain), Bare(host);
    DotEndsWith(h, d);
    DotEndsWith(d, h);
    LabelSuffixIff(d, h);
    LabelSuffixIff(h, d);
    LabelSuffixCut(d, h);
    LabelSuffixCut(h, d);
  }

  function WithoutDomain(cs: seq<Cookie>, key: string): seq<Cookie>
  {
    if cs == [] then []
    else
      (if BelongsTo(key, FoldDomain(cs[0].domain)) then [] else [cs[0]]) + WithoutDomain(cs[1..], key)
  }

  function LogoutCookies(v: Vault, key: string): Vault
  {
    map h | h in v :: v[h].(cookies := WithoutDomain(v[h].cookies, key))
  }

  /** The deletion stamp lands on every known host of the domain and on the
      domain itself. */
  function StampCleared(v: Vault, key: string, stamp: nat): Vault
  {
    var touched: Vault := map h | h in v :: if BelongsTo(key, h) then v[h].(cleared := stamp) else v[h];
    touched[key := At(touched, key).(cleared := stamp)]
  }

  lemma {:induction false} WithoutDomainMeaning(cs: seq<Cookie>, key: string)
    ensures forall c :: c in WithoutDomain(cs, key) <==> c in cs && !BelongsTo(key, FoldDomain(c.domain))
    ensures |WithoutDomain(cs, key)| <= |cs|
    ensures |WithoutDomain(cs, key)| == |cs| <==> WithoutDomain(cs, key) == cs
  {
    if cs != [] {
      var rest := WithoutDomain(cs[1..], key);
      WithoutDomainMeaning(cs[1..], key);
      assert forall c :: c in cs <==> c == cs[0] || c in cs[1..];
      if BelongsTo(key, FoldDomain(cs[0].domain)) {
        assert WithoutDomain(cs, key) == rest;
      } else {
        assert WithoutDomain(cs, key) == [cs[0]] + rest;
        assert [cs[0]] + cs[1..] == cs;
        assert forall c :: c in [cs[0]] + rest <==> c == cs[0] || c in rest;
      }
    }
  }

  /** A logout keeps the cookies of other sites, and only those. */
  lemma {:induction false} LogoutKeepsOthers(cs: seq<Cookie>, key: string)
    ensures forall c :: c in WithoutDomain(cs, key) <==> c in cs && !SameSite(key, FoldDomain(c.domain))
  {
    WithoutDomainMeaning(cs, key);
    forall c: Cookie ensures BelongsTo(key, FoldDomain(c.domain)) <==> SameSite(key, FoldDomain(c.domain)) {
      BelongsIff(key, FoldDomain(c.domain));
    }
  }

  // ---- Login ----

  datatype LoginResult = Stored(vault: Vault) | Refused

  function LoginAll(g: Hygiene, v: Vault, cs: seq<Cookie>, now: nat): LoginResult
    decreases |cs|
  {
    if cs == [] then Stored(v)
    else
      var c := cs[0];
      var host := FoldDomain(c.domain);
      var rows := RefreshOrAppend(At(v, host).cookies, c);
      if !Usable(g, c, now) || |rows| > LOGIN_DOMAIN_MAX then Refused
      else LoginAll(g, v[host := At(v, host).(cookies := rows, explicit := true)], cs[1..], now)
  }

  /** Hosts a login re-arms: the cookie's own host, and below it when the
      domain attribute is dotted. */
  predicate Affected(cs: seq<Cookie>, host: string)
  {
    var h := AsciiLower(TrimBrackets(host));
    exists c :: c in cs &&
      var d := AsciiLower(TrimBrackets(TrimStart(c.domain, IsDot)));
      h == d || (c.domain != "" && c.domain[0] == '.' && EndsWith(h, "." + d))
  }

  /** The scope of a login: the hosts its cookies name, and for a cookie of a
      dotted domain the hosts below that domain. */
  lemma {:induction false} AffectedIff(cs: seq<Cookie>, host: string)
    ensures Affected(cs, host) <==> exists c :: c in cs && InScope(c, host)
  {
    forall c: Cookie ensures
      InScope(c, host) <==> (Bare(host) == Bare(TrimStart(c.domain, IsDot))
        || (c.domain != "" && c.domain[0] == '.' && EndsWith(Bare(host), "." + Bare(TrimStart(c.domain, IsDot)))))
    {
      ScopeIs(c, host);
    }
  }

  predicate InScope(c: Cookie, host: string)
  {
    var d, h := LabelsOf(Bare(TrimStart(c.domain, IsDot))), LabelsOf(Bare(host));
    if StartsWith(c.domain, ".") then TailOf(d, h) else d == h
  }

  lemma {:induction false} ScopeIs(c: Cookie, host: string)
    ensures var d, h := Bare(TrimStart(c.domain, IsDot)), Bare(host);
      InScope(c, host) <==> h == d || (c.domain != "" && c.domain[0] == '.' && EndsWith(h, "." + d))
  {
    StartsDotted(c.domain);
    BelowOrSame(Bare(TrimStart(c.domain, IsDot)), Bare(host));
  }

  lemma {:induction false} StartsDotted(s: string)
    ensures StartsWith(s, ".") <==> s != "" && s[0] == '.'
  {
    assert s != "" ==> s[..1] == [s[0]];
  }

  lemma {:induction false} BelowOrSame(d: string, h: string)
    ensures TailOf(LabelsOf(d), LabelsOf(h)) <==> h == d || EndsWith(h, "." + d)
    ensures LabelsOf(d) == LabelsOf(h) <==> d == h
  {
    DotEndsWith(h, d);
    LabelSuffixIff(d, h);
    JoinLabels(d);
    JoinLabels(h);
  }

  ghost function Login(g: Hygiene, v: Vault, cs: seq<Cookie>, epoch: nat, now: nat): LoginResult
  {
    var r := LoginAll(g, v, cs, now);
    if r.Refused? || Total(r.vault, r.vault.Keys) > LOGIN_TOTAL_MAX || epoch > EPOCH_MAX - 2 then Refused
    else Stored(Barrier(r.vault, cs, epoch + 1))
  }

  /** A login fences every capture of its hosts taken before it. */
  function Barrier(v: Vault, cs: seq<Cookie>, stamp: nat): Vault
  {
    map h | h in v :: if Affected(cs, h) then v[h].(cleared := stamp) else v[h]
  }

  // ---- Expiry and equality of vaults ----

  function Kept(g: Hygiene, cs: seq<Cookie>, now: nat): seq<Cookie>
  {
    if cs == [] then [] else (if Usable(g, cs[0], now) then [cs[0]] else []) + Kept(g, cs[1..], now)
  }

  function Pruned(g: Hygiene, v: Vault, now: nat): Vault
  {
    map h | h in v :: v[h].(cookies := Kept(g, v[h].cookies, now))
  }

  datatype Drawer = Drawer(cookies: seq<Cookie>, explicit: bool)

  /** What a host's vault still offers at `now`. */
  function DrawerOf(g: Hygiene, v: Vault, host: string, now: nat): Drawer
  {
    Drawer(Kept(g, At(v, host).cookies, now), At(v, host).explicit)
  }

  ghost predicate SameVault(g: Hygiene, v: Vault, w: Vault, now: nat)
  {
    forall h :: DrawerOf(g, v, h, now) == DrawerOf(g, w, h, now)
  }

  lemma {:induction false} KeptMeaning(g: Hygiene, cs: seq<Cookie>, now: nat)
    ensures forall c :: c in Kept(g, cs, now) <==> c in cs && Usable(g, c, now)
  {
    if cs != [] {
      KeptMeaning(g, cs[1..], now);
      assert forall c :: c in cs <==> c == cs[0] || c in cs[1..];
    }
  }

  lemma {:induction false} KeptLater(g: Hygiene, cs: seq<Cookie>, now: nat, later: nat)
    requires now <= later
    ensures Kept(g, Kept(g, cs, now), later) == Kept(g, cs, later)
  {
    if cs != [] {
      KeptLater(g, cs[1..], now, later);
      var rest := Kept(g, cs[1..], now);
      if Usable(g, cs[0], now) {
        assert Kept(g, cs, now) == [cs[0]] + rest && ([cs[0]] + rest)[1..] == rest;
      } else {
        assert Kept(g, cs, now) == rest;
      }
    }
  }

  lemma {:induction false} SameVaultLater(g: Hygiene, v: Vault, w: Vault, now: nat, later: nat)
    requires now <= later && SameVault(g, v, w, now)
    ensures SameVault(g, v, w, later)
  {
    forall h ensures DrawerOf(g, v, h, later) == DrawerOf(g, w, h, later) {
      assert DrawerOf(g, v, h, now) == DrawerOf(g, w, h, now);
      KeptLater(g, At(v, h).cookies, now, later);
      KeptLater(g, At(w, h).cookies, now, later);
    }
  }

  // ---- The helpers read rows only ----

  function RowsAt(v: Vault, host: string): Drawer { Drawer(At(v, host).cookies, At(v, host).explicit) }

  /** Every host holds the same rows and login mark. */
  ghost predicate SameRows(v: Vault, w: Vault)
  {
    forall h :: RowsAt(v, h) == RowsAt(w, h)
  }

  lemma {:induction false} SameVaultPruned(g: Hygiene, v: Vault, w: Vault, now: nat)
    requires SameVault(g, v, w, now)
    ensures SameRows(Pruned(g, v, now), Pruned(g, w, now))
  {
    forall h ensures RowsAt(Pruned(g, v, now), h) == RowsAt(Pruned(g, w, now), h) {
      assert DrawerOf(g, v, h, now) == DrawerOf(g, w, h, now);
    }
  }

  lemma {:induction false} SameRowsSameVault(g: Hygiene, v: Vault, w: Vault, now: nat)
    requires SameRows(v, w)
    ensures SameVault(g, v, w, now)
  {
    forall h ensures DrawerOf(g, v, h, now) == DrawerOf(g, w, h, now) {
      assert RowsAt(v, h) == RowsAt(w, h);
    }
  }

  lemma {:induction false} UpdateSameRows(v: Vault, w: Vault, host: string, p: SessionPart, q: SessionPart)
    requires SameRows(v, w) && p.cookies == q.cookies && p.explicit == q.explicit
    ensures SameRows(v[host := p], w[host := q])
  {
    var v', w' := v[host := p], w[host := q];
    forall h ensures RowsAt(v', h) == RowsAt(w', h) {
      assert RowsAt(v, h) == RowsAt(w, h);
    }
  }

  lemma {:induction false} HarvestAllReadsRows(g: Hygiene, v: Vault, w: Vault, cs: seq<Cookie>, now: nat)
    requires SameRows(v, w)
    ensures SameRows(HarvestAll(g, v, cs, now), HarvestAll(g, w, cs, now))
    decreases |cs|
  {
    if cs != [] {
      var v', w' := HarvestOne(g, v, cs[0], now), HarvestOne(g, w, cs[0], now);
      if Usable(g, cs[0], now) {
        var host := FoldDomain(cs[0].domain);
        assert RowsAt(v, host) == RowsAt(w, host);
        UpdateSameRows(v, w, host, v'[host], w'[host]);
      }
      HarvestAllReadsRows(g, v', w', cs[1..], now);
    }
  }

  lemma {:induction false} TrimReadsRows(v: Vault, w: Vault, order: seq<string>, excess: nat)
    requires SameRows(v, w)
    ensures SameRows(TrimHosts(v, order, excess), TrimHosts(w, order, excess))
    decreases |order|
  {
    if order != [] && excess != 0 {
      var h0 := order[0];
      assert RowsAt(v, h0) == RowsAt(w, h0);
      var p, q := Cut(At(v, h0), excess), Cut(At(w, h0), excess);
      UpdateSameRows(v, w, h0, p, q);
      TrimReadsRows(v[h0 := p], w[h0 := q], order[1..], excess - Dropped(At(v, h0), excess));
    }
  }

  lemma {:induction false} TotalReadsRows(v: Vault, w: Vault, hosts: set<string>, others: set<string>)
    requires SameRows(v, w)
    requires forall h :: h in hosts && h !in others ==> RowsAt(v, h).cookies == []
    requires forall h :: h in others && h !in hosts ==> RowsAt(w, h).cookies == []
    ensures Total(v, hosts) == Total(w, others)
  {
    forall h | h in hosts && h in others ensures |At(v, h).cookies| == |At(w, h).cookies| {
      assert RowsAt(v, h) == RowsAt(w, h);
    }
    forall h | h in hosts && h !in others ensures At(v, h).cookies == [] {
      assert RowsAt(v, h).cookies == [];
    }
    forall h | h in others && h !in hosts ensures At(w, h).cookies == [] {
      assert RowsAt(w, h).cookies == [];
    }
    TotalSame(v, w, hosts, others);
  }

  /** Two vaults with the same rows harvest alike. */
  lemma {:induction false} HarvestReadsRows(g: Hygiene, v: Vault, w: Vault, cs: seq<Cookie>, order: seq<string>, now: nat)
    requires SameRows(v, w)
    ensures SameRows(Harvest(g, v, cs, order, now), Harvest(g, w, cs, order, now))
  {
    HarvestAllReadsRows(g, v, w, cs, now);
    var v', w' := HarvestAll(g, v, cs, now), HarvestAll(g, w, cs, now);
    forall h | h in AutoHosts(v') && h !in AutoHosts(w') ensures RowsAt(v', h).cookies == [] {
      assert RowsAt(w', h) == RowsAt(v', h);
    }
    forall h | h in AutoHosts(w') && h !in AutoHosts(v') ensures RowsAt(w', h).cookies == [] {
      assert RowsAt(w', h) == RowsAt(v', h);
    }
    TotalReadsRows(v', w', AutoHosts(v'), AutoHosts(w'));
    var total := Total(v', AutoHosts(v'));
    if total > SESSION_MAX {
      TrimReadsRows(v', w', order, total - SESSION_MAX);
    }
  }

  lemma {:induction false} LogoutReadsRows(v: Vault, w: Vault, key: string)
    requires SameRows(v, w)
    ensures SameRows(LogoutCookies(v, key), LogoutCookies(w, key))
  {
    forall h ensures RowsAt(LogoutCookies(v, key), h) == RowsAt(LogoutCookies(w, key), h) {
      assert RowsAt(v, h) == RowsAt(w, h);
    }
  }

  lemma {:induction false} LoginAllReadsRows(g: Hygiene, v: Vault, w: Vault, cs: seq<Cookie>, now: nat)
    requires SameRows(v, w)
    ensures LoginAll(g, v, cs, now).Refused? <==> LoginAll(g, w, cs, now).Refused?
    ensures LoginAll(g, v, cs, now).Stored? ==> SameRows(LoginAll(g, v, cs, now).vault, LoginAll(g, w, cs, now).vault)
    decreases |cs|
  {
    if cs != [] {
      var host := FoldDomain(cs[0].domain);
      assert RowsAt(v, host) == RowsAt(w, host);
      var rows := RefreshOrAppend(At(v, host).cookies, cs[0]);
      var p, q := At(v, host).(cookies := rows, explicit := true), At(w, host).(cookies := rows, explicit := true);
      UpdateSameRows(v, w, host, p, q);
      LoginAllReadsRows(g, v[host := p], w[host := q], cs[1..], now);
    }
  }

  lemma {:induction false} LoginReadsRows(g: Hygiene, v: Vault, w: Vault, cs: seq<Cookie>, e: nat, f: nat, now: nat)
    requires SameRows(v, w) && e <= EPOCH_MAX - 2 && f <= EPOCH_MAX - 2
    ensures Login(g, v, cs, e, now).Refused? <==> Login(g, w, cs, f, now).Refused?
    ensures Login(g, v, cs, e, now).Stored? ==> SameRows(Login(g, v, cs, e, now).vault, Login(g, w, cs, f, now).vault)
  {
    LoginAllReadsRows(g, v, w, cs, now);
    if LoginAll(g, v, cs, now).Stored? {
      var v', w' := LoginAll(g, v, cs, now).vault, LoginAll(g, w, cs, now).vault;
      TotalReadsRows(v', w', v'.Keys, w'.Keys) by {
        forall h ensures RowsAt(v', h) == RowsAt(w', h) {}
      }
      BarrierKeepsRows(v', cs, e + 1);
      BarrierKeepsRows(w', cs, f + 1);
      SameRowsTrans(Barrier(v', cs, e + 1), v', w');
      SameRowsTrans(Barrier(v', cs, e + 1), w', Barrier(w', cs, f + 1));
    }
  }

  lemma {:induction false} SameRowsTrans(u: Vault, v: Vault, w: Vault)
    requires (SameRows(u, v) || SameRows(v, u)) && (SameRows(v, w) || SameRows(w, v))
    ensures SameRows(u, w)
  {
  }

  lemma {:induction false} BarrierKeepsRows(v: Vault, cs: seq<Cookie>, stamp: nat)
    ensures SameRows(Barrier(v, cs, stamp), v)
  {
  }
}
