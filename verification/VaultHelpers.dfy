/** The locked load-edit-save helpers of src/state.rs: each loads a fresh
    snapshot of disk, edits it in place and saves it. */
module VaultHelpers {
  import opened Options
  import opened Numbers
  import opened Tier1Jar
  import opened Lists
  import opened SessionRows
  import opened SessionVault
  import opened GhostStore
  import opened VaultProtocol
  import opened GhostSnapshot
  import Sorting

  ghost predicate SameRoutes(ps: Profiles, qs: Profiles)
  {
    forall h :: ProfileOf(ps, h).route == ProfileOf(qs, h).route
  }

  lemma {:induction false} OnlyVaultChanged(ps: Profiles, qs: Profiles)
    requires SameRoutes(ps, qs)
    ensures WithVault(ps, VaultOf(qs)) == qs
  {
  }

  ghost function HealedOn(g: Hygiene, before: Profiles, done: set<string>, now: nat): Profiles
  {
    map h | h in before :: if h in done then HealProfile(g, before[h], now) else before[h]
  }

  ghost predicate AnyUnhealed(g: Hygiene, before: Profiles, done: set<string>, now: nat)
  {
    exists h :: h in done && h in before && HealProfile(g, before[h], now) != before[h]
  }

  lemma {:induction false} HealOne(g: Hygiene, before: Profiles, done: set<string>, host: string, now: nat)
    requires host in before && host !in done
    ensures var ps := HealedOn(g, before, done, now);
      && host in ps && ps[host] == before[host]
      && HealedOn(g, before, done + {host}, now) == ps[host := HealProfile(g, before[host], now)]
    ensures AnyUnhealed(g, before, done + {host}, now)
       <==> AnyUnhealed(g, before, done, now) || HealProfile(g, before[host], now) != before[host]
  {
  }

  method CleanProfiles(g: Hygiene, before: Profiles, now: nat) returns (ps: Profiles, changed: bool)
    ensures ps == Healed(g, before, now)
    ensures changed <==> ps != before
  {
    var hosts := Hosts(before);
    ps, changed := before, false;
    ghost var done: set<string> := {};
    assert HealedOn(g, before, {}, now) == before;
    for i := 0 to |hosts|
      invariant done == Elems(hosts[..i])
      invariant ps == HealedOn(g, before, done, now)
      invariant changed <==> AnyUnhealed(g, before, done, now)
    {
      var host := hosts[i];
      assert hosts[..i + 1] == hosts[..i] + [host];
      NotYet(hosts, i);
      HealOne(g, before, done, host, now);
      assert Elems(hosts[..i + 1]) == done + {host};
      var healed := HealProfile(g, ps[host], now);
      changed := changed || healed != ps[host];
      ps := ps[host := healed];
      done := done + {host};
    }
    assert hosts[..|hosts|] == hosts;
    HealedAll(g, before, done, now);
  }

  lemma {:induction false} HealedAll(g: Hygiene, before: Profiles, done: set<string>, now: nat)
    requires done == before.Keys
    ensures HealedOn(g, before, done, now) == Healed(g, before, now)
    ensures AnyUnhealed(g, before, done, now) <==> Healed(g, before, now) != before
  {
  }

  /** Clean what earlier versions and the clock left behind; save if anything
      changed. */
  method Load(g: Hygiene, disk: State, now: nat) returns (s: GhostState, written: State, ghost victims: set<string>)
    requires disk.pending == None
    ensures fresh(s) && s.Value() == written == Loaded(g, disk, victims, now)
    ensures LoadEvicts(g, disk, victims, now)
  {
    s := new GhostState(disk);
    victims := {};
    var changed;
    s.profiles, changed := CleanProfiles(g, s.profiles, now);
    written := s.Value();
    if changed {
      written, victims := s.Persist(disk, now);
    }
  }

  /** Harvest one usable cookie into its host's vault. */
  method HarvestCookie(s: GhostState, g: Hygiene, c: Cookie, now: nat)
    requires Usable(g, c, now)
    modifies s`profiles
    ensures VaultOf(s.profiles) == HarvestOne(g, VaultOf(old(s.profiles)), c, now)
    ensures SameRoutes(old(s.profiles), s.profiles)
  {
    var host := FoldDomain(c.domain);
    var p := ProfileOf(s.profiles, host);
    var rows := p.session.cookies;
    if p.session.explicit {
      rows := RefreshRow(rows, c);
    } else {
      rows := MergeSessionCookies(g, rows, [c], now);
      assert [c][1..] == [] && MergeRows(g, MergeRow(g, p.session.cookies, c, now), [], now) == MergeRow(g, p.session.cookies, c, now);
    }
    s.profiles := s.profiles[host := p.(session := p.session.(cookies := rows))];
    assert VaultOf(s.profiles) == VaultOf(old(s.profiles))[host := p.session.(cookies := rows)];
  }

  /** Harvest each cookie into its host's vault. */
  method HarvestInto(s: GhostState, g: Hygiene, cookies: seq<Cookie>, now: nat)
    modifies s`profiles
    ensures s.profiles == WithVault(old(s.profiles), HarvestAll(g, VaultOf(old(s.profiles)), cookies, now))
  {
    ghost var ps := s.profiles;
    for i := 0 to |cookies|
      invariant HarvestAll(g, VaultOf(s.profiles), cookies[i..], now) == HarvestAll(g, VaultOf(ps), cookies, now)
      invariant SameRoutes(ps, s.profiles)
    {
      assert cookies[i..][1..] == cookies[i + 1..];
      if Usable(g, cookies[i], now) {
        ghost var last := s.profiles;
        HarvestCookie(s, g, cookies[i], now);
        SameRoutesTrans(ps, last, s.profiles);
      }
    }
    OnlyVaultChanged(ps, s.profiles);
  }

  lemma {:induction false} SameRoutesTrans(ps: Profiles, qs: Profiles, rs: Profiles)
    requires SameRoutes(ps, qs) && SameRoutes(qs, rs)
    ensures SameRoutes(ps, rs)
  {
  }

  /** The automatic hosts that hold cookies, least recently solved first. */
  method AutoBySolve(ps: Profiles) returns (order: seq<string>)
    ensures EnumeratesAuto(VaultOf(ps), order)
    ensures forall i, j :: 0 <= i < j < |order| ==>
      ProfileOf(ps, order[i]).route.lastSolved <= ProfileOf(ps, order[j]).route.lastSolved
  {
    var hosts := Hosts(ps);
    var keys := [];
    for i := 0 to |hosts|
      invariant NoRepeats(keys)
      invariant forall h :: h in keys <==> h in hosts[..i] && !ps[h].session.explicit && ps[h].session.cookies != []
    {
      assert hosts[..i + 1] == hosts[..i] + [hosts[i]] && hosts[i] !in hosts[..i];
      if ps[hosts[i]].session.cookies != [] && !ps[hosts[i]].session.explicit {
        keys := keys + [hosts[i]];
      }
    }
    assert hosts[..|hosts|] == hosts;
    var earlier := (a: string, b: string) => ProfileOf(ps, a).route.lastSolved <= ProfileOf(ps, b).route.lastSolved;
    order := Sorting.Sort(keys, earlier);
    Sorting.SortPermutes(keys, earlier);
    Sorting.SortSorts(keys, earlier);
    PermutedOnce(keys, order);
  }

  method CountAuto(ps: Profiles) returns (total: nat)
    ensures total == Total(VaultOf(ps), AutoHosts(VaultOf(ps)))
  {
    var hosts := Hosts(ps);
    total := 0;
    ghost var v := VaultOf(ps);
    ghost var seen: set<string> := {};
    for i := 0 to |hosts|
      invariant seen == set h | h in hosts[..i] && h in AutoHosts(v)
      invariant total == Total(v, seen)
    {
      var host := hosts[i];
      assert hosts[..i + 1] == hosts[..i] + [host] && host !in hosts[..i];
      if !ps[host].session.explicit {
        TotalRemove(v, seen + {host}, host);
        assert seen + {host} - {host} == seen;
        total := total + |ps[host].session.cookies|;
        seen := seen + {host};
      }
    }
    assert hosts[..|hosts|] == hosts;
    assert seen == AutoHosts(v);
  }

  /** Past the global cap, drop the least recently solved hosts' cookies first. */
  method CapSessions(s: GhostState) returns (ghost order: seq<string>)
    modifies s`profiles
    ensures EnumeratesAuto(VaultOf(old(s.profiles)), order)
    ensures forall i, j :: 0 <= i < j < |order| ==>
      ProfileOf(old(s.profiles), order[i]).route.lastSolved <= ProfileOf(old(s.profiles), order[j]).route.lastSolved
    ensures s.profiles == WithVault(old(s.profiles), CapVault(VaultOf(old(s.profiles)), order))
  {
    ghost var ps := s.profiles;
    var total := CountAuto(s.profiles);
    var keys := AutoBySolve(s.profiles);
    order := keys;
    OnlyVaultChanged(ps, ps);
    if total > SESSION_MAX {
      TrimOldest(s, keys, total - SESSION_MAX);
      OnlyVaultChanged(ps, s.profiles);
    }
  }

  method TrimOldest(s: GhostState, keys: seq<string>, overflow: nat)
    requires forall h :: h in keys ==> h in s.profiles
    modifies s`profiles
    ensures VaultOf(s.profiles) == TrimHosts(VaultOf(old(s.profiles)), keys, overflow)
    ensures SameRoutes(old(s.profiles), s.profiles)
  {
    var excess, i := overflow, 0;
    while i < |keys| && excess != 0
      invariant 0 <= i <= |keys|
      invariant TrimHosts(VaultOf(s.profiles), keys[i..], excess) == TrimHosts(VaultOf(old(s.profiles)), keys, overflow)
      invariant SameRoutes(old(s.profiles), s.profiles) && s.profiles.Keys == old(s.profiles).Keys
    {
      assert keys[i..][0] == keys[i] && keys[i..][1..] == keys[i + 1..];
      ghost var last := s.profiles;
      excess := CutHost(s, keys[i], excess);
      SameRoutesTrans(old(s.profiles), last, s.profiles);
      i := i + 1;
    }
  }

  method CutHost(s: GhostState, host: string, excess: nat) returns (left: nat)
    requires host in s.profiles
    modifies s`profiles
    ensures VaultOf(s.profiles) == VaultOf(old(s.profiles))[host := Cut(old(s.profiles)[host].session, excess)]
    ensures left == excess - Dropped(old(s.profiles)[host].session, excess)
    ensures SameRoutes(old(s.profiles), s.profiles) && s.profiles.Keys == old(s.profiles).Keys
  {
    var p := s.profiles[host];
    var drop := Min(|p.session.cookies|, excess);
    s.profiles := s.profiles[host := p.(session := p.session.(cookies := p.session.cookies[..|p.session.cookies| - drop]))];
    assert VaultOf(s.profiles) == VaultOf(old(s.profiles))[host := Cut(p.session, excess)];
    left := excess - drop;
  }

  /** What one locked helper write did: the step it was, from disk to disk. */
  ghost predicate Performs(g: Hygiene, disk: State, written: State, t: Step, now: nat)
  {
    IsHelper(t) && written == HelperDisk(g, disk, t, now)
    && (!Trivial(t) ==>
      && LoadEvicts(g, disk, t.loadVictims, now)
      && var s := Loaded(g, disk, t.loadVictims, now);
         var edit := HelperEdit(g, s, t, now);
         edit.Some? ==> Evicts(edit.value.profiles, t.victims, now))
  }

  lemma {:induction false} EditTwice(ps: Profiles, u: Vault, v: Vault)
    requires ps.Keys <= u.Keys <= v.Keys
    ensures WithVault(WithVault(ps, u), v) == WithVault(ps, v)
  {
  }

  /** The harvest edit on a loaded snapshot. */
  method HarvestAndCap(s: GhostState, g: Hygiene, cookies: seq<Cookie>, now: nat) returns (ghost order: seq<string>)
    modifies s
    ensures s.Value() == HarvestEdit(g, old(s.Value()), cookies, order, now)
    ensures SolveOrder(HarvestAll(g, VaultOf(old(s.profiles)), cookies, now), old(s.profiles), order)
  {
    ghost var ps := s.profiles;
    ghost var u := HarvestAll(g, VaultOf(ps), cookies, now);
    HarvestAllKeepsStamps(g, VaultOf(ps), cookies, now);
    HarvestInto(s, g, cookies, now);
    WithVaultRoundTrip(ps, u);
    forall h ensures ProfileOf(s.profiles, h).route == ProfileOf(ps, h).route {
      HarvestedRoute(ps, u, h);
    }
    order := CapSessions(s);
    CapKeepsHosts(u, order);
    EditTwice(ps, u, CapVault(u, order));
    s.vaultEpoch := BumpEpoch(s.vaultEpoch);
  }

  method StoreSessionCookies(g: Hygiene, disk: State, cookies: seq<Cookie>, now: nat) returns (written: State, ghost t: Step)
    requires disk.pending == None
    ensures t.HarvestCookies? && t.cookies == cookies && Performs(g, disk, written, t, now)
    ensures LawfulHelper(g, disk, t, now)
  {
    written, t := disk, HarvestCookies(cookies, [], {}, {});
    if cookies == [] {
      return;
    }
    var s, loaded;
    ghost var loadVictims, order, victims;
    s, loaded, loadVictims := Load(g, disk, now);
    order := HarvestAndCap(s, g, cookies, now);
    written, victims := s.Persist(loaded, now);
    t := HarvestCookies(cookies, order, loadVictims, victims);
  }

  lemma {:induction false} HarvestedRoute(ps: Profiles, u: Vault, h: string)
    requires ps.Keys <= u.Keys
    ensures ProfileOf(WithVault(ps, u), h).route == ProfileOf(ps, h).route
  {
  }

  lemma {:induction false} CapKeepsHosts(v: Vault, order: seq<string>)
    ensures v.Keys <= CapVault(v, order).Keys
  {
    var total := Total(v, AutoHosts(v));
    if total > SESSION_MAX {
      TrimFrame(v, order, total - SESSION_MAX);
    }
  }

  // ---- Login ----

  /** Store each cookie under its host; stop at the first one that cannot be. */
  method StoreRows(s: GhostState, g: Hygiene, cookies: seq<Cookie>, now: nat) returns (ok: bool)
    modifies s`profiles
    ensures ok <==> LoginAll(g, VaultOf(old(s.profiles)), cookies, now).Stored?
    ensures ok ==> s.profiles == WithVault(old(s.profiles), LoginAll(g, VaultOf(old(s.profiles)), cookies, now).vault)
  {
    ghost var ps := s.profiles;
    ok := true;
    for i := 0 to |cookies|
      invariant LoginAll(g, VaultOf(s.profiles), cookies[i..], now) == LoginAll(g, VaultOf(ps), cookies, now)
      invariant SameRoutes(ps, s.profiles)
    {
      assert cookies[i..][1..] == cookies[i + 1..];
      if !Usable(g, cookies[i], now) {
        return false;
      }
      ghost var last := s.profiles;
      ok := StoreRow(s, cookies[i]);
      if !ok {
        return;
      }
      SameRoutesTrans(ps, last, s.profiles);
    }
    OnlyVaultChanged(ps, s.profiles);
  }

  method StoreRow(s: GhostState, c: Cookie) returns (ok: bool)
    modifies s`profiles
    ensures var host := FoldDomain(c.domain);
      var p := At(VaultOf(old(s.profiles)), host);
      var rows := RefreshOrAppend(p.cookies, c);
      && VaultOf(s.profiles) == VaultOf(old(s.profiles))[host := p.(cookies := rows, explicit := true)]
      && (ok <==> |rows| <= LOGIN_DOMAIN_MAX)
    ensures SameRoutes(old(s.profiles), s.profiles)
  {
    var host := FoldDomain(c.domain);
    var p := ProfileOf(s.profiles, host);
    var rows := p.session.cookies;
    var at := FindRow(rows, IdOf(c));
    if at.Some? {
      rows := rows[at.value := c];
    } else {
      rows := rows + [c];
    }
    s.profiles := s.profiles[host := p.(session := p.session.(cookies := rows, explicit := true))];
    assert VaultOf(s.profiles) == VaultOf(old(s.profiles))[host := p.session.(cookies := rows, explicit := true)];
    ok := |rows| <= LOGIN_DOMAIN_MAX;
  }

  method CountAll(ps: Profiles) returns (total: nat)
    ensures total == Total(VaultOf(ps), VaultOf(ps).Keys)
  {
    var hosts := Hosts(ps);
    total := 0;
    ghost var v := VaultOf(ps);
    ghost var seen: set<string> := {};
    for i := 0 to |hosts|
      invariant seen == Elems(hosts[..i])
      invariant total == Total(v, seen)
    {
      var host := hosts[i];
      assert hosts[..i + 1] == hosts[..i] + [host] && host !in hosts[..i];
      TotalRemove(v, seen + {host}, host);
      assert seen + {host} - {host} == seen;
      total := total + |ps[host].session.cookies|;
      seen := seen + {host};
    }
    assert hosts[..|hosts|] == hosts;
    assert seen == v.Keys;
  }

  lemma {:induction false} WithVaultAt(ps: Profiles, v: Vault, qs: Profiles)
    requires qs.Keys == v.Keys
    requires forall h :: h in qs ==> qs[h] == ProfileOf(ps, h).(session := v[h])
    ensures qs == WithVault(ps, v)
  {
  }

  /** Fence and re-arm every host the login covers. */
  method RearmAffected(s: GhostState, cookies: seq<Cookie>, barrier: nat, now: nat)
    modifies s`profiles
    ensures s.profiles == RearmHosts(WithVault(old(s.profiles), Barrier(VaultOf(old(s.profiles)), cookies, barrier)), cookies, now)
  {
    var ps := s.profiles;
    var affected := set h | h in ps && Affected(cookies, h);
    s.profiles := map h | h in ps ::
      if h in affected
      then DomainProfile(ps[h].session.(cleared := barrier), ps[h].route.(wallFailStreak := 0, lastWallFail := 0))
      else ps[h];
    RearmedAt(ps, cookies, barrier, now, affected, s.profiles);
  }

  lemma {:induction false} RearmedAt(ps: Profiles, cs: seq<Cookie>, barrier: nat, now: nat, affected: set<string>, qs: Profiles)
    requires affected == set h | h in ps && Affected(cs, h)
    requires qs == map h | h in ps ::
      if h in affected
      then DomainProfile(ps[h].session.(cleared := barrier), ps[h].route.(wallFailStreak := 0, lastWallFail := 0))
      else ps[h]
    ensures qs == RearmHosts(WithVault(ps, Barrier(VaultOf(ps), cs, barrier)), cs, now)
  {
    var rearmed := RearmHosts(WithVault(ps, Barrier(VaultOf(ps), cs, barrier)), cs, now);
    RearmedKeys(ps, cs, barrier, now);
    forall h | h in ps ensures rearmed[h] == qs[h] {
      RearmedOne(ps, cs, barrier, now, h);
    }
  }

  lemma {:induction false} RearmedKeys(ps: Profiles, cs: seq<Cookie>, barrier: nat, now: nat)
    ensures RearmHosts(WithVault(ps, Barrier(VaultOf(ps), cs, barrier)), cs, now).Keys == ps.Keys
  {
  }

  lemma {:induction false} RearmedOne(ps: Profiles, cs: seq<Cookie>, barrier: nat, now: nat, h: string)
    requires h in ps
    ensures var rearmed := RearmHosts(WithVault(ps, Barrier(VaultOf(ps), cs, barrier)), cs, now);
      && h in rearmed
      && rearmed[h] == if Affected(cs, h)
         then DomainProfile(ps[h].session.(cleared := barrier), ps[h].route.(wallFailStreak := 0, lastWallFail := 0))
         else ps[h]
  {
    BarrierAt(ps, cs, barrier, h);
    RearmAt(WithVault(ps, Barrier(VaultOf(ps), cs, barrier)), cs, now, h);
  }

  lemma {:induction false} BarrierAt(ps: Profiles, cs: seq<Cookie>, barrier: nat, h: string)
    requires h in ps
    ensures var stamped := WithVault(ps, Barrier(VaultOf(ps), cs, barrier));
      h in stamped && stamped[h] == if Affected(cs, h) then ps[h].(session := ps[h].session.(cleared := barrier)) else ps[h]
  {
  }

  lemma {:induction false} RearmAt(ps: Profiles, cs: seq<Cookie>, now: nat, h: string)
    requires h in ps
    ensures h in RearmHosts(ps, cs, now)
    ensures RearmHosts(ps, cs, now)[h]
         == if Affected(cs, h) then ps[h].(route := ps[h].route.(wallFailStreak := 0, lastWallFail := 0)) else ps[h]
  {
  }

  lemma {:induction false} RearmTwice(ps: Profiles, u: Vault, cs: seq<Cookie>, stamp: nat, now: nat)
    requires ps.Keys <= u.Keys
    ensures RearmHosts(WithVault(WithVault(ps, u), Barrier(u, cs, stamp)), cs, now)
         == RearmHosts(WithVault(ps, Barrier(u, cs, stamp)), cs, now)
  {
  }

  /** The login edit on a loaded snapshot; a refused login is not saved. */
  method LoginInto(s: GhostState, g: Hygiene, cookies: seq<Cookie>, now: nat) returns (ok: bool)
    modifies s
    ensures ok <==> LoginEdit(g, old(s.Value()), cookies, now).Some?
    ensures ok ==> s.Value() == LoginEdit(g, old(s.Value()), cookies, now).value
  {
    ghost var before := s.Value();
    LoginEditParts(g, before, cookies, now);
    ok := StoreRows(s, g, cookies, now);
    if !ok {
      return;
    }
    ghost var u := LoginAll(g, VaultOf(before.profiles), cookies, now).vault;
    WithVaultRoundTrip(before.profiles, u);
    var total := CountAll(s.profiles);
    if total > LOGIN_TOTAL_MAX || s.vaultEpoch > EPOCH_MAX - 2 {
      return false;
    }
    RearmInto(s, g, cookies, now, before.profiles);
  }

  /** Raise the epoch, fence and re-arm under it, and raise it again. */
  method RearmInto(s: GhostState, g: Hygiene, cookies: seq<Cookie>, now: nat, ghost ps: Profiles)
    requires LoginAll(g, VaultOf(ps), cookies, now).Stored?
    requires s.profiles == WithVault(ps, LoginAll(g, VaultOf(ps), cookies, now).vault)
    modifies s`vaultEpoch, s`profiles
    ensures s.vaultEpoch == BumpEpoch(BumpEpoch(old(s.vaultEpoch)))
    ensures s.profiles == RearmHosts(WithVault(ps, Barrier(LoginAll(g, VaultOf(ps), cookies, now).vault, cookies, BumpEpoch(old(s.vaultEpoch)))), cookies, now)
  {
    ghost var u := LoginAll(g, VaultOf(ps), cookies, now).vault;
    LoginAllKeepsStamps(g, VaultOf(ps), cookies, now);
    WithVaultRoundTrip(ps, u);
    var barrier := BumpEpoch(s.vaultEpoch);
    RearmAffected(s, cookies, barrier, now);
    RearmTwice(ps, u, cookies, barrier, now);
    s.vaultEpoch := BumpEpoch(barrier);
  }

  lemma {:induction false} LoginEditParts(g: Hygiene, before: State, cookies: seq<Cookie>, now: nat)
    ensures var all, stamp := LoginAll(g, VaultOf(before.profiles), cookies, now), BumpEpoch(before.vaultEpoch);
      LoginEdit(g, before, cookies, now) ==
      if all.Refused? || Total(all.vault, all.vault.Keys) > LOGIN_TOTAL_MAX || before.vaultEpoch > EPOCH_MAX - 2 then None
      else Some(before.(profiles := RearmHosts(WithVault(before.profiles, Barrier(all.vault, cookies, stamp)), cookies, now),
                        vaultEpoch := BumpEpoch(stamp)))
  {
    LoginOutcome(g, VaultOf(before.profiles), cookies, before.vaultEpoch, now);
  }

  lemma {:induction false} LoginOutcome(g: Hygiene, v: Vault, cookies: seq<Cookie>, epoch: nat, now: nat)
    ensures var all := LoginAll(g, v, cookies, now);
      SessionVault.Login(g, v, cookies, epoch, now) ==
      if all.Refused? || Total(all.vault, all.vault.Keys) > LOGIN_TOTAL_MAX || epoch > EPOCH_MAX - 2 then Refused
      else Stored(Barrier(all.vault, cookies, BumpEpoch(epoch)))
  {
  }

  method StoreLoginCookies(g: Hygiene, disk: State, cookies: seq<Cookie>, now: nat)
    returns (written: State, ok: bool, ghost t: Step)
    requires disk.pending == None
    ensures t.StoreLogin? && t.cookies == cookies && Performs(g, disk, written, t, now)
    ensures ok <==> LoginEdit(g, Loaded(g, disk, t.loadVictims, now), cookies, now).Some?
  {
    var s;
    ghost var loadVictims, victims: set<string>;
    s, written, loadVictims := Load(g, disk, now);
    var loaded := written;
    t := StoreLogin(cookies, loadVictims, {});
    ok := LoginInto(s, g, cookies, now);
    if ok {
      written, victims := s.Persist(loaded, now);
      t := StoreLogin(cookies, loadVictims, victims);
    }
  }

  // ---- Logout ----

  method RetainForeign(cs: seq<Cookie>, key: string) returns (kept: seq<Cookie>)
    ensures kept == WithoutDomain(cs, key)
    ensures |kept| == |cs| <==> kept == cs
  {
    kept := [];
    for i := 0 to |cs|
      invariant kept + WithoutDomain(cs[i..], key) == WithoutDomain(cs, key)
    {
      ForeignStep(cs, i, key, kept);
      if !BelongsTo(key, FoldDomain(cs[i].domain)) {
        kept := kept + [cs[i]];
      }
    }
    WithoutDomainMeaning(cs, key);
  }

  lemma {:induction false} ForeignStep(cs: seq<Cookie>, i: nat, key: string, kept: seq<Cookie>)
    requires i < |cs|
    ensures kept + WithoutDomain(cs[i..], key)
         == (if BelongsTo(key, FoldDomain(cs[i].domain)) then kept else kept + [cs[i]]) + WithoutDomain(cs[i + 1..], key)
  {
  }

  /** Drop the domain's cookies from every profile; was there any? */
  method RetainSessions(s: GhostState, key: string) returns (removed: bool)
    modifies s`profiles
    ensures s.profiles == WithVault(old(s.profiles), LogoutCookies(VaultOf(old(s.profiles)), key))
    ensures removed <==> LogoutCookies(VaultOf(old(s.profiles)), key) != VaultOf(old(s.profiles))
  {
    var ps := s.profiles;
    var touched := set h | h in ps && |WithoutDomain(ps[h].session.cookies, key)| != |ps[h].session.cookies|;
    RemovedFrom(ps, key);
    removed := touched != {};
    s.profiles := map h | h in ps :: ps[h].(session := ps[h].session.(cookies := WithoutDomain(ps[h].session.cookies, key)));
    WithVaultAt(ps, LogoutCookies(VaultOf(ps), key), s.profiles);
  }

  lemma {:induction false} RemovedFrom(ps: Profiles, key: string)
    ensures LogoutCookies(VaultOf(ps), key) != VaultOf(ps)
       <==> (set h | h in ps && |WithoutDomain(ps[h].session.cookies, key)| != |ps[h].session.cookies|) != {}
  {
    var touched := set h | h in ps && |WithoutDomain(ps[h].session.cookies, key)| != |ps[h].session.cookies|;
    var v, w := VaultOf(ps), LogoutCookies(VaultOf(ps), key);
    forall h | h in ps ensures h in touched <==> w[h] != v[h] {
      WithoutDomainMeaning(ps[h].session.cookies, key);
    }
    if touched == {} {
      assert forall h :: h in ps ==> w[h] == v[h];
      assert w == v;
    }
  }

  /** Stamp every known host of the domain, and the domain itself. */
  method StampSessionCleared(s: GhostState, key: string, stamp: nat)
    modifies s`profiles
    ensures s.profiles == WithVault(old(s.profiles), StampCleared(VaultOf(old(s.profiles)), key, stamp))
  {
    var ps := s.profiles;
    var touched := set h | h in ps && BelongsTo(key, h);
    s.profiles := map h | h in ps :: if h in touched then ps[h].(session := ps[h].session.(cleared := stamp)) else ps[h];
    var p := ProfileOf(s.profiles, key);
    s.profiles := s.profiles[key := p.(session := p.session.(cleared := stamp))];
    StampedAt(ps, key, stamp, touched, s.profiles);
  }

  lemma {:induction false} StampedAt(ps: Profiles, key: string, stamp: nat, touched: set<string>, qs: Profiles)
    requires touched == set h | h in ps && BelongsTo(key, h)
    requires qs.Keys == ps.Keys + {key}
    requires forall h :: h in ps && h != key ==> qs[h] == if h in touched then ps[h].(session := ps[h].session.(cleared := stamp)) else ps[h]
    requires qs[key] == ProfileOf(ps, key).(session := ProfileOf(ps, key).session.(cleared := stamp))
    ensures qs == WithVault(ps, StampCleared(VaultOf(ps), key, stamp))
  {
  }

  /** Drop the domain's cookies from the jar and from every profile. */
  method RemoveDomain(s: GhostState, key: string) returns (removed: bool)
    modifies s`tier1, s`profiles
    ensures s.tier1 == WithoutDomain(old(s.tier1), key)
    ensures s.profiles == WithVault(old(s.profiles), LogoutCookies(VaultOf(old(s.profiles)), key))
    ensures removed <==> s.tier1 != old(s.tier1) || LogoutCookies(VaultOf(old(s.profiles)), key) != VaultOf(old(s.profiles))
  {
    var left := RetainForeign(s.tier1, key);
    removed := |left| != |s.tier1|;
    s.tier1 := left;
    var vaulted := RetainSessions(s, key);
    removed := removed || vaulted;
  }

  /** The logout edit on a loaded snapshot; nothing removed, nothing stamped. */
  method LogoutInto(s: GhostState, key: string) returns (removed: bool)
    modifies s
    ensures removed <==> LogoutEdit(old(s.Value()), key).Some?
    ensures removed ==> s.Value() == LogoutEdit(old(s.Value()), key).value
  {
    ghost var before := s.Value();
    removed := RemoveDomain(s, key);
    if removed {
      StampLogout(s, key, before.profiles);
    }
    LogoutValue(before, s.Value(), key, removed);
  }

  lemma {:induction false} LogoutValue(before: State, after: State, key: string, removed: bool)
    requires removed <==> WithoutDomain(before.tier1, key) != before.tier1 || LogoutCookies(VaultOf(before.profiles), key) != VaultOf(before.profiles)
    requires removed ==>
      var stamp := BumpEpoch(before.vaultEpoch);
      after == before.(profiles := WithVault(before.profiles, StampCleared(LogoutCookies(VaultOf(before.profiles), key), key, stamp)),
                       tier1 := WithoutDomain(before.tier1, key), vaultEpoch := stamp)
    ensures removed <==> LogoutEdit(before, key).Some?
    ensures removed ==> after == LogoutEdit(before, key).value
  {
    LogoutEditParts(before, key);
  }

  /** Stamp the logout of a domain whose cookies have been dropped. */
  method StampLogout(s: GhostState, key: string, ghost ps: Profiles)
    requires s.profiles == WithVault(ps, LogoutCookies(VaultOf(ps), key))
    modifies s`vaultEpoch, s`profiles
    ensures s.vaultEpoch == BumpEpoch(old(s.vaultEpoch))
    ensures s.profiles == WithVault(ps, StampCleared(LogoutCookies(VaultOf(ps), key), key, s.vaultEpoch))
  {
    s.vaultEpoch := BumpEpoch(s.vaultEpoch);
    StampSessionCleared(s, key, s.vaultEpoch);
    StampAfterRetain(ps, key, s.vaultEpoch);
  }

  lemma {:induction false} LogoutEditParts(before: State, key: string)
    ensures var v, jar := LogoutCookies(VaultOf(before.profiles), key), WithoutDomain(before.tier1, key);
      var stamp := BumpEpoch(before.vaultEpoch);
      LogoutEdit(before, key) ==
      if v == VaultOf(before.profiles) && jar == before.tier1 then None
      else Some(before.(profiles := WithVault(before.profiles, StampCleared(v, key, stamp)), tier1 := jar, vaultEpoch := stamp))
  {
  }

  lemma {:induction false} StampAfterRetain(ps: Profiles, key: string, stamp: nat)
    ensures var u := LogoutCookies(VaultOf(ps), key);
      var retained := WithVault(ps, u);
      WithVault(retained, StampCleared(VaultOf(retained), key, stamp)) == WithVault(ps, StampCleared(u, key, stamp))
  {
    var u := LogoutCookies(VaultOf(ps), key);
    WithVaultRoundTrip(ps, u);
    EditTwice(ps, u, StampCleared(u, key, stamp));
  }

  /** Some cookie of the domain's site, in a vault or in the jar. */
  ghost predicate Holding(s: State, key: string)
  {
    || (exists c :: c in s.tier1 && SameSite(key, FoldDomain(c.domain)))
    || (exists h, c :: h in s.profiles && c in s.profiles[h].session.cookies && SameSite(key, FoldDomain(c.domain)))
  }

  lemma {:induction false} DropsNone(cs: seq<Cookie>, key: string)
    ensures WithoutDomain(cs, key) == cs <==> forall c :: c in cs ==> !SameSite(key, FoldDomain(c.domain))
  {
    LogoutKeepsOthers(cs, key);
    if forall c :: c in cs ==> !SameSite(key, FoldDomain(c.domain)) {
      DropsNothing(cs, key);
    }
  }

  lemma {:induction false} DropsNothing(cs: seq<Cookie>, key: string)
    requires forall c :: c in cs ==> !SameSite(key, FoldDomain(c.domain))
    ensures WithoutDomain(cs, key) == cs
  {
    if cs != [] {
      BelongsIff(key, FoldDomain(cs[0].domain));
      assert cs == [cs[0]] + cs[1..];
      DropsNothing(cs[1..], key);
    }
  }

  lemma {:induction false} VaultUntouched(ps: Profiles, key: string)
    ensures LogoutCookies(VaultOf(ps), key) == VaultOf(ps)
       <==> forall h, c :: h in ps && c in ps[h].session.cookies ==> !SameSite(key, FoldDomain(c.domain))
  {
    var v, w := VaultOf(ps), LogoutCookies(VaultOf(ps), key);
    forall h | h in ps ensures w[h] == v[h] <==> forall c :: c in ps[h].session.cookies ==> !SameSite(key, FoldDomain(c.domain)) {
      DropsNone(ps[h].session.cookies, key);
    }
    if forall h :: h in ps ==> w[h] == v[h] { assert w == v; }
  }

  /** A logout edits anything exactly when there is a cookie of the site. */
  lemma {:induction false} RemovesIff(s: State, key: string)
    ensures LogoutEdit(s, key).Some? <==> Holding(s, key)
  {
    DropsNone(s.tier1, key);
    VaultUntouched(s.profiles, key);
  }

  lemma {:induction false} LeavesNone(s: State, key: string)
    requires LogoutEdit(s, key).Some?
    ensures !Holding(LogoutEdit(s, key).value, key)
  {
    var m, v := LogoutEdit(s, key).value, LogoutCookies(VaultOf(s.profiles), key);
    var u := StampCleared(v, key, BumpEpoch(s.vaultEpoch));
    WithVaultRoundTrip(s.profiles, u);
    LogoutKeepsOthers(s.tier1, key);
    forall h | h in m.profiles ensures forall c :: c in m.profiles[h].session.cookies ==> !SameSite(key, FoldDomain(c.domain)) {
      assert m.profiles[h].session == VaultOf(m.profiles)[h] == u[h];
      LogoutKeepsOthers(At(VaultOf(s.profiles), h).cookies, key);
    }
  }

  lemma {:induction false} HoldingSaved(s: State, loaded: State, key: string, now: nat)
    requires !Holding(s, key) && loaded.vaultEpoch <= s.vaultEpoch && s.pending == None
    ensures forall victims :: !Holding(Persisted(s, loaded, victims, now), key)
  {
    forall victims ensures !Holding(Persisted(s, loaded, victims, now), key) {
      PersistedForward(s, loaded, victims, now);
    }
  }

  lemma {:induction false} NoneSaved(s: State, key: string, now: nat)
    requires LogoutEdit(s, key).Some? && s.pending == None
    ensures forall victims :: !Holding(Persisted(LogoutEdit(s, key).value, s, victims, now), key)
  {
    LeavesNone(s, key);
    HoldingSaved(LogoutEdit(s, key).value, s, key, now);
  }

  method ClearSessionCookiesFor(g: Hygiene, disk: State, domain: string, now: nat)
    returns (written: State, removed: bool, ghost t: Step)
    requires disk.pending == None
    ensures t.Logout? && t.domain == domain && Performs(g, disk, written, t, now)
    ensures removed <==> LogoutKey(domain) != "" && Holding(Loaded(g, disk, t.loadVictims, now), LogoutKey(domain))
    ensures removed ==> !Holding(written, LogoutKey(domain))
  {
    var key := LogoutKey(domain);
    written, removed, t := disk, false, Logout(domain, {}, {});
    if key == "" {
      return;
    }
    var s;
    ghost var loadVictims, victims: set<string>;
    s, written, loadVictims := Load(g, disk, now);
    var loaded := written;
    t := Logout(domain, loadVictims, {});
    RemovesIff(loaded, key);
    removed := LogoutInto(s, key);
    if removed {
      NoneSaved(loaded, key, now);
      written, victims := s.Persist(loaded, now);
      t := Logout(domain, loadVictims, victims);
    }
  }
}
