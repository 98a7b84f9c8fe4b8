/** The cookie-vault write protocol of src/state.rs: one disk state, any number
    of live snapshots of it, and every write atomic under the state lock. */
module VaultProtocol {
  import opened Options
  import opened Text
  import opened Tier1Jar
  import opened SessionRows
  import opened SessionVault
  import opened RouteMemory
  import opened GhostStore

  datatype World = World(disk: State, snaps: map<nat, State>, now: nat)

  /** Victims are what a save evicts past the cap; the helpers' loads save too.
      A booting process reads the file without the lock: what it cleans while
      reading reaches disk with a later save. */
  datatype Step =
    | Tick(secs: nat)
    | Boot(id: nat)
    | Learn(id: nat, routes: map<string, RoutePart>, probes: nat, prewarmed: nat)
    | Sync(id: nat, rows: seq<Cookie>)
    | Save(id: nat, victims: set<string>)
    | Exit(id: nat)
    | HarvestCookies(cookies: seq<Cookie>, order: seq<string>, loadVictims: set<string>, victims: set<string>)
    | StoreLogin(cookies: seq<Cookie>, loadVictims: set<string>, victims: set<string>)
    | Logout(domain: string, loadVictims: set<string>, victims: set<string>)
    | NewIdentity(loadVictims: set<string>, victims: set<string>)

  predicate IsHelper(t: Step) { t.HarvestCookies? || t.StoreLogin? || t.Logout? || t.NewIdentity? }

  /** Route observations never touch session parts. */
  function Learned(ps: Profiles, routes: map<string, RoutePart>): Profiles
  {
    map h | h in ps.Keys + routes.Keys ::
      if h in routes then ProfileOf(ps, h).(route := routes[h]) else ps[h]
  }

  function LogoutKey(domain: string): string { AsciiLower(TrimStart(domain, IsDot)) }

  ghost function HelperEdit(g: Hygiene, s: State, t: Step, now: nat): Option<State>
    requires IsHelper(t)
  {
    match t
    case HarvestCookies(cookies, order, _, _) => Some(HarvestEdit(g, s, cookies, order, now))
    case StoreLogin(cookies, _, _) => LoginEdit(g, s, cookies, now)
    case Logout(domain, _, _) => LogoutEdit(s, LogoutKey(domain))
    case NewIdentity(_, _) => Some(s.(vaultEpoch := BumpEpoch(s.vaultEpoch)))
  }

  /** A harvest of nothing and a logout of no domain return before the lock. */
  predicate Trivial(t: Step)
  {
    (t.HarvestCookies? && t.cookies == []) || (t.Logout? && LogoutKey(t.domain) == "")
  }

  ghost function HelperDisk(g: Hygiene, disk: State, t: Step, now: nat): State
    requires IsHelper(t)
  {
    if Trivial(t) then disk
    else
      var s := Loaded(g, disk, t.loadVictims, now);
      Written(HelperEdit(g, s, t, now), s, t.victims, now)
  }

  ghost function Next(g: Hygiene, w: World, t: Step): World
  {
    if IsHelper(t) then w.(disk := HelperDisk(g, w.disk, t, w.now))
    else if t.Tick? then w.(now := w.now + t.secs)
    else if t.Boot? then w.(snaps := w.snaps[t.id := ReadIn(g, w.disk, w.now)])
    else if t.id !in w.snaps then w
    else
      var s := w.snaps[t.id];
      if t.Learn? then
        w.(snaps := w.snaps[t.id := s.(profiles := Learned(s.profiles, t.routes),
                                        probesTotal := s.probesTotal + t.probes,
                                        prewarmedTotal := s.prewarmedTotal + t.prewarmed)])
      else if t.Sync? then w.(snaps := w.snaps[t.id := SyncTier1(s, t.rows, w.now)])
      else if t.Exit? then w.(snaps := w.snaps - {t.id})
      else
        var saved := Persisted(s, w.disk, t.victims, w.now);
        w.(disk := saved, snaps := w.snaps[t.id := saved])
  }

  ghost function Run(g: Hygiene, w: World, steps: seq<Step>): World
    decreases |steps|
  {
    if steps == [] then w else Run(g, Next(g, w, steps[0]), steps[1..])
  }

  // ---- What the code can do ----

  /** The harvest cuts hosts in the order of the last solves it loaded. */
  ghost predicate LawfulHelper(g: Hygiene, disk: State, t: Step, now: nat)
  {
    t.HarvestCookies? && !Trivial(t) ==>
      var ps := Loaded(g, disk, t.loadVictims, now).profiles;
      SolveOrder(HarvestAll(g, VaultOf(ps), t.cookies, now), ps, t.order)
  }

  /** The choices a step leaves open are ones the code can make. */
  ghost predicate Lawful(g: Hygiene, w: World, t: Step)
  {
    && (IsHelper(t) ==> LawfulHelper(g, w.disk, t, w.now))
    && (t.Learn? && t.id in w.snaps ==>
          forall h :: h in t.routes ==> Reachable(ProfileOf(w.snaps[t.id].profiles, h).route, t.routes[h]))
  }

  ghost predicate LawfulRun(g: Hygiene, w: World, steps: seq<Step>)
    decreases |steps|
  {
    steps == [] || (Lawful(g, w, steps[0]) && LawfulRun(g, Next(g, w, steps[0]), steps[1..]))
  }

  /** No profile count passes the cap in this step, so nothing is evicted. */
  predicate NoEviction(t: Step)
  {
    && (IsHelper(t) ==> t.loadVictims == {})
    && (t.Save? || IsHelper(t) ==> t.victims == {})
  }

  // ---- Epoch order: holds in every run ----

  ghost predicate StampsUpTo(v: Vault, epoch: nat) { forall h :: At(v, h).cleared <= epoch }

  ghost predicate StampsBelow(s: State) { StampsUpTo(VaultOf(s.profiles), s.vaultEpoch) }

  ghost predicate Ordered(w: World)
  {
    && w.disk.pending == None
    && w.disk.vaultEpoch <= EPOCH_MAX
    && StampsBelow(w.disk)
    && (forall i :: i in w.snaps ==> SnapOrdered(w.snaps[i], w.disk))
  }

  ghost predicate SnapOrdered(s: State, disk: State)
  {
    && s.vaultEpoch <= disk.vaultEpoch
    && StampsBelow(s)
    && (s.pending.Some? ==> s.pending.value.epoch == s.vaultEpoch)
  }

  lemma {:induction false} ReadFacts(g: Hygiene, disk: State, now: nat)
    ensures var s := ReadIn(g, disk, now);
      && s == disk.(profiles := s.profiles) && s.profiles.Keys == disk.profiles.Keys
      && (forall h :: At(VaultOf(s.profiles), h).cleared == At(VaultOf(disk.profiles), h).cleared)
      && (forall h :: SolvedAt(s.profiles, h) == SolvedAt(disk.profiles, h))
  {
  }

  lemma {:induction false} LoadedFacts(g: Hygiene, disk: State, victims: set<string>, now: nat)
    requires disk.pending == None
    ensures var s := Loaded(g, disk, victims, now);
      && s.vaultEpoch == disk.vaultEpoch && s.pending == None && s.tier1 == disk.tier1
      && s.probesTotal == disk.probesTotal && s.prewarmedTotal == disk.prewarmedTotal
      && (victims == {} ==> s.profiles == Healed(g, disk.profiles, now))
      && s.profiles.Keys <= disk.profiles.Keys
      && (forall h :: h in s.profiles ==> s.profiles[h] == Healed(g, disk.profiles, now)[h])
      && (forall h :: At(VaultOf(s.profiles), h).cleared <= At(VaultOf(disk.profiles), h).cleared)
  {
    var ps := Healed(g, disk.profiles, now);
    assert ps - {} == ps;
  }

  /** A save over the state it was loaded from: nothing to reconcile. */
  lemma {:induction false} PersistedForward(s: State, disk: State, victims: set<string>, now: nat)
    requires disk.vaultEpoch <= s.vaultEpoch
    ensures var r := Persisted(s, disk, victims, now);
      && r.profiles == s.profiles - victims
      && r.pending == None
      && r.vaultEpoch == (if s.pending.None? then s.vaultEpoch else BumpEpoch(s.vaultEpoch))
      && r.probesTotal >= disk.probesTotal && r.prewarmedTotal >= disk.prewarmedTotal
      && (s.pending.None? ==> r.tier1 == s.tier1)
      && (forall h :: At(VaultOf(r.profiles), h).cleared <= At(VaultOf(s.profiles), h).cleared)
  {
  }

  lemma {:induction false} HelperOrder(g: Hygiene, disk: State, t: Step, now: nat)
    requires IsHelper(t) && disk.pending == None && StampsBelow(disk) && disk.vaultEpoch <= EPOCH_MAX
    ensures var d := HelperDisk(g, disk, t, now);
      && d.pending == None && StampsBelow(d) && disk.vaultEpoch <= d.vaultEpoch <= EPOCH_MAX
      && d.vaultEpoch <= disk.vaultEpoch + 2
      && d.probesTotal >= disk.probesTotal && d.prewarmedTotal >= disk.prewarmedTotal
  {
    if !Trivial(t) {
      var s := Loaded(g, disk, t.loadVictims, now);
      LoadedFacts(g, disk, t.loadVictims, now);
      var edit := HelperEdit(g, s, t, now);
      if edit.Some? {
        EditOrder(g, s, t, now);
        PersistedForward(edit.value, s, t.victims, now);
      }
    }
  }

  /** What every helper's edit does to epochs, stamps and hosts. */
  ghost predicate Advances(s: State, m: State)
  {
    && StampsBelow(m) && m.pending == None
    && BumpEpoch(s.vaultEpoch) <= m.vaultEpoch <= EPOCH_MAX && m.vaultEpoch <= s.vaultEpoch + 2
    && s.profiles.Keys <= m.profiles.Keys
    && m.probesTotal == s.probesTotal && m.prewarmedTotal == s.prewarmedTotal
    && (forall h :: At(VaultOf(s.profiles), h).cleared <= At(VaultOf(m.profiles), h).cleared)
  }

  lemma {:induction false} EditOrder(g: Hygiene, s: State, t: Step, now: nat)
    requires IsHelper(t) && StampsBelow(s) && s.pending == None && s.vaultEpoch <= EPOCH_MAX
    requires HelperEdit(g, s, t, now).Some?
    ensures Advances(s, HelperEdit(g, s, t, now).value)
  {
    match t
    case HarvestCookies(cookies, order, _, _) => HarvestAdvances(g, s, cookies, order, now);
    case StoreLogin(cookies, _, _) => LoginAdvances(g, s, cookies, now);
    case Logout(domain, _, _) => LogoutAdvances(s, LogoutKey(domain));
    case NewIdentity(_, _) =>
  }

  lemma {:induction false} WithVaultRoundTrip(ps: Profiles, v: Vault)
    ensures VaultOf(WithVault(ps, v)) == v
  {
  }

  lemma {:induction false} HarvestAdvances(g: Hygiene, s: State, cs: seq<Cookie>, order: seq<string>, now: nat)
    requires StampsBelow(s) && s.pending == None && s.vaultEpoch <= EPOCH_MAX
    ensures Advances(s, HarvestEdit(g, s, cs, order, now))
  {
    var v := VaultOf(s.profiles);
    var u := Harvest(g, v, cs, order, now);
    HarvestKeepsStamps(g, v, cs, order, now);
    var m := HarvestEdit(g, s, cs, order, now);
    WithVaultRoundTrip(s.profiles, u);
  }

  lemma {:induction false} LoginAdvances(g: Hygiene, s: State, cs: seq<Cookie>, now: nat)
    requires StampsBelow(s) && s.pending == None && s.vaultEpoch <= EPOCH_MAX
    requires LoginEdit(g, s, cs, now).Some?
    ensures Advances(s, LoginEdit(g, s, cs, now).value)
  {
    var v := VaultOf(s.profiles);
    var r := SessionVault.Login(g, v, cs, s.vaultEpoch, now);
    var u := LoginAll(g, v, cs, now).vault;
    LoginAllKeepsStamps(g, v, cs, now);
    WithVaultRoundTrip(s.profiles, r.vault);
    var m := LoginEdit(g, s, cs, now).value;
    assert VaultOf(m.profiles) == r.vault;
    forall h ensures At(v, h).cleared <= At(r.vault, h).cleared <= m.vaultEpoch {
      assert At(u, h).cleared == At(v, h).cleared;
    }
  }

  lemma {:induction false} LogoutAdvances(s: State, key: string)
    requires StampsBelow(s) && s.pending == None && s.vaultEpoch <= EPOCH_MAX
    requires LogoutEdit(s, key).Some?
    ensures Advances(s, LogoutEdit(s, key).value)
  {
    var v := LogoutCookies(VaultOf(s.profiles), key);
    var u := StampCleared(v, key, BumpEpoch(s.vaultEpoch));
    WithVaultRoundTrip(s.profiles, u);
    var m := LogoutEdit(s, key).value;
    assert VaultOf(m.profiles) == u;
    forall h ensures At(VaultOf(s.profiles), h).cleared <= At(u, h).cleared <= m.vaultEpoch {
      assert At(VaultOf(s.profiles), h).cleared == At(v, h).cleared;
    }
  }

  lemma {:induction false} HarvestKeepsStamps(g: Hygiene, v: Vault, cs: seq<Cookie>, order: seq<string>, now: nat)
    ensures forall h :: At(Harvest(g, v, cs, order, now), h).cleared == At(v, h).cleared
    ensures v.Keys <= Harvest(g, v, cs, order, now).Keys
  {
    HarvestAllKeepsStamps(g, v, cs, now);
    var u := HarvestAll(g, v, cs, now);
    var total := Total(u, AutoHosts(u));
    if total > SESSION_MAX {
      TrimFrame(u, order, total - SESSION_MAX);
    }
  }

  lemma {:induction false} HarvestAllKeepsStamps(g: Hygiene, v: Vault, cs: seq<Cookie>, now: nat)
    ensures forall h :: At(HarvestAll(g, v, cs, now), h).cleared == At(v, h).cleared
    ensures v.Keys <= HarvestAll(g, v, cs, now).Keys
    decreases |cs|
  {
    if cs != [] {
      HarvestAllKeepsStamps(g, HarvestOne(g, v, cs[0], now), cs[1..], now);
    }
  }

  lemma {:induction false} LoginAllKeepsStamps(g: Hygiene, v: Vault, cs: seq<Cookie>, now: nat)
    ensures LoginAll(g, v, cs, now).Stored? ==>
      && v.Keys <= LoginAll(g, v, cs, now).vault.Keys
      && forall h :: At(LoginAll(g, v, cs, now).vault, h).cleared == At(v, h).cleared
    decreases |cs|
  {
    if cs != [] {
      var host := FoldDomain(cs[0].domain);
      var rows := RefreshOrAppend(At(v, host).cookies, cs[0]);
      LoginAllKeepsStamps(g, v[host := At(v, host).(cookies := rows, explicit := true)], cs[1..], now);
    }
  }

  lemma {:induction false} SaveOrder(s: State, disk: State, victims: set<string>, now: nat)
    requires SnapOrdered(s, disk) && StampsBelow(disk) && disk.vaultEpoch <= EPOCH_MAX
    ensures var r := Persisted(s, disk, victims, now);
      && r.pending == None && StampsBelow(r)
      && disk.vaultEpoch <= r.vaultEpoch <= EPOCH_MAX && r.vaultEpoch <= disk.vaultEpoch + 1
      && r.probesTotal >= disk.probesTotal && r.prewarmedTotal >= disk.prewarmedTotal
  {
    var r := Persisted(s, disk, victims, now);
    forall h ensures At(VaultOf(r.profiles), h).cleared <= r.vaultEpoch {
      SavedSession(s, disk, victims, now, h);
      assert At(VaultOf(s.profiles), h).cleared <= s.vaultEpoch;
      assert At(VaultOf(disk.profiles), h).cleared <= disk.vaultEpoch;
    }
  }

  /** Every step keeps the order, and no step rewinds the disk epoch or the
      lifetime counters, whatever is evicted and however far epochs have run. */
  lemma {:induction false} StepOrdered(g: Hygiene, w: World, t: Step)
    requires Ordered(w)
    ensures var w' := Next(g, w, t);
      && Ordered(w')
      && w.disk.vaultEpoch <= w'.disk.vaultEpoch <= w.disk.vaultEpoch + 2
      && w.disk.probesTotal <= w'.disk.probesTotal && w.disk.prewarmedTotal <= w'.disk.prewarmedTotal
      && w.now <= w'.now
  {
    if IsHelper(t) {
      HelperOrder(g, w.disk, t, w.now);
    } else if t.Boot? {
      ReadFacts(g, w.disk, w.now);
    } else if !t.Tick? && t.id in w.snaps {
      var s := w.snaps[t.id];
      assert SnapOrdered(s, w.disk);
      if t.Save? {
        SaveOrder(s, w.disk, t.victims, w.now);
        var saved := Persisted(s, w.disk, t.victims, w.now);
        forall i | i in w.snaps ensures SnapOrdered(w.snaps[t.id := saved][i], saved) {
          assert SnapOrdered(w.snaps[i], w.disk);
        }
      } else if t.Learn? {
        assert forall h :: At(VaultOf(Learned(s.profiles, t.routes)), h) == At(VaultOf(s.profiles), h);
      }
    }
  }

  lemma {:induction false} RunOrdered(g: Hygiene, w: World, steps: seq<Step>)
    requires Ordered(w)
    ensures var w' := Run(g, w, steps);
      && Ordered(w')
      && w.disk.vaultEpoch <= w'.disk.vaultEpoch <= w.disk.vaultEpoch + 2 * |steps|
      && w.disk.probesTotal <= w'.disk.probesTotal && w.disk.prewarmedTotal <= w'.disk.prewarmedTotal
      && w.now <= w'.now
    decreases |steps|
  {
    if steps != [] {
      StepOrdered(g, w, steps[0]);
      RunOrdered(g, Next(g, w, steps[0]), steps[1..]);
    }
  }
}
