/** A login stays in force, and what it fences. */
module VaultLogin {
  import opened Tier1Jar
  import opened SessionRows
  import opened SessionVault
  import opened GhostStore
  import opened VaultProtocol
  import opened VaultInvariant
  import opened VaultErasure
  import opened VaultLogout

  // ---- A login stays ----

  /** A row of this identity that can be used at `until`. */
  predicate Holds(g: Hygiene, cs: seq<Cookie>, id: RowId, until: nat)
  {
    exists c :: c in cs && IdOf(c) == id && Usable(g, c, until)
  }

  /** The row's host is logged in explicitly and holds it. */
  predicate LoggedIn(g: Hygiene, v: Vault, id: RowId, until: nat)
  {
    At(v, FoldDomain(id.domain)).explicit && Holds(g, At(v, FoldDomain(id.domain)).cookies, id, until)
  }

  /** No version of the row expires by then. */
  predicate Outlive(cs: seq<Cookie>, id: RowId, until: nat)
  {
    forall c :: c in cs && IdOf(c) == id ==> !Expired(c, until)
  }

  /** The step is no logout of the row's host and writes no version of the row
      that expires by then. */
  predicate Spares(t: Step, id: RowId, until: nat)
  {
    && (t.Logout? ==> !BelongsTo(LogoutKey(t.domain), FoldDomain(id.domain)))
    && (t.HarvestCookies? || t.StoreLogin? ==> Outlive(t.cookies, id, until))
  }

  lemma {:induction false} RefreshHolds(g: Hygiene, cs: seq<Cookie>, c: Cookie, id: RowId, until: nat)
    requires IdOf(c) == id ==> Usable(g, c, until)
    ensures Holds(g, cs, id, until) ==> Holds(g, RefreshRow(cs, c), id, until) && Holds(g, RefreshOrAppend(cs, c), id, until)
    ensures IdOf(c) == id ==> Holds(g, RefreshOrAppend(cs, c), id, until)
  {
    var at := FindRow(cs, IdOf(c));
    if at.Some? {
      var cs' := cs[at.value := c];
      assert cs'[at.value] == c;
      if x :| x in cs && IdOf(x) == id && Usable(g, x, until) {
        var j :| 0 <= j < |cs| && cs[j] == x;
        assert cs'[j] in cs' && IdOf(cs'[j]) == id;
      }
    } else {
      assert c in cs + [c] && forall x :: x in cs ==> x in cs + [c];
    }
  }

  lemma {:induction false} HarvestAllHolds(g: Hygiene, v: Vault, cs: seq<Cookie>, now: nat, id: RowId, until: nat)
    requires LoggedIn(g, v, id, until) && Outlive(cs, id, until)
    ensures LoggedIn(g, HarvestAll(g, v, cs, now), id, until)
    decreases |cs|
  {
    if cs != [] {
      var c, host := cs[0], FoldDomain(id.domain);
      if Usable(g, c, now) {
        RefreshHolds(g, At(v, host).cookies, c, id, until);
      }
      HarvestAllHolds(g, HarvestOne(g, v, c, now), cs[1..], now, id, until);
    }
  }

  /** The cap cuts no explicit host. */
  lemma {:induction false} HarvestHolds(g: Hygiene, v: Vault, cs: seq<Cookie>, order: seq<string>, now: nat, id: RowId, until: nat)
    requires LoggedIn(g, v, id, until) && Outlive(cs, id, until)
    requires EnumeratesAuto(HarvestAll(g, v, cs, now), order)
    ensures LoggedIn(g, Harvest(g, v, cs, order, now), id, until)
  {
    HarvestAllHolds(g, v, cs, now, id, until);
    var u, host := HarvestAll(g, v, cs, now), FoldDomain(id.domain);
    assert host !in order;
    var total := Total(u, AutoHosts(u));
    if total > SESSION_MAX {
      TrimFrame(u, order, total - SESSION_MAX);
    }
  }

  lemma {:induction false} LoginAllHolds(g: Hygiene, v: Vault, cs: seq<Cookie>, now: nat, id: RowId, until: nat)
    requires LoginAll(g, v, cs, now).Stored? && Outlive(cs, id, until)
    ensures LoggedIn(g, v, id, until) ==> LoggedIn(g, LoginAll(g, v, cs, now).vault, id, until)
    ensures (exists c :: c in cs && IdOf(c) == id) ==> LoggedIn(g, LoginAll(g, v, cs, now).vault, id, until)
    decreases |cs|
  {
    if cs != [] {
      var c, host := cs[0], FoldDomain(cs[0].domain);
      RefreshHolds(g, At(v, host).cookies, c, id, until);
      var rows := RefreshOrAppend(At(v, host).cookies, c);
      var v' := v[host := At(v, host).(cookies := rows, explicit := true)];
      LoginAllHolds(g, v', cs[1..], now, id, until);
      assert forall x :: x in cs <==> x == c || x in cs[1..];
    }
  }

  lemma {:induction false} SameRowsLoggedIn(g: Hygiene, v: Vault, w: Vault, id: RowId, until: nat)
    requires SameRows(v, w) && LoggedIn(g, w, id, until)
    ensures LoggedIn(g, v, id, until)
  {
    assert RowsAt(v, FoldDomain(id.domain)) == RowsAt(w, FoldDomain(id.domain));
  }

  lemma {:induction false} HelperVaultHolds(g: Hygiene, v: Vault, t: Step, now: nat, id: RowId, until: nat)
    requires IsHelper(t) && !Trivial(t) && LoggedIn(g, v, id, until) && Spares(t, id, until)
    requires t.HarvestCookies? ==> EnumeratesAuto(HarvestAll(g, v, t.cookies, now), t.order)
    ensures LoggedIn(g, HelperVault(g, v, t, now), id, until)
  {
    match t
    case HarvestCookies(cookies, order, _, _) => HarvestHolds(g, v, cookies, order, now, id, until);
    case StoreLogin(cookies, _, _) =>
      if SessionVault.Login(g, v, cookies, 0, now).Stored? { LoginHolds(g, v, cookies, now, id, until); }
    case Logout(domain, _, _) => WithoutDomainMeaning(At(v, FoldDomain(id.domain)).cookies, LogoutKey(domain));
    case NewIdentity(_, _) =>
  }

  lemma {:induction false} LoginHolds(g: Hygiene, v: Vault, cs: seq<Cookie>, now: nat, id: RowId, until: nat)
    requires Outlive(cs, id, until) && SessionVault.Login(g, v, cs, 0, now).Stored?
    requires LoggedIn(g, v, id, until) || exists c :: c in cs && IdOf(c) == id
    ensures LoggedIn(g, SessionVault.Login(g, v, cs, 0, now).vault, id, until)
  {
    LoginAllHolds(g, v, cs, now, id, until);
    var u := LoginAll(g, v, cs, now).vault;
    BarrierKeepsRows(u, cs, 1);
    SameRowsLoggedIn(g, Barrier(u, cs, 1), u, id, until);
  }

  /** What can be used later is not pruned before. */
  lemma {:induction false} KeptHolds(g: Hygiene, cs: seq<Cookie>, now: nat, id: RowId, until: nat)
    requires now <= until
    ensures Holds(g, Kept(g, cs, now), id, until) <==> Holds(g, cs, id, until)
  {
    KeptMeaning(g, cs, now);
  }

  lemma {:induction false} StepKeepsLogin(g: Hygiene, w: World, t: Step, id: RowId, until: nat)
    requires Inv(g, w) && NoEviction(t) && Lawful(g, w, t) && Spares(t, id, until) && w.disk.vaultEpoch <= EPOCH_MAX - 2
    requires Next(g, w, t).now <= until && LoggedIn(g, VaultOf(w.disk.profiles), id, until)
    ensures LoggedIn(g, VaultOf(Next(g, w, t).disk.profiles), id, until)
  {
    var v, w', host := VaultOf(w.disk.profiles), Next(g, w, t), FoldDomain(id.domain);
    if !IsHelper(t) {
      SnapshotsKeepVault(g, w, t);
      assert View(g, w'.disk.profiles, host, w'.now) == View(g, w.disk.profiles, host, w'.now);
      KeptHolds(g, At(v, host).cookies, w'.now, id, until);
      KeptHolds(g, At(VaultOf(w'.disk.profiles), host).cookies, w'.now, id, until);
    } else if !Trivial(t) {
      KeptHolds(g, At(v, host).cookies, w.now, id, until);
      LoadedVault(g, w.disk, w.now);
      HelperVaultHolds(g, Pruned(g, v, w.now), t, w.now, id, until);
      HelperRows(g, w.disk, t, w.now);
      SameRowsLoggedIn(g, VaultOf(w'.disk.profiles), HelperVault(g, Pruned(g, v, w.now), t, w.now), id, until);
    }
  }

  lemma {:induction false} RunKeepsLogin(g: Hygiene, w: World, steps: seq<Step>, id: RowId, until: nat)
    requires Inv(g, w) && Room(w, steps) && LawfulRun(g, w, steps) && Run(g, w, steps).now <= until
    requires forall t :: t in steps ==> NoEviction(t) && Spares(t, id, until)
    requires LoggedIn(g, VaultOf(w.disk.profiles), id, until)
    ensures LoggedIn(g, VaultOf(Run(g, w, steps).disk.profiles), id, until)
    decreases |steps|
  {
    if steps != [] {
      StepOrdered(g, w, steps[0]);
      StepKeepsInv(g, w, steps[0]);
      RunOrdered(g, Next(g, w, steps[0]), steps[1..]);
      StepKeepsLogin(g, w, steps[0], id, until);
      RunKeepsLogin(g, Next(g, w, steps[0]), steps[1..], id, until);
    }
  }

  /** The login step is not refused. */
  ghost predicate StoresLogin(g: Hygiene, w: World, t: Step)
  {
    && t.StoreLogin? && NoEviction(t) && Inv(g, w) && w.disk.vaultEpoch <= EPOCH_MAX - 2
    && LoginEdit(g, Loaded(g, w.disk, {}, w.now), t.cookies, w.now).Some?
  }

  lemma {:induction false} LoginStores(g: Hygiene, w: World, t: Step, c: Cookie, until: nat)
    requires StoresLogin(g, w, t) && c in t.cookies && Outlive(t.cookies, IdOf(c), until)
    ensures LoggedIn(g, VaultOf(Next(g, w, t).disk.profiles), IdOf(c), until)
  {
    var s, v := Loaded(g, w.disk, {}, w.now), Pruned(g, VaultOf(w.disk.profiles), w.now);
    LoadedVault(g, w.disk, w.now);
    LoadedFacts(g, w.disk, {}, w.now);
    LoginRowsOf(g, v, t.cookies, s.vaultEpoch, w.now);
    LoginHolds(g, v, t.cookies, w.now, IdOf(c), until);
    HelperRows(g, w.disk, t, w.now);
    SameRowsLoggedIn(g, VaultOf(Next(g, w, t).disk.profiles), HelperVault(g, v, t, w.now), IdOf(c), until);
  }

  /** Every cookie of a stored login stays usable on disk, its host marked
      explicit, through every run of harvests, other logins and stale saves that
      logs the host not out, as long as no version of the row expires. */
  lemma {:induction false} LoginSticks(g: Hygiene, w: World, t: Step, steps: seq<Step>, c: Cookie)
    requires StoresLogin(g, w, t) && c in t.cookies && Room(w, [t] + steps) && LawfulRun(g, Next(g, w, t), steps)
    requires forall u :: u in steps ==> NoEviction(u)
    requires forall u :: u in [t] + steps ==> Spares(u, IdOf(c), Run(g, Next(g, w, t), steps).now)
    ensures var end := Run(g, Next(g, w, t), steps);
      LoggedIn(g, VaultOf(end.disk.profiles), IdOf(c), end.now)
  {
    var end := Run(g, Next(g, w, t), steps);
    assert ([t] + steps)[0] == t && t in [t] + steps && forall u :: u in steps ==> u in [t] + steps;
    StepOrdered(g, w, t);
    StepKeepsInv(g, w, t);
    LoginStores(g, w, t, c, end.now);
    RunKeepsLogin(g, Next(g, w, t), steps, IdOf(c), end.now);
  }

  // ---- What a login fences ----

  predicate LoginHost(cs: seq<Cookie>, host: string) { exists c :: c in cs && FoldDomain(c.domain) == host }

  lemma {:induction false} LoginAllKeys(g: Hygiene, v: Vault, cs: seq<Cookie>, now: nat)
    requires LoginAll(g, v, cs, now).Stored?
    ensures forall h :: h in LoginAll(g, v, cs, now).vault <==> h in v || LoginHost(cs, h)
    decreases |cs|
  {
    if cs != [] {
      var c, host := cs[0], FoldDomain(cs[0].domain);
      var v' := v[host := At(v, host).(cookies := RefreshOrAppend(At(v, host).cookies, c), explicit := true)];
      LoginAllKeys(g, v', cs[1..], now);
      assert forall x :: x in cs <==> x == c || x in cs[1..];
    }
  }

  lemma {:induction false} LoginVaultStamps(g: Hygiene, v: Vault, cs: seq<Cookie>, epoch: nat, now: nat, h: string)
    requires SessionVault.Login(g, v, cs, epoch, now).Stored?
    ensures var u := SessionVault.Login(g, v, cs, epoch, now).vault;
      && v.Keys <= u.Keys
      && (h in u <==> h in v || LoginHost(cs, h))
      && (h in u ==> u[h].cleared == (if Affected(cs, h) then epoch + 1 else At(v, h).cleared))
  {
    LoginAllKeys(g, v, cs, now);
    LoginAllKeepsStamps(g, v, cs, now);
    assert At(LoginAll(g, v, cs, now).vault, h).cleared == At(v, h).cleared;
  }

  lemma {:induction false} RearmKeepsSessions(ps: Profiles, cs: seq<Cookie>, now: nat)
    ensures VaultOf(RearmHosts(ps, cs, now)) == VaultOf(ps)
  {
  }

  /** The vault a login writes. */
  lemma {:induction false} LoginWrites(g: Hygiene, s: State, cs: seq<Cookie>, now: nat)
    requires LoginEdit(g, s, cs, now).Some?
    ensures SessionVault.Login(g, VaultOf(s.profiles), cs, s.vaultEpoch, now).Stored?
    ensures VaultOf(LoginEdit(g, s, cs, now).value.profiles) == SessionVault.Login(g, VaultOf(s.profiles), cs, s.vaultEpoch, now).vault
    ensures LoginEdit(g, s, cs, now).value.tier1 == s.tier1
    ensures LoginEdit(g, s, cs, now).value.vaultEpoch == BumpEpoch(BumpEpoch(s.vaultEpoch))
  {
    var u := SessionVault.Login(g, VaultOf(s.profiles), cs, s.vaultEpoch, now).vault;
    RearmKeepsSessions(WithVault(s.profiles, u), cs, now);
    WithVaultRoundTrip(s.profiles, u);
  }

  /** The stamps a login leaves on disk. */
  lemma {:induction false} LoginStamps(g: Hygiene, w: World, t: Step, h: string)
    requires StoresLogin(g, w, t)
    ensures var d := Next(g, w, t).disk;
      && d.tier1 == w.disk.tier1 && d.vaultEpoch == w.disk.vaultEpoch + 2
      && (h in d.profiles <==> h in w.disk.profiles || LoginHost(t.cookies, h))
      && At(VaultOf(d.profiles), h).cleared == (
           if Affected(t.cookies, h) && h in d.profiles then w.disk.vaultEpoch + 1 else At(VaultOf(w.disk.profiles), h).cleared)
  {
    var s := Loaded(g, w.disk, {}, w.now);
    LoadedFacts(g, w.disk, {}, w.now);
    LoadedVault(g, w.disk, w.now);
    LoginWrites(g, s, t.cookies, w.now);
    LoginVaultStamps(g, VaultOf(s.profiles), t.cookies, s.vaultEpoch, w.now, h);
    EditReachesDisk(g, w.disk, t, w.now);
  }

  /** What the save of an older snapshot re-applies of its echo after a login:
      exactly the rows no earlier clear fences whose host is not both in the
      login's scope and known to disk or named by the login. The jar rows that
      the login leaves in place stay. */
  lemma {:induction false} LoginFencesIff(g: Hygiene, w: World, t: Step, id: nat, c: Cookie)
    requires StoresLogin(g, w, t) && id in w.snaps && w.snaps[id].pending.Some? && c in w.snaps[id].pending.value.rows
    ensures var s, d, host := w.snaps[id], Next(g, w, t).disk, FoldDomain(c.domain);
      && (c in Unfenced(s, d) <==>
          && !Fenced(w.disk.profiles, c, s.pending.value.epoch)
          && !(Affected(t.cookies, host) && (host in w.disk.profiles || LoginHost(t.cookies, host))))
      && Next(g, Next(g, w, t), Save(id, {})).disk.tier1 == Merge(w.disk.tier1, Unfenced(s, d), w.now)
  {
    var s, d, host := w.snaps[id], Next(g, w, t).disk, FoldDomain(c.domain);
    assert SnapOrdered(s, w.disk);
    LoginStamps(g, w, t, host);
    EchoRowsMeaning(s.pending.value.rows, d.profiles, s.pending.value.epoch);
    HelperThenSave(g, w, t, id);
  }
}
