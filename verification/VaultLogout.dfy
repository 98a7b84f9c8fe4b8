/** A logout stays in force: for the session vault and for tier-1 echoes. */
module VaultLogout {
  import opened Options
  import opened Tier1Jar
  import Recency
  import opened SessionRows
  import opened SessionVault
  import opened GhostStore
  import opened VaultProtocol
  import opened VaultInvariant
  import opened VaultErasure

  // ---- A logout stays ----

  /** No live vaulted cookie on disk belongs to the domain. */
  ghost predicate LoggedOut(g: Hygiene, ps: Profiles, key: string, now: nat)
  {
    forall h, c :: c in DrawerOf(g, VaultOf(ps), h, now).cookies ==> !BelongsTo(key, FoldDomain(c.domain))
  }

  predicate Foreign(cs: seq<Cookie>, key: string)
  {
    forall c :: c in cs ==> !BelongsTo(key, FoldDomain(c.domain))
  }

  /** The step stores no cookie of the domain. */
  predicate StoresNone(t: Step, key: string)
  {
    && (t.HarvestCookies? ==> Foreign(t.cookies, key))
    && (t.StoreLogin? ==> Foreign(t.cookies, key))
  }

  ghost predicate ForeignVault(v: Vault, key: string) { forall h :: Foreign(At(v, h).cookies, key) }

  lemma {:induction false} RowEditsForeign(g: Hygiene, cs: seq<Cookie>, c: Cookie, now: nat, key: string)
    requires Foreign(cs, key) && !BelongsTo(key, FoldDomain(c.domain))
    ensures Foreign(MergeOne(g, cs, c, now), key) && Foreign(RefreshRow(cs, c), key) && Foreign(RefreshOrAppend(cs, c), key)
  {
    var row := MergeRow(g, cs, c, now);
    var at := FindRow(cs, IdOf(c));
    if at.Some? { ForeignUpdate(cs, at.value, c, key); }
    assert forall x :: x in [c] + cs <==> x == c || x in cs;
    assert forall x :: x in cs + [c] <==> x == c || x in cs;
    assert Foreign(row, key);
    assert forall x :: x in Recency.Capped(row, PER_DOMAIN_MAX) ==> x in row;
  }

  lemma {:induction false} ForeignUpdate(cs: seq<Cookie>, i: nat, c: Cookie, key: string)
    requires i < |cs| && Foreign(cs, key) && !BelongsTo(key, FoldDomain(c.domain))
    ensures Foreign(cs[i := c], key)
  {
    var cs' := cs[i := c];
    forall x | x in cs' ensures !BelongsTo(key, FoldDomain(x.domain)) {
      var j :| 0 <= j < |cs'| && cs'[j] == x;
      if j != i { assert cs[j] == x; }
    }
  }

  lemma {:induction false} HarvestForeign(g: Hygiene, v: Vault, cs: seq<Cookie>, order: seq<string>, now: nat, key: string)
    requires ForeignVault(v, key) && Foreign(cs, key)
    ensures ForeignVault(Harvest(g, v, cs, order, now), key)
  {
    HarvestAllForeign(g, v, cs, now, key);
    var u := HarvestAll(g, v, cs, now);
    var total := Total(u, AutoHosts(u));
    if total > SESSION_MAX {
      var r := TrimHosts(u, order, total - SESSION_MAX);
      TrimFrame(u, order, total - SESSION_MAX);
      forall h ensures Foreign(At(r, h).cookies, key) {
        assert Foreign(At(u, h).cookies, key);
        assert At(r, h).cookies <= At(u, h).cookies;
      }
    }
  }

  lemma {:induction false} HarvestAllForeign(g: Hygiene, v: Vault, cs: seq<Cookie>, now: nat, key: string)
    requires ForeignVault(v, key) && Foreign(cs, key)
    ensures ForeignVault(HarvestAll(g, v, cs, now), key)
    decreases |cs|
  {
    if cs != [] {
      var c, host := cs[0], FoldDomain(cs[0].domain);
      assert Foreign(At(v, host).cookies, key);
      RowEditsForeign(g, At(v, host).cookies, c, now, key);
      var v' := HarvestOne(g, v, c, now);
      forall h ensures Foreign(At(v', h).cookies, key) {
        assert Foreign(At(v, h).cookies, key);
      }
      HarvestAllForeign(g, v', cs[1..], now, key);
    }
  }

  lemma {:induction false} LoginForeign(g: Hygiene, v: Vault, cs: seq<Cookie>, now: nat, key: string)
    requires ForeignVault(v, key) && Foreign(cs, key) && LoginAll(g, v, cs, now).Stored?
    ensures ForeignVault(LoginAll(g, v, cs, now).vault, key)
    decreases |cs|
  {
    if cs != [] {
      var c, host := cs[0], FoldDomain(cs[0].domain);
      assert Foreign(At(v, host).cookies, key);
      RowEditsForeign(g, At(v, host).cookies, c, now, key);
      var rows := RefreshOrAppend(At(v, host).cookies, c);
      var v' := v[host := At(v, host).(cookies := rows, explicit := true)];
      forall h ensures Foreign(At(v', h).cookies, key) {
        assert Foreign(At(v, h).cookies, key);
      }
      LoginForeign(g, v', cs[1..], now, key);
    }
  }

  lemma {:induction false} HelperVaultForeign(g: Hygiene, v: Vault, t: Step, now: nat, key: string)
    requires IsHelper(t) && ForeignVault(v, key) && StoresNone(t, key)
    ensures ForeignVault(HelperVault(g, v, t, now), key)
  {
    match t
    case HarvestCookies(cookies, order, _, _) => HarvestForeign(g, v, cookies, order, now, key);
    case StoreLogin(cookies, _, _) =>
      if LoginAll(g, v, cookies, now).Stored? {
        LoginForeign(g, v, cookies, now, key);
        var u := LoginAll(g, v, cookies, now).vault;
        forall h ensures Foreign(At(Barrier(u, cookies, 1), h).cookies, key) {
          assert Foreign(At(u, h).cookies, key);
        }
      }
    case Logout(domain, _, _) =>
      forall h ensures Foreign(At(LogoutCookies(v, LogoutKey(domain)), h).cookies, key) {
        assert Foreign(At(v, h).cookies, key);
        WithoutDomainMeaning(At(v, h).cookies, LogoutKey(domain));
      }
    case NewIdentity(_, _) =>
  }

  lemma {:induction false} LoggedOutPruned(g: Hygiene, ps: Profiles, key: string, now: nat)
    ensures LoggedOut(g, ps, key, now) <==> ForeignVault(Pruned(g, VaultOf(ps), now), key)
  {
    assert forall h :: At(Pruned(g, VaultOf(ps), now), h).cookies == DrawerOf(g, VaultOf(ps), h, now).cookies;
    if ForeignVault(Pruned(g, VaultOf(ps), now), key) {
      forall h, c | c in DrawerOf(g, VaultOf(ps), h, now).cookies ensures !BelongsTo(key, FoldDomain(c.domain)) {
        assert Foreign(At(Pruned(g, VaultOf(ps), now), h).cookies, key);
      }
    }
  }

  lemma {:induction false} LoggedOutSame(g: Hygiene, ps: Profiles, qs: Profiles, key: string, now: nat)
    requires SameSessions(g, ps, qs, now) && LoggedOut(g, qs, key, now)
    ensures LoggedOut(g, ps, key, now)
  {
  }

  lemma {:induction false} SameRowsForeign(v: Vault, w: Vault, key: string)
    requires SameRows(v, w) && ForeignVault(w, key)
    ensures ForeignVault(v, key)
  {
    forall h ensures Foreign(At(v, h).cookies, key) {
      assert RowsAt(v, h) == RowsAt(w, h);
      assert Foreign(At(w, h).cookies, key);
    }
  }

  lemma {:induction false} ForeignLoggedOut(g: Hygiene, ps: Profiles, key: string, now: nat)
    requires ForeignVault(VaultOf(ps), key)
    ensures LoggedOut(g, ps, key, now)
  {
    forall h, c | c in DrawerOf(g, VaultOf(ps), h, now).cookies ensures !BelongsTo(key, FoldDomain(c.domain)) {
      assert Foreign(At(VaultOf(ps), h).cookies, key);
      KeptFrom(g, At(VaultOf(ps), h).cookies, now);
    }
  }

  lemma KeptFrom(g: Hygiene, cs: seq<Cookie>, now: nat)
    ensures forall c :: c in Kept(g, cs, now) ==> c in cs
  {
  }

  /** A logout empties the domain. */
  lemma {:induction false} LogoutEmpties(g: Hygiene, w: World, t: Step)
    requires Inv(g, w) && t.Logout? && NoEviction(t) && LogoutKey(t.domain) != ""
    requires w.disk.vaultEpoch <= EPOCH_MAX - 2
    ensures LoggedOut(g, Next(g, w, t).disk.profiles, LogoutKey(t.domain), w.now)
    ensures forall h, c :: c in DrawerOf(g, VaultOf(Next(g, w, t).disk.profiles), h, w.now).cookies ==>
      !SameSite(LogoutKey(t.domain), FoldDomain(c.domain))
  {
    var key, v := LogoutKey(t.domain), Pruned(g, VaultOf(w.disk.profiles), w.now);
    HelperRows(g, w.disk, t, w.now);
    forall h ensures Foreign(At(LogoutCookies(v, key), h).cookies, key) {
      WithoutDomainMeaning(At(v, h).cookies, key);
    }
    SameRowsForeign(VaultOf(Next(g, w, t).disk.profiles), LogoutCookies(v, key), key);
    ForeignLoggedOut(g, Next(g, w, t).disk.profiles, key, w.now);
    forall h, c | c in DrawerOf(g, VaultOf(Next(g, w, t).disk.profiles), h, w.now).cookies
      ensures !SameSite(key, FoldDomain(c.domain))
    {
      BelongsIff(key, FoldDomain(c.domain));
    }
  }

  lemma {:induction false} StepKeepsLoggedOut(g: Hygiene, w: World, t: Step, key: string)
    requires Inv(g, w) && NoEviction(t) && StoresNone(t, key) && w.disk.vaultEpoch <= EPOCH_MAX - 2
    requires LoggedOut(g, w.disk.profiles, key, w.now)
    ensures LoggedOut(g, Next(g, w, t).disk.profiles, key, Next(g, w, t).now)
  {
    var w' := Next(g, w, t);
    if !IsHelper(t) {
      SnapshotsKeepVault(g, w, t);
      AgreeSameSessions(g, w'.disk.profiles, w.disk.profiles, w'.now);
      forall h, c | c in DrawerOf(g, VaultOf(w.disk.profiles), h, w'.now).cookies
        ensures !BelongsTo(key, FoldDomain(c.domain))
      {
        KeptLater(g, At(VaultOf(w.disk.profiles), h).cookies, w.now, w'.now);
        KeptFrom(g, Kept(g, At(VaultOf(w.disk.profiles), h).cookies, w.now), w'.now);
        assert c in DrawerOf(g, VaultOf(w.disk.profiles), h, w.now).cookies;
      }
      LoggedOutSame(g, w'.disk.profiles, w.disk.profiles, key, w'.now);
    } else if !Trivial(t) {
      var v := Pruned(g, VaultOf(w.disk.profiles), w.now);
      LoggedOutPruned(g, w.disk.profiles, key, w.now);
      HelperRows(g, w.disk, t, w.now);
      HelperVaultForeign(g, v, t, w.now, key);
      SameRowsForeign(VaultOf(w'.disk.profiles), HelperVault(g, v, t, w.now), key);
      ForeignLoggedOut(g, w'.disk.profiles, key, w.now);
    }
  }

  /** Once a domain is logged out, no run brings a cookie of it back to disk
      except through a harvest or login that stores one. */
  lemma {:induction false} LogoutSticks(g: Hygiene, w: World, steps: seq<Step>, key: string)
    requires Inv(g, w) && LoggedOut(g, w.disk.profiles, key, w.now) && Room(w, steps)
    requires forall t :: t in steps ==> NoEviction(t) && StoresNone(t, key)
    ensures LoggedOut(g, Run(g, w, steps).disk.profiles, key, Run(g, w, steps).now)
    decreases |steps|
  {
    if steps != [] {
      StepOrdered(g, w, steps[0]);
      StepKeepsInv(g, w, steps[0]);
      StepKeepsLoggedOut(g, w, steps[0], key);
      LogoutSticks(g, Next(g, w, steps[0]), steps[1..], key);
    }
  }

  // ---- A clear fences older echoes ----

  predicate NoRow(rows: seq<Cookie>, host: string)
  {
    forall c :: c in rows ==> FoldDomain(c.domain) != host
  }

  ghost predicate SnapFenced(s: State, host: string, stamp: nat)
  {
    s.vaultEpoch >= stamp ==> NoRow(s.tier1, host) && (s.pending.Some? ==> NoRow(s.pending.value.rows, host))
  }

  /** The clear of `host` at `stamp` is in force: its stamp is on disk, and
      only copies older than it may still hold the host's jar rows. */
  ghost predicate FenceUp(w: World, host: string, stamp: nat)
  {
    && At(VaultOf(w.disk.profiles), host).cleared >= stamp
    && NoRow(w.disk.tier1, host)
    && forall i :: i in w.snaps ==> SnapFenced(w.snaps[i], host, stamp)
  }

  /** A flush taken at or after the clear carries no row of the host. */
  ghost predicate CleanSync(w: World, t: Step, host: string, stamp: nat)
  {
    t.Sync? && t.id in w.snaps && w.snaps[t.id].vaultEpoch >= stamp ==> NoRow(t.rows, host)
  }

  ghost predicate CleanSyncs(g: Hygiene, w: World, steps: seq<Step>, host: string, stamp: nat)
    decreases |steps|
  {
    steps == [] || (CleanSync(w, steps[0], host, stamp) && CleanSyncs(g, Next(g, w, steps[0]), steps[1..], host, stamp))
  }

  lemma {:induction false} MergeNoRow(jar: seq<Cookie>, rows: seq<Cookie>, now: nat, host: string)
    requires NoRow(jar, host) && NoRow(rows, host)
    ensures NoRow(Merge(jar, rows, now), host)
  {
    MergedRows(jar, rows, now);
  }

  lemma {:induction false} SaveKeepsFence(g: Hygiene, s: State, disk: State, now: nat, host: string, stamp: nat)
    requires SnapOrdered(s, disk) && disk.vaultEpoch < EPOCH_MAX && StampsBelow(disk)
    requires PairCoherent(g, s, disk, now) && PairCoherent(g, disk, s, now)
    requires At(VaultOf(disk.profiles), host).cleared >= stamp && NoRow(disk.tier1, host)
    requires SnapFenced(s, host, stamp)
    ensures var r := Persisted(s, disk, {}, now);
      At(VaultOf(r.profiles), host).cleared >= stamp && NoRow(r.tier1, host)
  {
    var r := Persisted(s, disk, {}, now);
    SaveCoherent(g, s, disk, now);
    assert View(g, r.profiles, host, now) == View(g, disk.profiles, host, now);
    assert At(VaultOf(disk.profiles), host).cleared <= disk.vaultEpoch;
    var jar := if disk.vaultEpoch > s.vaultEpoch then disk.tier1 else s.tier1;
    assert NoRow(jar, host);
    if s.pending.Some? {
      var echo := s.pending.value;
      var kept := EchoRows(echo.rows, disk.profiles, echo.epoch);
      EchoRowsMeaning(echo.rows, disk.profiles, echo.epoch);
      assert echo.epoch < stamp ==> forall c: Cookie :: FoldDomain(c.domain) == host ==> Fenced(disk.profiles, c, echo.epoch);
      assert NoRow(kept, host);
      MergeNoRow(jar, kept, now, host);
    }
  }

  lemma {:induction false} EditJar(g: Hygiene, s: State, t: Step, now: nat, host: string)
    requires IsHelper(t) && HelperEdit(g, s, t, now).Some? && NoRow(s.tier1, host)
    ensures NoRow(HelperEdit(g, s, t, now).value.tier1, host)
  {
    if t.Logout? {
      WithoutDomainMeaning(s.tier1, LogoutKey(t.domain));
    }
  }

  lemma {:induction false} HelperKeepsFence(g: Hygiene, disk: State, t: Step, now: nat, host: string)
    requires IsHelper(t) && NoEviction(t) && disk.pending == None && StampsBelow(disk) && disk.vaultEpoch <= EPOCH_MAX
    requires NoRow(disk.tier1, host)
    ensures var d := HelperDisk(g, disk, t, now);
      NoRow(d.tier1, host) && At(VaultOf(disk.profiles), host).cleared <= At(VaultOf(d.profiles), host).cleared
  {
    if !Trivial(t) {
      var s := Loaded(g, disk, {}, now);
      LoadedFacts(g, disk, {}, now);
      var edit := HelperEdit(g, s, t, now);
      if edit.Some? {
        EditOrder(g, s, t, now);
        EditJar(g, s, t, now, host);
        PersistedForward(edit.value, s, {}, now);
        WrittenProfiles(edit.value, s, now);
      }
    }
  }

  lemma {:induction false} StepKeepsFence(g: Hygiene, w: World, t: Step, host: string, stamp: nat)
    requires Inv(g, w) && NoEviction(t) && w.disk.vaultEpoch < EPOCH_MAX
    requires FenceUp(w, host, stamp) && CleanSync(w, t, host, stamp)
    ensures FenceUp(Next(g, w, t), host, stamp)
  {
    if IsHelper(t) {
      HelperKeepsFence(g, w.disk, t, w.now, host);
    } else if t.Boot? {
      ReadFacts(g, w.disk, w.now);
    } else if !t.Tick? && t.id in w.snaps {
      var s := w.snaps[t.id];
      assert SnapFenced(s, host, stamp);
      if t.Save? {
        SaveKeepsFence(g, s, w.disk, w.now, host, stamp);
      } else if t.Sync? && s.vaultEpoch >= stamp {
        MergeNoRow(s.tier1, t.rows, w.now, host);
      }
    }
  }

  /** An echo taken before a clear never writes a row of a cleared host back,
      whatever loads, saves and helper writes run in between. */
  lemma {:induction false} FenceHolds(g: Hygiene, w: World, steps: seq<Step>, host: string, stamp: nat)
    requires Inv(g, w) && FenceUp(w, host, stamp) && CleanSyncs(g, w, steps, host, stamp)
    requires Run(g, w, steps).disk.vaultEpoch < EPOCH_MAX
    requires forall t :: t in steps ==> NoEviction(t)
    ensures FenceUp(Run(g, w, steps), host, stamp)
    decreases |steps|
  {
    if steps != [] {
      StepOrdered(g, w, steps[0]);
      StepKeepsInv(g, w, steps[0]);
      RunOrdered(g, Next(g, w, steps[0]), steps[1..]);
      StepKeepsFence(g, w, steps[0], host, stamp);
      FenceHolds(g, Next(g, w, steps[0]), steps[1..], host, stamp);
    }
  }

  /** A logout that removes anything raises the fence for the domain and for
      every known host of it. */
  lemma {:induction false} LogoutRaisesFence(g: Hygiene, w: World, t: Step, host: string)
    requires Inv(g, w) && t.Logout? && NoEviction(t) && !Trivial(t) && w.disk.vaultEpoch < EPOCH_MAX
    requires LogoutEdit(Loaded(g, w.disk, {}, w.now), LogoutKey(t.domain)).Some?
    requires host == LogoutKey(t.domain) || (host in w.disk.profiles && BelongsTo(LogoutKey(t.domain), host))
    ensures FenceUp(Next(g, w, t), host, w.disk.vaultEpoch + 1)
  {
    var s, key := Loaded(g, w.disk, {}, w.now), LogoutKey(t.domain);
    LoadedFacts(g, w.disk, {}, w.now);
    EditReachesDisk(g, w.disk, t, w.now);
    StampsOfLogout(s, key, host);
    WithoutDomainMeaning(s.tier1, key);
    forall i | i in w.snaps ensures SnapFenced(w.snaps[i], host, w.disk.vaultEpoch + 1) {
      assert SnapOrdered(w.snaps[i], w.disk);
    }
  }

  lemma {:induction false} StampsOfLogout(s: State, key: string, host: string)
    requires LogoutEdit(s, key).Some? && (host == key || (host in s.profiles && BelongsTo(key, host)))
    ensures At(VaultOf(LogoutEdit(s, key).value.profiles), host).cleared == BumpEpoch(s.vaultEpoch)
    ensures LogoutEdit(s, key).value.tier1 == WithoutDomain(s.tier1, key) && BelongsTo(key, host)
    ensures LogoutEdit(s, key).value.vaultEpoch == BumpEpoch(s.vaultEpoch)
  {
    var v := LogoutCookies(VaultOf(s.profiles), key);
    WithVaultRoundTrip(s.profiles, StampCleared(v, key, BumpEpoch(s.vaultEpoch)));
  }

  // ---- Rows the fence does not cover ----

  /** The cookie is among the first 500 distinct ones a re-applied echo brings. */
  predicate InFront(rows: seq<Cookie>, c: Cookie, now: nat)
  {
    var front := Recency.Capped(Recency.MostRecentDistinct(AcceptedRows(rows, now), KeyOf), TIER1_COOKIE_MAX);
    Recency.HasKey(front, KeyOf, KeyOf(c))
  }

  /** A logout stamps the domain and the known hosts of it, and no other. */
  lemma {:induction false} LogoutStampsKnown(g: Hygiene, w: World, t: Step, host: string)
    requires Inv(g, w) && t.Logout? && NoEviction(t) && !Trivial(t) && w.disk.vaultEpoch < EPOCH_MAX
    requires LogoutEdit(Loaded(g, w.disk, {}, w.now), LogoutKey(t.domain)).Some?
    ensures var d := Next(g, w, t).disk;
      && d.vaultEpoch == w.disk.vaultEpoch + 1
      && (host in d.profiles <==> host in w.disk.profiles || host == LogoutKey(t.domain))
      && d.tier1 == WithoutDomain(w.disk.tier1, LogoutKey(t.domain))
  {
    var s, key := Loaded(g, w.disk, {}, w.now), LogoutKey(t.domain);
    LoadedFacts(g, w.disk, {}, w.now);
    EditReachesDisk(g, w.disk, t, w.now);
  }

  /** Of the hosts a logout clears, it fences exactly the domain itself and the
      hosts with a profile on disk. */
  lemma {:induction false} LogoutFencesIff(g: Hygiene, w: World, t: Step, host: string)
    requires Inv(g, w) && t.Logout? && NoEviction(t) && !Trivial(t) && w.disk.vaultEpoch < EPOCH_MAX
    requires LogoutEdit(Loaded(g, w.disk, {}, w.now), LogoutKey(t.domain)).Some?
    requires BelongsTo(LogoutKey(t.domain), host)
    ensures FenceUp(Next(g, w, t), host, w.disk.vaultEpoch + 1) <==> host == LogoutKey(t.domain) || host in w.disk.profiles
  {
    if host == LogoutKey(t.domain) || host in w.disk.profiles {
      LogoutRaisesFence(g, w, t, host);
    } else {
      LogoutStampsKnown(g, w, t, host);
      assert At(VaultOf(Next(g, w, t).disk.profiles), host) == NO_SESSION;
    }
  }

  /** A logout that finds something to remove, while a snapshot holds `c`, a row
      of the domain, in a pending echo. */
  ghost predicate LogoutOverEcho(g: Hygiene, w: World, t: Step, id: nat, c: Cookie)
  {
    && Inv(g, w) && t.Logout? && NoEviction(t) && !Trivial(t) && w.disk.vaultEpoch <= EPOCH_MAX - 2
    && LogoutEdit(Loaded(g, w.disk, {}, w.now), LogoutKey(t.domain)).Some?
    && id in w.snaps && w.snaps[id].pending.Some? && c in w.snaps[id].pending.value.rows
    && Accepted(c, w.now) && BelongsTo(LogoutKey(t.domain), FoldDomain(c.domain))
  }

  /** The rows of a pending echo that a clear on disk leaves unfenced. */
  function Unfenced(s: State, disk: State): seq<Cookie>
    requires s.pending.Some?
  {
    EchoRows(s.pending.value.rows, disk.profiles, s.pending.value.epoch)
  }

  /** Which rows of a logged-out domain an older snapshot's pending echo brings
      back to disk with its next save: exactly those, among the first 500 it
      re-applies, whose host is neither the domain itself nor a host with a
      profile on disk. */
  lemma {:induction false} ReRaisedIff(g: Hygiene, w: World, t: Step, id: nat, c: Cookie)
    requires LogoutOverEcho(g, w, t, id, c)
    ensures var host, out := FoldDomain(c.domain), Next(g, w, t);
      && (Recency.HasKey(Next(g, out, Save(id, {})).disk.tier1, KeyOf, KeyOf(c)) <==>
          host != LogoutKey(t.domain) && host !in w.disk.profiles && InFront(Unfenced(w.snaps[id], out.disk), c, w.now))
  {
    var host := FoldDomain(c.domain);
    RaisedAfter(g, w, t, id, c);
    if host == LogoutKey(t.domain) || host in w.disk.profiles {
      FencedAfter(g, w, t, id, c);
    }
  }

  lemma {:induction false} RaisedAfter(g: Hygiene, w: World, t: Step, id: nat, c: Cookie)
    requires LogoutOverEcho(g, w, t, id, c)
    ensures var out := Next(g, w, t);
      && (Recency.HasKey(Next(g, out, Save(id, {})).disk.tier1, KeyOf, KeyOf(c)) <==>
          InFront(Unfenced(w.snaps[id], out.disk), c, w.now))
  {
    var out := Next(g, w, t);
    assert SnapOrdered(w.snaps[id], w.disk);
    LogoutStampsKnown(g, w, t, FoldDomain(c.domain));
    ReRaisedBySave(w.snaps[id], out.disk, w.disk.tier1, LogoutKey(t.domain), c, w.now);
    HelperThenSave(g, w, t, id);
  }

  lemma {:induction false} FencedAfter(g: Hygiene, w: World, t: Step, id: nat, c: Cookie)
    requires LogoutOverEcho(g, w, t, id, c)
    requires FoldDomain(c.domain) == LogoutKey(t.domain) || FoldDomain(c.domain) in w.disk.profiles
    ensures !InFront(Unfenced(w.snaps[id], Next(g, w, t).disk), c, w.now)
  {
    var host, s := FoldDomain(c.domain), w.snaps[id];
    assert SnapOrdered(s, w.disk);
    LogoutRaisesFence(g, w, t, host);
    FencedOut(s.pending.value.rows, Next(g, w, t).disk.profiles, s.pending.value.epoch, c, w.now);
  }

  lemma {:induction false} HelperThenSave(g: Hygiene, w: World, t: Step, id: nat)
    requires IsHelper(t) && id in w.snaps
    ensures Next(g, Next(g, w, t), Save(id, {})).disk == Persisted(w.snaps[id], Next(g, w, t).disk, {}, w.now)
  {
  }

  lemma {:induction false} ReRaisedBySave(s: State, disk: State, jar: seq<Cookie>, key: string, c: Cookie, now: nat)
    requires s.pending.Some? && s.vaultEpoch < disk.vaultEpoch && disk.tier1 == WithoutDomain(jar, key)
    requires BelongsTo(key, FoldDomain(c.domain))
    ensures Recency.HasKey(Persisted(s, disk, {}, now).tier1, KeyOf, KeyOf(c))
       <==> InFront(EchoRows(s.pending.value.rows, disk.profiles, s.pending.value.epoch), c, now)
  {
    EchoOverJar(s, disk, now);
    JarLosesDomain(jar, key, c);
    FlushedIff(disk.tier1, EchoRows(s.pending.value.rows, disk.profiles, s.pending.value.epoch), now, KeyOf(c));
  }

  /** An older snapshot's save re-applies its echo to disk's jar. */
  lemma {:induction false} EchoOverJar(s: State, disk: State, now: nat)
    requires s.pending.Some? && s.vaultEpoch < disk.vaultEpoch
    ensures Persisted(s, disk, {}, now).tier1
         == Merge(disk.tier1, EchoRows(s.pending.value.rows, disk.profiles, s.pending.value.epoch), now)
  {
  }

  lemma {:induction false} JarLosesDomain(jar: seq<Cookie>, key: string, c: Cookie)
    requires BelongsTo(key, FoldDomain(c.domain))
    ensures !Recency.HasKey(WithoutDomain(jar, key), KeyOf, KeyOf(c))
  {
    WithoutDomainMeaning(jar, key);
    var left := WithoutDomain(jar, key);
    forall i | 0 <= i < |left| ensures KeyOf(left[i]) != KeyOf(c) {
      assert left[i] in left;
    }
  }

  /** A fenced host has no row in what is re-applied. */
  lemma {:induction false} FencedOut(rows: seq<Cookie>, disk: Profiles, epoch: nat, c: Cookie, now: nat)
    requires At(VaultOf(disk), FoldDomain(c.domain)).cleared > epoch
    ensures !InFront(EchoRows(rows, disk, epoch), c, now)
  {
    var kept := EchoRows(rows, disk, epoch);
    var acc := AcceptedRows(kept, now);
    EchoRowsMeaning(rows, disk, epoch);
    AcceptedFrom(kept, now);
    forall i | 0 <= i < |acc| ensures KeyOf(acc[i]) != KeyOf(c) {
      assert acc[i] in acc;
      assert !Fenced(disk, acc[i], epoch);
    }
    Recency.MostRecentKeys(acc, KeyOf);
    var m := Recency.MostRecentDistinct(acc, KeyOf);
    assert !Recency.HasKey(m, KeyOf, KeyOf(c));
  }

  /** An echo of at most 500 rows is re-applied whole. */
  lemma {:induction false} SmallEchoInFront(rows: seq<Cookie>, disk: Profiles, epoch: nat, c: Cookie, now: nat)
    requires |rows| <= TIER1_COOKIE_MAX && c in rows && Accepted(c, now) && FoldDomain(c.domain) !in disk
    ensures InFront(EchoRows(rows, disk, epoch), c, now)
  {
    var kept := EchoRows(rows, disk, epoch);
    var acc := AcceptedRows(kept, now);
    EchoRowsMeaning(rows, disk, epoch);
    AcceptedFrom(kept, now);
    FewerRows(rows, disk, epoch, now);
    MostRecentFits(acc);
    Recency.MostRecentKeys(acc, KeyOf);
    var i :| 0 <= i < |acc| && acc[i] == c;
    assert Recency.HasKey(acc, KeyOf, KeyOf(c));
  }

  lemma {:induction false} FewerRows(rows: seq<Cookie>, disk: Profiles, epoch: nat, now: nat)
    ensures |AcceptedRows(EchoRows(rows, disk, epoch), now)| <= |EchoRows(rows, disk, epoch)| <= |rows|
  {
    FewerAccepted(EchoRows(rows, disk, epoch), now);
    FewerEchoed(rows, disk, epoch);
  }

  lemma {:induction false} FewerAccepted(rows: seq<Cookie>, now: nat)
    ensures |AcceptedRows(rows, now)| <= |rows|
  {
    if rows != [] { FewerAccepted(rows[1..], now); }
  }

  lemma {:induction false} FewerEchoed(rows: seq<Cookie>, disk: Profiles, epoch: nat)
    ensures |EchoRows(rows, disk, epoch)| <= |rows|
  {
    if rows != [] { FewerEchoed(rows[1..], disk, epoch); }
  }

  lemma {:induction false} MostRecentFits(rows: seq<Cookie>)
    ensures |Recency.MostRecentDistinct(rows, KeyOf)| <= |rows|
  {
    if rows != [] { MostRecentFits(rows[1..]); }
  }
}
