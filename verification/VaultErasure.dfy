/** Deleting the snapshots from a run leaves its on-disk session vault. */
module VaultErasure {
  import opened Options
  import opened Lists
  import Sorting
  import opened Tier1Jar
  import opened SessionVault
  import opened RouteMemory
  import opened GhostStore
  import opened VaultProtocol
  import opened VaultInvariant

  /** The rows a helper's write leaves, from the rows it loaded. */
  ghost function HelperVault(g: Hygiene, v: Vault, t: Step, now: nat): Vault
    requires IsHelper(t)
  {
    if Trivial(t) then v
    else
      match t
      case HarvestCookies(cookies, order, _, _) => Harvest(g, v, cookies, order, now)
      case StoreLogin(cookies, _, _) =>
        var r := SessionVault.Login(g, v, cookies, 0, now);
        if r.Refused? then v else r.vault
      case Logout(domain, _, _) => LogoutCookies(v, LogoutKey(domain))
      case NewIdentity(_, _) => v
  }

  lemma {:induction false} LoadedVault(g: Hygiene, disk: State, now: nat)
    requires disk.pending == None
    ensures VaultOf(Loaded(g, disk, {}, now).profiles) == Pruned(g, VaultOf(disk.profiles), now)
  {
  }

  lemma {:induction false} WrittenProfiles(edit: State, loaded: State, now: nat)
    requires loaded.vaultEpoch <= edit.vaultEpoch && edit.pending == None
    ensures Written(Some(edit), loaded, {}, now).profiles == edit.profiles
  {
  }

  /** A helper's edit is what reaches disk. */
  lemma {:induction false} EditReachesDisk(g: Hygiene, disk: State, t: Step, now: nat)
    requires IsHelper(t) && NoEviction(t) && !Trivial(t) && disk.pending == None && StampsBelow(disk) && disk.vaultEpoch <= EPOCH_MAX
    requires HelperEdit(g, Loaded(g, disk, {}, now), t, now).Some?
    ensures var d, m := HelperDisk(g, disk, t, now), HelperEdit(g, Loaded(g, disk, {}, now), t, now).value;
      d.profiles == m.profiles && d.vaultEpoch == m.vaultEpoch && d.tier1 == m.tier1
  {
    var s := Loaded(g, disk, {}, now);
    LoadedFacts(g, disk, {}, now);
    EditOrder(g, s, t, now);
    var m := HelperEdit(g, s, t, now).value;
    WrittenProfiles(m, s, now);
    PersistedForward(m, s, {}, now);
  }

  lemma {:induction false} LoginRows(g: Hygiene, s: State, cs: seq<Cookie>, t: Step, now: nat)
    requires t.StoreLogin? && t.cookies == cs && s.vaultEpoch <= EPOCH_MAX - 2 && s.pending == None
    ensures SameRows(VaultOf(Written(LoginEdit(g, s, cs, now), s, {}, now).profiles), HelperVault(g, VaultOf(s.profiles), t, now))
  {
    var edit, v := LoginEdit(g, s, cs, now), VaultOf(s.profiles);
    if edit.Some? {
      WrittenProfiles(edit.value, s, now);
      var r := SessionVault.Login(g, v, cs, s.vaultEpoch, now);
      assert VaultOf(edit.value.profiles) == r.vault;
      LoginRowsOf(g, v, cs, s.vaultEpoch, now);
    } else {
      LoginRefusals(g, v, cs, s.vaultEpoch, now);
    }
  }

  /** The stamp a login sets changes no row. */
  lemma {:induction false} LoginRowsOf(g: Hygiene, v: Vault, cs: seq<Cookie>, epoch: nat, now: nat)
    requires SessionVault.Login(g, v, cs, epoch, now).Stored? && epoch <= EPOCH_MAX - 2
    ensures SessionVault.Login(g, v, cs, 0, now).Stored?
    ensures SameRows(SessionVault.Login(g, v, cs, epoch, now).vault, SessionVault.Login(g, v, cs, 0, now).vault)
  {
  }

  lemma {:induction false} LoginRefusals(g: Hygiene, v: Vault, cs: seq<Cookie>, epoch: nat, now: nat)
    requires SessionVault.Login(g, v, cs, epoch, now).Refused? && epoch <= EPOCH_MAX - 2
    ensures SessionVault.Login(g, v, cs, 0, now).Refused?
  {
  }

  lemma {:induction false} LogoutRows(g: Hygiene, s: State, t: Step, now: nat)
    requires t.Logout? && !Trivial(t) && s.vaultEpoch < EPOCH_MAX && s.pending == None
    ensures SameRows(VaultOf(Written(LogoutEdit(s, LogoutKey(t.domain)), s, {}, now).profiles),
                     HelperVault(g, VaultOf(s.profiles), t, now))
  {
    var edit := LogoutEdit(s, LogoutKey(t.domain));
    LogoutRowsOf(s, LogoutKey(t.domain));
    if edit.Some? { WrittenProfiles(edit.value, s, now); }
  }

  /** The stamp a logout sets changes no row. */
  lemma {:induction false} LogoutRowsOf(s: State, key: string)
    ensures var edit, v := LogoutEdit(s, key), LogoutCookies(VaultOf(s.profiles), key);
      && (edit.None? ==> v == VaultOf(s.profiles))
      && (edit.Some? ==> edit.value.vaultEpoch == BumpEpoch(s.vaultEpoch) && edit.value.pending == s.pending
                         && SameRows(VaultOf(edit.value.profiles), v))
  {
    var edit, v := LogoutEdit(s, key), LogoutCookies(VaultOf(s.profiles), key);
    if edit.Some? {
      var u := StampCleared(v, key, edit.value.vaultEpoch);
      WithVaultRoundTrip(s.profiles, u);
      forall h ensures RowsAt(u, h) == RowsAt(v, h) {
      }
    }
  }

  lemma {:induction false} HelperRows(g: Hygiene, disk: State, t: Step, now: nat)
    requires IsHelper(t) && !Trivial(t) && NoEviction(t) && disk.pending == None && disk.vaultEpoch <= EPOCH_MAX - 2
    ensures SameRows(VaultOf(HelperDisk(g, disk, t, now).profiles),
                     HelperVault(g, Pruned(g, VaultOf(disk.profiles), now), t, now))
  {
    var s := Loaded(g, disk, {}, now);
    LoadedFacts(g, disk, {}, now);
    LoadedVault(g, disk, now);
    match t
    case HarvestCookies(cookies, order, _, _) =>
      WrittenProfiles(HarvestEdit(g, s, cookies, order, now), s, now);
      WithVaultRoundTrip(s.profiles, Harvest(g, VaultOf(s.profiles), cookies, order, now));
    case StoreLogin(cookies, _, _) => LoginRows(g, s, cookies, t, now);
    case Logout(_, _, _) => LogoutRows(g, s, t, now);
    case NewIdentity(_, _) => WrittenProfiles(s.(vaultEpoch := BumpEpoch(s.vaultEpoch)), s, now);
  }

  // ---- What a helper reads of the disk ----

  /** The automatic hosts that hold cookies: those the cap can cut. */
  function Cuttable(v: Vault): set<string> { set h | h in v && !v[h].explicit && v[h].cookies != [] }

  /** Both copies rank the hosts by their last solves alike. */
  ghost predicate SameRanks(hosts: set<string>, ps: Profiles, qs: Profiles)
  {
    forall h, k :: h in hosts && k in hosts ==>
      (SolvedAt(ps, h) <= SolvedAt(ps, k) <==> SolvedAt(qs, h) <= SolvedAt(qs, k))
  }

  lemma {:induction false} EnumeratesReadsRows(v: Vault, w: Vault, order: seq<string>)
    requires SameRows(v, w) && EnumeratesAuto(v, order)
    ensures EnumeratesAuto(w, order) && Cuttable(v) == Cuttable(w)
  {
    forall h ensures h in Cuttable(v) <==> h in Cuttable(w) {
      assert RowsAt(v, h) == RowsAt(w, h);
    }
    forall h ensures h in order <==> h in w && !w[h].explicit && w[h].cookies != [] {
      assert h in order <==> h in Cuttable(v);
    }
  }

  lemma {:induction false} OrderReadsRanks(v: Vault, w: Vault, ps: Profiles, qs: Profiles, order: seq<string>)
    requires SameRows(v, w) && SameRanks(Cuttable(v), ps, qs) && SolveOrder(v, ps, order)
    ensures SolveOrder(w, qs, order)
  {
    EnumeratesReadsRows(v, w, order);
    forall i, j | 0 <= i < j < |order| ensures SolvedAt(qs, order[i]) <= SolvedAt(qs, order[j]) {
      assert order[i] in Cuttable(v) && order[j] in Cuttable(v);
    }
  }

  /** The hosts by last solve, `host` after every other host solved with it. */
  function Behind(ps: Profiles, host: string): (string, string) -> bool
  {
    (a, b) => 2 * SolvedAt(ps, a) + (if a == host then 1 else 0) <= 2 * SolvedAt(ps, b) + (if b == host then 1 else 0)
  }

  /** Some order of the code puts a host behind every other that was solved no
      later. */
  lemma {:induction false} OrderWithBehind(v: Vault, ps: Profiles, hosts: seq<string>, h: string, k: string) returns (order: seq<string>)
    requires EnumeratesAuto(v, hosts) && h in hosts && k in hosts && h != k && SolvedAt(ps, k) <= SolvedAt(ps, h)
    ensures SolveOrder(v, ps, order)
    ensures exists i, j :: 0 <= i < j < |order| && order[i] == k && order[j] == h
  {
    var le := Behind(ps, h);
    order := Sorting.Sort(hosts, le);
    Sorting.SortPermutes(hosts, le);
    Sorting.SortSorts(hosts, le);
    PermutedOnce(hosts, order);
    var i :| 0 <= i < |order| && order[i] == k;
    var j :| 0 <= j < |order| && order[j] == h;
    assert !le(order[j], order[i]);
    forall a, b | 0 <= a < b < |order| ensures SolvedAt(ps, order[a]) <= SolvedAt(ps, order[b]) {
      assert le(order[a], order[b]);
    }
  }

  /** The code may cut two copies in the same orders exactly when they rank the
      hosts it can cut alike. */
  lemma {:induction false} RanksDecide(v: Vault, w: Vault, ps: Profiles, qs: Profiles, hosts: seq<string>)
    requires SameRows(v, w) && EnumeratesAuto(v, hosts)
    ensures (forall order :: SolveOrder(v, ps, order) <==> SolveOrder(w, qs, order)) <==> SameRanks(Cuttable(v), ps, qs)
  {
    EnumeratesReadsRows(v, w, hosts);
    if SameRanks(Cuttable(v), ps, qs) {
      forall order ensures SolveOrder(v, ps, order) <==> SolveOrder(w, qs, order) {
        if SolveOrder(v, ps, order) { OrderReadsRanks(v, w, ps, qs, order); }
        if SolveOrder(w, qs, order) { OrderReadsRanks(w, v, qs, ps, order); }
      }
    } else {
      var h, k :| h in Cuttable(v) && k in Cuttable(v) &&
        !(SolvedAt(ps, h) <= SolvedAt(ps, k) <==> SolvedAt(qs, h) <= SolvedAt(qs, k));
      if SolvedAt(ps, h) <= SolvedAt(ps, k) {
        RankedApart(v, w, ps, qs, hosts, k, h);
      } else {
        RankedApart(w, v, qs, ps, hosts, k, h);
      }
    }
  }

  /** If one copy may have `h` before `k` and the other must not, some order
      tells them apart. */
  lemma {:induction false} RankedApart(v: Vault, w: Vault, ps: Profiles, qs: Profiles, hosts: seq<string>, k: string, h: string)
    requires EnumeratesAuto(v, hosts) && h in hosts && k in hosts
    requires SolvedAt(ps, h) <= SolvedAt(ps, k) && SolvedAt(qs, k) < SolvedAt(qs, h)
    ensures exists order :: SolveOrder(v, ps, order) && !SolveOrder(w, qs, order)
  {
    var order := OrderWithBehind(v, ps, hosts, k, h);
    var i, j :| 0 <= i < j < |order| && order[i] == h && order[j] == k;
    assert SolvedAt(qs, order[i]) > SolvedAt(qs, order[j]);
  }

  /** The vault a harvest would cap. */
  ghost function Uncapped(g: Hygiene, disk: State, t: Step, now: nat): Vault
    requires t.HarvestCookies?
  {
    HarvestAll(g, Pruned(g, VaultOf(disk.profiles), now), t.cookies, now)
  }

  /** A helper's outcome depends on the live vault rows of the disk alone, but
      for a harvest, which also reads how the last solves rank the hosts it can
      cut: with both alike, whatever it may do on one disk it may do on the
      other, and it leaves the same vault. */
  lemma {:induction false} HelperReadsVault(g: Hygiene, d: State, e: State, t: Step, now: nat)
    requires IsHelper(t) && NoEviction(t) && d.pending == e.pending == None
    requires StampsBelow(d) && StampsBelow(e) && d.vaultEpoch <= EPOCH_MAX - 2 && e.vaultEpoch <= EPOCH_MAX - 2
    requires SameSessions(g, d.profiles, e.profiles, now) && LawfulHelper(g, d, t, now)
    requires t.HarvestCookies? ==> SameRanks(Cuttable(Uncapped(g, d, t, now)), d.profiles, e.profiles)
    ensures LawfulHelper(g, e, t, now)
    ensures SameSessions(g, HelperDisk(g, d, t, now).profiles, HelperDisk(g, e, t, now).profiles, now)
  {
    if t.HarvestCookies? && !Trivial(t) {
      LoadedVault(g, d, now);
      LoadedVault(g, e, now);
      LoadedFacts(g, d, {}, now);
      LoadedFacts(g, e, {}, now);
      ReadFacts(g, d, now);
      ReadFacts(g, e, now);
      SameVaultPruned(g, VaultOf(d.profiles), VaultOf(e.profiles), now);
      HarvestAllReadsRows(g, Pruned(g, VaultOf(d.profiles), now), Pruned(g, VaultOf(e.profiles), now), t.cookies, now);
      OrderReadsRanks(Uncapped(g, d, t, now), Uncapped(g, e, t, now), Loaded(g, d, {}, now).profiles, Loaded(g, e, {}, now).profiles, t.order);
    }
    if !Trivial(t) {
      RowsDecide(g, d, e, t, now);
    }
  }

  /** Once the step is fixed, orders included, only the rows matter. */
  lemma {:induction false} RowsDecide(g: Hygiene, d: State, e: State, t: Step, now: nat)
    requires IsHelper(t) && NoEviction(t) && !Trivial(t) && d.pending == e.pending == None
    requires d.vaultEpoch <= EPOCH_MAX - 2 && e.vaultEpoch <= EPOCH_MAX - 2
    requires SameSessions(g, d.profiles, e.profiles, now)
    ensures SameSessions(g, HelperDisk(g, d, t, now).profiles, HelperDisk(g, e, t, now).profiles, now)
  {
    HelperRows(g, d, t, now);
    HelperRows(g, e, t, now);
    var v, w := Pruned(g, VaultOf(d.profiles), now), Pruned(g, VaultOf(e.profiles), now);
    SameVaultPruned(g, VaultOf(d.profiles), VaultOf(e.profiles), now);
    match t {
      case HarvestCookies(cookies, order, _, _) => HarvestReadsRows(g, v, w, cookies, order, now);
      case StoreLogin(cookies, _, _) => LoginReadsRows(g, v, w, cookies, 0, 0, now);
      case Logout(domain, _, _) => LogoutReadsRows(v, w, LogoutKey(domain));
      case NewIdentity(_, _) =>
    }
    var a, b := VaultOf(HelperDisk(g, d, t, now).profiles), VaultOf(HelperDisk(g, e, t, now).profiles);
    SameRowsTrans(a, HelperVault(g, v, t, now), HelperVault(g, w, t, now));
    SameRowsTrans(a, HelperVault(g, w, t, now), b);
    SameRowsSameVault(g, a, b, now);
  }

  /** Up to 500 automatic cookies the cap cuts nothing, and the last solves do
      not matter either: harvests in any two orders leave the same vault. */
  lemma {:induction false} SmallHarvestsIgnoreOrder(g: Hygiene, d: State, e: State, t: Step, order: seq<string>, now: nat)
    requires t.HarvestCookies? && NoEviction(t) && !Trivial(t) && d.pending == e.pending == None
    requires d.vaultEpoch <= EPOCH_MAX - 2 && e.vaultEpoch <= EPOCH_MAX - 2
    requires SameSessions(g, d.profiles, e.profiles, now)
    requires Total(Uncapped(g, e, t, now), AutoHosts(Uncapped(g, e, t, now))) <= SESSION_MAX
    ensures SameSessions(g, HelperDisk(g, d, t, now).profiles, HelperDisk(g, e, t.(order := order), now).profiles, now)
  {
    var u := t.(order := order);
    RowsDecide(g, d, e, t, now);
    HelperRows(g, e, t, now);
    HelperRows(g, e, u, now);
    var v := Pruned(g, VaultOf(e.profiles), now);
    assert HelperVault(g, v, t, now) == HelperVault(g, v, u, now) == Uncapped(g, e, t, now);
    var a, b := VaultOf(HelperDisk(g, e, t, now).profiles), VaultOf(HelperDisk(g, e, u, now).profiles);
    SameRowsTrans(a, HelperVault(g, v, t, now), b);
    SameRowsSameVault(g, a, b, now);
    SameSessionsTrans(g, HelperDisk(g, d, t, now).profiles, HelperDisk(g, e, t, now).profiles, HelperDisk(g, e, u, now).profiles, now);
  }

  // ---- Every copy keeps the last solves ----

  lemma {:induction false} WithVaultSolves(ps: Profiles, v: Vault)
    requires ps.Keys <= v.Keys
    ensures SameSolves(WithVault(ps, v), ps)
  {
  }

  lemma {:induction false} SaveKeepsSolves(s: State, disk: State, now: nat)
    requires SameSolves(s.profiles, disk.profiles)
    ensures SameSolves(Persisted(s, disk, {}, now).profiles, disk.profiles)
  {
    assert s.profiles - {} == s.profiles;
    forall h ensures SolvedAt(Persisted(s, disk, {}, now).profiles, h) == SolvedAt(disk.profiles, h) {
      assert SolvedAt(s.profiles, h) == SolvedAt(disk.profiles, h);
    }
  }

  lemma {:induction false} LoadKeepsSolves(g: Hygiene, disk: State, now: nat)
    requires disk.pending == None
    ensures SameSolves(Loaded(g, disk, {}, now).profiles, disk.profiles)
  {
    ReadFacts(g, disk, now);
    LoadedFacts(g, disk, {}, now);
  }

  lemma {:induction false} EditKeepsSolves(g: Hygiene, s: State, t: Step, now: nat)
    requires IsHelper(t) && HelperEdit(g, s, t, now).Some?
    ensures SameSolves(HelperEdit(g, s, t, now).value.profiles, s.profiles)
  {
    var v := VaultOf(s.profiles);
    match t
    case HarvestCookies(cookies, order, _, _) =>
      HarvestKeepsStamps(g, v, cookies, order, now);
      WithVaultSolves(s.profiles, Harvest(g, v, cookies, order, now));
    case StoreLogin(cookies, _, _) =>
      LoginAllKeepsStamps(g, v, cookies, now);
      var u := SessionVault.Login(g, v, cookies, s.vaultEpoch, now).vault;
      WithVaultSolves(s.profiles, u);
      RearmKeepsSolves(WithVault(s.profiles, u), cookies, now);
    case Logout(domain, _, _) =>
      WithVaultSolves(s.profiles, StampCleared(LogoutCookies(v, LogoutKey(domain)), LogoutKey(domain), BumpEpoch(s.vaultEpoch)));
    case NewIdentity(_, _) =>
  }

  lemma {:induction false} RearmKeepsSolves(ps: Profiles, cs: seq<Cookie>, now: nat)
    ensures SameSolves(RearmHosts(ps, cs, now), ps)
  {
  }

  lemma {:induction false} HelperKeepsSolves(g: Hygiene, disk: State, t: Step, now: nat)
    requires IsHelper(t) && NoEviction(t) && disk.pending == None && StampsBelow(disk) && disk.vaultEpoch <= EPOCH_MAX
    ensures SameSolves(HelperDisk(g, disk, t, now).profiles, disk.profiles)
  {
    if !Trivial(t) {
      var s := Loaded(g, disk, {}, now);
      LoadKeepsSolves(g, disk, now);
      LoadedFacts(g, disk, {}, now);
      if HelperEdit(g, s, t, now).Some? {
        EditKeepsSolves(g, s, t, now);
        EditOrder(g, s, t, now);
        WrittenProfiles(HelperEdit(g, s, t, now).value, s, now);
      }
    }
  }

  /** Every snapshot knows the same last solves as disk. */
  ghost predicate SolvesAgree(w: World)
  {
    forall i :: i in w.snaps ==> SameSolves(w.snaps[i].profiles, w.disk.profiles)
  }

  /** No step moves a last solve, on disk or in any snapshot. */
  lemma {:induction false} StepKeepsSolves(g: Hygiene, w: World, t: Step)
    requires Ordered(w) && SolvesAgree(w) && NoEviction(t) && Lawful(g, w, t)
    ensures SolvesAgree(Next(g, w, t)) && SameSolves(Next(g, w, t).disk.profiles, w.disk.profiles)
  {
    if IsHelper(t) {
      HelperKeepsSolves(g, w.disk, t, w.now);
    } else if t.Boot? {
      ReadFacts(g, w.disk, w.now);
    } else if !t.Tick? && t.id in w.snaps {
      var s := w.snaps[t.id];
      assert SameSolves(s.profiles, w.disk.profiles);
      if t.Save? {
        SaveKeepsSolves(s, w.disk, w.now);
      } else if t.Learn? {
        LearnKeepsSolves(s.profiles, t.routes);
      }
    }
  }

  lemma {:induction false} LearnKeepsSolves(ps: Profiles, routes: map<string, RoutePart>)
    requires forall h :: h in routes ==> Reachable(ProfileOf(ps, h).route, routes[h])
    ensures SameSolves(Learned(ps, routes), ps)
  {
    forall h ensures SolvedAt(Learned(ps, routes), h) == SolvedAt(ps, h) {
      if h in routes { ReachableKeepsSolve(ProfileOf(ps, h).route, routes[h]); }
    }
  }

  // ---- Erasing the snapshots ----

  /** The run as if no snapshot had ever lived: helper writes and the clock. */
  function WithoutSnapshots(steps: seq<Step>): seq<Step>
  {
    if steps == [] then []
    else
      (if IsHelper(steps[0]) || steps[0].Tick? then [steps[0]] else []) + WithoutSnapshots(steps[1..])
  }

  lemma {:induction false} SameSessionsTrans(g: Hygiene, ps: Profiles, qs: Profiles, rs: Profiles, now: nat)
    requires SameSessions(g, ps, qs, now) && SameSessions(g, qs, rs, now)
    ensures SameSessions(g, ps, rs, now)
  {
  }

  /** Room for every step of a run below the last epoch (a step adds at most two). */
  predicate Room(w: World, steps: seq<Step>) { w.disk.vaultEpoch + 2 * |steps| <= EPOCH_MAX - 2 }

  /** The vault on disk is the sequential composition of the helper writes
      alone: deleting every snapshot's steps from a run of the code leaves a run
      of the code, and the same vault. */
  lemma {:induction false} SnapshotsErase(g: Hygiene, w: World, w0: World, steps: seq<Step>)
    requires Inv(g, w) && Ordered(w0) && w.now == w0.now
    requires SolvesAgree(w) && SameSolves(w.disk.profiles, w0.disk.profiles)
    requires SameSessions(g, w.disk.profiles, w0.disk.profiles, w.now)
    requires LawfulRun(g, w, steps) && forall t :: t in steps ==> NoEviction(t)
    requires Room(w, steps) && Room(w0, steps) && w0.snaps == map[]
    ensures LawfulRun(g, w0, WithoutSnapshots(steps))
    ensures var end, end0 := Run(g, w, steps), Run(g, w0, WithoutSnapshots(steps));
      end.now == end0.now && SameSessions(g, end.disk.profiles, end0.disk.profiles, end.now)
    decreases |steps|
  {
    if steps != [] {
      var t, rest := steps[0], steps[1..];
      var w' := Next(g, w, t);
      StepOrdered(g, w, t);
      StepKeepsInv(g, w, t);
      StepKeepsSolves(g, w, t);
      if IsHelper(t) || t.Tick? {
        SharedStep(g, w, w0, t);
        var kept := WithoutSnapshots(rest);
        assert ([t] + kept)[0] == t && ([t] + kept)[1..] == kept;
        SnapshotsErase(g, w', Next(g, w0, t), rest);
      } else {
        SnapshotsKeepVault(g, w, t);
        AgreeSameSessions(g, w'.disk.profiles, w.disk.profiles, w.now);
        SameSessionsTrans(g, w'.disk.profiles, w.disk.profiles, w0.disk.profiles, w.now);
        assert WithoutSnapshots(steps) == WithoutSnapshots(rest);
        SnapshotsErase(g, w', w0, rest);
      }
    }
  }

  /** A step both runs take keeps their disks alike. */
  lemma {:induction false} SharedStep(g: Hygiene, w: World, w0: World, t: Step)
    requires Ordered(w) && Ordered(w0) && w.now == w0.now && NoEviction(t) && (IsHelper(t) || t.Tick?)
    requires w.disk.vaultEpoch <= EPOCH_MAX - 2 && w0.disk.vaultEpoch <= EPOCH_MAX - 2
    requires SolvesAgree(w) && SameSolves(w.disk.profiles, w0.disk.profiles) && w0.snaps == map[]
    requires SameSessions(g, w.disk.profiles, w0.disk.profiles, w.now) && Lawful(g, w, t)
    ensures var w', w0' := Next(g, w, t), Next(g, w0, t);
      && Lawful(g, w0, t) && Ordered(w0') && w0'.disk.vaultEpoch <= w0.disk.vaultEpoch + 2
      && w0'.snaps == map[] && w'.now == w0'.now
      && SameSolves(w'.disk.profiles, w0'.disk.profiles) && SameSessions(g, w'.disk.profiles, w0'.disk.profiles, w'.now)
  {
    StepOrdered(g, w0, t);
    if IsHelper(t) {
      HelperReadsVault(g, w.disk, w0.disk, t, w.now);
      HelperKeepsSolves(g, w.disk, t, w.now);
      HelperKeepsSolves(g, w0.disk, t, w.now);
      forall h ensures SolvedAt(Next(g, w, t).disk.profiles, h) == SolvedAt(Next(g, w0, t).disk.profiles, h) {
        assert SolvedAt(w.disk.profiles, h) == SolvedAt(w0.disk.profiles, h);
      }
    } else {
      SameVaultLater(g, VaultOf(w.disk.profiles), VaultOf(w0.disk.profiles), w.now, w.now + t.secs);
    }
  }
}
