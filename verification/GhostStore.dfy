/** The state file of src/state.rs as a value: what loading, reconciling,
    saving and the vault helpers make of it. The disk holds one such value. */
module GhostStore {
  import opened Options
  import opened Numbers
  import opened Tier1Jar
  import opened SessionVault
  import opened RouteMemory

  datatype DomainProfile = DomainProfile(session: SessionPart, route: RoutePart)

  const NEW_PROFILE: DomainProfile := DomainProfile(NO_SESSION, NEW_ROUTE)

  type Profiles = map<string, DomainProfile>

  /** A stashed tier-1 flush: the vault epoch it was taken at, and its rows. */
  datatype Echo = Echo(epoch: nat, rows: seq<Cookie>)

  /** `pending` lives in memory only; the state on disk has none. */
  datatype State = State(
    profiles: Profiles, tier1: seq<Cookie>, vaultEpoch: nat,
    probesTotal: nat, prewarmedTotal: nat, pending: Option<Echo>)

  const PROFILE_CAP: nat := 10_000

  function ProfileOf(ps: Profiles, host: string): DomainProfile { if host in ps then ps[host] else NEW_PROFILE }

  function VaultOf(ps: Profiles): Vault { map h | h in ps :: ps[h].session }

  /** `ps` with its session parts replaced by `v`; new hosts get a new profile. */
  function WithVault(ps: Profiles, v: Vault): Profiles
  {
    map h | h in v :: ProfileOf(ps, h).(session := v[h])
  }

  function BumpEpoch(e: nat): nat { if e < EPOCH_MAX then e + 1 else e }

  // ---- Reconciliation ----

  /** Disk's session parts win; hosts only disk knows come along whole. */
  function Adopt(mine: Profiles, disk: Profiles): Profiles
  {
    map h | h in mine.Keys + disk.Keys ::
      if h !in disk then mine[h]
      else if h in mine then mine[h].(session := disk[h].session)
      else disk[h]
  }

  function MergeVault(s: State, disk: State): State
  {
    if disk.vaultEpoch <= s.vaultEpoch then s
    else s.(profiles := Adopt(s.profiles, disk.profiles), tier1 := disk.tier1, vaultEpoch := disk.vaultEpoch)
  }

  /** A session clear on disk that postdates the flush drops its host's rows. */
  predicate Fenced(disk: Profiles, c: Cookie, epoch: nat)
  {
    var host := FoldDomain(c.domain);
    host in disk && disk[host].session.cleared > epoch
  }

  function EchoRows(rows: seq<Cookie>, disk: Profiles, epoch: nat): seq<Cookie>
  {
    if rows == [] then []
    else (if Fenced(disk, rows[0], epoch) then [] else [rows[0]]) + EchoRows(rows[1..], disk, epoch)
  }

  function ApplyEcho(s: State, disk: State, now: nat): State
  {
    if s.pending.None? then s
    else
      var echo := s.pending.value;
      s.(tier1 := Merge(s.tier1, EchoRows(echo.rows, disk.profiles, echo.epoch), now),
         vaultEpoch := BumpEpoch(s.vaultEpoch), pending := None)
  }

  /** What a save leaves both in memory and on disk, once `victims` are evicted. */
  function Persisted(s: State, disk: State, victims: set<string>, now: nat): State
  {
    var counted := s.(profiles := s.profiles - victims,
                      probesTotal := Max(s.probesTotal, disk.probesTotal),
                      prewarmedTotal := Max(s.prewarmedTotal, disk.prewarmedTotal));
    ApplyEcho(MergeVault(counted, disk), disk, now)
  }

  // ---- Eviction past the cap ----

  function LastActivity(p: DomainProfile, now: nat): nat
  {
    var r := p.route;
    var lastFailure := if r.failures == [] then 0 else r.failures[|r.failures| - 1].at;
    Min(Max(r.lastSolved, Max(r.lastRefreshed, Max(r.lastColdCheck, Max(r.lastWallFail, lastFailure)))), now)
  }

  function SessionFree(ps: Profiles): set<string> { set h | h in ps && ps[h].session.cookies == [] }

  /** Past the cap, the coldest hosts without vaulted cookies go; otherwise none. */
  ghost predicate Evicts(ps: Profiles, victims: set<string>, now: nat)
  {
    var free := SessionFree(ps);
    if |ps| <= PROFILE_CAP then victims == {}
    else
      && victims <= free
      && |victims| == Min(|ps| - PROFILE_CAP, |free|)
      && forall v, f :: v in victims && f in free - victims ==> LastActivity(ps[v], now) <= LastActivity(ps[f], now)
  }

  function Times(r: RoutePart): seq<nat>
  {
    [r.lastSolved, r.lastRefreshed, r.lastColdCheck, r.lastWallFail,
     if r.failures == [] then 0 else r.failures[|r.failures| - 1].at]
  }

  /** When anything of a profile's route memory was last touched. */
  lemma {:induction false} LastActivityIsLatest(p: DomainProfile, now: nat)
    ensures var a, times := LastActivity(p, now), Times(p.route);
      && (forall i :: 0 <= i < |times| ==> Min(times[i], now) <= a)
      && (exists i :: 0 <= i < |times| && Min(times[i], now) == a)
  {
    var times := Times(p.route);
    var k := LatestOf(times);
    assert LastActivity(p, now) == Min(times[k], now);
    forall i | 0 <= i < |times| ensures Min(times[i], now) <= Min(times[k], now) {
      assert times[i] <= times[k];
    }
  }

  lemma {:induction false} LatestOf(times: seq<nat>) returns (i: nat)
    requires |times| == 5
    ensures i < 5 && forall j :: 0 <= j < 5 ==> times[j] <= times[i]
    ensures times[i] == Max(times[0], Max(times[1], Max(times[2], Max(times[3], times[4]))))
  {
    i := 0;
    for k := 1 to 5
      invariant i < k && forall j :: 0 <= j < k ==> times[j] <= times[i]
    {
      if times[k] > times[i] { i := k; }
    }
  }

  // ---- Loading ----

  function Clearance(cs: seq<Cookie>): seq<Cookie>
  {
    if cs == [] then [] else (if IsClearance(cs[0].name) then [cs[0]] else []) + Clearance(cs[1..])
  }

  /** Averages outside [0, 1] are not evidence and restart clean. */
  function HealRoute(r: RoutePart): RoutePart
  {
    r.(cookies := Clearance(r.cookies),
       t1Ewma := if InUnit(r.t1Ewma) then r.t1Ewma else 1.0,
       warmEwma := if InUnit(r.warmEwma) then r.warmEwma else 1.0)
  }

  function HealProfile(g: Hygiene, p: DomainProfile, now: nat): DomainProfile
  {
    DomainProfile(p.session.(cookies := Kept(g, p.session.cookies, now)), HealRoute(p.route))
  }

  function Healed(g: Hygiene, ps: Profiles, now: nat): Profiles
  {
    map h | h in ps :: HealProfile(g, ps[h], now)
  }

  /** The snapshot a load makes of the file, before it saves what it cleaned. */
  function ReadIn(g: Hygiene, disk: State, now: nat): State { disk.(profiles := Healed(g, disk.profiles, now)) }

  /** A load that cleans anything saves what it cleaned; under the lock memory
      and disk leave it equal. */
  function Loaded(g: Hygiene, disk: State, victims: set<string>, now: nat): State
  {
    var s := ReadIn(g, disk, now);
    if s.profiles == disk.profiles then s else Persisted(s, disk, victims, now)
  }

  ghost predicate LoadEvicts(g: Hygiene, disk: State, victims: set<string>, now: nat)
  {
    var ps := Healed(g, disk.profiles, now);
    if ps == disk.profiles then victims == {} else Evicts(ps, victims, now)
  }

  // ---- Helpers: load, edit, save under one lock ----

  function SyncTier1(s: State, rows: seq<Cookie>, now: nat): State
  {
    s.(pending := Some(Echo(s.vaultEpoch, rows)), tier1 := Merge(s.tier1, rows, now))
  }

  // ---- The order of the session cap ----

  function SolvedAt(ps: Profiles, host: string): nat { ProfileOf(ps, host).route.lastSolved }

  /** `order` lists the vault's automatic hosts by their last solve. */
  ghost predicate SolveOrder(v: Vault, ps: Profiles, order: seq<string>)
  {
    && EnumeratesAuto(v, order)
    && forall i, j :: 0 <= i < j < |order| ==> SolvedAt(ps, order[i]) <= SolvedAt(ps, order[j])
  }

  /** Both copies solved every host at the same time. */
  ghost predicate SameSolves(ps: Profiles, qs: Profiles) { forall h :: SolvedAt(ps, h) == SolvedAt(qs, h) }

  ghost function HarvestEdit(g: Hygiene, s: State, cs: seq<Cookie>, order: seq<string>, now: nat): State
  {
    s.(profiles := WithVault(s.profiles, Harvest(g, VaultOf(s.profiles), cs, order, now)),
       vaultEpoch := BumpEpoch(s.vaultEpoch))
  }

  function RearmHosts(ps: Profiles, cs: seq<Cookie>, now: nat): Profiles
  {
    map h | h in ps ::
      if Affected(cs, h) then ps[h].(route := Observe(ps[h].route, RouteMemory.Login, now)) else ps[h]
  }

  ghost function LoginEdit(g: Hygiene, s: State, cs: seq<Cookie>, now: nat): Option<State>
  {
    var r := SessionVault.Login(g, VaultOf(s.profiles), cs, s.vaultEpoch, now);
    if r.Refused? then None
    else
      Some(s.(profiles := RearmHosts(WithVault(s.profiles, r.vault), cs, now),
              vaultEpoch := BumpEpoch(BumpEpoch(s.vaultEpoch))))
  }

  /** None when nothing belonged to the domain: such a logout saves nothing. */
  function LogoutEdit(s: State, key: string): Option<State>
  {
    var v := LogoutCookies(VaultOf(s.profiles), key);
    var jar := WithoutDomain(s.tier1, key);
    if v == VaultOf(s.profiles) && jar == s.tier1 then None
    else
      var stamp := BumpEpoch(s.vaultEpoch);
      Some(s.(profiles := WithVault(s.profiles, StampCleared(v, key, stamp)), tier1 := jar, vaultEpoch := stamp))
  }

  /** Enough of a helper's edit for the save that follows it. */
  function Written(edit: Option<State>, loaded: State, victims: set<string>, now: nat): State
  {
    if edit.None? then loaded else Persisted(edit.value, loaded, victims, now)
  }

  // ---- What a save does to the session vault ----

  ghost predicate SameSessions(g: Hygiene, ps: Profiles, qs: Profiles, now: nat)
  {
    SameVault(g, VaultOf(ps), VaultOf(qs), now)
  }

  /** A host the snapshot still vaults although disk has forgotten its profile. */
  ghost predicate Stray(g: Hygiene, mine: Profiles, disk: Profiles, host: string, now: nat)
  {
    host !in disk && DrawerOf(g, VaultOf(mine), host, now) != Drawer([], false)
  }

  /** Exactly when the save of an older snapshot leaves every host's vault on
      disk alone: it holds no stray host. */
  lemma {:induction false} StaleSaveIff(g: Hygiene, s: State, disk: State, victims: set<string>, now: nat)
    requires disk.vaultEpoch > s.vaultEpoch
    ensures SameSessions(g, Persisted(s, disk, victims, now).profiles, disk.profiles, now)
       <==> forall h :: !Stray(g, s.profiles - victims, disk.profiles, h, now)
  {
    var after := Persisted(s, disk, victims, now).profiles;
    var mine := s.profiles - victims;
    assert after == Adopt(mine, disk.profiles);
    forall h ensures DrawerOf(g, VaultOf(after), h, now) == DrawerOf(g, VaultOf(disk.profiles), h, now)
                <==> !Stray(g, mine, disk.profiles, h, now)
    {
      assert h !in disk.profiles ==> At(VaultOf(after), h) == At(VaultOf(mine), h);
    }
  }

  /** The lifetime counters count for both sides: the greater one is saved. */
  lemma {:induction false} SaveCountsBoth(s: State, disk: State, victims: set<string>, now: nat)
    ensures var r := Persisted(s, disk, victims, now);
      && r.probesTotal >= s.probesTotal && r.probesTotal >= disk.probesTotal && r.probesTotal in {s.probesTotal, disk.probesTotal}
      && r.prewarmedTotal >= s.prewarmedTotal && r.prewarmedTotal >= disk.prewarmedTotal
      && r.prewarmedTotal in {s.prewarmedTotal, disk.prewarmedTotal}
  {
  }

  /** Loading keeps the clearance cookies of a profile, and those of its vault
      that are usable still. */
  lemma {:induction false} HealKeeps(g: Hygiene, p: DomainProfile, now: nat)
    ensures var q := HealProfile(g, p, now);
      && (forall c :: c in q.route.cookies <==> c in p.route.cookies && IsClearance(c.name))
      && (forall c :: c in q.session.cookies <==> c in p.session.cookies && Usable(g, c, now))
      && q.session.explicit == p.session.explicit && q.session.cleared == p.session.cleared
      && InUnit(q.route.t1Ewma) && InUnit(q.route.warmEwma)
      && q.route.t1Ewma == (if InUnit(p.route.t1Ewma) then p.route.t1Ewma else 1.0)
      && q.route.warmEwma == (if InUnit(p.route.warmEwma) then p.route.warmEwma else 1.0)
  {
    ClearanceMeaning(p.route.cookies);
    KeptMeaning(g, p.session.cookies, now);
  }

  lemma {:induction false} ClearanceMeaning(cs: seq<Cookie>)
    ensures forall c :: c in Clearance(cs) <==> c in cs && IsClearance(c.name)
  {
    if cs != [] {
      ClearanceMeaning(cs[1..]);
      assert forall c :: c in cs <==> c == cs[0] || c in cs[1..];
    }
  }

  /** What a save evicts costs no host a cookie: every vault comes out of it
      with the rows it would have without the eviction. */
  lemma {:induction false} EvictionCostsNoCookie(s: State, disk: State, victims: set<string>, now: nat, host: string)
    requires Evicts(s.profiles, victims, now)
    ensures At(VaultOf(Persisted(s, disk, victims, now).profiles), host).cookies
         == At(VaultOf(Persisted(s, disk, {}, now).profiles), host).cookies
  {
    var ps := s.profiles;
    SavedSession(s, disk, victims, now, host);
    SavedSession(s, disk, {}, now, host);
    assert ps - {} == ps;
    EvictedHadNone(ps, victims, now, host);
  }

  lemma {:induction false} EvictedHadNone(ps: Profiles, victims: set<string>, now: nat, host: string)
    requires Evicts(ps, victims, now)
    ensures At(VaultOf(ps - victims), host).cookies == At(VaultOf(ps), host).cookies
  {
    assert host in victims ==> host in SessionFree(ps);
  }

  /** Where a host's session part on disk comes from after a save. */
  lemma {:induction false} SavedSession(s: State, disk: State, victims: set<string>, now: nat, host: string)
    ensures At(VaultOf(Persisted(s, disk, victims, now).profiles), host) ==
      if disk.vaultEpoch > s.vaultEpoch && host in disk.profiles then disk.profiles[host].session
      else At(VaultOf(s.profiles - victims), host)
  {
    var mine := s.profiles - victims;
    if disk.vaultEpoch > s.vaultEpoch {
      assert Persisted(s, disk, victims, now).profiles == Adopt(mine, disk.profiles);
    } else {
      assert Persisted(s, disk, victims, now).profiles == mine;
    }
  }

  /** It evicts enough: the snapshot is within the cap, or only vaulted hosts
      are left in it; and no more than that. */
  lemma {:induction false} EvictionReachesCap(ps: Profiles, victims: set<string>, now: nat)
    requires Evicts(ps, victims, now)
    ensures var left := ps - victims;
      && (|left| <= 10_000 || SessionFree(left) == {})
      && (victims != {} ==> |left| >= 10_000)
  {
    var left := ps - victims;
    if |ps| > PROFILE_CAP {
      assert victims <= SessionFree(ps) <= ps.Keys;
      Without(ps.Keys, victims);
      Without(SessionFree(ps), victims);
      assert left.Keys == ps.Keys - victims;
      assert SessionFree(left) == SessionFree(ps) - victims;
      assert |ps| == |ps.Keys| && |left| == |left.Keys|;
    } else {
      assert left == ps;
    }
  }

  lemma {:induction false} Without(a: set<string>, b: set<string>)
    requires b <= a
    ensures |a - b| == |a| - |b|
  {
    assert a == (a - b) + b;
  }

  /** A flushed row comes back through a save exactly when no later clear on
      disk fences its host. */
  lemma {:induction false} EchoRowsMeaning(rows: seq<Cookie>, disk: Profiles, epoch: nat)
    ensures forall c :: c in EchoRows(rows, disk, epoch) <==> c in rows && !Fenced(disk, c, epoch)
  {
    if rows != [] {
      EchoRowsMeaning(rows[1..], disk, epoch);
      assert forall c :: c in rows <==> c == rows[0] || c in rows[1..];
    }
  }

  lemma {:induction false} MergedRows(jar: seq<Cookie>, rows: seq<Cookie>, now: nat)
    ensures forall c :: c in Merge(jar, rows, now) ==> c in jar || c in rows
  {
    UpsertedRows(jar, AcceptedRows(rows, now));
    AcceptedFrom(rows, now);
  }

  lemma {:induction false} AcceptedFrom(rows: seq<Cookie>, now: nat)
    ensures forall c :: c in AcceptedRows(rows, now) <==> c in rows && Accepted(c, now)
  {
    if rows != [] {
      AcceptedFrom(rows[1..], now);
      assert forall c :: c in rows <==> c == rows[0] || c in rows[1..];
    }
  }

  lemma {:induction false} UpsertedRows(jar: seq<Cookie>, rows: seq<Cookie>)
    ensures forall c :: c in Upsert(jar, rows) ==> c in jar || c in rows
    decreases |rows|
  {
    if rows != [] {
      DroppedRows(jar, KeyOf(rows[0]));
      UpsertedRows([rows[0]] + DropFirst(jar, KeyOf(rows[0])), rows[1..]);
    }
  }
}
