/** Where the vault protocol stops protecting a logout: at the last epoch, once
    route memory outgrows its cap, and for jar rows of hosts without a profile;
    a sync that is lost; and two equal vaults that a harvest cuts differently.
    All concrete. */
module VaultLimits {
  import opened Options
  import opened Text
  import opened Tier1Jar
  import opened Lists
  import Recency
  import opened SessionVault
  import opened RouteMemory
  import opened GhostStore
  import opened VaultProtocol
  import opened VaultInvariant
  import opened VaultErasure
  import opened VaultLogout

  const SID: Cookie := Cookie("sid", "1", "x", "/", None, false, false, "")
  const LAX: Hygiene := Hygiene((c: Cookie) => true, (n: string) => true)
  const LOGGED_IN: Profiles := map["x" := NEW_PROFILE.(session := SessionPart([SID], false, 0))]

  ghost function LoggedInDisk(epoch: nat): State { State(LOGGED_IN, [], epoch, 0, 0, None) }

  lemma {:induction false} KeyFacts()
    ensures LogoutKey("x") == "x" && FoldDomain("x") == "x" && BelongsTo("x", "x")
    ensures FoldDomain(SID.domain) == "x"
  {
  }

  lemma {:induction false} LoadsUnchanged(epoch: nat, now: nat)
    ensures Loaded(LAX, LoggedInDisk(epoch), {}, now) == ReadIn(LAX, LoggedInDisk(epoch), now) == LoggedInDisk(epoch)
  {
    assert Usable(LAX, SID, now);
    assert Kept(LAX, [SID], now) == [SID] by { assert [SID][1..] == []; }
    assert HealRoute(NEW_ROUTE) == NEW_ROUTE;
    assert Healed(LAX, LOGGED_IN, now) == LOGGED_IN;
  }

  function Tombstone(stamp: nat): Profiles { map["x" := NEW_PROFILE.(session := SessionPart([], false, stamp))] }

  lemma {:induction false} SidRemoved()
    ensures WithoutDomain([SID], "x") == []
  {
  }

  lemma {:induction false} EditOfX(epoch: nat)
    ensures LogoutEdit(LoggedInDisk(epoch), "x")
         == Some(State(Tombstone(BumpEpoch(epoch)), [], BumpEpoch(epoch), 0, 0, None))
  {
    SidRemoved();
    var v := VaultOf(LOGGED_IN);
    var w := LogoutCookies(v, "x");
    assert v["x"].cookies == [SID] && w["x"].cookies == [];
    StampOfX(w, BumpEpoch(epoch));
    assert WithVault(LOGGED_IN, StampCleared(w, "x", BumpEpoch(epoch))) == Tombstone(BumpEpoch(epoch));
  }

  lemma {:induction false} StampOfX(w: Vault, stamp: nat)
    requires w.Keys == {"x"} && w["x"] == NO_SESSION
    ensures StampCleared(w, "x", stamp) == map["x" := SessionPart([], false, stamp)]
  {
  }

  /** Logging "x" out of that disk leaves it with no cookie and one stamp. */
  lemma {:induction false} LogoutOfX(epoch: nat, now: nat)
    ensures HelperDisk(LAX, LoggedInDisk(epoch), Logout("x", {}, {}), now)
         == State(Tombstone(BumpEpoch(epoch)), [], BumpEpoch(epoch), 0, 0, None)
  {
    var t, s := Logout("x", {}, {}), LoggedInDisk(epoch);
    var edit := State(Tombstone(BumpEpoch(epoch)), [], BumpEpoch(epoch), 0, 0, None);
    KeyFacts();
    LoadsUnchanged(epoch, now);
    EditOfX(epoch);
    assert HelperDisk(LAX, s, t, now) == Written(Some(edit), s, {}, now);
    SavesItself(edit, s, now);
  }

  lemma {:induction false} SavesItself(s: State, disk: State, now: nat)
    requires disk.vaultEpoch <= s.vaultEpoch && s.pending == None
    requires disk.probesTotal <= s.probesTotal && disk.prewarmedTotal <= s.prewarmedTotal
    ensures Persisted(s, disk, {}, now) == s
  {
    assert s.profiles - {} == s.profiles;
  }

  ghost function LoggedInWorld(epoch: nat, now: nat): World { World(LoggedInDisk(epoch), map[], now) }

  lemma {:induction false} LoggedInWorldInv(epoch: nat, now: nat)
    requires epoch <= EPOCH_MAX
    ensures Inv(LAX, LoggedInWorld(epoch, now))
  {
  }

  /** The world after one snapshot booted and "x" was then logged out. */
  ghost function LoggedOutWorld(epoch: nat, now: nat): World
  {
    World(State(Tombstone(BumpEpoch(epoch)), [], BumpEpoch(epoch), 0, 0, None), map[1 := LoggedInDisk(epoch)], now)
  }

  lemma {:induction false} BootThenLogout(epoch: nat, now: nat)
    ensures Next(LAX, Next(LAX, LoggedInWorld(epoch, now), Boot(1)), Logout("x", {}, {})) == LoggedOutWorld(epoch, now)
    ensures LoggedOut(LAX, LoggedOutWorld(epoch, now).disk.profiles, "x", now)
  {
    LoadsUnchanged(epoch, now);
    LogoutOfX(epoch, now);
    NothingVaulted(LoggedOutWorld(epoch, now).disk.profiles, now);
  }

  lemma {:induction false} NothingVaulted(ps: Profiles, now: nat)
    requires forall h :: h in ps ==> ps[h].session.cookies == []
    ensures LoggedOut(LAX, ps, "x", now)
  {
  }

  /** At the last u64 epoch a logout cannot stamp past a live snapshot, and the
      snapshot's next save puts the session back. */
  lemma {:induction false} SaturatedEpochResurrects()
    ensures var w := LoggedInWorld(EPOCH_MAX, 0);
      && Inv(LAX, w)
      && LoggedOut(LAX, Run(LAX, w, [Boot(1), Logout("x", {}, {})]).disk.profiles, "x", 0)
      && !LoggedOut(LAX, Run(LAX, w, [Boot(1), Logout("x", {}, {}), Save(1, {})]).disk.profiles, "x", 0)
  {
    LoggedInWorldInv(EPOCH_MAX, 0);
    RunSteps(LAX, LoggedInWorld(EPOCH_MAX, 0), Boot(1), Logout("x", {}, {}), Save(1, {}));
    BootThenLogout(EPOCH_MAX, 0);
    SaturatedSave();
  }

  lemma {:induction false} SaturatedSave()
    ensures !LoggedOut(LAX, Next(LAX, LoggedOutWorld(EPOCH_MAX, 0), Save(1, {})).disk.profiles, "x", 0)
  {
    var last := Next(LAX, LoggedOutWorld(EPOCH_MAX, 0), Save(1, {}));
    SameEpochSave(LoggedInDisk(EPOCH_MAX), LoggedOutWorld(EPOCH_MAX, 0).disk, {}, 0);
    assert LOGGED_IN - {} == LOGGED_IN;
    StillThere(last.disk.profiles, 0);
  }

  lemma {:induction false} RunSteps(g: Hygiene, w: World, a: Step, b: Step, c: Step)
    ensures Run(g, w, [a, b]) == Next(g, Next(g, w, a), b)
    ensures Run(g, w, [a, b, c]) == Next(g, Next(g, Next(g, w, a), b), c)
  {
    assert [a, b][1..] == [b] && [b][1..] == [];
    assert [a, b, c][1..] == [b, c] && [b, c][1..] == [c] && [c][1..] == [];
    assert Run(g, Next(g, w, a), [b]) == Next(g, Next(g, w, a), b);
    var w2 := Next(g, Next(g, w, a), b);
    assert Run(g, w2, [c]) == Next(g, w2, c);
    assert Run(g, Next(g, w, a), [b, c]) == Run(g, w2, [c]);
  }

  lemma {:induction false} StillThere(ps: Profiles, now: nat)
    requires "x" in ps && ps["x"].session.cookies == [SID]
    ensures !LoggedOut(LAX, ps, "x", now)
  {
    KeyFacts();
    assert Kept(LAX, [SID], now) == [SID] by { assert [SID][1..] == []; }
    assert SID in DrawerOf(LAX, VaultOf(ps), "x", now).cookies;
  }

  // ---- Past the cap ----

  function HostName(n: nat): string { if n == 0 then "hh" else HostName(n - 1) + "h" }

  const SEEN: RoutePart := NEW_ROUTE.(lastColdCheck := 1)

  /** `n` hosts probed at time 1. */
  function Crowd(n: nat): map<string, RoutePart>
  {
    if n == 0 then map[] else Crowd(n - 1)[HostName(n) := SEEN]
  }

  lemma HostNameLength(n: nat)
    ensures |HostName(n)| == n + 2
  {
  }

  lemma {:induction false} CrowdFacts(n: nat)
    ensures |Crowd(n)| == n
    ensures forall h :: h in Crowd(n) ==> 2 < |h| <= n + 2 && Crowd(n)[h] == SEEN
  {
    if n > 0 {
      CrowdFacts(n - 1);
      HostNameLength(n);
      assert Crowd(n).Keys == Crowd(n - 1).Keys + {HostName(n)};
    }
  }

  /** The tombstone is the coldest session-free profile once the crowd is in. */
  lemma {:induction false} TombstoneIsColdest(tomb: DomainProfile, crowd: map<string, RoutePart>, ps: Profiles)
    requires tomb.session.cookies == [] && tomb.route == NEW_ROUTE
    requires |crowd| == PROFILE_CAP && "x" !in crowd && forall h :: h in crowd ==> crowd[h] == SEEN
    requires ps == Learned(map["x" := tomb], crowd)
    ensures Evicts(ps, {"x"}, 1) && (ps - {"x"}).Keys == crowd.Keys
  {
    assert ps.Keys == crowd.Keys + {"x"};
    assert |ps| == |ps.Keys| == PROFILE_CAP + 1;
    assert SessionFree(ps) == ps.Keys;
  }

  /** The logged-out world once a second snapshot has booted from it. */
  ghost function TwoSnapshots(): World
  {
    var out := LoggedOutWorld(0, 1);
    out.(snaps := map[1 := LoggedInDisk(0), 2 := out.disk])
  }

  lemma {:induction false} SecondBoot()
    ensures Run(LAX, LoggedInWorld(0, 1), [Boot(1), Logout("x", {}, {}), Boot(2)]) == TwoSnapshots()
  {
    RunSteps(LAX, LoggedInWorld(0, 1), Boot(1), Logout("x", {}, {}), Boot(2));
    BootThenLogout(0, 1);
    BootsTombstone();
  }

  /** The second snapshot fills route memory with `crowd`. */
  ghost function Crowded(crowd: map<string, RoutePart>): State
  {
    var disk := LoggedOutWorld(0, 1).disk;
    disk.(profiles := Learned(disk.profiles, crowd))
  }

  /** Its save evicts the tombstone of "x". */
  ghost function EvictedDisk(crowd: map<string, RoutePart>): State
  {
    Persisted(Crowded(crowd), LoggedOutWorld(0, 1).disk, {"x"}, 1)
  }

  lemma {:induction false} CrowdedRun(crowd: map<string, RoutePart>)
    ensures var full := Next(LAX, TwoSnapshots(), Learn(2, crowd, 0, 0));
      && 2 in full.snaps && full.snaps[2] == Crowded(crowd) && full.now == 1
      && Next(LAX, full, Save(2, {"x"})).disk == EvictedDisk(crowd)
      && Next(LAX, Next(LAX, full, Save(2, {"x"})), Save(1, {})).disk
         == Persisted(LoggedInDisk(0), EvictedDisk(crowd), {}, 1)
  {
  }

  /** A logout whose tombstone was evicted past the cap is undone by the next
      save of a snapshot older than it. */
  lemma {:induction false} EvictedTombstoneResurrects(crowd: map<string, RoutePart>)
    requires |crowd| == PROFILE_CAP && "x" !in crowd && forall h :: h in crowd ==> crowd[h] == SEEN
    ensures Inv(LAX, LoggedInWorld(0, 1))
    ensures var out := Run(LAX, LoggedInWorld(0, 1), [Boot(1), Logout("x", {}, {}), Boot(2)]);
      var full := Next(LAX, out, Learn(2, crowd, 0, 0));
      var evicted := Next(LAX, full, Save(2, {"x"}));
      && Lawful(LAX, out, Learn(2, crowd, 0, 0))
      && 2 in full.snaps && Evicts(full.snaps[2].profiles, {"x"}, full.now)
      && LoggedOut(LAX, evicted.disk.profiles, "x", 1)
      && !LoggedOut(LAX, Next(LAX, evicted, Save(1, {})).disk.profiles, "x", 1)
  {
    LoggedInWorldInv(0, 1);
    SecondBoot();
    CrowdedRun(crowd);
    EvictionUndoes(crowd);
    CrowdIsLawful(crowd);
  }

  lemma {:induction false} CrowdIsLawful(crowd: map<string, RoutePart>)
    requires "x" !in crowd && forall h :: h in crowd ==> crowd[h] == SEEN
    ensures Lawful(LAX, TwoSnapshots(), Learn(2, crowd, 0, 0))
  {
    ObservedIsReachable(NEW_ROUTE, ProbeInconclusive, 1);
    var ps := TwoSnapshots().snaps[2].profiles;
    assert ps == Tombstone(1);
    forall h | h in crowd ensures Reachable(ProfileOf(ps, h).route, crowd[h]) {
      assert h !in ps;
    }
  }

  lemma {:induction false} EvictionUndoes(crowd: map<string, RoutePart>)
    requires |crowd| == PROFILE_CAP && "x" !in crowd && forall h :: h in crowd ==> crowd[h] == SEEN
    ensures Evicts(Crowded(crowd).profiles, {"x"}, 1)
    ensures LoggedOut(LAX, EvictedDisk(crowd).profiles, "x", 1)
    ensures !LoggedOut(LAX, Persisted(LoggedInDisk(0), EvictedDisk(crowd), {}, 1).profiles, "x", 1)
  {
    var disk, ps := LoggedOutWorld(0, 1).disk, Crowded(crowd).profiles;
    TombstoneIsColdest(disk.profiles["x"], crowd, ps);
    SameEpochSave(Crowded(crowd), disk, {"x"}, 1);
    var left := ps - {"x"};
    assert forall h :: h in left ==> left[h].session == NO_SESSION;
    NothingVaulted(left, 1);
    StaleSave(EvictedDisk(crowd), 1);
  }

  lemma {:induction false} BootsTombstone()
    ensures ReadIn(LAX, LoggedOutWorld(0, 1).disk, 1) == LoggedOutWorld(0, 1).disk
  {
  }

  lemma {:induction false} SameEpochSave(s: State, disk: State, victims: set<string>, now: nat)
    requires s.vaultEpoch == disk.vaultEpoch && s.pending == None
    ensures Persisted(s, disk, victims, now).profiles == s.profiles - victims
    ensures Persisted(s, disk, victims, now).vaultEpoch == disk.vaultEpoch
  {
  }

  lemma {:induction false} StaleSave(disk: State, now: nat)
    requires disk.vaultEpoch == 1 && "x" !in disk.profiles
    ensures !LoggedOut(LAX, Persisted(LoggedInDisk(0), disk, {}, now).profiles, "x", now)
  {
    var ps := Persisted(LoggedInDisk(0), disk, {}, now).profiles;
    assert LOGGED_IN - {} == LOGGED_IN;
    assert ps == Adopt(LOGGED_IN, disk.profiles);
    StillThere(ps, now);
  }

  /** Such a crowd exists. */
  lemma {:induction false} CrowdExists(n: nat)
    requires n == PROFILE_CAP
    ensures |Crowd(n)| == PROFILE_CAP && "x" !in Crowd(n) && forall h :: h in Crowd(n) ==> Crowd(n)[h] == SEEN
  {
    CrowdFacts(n);
  }

  // ---- A host without a profile ----

  const SUB: Cookie := Cookie("sid", "1", "w.x", "/", None, false, false, "")

  /** A disk whose jar holds a cookie of "w.x", and no profile at all. */
  ghost function JarOnly(jar: seq<Cookie>): State { State(map[], jar, 0, 0, 0, None) }

  lemma {:induction false} SubFacts()
    ensures LogoutKey("x") == "x" && FoldDomain(SUB.domain) == "w.x" && BelongsTo("x", "w.x")
    ensures WithoutDomain([SUB], "x") == []
  {
    assert AsciiLower("x") == "x" && TrimStart("x", IsDot) == "x";
    assert "w.x"[1..] == ".x" && ".x"[1..] == "x" && "x"[1..] == "";
    assert AsciiLower("x") == "x";
    assert AsciiLower(".x") == ".x";
    assert AsciiLower("w.x") == "w.x";
    assert TrimStart("w.x", IsDot) == "w.x";
    assert TrimBrackets("x") == "x" && TrimBrackets("w.x") == "w.x";
    assert EndsWith(".x", ".x") && EndsWith("w.x", ".x");
    assert [SUB][1..] == [];
  }

  /** The world before the logout: a snapshot has synced the cookie. */
  ghost function SyncedWorld(): World
  {
    World(JarOnly([SUB]), map[1 := JarOnly([SUB]).(pending := Some(Echo(0, [SUB])))], 0)
  }

  lemma {:induction false} BootThenSync()
    ensures Next(LAX, Next(LAX, World(JarOnly([SUB]), map[], 0), Boot(1)), Sync(1, [SUB])) == SyncedWorld()
  {
    assert Healed(LAX, map[], 0) == map[];
    assert [SUB][1..] == [] && AcceptedRows([SUB], 0) == [SUB];
    assert DropFirst([SUB], KeyOf(SUB)) == [];
    assert Upsert([SUB], [SUB]) == Upsert([SUB] + [], []) == [SUB];
    assert Merge([SUB], [SUB], 0) == [SUB];
    assert ReadIn(LAX, JarOnly([SUB]), 0) == JarOnly([SUB]);
  }

  lemma {:induction false} LogoutOfSub()
    ensures LogoutEdit(JarOnly([SUB]), "x") == Some(State(Tombstone(1), [], 1, 0, 0, None))
  {
    SubFacts();
    var v := VaultOf(map[]);
    assert v == map[] && LogoutCookies(v, "x") == map[];
    assert StampCleared(map[], "x", 1) == map["x" := SessionPart([], false, 1)];
    assert WithVault(map[], map["x" := SessionPart([], false, 1)]) == Tombstone(1);
  }

  lemma {:induction false} SyncedWorldInv()
    ensures Inv(LAX, SyncedWorld()) && LogoutOverEcho(LAX, SyncedWorld(), Logout("x", {}, {}), 1, SUB)
  {
    SubFacts();
    LogoutOfSub();
    assert Healed(LAX, map[], 0) == map[];
    assert Loaded(LAX, JarOnly([SUB]), {}, 0) == JarOnly([SUB]);
  }

  /** Logging "x" out removes the jar row of "w.x", which has no profile to take
      the stamp, and the snapshot's next save brings the row back. No profile is
      evicted and no epoch runs out. */
  lemma {:induction false} UnknownHostResurrects()
    ensures var w := World(JarOnly([SUB]), map[], 0);
      && Inv(LAX, w)
      && var out := Run(LAX, w, [Boot(1), Sync(1, [SUB]), Logout("x", {}, {})]);
         && out.disk.tier1 == []
         && Recency.HasKey(Next(LAX, out, Save(1, {})).disk.tier1, KeyOf, KeyOf(SUB)) && BelongsTo("x", FoldDomain(SUB.domain))
  {
    var w := World(JarOnly([SUB]), map[], 0);
    SubFacts();
    BootThenSync();
    RunSteps(LAX, w, Boot(1), Sync(1, [SUB]), Logout("x", {}, {}));
    SyncedWorldInv();
    LogoutStampsKnown(LAX, SyncedWorld(), Logout("x", {}, {}), "w.x");
    ReRaisedIff(LAX, SyncedWorld(), Logout("x", {}, {}), 1, SUB);
    SmallEchoInFront([SUB], Next(LAX, SyncedWorld(), Logout("x", {}, {})).disk.profiles, 0, SUB, 0);
  }

  // ---- Two syncs before a save ----

  const FIRST: Cookie := SUB
  const SECOND: Cookie := SUB.(name := "s2")
  const OTHER: Cookie := SUB.(name := "s3")

  ghost function Waiting(jar: seq<Cookie>, row: Cookie): State { JarOnly(jar).(pending := Some(Echo(0, [row]))) }

  lemma {:induction false} MergesOne(jar: seq<Cookie>, c: Cookie)
    requires c in {FIRST, SECOND, OTHER} && |jar| < 10
    ensures Merge(jar, [c], 0) == Recency.Capped([c] + DropFirst(jar, KeyOf(c)), TIER1_COOKIE_MAX)
  {
    assert [c][1..] == [] && AcceptedRows([c], 0) == [c];
    assert Upsert(jar, [c]) == Upsert([c] + DropFirst(jar, KeyOf(c)), []);
  }

  lemma {:induction false} SmallMerges()
    ensures Merge([], [FIRST], 0) == [FIRST] && Merge([FIRST], [SECOND], 0) == [SECOND, FIRST]
    ensures Merge([], [OTHER], 0) == [OTHER] && Merge([OTHER], [OTHER], 0) == [OTHER]
    ensures Merge([OTHER], [SECOND], 0) == [SECOND, OTHER] && Merge([SECOND, FIRST], [SECOND], 0) == [SECOND, FIRST]
  {
    assert KeyOf(FIRST).name == "sid" && KeyOf(SECOND).name == "s2" && KeyOf(OTHER).name == "s3";
    assert "sid"[1] == 'i' && "s2"[1] == '2' && "s3"[1] == '3';
    MergesOne([], FIRST);
    MergesOne([FIRST], SECOND);
    MergesOne([], OTHER);
    MergesOne([OTHER], OTHER);
    MergesOne([OTHER], SECOND);
    MergesOne([SECOND, FIRST], SECOND);
    assert [FIRST][1..] == [] && [OTHER][1..] == [] && [SECOND, FIRST][1..] == [FIRST];
    assert DropFirst([FIRST], KeyOf(SECOND)) == [FIRST] && DropFirst([OTHER], KeyOf(SECOND)) == [OTHER];
  }

  /** Two snapshots of an empty disk, after the first took two syncs and the
      second one. */
  ghost function TwoSyncs(): World
  {
    World(JarOnly([]), map[1 := Waiting([SECOND, FIRST], SECOND), 2 := Waiting([OTHER], OTHER)], 0)
  }

  /** The world once both have booted and the first has synced. */
  ghost function OneSync(): World
  {
    World(JarOnly([]), map[1 := Waiting([FIRST], FIRST), 2 := JarOnly([])], 0)
  }

  lemma {:induction false} OneSyncRun()
    ensures Run(LAX, World(JarOnly([]), map[], 0), [Boot(1), Boot(2), Sync(1, [FIRST])]) == OneSync()
  {
    SmallMerges();
    var w, w1, w2 := World(JarOnly([]), map[], 0), World(JarOnly([]), map[1 := JarOnly([])], 0),
      World(JarOnly([]), map[1 := JarOnly([]), 2 := JarOnly([])], 0);
    assert ReadIn(LAX, JarOnly([]), 0) == JarOnly([]) by { assert Healed(LAX, map[], 0) == map[]; }
    RunSteps(LAX, w, Boot(1), Boot(2), Sync(1, [FIRST]));
    assert Next(LAX, w, Boot(1)) == w1 && Next(LAX, w1, Boot(2)) == w2;
    SyncsOne(w2, 1, FIRST, Waiting([FIRST], FIRST));
    assert w2.snaps[1 := Waiting([FIRST], FIRST)] == OneSync().snaps;
  }

  lemma {:induction false} SyncsOne(w: World, id: nat, c: Cookie, after: State)
    requires id in w.snaps && SyncTier1(w.snaps[id], [c], w.now) == after
    ensures Next(LAX, w, Sync(id, [c])) == w.(snaps := w.snaps[id := after])
  {
  }

  lemma {:induction false} TwoSyncsRun()
    ensures Run(LAX, OneSync(), [Sync(1, [SECOND]), Sync(2, [OTHER])]) == TwoSyncs()
  {
    SmallMerges();
    var w := World(JarOnly([]), map[1 := Waiting([SECOND, FIRST], SECOND), 2 := JarOnly([])], 0);
    RunSteps(LAX, OneSync(), Sync(1, [SECOND]), Sync(2, [OTHER]), Tick(0));
    SyncsOne(OneSync(), 1, SECOND, w.snaps[1]);
    assert OneSync().snaps[1 := w.snaps[1]] == w.snaps;
    SyncsOne(w, 2, OTHER, TwoSyncs().snaps[2]);
    assert w.snaps[2 := TwoSyncs().snaps[2]] == TwoSyncs().snaps;
  }

  /** Of two syncs without a save between them, the first reaches disk with the
      next save, and is lost if another snapshot's save comes first. */
  lemma {:induction false} OvertakenSyncIsLost()
    ensures var w := Run(LAX, Run(LAX, World(JarOnly([]), map[], 0), [Boot(1), Boot(2), Sync(1, [FIRST])]), [Sync(1, [SECOND]), Sync(2, [OTHER])]);
      && Next(LAX, w, Save(1, {})).disk.tier1 == [SECOND, FIRST]
      && Next(LAX, Next(LAX, w, Save(2, {})), Save(1, {})).disk.tier1 == [SECOND, OTHER]
  {
    OneSyncRun();
    TwoSyncsRun();
    SavesOfTwoSyncs();
  }

  lemma {:induction false} SavesOfTwoSyncs()
    ensures Next(LAX, TwoSyncs(), Save(1, {})).disk.tier1 == [SECOND, FIRST]
    ensures Next(LAX, Next(LAX, TwoSyncs(), Save(2, {})), Save(1, {})).disk.tier1 == [SECOND, OTHER]
  {
    SmallMerges();
    EchoOfOne(SECOND);
    EchoOfOne(OTHER);
    var saved := State(map[], [OTHER], 1, 0, 0, None);
    assert Persisted(Waiting([OTHER], OTHER), JarOnly([]), {}, 0) == saved;
    assert Persisted(Waiting([SECOND, FIRST], SECOND), saved, {}, 0).tier1 == [SECOND, OTHER];
  }

  lemma {:induction false} EchoOfOne(c: Cookie)
    ensures EchoRows([c], map[], 0) == [c]
  {
    assert [c][1..] == [] && !Fenced(map[], c, 0);
  }

  // ---- Two equal vaults cut differently ----

  function RowsOf(host: string): seq<Cookie>
  {
    seq(300, i requires 0 <= i < 300 => Cookie(HostName(i), "1", host, "/", None, false, false, ""))
  }

  function Solved(host: string, at: nat): DomainProfile
  {
    DomainProfile(SessionPart(RowsOf(host), false, 0), NEW_ROUTE.(lastSolved := at))
  }

  function TwoHosts(a: nat, b: nat): Profiles { map["a" := Solved("a", a), "b" := Solved("b", b)] }

  ghost function SolvedDisk(a: nat, b: nat): State { State(TwoHosts(a, b), [], 0, 0, 0, None) }

  /** A cookie no harvest can use. */
  const JUNK: Cookie := Cookie("j", "1", "", "/", None, false, false, "")

  ghost function HarvestNothing(order: seq<string>): Step { HarvestCookies([JUNK], order, {}, {}) }

  lemma {:induction false} KeepsUsable(g: Hygiene, cs: seq<Cookie>, now: nat)
    requires forall i :: 0 <= i < |cs| ==> Usable(g, cs[i], now)
    ensures Kept(g, cs, now) == cs
  {
    if cs != [] { KeepsUsable(g, cs[1..], now); }
  }

  lemma {:induction false} HostNameStarts(n: nat)
    ensures HostName(n) != ""
  {
    HostNameLength(n);
  }

  lemma {:induction false} TwoHostsKept(host: string)
    requires host != ""
    ensures Kept(LAX, RowsOf(host), 0) == RowsOf(host)
  {
    forall i | 0 <= i < 300 ensures Usable(LAX, RowsOf(host)[i], 0) {
      HostNameStarts(i);
    }
    KeepsUsable(LAX, RowsOf(host), 0);
  }

  lemma {:induction false} HealsNothing(host: string, at: nat)
    requires host != ""
    ensures HealProfile(LAX, Solved(host, at), 0) == Solved(host, at)
  {
    TwoHostsKept(host);
    assert HealRoute(NEW_ROUTE.(lastSolved := at)) == NEW_ROUTE.(lastSolved := at);
  }

  lemma {:induction false} SolvedDiskLoads(a: nat, b: nat)
    ensures Loaded(LAX, SolvedDisk(a, b), {}, 0) == SolvedDisk(a, b)
  {
    HealsNothing("a", a);
    HealsNothing("b", b);
    var ps := TwoHosts(a, b);
    forall h | h in ps ensures HealProfile(LAX, ps[h], 0) == ps[h] {
      assert h == "a" || h == "b";
    }
    assert Healed(LAX, ps, 0) == ps;
  }

  lemma {:induction false} SolvedDiskPruned(a: nat, b: nat)
    ensures Pruned(LAX, VaultOf(TwoHosts(a, b)), 0) == VaultOf(TwoHosts(a, b))
  {
    SolvedDiskLoads(a, b);
    LoadedVault(LAX, SolvedDisk(a, b), 0);
  }

  lemma {:induction false} HarvestsNothing(v: Vault)
    ensures HarvestAll(LAX, v, [JUNK], 0) == v
  {
    assert [JUNK][1..] == [] && HarvestOne(LAX, v, JUNK, 0) == v;
    assert HarvestAll(LAX, v, [JUNK], 0) == HarvestAll(LAX, v, [], 0);
  }

  lemma {:induction false} HundredOver(v: Vault, a: nat, b: nat)
    requires v == VaultOf(TwoHosts(a, b))
    ensures Total(v, AutoHosts(v)) == 600
  {
    assert AutoHosts(v) == {"a", "b"};
    TotalRemove(v, {"a", "b"}, "a");
    assert {"a", "b"} - {"a"} == {"b"};
    TotalRemove(v, {"b"}, "b");
    assert {"b"} - {"b"} == {};
    assert Total(v, {}) == 0;
  }

  /** What the cap leaves of the host it cuts second. */
  lemma {:induction false} CutSecond(v: Vault, first: string, second: string, a: nat, b: nat)
    requires v == VaultOf(TwoHosts(a, b)) && {first, second} == {"a", "b"} && first != second
    ensures |At(CapVault(v, [first, second]), first).cookies| == 200
    ensures |At(CapVault(v, [first, second]), second).cookies| == 300
  {
    HundredOver(v, a, b);
    assert [first, second][1..] == [second];
    var v' := v[first := Cut(At(v, first), 100)];
    assert TrimHosts(v, [first, second], 100) == TrimHosts(v', [second], 0) == v';
  }

  lemma {:induction false} NothingLeaves(a: nat, b: nat, order: seq<string>)
    ensures SameRows(VaultOf(HelperDisk(LAX, SolvedDisk(a, b), HarvestNothing(order), 0).profiles), CapVault(VaultOf(TwoHosts(a, b)), order))
  {
    SolvedDiskPruned(a, b);
    HarvestsNothing(VaultOf(TwoHosts(a, b)));
    HelperRows(LAX, SolvedDisk(a, b), HarvestNothing(order), 0);
  }

  lemma {:induction false} InPair(first: string, second: string)
    requires first != second
    ensures NoRepeats([first, second]) && forall h :: h in [first, second] <==> h == first || h == second
  {
  }

  /** The vault those profiles hold, whenever they were solved. */
  function PairVault(): Vault
  {
    map["a" := SessionPart(RowsOf("a"), false, 0), "b" := SessionPart(RowsOf("b"), false, 0)]
  }

  lemma {:induction false} PairVaultOf(a: nat, b: nat)
    ensures VaultOf(TwoHosts(a, b)) == PairVault()
    ensures SolvedAt(TwoHosts(a, b), "a") == a && SolvedAt(TwoHosts(a, b), "b") == b
  {
  }

  lemma {:induction false} NothingIsLawful(a: nat, b: nat, first: string, second: string)
    requires (first == "a" && second == "b" && a <= b) || (first == "b" && second == "a" && b <= a)
    ensures LawfulHelper(LAX, SolvedDisk(a, b), HarvestNothing([first, second]), 0)
  {
    SolvedDiskLoads(a, b);
    PairVaultOf(a, b);
    HarvestsNothing(PairVault());
    PairIsFull(first, second);
    PairOrder(PairVault(), TwoHosts(a, b), first, second);
    LawfulFrom(LAX, SolvedDisk(a, b), [JUNK], [first, second], 0, TwoHosts(a, b), PairVault());
  }

  lemma {:induction false} PairIsFull(first: string, second: string)
    requires (first == "a" && second == "b") || (first == "b" && second == "a")
    ensures PairVault().Keys == {first, second}
    ensures forall h :: h in PairVault() ==> !PairVault()[h].explicit && PairVault()[h].cookies != []
  {
    assert |RowsOf("a")| == 300 && |RowsOf("b")| == 300;
  }

  lemma {:induction false} LawfulFrom(g: Hygiene, disk: State, cookies: seq<Cookie>, order: seq<string>, now: nat, ps: Profiles, v: Vault)
    requires Loaded(g, disk, {}, now).profiles == ps && HarvestAll(g, VaultOf(ps), cookies, now) == v && SolveOrder(v, ps, order)
    ensures LawfulHelper(g, disk, HarvestCookies(cookies, order, {}, {}), now)
  {
  }

  lemma {:induction false} PairOrder(v: Vault, ps: Profiles, first: string, second: string)
    requires first != second && SolvedAt(ps, first) <= SolvedAt(ps, second)
    requires v.Keys == {first, second} && forall h :: h in v ==> !v[h].explicit && v[h].cookies != []
    ensures SolveOrder(v, ps, [first, second])
  {
    InPair(first, second);
  }

  /** Two disks with the same session vault and opposite last solves: the same
      harvest, in the one order the code takes on each, leaves different vaults. */
  lemma {:induction false} SolvesDecideTheCut()
    ensures var d, e, t, u := SolvedDisk(1, 2), SolvedDisk(2, 1), HarvestNothing(["a", "b"]), HarvestNothing(["b", "a"]);
      && VaultOf(d.profiles) == VaultOf(e.profiles)
      && LawfulHelper(LAX, d, t, 0) && LawfulHelper(LAX, e, u, 0)
      && |At(VaultOf(HelperDisk(LAX, d, t, 0).profiles), "a").cookies| == 200
      && |At(VaultOf(HelperDisk(LAX, e, u, 0).profiles), "a").cookies| == 300
  {
    NothingIsLawful(1, 2, "a", "b");
    NothingIsLawful(2, 1, "b", "a");
    LeftOfA(1, 2, "a", "b");
    LeftOfA(2, 1, "b", "a");
    PairVaultOf(1, 2);
    PairVaultOf(2, 1);
  }

  lemma {:induction false} LeftOfA(a: nat, b: nat, first: string, second: string)
    requires (first == "a" && second == "b") || (first == "b" && second == "a")
    ensures |At(VaultOf(HelperDisk(LAX, SolvedDisk(a, b), HarvestNothing([first, second]), 0).profiles), "a").cookies|
         == if first == "a" then 200 else 300
  {
    NothingLeaves(a, b, [first, second]);
    CutOfA(a, b, first, second);
    SameCount(VaultOf(HelperDisk(LAX, SolvedDisk(a, b), HarvestNothing([first, second]), 0).profiles),
              CapVault(VaultOf(TwoHosts(a, b)), [first, second]));
  }

  lemma {:induction false} CutOfA(a: nat, b: nat, first: string, second: string)
    requires (first == "a" && second == "b") || (first == "b" && second == "a")
    ensures |At(CapVault(VaultOf(TwoHosts(a, b)), [first, second]), "a").cookies| == if first == "a" then 200 else 300
  {
    CutSecond(VaultOf(TwoHosts(a, b)), first, second, a, b);
  }

  lemma {:induction false} SameCount(v: Vault, w: Vault)
    requires SameRows(v, w)
    ensures |At(v, "a").cookies| == |At(w, "a").cookies|
  {
    assert RowsAt(v, "a") == RowsAt(w, "a");
  }
}
