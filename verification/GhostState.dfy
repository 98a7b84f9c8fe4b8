/** The live snapshot of src/state.rs and the locked helpers, as they update
    their fields; each is proved against the state functions of GhostStore. */
module GhostSnapshot {
  import opened Options
  import opened Numbers
  import opened Tier1Jar
  import opened Lists
  import opened SessionVault
  import opened RouteMemory
  import opened GhostStore
  import opened VaultProtocol
  import Sorting

  /** The hosts of a profile map in some order, each once. */
  method Hosts(ps: Profiles) returns (ks: seq<string>)
    ensures NoRepeats(ks) && forall h :: h in ks <==> h in ps
  {
    ks := [];
    var left := ps.Keys;
    while left != {}
      invariant left <= ps.Keys && NoRepeats(ks)
      invariant forall h :: h in ks <==> h in ps && h !in left
      decreases left
    {
      var h :| h in left;
      left := left - {h};
      ks := ks + [h];
    }
  }

  /** `ps` is `mine` with the hosts of `done` taken from `theirs`. */
  ghost predicate HalfAdopted(ps: Profiles, mine: Profiles, theirs: Profiles, done: set<string>)
    requires done <= theirs.Keys
  {
    && ps.Keys == mine.Keys + done
    && forall h :: h in ps ==> ps[h] == if h in done then Adopt(mine, theirs)[h] else mine[h]
  }

  lemma {:induction false} AdoptOne(ps: Profiles, mine: Profiles, theirs: Profiles, done: set<string>, host: string)
    requires done <= theirs.Keys && host in theirs && host !in done && HalfAdopted(ps, mine, theirs, done)
    ensures HalfAdopted(
      if host in ps then ps[host := ps[host].(session := theirs[host].session)] else ps[host := theirs[host]],
      mine, theirs, done + {host})
  {
  }

  lemma {:induction false} NotYet(hosts: seq<string>, i: nat)
    requires NoRepeats(hosts) && i < |hosts|
    ensures hosts[i] !in Elems(hosts[..i])
  {
  }

  lemma {:induction false} AdoptedAll(ps: Profiles, mine: Profiles, theirs: Profiles)
    requires HalfAdopted(ps, mine, theirs, theirs.Keys)
    ensures ps == Adopt(mine, theirs)
  {
  }

  class GhostState {
    var profiles: Profiles
    var tier1: seq<Cookie>
    var vaultEpoch: nat
    var probesTotal: nat
    var prewarmedTotal: nat
    var pending: Option<Echo>

    function Value(): State
      reads this
    {
      State(profiles, tier1, vaultEpoch, probesTotal, prewarmedTotal, pending)
    }

    constructor (s: State)
      ensures Value() == s
    {
      profiles, tier1, vaultEpoch := s.profiles, s.tier1, s.vaultEpoch;
      probesTotal, prewarmedTotal, pending := s.probesTotal, s.prewarmedTotal, s.pending;
    }

    // ---- The tier-1 jar ----

    method MergeTier1Jar(all: seq<Cookie>, now: nat)
      modifies this`tier1
      ensures tier1 == Merge(old(tier1), all, now)
    {
      for i := 0 to |all|
        invariant Upsert(tier1, AcceptedRows(all[i..], now)) == Upsert(old(tier1), AcceptedRows(all, now))
      {
        var c := all[i];
        assert all[i..][1..] == all[i + 1..];
        if c.domain == "" || c.value == "" || |c.value| > TIER1_COOKIE_VALUE_MAX || Expired(c, now) {
          assert AcceptedRows(all[i..], now) == AcceptedRows(all[i + 1..], now);
          continue;
        }
        var rest := AcceptedRows(all[i + 1..], now);
        assert AcceptedRows(all[i..], now) == [c] + rest && ([c] + rest)[1..] == rest;
        tier1 := [c] + DropFirst(tier1, KeyOf(c));
      }
      tier1 := Recency.Capped(tier1, TIER1_COOKIE_MAX);
    }

    method SyncTier1Cookies(all: seq<Cookie>, now: nat, vaulting: bool, mode: Mode)
      modifies this
      ensures Value() == if vaulting && mode != Off then SyncTier1(old(Value()), all, now) else old(Value())
    {
      if !vaulting || mode == Off {
        return;
      }
      pending := Some(Echo(vaultEpoch, all));
      MergeTier1Jar(all, now);
    }

    // ---- Saving ----

    method MergeVaultFromDisk(disk: State)
      modifies this
      ensures Value() == MergeVault(old(Value()), disk)
    {
      if disk.vaultEpoch <= vaultEpoch {
        return;
      }
      AdoptProfiles(disk.profiles);
      tier1 := disk.tier1;
      vaultEpoch := disk.vaultEpoch;
    }

    method AdoptProfiles(theirs: Profiles)
      modifies this`profiles
      ensures profiles == Adopt(old(profiles), theirs)
    {
      var hosts := Hosts(theirs);
      ghost var mine := profiles;
      for i := 0 to |hosts|
        invariant Elems(hosts[..i]) <= theirs.Keys && HalfAdopted(profiles, mine, theirs, Elems(hosts[..i]))
      {
        var host := hosts[i];
        assert hosts[..i + 1] == hosts[..i] + [host];
        NotYet(hosts, i);
        AdoptOne(profiles, mine, theirs, Elems(hosts[..i]), host);
        if host in profiles {
          profiles := profiles[host := profiles[host].(session := theirs[host].session)];
        } else {
          profiles := profiles[host := theirs[host]];
        }
        assert Elems(hosts[..i + 1]) == Elems(hosts[..i]) + {host};
      }
      assert hosts[..|hosts|] == hosts && Elems(hosts) == theirs.Keys;
      AdoptedAll(profiles, mine, theirs);
    }

    /** Past the cap, drop the coldest hosts that vault nothing. */
    method EvictColdest(now: nat) returns (ghost victims: set<string>)
      modifies this`profiles
      ensures Evicts(old(profiles), victims, now)
      ensures profiles == old(profiles) - victims
    {
      victims := {};
      if |profiles| <= PROFILE_CAP {
        assert profiles - {} == profiles;
        return;
      }
      var order := FreeByActivity(profiles, now);
      var evict := Min(|profiles| - PROFILE_CAP, |order|);
      ghost var ps := profiles;
      ColdestFirst(ps, order, evict, now);
      DropHosts(order, evict);
      victims := Elems(order[..evict]);
    }

    method DropHosts(order: seq<string>, n: nat)
      requires n <= |order|
      modifies this`profiles
      ensures profiles == old(profiles) - Elems(order[..n])
    {
      assert profiles - {} == profiles && Elems<string>([]) == {};
      for i := 0 to n
        invariant profiles == old(profiles) - Elems(order[..i])
      {
        assert order[..i + 1] == order[..i] + [order[i]];
        assert Elems(order[..i + 1]) == Elems(order[..i]) + {order[i]};
        profiles := profiles - {order[i]};
      }
    }

    /** The write itself: reconcile with disk, re-apply the echo, write. */
    method Persist(disk: State, now: nat) returns (written: State, ghost victims: set<string>)
      modifies this
      ensures Evicts(old(profiles), victims, now)
      ensures Value() == written == Persisted(old(Value()), disk, victims, now)
    {
      victims := EvictColdest(now);
      probesTotal := Max(probesTotal, disk.probesTotal);
      prewarmedTotal := Max(prewarmedTotal, disk.prewarmedTotal);
      MergeVaultFromDisk(disk);
      if pending.Some? {
        var echo := pending.value;
        pending := None;
        var keep := Unfenced(echo.rows, disk.profiles, echo.epoch);
        MergeTier1Jar(keep, now);
        vaultEpoch := BumpEpoch(vaultEpoch);
      }
      written := Value();
    }

    // ---- Observing ----

    /** Put the host's new route part in place and save. */
    method Commit(host: string, route: RoutePart, now: nat, disk: State)
      returns (written: State, ghost victims: set<string>)
      modifies this
      ensures var seen := Rerouted(old(Value()), host, route);
        Evicts(seen.profiles, victims, now) && Value() == written == Persisted(seen, disk, victims, now)
    {
      profiles := profiles[host := ProfileOf(profiles, host).(route := route)];
      written, victims := Persist(disk, now);
    }

    method RecordFetch(host: string, now: nat, mode: Mode, disk: State)
      returns (written: Option<State>, ghost victims: set<string>)
      modifies this
      ensures Recorded(old(Value()), Value(), written, victims, host, Fetched, now, mode, disk)
    {
      written, victims := None, {};
      if mode != On { return; }
      var r := ProfileOf(profiles, host).route;
      var seen := r.(fetchCount := Succ32(r.fetchCount), lastColdCheck := now);
      assert seen == Observe(r, Fetched, now);
      var w;
      w, victims := Commit(host, seen, now, disk);
      written := Some(w);
    }

    method RecordProbeInconclusive(host: string, now: nat, mode: Mode, disk: State)
      returns (written: Option<State>, ghost victims: set<string>)
      modifies this
      ensures Recorded(old(Value()), Value(), written, victims, host, ProbeInconclusive, now, mode, disk)
    {
      written, victims := None, {};
      if mode != On { return; }
      var r := ProfileOf(profiles, host).route;
      var seen := r.(lastColdCheck := now);
      assert seen == Observe(r, ProbeInconclusive, now);
      var w;
      w, victims := Commit(host, seen, now, disk);
      written := Some(w);
    }

    /** A known origin is not saved again, though its profile now exists. */
    method NoteOrigin(host: string, scheme: string, port: nat, now: nat, mode: Mode, disk: State)
      returns (written: Option<State>, ghost victims: set<string>)
      modifies this
      ensures var before, r := old(Value()), ProfileOf(old(profiles), host).route;
        if scheme !in {"http", "https"} then Value() == before && written == None
        else if mode == On && r.originScheme == scheme && r.originPort == port
        then Value() == Rerouted(before, host, r) && written == None
        else Recorded(before, Value(), written, victims, host, OriginNoted(scheme, port), now, mode, disk)
    {
      written, victims := None, {};
      if mode != On || (scheme != "http" && scheme != "https") { return; }
      var p := ProfileOf(profiles, host);
      if p.route.originScheme == scheme && p.route.originPort == port {
        assert p.(route := p.route) == p;
        profiles := profiles[host := p];
        return;
      }
      var seen := p.route.(originScheme := scheme, originPort := port);
      assert seen == Observe(p.route, OriginNoted(scheme, port), now);
      var w;
      w, victims := Commit(host, seen, now, disk);
      written := Some(w);
    }

    method RecordFailure(host: string, kind: FailClass, now: nat, mode: Mode, disk: State)
      returns (written: Option<State>, ghost victims: set<string>)
      modifies this
      ensures Recorded(old(Value()), Value(), written, victims, host, Failed(kind), now, mode, disk)
    {
      written, victims := None, {};
      if mode != On { return; }
      var r := FailedRoute(ProfileOf(profiles, host).route, kind, now);
      var w;
      w, victims := Commit(host, r, now, disk);
      written := Some(w);
    }

    method RecordColdOk(host: string, egress: string, now: nat, mode: Mode, disk: State)
      returns (written: Option<State>, ghost victims: set<string>)
      modifies this
      ensures Recorded(old(Value()), Value(), written, victims, host, ColdOk(egress), now, mode, disk)
    {
      written, victims := None, {};
      if mode != On { return; }
      var r := ProfileOf(profiles, host).route;
      r := r.(t1Ewma := EwmaUpdate(r.t1Ewma, r.t1Samples, true));
      r := r.(t1Samples := Succ32(r.t1Samples), fetchCount := Succ32(r.fetchCount), lastColdCheck := now);
      r := r.(warmFailStreak := 0, wallFailStreak := 0, lastWallFail := 0);
      if r.needsTier2 {
        r := r.(needsTier2 := false, wallVendor := None);
        r := r.(cookies := [], observedLifetime := None, replayOk := false);
      }
      var w;
      w, victims := Commit(host, r.(egressClass := Some(egress)), now, disk);
      written := Some(w);
    }

    method RecordColdWalled(host: string, vendor: Option<string>, egress: string, now: nat, mode: Mode, disk: State)
      returns (written: Option<State>, ghost victims: set<string>)
      modifies this
      ensures Recorded(old(Value()), Value(), written, victims, host, ColdWalled(egress, vendor), now, mode, disk)
    {
      written, victims := None, {};
      if mode != On { return; }
      var r := ProfileOf(profiles, host).route;
      r := r.(t1Ewma := EwmaUpdate(r.t1Ewma, r.t1Samples, false));
      r := r.(t1Samples := Succ32(r.t1Samples), fetchCount := Succ32(r.fetchCount), walledCount := Succ32(r.walledCount));
      r := r.(needsTier2 := true, lastColdCheck := now);
      if vendor.Some? {
        r := r.(wallVendor := vendor);
      }
      if r.wallEgressClass.Some? && r.wallEgressClass.value != egress {
        r := r.(wallFailStreak := 0);
      }
      r := r.(wallEgressClass := Some(egress), wallFailStreak := Succ32(r.wallFailStreak), lastWallFail := now);
      var w;
      w, victims := Commit(host, r, now, disk);
      written := Some(w);
    }

    method RecordWarmOk(host: string, refreshed: seq<Cookie>, egress: string, now: nat, mode: Mode, disk: State)
      returns (written: Option<State>, ghost victims: set<string>)
      modifies this
      ensures Recorded(old(Value()), Value(), written, victims, host, WarmOk(egress, refreshed), now, mode, disk)
    {
      written, victims := None, {};
      if mode != On { return; }
      var r := ProfileOf(profiles, host).route;
      r := r.(warmEwma := EwmaUpdate(r.warmEwma, r.warmSamples, true));
      r := r.(warmSamples := Succ32(r.warmSamples), fetchCount := Succ32(r.fetchCount), warmOkCount := Succ32(r.warmOkCount));
      r := r.(warmFailStreak := 0, wallFailStreak := 0, lastWallFail := 0, lastRefreshed := now);
      var cookies := r.cookies;
      for i := 0 to |refreshed|
        invariant Refresh(cookies, refreshed[i..]) == Refresh(r.cookies, refreshed)
      {
        assert refreshed[i..][1..] == refreshed[i + 1..];
        if IsClearance(refreshed[i].name) {
          cookies := ReplaceOrPush(cookies, refreshed[i]);
        }
      }
      var w;
      w, victims := Commit(host, r.(cookies := cookies, egressClass := Some(egress)), now, disk);
      written := Some(w);
    }

    method RecordWarmStale(host: string, now: nat, mode: Mode, disk: State)
      returns (written: Option<State>, ghost victims: set<string>)
      modifies this
      ensures Recorded(old(Value()), Value(), written, victims, host, WarmStale, now, mode, disk)
    {
      written, victims := None, {};
      if mode != On { return; }
      var r := StaleRoute(ProfileOf(profiles, host).route, now);
      var w;
      w, victims := Commit(host, r, now, disk);
      written := Some(w);
    }
  }

  /** A classified failure joins the histogram; past the cap the oldest leave. */
  method FailedRoute(before: RoutePart, kind: FailClass, now: nat) returns (r: RoutePart)
    ensures r == Observe(before, Failed(kind), now)
  {
    var all := before.failures + [Failure(now, kind)];
    var failures := all;
    while |failures| > FAILURES_PER_HOST
      invariant |failures| <= |all| && failures == all[|all| - |failures|..]
      invariant |all| > FAILURES_PER_HOST ==> |failures| >= FAILURES_PER_HOST
      invariant |all| <= FAILURES_PER_HOST ==> failures == all
    {
      failures := failures[1..];
    }
    r := before.(failures := failures);
  }

  /** A second warm failure in a row learns the cookies' lifetime, never under
      two minutes, and drops them. */
  method StaleRoute(before: RoutePart, now: nat) returns (r: RoutePart)
    ensures r == Observe(before, WarmStale, now)
  {
    r := before;
    r := r.(warmEwma := EwmaUpdate(r.warmEwma, r.warmSamples, false));
    r := r.(warmSamples := Succ32(r.warmSamples), fetchCount := Succ32(r.fetchCount));
    r := r.(warmFailCount := Succ32(r.warmFailCount), warmFailStreak := Succ32(r.warmFailStreak));
    if r.warmFailStreak >= 2 {
      var elapsed := Max(if r.lastSolved <= now then now - r.lastSolved else 0, 120);
      var learned := if r.observedLifetime.Some? then Min(Max(r.observedLifetime.value, 120), elapsed) else elapsed;
      r := r.(observedLifetime := Some(learned), cookies := [], lastRefreshed := 0, replayOk := false);
    }
  }

  function Rerouted(s: State, host: string, route: RoutePart): State
  {
    s.(profiles := s.profiles[host := ProfileOf(s.profiles, host).(route := route)])
  }

  /** What recording one observation does to memory and disk. */
  ghost predicate Recorded(before: State, after: State, written: Option<State>, victims: set<string>,
                           host: string, o: Observation, now: nat, mode: Mode, disk: State)
  {
    if mode != On then after == before && written == None
    else
      var seen := Rerouted(before, host, Observe(ProfileOf(before.profiles, host).route, o, now));
      Evicts(seen.profiles, victims, now) && after == Persisted(seen, disk, victims, now) && written == Some(after)
  }

  /** Recording an observation is a lawful route-learning step followed by a
      save, so every result about runs of the vault protocol covers it. */
  lemma {:induction false} RecordingIsLearnThenSave(g: Hygiene, w: World, id: nat, after: State, victims: set<string>,
                                 host: string, o: Observation)
    requires id in w.snaps
    requires Recorded(w.snaps[id], after, Some(after), victims, host, o, w.now, On, w.disk)
    ensures var route := Observe(ProfileOf(w.snaps[id].profiles, host).route, o, w.now);
      && Lawful(g, w, Learn(id, map[host := route], 0, 0))
      && Run(g, w, [Learn(id, map[host := route], 0, 0), Save(id, victims)]) == w.(disk := after, snaps := w.snaps[id := after])
  {
    var s := w.snaps[id];
    ObservedIsReachable(ProfileOf(s.profiles, host).route, o, w.now);
    var route := Observe(ProfileOf(s.profiles, host).route, o, w.now);
    TwoSteps(g, w, Learn(id, map[host := route], 0, 0), Save(id, victims));
    LearnStep(g, w, id, host, route);
    SaveStep(g, w, id, Rerouted(s, host, route), after, victims);
  }

  lemma {:induction false} LearnStep(g: Hygiene, w: World, id: nat, host: string, route: RoutePart)
    requires id in w.snaps
    ensures Next(g, w, Learn(id, map[host := route], 0, 0))
         == w.(snaps := w.snaps[id := Rerouted(w.snaps[id], host, route)])
  {
    LearnOne(w.snaps[id], host, route);
  }

  lemma {:induction false} SaveStep(g: Hygiene, w: World, id: nat, seen: State, after: State, victims: set<string>)
    requires after == Persisted(seen, w.disk, victims, w.now)
    ensures Next(g, w.(snaps := w.snaps[id := seen]), Save(id, victims)) == w.(disk := after, snaps := w.snaps[id := after])
  {
    assert w.snaps[id := seen][id := after] == w.snaps[id := after];
  }

  lemma {:induction false} LearnOne(s: State, host: string, route: RoutePart)
    ensures s.(profiles := Learned(s.profiles, map[host := route]), probesTotal := s.probesTotal + 0,
               prewarmedTotal := s.prewarmedTotal + 0) == Rerouted(s, host, route)
  {
    assert Learned(s.profiles, map[host := route]) == Rerouted(s, host, route).profiles;
  }

  lemma {:induction false} TwoSteps(g: Hygiene, w: World, a: Step, b: Step)
    ensures Run(g, w, [a, b]) == Next(g, Next(g, w, a), b)
  {
    assert [a, b][1..] == [b] && [b][1..] == [];
    assert Run(g, Next(g, w, a), [b]) == Next(g, Next(g, w, a), b);
  }

  /** The rows of a stashed flush that no later clear on disk fences. */
  method Unfenced(rows: seq<Cookie>, disk: Profiles, epoch: nat) returns (keep: seq<Cookie>)
    ensures keep == EchoRows(rows, disk, epoch)
    ensures forall c :: c in keep <==> c in rows && !Fenced(disk, c, epoch)
  {
    keep := [];
    for i := 0 to |rows|
      invariant keep + EchoRows(rows[i..], disk, epoch) == EchoRows(rows, disk, epoch)
    {
      UnfencedStep(rows, i, disk, epoch, keep);
      if !Fenced(disk, rows[i], epoch) {
        keep := keep + [rows[i]];
      }
    }
    EchoRowsMeaning(rows, disk, epoch);
  }

  lemma {:induction false} UnfencedStep(rows: seq<Cookie>, i: nat, disk: Profiles, epoch: nat, keep: seq<Cookie>)
    requires i < |rows|
    ensures keep + EchoRows(rows[i..], disk, epoch)
         == (if Fenced(disk, rows[i], epoch) then keep else keep + [rows[i]]) + EchoRows(rows[i + 1..], disk, epoch)
  {
    assert rows[i..][1..] == rows[i + 1..];
  }

  /** The session-free hosts, coldest first. */
  method FreeByActivity(ps: Profiles, now: nat) returns (order: seq<string>)
    ensures NoRepeats(order) && forall h :: h in order <==> h in SessionFree(ps)
    ensures forall i, j :: 0 <= i < j < |order| ==>
      LastActivity(ProfileOf(ps, order[i]), now) <= LastActivity(ProfileOf(ps, order[j]), now)
  {
    var hosts := Hosts(ps);
    var free := [];
    for i := 0 to |hosts|
      invariant NoRepeats(free)
      invariant forall h :: h in free <==> h in hosts[..i] && h in SessionFree(ps)
    {
      assert hosts[..i + 1] == hosts[..i] + [hosts[i]] && hosts[i] !in hosts[..i];
      if ps[hosts[i]].session.cookies == [] {
        free := free + [hosts[i]];
      }
    }
    assert hosts[..|hosts|] == hosts;
    var colder := (a: string, b: string) => LastActivity(ProfileOf(ps, a), now) <= LastActivity(ProfileOf(ps, b), now);
    order := Sorting.Sort(free, colder);
    Sorting.SortPermutes(free, colder);
    Sorting.SortSorts(free, colder);
    PermutedOnce(free, order);
  }

  lemma {:induction false} ColdestFirst(ps: Profiles, order: seq<string>, n: nat, now: nat)
    requires NoRepeats(order) && |ps| > PROFILE_CAP && n == Min(|ps| - PROFILE_CAP, |order|)
    requires forall h :: h in order <==> h in SessionFree(ps)
    requires forall i, j :: 0 <= i < j < |order| ==>
      LastActivity(ProfileOf(ps, order[i]), now) <= LastActivity(ProfileOf(ps, order[j]), now)
    ensures Evicts(ps, Elems(order[..n]), now)
  {
    ElemsCount(order);
    ElemsCount(order[..n]);
    assert Elems(order) == SessionFree(ps);
    assert forall h :: h in order[..n] ==> h in order;
    forall v, f | v in Elems(order[..n]) && f in SessionFree(ps) - Elems(order[..n])
      ensures LastActivity(ps[v], now) <= LastActivity(ps[f], now)
    {
      var i, j := Place(order, n, v), Place(order, |order|, f);
      assert j >= n;
    }
  }

  function Place(order: seq<string>, n: nat, h: string): (i: nat)
    requires n <= |order| && h in order[..n]
    ensures i < n && order[i] == h
  {
    if order[n - 1] == h then n - 1 else Place(order, n - 1, h)
  }
}
