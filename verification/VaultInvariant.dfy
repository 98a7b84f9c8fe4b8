/** What every interleaving of the vault protocol keeps. */
module VaultInvariant {
  import opened Options
  import opened SessionVault
  import opened GhostStore
  import opened VaultProtocol

  // ---- Coherence: holds until an epoch saturates or a profile is evicted ----

  /** A host's session part as a reader at `now` sees it. */
  function View(g: Hygiene, ps: Profiles, host: string, now: nat): SessionPart
  {
    var p := At(VaultOf(ps), host);
    p.(cookies := Kept(g, p.cookies, now))
  }

  ghost predicate Agree(g: Hygiene, ps: Profiles, qs: Profiles, now: nat)
  {
    forall h :: View(g, ps, h, now) == View(g, qs, h, now)
  }

  /** Every host `ps` holds session material or a stamp for has a profile in `qs`. */
  ghost predicate Covers(qs: Profiles, ps: Profiles)
  {
    forall h :: At(VaultOf(ps), h) != NO_SESSION ==> h in qs
  }

  /** Two copies of the state: equal epochs mean equal vaults, and a newer copy
      has forgotten no host the older one marks. */
  ghost predicate PairCoherent(g: Hygiene, a: State, b: State, now: nat)
  {
    && (a.vaultEpoch == b.vaultEpoch ==> Agree(g, a.profiles, b.profiles, now))
    && (a.vaultEpoch <= b.vaultEpoch ==> Covers(b.profiles, a.profiles))
  }

  ghost predicate Coherent(g: Hygiene, w: World)
  {
    && (forall i :: i in w.snaps ==> PairCoherent(g, w.snaps[i], w.disk, w.now))
    && (forall i :: i in w.snaps ==> PairCoherent(g, w.disk, w.snaps[i], w.now))
    && (forall i, j :: i in w.snaps && j in w.snaps ==> PairCoherent(g, w.snaps[i], w.snaps[j], w.now))
  }

  ghost predicate Inv(g: Hygiene, w: World)
  {
    Ordered(w) && (w.disk.vaultEpoch < EPOCH_MAX ==> Coherent(g, w))
  }

  lemma {:induction false} AgreeLater(g: Hygiene, ps: Profiles, qs: Profiles, now: nat, later: nat)
    requires Agree(g, ps, qs, now) && now <= later
    ensures Agree(g, ps, qs, later)
  {
    forall h ensures View(g, ps, h, later) == View(g, qs, h, later) {
      assert View(g, ps, h, now) == View(g, qs, h, now);
      KeptLater(g, At(VaultOf(ps), h).cookies, now, later);
      KeptLater(g, At(VaultOf(qs), h).cookies, now, later);
    }
  }

  lemma {:induction false} AgreeTrans(g: Hygiene, ps: Profiles, qs: Profiles, rs: Profiles, now: nat)
    requires Agree(g, ps, qs, now) && Agree(g, qs, rs, now)
    ensures Agree(g, ps, rs, now)
  {
  }

  lemma {:induction false} AgreeSameSessions(g: Hygiene, ps: Profiles, qs: Profiles, now: nat)
    requires Agree(g, ps, qs, now)
    ensures SameSessions(g, ps, qs, now)
  {
    forall h ensures DrawerOf(g, VaultOf(ps), h, now) == DrawerOf(g, VaultOf(qs), h, now) {
      assert View(g, ps, h, now) == View(g, qs, h, now);
    }
  }

  /** Replacing a copy by one with the same epoch, the same view and no fewer
      hosts or more marks keeps its pairs coherent. */
  ghost predicate Refreshes(g: Hygiene, a: State, b: State, now: nat)
  {
    && a.vaultEpoch == b.vaultEpoch
    && Agree(g, a.profiles, b.profiles, now) && Agree(g, b.profiles, a.profiles, now)
    && (forall h :: At(VaultOf(b.profiles), h) != NO_SESSION ==> At(VaultOf(a.profiles), h) != NO_SESSION)
    && (forall h :: h in a.profiles ==> h in b.profiles)
  }

  lemma {:induction false} RefreshedPair(g: Hygiene, a: State, b: State, c: State, now: nat)
    requires Refreshes(g, a, b, now) && PairCoherent(g, a, c, now) && PairCoherent(g, c, a, now)
    ensures PairCoherent(g, b, c, now) && PairCoherent(g, c, b, now)
  {
  }

  lemma {:induction false} ReadRefreshes(g: Hygiene, disk: State, now: nat)
    ensures Refreshes(g, disk, ReadIn(g, disk, now), now)
  {
    ReadFacts(g, disk, now);
    var s := ReadIn(g, disk, now);
    forall h ensures View(g, disk.profiles, h, now) == View(g, s.profiles, h, now) {
      KeptLater(g, At(VaultOf(disk.profiles), h).cookies, now, now);
    }
  }

  lemma {:induction false} LoadRefreshes(g: Hygiene, disk: State, now: nat)
    requires disk.pending == None
    ensures Refreshes(g, disk, Loaded(g, disk, {}, now), now)
  {
    LoadedFacts(g, disk, {}, now);
    var s := Loaded(g, disk, {}, now);
    forall h ensures View(g, disk.profiles, h, now) == View(g, s.profiles, h, now) {
      KeptLater(g, At(VaultOf(disk.profiles), h).cookies, now, now);
    }
  }

  // ---- One save ----

  /** What a coherent save writes: the view disk had, under an epoch at least
      disk's, with every host of both sides it must keep. */
  lemma {:induction false} SaveCoherent(g: Hygiene, s: State, disk: State, now: nat)
    requires SnapOrdered(s, disk) && disk.vaultEpoch < EPOCH_MAX
    requires PairCoherent(g, s, disk, now) && PairCoherent(g, disk, s, now)
    ensures var r := Persisted(s, disk, {}, now);
      && Agree(g, r.profiles, disk.profiles, now) && Agree(g, disk.profiles, r.profiles, now)
      && r.vaultEpoch == (if s.pending.Some? then disk.vaultEpoch + 1 else disk.vaultEpoch)
      && (if s.vaultEpoch == disk.vaultEpoch then r.profiles == s.profiles
          else (forall h :: At(VaultOf(r.profiles), h) == At(VaultOf(disk.profiles), h))
               && disk.profiles.Keys <= r.profiles.Keys)
  {
  }

  /** The saved state stays coherent with every other copy. */
  lemma {:induction false} SavedPair(g: Hygiene, s: State, disk: State, other: State, now: nat)
    requires SnapOrdered(s, disk) && SnapOrdered(other, disk) && disk.vaultEpoch < EPOCH_MAX
    requires PairCoherent(g, s, disk, now) && PairCoherent(g, disk, s, now)
    requires PairCoherent(g, other, disk, now) && PairCoherent(g, disk, other, now)
    requires PairCoherent(g, other, s, now) && PairCoherent(g, s, other, now)
    ensures var r := Persisted(s, disk, {}, now);
      PairCoherent(g, other, r, now) && PairCoherent(g, r, other, now)
  {
    var r := Persisted(s, disk, {}, now);
    SaveCoherent(g, s, disk, now);
    if other.vaultEpoch == r.vaultEpoch {
      AgreeTrans(g, other.profiles, disk.profiles, r.profiles, now);
      AgreeTrans(g, r.profiles, disk.profiles, other.profiles, now);
    }
    if s.vaultEpoch == disk.vaultEpoch {
      assert Covers(r.profiles, other.profiles);
    } else {
      forall h | At(VaultOf(other.profiles), h) != NO_SESSION ensures h in r.profiles {
        assert h in disk.profiles;
      }
      if r.vaultEpoch <= other.vaultEpoch {
        forall h | At(VaultOf(r.profiles), h) != NO_SESSION ensures h in other.profiles {
          assert At(VaultOf(disk.profiles), h) != NO_SESSION;
        }
      }
    }
  }

  lemma {:induction false} PairSelf(g: Hygiene, a: State, now: nat)
    ensures PairCoherent(g, a, a, now)
  {
  }

  // ---- One step ----

  lemma {:induction false} SaveStepCoherent(g: Hygiene, w: World, id: nat)
    requires Inv(g, w) && w.disk.vaultEpoch < EPOCH_MAX && id in w.snaps
    ensures Coherent(g, Next(g, w, Save(id, {})))
  {
    var s := w.snaps[id];
    var r := Persisted(s, w.disk, {}, w.now);
    var w' := Next(g, w, Save(id, {}));
    assert w'.disk == r && w'.snaps == w.snaps[id := r];
    forall i | i in w.snaps ensures PairCoherent(g, w.snaps[i], r, w.now) && PairCoherent(g, r, w.snaps[i], w.now) {
      SavedPair(g, s, w.disk, w.snaps[i], w.now);
    }
    PairSelf(g, r, w.now);
  }

  /** A helper that edits raises the epoch past every snapshot. */
  lemma {:induction false} HelperStepCoherent(g: Hygiene, w: World, t: Step)
    requires Inv(g, w) && w.disk.vaultEpoch < EPOCH_MAX && IsHelper(t) && NoEviction(t)
    ensures Coherent(g, Next(g, w, t))
  {
    if !Trivial(t) {
      var s := Loaded(g, w.disk, {}, w.now);
      LoadRefreshes(g, w.disk, w.now);
      LoadedFacts(g, w.disk, {}, w.now);
      var edit := HelperEdit(g, s, t, w.now);
      if edit.None? {
        forall i | i in w.snaps ensures PairCoherent(g, w.snaps[i], s, w.now) && PairCoherent(g, s, w.snaps[i], w.now) {
          RefreshedPair(g, w.disk, s, w.snaps[i], w.now);
        }
      } else {
        EditOrder(g, s, t, w.now);
        var d := Persisted(edit.value, s, {}, w.now);
        PersistedForward(edit.value, s, {}, w.now);
        assert edit.value.profiles - {} == edit.value.profiles;
        forall i | i in w.snaps ensures PairCoherent(g, w.snaps[i], d, w.now) && PairCoherent(g, d, w.snaps[i], w.now) {
          assert SnapOrdered(w.snaps[i], w.disk);
          assert PairCoherent(g, w.snaps[i], w.disk, w.now);
          assert Covers(w.disk.profiles, w.snaps[i].profiles);
        }
      }
    }
  }

  /** A snapshot coherent with all others may join them or take one's place. */
  lemma {:induction false} JoinedCoherent(g: Hygiene, w: World, id: nat, s: State)
    requires Coherent(g, w)
    requires PairCoherent(g, s, w.disk, w.now) && PairCoherent(g, w.disk, s, w.now)
    requires forall i :: i in w.snaps ==> PairCoherent(g, w.snaps[i], s, w.now) && PairCoherent(g, s, w.snaps[i], w.now)
    ensures Coherent(g, w.(snaps := w.snaps[id := s]))
  {
    PairSelf(g, s, w.now);
  }

  lemma {:induction false} BootStepCoherent(g: Hygiene, w: World, id: nat)
    requires Coherent(g, w)
    ensures Coherent(g, Next(g, w, Boot(id)))
  {
    var s := ReadIn(g, w.disk, w.now);
    ReadRefreshes(g, w.disk, w.now);
    PairSelf(g, w.disk, w.now);
    RefreshedAmong(g, w, w.disk, s);
    JoinedCoherent(g, w, id, s);
  }

  /** A refreshed copy is coherent with whatever the copy it refreshes is. */
  lemma {:induction false} RefreshedAmong(g: Hygiene, w: World, a: State, s: State)
    requires Refreshes(g, a, s, w.now)
    requires PairCoherent(g, a, w.disk, w.now) && PairCoherent(g, w.disk, a, w.now)
    requires forall i :: i in w.snaps ==> PairCoherent(g, w.snaps[i], a, w.now) && PairCoherent(g, a, w.snaps[i], w.now)
    ensures PairCoherent(g, s, w.disk, w.now) && PairCoherent(g, w.disk, s, w.now)
    ensures forall i :: i in w.snaps ==> PairCoherent(g, w.snaps[i], s, w.now) && PairCoherent(g, s, w.snaps[i], w.now)
  {
    RefreshedPair(g, a, s, w.disk, w.now);
    forall i | i in w.snaps ensures PairCoherent(g, w.snaps[i], s, w.now) && PairCoherent(g, s, w.snaps[i], w.now) {
      RefreshedPair(g, a, s, w.snaps[i], w.now);
    }
  }

  lemma {:induction false} LocalStepCoherent(g: Hygiene, w: World, t: Step)
    requires Coherent(g, w) && (t.Learn? || t.Sync?) && t.id in w.snaps
    ensures Coherent(g, Next(g, w, t))
  {
    var s, s' := w.snaps[t.id], Next(g, w, t).snaps[t.id];
    LocalRefreshes(g, w, t);
    RefreshedAmong(g, w, s, s');
    JoinedCoherent(g, w, t.id, s');
  }

  lemma {:induction false} LocalRefreshes(g: Hygiene, w: World, t: Step)
    requires (t.Learn? || t.Sync?) && t.id in w.snaps
    ensures Refreshes(g, w.snaps[t.id], Next(g, w, t).snaps[t.id], w.now)
  {
  }

  lemma {:induction false} LaterCoherent(g: Hygiene, w: World, later: nat)
    requires Coherent(g, w) && w.now <= later
    ensures Coherent(g, w.(now := later))
  {
    forall i | i in w.snaps
      ensures PairCoherent(g, w.snaps[i], w.disk, later) && PairCoherent(g, w.disk, w.snaps[i], later)
    {
      PairLater(g, w.snaps[i], w.disk, w.now, later);
      PairLater(g, w.disk, w.snaps[i], w.now, later);
    }
    forall i, j | i in w.snaps && j in w.snaps ensures PairCoherent(g, w.snaps[i], w.snaps[j], later) {
      PairLater(g, w.snaps[i], w.snaps[j], w.now, later);
    }
  }

  lemma {:induction false} PairLater(g: Hygiene, a: State, b: State, now: nat, later: nat)
    requires PairCoherent(g, a, b, now) && now <= later
    ensures PairCoherent(g, a, b, later)
  {
    if a.vaultEpoch == b.vaultEpoch {
      AgreeLater(g, a.profiles, b.profiles, now, later);
    }
  }

  /** The invariant of every interleaving: below the last epoch and without an
      eviction, each step leaves no snapshot ahead of disk, every snapshot at
      disk's epoch with disk's vault, and no marked host forgotten. */
  lemma {:induction false} StepKeepsInv(g: Hygiene, w: World, t: Step)
    requires Inv(g, w) && NoEviction(t)
    ensures Inv(g, Next(g, w, t))
  {
    StepOrdered(g, w, t);
    if w.disk.vaultEpoch < EPOCH_MAX {
      if IsHelper(t) {
        HelperStepCoherent(g, w, t);
      } else if t.Tick? {
        LaterCoherent(g, w, w.now + t.secs);
      } else if t.Boot? {
        BootStepCoherent(g, w, t.id);
      } else if t.id in w.snaps {
        if t.Save? {
          SaveStepCoherent(g, w, t.id);
        } else if !t.Exit? {
          LocalStepCoherent(g, w, t);
        }
      }
    }
  }

  lemma {:induction false} RunKeepsInv(g: Hygiene, w: World, steps: seq<Step>)
    requires Inv(g, w) && forall t :: t in steps ==> NoEviction(t)
    ensures Inv(g, Run(g, w, steps))
    decreases |steps|
  {
    if steps != [] {
      StepKeepsInv(g, w, steps[0]);
      RunKeepsInv(g, Next(g, w, steps[0]), steps[1..]);
    }
  }

  // ---- Snapshots never move the vault ----

  /** Whatever a snapshot boots, learns, syncs or saves, and however stale it
      is, every host's vault and deletion stamp on disk reads as before. */
  lemma {:induction false} SnapshotsKeepVault(g: Hygiene, w: World, t: Step)
    requires Inv(g, w) && NoEviction(t) && !IsHelper(t) && w.disk.vaultEpoch < EPOCH_MAX
    ensures Agree(g, Next(g, w, t).disk.profiles, w.disk.profiles, Next(g, w, t).now)
  {
    if t.Save? && t.id in w.snaps {
      SaveCoherent(g, w.snaps[t.id], w.disk, w.now);
    }
  }

  /** Between two helper writes, no interleaving of snapshots undoes a logout
      or loses a harvest. */
  lemma {:induction false} QuietRunKeepsVault(g: Hygiene, w: World, steps: seq<Step>)
    requires Inv(g, w) && forall t :: t in steps ==> NoEviction(t) && !IsHelper(t)
    requires Run(g, w, steps).disk.vaultEpoch < EPOCH_MAX
    ensures Agree(g, Run(g, w, steps).disk.profiles, w.disk.profiles, Run(g, w, steps).now)
    decreases |steps|
  {
    if steps != [] {
      var w' := Next(g, w, steps[0]);
      StepOrdered(g, w, steps[0]);
      StepKeepsInv(g, w, steps[0]);
      RunOrdered(g, w', steps[1..]);
      SnapshotsKeepVault(g, w, steps[0]);
      QuietRunKeepsVault(g, w', steps[1..]);
      var end := Run(g, w, steps);
      AgreeLater(g, w'.disk.profiles, w.disk.profiles, w'.now, end.now);
      AgreeTrans(g, end.disk.profiles, w'.disk.profiles, w.disk.profiles, end.now);
    }
  }
}
