/** The tier-1 jar on disk over whole runs: whose rows reach it, and when. */
module VaultJar {
  import opened Options
  import opened Tier1Jar
  import Recency
  import opened SessionVault
  import opened GhostStore
  import opened VaultProtocol
  import opened VaultLogout

  // ---- What each snapshot still has to save ----

  /** The flushes a snapshot took since its last boot or save, and whether
      someone else has written the vault since. */
  datatype Unsaved = Unsaved(flushes: seq<Flush>, overtaken: bool)

  type Ledger = map<nat, Unsaved>

  const SAVED: Unsaved := Unsaved([], false)

  /** The step writes the vault under a new epoch: a save with a stashed flush,
      or a helper that has something to write. */
  ghost predicate Writes(g: Hygiene, w: World, t: Step)
  {
    if IsHelper(t) then !Trivial(t) && HelperEdit(g, Loaded(g, w.disk, t.loadVictims, w.now), t, w.now).Some?
    else t.Save? && t.id in w.snaps && w.snaps[t.id].pending.Some?
  }

  function Overtake(l: Ledger): Ledger { map i | i in l :: l[i].(overtaken := true) }

  ghost function LedgerAfter(g: Hygiene, w: World, l: Ledger, t: Step): Ledger
  {
    var m := if Writes(g, w, t) then Overtake(l) else l;
    if t.Boot? || (t.Save? && t.id in m) then m[t.id := SAVED]
    else if t.Sync? && t.id in m then m[t.id := m[t.id].(flushes := m[t.id].flushes + [Flush(t.rows, w.now)])]
    else if t.Exit? then m - {t.id}
    else m
  }

  /** A snapshot that nobody has overtaken holds the jar of disk with its own
      unsaved flushes on top; without any, it holds the jar of disk. */
  ghost predicate TracksOne(s: State, disk: State, u: Unsaved)
  {
    && (u.overtaken <==> s.vaultEpoch < disk.vaultEpoch)
    && (s.pending.None? <==> u.flushes == [])
    && (s.pending.Some? ==> s.pending.value.rows == u.flushes[|u.flushes| - 1].rows)
    && (!u.overtaken ==> s.tier1 == JarAfter(disk.tier1, u.flushes))
  }

  ghost predicate Tracks(w: World, l: Ledger)
  {
    l.Keys == w.snaps.Keys && forall i :: i in l ==> TracksOne(w.snaps[i], w.disk, l[i])
  }

  // ---- What reaches the jar on disk ----

  datatype JarEvent = Flushed(flushes: seq<Flush>) | Cleared(key: string)

  function Happen(jar: seq<Cookie>, e: JarEvent): seq<Cookie>
  {
    match e
    case Flushed(flushes) => JarAfter(jar, flushes)
    case Cleared(key) => WithoutDomain(jar, key)
  }

  function HappenAll(jar: seq<Cookie>, es: seq<JarEvent>): seq<Cookie>
    decreases |es|
  {
    if es == [] then jar else HappenAll(Happen(jar, es[0]), es[1..])
  }

  /** The stashed flush as its save re-applies it: less the rows fenced since. */
  function Again(w: World, id: nat): Flush
    requires id in w.snaps && w.snaps[id].pending.Some?
  {
    Flush(Unfenced(w.snaps[id], w.disk), w.now)
  }

  /** What a save brings to the jar: all unsaved flushes if nobody has written in
      between, and otherwise the last one alone. */
  function Saved(w: World, u: Unsaved, id: nat): seq<Flush>
    requires id in w.snaps && w.snaps[id].pending.Some?
  {
    (if u.overtaken then [] else u.flushes) + [Again(w, id)]
  }

  function JarEventsOf(w: World, l: Ledger, t: Step): seq<JarEvent>
  {
    if t.Logout? && !Trivial(t) then [Cleared(LogoutKey(t.domain))]
    else if t.Save? && t.id in w.snaps && t.id in l && w.snaps[t.id].pending.Some? then [Flushed(Saved(w, l[t.id], t.id))]
    else []
  }

  ghost function JarEvents(g: Hygiene, w: World, l: Ledger, steps: seq<Step>): seq<JarEvent>
    decreases |steps|
  {
    if steps == [] then []
    else JarEventsOf(w, l, steps[0]) + JarEvents(g, Next(g, w, steps[0]), LedgerAfter(g, w, l, steps[0]), steps[1..])
  }

  ghost function LedgerEnd(g: Hygiene, w: World, l: Ledger, steps: seq<Step>): Ledger
    decreases |steps|
  {
    if steps == [] then l else LedgerEnd(g, Next(g, w, steps[0]), LedgerAfter(g, w, l, steps[0]), steps[1..])
  }

  // ---- One step ----

  lemma {:induction false} JarAfterSnoc(jar: seq<Cookie>, fs: seq<Flush>, f: Flush)
    ensures JarAfter(jar, fs + [f]) == Merge(JarAfter(jar, fs), f.rows, f.now)
  {
    assert (fs + [f])[..|fs|] == fs;
  }

  lemma {:induction false} HappenOne(jar: seq<Cookie>, e: JarEvent)
    ensures HappenAll(jar, [e]) == Happen(jar, e)
  {
    assert [e][1..] == [];
    assert HappenAll(Happen(jar, e), []) == Happen(jar, e);
  }

  /** A save's jar and epoch, by what the snapshot holds. */
  lemma {:induction false} SavedJar(s: State, disk: State, victims: set<string>, now: nat)
    requires SnapOrdered(s, disk) && disk.vaultEpoch < EPOCH_MAX
    ensures var r, jar := Persisted(s, disk, victims, now), if s.vaultEpoch < disk.vaultEpoch then disk.tier1 else s.tier1;
      && r.pending == None
      && r.vaultEpoch == (if s.pending.Some? then disk.vaultEpoch + 1 else disk.vaultEpoch)
      && r.tier1 == (if s.pending.Some? then Merge(jar, Unfenced(s, disk), now) else jar)
  {
  }

  /** A write under a new epoch overtakes every snapshot there was. */
  lemma {:induction false} WriteOvertakes(w: World, l: Ledger, d: State)
    requires Ordered(w) && Tracks(w, l) && d.vaultEpoch > w.disk.vaultEpoch
    ensures Tracks(w.(disk := d), Overtake(l))
  {
    forall i | i in l ensures TracksOne(w.snaps[i], d, Overtake(l)[i]) {
      assert TracksOne(w.snaps[i], w.disk, l[i]) && SnapOrdered(w.snaps[i], w.disk);
    }
  }

  /** A write that changes neither epoch nor jar overtakes none. */
  lemma {:induction false} QuietWrite(w: World, l: Ledger, d: State)
    requires Tracks(w, l) && d.vaultEpoch == w.disk.vaultEpoch && d.tier1 == w.disk.tier1
    ensures Tracks(w.(disk := d), l)
  {
    forall i | i in l ensures TracksOne(w.snaps[i], d, l[i]) {
      assert TracksOne(w.snaps[i], w.disk, l[i]);
    }
  }

  /** A snapshot equal to disk has nothing unsaved. */
  lemma {:induction false} FreshTracks(w: World, l: Ledger, id: nat, s: State)
    requires Tracks(w, l) && s.vaultEpoch == w.disk.vaultEpoch && s.pending == None && s.tier1 == w.disk.tier1
    ensures Tracks(w.(snaps := w.snaps[id := s]), l[id := SAVED])
  {
  }

  lemma {:induction false} SaveTracks(g: Hygiene, w: World, l: Ledger, id: nat, victims: set<string>)
    requires Ordered(w) && Tracks(w, l) && id in w.snaps && w.disk.vaultEpoch < EPOCH_MAX
    ensures Tracks(Next(g, w, Save(id, victims)), LedgerAfter(g, w, l, Save(id, victims)))
  {
    var r := Persisted(w.snaps[id], w.disk, victims, w.now);
    SavedBoth(w, l, id, victims);
    if w.snaps[id].pending.Some? {
      WriteOvertakes(w, l, r);
      FreshTracks(w.(disk := r), Overtake(l), id, r);
    } else {
      QuietWrite(w, l, r);
      FreshTracks(w.(disk := r), l, id, r);
    }
  }

  lemma {:induction false} SavedBoth(w: World, l: Ledger, id: nat, victims: set<string>)
    requires Ordered(w) && Tracks(w, l) && id in w.snaps && w.disk.vaultEpoch < EPOCH_MAX
    ensures var s, r := w.snaps[id], Persisted(w.snaps[id], w.disk, victims, w.now);
      && r.pending == None
      && (if s.pending.Some? then r.vaultEpoch == w.disk.vaultEpoch + 1 && r.tier1 == JarAfter(w.disk.tier1, Saved(w, l[id], id))
          else r.vaultEpoch == w.disk.vaultEpoch && r.tier1 == w.disk.tier1)
  {
    var s := w.snaps[id];
    assert TracksOne(s, w.disk, l[id]) && SnapOrdered(s, w.disk);
    SavedJar(s, w.disk, victims, w.now);
    if s.pending.Some? {
      JarAfterSnoc(w.disk.tier1, if l[id].overtaken then [] else l[id].flushes, Again(w, id));
    }
  }

  lemma {:induction false} SaveHappens(g: Hygiene, w: World, l: Ledger, id: nat, victims: set<string>)
    requires Ordered(w) && Tracks(w, l) && id in w.snaps && w.disk.vaultEpoch < EPOCH_MAX
    ensures Next(g, w, Save(id, victims)).disk.tier1 == HappenAll(w.disk.tier1, JarEventsOf(w, l, Save(id, victims)))
  {
    SavedBoth(w, l, id, victims);
    if w.snaps[id].pending.Some? { HappenOne(w.disk.tier1, Flushed(Saved(w, l[id], id))); }
  }

  lemma {:induction false} HelperJar(g: Hygiene, w: World, t: Step)
    requires Ordered(w) && IsHelper(t) && w.disk.vaultEpoch < EPOCH_MAX
    ensures var d := HelperDisk(g, w.disk, t, w.now);
      && (if Writes(g, w, t) then d.vaultEpoch > w.disk.vaultEpoch else d.vaultEpoch == w.disk.vaultEpoch)
      && d.tier1 == (if t.Logout? && !Trivial(t) then WithoutDomain(w.disk.tier1, LogoutKey(t.domain)) else w.disk.tier1)
  {
    if !Trivial(t) {
      var s := Loaded(g, w.disk, t.loadVictims, w.now);
      LoadedFacts(g, w.disk, t.loadVictims, w.now);
      var edit := HelperEdit(g, s, t, w.now);
      if edit.Some? {
        EditOrder(g, s, t, w.now);
        PersistedForward(edit.value, s, t.victims, w.now);
      }
    }
  }

  lemma {:induction false} HelperTracks(g: Hygiene, w: World, l: Ledger, t: Step)
    requires Ordered(w) && Tracks(w, l) && IsHelper(t) && w.disk.vaultEpoch < EPOCH_MAX
    ensures Tracks(Next(g, w, t), LedgerAfter(g, w, l, t))
  {
    HelperJar(g, w, t);
    if Writes(g, w, t) {
      WriteOvertakes(w, l, HelperDisk(g, w.disk, t, w.now));
    } else {
      QuietHelper(g, w, t);
      QuietWrite(w, l, HelperDisk(g, w.disk, t, w.now));
    }
  }

  lemma {:induction false} HelperHappens(g: Hygiene, w: World, l: Ledger, t: Step)
    requires Ordered(w) && IsHelper(t) && w.disk.vaultEpoch < EPOCH_MAX
    ensures Next(g, w, t).disk.tier1 == HappenAll(w.disk.tier1, JarEventsOf(w, l, t))
  {
    HelperJar(g, w, t);
    HappenOne(w.disk.tier1, Cleared(if t.Logout? then LogoutKey(t.domain) else ""));
  }

  /** A helper that writes nothing leaves the jar alone. */
  lemma {:induction false} QuietHelper(g: Hygiene, w: World, t: Step)
    requires Ordered(w) && IsHelper(t) && !Writes(g, w, t)
    ensures Next(g, w, t).disk.tier1 == w.disk.tier1
  {
    if !Trivial(t) {
      LoadedFacts(g, w.disk, t.loadVictims, w.now);
    }
  }

  lemma {:induction false} SyncTracks(w: World, l: Ledger, id: nat, rows: seq<Cookie>)
    requires Ordered(w) && Tracks(w, l) && id in w.snaps
    ensures Tracks(w.(snaps := w.snaps[id := SyncTier1(w.snaps[id], rows, w.now)]),
                   l[id := l[id].(flushes := l[id].flushes + [Flush(rows, w.now)])])
  {
    assert TracksOne(w.snaps[id], w.disk, l[id]);
    JarAfterSnoc(w.disk.tier1, l[id].flushes, Flush(rows, w.now));
  }

  lemma {:induction false} LocalTracks(g: Hygiene, w: World, l: Ledger, t: Step)
    requires Ordered(w) && Tracks(w, l) && !IsHelper(t) && !t.Save?
    ensures Tracks(Next(g, w, t), LedgerAfter(g, w, l, t))
    ensures Next(g, w, t).disk.tier1 == HappenAll(w.disk.tier1, JarEventsOf(w, l, t))
  {
    if t.Boot? {
      ReadFacts(g, w.disk, w.now);
      FreshTracks(w, l, t.id, ReadIn(g, w.disk, w.now));
    } else if t.Sync? && t.id in w.snaps {
      SyncTracks(w, l, t.id, t.rows);
    } else if t.Learn? && t.id in w.snaps {
      LearnTracks(g, w, l, t);
    }
  }

  lemma {:induction false} LearnTracks(g: Hygiene, w: World, l: Ledger, t: Step)
    requires Tracks(w, l) && t.Learn? && t.id in w.snaps
    ensures Tracks(Next(g, w, t), l)
  {
    assert TracksOne(w.snaps[t.id], w.disk, l[t.id]);
  }

  /** Every step keeps the account of each snapshot right, and moves the jar on
      disk by what it saves or clears, with any eviction. */
  lemma {:induction false} StepKeepsJar(g: Hygiene, w: World, l: Ledger, t: Step)
    requires Ordered(w) && Tracks(w, l) && w.disk.vaultEpoch < EPOCH_MAX
    ensures Tracks(Next(g, w, t), LedgerAfter(g, w, l, t))
    ensures Next(g, w, t).disk.tier1 == HappenAll(w.disk.tier1, JarEventsOf(w, l, t))
  {
    if IsHelper(t) {
      HelperTracks(g, w, l, t);
      HelperHappens(g, w, l, t);
    } else if t.Save? {
      if t.id in w.snaps {
        SaveTracks(g, w, l, t.id, t.victims);
        SaveHappens(g, w, l, t.id, t.victims);
      }
    } else {
      LocalTracks(g, w, l, t);
    }
  }

  /** A flush taken under disk's epoch postdates every clear: none of its rows
      is fenced. */
  lemma {:induction false} OwnSyncUnfenced(w: World, id: nat)
    requires Ordered(w) && id in w.snaps && w.snaps[id].pending.Some? && w.snaps[id].vaultEpoch == w.disk.vaultEpoch
    ensures Again(w, id).rows == w.snaps[id].pending.value.rows
  {
    var s := w.snaps[id];
    assert SnapOrdered(s, w.disk);
    NoneFenced(s.pending.value.rows, w.disk, s.pending.value.epoch);
  }

  lemma {:induction false} NoneFenced(rows: seq<Cookie>, disk: State, epoch: nat)
    requires StampsBelow(disk) && epoch == disk.vaultEpoch
    ensures EchoRows(rows, disk.profiles, epoch) == rows
  {
    if rows != [] {
      NoneFenced(rows[1..], disk, epoch);
      assert At(VaultOf(disk.profiles), FoldDomain(rows[0].domain)).cleared <= disk.vaultEpoch;
      assert rows == [rows[0]] + rows[1..];
    }
  }

  // ---- Whole runs ----

  lemma {:induction false} HappenConcat(jar: seq<Cookie>, a: seq<JarEvent>, b: seq<JarEvent>)
    ensures HappenAll(jar, a + b) == HappenAll(HappenAll(jar, a), b)
    decreases |a|
  {
    if a == [] {
      assert a + b == b;
    } else {
      assert (a + b)[0] == a[0] && (a + b)[1..] == a[1..] + b;
      HappenConcat(Happen(jar, a[0]), a[1..], b);
    }
  }

  /** The jar on disk after any run is the fold, in the order of the writes, of
      what its saves bring and its logouts clear. */
  lemma {:induction false} DiskJarIsItsEvents(g: Hygiene, w: World, l: Ledger, steps: seq<Step>)
    requires Ordered(w) && Tracks(w, l) && Run(g, w, steps).disk.vaultEpoch < EPOCH_MAX
    ensures Run(g, w, steps).disk.tier1 == HappenAll(w.disk.tier1, JarEvents(g, w, l, steps))
    ensures Tracks(Run(g, w, steps), LedgerEnd(g, w, l, steps))
    decreases |steps|
  {
    if steps != [] {
      var w', l' := Next(g, w, steps[0]), LedgerAfter(g, w, l, steps[0]);
      StepOrdered(g, w, steps[0]);
      RunOrdered(g, w', steps[1..]);
      StepKeepsJar(g, w, l, steps[0]);
      DiskJarIsItsEvents(g, w', l', steps[1..]);
      HappenConcat(w.disk.tier1, JarEventsOf(w, l, steps[0]), JarEvents(g, w', l', steps[1..]));
    }
  }

  // ---- Runs without a logout ----

  function AllFlushes(es: seq<JarEvent>): seq<Flush>
  {
    if es == [] then [] else (if es[0].Flushed? then es[0].flushes else []) + AllFlushes(es[1..])
  }

  lemma {:induction false} JarAfterConcat(jar: seq<Cookie>, a: seq<Flush>, b: seq<Flush>)
    ensures JarAfter(jar, a + b) == JarAfter(JarAfter(jar, a), b)
    decreases |b|
  {
    if b == [] {
      assert a + b == a;
    } else {
      var n := |b| - 1;
      JarAfterConcat(jar, a, b[..n]);
      assert b == b[..n] + [b[n]] && a + b == a + b[..n] + [b[n]];
      JarAfterSnoc(jar, a + b[..n], b[n]);
    }
  }

  lemma {:induction false} FlushedTogether(jar: seq<Cookie>, es: seq<JarEvent>)
    requires forall e :: e in es ==> e.Flushed?
    ensures HappenAll(jar, es) == JarAfter(jar, AllFlushes(es))
    decreases |es|
  {
    if es != [] {
      FlushedTogether(Happen(jar, es[0]), es[1..]);
      JarAfterConcat(jar, es[0].flushes, AllFlushes(es[1..]));
    }
  }

  lemma {:induction false} NothingCleared(g: Hygiene, w: World, l: Ledger, steps: seq<Step>)
    requires forall t :: t in steps ==> !t.Logout?
    ensures forall e :: e in JarEvents(g, w, l, steps) ==> e.Flushed?
    decreases |steps|
  {
    if steps != [] {
      NothingCleared(g, Next(g, w, steps[0]), LedgerAfter(g, w, l, steps[0]), steps[1..]);
    }
  }

  /** Between two logouts the jar on disk is the first 500 distinct cookies of
      everything the saves brought, latest first, whoever saved. */
  lemma {:induction false} JarBetweenLogouts(g: Hygiene, w: World, l: Ledger, steps: seq<Step>)
    requires Ordered(w) && Tracks(w, l) && Valid(w.disk.tier1) && Run(g, w, steps).disk.vaultEpoch < EPOCH_MAX
    requires forall t :: t in steps ==> !t.Logout?
    ensures var history := OldestFirst(w.disk.tier1) + AcceptedHistory(AllFlushes(JarEvents(g, w, l, steps)));
      Run(g, w, steps).disk.tier1 == Recency.Capped(Recency.MostRecentDistinct(history, KeyOf), TIER1_COOKIE_MAX)
  {
    DiskJarIsItsEvents(g, w, l, steps);
    NothingCleared(g, w, l, steps);
    FlushedTogether(w.disk.tier1, JarEvents(g, w, l, steps));
    JarIsMostRecentDistinct(w.disk.tier1, AllFlushes(JarEvents(g, w, l, steps)));
  }

  // ---- Several syncs before one save ----

  /** A row that only an earlier unsaved sync brings, and that the cap would
      leave, is on disk after the snapshot's save exactly when nobody else has
      written the vault since the snapshot's last boot or save. */
  lemma {:induction false} EarlierSyncKeptIff(g: Hygiene, w: World, l: Ledger, id: nat, victims: set<string>, k: JarKey)
    requires Ordered(w) && Tracks(w, l) && id in w.snaps && w.disk.vaultEpoch < EPOCH_MAX && w.snaps[id].pending.Some?
    requires !Recency.HasKey(w.disk.tier1, KeyOf, k) && !Recency.HasKey(w.snaps[id].pending.value.rows, KeyOf, k)
    requires Recency.HasKey(JarAfter(w.disk.tier1, l[id].flushes + [Again(w, id)]), KeyOf, k)
    ensures Recency.HasKey(Next(g, w, Save(id, victims)).disk.tier1, KeyOf, k) <==> !l[id].overtaken
  {
    StepKeepsJar(g, w, l, Save(id, victims));
    HappenOne(w.disk.tier1, Flushed(Saved(w, l[id], id)));
    if l[id].overtaken {
      var s, again := w.snaps[id], Again(w, id);
      assert Saved(w, l[id], id) == [] + [again];
      JarAfterSnoc(w.disk.tier1, [], again);
      MergedRows(w.disk.tier1, again.rows, again.now);
      EchoRowsMeaning(s.pending.value.rows, w.disk.profiles, s.pending.value.epoch);
      NoKeyInMerge(w.disk.tier1, again.rows, again.now, s.pending.value.rows, k);
    }
  }

  lemma {:induction false} NoKeyInMerge(jar: seq<Cookie>, rows: seq<Cookie>, now: nat, all: seq<Cookie>, k: JarKey)
    requires !Recency.HasKey(jar, KeyOf, k) && !Recency.HasKey(all, KeyOf, k) && forall c :: c in rows ==> c in all
    ensures !Recency.HasKey(Merge(jar, rows, now), KeyOf, k)
  {
    MergedRows(jar, rows, now);
    var merged := Merge(jar, rows, now);
    forall i | 0 <= i < |merged| ensures KeyOf(merged[i]) != k {
      var c := merged[i];
      assert c in merged;
      if c in jar {
        var j :| 0 <= j < |jar| && jar[j] == c;
        assert KeyOf(jar[j]) != k;
      } else {
        var j :| 0 <= j < |all| && all[j] == c;
        assert KeyOf(all[j]) != k;
      }
    }
  }
}
