/** What a host's history decides: each of the outcomes of routing, and what
    the counters, lifetimes and cookies in its profile stand for. */
module RouteDecision {
  import opened Options
  import opened Numbers
  import opened Tier1Jar
  import opened RouteMemory

  // ---- Every outcome, from the history ----

  predicate IsColdEvidence(o: Observation) { o.ColdOk? || o.ColdWalled? || o.Fetched? || o.ProbeInconclusive? }

  /** When the host was last seen cold. */
  function LastEvidence(h: seq<Event>): nat
  {
    if h == [] then 0
    else if IsColdEvidence(h[|h| - 1].o) then h[|h| - 1].at
    else LastEvidence(h[..|h| - 1])
  }

  /** When it last walled, if nothing has cleared the streak since. */
  function LastWall(h: seq<Event>): nat
  {
    if h == [] then 0
    else
      var e := h[|h| - 1];
      if e.o.ColdWalled? then e.at
      else if e.o.ColdOk? || e.o.WarmOk? || e.o.Login? then 0
      else LastWall(h[..|h| - 1])
  }

  /** 15 minutes, doubled per wall past the second, up to two hours. */
  function Backoff(walls: nat): nat
    requires walls >= 2
  {
    Min(900 * Pow2(walls - 2), 7200)
  }

  /** The verdicts and walls of the history alone. */
  function DecisionOf(h: seq<Event>, egress: string, now: nat): Decision
  {
    var verdicts, walls, seen, walled := ColdVerdicts(h), WallsSinceReset(h), LastEvidence(h), LastWall(h);
    var n := TrailingRun(walls);
    if n >= 2 && walls[|walls| - 1] == egress && 0 < walled <= now < walled + Backoff(n) then
      SolveCooldown(walled + Backoff(n) - now)
    else if verdicts != [] && !verdicts[|verdicts| - 1] then
      if now < seen || now > seen + 24 * 60 * 60 then RecheckCold else SkipToSolve
    else if |verdicts| >= 4 && Ewma(verdicts) < 0.5 then SkipToSolve
    else Cold
  }

  lemma {:induction false} LastsAre(h: seq<Event>)
    ensures RouteAfter(h).lastColdCheck == LastEvidence(h) && RouteAfter(h).lastWallFail == LastWall(h)
  {
    if h != [] {
      var n := |h| - 1;
      LastsAre(h[..n]);
      assert RouteAfter(h) == Observe(RouteAfter(h[..n]), h[n].o, h[n].at);
      LastsStep(RouteAfter(h[..n]), h[n].o, h[n].at);
    }
  }

  lemma {:induction false} LastsStep(r: RoutePart, o: Observation, at: nat)
    ensures Observe(r, o, at).lastColdCheck == if IsColdEvidence(o) then at else r.lastColdCheck
    ensures Observe(r, o, at).lastWallFail ==
      if o.ColdWalled? then at else if o.ColdOk? || o.WarmOk? || o.Login? then 0 else r.lastWallFail
  {
  }

  lemma {:induction false} BackoffIs(walls: nat)
    requires walls >= 2
    ensures SolveCooldownSecs(Min(walls, U32_MAX)) == Backoff(walls)
  {
    CooldownDoubles(Min(walls, U32_MAX));
    assert Pow2(0) == 1 && Pow2(1) == 2 && Pow2(2) == 4 && Pow2(3) == 8;
    if walls - 2 > 3 { Pow2Grows(walls - 2); }
  }

  lemma {:induction false} RunNeedsWalls(walls: seq<string>)
    ensures TrailingRun(walls) <= |walls|
  {
    if |walls| > 1 { RunNeedsWalls(walls[..|walls| - 1]); }
  }

  /** Over every history of a host, routing decides what its verdicts, its walls
      and its last cold evidence say, and nothing else matters. */
  lemma {:induction false} RouteRefinesHistory(h: seq<Event>, egress: string, now: nat, mode: Mode)
    ensures RouteForClass(mode, ProfileAfter(h), egress, now) == if mode == Off then Cold else DecisionOf(h, egress, now)
  {
    var r, walls := RouteAfter(h), WallsSinceReset(h);
    var n := TrailingRun(walls);
    ProfileRefinesHistory(h);
    LastsAre(h);
    NoProofFromNew(h);
    RunNeedsWalls(walls);
    if n >= 2 { BackoffIs(n); }
    if h == [] {
      assert DecisionOf(h, egress, now) == Cold;
    } else {
      assert ProfileAfter(h) == Some(r);
      Decided(r, h, egress, now, mode);
    }
  }

  lemma {:induction false} Decided(r: RoutePart, h: seq<Event>, egress: string, now: nat, mode: Mode)
    requires Explains(r, ColdVerdicts(h), WallsSinceReset(h)) && !r.replayOk && TrailingRun(WallsSinceReset(h)) <= |WallsSinceReset(h)|
    requires r.lastColdCheck == LastEvidence(h) && r.lastWallFail == LastWall(h)
    requires var n := TrailingRun(WallsSinceReset(h)); n >= 2 ==> SolveCooldownSecs(Min(n, U32_MAX)) == Backoff(n)
    ensures RouteForClass(mode, Some(r), egress, now) == if mode == Off then Cold else DecisionOf(h, egress, now)
  {
  }

  /** A host whose last verdict is a wall, and that is not cooling down, is
      rechecked cold exactly when its last cold evidence is more than a day old
      or lies in the future, and is solved at once otherwise. */
  lemma {:induction false} RecheckIff(h: seq<Event>, egress: string, now: nat, mode: Mode)
    requires mode != Off && ColdVerdicts(h) != [] && !ColdVerdicts(h)[|ColdVerdicts(h)| - 1]
    requires !RouteForClass(mode, ProfileAfter(h), egress, now).SolveCooldown?
    ensures var d := RouteForClass(mode, ProfileAfter(h), egress, now);
      && d in {RecheckCold, SkipToSolve}
      && (d == RecheckCold <==> LastEvidence(h) > now || now - LastEvidence(h) > 24 * 60 * 60)
  {
    RouteRefinesHistory(h, egress, now, mode);
  }

  /** A host cools down exactly while the backoff of at least two walls in a row
      from one egress class, the one asked for, runs. */
  lemma {:induction false} CooldownIff(h: seq<Event>, egress: string, now: nat, mode: Mode)
    ensures var d, walls := RouteForClass(mode, ProfileAfter(h), egress, now), WallsSinceReset(h);
      var n := TrailingRun(walls);
      && (d.SolveCooldown? <==>
            mode != Off && n >= 2 && |walls| >= 2 && walls[|walls| - 1] == egress && 0 < LastWall(h) <= now < LastWall(h) + Backoff(n))
      && (d.SolveCooldown? ==> d.secs == LastWall(h) + Backoff(n) - now)
  {
    RunNeedsWalls(WallsSinceReset(h));
    RouteRefinesHistory(h, egress, now, mode);
  }

  // ---- Warm, from what a profile came with ----

  /** The last cold verdict, or the mark the profile came with. */
  predicate WalledAfter(r: RoutePart, h: seq<Event>)
  {
    var v := ColdVerdicts(h);
    if v == [] then r.needsTier2 else !v[|v| - 1]
  }

  /** The egress class of the last success, or the one it came with. */
  function ClassAfter(r: RoutePart, h: seq<Event>): Option<string>
  {
    if h == [] then r.egressClass
    else
      var o := h[|h| - 1].o;
      if o.ColdOk? || o.WarmOk? then Some(o.egress) else ClassAfter(r, h[..|h| - 1])
  }

  lemma {:induction false} ObserveSnoc(r: RoutePart, h: seq<Event>, e: Event)
    ensures ObserveAll(r, h + [e]) == Observe(ObserveAll(r, h), e.o, e.at)
    decreases |h|
  {
    if h == [] {
      assert h + [e] == [e] && [e][1..] == [];
      assert ObserveAll(Observe(r, e.o, e.at), []) == Observe(r, e.o, e.at);
    } else {
      assert (h + [e])[0] == h[0] && (h + [e])[1..] == h[1..] + [e];
      ObserveSnoc(Observe(r, h[0].o, h[0].at), h[1..], e);
    }
  }

  lemma {:induction false} FlagsStep(r: RoutePart, o: Observation, at: nat)
    ensures Observe(r, o, at).needsTier2 <==> (if VerdictOf(o) == [] then r.needsTier2 else VerdictOf(o) == [false])
    ensures Observe(r, o, at).egressClass == if o.ColdOk? || o.WarmOk? then Some(o.egress) else r.egressClass
  {
  }

  lemma {:induction false} WalledSnoc(r: RoutePart, h: seq<Event>)
    requires h != []
    ensures var v := VerdictOf(h[|h| - 1].o);
      WalledAfter(r, h) <==> (if v == [] then WalledAfter(r, h[..|h| - 1]) else v == [false])
  {
  }

  lemma {:induction false} FlagsAfter(r: RoutePart, h: seq<Event>)
    ensures (ObserveAll(r, h).needsTier2 <==> WalledAfter(r, h)) && ObserveAll(r, h).egressClass == ClassAfter(r, h)
  {
    if h != [] {
      var n := |h| - 1;
      FlagsAfter(r, h[..n]);
      assert h == h[..n] + [h[n]];
      ObserveSnoc(r, h[..n], h[n]);
      FlagsStep(ObserveAll(r, h[..n]), h[n].o, h[n].at);
      WalledSnoc(r, h);
    }
  }

  /** Past the cooldown, a loaded profile is served warm exactly when the host is
      walled, the proof it came with stands, the class asked for is that of its
      last success, and its cookies are all unexpired and younger than two hours
      and than the lifetime learned; and it is served those cookies. */
  lemma {:induction false} WarmIff(r: RoutePart, h: seq<Event>, egress: string, now: nat, mode: Mode)
    requires mode != Off && !RouteForClass(mode, Some(ObserveAll(r, h)), egress, now).SolveCooldown?
    ensures var d, q := RouteForClass(mode, Some(ObserveAll(r, h)), egress, now), ObserveAll(r, h);
      && (d.Warm? <==>
            && WalledAfter(r, h) && r.replayOk && !Withdrawn(r, h) && ClassAfter(r, h) in {None, Some(egress)}
            && q.cookies != [] && (forall c :: c in q.cookies ==> !Expired(c, now))
            && r.lastSolved <= now < r.lastSolved + 2 * 60 * 60
            && (q.observedLifetime.Some? ==> now < r.lastSolved + q.observedLifetime.value))
      && (d.Warm? ==> d.cookies == q.cookies)
  {
    FlagsAfter(r, h);
    ReplayProofIff(r, h);
    HistoryKeepsSolve(r, h);
  }

  // ---- What the profile stands for ----

  function CountIf(h: seq<Event>, p: Observation -> bool): nat
  {
    if h == [] then 0 else CountIf(h[..|h| - 1], p) + if p(h[|h| - 1].o) then 1 else 0
  }

  predicate IsFetch(o: Observation) { o.ColdOk? || o.ColdWalled? || o.WarmOk? || o.WarmStale? || o.Fetched? }

  predicate IsWall(o: Observation) { o.ColdWalled? }

  predicate IsWarmOk(o: Observation) { o.WarmOk? }

  predicate IsWarmStale(o: Observation) { o.WarmStale? }

  /** The counters count, up to the last 32-bit value. */
  lemma {:induction false} CountersCount(h: seq<Event>)
    ensures var r := RouteAfter(h);
      && r.fetchCount == Min(CountIf(h, IsFetch), U32_MAX) && r.walledCount == Min(CountIf(h, IsWall), U32_MAX)
      && r.warmOkCount == Min(CountIf(h, IsWarmOk), U32_MAX) && r.warmFailCount == Min(CountIf(h, IsWarmStale), U32_MAX)
  {
    if h != [] {
      var n := |h| - 1;
      CountersCount(h[..n]);
      assert RouteAfter(h) == Observe(RouteAfter(h[..n]), h[n].o, h[n].at);
      CountersStep(RouteAfter(h[..n]), h[n].o, h[n].at);
    }
  }

  lemma {:induction false} CountersStep(r: RoutePart, o: Observation, at: nat)
    ensures var q := Observe(r, o, at);
      && q.fetchCount == (if IsFetch(o) then Succ32(r.fetchCount) else r.fetchCount)
      && q.walledCount == (if IsWall(o) then Succ32(r.walledCount) else r.walledCount)
      && q.warmOkCount == (if IsWarmOk(o) then Succ32(r.warmOkCount) else r.warmOkCount)
      && q.warmFailCount == (if IsWarmStale(o) then Succ32(r.warmFailCount) else r.warmFailCount)
  {
  }

  /** The warm failures since the last success, cold or warm. */
  function StaleRun(h: seq<Event>): nat
  {
    if h == [] then 0
    else
      var o := h[|h| - 1].o;
      if o.ColdOk? || o.WarmOk? then 0 else StaleRun(h[..|h| - 1]) + if o.WarmStale? then 1 else 0
  }

  lemma {:induction false} WarmStreakCounts(h: seq<Event>)
    ensures RouteAfter(h).warmFailStreak == Min(StaleRun(h), U32_MAX)
  {
    if h != [] {
      var n := |h| - 1;
      WarmStreakCounts(h[..n]);
      assert RouteAfter(h) == Observe(RouteAfter(h[..n]), h[n].o, h[n].at);
      WarmStreakStep(RouteAfter(h[..n]), h[n].o, h[n].at);
    }
  }

  lemma {:induction false} WarmStreakStep(r: RoutePart, o: Observation, at: nat)
    ensures Observe(r, o, at).warmFailStreak ==
      if o.ColdOk? || o.WarmOk? then 0 else if o.WarmStale? then Succ32(r.warmFailStreak) else r.warmFailStreak
  {
  }

  /** The second warm failure in a row learns how long clearance lasted: the
      shorter of what it saw and what was known, neither taken for less than two
      minutes; it drops the cookies and the proof. The first learns nothing. */
  lemma {:induction false} SecondFailureLearns(r: RoutePart, now: nat)
    ensures var q := Observe(r, WarmStale, now);
      if r.warmFailStreak == 0 then
        q.observedLifetime == r.observedLifetime && q.cookies == r.cookies && q.replayOk == r.replayOk
      else
        && q.observedLifetime.Some? && q.cookies == [] && !q.replayOk
        && var n := q.observedLifetime.value;
           var seen := if now < r.lastSolved + 120 then 120 else now - r.lastSolved;
           && (r.observedLifetime.None? ==> n == seen)
           && (r.observedLifetime.Some? ==>
                 var known := if r.observedLifetime.value < 120 then 120 else r.observedLifetime.value;
                 n <= seen && n <= known && n in {seen, known})
  {
  }

  predicate SameClearance(a: Cookie, b: Cookie) { a.name == b.name && a.domain == b.domain }

  lemma {:induction false} ReplacedRow(vault: seq<Cookie>, c: Cookie)
    ensures c in ReplaceOrPush(vault, c)
    ensures forall x :: x in ReplaceOrPush(vault, c) ==> x == c || x in vault
    ensures forall x :: x in vault && !SameClearance(x, c) ==> x in ReplaceOrPush(vault, c)
  {
    if vault != [] {
      ReplacedRow(vault[1..], c);
      assert forall x :: x in vault <==> x == vault[0] || x in vault[1..];
    }
  }

  /** A batch of refreshed cookies leaves the last version of every clearance
      cookie in it, and every old cookie it has no version of; and nothing that
      is neither old nor a clearance cookie of the batch. */
  lemma {:induction false} RefreshTakes(vault: seq<Cookie>, batch: seq<Cookie>)
    ensures forall x :: x in Refresh(vault, batch) ==> x in vault || (x in batch && IsClearance(x.name))
    ensures forall x :: x in vault && (forall c :: c in batch && IsClearance(c.name) ==> !SameClearance(x, c)) ==> x in Refresh(vault, batch)
    ensures forall i :: 0 <= i < |batch| && IsClearance(batch[i].name)
              && (forall j :: i < j < |batch| && IsClearance(batch[j].name) ==> !SameClearance(batch[i], batch[j]))
              ==> batch[i] in Refresh(vault, batch)
    decreases |batch|
  {
    if batch != [] {
      var c, rest := batch[0], batch[1..];
      var next := if IsClearance(c.name) then ReplaceOrPush(vault, c) else vault;
      ReplacedRow(vault, c);
      RefreshTakes(next, rest);
      assert forall x :: x in batch <==> x == c || x in rest;
      forall i | 0 <= i < |batch| && IsClearance(batch[i].name)
          && (forall j :: i < j < |batch| && IsClearance(batch[j].name) ==> !SameClearance(batch[i], batch[j]))
        ensures batch[i] in Refresh(vault, batch)
      {
        if i > 0 {
          assert rest[i - 1] == batch[i] && forall j :: i - 1 < j < |rest| ==> rest[j] == batch[j + 1];
        } else {
          forall x | x in rest && IsClearance(x.name) ensures !SameClearance(c, x) {
            var j :| 0 <= j < |rest| && rest[j] == x;
            assert batch[j + 1] == x;
          }
        }
      }
    }
  }
}
