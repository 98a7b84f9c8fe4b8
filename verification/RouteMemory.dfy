/** Per-host route memory of src/state.rs: the routing half of a domain
    profile, the observations that move it, and the decision read from it. */
module RouteMemory {
  import opened Options
  import opened Numbers
  import opened Text
  import opened Tier1Jar

  datatype FailClass = Network | Tls | Block | CookieAuth | RateLimited | Other

  datatype Failure = Failure(at: nat, kind: FailClass)

  /** The fields of DomainProfile that observations move and routing reads. */
  datatype RoutePart = RoutePart(
    cookies: seq<Cookie>, lastSolved: nat, lastRefreshed: nat,
    fetchCount: nat, walledCount: nat, warmOkCount: nat, warmFailCount: nat,
    wallVendor: Option<string>, needsTier2: bool, lastColdCheck: nat,
    observedLifetime: Option<nat>, warmFailStreak: nat, replayOk: bool,
    wallFailStreak: nat, lastWallFail: nat, wallEgressClass: Option<string>,
    t1Ewma: real, t1Samples: nat, warmEwma: real, warmSamples: nat,
    failures: seq<Failure>, originScheme: string, originPort: nat, egressClass: Option<string>)

  const NEW_ROUTE: RoutePart := RoutePart(
    [], 0, 0, 0, 0, 0, 0, None, false, 0, None, 0, false, 0, 0, None, 0.0, 0, 0.0, 0, [], "", 0, None)

  const U32_MAX: nat := 0xFFFF_FFFF
  const FAILURES_PER_HOST: nat := 16
  const EWMA_ALPHA: real := 0.3
  const EWMA_MIN_SAMPLES: nat := 4
  const EWMA_BLOCK_THRESHOLD: real := 0.5
  const TTL_CAP: nat := 2 * 60 * 60
  const RECHECK_INTERVAL: nat := 24 * 60 * 60
  const COOLDOWN_BASE: nat := 15 * 60

  function Succ32(n: nat): nat { if n < U32_MAX then n + 1 else n }

  function EwmaUpdate(cur: real, samples: nat, ok: bool): real
  {
    var outcome := if ok then 1.0 else 0.0;
    if samples == 0 then outcome else cur + EWMA_ALPHA * (outcome - cur)
  }

  function Shl(base: nat, shifts: nat): nat
    decreases shifts
  { if shifts == 0 then base else Shl(2 * base, shifts - 1) }

  function SolveCooldownSecs(streak: nat): nat
  {
    var steps := if streak < 2 then 0 else streak - 2;
    Shl(COOLDOWN_BASE, if steps < 3 then steps else 3)
  }

  // ---- Clearance cookies ----

  const CLEARANCE_PREFIXES: seq<string> := [
    "cf_", "__cf", "__dd", "datadome", "_dd_s", "bm_", "_abck", "ak_bmsb", "bmsts",
    "senseguard", "_px", "pxcts", "incap_ses", "visid_incap", "nlbi_", "__utmz"]

  predicate IsClearance(name: string)
  {
    name == "cf_clearance" || exists p :: p in CLEARANCE_PREFIXES && StartsWith(name, p)
  }

  /** The cookie at the first position with this (name, domain) is replaced;
      otherwise the new one joins the end. */
  function ReplaceOrPush(vault: seq<Cookie>, c: Cookie): seq<Cookie>
  {
    if vault == [] then [c]
    else if vault[0].name == c.name && vault[0].domain == c.domain then [c] + vault[1..]
    else [vault[0]] + ReplaceOrPush(vault[1..], c)
  }

  function Refresh(vault: seq<Cookie>, incoming: seq<Cookie>): seq<Cookie>
    decreases |incoming|
  {
    if incoming == [] then vault
    else Refresh(if IsClearance(incoming[0].name) then ReplaceOrPush(vault, incoming[0]) else vault, incoming[1..])
  }

  /** A clearance batch is usable until its earliest expiry, its learned
      lifetime, or the two-hour cap, whichever comes first. */
  predicate CookiesFresh(r: RoutePart, now: nat)
  {
    && r.cookies != []
    && r.lastSolved <= now
    && (forall c :: c in r.cookies ==> !Expired(c, now))
    && (r.observedLifetime.Some? ==> now - r.lastSolved < r.observedLifetime.value)
    && now - r.lastSolved < TTL_CAP
  }

  // ---- Observations ----

  datatype Observation =
    | ColdOk(egress: string)
    | ColdWalled(egress: string, vendor: Option<string>)
    | WarmOk(egress: string, refreshed: seq<Cookie>)
    | WarmStale
    | Fetched
    | Failed(fail: FailClass)
    | ProbeInconclusive
    | Login
    | OriginNoted(scheme: string, port: nat)

  function Observe(r: RoutePart, o: Observation, now: nat): RoutePart
  {
    match o
    case ColdOk(egress) =>
      var open := r.(t1Ewma := EwmaUpdate(r.t1Ewma, r.t1Samples, true), t1Samples := Succ32(r.t1Samples),
                     fetchCount := Succ32(r.fetchCount), lastColdCheck := now, warmFailStreak := 0,
                     wallFailStreak := 0, lastWallFail := 0, egressClass := Some(egress));
      if r.needsTier2 then
        open.(needsTier2 := false, wallVendor := None, cookies := [], observedLifetime := None, replayOk := false)
      else open
    case ColdWalled(egress, vendor) =>
      var crossed := r.wallEgressClass.Some? && r.wallEgressClass.value != egress;
      r.(t1Ewma := EwmaUpdate(r.t1Ewma, r.t1Samples, false), t1Samples := Succ32(r.t1Samples),
         fetchCount := Succ32(r.fetchCount), walledCount := Succ32(r.walledCount), needsTier2 := true,
         lastColdCheck := now, wallVendor := if vendor.Some? then vendor else r.wallVendor,
         wallFailStreak := Succ32(if crossed then 0 else r.wallFailStreak),
         wallEgressClass := Some(egress), lastWallFail := now)
    case WarmOk(egress, refreshed) =>
      r.(warmEwma := EwmaUpdate(r.warmEwma, r.warmSamples, true), warmSamples := Succ32(r.warmSamples),
         fetchCount := Succ32(r.fetchCount), warmOkCount := Succ32(r.warmOkCount), warmFailStreak := 0,
         wallFailStreak := 0, lastWallFail := 0, lastRefreshed := now,
         cookies := Refresh(r.cookies, refreshed), egressClass := Some(egress))
    case WarmStale =>
      var stale := r.(warmEwma := EwmaUpdate(r.warmEwma, r.warmSamples, false), warmSamples := Succ32(r.warmSamples),
                      fetchCount := Succ32(r.fetchCount), warmFailCount := Succ32(r.warmFailCount),
                      warmFailStreak := Succ32(r.warmFailStreak));
      if stale.warmFailStreak >= 2 then
        var elapsed := Max(if r.lastSolved <= now then now - r.lastSolved else 0, 120);
        stale.(observedLifetime := Some(if r.observedLifetime.None? then elapsed
                                        else Min(Max(r.observedLifetime.value, 120), elapsed)),
               cookies := [], lastRefreshed := 0, replayOk := false)
      else stale
    case Fetched => r.(fetchCount := Succ32(r.fetchCount), lastColdCheck := now)
    case Failed(fail) => r.(failures := LastFailures(r.failures + [Failure(now, fail)]))
    case ProbeInconclusive => r.(lastColdCheck := now)
    case Login => r.(wallFailStreak := 0, lastWallFail := 0)
    case OriginNoted(scheme, port) => r.(originScheme := scheme, originPort := port)
  }

  function LastFailures(fs: seq<Failure>): seq<Failure>
  {
    if |fs| <= FAILURES_PER_HOST then fs else fs[|fs| - FAILURES_PER_HOST..]
  }

  // ---- Decision ----

  datatype Mode = On | ReadOnly | Off

  datatype Decision =
    | Cold
    | Warm(cookies: seq<Cookie>)
    | SkipToSolve
    | RecheckCold
    | SolveCooldown(secs: int)

  function RouteForClass(mode: Mode, profile: Option<RoutePart>, egress: string, now: nat): Decision
  {
    if mode == Off || profile.None? then Cold
    else
      var r := profile.value;
      var wallClass := if r.wallEgressClass.Some? then r.wallEgressClass else r.egressClass;
      var cooldown := SolveCooldownSecs(r.wallFailStreak);
      if r.wallFailStreak >= 2 && (wallClass == None || wallClass == Some(egress))
         && 0 < r.lastWallFail <= now && now - r.lastWallFail < cooldown then
        SolveCooldown(cooldown - (now - r.lastWallFail))
      else if r.needsTier2 then
        if (r.egressClass == None || r.egressClass == Some(egress)) && CookiesFresh(r, now) && r.replayOk then
          Warm(r.cookies)
        else if now < r.lastColdCheck || now - r.lastColdCheck > RECHECK_INTERVAL then RecheckCold
        else SkipToSolve
      else if r.t1Samples >= EWMA_MIN_SAMPLES && r.t1Ewma < EWMA_BLOCK_THRESHOLD then SkipToSolve
      else Cold
  }

  // ---- A profile and its history ----

  datatype Event = Event(o: Observation, at: nat)

  /** The profile a host has after `h`; none before the first observation. */
  function ProfileAfter(h: seq<Event>): Option<RoutePart>
  {
    if h == [] then None
    else
      var n := |h| - 1;
      var before := ProfileAfter(h[..n]);
      Some(Observe(if before.Some? then before.value else NEW_ROUTE, h[n].o, h[n].at))
  }

  function RouteAfter(h: seq<Event>): RoutePart
  {
    if ProfileAfter(h).Some? then ProfileAfter(h).value else NEW_ROUTE
  }

  /** What a history makes of a route part it finds. */
  function ObserveAll(r: RoutePart, h: seq<Event>): RoutePart
    decreases |h|
  {
    if h == [] then r else ObserveAll(Observe(r, h[0].o, h[0].at), h[1..])
  }

  /** Some history leads from one route part to the other. */
  ghost predicate Reachable(r: RoutePart, q: RoutePart) { exists h :: ObserveAll(r, h) == q }

  /** No observation moves the time of the last solve. */
  lemma {:induction false} HistoryKeepsSolve(r: RoutePart, h: seq<Event>)
    ensures ObserveAll(r, h).lastSolved == r.lastSolved
    decreases |h|
  {
    if h != [] {
      HistoryKeepsSolve(Observe(r, h[0].o, h[0].at), h[1..]);
    }
  }

  lemma {:induction false} ReachableKeepsSolve(r: RoutePart, q: RoutePart)
    requires Reachable(r, q)
    ensures q.lastSolved == r.lastSolved
  {
    var h :| ObserveAll(r, h) == q;
    HistoryKeepsSolve(r, h);
  }

  lemma {:induction false} ObservedIsReachable(r: RoutePart, o: Observation, at: nat)
    ensures Reachable(r, Observe(r, o, at))
  {
    var h := [Event(o, at)];
    assert h[1..] == [];
    assert ObserveAll(Observe(r, o, at), []) == Observe(r, o, at);
    assert ObserveAll(r, h) == Observe(r, o, at);
  }

  /** The cold verdicts of a history in order; true is a success. */
  function ColdVerdicts(h: seq<Event>): seq<bool>
  {
    if h == [] then [] else ColdVerdicts(h[..|h| - 1]) + VerdictOf(h[|h| - 1].o)
  }

  function VerdictOf(o: Observation): seq<bool>
  {
    if o.ColdOk? then [true] else if o.ColdWalled? then [false] else []
  }

  /** Exponentially weighted success rate: the newest verdict weighs 0.3, and
      the first one stands for everything before it. */
  function Ewma(verdicts: seq<bool>): real
  {
    if verdicts == [] then 0.0
    else
      var last := if verdicts[|verdicts| - 1] then 1.0 else 0.0;
      if |verdicts| == 1 then last else 0.7 * Ewma(verdicts[..|verdicts| - 1]) + 0.3 * last
  }

  /** Egress classes of the cold walls since the last cold success, warm
      success or login, oldest first. */
  function WallsSinceReset(h: seq<Event>): seq<string>
  {
    if h == [] then []
    else
      var o := h[|h| - 1].o;
      if o.ColdOk? || o.WarmOk? || o.Login? then []
      else WallsSinceReset(h[..|h| - 1]) + if o.ColdWalled? then [o.egress] else []
  }

  /** Length of the longest suffix of `classes` that is all one class. */
  function TrailingRun(classes: seq<string>): nat
  {
    if classes == [] then 0
    else if |classes| == 1 || classes[|classes| - 2] != classes[|classes| - 1] then 1
    else 1 + TrailingRun(classes[..|classes| - 1])
  }

  ghost predicate Explains(r: RoutePart, v: seq<bool>, walls: seq<string>)
  {
    ExplainsVerdicts(r, v) && ExplainsWalls(r, walls)
  }

  ghost predicate ExplainsVerdicts(r: RoutePart, v: seq<bool>)
  {
    && (r.needsTier2 <==> v != [] && !v[|v| - 1])
    && r.t1Samples == Min(|v|, U32_MAX)
    && r.t1Ewma == Ewma(v) && 0.0 <= r.t1Ewma <= 1.0
  }

  ghost predicate ExplainsWalls(r: RoutePart, walls: seq<string>)
  {
    && r.wallFailStreak == Min(TrailingRun(walls), U32_MAX)
    && (walls != [] ==> r.wallEgressClass == Some(walls[|walls| - 1]))
  }

  /** Every run of observations leaves exactly what its history says: the wall
      flag is the last cold verdict, the samples count the cold verdicts, the
      average is theirs, and the streak is the current one-class run of walls. */
  lemma {:induction false} ProfileRefinesHistory(h: seq<Event>)
    ensures Explains(RouteAfter(h), ColdVerdicts(h), WallsSinceReset(h))
  {
    if h != [] {
      var n := |h| - 1;
      ProfileRefinesHistory(h[..n]);
      assert RouteAfter(h) == Observe(RouteAfter(h[..n]), h[n].o, h[n].at);
      ObserveExplains(RouteAfter(h[..n]), ColdVerdicts(h[..n]), WallsSinceReset(h[..n]), h[n].o, h[n].at);
    }
  }

  lemma {:induction false} ObserveExplains(r: RoutePart, v: seq<bool>, walls: seq<string>, o: Observation, at: nat)
    requires Explains(r, v, walls)
    ensures Explains(Observe(r, o, at), v + VerdictOf(o),
                     if o.ColdOk? || o.WarmOk? || o.Login? then []
                     else walls + if o.ColdWalled? then [o.egress] else [])
  {
    match o
    case ColdOk(egress) => ColdOkExplains(r, v, walls, egress, at);
    case ColdWalled(egress, vendor) => ColdWalledExplains(r, v, walls, egress, vendor, at);
    case _ => assert v + VerdictOf(o) == v && walls + [] == walls;
  }

  lemma {:induction false} ColdOkExplains(r: RoutePart, v: seq<bool>, walls: seq<string>, egress: string, at: nat)
    requires Explains(r, v, walls)
    ensures Explains(Observe(r, ColdOk(egress), at), v + [true], [])
  {
    EwmaSnoc(v, true);
    var after := Observe(r, ColdOk(egress), at);
    assert |v + [true]| == |v| + 1 && (v + [true])[|v|];
    assert ExplainsVerdicts(after, v + [true]);
  }

  lemma {:induction false} ColdWalledExplains(r: RoutePart, v: seq<bool>, walls: seq<string>, egress: string, vendor: Option<string>, at: nat)
    requires Explains(r, v, walls)
    ensures Explains(Observe(r, ColdWalled(egress, vendor), at), v + [false], walls + [egress])
  {
    var after := Observe(r, ColdWalled(egress, vendor), at);
    WallMovesVerdicts(r, v, after);
    WallMovesWalls(r, walls, after, egress);
  }

  lemma {:induction false} WallMovesVerdicts(r: RoutePart, v: seq<bool>, after: RoutePart)
    requires ExplainsVerdicts(r, v)
    requires after.needsTier2 && after.t1Samples == Succ32(r.t1Samples) && after.t1Ewma == EwmaUpdate(r.t1Ewma, r.t1Samples, false)
    ensures ExplainsVerdicts(after, v + [false])
  {
    EwmaSnoc(v, false);
    assert |v + [false]| == |v| + 1 && !(v + [false])[|v|];
  }

  lemma {:induction false} WallMovesWalls(r: RoutePart, walls: seq<string>, after: RoutePart, egress: string)
    requires ExplainsWalls(r, walls) && after.wallEgressClass == Some(egress)
    requires after.wallFailStreak ==
      Succ32(if r.wallEgressClass.Some? && r.wallEgressClass.value != egress then 0 else r.wallFailStreak)
    ensures ExplainsWalls(after, walls + [egress])
  {
    TrailingRunSnoc(walls, egress);
    assert (walls + [egress])[|walls|] == egress && |walls + [egress]| == |walls| + 1;
    if walls == [] {
      assert TrailingRun(walls) == 0;
    }
  }

  lemma {:induction false} EwmaSnoc(v: seq<bool>, ok: bool)
    requires 0.0 <= Ewma(v) <= 1.0
    ensures Ewma(v + [ok]) == EwmaUpdate(Ewma(v), |v|, ok)
    ensures 0.0 <= Ewma(v + [ok]) <= 1.0
  {
    var w := v + [ok];
    assert w[..|w| - 1] == v && w[|w| - 1] == ok;
  }

  lemma {:induction false} TrailingRunSnoc(walls: seq<string>, egress: string)
    ensures TrailingRun(walls + [egress])
         == 1 + if walls != [] && walls[|walls| - 1] == egress then TrailingRun(walls) else 0
  {
    var all := walls + [egress];
    assert all[..|all| - 1] == walls;
    if walls != [] { assert all[|all| - 2] == walls[|walls| - 1]; }
  }

  // ---- Routing over runs ----

  predicate InUnit(x: real) { 0.0 <= x <= 1.0 }

  /** A cold success makes the host cold again at once exactly when the
      history it joins is short or its average was at least two sevenths. */
  lemma {:induction false} OneColdSuccess(r: RoutePart, egress: string, at: nat, asked: string, now: nat, mode: Mode)
    requires InUnit(r.t1Ewma) && mode != Off
    ensures RouteForClass(mode, Some(Observe(r, ColdOk(egress), at)), asked, now) == Cold
       <==> r.t1Samples == 0 || Succ32(r.t1Samples) < EWMA_MIN_SAMPLES || 7.0 * r.t1Ewma >= 2.0
  {
  }

  /** One is not always enough: after four walls a success still leaves the host
      routed past the cold lane. */
  lemma {:induction false} FourWallsOutlastOneSuccess(wall: Observation)
    requires wall.ColdWalled?
    ensures var h := [Event(wall, 1), Event(wall, 2), Event(wall, 3), Event(wall, 4), Event(ColdOk(wall.egress), 5)];
      RouteForClass(On, ProfileAfter(h), wall.egress, 6) == SkipToSolve
  {
    var w1, w2, w3, w4 := [Event(wall, 1)], [Event(wall, 1), Event(wall, 2)],
      [Event(wall, 1), Event(wall, 2), Event(wall, 3)], [Event(wall, 1), Event(wall, 2), Event(wall, 3), Event(wall, 4)];
    var h := [Event(wall, 1), Event(wall, 2), Event(wall, 3), Event(wall, 4), Event(ColdOk(wall.egress), 5)];
    assert w1 == [] + [Event(wall, 1)] && w2 == w1 + [Event(wall, 2)] && w3 == w2 + [Event(wall, 3)] && w4 == w3 + [Event(wall, 4)];
    assert h == w4 + [Event(ColdOk(wall.egress), 5)];
    RouteAfterSnoc([], wall, 1);
    RouteAfterSnoc(w1, wall, 2);
    RouteAfterSnoc(w2, wall, 3);
    RouteAfterSnoc(w3, wall, 4);
    RouteAfterSnoc(w4, ColdOk(wall.egress), 5);
    assert RouteAfter([]) == NEW_ROUTE;
    var r := RouteAfter(w4);
    assert r.t1Ewma == 0.0 && r.t1Samples == 4 && r.needsTier2;
    OneColdSuccess(r, wall.egress, 5, wall.egress, 6, On);
  }

  lemma {:induction false} RouteAfterSnoc(h: seq<Event>, o: Observation, at: nat)
    ensures ProfileAfter(h + [Event(o, at)]) == Some(Observe(RouteAfter(h), o, at))
  {
    var all := h + [Event(o, at)];
    assert all[..|all| - 1] == h;
  }

  /** Two cold successes in a row always do, for every egress class. */
  lemma {:induction false} TwoColdSuccesses(r: RoutePart, first: string, second: string, at: nat, later: nat,
                         asked: string, now: nat, mode: Mode)
    requires InUnit(r.t1Ewma)
    ensures RouteForClass(mode, Some(Observe(Observe(r, ColdOk(first), at), ColdOk(second), later)), asked, now) == Cold
  {
  }

  function WithoutFailures(h: seq<Event>): seq<Event>
  {
    if h == [] then []
    else WithoutFailures(h[..|h| - 1]) + if h[|h| - 1].o.Failed? then [] else [h[|h| - 1]]
  }

  lemma {:induction false} ObserveIgnoresFailures(r: RoutePart, q: RoutePart, o: Observation, at: nat)
    requires r.(failures := []) == q.(failures := []) && !o.Failed?
    ensures Observe(r, o, at).(failures := []) == Observe(q, o, at).(failures := [])
  {
    assert r == q.(failures := r.failures);
  }

  lemma {:induction false} FailuresLeaveNoTrace(h: seq<Event>)
    ensures RouteAfter(h).(failures := []) == RouteAfter(WithoutFailures(h)).(failures := [])
  {
    if h != [] {
      var n := |h| - 1;
      var kept := WithoutFailures(h[..n]);
      FailuresLeaveNoTrace(h[..n]);
      assert h == h[..n] + [h[n]] && h[n] == Event(h[n].o, h[n].at);
      RouteAfterSnoc(h[..n], h[n].o, h[n].at);
      if h[n].o.Failed? {
        assert WithoutFailures(h) == kept + [] == kept;
      } else {
        assert WithoutFailures(h) == kept + [h[n]];
        RouteAfterSnoc(kept, h[n].o, h[n].at);
        ObserveIgnoresFailures(RouteAfter(h[..n]), RouteAfter(kept), h[n].o, h[n].at);
      }
    }
  }

  /** Classified failures inserted anywhere in a history never change a
      decision, not even by creating the profile. */
  lemma {:induction false} FailuresNeverSteer(h: seq<Event>, egress: string, now: nat, mode: Mode)
    ensures RouteForClass(mode, ProfileAfter(h), egress, now)
         == RouteForClass(mode, ProfileAfter(WithoutFailures(h)), egress, now)
  {
    FailuresLeaveNoTrace(h);
    RouteIgnoresFailures(RouteAfter(h), egress, now, mode);
    RouteIgnoresFailures(RouteAfter(WithoutFailures(h)), egress, now, mode);
    UnknownRoutesLikeNew(ProfileAfter(h), egress, now, mode);
    UnknownRoutesLikeNew(ProfileAfter(WithoutFailures(h)), egress, now, mode);
  }

  lemma {:induction false} RouteIgnoresFailures(r: RoutePart, egress: string, now: nat, mode: Mode)
    ensures RouteForClass(mode, Some(r), egress, now) == RouteForClass(mode, Some(r.(failures := [])), egress, now)
  {
  }

  lemma {:induction false} UnknownRoutesLikeNew(p: Option<RoutePart>, egress: string, now: nat, mode: Mode)
    ensures RouteForClass(mode, p, egress, now)
         == RouteForClass(mode, Some(if p.Some? then p.value else NEW_ROUTE), egress, now)
  {
  }

  // ---- Cooldowns and warm replays ----

  function Pow2(n: nat): nat { if n == 0 then 1 else 2 * Pow2(n - 1) }

  lemma {:induction false} ShlIsPow2(base: nat, n: nat)
    ensures Shl(base, n) == base * Pow2(n)
    decreases n
  {
    if n > 0 { ShlIsPow2(2 * base, n - 1); }
  }

  /** The backoff doubles from 15 minutes per wall past the second, up to two
      hours. */
  lemma {:induction false} CooldownDoubles(streak: nat)
    requires streak >= 2
    ensures SolveCooldownSecs(streak) == Min(COOLDOWN_BASE * Pow2(Min(streak - 2, 3)), 7200)
    ensures COOLDOWN_BASE * Pow2(streak - 2) <= 7200 ==> SolveCooldownSecs(streak) == COOLDOWN_BASE * Pow2(streak - 2)
    ensures SolveCooldownSecs(streak) <= SolveCooldownSecs(streak + 1)
  {
    ShlIsPow2(COOLDOWN_BASE, Min(streak - 2, 3));
    ShlIsPow2(COOLDOWN_BASE, Min(streak - 1, 3));
    assert Pow2(0) == 1 && Pow2(1) == 2 && Pow2(2) == 4 && Pow2(3) == 8;
    if streak > 5 {
      Pow2Grows(streak - 2);
    }
  }

  lemma {:induction false} Pow2Grows(n: nat)
    requires n > 3
    ensures Pow2(n) >= 16
  {
    if n > 4 { Pow2Grows(n - 1); } else { assert Pow2(4) == 16 by { assert Pow2(1) == 2 && Pow2(2) == 4 && Pow2(3) == 8; } }
  }

  /** Over every history: a refused fetch names a wait of at most two hours
      that ends one cooldown after the last wall, and at least two walls in a
      row, seen from one egress class with no success since, stand behind it. */
  lemma {:induction false} CooldownIsEarned(h: seq<Event>, egress: string, now: nat, mode: Mode)
    requires RouteForClass(mode, ProfileAfter(h), egress, now).SolveCooldown?
    ensures var r, k := RouteAfter(h), RouteForClass(mode, ProfileAfter(h), egress, now).secs;
      && 0 < k <= 7200
      && now + k == r.lastWallFail + SolveCooldownSecs(r.wallFailStreak)
    ensures var walls := WallsSinceReset(h);
      |walls| >= 2 && walls[|walls| - 2] == walls[|walls| - 1] == egress
  {
    ProfileRefinesHistory(h);
    CooldownDoubles(RouteAfter(h).wallFailStreak);
    var walls := WallsSinceReset(h);
    assert TrailingRun(walls) >= 2;
  }

  // ---- Warm replays live on old proof ----

  /** Some event of the history withdraws the proof that a replay works: a cold
      success on a walled host, or a second warm failure in a row. */
  predicate Withdrawn(r: RoutePart, h: seq<Event>)
    decreases |h|
  {
    h != [] &&
    var o := h[0].o;
    || (o.ColdOk? && r.needsTier2)
    || (o.WarmStale? && r.warmFailStreak >= 1)
    || Withdrawn(Observe(r, o, h[0].at), h[1..])
  }

  /** The proof that a replay works is never earned, only withdrawn. */
  lemma {:induction false} ReplayProofIff(r: RoutePart, h: seq<Event>)
    ensures ObserveAll(r, h).replayOk <==> r.replayOk && !Withdrawn(r, h)
    decreases |h|
  {
    if h != [] {
      var next := Observe(r, h[0].o, h[0].at);
      ReplayProofIff(next, h[1..]);
      if (h[0].o.ColdOk? && r.needsTier2) || (h[0].o.WarmStale? && r.warmFailStreak >= 1) {
        assert !next.replayOk;
      }
    }
  }

  /** Whatever a loaded profile lives through, it is served warm only if it came
      with the proof, nothing has withdrawn it, and two hours have not passed
      since the solve it came with. */
  lemma {:induction false} WarmNeedsOldProof(r: RoutePart, h: seq<Event>, egress: string, now: nat, mode: Mode)
    requires RouteForClass(mode, Some(ObserveAll(r, h)), egress, now).Warm?
    ensures r.replayOk && !Withdrawn(r, h) && r.lastSolved <= now < r.lastSolved + TTL_CAP
  {
    ReplayProofIff(r, h);
    HistoryKeepsSolve(r, h);
  }

  lemma {:induction false} NoProofFromNew(h: seq<Event>)
    ensures !RouteAfter(h).replayOk
  {
    if h != [] {
      NoProofFromNew(h[..|h| - 1]);
    }
  }

  /** A host that starts from a new profile is never served warm. */
  lemma {:induction false} NewHostsAreNeverWarm(h: seq<Event>, egress: string, now: nat, mode: Mode)
    ensures !RouteForClass(mode, ProfileAfter(h), egress, now).Warm?
  {
    NoProofFromNew(h);
  }

  /** A profile that came with the proof can be served warm. */
  lemma {:induction false} OldProofServesWarm(c: Cookie, egress: string)
    requires !Expired(c, 10)
    ensures var r := NEW_ROUTE.(cookies := [c], lastSolved := 9, needsTier2 := true, replayOk := true);
      RouteForClass(On, Some(r), egress, 10) == Warm([c])
  {
  }
}
