/** The background prober of src/state_probe.rs: which walled hosts a scan
    picks, what each probe outcome records, and how often a host is probed. */
module Prober {
  import opened Options
  import opened Numbers
  import opened Lists
  import opened RouteMemory
  import opened RouteDecision
  import opened GhostStore
  import opened GhostSnapshot
  import Sorting

  // ---- Which hosts a scan picks ----

  /** Whether local rules deny the front page of (scheme, host). */
  type FrontDoor = (string, string) -> bool

  function ProbeScheme(r: RoutePart): string { if r.originScheme == "http" then "http" else "https" }

  predicate Stale(r: RoutePart, staleSecs: nat, now: nat)
  {
    r.needsTier2 && (now < r.lastColdCheck || now - r.lastColdCheck > staleSecs)
  }

  function Eligible(ps: Profiles, staleSecs: nat, denied: FrontDoor, now: nat): set<string>
  {
    set h | h in ps && Stale(ps[h].route, staleSecs, now) && !denied(ProbeScheme(ps[h].route), h)
  }

  /** Evidence from the future counts as the oldest. */
  function EvidenceAge(ps: Profiles, host: string, now: nat): nat
  {
    var t := ProfileOf(ps, host).route.lastColdCheck;
    if t > now then 0 else t
  }

  method EligibleHosts(ps: Profiles, staleSecs: nat, denied: FrontDoor, now: nat) returns (stale: seq<string>)
    ensures NoRepeats(stale) && Elems(stale) == Eligible(ps, staleSecs, denied, now)
  {
    var hosts := Hosts(ps);
    stale := [];
    for i := 0 to |hosts|
      invariant NoRepeats(stale)
      invariant forall h :: h in stale <==> h in hosts[..i] && h in Eligible(ps, staleSecs, denied, now)
    {
      assert hosts[..i + 1] == hosts[..i] + [hosts[i]] && hosts[i] !in hosts[..i];
      var r := ps[hosts[i]].route;
      if Stale(r, staleSecs, now) && !denied(ProbeScheme(r), hosts[i]) {
        stale := stale + [hosts[i]];
      }
    }
    assert hosts[..|hosts|] == hosts;
  }

  method ByEvidence(ps: Profiles, hosts: seq<string>, now: nat) returns (order: seq<string>)
    requires NoRepeats(hosts)
    ensures NoRepeats(order) && Elems(order) == Elems(hosts)
    ensures forall i, j :: 0 <= i < j < |order| ==> EvidenceAge(ps, order[i], now) <= EvidenceAge(ps, order[j], now)
  {
    var older := (a: string, b: string) => EvidenceAge(ps, a, now) <= EvidenceAge(ps, b, now);
    order := Sorting.Sort(hosts, older);
    Sorting.SortPermutes(hosts, older);
    Sorting.SortSorts(hosts, older);
    PermutedOnce(hosts, order);
  }

  /** A scan takes the `limit` stalest eligible hosts, stalest first. */
  method ProbeCandidates(ps: Profiles, staleSecs: nat, limit: nat, denied: FrontDoor, now: nat)
    returns (picked: seq<string>)
    ensures NoRepeats(picked) && Elems(picked) <= Eligible(ps, staleSecs, denied, now)
    ensures |picked| == Min(limit, |Eligible(ps, staleSecs, denied, now)|)
    ensures forall i, j :: 0 <= i < j < |picked| ==> EvidenceAge(ps, picked[i], now) <= EvidenceAge(ps, picked[j], now)
    ensures forall h, e :: h in picked && e in Eligible(ps, staleSecs, denied, now) && e !in picked ==>
      EvidenceAge(ps, h, now) <= EvidenceAge(ps, e, now)
  {
    var stale := EligibleHosts(ps, staleSecs, denied, now);
    var order := ByEvidence(ps, stale, now);
    ElemsCount(order);
    picked := order[..Min(limit, |order|)];
    assert forall h :: h in picked ==> h in order;
    forall h, e | h in picked && e in Elems(order) && e !in picked
      ensures EvidenceAge(ps, h, now) <= EvidenceAge(ps, e, now)
    {
      var i, j := Place(order, |picked|, h), Place(order, |order|, e);
      assert j >= |picked|;
    }
  }

  /** Which known hosts are eligible: those whose last cold verdict is a wall,
      whose last cold evidence is older than `staleSecs` or from the future, and
      whose front page no rule denies under the scheme they were fetched on. */
  lemma {:induction false} EligibleIff(ps: Profiles, host: string, h: seq<Event>, staleSecs: nat, denied: FrontDoor, now: nat)
    requires host in ps && ps[host].route == RouteAfter(h)
    ensures host in Eligible(ps, staleSecs, denied, now) <==>
      && ColdVerdicts(h) != [] && !ColdVerdicts(h)[|ColdVerdicts(h)| - 1]
      && (LastEvidence(h) > now || now - LastEvidence(h) > staleSecs)
      && !denied(if LastScheme(h) == "http" then "http" else "https", host)
    ensures EvidenceAge(ps, host, now) == if LastEvidence(h) > now then 0 else LastEvidence(h)
  {
    ProfileRefinesHistory(h);
    LastsAre(h);
    SchemeIsLast(h);
  }

  /** The scheme noted last. */
  function LastScheme(h: seq<Event>): string
  {
    if h == [] then ""
    else if h[|h| - 1].o.OriginNoted? then h[|h| - 1].o.scheme
    else LastScheme(h[..|h| - 1])
  }

  lemma {:induction false} SchemeIsLast(h: seq<Event>)
    ensures RouteAfter(h).originScheme == LastScheme(h)
  {
    if h != [] {
      var n := |h| - 1;
      SchemeIsLast(h[..n]);
      assert RouteAfter(h) == Observe(RouteAfter(h[..n]), h[n].o, h[n].at);
      SchemeStep(RouteAfter(h[..n]), h[n].o, h[n].at);
    }
  }

  lemma {:induction false} SchemeStep(r: RoutePart, o: Observation, at: nat)
    ensures Observe(r, o, at).originScheme == if o.OriginNoted? then o.scheme else r.originScheme
  {
  }

  // ---- What a probe records ----

  datatype FetchFailure = Timeout | Io | Dns | DnsTimeout | TlsFailure | DeniedByRule | OtherFailure

  datatype Outcome =
    | Challenge(vendor: string)
    | ContentOk
    | OtherVerdict
    | Failure(error: FetchFailure)
    | DeadlinePassed

  function FailureKind(e: FetchFailure): FailClass
  {
    match e
    case Timeout => Network
    case Io => Network
    case Dns => Network
    case DnsTimeout => Network
    case TlsFailure => Tls
    case _ => Other
  }

  function Observations(o: Outcome, egress: string): (obs: seq<Observation>)
    ensures 1 <= |obs| <= 2
  {
    match o
    case Challenge(vendor) => [ColdWalled(egress, Some(vendor))]
    case ContentOk => [ColdOk(egress)]
    case OtherVerdict => [ProbeInconclusive]
    case Failure(DeniedByRule) => [ProbeInconclusive]
    case Failure(error) => [Failed(FailureKind(error)), ProbeInconclusive]
    case DeadlinePassed => [Failed(Network), ProbeInconclusive]
  }

  predicate Conclusive(o: Outcome) { o.Challenge? || o.ContentOk? }

  /** A probe that is not a verdict about the wall is evidence of nothing: it
      re-arms the cadence and touches no flag, average or streak. */
  lemma {:induction false} InconclusiveIsNoEvidence(r: RoutePart, o: Outcome, egress: string, at: nat)
    requires !Conclusive(o)
    ensures var obs := Observations(o, egress);
      var after := ObserveAll(r, seq(|obs|, i requires 0 <= i < |obs| => Event(obs[i], at)));
      after == r.(lastColdCheck := at, failures := after.failures)
  {
    var obs := Observations(o, egress);
    var h := seq(|obs|, i requires 0 <= i < |obs| => Event(obs[i], at));
    if |obs| == 2 {
      assert h == [Event(obs[0], at), Event(obs[1], at)];
      assert h[1..] == [Event(obs[1], at)] && [Event(obs[1], at)][1..] == [];
      var once := Observe(r, obs[0], at);
      assert ObserveAll(once, [Event(obs[1], at)]) == Observe(once, obs[1], at);
    } else {
      assert h == [Event(obs[0], at)] && h[1..] == [];
      assert ObserveAll(Observe(r, obs[0], at), []) == Observe(r, obs[0], at);
    }
  }

  /** Every outcome re-arms the cadence; only a verdict moves the wall flag. */
  method ProbeOne(s: GhostState, host: string, outcome: Outcome, egress: string, now: nat, disk: State)
    returns (written: State, ghost first: set<string>, ghost second: set<string>)
    modifies s
    ensures s.Value() == written
    ensures ProbeSaved(old(s.Value()).(probesTotal := old(s.probesTotal) + 1), written, host, outcome, egress, now, disk, first, second)
    ensures host !in first && host !in second ==>
      host in s.profiles && Probed(ProfileOf(old(s.profiles), host).route, s.profiles[host].route, outcome, now)
    ensures s.probesTotal > old(s.probesTotal)
  {
    ghost var was := s.Value();
    s.probesTotal := s.probesTotal + 1;
    second := {};
    match outcome {
      case Challenge(vendor) =>
        ghost var counted := s.Value();
        var w;
        w, first := s.RecordColdWalled(host, Some(vendor), egress, now, On, disk);
        RecordedOnce(counted, s.Value(), w, first, host, ColdWalled(egress, Some(vendor)), now, disk);
        written := w.value;
      case ContentOk =>
        ghost var counted := s.Value();
        var w;
        w, first := s.RecordColdOk(host, egress, now, On, disk);
        RecordedOnce(counted, s.Value(), w, first, host, ColdOk(egress), now, disk);
        written := w.value;
      case OtherVerdict =>
        written, first := Inconclusive(s, host, now, disk);
      case Failure(DeniedByRule) =>
        written, first := Inconclusive(s, host, now, disk);
      case Failure(error) =>
        written, first, second := FailedProbe(s, host, FailureKind(error), now, disk);
      case DeadlinePassed =>
        written, first, second := FailedProbe(s, host, Network, now, disk);
    }
    ProbeTells(was.(probesTotal := was.probesTotal + 1), written, host, outcome, egress, now, disk, first, second);
  }

  // ---- What a probe leaves in the profile ----

  /** The failure has joined the newest fifteen of the others. */
  ghost predicate Joined(before: seq<Failure>, after: seq<Failure>, f: Failure)
  {
    var n := Min(|before|, 15);
    |after| == n + 1 && after[n] == f && after[..n] == before[|before| - n..]
  }

  /** A standing wall marks the host and names its vendor, content clears the
      mark and the clearance that went with it, and anything else moves only the
      time of the check and the failures: a network, TLS or other failure joins
      them, a denial by rule does not. */
  ghost predicate Probed(before: RoutePart, after: RoutePart, outcome: Outcome, now: nat)
  {
    && after.lastColdCheck == now
    && (outcome.Challenge? ==> after.needsTier2 && after.wallVendor == Some(outcome.vendor))
    && (outcome.ContentOk? ==> !after.needsTier2 && (before.needsTier2 ==> after.cookies == [] && after.wallVendor == None))
    && (!outcome.Challenge? && !outcome.ContentOk? ==> after == before.(lastColdCheck := now, failures := after.failures))
    && (outcome.DeadlinePassed? || (outcome.Failure? && outcome.error in {Timeout, Io, Dns, DnsTimeout}) ==>
          Joined(before.failures, after.failures, RouteMemory.Failure(now, Network)))
    && (outcome.Failure? && outcome.error == TlsFailure ==> Joined(before.failures, after.failures, RouteMemory.Failure(now, Tls)))
    && (outcome.Failure? && outcome.error == OtherFailure ==> Joined(before.failures, after.failures, RouteMemory.Failure(now, Other)))
    && (outcome.OtherVerdict? || (outcome.Failure? && outcome.error == DeniedByRule) || Conclusive(outcome) ==> after.failures == before.failures)
  }

  lemma {:induction false} FailureJoins(r: RoutePart, kind: FailClass, now: nat)
    ensures Joined(r.failures, Observe(r, Failed(kind), now).failures, RouteMemory.Failure(now, kind))
  {
  }

  lemma {:induction false} SavedRoute(before: State, after: State, host: string, o: Observation, now: nat, disk: State, victims: set<string>)
    requires after == SeenAndSaved(before, host, o, now, disk, victims) && host !in victims
    ensures host in after.profiles && after.profiles[host].route == Observe(ProfileOf(before.profiles, host).route, o, now)
  {
  }

  lemma {:induction false} CountsKept(before: State, host: string, o: Observation, now: nat, disk: State, victims: set<string>)
    ensures SeenAndSaved(before, host, o, now, disk, victims).probesTotal >= before.probesTotal
  {
  }

  /** The observations of one probe, saved one by one. */
  ghost predicate ProbeSaved(before: State, after: State, host: string, outcome: Outcome, egress: string, now: nat,
                             disk: State, first: set<string>, second: set<string>)
  {
    var obs := Observations(outcome, egress);
    var once := SeenAndSaved(before, host, obs[0], now, disk, first);
    && SavedOnce(before, once, host, obs[0], now, disk, first)
    && if |obs| == 1 then after == once else SavedOnce(once, after, host, obs[1], now, once, second)
  }

  lemma {:induction false} ProbeTells(before: State, after: State, host: string, outcome: Outcome, egress: string, now: nat,
                                      disk: State, first: set<string>, second: set<string>)
    requires ProbeSaved(before, after, host, outcome, egress, now, disk, first, second)
    ensures after.probesTotal >= before.probesTotal
    ensures host !in first && host !in second ==>
      host in after.profiles && Probed(ProfileOf(before.profiles, host).route, after.profiles[host].route, outcome, now)
  {
    var obs := Observations(outcome, egress);
    var once := SeenAndSaved(before, host, obs[0], now, disk, first);
    CountsKept(before, host, obs[0], now, disk, first);
    if |obs| == 2 { CountsKept(once, host, obs[1], now, once, second); }
    if host !in first && host !in second {
      var r := ProfileOf(before.profiles, host).route;
      SavedRoute(before, once, host, obs[0], now, disk, first);
      if |obs| == 2 {
        SavedRoute(once, after, host, obs[1], now, once, second);
      }
      ObservedProbe(r, outcome, egress, now);
    }
  }

  /** The observations of a probe, one after the other. */
  function Probing(r: RoutePart, outcome: Outcome, egress: string, now: nat): RoutePart
  {
    var obs := Observations(outcome, egress);
    var q := Observe(r, obs[0], now);
    if |obs| == 1 then q else Observe(q, obs[1], now)
  }

  lemma {:induction false} ObservedProbe(r: RoutePart, outcome: Outcome, egress: string, now: nat)
    ensures Probed(r, Probing(r, outcome, egress, now), outcome, now)
  {
    match outcome
    case Failure(error) => if error != DeniedByRule { FailureJoins(r, FailureKind(error), now); }
    case DeadlinePassed => FailureJoins(r, Network, now);
    case _ =>
  }

  method Inconclusive(s: GhostState, host: string, now: nat, disk: State) returns (written: State, ghost victims: set<string>)
    modifies s
    ensures s.Value() == written && SavedOnce(old(s.Value()), written, host, ProbeInconclusive, now, disk, victims)
  {
    var w;
    w, victims := s.RecordProbeInconclusive(host, now, On, disk);
    RecordedOnce(old(s.Value()), s.Value(), w, victims, host, ProbeInconclusive, now, disk);
    written := w.value;
  }

  /** The failure is recorded, then the cadence re-armed, each with its save. */
  method FailedProbe(s: GhostState, host: string, kind: FailClass, now: nat, disk: State)
    returns (written: State, ghost first: set<string>, ghost second: set<string>)
    modifies s
    ensures s.Value() == written
    ensures var once := SeenAndSaved(old(s.Value()), host, Failed(kind), now, disk, first);
      && SavedOnce(old(s.Value()), once, host, Failed(kind), now, disk, first)
      && SavedOnce(once, written, host, ProbeInconclusive, now, once, second)
  {
    var w;
    w, first := s.RecordFailure(host, kind, now, On, disk);
    RecordedOnce(old(s.Value()), s.Value(), w, first, host, Failed(kind), now, disk);
    written, second := Inconclusive(s, host, now, w.value);
  }

  function Seen(s: State, host: string, o: Observation, now: nat): State
  {
    Rerouted(s, host, Observe(ProfileOf(s.profiles, host).route, o, now))
  }

  /** What one recorded observation leaves, and what its save evicts. */
  ghost predicate SavedOnce(before: State, after: State, host: string, o: Observation, now: nat, disk: State, victims: set<string>)
  {
    Evicts(Seen(before, host, o, now).profiles, victims, now) && after == SeenAndSaved(before, host, o, now, disk, victims)
  }

  lemma {:induction false} RecordedOnce(before: State, after: State, written: Option<State>, victims: set<string>,
                         host: string, o: Observation, now: nat, disk: State)
    requires Recorded(before, after, written, victims, host, o, now, On, disk)
    ensures written == Some(after) && SavedOnce(before, after, host, o, now, disk, victims)
  {
  }

  function SeenAndSaved(s: State, host: string, o: Observation, now: nat, disk: State, victims: set<string>): State
  {
    Persisted(Seen(s, host, o, now), disk, victims, now)
  }

  // ---- Pacing over runs of a daemon ----

  /** One recorded observation: the host, what was seen, and the disk the save
      that followed found. */
  datatype Recording = Recording(host: string, o: Observation, at: nat, disk: State)

  function DaemonRun(s: State, rs: seq<Recording>): State
    decreases |rs|
  {
    if rs == [] then s
    else DaemonRun(SeenAndSaved(s, rs[0].host, rs[0].o, rs[0].at, rs[0].disk, {}), rs[1..])
  }

  function EventsOf(rs: seq<Recording>, host: string): seq<Event>
  {
    if rs == [] then []
    else (if rs[0].host == host then [Event(rs[0].o, rs[0].at)] else []) + EventsOf(rs[1..], host)
  }

  lemma {:induction false} SaveKeepsRoute(s: State, disk: State, now: nat, host: string)
    requires host in s.profiles
    ensures host in Persisted(s, disk, {}, now).profiles
    ensures Persisted(s, disk, {}, now).profiles[host].route == s.profiles[host].route
  {
  }

  /** While nothing is evicted, a known host's route part is its own history:
      no save or foreign disk state moves it. */
  lemma {:induction false} RouteIsItsHistory(s: State, rs: seq<Recording>, host: string)
    requires host in s.profiles
    ensures host in DaemonRun(s, rs).profiles
    ensures DaemonRun(s, rs).profiles[host].route == ObserveAll(s.profiles[host].route, EventsOf(rs, host))
    decreases |rs|
  {
    if rs != [] {
      var r := rs[0];
      var seen := Seen(s, r.host, r.o, r.at);
      SaveKeepsRoute(seen, r.disk, r.at, host);
      RouteIsItsHistory(SeenAndSaved(s, r.host, r.o, r.at, r.disk, {}), rs[1..], host);
      var rest := EventsOf(rs[1..], host);
      if r.host == host {
        assert EventsOf(rs, host) == [Event(r.o, r.at)] + rest && ([Event(r.o, r.at)] + rest)[1..] == rest;
      } else {
        assert EventsOf(rs, host) == rest;
      }
    }
  }

  ghost predicate ClockForward(rs: seq<Recording>) { forall i, j :: 0 <= i < j < |rs| ==> rs[i].at <= rs[j].at }

  /** Cold evidence only moves forward, and never past the last recording. */
  lemma {:induction false} EvidenceForward(r: RoutePart, h: seq<Event>, from: nat, to: nat)
    requires from <= r.lastColdCheck <= to
    requires forall i :: 0 <= i < |h| ==> from <= h[i].at <= to
    ensures from <= ObserveAll(r, h).lastColdCheck <= to
    decreases |h|
  {
    if h != [] {
      EvidenceForward(Observe(r, h[0].o, h[0].at), h[1..], from, to);
    }
  }

  lemma {:induction false} EventTimes(rs: seq<Recording>, host: string, from: nat, to: nat)
    requires forall i :: 0 <= i < |rs| ==> from <= rs[i].at <= to
    ensures forall i :: 0 <= i < |EventsOf(rs, host)| ==> from <= EventsOf(rs, host)[i].at <= to
  {
    if rs != [] {
      EventTimes(rs[1..], host, from, to);
    }
  }

  /** After a probe of a host is recorded, no scan picks the host again until
      more than `staleSecs` have passed, whatever is recorded in between. */
  lemma {:induction false} ProbePacing(s: State, probe: Recording, rs: seq<Recording>, staleSecs: nat, denied: FrontDoor, now: nat)
    requires probe.o.ColdOk? || probe.o.ColdWalled? || probe.o.ProbeInconclusive?
    requires ClockForward([probe] + rs) && ([probe] + rs)[|rs|].at <= now
    requires probe.host in Eligible(DaemonRun(s, [probe] + rs).profiles, staleSecs, denied, now)
    ensures now - probe.at > staleSecs
  {
    var host := probe.host;
    var after := SeenAndSaved(s, host, probe.o, probe.at, probe.disk, {});
    var seen := Seen(s, host, probe.o, probe.at);
    SaveKeepsRoute(seen, probe.disk, probe.at, host);
    assert after.profiles[host].route.lastColdCheck == probe.at;
    assert ([probe] + rs)[0] == probe && ([probe] + rs)[1..] == rs;
    RouteIsItsHistory(after, rs, host);
    forall i | 0 <= i < |rs| ensures probe.at <= rs[i].at <= now {
      assert ([probe] + rs)[i + 1] == rs[i];
    }
    EventTimes(rs, host, probe.at, now);
    EvidenceForward(after.profiles[host].route, EventsOf(rs, host), probe.at, now);
  }
}
