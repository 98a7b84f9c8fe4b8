# Donsetch core model

A Dafny model of the parts of donsetch that keep state or rewrite text, with
proofs of what they promise:

- the cookie-vault write protocol of `src/state.rs`: one state file, any number
  of live snapshots of it, and locked helpers that harvest, log in and log out
  (`GhostStore`, `VaultProtocol`, `VaultInvariant`, `VaultErasure`,
  `VaultLogout`, `VaultLogin`, `VaultRows`, `VaultJar`, `VaultLimits`; the
  methods in `GhostSnapshot` and `VaultHelpers`);
- route memory and the background prober (`RouteMemory`, `RouteDecision`,
  `Prober`);
- the tier-1 cookie jar, the rows of the session vault and its cap (`Recency`,
  `Tier1Jar`, `SessionRows`, `SessionVault`);
- the handle table and markdown link rewriting of `src/handles.rs` (`Handles`,
  `LinkText`, `LinkClose`, `LinkRewrite`, `LinkBack`);
- the URL-rule matcher and its key parser of `src/rules.rs` (`Rules`,
  `RuleKeys`);
- the line-level TOML edit and the environment layer of `src/config.rs`
  (`TomlEdit`, `TomlLens`, `TomlLaws`, `TomlLines`, `EnvLayer`);
- the JSON-RPC client's request table and line framing of
  `npm/pi-extension.ts` (`PiTable`, `PiClient`, `Framing`, `Utf8`,
  `Utf8Trip`);
- the tar reader of `build.rs` (`Tar`).

`Text`, `Labels`, `Options`, `Numbers`, `Lists`, `Sorting` and `Flats` hold
shared helpers.

`dafny verify dfyconfig.toml` checks everything.

## How the parts fit

Code that updates fields in place is a class (`GhostState`, `HandleTable`,
`Client`, `Framer`) or a method with a loop; its `ensures` ties the new state
to a specification function of the old one, and the theorems are about those
functions. The vault protocol is a state machine over (disk, snapshots, clock):
the file lock makes each save and each helper write one step. Time, egress
class, probe verdicts, random handle ids and the host parser are parameters, so
each theorem holds for every choice of them.

What a step leaves open (a harvest's order among hosts solved at one time, the
observations a process makes) is a parameter of the step. The theorems that
depend on such a choice are about lawful runs, in which every choice is one the
code can make (`VaultProtocol.LawfulRun`).

Where a stated promise fails, the code is kept as it is, the exact condition is
proved, and a lemma exhibits an input:

- src/state.rs:1601-1603 promises that a row a deletion removed cannot be
  re-raised; a logout removes the tier-1 rows of every host of the domain but
  stamps only the domain and the hosts with a profile, so an older snapshot's
  save brings the rows of the other hosts back (`VaultLogout.ReRaisedIff`,
  `VaultLimits.UnknownHostResurrects`);
- a stale snapshot can also undo a logout once the epoch counter is saturated or
  the logout's stamp has been evicted past 10000 profiles (`VaultLimits`);
- src/state.rs:1597-1603 stashes a sync's rows so that a save after somebody
  else's write does not discard them; only the last sync before a save is
  stashed, and rows that an earlier one alone held are then lost
  (`VaultJar.EarlierSyncKeptIff`, `VaultLimits.OvertakenSyncIsLost`);
- past 500 cookies a harvest does not depend on the session vault alone: what it
  cuts follows the last solves (`VaultErasure.RanksDecide`,
  `VaultLimits.SolvesDecideTheCut`);
- a re-applied tier-1 batch is a no-op exactly when its still-accepted rows
  already stand in front, which an expiry between sync and save can break
  (`Tier1Jar.ReapplyIff`, `MergeAfterExpiryReorders`);
- one cold success is not always enough to route cold again
  (`RouteMemory.OneColdSuccess`, `FourWallsOutlastOneSuccess`);
- nothing the code observes earns the proof a warm route asks for, so only
  profiles that were loaded with it are ever served warm
  (`RouteMemory.NewHostsAreNeverWarm`, `WarmNeedsOldProof`);
- handles of one document all resolve up to 2048 distinct URLs and never past
  that (`LinkRewrite.LosslessIff`);
- the output text gives the input back exactly when no handle it writes already
  stood as a link target in the input's kept text (`LinkBack.PutBackIff`,
  `TwoTextsOneOutput`);
- `resolve` is documented as case-insensitive but looks the lower-cased text up
  among handles that all start with an upper-case letter, so only the exact
  spelling resolves (`Handles.ResolvesExactly`, `LowerCaseMisses`);
- a second TOML set overrides the first textually unless a kept line ends in a
  stray carriage return (`TomlLaws.SetTwiceIff`, `StrayReturnBreaksOverride`);
- a request whose signal was aborted before the call never settles
  (`PiTable.DeafNeverSettles`), and the exit of an old server rejects the
  requests of the next one and forgets it (`PiTable.DownBlamesItsOwnIff`,
  `LateExitHitsNextServer`, `DownForgetsAnyServer`);
- the client decodes each chunk of the server's output on its own, so a
  character cut by a chunk border is lost (`Framing.FramesWholeIff`,
  `SplitLetterIsLost`);
- a tar name that fills its field without a NUL is read together with the mode
  field behind it, and the member is not found (`Tar.NameFieldIff`,
  `FullNameIsMissed`); the comment at build.rs:866 says bytes 0-99, the code is
  followed.

## Model

| member | source | states |
|---|---|---|
| `VaultErasure.SnapshotsErase` | src/state.rs:1663-1807 | In every run of the code without eviction and below the last epoch, deleting all snapshot steps (boot, learn, sync, save) leaves a run of the code, harvest orders included, and every host's live session cookies and login mark on disk as they were: the disk vault is the sequential composition of the helper writes alone |
| `VaultErasure.HelperReadsVault` | src/state.rs:982-1157 | What a login or logout leaves in the vault depends on nothing of the disk but its live rows; a harvest reads besides how the last solves rank the automatic hosts that hold cookies |
| `VaultErasure.RanksDecide` | src/state.rs:1024-1032 | Two disks with the same rows let the code cut hosts in the same orders if and only if their last solves rank the automatic hosts that hold cookies alike |
| `VaultErasure.SmallHarvestsIgnoreOrder` | src/state.rs:1020-1046 | Up to 500 automatic cookies, harvests in any two orders leave the same vault |
| `VaultErasure.StepKeepsSolves` | src/state.rs:1935-2130 | No step moves a last solve, on disk or in a snapshot, so all copies rank hosts alike through every run |
| `VaultInvariant.StepKeepsInv` | src/state.rs:1663-1807 | Every step keeps: no snapshot's epoch exceeds the disk's, equal epochs mean equal vaults, a newer copy has forgotten no host an older one marks |
| `VaultInvariant.RunKeepsInv` | src/state.rs:1663-1807 | The same over whole runs |
| `VaultInvariant.SnapshotsKeepVault` | src/state.rs:1780-1807 | Any single snapshot step, however stale the snapshot, leaves every host's live vault and deletion stamp on disk unchanged |
| `VaultInvariant.QuietRunKeepsVault` | src/state.rs:1765-1807 | Between two helper writes no interleaving of snapshots undoes a logout or loses a harvest |
| `VaultInvariant.HelperStepCoherent` | src/state.rs:407-412 | After a helper's write every pair of copies is still coherent: its bumped epoch is past every snapshot's |
| `VaultJar.StepKeepsJar` | src/state.rs:1768-1776 | Every step, with any eviction, keeps: a snapshot that nobody has overtaken since its last boot or save holds the jar of disk with its own unsaved flushes on top, so with none it holds disk's jar; and each step moves the jar on disk only by what it saves or clears |
| `VaultJar.DiskJarIsItsEvents` | src/state.rs:1663-1807 | The jar on disk after any run is the fold, in the order of the writes, of the unfenced flushes its saves bring and the domains its logouts clear: nothing else moves it |
| `VaultJar.JarBetweenLogouts` | src/state.rs:1611-1638 | In a run without a logout the jar on disk ends as the first 500 distinct cookies of the jar it began with and everything the saves brought, latest first, whoever saved |
| `VaultJar.EarlierSyncKeptIff` | src/state.rs:1593-1606 | A row that only an earlier unsaved sync brings is on disk after the snapshot's save if and only if nobody else has written the vault since the snapshot's last boot or save |
| `VaultJar.OwnSyncUnfenced` | src/state.rs:1714-1728 | A flush taken under disk's epoch loses no row to a fence |
| `VaultProtocol.StepOrdered` | src/state.rs:1663-1807 | Every step, with any eviction and any epoch, never rewinds the disk epoch or the lifetime counters and keeps every snapshot at or below the disk |
| `VaultProtocol.RunOrdered` | src/state.rs:1663-1807 | The same over whole runs |
| `VaultLogout.LogoutEmpties` | src/state.rs:1110-1157 | After a logout no live vaulted cookie on disk has a host whose labels, brackets and letter case aside, are the last labels of the domain or have them as their last: the domain, its subdomains and its parents |
| `VaultLogout.LogoutSticks` | src/state.rs:1110-1157 | Once a domain is logged out, no run brings a cookie of it back except through a harvest or login that stores one |
| `VaultLogout.FenceHolds` | src/state.rs:1714-1728 | A tier-1 echo taken before a clear never writes a row of a cleared host back, whatever loads, saves and helper writes run in between |
| `VaultLogout.LogoutFencesIff` | src/state.rs:564-582 | Of the hosts a logout clears, it puts that fence up for the domain itself and the hosts with a profile on disk, and for no other |
| `VaultLogout.ReRaisedIff` | src/state.rs:1714-1728 | After a logout that removes something, the save of an older snapshot brings a stashed row of the domain back if and only if its folded host is neither the domain itself nor a profile on disk, and the row is among the first 500 re-applied |
| `VaultLogout.SmallEchoInFront` | src/state.rs:1714-1728 | In a stash of at most 500 rows every accepted row of a host without a profile is among those |
| `VaultLogin.LoginSticks` | src/state.rs:78-79 | After a stored login, in every run of the code that does not log the host out, each cookie of the login keeps a usable row in its host's vault on disk and the host stays explicit, whatever harvests, other logins and stale saves come between, as long as no version of the row expires |
| `VaultLogin.LoginFencesIff` | src/state.rs:1714-1728 | After a stored login, the save of an older snapshot re-applies a stashed row if and only if no earlier clear fences it and its folded host is not both in the login's scope and known to disk or named by the login; the jar rows on disk stay |
| `VaultLimits.SaturatedEpochResurrects` | src/state.rs:407-412 | A concrete run at the last 64-bit epoch in which a snapshot's save puts a logged-out session back: the bound in the theorems is needed |
| `VaultLimits.EvictedTombstoneResurrects` | src/state.rs:1670-1700 | A concrete run past 10000 profiles in which the logout's stamp is evicted and an older snapshot's save puts the session back |
| `VaultLimits.CrowdExists` | src/state.rs:1670-1684 | The crowd of profiles that run needs exists, so it is not vacuous |
| `VaultLimits.UnknownHostResurrects` | src/state.rs:1110-1157 | A concrete run, nothing evicted and no epoch spent, in which a logout removes a subdomain's row and the next save of an older snapshot puts it back |
| `VaultLimits.OvertakenSyncIsLost` | src/state.rs:1593-1606 | A concrete run in which a snapshot syncs twice before it saves: its first row reaches disk, and is lost when another snapshot's save comes first |
| `VaultLimits.SolvesDecideTheCut` | src/state.rs:1020-1046 | Two disks with the same session vault and opposite last solves, on which one harvest in the only order the code takes leaves a host 200 and 300 cookies |
| `GhostStore.StaleSaveIff` | src/state.rs:1780-1807 | The save of an older snapshot leaves every host's vault on disk alone if and only if the snapshot vaults no host that disk has forgotten |
| `GhostStore.EvictionCostsNoCookie` | src/state.rs:1670-1700 | A save that evicts leaves every host the vaulted cookies it would have without the eviction |
| `GhostStore.EvictionReachesCap` | src/state.rs:1670-1684 | After eviction the snapshot is within the cap or holds only hosts with vaulted cookies, and no more was evicted than the cap asks |
| `GhostStore.LastActivityIsLatest` | src/state.rs:210-224 | The activity that eviction goes by is the latest of a profile's recorded times, never later than now |
| `GhostStore.SaveCountsBoth` | src/state.rs:1706-1710 | A save keeps the greater of the two lifetime counters on either side |
| `GhostStore.HealKeeps` | src/state.rs:1224-1264 | Loading keeps exactly the clearance cookies, the usable session cookies and the averages within [0, 1] |
| `GhostStore.EchoRowsMeaning` | src/state.rs:1714-1728 | A stashed row is re-applied if and only if no clear on disk later than its epoch fences its folded host |
| `GhostStore.MergedRows` | src/state.rs:1611-1638 | A jar merge holds only rows of the old jar or of the batch |
| `GhostSnapshot.GhostState.Persist` | src/state.rs:1663-1764 | A save evicts the coldest session-free profiles past the cap, reconciles with disk, re-applies the fenced echo under a bumped epoch, and leaves memory and disk equal |
| `GhostSnapshot.GhostState.MergeVaultFromDisk` | src/state.rs:1780-1807 | The in-place merge equals taking disk's session parts for every host disk knows, keeping the snapshot's own routes, when disk's epoch is newer; otherwise nothing |
| `GhostSnapshot.GhostState.EvictColdest` | src/state.rs:1670-1700 | What leaves past the cap is a coldest set of session-free hosts |
| `GhostSnapshot.GhostState.MergeTier1Jar` | src/state.rs:1611-1638 | The loop equals moving each accepted row to the front and cutting at 500 |
| `GhostSnapshot.GhostState.SyncTier1Cookies` | src/state.rs:1593-1606 | A sync stashes the batch with its epoch, then merges; nothing when vaulting or memory is off |
| `GhostSnapshot.GhostState.RecordFetch` | src/state.rs:1935-1948 | Memory and disk after the call are the plain fetch observation followed by a save; nothing unless recording is on |
| `GhostSnapshot.GhostState.RecordColdOk` | src/state.rs:1986-2011 | Memory and disk after the call are the observation followed by a save |
| `GhostSnapshot.GhostState.RecordColdWalled` | src/state.rs:2016-2042 | Likewise for a wall, with the streak restarting when the egress class changed |
| `GhostSnapshot.GhostState.RecordWarmOk` | src/state.rs:2049-2080 | Likewise for a warm success, clearance cookies refreshed in place |
| `GhostSnapshot.GhostState.RecordWarmStale` | src/state.rs:2094-2130 | Likewise for a warm failure: the second in a row learns the lifetime and drops the cookies |
| `GhostSnapshot.GhostState.RecordFailure` | src/state.rs:1951-1962 | Likewise for a classified failure: the histogram keeps the newest 16 |
| `GhostSnapshot.GhostState.NoteOrigin` | src/state.rs:1350-1363 | A new origin is recorded and saved like an observation; a known one only makes sure the profile exists; any other scheme changes nothing |
| `GhostSnapshot.RecordingIsLearnThenSave` | src/state.rs:1935-2130 | Every recording is a learn step followed by a save step of the protocol, so all run theorems cover it |
| `VaultHelpers.Load` | src/state.rs:1220-1331 | Loading cleans every profile, saves if anything changed, and leaves memory and disk equal |
| `VaultHelpers.StoreSessionCookies` | src/state.rs:982-1050 | The locked harvest takes disk to the state of one harvest step, in an order of hosts the code takes |
| `VaultHelpers.StoreLoginCookies` | src/state.rs:867-950 | The locked login takes disk to the state of one login step, or changes nothing when a cookie is unusable or a limit is passed |
| `VaultRows.HarvestLeaves` | src/state.rs:982-1046 | What a harvest leaves of a host on disk: an explicit host keeps its rows in place, each in the last usable version harvested; an automatic one keeps the front of its merged list, a queue of fifty, and all of it while automatic hosts hold at most 500 |
| `VaultRows.NoStaleRow` | src/state.rs:982-1046 | A row of an automatic host on disk after a harvest is the last worthy cookie harvested under its name, domain and path, if there is one, and otherwise stood there before |
| `VaultRows.LoginLeaves` | src/state.rs:867-950 | What a stored login leaves of a host on disk: known rows in place in their last version, new ones behind in the order they came, and the hosts it names explicit |
| `VaultRows.LoginStoredIff` | src/state.rs:867-950 | A login is stored if and only if every cookie is usable, no host it names comes to more than 500 rows, all hosts together hold at most 5000, and the epoch has room for two steps |
| `VaultRows.LoginRearms` | src/state.rs:867-950 | A stored login clears the wall streak of the hosts in its scope and touches no other route |
| `VaultHelpers.ClearSessionCookiesFor` | src/state.rs:1110-1157 | The locked logout takes disk to the state of one logout step; it reports a removal if and only if a vault or the jar held a cookie of the domain, a subdomain or a parent, and then none is left |
| `VaultHelpers.CapSessions` | src/state.rs:1020-1046 | The in-place eviction loop equals the cap by last solve |
| `SessionVault.MergeSessionCookies` | src/state.rs:958-977 | The in-place merge leaves the first 50 of the list in which every known row is the last worthy version harvested, where it stood, and every new cookie stands in front in its last worthy version, latest arrival first |
| `SessionRows.ArrivedMembers` | src/state.rs:958-977 | The cookies that join a host are those it does not know and the batch has a counted version of, each once |
| `SessionRows.ArrivedOrder` | src/state.rs:958-977 | They stand in the order of their first versions, the latest in front |
| `SessionRows.MergedStep` | src/state.rs:958-977 | One more cookie keeps a merged list merged: known rows are in their last version where they stood, new ones in front |
| `SessionVault.SessionCap` | src/state.rs:1020-1046 | The cap conserves: automatic hosts end with min(total, 500) cookies, explicit hosts keep theirs, what is left of a host is the front of its list, and a host is cut only once every earlier one is empty |
| `SessionVault.HarvestKeepsUnique` | src/state.rs:958-1046 | After any harvest (name, domain, path) stays unique in every host's vault |
| `SessionVault.LogoutKeepsOthers` | src/state.rs:1120-1140 | A logout keeps exactly the cookies whose host is not on the label path of the domain, above or below |
| `SessionVault.BelongsIff` | src/auth.rs:310-314 | Two hosts belong together if and only if, brackets and letter case aside, the labels of one are the last labels of the other: one is the other or follows one of its dots |
| `SessionVault.AffectedIff` | src/state.rs:867-950 | A login is about the hosts its cookies name and, for a cookie of a dotted domain, the hosts below that domain |
| `Tier1Jar.JarIsMostRecentDistinct` | src/state.rs:1611-1638 | From any jar a snapshot can hold, any sequence of flushes leaves the first 500 distinct cookies of that jar and the accepted history, latest first: cutting per batch loses nothing |
| `Tier1Jar.MergeTwice` | src/state.rs:1714-1728 | Re-applying a batch whose rows are all still accepted changes nothing |
| `Tier1Jar.ReapplyIff` | src/state.rs:1714-1728 | Re-applying a batch to a jar moves nothing if and only if its still-accepted rows, latest first and each cookie once, already stand in front |
| `Tier1Jar.MergeAgain` | src/state.rs:1714-1728 | At any later time, a re-applied batch leaves what both batches' accepted rows leave in one flush |
| `Tier1Jar.MergeAfterExpiryReorders` | src/state.rs:1714-1728 | A concrete batch with a row expiring between sync and save, where the save does reorder the jar |
| `Tier1Jar.FlushedIff` | src/state.rs:1611-1638 | A cookie the jar lacks is in it after a flush if and only if it is among the first 500 distinct accepted rows of the batch |
| `Tier1Jar.FlushStands` | src/state.rs:1611-1638 | After a flush of at most 500 rows the last accepted version of each name, path and folded domain stands in the jar, alone |
| `RouteMemory.ProfileRefinesHistory` | src/state.rs:1986-2080 | For every event sequence the wall flag is the last cold verdict, the samples count the cold verdicts, the average is their exponentially weighted fold in [0, 1], and the streak is the current run of walls on one egress class since the last success or login |
| `RouteMemory.TwoColdSuccesses` | src/state.rs:1866-1926 | Two cold successes in a row route cold for every egress class, from any reachable profile |
| `RouteMemory.OneColdSuccess` | src/state.rs:1866-1926 | One cold success routes cold at once if and only if fewer than four samples stand or the average before it was at least 2/7 |
| `RouteMemory.FourWallsOutlastOneSuccess` | src/state.rs:1866-1926 | From a new profile, four walls and then one success still route past the cold lane |
| `RouteMemory.FailuresNeverSteer` | src/state.rs:1951-1962 | Failure events inserted anywhere in a history never change a decision |
| `RouteDecision.RouteRefinesHistory` | src/state.rs:1866-1926 | For every history from a new profile, egress class, clock and mode, the route is what the verdicts, the walls since the last success and the times of the last wall and the last cold evidence say: each outcome exactly, with the seconds of a cooldown |
| `RouteDecision.RecheckIff` | src/state.rs:1903-1912 | A walled host that is not cooling down is rechecked cold if and only if its last cold evidence is more than 24 hours old or from the future, and is solved at once otherwise |
| `RouteDecision.CooldownIff` | src/state.rs:1875-1890 | A host cools down if and only if at least two walls in a row, seen from the class asked for, stand with no success since, and less than the backoff has passed since the last; it waits for the rest of it |
| `RouteDecision.WarmIff` | src/state.rs:1892-1902 | Past the cooldown a loaded profile is served warm, with its cookies, if and only if it is walled, its proof stands, the class is that of its last success, and its cookies are unexpired and younger than two hours and the lifetime learned |
| `RouteDecision.CountersCount` | src/state.rs:1935-2130 | The counters count their events, up to the last 32-bit value |
| `RouteDecision.WarmStreakCounts` | src/state.rs:2094-2130 | The warm streak is the number of warm failures since the last success |
| `RouteDecision.SecondFailureLearns` | src/state.rs:2094-2130 | The second warm failure in a row learns the shorter of the lifetime seen and the one known, neither under two minutes, and drops cookies and proof; the first learns nothing |
| `RouteDecision.RefreshTakes` | src/state.rs:2049-2080 | A warm success leaves the last version of every clearance cookie refreshed, the old cookies it has no version of, and nothing else |
| `RouteMemory.CooldownIsEarned` | src/state.rs:1866-1926 | Every cooldown is positive, at most two hours, ends at the last wall plus the backoff, and stands on at least two walls in a row from one egress class |
| `RouteMemory.CooldownDoubles` | src/state.rs:652-656 | The backoff is 15 minutes doubled per wall past the second, up to two hours |
| `RouteMemory.ReplayProofIff` | src/state.rs:1986-2130 | After any history the proof that a replay works stands if and only if the profile came with it and neither a cold success on a walled host nor a second warm failure in a row has withdrawn it |
| `RouteMemory.WarmNeedsOldProof` | src/state.rs:1866-1926 | A warm route, after any history, needs a loaded profile that came with that proof, nothing that withdrew it, and less than two hours since the solve it came with |
| `RouteMemory.NewHostsAreNeverWarm` | src/state.rs:1866-1926 | No history from a new profile ever leads to a warm route |
| `RouteMemory.OldProofServesWarm` | src/state.rs:1866-1926 | A profile that came with the proof and a live cookie is served warm, so the two results above are not vacuous |
| `RouteMemory.HistoryKeepsSolve` | src/state.rs:1935-2130 | No observation moves the time of the last solve |
| `Prober.ProbeCandidates` | src/state.rs:1375-1422 | A scan takes the `limit` stalest eligible hosts, stalest first |
| `Prober.EligibleIff` | src/state.rs:1375-1422 | A host is eligible if and only if its last cold verdict is a wall, its last cold evidence is older than `staleSecs` or from the future, and no rule denies its front page under the scheme noted last; evidence from the future counts as the oldest |
| `Prober.ProbeOne` | src/state_probe.rs:109-170 | While its host is not evicted, a probe leaves it marked with the vendor named after a challenge, unmarked and without clearance after content, and otherwise as it was but for the time of the check and the failures: network, TLS and other errors join them, a denial by rule does not; every save evicts the coldest session-free profiles past the cap and nothing else |
| `Prober.InconclusiveIsNoEvidence` | src/state_probe.rs:109-170 | An inconclusive, denied, timed-out or failed probe re-arms the cadence and moves no flag, average or streak |
| `Prober.RouteIsItsHistory` | src/state.rs:1444-1452 | Without eviction a known host's route part on disk and in memory is its own history, whatever foreign disk states the saves merge |
| `Prober.ProbePacing` | src/state_probe.rs:79-107 | With a clock that never goes back, a scan selects a host again only when more than `staleSecs` have passed since its last probe's record |
| `Recency.TouchAllIsMostRecent` | src/state.rs:1611-1638 | Moving to the front, over any history, is the list of most recent distinct keys |
| `Recency.CapTouchAll` | src/handles.rs:207-248 | A list cut before a batch and cut again after it holds what an uncut list would hold in front |
| `Handles.HandleTable.InternLink` | src/handles.rs:207-248 | A live URL keeps its handle and moves to the front; a new one gets an unused handle; past 2048 the least recently interned URL leaves; no other URL changes its handle |
| `Handles.InternAll` | src/handles.rs:207-248 | From an empty table, the live URLs are exactly the 2048 most recently interned distinct ones, the two maps staying mutually inverse |
| `Handles.StampsDistinct` | src/handles.rs:207-248 | No two live entries share a counter value, so eviction is determined |
| `Handles.HandleTable.SetSearchResults` | src/handles.rs:255-281 | The queue is the newest 2048 of its old content and the new handles, lists the table's keys each once, and every live handle keeps the URL it was minted for |
| `Handles.BatchResolves` | src/handles.rs:255-281 | A batch of at most 2048 results returns distinct handles that are all live, each bound to its own URL |
| `Handles.ResolvesExactly` | src/handles.rs:284-302 | A handle resolves in its exact spelling only: the lower-case probe never hits, since every minted handle starts with an upper-case letter |
| `Handles.LowerCaseMisses` | src/handles.rs:284-302 | Every live link handle resolves, and written in lower case resolves to nothing |
| `LinkText.FindClose` | src/handles.rs:348-359 | The loop finds the balanced closing parenthesis, else the first one, else none |
| `LinkClose.ClosesIff` | src/handles.rs:348-359 | A link closes at the first ")" that outnumbers the "(" before it, if none does at the first ")", and nowhere if there is none |
| `LinkClose.LinkDecides` | src/handles.rs:307-342 | The first "](http" is replaced if and only if it closes with no blank before the close; with one it is copied, and without a close nothing further is replaced |
| `LinkText.RewriteRoundTrip` | src/handles.rs:307-342 | Rewriting with the URLs themselves in place of labels is the identity: everything but the accepted URLs is copied, in order |
| `LinkText.RewriteShuts` | src/handles.rs:348-359 | Replacing accepted URLs by labels does not move any enclosing balanced close, nor the whitespace met before it |
| `LinkText.RewriteSpaceFirst` | src/handles.rs:348-359 | Nor the whitespace that comes before every closing parenthesis |
| `LinkText.NoSecondPass` | src/handles.rs:307-342 | Rewritten text holds no link that would be rewritten again |
| `LinkRewrite.ReplaceLinkUrls` | src/handles.rs:307-342 | The output is the input with each accepted URL replaced by a minted handle, the count is their number, and the table's recency is that of interning them in order |
| `LinkRewrite.LosslessIff` | src/handles.rs:307-342 | Every handle written resolves on return to the URL it replaced if and only if the text has at most 2048 distinct accepted URLs |
| `LinkRewrite.SecondPass` | src/handles.rs:307-342 | A second pass over the output changes nothing and counts nothing |
| `LinkRewrite.RewriteTwice` | src/handles.rs:307-342 | Run on one table, the second call returns the same text, counts 0 and leaves the recency as it was |
| `LinkBack.PutBackIff` | src/handles.rs:307-342 | Replacing, in the output text, every link target that is a written handle by its URL gives the input back if and only if no such handle stood as a link target in the text that was kept |
| `LinkBack.WayBackIff` | src/handles.rs:307-342 | The same with the handle table the rewrite leaves, for any table before it and any text of at most 2048 distinct accepted URLs |
| `LinkBack.CollidesStands` | src/handles.rs:307-342 | A collision needs a written handle as a link target somewhere in the input; without one the way back is exact |
| `LinkBack.TwoTextsOneOutput` | src/handles.rs:307-342 | Two different texts with the same accepted URLs that any handle rewrites to one output, so no reader of the output can tell them apart |
| `Rules.FromCompiled` | src/rules.rs:317-325 | Each index maps a host to the positions of its rules of that form, in order |
| `Rules.IndexAgrees` | src/rules.rs:347-398 | The indexed suffix walk and the scheme filter find the same rules, each as often, as testing every rule in turn |
| `Rules.WalkMeaning` | src/rules.rs:362-378 | Walking the dots of a host finds exactly the tree rules whose host is a label-boundary suffix of it, each once |
| `Rules.Matches` | src/rules.rs:347-401 | The result is a permutation of the linear scan in which each rule is at least as specific as those behind it: its host goes on with theirs, label by label, and of one host the exact form comes before the tree and a named scheme before none |
| `Rules.Eval` | src/rules.rs:341-343 | The result is an enabled fitting rule at least as specific as every other: the host of each enabled fitting rule is made of its last labels, and of its own host none is exact or names a scheme unless it does; or no enabled rule fits |
| `Rules.FitsDomain` | src/rules.rs:355-378 | An exact rule fits a domain if and only if it names all its labels, a tree rule if and only if it names its last ones, and the schemes agree |
| `Rules.WinnerUnique` | src/rules.rs:417-424 | With distinct keys there is one winner |
| `Rules.EvalIgnoresDisabled` | src/rules.rs:341-343 | Evaluating a set and the set without its disabled rules give the same rule |
| `Rules.DisabledIsAbsent` | src/rules.rs:341-343 | A rule wins among all if and only if it wins among the enabled ones |
| `Rules.TrailingDots` | src/rules.rs:355-361 | Any number of trailing dots on the URL's host changes no match |
| `Rules.MappedIsIpv4` | src/rules.rs:380-394 | An IPv4-mapped IPv6 host matches what the IPv4 host matches |
| `Rules.SameLabelsSameHost` | src/rules.rs:417-424 | Two rules that fit one URL with equally many labels name the same host |
| `Rules.KeyNeverDecides` | src/rules.rs:417-424 | Without duplicate patterns, two rules that fit one URL differ before the key is compared |
| `Rules.CheckDuplicates` | src/rules.rs:728-746 | It reports nothing if and only if all patterns differ, and otherwise the first repeated one |
| `RuleKeys.AcceptedIff` | src/rules.rs:469-676 | A key is accepted as (host, dot, scheme) if and only if it is that triple printed and the host is in normal form |
| `RuleKeys.PrintParse` | src/rules.rs:469-676 | Printing what an accepted key parsed to gives the key back |
| `RuleKeys.ParsePrint` | src/rules.rs:469-676 | Every triple in normal form, printed, is accepted as itself |
| `RuleKeys.KeysAreInjective` | src/rules.rs:728-746 | Distinct accepted keys never name the same pattern |
| `RuleKeys.Compile` | src/rules.rs:300-315 | A table compiles if and only if every key and its fields are good; the first bad entry is named, and the duplicate error is unreachable |
| `TomlEdit.SetTomlBool` | src/config.rs:551-588 | The scan-and-edit loop equals the edit of the first key line, else an insertion under the first header, else an appended section |
| `TomlEdit.LinesUnlines` | src/config.rs:552-587 | Joining lines and splitting them again costs each line at most one trailing carriage return |
| `TomlLens.EditKeepsLines` | src/config.rs:576-587 | One line is written or replaced; every other line survives in order |
| `TomlLens.EditOther` | src/config.rs:551-588 | Every other (section, key) is read from the line it was read from |
| `TomlLines.HeaderIff` | src/config.rs:593-600 | A line is the header of a section if and only if, after blanks, it starts with the name in brackets, whatever follows; the name is not empty, holds no closing bracket and starts with no bracket |
| `TomlLines.AssignmentIff` | src/config.rs:604-611 | A line assigns a key if and only if it is the key and an equals sign with blanks at will before either |
| `TomlLaws.SetThenRead` | src/config.rs:551-588 | On any text, reading the key back with the same scan gives the word true or false that was set |
| `TomlLaws.SetKeepsOthers` | src/config.rs:551-588 | On any text, every other (section, key) reads as before |
| `TomlLaws.SetTwiceIff` | src/config.rs:551-588 | A second set overrides the first textually if and only if no kept line still ends with a carriage return after line splitting |
| `TomlLaws.StrayReturnBreaksOverride` | src/config.rs:551-588 | On the text "\r\r\n" a second set does not override the first |
| `TomlLaws.SetIsIdempotent` | src/config.rs:551-588 | On text without carriage returns, repeating a set changes nothing |
| `EnvLayer.NewEnvLayer` | src/config.rs:1985-2111 | The loops compute the table, sorted warnings and sorted errors of the specification |
| `EnvLayer.LayerForgetsOrder` | src/config.rs:1985-2111 | Every permutation of the environment gives the same table, warnings and errors |
| `EnvLayer.KeyMeaning` | src/config.rs:2050-2106 | A key is set exactly when one variable names it with a good value, and is then that value |
| `EnvLayer.Collides` | src/config.rs:2052-2063 | A key named by two variables is set by neither and adds exactly one error, which names them |
| `EnvLayer.PutGet` | src/config.rs:618-640 | Putting a value changes the reading of its own section and key only |
| `EnvLayer.NamesKey` | src/config.rs:1997-2048 | A variable that spells section and key behind the prefix, in any letter case, names that key |
| `EnvLayer.BoolKey` | src/config.rs:1957-1970 | A boolean key is on for 1, true, on, yes and y, off for 0, false, off, no and n, in any letter case and with blanks around, and unset for any other text |
| `EnvLayer.TextKey` | src/config.rs:2080-2100 | A text key holds its text as it is, a number key the number its trimmed text parses to, if it does |
| `EnvLayer.ListKey` | src/config.rs:2098-2104 | A list key holds the pieces between the commas, trimmed, the blank ones left out |
| `EnvLayer.ReportsAll` | src/config.rs:1995-2048 | Every variable warned of or refused is reported, and no warning is made up |
| `PiTable.StepKeepsInv` | npm/pi-extension.ts:227-378 | Every event keeps: each issued id is pending, settled or deaf and only one of them; a pending id has its timer, a settled one none; nothing is pending without a server |
| `PiTable.UnsettledArePending` | npm/pi-extension.ts:283-338 | In every interleaving each request settles at most once, and the unsettled ones are the pending ones, each with its timer, and those whose signal was aborted before the call |
| `PiTable.LosingRejectsAll` | npm/pi-extension.ts:227-263 | After exit, error or kill the table is empty, every entry rejected in order, and no timer of theirs is left |
| `PiTable.DeafNeverSettles` | npm/pi-extension.ts:310-322 | An unsettled request can still settle if and only if its signal was not aborted before the call: its timer settles it, and a deaf one stays unsettled in every continuation |
| `PiTable.AbortedAtCall` | npm/pi-extension.ts:317-323 | A request enters the table if and only if its signal was not already aborted |
| `PiTable.ResponseSettlesItsOwn` | npm/pi-extension.ts:186-196 | A response settles the pending request of its id and nothing else |
| `PiTable.EventSettlesItsOwn` | npm/pi-extension.ts:283-338 | An abort cancels the pending request of its signal, a timer times its own out, a response answers its own; each leaves every other request as it was, and its timer and listener go |
| `PiTable.SignalsListen` | npm/pi-extension.ts:317-323 | A request sent with a live signal listens to it |
| `PiTable.GreetingInitializes` | npm/pi-extension.ts:148-281 | The client is initialized if and only if the greeting of the server it started is answered without an error |
| `PiTable.RunGrows` | npm/pi-extension.ts:290-301 | A settled promise stays as it was settled, and ids are never reused |
| `PiTable.DownBlamesItsOwnIff` | npm/pi-extension.ts:227-263 | News that a server is gone rejects only requests sent to that server if and only if nothing is pending or it is still the current one |
| `PiTable.LateExitHitsNextServer` | npm/pi-extension.ts:237-244 | A concrete run in which the exit of a killed server rejects the next server's first request |
| `PiTable.DownForgetsAnyServer` | npm/pi-extension.ts:227-263 | News that any server is gone leaves the current one in place if and only if none is current: a late exit of an old server forgets the live one, and nothing is sent until another start |
| `PiClient.Client.SendRequest` | npm/pi-extension.ts:283-338 | The in-place handler equals the table's step and keeps the invariant |
| `PiClient.Client.StartServer` | npm/pi-extension.ts:148-281 | Likewise for spawning and greeting a server; a second start does nothing |
| `PiClient.Client.OnDown` | npm/pi-extension.ts:227-263 | Likewise for an exit, an error or a stream error |
| `PiClient.Client.OnResponse` | npm/pi-extension.ts:186-196 | Likewise for a response line |
| `PiClient.Client.OnTimeout` | npm/pi-extension.ts:302-306 | Likewise for a timer |
| `PiClient.Client.OnAbort` | npm/pi-extension.ts:310-316 | Likewise for an abort |
| `PiClient.Client.LoseServer` | npm/pi-extension.ts:237-244 | The rejecting loop equals rejecting the entries in insertion order |
| `PiClient.Client.KillServer` | npm/pi-extension.ts:359-378 | Likewise for a kill |
| `Framing.FramesWholeIff` | npm/pi-extension.ts:176-200 | On any chunks of bytes, the lines delivered and the buffer left are those of the whole output decoded at once if and only if no chunk ends inside a character |
| `Framing.SplitLetterIsLost` | npm/pi-extension.ts:178-179 | The bytes C3 A9 0A deliver an accented letter in one chunk and two replacement characters when cut behind C3 |
| `Framing.ChunksDoNotMatter` | npm/pi-extension.ts:176-200 | Once decoded, the cutting does not matter: the lines and the buffer are those of the decoded chunks joined |
| `Utf8.DecodesWholeIff` | npm/pi-extension.ts:178-179 | Bytes decoded chunk by chunk read as the whole does if and only if no chunk ends inside a character, and otherwise as strictly more characters |
| `Utf8.NoneSplitMeans` | npm/pi-extension.ts:178-179 | That condition is that every chunk end is a character border of the whole |
| `Utf8Trip.EncodeDecode` | npm/pi-extension.ts:178-179 | Every text encodes to complete characters and decodes to itself |
| `Utf8Trip.DecodeEncode` | npm/pi-extension.ts:178-179 | Complete characters are the encoding of what they decode to: no bytes are a second spelling |
| `Framing.FeedAll` | npm/pi-extension.ts:176-200 | Fed chunk by chunk, the client ends in the state that the lines of the chunks, each decoded on its own, lead to |
| `Framing.FeedWhole` | npm/pi-extension.ts:176-200 | Cut between characters only, it ends in the state the lines of the whole output lead to |
| `Framing.HeardIsRun` | npm/pi-extension.ts:180-196 | Hearing lines of output is a run of the table over the responses in them; blank lines and lines that are not JSON are none |
| `Tar.ExtractTarEntry` | build.rs:859-894 | On any bytes the loop ends, stays in bounds and returns what the specification reads |
| `Tar.RoundTrip` | build.rs:859-894 | For any list of members with NUL-terminated names under 100 bytes, extraction returns the data of the first member whose name, leading "./" stripped, is the wanted one, else none |
| `Tar.MarkedIsFound` | build.rs:866-872 | A member written with any number of "./" in front is found under its bare name |
| `Tar.PaddedIsLeast` | build.rs:880-894 | Data fills the least number of whole blocks |
| `Tar.TruncatedIsMissed` | build.rs:880-894 | A member cut short inside its data is not found |
| `Tar.NameFieldIff` | build.rs:866-870 | The reader takes the name field's bytes if and only if a NUL stands in its 100 bytes or right behind them; a full field runs on into the mode |
| `Tar.FullNameIsMissed` | build.rs:866-875 | No member whose ASCII name takes all 100 bytes (no leading "./", a mode behind it), alone in an archive, is found under its name |
| `Tar.Utf8ReadsAscii` | build.rs:866-881 | UTF-8 decoding meets what the results above assume of the decoder |

## Left out

- File I/O, permissions, fsync and the lock itself: a locked section is one
  atomic step, the disk is one value, writes succeed and the file parses.
- Session and auth revisions, personas, human-wall records, format versions and
  one-time migrations: they ride along with a profile and take no part in the
  ordering of vault writes.
- Cookie hygiene (name and character checks, public suffixes) is the parameter
  `Hygiene`; lengths are counted in characters, not bytes.
- VaultInvariant.StepKeepsInv: assumes no eviction past the profile cap and an
  epoch below the last 64-bit value; `VaultLimits` shows both are needed.
- VaultJar.DiskJarIsItsEvents: assumes an epoch below the last 64-bit value, but
  allows any eviction.
- VaultErasure.SnapshotsErase: compares live cookies and login marks, not
  deletion stamps, and assumes the same two bounds; copies must agree on the last
  solves at the start, which every step then keeps.
- VaultLogout.ReRaisedIff: is about the next save after the logout; what later
  runs do to an unfenced host is left out.
- VaultLogin.LoginSticks: asks that no version of the row written on the way
  expires; a harvest may replace a row by one that expires sooner.
- RouteMemory.ProfileRefinesHistory: averages are real numbers; 32-bit float
  rounding is not modelled.
- Helper loops over all profiles (`values_mut`) are map comprehensions: the
  visiting order, which nothing depends on, is not modelled.
- `vault_over_jar`, `load_session_cookies` and the status counters of
  `src/state.rs`: they read the state and write nothing, so no theorem about
  runs depends on them.
- The prober's timers, fetches and locks: a scan and a probe are each one call,
  outcomes are parameters.
- Handles.HandleTable.InternLink: ids are drawn by an unspecified search for an
  unused well-formed one; entropy, SHA-256, and the `load`/`flush` pair with its
  24-hour expiry are left out, and `now` is one value per call.
- LinkRewrite.ReplaceLinkUrls: positions are in characters, not UTF-8 bytes; all
  positions the code cuts at are next to ASCII characters.
- RuleKeys.Compile: the WHATWG host parser is the uninterpreted parameter
  `parse`; error messages are reduced to error kinds.
- `denial` and the policy codes of `src/rules.rs`: single-branch projections.
- EnvLayer.KeyMeaning: assumes what the field table satisfies, that no section
  or key name holds a dot; integer parsing, the token check and the table itself
  are parameters.
- The `legacy_layer`, the config builder and `show_*` output.
- Framing.FeedAll: JSON parsing is the parameter `parse`, and what the server
  writes to stderr is left out.
- PiTable.StepKeepsInv: notifications written to the server and the supervised
  process itself are not modelled; the promise continuation that marks the
  client initialized runs together with its response.
- Tar.RoundTrip: holds for any decoder that reads octal digits as themselves,
  as UTF-8 does; sizes are below 8^11, as eleven digits allow, so no 64-bit
  overflow arises.
