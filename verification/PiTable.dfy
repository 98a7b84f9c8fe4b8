/** The pending-request table of npm/pi-extension.ts as a value: what every
    event does to it. Request ids follow section 5 of the JSON-RPC 2.0
    Specification. */
module PiTable {
  import opened Options
  import opened Lists

  datatype Cause = Exited | SpawnFailed | StreamFailed | Killed

  datatype Outcome = Resolved | ServerError | TimedOut | Cancelled | Lost(cause: Cause)

  datatype Settled = Settled(id: nat, outcome: Outcome)

  /** The module's state, and what its requests have come to. `pending` lists
      ids in insertion order; `deaf` holds the ids whose signal was already
      aborted at the call; `log` lists the promises settled, in order. */
  datatype Table = Table(
    proc: Option<nat>,
    servers: nat,
    nextId: nat,
    initialized: bool,
    greeting: Option<nat>,
    pending: seq<nat>,
    sentTo: map<nat, nat>,
    armed: set<nat>,
    listening: set<nat>,
    finished: set<nat>,
    deaf: set<nat>,
    log: seq<Settled>)

  const IDLE: Table := Table(None, 0, 1, false, None, [], map[], {}, {}, {}, {}, [])

  /** `Down` comes from the server numbered `server`, which need not be the
      current one. */
  datatype Event =
    | Start(writable: bool)
    | Send(writable: bool, signal: bool, aborted: bool)
    | Response(msg: Option<nat>, failed: bool)
    | Timeout(id: nat)
    | Abort(id: nat)
    | Down(server: nat, cause: Cause)
    | Kill

  // ---- What the handlers do ----

  function Drop(ids: seq<nat>, id: nat): seq<nat>
  {
    if ids == [] then [] else (if ids[0] == id then [] else [ids[0]]) + Drop(ids[1..], id)
  }

  /** Settle a promise, unless it was settled before. */
  function Finish(t: Table, id: nat, outcome: Outcome): Table
  {
    if id in t.finished then t
    else t.(finished := t.finished + {id}, listening := t.listening - {id}, log := t.log + [Settled(id, outcome)])
  }

  /** Clear the timer, then settle. */
  function Conclude(t: Table, id: nat, outcome: Outcome): Table
  {
    Finish(t.(armed := t.armed - {id}), id, outcome)
  }

  function ConcludeAll(t: Table, ids: seq<nat>, outcome: Outcome): Table
    decreases |ids|
  {
    if ids == [] then t else ConcludeAll(Conclude(t, ids[0], outcome), ids[1..], outcome)
  }

  /** Lose the server: every pending request is rejected. */
  function Lose(t: Table, cause: Cause): Table
  {
    ConcludeAll(t, t.pending, Lost(cause)).(proc := None, initialized := false, pending := [])
  }

  function Sent(t: Table, writable: bool, signal: bool, aborted: bool): Table
  {
    if t.proc.None? || !writable then t
    else
      var id := t.nextId;
      var t' := t.(nextId := id + 1, armed := t.armed + {id}, sentTo := t.sentTo[id := t.proc.value]);
      if signal && aborted then t'.(deaf := t.deaf + {id})
      else t'.(pending := t.pending + [id], listening := if signal then t.listening + {id} else t.listening)
  }

  function Step(t: Table, e: Event): Table
  {
    match e
    case Start(writable) =>
      if t.proc.Some? then t
      else Sent(t.(proc := Some(t.servers), servers := t.servers + 1, greeting := if writable then Some(t.nextId) else None), writable, false, false)
    case Send(writable, signal, aborted) => Sent(t, writable, signal, aborted)
    case Response(msg, failed) =>
      if msg.None? || msg.value !in t.pending then t
      else
        var t' := Conclude(t.(pending := Drop(t.pending, msg.value)), msg.value, if failed then ServerError else Resolved);
        if !failed && t.greeting == msg then t'.(initialized := true) else t'
    case Timeout(id) =>
      if id !in t.armed then t
      else if id !in t.pending then t.(armed := t.armed - {id})
      else Finish(t.(armed := t.armed - {id}, pending := Drop(t.pending, id)), id, TimedOut)
    case Abort(id) =>
      if id !in t.listening then t
      else if id !in t.pending then t.(listening := t.listening - {id})
      else Conclude(t.(pending := Drop(t.pending, id), listening := t.listening - {id}), id, Cancelled)
    case Down(_, cause) => Lose(t, cause)
    case Kill => Lose(t, Killed)
  }

  function Run(t: Table, events: seq<Event>): Table
    decreases |events|
  {
    if events == [] then t else Run(Step(t, events[0]), events[1..])
  }

  // ---- The invariant ----

  ghost predicate OnceEach(log: seq<Settled>) { forall i, j :: 0 <= i < j < |log| ==> log[i].id != log[j].id }

  ghost predicate Logged(log: seq<Settled>, id: nat) { exists i :: 0 <= i < |log| && log[i].id == id }

  /** Every id issued is pending, finished or deaf, and only one of these. */
  ghost predicate Partition(t: Table)
  {
    && (forall id :: id in t.pending ==> id !in t.finished && id !in t.deaf)
    && (forall id :: id in t.finished ==> id !in t.deaf)
    && (forall id: nat :: id in t.pending || id in t.finished || id in t.deaf <==> 1 <= id < t.nextId)
  }

  ghost predicate Accounts(t: Table)
  {
    OnceEach(t.log) && forall id: nat :: id in t.finished <==> Logged(t.log, id)
  }

  /** A pending request has its timer, a finished one has none. */
  ghost predicate Timed(t: Table)
  {
    && (forall id :: id in t.pending ==> id in t.armed)
    && (forall id :: id in t.armed ==> id !in t.finished && id < t.nextId)
    && (forall id :: id in t.listening ==> id in t.pending)
  }

  ghost predicate Served(t: Table)
  {
    && (t.pending != [] || t.initialized ==> t.proc.Some?)
    && (t.proc.Some? ==> t.proc.value < t.servers)
    && (forall id :: id in t.pending ==> id in t.sentTo && Some(t.sentTo[id]) == t.proc)
  }

  ghost predicate Inv(t: Table)
  {
    t.nextId >= 1 && NoRepeats(t.pending) && Partition(t) && Accounts(t) && Timed(t) && Served(t)
  }

  lemma {:induction false} IdleInv()
    ensures Inv(IDLE)
  {
  }

  lemma {:induction false} DropMeaning(ids: seq<nat>, id: nat)
    requires NoRepeats(ids)
    ensures NoRepeats(Drop(ids, id))
    ensures forall x :: x in Drop(ids, id) <==> x in ids && x != id
    decreases |ids|
  {
    if ids != [] {
      var rest := Drop(ids[1..], id);
      DropMeaning(ids[1..], id);
      assert ids == [ids[0]] + ids[1..];
      assert ids[0] !in ids[1..];
      assert NoRepeats([ids[0]] + rest);
    }
  }

  lemma {:induction false} SentKeepsInv(t: Table, writable: bool, signal: bool, aborted: bool)
    requires Inv(t)
    ensures Inv(Sent(t, writable, signal, aborted))
  {
  }

  /** Settling the pending `id`, after it left the table. */
  ghost predicate Between(t: Table, id: nat)
  {
    && t.nextId >= 1 && NoRepeats(t.pending) && Accounts(t) && Served(t)
    && id !in t.pending && id !in t.finished && id !in t.deaf && 1 <= id < t.nextId
    && (forall x :: x in t.pending ==> x !in t.finished && x !in t.deaf && x in t.armed)
    && (forall x :: x in t.finished ==> x !in t.deaf)
    && (forall x: nat :: x in t.pending || x in t.finished || x in t.deaf || x == id <==> 1 <= x < t.nextId)
    && (forall x :: x in t.armed ==> x !in t.finished && x < t.nextId)
    && (forall x :: x in t.listening ==> x in t.pending || x == id)
  }

  lemma {:induction false} LeavesTable(t: Table, id: nat)
    requires Inv(t) && id in t.pending
    ensures Between(t.(pending := Drop(t.pending, id)), id)
  {
    DropMeaning(t.pending, id);
  }

  lemma {:induction false} LoggedSnoc(log: seq<Settled>, s: Settled, id: nat)
    ensures Logged(log + [s], id) <==> Logged(log, id) || id == s.id
  {
    var log' := log + [s];
    if Logged(log, id) {
      var i :| 0 <= i < |log| && log[i].id == id;
      assert log'[i].id == id;
    }
    assert log'[|log|] == s;
  }

  lemma {:induction false} ConcludeKeepsInv(t: Table, id: nat, outcome: Outcome)
    requires Between(t, id)
    ensures Inv(Conclude(t, id, outcome))
  {
    var t' := Conclude(t, id, outcome);
    var s := Settled(id, outcome);
    forall x: nat ensures x in t'.finished <==> Logged(t'.log, x) {
      LoggedSnoc(t.log, s, x);
    }
    assert OnceEach(t'.log) by {
      assert !Logged(t.log, id);
    }
  }

  // ---- Losing the server ----

  /** What rejecting `ids` leaves. */
  lemma {:induction false} ConcludeAllMeaning(t: Table, ids: seq<nat>, outcome: Outcome)
    requires NoRepeats(ids) && forall id :: id in ids ==> id !in t.finished
    ensures var t' := ConcludeAll(t, ids, outcome);
      && t' == t.(armed := t'.armed, listening := t'.listening, finished := t'.finished, log := t'.log)
      && t'.armed == t.armed - Ids(ids) && t'.listening == t.listening - Ids(ids)
      && t'.finished == t.finished + Ids(ids) && t'.log == t.log + Entries(ids, outcome)
    decreases |ids|
  {
    if ids != [] {
      assert ids == [ids[0]] + ids[1..];
      assert ids[0] in ids && ids[0] !in ids[1..];
      ConcludeAllMeaning(Conclude(t, ids[0], outcome), ids[1..], outcome);
      assert Ids(ids) == {ids[0]} + Ids(ids[1..]);
      assert Entries(ids, outcome) == [Settled(ids[0], outcome)] + Entries(ids[1..], outcome);
    } else {
      assert Ids(ids) == {} && Entries(ids, outcome) == [];
    }
  }

  function Ids(ids: seq<nat>): set<nat> { set id | id in ids }

  function Entries(ids: seq<nat>, outcome: Outcome): seq<Settled>
  {
    seq(|ids|, i requires 0 <= i < |ids| => Settled(ids[i], outcome))
  }

  lemma {:induction false} LoseMeaning(t: Table, cause: Cause)
    requires Inv(t)
    ensures var t' := Lose(t, cause);
      && t' == t.(proc := None, initialized := false, pending := [], armed := t.armed - Ids(t.pending),
                  listening := {}, finished := t.finished + Ids(t.pending), log := t.log + Entries(t.pending, Lost(cause)))
  {
    ConcludeAllMeaning(t, t.pending, Lost(cause));
    assert t.listening - Ids(t.pending) == {};
  }

  lemma {:induction false} LoseAccounts(t: Table, cause: Cause)
    requires Inv(t)
    ensures Accounts(Lose(t, cause))
  {
    LoseMeaning(t, cause);
    var t', more := Lose(t, cause), Entries(t.pending, Lost(cause));
    forall id: nat ensures id in t'.finished <==> Logged(t'.log, id) {
      LoggedConcat(t.log, more, id);
      LoggedEntries(t.pending, Lost(cause), id);
    }
    forall i, j | 0 <= i < j < |t'.log| ensures t'.log[i].id != t'.log[j].id {
      if i < |t.log| <= j {
        assert Logged(t.log, t'.log[i].id);
        assert t'.log[j].id == t.pending[j - |t.log|];
      }
    }
  }

  lemma {:induction false} LoggedConcat(a: seq<Settled>, b: seq<Settled>, id: nat)
    ensures Logged(a + b, id) <==> Logged(a, id) || Logged(b, id)
  {
    if Logged(a, id) {
      var i :| 0 <= i < |a| && a[i].id == id;
      assert (a + b)[i].id == id;
    }
    if Logged(b, id) {
      var i :| 0 <= i < |b| && b[i].id == id;
      assert (a + b)[|a| + i].id == id;
    }
  }

  lemma {:induction false} LoggedEntries(ids: seq<nat>, outcome: Outcome, id: nat)
    ensures Logged(Entries(ids, outcome), id) <==> id in ids
  {
    if id in ids {
      var i :| 0 <= i < |ids| && ids[i] == id;
      assert Entries(ids, outcome)[i].id == id;
    }
  }

  lemma {:induction false} LoseKeepsInv(t: Table, cause: Cause)
    requires Inv(t)
    ensures Inv(Lose(t, cause))
  {
    LoseMeaning(t, cause);
    LoseAccounts(t, cause);
  }

  // ---- Every step keeps the invariant ----

  lemma {:induction false} SettleKeepsInv(t: Table, id: nat, outcome: Outcome)
    requires Inv(t) && id in t.pending
    ensures Inv(Conclude(t.(pending := Drop(t.pending, id)), id, outcome))
  {
    LeavesTable(t, id);
    ConcludeKeepsInv(t.(pending := Drop(t.pending, id)), id, outcome);
  }

  lemma {:induction false} StepKeepsInv(t: Table, e: Event)
    requires Inv(t)
    ensures Inv(Step(t, e))
  {
    match e
    case Start(writable) =>
      if t.proc.None? {
        var t' := t.(proc := Some(t.servers), servers := t.servers + 1, greeting := if writable then Some(t.nextId) else None);
        assert Inv(t');
        SentKeepsInv(t', writable, false, false);
      }
    case Send(writable, signal, aborted) =>
      SentKeepsInv(t, writable, signal, aborted);
    case Response(msg, failed) =>
      if msg.Some? && msg.value in t.pending {
        SettleKeepsInv(t, msg.value, if failed then ServerError else Resolved);
      }
    case Timeout(id) =>
      if id in t.pending {
        SettleKeepsInv(t, id, TimedOut);
      }
    case Abort(id) =>
      if id in t.pending {
        SettleKeepsInv(t.(listening := t.listening - {id}), id, Cancelled);
      }
    case Down(_, cause) =>
      LoseKeepsInv(t, cause);
    case Kill =>
      LoseKeepsInv(t, Killed);
  }

  lemma {:induction false} RunKeepsInv(t: Table, events: seq<Event>)
    requires Inv(t)
    ensures Inv(Run(t, events))
    decreases |events|
  {
    if events != [] {
      StepKeepsInv(t, events[0]);
      RunKeepsInv(Step(t, events[0]), events[1..]);
    }
  }

  // ---- What runs guarantee ----

  /** Once settled, a promise stays as it was settled; ids only grow. */
  lemma {:induction false} StepGrows(t: Table, e: Event)
    requires Inv(t)
    ensures t.log <= Step(t, e).log && t.nextId <= Step(t, e).nextId && t.deaf <= Step(t, e).deaf
  {
    match e
    case Down(_, cause) => LoseMeaning(t, cause);
    case Kill => LoseMeaning(t, Killed);
    case _ =>
  }

  lemma {:induction false} RunGrows(t: Table, events: seq<Event>)
    requires Inv(t)
    ensures t.log <= Run(t, events).log && t.nextId <= Run(t, events).nextId && t.deaf <= Run(t, events).deaf
    decreases |events|
  {
    if events != [] {
      StepGrows(t, events[0]);
      StepKeepsInv(t, events[0]);
      RunGrows(Step(t, events[0]), events[1..]);
    }
  }

  /** In every interleaving each request settles at most once, and the ones
      issued but not settled are the pending ones, each with its timer, and the
      ones whose signal was aborted before the call. */
  lemma {:induction false} UnsettledArePending(events: seq<Event>, id: nat)
    ensures var t := Run(IDLE, events);
      && OnceEach(t.log)
      && (1 <= id < t.nextId ==> (id in t.pending <==> !Logged(t.log, id) && id !in t.deaf))
      && (id in t.pending ==> id in t.armed && 1 <= id < t.nextId)
  {
    IdleInv();
    RunKeepsInv(IDLE, events);
  }

  /** After an exit, an error or a kill the table is empty, each entry rejected
      in the order it was sent, and no timer of theirs is left. */
  lemma {:induction false} LosingRejectsAll(events: seq<Event>, e: Event)
    requires e.Down? || e.Kill?
    ensures var t := Run(IDLE, events); var t', cause := Step(t, e), if e.Kill? then Killed else e.cause;
      && t'.pending == [] && t'.proc.None? && !t'.initialized
      && t'.log == t.log + Entries(t.pending, Lost(cause))
      && t'.armed == t.armed - Ids(t.pending)
  {
    IdleInv();
    RunKeepsInv(IDLE, events);
    LoseMeaning(Run(IDLE, events), if e.Kill? then Killed else e.cause);
  }

  /** A request can still settle unless its signal was aborted before the call:
      its own timer settles it, and a deaf one stays unsettled for ever. */
  lemma {:induction false} DeafNeverSettles(t: Table, id: nat, later: seq<Event>)
    requires Inv(t) && 1 <= id < t.nextId && !Logged(t.log, id)
    ensures id in t.deaf ==> !Logged(Run(t, later).log, id)
    ensures id !in t.deaf ==> Logged(Step(t, Timeout(id)).log, id)
  {
    if id in t.deaf {
      RunGrows(t, later);
      RunKeepsInv(t, later);
    } else {
      LoggedSnoc(t.log, Settled(id, TimedOut), id);
    }
  }

  lemma {:induction false} AbortedAtCall(t: Table, signal: bool, aborted: bool)
    requires Inv(t) && t.proc.Some?
    ensures var t' := Step(t, Send(true, signal, aborted));
      && t'.nextId == t.nextId + 1 && t'.log == t.log
      && (t.nextId in t'.deaf <==> signal && aborted) && (t.nextId in t'.pending <==> !(signal && aborted))
  {
    assert t.nextId !in t.pending && t.nextId !in t.deaf;
  }

  /** A response settles the pending request of its id, and nothing else. */
  lemma {:induction false} ResponseSettlesItsOwn(t: Table, id: nat, failed: bool)
    requires Inv(t)
    ensures var t' := Step(t, Response(Some(id), failed));
      if id in t.pending then
        t'.log == t.log + [Settled(id, if failed then ServerError else Resolved)] && t'.pending == Drop(t.pending, id)
      else t' == t
  {
  }

  /** A request has left the table, settled as told, its timer and listener
      gone; every other request is as it was. */
  ghost predicate SettledAlone(t: Table, t': Table, id: nat, outcome: Outcome)
  {
    && t'.log == t.log + [Settled(id, outcome)] && t'.armed == t.armed - {id} && t'.listening == t.listening - {id}
    && (forall x :: x in t'.pending <==> x in t.pending && x != id)
    && t'.proc == t.proc && t'.nextId == t.nextId && t'.deaf == t.deaf && t'.sentTo == t.sentTo
  }

  /** An abort cancels the pending request of its signal, a timer times out the
      pending request it was set for, and a response answers the one it names;
      each settles that request and no other. */
  lemma {:induction false} EventSettlesItsOwn(t: Table, e: Event)
    requires Inv(t)
    ensures e.Abort? ==> if e.id in t.listening then SettledAlone(t, Step(t, e), e.id, Cancelled) else Step(t, e) == t
    ensures e.Timeout? && e.id in t.pending ==> SettledAlone(t, Step(t, e), e.id, TimedOut)
    ensures e.Timeout? && e.id !in t.pending ==> Step(t, e) == t.(armed := t.armed - {e.id})
    ensures e.Response? && e.msg.Some? && e.msg.value in t.pending ==>
      SettledAlone(t, Step(t, e), e.msg.value, if e.failed then ServerError else Resolved)
    ensures e.Send? || e.Start? ==> Step(t, e).log == t.log && t.pending <= Step(t, e).pending
  {
    if e.Abort? || e.Timeout? {
      DropMeaning(t.pending, e.id);
    } else if e.Response? && e.msg.Some? {
      DropMeaning(t.pending, e.msg.value);
    }
  }

  /** A request sent with a signal listens to it until it is settled. */
  lemma {:induction false} SignalsListen(t: Table)
    requires Inv(t) && t.proc.Some?
    ensures var t' := Step(t, Send(true, true, false));
      t.nextId in t'.listening && t.nextId in t'.armed && t'.sentTo == t.sentTo[t.nextId := t.proc.value]
  {
  }

  /** Only a good answer to the greeting initializes the client. */
  lemma {:induction false} GreetingInitializes(t: Table, id: nat, failed: bool)
    requires Inv(t) && t.proc.None?
    ensures var t1 := Step(t, Start(true)); var t2 := Step(t1, Response(Some(id), failed));
      && t1.proc == Some(t.servers) && t1.pending == [t.nextId] && !t1.initialized
      && (t2.initialized <==> id == t.nextId && !failed)
  {
  }

  /** The news that a server is gone rejects only requests sent to that server
      exactly when nothing is pending or it is still the current one: the
      handlers do not ask which server they were installed on. */
  lemma {:induction false} DownBlamesItsOwnIff(t: Table, server: nat, cause: Cause)
    requires Inv(t)
    ensures (forall i :: |t.log| <= i < |Step(t, Down(server, cause)).log| ==>
               var id := Step(t, Down(server, cause)).log[i].id; id in t.sentTo && t.sentTo[id] == server)
        <==> t.pending == [] || t.proc == Some(server)
  {
    LoseMeaning(t, cause);
    var t' := Step(t, Down(server, cause));
    if t.pending != [] {
      assert t'.log[|t.log|] == Settled(t.pending[0], Lost(cause));
    }
    if t.proc == Some(server) {
      forall i | |t.log| <= i < |t'.log| ensures t'.log[i].id in t.sentTo && t.sentTo[t'.log[i].id] == server {
        assert t'.log[i].id == t.pending[i - |t.log|];
      }
    }
  }

  /** It also forgets whichever server is current: the client keeps the one it
      has exactly when it has none. */
  lemma {:induction false} DownForgetsAnyServer(t: Table, server: nat, cause: Cause)
    requires Inv(t)
    ensures Step(t, Down(server, cause)).proc == t.proc <==> t.proc.None?
    ensures t.proc.Some? && t.proc.value != server ==>
      var t' := Step(t, Down(server, cause)); t'.proc.None? && !t'.initialized && Step(t', Send(true, false, false)) == t'
  {
    LoseMeaning(t, cause);
  }

  /** Kill, start again, and the first server's exit rejects the second one's
      greeting. */
  lemma {:induction false} LateExitHitsNextServer()
    ensures var t := Run(IDLE, [Start(true), Kill, Start(true), Down(0, Exited)]);
      t.log == [Settled(1, Lost(Killed)), Settled(2, Lost(Exited))] && t.sentTo[1 := 0] == t.sentTo && t.sentTo[2 := 1] == t.sentTo
  {
    GreetThenKill();
    GreetThenExit(Step(Step(IDLE, Start(true)), Kill));
    FourSteps(IDLE, Start(true), Kill, Start(true), Down(0, Exited));
  }

  lemma {:induction false} GreetThenKill()
    ensures var t := Step(Step(IDLE, Start(true)), Kill);
      && Inv(t) && t.log == [Settled(1, Lost(Killed))] && t.nextId == 2 && t.sentTo == map[1 := 0] && t.servers == 1
      && t.proc.None? && t.pending == []
  {
    var a := Step(IDLE, Start(true));
    assert a.pending == [1] && a.sentTo == map[1 := 0] && a.servers == 1;
    IdleInv();
    StepKeepsInv(IDLE, Start(true));
    LoseMeaning(a, Killed);
    StepKeepsInv(a, Kill);
  }

  lemma {:induction false} GreetThenExit(t: Table)
    requires Inv(t) && t.proc.None? && t.pending == []
    ensures var d := Step(Step(t, Start(true)), Down(0, Exited));
      d.log == t.log + [Settled(t.nextId, Lost(Exited))] && d.sentTo == t.sentTo[t.nextId := t.servers]
  {
    var c := Step(t, Start(true));
    assert c.pending == [t.nextId] && c.log == t.log;
    StepKeepsInv(t, Start(true));
    LoseMeaning(c, Exited);
    assert Entries(c.pending, Lost(Exited)) == [Settled(t.nextId, Lost(Exited))];
  }

  lemma {:induction false} FourSteps(t: Table, e1: Event, e2: Event, e3: Event, e4: Event)
    ensures Run(t, [e1, e2, e3, e4]) == Step(Step(Step(Step(t, e1), e2), e3), e4)
  {
    var es := [e1, e2, e3, e4];
    assert es[1..] == [e2, e3, e4] && [e2, e3, e4][1..] == [e3, e4] && [e3, e4][1..] == [e4] && [e4][1..] == [];
    var a, b, c := Step(t, e1), Step(Step(t, e1), e2), Step(Step(Step(t, e1), e2), e3);
    assert Run(c, [e4]) == Step(c, e4);
    assert Run(b, [e3, e4]) == Run(c, [e4]);
    assert Run(a, [e2, e3, e4]) == Run(b, [e3, e4]);
    assert Run(t, es) == Run(a, es[1..]);
  }
}
