/** The JSON-RPC client of npm/pi-extension.ts: module state changed by its
    handlers, each proved to do what the table's step says. */
module PiClient {
  import opened Options
  import opened PiTable

  class Client {
    var proc: Option<nat>
    var servers: nat
    var nextId: nat
    var initialized: bool
    var greeting: Option<nat>
    var pending: seq<nat>
    var sentTo: map<nat, nat>
    var armed: set<nat>
    var listening: set<nat>
    var finished: set<nat>
    var deaf: set<nat>
    var log: seq<Settled>

    /** The state as one value. */
    function Now(): Table
      reads this
    {
      Table(proc, servers, nextId, initialized, greeting, pending, sentTo, armed, listening, finished, deaf, log)
    }

    constructor ()
      ensures Now() == IDLE && Inv(Now())
    {
      proc, servers, nextId, initialized, greeting := None, 0, 1, false, None;
      pending, sentTo, armed, listening, finished, deaf, log := [], map[], {}, {}, {}, {}, [];
      new;
      IdleInv();
    }

    /** Settle a promise once and stop listening for its abort. */
    method FinishOne(id: nat, outcome: Outcome)
      modifies this`finished, this`listening, this`log
      ensures Now() == Finish(old(Now()), id, outcome)
    {
      if id !in finished {
        finished := finished + {id};
        listening := listening - {id};
        log := log + [Settled(id, outcome)];
      }
    }

    method ConcludeOne(id: nat, outcome: Outcome)
      modifies this`armed, this`finished, this`listening, this`log
      ensures Now() == Conclude(old(Now()), id, outcome)
    {
      armed := armed - {id};
      FinishOne(id, outcome);
    }

    method SendRequest(writable: bool, signal: bool, aborted: bool)
      requires Inv(Now())
      modifies this
      ensures Now() == Step(old(Now()), Send(writable, signal, aborted)) && Inv(Now())
    {
      StepKeepsInv(Now(), Send(writable, signal, aborted));
      if proc.None? || !writable {
        return;
      }
      var id := nextId;
      nextId := nextId + 1;
      armed := armed + {id};
      sentTo := sentTo[id := proc.value];
      if signal {
        if aborted {
          deaf := deaf + {id};
          return;
        }
        listening := listening + {id};
      }
      pending := pending + [id];
    }

    /** Spawn a server unless one is there, and greet it. */
    method StartServer(writable: bool)
      requires Inv(Now())
      modifies this
      ensures Now() == Step(old(Now()), Start(writable)) && Inv(Now())
    {
      if proc.Some? {
        return;
      }
      StepKeepsInv(Now(), Start(writable));
      proc := Some(servers);
      servers := servers + 1;
      greeting := if writable then Some(nextId) else None;
      SendRequest(writable, false, false);
    }

    method OnResponse(msg: Option<nat>, failed: bool)
      requires Inv(Now())
      modifies this
      ensures Now() == Step(old(Now()), Response(msg, failed)) && Inv(Now())
    {
      StepKeepsInv(Now(), Response(msg, failed));
      if msg.None? || msg.value !in pending {
        return;
      }
      pending := Drop(pending, msg.value);
      ConcludeOne(msg.value, if failed then ServerError else Resolved);
      if !failed && greeting == msg {
        initialized := true;
      }
    }

    /** The timer of `id` fires. */
    method OnTimeout(id: nat)
      requires Inv(Now())
      modifies this
      ensures Now() == Step(old(Now()), Timeout(id)) && Inv(Now())
    {
      StepKeepsInv(Now(), Timeout(id));
      if id !in armed {
        return;
      }
      armed := armed - {id};
      if id in pending {
        pending := Drop(pending, id);
        FinishOne(id, TimedOut);
      }
    }

    /** The signal of `id` aborts. */
    method OnAbort(id: nat)
      requires Inv(Now())
      modifies this
      ensures Now() == Step(old(Now()), Abort(id)) && Inv(Now())
    {
      StepKeepsInv(Now(), Abort(id));
      if id !in listening {
        return;
      }
      listening := listening - {id};
      if id in pending {
        pending := Drop(pending, id);
        ConcludeOne(id, Cancelled);
      }
    }

    /** Reject every pending request and forget the server. */
    method LoseServer(cause: Cause)
      modifies this
      ensures Now() == Lose(old(Now()), cause)
    {
      proc, initialized := None, false;
      ghost var start := Now();
      SameRun(old(Now()), start, pending, Lost(cause));
      var i := 0;
      assert pending[0..] == pending;
      while i < |pending|
        invariant i <= |pending| && pending == start.pending
        invariant ConcludeAll(Now(), pending[i..], Lost(cause)) == ConcludeAll(start, pending, Lost(cause))
      {
        assert pending[i..][1..] == pending[i + 1..];
        ConcludeOne(pending[i], Lost(cause));
        i := i + 1;
      }
      assert pending[i..] == [];
      pending := [];
    }

    method OnDown(server: nat, cause: Cause)
      requires Inv(Now())
      modifies this
      ensures Now() == Step(old(Now()), Down(server, cause)) && Inv(Now())
    {
      StepKeepsInv(Now(), Down(server, cause));
      LoseServer(cause);
    }

    method KillServer()
      requires Inv(Now())
      modifies this
      ensures Now() == Step(old(Now()), Kill) && Inv(Now())
    {
      StepKeepsInv(Now(), Kill);
      LoseServer(Killed);
    }
  }

  /** Rejecting entries does not look at the server's fields. */
  lemma {:induction false} SameRun(t: Table, u: Table, ids: seq<nat>, outcome: Outcome)
    requires u == t.(proc := u.proc, initialized := u.initialized)
    ensures ConcludeAll(u, ids, outcome) == ConcludeAll(t, ids, outcome).(proc := u.proc, initialized := u.initialized)
    decreases |ids|
  {
    if ids != [] {
      SameRun(Conclude(t, ids[0], outcome), Conclude(u, ids[0], outcome), ids[1..], outcome);
    }
  }
}
