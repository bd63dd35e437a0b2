/** The server's control loop: after start-up it waits for reload and
    terminate events. A reload opens the database file again and, only if
    that succeeds, swaps the new reader into the shared slot under its
    write lock. A failed reload or a terminate event leaves the loop, and
    the server is shut down.

    The loop is a fold over the events it receives; the file open is
    abstracted as its outcome, carried by the reload event. The reader is
    a type parameter: the loop never looks inside it. */
module Server {
  import opened Wrappers
  import G = Geoip2

  /** The outcome of opening the database file. */
  datatype OpenOutcome<R> = Opened(reader: R) | OpenFailed(error: G.MaxMindError)

  /** One event the loop receives: a reload signal (with the outcome of
      the open it triggers) or a terminate signal. */
  datatype Event<R> = Reload(outcome: OpenOutcome<R>) | Terminate

  /** Why the loop ended. */
  datatype Exit = ReloadFailed(error: G.MaxMindError) | Terminated

  /** The effects the loop performs, in order. */
  datatype Action<R> = OpenFile(outcome: OpenOutcome<R>) | LockWrite | Store(reader: R) | Unlock | ShutdownServer

  /** Whether an event swaps a new reader in. */
  predicate Swaps<R>(e: Event<R>)
  {
    e.Reload? && e.outcome.Opened?
  }

  /** What handling one event does to the loop. */
  datatype StepResult<R> = Continue(held: R) | Break(held: R, exit: Exit)

  /** Handling one event while the loop holds `held`. */
  function Step<R>(held: R, e: Event<R>): (r: StepResult<R>)
    ensures r.Continue? <==> Swaps(e)
    ensures r.Continue? ==> r.held == e.outcome.reader
    ensures r.Break? ==> r.held == held
    ensures r.Break? && r.exit.Terminated? <==> e.Terminate?
    ensures r.Break? && r.exit.ReloadFailed? ==> e == Reload(OpenFailed(r.exit.error))
  {
    match e
    case Reload(Opened(reader)) => Continue(reader)
    case Reload(OpenFailed(err)) => Break(held, ReloadFailed(err))
    case Terminate => Break(held, Terminated)
  }

  /** The effects of handling one event: the open comes first, and the
      write lock is taken only once it has succeeded. */
  function StepActions<R>(e: Event<R>): (r: seq<Action<R>>)
    ensures e.Reload? ==> |r| >= 1 && r[0] == OpenFile(e.outcome)
    ensures forall i :: 0 <= i < |r| && r[i].LockWrite? ==> i == 1 && Swaps(e)
    ensures forall i :: 0 <= i < |r| && r[i].Store? ==> Swaps(e) && r[i].reader == e.outcome.reader
    ensures Swaps(e) ==> r == [OpenFile(e.outcome), LockWrite, Store(e.outcome.reader), Unlock]
    ensures e.Reload? && e.outcome.OpenFailed? ==> r == [OpenFile(e.outcome)]
    ensures e.Terminate? ==> r == []
  {
    match e
    case Reload(Opened(reader)) => [OpenFile(e.outcome), LockWrite, Store(reader), Unlock]
    case Reload(OpenFailed(_)) => [OpenFile(e.outcome)]
    case Terminate => []
  }

  /** The state of the loop after a run: the reader it holds, how many
      events it consumed, why it stopped (if it did) and the effects it
      performed, ending with the shutdown when it stopped. */
  datatype Loop<R> = Loop(held: R, consumed: nat, exit: Option<Exit>, trace: seq<Action<R>>)

  /** The number of successful reloads a run performed. */
  function Swapped<R>(r: Loop<R>): nat
  {
    if r.exit.Some? && r.consumed > 0 then r.consumed - 1 else r.consumed
  }

  /** The loop run over `events`, starting with `held`. */
  function Run<R>(held: R, events: seq<Event<R>>): (r: Loop<R>)
    ensures r.consumed <= |events|
    ensures r.exit.None? ==> r.consumed == |events|
    decreases |events|
  {
    if |events| == 0 then Loop(held, 0, None, [])
    else
      var acts := StepActions(events[0]);
      match Step(held, events[0])
      case Break(h, exit) => Loop(h, 1, Some(exit), acts + [ShutdownServer])
      case Continue(h) =>
        var rest := Run(h, events[1..]);
        Loop(rest.held, rest.consumed + 1, rest.exit, acts + rest.trace)
  }

  /** The loop handles successful reloads until the first event that
      breaks out, which it records as the exit; the reader it holds is the
      one the last of those reloads opened, or the initial one. */
  lemma {:induction false} RunStopsAtFirstBreak<R>(held: R, events: seq<Event<R>>)
    ensures var r := Run(held, events);
      && (r.exit.Some? ==> r.consumed >= 1 && !Swaps(events[r.consumed - 1]))
      && (r.exit.Some? && r.exit.value.Terminated? ==> events[r.consumed - 1].Terminate?)
      && (r.exit.Some? && r.exit.value.ReloadFailed? ==>
            events[r.consumed - 1] == Reload(OpenFailed(r.exit.value.error)))
      && (forall i :: 0 <= i < Swapped(r) ==> Swaps(events[i]))
      && (r.exit.None? ==> forall i :: 0 <= i < |events| ==> Swaps(events[i]))
      && (Swapped(r) == 0 ==> r.held == held)
      && (Swapped(r) > 0 ==> Swaps(events[Swapped(r) - 1]) && r.held == events[Swapped(r) - 1].outcome.reader)
    decreases |events|
  {
    if |events| > 0 && Swaps(events[0]) {
      var x := events[0].outcome.reader;
      RunStopsAtFirstBreak(x, events[1..]);
      var rest := Run(x, events[1..]);
      var r := Run(held, events);
      assert Swapped(r) == Swapped(rest) + 1;
      forall i | 0 <= i < Swapped(r)
        ensures Swaps(events[i])
      {
        if i > 0 {
          assert events[i] == events[1..][i - 1];
        }
      }
      if rest.exit.Some? {
        assert events[r.consumed - 1] == events[1..][rest.consumed - 1];
      }
      if Swapped(rest) > 0 {
        assert events[Swapped(r) - 1] == events[1..][Swapped(rest) - 1];
      }
    }
  }

  /** The held reader is always the initial one or one opened
      successfully by a reload the loop actually handled. */
  lemma {:induction false} HeldWasOpened<R>(held: R, events: seq<Event<R>>)
    ensures var r := Run(held, events);
      r.held == held || exists i :: 0 <= i < r.consumed && events[i] == Reload(Opened(r.held))
    decreases |events|
  {
    if |events| > 0 && Swaps(events[0]) {
      var x := events[0].outcome.reader;
      HeldWasOpened(x, events[1..]);
      var rest := Run(x, events[1..]);
      var h := rest.held;
      if h != x {
        var i :| 0 <= i < rest.consumed && events[1..][i] == Reload(Opened(h));
        assert events[i + 1] == Reload(Opened(h));
      } else {
        assert events[0] == Reload(Opened(h));
      }
    }
  }

  /** The reader written by the last store of an effect trace, or
      `initial` when the trace stores nothing. */
  function LastStored<R>(t: seq<Action<R>>, initial: R): R
    decreases |t|
  {
    if |t| == 0 then initial
    else if t[|t| - 1].Store? then t[|t| - 1].reader
    else LastStored(t[..|t| - 1], initial)
  }

  /** The last store of a concatenation is the last store of its second
      part, falling back on the first part's. */
  lemma {:induction false} LastStoredConcat<R>(a: seq<Action<R>>, b: seq<Action<R>>, initial: R)
    ensures LastStored(a + b, initial) == LastStored(b, LastStored(a, initial))
    decreases |b|
  {
    if |b| > 0 {
      assert (a + b)[..|a + b| - 1] == a + b[..|b| - 1];
      LastStoredConcat(a, b[..|b| - 1], initial);
    } else {
      assert a + b == a;
    }
  }

  /** The reader the loop holds is the one its last store wrote into the
      shared slot, or the initial one if it never stored: the state and
      the effects agree. */
  lemma {:induction false} HeldIsLastStored<R>(held: R, events: seq<Event<R>>)
    ensures Run(held, events).held == LastStored(Run(held, events).trace, held)
    decreases |events|
  {
    if |events| > 0 {
      var acts := StepActions(events[0]);
      if Swaps(events[0]) {
        var x := events[0].outcome.reader;
        HeldIsLastStored(x, events[1..]);
        LastStoredConcat(acts, Run(x, events[1..]).trace, held);
        assert LastStored(acts, held) == x by {
          assert acts[..3] == [OpenFile(events[0].outcome), LockWrite, Store(x)];
        }
      } else {
        var last: seq<Action<R>> := [ShutdownServer];
        LastStoredConcat(acts, last, held);
        assert LastStored(last, LastStored(acts, held)) == LastStored(acts, held) by {
          assert last[..0] == [];
        }
        assert LastStored(acts, held) == held by {
          if events[0].Reload? {
            assert acts[..0] == [];
          }
        }
      }
    }
  }

  /** In an effect trace, every store is made under the write lock, right
      after an open that produced exactly the stored reader. */
  ghost predicate StoresFollowOpens<R>(t: seq<Action<R>>)
  {
    forall i :: 0 <= i < |t| && t[i].Store? ==>
      2 <= i && t[i - 1].LockWrite? && t[i - 2] == OpenFile(Opened(t[i].reader))
  }

  /** In an effect trace, a failed open is followed by the shutdown and
      nothing else. */
  ghost predicate FailedOpenIsLast<R>(t: seq<Action<R>>)
  {
    forall i :: 0 <= i < |t| && t[i].OpenFile? && t[i].outcome.OpenFailed? ==>
      i + 2 == |t| && t[i + 1] == ShutdownServer
  }

  /** Every store into the shared slot is made under the write lock, right
      after an open that produced exactly the stored reader: build first,
      then swap. */
  lemma {:induction false} StoreFollowsOpen<R>(held: R, events: seq<Event<R>>)
    ensures StoresFollowOpens(Run(held, events).trace)
    decreases |events|
  {
    if |events| > 0 && Swaps(events[0]) {
      var x := events[0].outcome.reader;
      StoreFollowsOpen(x, events[1..]);
      var acts := StepActions(events[0]);
      var rest := Run(x, events[1..]).trace;
      var t := Run(held, events).trace;
      assert acts == [OpenFile(Opened(x)), LockWrite, Store(x), Unlock];
      assert t == acts + rest;
      assert t[0] == OpenFile(Opened(x)) && t[1] == LockWrite && t[2] == Store(x) && t[3] == Unlock;
      forall i | 0 <= i < |t| && t[i].Store?
        ensures 2 <= i && t[i - 1].LockWrite? && t[i - 2] == OpenFile(Opened(t[i].reader))
      {
        if i < 4 {
          assert t[i] == acts[i];
          assert i == 2;
        } else {
          var j := i - 4;
          assert t[i] == rest[j];
          assert t[i - 1] == rest[j - 1];
          assert t[i - 2] == rest[j - 2];
        }
      }
    }
  }

  /** A failed open is the last thing the loop does before the shutdown:
      nothing is stored or locked after it. */
  lemma {:induction false} FailedOpenEndsLoop<R>(held: R, events: seq<Event<R>>)
    ensures FailedOpenIsLast(Run(held, events).trace)
    decreases |events|
  {
    if |events| > 0 && Swaps(events[0]) {
      var x := events[0].outcome.reader;
      FailedOpenEndsLoop(x, events[1..]);
      var rest := Run(x, events[1..]).trace;
      var t := Run(held, events).trace;
      assert StepActions(events[0]) == [OpenFile(Opened(x)), LockWrite, Store(x), Unlock];
      assert t == StepActions(events[0]) + rest;
      assert t[0] == OpenFile(Opened(x)) && t[1] == LockWrite && t[2] == Store(x) && t[3] == Unlock;
      forall i | 0 <= i < |t| && t[i].OpenFile? && t[i].outcome.OpenFailed?
        ensures i + 2 == |t| && t[i + 1] == ShutdownServer
      {
        var j := i - 4;
        assert t[i] == rest[j];
        assert t[i + 1] == rest[j + 1];
      }
    }
  }

  /** The server is shut down exactly when the loop has ended, and the
      shutdown is its last effect. */
  lemma {:induction false} ShutdownIffExit<R>(held: R, events: seq<Event<R>>)
    ensures var r := Run(held, events);
      && (ShutdownServer in r.trace <==> r.exit.Some?)
      && (r.exit.Some? ==> r.trace[|r.trace| - 1] == ShutdownServer)
    decreases |events|
  {
    if |events| > 0 && Swaps(events[0]) {
      var x := events[0].outcome.reader;
      ShutdownIffExit(x, events[1..]);
      var r := Run(held, events);
      var rest := Run(x, events[1..]);
      assert r.trace == StepActions(events[0]) + rest.trace;
      assert ShutdownServer !in StepActions(events[0]);
    }
  }

  /** A reload whose open fails, arriving after any run of events that
      left the loop serving, ends the loop still holding the reader it
      held before. */
  lemma {:induction false} FailedReloadKeepsReader<R>(held: R, events: seq<Event<R>>, err: G.MaxMindError)
    requires Run(held, events).exit.None?
    ensures var before := Run(held, events);
      var after := Run(held, events + [Reload(OpenFailed(err))]);
      && after.held == before.held
      && after.exit == Some(ReloadFailed(err))
      && after.consumed == |events| + 1
    decreases |events|
  {
    var fail: Event<R> := Reload(OpenFailed(err));
    if |events| == 0 {
      assert events + [fail] == [fail];
    } else {
      assert (events + [fail])[0] == events[0];
      assert (events + [fail])[1..] == events[1..] + [fail];
      FailedReloadKeepsReader(events[0].outcome.reader, events[1..], err);
    }
  }

  /** Events after the loop has ended are never handled: running over
      more events changes nothing once the loop has stopped. */
  lemma {:induction false} ExitIsFinal<R>(held: R, events: seq<Event<R>>, more: seq<Event<R>>)
    requires Run(held, events).exit.Some?
    ensures Run(held, events + more) == Run(held, events)
    decreases |events|
  {
    assert (events + more)[0] == events[0];
    if Swaps(events[0]) {
      var x := events[0].outcome.reader;
      assert (events + more)[1..] == events[1..] + more;
      ExitIsFinal(x, events[1..], more);
    }
  }

  /** Running from the `k`-th event handles that event and then, unless
      it broke out, runs on from the next one. */
  lemma RunFrom<R>(held: R, events: seq<Event<R>>, k: nat)
    requires k < |events|
    ensures Step(held, events[k]).Continue? ==>
      var next := Run(Step(held, events[k]).held, events[k + 1..]);
      Run(held, events[k..]) == Loop(next.held, next.consumed + 1, next.exit, StepActions(events[k]) + next.trace)
    ensures Step(held, events[k]).Break? ==>
      Run(held, events[k..]) == Loop(held, 1, Some(Step(held, events[k]).exit), StepActions(events[k]) + [ShutdownServer])
  {
    assert events[k..][0] == events[k];
    assert events[k..][1..] == events[k + 1..];
  }

  /** The loop as the server runs it: handle events one at a time until
      one of them breaks out, then shut the server down. */
  method MainLoop<R>(initial: R, events: seq<Event<R>>)
    returns (held: R, consumed: nat, exit: Option<Exit>, trace: seq<Action<R>>)
    ensures Loop(held, consumed, exit, trace) == Run(initial, events)
  {
    held := initial;
    consumed := 0;
    exit := None;
    trace := [];
    ghost var whole := Run(initial, events);
    assert events[0..] == events;
    while consumed < |events|
      invariant consumed <= |events|
      invariant exit.None?
      invariant whole == Resume(consumed, trace, Run(held, events[consumed..]))
    {
      var e := events[consumed];
      var acts := StepActions(e);
      RunFrom(held, events, consumed);
      match Step(held, e)
      case Continue(h) =>
        ResumeAfter(consumed, trace, acts, Run(h, events[consumed + 1..]));
        trace := trace + acts;
        consumed := consumed + 1;
        held := h;
      case Break(_, why) =>
        ResumeAfter(consumed, trace, acts, Loop(held, 0, Some(why), [ShutdownServer]));
        trace := trace + acts;
        consumed := consumed + 1;
        exit := Some(why);
        break;
    }
    if exit.Some? {
      trace := trace + [ShutdownServer];
    }
  }

  /** Resuming after one more handled event is resuming with that event's
      effects appended. */
  lemma ResumeAfter<R>(consumed: nat, trace: seq<Action<R>>, acts: seq<Action<R>>, next: Loop<R>)
    ensures Resume(consumed, trace, Loop(next.held, next.consumed + 1, next.exit, acts + next.trace))
         == Resume(consumed + 1, trace + acts, next)
  {
    assert trace + (acts + next.trace) == (trace + acts) + next.trace;
  }

  /** A run that had already consumed `consumed` events and performed
      `trace` before continuing as `rest`. */
  function Resume<R>(consumed: nat, trace: seq<Action<R>>, rest: Loop<R>): Loop<R>
  {
    Loop(rest.held, consumed + rest.consumed, rest.exit, trace + rest.trace)
  }
}
