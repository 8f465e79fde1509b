/** The global lock and the cancellation-safe cleanup, over any interleaving of any
    number of sessions, with cancellations anywhere. */
module Cleanup {
  import opened Results

  /** Where _close_ble_client awaits: session.stop(), then client.disconnect(). */
  datatype Closing = Stopping | Disconnecting

  /** One call of _run_session.  In Cleaning the caller awaits the cleanup job through
      a shield, or, once cancelled, directly; torn means that this job itself was
      cancelled while it stopped the session, so that its last check is skipped. */
  datatype Stage =
    | Queued
    | Making
    | Running
    | Cleaning(at: Closing, shielded: bool, torn: bool)
    | Over

  /** connected: the client's link is up; failed: TiltBleCleanupError was raised;
      cancels: the cancellations since the cleanup began. */
  datatype Run = Run(stage: Stage, connected: bool, failed: bool, cancels: nat)

  datatype System = System(runs: seq<Run>, holder: Option<nat>)

  datatype Event =
    | Acquire(i: nat)                            // async with the lock
    | GiveUp(i: nat)                             // cancelled while it waits for the lock
    | NoClient(i: nat)                           // the factory raises
    | GetClient(i: nat, connected: bool)         // the factory returns a client
    | LinkUp(i: nat)                             // connect() succeeds
    | LinkDown(i: nat)                           // the link drops by itself
    | BodyEnds(i: nat)                           // the try block returns, raises or is cancelled
    | Cancel(i: nat)                             // a cancellation during the cleanup
    | Stopped(i: nat)                            // session.stop() ends
    | Disconnected(i: nat, raises: bool, still: bool) // disconnect() ends; still: is_connected after it

  /** Where a run has to be for one of its events. */
  predicate CanGo(r: Run, e: Event) {
    match e
    case Acquire(_) => r.stage.Queued?
    case GiveUp(_) => r.stage.Queued?
    case NoClient(_) => r.stage.Making?
    case GetClient(_, _) => r.stage.Making?
    case LinkUp(_) => r.stage.Running?
    case LinkDown(_) => r.connected
    case BodyEnds(_) => r.stage.Running?
    case Cancel(_) => r.stage.Cleaning?
    case Stopped(_) => r.stage.Cleaning? && r.stage.at.Stopping?
    case Disconnected(_, _, still) => r.stage.Cleaning? && r.stage.at.Disconnecting? && (still ==> r.connected)
  }

  predicate Enabled(s: System, e: Event) {
    e.i < |s.runs| && CanGo(s.runs[e.i], e) && (e.Acquire? ==> s.holder.None?)
  }

  /** A cancellation first only ends the shield.  A second one reaches the job itself: while
      stopping, the finally clause still disconnects; while disconnecting, nothing does. */
  function Cancelled(r: Run): Run
    requires r.stage.Cleaning?
  {
    var more := r.(cancels := r.cancels + 1);
    if r.stage.shielded then more.(stage := r.stage.(shielded := false))
    else if r.stage.at.Stopping? then more.(stage := r.stage.(at := Disconnecting, torn := true))
    else more.(stage := Over)
  }

  function Next(r: Run, e: Event): Run
    requires e.Cancel? || e.Stopped? || e.Disconnected? ==> r.stage.Cleaning?
  {
    match e
    case Acquire(_) => r.(stage := Making)
    case GiveUp(_) => r.(stage := Over)
    case NoClient(_) => r.(stage := Over)
    case GetClient(_, connected) => r.(stage := Running, connected := connected)
    case LinkUp(_) => r.(connected := true)
    case LinkDown(_) => r.(connected := false)
    case BodyEnds(_) => r.(stage := Cleaning(Stopping, true, false))
    case Cancel(_) => Cancelled(r)
    case Stopped(_) => r.(stage := r.stage.(at := Disconnecting))
    case Disconnected(_, raises, still) =>
      r.(stage := Over, connected := still, failed := still && (raises || !r.stage.torn))
  }

  /** The lock is held from its acquisition until the run is over. */
  predicate Holding(r: Run) {
    r.stage.Making? || r.stage.Running? || r.stage.Cleaning?
  }

  function Step(s: System, e: Event): System
    requires Enabled(s, e)
  {
    var r := Next(s.runs[e.i], e);
    System(s.runs[e.i := r],
           if Holding(r) then Some(e.i) else if s.holder == Some(e.i) then None else s.holder)
  }

  function Fresh(n: nat): System {
    System(seq(n, _ => Run(Queued, false, false, 0)), None)
  }

  predicate Possible(s: System, events: seq<Event>)
    decreases |events|
  {
    events != [] ==> Enabled(s, events[0]) && Possible(Step(s, events[0]), events[1..])
  }

  function After(s: System, events: seq<Event>): System
    requires Possible(s, events)
    decreases |events|
  {
    if events == [] then s else After(Step(s, events[0]), events[1..])
  }

  // ---- what every run keeps ----

  /** A run that does not hold the lock has a connected client only if its cleanup failed,
      and said so, or was cancelled at least twice. */
  predicate Accounted(r: Run) {
    && (r.stage.Queued? || r.stage.Making? ==> !r.connected && r.cancels == 0)
    && (r.stage.Running? ==> r.cancels == 0)
    && (r.stage.Cleaning? ==>
          && (!r.stage.shielded ==> r.cancels >= 1)
          && (r.stage.torn ==> r.cancels >= 2))
    && (r.stage.Over? && r.connected ==> r.failed || r.cancels >= 2)
  }

  ghost predicate Invariant(s: System) {
    && (forall i :: 0 <= i < |s.runs| ==> Accounted(s.runs[i]))
    && (forall i :: 0 <= i < |s.runs| ==> (Holding(s.runs[i]) <==> s.holder == Some(i)))
  }

  lemma NextAccounted(s: System, e: Event)
    requires Enabled(s, e) && Accounted(s.runs[e.i])
    ensures Accounted(Next(s.runs[e.i], e))
  {}

  lemma StepKeepsInvariant(s: System, e: Event)
    requires Invariant(s) && Enabled(s, e)
    ensures Invariant(Step(s, e))
  {
    hide Accounted;
    NextAccounted(s, e);
    var s' := Step(s, e);
    forall i | 0 <= i < |s'.runs|
      ensures Accounted(s'.runs[i])
      ensures Holding(s'.runs[i]) <==> s'.holder == Some(i)
    {
      assert i != e.i ==> s'.runs[i] == s.runs[i];
    }
  }

  lemma {:induction false} InvariantHolds(s: System, events: seq<Event>)
    requires Invariant(s) && Possible(s, events)
    ensures Invariant(After(s, events))
    decreases |events|
  {
    if events != [] {
      StepKeepsInvariant(s, events[0]);
      InvariantHolds(Step(s, events[0]), events[1..]);
    }
  }

  /** No cleanup has failed, and none was cancelled more than once. */
  ghost predicate Undisturbed(s: System) {
    forall i :: 0 <= i < |s.runs| ==> !s.runs[i].failed && s.runs[i].cancels <= 1
  }

  /** Then in every reachable state only the holder of the lock can have a connected
      client: no two are ever connected, and none is while the lock is free. */
  lemma ConnectedHoldsLock(n: nat, events: seq<Event>, i: nat)
    requires Possible(Fresh(n), events) && Undisturbed(After(Fresh(n), events))
    requires i < |After(Fresh(n), events).runs|
    ensures After(Fresh(n), events).runs[i].connected ==> After(Fresh(n), events).holder == Some(i)
  {
    InvariantHolds(Fresh(n), events);
    assert Accounted(After(Fresh(n), events).runs[i]);
  }

  /** Whatever is cancelled: two sessions never hold the lock at once. */
  lemma OneHolder(n: nat, events: seq<Event>, i: nat, j: nat)
    requires Possible(Fresh(n), events)
    requires i < |After(Fresh(n), events).runs| && j < |After(Fresh(n), events).runs|
    requires Holding(After(Fresh(n), events).runs[i]) && Holding(After(Fresh(n), events).runs[j])
    ensures i == j
  {
    InvariantHolds(Fresh(n), events);
  }

  // ---- the course of one run ----

  /** A system in which run i is r, and holds the lock if r does. */
  function With(runs: seq<Run>, i: nat, r: Run): System
    requires i < |runs|
  {
    System(runs[i := r], if Holding(r) then Some(i) else None)
  }

  /** These events are all of run i, and can happen one after the other. */
  predicate Goes(r: Run, i: nat, events: seq<Event>)
    decreases |events|
  {
    events != [] ==>
      && events[0].i == i && Holding(r) && CanGo(r, events[0])
      && Goes(Next(r, events[0]), i, events[1..])
  }

  /** What they make of it. */
  function Comes(r: Run, i: nat, events: seq<Event>): Run
    requires Goes(r, i, events)
    decreases |events|
  {
    if events == [] then r else Comes(Next(r, events[0]), i, events[1..])
  }

  lemma StepOfHolder(runs: seq<Run>, i: nat, r: Run, e: Event)
    requires i < |runs| && e.i == i && Holding(r) && CanGo(r, e)
    ensures Enabled(With(runs, i, r), e) && Step(With(runs, i, r), e) == With(runs, i, Next(r, e))
  {
    assert runs[i := r][i := Next(r, e)] == runs[i := Next(r, e)];
  }

  /** Whatever the other runs are, they stay as they are while the holder of the lock goes
      on, and the lock is free when it is done. */
  lemma {:induction false} HolderGoesOn(runs: seq<Run>, i: nat, r: Run, events: seq<Event>)
    requires i < |runs| && Goes(r, i, events)
    ensures Possible(With(runs, i, r), events)
    ensures After(With(runs, i, r), events) == With(runs, i, Comes(r, i, events))
    decreases |events|
  {
    hide Enabled, Step, Next, With;
    if events != [] {
      StepOfHolder(runs, i, r, events[0]);
      HolderGoesOn(runs, i, Next(r, events[0]), events[1..]);
    }
  }

  /** One event of a system, and then the rest. */
  lemma RunFirst(s: System, e: Event, rest: seq<Event>)
    requires Enabled(s, e) && Possible(Step(s, e), rest)
    ensures Possible(s, [e] + rest) && After(s, [e] + rest) == After(Step(s, e), rest)
  {
    hide Enabled, Step;
    assert ([e] + rest)[1..] == rest;
  }

  function Waiting(): Run {
    Run(Queued, false, false, 0)
  }

  /** Any run that waits can have the lock once it is free. */
  lemma Acquires(runs: seq<Run>, i: nat, rest: seq<Event>)
    requires i < |runs| && Goes(Run(Making, false, false, 0), i, rest)
    ensures Possible(With(runs, i, Waiting()), [Acquire(i)] + rest)
    ensures After(With(runs, i, Waiting()), [Acquire(i)] + rest) ==
            With(runs, i, Comes(Run(Making, false, false, 0), i, rest))
  {
    var s := With(runs, i, Waiting());
    assert runs[i := Waiting()][i := Run(Making, false, false, 0)] == runs[i := Run(Making, false, false, 0)];
    HolderGoesOn(runs, i, Run(Making, false, false, 0), rest);
    RunFirst(s, Acquire(i), rest);
  }

  lemma GoesOn(r: Run, i: nat, e: Event, rest: seq<Event>)
    requires e.i == i && Holding(r) && CanGo(r, e) && Goes(Next(r, e), i, rest)
    ensures Goes(r, i, [e] + rest) && Comes(r, i, [e] + rest) == Comes(Next(r, e), i, rest)
  {
    hide CanGo, Next;
    assert ([e] + rest)[1..] == rest;
  }

  lemma GoesOnce(r: Run, i: nat, e: Event)
    requires e.i == i && Holding(r) && CanGo(r, e)
    ensures Goes(r, i, [e]) && Comes(r, i, [e]) == Next(r, e)
  {
    hide CanGo, Next;
    GoesOn(r, i, e, []);
    assert [e] + [] == [e];
  }

  /** A whole run, whatever the others are: it gets the lock, a client, a link that may drop
      and come back, and leaves no link behind and the lock free.  One whose factory raises
      leaves the lock free too. */
  lemma RunsThrough(runs: seq<Run>, i: nat)
    requires i < |runs|
    ensures
      var events := [Acquire(i), GetClient(i, false), LinkUp(i), LinkDown(i), LinkUp(i), BodyEnds(i), Stopped(i),
                     Disconnected(i, false, false)];
      && Possible(With(runs, i, Waiting()), events)
      && After(With(runs, i, Waiting()), events) == System(runs[i := Run(Over, false, false, 0)], None)
    ensures
      && Possible(With(runs, i, Waiting()), [Acquire(i), NoClient(i)])
      && After(With(runs, i, Waiting()), [Acquire(i), NoClient(i)]) ==
         System(runs[i := Run(Over, false, false, 0)], None)
  {
    var r := Run(Making, false, false, 0);
    var rest := [GetClient(i, false), LinkUp(i), LinkDown(i), LinkUp(i), BodyEnds(i), Stopped(i),
                 Disconnected(i, false, false)];
    Courses(i);
    hide Goes, Comes, Possible, After, Next;
    Acquires(runs, i, rest);
    assert [Acquire(i)] + rest ==
           [Acquire(i), GetClient(i, false), LinkUp(i), LinkDown(i), LinkUp(i), BodyEnds(i), Stopped(i),
            Disconnected(i, false, false)];
    Acquires(runs, i, [NoClient(i)]);
    assert [Acquire(i)] + [NoClient(i)] == [Acquire(i), NoClient(i)];
  }

  /** One that is cancelled while it waits is over without ever having had the lock. */
  lemma GivesUp(s: System, i: nat)
    requires i < |s.runs| && s.runs[i] == Waiting() && s.holder != Some(i)
    ensures Enabled(s, GiveUp(i)) && Step(s, GiveUp(i)) == System(s.runs[i := Run(Over, false, false, 0)], s.holder)
  {}

  lemma Courses(i: nat)
    ensures
      var r, rest := Run(Making, false, false, 0),
                     [GetClient(i, false), LinkUp(i), LinkDown(i), LinkUp(i), BodyEnds(i), Stopped(i),
                      Disconnected(i, false, false)];
      Goes(r, i, rest) && Comes(r, i, rest) == Run(Over, false, false, 0)
    ensures
      var r := Run(Making, false, false, 0);
      Goes(r, i, [NoClient(i)]) && Comes(r, i, [NoClient(i)]) == Run(Over, false, false, 0)
  {
    var start, ready, up := Run(Making, false, false, 0), Run(Running, false, false, 0), Run(Running, true, false, 0);
    CleanupComesTo(i, true, false, false);
    hide Comes, Goes;
    var end := [BodyEnds(i), Stopped(i), Disconnected(i, false, false)];
    GoesOn(ready, i, LinkUp(i), end);
    GoesOn(up, i, LinkDown(i), [LinkUp(i)] + end);
    GoesOn(ready, i, LinkUp(i), [LinkDown(i)] + ([LinkUp(i)] + end));
    GoesOn(start, i, GetClient(i, false), [LinkUp(i)] + ([LinkDown(i)] + ([LinkUp(i)] + end)));
    assert [GetClient(i, false)] + ([LinkUp(i)] + ([LinkDown(i)] + ([LinkUp(i)] + end))) ==
           [GetClient(i, false), LinkUp(i), LinkDown(i), LinkUp(i), BodyEnds(i), Stopped(i),
            Disconnected(i, false, false)];
    GoesOnce(start, i, NoClient(i));
  }

  // ---- what a cleanup comes to ----

  /** Two events and two more. */
  lemma GoesTwice(r: Run, i: nat, a: Event, b: Event, rest: seq<Event>)
    requires a.i == b.i == i && Holding(r) && CanGo(r, a) && Holding(Next(r, a)) && CanGo(Next(r, a), b)
    requires Goes(Next(Next(r, a), b), i, rest)
    ensures Goes(r, i, [a, b] + rest) && Comes(r, i, [a, b] + rest) == Comes(Next(Next(r, a), b), i, rest)
  {
    hide Next, Goes, Comes;
    GoesOn(Next(r, a), i, b, rest);
    GoesOn(r, i, a, [b] + rest);
    assert [a] + ([b] + rest) == [a, b] + rest;
  }

  /** The cleanup of a run whose client is connected or not, and whose disconnect() raises or
      not and leaves it connected or not.  With at most one cancellation it fails just when
      the client is still connected.  With two while the session is being stopped, it still
      disconnects but fails only if that raises as well; with the second while it
      disconnects, it is over at once, the link as it was. */
  lemma CleanupComesTo(i: nat, connected: bool, raises: bool, still: bool)
    requires still ==> connected
    ensures
      var r, off := Run(Running, connected, false, 0), Disconnected(i, raises, still);
      && Goes(r, i, [BodyEnds(i), Stopped(i), off])
      && Comes(r, i, [BodyEnds(i), Stopped(i), off]) == Run(Over, still, still, 0)
      && Goes(r, i, [BodyEnds(i), Cancel(i), Stopped(i), off])
      && Comes(r, i, [BodyEnds(i), Cancel(i), Stopped(i), off]) == Run(Over, still, still, 1)
      && Goes(r, i, [BodyEnds(i), Stopped(i), Cancel(i), off])
      && Comes(r, i, [BodyEnds(i), Stopped(i), Cancel(i), off]) == Run(Over, still, still, 1)
      && Goes(r, i, [BodyEnds(i), Cancel(i), Cancel(i), off])
      && Comes(r, i, [BodyEnds(i), Cancel(i), Cancel(i), off]) == Run(Over, still, still && raises, 2)
      && Goes(r, i, [BodyEnds(i), Stopped(i), Cancel(i), Cancel(i)])
      && Comes(r, i, [BodyEnds(i), Stopped(i), Cancel(i), Cancel(i)]) == Run(Over, connected, false, 2)
  {
    hide Comes, Goes;
    var r, off := Run(Running, connected, false, 0), Disconnected(i, raises, still);
    var stopped := Run(Cleaning(Disconnecting, true, false), connected, false, 0);
    GoesOnce(stopped, i, off);
    GoesTwice(r, i, BodyEnds(i), Stopped(i), [off]);
    var shaken := Run(Cleaning(Stopping, false, false), connected, false, 1);
    GoesOnce(Run(Cleaning(Disconnecting, false, false), connected, false, 1), i, off);
    GoesOn(shaken, i, Stopped(i), [off]);
    GoesTwice(r, i, BodyEnds(i), Cancel(i), [Stopped(i)] + [off]);
    GoesOn(stopped, i, Cancel(i), [off]);
    GoesTwice(r, i, BodyEnds(i), Stopped(i), [Cancel(i)] + [off]);
    GoesOnce(Run(Cleaning(Disconnecting, false, true), connected, false, 2), i, off);
    GoesOn(shaken, i, Cancel(i), [off]);
    GoesTwice(r, i, BodyEnds(i), Cancel(i), [Cancel(i)] + [off]);
    GoesOnce(Run(Cleaning(Disconnecting, false, false), connected, false, 1), i, Cancel(i));
    GoesOn(stopped, i, Cancel(i), [Cancel(i)]);
    GoesTwice(r, i, BodyEnds(i), Stopped(i), [Cancel(i)] + [Cancel(i)]);
    Joins(BodyEnds(i), Stopped(i), Cancel(i), off);
  }

  lemma Joins(b: Event, s: Event, c: Event, off: Event)
    ensures [b, s] + [off] == [b, s, off] && [b, c] + ([s] + [off]) == [b, c, s, off]
    ensures [b, s] + ([c] + [off]) == [b, s, c, off] && [b, c] + ([c] + [off]) == [b, c, c, off]
    ensures [b, s] + ([c] + [c]) == [b, s, c, c]
  {}

  /** So two cancellations of one cleanup can leave the client connected with the lock free
      and no failure reported, at either of its awaits. */
  lemma CancelledTwice(runs: seq<Run>, i: nat)
    requires i < |runs|
    ensures
      var events := [Acquire(i), GetClient(i, true), BodyEnds(i), Stopped(i), Cancel(i), Cancel(i)];
      && Possible(With(runs, i, Waiting()), events)
      && After(With(runs, i, Waiting()), events) == System(runs[i := Run(Over, true, false, 2)], None)
    ensures
      var events := [Acquire(i), GetClient(i, true), BodyEnds(i), Cancel(i), Cancel(i), Disconnected(i, false, true)];
      && Possible(With(runs, i, Waiting()), events)
      && After(With(runs, i, Waiting()), events) == System(runs[i := Run(Over, true, false, 2)], None)
  {
    var r := Run(Making, false, false, 0);
    CleanupComesTo(i, true, false, true);
    hide Goes, Comes, Possible, After;
    var a := [BodyEnds(i), Stopped(i), Cancel(i), Cancel(i)];
    GoesOn(r, i, GetClient(i, true), a);
    Acquires(runs, i, [GetClient(i, true)] + a);
    assert [Acquire(i)] + ([GetClient(i, true)] + a) ==
           [Acquire(i), GetClient(i, true), BodyEnds(i), Stopped(i), Cancel(i), Cancel(i)];
    var b := [BodyEnds(i), Cancel(i), Cancel(i), Disconnected(i, false, true)];
    GoesOn(r, i, GetClient(i, true), b);
    Acquires(runs, i, [GetClient(i, true)] + b);
    assert [Acquire(i)] + ([GetClient(i, true)] + b) ==
           [Acquire(i), GetClient(i, true), BodyEnds(i), Cancel(i), Cancel(i), Disconnected(i, false, true)];
  }
}
