/**
  When a call goes on and when it returns, in terms of what libcurl has done and not of the tests that the loop makes:
  a read returns once its room is used up, a write once its bytes are taken, a configure at the end of the headers that
  are not those of a redirect.
*/
module Progress {
  import opened Protocol
  import opened ProtocolProofs
  import opened StreamTheorems
  import opened EndOfStream

  // ---------------------------------------------------------------- rounds of the loop

  /** Nobody interrupts, and nothing fails or times out. */
  predicate Calm(r: Round)
  {
    !r.interruptedBefore && !r.multiError && !r.interruptedAfter && !r.waitError && !r.timedOut
  }

  /** All that libcurl does in the first `n` rounds. */
  function Events(rounds: seq<Round>, n: nat): seq<Event>
    requires n <= |rounds|
  {
    if n == 0 then [] else Events(rounds, n - 1) + rounds[n - 1].events
  }

  lemma {:induction false} RunConcat(s: State, a: seq<Event>, b: seq<Event>)
    ensures RunEvents(s, a + b) == RunEvents(RunEvents(s, a), b)
    decreases |a|
  {
    if a == [] {
      assert a + b == b;
    } else {
      assert (a + b)[0] == a[0] && (a + b)[1..] == a[1..] + b;
      RunConcat(OnEvent(s, a[0]), a[1..], b);
    }
  }

  lemma {:induction false} EventsTail(rounds: seq<Round>, n: nat)
    requires 0 < n <= |rounds|
    ensures Events(rounds, n) == rounds[0].events + Events(rounds[1..], n - 1)
  {
    if n > 1 {
      EventsTail(rounds, n - 1);
      assert rounds[0].events + Events(rounds[1..], n - 2) + rounds[n - 1].events ==
        rounds[0].events + (Events(rounds[1..], n - 2) + rounds[n - 1].events);
    }
  }

  /** What a read waits for: the transfer runs and has not been refused for want of room. */
  predicate WaitsForInput(s: State) { !s.life.done && !s.recv.paused }

  /** What a write or a close waits for. */
  predicate WaitsForOutput(s: State) { !s.life.done && !s.send.paused && !(s.recv.paused && s.send.closed) }

  /** What a configure waits for: headers that end and are not those of a redirect to follow. */
  predicate WaitsForHeaders(s: State)
  {
    !s.life.done && !s.send.paused && !s.recv.paused && (s.heads.ended ==> s.redirect && s.heads.location)
  }

  /** The transfer is running and the caller still waits for something. */
  predicate Waits(s: State)
  {
    if s.needInput then WaitsForInput(s) else if s.needOutput then WaitsForOutput(s) else WaitsForHeaders(s)
  }

  lemma {:induction false} EventKeepsNeeds(s: State, e: Event)
    ensures var s' := OnEvent(s, e);
      s'.needInput == s.needInput && s'.needOutput == s.needOutput && s'.redirect == s.redirect &&
        s'.attached == s.attached
  {
  }

  lemma {:induction false} EventsKeepNeeds(s: State, es: seq<Event>)
    ensures var s' := RunEvents(s, es);
      s'.needInput == s.needInput && s'.needOutput == s.needOutput && s'.redirect == s.redirect &&
        s'.attached == s.attached
    decreases |es|
  {
    if es != [] {
      EventKeepsNeeds(s, es[0]);
      EventsKeepNeeds(OnEvent(s, es[0]), es[1..]);
    }
  }

  /** A round goes on exactly when it is calm and the caller still has something to wait for. */
  lemma {:induction false} RoundGoesOn(s: State, r: Round)
    requires !(s.needInput && s.needOutput)
    ensures PerformOnce(s, r).1.Running? <==> Calm(r) && Waits(RunEvents(s, r.events))
    ensures PerformOnce(s, r).1.Running? ==> PerformOnce(s, r).0 == RunEvents(s, r.events)
  {
    EventsKeepNeeds(s, r.events);
  }

  /** A calm round that does not go on ends the loop quietly, unless the transfer is over. */
  lemma {:induction false} RoundStops(s: State, r: Round)
    requires !(s.needInput && s.needOutput) && Calm(r)
    requires var s1 := RunEvents(s, r.events); !s1.life.done && !Waits(s1)
    ensures PerformOnce(s, r) == (RunEvents(s, r.events), Stopped(false))
  {
    EventsKeepNeeds(s, r.events);
  }

  /** Where libcurl is after the first `n` rounds. */
  function Reached(s: State, rounds: seq<Round>, n: nat): State
    requires n <= |rounds|
  {
    RunEvents(s, Events(rounds, n))
  }

  /** Round `i` is calm and leaves something to wait for. */
  predicate GoesOnAt(s: State, rounds: seq<Round>, i: nat)
    requires i < |rounds|
  {
    Calm(rounds[i]) && Waits(Reached(s, rounds, i + 1))
  }

  ghost predicate GoesOn(s: State, rounds: seq<Round>, n: nat)
    requires n <= |rounds|
  {
    forall i :: 0 <= i < n ==> GoesOnAt(s, rounds, i)
  }

  lemma {:induction false} ReachedTail(s: State, rounds: seq<Round>, n: nat)
    requires 0 < n <= |rounds|
    ensures Reached(s, rounds, n) == Reached(RunEvents(s, rounds[0].events), rounds[1..], n - 1)
  {
    EventsTail(rounds, n);
    RunConcat(s, rounds[0].events, Events(rounds[1..], n - 1));
  }

  lemma {:induction false} GoesOnAtTail(s: State, rounds: seq<Round>, i: nat)
    requires 0 < i < |rounds|
    ensures GoesOnAt(s, rounds, i) <==> GoesOnAt(RunEvents(s, rounds[0].events), rounds[1..], i - 1)
  {
    ReachedTail(s, rounds, i + 1);
    assert rounds[1..][i - 1] == rounds[i];
  }

  lemma {:induction false} GoesOnFirst(s: State, rounds: seq<Round>)
    requires 0 < |rounds|
    ensures GoesOnAt(s, rounds, 0) <==> Calm(rounds[0]) && Waits(RunEvents(s, rounds[0].events))
  {
    ReachedTail(s, rounds, 1);
    assert Reached(RunEvents(s, rounds[0].events), rounds[1..], 0) == RunEvents(s, rounds[0].events);
  }

  lemma {:induction false} GoesOnRest(s: State, rounds: seq<Round>, n: nat)
    requires 0 < n <= |rounds| && GoesOn(s, rounds, n)
    ensures GoesOn(RunEvents(s, rounds[0].events), rounds[1..], n - 1)
  {
    var s1, rest := RunEvents(s, rounds[0].events), rounds[1..];
    forall i | 0 <= i < n - 1 ensures GoesOnAt(s1, rest, i) { GoesOnAtTail(s, rounds, i + 1); }
  }

  lemma {:induction false} GoesOnWhole(s: State, rounds: seq<Round>, n: nat)
    requires 0 < n <= |rounds| && GoesOnAt(s, rounds, 0) && GoesOn(RunEvents(s, rounds[0].events), rounds[1..], n - 1)
    ensures GoesOn(s, rounds, n)
  {
    var s1, rest := RunEvents(s, rounds[0].events), rounds[1..];
    forall i | 0 <= i < n ensures GoesOnAt(s, rounds, i) {
      if i > 0 {
        assert GoesOnAt(s1, rest, i - 1);
        GoesOnAtTail(s, rounds, i);
      }
    }
  }

  lemma {:induction false} GoesOnTail(s: State, rounds: seq<Round>, n: nat)
    requires 0 < n <= |rounds|
    ensures var s1 := RunEvents(s, rounds[0].events);
      GoesOn(s, rounds, n) <==> Calm(rounds[0]) && Waits(s1) && GoesOn(s1, rounds[1..], n - 1)
  {
    GoesOnFirst(s, rounds);
    if GoesOn(s, rounds, n) {
      GoesOnRest(s, rounds, n);
      assert GoesOnAt(s, rounds, 0);
    } else if GoesOnAt(s, rounds, 0) && GoesOn(RunEvents(s, rounds[0].events), rounds[1..], n - 1) {
      GoesOnWhole(s, rounds, n);
    }
  }

  /** The loop is still running after its rounds exactly when every one of them went on. */
  lemma {:induction false} PerformGoesOn(s: State, rounds: seq<Round>)
    requires !(s.needInput && s.needOutput)
    ensures Perform(s, rounds).1.Running? <==> GoesOn(s, rounds, |rounds|)
    decreases |rounds|
  {
    if rounds != [] {
      RoundGoesOn(s, rounds[0]);
      GoesOnTail(s, rounds, |rounds|);
      var s1 := RunEvents(s, rounds[0].events);
      EventsKeepNeeds(s, rounds[0].events);
      if PerformOnce(s, rounds[0]).1.Running? {
        PerformGoesOn(s1, rounds[1..]);
      }
    }
  }

  /** Rounds that go on decide nothing: the loop is where libcurl has got to, and the next round decides. */
  lemma {:induction false} PerformSkips(s: State, rounds: seq<Round>, n: nat)
    requires !(s.needInput && s.needOutput) && n < |rounds| && GoesOn(s, rounds, n)
    requires !PerformOnce(Reached(s, rounds, n), rounds[n]).1.Running?
    ensures Perform(s, rounds) == PerformOnce(Reached(s, rounds, n), rounds[n])
    decreases n
  {
    if n == 0 {
      assert Reached(s, rounds, 0) == s;
    } else {
      GoesOnTail(s, rounds, n);
      RoundGoesOn(s, rounds[0]);
      ReachedTail(s, rounds, n);
      EventsKeepNeeds(s, rounds[0].events);
      assert rounds[1..][n - 1] == rounds[n];
      PerformSkips(RunEvents(s, rounds[0].events), rounds[1..], n - 1);
    }
  }

  lemma {:induction false} ReachedNext(s: State, rounds: seq<Round>, n: nat)
    requires n < |rounds|
    ensures Reached(s, rounds, n + 1) == RunEvents(Reached(s, rounds, n), rounds[n].events)
  {
    RunConcat(s, Events(rounds, n), rounds[n].events);
  }

  /** The first calm round after which there is nothing to wait for, while the transfer runs, ends the loop there. */
  lemma {:induction false} PerformStops(s: State, rounds: seq<Round>, n: nat)
    requires !(s.needInput && s.needOutput) && n < |rounds| && GoesOn(s, rounds, n) && Calm(rounds[n])
    requires var s1 := Reached(s, rounds, n + 1); !s1.life.done && !Waits(s1)
    ensures Perform(s, rounds) == (Reached(s, rounds, n + 1), Stopped(false))
  {
    ReachedNext(s, rounds, n);
    EventsKeepNeeds(s, Events(rounds, n));
    RoundStops(Reached(s, rounds, n), rounds[n]);
    PerformSkips(s, rounds, n);
  }

  /**
    The other ways in which round `n` ends the loop: an interruption before or after libcurl ran, an error of libcurl or
    of the wait, a timeout, or the end of the transfer, which is reported once and throws when the transfer failed.
  */
  lemma {:induction false} RoundEnds(s: State, r: Round)
    requires !(s.needInput && s.needOutput)
    ensures r.interruptedBefore ==> PerformOnce(s, r) == (s, Stopped(true))
    ensures var s1, out := RunEvents(s, r.events), PerformOnce(s, r);
      !r.interruptedBefore ==>
        && (r.multiError ==> out == (s1, Ended(true)))
        && (!r.multiError && s1.life.done && !s1.life.reported ==>
              out == (s1.(life := s1.life.(reported := true)), Ended(s1.life.failed)))
        && (!r.multiError && Waits(s1) && r.interruptedAfter ==> out == (s1, Stopped(true)))
        && (!r.multiError && Waits(s1) && !r.interruptedAfter && (r.waitError || r.timedOut) ==>
              out == (s1, Ended(true)))
  {
    EventsKeepNeeds(s, r.events);
  }

  // ---------------------------------------------------------------- calls in flight

  /** Each of the first `n` rounds was calm and left the caller waiting. */
  ghost predicate Awaited(s: State, rounds: seq<Round>, n: nat, waits: State -> bool)
    requires n <= |rounds|
  {
    forall i :: 0 <= i < n ==> AwaitedAt(s, rounds, waits, i)
  }

  predicate AwaitedAt(s: State, rounds: seq<Round>, waits: State -> bool, i: nat)
    requires i < |rounds|
  {
    Calm(rounds[i]) && waits(Reached(s, rounds, i + 1))
  }

  /** What the loop waits for in a read, a write or a close, and a configure. */
  function Wanted(s: State): State -> bool
  {
    if s.needInput then WaitsForInput else if s.needOutput then WaitsForOutput else WaitsForHeaders
  }

  lemma {:induction false} WaitsAt(s: State, rounds: seq<Round>, i: nat)
    requires i < |rounds|
    ensures GoesOnAt(s, rounds, i) <==> AwaitedAt(s, rounds, Wanted(s), i)
  {
    EventsKeepNeeds(s, Events(rounds, i + 1));
  }

  lemma {:induction false} GoesOnIsAwaited(s: State, rounds: seq<Round>, n: nat)
    requires n <= |rounds|
    ensures GoesOn(s, rounds, n) <==> Awaited(s, rounds, n, Wanted(s))
  {
    forall i | 0 <= i < n ensures GoesOnAt(s, rounds, i) <==> AwaitedAt(s, rounds, Wanted(s), i) {
      WaitsAt(s, rounds, i);
    }
  }

  /** The loop is in flight exactly as long as every round leaves the caller waiting. */
  lemma {:induction false} LoopInFlightExactly(s: State, rounds: seq<Round>)
    requires !(s.needInput && s.needOutput)
    ensures Perform(s, rounds).1.Running? <==> Awaited(s, rounds, |rounds|, Wanted(s))
  {
    PerformGoesOn(s, rounds);
    GoesOnIsAwaited(s, rounds, |rounds|);
  }

  /**
    A read is in flight exactly when resuming worked, nobody interrupted it, and every round so far was calm and left
    the transfer running and receiving not paused.
  */
  lemma {:induction false} ReadInFlightExactly(s: State, t: Target, count: nat, signedChar: bool, sc: Script)
    requires Quiet(s) && !s.busy
    ensures var (s1, failed) := ReadEntry(s, count, sc);
      Read(s, t, count, signedChar, sc).1 == InFlight <==>
        && !failed && !sc.interruptedFirst
        && Awaited(s1, sc.rounds, |sc.rounds|, WaitsForInput)
  {
    ReadEntryKeeps(s, count, sc);
    LoopInFlightExactly(ReadEntry(s, count, sc).0, sc.rounds);
  }

  /**
    A write is in flight exactly when the announced length was not used up, resuming worked and left something to hand
    over, nobody interrupted it, and every round so far was calm and left the transfer running, sending not paused and
    not, on a closed output, receiving paused.
  */
  lemma {:induction false} WriteInFlightExactly(s: State, data: seq<Byte>, sc: Script)
    requires Quiet(s) && !s.busy
    ensures var (s1, failed) := WriteEntry(s, data, sc);
      Write(s, data, sc).1 == InFlight <==>
        && !GoalReached(s.send) && !failed && !sc.interruptedFirst && s1.send.pending != []
        && Awaited(s1, sc.rounds, |sc.rounds|, WaitsForOutput)
  {
    WriteEntryKeeps(s, data, sc);
    LoopInFlightExactly(WriteEntry(s, data, sc).0, sc.rounds);
  }

  /** A close likewise, and it needs no loop when libcurl came for the end of the body while resuming. */
  lemma {:induction false} CloseInFlightExactly(s: State, sc: Script)
    requires Quiet(s) && !s.busy
    ensures var (s1, failed) := CloseEntry(s, sc);
      CloseOutput(s, sc).1 == InFlight <==>
        && !failed && !s1.send.paused
        && Awaited(s1, sc.rounds, |sc.rounds|, WaitsForOutput)
  {
    CloseEntryKeeps(s, sc);
    LoopInFlightExactly(CloseEntry(s, sc).0, sc.rounds);
  }

  /** A configure is in flight exactly when nothing ended it so far and every round left it waiting for headers. */
  lemma {:induction false} ConfigureInFlightExactly(s: State, o: Options, sc: Script)
    requires Quiet(s) && !s.busy
    ensures var s1 := RunEvents(ConfigureEntry(s, o), sc.resume);
      Configure(s, o, sc).1 == InFlight <==>
        && !sc.interruptedFirst && !sc.resumeFails && (s1.life.done ==> s1.life.reported)
        && Awaited(s1, sc.rounds, |sc.rounds|, WaitsForHeaders)
  {
    EventsKeepNeeds(ConfigureEntry(s, o), sc.resume);
    LoopInFlightExactly(RunEvents(ConfigureEntry(s, o), sc.resume), sc.rounds);
  }

  // ---------------------------------------------------------------- calls that return

  /**
    A read whose room is used up returns: the first calm round that leaves no room and receiving paused ends it with
    the bytes it stored.
  */
  lemma {:induction false} FullReadReturns(s: State, t: Target, count: nat, signedChar: bool, sc: Script, n: nat)
    requires Quiet(s) && !s.busy && !ReadEntry(s, count, sc).1 && !sc.interruptedFirst && n < |sc.rounds|
    requires var s1 := ReadEntry(s, count, sc).0;
      && Awaited(s1, sc.rounds, n, WaitsForInput) && Calm(sc.rounds[n])
      && var s2 := Reached(s1, sc.rounds, n + 1); !s2.life.done && s2.recv.paused
    ensures var s2 := Reached(ReadEntry(s, count, sc).0, sc.rounds, n + 1);
      && s2.recv.room == 0 && |Stored(s, s2)| == count
      && Read(s, t, count, signedChar, sc) ==
         (Leave(s2), Returned(ReadValue(t, count, Stored(s, s2), signedChar), sc.interruptedLast, false))
  {
    ReadEntryKeeps(s, count, sc);
    var s1 := ReadEntry(s, count, sc).0;
    LoopStops(s1, sc.rounds, n);
    FullReadFrom(s, s1, t, count, signedChar, sc, Reached(s1, sc.rounds, n + 1));
  }

  lemma {:induction false} FullReadFrom(s: State, s1: State, t: Target, count: nat, signedChar: bool, sc: Script,
                                        s2: State)
    requires Reading(s, count, s1) && !sc.interruptedFirst && Perform(s1, sc.rounds) == (s2, Stopped(false))
    requires s2.recv.paused
    ensures s2.recv.room == 0 && |Stored(s, s2)| == count
    ensures ReadFrom(s, s1, false, t, count, signedChar, sc) ==
      (Leave(s2), Returned(ReadValue(t, count, Stored(s, s2), signedChar), sc.interruptedLast, false))
  {
    ReadingPerform(s, count, s1, sc.rounds);
  }

  lemma {:induction false} LoopStops(s: State, rounds: seq<Round>, n: nat)
    requires !(s.needInput && s.needOutput) && n < |rounds| && Awaited(s, rounds, n, Wanted(s)) && Calm(rounds[n])
    requires var s1 := Reached(s, rounds, n + 1); !s1.life.done && !Wanted(s)(s1)
    ensures Perform(s, rounds) == (Reached(s, rounds, n + 1), Stopped(false))
  {
    GoesOnIsAwaited(s, rounds, n);
    WaitsAt(s, rounds, n);
    PerformStops(s, rounds, n);
  }

  /** A write whose bytes are taken returns: the first calm round that leaves sending paused ends it. */
  lemma {:induction false} TakenWriteReturns(s: State, data: seq<Byte>, sc: Script, n: nat)
    requires Quiet(s) && !s.busy && !GoalReached(s.send) && n < |sc.rounds|
    requires var (s1, failed) := WriteEntry(s, data, sc);
      && !failed && !sc.interruptedFirst && s1.send.pending != []
      && Awaited(s1, sc.rounds, n, WaitsForOutput) && Calm(sc.rounds[n])
      && var s2 := Reached(s1, sc.rounds, n + 1); !s2.life.done && s2.send.paused
    ensures var s2 := Reached(WriteEntry(s, data, sc).0, sc.rounds, n + 1);
      Write(s, data, sc) == (Leave(s2), Returned(|data| - |s2.send.pending|, sc.interruptedLast, false))
  {
    WriteEntryKeeps(s, data, sc);
    LoopStops(WriteEntry(s, data, sc).0, sc.rounds, n);
  }

  /** A close returns once libcurl came for the end of the body. */
  lemma {:induction false} EndedCloseReturns(s: State, sc: Script, n: nat)
    requires Quiet(s) && !s.busy && n < |sc.rounds|
    requires var (s1, failed) := CloseEntry(s, sc);
      && !failed && !s1.send.paused && Awaited(s1, sc.rounds, n, WaitsForOutput) && Calm(sc.rounds[n])
      && var s2 := Reached(s1, sc.rounds, n + 1); !s2.life.done && (s2.send.paused || s2.recv.paused)
    ensures CloseOutput(s, sc) ==
      (Leave(Reached(CloseEntry(s, sc).0, sc.rounds, n + 1)), Returned(0, false, false))
  {
    CloseEntryKeeps(s, sc);
    EndedCloseFrom(CloseEntry(s, sc).0, sc, n);
  }

  lemma {:induction false} EndedCloseFrom(s1: State, sc: Script, n: nat)
    requires Inv(s1) && s1.needOutput && s1.send.closed && !s1.send.paused && n < |sc.rounds|
    requires Awaited(s1, sc.rounds, n, WaitsForOutput) && Calm(sc.rounds[n])
    requires var s2 := Reached(s1, sc.rounds, n + 1); !s2.life.done && (s2.send.paused || s2.recv.paused)
    ensures CloseFrom(s1, false, sc) == (Leave(Reached(s1, sc.rounds, n + 1)), Returned(0, false, false))
  {
    assert Reached(s1, sc.rounds, n + 1).send.closed by { EventsKeep(s1, Events(sc.rounds, n + 1)); }
    LoopStops(s1, sc.rounds, n);
  }
}
