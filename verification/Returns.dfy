/**
  Calls return in time.  Every offer and every request of libcurl moves bytes or pauses a direction, so a call in which
  libcurl keeps working is over after no more rounds than there are bytes.
*/
module Returns {
  import opened Protocol
  import opened ProtocolProofs
  import opened StreamTheorems
  import opened EndOfStream
  import opened Progress

  // ---------------------------------------------------------------- what one callback achieves

  /** How many bytes of an offer of `n` are new to the caller and have room. */
  function Fitting(r: Recv, n: nat): nat { Min(r.room, if n <= r.overflow then 0 else n - r.overflow) }

  /**
    An offer stores the next bytes of the body, as many as are new and have room; it is accepted exactly when it leaves
    none of them over and there was room at all, and else it is held and receiving is paused.
  */
  lemma {:induction false} OfferStores(s: State, n: nat)
    requires Inv(s) && Legal(s.life, s.down, s.up, Offer(n)) && s.down.sink == Deliver
    ensures var s', pos, fits := OnEvent(s, Offer(n)), |s.recv.delivered|, 0 < s.recv.room && n <= s.recv.overflow +
        s.recv.room;
      && pos + Fitting(s.recv, n) <= |s.down.body|
      && s'.recv.delivered == s.down.body[..pos + Fitting(s.recv, n)]
      && s'.recv.room == s.recv.room - Fitting(s.recv, n)
      && s'.down.consumed == s.down.consumed + (if fits then n else 0)
      && s'.down.held == !fits && s'.recv.paused == (s.recv.paused || !fits)
      && s' == s.(recv := s'.recv, down := s'.down)
  {
    OfferEventKeeps(s, n);
  }

  /** How many bytes libcurl takes when it asks for at most `capacity`. */
  function Taking(d: Send, u: Up, capacity: nat): (n: nat)
    ensures n <= |d.pending|
  {
    if u.eof || d.closed then 0 else Min(|d.pending|, capacity)
  }

  /**
    A request takes the first pending bytes, as many as it asks for; it pauses sending exactly at the end of the body,
    when nothing was pending, or when the announced length is reached, and is held only for want of data.
  */
  lemma {:induction false} AskTakes(s: State, capacity: nat)
    requires Inv(s) && Legal(s.life, s.down, s.up, Ask(capacity))
    ensures var s', n, end := OnEvent(s, Ask(capacity)), Taking(s.send, s.up, capacity), s.up.eof || s.send.closed;
      && s'.send.taken == s.send.taken + s.send.pending[..n] && s'.send.pending == s.send.pending[n..]
      && s'.send.paused == (s.send.paused || end || s.send.pending == [] ||
           (s.send.goal != 0 && |s.send.taken| + n >= s.send.goal))
      && s'.up.held == (!end && s.send.pending == [])
      && s' == s.(send := s'.send, up := s'.up)
  {
    AskEventKeeps(s, capacity);
  }

  // ---------------------------------------------------------------- calls return in time

  /** libcurl offers some bytes or ends the transfer. */
  predicate Feeds(s: State, e: Event)
  {
    Legal(s.life, s.down, s.up, e) && ((e.Offer? && e.n > 0) || e.Finish?)
  }

  /** libcurl asks for bytes or ends the transfer. */
  predicate Drains(s: State, e: Event)
  {
    Legal(s.life, s.down, s.up, e) && (e.Ask? || e.Finish?)
  }

  /** Some event of the sequence, when its turn comes, is one of these. */
  predicate Works(s: State, es: seq<Event>, moves: (State, Event) -> bool)
    decreases |es|
  {
    es != [] && (moves(s, es[0]) || Works(OnEvent(s, es[0]), es[1..], moves))
  }

  /** libcurl gets some work done in every round that does not begin with the direction over. */
  ghost predicate Busily(s: State, rounds: seq<Round>, moves: (State, Event) -> bool, over: State -> bool)
  {
    forall i :: 0 <= i < |rounds| ==> WorksAt(s, rounds, moves, over, i)
  }

  predicate WorksAt(s: State, rounds: seq<Round>, moves: (State, Event) -> bool, over: State -> bool, i: nat)
    requires i < |rounds|
  {
    over(Reached(s, rounds, i)) || Works(Reached(s, rounds, i), rounds[i].events, moves)
  }

  predicate InputOver(s: State) { s.life.done || s.recv.paused }
  predicate OutputOver(s: State) { s.life.done || s.send.paused }

  /** Bytes of the body that libcurl still has, and of the write that it has not taken. */
  function Unsent(s: State): int { |s.down.body| - s.down.consumed }
  function Untaken(s: State): int { |s.send.pending| }

  /** What is over stays over, and the amount `left` only falls. */
  predicate Falls(s: State, s': State, left: State -> int, over: State -> bool)
  {
    (over(s) ==> over(s')) && left(s') <= left(s)
  }

  lemma {:induction false} OfferFalls(s: State, n: nat)
    requires Inv(s)
    ensures Falls(s, OnEvent(s, Offer(n)), Unsent, InputOver) && Falls(s, OnEvent(s, Offer(n)), Untaken, OutputOver)
  {
  }

  lemma {:induction false} AskFalls(s: State, n: nat)
    requires Inv(s)
    ensures Falls(s, OnEvent(s, Ask(n)), Unsent, InputOver) && Falls(s, OnEvent(s, Ask(n)), Untaken, OutputOver)
  {
  }

  lemma {:induction false} EventFalls(s: State, e: Event)
    requires Inv(s)
    ensures Falls(s, OnEvent(s, e), Unsent, InputOver) && Falls(s, OnEvent(s, e), Untaken, OutputOver)
  {
    match e
    case Offer(n) => OfferFalls(s, n);
    case Ask(n) => AskFalls(s, n);
    case _ =>
  }

  lemma {:induction false} EventsFall(s: State, es: seq<Event>)
    requires Inv(s)
    ensures Falls(s, RunEvents(s, es), Unsent, InputOver) && Falls(s, RunEvents(s, es), Untaken, OutputOver)
    decreases |es|
  {
    if es != [] {
      EventFalls(s, es[0]);
      EventKeeps(s, es[0]);
      EventsFall(OnEvent(s, es[0]), es[1..]);
    }
  }

  lemma {:induction false} FeedMoves(s: State, e: Event)
    requires Inv(s) && Feeds(s, e)
    ensures var s' := OnEvent(s, e); InputOver(s') || Unsent(s') < Unsent(s)
  {
  }

  lemma {:induction false} DrainMoves(s: State, e: Event)
    requires Inv(s) && Drains(s, e)
    ensures var s' := OnEvent(s, e); OutputOver(s') || Untaken(s') < Untaken(s)
  {
  }

  /** Work gets something done: a byte accepted or taken, a direction paused, or the transfer over. */
  lemma {:induction false} FeedingWorks(s: State, es: seq<Event>)
    requires Inv(s) && Works(s, es, Feeds)
    ensures var s' := RunEvents(s, es); InputOver(s') || Unsent(s') < Unsent(s)
    decreases |es|
  {
    var s1 := OnEvent(s, es[0]);
    EventKeeps(s, es[0]);
    EventFalls(s, es[0]);
    EventsFall(s1, es[1..]);
    if Feeds(s, es[0]) {
      FeedMoves(s, es[0]);
    } else {
      FeedingWorks(s1, es[1..]);
    }
  }

  lemma {:induction false} DrainingWorks(s: State, es: seq<Event>)
    requires Inv(s) && Works(s, es, Drains)
    ensures var s' := RunEvents(s, es); OutputOver(s') || Untaken(s') < Untaken(s)
    decreases |es|
  {
    var s1 := OnEvent(s, es[0]);
    EventKeeps(s, es[0]);
    EventFalls(s, es[0]);
    EventsFall(s1, es[1..]);
    if Drains(s, es[0]) {
      DrainMoves(s, es[0]);
    } else {
      DrainingWorks(s1, es[1..]);
    }
  }

  lemma {:induction false} FeedingRound(s: State, es: seq<Event>)
    requires Inv(s) && (InputOver(s) || Works(s, es, Feeds))
    ensures var s' := RunEvents(s, es); InputOver(s') || Unsent(s') < Unsent(s)
  {
    EventsFall(s, es);
    if Works(s, es, Feeds) { FeedingWorks(s, es); }
  }

  lemma {:induction false} DrainingRound(s: State, es: seq<Event>)
    requires Inv(s) && (OutputOver(s) || Works(s, es, Drains))
    ensures var s' := RunEvents(s, es); OutputOver(s') || Untaken(s') < Untaken(s)
  {
    EventsFall(s, es);
    if Works(s, es, Drains) { DrainingWorks(s, es); }
  }

  lemma {:induction false} RoundsFeed(s: State, rounds: seq<Round>, n: nat)
    requires Inv(s) && n <= |rounds| && Busily(s, rounds, Feeds, InputOver) && Awaited(s, rounds, n, WaitsForInput)
    ensures Inv(Reached(s, rounds, n)) && Unsent(Reached(s, rounds, n)) <= Unsent(s) - n
  {
    EventsKeep(s, Events(rounds, n));
    if n > 0 {
      RoundsFeed(s, rounds, n - 1);
      ReachedNext(s, rounds, n - 1);
      assert WorksAt(s, rounds, Feeds, InputOver, n - 1) && AwaitedAt(s, rounds, WaitsForInput, n - 1);
      FeedingRound(Reached(s, rounds, n - 1), rounds[n - 1].events);
    }
  }

  lemma {:induction false} RoundsDrain(s: State, rounds: seq<Round>, n: nat)
    requires Inv(s) && n <= |rounds| && Busily(s, rounds, Drains, OutputOver) && Awaited(s, rounds, n, WaitsForOutput)
    ensures Inv(Reached(s, rounds, n)) && Untaken(Reached(s, rounds, n)) <= Untaken(s) - n
  {
    EventsKeep(s, Events(rounds, n));
    if n > 0 {
      RoundsDrain(s, rounds, n - 1);
      ReachedNext(s, rounds, n - 1);
      assert WorksAt(s, rounds, Drains, OutputOver, n - 1) && AwaitedAt(s, rounds, WaitsForOutput, n - 1);
      DrainingRound(Reached(s, rounds, n - 1), rounds[n - 1].events);
    }
  }

  /**
    A read returns in time: once there were more rounds than bytes left of the body, and libcurl offered something or
    ended the transfer in each that did not begin with receiving paused or the transfer over, the call is over.
  */
  lemma {:induction false} ReadReturnsInTime(s: State, t: Target, count: nat, signedChar: bool, sc: Script)
    requires Quiet(s) && !s.busy
    requires Busily(ReadEntry(s, count, sc).0, sc.rounds, Feeds, InputOver) && |sc.rounds| > Unsent(s)
    ensures Read(s, t, count, signedChar, sc).1.Returned?
  {
    ReadInFlightExactly(s, t, count, signedChar, sc);
    if Read(s, t, count, signedChar, sc).1 == InFlight {
      ReadEntryFalls(s, count, sc);
      RoundsFeed(ReadEntry(s, count, sc).0, sc.rounds, |sc.rounds|);
    }
  }

  lemma {:induction false} ReadEntryFalls(s: State, count: nat, sc: Script)
    requires Quiet(s) && !s.busy
    ensures var s1 := ReadEntry(s, count, sc).0; Inv(s1) && Unsent(s1) <= Unsent(s)
  {
    ReadEntryKeeps(s, count, sc);
    if s.recv.paused {
      EventsFall(Resumed(ReadStart(s, count)), sc.resume);
    }
  }

  /** A write returns in time: after more working rounds than it has bytes. */
  lemma {:induction false} WriteReturnsInTime(s: State, data: seq<Byte>, sc: Script)
    requires Quiet(s) && !s.busy
    requires Busily(WriteEntry(s, data, sc).0, sc.rounds, Drains, OutputOver) && |sc.rounds| > |data|
    ensures Write(s, data, sc).1.Returned?
  {
    WriteInFlightExactly(s, data, sc);
    if Write(s, data, sc).1 == InFlight {
      WriteEntryKeeps(s, data, sc);
      RoundsDrain(WriteEntry(s, data, sc).0, sc.rounds, |sc.rounds|);
    }
  }

  /** A close returns after a single working round. */
  lemma {:induction false} CloseReturnsInTime(s: State, sc: Script)
    requires Quiet(s) && !s.busy
    requires Busily(CloseEntry(s, sc).0, sc.rounds, Drains, OutputOver) && |sc.rounds| > 0
    ensures CloseOutput(s, sc).1.Returned?
  {
    CloseInFlightExactly(s, sc);
    if CloseOutput(s, sc).1 == InFlight {
      CloseEntryKeeps(s, sc);
      RoundsDrain(CloseEntry(s, sc).0, sc.rounds, |sc.rounds|);
    }
  }

  // ---------------------------------------------------------------- one round

  /**
    An offer that has more than the read asks for makes it return with all of it at once, whatever was held back
    before.
  */
  lemma {:induction false} ReadReturns(s: State, t: Target, count: nat, signedChar: bool, body: seq<Byte>, pos: nat,
                                       n: nat)
    requires Healthy(s, body, pos) && !s.busy && !s.life.done && count > 0
    requires s.recv.overflow + count < n && s.down.consumed + n <= |body|
    ensures var (s', r) := Read(s, t, count, signedChar, Once([Offer(n)]));
      && pos + count <= |body| && Stored(s, s') == body[pos..pos + count] && At(s', pos + count)
      && r == Returned(ReadValue(t, count, body[pos..pos + count], signedChar), false, false)
      && (count > 1 ==> r == Returned(count, false, false))
  {
    var sc := Once([Offer(n)]);
    var s1 := ReadEntry(s, count, sc).0;
    ReadEntryKeeps(s, count, sc);
    assert s1.recv == s.recv.(paused := false, room := count) && !s1.down.held && s1.down.consumed == s.down.consumed &&
      s1.life == s.life;
    OneEvent(s1, Offer(n));
    OfferStores(s1, n);
    ReachedNext(s1, sc.rounds, 0);
    FullReadReturns(s, t, count, signedChar, sc, 0);
    assert body[..pos + count][pos..] == body[pos..pos + count];
  }

  /**
    A write within the announced length returns with all of its bytes once libcurl has asked for that many, and once
    more.
  */
  lemma {:induction false} WriteReturns(s: State, data: seq<Byte>, capacity: nat, more: nat)
    requires Uploading(s) && !GoalReached(s.send) && HasRoom(s.send, |data|) && |data| <= capacity && 0 < capacity
    requires 0 < more
    ensures var (s', r) := Write(s, data, Once([Ask(capacity), Ask(more)]));
      s'.send.taken == s.send.taken + data && r == Returned(|data|, false, false)
  {
    var sc := Once([Ask(capacity), Ask(more)]);
    var s1 := WriteEntry(s, data, sc).0;
    WriteEntryKeeps(s, data, sc);
    assert s1.send == s.send.(paused := false, pending := data) && s1.up == s.up.(held := false) && s1.life == s.life;
    if data != [] {
      TwoEvents(s1, Ask(capacity), Ask(more));
      AskTakes(s1, capacity);
      AskEventKeeps(s1, capacity);
      var s2 := OnEvent(s1, Ask(capacity));
      AskTakes(s2, more);
      ReachedNext(s1, sc.rounds, 0);
      TakenWriteReturns(s, data, sc, 0);
    }
  }

  // ---------------------------------------------------------------- what the result says

  /** Round `n` is interrupted, before libcurl ran or while the caller still waited. */
  predicate Interrupts(s: State, rounds: seq<Round>, n: nat, waits: State -> bool)
    requires n < |rounds|
  {
    var r := rounds[n];
    r.interruptedBefore || (!r.multiError && r.interruptedAfter && waits(Reached(s, rounds, n + 1)))
  }

  /** Round `n` meets an error of libcurl, the failure of the transfer, or an error or a timeout of the wait. */
  predicate Breaks(s: State, rounds: seq<Round>, n: nat, waits: State -> bool)
    requires n < |rounds|
  {
    var r, s1 := rounds[n], Reached(s, rounds, n + 1);
    && !r.interruptedBefore
    && (|| r.multiError
        || (s1.life.done && !s1.life.reported && s1.life.failed)
        || (waits(s1) && !r.interruptedAfter && (r.waitError || r.timedOut)))
  }

  lemma {:induction false} LoopSaysSo(s: State, rounds: seq<Round>, n: nat)
    requires !(s.needInput && s.needOutput) && n < |rounds| && Awaited(s, rounds, n, Wanted(s))
    ensures Interrupts(s, rounds, n, Wanted(s)) ==> Perform(s, rounds).1 == Stopped(true)
    ensures Breaks(s, rounds, n, Wanted(s)) ==> Perform(s, rounds).1 == Ended(true)
  {
    GoesOnIsAwaited(s, rounds, n);
    ReachedNext(s, rounds, n);
    EventsKeepNeeds(s, Events(rounds, n));
    EventsKeepNeeds(s, Events(rounds, n + 1));
    RoundEnds(Reached(s, rounds, n), rounds[n]);
    if Interrupts(s, rounds, n, Wanted(s)) || Breaks(s, rounds, n, Wanted(s)) {
      PerformSkips(s, rounds, n);
    }
  }

  /** An interruption or an error inside the loop of a read is what its result says. */
  lemma {:induction false} ReadSaysSo(s: State, t: Target, count: nat, signedChar: bool, sc: Script, n: nat)
    requires Quiet(s) && !s.busy && !ReadEntry(s, count, sc).1 && !sc.interruptedFirst && n < |sc.rounds|
    requires Awaited(ReadEntry(s, count, sc).0, sc.rounds, n, WaitsForInput)
    ensures var s1, r := ReadEntry(s, count, sc).0, Read(s, t, count, signedChar, sc).1;
      && (Interrupts(s1, sc.rounds, n, WaitsForInput) ==> r.Returned? && r.interrupted && !r.threw)
      && (Breaks(s1, sc.rounds, n, WaitsForInput) ==> r.Returned? && r.threw)
  {
    ReadEntryKeeps(s, count, sc);
    LoopSaysSo(ReadEntry(s, count, sc).0, sc.rounds, n);
  }

  lemma {:induction false} WriteSaysSo(s: State, data: seq<Byte>, sc: Script, n: nat)
    requires Quiet(s) && !s.busy && !GoalReached(s.send) && !sc.interruptedFirst && n < |sc.rounds|
    requires var (s1, failed) := WriteEntry(s, data, sc);
      !failed && s1.send.pending != [] && Awaited(s1, sc.rounds, n, WaitsForOutput)
    ensures var s1, r := WriteEntry(s, data, sc).0, Write(s, data, sc).1;
      && (Interrupts(s1, sc.rounds, n, WaitsForOutput) ==> r.Returned? && r.interrupted && !r.threw)
      && (Breaks(s1, sc.rounds, n, WaitsForOutput) ==> r.Returned? && r.threw)
  {
    WriteEntryKeeps(s, data, sc);
    LoopSaysSo(WriteEntry(s, data, sc).0, sc.rounds, n);
  }

  lemma {:induction false} CloseSaysSo(s: State, sc: Script, n: nat)
    requires Quiet(s) && !s.busy && n < |sc.rounds|
    requires var (s1, failed) := CloseEntry(s, sc);
      !failed && !s1.send.paused && Awaited(s1, sc.rounds, n, WaitsForOutput)
    ensures var s1, r := CloseEntry(s, sc).0, CloseOutput(s, sc).1;
      && (Interrupts(s1, sc.rounds, n, WaitsForOutput) ==> r == Returned(0, true, false))
      && (Breaks(s1, sc.rounds, n, WaitsForOutput) ==> r == Returned(0, false, true))
  {
    CloseEntryKeeps(s, sc);
    CloseFromSaysSo(CloseEntry(s, sc).0, sc, n);
  }

  lemma {:induction false} CloseFromSaysSo(s1: State, sc: Script, n: nat)
    requires !s1.needInput && s1.needOutput && !s1.send.paused && n < |sc.rounds|
    requires Awaited(s1, sc.rounds, n, WaitsForOutput)
    ensures var r := CloseFrom(s1, false, sc).1;
      && (Interrupts(s1, sc.rounds, n, WaitsForOutput) ==> r == Returned(0, true, false))
      && (Breaks(s1, sc.rounds, n, WaitsForOutput) ==> r == Returned(0, false, true))
  {
    LoopSaysSo(s1, sc.rounds, n);
  }

  lemma {:induction false} ConfigureSaysSo(s: State, o: Options, sc: Script, n: nat)
    requires Quiet(s) && !s.busy && !sc.interruptedFirst && !sc.resumeFails && n < |sc.rounds|
    requires var s1 := RunEvents(ConfigureEntry(s, o), sc.resume);
      (s1.life.done ==> s1.life.reported) && Awaited(s1, sc.rounds, n, WaitsForHeaders)
    ensures var s1, r := RunEvents(ConfigureEntry(s, o), sc.resume), Configure(s, o, sc).1;
      && (Interrupts(s1, sc.rounds, n, WaitsForHeaders) ==> r == Returned(0, true, false))
      && (Breaks(s1, sc.rounds, n, WaitsForHeaders) ==> r == Returned(0, sc.interruptedLast, true))
  {
    EventsKeepNeeds(ConfigureEntry(s, o), sc.resume);
    LoopSaysSo(RunEvents(ConfigureEntry(s, o), sc.resume), sc.rounds, n);
  }

  /**
    The value of a read is the number of bytes that it stored, for counts other than 1, unless it throws or says that
    the body is over and has stored nothing; after an interruption it always is, which the exception passes on.
  */
  lemma {:induction false} ReadCounts(s: State, t: Target, count: nat, signedChar: bool, sc: Script)
    requires Quiet(s) && !s.busy && count != 1 && Read(s, t, count, signedChar, sc).1.Returned?
    ensures var (s', r) := Read(s, t, count, signedChar, sc);
      && (r.value == |Stored(s, s')| || (r.value == -1 && !r.interrupted && (r.threw || Stored(s, s') == [])))
      && (ReadEntry(s, count, sc).1 ==> r.threw)
      && (!ReadEntry(s, count, sc).1 && (sc.interruptedFirst || sc.interruptedLast) ==> r.interrupted)
  {
    ReadEntryKeeps(s, count, sc);
    ReadCountsFrom(s, ReadEntry(s, count, sc).0, ReadEntry(s, count, sc).1, t, count, signedChar, sc);
  }

  lemma {:induction false} ReadCountsFrom(s: State, s1: State, failed: bool, t: Target, count: nat, signedChar: bool,
                                          sc: Script)
    requires Reading(s, count, s1) && count != 1 && ReadFrom(s, s1, failed, t, count, signedChar, sc).1.Returned?
    ensures var (s', r) := ReadFrom(s, s1, failed, t, count, signedChar, sc);
      && (r.value == |Stored(s, s')| || (r.value == -1 && !r.interrupted && (r.threw || Stored(s, s') == [])))
      && (failed ==> r.threw)
      && (!failed && (sc.interruptedFirst || sc.interruptedLast) ==> r.interrupted)
  {
    ReadingPerform(s, count, s1, sc.rounds);
  }

  /** What a write says of an interruption or an error that comes before or after its loop. */
  lemma {:induction false} WriteFlags(s: State, data: seq<Byte>, sc: Script)
    requires !s.busy && Write(s, data, sc).1.Returned?
    ensures var failed, r := WriteEntry(s, data, sc).1, Write(s, data, sc).1;
      && (GoalReached(s.send) || failed ==> r.threw && !r.interrupted)
      && (!GoalReached(s.send) && !failed && (sc.interruptedFirst || sc.interruptedLast) ==> r.interrupted)
      && (!GoalReached(s.send) && !failed && sc.interruptedFirst ==> !r.threw)
  {
  }

  /** And a configure. */
  lemma {:induction false} ConfigureFlags(s: State, o: Options, sc: Script)
    requires !s.busy && Configure(s, o, sc).1.Returned?
    ensures var s1, r := RunEvents(ConfigureEntry(s, o), sc.resume), Configure(s, o, sc).1;
      && r.value == 0
      && (sc.interruptedFirst ==> r.interrupted && !r.threw)
      && (!sc.interruptedFirst && sc.resumeFails ==> r.threw)
      && (!sc.interruptedFirst && !sc.resumeFails && s1.life.done && !s1.life.reported ==> r.threw == s1.life.failed)
  {
  }

  // ---------------------------------------------------------------- a closed output

  lemma {:induction false} EventClosed(s: State, e: Event)
    requires s.send.closed
    ensures var s' := OnEvent(s, e); s'.send.closed && s'.send.taken == s.send.taken && s'.up.eof == s.up.eof
  {
  }

  lemma {:induction false} EventsClosed(s: State, es: seq<Event>)
    requires s.send.closed
    ensures var s' := RunEvents(s, es); s'.send.closed && s'.send.taken == s.send.taken && s'.up.eof == s.up.eof
    decreases |es|
  {
    if es != [] {
      EventClosed(s, es[0]);
      EventsClosed(OnEvent(s, es[0]), es[1..]);
    }
  }

  lemma {:induction false} PerformClosed(s: State, rounds: seq<Round>)
    requires s.send.closed
    ensures var s' := Perform(s, rounds).0; s'.send.closed && s'.send.taken == s.send.taken && s'.up.eof == s.up.eof
    decreases |rounds|
  {
    if rounds != [] {
      EventsClosed(s, rounds[0].events);
      if PerformOnce(s, rounds[0]).1.Running? {
        PerformClosed(PerformOnce(s, rounds[0]).0, rounds[1..]);
      }
    }
  }

  /** The end of the request body: nothing was sent and the end-of-file callback is installed. */
  predicate BodyEnded(s: State, s': State) { s'.send.closed && s'.up.eof && s'.send.taken == s.send.taken }

  lemma {:induction false} CloseEnds(s: State, sc: Script)
    requires !s.busy
    ensures BodyEnded(s, CloseOutput(s, sc).0)
  {
    var s1 := CloseStart(s);
    EventsClosed(Resumed(s1), sc.resume);
    CloseFromEnds(s, CloseEntry(s, sc).0, CloseEntry(s, sc).1, sc);
  }

  lemma {:induction false} CloseFromEnds(s: State, s1: State, failed: bool, sc: Script)
    requires BodyEnded(s, s1)
    ensures BodyEnded(s, CloseFrom(s1, failed, sc).0)
  {
    PerformClosed(s1, sc.rounds);
  }

  lemma {:induction false} ReadEnds(s: State, t: Target, count: nat, signedChar: bool, sc: Script)
    requires !s.busy && s.send.closed && s.up.eof
    ensures BodyEnded(s, Read(s, t, count, signedChar, sc).0)
  {
    var s1 := ReadStart(s, count);
    EventsClosed(Resumed(s1), sc.resume);
    PerformClosed(ReadEntry(s, count, sc).0, sc.rounds);
  }

  lemma {:induction false} WriteEnds(s: State, data: seq<Byte>, sc: Script)
    requires !s.busy && s.send.closed && s.up.eof
    ensures BodyEnded(s, Write(s, data, sc).0)
  {
    var s1 := WriteStart(s, data);
    EventsClosed(Resumed(s1), sc.resume);
    PerformClosed(WriteEntry(s, data, sc).0, sc.rounds);
  }

  /** Once closed, the request body has ended for good: no call of the transfer sends another byte. */
  lemma {:induction false} ClosedForGood(s: State, steps: seq<Step>, signedChar: bool)
    requires s.send.closed && s.up.eof && WithinTransfer(steps)
    ensures BodyEnded(s, Run(s, steps, signedChar))
    decreases |steps|
  {
    if steps != [] {
      var s1 := Apply(s, steps[0], signedChar).0;
      ClosedStep(s, steps[0], signedChar);
      ClosedForGood(s1, steps[1..], signedChar);
    }
  }

  lemma {:induction false} ClosedStep(s: State, step: Step, signedChar: bool)
    requires s.send.closed && s.up.eof && !step.call.CConfigure? && !step.call.CReset?
    ensures BodyEnded(s, Apply(s, step, signedChar).0)
  {
    if !s.busy {
      match step.call
      case CRead(t, count) => ReadEnds(s, t, count, signedChar, step.script);
      case CWrite(data) => WriteEnds(s, data, step.script);
      case CClose => CloseEnds(s, step.script);
    }
  }
}
