/**
  What configure does with what it is told.  It stops at the end of the first response whose lines hold no Location, or
  of the first of all when redirects are not followed, as told from what libcurl has passed to the header callback; it
  starts every transfer from scratch; and it decides what becomes of the bodies.
*/
module Configuration {
  import opened Protocol
  import opened ProtocolProofs
  import opened StreamTheorems
  import opened EndOfStream
  import opened Progress
  import opened Hashing
  import HeaderLine
  import HeaderStore

  const CLEARED := Heads(false, 0, false)

  // ---------------------------------------------------------------- what the flags mean

  /** The headers of a response have ended, and no status line came after. */
  ghost predicate EndedBy(es: seq<Event>)
  {
    exists i :: 0 <= i < |es| && es[i] == HeaderEnd && SameResponse(es, i)
  }

  ghost predicate SameResponse(es: seq<Event>, i: nat)
  {
    forall j :: i < j < |es| ==> es[j] != StatusLine
  }

  /** The status line at `j` begins another response, the headers before it having ended. */
  ghost predicate RestartAt(es: seq<Event>, j: nat)
    requires j < |es|
  {
    es[j] == StatusLine && EndedBy(es[..j])
  }

  /** A Location line has come, and no other response has begun since. */
  ghost predicate LocationIn(es: seq<Event>)
  {
    exists i :: 0 <= i < |es| && es[i] == HeaderLine(true) && NoRestart(es, i)
  }

  ghost predicate NoRestart(es: seq<Event>, i: nat)
  {
    forall j :: i < j < |es| ==> !RestartAt(es, j)
  }

  /** The status and header lines since the last response began. */
  ghost function LineCount(es: seq<Event>): nat
    decreases |es|
  {
    if es == [] then 0
    else if RestartAt(es, |es| - 1) then 1
    else LineCount(es[..|es| - 1]) + if es[|es| - 1].StatusLine? || es[|es| - 1].HeaderLine? then 1 else 0
  }

  lemma {:induction false} EndedByLast(es: seq<Event>, e: Event)
    ensures EndedBy(es + [e]) <==> e == HeaderEnd || (e != StatusLine && EndedBy(es))
  {
    var all := es + [e];
    if EndedBy(es) && e != StatusLine {
      var i :| 0 <= i < |es| && es[i] == HeaderEnd && SameResponse(es, i);
      assert all[i] == HeaderEnd && SameResponse(all, i);
    }
    if e == HeaderEnd {
      assert all[|es|] == HeaderEnd && SameResponse(all, |es|);
    }
    if EndedBy(all) {
      var i :| 0 <= i < |all| && all[i] == HeaderEnd && SameResponse(all, i);
      if i < |es| {
        assert all[|es|] != StatusLine;
        forall j | i < j < |es| ensures es[j] != StatusLine { assert all[j] == es[j]; }
        assert es[i] == HeaderEnd && SameResponse(es, i);
      }
    }
  }

  lemma {:induction false} RestartBefore(es: seq<Event>, e: Event, j: nat)
    requires j <= |es|
    ensures RestartAt(es + [e], j) <==> if j < |es| then RestartAt(es, j) else e == StatusLine && EndedBy(es)
  {
    assert (es + [e])[..j] == es[..j];
    assert es[..|es|] == es;
  }

  lemma {:induction false} NoRestartLast(es: seq<Event>, e: Event, i: nat)
    requires i < |es|
    ensures NoRestart(es + [e], i) <==> NoRestart(es, i) && !(e == StatusLine && EndedBy(es))
  {
    var all := es + [e];
    RestartBefore(es, e, |es|);
    if NoRestart(all, i) {
      assert !RestartAt(all, |es|);
      forall j | i < j < |es| ensures !RestartAt(es, j) { RestartBefore(es, e, j); }
    }
    if NoRestart(es, i) && !(e == StatusLine && EndedBy(es)) {
      forall j | i < j < |all| ensures !RestartAt(all, j) { RestartBefore(es, e, j); }
    }
  }

  lemma {:induction false} LocationInLast(es: seq<Event>, e: Event)
    ensures LocationIn(es + [e]) <==> e == HeaderLine(true) || (LocationIn(es) && !(e == StatusLine && EndedBy(es)))
  {
    var all := es + [e];
    if LocationIn(es) && !(e == StatusLine && EndedBy(es)) {
      var i :| 0 <= i < |es| && es[i] == HeaderLine(true) && NoRestart(es, i);
      NoRestartLast(es, e, i);
      assert all[i] == HeaderLine(true);
    }
    if e == HeaderLine(true) {
      assert all[|es|] == HeaderLine(true) && NoRestart(all, |es|);
    }
    if LocationIn(all) {
      var i :| 0 <= i < |all| && all[i] == HeaderLine(true) && NoRestart(all, i);
      if i < |es| {
        NoRestartLast(es, e, i);
        assert es[i] == HeaderLine(true);
      }
    }
  }

  lemma {:induction false} LineCountLast(es: seq<Event>, e: Event)
    ensures LineCount(es + [e]) ==
      if e == StatusLine && EndedBy(es) then 1
      else LineCount(es) + if e.StatusLine? || e.HeaderLine? then 1 else 0
  {
    RestartBefore(es, e, |es|);
    assert (es + [e])[..|es|] == es;
  }

  /** The flags are those of the events so far. */
  ghost predicate HeadsOf(h: Heads, es: seq<Event>)
  {
    (h.ended <==> EndedBy(es)) && (h.location <==> LocationIn(es)) && h.pairs == LineCount(es)
  }

  lemma {:induction false} HeadsOfLast(h: Heads, es: seq<Event>, e: Event)
    requires HeadsOf(h, es)
    ensures HeadsOf(if e.StatusLine? || e.HeaderLine? || e.HeaderEnd? then OnHeader(h, e) else h, es + [e])
  {
    EndedByLast(es, e);
    LocationInLast(es, e);
    LineCountLast(es, e);
  }

  lemma {:induction false} EventHeads(s: State, e: Event)
    requires !OnEvent(s, e).life.done
    ensures !s.life.done
    ensures OnEvent(s, e).heads == if e.StatusLine? || e.HeaderLine? || e.HeaderEnd? then OnHeader(s.heads, e)
      else s.heads
  {
  }

  /**
    While the transfer runs, whatever libcurl does: the end flag says that the headers of the current response have
    ended, the location that one of its lines was a Location, and the pairs are counted since it began.
  */
  lemma {:induction false} HeadsMean(s: State, es: seq<Event>)
    requires s.heads == CLEARED && !RunEvents(s, es).life.done
    ensures HeadsOf(RunEvents(s, es).heads, es)
    decreases |es|
  {
    if es != [] {
      var most, e := es[..|es| - 1], es[|es| - 1];
      assert es == most + [e];
      RunConcat(s, most, [e]);
      OneEvent(RunEvents(s, most), e);
      EventHeads(RunEvents(s, most), e);
      HeadsMean(s, most);
      HeadsOfLast(RunEvents(s, most).heads, most, e);
    }
  }

  /** A server speaks in order: but for the first line, a status line follows the end of the headers before it. */
  ghost predicate InOrder(es: seq<Event>)
  {
    forall j :: 0 < j < |es| && es[j] == StatusLine ==> RestartAt(es, j)
  }

  /** Then the Location counts since the last status line. */
  lemma {:induction false} LocationSinceStatus(es: seq<Event>)
    requires InOrder(es)
    ensures LocationIn(es) <==> exists i :: 0 <= i < |es| && es[i] == HeaderLine(true) && SameResponse(es, i)
  {
    forall i | 0 <= i < |es| ensures NoRestart(es, i) <==> SameResponse(es, i) {
      if SameResponse(es, i) {
        forall j | i < j < |es| ensures !RestartAt(es, j) { assert es[j] != StatusLine; }
      }
    }
  }

  // ---------------------------------------------------------------- the lines behind the events

  function EventOf(line: HeaderLine.Line): Event
  {
    match line
    case Status(_) => StatusLine
    case Field(name, _) => Event.HeaderLine(EqualFold(name, "Location"))
    case End => HeaderEnd
  }

  function EventsOf(lines: seq<HeaderLine.Line>): seq<Event>
  {
    seq(|lines|, i requires 0 <= i < |lines| => EventOf(lines[i]))
  }

  ghost predicate HasLocation(fields: seq<HeaderStore.NameValue>)
  {
    exists i :: 0 <= i < |fields| && EqualFold(fields[i].0, "Location")
  }

  lemma {:induction false} HasLocationLast(fields: seq<HeaderStore.NameValue>, f: HeaderStore.NameValue)
    ensures HasLocation(fields + [f]) <==> HasLocation(fields) || EqualFold(f.0, "Location")
  {
    var all := fields + [f];
    assert all[|fields|] == f;
    if HasLocation(fields) {
      var i :| 0 <= i < |fields| && EqualFold(fields[i].0, "Location");
      assert EqualFold(all[i].0, "Location");
    }
    if HasLocation(all) {
      var i :| 0 <= i < |all| && EqualFold(all[i].0, "Location");
      assert i < |fields| ==> EqualFold(fields[i].0, "Location");
    }
  }

  /**
    The flags say of the events what the header store makes of the lines: the same end, count and lookup of Location.
  */
  ghost predicate SameHeaders(es: seq<Event>, log: HeaderStore.Log)
  {
    && (EndedBy(es) <==> log.ended)
    && (LocationIn(es) <==> HasLocation(log.fields))
    && LineCount(es) == |log.fields| + (if log.status.Some? then 1 else 0)
    && (log.status.None? ==> log.fields == [])
  }

  lemma {:induction false} SameHeadersLast(es: seq<Event>, log: HeaderStore.Log, line: HeaderLine.Line)
    requires SameHeaders(es, log) && HeaderStore.InOrder(log, line)
    ensures SameHeaders(es + [EventOf(line)], HeaderStore.Receive(log, line))
  {
    EndedByLast(es, EventOf(line));
    LocationInLast(es, EventOf(line));
    LineCountLast(es, EventOf(line));
    if line.Field? { HasLocationLast(log.fields, (line.name, line.value)); }
  }

  lemma {:induction false} OrderOfPrefix(lines: seq<HeaderLine.Line>, n: nat)
    requires HeaderStore.AllInOrder(HeaderStore.NOTHING, lines) && n <= |lines|
    ensures HeaderStore.AllInOrder(HeaderStore.NOTHING, lines[..n])
  {
    var most := lines[..n];
    forall i | 0 <= i < n ensures HeaderStore.InOrder(HeaderStore.Run(HeaderStore.NOTHING, most[..i]), most[i]) {
      assert most[..i] == lines[..i];
    }
  }

  lemma {:induction false} LinesMean(lines: seq<HeaderLine.Line>)
    requires HeaderStore.AllInOrder(HeaderStore.NOTHING, lines)
    ensures SameHeaders(EventsOf(lines), HeaderStore.Run(HeaderStore.NOTHING, lines))
  {
    if lines != [] {
      var n := |lines| - 1;
      var most := lines[..n];
      OrderOfPrefix(lines, n);
      LinesMean(most);
      SameHeadersLast(EventsOf(most), HeaderStore.Run(HeaderStore.NOTHING, most), lines[n]);
      assert EventsOf(lines) == EventsOf(most) + [EventOf(lines[n])];
    }
  }

  /** After any number of whole responses, final headers have come unless the last is a redirect that is followed. */
  lemma {:induction false} ResponsesEnd(o: Options, rs: seq<HeaderStore.Response>)
    ensures FinalHeaders(o, EventsOf(HeaderStore.AllLines(rs))) <==>
      rs != [] && !(o.followRedirects && HasLocation(rs[|rs| - 1].fields))
  {
    HeaderStore.LastResponseRemains(rs);
    LinesMean(HeaderStore.AllLines(rs));
  }

  // ---------------------------------------------------------------- where configure stops

  /** A handle on which configure starts a transfer: new, or reset. */
  predicate Startable(s: State) { Quiet(s) && !s.busy && !s.attached && s.heads == CLEARED }

  /** All that libcurl did in a configure up to the end of round `n`. */
  function Seen(sc: Script, n: nat): seq<Event>
    requires n <= |sc.rounds|
  {
    sc.resume + Events(sc.rounds, n)
  }

  /** Where configure is after `n` rounds. */
  function ReachedBy(s: State, o: Options, sc: Script, n: nat): State
    requires n <= |sc.rounds|
  {
    Reached(RunEvents(ConfigureEntry(s, o), sc.resume), sc.rounds, n)
  }

  /** The headers that the caller wants have come: their end, and not those of a redirect that is followed. */
  ghost predicate FinalHeaders(o: Options, es: seq<Event>)
  {
    EndedBy(es) && !(o.followRedirects && LocationIn(es))
  }

  lemma {:induction false} ConfigureSees(s: State, o: Options, sc: Script, n: nat)
    requires Startable(s) && n <= |sc.rounds|
    ensures var s1 := ReachedBy(s, o, sc, n);
      && !s1.needInput && !s1.needOutput
      && (!s1.life.done ==>
            && HeadsOf(s1.heads, Seen(sc, n))
            && (WaitsForHeaders(s1) <==>
                  !s1.send.paused && !s1.recv.paused && !FinalHeaders(o, Seen(sc, n))))
  {
    var s0 := ConfigureEntry(s, o);
    RunConcat(s0, sc.resume, Events(sc.rounds, n));
    EventsKeepNeeds(s0, Seen(sc, n));
    if !ReachedBy(s, o, sc, n).life.done {
      HeadsMean(s0, Seen(sc, n));
    }
  }

  /** A loop that has returned was ended by one of its rounds, those before having gone on. */
  lemma {:induction false} PerformEndsAt(s: State, rounds: seq<Round>) returns (n: nat)
    requires !(s.needInput && s.needOutput) && !Perform(s, rounds).1.Running?
    ensures n < |rounds| && GoesOn(s, rounds, n)
    ensures Perform(s, rounds) == PerformOnce(Reached(s, rounds, n), rounds[n])
    decreases |rounds|
  {
    RoundGoesOn(s, rounds[0]);
    if !PerformOnce(s, rounds[0]).1.Running? {
      n := 0;
      assert Reached(s, rounds, 0) == s;
    } else {
      var s1 := RunEvents(s, rounds[0].events);
      EventsKeepNeeds(s, rounds[0].events);
      var m := PerformEndsAt(s1, rounds[1..]);
      n := m + 1;
      ReachedTail(s, rounds, n);
      GoesOnTail(s, rounds, n);
    }
  }

  lemma {:induction false} StoppedQuietly(s: State, r: Round)
    requires !(s.needInput && s.needOutput) && PerformOnce(s, r).1 == Stopped(false)
    ensures PerformOnce(s, r).0 == RunEvents(s, r.events) && !Waits(RunEvents(s, r.events))
  {
    EventsKeepNeeds(s, r.events);
  }

  /**
    A configure that returns normally while the transfer runs and neither direction is paused has seen final headers,
    and after every round before the last it had not.
  */
  lemma {:induction false} ConfigureStopsAt(s: State, o: Options, sc: Script) returns (n: nat)
    requires Startable(s) && Clean(Configure(s, o, sc).1)
    requires var s' := Configure(s, o, sc).0; !s'.life.done && !s'.send.paused && !s'.recv.paused
    ensures 0 < n <= |sc.rounds| && Configure(s, o, sc).0 == Leave(ReachedBy(s, o, sc, n))
    ensures FinalHeaders(o, Seen(sc, n))
    ensures forall i :: 0 < i < n ==> !FinalHeaders(o, Seen(sc, i))
  {
    var s1 := RunEvents(ConfigureEntry(s, o), sc.resume);
    EventsKeepNeeds(ConfigureEntry(s, o), sc.resume);
    var m := PerformEndsAt(s1, sc.rounds);
    n := m + 1;
    EventsKeepNeeds(s1, Events(sc.rounds, m));
    ReachedNext(s1, sc.rounds, m);
    StoppedQuietly(Reached(s1, sc.rounds, m), sc.rounds[m]);
    ConfigureSees(s, o, sc, n);
    forall i | 0 < i < n ensures !FinalHeaders(o, Seen(sc, i)) {
      assert GoesOnAt(s1, sc.rounds, i - 1);
      ConfigureSees(s, o, sc, i);
    }
  }

  /** The first calm round after which final headers have come stops configure. */
  lemma {:induction false} FinalHeadersStop(s: State, o: Options, sc: Script, n: nat)
    requires Startable(s) && !sc.interruptedFirst && !sc.resumeFails && n < |sc.rounds|
    requires var s1 := RunEvents(ConfigureEntry(s, o), sc.resume);
      Awaited(s1, sc.rounds, n, WaitsForHeaders) && Calm(sc.rounds[n])
    requires !ReachedBy(s, o, sc, n + 1).life.done && FinalHeaders(o, Seen(sc, n + 1))
    ensures Configure(s, o, sc) == (Leave(ReachedBy(s, o, sc, n + 1)), Returned(0, sc.interruptedLast, false))
  {
    var s1 := RunEvents(ConfigureEntry(s, o), sc.resume);
    ConfigureSees(s, o, sc, n + 1);
    RunsBefore(s1, Events(sc.rounds, n + 1));
    EventsKeepNeeds(ConfigureEntry(s, o), sc.resume);
    LoopStops(s1, sc.rounds, n);
  }

  /** A transfer that runs now was running before. */
  lemma {:induction false} RunsBefore(s: State, es: seq<Event>)
    requires !RunEvents(s, es).life.done
    ensures !s.life.done
  {
    if s.life.done { OverStaysOver(s, es); }
  }

  /** A direction that is not paused now was not paused before. */
  lemma {:induction false} OpenBefore(s: State, rounds: seq<Round>, i: nat, n: nat)
    requires Inv(s) && i <= n <= |rounds|
    requires var s' := Reached(s, rounds, n); !s'.life.done && !s'.send.paused && !s'.recv.paused
    ensures var s' := Reached(s, rounds, i); !s'.life.done && !s'.send.paused && !s'.recv.paused
    decreases n
  {
    if i < n {
      var s1 := Reached(s, rounds, n - 1);
      ReachedNext(s, rounds, n - 1);
      EventsKeep(s, Events(rounds, n - 1));
      EventsKeep(s1, rounds[n - 1].events);
      RunsBefore(s1, rounds[n - 1].events);
      OpenBefore(s, rounds, i, n - 1);
    }
  }

  /**
    In particular the headers of a redirect that is followed do not stop it: as long as no round ends with final
    headers and nothing else is the matter, configure is still in flight.
  */
  lemma {:induction false} RedirectGoesOn(s: State, o: Options, sc: Script)
    requires Startable(s) && !sc.interruptedFirst && !sc.resumeFails
    requires forall i :: 0 <= i < |sc.rounds| ==> Calm(sc.rounds[i]) && !FinalHeaders(o, Seen(sc, i + 1))
    requires var s' := ReachedBy(s, o, sc, |sc.rounds|); !s'.life.done && !s'.send.paused && !s'.recv.paused
    ensures Configure(s, o, sc).1 == InFlight
  {
    var s1 := RunEvents(ConfigureEntry(s, o), sc.resume);
    ConfigureInFlightExactly(s, o, sc);
    EventsKeep(ConfigureEntry(s, o), sc.resume);
    OpenBefore(s1, sc.rounds, 0, |sc.rounds|);
    assert Reached(s1, sc.rounds, 0) == s1;
    forall i | 0 <= i < |sc.rounds| ensures AwaitedAt(s1, sc.rounds, WaitsForHeaders, i) {
      OpenBefore(s1, sc.rounds, i + 1, |sc.rounds|);
      ConfigureSees(s, o, sc, i + 1);
    }
  }

  // ---------------------------------------------------------------- handles to start from

  /** A handle without a transfer has no headers. */
  predicate NoHeaders(s: State) { !s.attached ==> s.heads == CLEARED }

  lemma {:induction false} PerformOver(s: State, rounds: seq<Round>)
    requires s.life.done
    ensures Perform(s, rounds).0.heads == s.heads
    decreases |rounds|
  {
    if rounds != [] {
      OverStaysOver(s, rounds[0].events);
      if PerformOnce(s, rounds[0]).1.Running? { PerformOver(s, rounds[1..]); }
    }
  }

  /** Every disciplined call keeps that, so configure starts from a clean handle whenever there is no transfer. */
  lemma {:induction false} ApplyNoHeaders(s: State, step: Step, signedChar: bool)
    requires Quiet(s) && NoHeaders(s) && Permitted(s, step.call)
    ensures NoHeaders(Apply(s, step, signedChar).0)
  {
    if !s.busy {
      match step.call
      case CRead(t, count) => ReadNoHeaders(s, t, count, signedChar, step.script);
      case CWrite(data) => WriteNoHeaders(s, data, step.script);
      case CClose => CloseNoHeaders(s, step.script);
      case CConfigure(o) => ConfigureStarts(s, o, step.script);
      case CReset =>
    }
  }

  lemma {:induction false} ReadNoHeaders(s: State, t: Target, count: nat, signedChar: bool, sc: Script)
    requires Quiet(s) && NoHeaders(s) && !s.busy
    ensures NoHeaders(Read(s, t, count, signedChar, sc).0)
  {
    ReadEntryKeeps(s, count, sc);
    ReadingPerform(s, count, ReadEntry(s, count, sc).0, sc.rounds);
    if !s.attached {
      OverStaysOver(Resumed(ReadStart(s, count)), sc.resume);
      PerformOver(ReadEntry(s, count, sc).0, sc.rounds);
    }
  }

  lemma {:induction false} WriteNoHeaders(s: State, data: seq<Byte>, sc: Script)
    requires Quiet(s) && NoHeaders(s) && !s.busy
    ensures NoHeaders(Write(s, data, sc).0)
  {
    WriteEntryKeeps(s, data, sc);
    WritingPerform(s, data, WriteEntry(s, data, sc).0, sc.rounds);
    if !s.attached {
      OverStaysOver(Resumed(WriteStart(s, data)), sc.resume);
      PerformOver(WriteEntry(s, data, sc).0, sc.rounds);
    }
  }

  lemma {:induction false} CloseNoHeaders(s: State, sc: Script)
    requires Quiet(s) && NoHeaders(s) && !s.busy
    ensures NoHeaders(CloseOutput(s, sc).0)
  {
    CloseEntryNoHeaders(s, sc);
    CloseEntryKeeps(s, sc);
    CloseFromNoHeaders(s, CloseEntry(s, sc).0, CloseEntry(s, sc).1, sc);
  }

  lemma {:induction false} CloseEntryNoHeaders(s: State, sc: Script)
    requires Detached(s) && NoHeaders(s)
    ensures !s.attached ==> CloseEntry(s, sc).0.heads == CLEARED
  {
    if !s.attached {
      OverStaysOver(Resumed(CloseStart(s)), sc.resume);
    }
  }

  lemma {:induction false} CloseFromNoHeaders(s: State, s1: State, failed: bool, sc: Script)
    requires Closing(s, s1) && s1.send.pending == [] && NoHeaders(s1)
    ensures NoHeaders(CloseFrom(s1, failed, sc).0)
  {
    ClosingPerform(s, s1, sc.rounds);
    if !s.attached {
      PerformOver(s1, sc.rounds);
    }
  }

  lemma {:induction false} RunNoHeaders(s: State, steps: seq<Step>, signedChar: bool)
    requires Quiet(s) && NoHeaders(s) && Disciplined(s, steps, signedChar)
    ensures NoHeaders(Run(s, steps, signedChar))
    decreases |steps|
  {
    if steps != [] {
      ApplyQuiet(s, steps[0], signedChar);
      ApplyNoHeaders(s, steps[0], signedChar);
      RunNoHeaders(Apply(s, steps[0], signedChar).0, steps[1..], signedChar);
    }
  }

  /** Whatever was done with a new handle: when it has no transfer and the lock is free, configure can start one. */
  lemma {:induction false} RunStartable(s: State, steps: seq<Step>, signedChar: bool)
    requires Startable(s) && Disciplined(s, steps, signedChar)
    ensures var s' := Run(s, steps, signedChar); !s'.attached && !s'.busy ==> Startable(s')
  {
    RunQuiet(s, steps, signedChar);
    RunNoHeaders(s, steps, signedChar);
  }

  lemma {:induction false} NewIsQuiet()
    ensures Quiet(CREATED)
  {
  }

  lemma {:induction false} NewIsStartable()
    ensures Startable(CREATED)
  {
    NewIsQuiet();
  }

  /** A new handle, but for the installed read function. */
  function NewWith(eof: bool): State { CREATED.(up := Up(false, eof, false)) }

  /**
    A reset forgets everything that configure would notice: the next configure goes as on a new handle, whatever was
    done before.  Only the read function stays installed, and it is replaced when there is a body to send.
  */
  lemma {:induction false} ResetForgets(s: State, o: Options, sc: Script)
    requires !s.busy
    ensures Configure(Reset(s).0, o, sc) == Configure(NewWith(s.up.eof), o, sc)
    ensures o.doOutput ==> Configure(Reset(s).0, o, sc) == Configure(CREATED, o, sc)
    ensures var r, d := Recv(false, s.recv.room, 0, []), Send(false, false, s.send.pending, 0, s.send.goal, []);
      s.attached ==> Reset(s).0 == NewWith(s.up.eof).(recv := r, send := d)
  {
    assert ConfigureEntry(Reset(s).0, o) == ConfigureEntry(NewWith(s.up.eof), o);
    assert o.doOutput ==> ConfigureEntry(Reset(s).0, o) == ConfigureEntry(CREATED, o);
  }

  // ---------------------------------------------------------------- what becomes of the bodies

  /** What configure has set up and no callback changes. */
  predicate SameSettings(s: State, s': State)
  {
    && s'.redirect == s.redirect && s'.send.goal == s.send.goal && s'.down.sink == s.down.sink
    && s'.down.body == s.down.body && s'.up.upload == s.up.upload && s'.up.eof == s.up.eof
  }

  lemma {:induction false} OfferSettings(r: Recv, w: Down, l: Life, n: nat)
    requires w.consumed + n <= |w.body|
    ensures OnOffer(r, w, l, n).1.body == w.body && OnOffer(r, w, l, n).1.sink == w.sink
  {
  }

  lemma {:induction false} AskSettings(d: Send, u: Up, capacity: nat)
    ensures var (d', u') := OnAsk(d, u, capacity); d'.goal == d.goal && u'.upload == u.upload && u'.eof == u.eof
  {
  }

  lemma {:induction false} EventSettings(s: State, e: Event)
    ensures SameSettings(s, OnEvent(s, e))
  {
    if Legal(s.life, s.down, s.up, e) {
      match e
      case Offer(n) => OfferSettings(s.recv, s.down, s.life, n);
      case Ask(capacity) => AskSettings(s.send, s.up, capacity);
      case _ =>
    }
  }

  lemma {:induction false} EventsSettings(s: State, es: seq<Event>)
    ensures SameSettings(s, RunEvents(s, es))
    decreases |es|
  {
    if es != [] {
      EventSettings(s, es[0]);
      EventsSettings(OnEvent(s, es[0]), es[1..]);
    }
  }

  lemma {:induction false} PerformSettings(s: State, rounds: seq<Round>)
    ensures SameSettings(s, Perform(s, rounds).0)
    decreases |rounds|
  {
    if rounds != [] {
      EventsSettings(s, rounds[0].events);
      if PerformOnce(s, rounds[0]).1.Running? {
        PerformSettings(PerformOnce(s, rounds[0]).0, rounds[1..]);
      }
    }
  }

  /** Whatever happens during configure, the transfer is then set up as it was told. */
  lemma {:induction false} ConfigureSets(s: State, o: Options, sc: Script)
    requires !s.busy && !s.attached
    ensures var s' := Configure(s, o, sc).0;
      && s'.redirect == o.followRedirects && s'.down.body == o.body && s'.up.upload == o.doOutput
      && s'.send.goal == (if o.doOutput then o.fixedLength else 0)
      && (o.doOutput ==> !s'.up.eof)
  {
    var s0 := ConfigureEntry(s, o);
    EventsSettings(s0, sc.resume);
    PerformSettings(RunEvents(s0, sc.resume), sc.rounds);
  }

  /**
    A response body that nobody wants is swallowed while there is a request body to send, and else the first bytes of
    it end the transfer, which is no failure.
  */
  lemma {:induction false} UnwantedOffer(s: State, o: Options, n: nat)
    requires s.down.sink == SinkOf(o) && !o.doInput && Legal(s.life, s.down, s.up, Offer(n))
    ensures o.doOutput ==> OnEvent(s, Offer(n)) == s.(down := s.down.(consumed := s.down.consumed + n))
    ensures !o.doOutput ==> OnEvent(s, Offer(n)) == s.(life := s.life.(done := true))
  {
  }

  /** None of it ever reaches a caller. */
  lemma {:induction false} UnwantedBody(s: State, o: Options, sc: Script, steps: seq<Step>, signedChar: bool)
    requires Quiet(s) && !s.busy && !s.attached && !o.doInput
    requires Disciplined(Configure(s, o, sc).0, steps, signedChar) && WithinTransfer(steps)
    ensures Received(Configure(s, o, sc).0, steps, signedChar) == []
  {
    var s1 := Configure(s, o, sc).0;
    ConfigureQuiet(s, o, sc);
    ConfigureStarts(s, o, sc);
    ReceivedIsDelivered(s1, steps, signedChar);
    RunQuiet(s1, steps, signedChar);
  }
}
