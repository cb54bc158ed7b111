/** Safety of every run of the protocol: the stream theorems and the pause-flag discipline. */
module ProtocolProofs {
  import opened Protocol

  // ---------------------------------------------------------------- the invariant

  /**
    Callers have been given exactly the accepted bytes and the already copied part of the held chunk;
    libcurl never holds data back without the flag saying so; and a read that finds the flag set has no
    room left.
  */
  predicate DownInv(r: Recv, w: Down, l: Life, needInput: bool)
  {
    && w.consumed <= |w.body|
    && (w.held ==> r.paused)
    && (needInput && r.paused ==> r.room == 0)
    && (w.sink == Deliver ==>
          && |r.delivered| == w.consumed + r.overflow
          && r.delivered <= w.body
          && (l.done && !l.failed ==> w.consumed == |w.body|))
    && (w.sink != Deliver ==> r.overflow == 0 && |r.delivered| == 0)
  }

  /**
    libcurl never waits for data without the flag saying so; a write that finds the flag set has handed
    over everything, or reached the goal, or the output was closed; and the counter agrees with the log.
  */
  predicate UpInv(d: Send, u: Up, needOutput: bool, attached: bool)
  {
    && (u.held ==> d.paused)
    && (needOutput && d.paused && !d.closed ==> |d.pending| == 0 || GoalReached(d))
    && (u.eof && u.upload ==> d.closed)
    && (attached && d.goal != 0 ==> d.uploaded == |d.taken|)
    && (!attached ==> |d.taken| == 0 && d.uploaded == 0)
  }

  predicate OneDirection(s: State)
  {
    && !(s.needInput && s.needOutput)
    && (s.needInput ==> |s.send.pending| == 0)
    && (s.needOutput ==> s.recv.room == 0)
  }

  predicate Detached(s: State)
  {
    && (s.life.failed || s.life.reported ==> s.life.done)
    && (!s.attached ==> s.life.done && s.life.reported && s.down.sink == Deliver && |s.down.body| == 0)
    && (!s.attached ==> !s.down.held && !s.up.held && !s.up.upload)
  }

  predicate Inv(s: State)
  {
    && DownInv(s.recv, s.down, s.life, s.needInput)
    && UpInv(s.send, s.up, s.needOutput, s.attached)
    && OneDirection(s) && Detached(s)
  }

  /** Between calls no direction is wanted. */
  predicate Quiet(s: State) { Inv(s) && (!s.busy ==> !s.needInput && !s.needOutput) }

  // ---------------------------------------------------------------- one step keeps it

  /** Bytes move from the room to the log, and flags are only raised. */
  predicate DownGrows(r: Recv, w: Down, r': Recv, w': Down)
  {
    && w'.body == w.body && w'.sink == w.sink
    && |r.delivered| <= |r'.delivered|
    && r.room + |r.delivered| == r'.room + |r'.delivered|
    && (r.paused ==> r'.paused)
  }

  predicate UpGrows(d: Send, d': Send)
  {
    && d'.closed == d.closed && d'.goal == d.goal
    && |d.taken| <= |d'.taken|
    && d.taken + d.pending == d'.taken + d'.pending
    && (d.paused ==> d'.paused)
  }

  /** What every step inside a call keeps. */
  predicate Extends(s: State, s': State)
  {
    && s'.busy == s.busy && s'.attached == s.attached
    && s'.needInput == s.needInput && s'.needOutput == s.needOutput
    && DownGrows(s.recv, s.down, s'.recv, s'.down)
    && UpGrows(s.send, s'.send)
    && (s.life.failed ==> s'.life.failed)
  }

  lemma {:induction false} WriteKeeps(r: Recv, w: Down, l: Life, needInput: bool, chunk: seq<Byte>)
    requires DownInv(r, w, l, needInput) && w.sink == Deliver && !l.done
    requires w.consumed + |chunk| <= |w.body| && chunk == w.body[w.consumed..w.consumed + |chunk|]
    ensures var (r', w') := OnWrite(r, w, chunk); DownInv(r', w', l, needInput) && DownGrows(r, w, r', w')
  {
    if r.room > 0 && |chunk| > r.overflow {
      var unseen := chunk[r.overflow..];
      var from := w.consumed + r.overflow;
      assert forall k :: 0 <= k < |unseen| ==> unseen[k] == w.body[from + k];
    }
  }

  lemma {:induction false} ReadKeeps(d: Send, u: Up, needOutput: bool, attached: bool, capacity: nat)
    requires UpInv(d, u, needOutput, attached) && attached
    ensures var (d', u') := OnRead(d, u, capacity); UpInv(d', u', needOutput, attached) && UpGrows(d, d')
  {
    var n := Min(|d.pending|, capacity);
    assert d.pending[..n] + d.pending[n..] == d.pending;
  }

  lemma {:induction false} OfferKeeps(s: State, n: nat)
    requires Inv(s) && Legal(s.life, s.down, s.up, Offer(n))
    ensures var (r, w, l) := OnOffer(s.recv, s.down, s.life, n);
      && DownInv(r, w, l, s.needInput) && DownGrows(s.recv, s.down, r, w)
      && l == s.life.(done := l.done) && (s.needOutput ==> r.room == 0)
  {
    if s.down.sink == Deliver {
      var chunk := s.down.body[s.down.consumed..s.down.consumed + n];
      WriteKeeps(s.recv, s.down, s.life, s.needInput, chunk);
    }
  }

  lemma {:induction false} AskKeeps(s: State, capacity: nat)
    requires Inv(s) && Legal(s.life, s.down, s.up, Ask(capacity))
    ensures var (d, u) := OnAsk(s.send, s.up, capacity);
      && UpInv(d, u, s.needOutput, s.attached) && UpGrows(s.send, d)
      && (s.needInput ==> |d.pending| == 0)
  {
    if !s.up.eof { ReadKeeps(s.send, s.up, s.needOutput, s.attached, capacity); }
  }

  lemma {:induction false} OfferEventKeeps(s: State, n: nat)
    requires Inv(s) && Legal(s.life, s.down, s.up, Offer(n))
    ensures Inv(OnEvent(s, Offer(n))) && Extends(s, OnEvent(s, Offer(n)))
  {
    OfferKeeps(s, n);
  }

  lemma {:induction false} AskEventKeeps(s: State, capacity: nat)
    requires Inv(s) && Legal(s.life, s.down, s.up, Ask(capacity))
    ensures Inv(OnEvent(s, Ask(capacity))) && Extends(s, OnEvent(s, Ask(capacity)))
  {
    AskKeeps(s, capacity);
  }

  lemma {:induction false} FinishEventKeeps(s: State, ok: bool)
    requires Inv(s) && Legal(s.life, s.down, s.up, Finish(ok))
    ensures Inv(OnEvent(s, Finish(ok))) && Extends(s, OnEvent(s, Finish(ok)))
  {
    assert DownInv(s.recv, s.down, Life(true, !ok, s.life.reported), s.needInput);
  }

  lemma {:induction false} HeaderEventKeeps(s: State, e: Event)
    requires Inv(s) && Legal(s.life, s.down, s.up, e) && (e.StatusLine? || e.HeaderLine? || e.HeaderEnd?)
    ensures Inv(OnEvent(s, e)) && Extends(s, OnEvent(s, e))
  {
    assert OnEvent(s, e) == s.(heads := OnHeader(s.heads, e));
  }

  lemma {:induction false} EventKeeps(s: State, e: Event)
    requires Inv(s)
    ensures Inv(OnEvent(s, e)) && Extends(s, OnEvent(s, e))
  {
    if Legal(s.life, s.down, s.up, e) {
      match e
      case Offer(n) => OfferEventKeeps(s, n);
      case Ask(capacity) => AskEventKeeps(s, capacity);
      case Finish(ok) => FinishEventKeeps(s, ok);
      case _ => HeaderEventKeeps(s, e);
    } else {
      assert OnEvent(s, e) == s;
    }
  }

  lemma {:induction false} EventsKeep(s: State, es: seq<Event>)
    requires Inv(s)
    ensures Inv(RunEvents(s, es)) && Extends(s, RunEvents(s, es))
    decreases |es|
  {
    if es != [] {
      EventKeeps(s, es[0]);
      EventsKeep(OnEvent(s, es[0]), es[1..]);
    }
  }

  /** What a returned perform loop has established. */
  predicate Settled(s: State, out: Outcome)
  {
    match out
    case Running => true
    case Stopped(interrupted) => interrupted || NothingToDo(s) || HeadersConsumed(s)
    case Ended(threw) => threw || s.life.done
  }

  lemma {:induction false} PerformOnceKeeps(s: State, r: Round)
    requires Inv(s)
    ensures var (s', out) := PerformOnce(s, r); Inv(s') && Extends(s, s') && Settled(s', out)
  {
    if !r.interruptedBefore {
      EventsKeep(s, r.events);
      var s1 := RunEvents(s, r.events);
      if s1.life.done && !s1.life.reported {
        assert DownInv(s1.recv, s1.down, s1.life.(reported := true), s1.needInput);
      }
    }
  }

  lemma {:induction false} PerformKeeps(s: State, rounds: seq<Round>)
    requires Inv(s)
    ensures var (s', out) := Perform(s, rounds); Inv(s') && Extends(s, s') && Settled(s', out)
    decreases |rounds|
  {
    if rounds != [] {
      PerformOnceKeeps(s, rounds[0]);
      var (s1, out) := PerformOnce(s, rounds[0]);
      if out.Running? { PerformKeeps(s1, rounds[1..]); }
    }
  }

  /** A failure that was already thrown at somebody. */
  predicate OldFailure(s: State) { s.life.failed && s.life.reported }

  lemma {:induction false} EventReportsNothing(s: State, e: Event)
    requires Detached(s) && !OldFailure(s)
    ensures Detached(OnEvent(s, e)) && !OldFailure(OnEvent(s, e))
  {
  }

  lemma {:induction false} EventsReportNothing(s: State, es: seq<Event>)
    requires Detached(s) && !OldFailure(s)
    ensures !OldFailure(RunEvents(s, es))
    decreases |es|
  {
    if es != [] {
      EventReportsNothing(s, es[0]);
      EventsReportNothing(OnEvent(s, es[0]), es[1..]);
    }
  }

  /** A failure ends the loop with an exception: no loop that ends quietly hides one. */
  lemma {:induction false} PerformHidesNothing(s: State, rounds: seq<Round>)
    requires Inv(s) && !OldFailure(s)
    ensures var (s', out) := Perform(s, rounds);
      && (out != Ended(true) ==> !OldFailure(s'))
      && (out == Stopped(false) || out == Ended(false) ==> !s'.life.failed)
    decreases |rounds|
  {
    if rounds != [] {
      EventsKeep(s, rounds[0].events);
      EventsReportNothing(s, rounds[0].events);
      PerformOnceKeeps(s, rounds[0]);
      var (s1, out) := PerformOnce(s, rounds[0]);
      if out.Running? { PerformHidesNothing(s1, rounds[1..]); }
    }
  }

  // ---------------------------------------------------------------- one call keeps it

  /** With no room, nothing more is delivered; with nothing pending, nothing more is taken. */
  lemma {:induction false} SilentDirections(s: State, s': State)
    requires Inv(s) && Inv(s') && Extends(s, s')
    ensures s.recv.delivered <= s'.recv.delivered
    ensures s.recv.room == 0 ==> s'.recv.delivered == s.recv.delivered
    ensures s.send.pending == [] ==> s'.send.taken == s.send.taken
  {
    if s.send.pending == [] {
      assert s.send.taken == s'.send.taken + s'.send.pending;
    }
  }

  /** A resume step of a call: the state after `Resumed` is an invariant state, and so is everything after it. */
  lemma {:induction false} ResumeKeeps(s: State, es: seq<Event>)
    requires Inv(Resumed(s))
    ensures var s' := EasyPause(s, es); Inv(s') && Extends(Resumed(s), s')
    ensures var s' := EasyPause(s, es); s.recv.delivered <= s'.recv.delivered
    ensures s.recv.room == 0 ==> EasyPause(s, es).recv.delivered == s.recv.delivered
    ensures s.send.pending == [] ==> EasyPause(s, es).send.taken == s.send.taken
  {
    EventsKeep(Resumed(s), es);
    SilentDirections(Resumed(s), EasyPause(s, es));
  }

  /** The state in which a read is inside the perform loop: bytes so far plus room make up the count. */
  predicate Reading(s: State, count: nat, s': State)
  {
    && Inv(s') && s'.busy && s'.needInput && !s'.needOutput && s'.attached == s.attached
    && s'.down.body == s.down.body && s'.down.sink == s.down.sink
    && s.recv.delivered <= s'.recv.delivered
    && s'.recv.room + |s'.recv.delivered| == count + |s.recv.delivered|
    && s'.send.taken == s.send.taken && s'.send.closed == s.send.closed && s'.send.goal == s.send.goal
    && (s.life.failed ==> s'.life.failed)
  }

  lemma {:induction false} ReadEntryKeeps(s: State, count: nat, sc: Script)
    requires Quiet(s) && !s.busy
    ensures Reading(s, count, ReadEntry(s, count, sc).0)
  {
    var s1 := ReadStart(s, count);
    if s.recv.paused {
      ResumeKeeps(s1, sc.resume);
    }
  }

  lemma {:induction false} ReadingPerform(s: State, count: nat, s1: State, rounds: seq<Round>)
    requires Reading(s, count, s1)
    ensures var (s2, out) := Perform(s1, rounds); Reading(s, count, s2) && Settled(s2, out)
  {
    PerformKeeps(s1, rounds);
    SilentDirections(s1, Perform(s1, rounds).0);
  }

  predicate Writing(s: State, data: seq<Byte>, s': State)
  {
    && Inv(s') && s'.busy && s'.needOutput && !s'.needInput && s'.attached == s.attached
    && s'.send.closed == s.send.closed && s'.send.goal == s.send.goal
    && |s.send.taken| <= |s'.send.taken| && s'.send.taken + s'.send.pending == s.send.taken + data
    && s'.recv.delivered == s.recv.delivered && s'.down.body == s.down.body && s'.down.sink == s.down.sink
  }

  lemma {:induction false} WriteEntryKeeps(s: State, data: seq<Byte>, sc: Script)
    requires Quiet(s) && !s.busy
    ensures Writing(s, data, WriteEntry(s, data, sc).0)
  {
    var s1 := WriteStart(s, data);
    if s.send.paused {
      ResumeKeeps(s1, sc.resume);
    }
  }

  lemma {:induction false} WritingPerform(s: State, data: seq<Byte>, s1: State, rounds: seq<Round>)
    requires Writing(s, data, s1)
    ensures var (s2, out) := Perform(s1, rounds); Writing(s, data, s2) && Settled(s2, out)
  {
    PerformKeeps(s1, rounds);
    SilentDirections(s1, Perform(s1, rounds).0);
  }

  predicate Closing(s: State, s': State)
  {
    && Inv(s') && s'.busy && s'.needOutput && !s'.needInput && s'.attached == s.attached && s'.send.closed
    && s'.recv.delivered == s.recv.delivered && s'.send.taken == s.send.taken
    && s'.down.body == s.down.body && s'.down.sink == s.down.sink
  }

  lemma {:induction false} CloseEntryKeeps(s: State, sc: Script)
    requires Quiet(s) && !s.busy
    ensures Closing(s, CloseEntry(s, sc).0) && CloseEntry(s, sc).0.send.pending == []
  {
    var s1 := CloseStart(s);
    if s.send.paused {
      ResumeKeeps(s1, sc.resume);
      assert |EasyPause(s1, sc.resume).send.pending| == 0;
    }
  }

  lemma {:induction false} ClosingPerform(s: State, s1: State, rounds: seq<Round>)
    requires Closing(s, s1) && s1.send.pending == []
    ensures Closing(s, Perform(s1, rounds).0)
  {
    PerformKeeps(s1, rounds);
    SilentDirections(s1, Perform(s1, rounds).0);
  }

  // ---------------------------------------------------------------- every call

  /** Leaving a call, before or after the perform loop, keeps the discipline, and so does staying inside it. */
  lemma {:induction false} PerformQuiet(s: State, rounds: seq<Round>)
    requires Inv(s) && s.busy
    ensures Quiet(Leave(s))
    ensures Quiet(Perform(s, rounds).0) && Quiet(Leave(Perform(s, rounds).0))
  {
    PerformKeeps(s, rounds);
  }

  lemma {:induction false} ReadQuiet(s: State, t: Target, count: nat, signedChar: bool, sc: Script)
    requires Quiet(s) && !s.busy
    ensures Quiet(Read(s, t, count, signedChar, sc).0)
  {
    ReadEntryKeeps(s, count, sc);
    PerformQuiet(ReadEntry(s, count, sc).0, sc.rounds);
  }

  lemma {:induction false} WriteQuiet(s: State, data: seq<Byte>, sc: Script)
    requires Quiet(s) && !s.busy
    ensures Quiet(Write(s, data, sc).0)
  {
    WriteEntryKeeps(s, data, sc);
    PerformQuiet(WriteEntry(s, data, sc).0, sc.rounds);
  }

  lemma {:induction false} CloseQuiet(s: State, sc: Script)
    requires Quiet(s) && !s.busy
    ensures Quiet(CloseOutput(s, sc).0)
  {
    CloseEntryKeeps(s, sc);
    CloseFromQuiet(CloseEntry(s, sc).0, CloseEntry(s, sc).1, sc);
  }

  lemma {:induction false} CloseFromQuiet(s: State, failed: bool, sc: Script)
    requires Inv(s) && s.busy
    ensures Quiet(CloseFrom(s, failed, sc).0)
  {
    PerformQuiet(s, sc.rounds);
  }

  lemma {:induction false} ConfigureQuiet(s: State, o: Options, sc: Script)
    requires Quiet(s) && !s.attached
    ensures Quiet(Configure(s, o, sc).0)
  {
    if !s.busy {
      var s1 := ConfigureEntry(s, o);
      EventsKeep(s1, sc.resume);
      PerformQuiet(s1, []);
      ConfigureFromQuiet(RunEvents(s1, sc.resume), sc);
    }
  }

  lemma {:induction false} ConfigureFromQuiet(s: State, sc: Script)
    requires Inv(s) && s.busy
    ensures Quiet(ConfigureFrom(s, sc).0)
  {
    PerformQuiet(s, sc.rounds);
  }

  lemma {:induction false} ApplyQuiet(s: State, step: Step, signedChar: bool)
    requires Quiet(s) && Permitted(s, step.call)
    ensures Quiet(Apply(s, step, signedChar).0)
  {
    if !s.busy {
      match step.call
      case CRead(t, count) => ReadQuiet(s, t, count, signedChar, step.script);
      case CWrite(data) => WriteQuiet(s, data, step.script);
      case CClose => CloseQuiet(s, step.script);
      case CConfigure(o) => ConfigureQuiet(s, o, step.script);
      case CReset =>
    }
  }

  lemma {:induction false} RunQuiet(s: State, steps: seq<Step>, signedChar: bool)
    requires Quiet(s) && Disciplined(s, steps, signedChar)
    ensures Quiet(Run(s, steps, signedChar))
    decreases |steps|
  {
    if steps != [] {
      ApplyQuiet(s, steps[0], signedChar);
      RunQuiet(Apply(s, steps[0], signedChar).0, steps[1..], signedChar);
    }
  }
}
