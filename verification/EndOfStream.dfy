/**
  When the end of a stream is the end of its body, and when a write is complete: exact conditions, and what fails
  outside them.
*/
module EndOfStream {
  import opened Protocol
  import opened ProtocolProofs
  import opened StreamTheorems

  // ---------------------------------------------------------------- failures that were reported

  /** The call threw nothing. */
  predicate Quietly(r: Result) { r.Returned? ==> !r.threw }

  lemma {:induction false} ReadReportsNothing(s: State, t: Target, count: nat, signedChar: bool, sc: Script)
    requires Quiet(s) && !s.busy && !OldFailure(s) && Quietly(Read(s, t, count, signedChar, sc).1)
    ensures !OldFailure(Read(s, t, count, signedChar, sc).0)
  {
    ReadEntryKeeps(s, count, sc);
    ReadEntryReportsNothing(s, count, sc);
    PerformHidesNothing(ReadEntry(s, count, sc).0, sc.rounds);
  }

  lemma {:induction false} WriteReportsNothing(s: State, data: seq<Byte>, sc: Script)
    requires Quiet(s) && !s.busy && !OldFailure(s) && Quietly(Write(s, data, sc).1)
    ensures !OldFailure(Write(s, data, sc).0)
  {
    WriteEntryKeeps(s, data, sc);
    var s1 := WriteStart(s, data);
    if s.send.paused {
      EventsReportNothing(Resumed(s1), sc.resume);
    }
    PerformHidesNothing(WriteEntry(s, data, sc).0, sc.rounds);
  }

  lemma {:induction false} CloseReportsNothing(s: State, sc: Script)
    requires Quiet(s) && !s.busy && !OldFailure(s) && Quietly(CloseOutput(s, sc).1)
    ensures !OldFailure(CloseOutput(s, sc).0)
  {
    CloseEntryKeeps(s, sc);
    var s1 := CloseStart(s);
    if s.send.paused {
      EventsReportNothing(Resumed(s1), sc.resume);
    }
    CloseFromReportsNothing(CloseEntry(s, sc).0, CloseEntry(s, sc).1, sc);
  }

  lemma {:induction false} CloseFromReportsNothing(s1: State, failed: bool, sc: Script)
    requires Inv(s1) && !OldFailure(s1) && Quietly(CloseFrom(s1, failed, sc).1)
    ensures !OldFailure(CloseFrom(s1, failed, sc).0)
  {
    PerformHidesNothing(s1, sc.rounds);
  }

  lemma {:induction false} ConfigureReportsNothing(s: State, o: Options, sc: Script)
    requires Quiet(s) && !s.busy && !s.attached && Quietly(Configure(s, o, sc).1)
    ensures !OldFailure(Configure(s, o, sc).0)
  {
    var s1 := ConfigureEntry(s, o);
    EventsKeep(s1, sc.resume);
    EventsReportNothing(s1, sc.resume);
    PerformHidesNothing(RunEvents(s1, sc.resume), sc.rounds);
  }

  /** A failure is reported by an exception only: a call that throws nothing leaves none behind. */
  lemma {:induction false} QuietCallReportsNothing(s: State, step: Step, signedChar: bool)
    requires Quiet(s) && !OldFailure(s) && Permitted(s, step.call) && Quietly(Apply(s, step, signedChar).1)
    ensures !OldFailure(Apply(s, step, signedChar).0)
  {
    if !s.busy {
      match step.call
      case CRead(t, count) => ReadReportsNothing(s, t, count, signedChar, step.script);
      case CWrite(data) => WriteReportsNothing(s, data, step.script);
      case CClose => CloseReportsNothing(s, step.script);
      case CConfigure(o) => ConfigureReportsNothing(s, o, step.script);
      case CReset =>
    }
  }

  // ---------------------------------------------------------------- whole transfers

  /** No call of the run threw; interruptions are allowed. */
  predicate NoneThrew(s: State, steps: seq<Step>, signedChar: bool)
    decreases |steps|
  {
    steps == [] ||
    (var (s1, r) := Apply(s, steps[0], signedChar); Quietly(r) && NoneThrew(s1, steps[1..], signedChar))
  }

  lemma {:induction false} RunReportsNothing(s: State, steps: seq<Step>, signedChar: bool)
    requires Quiet(s) && !OldFailure(s) && Disciplined(s, steps, signedChar) && NoneThrew(s, steps, signedChar)
    ensures !OldFailure(Run(s, steps, signedChar))
    decreases |steps|
  {
    if steps != [] {
      QuietCallReportsNothing(s, steps[0], signedChar);
      ApplyQuiet(s, steps[0], signedChar);
      RunReportsNothing(Apply(s, steps[0], signedChar).0, steps[1..], signedChar);
    }
  }

  /** A transfer for input on a fresh handle, and the calls that follow. */
  predicate Transfers(s: State, o: Options, sc: Script, steps: seq<Step>, signedChar: bool)
  {
    && Quiet(s) && !s.busy && !s.attached && o.doInput
    && var s1 := Configure(s, o, sc).0; Disciplined(s1, steps, signedChar) && WithinTransfer(steps)
  }

  /** After any reads, writes and closes of which none threw, the download is where the received bytes say. */
  lemma {:induction false} HealthyAfterRun(s: State, o: Options, sc: Script, steps: seq<Step>, signedChar: bool)
    requires Transfers(s, o, sc, steps, signedChar)
    requires var (s1, r) := Configure(s, o, sc); Quietly(r) && NoneThrew(s1, steps, signedChar)
    ensures var s1 := Configure(s, o, sc).0;
      Healthy(Run(s1, steps, signedChar), o.body, |Received(s1, steps, signedChar)|)
  {
    var s1 := Configure(s, o, sc).0;
    ConfigureQuiet(s, o, sc);
    ConfigureReportsNothing(s, o, sc);
    ConfigureStarts(s, o, sc);
    RunReportsNothing(s1, steps, signedChar);
    StreamTheorem(s, o, sc, steps, signedChar);
    ReceivedIsDelivered(s1, steps, signedChar);
    RunQuiet(s1, steps, signedChar);
  }

  /** So a clean read anywhere in such a run is a read of the in-memory stream. */
  lemma {:induction false} ReadInRunIsMemoryRead(s: State, o: Options, sc: Script, steps: seq<Step>, signedChar: bool,
                                                 t: Target, count: nat, script: Script)
    requires Transfers(s, o, sc, steps, signedChar)
    requires var (s1, r) := Configure(s, o, sc); Quietly(r) && NoneThrew(s1, steps, signedChar)
    requires Clean(Read(Run(Configure(s, o, sc).0, steps, signedChar), t, count, signedChar, script).1)
    ensures var s1 := Configure(s, o, sc).0;
      var s2, pos := Run(s1, steps, signedChar), |Received(s1, steps, signedChar)|;
      var (s3, r) := Read(s2, t, count, signedChar, script);
      && pos <= |o.body| && Stored(s2, s3) == MemBytes(o.body, pos, count)
      && (count != 1 ==> r.value == MemValue(o.body, pos, count))
  {
    var s1 := Configure(s, o, sc).0;
    HealthyAfterRun(s, o, sc, steps, signedChar);
    CleanReadIsMemoryRead(Run(s1, steps, signedChar), t, count, signedChar, script, |Received(s1, steps, signedChar)|);
  }

  /**
    Reading until -1 yields the entire body: after a configure and any reads, writes and closes, interrupted ones
    included, none of which threw, a clean array read of more than one byte that returns -1 has nothing left to read.
  */
  lemma {:induction false} ReadingUntilEndYieldsBody(s: State, o: Options, sc: Script, steps: seq<Step>,
                                                     signedChar: bool,
                                                     off: nat, count: nat, last: Script)
    requires Transfers(s, o, sc, steps, signedChar) && count > 1
    requires var (s1, r) := Configure(s, o, sc); Quietly(r) && NoneThrew(s1, steps, signedChar)
    requires var r := Read(Run(Configure(s, o, sc).0, steps, signedChar), IntoArray(off), count, signedChar, last).1;
      Clean(r) && r.value == -1
    ensures Received(Configure(s, o, sc).0, steps, signedChar) == o.body
  {
    ReadInRunIsMemoryRead(s, o, sc, steps, signedChar, IntoArray(off), count, last);
    StreamTheorem(s, o, sc, steps, signedChar);
  }

  // ---------------------------------------------------------------- after a reported failure

  lemma {:induction false} OverStaysOver(s: State, es: seq<Event>)
    requires s.life.done
    ensures RunEvents(s, es) == s
    decreases |es|
  {
    if es != [] { OverStaysOver(s, es[1..]); }
  }

  /**
    Once a failure was reported, a clean read stores nothing and, asked for anything, returns -1, whatever is left of
    the body.
  */
  lemma {:induction false} ReadAfterFailure(s: State, t: Target, count: nat, signedChar: bool, sc: Script)
    requires Quiet(s) && !s.busy && OldFailure(s) && Clean(Read(s, t, count, signedChar, sc).1)
    ensures var (s', r) := Read(s, t, count, signedChar, sc);
      Stored(s, s') == [] && r.value == (if count > 0 then -1 else 0) && OldFailure(s')
  {
    var s1, failed := ReadEntry(s, count, sc).0, ReadEntry(s, count, sc).1;
    OverStaysOver(Resumed(ReadStart(s, count)), sc.resume);
    assert OldFailure(s1) && s1.recv == ReadStart(s, count).recv && s1.needInput && !s1.needOutput;
    if sc.rounds != [] {
      OverStaysOver(s1, sc.rounds[0].events);
    }
  }

  /**
    Exactly when a clean read of more than one byte is one of the in-memory stream: when no failure of the transfer was
    reported before, or nothing was left to read anyway.
  */
  lemma {:induction false} MemoryReadExactly(s: State, t: Target, count: nat, signedChar: bool, sc: Script, pos: nat)
    requires Quiet(s) && s.down.sink == Deliver && At(s, pos) && count > 1 && Clean(Read(s, t, count, signedChar, sc).1)
    ensures var (s', r) := Read(s, t, count, signedChar, sc);
      Stored(s, s') == MemBytes(s.down.body, pos, count) && r.value == MemValue(s.down.body, pos, count) <==>
      !OldFailure(s) || pos == |s.down.body|
  {
    if OldFailure(s) {
      ReadAfterFailure(s, t, count, signedChar, sc);
      assert pos < |s.down.body| ==> |MemBytes(s.down.body, pos, count)| > 0;
    } else {
      CleanReadIsMemoryRead(s, t, count, signedChar, sc, pos);
    }
  }

  // ---------------------------------------------------------------- complete writes

  /** The announced length has room for `n` more bytes, if one was announced. */
  predicate HasRoom(d: Send, n: nat) { d.goal == 0 || d.uploaded + n <= d.goal }

  /** A clean write within the announced length hands over everything, or the transfer is over. */
  lemma {:induction false} WriteWithinGoal(s: State, data: seq<Byte>, sc: Script)
    requires Quiet(s) && !s.send.closed && HasRoom(s.send, |data|) && Clean(Write(s, data, sc).1)
    ensures var (s', r) := Write(s, data, sc); r.value == |data| || s'.life.done
  {
    CleanWriteIsComplete(s, data, sc);
    WriteHandsOver(s, data, sc);
    WriteQuiet(s, data, sc);
    WriteKeepsGoal(s, data, sc);
  }

  lemma {:induction false} WriteKeepsGoal(s: State, data: seq<Byte>, sc: Script)
    requires Quiet(s) && !s.busy && !GoalReached(s.send)
    ensures var s' := Write(s, data, sc).0;
      s'.send.goal == s.send.goal && s'.attached == s.attached && (!s.attached ==> s'.life.done)
  {
    WriteEntryKeeps(s, data, sc);
    var (s1, failed) := WriteEntry(s, data, sc);
    WritingPerform(s, data, s1, sc.rounds);
  }

  /** A handle whose request body is being sent. */
  predicate Uploading(s: State)
  {
    Quiet(s) && !s.busy && s.attached && !s.send.closed && s.up.upload && !s.up.eof && !s.life.done
  }

  const CALM := Round(false, [], false, false, false, false)

  /** libcurl does nothing but ask once for at most `n` bytes. */
  function AskOnce(n: nat): Script { Script([], false, false, [CALM.(events := [Ask(n)])], false) }

  lemma OneEvent(s: State, e: Event)
    ensures RunEvents(s, [e]) == OnEvent(s, e)
  {
    assert [e][1..] == [];
  }

  lemma TwoEvents(s: State, e: Event, e': Event)
    ensures RunEvents(s, [e, e']) == OnEvent(OnEvent(s, e), e')
  {
    assert [e, e'][1..] == [e'];
    OneEvent(OnEvent(s, e), e');
  }

  lemma {:induction false} WritePastGoal(s: State, data: seq<Byte>)
    requires Uploading(s) && !GoalReached(s.send) && !HasRoom(s.send, |data|)
    ensures var (s', r) := Write(s, data, AskOnce(s.send.goal - s.send.uploaded));
      Clean(r) && r.value < |data| && !s'.life.done
  {
    var sc := AskOnce(s.send.goal - s.send.uploaded);
    var s1 := WriteEntry(s, data, sc).0;
    OneEvent(s1, Ask(s.send.goal - s.send.uploaded));
    assert s1.send == s.send.(paused := false, pending := data) && !s1.up.held && s1.needOutput;
    assert sc.rounds[1..] == [];
  }

  /**
    Exactly when a write is sure to be complete: when the bytes fit the announced length, or it was used up before, and
    then the write throws.  Past it there is always a way for libcurl to take less and for the write to return normally.
  */
  lemma {:induction false} WriteCompleteExactly(s: State, data: seq<Byte>)
    requires Uploading(s)
    ensures GoalReached(s.send) || HasRoom(s.send, |data|) <==>
      forall sc: Script :: var (s', r) := Write(s, data, sc); Clean(r) ==> r.value == |data| || s'.life.done
  {
    if GoalReached(s.send) || HasRoom(s.send, |data|) {
      forall sc: Script ensures var (s', r) := Write(s, data, sc); Clean(r) ==> r.value == |data| || s'.life.done {
        if Clean(Write(s, data, sc).1) { WriteWithinGoal(s, data, sc); }
      }
    } else {
      WritePastGoal(s, data);
      var sc := AskOnce(s.send.goal - s.send.uploaded);
      assert Clean(Write(s, data, sc).1);
    }
  }

  // ---------------------------------------------------------------- failing runs from a new handle

  /** A configure call in which libcurl receives the headers and no more. */
  const HEADERS := Script([HeaderEnd], false, false, [CALM], false)

  function Download(body: seq<Byte>): Options { Options(body, false, true, false, 0) }

  function Configured(o: Options): State { Leave(ConfigureEntry(CREATED, o).(heads := Heads(true, 0, false))) }

  lemma {:induction false} ConfigureWorks(o: Options)
    ensures Configure(CREATED, o, HEADERS) == (Configured(o), Returned(0, false, false))
  {
    OneEvent(ConfigureEntry(CREATED, o), HeaderEnd);
    assert RunEvents(ConfigureEntry(CREATED, o).(heads := Heads(true, 0, false)), []) ==
      ConfigureEntry(CREATED, o).(heads := Heads(true, 0, false));
  }

  /** A call in which libcurl does just this. */
  function Once(es: seq<Event>): Script { Script([], false, false, [CALM.(events := es)], false) }

  /**
    The transfer breaks off and the read throws; the next read says that the body, of which nothing was read, is over.
  */
  lemma {:induction false} EndAfterFailure(signedChar: bool)
    ensures var s1 := Configure(CREATED, Download([1, 2, 3]), HEADERS).0;
      var (s2, broken) := Read(s1, IntoArray(0), 2, signedChar, Once([Finish(false)]));
      var (s3, r) := Read(s2, IntoArray(0), 2, signedChar, Once([]));
      broken == Returned(-1, false, true) && r == Returned(-1, false, false) && s3.recv.delivered == []
  {
    var o := Download([1, 2, 3]);
    ConfigureWorks(o);
    OneEvent(ReadStart(Configured(o), 2), Finish(false));
  }

  /** Where `char` is signed, a single-byte read of a body of one byte 0xFF says that there is none. */
  lemma {:induction false} LostByte()
    ensures var s1 := Configure(CREATED, Download([0xFF]), HEADERS).0;
      var (s2, r) := Read(s1, SingleByte, 1, true, Once([Offer(1), Finish(true)]));
      s1.recv.delivered == [] && s2.recv.delivered == [0xFF] && r == Returned(-1, false, false)
  {
    var o := Download([0xFF]);
    ConfigureWorks(o);
    TwoEvents(ReadStart(Configured(o), 1), Offer(1), Finish(true));
  }

  /** A read of one byte into an array at offset 1 claims to have read two. */
  lemma {:induction false} OneByteTwice(signedChar: bool)
    ensures var s1 := Configure(CREATED, Download([7]), HEADERS).0;
      var (s2, r) := Read(s1, IntoArray(1), 1, signedChar, Once([Offer(1), Finish(true)]));
      Stored(s1, s2) == [7] && r == Returned(2, false, false)
  {
    var o := Download([7]);
    ConfigureWorks(o);
    TwoEvents(ReadStart(Configured(o), 1), Offer(1), Finish(true));
  }
}
