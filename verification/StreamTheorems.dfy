/** What callers may rely on, for every run of the protocol and every behaviour of libcurl. */
module StreamTheorems {
  import opened Protocol
  import opened ProtocolProofs

  // ---------------------------------------------------------------- download

  /** Neither interrupted nor in error. */
  predicate Clean(r: Result) { r.Returned? && !r.interrupted && !r.threw }

  /**
    A disciplined run: the delivered bytes are the accepted bytes of the body and the copied part of the held chunk.
  */
  lemma {:induction false} DeliveredIsPrefix(steps: seq<Step>, signedChar: bool)
    requires Disciplined(CREATED, steps, signedChar)
    ensures DeliveredExactly(Run(CREATED, steps, signedChar))
  {
    RunQuiet(CREATED, steps, signedChar);
    QuietIsExact(Run(CREATED, steps, signedChar));
  }

  predicate DeliveredExactly(s: State)
  {
    s.down.sink == Deliver ==>
      && s.down.consumed + s.recv.overflow <= |s.down.body|
      && s.recv.delivered == s.down.body[..s.down.consumed + s.recv.overflow]
  }

  lemma {:induction false} QuietIsExact(s: State)
    requires Quiet(s)
    ensures DeliveredExactly(s)
  {
  }

  /** A call stores at most `count` bytes, appended to what was delivered before; only reads store anything. */
  lemma {:induction false} StoredBySteps(s: State, step: Step, signedChar: bool)
    requires Quiet(s) && !step.call.CConfigure? && !step.call.CReset?
    ensures var s' := Apply(s, step, signedChar).0;
      && s'.recv.delivered == s.recv.delivered + Stored(s, s')
      && |Stored(s, s')| <= (if step.call.CRead? then step.call.count else 0)
      && s'.down.body == s.down.body && s'.down.sink == s.down.sink
  {
    if !s.busy {
      match step.call
      case CRead(t, count) => ReadStores(s, t, count, signedChar, step.script);
      case CWrite(data) => WriteStores(s, data, step.script);
      case CClose => CloseStores(s, step.script);
    }
  }

  /** The state a read leaves behind, seen from the state in which it began. */
  predicate ReadDone(s: State, count: nat, s': State)
  {
    && s.recv.delivered <= s'.recv.delivered
    && s'.recv.room + |s'.recv.delivered| == count + |s.recv.delivered|
    && s'.down.body == s.down.body && s'.down.sink == s.down.sink
  }

  lemma {:induction false} ReadStores(s: State, t: Target, count: nat, signedChar: bool, sc: Script)
    requires Quiet(s) && !s.busy
    ensures ReadDone(s, count, Read(s, t, count, signedChar, sc).0)
  {
    ReadEntryKeeps(s, count, sc);
    var (s1, failed) := ReadEntry(s, count, sc);
    ReadStoresFrom(s, s1, failed, t, count, signedChar, sc);
  }

  lemma {:induction false} ReadStoresFrom(s: State, s1: State, failed: bool, t: Target, count: nat, signedChar: bool,
                                          sc: Script)
    requires Reading(s, count, s1)
    ensures ReadDone(s, count, ReadFrom(s, s1, failed, t, count, signedChar, sc).0)
  {
    ReadingPerform(s, count, s1, sc.rounds);
  }

  /** The download side is left alone. */
  predicate SameDownload(s: State, s': State)
  {
    s'.recv.delivered == s.recv.delivered && s'.down.body == s.down.body && s'.down.sink == s.down.sink
  }

  lemma {:induction false} WriteStores(s: State, data: seq<Byte>, sc: Script)
    requires Quiet(s) && !s.busy
    ensures SameDownload(s, Write(s, data, sc).0)
  {
    WriteEntryKeeps(s, data, sc);
    var (s1, failed) := WriteEntry(s, data, sc);
    WriteStoresFrom(s, s1, failed, data, sc);
  }

  lemma {:induction false} WriteStoresFrom(s: State, s1: State, failed: bool, data: seq<Byte>, sc: Script)
    requires Writing(s, data, s1)
    ensures SameDownload(s, WriteFrom(s1, failed, |data|, sc).0)
  {
    WritingPerform(s, data, s1, sc.rounds);
  }

  lemma {:induction false} CloseStores(s: State, sc: Script)
    requires Quiet(s) && !s.busy
    ensures var s' := CloseOutput(s, sc).0; SameDownload(s, s') && s'.send.taken == s.send.taken
  {
    CloseEntryKeeps(s, sc);
    var (s1, failed) := CloseEntry(s, sc);
    CloseStoresFrom(s, s1, failed, sc);
  }

  lemma {:induction false} CloseStoresFrom(s: State, s1: State, failed: bool, sc: Script)
    requires Closing(s, s1) && s1.send.pending == []
    ensures var s' := CloseFrom(s1, failed, sc).0; SameDownload(s, s') && s'.send.taken == s.send.taken
  {
    ClosingPerform(s, s1, sc.rounds);
  }

  /** All bytes stored into callers' arrays over a run, in call order. */
  function Received(s: State, steps: seq<Step>, signedChar: bool): seq<Byte>
    decreases |steps|
  {
    if steps == [] then [] else
      var s1 := Apply(s, steps[0], signedChar).0;
      Stored(s, s1) + Received(s1, steps[1..], signedChar)
  }

  predicate WithinTransfer(steps: seq<Step>)
  {
    forall i :: 0 <= i < |steps| ==> !steps[i].call.CConfigure? && !steps[i].call.CReset?
  }

  lemma Assoc(a: seq<Byte>, b: seq<Byte>, c: seq<Byte>)
    ensures a + b + c == a + (b + c)
  {
  }

  lemma {:induction false} ReceivedIsDelivered(s: State, steps: seq<Step>, signedChar: bool)
    requires Quiet(s) && Disciplined(s, steps, signedChar) && WithinTransfer(steps)
    ensures var s' := Run(s, steps, signedChar);
      s'.recv.delivered == s.recv.delivered + Received(s, steps, signedChar) && s'.down.body == s.down.body &&
        s'.down.sink == s.down.sink
    decreases |steps|
  {
    if steps != [] {
      var s1 := Apply(s, steps[0], signedChar).0;
      StoredBySteps(s, steps[0], signedChar);
      ApplyQuiet(s, steps[0], signedChar);
      ReceivedIsDelivered(s1, steps[1..], signedChar);
      Assoc(s.recv.delivered, Stored(s, s1), Received(s1, steps[1..], signedChar));
    }
  }

  /**
    The stream theorem.  After configuring a fresh handle for input, whatever reads, writes and closes follow and
    however libcurl cuts and re-offers the data, what callers received is a prefix of the body.
  */
  lemma {:induction false} StreamTheorem(s: State, o: Options, sc: Script, steps: seq<Step>, signedChar: bool)
    requires Quiet(s) && !s.busy && !s.attached && o.doInput
    requires var s1 := Configure(s, o, sc).0; Disciplined(s1, steps, signedChar)
    requires WithinTransfer(steps)
    ensures var s1 := Configure(s, o, sc).0;
      && s1.recv.delivered == []
      && Received(s1, steps, signedChar) <= o.body
      && var s2 := Run(s1, steps, signedChar);
         |Received(s1, steps, signedChar)| == s2.down.consumed + s2.recv.overflow
  {
    var s1 := Configure(s, o, sc).0;
    ConfigureQuiet(s, o, sc);
    ConfigureStarts(s, o, sc);
    ReceivedIsDelivered(s1, steps, signedChar);
    RunQuiet(s1, steps, signedChar);
  }

  lemma {:induction false} ConfigureStarts(s: State, o: Options, sc: Script)
    requires Quiet(s) && !s.busy && !s.attached
    ensures var s1 := Configure(s, o, sc).0;
      s1.recv.delivered == [] && s1.send.taken == [] && s1.down.body == o.body && s1.down.sink == SinkOf(o) &&
        s1.attached
  {
    var s1 := ConfigureEntry(s, o);
    EventsKeep(s1, sc.resume);
    var s2 := RunEvents(s1, sc.resume);
    SilentDirections(s1, s2);
    PerformKeeps(s2, sc.rounds);
    SilentDirections(s2, Perform(s2, sc.rounds).0);
  }

  // ---------------------------------------------------------------- end of stream

  /** An in-memory stream over `body`: at `pos`, asked for `count` bytes, it yields this slice and this result. */
  function MemBytes(body: seq<Byte>, pos: nat, count: nat): seq<Byte>
    requires pos <= |body|
  {
    body[pos..pos + Min(count, |body| - pos)]
  }

  function MemValue(body: seq<Byte>, pos: nat, count: nat): int
    requires pos <= |body|
  {
    if count > 0 && pos == |body| then -1 else Min(count, |body| - pos)
  }

  /** The position of the stream of a state. */
  predicate At(s: State, pos: nat)
  {
    pos <= |s.down.body| && s.recv.delivered == s.down.body[..pos]
  }

  /** State `s'` and result `r` are those of an in-memory read at `pos`. */
  predicate MemoryRead(s: State, t: Target, count: nat, signedChar: bool, pos: nat, s': State, r: Result)
    requires pos <= |s.down.body|
  {
    && Stored(s, s') == MemBytes(s.down.body, pos, count)
    && At(s', pos + Min(count, |s.down.body| - pos))
    && r.Returned?
    && r.value == (if MemValue(s.down.body, pos, count) == -1 then -1
                   else ReadValue(t, count, MemBytes(s.down.body, pos, count), signedChar))
  }

  /**
    A clean read, unless a failure of the transfer was reported before, stores exactly what the in-memory stream would
    yield, and returns the same result (for a count other than 1): the full count, or less, or -1, only at the end.
  */
  lemma {:induction false} CleanReadIsMemoryRead(s: State, t: Target, count: nat, signedChar: bool, sc: Script,
                                                 pos: nat)
    requires Quiet(s) && s.down.sink == Deliver && At(s, pos) && !OldFailure(s)
    requires Clean(Read(s, t, count, signedChar, sc).1)
    ensures var (s', r) := Read(s, t, count, signedChar, sc);
      && MemoryRead(s, t, count, signedChar, pos, s', r) && !s'.life.failed
      && (count != 1 ==> r.value == MemValue(s.down.body, pos, count))
  {
    ReadEntryKeeps(s, count, sc);
    ReadEntryReportsNothing(s, count, sc);
    var (s1, failed) := ReadEntry(s, count, sc);
    CleanReadFrom(s, s1, failed, t, count, signedChar, sc, pos);
  }

  lemma {:induction false} ReadEntryReportsNothing(s: State, count: nat, sc: Script)
    requires Quiet(s) && !s.busy && !OldFailure(s)
    ensures !OldFailure(ReadEntry(s, count, sc).0)
  {
    var s1 := ReadStart(s, count);
    if s.recv.paused {
      EventsReportNothing(Resumed(s1), sc.resume);
    }
  }

  lemma {:induction false} CleanReadFrom(s: State, s1: State, failed: bool, t: Target, count: nat, signedChar: bool,
                                         sc: Script, pos: nat)
    requires Reading(s, count, s1) && s.down.sink == Deliver && At(s, pos) && !OldFailure(s1)
    requires Clean(ReadFrom(s, s1, failed, t, count, signedChar, sc).1)
    ensures var (s', r) := ReadFrom(s, s1, failed, t, count, signedChar, sc);
      && MemoryRead(s, t, count, signedChar, pos, s', r) && !s'.life.failed
      && (count != 1 ==> r.value == MemValue(s.down.body, pos, count))
  {
    ReadingPerform(s, count, s1, sc.rounds);
    PerformHidesNothing(s1, sc.rounds);
    var (s2, out) := Perform(s1, sc.rounds);
    ReadOutcome(s, s1, failed, t, count, signedChar, sc, s2, out);
    ReadEndsAt(s, t, count, signedChar, s2, pos, ReadFrom(s, s1, failed, t, count, signedChar, sc).1);
  }

  /** How a clean read ended: with no room left, or with the transfer over. */
  lemma {:induction false} ReadOutcome(s: State, s1: State, failed: bool, t: Target, count: nat, signedChar: bool,
                                       sc: Script,
                                       s2: State, out: Outcome)
    requires Reading(s, count, s2) && Settled(s2, out) && (s2, out) == Perform(s1, sc.rounds)
    requires out == Stopped(false) || out == Ended(false) ==> !s2.life.failed
    requires Clean(ReadFrom(s, s1, failed, t, count, signedChar, sc).1)
    ensures var (s', r) := ReadFrom(s, s1, failed, t, count, signedChar, sc);
      && s' == Leave(s2) && !s2.life.failed
      && (s2.recv.room == 0 || s2.life.done)
      && r.value == (if count > 0 && s2.recv.room == count then -1 else ReadValue(t, count, Stored(s, s2), signedChar))
  {
    if out == Stopped(false) {
      assert s2.recv.paused;
    }
  }

  lemma {:induction false} ReadEndsAt(s: State, t: Target, count: nat, signedChar: bool, s2: State, pos: nat, r: Result)
    requires Reading(s, count, s2) && s.down.sink == Deliver && At(s, pos)
    requires s2.recv.room == 0 || (s2.life.done && !s2.life.failed)
    requires r.Returned? && r.value == (if count > 0 && s2.recv.room == count then -1
      else ReadValue(t, count, Stored(s, s2), signedChar))
    ensures MemoryRead(s, t, count, signedChar, pos, Leave(s2), r)
    ensures count != 1 ==> r.value == MemValue(s.down.body, pos, count)
  {
    var body, end := s.down.body, pos + Min(count, |s.down.body| - pos);
    assert |s2.recv.delivered| == end;
    assert s2.recv.delivered == body[..end];
    assert body[..end][pos..] == body[pos..end];
  }

  /** A run of reads, all clean. */
  predicate CleanReads(s: State, steps: seq<Step>, signedChar: bool)
    decreases |steps|
  {
    steps == [] ||
    (var (s', r) := Apply(s, steps[0], signedChar);
     steps[0].call.CRead? && Permitted(s, steps[0].call) && Clean(r) && CleanReads(s', steps[1..], signedChar))
  }

  /** Where the in-memory stream is after the same reads. */
  function MemRun(body: seq<Byte>, pos: nat, steps: seq<Step>): (end: nat)
    requires pos <= |body|
    ensures pos <= end <= |body|
    decreases |steps|
  {
    if steps == [] then pos
    else
      var count := if steps[0].call.CRead? then steps[0].call.count else 0;
      MemRun(body, pos + Min(count, |body| - pos), steps[1..])
  }

  /** The situation of a download that has delivered `pos` bytes and whose failure, if any, nobody was told of. */
  predicate Healthy(s: State, body: seq<Byte>, pos: nat)
  {
    Quiet(s) && s.down.sink == Deliver && s.down.body == body && At(s, pos) && !OldFailure(s)
  }

  /** Whatever libcurl does, a run of clean reads is a run of the in-memory stream. */
  lemma {:induction false} CleanReadsRefineMemory(s: State, steps: seq<Step>, signedChar: bool, body: seq<Byte>,
                                                  pos: nat)
    requires Healthy(s, body, pos) && CleanReads(s, steps, signedChar)
    ensures Healthy(Run(s, steps, signedChar), body, MemRun(body, pos, steps))
    decreases |steps|
  {
    if steps != [] {
      var s1, pos1 := Apply(s, steps[0], signedChar).0, pos + Min(steps[0].call.count, |body| - pos);
      CleanReadStep(s, steps[0], signedChar, body, pos);
      CleanReadsRefineMemory(s1, steps[1..], signedChar, body, pos1);
      assert MemRun(body, pos, steps) == MemRun(body, pos1, steps[1..]);
      assert Run(s, steps, signedChar) == Run(s1, steps[1..], signedChar);
    }
  }

  lemma {:induction false} CleanReadStep(s: State, step: Step, signedChar: bool, body: seq<Byte>, pos: nat)
    requires Healthy(s, body, pos) && step.call.CRead? && Permitted(s, step.call) && Clean(Apply(s, step, signedChar).1)
    ensures Healthy(Apply(s, step, signedChar).0, body, pos + Min(step.call.count, |body| - pos))
    ensures step.call.count != 1 ==> Apply(s, step, signedChar).1.value == MemValue(body, pos, step.call.count)
  {
    CleanReadIsMemoryRead(s, step.call.target, step.call.count, signedChar, step.script, pos);
    ReadStores(s, step.call.target, step.call.count, signedChar, step.script);
    ApplyQuiet(s, step, signedChar);
  }

  /**
    Reads of one byte return something else: `InputStream.read()` returns the C `char`, so where that is signed a
    byte of 0xFF in the middle of the body looks like its end, and only such a byte does.
  */
  lemma {:induction false} SingleByteRead(s: State, signedChar: bool, sc: Script, body: seq<Byte>, pos: nat)
    requires Healthy(s, body, pos) && Clean(Read(s, SingleByte, 1, signedChar, sc).1)
    ensures var r := Read(s, SingleByte, 1, signedChar, sc).1;
      && (pos == |body| ==> r.value == -1)
      && (pos < |body| ==> r.value == CharValue(body[pos], signedChar))
      && (r.value == -1 <==> pos == |body| || (signedChar && body[pos] == 0xFF))
      && (0 <= r.value < 256 <==> pos < |body| && !(signedChar && body[pos] >= 0x80))
  {
    CleanReadIsMemoryRead(s, SingleByte, 1, signedChar, sc, pos);
    if pos < |body| { OneByte(body, pos); }
  }

  lemma OneByte(body: seq<Byte>, pos: nat)
    requires pos < |body|
    ensures MemBytes(body, pos, 1) == [body[pos]]
  {
    assert Min(1, |body| - pos) == 1;
  }

  /** A one-byte array read returns the advanced offset: the number of bytes read only when it started at offset 0. */
  lemma {:induction false} OneByteArrayRead(s: State, off: nat, signedChar: bool, sc: Script, body: seq<Byte>, pos: nat)
    requires Healthy(s, body, pos) && Clean(Read(s, IntoArray(off), 1, signedChar, sc).1)
    ensures var r := Read(s, IntoArray(off), 1, signedChar, sc).1;
      && r.value == (if pos == |body| then -1 else off + 1)
      && (r.value == MemValue(body, pos, 1) <==> pos == |body| || off == 0)
  {
    CleanReadIsMemoryRead(s, IntoArray(off), 1, signedChar, sc, pos);
    if pos < |body| { OneByte(body, pos); }
  }

  // ---------------------------------------------------------------- upload

  /** What libcurl took during a write is the first bytes of its data, as many as the result says. */
  predicate HandedOver(s: State, data: seq<Byte>, s': State, r: Result)
  {
    match r
    case Returned(value, interrupted, threw) =>
      if GoalReached(s.send) then value == -1 && s'.send == s.send
      else 0 <= value <= |data| && s'.send.taken == s.send.taken + data[..value]
    case _ => s.send.taken <= s'.send.taken
  }

  lemma {:induction false} WriteHandsOver(s: State, data: seq<Byte>, sc: Script)
    requires Quiet(s)
    ensures var (s', r) := Write(s, data, sc); HandedOver(s, data, s', r)
  {
    if !s.busy && !GoalReached(s.send) {
      WriteEntryKeeps(s, data, sc);
      var (s1, failed) := WriteEntry(s, data, sc);
      WriteFromHandsOver(s, s1, failed, data, sc);
    }
  }

  lemma {:induction false} WriteFromHandsOver(s: State, s1: State, failed: bool, data: seq<Byte>, sc: Script)
    requires Writing(s, data, s1) && !GoalReached(s.send)
    ensures var (s', r) := WriteFrom(s1, failed, |data|, sc); HandedOver(s, data, s', r)
  {
    WritingPerform(s, data, s1, sc.rounds);
    TakenSplit(s, data, s1);
    TakenSplit(s, data, Perform(s1, sc.rounds).0);
  }

  lemma {:induction false} TakenSplit(s: State, data: seq<Byte>, s': State)
    requires Writing(s, data, s')
    ensures |s'.send.pending| <= |data|
    ensures s'.send.taken == s.send.taken + data[..|data| - |s'.send.pending|]
  {
    var all := s.send.taken + data;
    assert s'.send.taken == all[..|s'.send.taken|];
  }

  /**
    A clean write before the output is closed hands over everything, unless the goal or the end of the transfer came
    first.
  */
  lemma {:induction false} CleanWriteIsComplete(s: State, data: seq<Byte>, sc: Script)
    requires Quiet(s) && !s.send.closed && Clean(Write(s, data, sc).1)
    ensures var (s', r) := Write(s, data, sc);
      r.value == |data| || GoalReached(s'.send) || s'.life.done
  {
    WriteEntryKeeps(s, data, sc);
    var (s1, failed) := WriteEntry(s, data, sc);
    CleanWriteFrom(s, s1, failed, data, sc);
  }

  lemma {:induction false} CleanWriteFrom(s: State, s1: State, failed: bool, data: seq<Byte>, sc: Script)
    requires Writing(s, data, s1) && !s.send.closed && Clean(WriteFrom(s1, failed, |data|, sc).1)
    ensures var (s', r) := WriteFrom(s1, failed, |data|, sc);
      r.value == |data| || GoalReached(s'.send) || s'.life.done
  {
    WritingPerform(s, data, s1, sc.rounds);
  }

  /** The part of a write that its result claims. */
  function ClaimedNow(s: State, step: Step, signedChar: bool): seq<Byte>
  {
    var r := Apply(s, step, signedChar).1;
    if step.call.CWrite? && r.Returned? && 0 <= r.value <= |step.call.data| then step.call.data[..r.value] else []
  }

  function Claimed(s: State, steps: seq<Step>, signedChar: bool): seq<Byte>
    decreases |steps|
  {
    if steps == [] then []
    else ClaimedNow(s, steps[0], signedChar) + Claimed(Apply(s, steps[0], signedChar).0, steps[1..], signedChar)
  }

  /** No call of the run is still inside the perform loop. */
  predicate AllReturned(s: State, steps: seq<Step>, signedChar: bool)
    decreases |steps|
  {
    steps == [] ||
    (var (s1, r) := Apply(s, steps[0], signedChar); !r.InFlight? && AllReturned(s1, steps[1..], signedChar))
  }

  /** The upload theorem: libcurl took exactly the claimed bytes, in order, and counted them against the goal. */
  lemma {:induction false} UploadTheorem(s: State, steps: seq<Step>, signedChar: bool)
    requires Quiet(s) && Disciplined(s, steps, signedChar) && WithinTransfer(steps) && AllReturned(s, steps, signedChar)
    ensures var s' := Run(s, steps, signedChar);
      && s'.send.taken == s.send.taken + Claimed(s, steps, signedChar)
      && (s'.attached && s'.send.goal != 0 ==> s'.send.uploaded == |s'.send.taken|)
    decreases |steps|
  {
    if steps != [] {
      var (s1, r) := Apply(s, steps[0], signedChar);
      ApplyQuiet(s, steps[0], signedChar);
      ClaimedByStep(s, steps[0], signedChar);
      UploadTheorem(s1, steps[1..], signedChar);
      Assoc(s.send.taken, ClaimedNow(s, steps[0], signedChar), Claimed(s1, steps[1..], signedChar));
    }
  }

  lemma {:induction false} ClaimedByStep(s: State, step: Step, signedChar: bool)
    requires Quiet(s) && !step.call.CConfigure? && !step.call.CReset? && !Apply(s, step, signedChar).1.InFlight?
    ensures Apply(s, step, signedChar).0.send.taken == s.send.taken + ClaimedNow(s, step, signedChar)
  {
    if !s.busy {
      match step.call
      case CRead(t, count) => ReadTakesNothing(s, t, count, signedChar, step.script);
      case CWrite(data) => WriteHandsOver(s, data, step.script);
      case CClose => CloseStores(s, step.script);
    }
  }

  lemma {:induction false} ReadTakesNothing(s: State, t: Target, count: nat, signedChar: bool, sc: Script)
    requires Quiet(s) && !s.busy
    ensures Read(s, t, count, signedChar, sc).0.send.taken == s.send.taken
  {
    ReadEntryKeeps(s, count, sc);
    var (s1, failed) := ReadEntry(s, count, sc);
    ReadFromTakesNothing(s, s1, failed, t, count, signedChar, sc);
  }

  lemma {:induction false} ReadFromTakesNothing(s: State, s1: State, failed: bool, t: Target, count: nat,
                                                signedChar: bool, sc: Script)
    requires Reading(s, count, s1)
    ensures ReadFrom(s, s1, failed, t, count, signedChar, sc).0.send.taken == s.send.taken
  {
    ReadingPerform(s, count, s1, sc.rounds);
  }

  // ---------------------------------------------------------------- pauses and the lock

  /**
    A direction libcurl holds is flagged, the two needs are never both set and are clear between calls.  So resuming
    by flag is enough: once a read or a write has resumed, its own direction is running.
  */
  ghost predicate PausesFlagged(s: State)
  {
    && (s.down.held ==> s.recv.paused) && (s.up.held ==> s.send.paused)
    && !(s.needInput && s.needOutput) && (!s.busy ==> !s.needInput && !s.needOutput)
    && (forall count: nat, sc: Script | sc.resume == [] :: !ReadEntry(s, count, sc).0.down.held)
    && (forall data: seq<Byte>, sc: Script | sc.resume == [] :: !WriteEntry(s, data, sc).0.up.held)
  }

  lemma {:induction false} QuietIsFlagged(s: State)
    requires Quiet(s)
    ensures PausesFlagged(s)
  {
  }

  /** The pause discipline, over all runs of configure, read, write, closeOutput and reset. */
  lemma {:induction false} PauseDiscipline(steps: seq<Step>, signedChar: bool)
    requires Disciplined(CREATED, steps, signedChar)
    ensures PausesFlagged(Run(CREATED, steps, signedChar))
  {
    RunQuiet(CREATED, steps, signedChar);
    QuietIsFlagged(Run(CREATED, steps, signedChar));
  }

  /** Exactly two things leave the lock held: a call that has not returned, and a write refused at the goal. */
  lemma {:induction false} LockHeldExactly(s: State, step: Step, signedChar: bool)
    requires Quiet(s) && !s.busy && Permitted(s, step.call)
    ensures var (s', r) := Apply(s, step, signedChar);
      s'.busy <==> r.InFlight? || (step.call.CWrite? && GoalReached(s.send))
  {
    match step.call
    case CRead(t, count) => ReadLock(s, t, count, signedChar, step.script);
    case CWrite(data) => if !GoalReached(s.send) { WriteLock(s, data, step.script); }
    case CClose => CloseLock(s, step.script);
    case CConfigure(o) => ConfigureLock(s, o, step.script);
    case CReset =>
  }

  lemma {:induction false} ReadLock(s: State, t: Target, count: nat, signedChar: bool, sc: Script)
    requires Quiet(s) && !s.busy
    ensures var (s', r) := Read(s, t, count, signedChar, sc); s'.busy <==> r.InFlight?
  {
    ReadEntryKeeps(s, count, sc);
    PerformKeeps(ReadEntry(s, count, sc).0, sc.rounds);
  }

  lemma {:induction false} WriteLock(s: State, data: seq<Byte>, sc: Script)
    requires Quiet(s) && !s.busy && !GoalReached(s.send)
    ensures var (s', r) := Write(s, data, sc); s'.busy <==> r.InFlight?
  {
    WriteEntryKeeps(s, data, sc);
    WriteFromLock(WriteEntry(s, data, sc).0, WriteEntry(s, data, sc).1, |data|, sc);
  }

  lemma {:induction false} WriteFromLock(s1: State, failed: bool, count: nat, sc: Script)
    requires Inv(s1) && s1.busy
    ensures var (s', r) := WriteFrom(s1, failed, count, sc); s'.busy <==> r.InFlight?
  {
    PerformKeeps(s1, sc.rounds);
  }

  lemma {:induction false} CloseLock(s: State, sc: Script)
    requires Quiet(s) && !s.busy
    ensures var (s', r) := CloseOutput(s, sc); s'.busy <==> r.InFlight?
  {
    CloseEntryKeeps(s, sc);
    CloseFromLock(CloseEntry(s, sc).0, CloseEntry(s, sc).1, sc);
  }

  lemma {:induction false} CloseFromLock(s1: State, failed: bool, sc: Script)
    requires Inv(s1) && s1.busy
    ensures var (s', r) := CloseFrom(s1, failed, sc); s'.busy <==> r.InFlight?
  {
    PerformKeeps(s1, sc.rounds);
  }

  lemma {:induction false} ConfigureLock(s: State, o: Options, sc: Script)
    requires Quiet(s) && !s.busy && !s.attached
    ensures var (s', r) := Configure(s, o, sc); s'.busy <==> r.InFlight?
  {
    var s1 := ConfigureEntry(s, o);
    EventsKeep(s1, sc.resume);
    PerformKeeps(RunEvents(s1, sc.resume), sc.rounds);
  }

  /** While the lock is held every call is refused and nothing changes: after a write past the goal, for good. */
  lemma {:induction false} LockedForGood(s: State, steps: seq<Step>, signedChar: bool)
    requires s.busy
    ensures Run(s, steps, signedChar) == s
    ensures forall i :: 0 <= i < |steps| ==> Apply(Run(s, steps[..i], signedChar), steps[i], signedChar).1 == Refused
    decreases |steps|
  {
    if steps != [] {
      LockedForGood(s, steps[1..], signedChar);
    }
    forall i | 0 <= i < |steps| ensures Apply(Run(s, steps[..i], signedChar), steps[i], signedChar).1 == Refused {
      if i > 0 { LockedForGood(s, steps[..i], signedChar); }
    }
  }
}
