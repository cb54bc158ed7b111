/**
  The pause/resume byte-stream protocol between the Java streams and libcurl, as a state machine
  over values.

  libcurl is an adversary.  It owns the response body, knows how much of it was accepted,
  which directions it holds paused and whether the transfer is over.  What it does between two
  decisions of ours is an arbitrary sequence of `Event`s; an event that its documented contract rules
  out (offering data while receiving is paused, say) does nothing, so every script is a legal one.
  A paused chunk is offered again from the consumed position, cut in any way libcurl likes.
*/
module Protocol {

  type Byte = b: int | 0 <= b < 256

  /** The write function installed by configure: deliver to the caller, swallow, or break the transfer off. */
  datatype Sink = Deliver | Skip | Abort

  // libcurl's side, one record per direction and one for the life of the transfer.

  /** Downloading: the response body, how much of it was accepted, and whether libcurl holds it back. */
  datatype Down = Down(body: seq<Byte>, consumed: nat, held: bool, sink: Sink)

  /** Uploading: whether the request has a body at all, and whether the end-of-file callback is installed. */
  datatype Up = Up(upload: bool, eof: bool, held: bool)

  /**
    `failed` is a failure that is reported to the caller, which our own refusal of an unwanted body is not.
    `reported` says that the completion message was read from the multi handle.
  */
  datatype Life = Life(done: bool, failed: bool, reported: bool)

  // The control block.

  /** Receiving: `room` is countToRead, `overflow` is readOverflow, `delivered` logs the bytes stored for callers. */
  datatype Recv = Recv(paused: bool, room: nat, overflow: nat, delivered: seq<Byte>)

  /**
    Sending: `pending` is the part of the current write that libcurl has not taken and `taken` logs what it
    took; `closed` is DONE_SENDING.
  */
  datatype Send = Send(paused: bool, closed: bool, pending: seq<Byte>, uploaded: nat, goal: nat, taken: seq<Byte>)

  /** What the perform loop looks at of the received headers. */
  datatype Heads = Heads(ended: bool, pairs: nat, location: bool)

  /** Both logs restart at a reset. */
  datatype State = State(
    busy: bool, attached: bool, redirect: bool, needInput: bool, needOutput: bool,
    recv: Recv, send: Send, heads: Heads,
    down: Down, up: Up, life: Life)

  /** A new handle: with no transfer attached, libcurl has nothing running. */
  const CREATED := State(false, false, false, false, false,
                         Recv(false, 0, 0, []), Send(false, false, [], 0, 0, []), Heads(false, 0, false),
                         Down([], 0, false, Deliver), Up(false, false, false), Life(true, false, true))

  datatype Event =
    | Offer(n: nat)
    | Ask(capacity: nat)
    | StatusLine
    | HeaderLine(isLocation: bool)
    | HeaderEnd
    | Finish(ok: bool)

  function Min(a: nat, b: nat): nat { if a < b then a else b }

  // ---------------------------------------------------------------- callbacks

  /** Copy what fits of the bytes not seen before; the flag says that all of them did. */
  function CopyUnseen(r: Recv, unseen: seq<Byte>): (Recv, bool)
  {
    if |unseen| <= r.room then (Recv(r.paused, r.room - |unseen|, 0, r.delivered + unseen), true)
    else (Recv(true, 0, r.overflow + r.room, r.delivered + unseen[..r.room]), false)
  }

  /** The write callback on a chunk; a chunk it answers with a pause stays unconsumed. */
  function OnWrite(r: Recv, w: Down, chunk: seq<Byte>): (Recv, Down)
  {
    if r.room == 0 then
      (r.(paused := true), w.(held := true))
    else if |chunk| <= r.overflow then
      (r.(overflow := r.overflow - |chunk|), w.(consumed := w.consumed + |chunk|))
    else
      var (r', all) := CopyUnseen(r, chunk[r.overflow..]);
      (r', if all then w.(consumed := w.consumed + |chunk|) else w.(held := true))
  }

  /** Hand over the first `n` pending bytes; reaching the goal pauses. */
  function HandOver(d: Send, n: nat): Send
    requires n <= |d.pending|
  {
    var uploaded := if d.goal != 0 then d.uploaded + n else d.uploaded;
    Send(d.paused || (d.goal != 0 && uploaded >= d.goal), d.closed, d.pending[n..], uploaded, d.goal,
      d.taken + d.pending[..n])
  }

  /** The read callback, asked for at most `capacity` bytes. */
  function OnRead(d: Send, u: Up, capacity: nat): (Send, Up)
  {
    if d.closed then (d.(paused := true), u)
    else if d.pending == [] then (d.(paused := true), u.(held := true))
    else (HandOver(d, Min(|d.pending|, capacity)), u)
  }

  function OnHeader(h: Heads, e: Event): Heads
    requires e.StatusLine? || e.HeaderLine? || e.HeaderEnd?
  {
    match e
    case StatusLine => if h.ended then Heads(false, 1, false) else h.(pairs := h.pairs + 1)
    case HeaderLine(isLocation) => Heads(h.ended, h.pairs + 1, h.location || isLocation)
    case HeaderEnd => h.(ended := true)
  }

  /** libcurl offers the next `n` bytes to the installed write function. */
  function OnOffer(r: Recv, w: Down, l: Life, n: nat): (Recv, Down, Life)
    requires w.consumed + n <= |w.body|
  {
    match w.sink
    case Deliver => var (r', w') := OnWrite(r, w, w.body[w.consumed..w.consumed + n]); (r', w', l)
    case Skip => (r, w.(consumed := w.consumed + n), l)
    case Abort => (r, w, l.(done := true))
  }

  /** libcurl asks the installed read function for at most `capacity` bytes. */
  function OnAsk(d: Send, u: Up, capacity: nat): (Send, Up)
  {
    if u.eof then (d.(paused := true), u) else OnRead(d, u, capacity)
  }

  /** libcurl's contract; a transfer only completes well once the whole body was accepted. */
  predicate Legal(l: Life, w: Down, u: Up, e: Event)
  {
    !l.done &&
    match e
    case Offer(n) => !w.held && w.consumed + n <= |w.body|
    case Ask(capacity) => u.upload && !u.held && capacity > 0
    case Finish(ok) => ok ==> !w.held && w.consumed == |w.body|
    case _ => true
  }

  function OnEvent(s: State, e: Event): State
  {
    if !Legal(s.life, s.down, s.up, e) then s else
      match e
      case Offer(n) => var (r, w, l) := OnOffer(s.recv, s.down, s.life, n); s.(recv := r, down := w, life := l)
      case Ask(capacity) => var (d, u) := OnAsk(s.send, s.up, capacity); s.(send := d, up := u)
      case Finish(ok) => s.(life := s.life.(done := true, failed := !ok))
      case _ => s.(heads := OnHeader(s.heads, e))
  }

  function RunEvents(s: State, es: seq<Event>): State
    decreases |es|
  {
    if es == [] then s else RunEvents(OnEvent(s, es[0]), es[1..])
  }

  function Resumed(s: State): State { s.(down := s.down.(held := false), up := s.up.(held := false)) }

  /**
    curl_easy_pause with CURLPAUSE_RECV_CONT or CURLPAUSE_SEND_CONT.  Both are 0, so either call resumes
    both directions; libcurl may run callbacks before it returns, and a reported error comes after the
    new pause state was set.
  */
  function EasyPause(s: State, es: seq<Event>): State
  {
    RunEvents(Resumed(s), es)
  }

  // ---------------------------------------------------------------- the perform loop

  /** One iteration of the perform loop: what libcurl does, and what the outside world decides. */
  datatype Round = Round(
    interruptedBefore: bool, events: seq<Event>, multiError: bool,
    interruptedAfter: bool, waitError: bool, timedOut: bool)

  /** `Running`: still looping.  `Stopped` is the C result false, `Ended` is true. */
  datatype Outcome = Running | Stopped(interrupted: bool) | Ended(threw: bool)

  predicate NothingToDo(s: State)
  {
    || (s.needInput && s.recv.paused)
    || (s.needOutput && (s.send.paused || (s.recv.paused && s.send.closed)))
  }

  predicate HeadersConsumed(s: State)
  {
    && !s.needOutput && !s.needInput
    && (s.send.paused || s.recv.paused || (s.heads.ended && (!s.redirect || !s.heads.location)))
  }

  /** What one iteration decides once libcurl has run. */
  function Judge(s: State, r: Round): (State, Outcome)
  {
    if s.life.done && !s.life.reported then
      (s.(life := s.life.(reported := true)), Ended(s.life.failed))
    else if NothingToDo(s) || HeadersConsumed(s) then (s, Stopped(false))
    else if s.life.done then (s, Ended(false))
    else if r.interruptedAfter then (s, Stopped(true))
    else if r.waitError || r.timedOut then (s, Ended(true))
    else (s, Running)
  }

  function PerformOnce(s: State, r: Round): (State, Outcome)
  {
    if r.interruptedBefore then (s, Stopped(true)) else
      var s1 := RunEvents(s, r.events);
      if r.multiError then (s1, Ended(true)) else Judge(s1, r)
  }

  /** curlPerform; a script that runs out leaves the call inside the loop. */
  function Perform(s: State, rounds: seq<Round>): (State, Outcome)
    decreases |rounds|
  {
    if rounds == [] then (s, Running) else
      var (s1, out) := PerformOnce(s, rounds[0]);
      if out.Running? then Perform(s1, rounds[1..]) else (s1, out)
  }

  // ---------------------------------------------------------------- entry points

  /** Everything that is decided outside the control block during one native call. */
  datatype Script = Script(
    resume: seq<Event>, resumeFails: bool,
    interruptedFirst: bool, rounds: seq<Round>, interruptedLast: bool)

  /** `Refused`: the lock was taken.  `InFlight`: not returned yet. */
  datatype Result = Refused | InFlight | Returned(value: int, interrupted: bool, threw: bool)

  /** The destination of a read: an array region starting at `off`, or the single byte of `InputStream.read()`. */
  datatype Target = IntoArray(off: nat) | SingleByte

  /** The C value of a plain `char`, which is signed on x86 and unsigned on ARM. */
  function CharValue(b: Byte, signedChar: bool): int { if signedChar && b >= 128 then b - 256 else b }

  /** `count == 1 ? readOffset : count - countToRead`, given the bytes the call stored. */
  function ReadValue(t: Target, count: nat, got: seq<Byte>, signedChar: bool): int
  {
    if count != 1 then |got|
    else match t
      case IntoArray(off) => off + |got|
      case SingleByte => if got == [] then 0 else CharValue(got[|got| - 1], signedChar)
  }

  function Leave(s: State): State { s.(busy := false, needInput := false, needOutput := false) }

  /** The bytes stored for callers between two states. */
  function Stored(before: State, after: State): seq<Byte>
  {
    if |before.recv.delivered| <= |after.recv.delivered| then after.recv.delivered[|before.recv.delivered|..] else []
  }

  /** The assignments at the start of Curl_read, with the receive flag cleared. */
  function ReadStart(s: State, count: nat): State
  {
    s.(busy := true, needInput := true,
       recv := s.recv.(paused := false, room := count), send := s.send.(pending := []))
  }

  /** Curl_read up to the perform loop; the flag says that resuming failed. */
  function ReadEntry(s: State, count: nat, sc: Script): (State, bool)
  {
    var s1 := ReadStart(s, count);
    if s.recv.paused then (EasyPause(s1, sc.resume), sc.resumeFails) else (s1, false)
  }

  /** The result of a read whose perform loop has returned in state `s2`. */
  function ReadResult(s: State, s2: State, t: Target, count: nat, signedChar: bool, sc: Script, out: Outcome): Result
  {
    var interrupted := sc.interruptedLast || out == Stopped(true);
    var value := if !interrupted && out.Ended? && s2.recv.room > 0 && s2.recv.room == count then -1
                 else ReadValue(t, count, Stored(s, s2), signedChar);
    Returned(value, interrupted, out == Ended(true))
  }

  function ReadFrom(s: State, s1: State, failed: bool, t: Target, count: nat, signedChar: bool, sc: Script)
    : (State, Result)
  {
    if failed then (Leave(s1), Returned(-1, false, true))
    else if sc.interruptedFirst then
      (Leave(s1), Returned(ReadValue(t, count, Stored(s, s1), signedChar), true, false))
    else
      var (s2, out) := Perform(s1, sc.rounds);
      if out.Running? then (s2, InFlight) else (Leave(s2), ReadResult(s, s2, t, count, signedChar, sc, out))
  }

  function Read(s: State, t: Target, count: nat, signedChar: bool, sc: Script): (State, Result)
  {
    if s.busy then (s, Refused) else
      var (s1, failed) := ReadEntry(s, count, sc);
      ReadFrom(s, s1, failed, t, count, signedChar, sc)
  }

  /** The assignments at the start of Curl_write, with the send flag cleared. */
  function WriteStart(s: State, data: seq<Byte>): State
  {
    s.(busy := true, needOutput := true,
       recv := s.recv.(room := 0), send := s.send.(paused := false, pending := data))
  }

  /** Curl_write up to the perform loop. */
  function WriteEntry(s: State, data: seq<Byte>, sc: Script): (State, bool)
  {
    var s1 := WriteStart(s, data);
    if s.send.paused then (EasyPause(s1, sc.resume), sc.resumeFails) else (s1, false)
  }

  function WriteFrom(s1: State, failed: bool, count: nat, sc: Script): (State, Result)
  {
    var left := |s1.send.pending|;
    if failed then (Leave(s1), Returned(count - left, false, true))
    else if sc.interruptedFirst then (Leave(s1), Returned(count - left, true, false))
    else if left == 0 then (Leave(s1), Returned(count, sc.interruptedLast, false))
    else WritePerform(s1, count, sc)
  }

  function WritePerform(s1: State, count: nat, sc: Script): (State, Result)
  {
    var (s2, out) := Perform(s1, sc.rounds);
    if out.Running? then (s2, InFlight)
    else
      var interrupted := sc.interruptedLast || out == Stopped(true);
      (Leave(s2), Returned(count - |s2.send.pending|, interrupted, out == Ended(true)))
  }

  predicate GoalReached(d: Send) { d.goal != 0 && d.uploaded >= d.goal }

  /** Note the second branch: a write past the goal throws and returns with the lock still held. */
  function Write(s: State, data: seq<Byte>, sc: Script): (State, Result)
  {
    if s.busy then (s, Refused)
    else if GoalReached(s.send) then (s.(busy := true), Returned(-1, false, true))
    else
      var (s1, failed) := WriteEntry(s, data, sc);
      WriteFrom(s1, failed, |data|, sc)
  }

  /** The assignments at the start of Curl_closeOutput, with the send flag cleared. */
  function CloseStart(s: State): State
  {
    s.(busy := true, needOutput := true,
       recv := s.recv.(room := 0), send := s.send.(paused := false, closed := true, pending := []),
       up := s.up.(eof := true))
  }

  function CloseEntry(s: State, sc: Script): (State, bool)
  {
    var s1 := CloseStart(s);
    if s.send.paused then (EasyPause(s1, sc.resume), sc.resumeFails) else (s1, false)
  }

  function CloseFrom(s1: State, failed: bool, sc: Script): (State, Result)
  {
    if failed then (Leave(s1), Returned(0, false, true))
    else if s1.send.paused then (Leave(s1), Returned(0, false, false))
    else
      var (s2, out) := Perform(s1, sc.rounds);
      if out.Running? then (s2, InFlight) else (Leave(s2), Returned(0, out == Stopped(true), out == Ended(true)))
  }

  function CloseOutput(s: State, sc: Script): (State, Result)
  {
    if s.busy then (s, Refused) else
      var (s1, failed) := CloseEntry(s, sc);
      CloseFrom(s1, failed, sc)
  }

  /** What configure is told; `body` is the response the server will produce for a new transfer. */
  datatype Options = Options(
    body: seq<Byte>, followRedirects: bool, doInput: bool, doOutput: bool, fixedLength: nat)

  function SinkOf(o: Options): Sink { if o.doInput then Deliver else if o.doOutput then Skip else Abort }

  /** A handle that is not attached starts a new transfer, with neither direction held. */
  function ConfigureEntry(s: State, o: Options): State
  {
    s.(busy := true, attached := true, redirect := o.followRedirects, recv := s.recv.(room := 0),
       send := s.send.(pending := [], goal := if o.doOutput then o.fixedLength else 0),
       down := if s.attached then s.down.(sink := SinkOf(o)) else Down(o.body, 0, false, SinkOf(o)),
       up := Up(o.doOutput, s.up.eof && !o.doOutput, s.attached && s.up.held),
       life := if s.attached then s.life else Life(false, false, false))
  }

  function ConfigureFrom(s2: State, sc: Script): (State, Result)
  {
    if sc.resumeFails then (Leave(s2), Returned(0, false, true))
    else if s2.life.done && !s2.life.reported then
      (Leave(s2.(life := s2.life.(reported := true))), Returned(0, false, s2.life.failed))
    else
      var (s3, out) := Perform(s2, sc.rounds);
      if out.Running? then (s3, InFlight)
      else (Leave(s3), Returned(0, sc.interruptedLast || out == Stopped(true), out == Ended(true)))
  }

  /** `resumeFails` is the error of the first perform here, `resume` its events. */
  function Configure(s: State, o: Options, sc: Script): (State, Result)
  {
    if s.busy then (s, Refused) else
      var s1 := ConfigureEntry(s, o);
      if sc.interruptedFirst then (Leave(s1), Returned(0, true, false))
      else ConfigureFrom(RunEvents(s1, sc.resume), sc)
  }

  /** Removing the handle from the multi handle ends the transfer; the installed read function stays. */
  function Detach(s: State): State
  {
    if s.attached
    then s.(attached := false, down := CREATED.down, up := CREATED.up.(eof := s.up.eof), life := CREATED.life)
    else s
  }

  /** The rest of the handle, except the stale counters and the upload goal. */
  function Forget(s: State): State
  {
    s.(redirect := false, needInput := false, needOutput := false,
       recv := Recv(false, s.recv.room, 0, []), send := Send(false, false, s.send.pending, 0, s.send.goal, []),
       heads := Heads(false, 0, false))
  }

  function Reset(s: State): (State, Result)
  {
    if s.busy then (s, Refused) else (Forget(Detach(s)), Returned(0, false, false))
  }

  // ---------------------------------------------------------------- runs

  datatype Call =
    | CRead(target: Target, count: nat)
    | CWrite(data: seq<Byte>)
    | CClose
    | CConfigure(options: Options)
    | CReset

  datatype Step = Step(call: Call, script: Script)

  function Apply(s: State, step: Step, signedChar: bool): (State, Result)
  {
    match step.call
    case CRead(t, count) => Read(s, t, count, signedChar, step.script)
    case CWrite(data) => Write(s, data, step.script)
    case CClose => CloseOutput(s, step.script)
    case CConfigure(o) => Configure(s, o, step.script)
    case CReset => Reset(s)
  }

  function Run(s: State, steps: seq<Step>, signedChar: bool): State
    decreases |steps|
  {
    if steps == [] then s else Run(Apply(s, steps[0], signedChar).0, steps[1..], signedChar)
  }

  /** The documented duty of callers: configure exactly once per reset, and a single byte read has count 1. */
  predicate Permitted(s: State, c: Call)
  {
    && (c.CConfigure? ==> !s.attached)
    && (c.CRead? && c.target.SingleByte? ==> c.count == 1)
  }

  predicate Disciplined(s: State, steps: seq<Step>, signedChar: bool)
    decreases |steps|
  {
    steps == [] ||
    (Permitted(s, steps[0].call) && Disciplined(Apply(s, steps[0], signedChar).0, steps[1..], signedChar))
  }
}
