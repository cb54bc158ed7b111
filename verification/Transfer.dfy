/**
  The control block of a native handle and its entry points, as imperative code, proved against the state machine
  of module Protocol.  The code of libcurl is represented by its contract: `Event`, `MultiPerform` and `EasyPause`
  run the callbacks in the order an arbitrary script asks for.
*/
module Transfer {
  import opened Protocol

  /** What a callback tells libcurl. */
  datatype Reply = Accept(n: nat) | Pause

  /** What libcurl does with the answer to an offer of `n` bytes: a paused chunk stays unconsumed. */
  function Answered(w: Down, n: nat, reply: Reply): Down
  {
    if reply == Pause then w.(held := true) else w.(consumed := w.consumed + n)
  }

  /** Where a call began: offset and contents of the array, length of the log, and room. */
  datatype Start = Start(base: int, origin: seq<Byte>, mark: nat, want: nat)

  class CurlData {
    const signedChar: bool

    // the lock and the bits of the state word
    var busy: bool
    var attached: bool
    var handleRedirect: bool
    var recvPaused: bool
    var sendPaused: bool
    var needInput: bool
    var needOutput: bool
    var doneSending: bool
    var seenHeaderEnd: bool

    var bufferForReceiving: array?<Byte>
    var readOffset: int
    var countToRead: nat
    var readOverflow: nat

    var bufferForSending: array?<Byte>
    var writeOffset: int
    var countToWrite: nat
    var uploadedCount: nat
    var uploadGoal: nat

    var headerPairCount: nat
    var hasLocation: bool

    // libcurl's side of the handle
    var down: Down
    var up: Up
    var life: Life

    ghost var delivered: seq<Byte>
    ghost var taken: seq<Byte>
    ghost var pending: seq<Byte>  // the unsent part of the current write

    ghost var start: Start

    ghost predicate Valid()
      reads `countToRead, `bufferForReceiving, `readOffset, `countToWrite, `bufferForSending, `writeOffset, `pending,
        bufferForSending
    {
      && (countToRead == 0 || countToWrite == 0)
      && (countToRead > 0 ==>
            if bufferForReceiving == null then countToRead == 1
            else 0 <= readOffset && readOffset + countToRead <= bufferForReceiving.Length)
      && |pending| == countToWrite
      && (countToWrite > 0 ==>
            if bufferForSending == null then countToWrite == 1 && pending[0] == writeOffset % 256
            else
              && 0 <= writeOffset && writeOffset + countToWrite <= bufferForSending.Length
              && forall k :: 0 <= k < countToWrite ==> pending[k] == bufferForSending[writeOffset + k])
    }

    ghost function RecvView(): Recv
      reads `recvPaused, `countToRead, `readOverflow, `delivered
    {
      Recv(recvPaused, countToRead, readOverflow, delivered)
    }

    ghost function SendView(): Send
      reads `sendPaused, `doneSending, `pending, `uploadedCount, `uploadGoal, `taken
    {
      Send(sendPaused, doneSending, pending, uploadedCount, uploadGoal, taken)
    }

    ghost function HeadsView(): Heads
      reads `seenHeaderEnd, `headerPairCount, `hasLocation
    {
      Heads(seenHeaderEnd, headerPairCount, hasLocation)
    }

    ghost function View(): State
      reads this
    {
      State(busy, attached, handleRedirect, needInput, needOutput, RecvView(), SendView(), HeadsView(), down, up, life)
    }

    /**
      What the current call has stored: in an array, the bytes delivered since its start at consecutive positions
      from its offset on, and nothing else; with no array, the last byte in place of the offset.
    */
    ghost predicate Landed()
      reads `delivered, `start, `countToRead, `readOffset, `bufferForReceiving, bufferForReceiving
    {
      var Start(base, origin, mark, want) := start;
      && mark <= |delivered|
      && countToRead + |delivered| == want + mark
      && if bufferForReceiving == null then
           readOffset == (if |delivered| == mark then base else CharValue(delivered[|delivered| - 1], signedChar))
         else
           && readOffset == base + |delivered| - mark
           && |origin| == bufferForReceiving.Length
           && forall i :: 0 <= i < |origin| ==>
                bufferForReceiving[i] == if base <= i < readOffset then delivered[mark + i - base] else origin[i]
    }

    constructor (signedChar: bool)
      ensures Valid() && View() == CREATED && this.signedChar == signedChar
    {
      this.signedChar := signedChar;
      busy, attached, handleRedirect, recvPaused, sendPaused := false, false, false, false, false;
      needInput, needOutput, doneSending, seenHeaderEnd := false, false, false, false;
      bufferForReceiving, readOffset, countToRead, readOverflow := null, 0, 0, 0;
      bufferForSending, writeOffset, countToWrite, uploadedCount, uploadGoal := null, 0, 0, 0, 0;
      headerPairCount, hasLocation := 0, false;
      down, up, life := CREATED.down, CREATED.up, CREATED.life;
      delivered, taken, pending := [], [], [];
      start := Start(0, [], 0, 0);
    }

    // -------------------------------------------------------------- callbacks

    /** SetByteArrayRegion at the read offset. */
    method ArrayWrite(buf: array<Byte>, bytes: seq<Byte>)
      requires 0 <= readOffset && readOffset + |bytes| <= buf.Length
      modifies buf
      ensures forall i :: 0 <= i < buf.Length ==>
        buf[i] == if readOffset <= i < readOffset + |bytes| then bytes[i - readOffset] else old(buf[i])
    {
      for k := 0 to |bytes|
        invariant forall i :: 0 <= i < buf.Length ==>
          buf[i] == if readOffset <= i < readOffset + k then bytes[i - readOffset] else old(buf[i])
      {
        buf[readOffset + k] := bytes[k];
      }
    }

    /** The copying part of write_callback: as much of the unseen bytes as there is room for. */
    method Copy(unseen: seq<Byte>) returns (read: nat)
      requires Valid() && Landed() && countToRead > 0 && unseen != []
      modifies this`readOffset, this`countToRead, this`delivered, bufferForReceiving
      ensures Valid() && Landed() && read == Min(old(countToRead), |unseen|) && countToRead == old(countToRead) - read
      ensures delivered == old(delivered) + unseen[..read]
    {
      if bufferForReceiving != null {
        read := if countToRead > |unseen| then |unseen| else countToRead;
        ArrayWrite(bufferForReceiving, unseen[..read]);
        readOffset := readOffset + read;
      } else {
        read := 1;
        readOffset := CharValue(unseen[0], signedChar);
      }
      delivered := delivered + unseen[..read];
      countToRead := countToRead - read;
    }

    /** The rest of write_callback: copy what fits and note, if not all did, how much of the chunk is done. */
    method CopyOrPause(unseen: seq<Byte>) returns (all: bool)
      requires Valid() && Landed() && countToRead > 0 && unseen != []
      modifies this`recvPaused, this`readOffset, this`countToRead, this`readOverflow, this`delivered, bufferForReceiving
      ensures Valid() && Landed()
      ensures (RecvView(), all) == CopyUnseen(old(RecvView()), unseen)
    {
      var read := Copy(unseen);
      all := read == |unseen|;
      if all {
        assert unseen[..read] == unseen;
        readOverflow := 0;
      } else {
        readOverflow := readOverflow + read;
        recvPaused := true;
      }
    }

    /** write_callback. */
    method WriteCallback(chunk: seq<Byte>) returns (reply: Reply)
      requires Valid() && Landed()
      modifies this`recvPaused, this`readOffset, this`countToRead, this`readOverflow, this`delivered, bufferForReceiving
      ensures Valid() && Landed()
      ensures (RecvView(), Answered(down, |chunk|, reply)) == OnWrite(old(RecvView()), down, chunk)
      ensures reply == Accept(|chunk|) || reply == Pause
    {
      if countToRead == 0 {
        recvPaused := true;
        return Pause;
      }
      if readOverflow >= |chunk| {
        readOverflow := readOverflow - |chunk|;
        return Accept(|chunk|);
      }
      var all := CopyOrPause(chunk[readOverflow..]);
      return if all then Accept(|chunk|) else Pause;
    }

    /** The copying part of read_callback. */
    method Take(capacity: nat) returns (bytes: seq<Byte>)
      requires Valid() && capacity > 0 && countToWrite > 0
      modifies this`writeOffset, this`countToWrite, this`pending
      ensures Valid() && |bytes| == Min(old(countToWrite), capacity)
      ensures bytes == old(pending)[..|bytes|] && pending == old(pending)[|bytes|..]
    {
      if bufferForSending != null {
        var written := if countToWrite > capacity then capacity else countToWrite;
        bytes := bufferForSending[writeOffset..writeOffset + written];
        writeOffset := writeOffset + written;
        countToWrite := countToWrite - written;
        pending := pending[written..];
      } else {
        bytes := [writeOffset % 256];
        countToWrite := 0;
        pending := [];
      }
    }

    /** The rest of read_callback: count what was taken against the goal. */
    method TakeAndCount(capacity: nat) returns (bytes: seq<Byte>)
      requires Valid() && capacity > 0 && countToWrite > 0
      modifies this`sendPaused, this`writeOffset, this`countToWrite, this`pending, this`uploadedCount, this`taken
      ensures Valid() && |bytes| == Min(|old(pending)|, capacity)
      ensures SendView() == HandOver(old(SendView()), |bytes|)
    {
      bytes := Take(capacity);
      taken := taken + bytes;
      if uploadGoal != 0 {
        uploadedCount := uploadedCount + |bytes|;
        if uploadedCount >= uploadGoal {
          sendPaused := true;
        }
      }
    }

    /** read_callback: at most `capacity` bytes of the current write. */
    method ReadCallback(capacity: nat) returns (reply: Reply)
      requires Valid() && capacity > 0
      modifies this`sendPaused, this`writeOffset, this`countToWrite, this`pending, this`uploadedCount, this`taken
      ensures Valid()
      ensures (SendView(), if reply == Pause then up.(held := true) else up) == OnRead(old(SendView()), up, capacity)
    {
      if doneSending {
        sendPaused := true;
        return Accept(0);
      }
      if countToWrite == 0 {
        sendPaused := true;
        return Pause;
      }
      var bytes := TakeAndCount(capacity);
      return Accept(|bytes|);
    }

    // -------------------------------------------------------------- libcurl

    ghost predicate Kept(receiving: array?<Byte>, sending: array?<Byte>, began: Start)
      reads `bufferForReceiving, `bufferForSending, `start
    {
      bufferForReceiving == receiving && bufferForSending == sending && start == began
    }

    method OfferedToCaller(n: nat)
      requires Valid() && Landed() && down.consumed + n <= |down.body|
      modifies this`recvPaused, this`readOffset, this`countToRead, this`readOverflow, this`delivered, this`down,
               bufferForReceiving
      ensures Valid() && Landed()
      ensures (RecvView(), down) == OnWrite(old(RecvView()), old(down),
        old(down.body[down.consumed..down.consumed + n]))
    {
      var reply := WriteCallback(down.body[down.consumed..down.consumed + n]);
      down := Answered(down, n, reply);
    }

    /** libcurl offers the next `n` bytes of the body. */
    method Offered(n: nat)
      requires Valid() && Landed() && down.consumed + n <= |down.body|
      modifies this`recvPaused, this`readOffset, this`countToRead, this`readOverflow, this`delivered, this`down,
        this`life,
               bufferForReceiving
      ensures Valid() && Landed()
      ensures (RecvView(), down, life) == OnOffer(old(RecvView()), old(down), old(life), n)
    {
      match down.sink {
        case Deliver => OfferedToCaller(n);
        case Skip => down := down.(consumed := down.consumed + n);
        case Abort => life := life.(done := true);
      }
    }

    /** libcurl asks for at most `capacity` bytes. */
    method Asked(capacity: nat)
      requires Valid() && capacity > 0
      modifies this`sendPaused, this`writeOffset, this`countToWrite, this`pending, this`uploadedCount, this`taken,
        this`up
      ensures Valid()
      ensures (SendView(), up) == OnAsk(old(SendView()), old(up), capacity)
    {
      if up.eof {
        sendPaused := true;
      } else {
        var reply := ReadCallback(capacity);
        if reply == Pause {
          up := up.(held := true);
        }
      }
    }

    /** The part of header_callback that the perform loop can see. */
    method HeaderReceived(e: Event)
      requires e.StatusLine? || e.HeaderLine? || e.HeaderEnd?
      modifies this`seenHeaderEnd, this`headerPairCount, this`hasLocation
      ensures HeadsView() == OnHeader(old(HeadsView()), e)
    {
      match e {
        case StatusLine =>
          if seenHeaderEnd {
            headerPairCount, hasLocation, seenHeaderEnd := 0, false, false;
          }
          headerPairCount := headerPairCount + 1;
        case HeaderLine(isLocation) =>
          hasLocation := hasLocation || isLocation;
          headerPairCount := headerPairCount + 1;
        case HeaderEnd =>
          seenHeaderEnd := true;
      }
    }

    method OfferHappens(n: nat)
      requires Valid() && Landed() && Legal(life, down, up, Offer(n))
      modifies this`recvPaused, this`readOffset, this`countToRead, this`readOverflow, this`delivered, this`down,
        this`life,
               bufferForReceiving
      ensures Valid() && Landed() && View() == OnEvent(old(View()), Offer(n))
    {
      Offered(n);
    }

    method AskedView(capacity: nat)
      requires Valid() && capacity > 0
      modifies this`sendPaused, this`writeOffset, this`countToWrite, this`pending, this`uploadedCount, this`taken,
        this`up
      ensures Valid()
      ensures var (d, u) := OnAsk(old(SendView()), old(up), capacity); View() == old(View()).(send := d, up := u)
    {
      ghost var r, h, w, l := RecvView(), HeadsView(), down, life;
      Asked(capacity);
      assert RecvView() == r;
      assert HeadsView() == h;
      assert down == w && life == l;
    }

    method AskHappens(capacity: nat)
      requires Valid() && Landed() && Legal(life, down, up, Ask(capacity))
      modifies this`sendPaused, this`writeOffset, this`countToWrite, this`pending, this`uploadedCount, this`taken,
        this`up
      ensures Valid() && Landed()
      ensures var (d, u) := OnAsk(old(SendView()), old(up), capacity); View() == old(View()).(send := d, up := u)
    {
      AskedView(capacity);
    }

    method FinishHappens(ok: bool)
      requires Valid() && Landed() && Legal(life, down, up, Finish(ok))
      modifies this`life
      ensures Valid() && Landed() && View() == OnEvent(old(View()), Finish(ok))
    {
      life := life.(done := true, failed := !ok);
    }

    method HeaderHappens(e: Event)
      requires Valid() && Landed() && Legal(life, down, up, e) && (e.StatusLine? || e.HeaderLine? || e.HeaderEnd?)
      modifies this`seenHeaderEnd, this`headerPairCount, this`hasLocation
      ensures Valid() && Landed() && View() == OnEvent(old(View()), e)
    {
      ghost var r, d, w, u, l := RecvView(), SendView(), down, up, life;
      HeaderReceived(e);
      assert RecvView() == r && SendView() == d;
      assert down == w && up == u && life == l;
    }

    method Happens(e: Event)
      requires Valid() && Landed()
      modifies this, bufferForReceiving
      ensures Kept(old(bufferForReceiving), old(bufferForSending), old(start))
      ensures Valid() && Landed() && View() == OnEvent(old(View()), e)
    {
      if Legal(life, down, up, e) {
        match e {
          case Offer(n) => OfferHappens(n);
          case Ask(capacity) => AskHappens(capacity);
          case Finish(ok) => FinishHappens(ok);
          case _ => HeaderHappens(e);
        }
      }
    }

    method MultiPerform(es: seq<Event>)
      requires Valid() && Landed()
      modifies this, bufferForReceiving
      ensures Kept(old(bufferForReceiving), old(bufferForSending), old(start))
      ensures Valid() && Landed() && View() == RunEvents(old(View()), es)
      decreases |es|
    {
      if es != [] {
        Happens(es[0]);
        MultiPerform(es[1..]);
      }
    }

    method Unhold()
      requires Valid() && Landed()
      modifies this`down, this`up
      ensures Valid() && Landed() && View() == Resumed(old(View()))
    {
      down := down.(held := false);
      up := up.(held := false);
    }

    /** curl_easy_pause with no direction paused. */
    method EasyResume(es: seq<Event>)
      requires Valid() && Landed()
      modifies this, bufferForReceiving
      ensures Kept(old(bufferForReceiving), old(bufferForSending), old(start))
      ensures Valid() && Landed() && View() == EasyPause(old(View()), es)
    {
      Unhold();
      MultiPerform(es);
    }

    // -------------------------------------------------------------- the perform loop

    /** checkResult: a finished transfer is reported once. */
    method CheckResult() returns (completed: bool, threw: bool)
      requires Valid() && Landed()
      modifies this`life
      ensures Valid() && Landed()
      ensures completed == old(life.done && !life.reported)
      ensures completed ==> threw == old(life.failed) && View() == old(View()).(life := old(life).(reported := true))
      ensures !completed ==> View() == old(View())
    {
      completed := life.done && !life.reported;
      threw := completed && life.failed;
      if completed {
        life := life.(reported := true);
      }
    }

    predicate NothingToDoNow()
      reads `needInput, `needOutput, `recvPaused, `sendPaused, `doneSending
    {
      (needInput && recvPaused) || (needOutput && (sendPaused || (recvPaused && doneSending)))
    }

    predicate HeadersConsumedNow()
      reads `needInput, `needOutput, `recvPaused, `sendPaused, `seenHeaderEnd, `handleRedirect, `hasLocation
    {
      && !needOutput && !needInput
      && (sendPaused || recvPaused || (seenHeaderEnd && (!handleRedirect || !hasLocation)))
    }

    /** What follows curl_multi_perform in one iteration. */
    method AfterPerform(r: Round) returns (out: Outcome)
      requires Valid() && Landed() && !r.multiError
      modifies this`life
      ensures Valid() && Landed()
      ensures (View(), out) == Judge(old(View()), r)
    {
      var completed, threw := CheckResult();
      if completed {
        return Ended(threw);
      }
      if NothingToDoNow() {
        return Stopped(false);
      } else if HeadersConsumedNow() {
        return Stopped(false);
      }
      if life.done {
        return Ended(false);
      }
      if r.interruptedAfter {
        return Stopped(true);
      }
      if r.waitError || r.timedOut {
        return Ended(true);
      }
      return Running;
    }

    method PerformRound(r: Round) returns (out: Outcome)
      requires Valid() && Landed()
      modifies this, bufferForReceiving
      ensures Kept(old(bufferForReceiving), old(bufferForSending), old(start))
      ensures Valid() && Landed()
      ensures (View(), out) == PerformOnce(old(View()), r)
    {
      if r.interruptedBefore {
        return Stopped(true);
      }
      MultiPerform(r.events);
      if r.multiError {
        return Ended(true);
      }
      out := AfterPerform(r);
    }

    /** curlPerform. */
    method CurlPerform(rounds: seq<Round>) returns (out: Outcome)
      requires Valid() && Landed()
      modifies this, bufferForReceiving
      ensures Kept(old(bufferForReceiving), old(bufferForSending), old(start))
      ensures Valid() && Landed()
      ensures (View(), out) == Perform(old(View()), rounds)
    {
      var i := 0;
      while i < |rounds|
        invariant 0 <= i <= |rounds| && Valid() && Landed()
        invariant Kept(old(bufferForReceiving), old(bufferForSending), old(start))
        invariant Perform(View(), rounds[i..]) == Perform(old(View()), rounds)
      {
        ghost var s := View();
        out := PerformRound(rounds[i]);
        assert rounds[i..][0] == rounds[i] && rounds[i..][1..] == rounds[i + 1..];
        if !out.Running? {
          return;
        }
        i := i + 1;
      }
      return Running;
    }

    // -------------------------------------------------------------- entry points

    method Leave()
      requires Valid() && Landed()
      modifies this`busy, this`needInput, this`needOutput
      ensures Valid() && Landed() && View() == Protocol.Leave(old(View()))
    {
      needInput, needOutput := false, false;
      busy := false;
    }

    /** Ghost bookkeeping: the current call begins here, with these contents of the array. */
    ghost method MarkStart(contents: seq<Byte>)
      requires bufferForReceiving != null ==>
        |contents| == bufferForReceiving.Length && forall i :: 0 <= i < |contents| ==>
          contents[i] == bufferForReceiving[i]
      modifies this`start
      ensures Landed() && start == Start(readOffset, contents, |delivered|, countToRead)
    {
      start := Start(readOffset, contents, |delivered|, countToRead);
    }

    /** Point the receiving side at the caller's region; nothing is to be sent. */
    method Receive(buf: array?<Byte>, off: int, count: nat)
      requires if buf == null then off == 0 && count == 1 else 0 <= off && off + count <= buf.Length
      modifies this`readOffset, this`countToRead, this`countToWrite, this`pending, this`bufferForReceiving
      ensures Valid() && bufferForReceiving == buf && readOffset == off && countToRead == count
      ensures RecvView() == old(RecvView()).(room := count) && SendView() == old(SendView()).(pending := [])
    {
      readOffset := off;
      countToRead := count;
      countToWrite, pending := 0, [];
      bufferForReceiving := buf;
    }

    method FlagRead()
      requires Valid()
      modifies this`busy, this`needInput, this`recvPaused
      ensures Valid()
      ensures View() == old(View()).(busy := true, needInput := true, recv := old(RecvView()).(paused := false))
    {
      busy := true;
      needInput := true;
      recvPaused := false;
    }

    /** The assignments at the start of Curl_read. */
    method BeginRead(buf: array?<Byte>, off: int, count: nat)
      requires Valid() && (if buf == null then off == 0 && count == 1 else 0 <= off && off + count <= buf.Length)
      modifies this`busy, this`needInput, this`readOffset, this`countToRead, this`countToWrite, this`pending,
        this`bufferForReceiving,
               this`recvPaused
      ensures Valid() && bufferForReceiving == buf && readOffset == off && countToRead == count
      ensures View() == ReadStart(old(View()), count)
    {
      FlagRead();
      Receive(buf, off, count);
    }

    method StartRead(buf: array?<Byte>, off: int, count: nat, ghost contents: seq<Byte>)
      requires Valid() && (if buf == null then off == 0 && count == 1 else 0 <= off && off + count <= buf.Length)
      requires buf != null ==> |contents| == buf.Length && forall i :: 0 <= i < |contents| ==> contents[i] == buf[i]
      modifies this`busy, this`needInput, this`readOffset, this`countToRead, this`countToWrite, this`pending,
        this`bufferForReceiving,
               this`recvPaused, this`start
      ensures Valid() && Landed() && bufferForReceiving == buf
      ensures start == Start(off, contents, |old(delivered)|, count)
      ensures View() == ReadStart(old(View()), count)
    {
      BeginRead(buf, off, count);
      MarkStart(contents);
    }

    /** Curl_read up to the perform loop. */
    method EnterRead(buf: array?<Byte>, off: int, count: nat, sc: Script,
                     ghost contents: seq<Byte>) returns (failed: bool)
      requires Valid() && (if buf == null then off == 0 && count == 1 else 0 <= off && off + count <= buf.Length)
      requires buf != null ==> |contents| == buf.Length && forall i :: 0 <= i < |contents| ==> contents[i] == buf[i]
      modifies this, buf
      ensures Valid() && Landed() && bufferForReceiving == buf
      ensures start == Start(off, contents, |old(delivered)|, count)
      ensures (View(), failed) == ReadEntry(old(View()), count, sc)
    {
      var paused := recvPaused;
      failed := false;
      StartRead(buf, off, count, contents);
      if paused {
        EasyResume(sc.resume);
        failed := sc.resumeFails;
      }
    }

    /** `count == 1 ? readOffset : count - countToRead` is what the stored bytes say. */
    method RetVal(ghost s: State, ghost t: Target, count: nat) returns (v: int)
      requires Valid() && Landed() && ReadOf(s, t, count)
      ensures v == ReadValue(t, count, Stored(s, View()), signedChar)
    {
      v := if count == 1 then readOffset else count - countToRead;
    }

    /** The current call is a read of `count` bytes into `t` that began in state `s`. */
    ghost predicate ReadOf(s: State, t: Target, count: nat)
      reads `start, `bufferForReceiving
    {
      && start.want == count && start.mark == |s.recv.delivered|
      && if bufferForReceiving == null then start.base == 0 && count == 1 && t == SingleByte
         else start.base >= 0 && t == IntoArray(start.base)
    }

    /** Curl_read from the perform loop on. */
    method FinishRead(ghost s: State, failed: bool, ghost t: Target, count: nat, sc: Script) returns (result: Result)
      requires Valid() && Landed() && ReadOf(s, t, count)
      modifies this, bufferForReceiving
      ensures Kept(old(bufferForReceiving), old(bufferForSending), old(start))
      ensures Valid() && Landed()
      ensures (View(), result) == ReadFrom(s, old(View()), failed, t, count, signedChar, sc)
    {
      var value := -1;
      if failed {
        Leave();
        return Returned(-1, false, true);
      }
      if sc.interruptedFirst {
        value := RetVal(s, t, count);
        Leave();
        return Returned(value, true, false);
      }
      var out := CurlPerform(sc.rounds);
      if out.Running? {
        return InFlight;
      }
      result := ReturnRead(s, t, count, sc, out);
    }

    /** The end of Curl_read: the result of a perform loop that has returned. */
    method ReturnRead(ghost s: State, ghost t: Target, count: nat, sc: Script, out: Outcome) returns (result: Result)
      requires Valid() && Landed() && ReadOf(s, t, count) && !out.Running?
      modifies this`busy, this`needInput, this`needOutput
      ensures Valid() && Landed() && View() == Protocol.Leave(old(View()))
      ensures result == ReadResult(s, old(View()), t, count, signedChar, sc, out)
    {
      var interrupted := sc.interruptedLast || out == Stopped(true);
      var value := -1;
      if interrupted || !(out.Ended? && countToRead > 0 && countToRead == count) {
        value := RetVal(s, t, count);
      }
      Leave();
      return Returned(value, interrupted, out == Ended(true));
    }

    /** The array of a read in terms of the bytes it stored. */
    ghost predicate ArrayHolds(buf: array<Byte>, contents: seq<Byte>, off: int, got: seq<Byte>)
      reads buf
    {
      |contents| == buf.Length &&
      forall i :: 0 <= i < |contents| ==> buf[i] == if off <= i < off + |got| then got[i - off] else contents[i]
    }

    lemma LandedHolds()
      requires Landed() && bufferForReceiving != null
      ensures ArrayHolds(bufferForReceiving, start.origin, start.base, delivered[start.mark..])
    {
    }

    /** Curl_read once it owns the lock. */
    method LockedRead(buf: array?<Byte>, off: int, count: nat, sc: Script,
                      ghost contents: seq<Byte>) returns (result: Result)
      requires Valid() && !busy && (if buf == null then off == 0 && count == 1
        else 0 <= off && off + count <= buf.Length)
      requires buf != null ==> |contents| == buf.Length && forall i :: 0 <= i < |contents| ==> contents[i] == buf[i]
      modifies this, buf
      ensures Valid()
      ensures (View(), result) == Protocol.Read(old(View()), if buf == null then SingleByte
        else IntoArray(off), count, signedChar, sc)
      ensures buf != null ==>
        |old(delivered)| <= |delivered| && ArrayHolds(buf, contents, off, delivered[|old(delivered)|..])
    {
      ghost var s := View();
      var failed := EnterRead(buf, off, count, sc, contents);
      result := FinishRead(s, failed, if buf == null then SingleByte else IntoArray(off), count, sc);
      if buf != null {
        LandedHolds();
      }
    }

    /** Curl_read, with the bounds that the stream classes check. */
    method Read(buf: array?<Byte>, off: int, count: nat, sc: Script) returns (result: Result)
      requires Valid() && (if buf == null then off == 0 && count == 1 else 0 <= off && off + count <= buf.Length)
      modifies this, buf
      ensures Valid()
      ensures (View(), result) == Protocol.Read(old(View()), if buf == null then SingleByte
        else IntoArray(off), count, signedChar, sc)
      ensures buf != null ==> ArrayHolds(buf, old(buf[..]), off, Stored(old(View()), View()))
    {
      if busy {
        return Refused;
      }
      result := LockedRead(buf, off, count, sc, if buf == null then [] else buf[..]);
    }

    // Outside a read there is no room, so whatever array the last read left behind stays as it is.

    ghost predicate Holds(contents: seq<Byte>)
      reads `bufferForReceiving, bufferForReceiving
    {
      bufferForReceiving != null ==>
        |contents| == bufferForReceiving.Length && forall i :: 0 <= i < |contents| ==>
          contents[i] == bufferForReceiving[i]
    }

    lemma NothingLanded()
      requires Landed() && start.want == 0
      ensures Holds(start.origin)
    {
    }

    /** The caller's bytes of a write. */
    ghost function Data(buf: array?<Byte>, off: int, count: nat): seq<Byte>
      requires if buf == null then count == 1 else 0 <= off && off + count <= buf.Length
      reads buf
    {
      if buf == null then [off % 256] else buf[off..off + count]
    }

    method Transmit(buf: array?<Byte>, off: int, count: nat, ghost data: seq<Byte>)
      requires if buf == null then count == 1 else 0 <= off && off + count <= buf.Length
      requires data == Data(buf, off, count)
      modifies this`countToRead, this`countToWrite, this`writeOffset, this`pending, this`bufferForSending
      ensures Valid() && countToRead == 0 && bufferForSending == buf
      ensures RecvView() == old(RecvView()).(room := 0) && SendView() == old(SendView()).(pending := data)
    {
      writeOffset := off;
      countToWrite, pending := count, data;
      countToRead := 0;
      bufferForSending := buf;
    }

    method FlagWrite()
      requires Valid()
      modifies this`busy, this`needOutput, this`sendPaused
      ensures Valid()
      ensures View() == old(View()).(busy := true, needOutput := true, send := old(SendView()).(paused := false))
    {
      busy := true;
      needOutput := true;
      sendPaused := false;
    }

    /** The assignments at the start of Curl_write. */
    method BeginWrite(buf: array?<Byte>, off: int, count: nat, ghost data: seq<Byte>)
      requires Valid() && (if buf == null then count == 1 else 0 <= off && off + count <= buf.Length)
      requires data == Data(buf, off, count)
      modifies this`busy, this`needOutput, this`sendPaused, this`countToRead, this`countToWrite, this`writeOffset,
        this`pending,
               this`bufferForSending
      ensures Valid() && countToRead == 0 && View() == WriteStart(old(View()), data)
    {
      FlagWrite();
      Transmit(buf, off, count, data);
    }

    method StartWrite(buf: array?<Byte>, off: int, count: nat, ghost data: seq<Byte>, ghost contents: seq<Byte>)
      requires Valid() && Holds(contents) && (if buf == null then count == 1 else 0 <= off && off + count <= buf.Length)
      requires data == Data(buf, off, count)
      modifies this
      ensures Valid() && Landed() && bufferForReceiving == old(bufferForReceiving)
      ensures start.origin == contents && start.want == 0
      ensures View() == WriteStart(old(View()), data)
    {
      BeginWrite(buf, off, count, data);
      MarkStart(contents);
    }

    /** Curl_write up to the perform loop. */
    method EnterWrite(buf: array?<Byte>, off: int, count: nat, ghost data: seq<Byte>, sc: Script,
                      ghost contents: seq<Byte>)
      returns (failed: bool)
      requires Valid() && Holds(contents) && (if buf == null then count == 1 else 0 <= off && off + count <= buf.Length)
      requires data == Data(buf, off, count)
      modifies this, bufferForReceiving
      ensures Valid() && Landed() && bufferForReceiving == old(bufferForReceiving)
      ensures start.origin == contents && start.want == 0
      ensures (View(), failed) == WriteEntry(old(View()), data, sc)
    {
      var paused := sendPaused;
      failed := false;
      StartWrite(buf, off, count, data, contents);
      if paused {
        EasyResume(sc.resume);
        failed := sc.resumeFails;
      }
    }

    /** Curl_write from the perform loop on. */
    method FinishWrite(failed: bool, count: nat, sc: Script) returns (result: Result)
      requires Valid() && Landed()
      modifies this, bufferForReceiving
      ensures Kept(old(bufferForReceiving), old(bufferForSending), old(start))
      ensures Valid() && Landed()
      ensures (View(), result) == WriteFrom(old(View()), failed, count, sc)
    {
      if failed {
        Leave();
        return Returned(count - countToWrite, false, true);
      }
      if sc.interruptedFirst {
        Leave();
        return Returned(count - countToWrite, true, false);
      }
      if countToWrite > 0 {
        result := PerformWrite(count, sc);
        return;
      }
      Leave();
      return Returned(count, sc.interruptedLast, false);
    }

    /** The perform loop of Curl_write, and its end. */
    method PerformWrite(count: nat, sc: Script) returns (result: Result)
      requires Valid() && Landed()
      modifies this, bufferForReceiving
      ensures Kept(old(bufferForReceiving), old(bufferForSending), old(start))
      ensures Valid() && Landed()
      ensures (View(), result) == WritePerform(old(View()), count, sc)
    {
      var out := CurlPerform(sc.rounds);
      if out.Running? {
        return InFlight;
      }
      Leave();
      return Returned(count - countToWrite, sc.interruptedLast || out == Stopped(true), out == Ended(true));
    }

    /** Curl_write once it owns the lock. */
    method LockedWrite(buf: array?<Byte>, off: int, count: nat, ghost data: seq<Byte>, sc: Script,
                       ghost contents: seq<Byte>)
      returns (result: Result)
      requires Valid() && !busy && Holds(contents) &&
        (if buf == null then count == 1 else 0 <= off && off + count <= buf.Length)
      requires data == Data(buf, off, count)
      modifies this, bufferForReceiving
      ensures Valid() && bufferForReceiving == old(bufferForReceiving) && Holds(contents)
      ensures (View(), result) == Protocol.Write(old(View()), data, sc)
    {
      if uploadGoal != 0 && uploadedCount >= uploadGoal {
        busy := true;
        return Returned(-1, false, true);
      }
      var failed := EnterWrite(buf, off, count, data, sc, contents);
      result := FinishWrite(failed, count, sc);
      NothingLanded();
    }

    /** Curl_write; `buf` is null for the single byte `off` of `OutputStream.write(int)`. */
    method Write(buf: array?<Byte>, off: int, count: nat, sc: Script) returns (result: Result)
      requires Valid() && (if buf == null then count == 1 else 0 <= off && off + count <= buf.Length)
      modifies this, bufferForReceiving
      ensures Valid() && bufferForReceiving == old(bufferForReceiving)
      ensures (View(), result) == Protocol.Write(old(View()), old(Data(buf, off, count)), sc)
      ensures bufferForReceiving != null ==> Holds(old(bufferForReceiving[..]))
    {
      if busy {
        return Refused;
      }
      ghost var contents := if bufferForReceiving == null then [] else bufferForReceiving[..];
      result := LockedWrite(buf, off, count, Data(buf, off, count), sc, contents);
    }

    /** No transfer in either direction. */
    method NoTransfer()
      modifies this`countToRead, this`countToWrite, this`pending
      ensures Valid() && countToRead == 0
      ensures RecvView() == old(RecvView()).(room := 0) && SendView() == old(SendView()).(pending := [])
    {
      countToRead := 0;
      countToWrite, pending := 0, [];
    }

    method CloseSending()
      requires Valid()
      modifies this`doneSending, this`up
      ensures Valid()
      ensures View() == old(View()).(up := old(up).(eof := true), send := old(SendView()).(closed := true))
    {
      doneSending := true;
      up := up.(eof := true);
    }

    method StartClose(ghost contents: seq<Byte>)
      requires Valid() && Holds(contents)
      modifies this
      ensures Valid() && Landed() && bufferForReceiving == old(bufferForReceiving)
      ensures start.origin == contents && start.want == 0
      ensures View() == CloseStart(old(View()))
    {
      FlagWrite();
      CloseSending();
      NoTransfer();
      MarkStart(contents);
    }

    method EnterClose(sc: Script, ghost contents: seq<Byte>) returns (failed: bool)
      requires Valid() && Holds(contents)
      modifies this, bufferForReceiving
      ensures Valid() && Landed() && bufferForReceiving == old(bufferForReceiving)
      ensures start.origin == contents && start.want == 0
      ensures (View(), failed) == CloseEntry(old(View()), sc)
    {
      var paused := sendPaused;
      failed := false;
      StartClose(contents);
      if paused {
        EasyResume(sc.resume);
        failed := sc.resumeFails;
      }
    }

    method FinishClose(failed: bool, sc: Script) returns (result: Result)
      requires Valid() && Landed()
      modifies this, bufferForReceiving
      ensures Kept(old(bufferForReceiving), old(bufferForSending), old(start))
      ensures Valid() && Landed()
      ensures (View(), result) == CloseFrom(old(View()), failed, sc)
    {
      if failed {
        Leave();
        return Returned(0, false, true);
      }
      if sendPaused {
        Leave();
        return Returned(0, false, false);
      }
      var out := CurlPerform(sc.rounds);
      if out.Running? {
        return InFlight;
      }
      Leave();
      return Returned(0, out == Stopped(true), out == Ended(true));
    }

    /** Curl_closeOutput. */
    method CloseOutput(sc: Script) returns (result: Result)
      requires Valid()
      modifies this, bufferForReceiving
      ensures Valid() && bufferForReceiving == old(bufferForReceiving)
      ensures (View(), result) == Protocol.CloseOutput(old(View()), sc)
      ensures bufferForReceiving != null ==> Holds(old(bufferForReceiving[..]))
    {
      if busy {
        return Refused;
      }
      ghost var contents := if bufferForReceiving == null then [] else bufferForReceiving[..];
      var failed := EnterClose(sc, contents);
      result := FinishClose(failed, sc);
      NothingLanded();
    }

    /** Attach the handle: a handle that is not attached starts a new transfer. */
    method Attach(o: Options)
      modifies this`attached, this`handleRedirect, this`uploadGoal, this`down, this`up, this`life
      ensures attached && handleRedirect == o.followRedirects && uploadGoal == (if o.doOutput then o.fixedLength else 0)
      ensures down == if old(attached) then old(down).(sink := SinkOf(o)) else Down(o.body, 0, false, SinkOf(o))
      ensures up == Up(o.doOutput, old(up.eof) && !o.doOutput, old(attached && up.held))
      ensures life == if old(attached) then old(life) else Life(false, false, false)
    {
      handleRedirect := o.followRedirects;
      uploadGoal := if o.doOutput then o.fixedLength else 0;
      var sink := if o.doInput then Deliver else if o.doOutput then Skip else Abort;
      up := Up(o.doOutput, up.eof && !o.doOutput, up.held);
      if attached {
        down := down.(sink := sink);
      } else {
        down := Down(o.body, 0, false, sink);
        up := up.(held := false);
        life := Life(false, false, false);
        attached := true;
      }
    }

    method AttachView(o: Options)
      requires Valid()
      modifies this`attached, this`handleRedirect, this`uploadGoal, this`down, this`up, this`life
      ensures Valid()
      ensures View() == ConfigureEntry(old(View()), o).(busy := busy, recv := old(RecvView()),
        send := old(SendView()).(goal := if o.doOutput then o.fixedLength else 0))
    {
      ghost var r, d, h := RecvView(), SendView(), HeadsView();
      Attach(o);
      assert RecvView() == r && HeadsView() == h;
      assert SendView() == d.(goal := uploadGoal);
    }

    method Acquire()
      requires Valid()
      modifies this`busy
      ensures Valid() && View() == old(View()).(busy := true)
    {
      busy := true;
    }

    /** No transfer, seen from the whole handle. */
    method Idle()
      requires Valid()
      modifies this`countToRead, this`countToWrite, this`pending
      ensures Valid() && countToRead == 0
      ensures View() == old(View()).(recv := old(RecvView()).(room := 0), send := old(SendView()).(pending := []))
    {
      NoTransfer();
    }

    method StartConfigure(o: Options, ghost contents: seq<Byte>)
      requires Valid() && Holds(contents)
      modifies this
      ensures Valid() && Landed() && bufferForReceiving == old(bufferForReceiving)
      ensures start.origin == contents && start.want == 0
      ensures View() == ConfigureEntry(old(View()), o)
    {
      AttachView(o);
      Acquire();
      Idle();
      MarkStart(contents);
    }

    method FinishConfigure(sc: Script) returns (result: Result)
      requires Valid() && Landed()
      modifies this, bufferForReceiving
      ensures Kept(old(bufferForReceiving), old(bufferForSending), old(start))
      ensures Valid() && Landed()
      ensures (View(), result) == ConfigureFrom(old(View()), sc)
    {
      if sc.resumeFails {
        Leave();
        return Returned(0, false, true);
      }
      var completed, threw := CheckResult();
      if completed {
        Leave();
        return Returned(0, false, threw);
      }
      var out := CurlPerform(sc.rounds);
      if out.Running? {
        return InFlight;
      }
      Leave();
      return Returned(0, sc.interruptedLast || out == Stopped(true), out == Ended(true));
    }

    /** The part of nativeConfigure that concerns the transfer. */
    method Configure(o: Options, sc: Script) returns (result: Result)
      requires Valid()
      modifies this, bufferForReceiving
      ensures Valid() && bufferForReceiving == old(bufferForReceiving)
      ensures (View(), result) == Protocol.Configure(old(View()), o, sc)
      ensures bufferForReceiving != null ==> Holds(old(bufferForReceiving[..]))
    {
      if busy {
        return Refused;
      }
      ghost var contents := if bufferForReceiving == null then [] else bufferForReceiving[..];
      StartConfigure(o, contents);
      if sc.interruptedFirst {
        Leave();
        result := Returned(0, true, false);
      } else {
        MultiPerform(sc.resume);
        result := FinishConfigure(sc);
      }
      NothingLanded();
    }

    method RemoveHandle()
      requires Valid()
      modifies this`attached, this`down, this`up, this`life
      ensures Valid() && View() == Detach(old(View()))
    {
      if attached {
        EndTransfer();
      }
    }

    method EndTransfer()
      requires Valid() && attached
      modifies this`attached, this`down, this`up, this`life
      ensures Valid() && View() == Detach(old(View()))
    {
      ghost var r, d, h := RecvView(), SendView(), HeadsView();
      NoHandle();
      assert RecvView() == r && SendView() == d && HeadsView() == h;
    }

    method NoHandle()
      modifies this`attached, this`down, this`up, this`life
      ensures !attached && down == CREATED.down && up == CREATED.up.(eof := old(up.eof)) && life == CREATED.life
    {
      down, up, life := CREATED.down, CREATED.up.(eof := up.eof), CREATED.life;
      attached := false;
    }

    method ClearRecv()
      requires Valid()
      modifies this`recvPaused, this`readOverflow, this`delivered
      ensures Valid() && RecvView() == Recv(false, countToRead, 0, [])
    {
      recvPaused, readOverflow := false, 0;
      delivered := [];
    }

    method ClearSend()
      requires Valid()
      modifies this`sendPaused, this`doneSending, this`uploadedCount, this`taken
      ensures Valid() && SendView() == Send(false, false, pending, 0, uploadGoal, [])
    {
      sendPaused, doneSending, uploadedCount := false, false, 0;
      taken := [];
    }

    method ForgetRecv()
      requires Valid()
      modifies this`recvPaused, this`readOverflow, this`delivered
      ensures Valid() && View() == old(View()).(recv := Recv(false, old(countToRead), 0, []))
    {
      ghost var d, h := SendView(), HeadsView();
      ClearRecv();
      assert SendView() == d && HeadsView() == h;
    }

    method ForgetSend()
      requires Valid()
      modifies this`sendPaused, this`doneSending, this`uploadedCount, this`taken
      ensures Valid() && View() == old(View()).(send := Send(false, false, old(pending), 0, old(uploadGoal), []))
    {
      ghost var r, h := RecvView(), HeadsView();
      ClearSend();
      assert RecvView() == r && HeadsView() == h;
    }

    method ForgetFlags()
      requires Valid()
      modifies this`handleRedirect, this`needInput, this`needOutput
      ensures Valid() && View() == old(View()).(redirect := false, needInput := false, needOutput := false)
    {
      handleRedirect, needInput, needOutput := false, false, false;
    }

    method ForgetHeaders()
      requires Valid()
      modifies this`seenHeaderEnd, this`headerPairCount, this`hasLocation
      ensures Valid() && View() == old(View()).(heads := Heads(false, 0, false))
    {
      seenHeaderEnd, headerPairCount, hasLocation := false, 0, false;
    }

    method ForgetAll()
      requires Valid()
      modifies this
      ensures Valid() && View() == Forget(old(View())) && bufferForReceiving == old(bufferForReceiving)
    {
      ForgetFlags();
      ForgetRecv();
      ForgetSend();
      ForgetHeaders();
    }

    /** Curl_reset; the assignment of 0 to the state word is the clearing of all flags. */
    method Reset() returns (result: Result)
      requires Valid()
      modifies this
      ensures Valid() && bufferForReceiving == old(bufferForReceiving)
      ensures (View(), result) == Protocol.Reset(old(View()))
    {
      if busy {
        return Refused;
      }
      RemoveHandle();
      ForgetAll();
      return Returned(0, false, false);
    }
  }
}
