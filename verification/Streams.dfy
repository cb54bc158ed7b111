/** The stream classes of CurlHttp: what they check before they call the native side, and what becomes of its answer. */
module Streams {
  import opened Protocol
  import opened Transfer
  import opened ProtocolProofs
  import opened StreamTheorems
  import opened EndOfStream
  import opened Returns

  /** `Native` is the answer of the native call; the other three are thrown. */
  datatype Answer = OutOfBounds | Closed | Interrupted(transferred: int) | Native(result: Result)

  /** Java's test on ints; with no negative operand the difference cannot wrap. */
  predicate Inside(off: int, len: int, size: nat)
  {
    !(off < 0 || len < 0 || len > size - off)
  }

  /**
    i10nCheck after a native call that has returned and thrown nothing.  An interruption is no exception of the native
    side: the call returns what it has done, the flag stays set, and the check throws, as for one that came later.
  */
  function Checked(result: Result, interrupted: bool, transferred: int): Answer
  {
    if result.Returned? && !result.threw && (interrupted || result.interrupted) then Interrupted(transferred)
    else Native(result)
  }

  /** The Java call returns normally. */
  predicate Normal(r: Answer) { r.Native? && r.result.Returned? && !r.result.threw }

  function ResultValue(result: Result): int { if result.Returned? then result.value else 0 }

  class InputStream {
    const data: CurlData
    var closed: bool

    constructor (data: CurlData)
      ensures this.data == data && !closed
    {
      this.data, closed := data, false;
    }

    /**
      read(byte[], int, int), for any arguments; the flags are the interruptions seen before and after the native call.
    */
    method Read(b: array<Byte>, off: int, len: int, sc: Script, before: bool, after: bool) returns (r: Answer)
      requires data.Valid()
      modifies data, b
      ensures data.Valid()
      ensures r == OutOfBounds <==> !(0 <= off && 0 <= len && off + len <= b.Length)
      ensures r != OutOfBounds ==> (r == Closed <==> closed)
      ensures !Inside(off, len, b.Length) || closed || before ==> data.View() == old(data.View()) && b[..] == old(b[..])
      ensures Inside(off, len, b.Length) && !closed && before ==> r == Interrupted(0)
      ensures Normal(r) ==> !before && !after && !r.result.interrupted
      ensures Inside(off, len, b.Length) && !closed && !before ==>
        && (data.View(), r) == (
             var (s, res) := Protocol.Read(old(data.View()), IntoArray(off), len, data.signedChar, sc);
             (s, Checked(res, after, ResultValue(res))))
        && data.ArrayHolds(b, old(b[..]), off, Stored(old(data.View()), data.View()))
    {
      if off < 0 || len < 0 || len > b.Length - off {
        return OutOfBounds;
      }
      if closed {
        return Closed;
      }
      if before {
        return Interrupted(0);
      }
      var result := data.Read(b, off, len, sc);
      return Checked(result, after, ResultValue(result));
    }

    /** read(). */
    method ReadOne(sc: Script, before: bool, after: bool) returns (r: Answer)
      requires data.Valid()
      modifies data
      ensures data.Valid()
      ensures r == Closed <==> closed
      ensures closed || before ==> data.View() == old(data.View())
      ensures !closed && before ==> r == Interrupted(0)
      ensures Normal(r) ==> !before && !after && !r.result.interrupted
      ensures !closed && !before ==>
        (data.View(), r) ==
          var (s, res) := Protocol.Read(old(data.View()), SingleByte, 1, data.signedChar, sc);
          (s, Checked(res, after, ResultValue(res)))
    {
      if closed {
        return Closed;
      }
      if before {
        return Interrupted(0);
      }
      var result := data.Read(null, 0, 1, sc);
      return Checked(result, after, ResultValue(result));
    }

    method Close()
      modifies this
      ensures closed
    {
      closed := true;
    }
  }

  class OutputStream {
    const data: CurlData
    var closed: bool

    constructor (data: CurlData)
      ensures this.data == data && !closed
    {
      this.data, closed := data, false;
    }

    /** write(byte[], int, int), for any arguments.  The count that the native side returns is not looked at. */
    method Write(b: array<Byte>, off: int, len: int, sc: Script, before: bool, after: bool) returns (r: Answer)
      requires data.Valid()
      modifies data, data.bufferForReceiving
      ensures data.Valid()
      ensures r == OutOfBounds <==> !(0 <= off && 0 <= len && off + len <= b.Length)
      ensures r != OutOfBounds ==> (r == Closed <==> closed)
      ensures !Inside(off, len, b.Length) || closed || before ==> data.View() == old(data.View())
      ensures Inside(off, len, b.Length) && !closed && before ==> r == Interrupted(0)
      ensures Normal(r) ==> !before && !after && !r.result.interrupted
      ensures Inside(off, len, b.Length) && !closed && !before ==>
        (data.View(), r) ==
          var (s, res) := Protocol.Write(old(data.View()), old(b[off..off + len]), sc);
          (s, Checked(res, after, ResultValue(res)))
    {
      if off < 0 || len < 0 || off > b.Length - len {
        return OutOfBounds;
      }
      if closed {
        return Closed;
      }
      if before {
        return Interrupted(0);
      }
      var result := data.Write(b, off, len, sc);
      return Checked(result, after, ResultValue(result));
    }

    /** close: the first call ends the request body, later ones do nothing. */
    method Close(sc: Script, before: bool, after: bool) returns (r: Answer)
      requires data.Valid()
      modifies this, data, data.bufferForReceiving
      ensures data.Valid() && closed
      ensures old(closed) || before ==> data.View() == old(data.View())
      ensures old(closed) ==> r == Native(Returned(0, false, false))
      ensures !old(closed) && before ==> r == Interrupted(0)
      ensures !old(closed) && Normal(r) ==> !before && !after && !r.result.interrupted
      ensures !old(closed) && !before ==>
        (data.View(), r) == var (s, res) := Protocol.CloseOutput(old(data.View()), sc); (s, Checked(res, after, 0))
    {
      if closed {
        return Native(Returned(0, false, false));
      }
      closed := true;
      if before {
        return Interrupted(0);
      }
      var result := data.CloseOutput(sc);
      return Checked(result, after, 0);
    }
  }

  /** An interruption in the middle of a read is thrown with the number of bytes that were stored by then. */
  lemma {:induction false} InterruptedProgress(signedChar: bool)
    ensures var s1 := Configure(CREATED, Download([1, 2, 3, 4, 5, 6]), HEADERS).0;
      var rounds := [CALM.(events := [Offer(3)]), CALM.(interruptedBefore := true)];
      var (s2, res) := Protocol.Read(s1, IntoArray(0), 6, signedChar, Script([], false, false, rounds, false));
      Stored(s1, s2) == [1, 2, 3] && Checked(res, false, ResultValue(res)) == Interrupted(3)
  {
    var o := Download([1, 2, 3, 4, 5, 6]);
    ConfigureWorks(o);
    var rounds := [CALM.(events := [Offer(3)]), CALM.(interruptedBefore := true)];
    var s1 := ReadStart(Configured(o), 6);
    OneEvent(s1, Offer(3));
    var s2 := OnEvent(s1, Offer(3));
    assert o.body[0..3][0..] == [1, 2, 3] && s2.recv == Recv(false, 3, 0, [] + [1, 2, 3]);
    assert PerformOnce(s1, rounds[0]) == (s2, Running);
    assert rounds[1..][0] == rounds[1] && PerformOnce(s2, rounds[1]) == (s2, Stopped(true));
    assert Perform(s2, rounds[1..]) == (s2, Stopped(true));
    assert Perform(s1, rounds) == (s2, Stopped(true));
  }

  /**
    The exception for an interruption of a read says how many bytes are in the array, for counts other than 1; or -1,
    when none is and the interruption came after the end of the body was seen.
  */
  lemma {:induction false} InterruptedReadCounts(s: State, t: Target, count: nat, signedChar: bool, sc: Script,
                                                 after: bool)
    requires Quiet(s) && !s.busy && count != 1
    ensures var (s', res) := Protocol.Read(s, t, count, signedChar, sc);
      var r := Checked(res, after, ResultValue(res));
      && (r.Interrupted? ==> r.transferred == |Stored(s, s')| || (r.transferred == -1 && Stored(s, s') == [] && after))
      && (res.Returned? && !res.threw && (after || sc.interruptedFirst || sc.interruptedLast) ==> r.Interrupted?)
  {
    if Protocol.Read(s, t, count, signedChar, sc).1.Returned? {
      ReadCounts(s, t, count, signedChar, sc);
    }
  }

  /** That of a write says how many bytes libcurl took, and these are the first of the data. */
  lemma {:induction false} InterruptedWriteCounts(s: State, data: seq<Byte>, sc: Script, after: bool)
    requires Quiet(s) && !s.busy
    ensures var (s', res) := Protocol.Write(s, data, sc);
      var r := Checked(res, after, ResultValue(res));
      r.Interrupted? ==> 0 <= r.transferred <= |data| && s'.send.taken == s.send.taken + data[..r.transferred]
  {
    if Protocol.Write(s, data, sc).1.Returned? && !Protocol.Write(s, data, sc).1.threw {
      WriteHandsOver(s, data, sc);
    }
  }

  /** Bytes past the announced length are dropped without an exception: one byte announced, two written, one taken. */
  lemma {:induction false} WriteCanDrop()
    ensures var s1 := Configure(CREATED, Options([], false, true, true, 1), HEADERS).0;
      var (s2, res) := Protocol.Write(s1, [7, 8], AskOnce(1));
      s2.send.taken == [7] && Checked(res, false, ResultValue(res)) == Native(Returned(1, false, false))
  {
    var o := Options([], false, true, true, 1);
    ConfigureWorks(o);
    OneEvent(WriteStart(Configured(o), [7, 8]), Ask(1));
  }
}
