/** header_callback's reading of one line: where the name ends, where the value begins, and what kind of line it is. */
module HeaderLine {
  import opened CStrings

  datatype Line = Status(text: string) | End | Field(name: string, value: string)

  /** Bytes that are trimmed from the end of a name or a value; only spaces are trimmed from the front. */
  predicate IsBlank(c: char) { c == '\0' || c == ' ' || c == '\r' || c == '\n' }

  function TrimStart(s: string): string
  {
    if s != "" && s[0] == ' ' then TrimStart(s[1..]) else s
  }

  function TrimEnd(s: string): string
    decreases |s|
  {
    if s != "" && IsBlank(s[|s| - 1]) then TrimEnd(s[..|s| - 1]) else s
  }

  /** Trimming the end takes away NULs, spaces, returns and line feeds, all that there are, and nothing else. */
  lemma {:induction false} TrimEndExactly(s: string)
    ensures var t := TrimEnd(s);
      && t <= s && (forall j :: |t| <= j < |s| ==> s[j] in "\0 \r\n")
      && (t != "" ==> t[|t| - 1] !in "\0 \r\n")
    decreases |s|
  {
    if s != "" && IsBlank(s[|s| - 1]) { TrimEndExactly(s[..|s| - 1]); }
  }

  /** Trimming the start takes away all the spaces there. */
  lemma {:induction false} TrimStartExactly(s: string)
    ensures var t := TrimStart(s);
      |t| <= |s| && s == Spaces(|s| - |t|) + t && (t != "" ==> t[0] != ' ')
    decreases |s|
  {
    if s != "" && s[0] == ' ' {
      TrimStartExactly(s[1..]);
      assert s == [' '] + s[1..];
    } else {
      assert s == Spaces(0) + s;
    }
  }

  /** The position of the first colon, or the length. */
  function Colon(s: string): (i: nat)
    ensures i <= |s| && (i < |s| ==> s[i] == ':') && forall j :: 0 <= j < i ==> s[j] != ':'
  {
    if s == "" || s[0] == ':' then 0 else 1 + Colon(s[1..])
  }

  predicate EndsInCrLf(line: string) { |line| >= 2 && line[|line| - 2] == '\r' && line[|line| - 1] == '\n' }

  predicate StartsHttp(line: string) { |line| > 5 && line[..5] == "HTTP/" }

  /**
    What the callback makes of a line; the value is trimmed from one byte past the line, `after`.  Name and value are
    copied as C strings, so either ends at a NUL inside it.
  */
  function Read(line: string, after: char): Line
  {
    var i := Colon(line);
    if i == |line| && EndsInCrLf(line) then
      if StartsHttp(line) then Status(UpToNul(TrimEnd(line))) else End
    else
      Field(UpToNul(TrimEnd(line[..i])), UpToNul(TrimEnd(TrimStart((line + [after])[Min(i + 1, |line| + 1)..]))))
  }

  function Min(a: nat, b: nat): nat { if a < b then a else b }

  /** wsp_trim_start. */
  method WspTrimStart(mem: string, first: nat, afterLast: nat) returns (f: nat)
    requires first <= afterLast <= |mem|
    ensures first <= f <= afterLast && mem[f..afterLast] == TrimStart(mem[first..afterLast])
  {
    f := first;
    while f != afterLast
      invariant first <= f <= afterLast && TrimStart(mem[f..afterLast]) == TrimStart(mem[first..afterLast])
      decreases afterLast - f
    {
      if mem[f] == ' ' {
        assert mem[f..afterLast][1..] == mem[f + 1..afterLast];
        f := f + 1;
      } else {
        return;
      }
    }
  }

  /** wsp_trim_end. */
  method WspTrimEnd(mem: string, first: nat, afterLast: nat) returns (l: nat)
    requires first <= afterLast <= |mem|
    ensures first <= l <= afterLast && mem[first..l] == TrimEnd(mem[first..afterLast])
  {
    l := afterLast;
    while l != first
      invariant first <= l <= afterLast && TrimEnd(mem[first..l]) == TrimEnd(mem[first..afterLast])
      decreases l - first
    {
      if mem[l - 1] == '\0' || mem[l - 1] == ' ' || mem[l - 1] == '\r' || mem[l - 1] == '\n' {
        assert mem[first..l][..l - first - 1] == mem[first..l - 1];
        l := l - 1;
      } else {
        return;
      }
    }
  }

  /** The parsing half of header_callback; a line without a colon must be long enough to look at its last two bytes. */
  method Parse(line: string, after: char) returns (r: Line)
    requires |line| >= 2 || ':' in line
    ensures r == Read(line, after)
  {
    var i := 0;
    while i < |line|
      invariant 0 <= i <= |line| && forall j :: 0 <= j < i ==> line[j] != ':'
    {
      if line[i] == ':' {
        break;
      }
      i := i + 1;
    }
    assert i == Colon(line);
    var mem := line + [after];
    var statusLine := false;
    if i == |line| && line[|line| - 2] == '\r' && line[|line| - 1] == '\n' {
      if i > 5 && line[0] == 'H' && line[1] == 'T' && line[2] == 'T' && line[3] == 'P' && line[4] == '/' {
        statusLine := true;
        assert line[..5] == "HTTP/";
      } else {
        assert StartsHttp(line) ==> forall j :: 0 <= j < 5 ==> line[j] == line[..5][j];
        return End;
      }
    }
    var end := WspTrimEnd(mem, 0, i);
    assert mem[0..i] == line[..i];
    var valStart := if i + 1 < |line| + 1 then i + 1 else |line| + 1;
    var valEnd := |line| + 1;
    assert mem[valStart..valEnd] == mem[valStart..];
    valStart := WspTrimStart(mem, valStart, valEnd);
    valEnd := WspTrimEnd(mem, valStart, valEnd);
    if statusLine {
      assert line[..|line|] == line;
      return Status(UpToNul(mem[0..end]));
    }
    return Field(UpToNul(mem[0..end]), UpToNul(mem[valStart..valEnd]));
  }

  // ---------------------------------------------------------------- reading undoes printing

  function Spaces(n: nat): string { seq(n, _ => ' ') }

  predicate Trimmed(s: string) { s == "" || (s[0] != ' ' && !IsBlank(s[|s| - 1])) }

  predicate NoColon(s: string) { forall j :: 0 <= j < |s| ==> s[j] != ':' }

  /** A header line with any number of spaces around the colon and behind the value. */
  function Print(name: string, value: string, a: nat, b: nat, c: nat): string
  {
    name + Spaces(a) + (":" + (Spaces(b) + (value + (Spaces(c) + "\r\n"))))
  }

  lemma {:induction false} TrimStartSpaces(n: nat, s: string)
    requires s == "" || s[0] != ' '
    ensures TrimStart(Spaces(n) + s) == s
  {
    if n > 0 {
      assert (Spaces(n) + s)[1..] == Spaces(n - 1) + s;
      TrimStartSpaces(n - 1, s);
    } else {
      assert Spaces(0) + s == s;
    }
  }

  lemma {:induction false} TrimEndBlanks(s: string, blanks: string)
    requires s == "" || !IsBlank(s[|s| - 1])
    requires forall j :: 0 <= j < |blanks| ==> IsBlank(blanks[j])
    ensures TrimEnd(s + blanks) == s
    decreases |blanks|
  {
    if blanks == "" {
      assert s + blanks == s;
    } else {
      assert (s + blanks)[..|s + blanks| - 1] == s + blanks[..|blanks| - 1];
      TrimEndBlanks(s, blanks[..|blanks| - 1]);
    }
  }

  lemma ColonAt(s: string, i: nat)
    requires i < |s| && s[i] == ':' && forall j :: 0 <= j < i ==> s[j] != ':'
    ensures Colon(s) == i
  {
  }

  /**
    Reading the line that prints a name and a value gives them back exactly when the byte past the line is blank and
    there is no NUL in them.
  */
  lemma {:induction false} ReadPrint(name: string, value: string, a: nat, b: nat, c: nat, after: char)
    requires NoColon(name) && (name == "" || !IsBlank(name[|name| - 1])) && Trimmed(value)
    ensures Read(Print(name, value, a, b, c), after) == Field(name, value) <==>
      IsBlank(after) && NulFree(name) && NulFree(value)
  {
    var line := Print(name, value, a, b, c);
    SplitAtColon(name + Spaces(a), Spaces(b) + (value + (Spaces(c) + "\r\n")), after);
    TrimEndBlanks(name, Spaces(a));
    NulFreeStays(name);
    assert Spaces(b) + (value + (Spaces(c) + "\r\n")) + [after] == Spaces(b) + (value + (Spaces(c) + "\r\n" + [after]));
    ReadValue(value, b, c, after);
  }

  lemma SplitAtColon(head: string, tail: string, after: char)
    requires NoColon(head)
    ensures var line := head + (":" + tail);
      && Colon(line) == |head| < |line| && line[..|head|] == head
      && (line + [after])[|head| + 1..] == tail + [after]
  {
    var line := head + (":" + tail);
    ColonAt(line, |head|);
  }

  lemma {:induction false} ReadValue(value: string, b: nat, c: nat, after: char)
    requires Trimmed(value)
    ensures UpToNul(TrimEnd(TrimStart(Spaces(b) + (value + (Spaces(c) + "\r\n" + [after]))))) == value <==>
      IsBlank(after) && NulFree(value)
  {
    var tail := Spaces(c) + "\r\n" + [after];
    if value == "" {
      assert Spaces(b) + (value + tail) == Spaces(b + c) + ("\r\n" + [after]);
      TrimStartSpaces(b + c, "\r\n" + [after]);
      ReadTail("", 0, after);
      assert "" + (Spaces(0) + "\r\n" + [after]) == "\r\n" + [after];
    } else {
      TrimStartSpaces(b, value + tail);
      ReadTail(value, c, after);
    }
  }

  /** The end of a printed line, trimmed and copied. */
  lemma {:induction false} ReadTail(value: string, c: nat, after: char)
    requires Trimmed(value)
    ensures UpToNul(TrimEnd(value + (Spaces(c) + "\r\n" + [after]))) == value <==> IsBlank(after) && NulFree(value)
  {
    var tail := Spaces(c) + "\r\n" + [after];
    NulFreeStays(value);
    if IsBlank(after) {
      TrimEndBlanks(value, tail);
    } else {
      assert (value + tail)[|value + tail| - 1] == after;
      assert TrimEnd(value + tail) == value + tail;
      if NulFree(value) {
        assert forall j :: 0 <= j < |tail| ==> tail[j] != '\0';
        NulFreeStays(value + tail);
      } else {
        var j :| 0 <= j < |value| && value[j] == '\0';
        assert (value + tail)[j] == '\0';
      }
    }
  }

  // ---------------------------------------------------------------- printed lines

  /** A line that survives printing: no colon in a status line or a name, no blank ends, no NUL. */
  predicate Printable(line: Line)
  {
    match line
    case Status(text) => |text| > 5 && text[..5] == "HTTP/" && NoColon(text) && !IsBlank(text[|text| - 1]) &&
      NulFree(text)
    case Field(name, value) =>
      NoColon(name) && (name == "" || !IsBlank(name[|name| - 1])) && Trimmed(value) && NulFree(name) && NulFree(value)
    case End => true
  }

  /** The text of a line, with any spaces around the parts of a field. */
  ghost predicate Prints(text: string, line: Line)
  {
    match line
    case Status(status) => text == status + "\r\n"
    case Field(name, value) => exists a: nat, b: nat, c: nat :: text == Print(name, value, a, b, c)
    case End => text == "\r\n"
  }

  /** Every printed line is read as what it prints, when a blank byte follows it. */
  lemma {:induction false} PrintedIsRead(text: string, line: Line, after: char)
    requires Printable(line) && Prints(text, line) && IsBlank(after)
    ensures (|text| >= 2 || ':' in text) && Read(text, after) == line
  {
    match line
    case Status(status) =>
      assert text[..5] == status[..5];
      TrimEndBlanks(status, "\r\n");
      NulFreeStays(status);
      assert forall j :: 0 <= j < |text| ==> text[j] != ':';
    case Field(name, value) =>
      var a: nat, b: nat, c: nat :| text == Print(name, value, a, b, c);
      ReadPrint(name, value, a, b, c, after);
    case End =>
  }

  /** A status line is recognised as one exactly when its reason phrase has no colon; otherwise it becomes a field. */
  lemma {:induction false} StatusRecognised(rest: string, after: char)
    ensures Read("HTTP/" + rest + "\r\n", after).Status? <==> NoColon(rest)
    ensures !NoColon(rest) ==> Read("HTTP/" + rest + "\r\n", after).Field?
  {
    var line := "HTTP/" + rest + "\r\n";
    assert line[..5] == "HTTP/";
    assert forall j :: 0 <= j < |rest| ==> line[5 + j] == rest[j];
    if !NoColon(rest) {
      var j :| 0 <= j < |rest| && rest[j] == ':';
      assert line[5 + j] == ':';
    } else {
      forall j | 0 <= j < |line| ensures line[j] != ':' {
        if 5 <= j < 5 + |rest| { assert line[j] == rest[j - 5]; }
      }
    }
  }

  ghost predicate IsStatusText(line: string) { exists rest :: line == "HTTP/" + rest + "\r\n" }

  ghost predicate IsLine(line: string) { exists rest :: line == rest + "\r\n" }

  /**
    Which lines are which: a status line and a blank line have no colon and end in a line break, all others are fields.
  */
  lemma {:induction false} LineKinds(line: string, after: char)
    ensures Read(line, after).Status? <==> ':' !in line && IsStatusText(line)
    ensures Read(line, after).End? <==> ':' !in line && IsLine(line) && !IsStatusText(line)
    ensures Read(line, after).Field? <==> ':' in line || !IsLine(line)
  {
    LineBreak(line);
    if EndsInCrLf(line) && StartsHttp(line) {
      assert line == "HTTP/" + line[5..|line| - 2] + "\r\n";
    }
    if rest :| line == "HTTP/" + rest + "\r\n" {
      assert line[..5] == "HTTP/";
    }
  }

  lemma {:induction false} LineBreak(line: string)
    ensures IsLine(line) <==> EndsInCrLf(line)
  {
    if EndsInCrLf(line) {
      assert line == line[..|line| - 2] + "\r\n";
    }
  }
}
