/** MutableUrl: a growable character buffer, and the write-back of the effective URL after a redirect. */
module MutableUrl {
  import opened Decimal
  import opened CStrings

  const MAX_ARRAY_LENGTH := INT_MAX - 32
  const MIN_GROW_COUNT := 10

  function Max(a: int, b: int): int { if a > b then a else b }
  function Min(a: int, b: int): int { if a < b then a else b }

  /** grow: at least half as much again, at least ten more, never beyond the limit; None is the thrown exception. */
  datatype NewSize = TooLarge | Size(n: nat)

  function Grow(bufferLength: nat, elements: nat, additions: nat): (r: NewSize)
    ensures r.TooLarge? <==> elements + additions > MAX_ARRAY_LENGTH
    ensures r.Size? ==> elements + additions <= r.n <= MAX_ARRAY_LENGTH
    ensures r.Size? && bufferLength <= MAX_ARRAY_LENGTH ==> bufferLength <= r.n
    ensures r.Size? ==> r.n >= Min(MAX_ARRAY_LENGTH, bufferLength + Max(bufferLength * 3 / 2, MIN_GROW_COUNT))
    ensures r.Size? && r.n > elements + additions ==> r.n <= bufferLength + Max(bufferLength * 3 / 2, MIN_GROW_COUNT)
  {
    var growBy := Min(Max(bufferLength * 3 / 2, MIN_GROW_COUNT), MAX_ARRAY_LENGTH);
    var growTo := Min(MAX_ARRAY_LENGTH, growBy + bufferLength);
    var newSize := Max(elements + additions, growTo);
    if newSize > MAX_ARRAY_LENGTH then TooLarge else Size(newSize)
  }

  /** Whether an append finds or can make the room it needs. */
  predicate Fits(length: nat, capacity: nat, additions: nat)
  {
    length + additions <= capacity || length + additions <= MAX_ARRAY_LENGTH
  }

  lemma Appended(t: string, s: string, b: string, b': string, n: nat)
    requires n + |s| <= |b| == |b'| && b[..n] == t && b'[n..n + |s|] == s
    requires forall k :: 0 <= k < |b| && !(n <= k < n + |s|) ==> b'[k] == b[k]
    ensures b'[..n + |s|] == t + s
    ensures forall k :: n + |s| <= k < |b| ==> b'[k] == b[k]
  {
    assert b'[..n + |s|] == b'[..n] + b'[n..n + |s|];
  }

  /** The cell of a buffer, which was zero before the buffer grew to it. */
  function CellAt(cells: string, k: nat): char { if k < |cells| then cells[k] else '\0' }

  function CellsAt(cells: string, from: nat, n: nat): string
  {
    seq(n, i requires 0 <= i < n => CellAt(cells, from + i))
  }

  class MutableUrl {
    var buffer: array<char>
    var length: nat

    ghost predicate Valid()
      reads this
    {
      length <= buffer.Length
    }

    /** Every cell behind the text is zero. */
    ghost predicate ZeroTail()
      requires Valid()
      reads this, buffer
    {
      forall i :: length <= i < buffer.Length ==> buffer[i] == '\0'
    }

    function Text(): string
      requires Valid()
      reads this, buffer
    {
      buffer[..length]
    }

    constructor ()
      ensures Valid() && ZeroTail() && Text() == "" && fresh(buffer)
    {
      buffer := new char[0];
      length := 0;
    }

    /** Arrays.copyOf: the old cells, then zeros. */
    method CopyOf(n: nat) returns (b: array<char>)
      requires n >= buffer.Length
      ensures fresh(b) && b.Length == n && b[..buffer.Length] == buffer[..]
      ensures forall i :: buffer.Length <= i < n ==> b[i] == '\0'
    {
      b := new char[n](_ => '\0');
      for i := 0 to buffer.Length
        invariant forall k :: 0 <= k < i ==> b[k] == buffer[k]
        invariant forall k :: i <= k < n ==> b[k] == '\0'
      {
        b[i] := buffer[i];
      }
    }

    /** ensureBufferSpace; a sum that does not fit an int fails later, in the copy. */
    method EnsureBufferSpace(additions: nat) returns (ok: bool)
      requires Valid()
      modifies this`buffer
      ensures Valid() && Text() == old(Text()) && (buffer == old(buffer) || fresh(buffer))
      ensures ok <==> Fits(length, old(buffer.Length), additions)
      ensures ok ==> length + additions <= buffer.Length
      ensures ok && length + additions > old(buffer.Length) ==>
        Size(buffer.Length) == Grow(old(buffer.Length), length, additions)
      ensures !ok ==> buffer == old(buffer)
      ensures old(ZeroTail()) ==> ZeroTail()
      ensures forall k :: 0 <= k < buffer.Length ==> buffer[k] == CellAt(old(buffer[..]), k)
    {
      ok := true;
      if length + additions > buffer.Length {
        match Grow(buffer.Length, length, additions) {
          case TooLarge => return false;
          case Size(n) =>
            var b := CopyOf(n);
            assert b[..length] == b[..buffer.Length][..length];
            buffer := b;
        }
      }
    }

    /** Copy characters behind the text and make them part of it. */
    method AppendChars(s: string) returns (ok: bool)
      requires Valid()
      modifies this, buffer
      ensures Valid() && (buffer == old(buffer) || fresh(buffer))
      ensures ok <==> Fits(old(length), old(buffer.Length), |s|)
      ensures Text() == if ok then old(Text()) + s else old(Text())
      ensures old(ZeroTail()) ==> ZeroTail()
    {
      ok := EnsureBufferSpace(|s|);
      if ok {
        CopyIn(s);
        length := length + |s|;
      }
    }

    /** getChars and arraycopy: the cells behind the text. */
    method CopyIn(s: string)
      requires Valid() && length + |s| <= buffer.Length
      modifies buffer
      ensures forall k :: 0 <= k < buffer.Length ==>
        buffer[k] == if length <= k < length + |s| then s[k - length] else old(buffer[k])
    {
      for i := 0 to |s|
        invariant forall k :: 0 <= k < buffer.Length ==>
          buffer[k] == if length <= k < length + i then s[k - length] else old(buffer[k])
      {
        buffer[length + i] := s[i];
      }
    }

    /** append(long): the canonical decimal text, except for the least long. */
    method AppendLong(x: Long) returns (ok: bool)
      requires Valid()
      modifies this, buffer
      ensures Valid() && (buffer == old(buffer) || fresh(buffer))
      ensures ok ==> Text() == old(Text()) + (if x == LONG_MIN then "-2147483648-0" else SignedText(x))
      ensures x != LONG_MIN ==>
        && (ok <==> Fits(old(length), old(buffer.Length), |SignedText(x)|))
        && (!ok ==> Text() == old(Text()))
      ensures old(ZeroTail()) ==> ZeroTail()
    {
      if x == LONG_MIN {
        ok := AppendChars("-2147483648");
        if !ok {
          return;
        }
      }
      var size := StringSize(if x < 0 then Negate(x) else x);
      size := if x < 0 then size + 1 else size;
      assert size == |Printout(x)|;
      ok := PrintBehind(x, size, Printout(x));
    }

    method PrintBehind(x: Long, size: nat, ghost s: string) returns (ok: bool)
      requires Valid() && size == |s| && s == Printout(x)
      modifies this, buffer
      ensures Valid() && (buffer == old(buffer) || fresh(buffer))
      ensures ok <==> Fits(old(length), old(buffer.Length), size)
      ensures Text() == if ok then old(Text()) + s else old(Text())
      ensures old(ZeroTail()) ==> ZeroTail()
    {
      ok := EnsureBufferSpace(size);
      if ok {
        ghost var t, b := Text(), buffer[..];
        GetNumberChars(x, length + size, buffer);
        Appended(t, s, b, buffer[..], length);
        length := length + size;
      }
    }

    /**
      append(String, off, count), as written: getChars is given the count where it expects the end, and the last `off`
      characters are what the buffer happens to hold there.
    */
    method AppendPart(s: string, off: nat, count: nat) returns (ok: bool)
      requires Valid()
      modifies this, buffer
      ensures Valid() && (buffer == old(buffer) || fresh(buffer)) && (old(ZeroTail()) ==> ZeroTail())
      ensures ok <==> off <= count <= |s| && Fits(old(length), old(buffer.Length), count)
      ensures !ok ==> Text() == old(Text())
      ensures ok ==> Text() == old(Text()) + s[off..count] + CellsAt(old(buffer[..]), old(length) + count - off, off)
      ensures ok && old(ZeroTail()) ==> Text() == old(Text()) + PartAppended(s, off, count)
    {
      ok := EnsureBufferSpace(count);
      if !ok || !(off <= count <= |s|) {
        return false;
      }
      CopyIn(s[off..count]);
      length := length + count;
      return true;
    }

    /** setLength. */
    method SetLength(n: nat)
      requires Valid()
      modifies this, buffer
      ensures Valid() && length == n && (buffer == old(buffer) || fresh(buffer))
      ensures old(ZeroTail()) ==> ZeroTail()
      ensures Text() == if n <= old(length) then old(Text())[..n]
        else old(Text()) + CellsAt(old(buffer[..]), old(length), n - old(length))
      ensures old(ZeroTail()) && n > old(length) ==> Text() == old(Text()) + Nuls(n - old(length))
    {
      ghost var cells, was := buffer[..], length;
      if n > buffer.Length {
        var b := CopyOf(n);
        assert forall i :: 0 <= i < buffer.Length ==> b[i] == b[..buffer.Length][i];
        buffer := b;
      } else if n < length {
        ClearFrom(n);
      }
      assert forall k :: 0 <= k < n ==> buffer[k] == CellAt(cells, k);
      length := n;
      if n > was {
        assert Text() == buffer[..was] + buffer[was..n];
        assert buffer[was..n] == CellsAt(cells, was, n - was);
      }
    }

    method ClearFrom(n: nat)
      requires Valid() && n <= length
      modifies buffer
      ensures forall k :: 0 <= k < buffer.Length ==> buffer[k] == if n <= k < length then '\0' else old(buffer[k])
    {
      for i := n to length
        invariant forall k :: 0 <= k < buffer.Length ==> buffer[k] == if n <= k < i then '\0' else old(buffer[k])
      {
        buffer[i] := '\0';
      }
    }

    method Clear()
      requires Valid()
      modifies this, buffer
      ensures Valid() && Text() == "" && buffer == old(buffer)
      ensures old(ZeroTail()) ==> ZeroTail()
    {
      ClearFrom(0);
      length := 0;
    }

    method Release()
      modifies this
      ensures Valid() && ZeroTail() && Text() == "" && fresh(buffer)
    {
      buffer := new char[0];
      length := 0;
    }

    // -------------------------------------------------------------- after a redirect

    /** The end of nativeConfigure: the effective URL, if it is another one, is written into the array or a new one. */
    method WriteBack(effective: string) returns (url: array<char>)
      requires Valid() && NulFree(effective)
      modifies buffer
      ensures url == buffer || (fresh(url) && |effective| > buffer.Length && buffer[..] == old(buffer[..]))
      ensures url[..] == Written(old(buffer[..]), length, effective)
    {
      url := buffer;
      if effective != CString(Text()) {
        if |effective| > buffer.Length {
          url := new char[|effective|];
        }
        CopyTo(url, effective);
        if |effective| < buffer.Length {
          url[|effective|] := '\0';
        }
        assert url[..] == Written(old(buffer[..]), length, effective);
      }
    }

    method CopyTo(url: array<char>, s: string)
      requires |s| <= url.Length
      modifies url
      ensures forall k :: 0 <= k < url.Length ==> url[k] == if k < |s| then s[k] else old(url[k])
    {
      for i := 0 to |s|
        invariant forall k :: 0 <= k < url.Length ==> url[k] == if k < i then s[k] else old(url[k])
      {
        url[i] := s[i];
      }
    }

    /** updateUrl: the array is the text up to its first NUL, unless it is a new array. */
    method UpdateUrl(newUrl: array<char>)
      requires Valid()
      modifies this
      ensures Valid() && buffer == newUrl
      ensures Text() == if newUrl == old(buffer) then UpToNul(newUrl[..]) else newUrl[..]
    {
      if newUrl == buffer {
        for i := 0 to newUrl.Length
          invariant forall j :: 0 <= j < i ==> newUrl[j] != '\0'
        {
          if newUrl[i] == '\0' {
            length := i;
            FirstNulIs(newUrl[..], i);
            return;
          }
        }
        FirstNulIs(newUrl[..], newUrl.Length);
      } else {
        buffer := newUrl;
      }
      length := newUrl.Length;
    }

    /** What configure does to the URL when redirects are followed. */
    method FollowRedirects(effective: string)
      requires Valid() && NulFree(effective)
      modifies this, buffer
      ensures Valid() && (buffer == old(buffer) || fresh(buffer))
      ensures buffer[..] == Written(old(buffer[..]), old(length), effective)
      ensures Text() == UpToNul(Written(old(buffer[..]), old(length), effective))
    {
      var url := WriteBack(effective);
      if url != buffer {
        FirstNulIs(url[..], url.Length);
      }
      UpdateUrl(url);
    }
  }

  // ---------------------------------------------------------------- the URL after configure

  /** The cells of the array that nativeConfigure hands back. */
  function Written(cells: string, length: nat, effective: string): string
    requires length <= |cells|
  {
    if effective == CString(cells[..length]) then cells
    else if |effective| >= |cells| then effective
    else effective + "\0" + cells[|effective| + 1..]
  }

  /** After a redirect the URL is exactly the effective one, shorter, equal or longer. */
  lemma RedirectReplaces(cells: string, length: nat, effective: string)
    requires length <= |cells| && NulFree(effective) && effective != CString(cells[..length])
    ensures UpToNul(Written(cells, length, effective)) == effective
  {
    var w := Written(cells, length, effective);
    assert w[..|effective|] == effective;
    FirstNulIs(w, |effective|);
  }

  /**
    What is compared are the low bytes of the characters, so a URL with a wider one may be taken for the effective URL
    and stay.
  */
  lemma WideUrlStays()
    ensures var cells := "http://a/\U{0141}"; UpToNul(Written(cells, |cells|, "http://a/A")) == cells != "http://a/A"
  {
    var cells := "http://a/\U{0141}";
    var bytes := seq(|cells|, i requires 0 <= i < |cells| => (cells[i] as int % 256) as char);
    assert cells[..|cells|] == cells;
    assert bytes == "http://a/A";
    FirstNulIs(bytes, |bytes|);
    assert bytes[..|bytes|] == bytes;
    FirstNulIs(cells, |cells|);
    assert cells[9] == '\U{0141}';
  }

  /** Without one it stays exactly when the text has no NUL and is followed by one or by nothing. */
  lemma NoRedirectKeeps(cells: string, length: nat)
    requires length <= |cells|
    ensures UpToNul(Written(cells, length, CString(cells[..length]))) == cells[..length] <==>
      NulFree(cells[..length]) && (length == |cells| || cells[length] == '\0')
  {
    assert |UpToNul(cells)| == FirstNul(cells);
    if NulFree(cells[..length]) && (length == |cells| || cells[length] == '\0') {
      assert forall j :: 0 <= j < length ==> cells[j] == cells[..length][j];
      FirstNulIs(cells, length);
    }
  }

  /**
    A redirect to a shorter URL leaves the rest of the longer one behind the NUL.  An append overwrites the NUL, and
    the next configure, redirected nowhere, takes the left-over for part of the URL.
  */
  lemma StaleTail()
    ensures var redirected := Written("http://a/long", 13, "http://b");
      var appended := redirected[..8] + "/" + redirected[9..];
      && UpToNul(redirected) == "http://b"
      && UpToNul(Written(appended, 9, "http://b/")) == "http://b/long"
  {
    var cells, redirected := "http://a/long", "http://b" + "\0" + "long";
    CStringAscii("http://a/long");
    assert cells[..13] == cells;
    assert cells[9..] == "long";
    assert Written(cells, 13, "http://b") == redirected;
    RedirectReplaces(cells, 13, "http://b");
    var appended := redirected[..8] + "/" + redirected[9..];
    assert redirected[..8] == "http://b" && redirected[9..] == "long";
    assert appended == "http://b/long";
    assert appended[..9] == "http://b/";
    CStringAscii("http://b/");
    FirstNulIs(appended, 13);
    assert appended[..13] == appended;
  }

  /** What append(String, off, count) adds to a buffer whose cells behind the text are zero. */
  function PartAppended(s: string, off: nat, count: nat): string
    requires off <= count <= |s|
  {
    s[off..count] + Nuls(off)
  }

  /** It is the requested part exactly when the offset is 0 or the characters it misses are NULs. */
  lemma PartAppendedExactly(s: string, off: nat, count: nat)
    requires off <= count && off + count <= |s|
    ensures PartAppended(s, off, count) == s[off..off + count] <==> s[count..off + count] == Nuls(off)
  {
    assert s[off..off + count] == s[off..count] + s[count..off + count];
    assert |s[off..count]| == count - off;
    if PartAppended(s, off, count) == s[off..off + count] {
      assert PartAppended(s, off, count)[count - off..] == s[off..off + count][count - off..];
    }
  }
}
