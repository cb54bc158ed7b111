/** Decimal text of numbers, and the three-phase printer of MutableUrl that fills a precomputed number of slots. */
module Decimal {

  const INT_MAX := 0x7fff_ffff
  const LONG_MIN := -0x8000_0000_0000_0000
  const LONG_MAX := 0x7fff_ffff_ffff_ffff

  type Long = x: int | LONG_MIN <= x <= LONG_MAX

  /** `-x` on a long: the least value is its own negative. */
  function Negate(x: Long): Long { if x == LONG_MIN then x else -x }

  // ---------------------------------------------------------------- decimal text

  function Digit(d: int): char
    requires 0 <= d < 10
  {
    '0' + d as char
  }

  function Text(n: nat): (s: string)
    ensures |s| > 0
  {
    if n < 10 then [Digit(n)] else Text(n / 10) + [Digit(n % 10)]
  }

  function SignedText(x: int): string { if x < 0 then "-" + Text(-x) else Text(x) }

  predicate IsDigit(c: char) { '0' <= c <= '9' }

  predicate AllDigits(s: string) { forall i :: 0 <= i < |s| ==> IsDigit(s[i]) }

  /** Digits only, and no leading zero except for the number zero. */
  predicate Canonical(s: string) { |s| > 0 && AllDigits(s) && (|s| > 1 ==> s[0] != '0') }

  function Parse(s: string): nat
    requires AllDigits(s)
  {
    if s == "" then 0 else 10 * Parse(s[..|s| - 1]) + (s[|s| - 1] as int - '0' as int)
  }

  /** The text of a number is canonical and parses back to it. */
  lemma {:induction false} TextIsCanonical(n: nat)
    ensures Canonical(Text(n)) && Parse(Text(n)) == n
    ensures n > 0 ==> Text(n)[0] != '0'
  {
    if n >= 10 {
      TextIsCanonical(n / 10);
      assert Text(n)[..|Text(n)| - 1] == Text(n / 10);
    } else {
      assert Text(n)[..0] == "";
    }
  }

  /** And it is the only canonical text that does. */
  lemma {:induction false} CanonicalIsText(s: string)
    requires Canonical(s)
    ensures Text(Parse(s)) == s
  {
    var p, d := s[..|s| - 1], s[|s| - 1] as int - '0' as int;
    assert s == p + [Digit(d)];
    if p != "" {
      CanonicalIsText(p);
      ParsePositive(p);
    } else {
      assert Parse(p) == 0;
    }
  }

  lemma {:induction false} ParsePositive(s: string)
    requires AllDigits(s) && |s| > 0 && s[0] != '0'
    ensures Parse(s) > 0
  {
    if |s| > 1 {
      ParsePositive(s[..|s| - 1]);
    } else {
      assert Parse(s[..0]) == 0;
    }
  }

  /** Two digits at a time. */
  lemma TwoDigits(n: nat)
    requires n >= 100
    ensures Text(n) == Text(n / 100) + [Digit(n % 100 / 10), Digit(n % 10)]
  {
    assert n / 10 / 10 == n / 100 && n / 10 % 10 == n % 100 / 10;
    assert Text(n) == Text(n / 10) + [Digit(n % 10)];
    assert Text(n / 10) == Text(n / 100) + [Digit(n % 100 / 10)];
  }

  // ---------------------------------------------------------------- the number of slots

  function Pow10(k: nat): nat { if k == 0 then 1 else 10 * Pow10(k - 1) }

  lemma {:induction false} TextLength(n: nat, k: nat)
    requires k >= 1 && n < Pow10(k) && (k == 1 || n >= Pow10(k - 1))
    ensures |Text(n)| == k
  {
    if k > 1 {
      assert n >= 10 by { if k > 2 { Pow10Grows(k - 1); } }
      TextLength(n / 10, k - 1);
    }
  }

  lemma {:induction false} Pow10Grows(k: nat)
    requires k >= 1
    ensures Pow10(k) >= 10
  {
    if k > 1 { Pow10Grows(k - 1); }
  }

  lemma LongHas19()
    ensures LONG_MAX < Pow10(19)
  {
    assert Pow10(4) == 10000;
    assert Pow10(8) == 10000_0000;
    assert Pow10(12) == 10000_0000_0000;
    assert Pow10(16) == 10000_0000_0000_0000;
  }

  /** stringSize. */
  method StringSize(x: Long) returns (n: nat)
    ensures x >= 0 ==> n == |Text(x)|
    ensures x < 0 ==> n == 1
  {
    var p := 10;
    var i := 1;
    while i < 19
      invariant 1 <= i <= 19 && p == Pow10(i)
      invariant i > 1 ==> x >= Pow10(i - 1)
    {
      if x < p {
        if x >= 0 { TextLength(x, i); }
        return i;
      }
      p := 10 * p;
      i := i + 1;
    }
    LongHas19();
    TextLength(x, 19);
    return 19;
  }

  // ---------------------------------------------------------------- the printer

  const DIGIT_TENS: seq<char> := seq(100, r requires 0 <= r < 100 => Digit(r / 10))
  const DIGIT_ONES: seq<char> := seq(100, r requires 0 <= r < 100 => Digit(r % 10))

  /** A 32-bit product, and the unsigned shift that undoes its overflow. */
  function Wrap32(x: int): int { (x + 0x8000_0000) % 0x1_0000_0000 - 0x8000_0000 }

  function UnsignedShift19(x: int): int { (x % 0x1_0000_0000) / 0x8_0000 }

  /** Multiplying by 52429 and shifting by 19 divides by ten, below 2^16. */
  lemma MultiplyShift(i: int)
    requires 0 <= i < 65536
    ensures UnsignedShift19(Wrap32(i * 52429)) == i / 10
  {
    assert i * 52429 < 0x1_0000_0000;
    var q, r := i / 10, i % 10;
    assert i * 52429 == q * 0x8_0000 + (2 * q + r * 52429);
    assert 0 <= 2 * q + r * 52429 < 0x8_0000;
  }

  /** What a printing loop has done: the digits of `rest` are still to come in front of slot `at`. */
  ghost predicate Printed(was: seq<char>, buf: seq<char>, index: nat, n: nat, rest: nat, at: int)
  {
    && |buf| == |was| && 0 <= at <= index <= |buf|
    && Text(n) == Text(rest) + buf[at..index]
    && (forall k :: 0 <= k < |buf| && !(at <= k < index) ==> buf[k] == was[k])
  }

  lemma PrintedTwo(was: seq<char>, buf: seq<char>, index: nat, n: nat, rest: nat, at: int, buf': seq<char>)
    requires Printed(was, buf, index, n, rest, at) && rest >= 100 && at >= 2
    requires buf' == buf[at - 1 := Digit(rest % 10)][at - 2 := Digit(rest % 100 / 10)]
    ensures Printed(was, buf', index, n, rest / 100, at - 2)
  {
    TwoDigits(rest);
    assert buf'[at - 2..index] == [Digit(rest % 100 / 10), Digit(rest % 10)] + buf[at..index];
  }

  lemma PrintedRoom(was: seq<char>, buf: seq<char>, index: nat, n: nat, rest: nat, at: int)
    requires Printed(was, buf, index, n, rest, at) && |Text(n)| <= index
    ensures at >= |Text(rest)| && (rest >= 100 ==> at >= 3)
  {
    if rest >= 100 { TwoDigits(rest); }
  }

  lemma TableDigits(rest: nat, q: nat)
    requires q == rest / 100
    ensures var r := rest - (q * 64 + q * 32 + q * 4);
      0 <= r < 100 && DIGIT_ONES[r] == Digit(rest % 10) && DIGIT_TENS[r] == Digit(rest % 100 / 10)
  {
    var r := rest - 100 * q;
    var u, v := r / 10, r % 10;
    assert 0 <= r < 100 && r == 10 * u + v;
    assert rest == 10 * (10 * q + u) + v;
    assert rest % 10 == v && rest % 100 == r;
  }

  /** The body of the first two loops: the last two digits go in front, by table. */
  method PrintTwo(buf: array<char>, rest: nat, at: nat, index: nat, ghost n: nat, ghost was: seq<char>) returns (q: nat)
    requires Printed(was, buf[..], index, n, rest, at) && |Text(n)| <= index <= buf.Length && rest >= 100
    modifies buf
    ensures q == rest / 100 && at >= 2 && Printed(was, buf[..], index, n, q, at - 2)
  {
    ghost var b := buf[..];
    PrintedRoom(was, b, index, n, rest, at);
    PrintedTwo(was, b, index, n, rest, at, b[at - 1 := Digit(rest % 10)][at - 2 := Digit(rest % 100 / 10)]);
    q := rest / 100;
    var r := rest - (q * 64 + q * 32 + q * 4);
    TableDigits(rest, q);
    buf[at - 1] := DIGIT_ONES[r];
    buf[at - 2] := DIGIT_TENS[r];
    assert buf[..] == b[at - 1 := DIGIT_ONES[r]][at - 2 := DIGIT_TENS[r]];
  }

  /** The last loop: one digit per iteration, with the multiply-shift division. */
  method PrintSmall(buf: array<char>, start: nat, from: nat, index: nat, ghost n: nat,
                    ghost was: seq<char>) returns (at: nat)
    requires Printed(was, buf[..], index, n, start, from) && |Text(n)| <= index <= buf.Length && start < 65536
    modifies buf
    ensures at == index - |Text(n)| && buf[at..index] == Text(n)
    ensures forall k :: 0 <= k < buf.Length && !(at <= k < index) ==> buf[k] == was[k]
  {
    var i := start;
    at := from;
    while true
      invariant 0 <= i < 65536 && Printed(was, buf[..], index, n, i, at)
      decreases i
    {
      MultiplyShift(i);
      PrintedRoom(was, buf[..], index, n, i, at);
      ghost var b := buf[..];
      var q := UnsignedShift19(Wrap32(i * 52429));
      var r := i - (q * 8 + q * 2);
      at := at - 1;
      buf[at] := Digit(r);
      assert buf[..] == b[at := Digit(r)];
      assert buf[at..index] == [Digit(r)] + b[at + 1..index];
      if q == 0 {
        assert Text(n) == buf[at..index];
        return;
      }
      assert Text(i) == Text(q) + [Digit(r)];
      i := q;
    }
  }

  /** What getNumberChars prints: the least long, being its own negative, comes out as "-0". */
  function Printout(x: Long): string { if x == LONG_MIN then "-0" else SignedText(x) }

  /** getNumberChars: fills exactly the slots in front of `index`. */
  method GetNumberChars(x: Long, index: nat, buf: array<char>)
    requires |Printout(x)| <= index <= buf.Length
    modifies buf
    ensures buf[index - |Printout(x)|..index] == Printout(x)
    ensures forall k :: 0 <= k < buf.Length && !(index - |Printout(x)| <= k < index) ==> buf[k] == old(buf[k])
  {
    var number: Long := if x < 0 then Negate(x) else x;
    var at := PrintMagnitude(number, index, buf, buf[..]);
    if x < 0 {
      PrintSign(buf, at, index, buf[at..index]);
    }
  }

  method PrintSign(buf: array<char>, at: nat, index: nat, ghost s: string)
    requires 0 < at <= index <= buf.Length && buf[at..index] == s
    modifies buf
    ensures buf[at - 1..index] == "-" + s
    ensures forall k :: 0 <= k < buf.Length && k != at - 1 ==> buf[k] == old(buf[k])
  {
    ghost var b := buf[..];
    buf[at - 1] := '-';
    assert buf[at - 1..index] == ['-'] + b[at..index];
  }

  /** The three loops. */
  method PrintMagnitude(number: Long, index: nat, buf: array<char>, ghost was: seq<char>) returns (at: nat)
    requires |Text(if number < 0 then 0 else number)| <= index <= buf.Length && buf[..] == was
    requires number < 0 ==> number == LONG_MIN
    modifies buf
    ensures var s := Text(if number < 0 then 0 else number); at == index - |s| && buf[at..index] == s
    ensures forall k :: 0 <= k < buf.Length && !(at <= k < index) ==> buf[k] == was[k]
  {
    ghost var n: nat := if number < 0 then 0 else number;
    var rest;
    rest, at := PrintLong(number, index, buf, was);
    // The least long is still negative here, and its low 32 bits are zero.
    var i2 := Wrap32(rest);
    if number < 0 {
      assert Text(0) + buf[index..index] == Text(0);
    }
    i2, at := PrintInt(i2, at, index, buf, n, was);
    at := PrintSmall(buf, i2, at, index, n, was);
  }

  /** The first loop: longs, until the quotient fits an int. */
  method PrintLong(number: Long, index: nat, buf: array<char>, ghost was: seq<char>) returns (rest: Long, at: nat)
    requires index <= buf.Length && buf[..] == was && (number >= 0 ==> |Text(number)| <= index)
    modifies buf
    ensures rest <= INT_MAX
    ensures number >= 0 ==> rest >= 0 && Printed(was, buf[..], index, number, rest, at)
    ensures number < 0 ==> rest == number && at == index && buf[..] == was
  {
    rest, at := number, index;
    while rest > INT_MAX
      invariant number >= 0 ==> rest >= 0 && Printed(was, buf[..], index, number, rest, at)
      invariant number < 0 ==> rest == number && at == index && buf[..] == was
    {
      rest := PrintTwo(buf, rest, at, index, number, was);
      at := at - 2;
    }
  }

  /** The second loop: ints, until the quotient has 16 bits. */
  method PrintInt(start: nat, from: nat, index: nat, buf: array<char>, ghost n: nat,
                  ghost was: seq<char>) returns (i2: nat, at: nat)
    requires Printed(was, buf[..], index, n, start, from) && |Text(n)| <= index <= buf.Length
    modifies buf
    ensures i2 < 65536 && Printed(was, buf[..], index, n, i2, at)
  {
    i2, at := start, from;
    while i2 >= 65536
      invariant Printed(was, buf[..], index, n, i2, at)
    {
      i2 := PrintTwo(buf, i2, at, index, n, was);
      at := at - 2;
    }
  }
}
