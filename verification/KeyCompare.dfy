/**
  hashKeyCompare as it is written.  The macro that folds a letter evaluates its argument up to three times, so the
  second name is read two or three bytes per letter of the first, and the comparison result is inverted.
*/
module KeyCompare {
  import opened Options
  import opened Hashing

  /** The byte at a position of a C string; None is a read behind the terminating NUL. */
  function At(s: string, i: nat): Option<int>
  {
    if i < |s| then Some(s[i] as int % 256) else if i == |s| then Some(0) else None
  }

  function Or60(c: int): int
    requires 0 <= c < 256
  {
    ((c as bv8) | 0x60) as int
  }

  /** TOLOWER of the current byte of the first name. */
  function Lower(c: int): int
    requires 0 <= c < 256
  {
    if 0x40 < c < 0x5b then Or60(c) else c
  }

  /** TOLOWER(*p2++): the value and the new position. */
  function LowerAdvance(b: string, j: nat): (r: Option<(int, nat)>)
    ensures r.Some? ==> j + 2 <= r.value.1 <= |b| + 1
  {
    match At(b, j)
    case None => None
    case Some(c0) =>
      if c0 > 0x40 then
        match At(b, j + 2)
        case None => None
        case Some(c2) => Some((if At(b, j + 1).value < 0x5b then Or60(c2) else c2, j + 3))
      else
        match At(b, j + 1)
        case None => None
        case Some(c1) => Some((c1, j + 2))
  }

  /** The first name ends here. */
  predicate Last(a: string, i: nat)
    requires i <= |a|
  {
    At(a, i).value == 0 || i == |a|
  }

  /** The loop from positions `i` and `j` on; Some(true) tells the map that the keys are equal. */
  function Compare(a: string, i: nat, b: string, j: nat): Option<bool>
    requires i <= |a|
    decreases |a| - i
  {
    match LowerAdvance(b, j)
    case None => None
    case Some((v, j')) =>
      if Lower(At(a, i).value) != v then Some(true)
      else if Last(a, i) then Some(false)
      else Compare(a, i + 1, b, j')
  }

  /** hashKeyCompare on two different pointers. */
  method HashKeyCompare(a: string, b: string) returns (r: Option<bool>)
    ensures r == Compare(a, 0, b, 0)
  {
    var i, j := 0, 0;
    while true
      invariant i <= |a| && Compare(a, i, b, j) == Compare(a, 0, b, 0)
      decreases |a| - i
    {
      var c := At(a, i).value;
      var v := LowerAdvance(b, j);
      if v == None {
        return None;
      }
      j := v.value.1;
      var result := Lower(c) == v.value.0;
      if !result {
        return Some(true);
      }
      if c == 0 || i == |a| {
        return Some(false);
      }
      i := i + 1;
    }
  }

  // ---------------------------------------------------------------- what it computes

  /** The folded bytes of the first name from position `i` on, with its NUL. */
  function Bytes(a: string, i: nat): seq<int>
    requires i <= |a|
    decreases |a| - i
  {
    [Lower(At(a, i).value)] + if Last(a, i) then [] else Bytes(a, i + 1)
  }

  /** The values that the repeated increments pick out of the second name from position `j` on, as far as it goes. */
  function Seen(b: string, j: nat): seq<int>
    decreases |b| + 1 - j
  {
    match LowerAdvance(b, j)
    case None => []
    case Some((v, j')) => [v] + Seen(b, j')
  }

  lemma PrefixHead<T>(x: T, s: seq<T>, y: T, t: seq<T>)
    ensures [x] + s <= [y] + t <==> x == y && s <= t
  {
    if [x] + s <= [y] + t {
      assert ([x] + s)[0] == ([y] + t)[0];
      assert forall k :: 0 <= k < |s| ==> s[k] == ([x] + s)[k + 1] == ([y] + t)[k + 1] == t[k];
    }
  }

  /** Denied, read too far, or granted, from the bytes of the first name and what is seen of the second. */
  function Verdict(bytes: seq<int>, seen: seq<int>): Option<bool>
  {
    if bytes <= seen then Some(false) else if seen <= bytes then None else Some(true)
  }

  lemma VerdictHead(x: int, s: seq<int>, y: int, t: seq<int>)
    ensures Verdict([x] + s, [y] + t) == if x != y then Some(true) else Verdict(s, t)
  {
    PrefixHead(x, s, y, t);
    PrefixHead(y, t, x, s);
  }

  /**
    For every pair of names: equality is denied exactly when what is seen of the second begins with the bytes of the
    first, the read goes too far exactly when it ends within them, and otherwise equality is granted.
  */
  lemma {:induction false} ComparesPrefixes(a: string, i: nat, b: string, j: nat)
    requires i <= |a|
    ensures Compare(a, i, b, j) == Verdict(Bytes(a, i), Seen(b, j))
    decreases |a| - i
  {
    match LowerAdvance(b, j)
    case None =>
    case Some((v, j')) =>
      if Last(a, i) {
        VerdictHead(Lower(At(a, i).value), [], v, Seen(b, j'));
      } else {
        VerdictHead(Lower(At(a, i).value), Bytes(a, i + 1), v, Seen(b, j'));
        ComparesPrefixes(a, i + 1, b, j');
      }
  }

  /**
    So the comparison is the equality of names up to case exactly for equal names of which neither reading is a prefix
    of the other, and for different names of which the first is a prefix of what is seen of the second.
  */
  lemma {:induction false} RightExactly(a: string, b: string)
    ensures Compare(a, 0, b, 0) == Some(EqualFold(a, b)) <==>
      if EqualFold(a, b) then !(Bytes(a, 0) <= Seen(b, 0)) && !(Seen(b, 0) <= Bytes(a, 0))
      else Bytes(a, 0) <= Seen(b, 0)
  {
    ComparesPrefixes(a, 0, b, 0);
    assert EqualFold(a, b) || !EqualFold(a, b);
  }

  lemma {:induction false} BytesLength(a: string, i: nat)
    requires i <= |a| && forall k :: 0 <= k < |a| ==> a[k] as int % 256 != 0
    ensures |Bytes(a, i)| == |a| - i + 1
    decreases |a| - i
  {
    if i < |a| { BytesLength(a, i + 1); }
  }

  lemma {:induction false} SeenLength(b: string, j: nat)
    requires j <= |b| + 1
    ensures 2 * |Seen(b, j)| <= |b| + 1 - j
    decreases |b| + 1 - j
  {
    if LowerAdvance(b, j).Some? { SeenLength(b, LowerAdvance(b, j).value.1); }
  }

  /**
    Two names are told apart only when the second is more than twice as long as the first: names of like length never
    are.
  */
  lemma {:induction false} NeverToldApart(a: string, b: string)
    requires (forall k :: 0 <= k < |a| ==> a[k] as int % 256 != 0) && |b| <= 2 * |a|
    ensures Compare(a, 0, b, 0) != Some(false)
    ensures Compare(a, 0, b, 0) == Some(EqualFold(a, b)) <==> EqualFold(a, b) && !(Seen(b, 0) <= Bytes(a, 0))
  {
    ComparesPrefixes(a, 0, b, 0);
    RightExactly(a, b);
    BytesLength(a, 0);
    SeenLength(b, 0);
  }

  /** So it is not the equality of names, which differ here, and the map relies on the hashes it compared before. */
  lemma NotEqualFold()
    ensures Compare("Date", 0, "Host", 0) == Some(true) && !EqualFold("Date", "Host")
  {
    assert ToLower("Date"[0]) != ToLower("Host"[0]);
  }

  /** One byte more than twice the length is enough for a no. */
  lemma ToldApart()
    ensures Compare("a", 0, " a ", 0) == Some(false)
  {
    assert Compare("a", 1, " a ", 2) == Some(false);
  }

  /**
    Where the first byte of three is a letter or beyond, the third is what is seen: folded when the second is below the
    end of the capital letters, and as it is otherwise.
  */
  lemma ThirdByteSeen()
    ensures Compare("t", 0, "AZT ", 0) == Some(false)
    ensures Compare("t", 0, "A[T ", 0) == Some(true)
    ensures Compare("t", 0, "A[t ", 0) == Some(false)
    ensures Compare("t", 0, "@t ", 0) == Some(false)
  {
    assert Compare("t", 1, "AZT ", 3) == Some(false);
    assert Compare("t", 1, "A[t ", 3) == Some(false);
    assert Compare("t", 1, "@t ", 2) == Some(false);
  }

  /** The macro without side effects is the folding of the hash and of the intended equality. */
  lemma LowerIsToLower(c: char)
    requires c as int < 128
    ensures Lower(c as int) == ToLower(c) as int
  {
    if 'A' <= c <= 'Z' {
      OrIsAdd(c as int as bv8);
    }
  }
}
