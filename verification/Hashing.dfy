/** Hash codes and bucket indices: 32-bit wrap-around, masking, and case folding of header names. */
module Hashing {

  /** The shipped ABIs are 32-bit: `int` and `size_t` both have 32 bits. */
  const TWO_31 := 0x8000_0000
  const TWO_32 := 0x1_0000_0000

  function Pow2(k: nat): (p: nat)
    ensures p > 0
  {
    if k == 0 then 1 else 2 * Pow2(k - 1)
  }

  predicate IsPow2(n: nat) { n == 1 || (n > 1 && n % 2 == 0 && IsPow2(n / 2)) }

  /** `x & y` on non-negative integers. */
  function BitAnd(x: nat, y: nat): nat
    decreases x
  {
    if x == 0 || y == 0 then 0
    else (if x % 2 == 1 && y % 2 == 1 then 1 else 0) + 2 * BitAnd(x / 2, y / 2)
  }

  /** Masking with 2^k - 1 is reduction modulo 2^k. */
  lemma {:induction false} MaskIsMod(x: nat, n: nat)
    requires IsPow2(n)
    ensures BitAnd(x, n - 1) == x % n
    decreases n
  {
    if n > 1 {
      var h := n / 2;
      MaskIsMod(x / 2, h);
      ModDouble(x, h);
      assert (n - 1) / 2 == h - 1 && (n - 1) % 2 == 1;
      if h == 1 && x / 2 > 0 {
        assert BitAnd(x / 2, 0) == 0;
      }
    }
  }

  lemma ModDouble(x: nat, h: nat)
    requires h > 0
    ensures x % (2 * h) == x % 2 + 2 * ((x / 2) % h)
  {
    var y := x / 2;
    var q, r := y / h, y % h;
    assert x == 2 * (q * h + r) + x % 2 == (2 * h) * q + (2 * r + x % 2);
    DivModUnique(x, 2 * h, q, 2 * r + x % 2);
  }

  lemma {:induction false} DivModUnique(x: int, n: int, q: int, r: int)
    requires n > 0 && x == n * q + r && 0 <= r < n
    ensures x % n == r && x / n == q
  {
    var q', r' := x / n, x % n;
    assert x == n * q' + r';
    if q > q' {
      AtLeast(n, q, q');
    } else if q < q' {
      AtLeast(n, q', q);
    }
  }

  lemma AtLeast(n: int, a: int, b: int)
    requires n > 0 && a >= b + 1
    ensures n * a >= n * b + n
  {
    assert n * a >= n * (b + 1);
  }

  lemma {:induction false} ModMod(x: int, n: nat, m: nat)
    requires n > 0 && m > 0 && n * m > 0
    ensures (x % (n * m)) % n == x % n
  {
    var d, s := x / (n * m), x % (n * m);
    var q, r := s / n, s % n;
    assert s == n * q + r;
    assert x == (n * m) * d + s;
    assert (n * m) * d == n * (m * d);
    assert n * (m * d) + n * q == n * (m * d + q);
    DivModUnique(x, n, m * d + q, r);
  }

  /** `(size_t) hash`. */
  function ToSize(hash: int): nat { hash % TWO_32 }

  /** calculateIndex. */
  function Index(bucketCount: nat, hash: int): (i: nat)
    requires IsPow2(bucketCount)
    ensures i < bucketCount
  {
    MaskIsMod(ToSize(hash), bucketCount);
    BitAnd(ToSize(hash), bucketCount - 1)
  }

  /** The index is the Euclidean remainder of the hash, negative or not. */
  lemma {:induction false} IndexIsMod(n: nat, hash: int)
    requires IsPow2(n) && n <= Pow2(32)
    ensures Index(n, hash) == hash % n
  {
    MaskIsMod(ToSize(hash), n);
    var m := Cofactor(n, 32);
    Two32();
    ModMod(hash, n, m);
  }

  lemma Two32()
    ensures Pow2(32) == TWO_32
  {
    assert Pow2(8) == 256;
    assert Pow2(16) == 65536;
    assert Pow2(24) == 16777216;
  }

  lemma Two31()
    ensures Pow2(31) == TWO_31
  {
    Two32();
    assert Pow2(32) == 2 * Pow2(31);
  }

  /** The next power of two below a larger one is at most that. */
  lemma {:induction false} SmallPow2(n: nat, k: nat)
    requires IsPow2(n) && k > 0 && n < Pow2(k)
    ensures 2 * n <= Pow2(k)
  {
    if n > 1 { SmallPow2(n / 2, k - 1); }
  }

  /** A smaller power of two divides a larger one. */
  lemma {:induction false} Cofactor(n: nat, k: nat) returns (m: nat)
    requires IsPow2(n) && n <= Pow2(k)
    ensures m > 0 && Pow2(k) == n * m
  {
    if n == 1 {
      m := Pow2(k);
    } else {
      m := Cofactor(n / 2, k - 1);
    }
  }

  /** Doubling the table moves an entry of bucket i to bucket i or to bucket i + n. */
  lemma {:induction false} DoublingSplits(n: nat, hash: int)
    requires IsPow2(n) && 2 * n <= Pow2(32)
    ensures IsPow2(2 * n)
    ensures Index(2 * n, hash) == Index(n, hash) || Index(2 * n, hash) == Index(n, hash) + n
  {
    assert (2 * n) / 2 == n;
    IndexIsMod(n, hash);
    IndexIsMod(2 * n, hash);
    HalfMod(hash, n);
  }

  lemma {:induction false} HalfMod(x: int, n: nat)
    requires n > 0
    ensures x % (2 * n) == x % n || x % (2 * n) == x % n + n
  {
    var q, r := x / (2 * n), x % (2 * n);
    assert x == (2 * n) * q + r;
    assert (2 * n) * q == n * (2 * q);
    if r < n {
      DivModUnique(x, n, 2 * q, r);
    } else {
      assert n * (2 * q) + n == n * (2 * q + 1);
      DivModUnique(x, n, 2 * q + 1, r - n);
    }
  }

  /** Conversion to a 32-bit signed `int`. */
  function ToInt(x: int): int
  {
    var u := x % TWO_32;
    if u < TWO_31 then u else u - TWO_32
  }

  // ---------------------------------------------------------------- the secondary hash

  /** `x ^ y` on non-negative integers. */
  function BitXor(x: nat, y: nat): nat
    decreases x + y
  {
    if x == 0 && y == 0 then 0
    else (if x % 2 == y % 2 then 0 else 1) + 2 * BitXor(x / 2, y / 2)
  }

  /** `x >> k` on a non-negative integer. */
  function ShiftRight(x: nat, k: nat): nat { if k == 0 then x else ShiftRight(x / 2, k - 1) }

  function XorShift(h: nat, k: nat): nat { BitXor(h, ShiftRight(h, k)) }

  /** `h + ~(h << 9)` in 32 bits. */
  function AddNot9(h: nat): nat { (h + (TWO_32 - 1 - h * 0x200 % TWO_32)) % TWO_32 }

  /** `h + (h << 4)` in 32 bits. */
  function Add4(h: nat): nat { (h + h * 0x10) % TWO_32 }

  function MixWord(h: nat): nat { XorShift(Add4(XorShift(AddNot9(h), 14)), 10) }

  /** The secondary hash of hashKey. */
  function Mix(hash: int): int { ToInt(MixWord(ToSize(hash))) }

  lemma {:induction false} XorBits(x: nat, y: nat)
    ensures BitXor(x, y) / 2 == BitXor(x / 2, y / 2)
    ensures BitXor(x, y) % 2 == if x % 2 == y % 2 then 0 else 1
  {
  }

  lemma {:induction false} XorUndo(x: nat, y: nat)
    ensures BitXor(BitXor(x, y), y) == x
    decreases x + y
  {
    var z := BitXor(x, y);
    XorBits(x, y);
    XorBits(z, y);
    if x != 0 || y != 0 { XorUndo(x / 2, y / 2); }
  }

  lemma {:induction false} XorBelow(x: nat, y: nat, k: nat)
    requires x < Pow2(k) && y < Pow2(k)
    ensures BitXor(x, y) < Pow2(k)
    decreases k
  {
    if k > 0 { XorBelow(x / 2, y / 2, k - 1); }
  }

  /** The shift of an exclusive or is that of the shifted. */
  lemma {:induction false} XorOfShifts(x: nat, y: nat, k: nat)
    ensures ShiftRight(BitXor(x, y), k) == BitXor(ShiftRight(x, k), ShiftRight(y, k))
    decreases k
  {
    if k > 0 { XorOfShifts(x / 2, y / 2, k - 1); }
  }

  lemma {:induction false} ShiftShrinks(x: nat, k: nat)
    ensures ShiftRight(x, k) <= x && (k > 0 && x > 0 ==> ShiftRight(x, k) < x)
    decreases k
  {
    if k > 0 { ShiftShrinks(x / 2, k - 1); }
  }

  /** From its top bits down, a number can be read off what it is mixed to. */
  lemma {:induction false} XorShiftInjective(a: nat, b: nat, k: nat)
    requires k > 0 && XorShift(a, k) == XorShift(b, k)
    ensures a == b
    decreases a + b
  {
    var a', b' := ShiftRight(a, k), ShiftRight(b, k);
    ShiftShrinks(a, k);
    ShiftShrinks(b, k);
    if a > 0 || b > 0 {
      XorOfShifts(a, a', k);
      XorOfShifts(b, b', k);
      XorShiftInjective(a', b', k);
    }
    XorUndo(a, a');
    XorUndo(b, b');
  }

  lemma {:induction false} XorShiftBelow(h: nat, k: nat)
    requires h < TWO_32
    ensures XorShift(h, k) < TWO_32
  {
    Two32();
    ShiftShrinks(h, k);
    XorBelow(h, ShiftRight(h, k), 32);
  }

  /** Multiplication by an odd number can be undone: `inv` times `odd` is 1 more than a multiple of 2^32. */
  lemma {:induction false} OddInjective(d: int, t: int, odd: nat, inv: nat, k: nat)
    requires odd * inv == 1 + k * TWO_32 && d * odd == t * TWO_32
    ensures d == (t * inv - d * k) * TWO_32
  {
    assert d * odd * inv == d * (odd * inv) == d + (d * k) * TWO_32;
    assert t * TWO_32 * inv == (t * inv) * TWO_32;
  }

  lemma Multiple(d: int, t: int)
    requires d == t * TWO_32 && -TWO_32 < d < TWO_32
    ensures d == 0
  {
  }

  lemma {:induction false} AddNot9Is(a: nat) returns (t: int)
    ensures AddNot9(a) == t * TWO_32 - 1 - 0x1FF * a
  {
    var u := a * 0x200 / TWO_32;
    var x := a + (TWO_32 - 1 - a * 0x200 % TWO_32);
    assert x == u * TWO_32 + TWO_32 - 1 - 0x1FF * a;
    t := u + 1 - x / TWO_32;
  }

  lemma {:induction false} AddNot9Injective(a: nat, b: nat)
    requires a < TWO_32 && b < TWO_32 && AddNot9(a) == AddNot9(b)
    ensures a == b
  {
    var t := AddNot9Is(a);
    var u := AddNot9Is(b);
    OddInjective(a - b, t - u, 0x1FF, 4160486911, 495);
    Multiple(a - b, (t - u) * 4160486911 - (a - b) * 495);
  }

  lemma {:induction false} Add4Injective(a: nat, b: nat)
    requires a < TWO_32 && b < TWO_32 && Add4(a) == Add4(b)
    ensures a == b
  {
    var t := 17 * a / TWO_32 - 17 * b / TWO_32;
    assert (a - b) * 17 == t * TWO_32;
    OddInjective(a - b, t, 17, 0xF0F0F0F1, 16);
    Multiple(a - b, t * 0xF0F0F0F1 - (a - b) * 16);
  }

  lemma {:induction false} MixWordInjective(a: nat, b: nat)
    requires a < TWO_32 && b < TWO_32 && MixWord(a) == MixWord(b)
    ensures a == b
  {
    var x, y := XorShift(AddNot9(a), 14), XorShift(AddNot9(b), 14);
    XorShiftBelow(AddNot9(a), 14);
    XorShiftBelow(AddNot9(b), 14);
    XorShiftInjective(Add4(x), Add4(y), 10);
    Add4Injective(x, y);
    XorShiftInjective(AddNot9(a), AddNot9(b), 14);
    AddNot9Injective(a, b);
  }

  lemma ToIntInjective(a: nat, b: nat)
    requires a < TWO_32 && b < TWO_32 && ToInt(a) == ToInt(b)
    ensures a == b
  {
  }

  /** The secondary hash tells apart whatever the hash tells apart. */
  lemma {:induction false} MixInjective(a: int, b: int)
    ensures Mix(a) == Mix(b) <==> ToSize(a) == ToSize(b)
  {
    var x, y := ToSize(a), ToSize(b);
    if Mix(a) == Mix(b) {
      XorShiftBelow(Add4(XorShift(AddNot9(x), 14)), 10);
      XorShiftBelow(Add4(XorShift(AddNot9(y), 14)), 10);
      ToIntInjective(MixWord(x), MixWord(y));
      MixWordInjective(x, y);
    }
  }

  // ---------------------------------------------------------------- header names

  /** TOLOWER on an ASCII letter sets bit 5; bit 6 is set already. */
  function ToLower(c: char): char
  {
    if 'A' <= c <= 'Z' then (c as int + 0x20) as char else c
  }

  lemma OrIsAdd(c: bv8)
    requires 0x40 < c < 0x5b
    ensures c | 0x60 == c + 0x20
  {
  }

  /** Equality of header names up to ASCII case, the intended equality of the header store. */
  predicate EqualFold(a: string, b: string)
  {
    |a| == |b| && forall i :: 0 <= i < |a| ==> ToLower(a[i]) == ToLower(b[i])
  }

  function HashFrom(h: nat, name: string): nat
    decreases |name|
  {
    if name == "" then h else HashFrom((h * 31 + ToLower(name[0]) as int) % TWO_32, name[1..])
  }

  /** hashCalc. */
  method HashName(name: string) returns (hash: int)
    requires |name| < TWO_32
    ensures hash == HashCalc(name)
  {
    var h: nat := |name|;
    var i := 0;
    while i < |name|
      invariant 0 <= i <= |name|
      invariant HashFrom(h, name[i..]) == HashFrom(|name|, name)
    {
      assert name[i..][1..] == name[i + 1..];
      h := (h * 31 + ToLower(name[i]) as int) % TWO_32;
      i := i + 1;
    }
    hash := ToInt(h);
  }

  function HashCalc(name: string): int { ToInt(HashFrom(|name|, name)) }

  function Pow31(k: nat): nat { if k == 0 then 1 else 31 * Pow31(k - 1) }

  /** The folded name as a number with the digits of its characters in base 31, without any bound. */
  function Number(name: string): nat
  {
    if name == "" then 0 else 31 * Number(name[..|name| - 1]) + ToLower(name[|name| - 1]) as int
  }

  lemma {:induction false} HashLast(h: nat, name: string, c: char)
    ensures HashFrom(h, name + [c]) == (HashFrom(h, name) * 31 + ToLower(c) as int) % TWO_32
    decreases |name|
  {
    if name == "" {
      assert (name + [c])[1..] == "";
    } else {
      assert (name + [c])[0] == name[0] && (name + [c])[1..] == name[1..] + [c];
      HashLast((h * 31 + ToLower(name[0]) as int) % TWO_32, name[1..], c);
    }
  }

  lemma Horner(x: nat, c: nat)
    ensures ((x % TWO_32) * 31 + c) % TWO_32 == (x * 31 + c) % TWO_32
  {
    var q := x / TWO_32;
    assert x * 31 + c == (x % TWO_32) * 31 + c + (31 * q) * TWO_32;
  }

  lemma {:induction false} HornerStep(h: nat, n: nat, m: nat, c: nat)
    ensures ((h * Pow31(n) + m) % TWO_32 * 31 + c) % TWO_32 == (h * Pow31(n + 1) + (31 * m + c)) % TWO_32
  {
    var x := h * Pow31(n) + m;
    Horner(x, c);
    assert h * Pow31(n + 1) == 31 * (h * Pow31(n));
  }

  /** hashCalc is the 32-bit remainder of a polynomial: the number of the name, led by the length. */
  lemma {:induction false} HashIsPolynomial(h: nat, name: string)
    requires h < TWO_32
    ensures HashFrom(h, name) == (h * Pow31(|name|) + Number(name)) % TWO_32
    decreases |name|
  {
    if name != "" {
      var n := |name| - 1;
      var most, c := name[..n], name[n];
      assert name == most + [c];
      HashIsPolynomial(h, most);
      HashLast(h, most, c);
      HornerStep(h, n, Number(most), ToLower(c) as int);
    } else {
      assert h * 1 == h;
    }
  }

  lemma {:induction false} FoldedHash(h: nat, a: string, b: string)
    requires EqualFold(a, b)
    ensures HashFrom(h, a) == HashFrom(h, b)
    decreases |a|
  {
    if a != "" {
      assert EqualFold(a[1..], b[1..]) by {
        forall i | 0 <= i < |a[1..]| ensures ToLower(a[1..][i]) == ToLower(b[1..][i]) {
          assert a[1..][i] == a[i + 1] && b[1..][i] == b[i + 1];
        }
      }
      var next: nat := (h * 31 + ToLower(a[0]) as int) % TWO_32;
      FoldedHash(next, a[1..], b[1..]);
    }
  }

  /** Names equal up to case share their hash, and their bucket at every capacity. */
  lemma {:induction false} SameBucket(a: string, b: string, n: nat)
    requires EqualFold(a, b) && IsPow2(n)
    ensures HashCalc(a) == HashCalc(b)
    ensures Index(n, Mix(HashCalc(a))) == Index(n, Mix(HashCalc(b)))
  {
    FoldedHash(|a|, a, b);
  }
}
