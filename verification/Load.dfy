/** How full the hash map gets: what a capacity promises, and the load over whole runs of calls. */
module Load {
  import opened Hashing
  import opened Options
  import opened Table

  /** The calls that may add an entry. */
  function Inserts<K, V>(ops: seq<Op<K, V>>): nat
    decreases |ops|
  {
    if ops == [] then 0 else (if ops[0].Put? || ops[0].Memoize? then 1 else 0) + Inserts(ops[1..])
  }

  /** One call adds at most one entry, and that only if it may. */
  lemma {:induction false} DoAdds<K(!new), V>(ks: Keys<K>, t: seq<Chain<K, V>>, op: Op<K, V>)
    requires WellFormed(ks, t)
    ensures var t' := Do(ks, t, op).0;
      WellFormed(ks, t') && |Flat(t')| <= |Flat(t)| + (if op.Put? || op.Memoize? then 1 else 0)
  {
    DoRefines(ks, t, op);
    match op
    case Put(k, v, _, buckets) => InsertRefines(ks, t, k, v, buckets); PutSize(ks, t, k, v);
    case Memoize(k, v, _, buckets) => InsertRefines(ks, t, k, v, buckets);
    case Remove(k) => RemoveSize(ks, t, k);
    case Clear => FlatEmpty<K, V>(|t|);
    case _ =>
  }

  lemma {:induction false} DoKeepsBuckets<K(!new), V>(ks: Keys<K>, t: seq<Chain<K, V>>, op: Op<K, V>)
    requires WellFormed(ks, t)
    requires |Flat(t)| + (if op.Put? || op.Memoize? then 1 else 0) <= |t| * 3 / 4
    ensures |Do(ks, t, op).0| == |t|
  {
    match op
    case Put(k, v, _, buckets) => PutSize(ks, t, k, v);
    case Memoize(k, v, _, buckets) => PutSize(ks, t, k, v);
    case _ =>
  }

  /** No run with at most as many insertions as there is room for below three quarters ever expands. */
  lemma {:induction false} RunKeepsBuckets<K(!new), V>(ks: Keys<K>, t: seq<Chain<K, V>>, ops: seq<Op<K, V>>)
    requires WellFormed(ks, t) && |Flat(t)| + Inserts(ops) <= |t| * 3 / 4
    ensures |Run(ks, t, ops).0| == |t|
    decreases |ops|
  {
    if ops != [] {
      DoAdds(ks, t, ops[0]);
      DoKeepsBuckets(ks, t, ops[0]);
      RunKeepsBuckets(ks, Do(ks, t, ops[0]).0, ops[1..]);
    }
  }

  // ---------------------------------------------------------------- the capacity of a new map

  /** The bucket array made for `c` entries holds them below three quarters exactly when 4c does not wrap. */
  lemma {:induction false} CapacityExactly(n: nat, c: nat)
    requires CreatedFor(n, c) && c < TWO_32
    ensures n * 3 / 4 >= c <==> c * 4 < TWO_32
  {
    var m := c * 4 % TWO_32;
    if c * 4 < TWO_32 {
      assert m == c * 4;
    } else {
      assert m <= c * 4 - TWO_32;
      assert n == 1 || n * 3 <= 2 * m;
    }
  }

  /**
    A map created for `c` entries takes any calls with at most `c` insertions without expanding, while 4c does not wrap.
  */
  lemma {:induction false} CapacitySuffices<K(!new), V>(ks: Keys<K>, n: nat, c: nat, ops: seq<Op<K, V>>)
    requires Lawful(ks) && CreatedFor(n, c) && n <= MAX_BUCKETS && c * 4 < TWO_32 && Inserts(ops) <= c
    ensures |Run(ks, Empty<K, V>(n), ops).0| == n
  {
    EmptyRefines<K, V>(ks, n);
    CapacityExactly(n, c);
    RunKeepsBuckets(ks, Empty<K, V>(n), ops);
  }

  /** Puts of some keys, with all the memory they ask for. */
  function Puts<K, V>(keys: seq<K>, v: V): seq<Op<K, V>>
  {
    seq(|keys|, i requires 0 <= i < |keys| => Put(keys[i], v, true, true))
  }

  ghost predicate Different<K>(ks: Keys<K>, keys: seq<K>)
  {
    forall i, j :: 0 <= i < |keys| && 0 <= j < |keys| && i != j ==> !ks.equals(keys[i], keys[j])
  }

  ghost predicate NewTo<K(!new), V>(ks: Keys<K>, t: seq<Chain<K, V>>, keys: seq<K>)
    requires IsPow2(|t|)
  {
    forall i :: 0 <= i < |keys| ==> Lookup(ks, t, keys[i]).None?
  }

  /** Different new keys fill the table up, and the one that passes three quarters doubles it. */
  lemma {:induction false} PutsFill<K(!new), V>(ks: Keys<K>, t: seq<Chain<K, V>>, keys: seq<K>, v: V)
    requires WellFormed(ks, t) && 2 * |t| <= MAX_BUCKETS && Different(ks, keys) && NewTo(ks, t, keys)
    requires keys != [] && |Flat(t)| + |keys| == |t| * 3 / 4 + 1
    ensures |Run(ks, t, Puts(keys, v)).0| == 2 * |t|
    decreases |keys|
  {
    var k, rest := keys[0], keys[1..];
    var t' := Do(ks, t, Put(k, v, true, true)).0;
    assert Puts(keys, v)[1..] == Puts(rest, v);
    PutSize(ks, t, k, v);
    if rest != [] {
      DoKeepsBuckets(ks, t, Put(k, v, true, true));
      InsertRefines(ks, t, k, v, true);
      forall i | 0 <= i < |rest| ensures Lookup(ks, t', rest[i]).None? {
        assert rest[i] == keys[i + 1] && Lookup(ks, t, keys[i + 1]).None? && !ks.equals(keys[0], keys[i + 1]);
      }
      PutsFill(ks, t', rest, v);
    }
  }

  /** When 4c wraps, `c` different keys are more than enough to make a map created for `c` entries expand. */
  lemma {:induction false} CapacityWraps<K(!new), V>(ks: Keys<K>, n: nat, c: nat, keys: seq<K>, v: V)
    requires Lawful(ks) && CreatedFor(n, c) && 2 * n <= MAX_BUCKETS && c < TWO_32 <= c * 4
    requires Different(ks, keys) && |keys| == n * 3 / 4 + 1
    ensures |keys| <= c && |Run(ks, Empty<K, V>(n), Puts(keys, v)).0| == 2 * n
  {
    CapacityExactly(n, c);
    EmptyRefines<K, V>(ks, n);
    PutsFill(ks, Empty<K, V>(n), keys, v);
  }

  /** Such a capacity: for 2^30 entries the map has a single bucket. */
  lemma WrappedCapacity()
    ensures CreatedFor(1, 0x4000_0000)
  {
  }

  // ---------------------------------------------------------------- the load

  /** Every bucket array that is asked for is provided. */
  predicate AllGranted<K, V>(ops: seq<Op<K, V>>)
  {
    forall i :: 0 <= i < |ops| ==>
      (ops[i].Put? ==> ops[i].buckets) && (ops[i].Memoize? ==> ops[i].buckets)
  }

  lemma MaxIsPow2()
    ensures Pow2(29) == MAX_BUCKETS
  {
    Two32();
    assert Pow2(32) == 2 * Pow2(31) && Pow2(31) == 2 * Pow2(30) && Pow2(30) == 2 * Pow2(29);
  }

  /** An insertion that overfills a table can always double it, as long as the entries fit the largest one. */
  lemma {:induction false} InsertKeepsLoad<K(!new), V>(ks: Keys<K>, t: seq<Chain<K, V>>, k: K, v: V)
    requires WellFormed(ks, t) && |Flat(t)| <= |t| * 3 / 4 && |Flat(t)| + 1 <= MAX_BUCKETS * 3 / 4
    ensures var t' := Insert(ks, t, k, v, true); |Flat(t')| <= |t'| * 3 / 4
  {
    InsertRefines(ks, t, k, v, true);
    PutSize(ks, t, k, v);
    MaxIsPow2();
    if |t| < MAX_BUCKETS { SmallPow2(|t|, 29); }
  }

  lemma {:induction false} DoKeepsLoad<K(!new), V>(ks: Keys<K>, t: seq<Chain<K, V>>, op: Op<K, V>)
    requires WellFormed(ks, t) && |Flat(t)| <= |t| * 3 / 4 && AllGranted([op])
    requires |Flat(t)| + (if op.Put? || op.Memoize? then 1 else 0) <= MAX_BUCKETS * 3 / 4
    ensures var t' := Do(ks, t, op).0; |Flat(t')| <= |t'| * 3 / 4
  {
    assert [op][0] == op;
    match op
    case Put(k, v, _, _) => InsertKeepsLoad(ks, t, k, v); PutSize(ks, t, k, v);
    case Memoize(k, v, _, _) => InsertKeepsLoad(ks, t, k, v);
    case Remove(k) => RemoveSize(ks, t, k);
    case Clear => FlatEmpty<K, V>(|t|);
    case _ =>
  }

  /** While expansions succeed, over any run of calls at most three quarters of the buckets' number is stored. */
  lemma {:induction false} LoadStaysBelow<K(!new), V>(ks: Keys<K>, t: seq<Chain<K, V>>, ops: seq<Op<K, V>>)
    requires WellFormed(ks, t) && |Flat(t)| <= |t| * 3 / 4 && AllGranted(ops)
    requires |Flat(t)| + Inserts(ops) <= MAX_BUCKETS * 3 / 4
    ensures var t' := Run(ks, t, ops).0; |Flat(t')| <= |t'| * 3 / 4
    decreases |ops|
  {
    if ops != [] {
      assert [ops[0]][0] == ops[0];
      DoKeepsLoad(ks, t, ops[0]);
      DoAdds(ks, t, ops[0]);
      LoadStaysBelow(ks, Do(ks, t, ops[0]).0, ops[1..]);
    }
  }
}
