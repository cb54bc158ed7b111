/**
  The chained hash table as a value: a power-of-two number of buckets, each a sequence of entries, and the
  proof that its operations refine those of a finite map, up to the key equality that the table is created with.
*/
module Table {
  import opened Hashing
  import opened Options

  /** The function pointers of a table. */
  datatype Keys<!K> = Keys(hash: K -> int, equals: (K, K) -> bool)

  ghost predicate Through<K>(ks: Keys<K>, a: K, b: K, c: K) { ks.equals(a, b) && ks.equals(b, c) }

  /** What the table demands of them: an equivalence, consistent with the hash. */
  ghost predicate Lawful<K(!new)>(ks: Keys<K>)
  {
    && (forall a :: ks.equals(a, a))
    && (forall a, b :: ks.equals(a, b) ==> ks.equals(b, a) && ks.hash(a) == ks.hash(b))
    && (forall a, b, c :: Through(ks, a, b, c) ==> ks.equals(a, c))
  }

  datatype Item<K, V> = Item(key: K, hash: int, value: V)

  type Chain<K, V> = seq<Item<K, V>>

  /** The largest table whose bucket array calloc can provide with 32-bit pointers. */
  const MAX_BUCKETS := 0x2000_0000

  function HashKey<K>(ks: Keys<K>, k: K): int { Mix(ks.hash(k)) }

  /** equalKeys. */
  predicate EqualKeys<K(==), V>(ks: Keys<K>, it: Item<K, V>, k: K, h: int)
  {
    it.key == k || (it.hash == h && ks.equals(it.key, k))
  }

  /** The position of the first entry for the key, or the length of the chain. */
  function Find<K(==), V>(ks: Keys<K>, c: Chain<K, V>, k: K, h: int): (j: nat)
    ensures j <= |c|
    ensures j < |c| ==> EqualKeys(ks, c[j], k, h)
    ensures forall i :: 0 <= i < j ==> !EqualKeys(ks, c[i], k, h)
  {
    if c == [] then 0
    else if EqualKeys(ks, c[0], k, h) then 0
    else 1 + Find(ks, c[1..], k, h)
  }

  /** All entries, in the order of iteration. */
  function Flat<K, V>(t: seq<Chain<K, V>>): Chain<K, V>
  {
    if t == [] then [] else t[0] + Flat(t[1..])
  }

  /** The values stored under keys equal to `k`. */
  ghost function Vals<K, V>(ks: Keys<K>, c: Chain<K, V>, k: K): multiset<V>
  {
    if c == [] then multiset{}
    else (if ks.equals(c[0].key, k) then multiset{c[0].value} else multiset{}) + Vals(ks, c[1..], k)
  }

  /** Every entry carries the hash of its key and is in the bucket of that hash. */
  ghost predicate Placed<K, V>(ks: Keys<K>, t: seq<Chain<K, V>>)
    requires IsPow2(|t|)
  {
    forall i, j :: 0 <= i < |t| && 0 <= j < |t[i]| ==>
      t[i][j].hash == HashKey(ks, t[i][j].key) && Index(|t|, t[i][j].hash) == i
  }

  ghost predicate Unique<K(!new), V>(ks: Keys<K>, c: Chain<K, V>)
  {
    forall k :: |Vals(ks, c, k)| <= 1
  }

  ghost predicate WellFormed<K(!new), V>(ks: Keys<K>, t: seq<Chain<K, V>>)
  {
    Lawful(ks) && IsPow2(|t|) && |t| <= MAX_BUCKETS && Placed(ks, t) && Unique(ks, Flat(t))
  }

  function Lookup<K(==), V>(ks: Keys<K>, t: seq<Chain<K, V>>, k: K): Option<V>
    requires IsPow2(|t|)
  {
    var h := HashKey(ks, k);
    var c := t[Index(|t|, h)];
    var j := Find(ks, c, k, h);
    if j < |c| then Some(c[j].value) else None
  }

  // ---------------------------------------------------------------- entries and chains

  lemma {:induction false} ValsConcat<K, V>(ks: Keys<K>, a: Chain<K, V>, b: Chain<K, V>, k: K)
    ensures Vals(ks, a + b, k) == Vals(ks, a, k) + Vals(ks, b, k)
  {
    if a == [] {
      assert a + b == b;
    } else {
      assert (a + b)[1..] == a[1..] + b;
      ValsConcat(ks, a[1..], b, k);
    }
  }

  lemma {:induction false} FlatConcat<K, V>(s: seq<Chain<K, V>>, t: seq<Chain<K, V>>)
    ensures Flat(s + t) == Flat(s) + Flat(t)
  {
    if s == [] {
      assert s + t == t;
    } else {
      assert (s + t)[1..] == s[1..] + t;
      FlatConcat(s[1..], t);
    }
  }

  lemma {:induction false} FlatSplit<K, V>(t: seq<Chain<K, V>>, i: nat)
    requires i < |t|
    ensures Flat(t) == Flat(t[..i]) + t[i] + Flat(t[i + 1..])
  {
    assert t == t[..i] + ([t[i]] + t[i + 1..]);
    FlatConcat(t[..i], [t[i]] + t[i + 1..]);
    assert ([t[i]] + t[i + 1..])[1..] == t[i + 1..];
  }

  lemma {:induction false} FlatUpdate<K, V>(t: seq<Chain<K, V>>, i: nat, c: Chain<K, V>)
    requires i < |t|
    ensures Flat(t[i := c]) == Flat(t[..i]) + c + Flat(t[i + 1..])
  {
    FlatSplit(t[i := c], i);
    assert t[i := c][..i] == t[..i] && t[i := c][i + 1..] == t[i + 1..];
  }

  lemma {:induction false} ValsUpdate<K, V>(ks: Keys<K>, t: seq<Chain<K, V>>, i: nat, c: Chain<K, V>, k: K)
    requires i < |t|
    ensures Vals(ks, Flat(t[i := c]), k) + Vals(ks, t[i], k) == Vals(ks, Flat(t), k) + Vals(ks, c, k)
  {
    FlatSplit(t, i);
    FlatUpdate(t, i, c);
    var a, b := Flat(t[..i]), Flat(t[i + 1..]);
    ValsConcat(ks, a + t[i], b, k);
    ValsConcat(ks, a, t[i], k);
    ValsConcat(ks, a + c, b, k);
    ValsConcat(ks, a, c, k);
  }

  lemma {:induction false} ValsNone<K, V>(ks: Keys<K>, c: Chain<K, V>, k: K)
    requires forall j :: 0 <= j < |c| ==> !ks.equals(c[j].key, k)
    ensures Vals(ks, c, k) == multiset{}
  {
    if c != [] {
      ValsNone(ks, c[1..], k);
    }
  }

  /** Outside its bucket no entry matches a key. */
  lemma {:induction false} ValsElsewhere<K(!new), V>(ks: Keys<K>, t: seq<Chain<K, V>>, n: nat, from: nat, i: nat, k: K)
    requires Lawful(ks) && IsPow2(n) && (i < from || i >= from + |t|)
    requires forall a, j :: 0 <= a < |t| && 0 <= j < |t[a]| ==>
      t[a][j].hash == HashKey(ks, t[a][j].key) && Index(n, t[a][j].hash) == from + a
    requires Index(n, HashKey(ks, k)) == i
    ensures Vals(ks, Flat(t), k) == multiset{}
    decreases |t|
  {
    if t != [] {
      ValsNone(ks, t[0], k);
      ValsElsewhere(ks, t[1..], n, from + 1, i, k);
      ValsConcat(ks, t[0], Flat(t[1..]), k);
    }
  }

  /** So the values of a key are those of its bucket. */
  lemma {:induction false} ValsInBucket<K(!new), V>(ks: Keys<K>, t: seq<Chain<K, V>>, k: K)
    requires Lawful(ks) && IsPow2(|t|) && Placed(ks, t)
    ensures Vals(ks, Flat(t), k) == Vals(ks, t[Index(|t|, HashKey(ks, k))], k)
  {
    var i := Index(|t|, HashKey(ks, k));
    FlatSplit(t, i);
    ValsElsewhere(ks, t[..i], |t|, 0, i, k);
    ValsElsewhere(ks, t[i + 1..], |t|, i + 1, i, k);
    ValsConcat(ks, Flat(t[..i]) + t[i], Flat(t[i + 1..]), k);
    ValsConcat(ks, Flat(t[..i]), t[i], k);
  }

  /** What the search of a chain finds. */
  lemma {:induction false} FindIsVals<K(!new), V>(ks: Keys<K>, c: Chain<K, V>, k: K)
    requires Lawful(ks) && |Vals(ks, c, k)| <= 1
    requires forall j :: 0 <= j < |c| ==> c[j].hash == HashKey(ks, c[j].key)
    ensures var j := Find(ks, c, k, HashKey(ks, k));
      Vals(ks, c, k) == if j < |c| then multiset{c[j].value} else multiset{}
  {
    if c != [] {
      assert EqualKeys(ks, c[0], k, HashKey(ks, k)) <==> ks.equals(c[0].key, k);
      if ks.equals(c[0].key, k) {
        assert |Vals(ks, c[1..], k)| == 0;
      } else {
        FindIsVals(ks, c[1..], k);
      }
    }
  }

  lemma ValsOne<K, V>(ks: Keys<K>, it: Item<K, V>, k: K)
    ensures Vals(ks, [it], k) == if ks.equals(it.key, k) then multiset{it.value} else multiset{}
  {
    assert [it][1..] == [];
  }

  /** Lookup reads the values stored under the key. */
  lemma {:induction false} LookupIsVals<K(!new), V>(ks: Keys<K>, t: seq<Chain<K, V>>, k: K)
    requires WellFormed(ks, t)
    ensures Vals(ks, Flat(t), k) == AsVals(Lookup(ks, t, k))
  {
    ValsInBucket(ks, t, k);
    FindIsVals(ks, t[Index(|t|, HashKey(ks, k))], k);
  }

  // ---------------------------------------------------------------- operations

  /** Replace the value of an existing entry, or append a new one. */
  function PutChain<K(==), V>(ks: Keys<K>, c: Chain<K, V>, k: K, h: int, v: V): Chain<K, V>
  {
    var j := Find(ks, c, k, h);
    if j < |c| then c[j := c[j].(value := v)] else c + [Item(k, h, v)]
  }

  function RemoveChain<K(==), V>(ks: Keys<K>, c: Chain<K, V>, k: K, h: int): Chain<K, V>
  {
    var j := Find(ks, c, k, h);
    if j < |c| then c[..j] + c[j + 1..] else c
  }

  /** A table in which the bucket of `k` holds the chain `c` instead. */
  function WithBucket<K, V>(ks: Keys<K>, t: seq<Chain<K, V>>, k: K, c: Chain<K, V>): seq<Chain<K, V>>
    requires IsPow2(|t|)
  {
    t[Index(|t|, HashKey(ks, k)) := c]
  }

  function Bucket<K, V>(ks: Keys<K>, t: seq<Chain<K, V>>, k: K): Chain<K, V>
    requires IsPow2(|t|)
  {
    t[Index(|t|, HashKey(ks, k))]
  }

  // Expansion: entries are relinked one by one to the front of their new bucket.

  function Push<K, V>(t: seq<Chain<K, V>>, it: Item<K, V>): seq<Chain<K, V>>
    requires IsPow2(|t|)
  {
    var i := Index(|t|, it.hash);
    t[i := [it] + t[i]]
  }

  function Move<K, V>(t: seq<Chain<K, V>>, c: Chain<K, V>, j: nat): (t': seq<Chain<K, V>>)
    requires IsPow2(|t|)
    ensures |t'| == |t|
    decreases |c| - j
  {
    if j >= |c| then t else Move(Push(t, c[j]), c, j + 1)
  }

  function MoveAll<K, V>(t: seq<Chain<K, V>>, was: seq<Chain<K, V>>, i: nat): (t': seq<Chain<K, V>>)
    requires IsPow2(|t|)
    ensures |t'| == |t|
    decreases |was| - i
  {
    if i >= |was| then t else MoveAll(Move(t, was[i], 0), was, i + 1)
  }

  function Empty<K, V>(n: nat): seq<Chain<K, V>> { seq(n, _ => []) }

  function Expand<K, V>(t: seq<Chain<K, V>>): (t': seq<Chain<K, V>>)
    requires IsPow2(|t|)
    ensures |t'| == 2 * |t| && IsPow2(|t'|)
  {
    assert IsPow2(2 * |t|) by { assert 2 * |t| / 2 == |t|; }
    MoveAll(Empty(2 * |t|), t, 0)
  }

  /** expandIfNecessary; `granted` says whether the new bucket array could be had. */
  function ExpandIfNecessary<K, V>(t: seq<Chain<K, V>>, granted: bool): (t': seq<Chain<K, V>>)
    requires IsPow2(|t|)
    ensures IsPow2(|t'|)
  {
    if |Flat(t)| > |t| * 3 / 4 && granted && 2 * |t| <= MAX_BUCKETS then Expand(t) else t
  }

  // ---------------------------------------------------------------- expansion keeps every entry

  lemma {:induction false} PushKeepsItems<K, V>(t: seq<Chain<K, V>>, it: Item<K, V>)
    requires IsPow2(|t|)
    ensures multiset(Flat(Push(t, it))) == multiset(Flat(t)) + multiset{it}
  {
    var i := Index(|t|, it.hash);
    FlatUpdate(t, i, [it] + t[i]);
    FlatSplit(t, i);
    var a, b := Flat(t[..i]), Flat(t[i + 1..]);
    assert multiset(a + ([it] + t[i]) + b) == multiset(a) + multiset([it] + t[i]) + multiset(b);
    assert multiset(a + t[i] + b) == multiset(a) + multiset(t[i]) + multiset(b);
  }

  lemma {:induction false} MoveKeepsItems<K, V>(t: seq<Chain<K, V>>, c: Chain<K, V>, j: nat)
    requires IsPow2(|t|) && j <= |c|
    ensures multiset(Flat(Move(t, c, j))) == multiset(Flat(t)) + multiset(c[j..])
    decreases |c| - j
  {
    if j < |c| {
      PushKeepsItems(t, c[j]);
      MoveKeepsItems(Push(t, c[j]), c, j + 1);
      HeadAndTail(c, j);
    }
  }

  lemma HeadAndTail<T>(s: seq<T>, j: nat)
    requires j < |s|
    ensures multiset(s[j..]) == multiset{s[j]} + multiset(s[j + 1..])
  {
    assert s[j..] == [s[j]] + s[j + 1..];
  }

  lemma {:induction false} MoveAllKeepsItems<K, V>(t: seq<Chain<K, V>>, was: seq<Chain<K, V>>, i: nat)
    requires IsPow2(|t|) && i <= |was|
    ensures multiset(Flat(MoveAll(t, was, i))) == multiset(Flat(t)) + multiset(Flat(was[i..]))
    decreases |was| - i
  {
    if i < |was| {
      MoveKeepsItems(t, was[i], 0);
      assert was[i][0..] == was[i];
      MoveAllKeepsItems(Move(t, was[i], 0), was, i + 1);
      assert was[i..][1..] == was[i + 1..];
      assert multiset(was[i] + Flat(was[i + 1..])) == multiset(was[i]) + multiset(Flat(was[i + 1..]));
    }
  }

  lemma {:induction false} FlatEmpty<K, V>(n: nat)
    ensures Flat(Empty<K, V>(n)) == []
  {
    if n > 0 {
      assert Empty<K, V>(n)[1..] == Empty<K, V>(n - 1);
      FlatEmpty<K, V>(n - 1);
    }
  }

  /** Relinking neither loses nor duplicates an entry. */
  lemma {:induction false} ExpandKeepsItems<K, V>(t: seq<Chain<K, V>>)
    requires IsPow2(|t|)
    ensures multiset(Flat(Expand(t))) == multiset(Flat(t))
  {
    FlatEmpty<K, V>(2 * |t|);
    assert 2 * |t| / 2 == |t|;
    MoveAllKeepsItems(Empty(2 * |t|), t, 0);
    assert t[0..] == t;
  }

  lemma {:induction false} MovePlaces<K, V>(ks: Keys<K>, t: seq<Chain<K, V>>, c: Chain<K, V>, j: nat)
    requires IsPow2(|t|) && Placed(ks, t) && forall a :: 0 <= a < |c| ==> c[a].hash == HashKey(ks, c[a].key)
    ensures Placed(ks, Move(t, c, j))
    decreases |c| - j
  {
    if j < |c| {
      MovePlaces(ks, Push(t, c[j]), c, j + 1);
    }
  }

  lemma {:induction false} MoveAllPlaces<K, V>(ks: Keys<K>, t: seq<Chain<K, V>>, was: seq<Chain<K, V>>, i: nat)
    requires IsPow2(|t|) && Placed(ks, t)
    requires forall a, j :: 0 <= a < |was| && 0 <= j < |was[a]| ==> was[a][j].hash == HashKey(ks, was[a][j].key)
    ensures Placed(ks, MoveAll(t, was, i))
    decreases |was| - i
  {
    if i < |was| {
      MovePlaces(ks, t, was[i], 0);
      MoveAllPlaces(ks, Move(t, was[i], 0), was, i + 1);
    }
  }

  /** The values of a key depend on the entries only, not on their order. */
  lemma {:induction false} ValsPermuted<K, V>(ks: Keys<K>, a: Chain<K, V>, b: Chain<K, V>, k: K)
    requires multiset(a) == multiset(b)
    ensures Vals(ks, a, k) == Vals(ks, b, k)
    decreases |a|
  {
    if a == [] {
      assert |multiset(b)| == 0;
    } else {
      var j := Position(a, b);
      var rest := b[..j] + b[j + 1..];
      ValsPermuted(ks, a[1..], rest, k);
      assert b == b[..j] + ([b[j]] + b[j + 1..]);
      ValsConcat(ks, b[..j], [b[j]] + b[j + 1..], k);
      ValsConcat(ks, b[..j], b[j + 1..], k);
    }
  }

  /** Where the first entry of one sequence is in a permutation of it, and that the rest is one of the rest. */
  lemma {:induction false} Position<T>(a: seq<T>, b: seq<T>) returns (j: nat)
    requires a != [] && multiset(a) == multiset(b)
    ensures j < |b| && b[j] == a[0] && multiset(a[1..]) == multiset(b[..j] + b[j + 1..])
  {
    assert a[0] in multiset(b);
    j :| 0 <= j < |b| && b[j] == a[0];
    assert b == b[..j] + [b[j]] + b[j + 1..];
    assert a == [a[0]] + a[1..];
    assert multiset(a) == multiset{a[0]} + multiset(a[1..]);
    assert multiset(b) == multiset{a[0]} + multiset(b[..j] + b[j + 1..]);
    Cancel(multiset{a[0]}, multiset(a[1..]), multiset(b[..j] + b[j + 1..]));
  }

  lemma Cancel<T>(m: multiset<T>, a: multiset<T>, b: multiset<T>)
    requires m + a == m + b || a + m == m + b || a + m == b + m
    ensures a == b
  {
    assert m + a == m + b;
    assert a == (m + a) - m == (m + b) - m == b;
  }

  /** Expansion changes no lookup. */
  lemma {:induction false} ExpandRefines<K(!new), V>(ks: Keys<K>, t: seq<Chain<K, V>>)
    requires WellFormed(ks, t) && 2 * |t| <= MAX_BUCKETS
    ensures WellFormed(ks, Expand(t)) && |Flat(Expand(t))| == |Flat(t)|
    ensures forall k :: Lookup(ks, Expand(t), k) == Lookup(ks, t, k)
  {
    ExpandKeepsItems(t);
    assert |multiset(Flat(Expand(t)))| == |multiset(Flat(t))|;
    assert 2 * |t| / 2 == |t|;
    MoveAllPlaces(ks, Empty(2 * |t|), t, 0);
    forall k ensures Vals(ks, Flat(Expand(t)), k) == Vals(ks, Flat(t), k) {
      ValsPermuted(ks, Flat(Expand(t)), Flat(t), k);
    }
    SameLookups(ks, Expand(t), t);
  }

  lemma {:induction false} SameLookups<K(!new), V>(ks: Keys<K>, s: seq<Chain<K, V>>, t: seq<Chain<K, V>>)
    requires WellFormed(ks, s) && WellFormed(ks, t)
    requires forall k :: Vals(ks, Flat(s), k) == Vals(ks, Flat(t), k)
    ensures forall k :: Lookup(ks, s, k) == Lookup(ks, t, k)
  {
    forall k ensures Lookup(ks, s, k) == Lookup(ks, t, k) {
      LookupIsVals(ks, s, k);
      LookupIsVals(ks, t, k);
      SameOption(Lookup(ks, s, k), Lookup(ks, t, k));
    }
  }

  ghost function AsVals<V>(o: Option<V>): multiset<V> { match o case None => multiset{} case Some(v) => multiset{v} }

  lemma SameOption<V>(a: Option<V>, b: Option<V>)
    requires AsVals(a) == AsVals(b)
    ensures a == b
  {
    if a.Some? {
      assert a.value in AsVals(b);
    } else {
      assert |AsVals(b)| == 0;
    }
  }

  // ---------------------------------------------------------------- each operation refines a map update

  /** The entries of a chain that fits the bucket of `k` in a table of `n` buckets. */
  ghost predicate Fits<K(!new), V>(ks: Keys<K>, n: nat, k: K, c: Chain<K, V>)
    requires IsPow2(n)
  {
    && (forall j :: 0 <= j < |c| ==>
          c[j].hash == HashKey(ks, c[j].key) && Index(n, c[j].hash) == Index(n, HashKey(ks, k)))
    && (forall k' :: |Vals(ks, c, k')| <= 1)
  }

  /** A chain that fits and differs from the bucket's only in the values of `k` replaces just those. */
  lemma {:induction false} BucketReplaced<K(!new), V>(ks: Keys<K>, t: seq<Chain<K, V>>, k: K, c: Chain<K, V>)
    requires WellFormed(ks, t) && Fits(ks, |t|, k, c)
    requires forall k' :: !ks.equals(k, k') ==> Vals(ks, c, k') == Vals(ks, Bucket(ks, t, k), k')
    ensures WellFormed(ks, WithBucket(ks, t, k, c))
    ensures forall k' ::
      Vals(ks, Flat(WithBucket(ks, t, k, c)), k') ==
        (if ks.equals(k, k') then Vals(ks, c, k') else Vals(ks, Flat(t), k'))
  {
    var t' := WithBucket(ks, t, k, c);
    forall k' ensures Vals(ks, Flat(t'), k') == (if ks.equals(k, k') then Vals(ks, c, k') else Vals(ks, Flat(t), k')) {
      ReplacedVals(ks, t, k, c, k');
    }
    assert Placed(ks, t');
    forall k' ensures |Vals(ks, Flat(t'), k')| <= 1 {
      assert |Vals(ks, c, k')| <= 1 && |Vals(ks, Flat(t), k')| <= 1;
    }
  }

  lemma {:induction false} ReplacedVals<K(!new), V>(ks: Keys<K>, t: seq<Chain<K, V>>, k: K, c: Chain<K, V>, k': K)
    requires Lawful(ks) && IsPow2(|t|) && Placed(ks, t)
    requires !ks.equals(k, k') ==> Vals(ks, c, k') == Vals(ks, Bucket(ks, t, k), k')
    ensures Vals(ks, Flat(WithBucket(ks, t, k, c)), k') ==
      (if ks.equals(k, k') then Vals(ks, c, k') else Vals(ks, Flat(t), k'))
  {
    var i := Index(|t|, HashKey(ks, k));
    var before, after := Vals(ks, Flat(t), k'), Vals(ks, Flat(WithBucket(ks, t, k, c)), k');
    ValsUpdate(ks, t, i, c, k');
    if ks.equals(k, k') {
      ValsInBucket(ks, t, k');
      Cancel(before, after, Vals(ks, c, k'));
    } else {
      Cancel(Vals(ks, c, k'), after, before);
    }
  }

  lemma {:induction false} BucketFits<K(!new), V>(ks: Keys<K>, t: seq<Chain<K, V>>, k: K)
    requires WellFormed(ks, t)
    ensures Fits(ks, |t|, k, Bucket(ks, t, k))
  {
    var c := Bucket(ks, t, k);
    forall k' ensures |Vals(ks, c, k')| <= 1 {
      if Index(|t|, HashKey(ks, k')) == Index(|t|, HashKey(ks, k)) {
        ValsInBucket(ks, t, k');
      } else {
        ValsNone(ks, c, k');
      }
    }
  }

  /** The values of a chain with one entry replaced. */
  lemma {:induction false} ValsReplaced<K, V>(ks: Keys<K>, c: Chain<K, V>, j: nat, it: Item<K, V>, k: K)
    requires j < |c|
    ensures Vals(ks, c[j := it], k) + Vals(ks, [c[j]], k) == Vals(ks, c, k) + Vals(ks, [it], k)
  {
    assert c == c[..j] + ([c[j]] + c[j + 1..]);
    assert c[j := it] == c[..j] + ([it] + c[j + 1..]);
    ValsConcat(ks, c[..j], [c[j]] + c[j + 1..], k);
    ValsConcat(ks, [c[j]], c[j + 1..], k);
    ValsConcat(ks, c[..j], [it] + c[j + 1..], k);
    ValsConcat(ks, [it], c[j + 1..], k);
  }

  lemma Differs<K(!new)>(ks: Keys<K>, a: K, k: K, k': K)
    requires Lawful(ks) && ks.equals(a, k)
    ensures ks.equals(a, k') <==> ks.equals(k, k')
  {
    assert Through(ks, k, a, k') || !ks.equals(a, k');
    assert Through(ks, a, k, k') || !ks.equals(k, k');
  }

  lemma {:induction false} PutChainVals<K(!new), V>(ks: Keys<K>, c: Chain<K, V>, k: K, v: V, k': K)
    requires Lawful(ks) && |Vals(ks, c, k)| <= 1
    requires forall j :: 0 <= j < |c| ==> c[j].hash == HashKey(ks, c[j].key)
    ensures Vals(ks, PutChain(ks, c, k, HashKey(ks, k), v), k') == if ks.equals(k, k') then multiset{v}
      else Vals(ks, c, k')
  {
    var h := HashKey(ks, k);
    var j := Find(ks, c, k, h);
    FindIsVals(ks, c, k);
    if ks.equals(k, k') { EqualVals(ks, c, k, k'); }
    if j < |c| {
      PutFoundVals(ks, c, j, k, v, k');
    } else {
      ValsConcat(ks, c, [Item(k, h, v)], k');
      ValsOne(ks, Item(k, h, v), k');
    }
  }

  lemma {:induction false} PutFoundVals<K(!new), V>(ks: Keys<K>, c: Chain<K, V>, j: nat, k: K, v: V, k': K)
    requires Lawful(ks) && j < |c| && ks.equals(c[j].key, k)
    requires ks.equals(k, k') ==> Vals(ks, c, k') == multiset{c[j].value}
    ensures Vals(ks, c[j := c[j].(value := v)], k') == if ks.equals(k, k') then multiset{v} else Vals(ks, c, k')
  {
    var it := c[j].(value := v);
    ValsReplaced(ks, c, j, it, k');
    ValsOne(ks, it, k');
    ValsOne(ks, c[j], k');
    Differs(ks, c[j].key, k, k');
    Cancel(Vals(ks, [c[j]], k'), Vals(ks, c[j := it], k'), if ks.equals(k, k') then multiset{v} else Vals(ks, c, k'));
  }

  lemma {:induction false} EqualVals<K(!new), V>(ks: Keys<K>, c: Chain<K, V>, k: K, k': K)
    requires Lawful(ks) && ks.equals(k, k')
    ensures Vals(ks, c, k) == Vals(ks, c, k')
  {
    if c != [] {
      Differs(ks, k, k', c[0].key);
      EqualVals(ks, c[1..], k, k');
    }
  }

  lemma {:induction false} RemoveChainVals<K(!new), V>(ks: Keys<K>, c: Chain<K, V>, k: K, k': K)
    requires Lawful(ks) && |Vals(ks, c, k)| <= 1
    requires forall j :: 0 <= j < |c| ==> c[j].hash == HashKey(ks, c[j].key)
    ensures Vals(ks, RemoveChain(ks, c, k, HashKey(ks, k)), k') == if ks.equals(k, k') then multiset{}
      else Vals(ks, c, k')
  {
    var h := HashKey(ks, k);
    var j := Find(ks, c, k, h);
    FindIsVals(ks, c, k);
    if ks.equals(k, k') { EqualVals(ks, c, k, k'); }
    if j < |c| {
      assert RemoveChain(ks, c, k, h) == c[..j] + c[j + 1..];
      RemoveFoundVals(ks, c, j, k, k');
    } else {
      assert RemoveChain(ks, c, k, h) == c;
    }
  }

  lemma {:induction false} RemoveFoundVals<K(!new), V>(ks: Keys<K>, c: Chain<K, V>, j: nat, k: K, k': K)
    requires Lawful(ks) && j < |c| && ks.equals(c[j].key, k)
    requires ks.equals(k, k') ==> Vals(ks, c, k') == multiset{c[j].value}
    ensures Vals(ks, c[..j] + c[j + 1..], k') == if ks.equals(k, k') then multiset{} else Vals(ks, c, k')
  {
    assert c == c[..j] + ([c[j]] + c[j + 1..]);
    ValsConcat(ks, c[..j], [c[j]] + c[j + 1..], k');
    ValsConcat(ks, [c[j]], c[j + 1..], k');
    ValsConcat(ks, c[..j], c[j + 1..], k');
    ValsOne(ks, c[j], k');
    Differs(ks, c[j].key, k, k');
    if ks.equals(k, k') {
      Cancel(multiset{c[j].value}, Vals(ks, c[..j] + c[j + 1..], k'), multiset{});
    }
  }

  /** Table `t'` is table `t` with the value of `k` set to `o`. */
  ghost predicate Updates<K(!new), V>(ks: Keys<K>, t: seq<Chain<K, V>>, t': seq<Chain<K, V>>, k: K, o: Option<V>)
  {
    && WellFormed(ks, t) && WellFormed(ks, t')
    && forall k' {:trigger Lookup(ks, t', k')} :: Lookup(ks, t', k') == if ks.equals(k, k') then o
       else Lookup(ks, t, k')
  }

  lemma {:induction false} UpdatesByVals<K(!new), V>(ks: Keys<K>, t: seq<Chain<K, V>>, t': seq<Chain<K, V>>, k: K,
                                                     o: Option<V>)
    requires WellFormed(ks, t) && WellFormed(ks, t')
    requires forall k' :: Vals(ks, Flat(t'), k') == if ks.equals(k, k') then AsVals(o) else Vals(ks, Flat(t), k')
    ensures Updates(ks, t, t', k, o)
  {
    forall k' ensures Lookup(ks, t', k') == if ks.equals(k, k') then o else Lookup(ks, t, k') {
      LookupIsVals(ks, t, k');
      LookupIsVals(ks, t', k');
      SameOption(Lookup(ks, t', k'), if ks.equals(k, k') then o else Lookup(ks, t, k'));
    }
  }

  function PutBare<K(==), V>(ks: Keys<K>, t: seq<Chain<K, V>>, k: K, v: V): seq<Chain<K, V>>
    requires IsPow2(|t|)
  {
    WithBucket(ks, t, k, PutChain(ks, Bucket(ks, t, k), k, HashKey(ks, k), v))
  }

  lemma {:induction false} PutFits<K(!new), V>(ks: Keys<K>, n: nat, c: Chain<K, V>, k: K, v: V)
    requires Lawful(ks) && IsPow2(n) && Fits(ks, n, k, c)
    ensures Fits(ks, n, k, PutChain(ks, c, k, HashKey(ks, k), v))
  {
    var c' := PutChain(ks, c, k, HashKey(ks, k), v);
    forall k' ensures |Vals(ks, c', k')| <= 1 {
      PutChainVals(ks, c, k, v, k');
      assert |Vals(ks, c, k')| <= 1;
    }
  }

  lemma {:induction false} PutSize<K(!new), V>(ks: Keys<K>, t: seq<Chain<K, V>>, k: K, v: V)
    requires IsPow2(|t|)
    ensures |Flat(PutBare(ks, t, k, v))| == |Flat(t)| + (if Lookup(ks, t, k).None? then 1 else 0)
  {
    var i := Index(|t|, HashKey(ks, k));
    FlatUpdate(t, i, PutChain(ks, Bucket(ks, t, k), k, HashKey(ks, k), v));
    FlatSplit(t, i);
  }

  lemma {:induction false} PutRefines<K(!new), V>(ks: Keys<K>, t: seq<Chain<K, V>>, k: K, v: V)
    requires WellFormed(ks, t)
    ensures Updates(ks, t, PutBare(ks, t, k, v), k, Some(v))
  {
    var c := Bucket(ks, t, k);
    var c' := PutChain(ks, c, k, HashKey(ks, k), v);
    BucketFits(ks, t, k);
    PutFits(ks, |t|, c, k, v);
    forall k' ensures Vals(ks, c', k') == if ks.equals(k, k') then multiset{v} else Vals(ks, c, k') {
      PutChainVals(ks, c, k, v, k');
    }
    BucketReplaced(ks, t, k, c');
    UpdatesByVals(ks, t, PutBare(ks, t, k, v), k, Some(v));
  }

  function RemoveBare<K(==), V>(ks: Keys<K>, t: seq<Chain<K, V>>, k: K): seq<Chain<K, V>>
    requires IsPow2(|t|)
  {
    WithBucket(ks, t, k, RemoveChain(ks, Bucket(ks, t, k), k, HashKey(ks, k)))
  }

  lemma {:induction false} RemoveFits<K(!new), V>(ks: Keys<K>, n: nat, c: Chain<K, V>, k: K)
    requires Lawful(ks) && IsPow2(n) && Fits(ks, n, k, c)
    ensures Fits(ks, n, k, RemoveChain(ks, c, k, HashKey(ks, k)))
  {
    var c' := RemoveChain(ks, c, k, HashKey(ks, k));
    forall k' ensures |Vals(ks, c', k')| <= 1 {
      RemoveChainVals(ks, c, k, k');
      assert |Vals(ks, c, k')| <= 1;
    }
  }

  lemma {:induction false} RemoveSize<K(!new), V>(ks: Keys<K>, t: seq<Chain<K, V>>, k: K)
    requires IsPow2(|t|)
    ensures |Flat(RemoveBare(ks, t, k))| == |Flat(t)| - (if Lookup(ks, t, k).Some? then 1 else 0)
  {
    var i := Index(|t|, HashKey(ks, k));
    FlatUpdate(t, i, RemoveChain(ks, Bucket(ks, t, k), k, HashKey(ks, k)));
    FlatSplit(t, i);
  }

  lemma {:induction false} RemoveRefines<K(!new), V>(ks: Keys<K>, t: seq<Chain<K, V>>, k: K)
    requires WellFormed(ks, t)
    ensures Updates(ks, t, RemoveBare(ks, t, k), k, None)
  {
    var c := Bucket(ks, t, k);
    var c' := RemoveChain(ks, c, k, HashKey(ks, k));
    BucketFits(ks, t, k);
    RemoveFits(ks, |t|, c, k);
    forall k' ensures Vals(ks, c', k') == if ks.equals(k, k') then multiset{} else Vals(ks, c, k') {
      RemoveChainVals(ks, c, k, k');
    }
    BucketReplaced(ks, t, k, c');
    UpdatesByVals(ks, t, RemoveBare(ks, t, k), k, None);
  }

  // ---------------------------------------------------------------- the table refines a finite map

  /** Calls, with what the allocator does: `entry` for the new entry, `buckets` for a larger bucket array. */
  datatype Op<K, V> =
    | Put(k: K, v: V, entry: bool, buckets: bool)
    | Memoize(k: K, initial: V, entry: bool, buckets: bool)
    | Get(k: K)
    | ContainsKey(k: K)
    | Remove(k: K)
    | Clear

  /** A returned value, where null is None. */
  datatype Out<V> = Value(value: Option<V>) | Flag(flag: bool) | Done

  function Insert<K(==), V>(ks: Keys<K>, t: seq<Chain<K, V>>, k: K, v: V, buckets: bool): seq<Chain<K, V>>
    requires IsPow2(|t|)
  {
    ExpandIfNecessary(PutBare(ks, t, k, v), buckets)
  }

  function DoPut<K(==), V>(ks: Keys<K>, t: seq<Chain<K, V>>, k: K, v: V, entry: bool,
                           buckets: bool): (t': seq<Chain<K, V>>)
    requires IsPow2(|t|)
    ensures IsPow2(|t'|)
  {
    if Lookup(ks, t, k).Some? then PutBare(ks, t, k, v) else if entry then Insert(ks, t, k, v, buckets) else t
  }

  function DoMemoize<K(==), V>(ks: Keys<K>, t: seq<Chain<K, V>>, k: K, v: V, entry: bool,
                               buckets: bool): (t': seq<Chain<K, V>>)
    requires IsPow2(|t|)
    ensures IsPow2(|t'|)
  {
    if Lookup(ks, t, k).Some? || !entry then t else Insert(ks, t, k, v, buckets)
  }

  function Do<K(==), V>(ks: Keys<K>, t: seq<Chain<K, V>>, op: Op<K, V>): (r: (seq<Chain<K, V>>, Out<V>))
    requires IsPow2(|t|)
    ensures IsPow2(|r.0|)
  {
    match op
    case Put(k, v, entry, buckets) => (DoPut(ks, t, k, v, entry, buckets), Value(Lookup(ks, t, k)))
    case Memoize(k, initial, entry, buckets) =>
      (DoMemoize(ks, t, k, initial, entry, buckets),
       Value(if Lookup(ks, t, k).Some? then Lookup(ks, t, k) else if entry then Some(initial) else None))
    case Get(k) => (t, Value(Lookup(ks, t, k)))
    case ContainsKey(k) => (t, Flag(Lookup(ks, t, k).Some?))
    case Remove(k) => (RemoveBare(ks, t, k), Value(Lookup(ks, t, k)))
    case Clear => (Empty(|t|), Done)
  }

  /** The map that a table stands for: one value for all keys that are equal. */
  ghost function Abs<K(!new), V>(ks: Keys<K>, t: seq<Chain<K, V>>): imap<K, V>
    requires IsPow2(|t|)
  {
    imap k | Lookup(ks, t, k).Some? :: Lookup(ks, t, k).value
  }

  ghost function At<K, V>(m: imap<K, V>, k: K): Option<V> { if k in m then Some(m[k]) else None }

  ghost function With<K(!new), V>(ks: Keys<K>, m: imap<K, V>, k: K, v: V): imap<K, V>
  {
    imap k' | k' in m || ks.equals(k, k') :: if ks.equals(k, k') then v else m[k']
  }

  ghost function Without<K(!new), V>(ks: Keys<K>, m: imap<K, V>, k: K): imap<K, V>
  {
    imap k' | k' in m && !ks.equals(k, k') :: m[k']
  }

  /** The same calls on a map.  A call for a new key that finds no memory changes nothing. */
  ghost function MapDo<K(!new), V>(ks: Keys<K>, m: imap<K, V>, op: Op<K, V>): (imap<K, V>, Out<V>)
  {
    match op
    case Put(k, v, entry, _) => (if k in m || entry then With(ks, m, k, v) else m, Value(At(m, k)))
    case Memoize(k, initial, entry, _) =>
      if k in m then (m, Value(Some(m[k])))
      else if entry then (With(ks, m, k, initial), Value(Some(initial)))
      else (m, Value(None))
    case Get(k) => (m, Value(At(m, k)))
    case ContainsKey(k) => (m, Flag(k in m))
    case Remove(k) => (Without(ks, m, k), Value(At(m, k)))
    case Clear => (imap[], Done)
  }

  lemma {:induction false} InsertRefines<K(!new), V>(ks: Keys<K>, t: seq<Chain<K, V>>, k: K, v: V, buckets: bool)
    requires WellFormed(ks, t)
    ensures Updates(ks, t, Insert(ks, t, k, v, buckets), k, Some(v))
    ensures |Flat(Insert(ks, t, k, v, buckets))| == |Flat(t)| + (if Lookup(ks, t, k).None? then 1 else 0)
  {
    PutRefines(ks, t, k, v);
    PutSize(ks, t, k, v);
    var t1 := PutBare(ks, t, k, v);
    if |Flat(t1)| > |t1| * 3 / 4 && buckets && 2 * |t1| <= MAX_BUCKETS {
      ExpandRefines(ks, t1);
    }
  }

  lemma {:induction false} EmptyRefines<K(!new), V>(ks: Keys<K>, n: nat)
    requires Lawful(ks) && IsPow2(n) && n <= MAX_BUCKETS
    ensures WellFormed(ks, Empty<K, V>(n)) && Flat(Empty<K, V>(n)) == []
    ensures Abs(ks, Empty<K, V>(n)) == imap[]
  {
    FlatEmpty<K, V>(n);
  }

  lemma {:induction false} UpdatesAbs<K(!new), V>(ks: Keys<K>, t: seq<Chain<K, V>>, t': seq<Chain<K, V>>, k: K,
                                                  o: Option<V>)
    requires Updates(ks, t, t', k, o)
    ensures Abs(ks, t') == if o.Some? then With(ks, Abs(ks, t), k, o.value) else Without(ks, Abs(ks, t), k)
  {
    var m := if o.Some? then With(ks, Abs(ks, t), k, o.value) else Without(ks, Abs(ks, t), k);
    forall k' ensures At(Abs(ks, t'), k') == At(m, k') {
      AbsAt(ks, t, k');
      AbsAt(ks, t', k');
    }
    SameMap(Abs(ks, t'), m);
  }

  lemma AbsAt<K(!new), V>(ks: Keys<K>, t: seq<Chain<K, V>>, k: K)
    requires IsPow2(|t|)
    ensures At(Abs(ks, t), k) == Lookup(ks, t, k)
  {
  }

  lemma SameMap<K(!new), V>(a: imap<K, V>, b: imap<K, V>)
    requires forall k :: At(a, k) == At(b, k)
    ensures a == b
  {
    forall k ensures k in a <==> k in b { assert At(a, k) == At(b, k); }
    forall k | k in a ensures a[k] == b[k] { assert At(a, k) == At(b, k); }
  }

  lemma {:induction false} PutDoes<K(!new), V>(ks: Keys<K>, t: seq<Chain<K, V>>, k: K, v: V, buckets: bool)
    requires WellFormed(ks, t)
    ensures WellFormed(ks, PutBare(ks, t, k, v)) && Abs(ks, PutBare(ks, t, k, v)) == With(ks, Abs(ks, t), k, v)
    ensures WellFormed(ks, Insert(ks, t, k, v, buckets)) &&
      Abs(ks, Insert(ks, t, k, v, buckets)) == With(ks, Abs(ks, t), k, v)
  {
    PutRefines(ks, t, k, v);
    UpdatesAbs(ks, t, PutBare(ks, t, k, v), k, Some(v));
    InsertRefines(ks, t, k, v, buckets);
    UpdatesAbs(ks, t, Insert(ks, t, k, v, buckets), k, Some(v));
  }

  lemma {:induction false} RemoveDoes<K(!new), V>(ks: Keys<K>, t: seq<Chain<K, V>>, k: K)
    requires WellFormed(ks, t)
    ensures WellFormed(ks, RemoveBare(ks, t, k)) && Abs(ks, RemoveBare(ks, t, k)) == Without(ks, Abs(ks, t), k)
  {
    RemoveRefines(ks, t, k);
    UpdatesAbs(ks, t, RemoveBare(ks, t, k), k, None);
  }

  /** `op` on the table is `op` on the map. */
  ghost predicate SameCall<K(!new), V>(ks: Keys<K>, t: seq<Chain<K, V>>, op: Op<K, V>)
    requires IsPow2(|t|)
  {
    var (t', out) := Do(ks, t, op);
    WellFormed(ks, t') && (Abs(ks, t'), out) == MapDo(ks, Abs(ks, t), op)
  }

  lemma {:induction false} PutCall<K(!new), V>(ks: Keys<K>, t: seq<Chain<K, V>>, k: K, v: V, entry: bool, buckets: bool)
    requires WellFormed(ks, t)
    ensures SameCall(ks, t, Put(k, v, entry, buckets))
  {
    AbsAt(ks, t, k);
    PutDoes(ks, t, k, v, buckets);
  }

  lemma {:induction false} MemoizeCall<K(!new), V>(ks: Keys<K>, t: seq<Chain<K, V>>, k: K, v: V, entry: bool,
                                                   buckets: bool)
    requires WellFormed(ks, t)
    ensures SameCall(ks, t, Memoize(k, v, entry, buckets))
  {
    AbsAt(ks, t, k);
    PutDoes(ks, t, k, v, buckets);
  }

  lemma {:induction false} RemoveCall<K(!new), V>(ks: Keys<K>, t: seq<Chain<K, V>>, k: K)
    requires WellFormed(ks, t)
    ensures SameCall(ks, t, Remove(k))
  {
    RemoveOut(ks, t, k);
    RemoveWell(ks, t, k);
  }

  lemma {:induction false} RemoveWell<K(!new), V>(ks: Keys<K>, t: seq<Chain<K, V>>, k: K)
    requires WellFormed(ks, t)
    ensures WellFormed(ks, Do(ks, t, Remove(k)).0)
  {
    SameTable(ks, RemoveBare(ks, t, k), Do(ks, t, Remove(k)).0) by {
      RemoveRefines(ks, t, k);
    }
  }

  lemma {:induction false} SameTable<K(!new), V>(ks: Keys<K>, t: seq<Chain<K, V>>, t': seq<Chain<K, V>>)
    requires WellFormed(ks, t) && t == t'
    ensures WellFormed(ks, t')
  {
  }

  lemma {:induction false} RemoveOut<K(!new), V>(ks: Keys<K>, t: seq<Chain<K, V>>, k: K)
    requires WellFormed(ks, t)
    ensures var (t', out) := Do(ks, t, Remove(k)); (Abs(ks, t'), out) == MapDo(ks, Abs(ks, t), Remove(k))
  {
    var t', m' := RemoveBare(ks, t, k), Without(ks, Abs(ks, t), k);
    assert Abs(ks, t') == m' && At(Abs(ks, t), k) == Lookup(ks, t, k) by {
      RemoveDoes(ks, t, k);
      AbsAt(ks, t, k);
    }
    TableRemove(ks, t, k);
    MapRemove(ks, Abs(ks, t), k, m', Value(Lookup(ks, t, k)));
  }

  lemma {:induction false} TableRemove<K(!new), V>(ks: Keys<K>, t: seq<Chain<K, V>>, k: K)
    requires IsPow2(|t|)
    ensures Do(ks, t, Remove(k)) == (RemoveBare(ks, t, k), Value(Lookup(ks, t, k)))
  {
  }

  lemma {:induction false} MapRemove<K(!new), V>(ks: Keys<K>, m: imap<K, V>, k: K, m': imap<K, V>, out: Out<V>)
    requires m' == Without(ks, m, k) && out == Value(At(m, k))
    ensures MapDo(ks, m, Remove(k)) == (m', out)
  {
  }

  lemma {:induction false} OtherCall<K(!new), V>(ks: Keys<K>, t: seq<Chain<K, V>>, op: Op<K, V>)
    requires WellFormed(ks, t) && (op.Get? || op.ContainsKey? || op.Clear?)
    ensures SameCall(ks, t, op)
  {
    if op.Clear? {
      EmptyRefines<K, V>(ks, |t|);
    } else {
      AbsAt(ks, t, op.k);
    }
  }

  /** Every call on the table has the result and the effect of the call on the map. */
  lemma {:induction false} DoRefines<K(!new), V>(ks: Keys<K>, t: seq<Chain<K, V>>, op: Op<K, V>)
    requires WellFormed(ks, t)
    ensures var (t', out) := Do(ks, t, op);
      WellFormed(ks, t') && (Abs(ks, t'), out) == MapDo(ks, Abs(ks, t), op)
  {
    match op
    case Put(k, v, entry, buckets) => PutCall(ks, t, k, v, entry, buckets);
    case Memoize(k, v, entry, buckets) => MemoizeCall(ks, t, k, v, entry, buckets);
    case Remove(k) => RemoveCall(ks, t, k);
    case _ => OtherCall(ks, t, op);
    assert SameCall(ks, t, op);
  }

  function Run<K(==), V>(ks: Keys<K>, t: seq<Chain<K, V>>, ops: seq<Op<K, V>>): (seq<Chain<K, V>>, seq<Out<V>>)
    requires IsPow2(|t|)
    decreases |ops|
  {
    if ops == [] then (t, [])
    else
      var (t1, out) := Do(ks, t, ops[0]);
      var (t2, outs) := Run(ks, t1, ops[1..]);
      (t2, [out] + outs)
  }

  ghost function MapRun<K(!new), V>(ks: Keys<K>, m: imap<K, V>, ops: seq<Op<K, V>>): (imap<K, V>, seq<Out<V>>)
    decreases |ops|
  {
    if ops == [] then (m, [])
    else
      var (m1, out) := MapDo(ks, m, ops[0]);
      var (m2, outs) := MapRun(ks, m1, ops[1..]);
      (m2, [out] + outs)
  }

  /** The table refines the map over every sequence of calls and every pattern of allocation failures. */
  lemma {:induction false} RunRefines<K(!new), V>(ks: Keys<K>, t: seq<Chain<K, V>>, ops: seq<Op<K, V>>)
    requires WellFormed(ks, t)
    ensures var (t', outs) := Run(ks, t, ops);
      WellFormed(ks, t') && (Abs(ks, t'), outs) == MapRun(ks, Abs(ks, t), ops)
    decreases |ops|
  {
    if ops != [] {
      DoRefines(ks, t, ops[0]);
      RunRefines(ks, Do(ks, t, ops[0]).0, ops[1..]);
    }
  }

  // ---------------------------------------------------------------- size and load

  ghost function KeySet<K, V>(c: Chain<K, V>): set<K> { set it | it in c :: it.key }

  lemma {:induction false} ValsSome<K, V>(ks: Keys<K>, c: Chain<K, V>, j: nat, k: K)
    requires j < |c| && ks.equals(c[j].key, k)
    ensures |Vals(ks, c, k)| >= 1
  {
    if j > 0 { ValsSome(ks, c[1..], j - 1, k); }
  }

  lemma {:induction false} KeyCount<K(!new), V>(ks: Keys<K>, c: Chain<K, V>)
    requires Lawful(ks) && Unique(ks, c)
    ensures |KeySet(c)| == |c|
    ensures forall a, b :: a in KeySet(c) && b in KeySet(c) && ks.equals(a, b) ==> a == b
  {
    if c != [] {
      var k := c[0].key;
      forall k' ensures |Vals(ks, c[1..], k')| <= 1 { assert |Vals(ks, c, k')| <= 1; }
      KeyCount(ks, c[1..]);
      assert |Vals(ks, c, k)| <= 1;
      forall it | it in c[1..] ensures !ks.equals(it.key, k) {
        if ks.equals(it.key, k) {
          var j :| 0 <= j < |c[1..]| && c[1..][j] == it;
          ValsSome(ks, c[1..], j, k);
        }
      }
      assert KeySet(c) == KeySet(c[1..]) + {k};
      assert k !in KeySet(c[1..]);
    }
  }

  // What happens to the stored keys themselves, which are the spellings that callers get back.

  lemma KeySetConcat<K, V>(a: Chain<K, V>, b: Chain<K, V>)
    ensures KeySet(a + b) == KeySet(a) + KeySet(b)
  {
  }

  lemma {:induction false} StoredKey<K, V>(t: seq<Chain<K, V>>, i: nat, j: nat)
    requires i < |t| && j < |t[i]|
    ensures t[i][j].key in KeySet(Flat(t))
  {
    FlatSplit(t, i);
    assert t[i][j] in t[i];
  }

  lemma {:induction false} ReplacedKeys<K, V>(a: Chain<K, V>, it: Item<K, V>, it': Item<K, V>, b: Chain<K, V>)
    requires it'.key == it.key
    ensures KeySet(a + ([it'] + b)) == KeySet(a + ([it] + b))
  {
    KeySetConcat(a, [it] + b);
    KeySetConcat(a, [it'] + b);
    KeySetConcat([it], b);
    KeySetConcat([it'], b);
    assert KeySet([it']) == {it.key} == KeySet([it]);
  }

  lemma {:induction false} PutChainKeys<K, V>(ks: Keys<K>, c: Chain<K, V>, k: K, h: int, v: V)
    ensures KeySet(PutChain(ks, c, k, h, v)) == KeySet(c) + (if Find(ks, c, k, h) < |c| then {} else {k})
  {
    var j := Find(ks, c, k, h);
    if j < |c| {
      var it := c[j].(value := v);
      assert c == c[..j] + ([c[j]] + c[j + 1..]) && PutChain(ks, c, k, h, v) == c[..j] + ([it] + c[j + 1..]);
      ReplacedKeys(c[..j], c[j], it, c[j + 1..]);
    } else {
      KeySetConcat(c, [Item(k, h, v)]);
      assert KeySet([Item(k, h, v)]) == {k};
    }
  }

  lemma {:induction false} PutBareKeys<K, V>(ks: Keys<K>, t: seq<Chain<K, V>>, k: K, v: V)
    requires IsPow2(|t|)
    ensures KeySet(Flat(PutBare(ks, t, k, v))) == KeySet(Flat(t)) + (if Lookup(ks, t, k).Some? then {} else {k})
  {
    var i, c := Index(|t|, HashKey(ks, k)), Bucket(ks, t, k);
    var c' := PutChain(ks, c, k, HashKey(ks, k), v);
    PutChainKeys(ks, c, k, HashKey(ks, k), v);
    FlatUpdate(t, i, c');
    FlatSplit(t, i);
    var a, b := Flat(t[..i]), Flat(t[i + 1..]);
    KeySetConcat(a + c, b);
    KeySetConcat(a, c);
    KeySetConcat(a + c', b);
    KeySetConcat(a, c');
  }

  lemma {:induction false} SameKeys<K, V>(a: Chain<K, V>, b: Chain<K, V>)
    requires multiset(a) == multiset(b)
    ensures KeySet(a) == KeySet(b)
  {
    assert forall it :: it in a <==> it in multiset(a);
    assert forall it :: it in b <==> it in multiset(b);
  }

  /** hashmapPut stores a key that is new and leaves the stored one, with its own spelling, when it is not. */
  lemma {:induction false} PutKeys<K, V>(ks: Keys<K>, t: seq<Chain<K, V>>, k: K, v: V, entry: bool, buckets: bool)
    requires IsPow2(|t|)
    ensures KeySet(Flat(DoPut(ks, t, k, v, entry, buckets))) ==
      KeySet(Flat(t)) + (if Lookup(ks, t, k).None? && entry then {k} else {})
  {
    var t1 := PutBare(ks, t, k, v);
    PutBareKeys(ks, t, k, v);
    ExpandKeepsItems(t1);
    SameKeys(Flat(t1), Flat(Expand(t1)));
  }

  /** `size` counts the keys: one stored key for every class of equal keys that the map holds. */
  lemma {:induction false} SizeIsKeyCount<K(!new), V>(ks: Keys<K>, t: seq<Chain<K, V>>)
    requires WellFormed(ks, t)
    ensures |KeySet(Flat(t))| == |Flat(t)|
    ensures forall a, b :: a in KeySet(Flat(t)) && b in KeySet(Flat(t)) && ks.equals(a, b) ==> a == b
    ensures forall k :: k in Abs(ks, t) <==> exists r :: r in KeySet(Flat(t)) && ks.equals(r, k)
  {
    KeyCount(ks, Flat(t));
    forall k ensures k in Abs(ks, t) <==> exists r :: r in KeySet(Flat(t)) && ks.equals(r, k) {
      LookupIsVals(ks, t, k);
      AbsAt(ks, t, k);
      ValsOfStored(ks, Flat(t), k);
    }
  }

  /** A key has values exactly when an equal one is stored. */
  lemma {:induction false} ValsOfStored<K, V>(ks: Keys<K>, c: Chain<K, V>, k: K)
    ensures |Vals(ks, c, k)| > 0 <==> exists r :: r in KeySet(c) && ks.equals(r, k)
  {
    if r :| r in KeySet(c) && ks.equals(r, k) {
      var it :| it in c && it.key == r;
      var j :| 0 <= j < |c| && c[j] == it;
      ValsSome(ks, c, j, k);
    } else {
      forall j | 0 <= j < |c| ensures !ks.equals(c[j].key, k) {
        assert c[j] in c && c[j].key in KeySet(c);
      }
      ValsNone(ks, c, k);
    }
  }

  /** hashmapCreate rounds up to the first power of two above 4/3 of the capacity; the product is a size_t. */
  function MinimumBuckets(capacity: nat): nat { (capacity * 4 % TWO_32) / 3 }

  predicate CreatedFor(n: nat, capacity: nat)
  {
    IsPow2(n) && n > MinimumBuckets(capacity) && (n == 1 || n / 2 <= MinimumBuckets(capacity))
  }
}
