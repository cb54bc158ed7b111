/** hashmap.c: bucket chains of linked entries, relinked in place, proved against the operations of module Table. */
module Hashmap {
  import opened Hashing
  import opened Options
  import opened Table

  class Entry<K, V> {
    const key: K
    const hash: int
    var value: V
    var next: Entry?<K, V>

    constructor (key: K, hash: int, value: V)
      ensures this.key == key && this.hash == hash && this.value == value && next == null
    {
      this.key, this.hash, this.value, this.next := key, hash, value, null;
    }

    ghost predicate Is(it: Item<K, V>)
      reads this`value
    {
      key == it.key && hash == it.hash && value == it.value
    }
  }

  /** The entry at position `j` of a chain, or null at its end. */
  ghost function EntryAt<K, V>(c: seq<Entry<K, V>>, j: nat): Entry?<K, V>
  {
    if j < |c| then c[j] else null
  }

  /** `c` is the chain of entries from `head` on and holds the items `s`. */
  ghost predicate Chained<K, V>(head: Entry?<K, V>, c: seq<Entry<K, V>>, s: Chain<K, V>)
    reads c
  {
    && head == EntryAt(c, 0)
    && |c| == |s|
    && (forall j :: 0 <= j < |c| ==> c[j].Is(s[j]))
    && (forall j {:trigger c[j].next} :: 0 <= j < |c| ==> c[j].next == EntryAt(c, j + 1))
  }

  ghost predicate Apart<K, V>(cs: seq<seq<Entry<K, V>>>)
  {
    forall i, j, i', j' ::
      0 <= i < |cs| && 0 <= j < |cs[i]| && 0 <= i' < |cs| && 0 <= j' < |cs[i']| && cs[i][j] == cs[i'][j'] ==>
        i == i' && j == j'
  }

  /** The bucket array, the chains it leads to, and the table they stand for; every entry is in `nodes`. */
  ghost predicate Holds<K, V>(bs: array<Entry?<K, V>>, cs: seq<seq<Entry<K, V>>>, t: seq<Chain<K, V>>,
                              nodes: set<Entry<K, V>>)
    reads bs, nodes
  {
    && |cs| == |t| == bs.Length
    && (forall i, j :: 0 <= i < |cs| && 0 <= j < |cs[i]| ==> cs[i][j] in nodes)
    && Apart(cs)
    && (forall i :: 0 <= i < |cs| ==> Chained(bs[i], cs[i], t[i]))
  }

  class Hashmap<K(==, !new), V> {
    const ks: Keys<K>
    var buckets: array<Entry?<K, V>>
    var size: nat

    ghost var table: seq<Chain<K, V>>
    ghost var chains: seq<seq<Entry<K, V>>>
    ghost var nodes: set<Entry<K, V>>

    ghost predicate Shape()
      reads `buckets, `chains, `table, `nodes, buckets, nodes
    {
      Holds(buckets, chains, table, nodes)
    }

    ghost predicate Valid()
      reads this, buckets, nodes
    {
      Shape() && WellFormed(ks, table) && size == |Flat(table)|
    }

    /**
      The walk that all operations share; `prev` is the entry whose link was followed last, null for the bucket's own.
    */
    method Search(k: K, hash: int) returns (prev: Entry?<K, V>, entry: Entry?<K, V>, ghost j: nat)
      requires Shape() && IsPow2(|table|) && hash == HashKey(ks, k)
      ensures var c := chains[Index(|table|, hash)];
        && j == Find(ks, Bucket(ks, table, k), k, hash) && j <= |c|
        && entry == EntryAt(c, j) && prev == (if j == 0 then null else EntryAt(c, j - 1))
    {
      ghost var i := Index(|table|, hash);
      prev, entry := null, buckets[Index(buckets.Length, hash)];
      j := 0;
      while entry != null
        invariant j <= |chains[i]| && entry == EntryAt(chains[i], j) &&
          prev == (if j == 0 then null else EntryAt(chains[i], j - 1))
        invariant forall a :: 0 <= a < j ==> !EqualKeys(ks, table[i][a], k, hash)
        decreases |chains[i]| - j
      {
        assert entry.Is(table[i][j]);
        if entry.key == k || (entry.hash == hash && ks.equals(entry.key, k)) {
          FindFirst(ks, table[i], k, hash, j);
          return;
        }
        prev, entry := entry, entry.next;
        j := j + 1;
      }
      FindFirst(ks, table[i], k, hash, j);
    }

    /** hashmapGet. */
    method Get(k: K) returns (r: Option<V>)
      requires Valid()
      ensures (table, Out.Value(r)) == Do(ks, table, Op.Get(k))
    {
      var prev, entry, j := Search(k, HashKey(ks, k));
      if entry == null {
        return None;
      }
      return Some(entry.value);
    }

    /** hashmapContainsKey. */
    method ContainsKey(k: K) returns (r: bool)
      requires Valid()
      ensures (table, Flag(r)) == Do(ks, table, Op.ContainsKey(k))
    {
      var prev, entry, j := Search(k, HashKey(ks, k));
      return entry != null;
    }

    /** The entry that a lookup of `k` ends at, as position `j` of its bucket. */
    ghost predicate Found(k: K, entry: Entry<K, V>, j: nat)
      requires Shape() && IsPow2(|table|)
      reads `buckets, `chains, `table, `nodes, buckets, nodes
    {
      var c := chains[Index(|table|, HashKey(ks, k))];
      j < |c| && j == Find(ks, Bucket(ks, table, k), k, HashKey(ks, k)) && entry == c[j]
    }

    /** entryGet: the entry itself, through which the caller may replace the value. */
    method EntryGet(k: K) returns (entry: Entry?<K, V>, ghost j: nat)
      requires Valid()
      ensures entry == null <==> Lookup(ks, table, k).None?
      ensures entry != null ==>
        entry in nodes && Lookup(ks, table, k) == Some(entry.value) && ks.equals(entry.key, k) && Found(k, entry, j)
      ensures entry != null ==> entry.key in KeySet(Flat(table))
    {
      var prev;
      prev, entry, j := Search(k, HashKey(ks, k));
      if entry != null {
        StoredKey(table, Index(|table|, HashKey(ks, k)), j);
      }
    }

    /** What a caller of entryGet does to replace the value: the effect of a put on a stored key. */
    method Replace(k: K, entry: Entry<K, V>, v: V, ghost j: nat)
      requires Valid() && Found(k, entry, j)
      modifies this`table, entry`value
      ensures Valid() && table == PutBare(ks, old(table), k, v)
    {
      PutRefines(ks, table, k, v);
      PutSize(ks, table, k, v);
      SetValue(entry, v, Index(|table|, HashKey(ks, k)), j);
    }

    // -------------------------------------------------------------- changes

    /** Overwrite the value of the entry at position `j` of bucket `i`. */
    method SetValue(entry: Entry<K, V>, v: V, ghost i: nat, ghost j: nat)
      requires Shape() && i < |chains| && j < |chains[i]| && entry == chains[i][j]
      modifies this`table, entry`value
      ensures Shape() && table == old(table)[i := old(table)[i][j := old(table)[i][j].(value := v)]]
    {
      assert forall a :: 0 <= a < |chains| && a != i ==> entry !in chains[a];
      entry.value := v;
      table := table[i := table[i][j := table[i][j].(value := v)]];
      assert Chained(buckets[i], chains[i], table[i]);
      assert forall a :: 0 <= a < |chains| && a != i ==> Chained(buckets[a], chains[a], table[a]);
    }

    /** Link a new entry behind the last one of bucket `i`. */
    method Append(prev: Entry?<K, V>, i: nat, n: Entry<K, V>)
      requires Shape() && i < |chains| && n !in nodes && n.next == null
      requires prev == (if |chains[i]| == 0 then null else EntryAt(chains[i], |chains[i]| - 1))
      modifies this`table, this`chains, this`nodes, buckets, if prev == null then {} else {prev}
      ensures Shape() && buckets == old(buckets) && nodes == old(nodes) + {n}
      ensures table == old(table)[i := old(table)[i] + [Item(n.key, n.hash, n.value)]]
    {
      ApartAppend(chains, i, n);
      assert prev != null ==> forall a :: 0 <= a < |chains| && a != i ==> prev !in chains[a];
      if prev == null {
        buckets[i] := n;
      } else {
        prev.next := n;
      }
      nodes := nodes + {n};
      assert forall a :: 0 <= a < |chains| && a != i ==> Chained(buckets[a], chains[a], table[a]);
      Rebucket(i, chains[i] + [n], table[i] + [Item(n.key, n.hash, n.value)]);
    }

    /** Unlink the entry at position `j` of bucket `i`. */
    method Unlink(prev: Entry?<K, V>, entry: Entry<K, V>, i: nat, ghost j: nat, ghost c': seq<Entry<K, V>>,
                  ghost s': Chain<K, V>)
      requires Shape() && i < |chains| && j < |chains[i]| && entry == chains[i][j]
      requires prev == (if j == 0 then null else EntryAt(chains[i], j - 1))
      requires Spliced(chains[i], j, c') && Spliced(table[i], j, s') && Apart(chains[i := c'])
      modifies this`table, this`chains, buckets, if prev == null then {} else {prev}
      ensures Shape() && buckets == old(buckets) && table == old(table)[i := s']
    {
      assert prev != null ==> forall a :: 0 <= a < |chains| && a != i ==> prev !in chains[a];
      var head := Bypass(buckets[i], prev, entry, chains[i], table[i], j, c', s');
      assert forall a :: 0 <= a < |chains| && a != i ==> Chained(buckets[a], chains[a], table[a]);
      if prev == null {
        buckets[i] := head;
      }
      Rebucket(i, c', s');
    }

    /** Ghost bookkeeping: bucket `i` now holds another chain. */
    ghost method Rebucket(i: nat, c: seq<Entry<K, V>>, s: Chain<K, V>)
      requires Almost(buckets, chains, table, nodes, i, c, s)
      modifies this`table, this`chains
      ensures Shape() && table == old(table)[i := s]
    {
      OneBucket(buckets, chains, table, nodes, i, c, s);
      chains := chains[i := c];
      table := table[i := s];
    }

    /** expandIfNecessary; `granted` says whether calloc provides the new array. */
    method ExpandIfNecessary(granted: bool)
      requires Shape() && IsPow2(|table|) && size == |Flat(table)|
      modifies this`buckets, this`table, this`chains, nodes`next
      ensures Shape() && (buckets == old(buckets) || fresh(buckets))
      ensures table == Table.ExpandIfNecessary(old(table), granted)
    {
      if size > buckets.Length * 3 / 4 && granted && 2 * buckets.Length <= MAX_BUCKETS {
        buckets, chains := Relink(buckets, chains, table, nodes);
        table := Table.Expand(table);
      }
    }

    /** The branch that adds an entry for a key whose bucket has none. */
    method AddEntry(prev: Entry?<K, V>, k: K, hash: int, v: V, moreBuckets: bool)
      requires Shape() && IsPow2(|table|) && hash == HashKey(ks, k) && Lookup(ks, table, k).None?
      requires size == |Flat(table)| && size + 1 == |Flat(PutBare(ks, table, k, v))|
      requires var c := chains[Index(|table|, hash)]; prev == (if |c| == 0 then null else EntryAt(c, |c| - 1))
      modifies this, buckets, nodes
      ensures Shape() && (buckets == old(buckets) || fresh(buckets)) && fresh(nodes - old(nodes))
      ensures size == old(size) + 1 && table == Insert(ks, old(table), k, v, moreBuckets)
    {
      PutNew(ks, table, k, v);
      AppendNew(prev, Index(buckets.Length, hash), k, hash, v);
      ExpandIfNecessary(moreBuckets);
    }

    method AppendNew(prev: Entry?<K, V>, i: nat, k: K, hash: int, v: V)
      requires Shape() && i < |chains|
      requires prev == (if |chains[i]| == 0 then null else EntryAt(chains[i], |chains[i]| - 1))
      modifies this`table, this`chains, this`nodes, this`size, buckets, if prev == null then {} else {prev}
      ensures Shape() && buckets == old(buckets) && fresh(nodes - old(nodes))
      ensures size == old(size) + 1 && table == old(table)[i := old(table)[i] + [Item(k, hash, v)]]
    {
      size := size + 1;
      var n := new Entry(k, hash, v);
      Append(prev, i, n);
    }

    /** hashmapPut; `entryGranted` and `moreBuckets` say whether malloc and calloc succeed. */
    method Put(k: K, v: V, entryGranted: bool, moreBuckets: bool) returns (r: Option<V>)
      requires Valid()
      modifies this, buckets, nodes
      ensures Valid() && (buckets == old(buckets) || fresh(buckets)) && fresh(nodes - old(nodes))
      ensures r == Lookup(ks, old(table), k) && table == DoPut(ks, old(table), k, v, entryGranted, moreBuckets)
    {
      PutKeeps(ks, table, k, v, entryGranted, moreBuckets);
      r := PutShaped(k, v, entryGranted, moreBuckets);
    }

    method PutShaped(k: K, v: V, entryGranted: bool, moreBuckets: bool) returns (r: Option<V>)
      requires Shape() && IsPow2(|table|) && size == |Flat(table)|
      requires |Flat(PutBare(ks, table, k, v))| == size + (if Lookup(ks, table, k).None? then 1 else 0)
      modifies this, buckets, nodes
      ensures Shape() && (buckets == old(buckets) || fresh(buckets)) && fresh(nodes - old(nodes))
      ensures r == Lookup(ks, old(table), k) && table == DoPut(ks, old(table), k, v, entryGranted, moreBuckets)
      ensures size == old(size) + (if r.None? && entryGranted then 1 else 0)
    {
      var hash := HashKey(ks, k);
      var prev, entry, j := Search(k, hash);
      if entry != null {
        r := Some(entry.value);
        SetValue(entry, v, Index(|table|, hash), j);
      } else {
        r := None;
        if entryGranted {
          AddEntry(prev, k, hash, v, moreBuckets);
        }
      }
    }

    /** hashmapMemoize with the value that the callback would compute. */
    method Memoize(k: K, initial: V, entryGranted: bool, moreBuckets: bool) returns (r: Option<V>)
      requires Valid()
      modifies this, buckets, nodes
      ensures Valid() && (buckets == old(buckets) || fresh(buckets)) && fresh(nodes - old(nodes))
      ensures table == DoMemoize(ks, old(table), k, initial, entryGranted, moreBuckets)
      ensures r == if Lookup(ks, old(table), k).Some? then Lookup(ks, old(table), k)
        else if entryGranted then Some(initial) else None
    {
      PutKeeps(ks, table, k, initial, entryGranted, moreBuckets);
      var hash := HashKey(ks, k);
      var prev, entry, j := Search(k, hash);
      if entry != null {
        return Some(entry.value);
      }
      if !entryGranted {
        return None;
      }
      AddEntry(prev, k, hash, initial, moreBuckets);
      return Some(initial);
    }

    /** hashmapRemove. */
    method Remove(k: K) returns (r: Option<V>)
      requires Valid()
      modifies this, buckets, nodes
      ensures Valid() && buckets == old(buckets) && nodes == old(nodes)
      ensures r == Lookup(ks, old(table), k) && table == RemoveBare(ks, old(table), k)
    {
      RemoveRefines(ks, table, k);
      RemoveSize(ks, table, k);
      r := RemoveShaped(k);
    }

    method RemoveShaped(k: K) returns (r: Option<V>)
      requires Shape() && IsPow2(|table|) && (Lookup(ks, table, k).Some? ==> size > 0)
      modifies this, buckets, nodes
      ensures Shape() && buckets == old(buckets) && nodes == old(nodes)
      ensures r == Lookup(ks, old(table), k) && table == RemoveBare(ks, old(table), k)
      ensures size == old(size) - (if r.Some? then 1 else 0)
    {
      var hash := HashKey(ks, k);
      var prev, entry, j := Search(k, hash);
      var i := Index(buckets.Length, hash);
      if entry == null {
        assert table == table[i := table[i]];
        return None;
      }
      r := Some(entry.value);
      RemoveSplices(ks, table[i], k, hash);
      Drop(prev, entry, i, j, RemoveChain(ks, table[i], k, hash));
    }

    method Drop(prev: Entry?<K, V>, entry: Entry<K, V>, i: nat, ghost j: nat, ghost s': Chain<K, V>)
      requires Shape() && i < |chains| && j < |chains[i]| && entry == chains[i][j] && size > 0
      requires prev == (if j == 0 then null else EntryAt(chains[i], j - 1)) && Spliced(table[i], j, s')
      modifies this`table, this`chains, this`size, buckets, if prev == null then {} else {prev}
      ensures Shape() && buckets == old(buckets) && table == old(table)[i := s'] && size == old(size) - 1
    {
      ghost var c' := SpliceChain(chains, i, j);
      size := size - 1;
      Unlink(prev, entry, i, j, c', s');
    }

    /** hashmapClear. */
    method Clear()
      requires Valid()
      modifies this, buckets
      ensures Valid() && buckets == old(buckets) && nodes == old(nodes)
      ensures table == Empty(|old(table)|)
    {
      EmptyRefines<K, V>(ks, |table|);
      ClearShaped();
    }

    method ClearShaped()
      requires Shape()
      modifies this, buckets
      ensures Shape() && buckets == old(buckets) && nodes == old(nodes)
      ensures table == Empty(|old(table)|) && size == 0
    {
      ClearBuckets(buckets);
      chains := seq(|table|, _ => []);
      table := Empty(|table|);
      size := 0;
    }

    /** hashmapCreate; a bucket array that is too large is an allocation that fails. */
    constructor (ks: Keys<K>, capacity: nat, bucketCount: nat)
      requires Lawful(ks) && CreatedFor(bucketCount, capacity) && bucketCount <= MAX_BUCKETS
      ensures Valid() && fresh(buckets) && nodes == {} && this.ks == ks
      ensures table == Empty(bucketCount)
    {
      EmptyRefines<K, V>(ks, bucketCount);
      this.ks := ks;
      buckets := new Entry?<K, V>[bucketCount](_ => null);
      size := 0;
      table := Empty(bucketCount);
      chains := seq(bucketCount, _ => []);
      nodes := {};
    }
  }

  method ClearBuckets<K, V>(bs: array<Entry?<K, V>>)
    modifies bs
    ensures forall a :: 0 <= a < bs.Length ==> bs[a] == null
  {
    for i := 0 to bs.Length
      invariant forall a :: 0 <= a < i ==> bs[a] == null
    {
      bs[i] := null;
    }
  }

  lemma {:induction false} PutKeeps<K(!new), V>(ks: Keys<K>, t: seq<Chain<K, V>>, k: K, v: V, entry: bool,
                                                buckets: bool)
    requires WellFormed(ks, t)
    ensures WellFormed(ks, DoPut(ks, t, k, v, entry, buckets))
    ensures WellFormed(ks, DoMemoize(ks, t, k, v, entry, buckets))
    ensures |Flat(PutBare(ks, t, k, v))| == |Flat(t)| + (if Lookup(ks, t, k).None? then 1 else 0)
    ensures |Flat(DoPut(ks, t, k, v, entry, buckets))| == |Flat(t)| + (if Lookup(ks, t, k).None? && entry then 1 else 0)
    ensures |Flat(DoMemoize(ks, t, k, v, entry, buckets))| ==
      |Flat(t)| + (if Lookup(ks, t, k).None? && entry then 1 else 0)
  {
    PutRefines(ks, t, k, v);
    PutSize(ks, t, k, v);
    InsertRefines(ks, t, k, v, buckets);
  }

  lemma DoublePow2(n: nat)
    requires IsPow2(n)
    ensures IsPow2(2 * n)
  {
    assert 2 * n / 2 == n;
  }

  /** The loop of hashmapCreate that finds the number of buckets. */
  method BucketCount(capacity: nat) returns (n: nat)
    ensures CreatedFor(n, capacity) && n <= TWO_31
  {
    var minimum := MinimumBuckets(capacity);
    n := 1;
    while n <= minimum
      invariant IsPow2(n) && n <= TWO_31 && (n == 1 || n / 2 <= minimum)
      decreases minimum + 1 - n
    {
      DoublePow2(n);
      Two31();
      SmallPow2(n, 31);
      n := n * 2;
    }
  }

  /** All buckets but `i` hold the chains they did, and bucket `i` holds the chain `c` with the items `s`. */
  ghost predicate Almost<K, V>(bs: array<Entry?<K, V>>, cs: seq<seq<Entry<K, V>>>, t: seq<Chain<K, V>>,
                               nodes: set<Entry<K, V>>,
                               i: nat, c: seq<Entry<K, V>>, s: Chain<K, V>)
    reads bs, nodes, c
  {
    && i < |cs| == |t| == bs.Length
    && (forall a, b :: 0 <= a < |cs| && 0 <= b < |cs[a]| ==> cs[a][b] in nodes)
    && (forall b :: 0 <= b < |c| ==> c[b] in nodes)
    && Apart(cs[i := c]) && Chained(bs[i], c, s)
    && (forall a :: 0 <= a < |cs| && a != i ==> Chained(bs[a], cs[a], t[a]))
  }

  lemma OneBucket<K, V>(bs: array<Entry?<K, V>>, cs: seq<seq<Entry<K, V>>>, t: seq<Chain<K, V>>,
                        nodes: set<Entry<K, V>>,
                        i: nat, c: seq<Entry<K, V>>, s: Chain<K, V>)
    requires Almost(bs, cs, t, nodes, i, c, s)
    ensures Holds(bs, cs[i := c], t[i := s], nodes)
  {
  }

  /** `s'` is `s` without its element at position `j`. */
  ghost predicate Spliced<T>(s: seq<T>, j: nat, s': seq<T>)
    requires j < |s|
  {
    && |s'| == |s| - 1
    && (forall b :: 0 <= b < j ==> s'[b] == s[b])
    && (forall b :: j <= b < |s'| ==> s'[b] == s[b + 1])
  }

  /** Make the link that leads to an entry lead past it. */
  method Bypass<K, V>(head: Entry?<K, V>, prev: Entry?<K, V>, entry: Entry<K, V>,
                      ghost c: seq<Entry<K, V>>, ghost s: Chain<K, V>, ghost j: nat, ghost c': seq<Entry<K, V>>,
                      ghost s': Chain<K, V>)
    returns (head': Entry?<K, V>)
    requires Chained(head, c, s) && j < |c| && entry == c[j] && prev == (if j == 0 then null else EntryAt(c, j - 1))
    requires forall a, b :: 0 <= a < |c| && 0 <= b < |c| && c[a] == c[b] ==> a == b
    requires Spliced(c, j, c') && Spliced(s, j, s')
    modifies if prev == null then {} else {prev}
    ensures Chained(head', c', s')
    ensures prev != null ==> head' == head
  {
    if prev == null {
      head' := entry.next;
    } else {
      head' := head;
      prev.next := entry.next;
    }
  }

  lemma ApartAppend<K, V>(cs: seq<seq<Entry<K, V>>>, i: nat, n: Entry<K, V>)
    requires Apart(cs) && i < |cs| && forall a, b :: 0 <= a < |cs| && 0 <= b < |cs[a]| ==> cs[a][b] != n
    ensures Apart(cs[i := cs[i] + [n]])
  {
  }

  lemma SpliceChain<K, V>(cs: seq<seq<Entry<K, V>>>, i: nat, j: nat) returns (c: seq<Entry<K, V>>)
    requires Apart(cs) && i < |cs| && j < |cs[i]|
    ensures Spliced(cs[i], j, c) && Apart(cs[i := c])
  {
    c := cs[i][..j] + cs[i][j + 1..];
    assert Spliced(cs[i], j, c);
  }

  lemma PutNew<K(!new), V>(ks: Keys<K>, t: seq<Chain<K, V>>, k: K, v: V)
    requires IsPow2(|t|) && Lookup(ks, t, k).None?
    ensures var i := Index(|t|, HashKey(ks, k)); PutBare(ks, t, k, v) == t[i := t[i] + [Item(k, HashKey(ks, k), v)]]
  {
  }

  lemma RemoveSplices<K(!new), V>(ks: Keys<K>, s: Chain<K, V>, k: K, h: int)
    requires Find(ks, s, k, h) < |s|
    ensures Spliced(s, Find(ks, s, k, h), RemoveChain(ks, s, k, h))
  {
  }

  // ---------------------------------------------------------------- relinking

  lemma ApartPush<K, V>(cs: seq<seq<Entry<K, V>>>, i: nat, n: Entry<K, V>)
    requires Apart(cs) && i < |cs| && forall a, b :: 0 <= a < |cs| && 0 <= b < |cs[a]| ==> cs[a][b] != n
    ensures Apart(cs[i := [n] + cs[i]])
  {
  }

  /** Link an entry in front of bucket `i` of the new array. */
  method PushFront<K, V>(nb: array<Entry?<K, V>>, entry: Entry<K, V>, i: nat,
                         ghost cs: seq<seq<Entry<K, V>>>, ghost t: seq<Chain<K, V>>, ghost moved: set<Entry<K, V>>,
                         ghost it: Item<K, V>)
    requires Holds(nb, cs, t, moved) && entry !in moved && i < nb.Length && entry.Is(it)
    modifies nb, entry`next
    ensures Holds(nb, cs[i := [entry] + cs[i]], t[i := [it] + t[i]], moved + {entry})
  {
    ApartPush(cs, i, entry);
    entry.next := nb[i];
    nb[i] := entry;
    assert forall a :: 0 <= a < |cs| && a != i ==> Chained(nb[a], cs[a], t[a]);
    assert Chained(nb[i], [entry] + cs[i], [it] + t[i]);
    OneBucket(nb, cs, t, moved + {entry}, i, [entry] + cs[i], [it] + t[i]);
  }

  /** The entries of a chain from position `j` on are still linked as they were. */
  ghost predicate Rest<K, V>(c: seq<Entry<K, V>>, s: Chain<K, V>, j: nat, moved: set<Entry<K, V>>)
    reads c
  {
    && |c| == |s|
    && (forall b :: j <= b < |c| ==> c[b] !in moved && c[b].Is(s[b]))
    && (forall b {:trigger c[b].next} :: j <= b < |c| ==> c[b].next == EntryAt(c, b + 1))
  }

  /** Half way through a chain: the entries before position `j` are in the new array, the others where they were. */
  ghost predicate Moving<K, V>(nb: array<Entry?<K, V>>, entry: Entry?<K, V>, c: seq<Entry<K, V>>, s: Chain<K, V>,
                               j: nat,
                               cs: seq<seq<Entry<K, V>>>, t: seq<Chain<K, V>>, moved: set<Entry<K, V>>)
    reads nb, c, moved
  {
    && j <= |c| && entry == EntryAt(c, j) && Rest(c, s, j, moved)
    && (forall a, b :: 0 <= a < |c| && 0 <= b < |c| && c[a] == c[b] ==> a == b)
    && Holds(nb, cs, t, moved) && IsPow2(nb.Length)
  }

  /** One iteration of the inner loop. */
  method MoveEntry<K, V>(nb: array<Entry?<K, V>>, entry: Entry<K, V>, ghost c: seq<Entry<K, V>>, ghost s: Chain<K, V>,
                         ghost j: nat,
                         ghost cs: seq<seq<Entry<K, V>>>, ghost t: seq<Chain<K, V>>, ghost moved: set<Entry<K, V>>)
    returns (next: Entry?<K, V>, ghost cs': seq<seq<Entry<K, V>>>, ghost t': seq<Chain<K, V>>)
    requires Moving(nb, entry, c, s, j, cs, t, moved)
    modifies nb, entry`next
    ensures Moving(nb, next, c, s, j + 1, cs', t', moved + {entry})
    ensures t' == Push(t, s[j])
  {
    assert entry.Is(s[j]);
    next := entry.next;
    var i := Index(nb.Length, entry.hash);
    assert forall b :: j < b < |c| ==> c[b] != entry;
    PushFront(nb, entry, i, cs, t, moved, s[j]);
    cs', t' := cs[i := [entry] + cs[i]], Push(t, s[j]);
  }

  /** The inner loop of expandIfNecessary: move one chain, entry by entry. */
  method MoveChain<K, V>(head: Entry?<K, V>, nb: array<Entry?<K, V>>, ghost c: seq<Entry<K, V>>, ghost s: Chain<K, V>,
                         ghost cs: seq<seq<Entry<K, V>>>, ghost t: seq<Chain<K, V>>, ghost moved: set<Entry<K, V>>)
    returns (ghost cs': seq<seq<Entry<K, V>>>, ghost moved': set<Entry<K, V>>)
    requires Moving(nb, head, c, s, 0, cs, t, moved)
    modifies nb, c`next
    ensures Holds(nb, cs', Move(t, s, 0), moved')
    ensures forall e :: e in moved' ==> e in moved || e in c
  {
    var entry := head;
    cs', moved' := cs, moved;
    ghost var t' := t;
    ghost var j := 0;
    while entry != null
      invariant Moving(nb, entry, c, s, j, cs', t', moved')
      invariant forall e :: e in moved' ==> e in moved || e in c
      invariant Move(t', s, j) == Move(t, s, 0)
      decreases |c| - j
    {
      ghost var e := c[j];
      entry, cs', t' := MoveEntry(nb, entry, c, s, j, cs', t', moved');
      moved', j := moved' + {e}, j + 1;
    }
  }

  /** The outer loop of expandIfNecessary: move every chain to an array twice as long. */
  method Relink<K, V>(bs: array<Entry?<K, V>>, ghost cs: seq<seq<Entry<K, V>>>, ghost t: seq<Chain<K, V>>,
                      ghost nodes: set<Entry<K, V>>)
    returns (nb: array<Entry?<K, V>>, ghost cs': seq<seq<Entry<K, V>>>)
    requires Holds(bs, cs, t, nodes) && IsPow2(|t|)
    modifies nodes`next
    ensures fresh(nb) && Holds(nb, cs', Table.Expand(t), nodes)
  {
    DoublePow2(bs.Length);
    nb := new Entry?<K, V>[2 * bs.Length](_ => null);
    cs' := seq(nb.Length, _ => []);
    ghost var t': seq<Chain<K, V>> := Empty(nb.Length);
    ghost var moved: set<Entry<K, V>> := {};
    for i := 0 to bs.Length
      invariant Holds(nb, cs', t', moved) && moved <= nodes && IsPow2(nb.Length)
      invariant MoveAll(t', t, i) == Table.Expand(t)
      invariant Untouched(bs, cs, t, i, moved)
    {
      cs', moved := MoveBucket(bs, nb, i, cs, t, cs', t', moved);
      t' := Move(t', t[i], 0);
    }
  }

  /** One iteration of the outer loop: the chain of bucket `i` goes to the new array, those after it stay. */
  method MoveBucket<K, V>(bs: array<Entry?<K, V>>, nb: array<Entry?<K, V>>, i: nat, ghost cs: seq<seq<Entry<K, V>>>,
                          ghost t: seq<Chain<K, V>>,
                          ghost cs': seq<seq<Entry<K, V>>>, ghost t': seq<Chain<K, V>>, ghost moved: set<Entry<K, V>>)
    returns (ghost cs'': seq<seq<Entry<K, V>>>, ghost moved': set<Entry<K, V>>)
    requires Holds(nb, cs', t', moved) && IsPow2(nb.Length) && nb != bs
    requires i < |cs| == |t| == bs.Length && Apart(cs) && Untouched(bs, cs, t, i, moved)
    modifies nb, cs[i]`next
    ensures Holds(nb, cs'', Move(t', t[i], 0), moved') && forall e :: e in moved' ==> e in moved || e in cs[i]
    ensures Untouched(bs, cs, t, i + 1, moved')
  {
    UntouchedNext(bs, cs, t, i, moved);
    cs'', moved' := MoveChain(bs[i], nb, cs[i], t[i], cs', t', moved);
    assert forall a :: i < a < |cs| ==> Chained(bs[a], cs[a], t[a]);
  }

  /** The chains of the old array from bucket `i` on. */
  ghost predicate Untouched<K, V>(bs: array<Entry?<K, V>>, cs: seq<seq<Entry<K, V>>>, t: seq<Chain<K, V>>, i: nat,
                                  moved: set<Entry<K, V>>)
    requires |cs| == |t| == bs.Length && i <= |cs|
    reads bs, set a, b | i <= a < |cs| && 0 <= b < |cs[a]| :: cs[a][b]
  {
    && (forall a :: i <= a < |cs| ==> Chained(bs[a], cs[a], t[a]))
    && (forall a, b :: i <= a < |cs| && 0 <= b < |cs[a]| ==> cs[a][b] !in moved)
  }

  lemma UntouchedNext<K, V>(bs: array<Entry?<K, V>>, cs: seq<seq<Entry<K, V>>>, t: seq<Chain<K, V>>, i: nat,
                            moved: set<Entry<K, V>>)
    requires |cs| == |t| == bs.Length && i < |cs| && Apart(cs) && Untouched(bs, cs, t, i, moved)
    ensures Rest(cs[i], t[i], 0, moved)
    ensures forall a, b :: 0 <= a < |cs[i]| && 0 <= b < |cs[i]| && cs[i][a] == cs[i][b] ==> a == b
    ensures forall a, b :: i < a < |cs| && 0 <= b < |cs[a]| ==> cs[a][b] !in cs[i]
  {
  }

  lemma {:induction false} FindFirst<K(!new), V>(ks: Keys<K>, c: Chain<K, V>, k: K, h: int, j: nat)
    requires j <= |c| && (j < |c| ==> EqualKeys(ks, c[j], k, h))
    requires forall i :: 0 <= i < j ==> !EqualKeys(ks, c[i], k, h)
    ensures Find(ks, c, k, h) == j
  {
  }
}
