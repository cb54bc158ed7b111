/** The bitmap cache of the demo: a linked map in order of use, which gives up bitmaps that nobody works with. */
module BadCache {
  import opened Options

  class WorkSet<B(==)> {
    var inUse: set<B>
    var recycled: seq<B>

    constructor ()
      ensures inUse == {} && recycled == []
    {
      inUse, recycled := {}, [];
    }

    /** tryRecycle. */
    method TryRecycle(bitmap: B) returns (done: bool)
      modifies this`recycled
      ensures done <==> bitmap !in inUse
      ensures recycled == if done then old(recycled) + [bitmap] else old(recycled)
    {
      if bitmap in inUse {
        return false;
      }
      recycled := recycled + [bitmap];
      return true;
    }
  }

  type Entry<B> = (int, B)

  function IndexOf<B>(c: seq<Entry<B>>, key: int): (i: nat)
    ensures i <= |c| && (i < |c| ==> c[i].0 == key) && forall j :: 0 <= j < i ==> c[j].0 != key
  {
    if c == [] || c[0].0 == key then 0 else 1 + IndexOf(c[1..], key)
  }

  /** The entries without those of a key. */
  function Without<B>(c: seq<Entry<B>>, key: int): (c': seq<Entry<B>>)
    ensures |c'| <= |c|
  {
    var i := IndexOf(c, key);
    if i < |c| then c[..i] + c[i + 1..] else c
  }

  ghost predicate Distinct<B>(c: seq<Entry<B>>)
  {
    forall i, j :: 0 <= i < j < |c| ==> c[i].0 != c[j].0
  }

  /** The last position, in order of use, of a bitmap that nobody works with, or None. */
  function Victim<B(==)>(c: seq<Entry<B>>, inUse: set<B>): (v: Option<nat>)
    ensures v.Some? ==> v.value < |c| && c[v.value].1 !in inUse && forall j :: v.value < j < |c| ==> c[j].1 in inUse
    ensures v.None? ==> forall j :: 0 <= j < |c| ==> c[j].1 in inUse
  {
    if c == [] then None
    else if c[|c| - 1].1 !in inUse then Some(|c| - 1)
    else Victim(c[..|c| - 1], inUse)
  }

  /** The cache after eviction: the victim is gone, and the bitmaps behind it, all in use, have moved to the front. */
  function Evicted<B(==)>(c: seq<Entry<B>>, inUse: set<B>): (c': seq<Entry<B>>)
    ensures |c'| == |c| - if Victim(c, inUse).Some? then 1 else 0
  {
    match Victim(c, inUse)
    case None => c
    case Some(v) => c[v + 1..] + c[..v]
  }

  const MAX_KEPT := 5

  /** What a put finds after the eviction that a full cache makes first. */
  function Kept<B(==)>(c: seq<Entry<B>>, inUse: set<B>): seq<Entry<B>>
  {
    if |c| >= MAX_KEPT then Evicted(c, inUse) else c
  }

  /** A put gives this entry up: the cache is full and the entry is the victim. */
  predicate GivenUp<B(==)>(c: seq<Entry<B>>, inUse: set<B>, e: Entry<B>)
  {
    |c| >= MAX_KEPT && match Victim(c, inUse) case None => false case Some(v) => c[v] == e
  }

  /** The entries of the other keys, in their order. */
  function Others<B>(c: seq<Entry<B>>, key: int): seq<Entry<B>>
  {
    if c == [] then [] else (if c[0].0 == key then [] else [c[0]]) + Others(c[1..], key)
  }

  /**
    All that a put leaves of the cache behind the new entry: nothing else is lost, and with room left the order stays.
  */
  ghost predicate OthersStay<B>(c: seq<Entry<B>>, key: int, inUse: set<B>, left: seq<Entry<B>>)
  {
    && (forall e :: e in left ==> e in c && e.0 != key && !GivenUp(c, inUse, e))
    && (forall e :: e in c && e.0 != key && !GivenUp(c, inUse, e) ==> e in left)
    && (|c| < MAX_KEPT ==> left == Others(c, key))
  }

  class BadCache<B(==)> {
    /** Most recently used first. */
    var cache: seq<Entry<B>>
    const inUse: WorkSet<B>

    constructor (inUse: WorkSet<B>)
      ensures cache == [] && this.inUse == inUse
    {
      cache, this.inUse := [], inUse;
    }

    /**
      getAndMoveToFirst of the linked map, behind getCached; an entry that is found is now the first, and none is lost.
    */
    method GetCached(key: int) returns (r: Option<B>)
      requires Distinct(cache)
      modifies this`cache
      ensures Distinct(cache) && multiset(cache) == multiset(old(cache)) && cache == Used(old(cache), Get(key))
      ensures r == Held(old(cache), key)
      ensures r.Some? ==> cache[0] == (key, r.value) && cache[1..] == Others(old(cache), key)
      ensures r.None? ==> cache == old(cache)
    {
      var i := IndexOf(cache, key);
      if i == |cache| {
        return None;
      }
      MovedToFront(cache, i);
      WithoutIsOthers(cache, key);
      var e := cache[i];
      cache := ToFront(cache, i);
      return Some(e.1);
    }

    /** cache.getAndMoveToFirst(cache.lastLongKey()); `r` and `r'` are the cache before and after. */
    method LastToFront(ghost e: Entry<B>, ghost r: seq<Entry<B>>, ghost r': seq<Entry<B>>) returns (last: Entry<B>)
      requires cache == r && Turns(r, e, r')
      modifies this`cache
      ensures last == e && cache == r'
    {
      last := cache[|cache| - 1];
      cache := [last] + cache[..|cache| - 1];
    }

    /** One iteration of the eviction loop; true if it found a victim and removed it. */
    method TryLast(ghost e: Entry<B>, ghost r: seq<Entry<B>>, ghost r': seq<Entry<B>>) returns (done: bool)
      requires cache == r && Turns(r, e, r')
      modifies this`cache, inUse`recycled
      ensures done <==> e.1 !in inUse.inUse
      ensures cache == (if done then r'[1..] else r') && inUse.recycled == old(inUse.recycled) + if done then [e.1]
        else []
    {
      var victim := LastToFront(e, r, r');
      done := inUse.TryRecycle(victim.1);
      if done {
        cache := cache[1..];
      }
    }

    /**
      The eviction loop of putIntoCache: look at the least recently used bitmap, and move it to the front if it is in
      use.
    */
    method Evict()
      requires cache != []
      modifies this`cache, inUse`recycled
      ensures cache == Evicted(old(cache), inUse.inUse)
      ensures inUse.recycled == old(inUse.recycled) + match Victim(old(cache), inUse.inUse) case None => []
        case Some(v) => [old(cache)[v].1]
    {
      var size := |cache|;
      ghost var c := cache;
      ghost var rs := Rotations(c, inUse.inUse);
      for i := 0 to size
        invariant cache == rs[i] && inUse.recycled == old(inUse.recycled)
        invariant forall j :: size - i <= j < size ==> c[j].1 in inUse.inUse
      {
        assert RotatesAt(c, rs, i, inUse.inUse);
        var done := TryLast(c[size - i - 1], rs[i], rs[i + 1]);
        if done {
          return;
        }
      }
      NoVictim(c, inUse.inUse);
    }

    /** putIntoCache. */
    method PutIntoCache(key: int, bitmap: B)
      requires Distinct(cache)
      modifies this`cache, inUse`recycled
      ensures Distinct(cache)
      ensures cache == Used(old(cache), Put(key, bitmap, inUse.inUse))
      ensures cache != [] && cache[0] == (key, bitmap) && OthersStay(old(cache), key, inUse.inUse, cache[1..])
      ensures inUse.recycled == old(inUse.recycled) +
        if |old(cache)| < MAX_KEPT then [] else match Victim(old(cache), inUse.inUse) case None => []
          case Some(v) => [old(cache)[v].1]
    {
      ghost var put := Put(key, bitmap, inUse.inUse);
      UsedDistinct(cache, put);
      PutMeans(cache, key, bitmap, inUse.inUse);
      if |cache| >= MAX_KEPT {
        Evict();
      }
      cache := [(key, bitmap)] + Without(cache, key);
      assert cache == Used(old(cache), put);
    }
  }

  function ToFront<B>(c: seq<Entry<B>>, i: nat): (c': seq<Entry<B>>)
    requires i < |c|
    ensures |c'| == |c| && c'[0] == c[i]
  {
    [c[i]] + (c[..i] + c[i + 1..])
  }

  lemma MovedToFront<B>(c: seq<Entry<B>>, i: nat)
    requires i < |c| && Distinct(c)
    ensures Distinct(ToFront(c, i)) && multiset(ToFront(c, i)) == multiset(c)
  {
    FrontDistinct(c, i);
    FrontItems(c, i);
  }

  lemma FrontDistinct<B>(c: seq<Entry<B>>, i: nat)
    requires i < |c| && Distinct(c)
    ensures Distinct([c[i]] + (c[..i] + c[i + 1..]))
  {
  }

  lemma FrontItems<T>(c: seq<T>, i: nat)
    requires i < |c|
    ensures multiset([c[i]] + (c[..i] + c[i + 1..])) == multiset(c)
  {
    var a, b := c[..i], c[i + 1..];
    assert c == a + ([c[i]] + b);
    assert multiset(c) == multiset(a) + multiset([c[i]] + b);
    assert multiset([c[i]] + b) == multiset{c[i]} + multiset(b);
    assert multiset([c[i]] + (a + b)) == multiset{c[i]} + multiset(a + b);
    assert multiset(a + b) == multiset(a) + multiset(b);
  }

  /** The last `i` entries moved to the front. */
  function Rotated<B>(c: seq<Entry<B>>, i: nat): (r: seq<Entry<B>>)
    requires i <= |c|
    ensures |r| == |c|
  {
    c[|c| - i..] + c[..|c| - i]
  }

  /** `r'` is `r` with its last entry, `e`, moved to the front. */
  ghost predicate Turns<B>(r: seq<Entry<B>>, e: Entry<B>, r': seq<Entry<B>>)
  {
    r != [] && r[|r| - 1] == e && r' == [e] + r[..|r| - 1]
  }

  /**
    The entry at the end of rotation `i` is number |c| - i - 1; if it is the victim, what is left of the next rotation
    is the cache after eviction.
  */
  ghost predicate RotatesAt<B>(c: seq<Entry<B>>, rs: seq<seq<Entry<B>>>, i: nat, inUse: set<B>)
    requires |rs| == |c| + 1 && i < |c|
  {
    var v := |c| - i - 1;
    && Turns(rs[i], c[v], rs[i + 1])
    && (c[v].1 !in inUse && (forall j :: v < j < |c| ==> c[j].1 in inUse) ==>
       Victim(c, inUse) == Some(v) && rs[i + 1][1..] == Evicted(c, inUse))
  }

  lemma {:induction false} RotateOne<B>(c: seq<Entry<B>>, i: nat)
    requires i < |c|
    ensures var v := |c| - i - 1;
      Turns(Rotated(c, i), c[v], Rotated(c, i + 1)) && Rotated(c, i + 1)[1..] == c[v + 1..] + c[..v]
  {
    var v := |c| - i - 1;
    assert Rotated(c, i)[..|c| - 1] == c[v + 1..] + c[..v];
    assert Rotated(c, i + 1) == [c[v]] + (c[v + 1..] + c[..v]);
  }

  lemma {:induction false} Rotations<B>(c: seq<Entry<B>>, inUse: set<B>) returns (rs: seq<seq<Entry<B>>>)
    ensures |rs| == |c| + 1 && rs[0] == c && rs[|c|] == c
    ensures forall i :: 0 <= i < |c| ==> RotatesAt(c, rs, i, inUse)
  {
    rs := seq(|c| + 1, i requires 0 <= i <= |c| => Rotated(c, i));
    forall i | 0 <= i < |c| ensures RotatesAt(c, rs, i, inUse) {
      RotateOne(c, i);
      var v := |c| - i - 1;
      if c[v].1 !in inUse && forall j :: v < j < |c| ==> c[j].1 in inUse {
        VictimIs(c, inUse, v);
      }
    }
  }

  lemma {:induction false} NoVictim<B>(c: seq<Entry<B>>, inUse: set<B>)
    requires forall j :: 0 <= j < |c| ==> c[j].1 in inUse
    ensures Victim(c, inUse) == None
  {
  }

  lemma {:induction false} VictimIs<B>(c: seq<Entry<B>>, inUse: set<B>, v: nat)
    requires v < |c| && c[v].1 !in inUse && forall j :: v < j < |c| ==> c[j].1 in inUse
    ensures Victim(c, inUse) == Some(v)
  {
    var w := Victim(c, inUse);
    assert c[v].1 !in inUse;
  }

  lemma {:induction false} EvictedDistinct<B>(c: seq<Entry<B>>, inUse: set<B>)
    requires Distinct(c)
    ensures Distinct(Evicted(c, inUse))
  {
  }

  lemma {:induction false} WithoutDistinct<B>(c: seq<Entry<B>>, key: int)
    requires Distinct(c)
    ensures Distinct(Without(c, key)) && forall e :: e in Without(c, key) ==> e.0 != key
  {
  }

  /** Eviction loses the victim and nothing else. */
  lemma {:induction false} EvictsOne<B>(c: seq<Entry<B>>, inUse: set<B>)
    ensures match Victim(c, inUse)
      case None => Evicted(c, inUse) == c
      case Some(v) => multiset(Evicted(c, inUse)) == multiset(c) - multiset{c[v]}
  {
    match Victim(c, inUse)
    case None =>
    case Some(v) => assert c == c[..v] + ([c[v]] + c[v + 1..]);
  }

  // ---------------------------------------------------------------- the size over runs

  /** A put while some bitmaps are in use, or a lookup. */
  datatype Use<B> = Put(key: int, bitmap: B, inUse: set<B>) | Get(key: int)

  function Used<B(==)>(c: seq<Entry<B>>, u: Use<B>): seq<Entry<B>>
  {
    match u
    case Put(key, bitmap, inUse) =>
      [(key, bitmap)] + Without(Kept(c, inUse), key)
    case Get(key) =>
      var i := IndexOf(c, key);
      if i < |c| then ToFront(c, i) else c
  }

  /** How many entries have a bitmap that somebody works with. */
  function BusyCount<B(==)>(c: seq<Entry<B>>, inUse: set<B>): nat
  {
    if c == [] then 0 else (if c[0].1 in inUse then 1 else 0) + BusyCount(c[1..], inUse)
  }

  lemma {:induction false} AllBusy<B>(c: seq<Entry<B>>, inUse: set<B>)
    requires forall j :: 0 <= j < |c| ==> c[j].1 in inUse
    ensures BusyCount(c, inUse) == |c|
  {
    if c != [] { AllBusy(c[1..], inUse); }
  }

  /** At every put at most `m` entries of the cache are in use. */
  predicate AtMostBusy<B(==)>(c: seq<Entry<B>>, uses: seq<Use<B>>, m: nat)
    decreases |uses|
  {
    uses == [] ||
    ((uses[0].Put? ==> BusyCount(c, uses[0].inUse) <= m) && AtMostBusy(Used(c, uses[0]), uses[1..], m))
  }

  function UsedAll<B(==)>(c: seq<Entry<B>>, uses: seq<Use<B>>): seq<Entry<B>>
    decreases |uses|
  {
    if uses == [] then c else UsedAll(Used(c, uses[0]), uses[1..])
  }

  function Bound(m: nat): nat { if m + 1 > MAX_KEPT then m + 1 else MAX_KEPT }

  lemma {:induction false} UseStaysSmall<B>(c: seq<Entry<B>>, u: Use<B>, m: nat)
    requires |c| <= Bound(m) && (u.Put? ==> BusyCount(c, u.inUse) <= m)
    ensures |Used(c, u)| <= Bound(m)
  {
    if u.Put? && |c| >= MAX_KEPT && Victim(c, u.inUse).None? {
      AllBusy(c, u.inUse);
    }
  }

  /** Over any run the cache holds five bitmaps, or one more than were ever in use together. */
  lemma {:induction false} CacheStaysSmall<B>(c: seq<Entry<B>>, uses: seq<Use<B>>, m: nat)
    requires |c| <= Bound(m) && AtMostBusy(c, uses, m)
    ensures |UsedAll(c, uses)| <= Bound(m)
    decreases |uses|
  {
    if uses != [] {
      UseStaysSmall(c, uses[0], m);
      CacheStaysSmall(Used(c, uses[0]), uses[1..], m);
    }
  }

  // ---------------------------------------------------------------- what a put leaves

  lemma {:induction false} OthersAll<B>(c: seq<Entry<B>>, key: int)
    requires forall j :: 0 <= j < |c| ==> c[j].0 != key
    ensures Others(c, key) == c
  {
    if c != [] { OthersAll(c[1..], key); }
  }

  lemma {:induction false} WithoutIsOthers<B>(c: seq<Entry<B>>, key: int)
    requires Distinct(c)
    ensures Without(c, key) == Others(c, key)
  {
    if c != [] {
      var rest := c[1..];
      WithoutIsOthers(rest, key);
      if c[0].0 == key {
        OthersAll(rest, key);
      } else {
        var i := IndexOf(rest, key);
        assert Without(c, key) == [c[0]] + Without(rest, key);
      }
    }
  }

  lemma {:induction false} WithoutHas<B>(c: seq<Entry<B>>, key: int, e: Entry<B>)
    requires Distinct(c)
    ensures e in Without(c, key) <==> e in c && e.0 != key
  {
    var i := IndexOf(c, key);
    WithoutDistinct(c, key);
    if i < |c| && e in c && e.0 != key {
      var j :| 0 <= j < |c| && c[j] == e;
      assert e in c[..i] || e in c[i + 1..] by { assert if j < i then c[..i][j] == e else c[i + 1..][j - i - 1] == e; }
    }
  }

  lemma {:induction false} EvictedHas<B>(c: seq<Entry<B>>, inUse: set<B>, e: Entry<B>)
    requires Distinct(c)
    ensures e in Evicted(c, inUse) <==> e in c && match Victim(c, inUse) case None => true case Some(v) => c[v] != e
  {
    match Victim(c, inUse)
    case None =>
    case Some(v) =>
      if e in c && c[v] != e {
        var j :| 0 <= j < |c| && c[j] == e;
        assert e in c[v + 1..] || e in c[..v] by { assert if j < v then c[..v][j] == e else c[v + 1..][j - v - 1] == e;
          }
      }
      if e in Evicted(c, inUse) {
        var j :| 0 <= j < |c| && j != v && c[j] == e;
      }
  }

  lemma {:induction false} StaysExactly<B>(c: seq<Entry<B>>, key: int, inUse: set<B>, e: Entry<B>)
    requires Distinct(c)
    ensures e in Without(Kept(c, inUse), key) <==> e in c && e.0 != key && !GivenUp(c, inUse, e)
  {
    EvictedDistinct(c, inUse);
    WithoutHas(Kept(c, inUse), key, e);
    EvictedHas(c, inUse, e);
  }

  lemma {:induction false} WhatStays<B>(c: seq<Entry<B>>, key: int, inUse: set<B>)
    requires Distinct(c)
    ensures OthersStay(c, key, inUse, Without(Kept(c, inUse), key))
  {
    var left := Without(Kept(c, inUse), key);
    assert |c| < MAX_KEPT ==> left == Others(c, key) by { WithoutIsOthers(c, key); }
    forall e | e in left ensures e in c && e.0 != key && !GivenUp(c, inUse, e) { StaysExactly(c, key, inUse, e); }
    forall e | e in c && e.0 != key && !GivenUp(c, inUse, e) ensures e in left { StaysExactly(c, key, inUse, e); }
  }

  /**
    A put leaves the new entry first, and behind it the others, except one of the same key and one that is given up.
  */
  lemma {:induction false} PutMeans<B>(c: seq<Entry<B>>, key: int, bitmap: B, inUse: set<B>)
    requires Distinct(c)
    ensures var c' := Used(c, Put(key, bitmap, inUse));
      c' != [] && c'[0] == (key, bitmap) && OthersStay(c, key, inUse, c'[1..])
  {
    WhatStays(c, key, inUse);
    assert Used(c, Put(key, bitmap, inUse))[1..] == Without(Kept(c, inUse), key);
  }

  // ---------------------------------------------------------------- lookups over runs

  /** What a lookup of this key would give. */
  function Held<B>(c: seq<Entry<B>>, key: int): Option<B>
  {
    var i := IndexOf(c, key);
    if i < |c| then Some(c[i].1) else None
  }

  lemma {:induction false} HeldIs<B>(c: seq<Entry<B>>, key: int, bitmap: B)
    requires Distinct(c)
    ensures Held(c, key) == Some(bitmap) <==> (key, bitmap) in c
  {
    if (key, bitmap) in c {
      var j :| 0 <= j < |c| && c[j] == (key, bitmap);
      assert IndexOf(c, key) == j;
    }
  }

  lemma {:induction false} UsedDistinct<B>(c: seq<Entry<B>>, u: Use<B>)
    requires Distinct(c)
    ensures Distinct(Used(c, u))
  {
    match u
    case Put(key, bitmap, inUse) =>
      EvictedDistinct(c, inUse);
      WithoutDistinct(Kept(c, inUse), key);
    case Get(key) =>
      if IndexOf(c, key) < |c| { MovedToFront(c, IndexOf(c, key)); }
  }

  /** This use takes the bitmap of the key away: it is replaced, or given up. */
  predicate Loses<B(==)>(c: seq<Entry<B>>, u: Use<B>, key: int, bitmap: B)
  {
    u.Put? && (u.key == key || GivenUp(c, u.inUse, (key, bitmap)))
  }

  /** One use: a held bitmap stays exactly when it is not taken away, unless it is put again. */
  lemma {:induction false} UseHolds<B>(c: seq<Entry<B>>, u: Use<B>, key: int, bitmap: B)
    requires Distinct(c)
    ensures Held(Used(c, u), key) == Some(bitmap) <==>
      (u.Put? && u.key == key && u.bitmap == bitmap) || (Held(c, key) == Some(bitmap) && !Loses(c, u, key, bitmap))
  {
    var e := (key, bitmap);
    UsedDistinct(c, u);
    HeldIs(c, key, bitmap);
    HeldIs(Used(c, u), key, bitmap);
    match u
    case Put(k, b, inUse) =>
      PutMeans(c, k, b, inUse);
      var c' := Used(c, u);
      assert c' == [c'[0]] + c'[1..];
    case Get(k) =>
      var i := IndexOf(c, k);
      if i < |c| {
        MovedToFront(c, i);
        assert e in ToFront(c, i) <==> e in multiset(ToFront(c, i));
        assert e in c <==> e in multiset(c);
      }
  }

  /** No use of the run takes the bitmap away. */
  predicate Keeps<B(==)>(c: seq<Entry<B>>, uses: seq<Use<B>>, key: int, bitmap: B)
    decreases |uses|
  {
    uses == [] || (!Loses(c, uses[0], key, bitmap) && Keeps(Used(c, uses[0]), uses[1..], key, bitmap))
  }

  lemma {:induction false} HeldOverRun<B>(c: seq<Entry<B>>, uses: seq<Use<B>>, key: int, bitmap: B)
    requires Distinct(c) && Held(c, key) == Some(bitmap) && Keeps(c, uses, key, bitmap)
    ensures Held(UsedAll(c, uses), key) == Some(bitmap)
    decreases |uses|
  {
    if uses != [] {
      UseHolds(c, uses[0], key, bitmap);
      UsedDistinct(c, uses[0]);
      HeldOverRun(Used(c, uses[0]), uses[1..], key, bitmap);
    }
  }

  /** A lookup after a put gives the bitmap, whatever came between, unless one of the uses between took it away. */
  lemma {:induction false} LookupAfterPut<B>(c: seq<Entry<B>>, key: int, bitmap: B, inUse: set<B>, uses: seq<Use<B>>)
    requires Distinct(c) && Keeps(Used(c, Put(key, bitmap, inUse)), uses, key, bitmap)
    ensures Held(UsedAll(Used(c, Put(key, bitmap, inUse)), uses), key) == Some(bitmap)
  {
    UseHolds(c, Put(key, bitmap, inUse), key, bitmap);
    UsedDistinct(c, Put(key, bitmap, inUse));
    HeldOverRun(Used(c, Put(key, bitmap, inUse)), uses, key, bitmap);
  }

  /** A bitmap that somebody works with is never taken away, except by a put of its key. */
  lemma {:induction false} InUseIsKept<B>(c: seq<Entry<B>>, uses: seq<Use<B>>, key: int, bitmap: B)
    requires forall i :: 0 <= i < |uses| && uses[i].Put? ==> uses[i].key != key && bitmap in uses[i].inUse
    ensures Keeps(c, uses, key, bitmap)
    decreases |uses|
  {
    if uses != [] { InUseIsKept(Used(c, uses[0]), uses[1..], key, bitmap); }
  }
}
