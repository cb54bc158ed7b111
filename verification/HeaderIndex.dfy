/**
  The header index: the hash map whose values are the rings of equal names, and getResponseHeaders, which writes it
  out as one array.
*/
module HeaderIndex {
  import opened Hashing
  import opened Options
  import opened Table
  import opened Hashmap
  import opened HeaderRings
  import opened HeaderArray

  // ---------------------------------------------------------------- what the index stands for

  ghost function GroupOf<S(!new)>(ks: Keys<S>, k: S, names: seq<S>, nodes: seq<Hdr<S>>): Group<S>
    requires |names| == |nodes|
  {
    Group(k, ValuesAt(Sel(ks, names, k), nodes))
  }

  /** Every stored name with its values in order of arrival. */
  ghost function GroupsOf<S(!new)>(ks: Keys<S>, c: Chain<S, Hdr<S>>, names: seq<S>, nodes: seq<Hdr<S>>): seq<Group<S>>
    requires |names| == |nodes|
  {
    seq(|c|, i requires 0 <= i < |c| => GroupOf(ks, c[i].key, names, nodes))
  }

  /** What the index stores for a name is the newest node of a ring that is not empty. */
  ghost predicate IsNewest<S(!new)>(ks: Keys<S>, it: Item<S, Hdr<S>>, names: seq<S>, nodes: seq<Hdr<S>>)
  {
    var p := Sel(ks, names, it.key);
    p != [] && p[|p| - 1] < |nodes| && it.value == nodes[p[|p| - 1]]
  }

  lemma {:induction false} ValsHas<K, V>(ks: Keys<K>, c: Chain<K, V>, j: nat, k: K)
    requires j < |c| && ks.equals(c[j].key, k)
    ensures c[j].value in Vals(ks, c, k)
  {
    if j > 0 { ValsHas(ks, c[1..], j - 1, k); }
  }

  lemma {:induction false} StoredNewest<S(!new)>(ks: Keys<S>, t: seq<Chain<S, Hdr<S>>>, names: seq<S>,
                                                 nodes: seq<Hdr<S>>, j: nat)
    requires WellFormed(ks, t) && Agree(ks, t, names, nodes) && j < |Flat(t)|
    ensures IsNewest(ks, Flat(t)[j], names, nodes)
  {
    var it := Flat(t)[j];
    LookupIsVals(ks, t, it.key);
    ValsHas(ks, Flat(t), j, it.key);
    assert Lookup(ks, t, it.key) == Newest(Sel(ks, names, it.key), nodes);
  }

  /** A name that arrived is stored exactly once. */
  lemma {:induction false} StoredOnce<S(!new)>(ks: Keys<S>, t: seq<Chain<S, Hdr<S>>>, names: seq<S>, nodes: seq<Hdr<S>>,
                                               i: nat)
    requires WellFormed(ks, t) && Agree(ks, t, names, nodes) && i < |names|
    ensures |Vals(ks, Flat(t), names[i])| == 1
  {
    var k := names[i];
    SelComplete(ks, names, k, i);
    LookupIsVals(ks, t, k);
    assert Lookup(ks, t, k) == Newest(Sel(ks, names, k), nodes);
  }

  // ---------------------------------------------------------------- counting the values

  ghost function Total<S(!new)>(ks: Keys<S>, c: Chain<S, Hdr<S>>, names: seq<S>): nat
  {
    if c == [] then 0 else |Sel(ks, names, c[0].key)| + Total(ks, c[1..], names)
  }

  lemma {:induction false} TotalNone<S(!new)>(ks: Keys<S>, c: Chain<S, Hdr<S>>)
    ensures Total(ks, c, []) == 0
  {
    if c != [] { TotalNone(ks, c[1..]); }
  }

  lemma {:induction false} TotalArrives<S(!new)>(ks: Keys<S>, c: Chain<S, Hdr<S>>, names: seq<S>, name: S)
    requires Lawful(ks)
    ensures Total(ks, c, names + [name]) == Total(ks, c, names) + |Vals(ks, c, name)|
  {
    if c != [] {
      SelAppend(ks, names, name, c[0].key);
      TotalArrives(ks, c[1..], names, name);
    }
  }

  /** When every name is stored once, the rings together hold every arrival once. */
  lemma {:induction false} TotalAll<S(!new)>(ks: Keys<S>, c: Chain<S, Hdr<S>>, names: seq<S>)
    requires Lawful(ks) && forall i :: 0 <= i < |names| ==> |Vals(ks, c, names[i])| == 1
    ensures Total(ks, c, names) == |names|
    decreases |names|
  {
    if names == [] {
      TotalNone(ks, c);
    } else {
      var n := |names| - 1;
      forall i | 0 <= i < n ensures |Vals(ks, c, names[..n][i])| == 1 { assert names[..n][i] == names[i]; }
      TotalAll(ks, c, names[..n]);
      TotalArrives(ks, c, names[..n], names[n]);
      assert names == names[..n] + [names[n]];
    }
  }

  lemma {:induction false} TotalIsTotalValues<S(!new)>(ks: Keys<S>, c: Chain<S, Hdr<S>>, names: seq<S>,
                                                       nodes: seq<Hdr<S>>)
    requires |names| == |nodes|
    ensures TotalValues(GroupsOf(ks, c, names, nodes)) == Total(ks, c, names)
  {
    if c != [] {
      assert GroupsOf(ks, c, names, nodes)[1..] == GroupsOf(ks, c[1..], names, nodes);
      TotalIsTotalValues(ks, c[1..], names, nodes);
    }
  }

  /** Of the stored groups none is empty, and their values are as many as the arrivals. */
  lemma {:induction false} GroupsCount<S(!new)>(ks: Keys<S>, t: seq<Chain<S, Hdr<S>>>, names: seq<S>,
                                                nodes: seq<Hdr<S>>)
    requires WellFormed(ks, t) && Agree(ks, t, names, nodes)
    ensures var groups := GroupsOf(ks, Flat(t), names, nodes);
      && TotalValues(groups) == |names| && (groups == [] <==> names == [])
      && forall i :: 0 <= i < |groups| ==> groups[i].values != []
  {
    var c := Flat(t);
    forall i | 0 <= i < |names| ensures |Vals(ks, c, names[i])| == 1 { StoredOnce(ks, t, names, nodes, i); }
    TotalAll(ks, c, names);
    TotalIsTotalValues(ks, c, names, nodes);
    forall i | 0 <= i < |c| ensures IsNewest(ks, c[i], names, nodes) { StoredNewest(ks, t, names, nodes, i); }
    if c != [] { assert IsNewest(ks, c[0], names, nodes); }
  }

  /**
    The groups are the multimap of the log: each name of it, up to case, once and as it was first spelled, with its
    values in order of arrival.
  */
  ghost predicate IsMultimap<S(!new)>(ks: Keys<S>, groups: seq<Group<S>>, names: seq<S>, nodes: seq<Hdr<S>>)
    requires |names| == |nodes|
  {
    && (forall i :: 0 <= i < |groups| ==> groups[i].values == ValuesAt(Sel(ks, names, groups[i].name), nodes) != [])
    && (forall i, j :: 0 <= i < j < |groups| ==> !ks.equals(groups[i].name, groups[j].name))
    && (forall n :: 0 <= n < |names| ==> exists i :: 0 <= i < |groups| && ks.equals(groups[i].name, names[n]))
    && (forall i :: 0 <= i < |groups| ==> IsFirst(ks, names, groups[i].name))
  }

  lemma {:induction false} ValsFrom<K, V>(ks: Keys<K>, c: Chain<K, V>, k: K) returns (j: nat)
    requires |Vals(ks, c, k)| > 0
    ensures j < |c| && ks.equals(c[j].key, k)
  {
    if ks.equals(c[0].key, k) {
      j := 0;
    } else {
      j := ValsFrom(ks, c[1..], k);
      j := j + 1;
    }
  }

  lemma {:induction false} ValsTwice<K, V>(ks: Keys<K>, c: Chain<K, V>, i: nat, j: nat, k: K)
    requires i < j < |c| && ks.equals(c[i].key, k) && ks.equals(c[j].key, k)
    ensures |Vals(ks, c, k)| >= 2
  {
    if i > 0 {
      ValsTwice(ks, c[1..], i - 1, j - 1, k);
    } else {
      ValsSome(ks, c[1..], j - 1, k);
    }
  }

  lemma {:induction false} GroupsAreMultimap<S(!new)>(ks: Keys<S>, t: seq<Chain<S, Hdr<S>>>, names: seq<S>,
                                                      nodes: seq<Hdr<S>>)
    requires WellFormed(ks, t) && Agree(ks, t, names, nodes) && FirstSpelled(ks, t, names)
    ensures IsMultimap(ks, GroupsOf(ks, Flat(t), names, nodes), names, nodes)
  {
    var c := Flat(t);
    var groups := GroupsOf(ks, c, names, nodes);
    GroupsCount(ks, t, names, nodes);
    forall i, j | 0 <= i < j < |groups| ensures !ks.equals(groups[i].name, groups[j].name) {
      assert |Vals(ks, c, c[j].key)| <= 1;
      if ks.equals(c[i].key, c[j].key) {
        ValsTwice(ks, c, i, j, c[j].key);
      }
    }
    forall n | 0 <= n < |names| ensures exists i :: 0 <= i < |groups| && ks.equals(groups[i].name, names[n]) {
      StoredOnce(ks, t, names, nodes, n);
      var i := ValsFrom(ks, c, names[n]);
      assert ks.equals(groups[i].name, names[n]);
    }
    forall i | 0 <= i < |groups| ensures IsFirst(ks, names, groups[i].name) {
      assert c[i] in c && c[i].key in KeySet(c);
    }
  }

  // ---------------------------------------------------------------- writing the array

  /** The first `m` groups, each followed by the cell that separates it from the next. */
  ghost function Sep<S>(all: seq<Group<S>>, m: nat): seq<Option<S>>
    requires m <= |all|
  {
    if m == 0 then [] else Sep(all, m - 1) + Cells(all[m - 1]) + [None]
  }

  lemma {:induction false} SepFront<S>(all: seq<Group<S>>, m: nat)
    requires 0 < m <= |all|
    ensures Sep(all, m) == Cells(all[0]) + [None] + Sep(all[1..], m - 1)
  {
    if m > 1 {
      SepFront(all, m - 1);
      Regroup(Cells(all[0]) + [None], Sep(all[1..], m - 2), Cells(all[m - 1]), [None]);
    }
  }

  lemma Regroup<T>(a: seq<T>, b: seq<T>, c: seq<T>, d: seq<T>)
    ensures a + b + c + d == a + (b + c + d)
  {
  }

  lemma {:induction false} SepIsEncode<S>(all: seq<Group<S>>)
    requires all != []
    ensures Sep(all, |all|) == Encode(all) + [None]
  {
    SepFront(all, |all|);
    if |all| > 1 {
      SepIsEncode(all[1..]);
      var c := Cells(all[0]) + [None];
      assert c + (Encode(all[1..]) + [None]) == (c + Encode(all[1..])) + [None];
    }
  }

  /** The cells `pre` in an array of `n` cells; the separator of the last group may lie past its end. */
  ghost function Image<S>(pre: seq<Option<S>>, n: nat): seq<Option<S>>
  {
    seq(n, q requires 0 <= q < n => if q < |pre| then pre[q] else None)
  }

  /** Item `it` leads to the ring `p` of values, whose group is `g`. */
  ghost predicate Leads<S(!new)>(it: Item<S, Hdr<S>>, p: seq<nat>, g: Group<S>, nodes: seq<Hdr<S>>, succ: seq<nat>)
  {
    && p != [] && (forall i :: 0 <= i < |p| ==> p[i] < |nodes|) && Ascending(p)
    && Cycle(p, succ) && it.value == nodes[p[|p| - 1]] && g == Group(it.key, ValuesAt(p, nodes))
  }

  /**
    The loop body of getResponseHeaders for one entry.  With `pre` written so far, a store was behind the end exactly
    when more than the last separator of it does not fit.
  */
  method WriteEntry<S(!new)>(entry: Entry<S, Hdr<S>>, cells: seq<Option<S>>, pos: nat, threw: bool,
                             ghost it: Item<S, Hdr<S>>, ghost nodes: seq<Hdr<S>>, ghost succ: seq<nat>,
                             ghost p: seq<nat>, ghost g: Group<S>, ghost pre: seq<Option<S>>)
    returns (cells': seq<Option<S>>, pos': nat, threw': bool)
    requires Linked(nodes, succ) && Leads(it, p, g, nodes, succ) && entry.Is(it)
    requires pos == |pre| && cells == Image(pre, |cells|) && (threw <==> |pre| > |cells| + 1)
    ensures pos' == |pre| + |Cells(g)| + 1 && (threw' <==> pos' > |cells| + 1)
    ensures |cells'| == |cells| && cells' == Image(pre + Cells(g) + [None], |cells|)
  {
    cells' := Stored(cells, pos, entry.key);
    cells', pos', threw' := WriteValues(entry.value, cells', pos + 1, nodes, succ, p);
    threw' := threw' || threw || pos >= |cells|;
    pos' := pos' + 1;
  }

  /** `pres[m]` is what the first `m` groups write. */
  ghost predicate Prefixes<S>(pres: seq<seq<Option<S>>>, all: seq<Group<S>>)
  {
    && |pres| == |all| + 1 && pres[0] == []
    && (forall m {:trigger all[m]} :: 0 <= m < |all| ==> pres[m + 1] == pres[m] + Cells(all[m]) + [None])
  }

  lemma {:induction false} SepPrefixes<S>(all: seq<Group<S>>) returns (pres: seq<seq<Option<S>>>)
    ensures Prefixes(pres, all) && pres[|all|] == Sep(all, |all|)
  {
    pres := seq(|all| + 1, m requires 0 <= m <= |all| => Sep(all, m));
  }

  /** The items of a chain, the first of them number `m` of all, lead to their rings. */
  ghost predicate ChainLeads<S(!new)>(s: Chain<S, Hdr<S>>, m: nat, ps: seq<seq<nat>>, all: seq<Group<S>>,
                                      nodes: seq<Hdr<S>>, succ: seq<nat>)
  {
    m + |s| <= |all| == |ps| && forall b :: 0 <= b < |s| ==> Leads(s[b], ps[m + b], all[m + b], nodes, succ)
  }

  /** The loop over the entries of a bucket; its first item is number `m0` of all. */
  method WriteChain<S(!new)>(head: Entry?<S, Hdr<S>>, cells: seq<Option<S>>, pos: nat, threw: bool,
                             ghost c: seq<Entry<S, Hdr<S>>>, ghost s: Chain<S, Hdr<S>>, ghost nodes: seq<Hdr<S>>,
                             ghost succ: seq<nat>, ghost ps: seq<seq<nat>>, ghost all: seq<Group<S>>, ghost m0: nat,
                             ghost pres: seq<seq<Option<S>>>)
    returns (cells': seq<Option<S>>, pos': nat, threw': bool)
    requires Chained(head, c, s) && Linked(nodes, succ) && ChainLeads(s, m0, ps, all, nodes, succ)
    requires Prefixes(pres, all) && pos == |pres[m0]| && cells == Image(pres[m0], |cells|)
    requires threw <==> pos > |cells| + 1
    ensures |cells'| == |cells| && pos' == |pres[m0 + |s|]| && cells' == Image(pres[m0 + |s|], |cells|)
    ensures threw' <==> pos' > |cells| + 1
  {
    cells', pos', threw' := cells, pos, threw;
    var entry := head;
    ghost var j, m := 0, m0;
    while entry != null
      invariant j <= |c| && m == m0 + j && entry == EntryAt(c, j)
      invariant |cells'| == |cells| && pos' == |pres[m]| && cells' == Image(pres[m], |cells|)
      invariant threw' <==> pos' > |cells| + 1
      decreases |c| - j
    {
      assert |pres[m + 1]| == |pres[m]| + |Cells(all[m])| + 1;
      cells', pos', threw' := WriteEntry(entry, cells', pos', threw', s[j], nodes, succ, ps[m], all[m], pres[m]);
      entry := entry.next;
      j, m := j + 1, m + 1;
    }
  }

  /** The items of bucket `i` start at number `offs[i]` of all. */
  ghost predicate Offsets<S>(t: seq<Chain<S, Hdr<S>>>, offs: seq<nat>, n: nat)
  {
    && |offs| == |t| + 1 && offs[0] == 0 && offs[|t|] == n
    && forall i {:trigger t[i]} :: 0 <= i < |t| ==> offs[i + 1] == offs[i] + |t[i]|
  }

  /** The loop over the buckets. */
  method WriteBuckets<S(!new)>(bs: array<Entry?<S, Hdr<S>>>, n: nat,
                               ghost cs: seq<seq<Entry<S, Hdr<S>>>>, ghost t: seq<Chain<S, Hdr<S>>>,
                               ghost nodes: seq<Hdr<S>>, ghost succ: seq<nat>,
                               ghost ps: seq<seq<nat>>, ghost all: seq<Group<S>>, ghost offs: seq<nat>,
                               ghost pres: seq<seq<Option<S>>>)
    returns (cells: seq<Option<S>>, threw: bool)
    requires |cs| == |t| == bs.Length && (forall i :: 0 <= i < |cs| ==> Chained(bs[i], cs[i], t[i]))
    requires Linked(nodes, succ) && Prefixes(pres, all) && Offsets(t, offs, |all|)
    requires forall i {:trigger t[i]} :: 0 <= i < |t| ==> ChainLeads(t[i], offs[i], ps, all, nodes, succ)
    ensures cells == Image(pres[|all|], n) && (threw <==> |pres[|all|]| > n + 1)
  {
    var pos := 0;
    cells, threw := seq(n, _ => None), false;
    for i := 0 to bs.Length
      invariant offs[i] <= |all| && pos == |pres[offs[i]]| && |cells| == n && cells == Image(pres[offs[i]], n)
      invariant threw <==> pos > n + 1
    {
      cells, pos, threw := WriteChain(bs[i], cells, pos, threw, cs[i], t[i], nodes, succ, ps, all, offs[i], pres);
    }
  }

  lemma {:induction false} FlatLength<K, V>(t: seq<Chain<K, V>>, i: nat)
    requires i < |t|
    ensures |Flat(t[..i + 1])| == |Flat(t[..i])| + |t[i]| <= |Flat(t)|
  {
    FlatSplit(t, i);
    FlatSplit(t[..i + 1], i);
    assert t[..i + 1][..i] == t[..i] && t[..i + 1][i + 1..] == [];
  }

  /** The number of an item among all. */
  lemma {:induction false} FlatAt<K, V>(t: seq<Chain<K, V>>, i: nat, b: nat)
    requires i < |t| && b < |t[i]|
    ensures var n := |Flat(t[..i])| + b; n < |Flat(t)| && Flat(t)[n] == t[i][b]
  {
    FlatSplit(t, i);
  }

  lemma {:induction false} BucketLeads<S(!new)>(t: seq<Chain<S, Hdr<S>>>, i: nat, ps: seq<seq<nat>>, all: seq<Group<S>>,
                                                nodes: seq<Hdr<S>>, succ: seq<nat>)
    requires i < |t| && ChainLeads(Flat(t), 0, ps, all, nodes, succ)
    ensures ChainLeads(t[i], |Flat(t[..i])|, ps, all, nodes, succ)
  {
    FlatLength(t, i);
    var n := |Flat(t[..i])|;
    forall b | 0 <= b < |t[i]| ensures Leads(t[i][b], ps[n + b], all[n + b], nodes, succ) {
      FlatAt(t, i, b);
      LeadsAt(Flat(t), ps, all, nodes, succ, n + b);
    }
  }

  lemma {:induction false} LeadsAt<S(!new)>(c: Chain<S, Hdr<S>>, ps: seq<seq<nat>>, all: seq<Group<S>>,
                                            nodes: seq<Hdr<S>>, succ: seq<nat>, m: nat)
    requires ChainLeads(c, 0, ps, all, nodes, succ) && m < |c|
    ensures Leads(c[m], ps[m], all[m], nodes, succ)
  {
    assert Leads(c[m], ps[0 + m], all[0 + m], nodes, succ);
  }

  lemma {:induction false} FlatOffsets<S(!new)>(t: seq<Chain<S, Hdr<S>>>, ps: seq<seq<nat>>, all: seq<Group<S>>,
                                                nodes: seq<Hdr<S>>, succ: seq<nat>)
    returns (offs: seq<nat>)
    requires ChainLeads(Flat(t), 0, ps, all, nodes, succ) && |Flat(t)| == |all|
    ensures Offsets(t, offs, |all|)
    ensures forall i {:trigger t[i]} :: 0 <= i < |t| ==> ChainLeads(t[i], offs[i], ps, all, nodes, succ)
  {
    offs := seq(|t| + 1, i requires 0 <= i <= |t| => |Flat(t[..i])|);
    assert t[..|t|] == t;
    forall i | 0 <= i < |t| ensures offs[i + 1] == offs[i] + |t[i]| && ChainLeads(t[i], offs[i], ps, all, nodes, succ) {
      FlatLength(t, i);
      BucketLeads(t, i, ps, all, nodes, succ);
    }
  }

  /** Every stored item leads to the ring of its name. */
  lemma {:induction false} AllLead<S(!new)>(ks: Keys<S>, t: seq<Chain<S, Hdr<S>>>, names: seq<S>, nodes: seq<Hdr<S>>,
                                            succ: seq<nat>)
    returns (ps: seq<seq<nat>>)
    requires WellFormed(ks, t) && Agree(ks, t, names, nodes) && Cyclic(ks, names, succ)
    ensures ChainLeads(Flat(t), 0, ps, GroupsOf(ks, Flat(t), names, nodes), nodes, succ)
  {
    var c := Flat(t);
    ps := seq(|c|, m requires 0 <= m < |c| => Sel(ks, names, c[m].key));
    forall m | 0 <= m < |c| ensures Leads(c[m], ps[m], GroupOf(ks, c[m].key, names, nodes), nodes, succ) {
      StoredNewest(ks, t, names, nodes, m);
      SelAscending(ks, names, c[m].key);
      assert Cycle(Sel(ks, names, c[m].key), succ);
    }
  }

  const HEADER_BUF_SIZE_DEFAULT := 20

  lemma {:induction false} EmptyAgree<S(!new)>(ks: Keys<S>, n: nat)
    requires IsPow2(n)
    ensures Agree(ks, Empty(n), [], []) && Cyclic(ks, [], []) && FirstSpelled(ks, Empty(n), [])
  {
    FlatEmpty<S, Hdr<S>>(n);
    forall k ensures Lookup(ks, Empty<S, Hdr<S>>(n), k) == Newest(Sel(ks, [], k), []) {
      assert Sel(ks, [], k) == [];
    }
  }

  /** Table `t'` leads from `name` to `node` and from other names to where `t` does, and stores no other spelling. */
  ghost predicate Puts<S(!new)>(ks: Keys<S>, t: seq<Chain<S, Hdr<S>>>, t': seq<Chain<S, Hdr<S>>>, name: S, node: Hdr<S>)
    requires IsPow2(|t|) && IsPow2(|t'|)
  {
    && (forall k {:trigger Lookup(ks, t', k)} :: Lookup(ks, t', k) == if ks.equals(name, k) then Some(node)
       else Lookup(ks, t, k))
    && KeySet(Flat(t')) == KeySet(Flat(t)) + (if Lookup(ks, t, name).None? then {name} else {})
  }

  lemma {:induction false} StorePut<S(!new)>(ks: Keys<S>, t: seq<Chain<S, Hdr<S>>>, name: S, node: Hdr<S>,
                                             granted: bool, moreBuckets: bool)
    requires WellFormed(ks, t)
    ensures var t' := DoPut(ks, t, name, node, granted, moreBuckets);
      if granted || Lookup(ks, t, name).Some? then Puts(ks, t, t', name, node) else t' == t
  {
    PutRefines(ks, t, name, node);
    InsertRefines(ks, t, name, node, moreBuckets);
    PutKeys(ks, t, name, node, granted, moreBuckets);
  }

  /** The table leads to the rings of the log and stores its names as they first arrived. */
  ghost predicate Represents<S(!new)>(ks: Keys<S>, t: seq<Chain<S, Hdr<S>>>, names: seq<S>, nodes: seq<Hdr<S>>,
                                     succ: seq<nat>)
  {
    IsPow2(|t|) && Agree(ks, t, names, nodes) && Cyclic(ks, names, succ) && FirstSpelled(ks, t, names)
  }

  lemma {:induction false} ArriveInStep<S(!new)>(ks: Keys<S>, t: seq<Chain<S, Hdr<S>>>, t': seq<Chain<S, Hdr<S>>>,
                                                 names: seq<S>, nodes: seq<Hdr<S>>, succ: seq<nat>, name: S,
                                                 node: Hdr<S>)
    requires Lawful(ks) && IsPow2(|t|) && IsPow2(|t'|) && Puts(ks, t, t', name, node)
    requires Represents(ks, t, names, nodes, succ)
    ensures Represents(ks, t', names + [name], nodes + [node], Arrive(Sel(ks, names, name), succ))
  {
    assert Lookup(ks, t, name) == Newest(Sel(ks, names, name), nodes);
    ArriveFirst(ks, t, t', names, name);
    ArriveAgree(ks, t, t', names, nodes, name, node);
    ArriveCyclic(ks, names, succ, name);
  }

  lemma {:induction false} StoreInStep<S(!new)>(ks: Keys<S>, t: seq<Chain<S, Hdr<S>>>, t': seq<Chain<S, Hdr<S>>>,
                                                names: seq<S>, nodes: seq<Hdr<S>>, succ: seq<nat>, name: S,
                                                node: Hdr<S>, stored: bool)
    requires Lawful(ks) && IsPow2(|t'|) && Represents(ks, t, names, nodes, succ)
    requires if stored then Puts(ks, t, t', name, node) else t' == t
    ensures Cycle(Sel(ks, names, name), succ)
    ensures if stored then Represents(ks, t', names + [name], nodes + [node], Arrive(Sel(ks, names, name), succ))
      else Represents(ks, t', names, nodes, succ)
  {
    if stored {
      ArriveInStep(ks, t, t', names, nodes, succ, name, node);
    }
  }

  /** Link a node into the ring of its name, whose values are at positions `p`, or let it be a ring of its own. */
  method LinkNode<S(!new)>(node: Hdr<S>, existing: Hdr?<S>, ghost nodes: seq<Hdr<S>>, ghost succ: seq<nat>,
                           ghost p: seq<nat>)
    requires Linked(nodes, succ) && node !in nodes && Cycle(p, succ)
    requires if p == [] then existing == null else existing == nodes[p[|p| - 1]]
    modifies node, if existing == null then {} else {existing}
    ensures Linked(nodes + [node], Arrive(p, succ)) && (p == [] ==> Linked(nodes, succ))
  {
    if existing == null {
      LinkAlone(node, nodes, succ);
    } else {
      LinkAfter(node, existing, nodes, succ, p);
    }
  }

  /** The result of getResponseHeaders: null, an exception for a store behind the end, or the array. */
  datatype Flattened<S> = NoFields | Overrun | Array(cells: seq<Option<S>>)

  class ResponseIndex<S(==, !new)> {
    const ks: Keys<S>
    const headers: Hashmap<S, Hdr<S>>
    ghost var names: seq<S>
    ghost var nodes: seq<Hdr<S>>
    ghost var succ: seq<nat>

    /** The rings are those of the log, and the table leads to them. */
    ghost predicate InStep(t: seq<Chain<S, Hdr<S>>>)
      reads this, nodes
    {
      Represents(ks, t, names, nodes, succ) && Linked(nodes, succ)
    }

    ghost predicate Valid()
      reads this, headers, headers.buckets, headers.nodes, nodes
    {
      headers.Valid() && headers.ks == ks && InStep(headers.table)
    }

    constructor (ks: Keys<S>)
      requires Lawful(ks)
      ensures Valid() && this.ks == ks && names == [] && nodes == []
      ensures fresh(headers) && fresh(headers.buckets) && headers.nodes == {}
    {
      var n := BucketCount(HEADER_BUF_SIZE_DEFAULT);
      EmptyAgree(ks, n);
      this.ks := ks;
      headers := new Hashmap(ks, HEADER_BUF_SIZE_DEFAULT, n);
      names, nodes, succ := [], [], [];
    }

    /** hashmapClear, for the next response or by reset. */
    method Clear()
      requires Valid()
      modifies this, headers, headers.buckets
      ensures Valid() && names == [] && nodes == []
      ensures headers.buckets == old(headers.buckets) && headers.nodes == old(headers.nodes)
    {
      EmptyAgree(ks, |headers.table|);
      headers.Clear();
      names, nodes, succ := [], [], [];
    }

    /**
      The half of header_callback that stores a field; `granted` and `moreBuckets` are malloc's and calloc's answers.
    */
    method Add(name: S, node: Hdr<S>, granted: bool, moreBuckets: bool) returns (key: S, ghost stored: bool)
      requires Valid() && node !in nodes
      modifies this, headers, headers.buckets, headers.nodes, nodes, node
      ensures Valid() && ks.equals(key, name) && key == Spelling(ks, old(names), name)
      ensures stored <==> granted || Sel(ks, old(names), name) != []
      ensures if stored then names == old(names) + [name] && nodes == old(nodes) + [node]
        else names == old(names) && nodes == old(nodes)
      ensures headers.buckets == old(headers.buckets) || fresh(headers.buckets)
      ensures fresh(headers.nodes - old(headers.nodes))
    {
      ghost var t := headers.table;
      assert Lookup(ks, t, name) == Newest(Sel(ks, names, name), nodes);
      var existing;
      existing, key := StoreField(headers, name, node, granted, moreBuckets, names, nodes);
      stored := granted || existing != null;
      LinkStored(name, node, existing, t, headers.table, stored);
    }

    method LinkStored(ghost name: S, node: Hdr<S>, existing: Hdr?<S>, ghost t: seq<Chain<S, Hdr<S>>>,
                      ghost t': seq<Chain<S, Hdr<S>>>, ghost stored: bool)
      requires Lawful(ks) && InStep(t) && node !in nodes && IsPow2(|t'|)
      requires existing == match Newest(Sel(ks, names, name), nodes) case None => null case Some(n) => n
      requires existing != null ==> stored
      requires if stored then Puts(ks, t, t', name, node) else t' == t
      modifies this, nodes, node
      ensures InStep(t')
      ensures if stored then names == old(names) + [name] && nodes == old(nodes) + [node]
        else names == old(names) && nodes == old(nodes)
    {
      StoreInStep(ks, t, t', names, nodes, succ, name, node, stored);
      LinkIn(name, node, existing, Sel(ks, names, name), t', stored);
    }

    /** Link a node into the ring of its name, and take note of it when the table has it. */
    method LinkIn(ghost name: S, node: Hdr<S>, existing: Hdr?<S>, ghost p: seq<nat>, ghost t: seq<Chain<S, Hdr<S>>>,
                  ghost stored: bool)
      requires Linked(nodes, succ) && node !in nodes && Cycle(p, succ) && (p != [] ==> stored)
      requires if p == [] then existing == null else existing == nodes[p[|p| - 1]]
      requires if stored then Represents(ks, t, names + [name], nodes + [node], Arrive(p, succ))
        else Represents(ks, t, names, nodes, succ)
      modifies this, nodes, node
      ensures InStep(t)
      ensures if stored then names == old(names) + [name] && nodes == old(nodes) + [node]
        else names == old(names) && nodes == old(nodes)
    {
      LinkNode(node, existing, nodes, succ, p);
      if stored {
        names, nodes, succ := names + [name], nodes + [node], Arrive(p, succ);
      }
    }

    ghost function Groups(): seq<Group<S>>
      requires |names| == |nodes|
      reads this, headers
    {
      GroupsOf(ks, Flat(headers.table), names, nodes)
    }

    /**
      getResponseHeaders; `pairCount` is the number of pairs in the log, status line included.  The array overruns
      exactly when the log counts fewer fields than the index, and has cells to spare when it counts more.
    */
    method Flatten(pairCount: nat) returns (r: Flattened<S>)
      requires Valid()
      ensures r == NoFields <==> names == []
      ensures r == Overrun <==> names != [] && pairCount <= |names|
      ensures r.Array? ==>
        && Filled(r.cells, 0, Groups())
        && |r.cells| == 2 * |Groups()| + (pairCount - 1) - 1 == |Encode(Groups())| + (pairCount - 1 - |names|)
    {
      GroupsCount(ks, headers.table, names, nodes);
      if headers.size == 0 {
        return NoFields;
      }
      ghost var all := Groups();
      EncodedLength(all);
      SepIsEncode(all);
      var capacity := headers.size * 3 + (pairCount - 1 - headers.size) - 1;
      var cells, threw := Write(capacity, all);
      if threw {
        return Overrun;
      }
      ImageFilled(all, capacity);
      return Array(cells);
    }

    method Write(capacity: nat, ghost all: seq<Group<S>>) returns (cells: seq<Option<S>>, threw: bool)
      requires Valid() && all == Groups()
      ensures cells == Image(Sep(all, |all|), capacity) && (threw <==> |Sep(all, |all|)| > capacity + 1)
    {
      ghost var ps := AllLead(ks, headers.table, names, nodes, succ);
      ghost var offs := FlatOffsets(headers.table, ps, all, nodes, succ);
      ghost var pres := SepPrefixes(all);
      cells, threw :=
        WriteBuckets(headers.buckets, capacity, headers.chains, headers.table, nodes, succ, ps, all, offs, pres);
    }
  }

  lemma {:induction false} ImageFilled<S>(all: seq<Group<S>>, n: nat)
    requires all != [] && |Encode(all)| <= n
    ensures Filled(Image(Sep(all, |all|), n), 0, all)
  {
    SepIsEncode(all);
  }

  /** The same, seen from the log: the key is the name as it was first spelled. */
  method StoreField<S(==, !new)>(headers: Hashmap<S, Hdr<S>>, name: S, node: Hdr<S>, granted: bool, moreBuckets: bool,
                                 ghost names: seq<S>, ghost nodes: seq<Hdr<S>>)
    returns (existing: Hdr?<S>, key: S)
    requires headers.Valid() && FirstSpelled(headers.ks, headers.table, names)
    requires Lookup(headers.ks, headers.table, name) == Newest(Sel(headers.ks, names, name), nodes)
    requires |names| == |nodes|
    modifies headers, headers.buckets, headers.nodes
    ensures headers.Valid() && headers.ks.equals(key, name) && key == Spelling(headers.ks, names, name)
    ensures existing == match Lookup(headers.ks, old(headers.table), name) case None => null case Some(n) => n
    ensures if granted || existing != null
      then Puts(headers.ks, old(headers.table), headers.table, name, node)
      else headers.table == old(headers.table)
    ensures headers.buckets == old(headers.buckets) || fresh(headers.buckets)
    ensures fresh(headers.nodes - old(headers.nodes))
  {
    ghost var t := headers.table;
    existing, key := Store(headers, name, node, granted, moreBuckets);
    SpelledAs(headers.ks, t, names, name, key);
  }

  /** Put a node into the map, or replace the value of the entry that is there, and tell which node it replaced. */
  method Store<S(==, !new)>(headers: Hashmap<S, Hdr<S>>, name: S, node: Hdr<S>, granted: bool, moreBuckets: bool)
    returns (existing: Hdr?<S>, key: S)
    requires headers.Valid()
    modifies headers, headers.buckets, headers.nodes
    ensures headers.Valid() && headers.ks.equals(key, name)
    ensures if existing == null then key == name else key in KeySet(Flat(old(headers.table)))
    ensures existing == match Lookup(headers.ks, old(headers.table), name) case None => null case Some(n) => n
    ensures if granted || existing != null
      then Puts(headers.ks, old(headers.table), headers.table, name, node)
      else headers.table == old(headers.table)
    ensures headers.buckets == old(headers.buckets) || fresh(headers.buckets)
    ensures fresh(headers.nodes - old(headers.nodes))
  {
    StorePut(headers.ks, headers.table, name, node, granted, moreBuckets);
    var entry, j := headers.EntryGet(name);
    if entry == null {
      existing, key := null, name;
      var before := headers.Put(name, node, granted, moreBuckets);
    } else {
      existing, key := entry.value, entry.key;
      headers.Replace(name, entry, node, j);
    }
  }
}
