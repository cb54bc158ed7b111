/**
  The values of equal header names as circular lists.  The hash index leads to the newest value of a name, whose
  `ref` is the oldest; the arrival log says what the rings must be.  Names and values are of a type S, and two names
  are the same when the keys `ks` of the index say so.
*/
module HeaderRings {
  import opened Hashing
  import opened Options
  import opened Table

  class Hdr<S> {
    const header: S
    var ref: Hdr?<S>

    constructor (header: S)
      ensures this.header == header && ref == null
    {
      this.header, this.ref := header, null;
    }
  }

  /** The positions in the log of the names equal to `k`, in order of arrival. */
  ghost function Sel<S>(ks: Keys<S>, names: seq<S>, k: S): (p: seq<nat>)
    ensures forall i :: 0 <= i < |p| ==> p[i] < |names| && ks.equals(names[p[i]], k)
  {
    if names == [] then []
    else
      var n := |names| - 1;
      Sel(ks, names[..n], k) + (if ks.equals(names[n], k) then [n] else [])
  }

  ghost predicate Ascending(p: seq<nat>)
  {
    forall i, j :: 0 <= i < j < |p| ==> p[i] < p[j]
  }

  lemma {:induction false} SelAscending<S>(ks: Keys<S>, names: seq<S>, k: S)
    ensures Ascending(Sel(ks, names, k))
  {
    if names != [] {
      SelAscending(ks, names[..|names| - 1], k);
    }
  }

  /** And every such position is among them. */
  lemma {:induction false} SelComplete<S>(ks: Keys<S>, names: seq<S>, k: S, i: nat)
    requires i < |names| && ks.equals(names[i], k)
    ensures i in Sel(ks, names, k)
    decreases |names|
  {
    if i < |names| - 1 {
      SelComplete(ks, names[..|names| - 1], k, i);
    }
  }

  lemma SelAppend<S>(ks: Keys<S>, names: seq<S>, name: S, k: S)
    ensures Sel(ks, names + [name], k) == Sel(ks, names, k) + (if ks.equals(name, k) then [|names|] else [])
  {
    assert (names + [name])[..|names|] == names;
  }

  lemma {:induction false} SameSel<S(!new)>(ks: Keys<S>, names: seq<S>, a: S, b: S)
    requires Lawful(ks) && ks.equals(a, b)
    ensures Sel(ks, names, a) == Sel(ks, names, b)
  {
    if names != [] {
      Differs(ks, a, b, names[|names| - 1]);
      SameSel(ks, names[..|names| - 1], a, b);
    }
  }

  // ---------------------------------------------------------------- rings as a successor function on the log

  /** Position `i` of a ring with `n` values is followed by this one. */
  function Next(i: nat, n: nat): nat
    requires i < n
  {
    if i + 1 == n then 0 else i + 1
  }

  /** From the oldest value on each leads to the next, and the newest leads to the oldest. */
  ghost predicate Cycle(p: seq<nat>, succ: seq<nat>)
  {
    && (forall i :: 0 <= i < |p| ==> p[i] < |succ|)
    && (forall i {:trigger succ[p[i]]} :: 0 <= i < |p| ==> succ[p[i]] == p[Next(i, |p|)])
  }

  ghost predicate Cyclic<S(!new)>(ks: Keys<S>, names: seq<S>, succ: seq<nat>)
  {
    |succ| == |names| && forall k :: Cycle(Sel(ks, names, k), succ)
  }

  /** The successors after one more arrival: alone in its ring, or between the newest and the oldest. */
  ghost function Arrive(p: seq<nat>, succ: seq<nat>): seq<nat>
    requires forall i :: 0 <= i < |p| ==> p[i] < |succ|
  {
    if p == [] then succ + [|succ|]
    else var last := p[|p| - 1]; succ[last := |succ|] + [succ[last]]
  }

  lemma {:induction false} ArriveCyclic<S(!new)>(ks: Keys<S>, names: seq<S>, succ: seq<nat>, name: S)
    requires Lawful(ks) && Cyclic(ks, names, succ)
    ensures Cyclic(ks, names + [name], Arrive(Sel(ks, names, name), succ))
  {
    var p := Sel(ks, names, name);
    var succ' := Arrive(p, succ);
    forall k ensures Cycle(Sel(ks, names + [name], k), succ') {
      SelAppend(ks, names, name, k);
      assert Cycle(Sel(ks, names, k), succ);
      if ks.equals(name, k) {
        SameSel(ks, names, name, k);
        SelAscending(ks, names, k);
        ArriveHere(p, succ);
      } else {
        Disjoint(ks, names, name, k);
        ArriveElsewhere(p, Sel(ks, names, k), succ);
      }
    }
  }

  lemma {:induction false} Disjoint<S(!new)>(ks: Keys<S>, names: seq<S>, a: S, b: S)
    requires Lawful(ks) && !ks.equals(a, b)
    ensures forall i, j :: 0 <= i < |Sel(ks, names, a)| && 0 <= j < |Sel(ks, names, b)| ==>
      Sel(ks, names, a)[i] != Sel(ks, names, b)[j]
  {
    var p, q := Sel(ks, names, a), Sel(ks, names, b);
    forall i, j | 0 <= i < |p| && 0 <= j < |q| ensures p[i] != q[j] {
      assert !Through(ks, a, names[p[i]], b);
    }
  }

  lemma ArriveHere(p: seq<nat>, succ: seq<nat>)
    requires Cycle(p, succ) && Ascending(p)
    ensures Cycle(p + [|succ|], Arrive(p, succ))
  {
  }

  lemma ArriveElsewhere(p: seq<nat>, q: seq<nat>, succ: seq<nat>)
    requires Cycle(q, succ) && forall i, j :: 0 <= i < |p| && 0 <= j < |q| ==> p[i] != q[j]
    requires forall i :: 0 <= i < |p| ==> p[i] < |succ|
    ensures Cycle(q, Arrive(p, succ))
  {
  }

  // ---------------------------------------------------------------- rings in memory

  ghost predicate SameNode<S>(nodes: seq<Hdr<S>>, i: nat, j: nat)
  {
    i < |nodes| && j < |nodes| && nodes[i] == nodes[j]
  }

  /** The nodes of the log are different ones and lead to their successors. */
  ghost predicate Linked<S(!new)>(nodes: seq<Hdr<S>>, succ: seq<nat>)
    reads nodes
  {
    && |nodes| == |succ|
    && (forall i, j :: SameNode(nodes, i, j) ==> i == j)
    && (forall i {:trigger succ[i]} :: 0 <= i < |nodes| ==> succ[i] < |nodes| && nodes[i].ref == nodes[succ[i]])
  }

  /** header_callback's linking of a value whose name is new: a ring of its own. */
  method LinkAlone<S(!new)>(node: Hdr<S>, ghost nodes: seq<Hdr<S>>, ghost succ: seq<nat>)
    requires Linked(nodes, succ) && node !in nodes
    modifies node
    ensures Linked(nodes, succ) && Linked(nodes + [node], Arrive([], succ))
  {
    node.ref := node;
    forall i, j | SameNode(nodes + [node], i, j) ensures i == j { assert SameNode(nodes, i, j) || i == j; }
  }

  /** And of one whose name has values already, those at positions `p` of the log. */
  method LinkAfter<S(!new)>(node: Hdr<S>, existing: Hdr<S>, ghost nodes: seq<Hdr<S>>, ghost succ: seq<nat>,
                            ghost p: seq<nat>)
    requires Linked(nodes, succ) && node !in nodes && Cycle(p, succ) && p != [] && existing == nodes[p[|p| - 1]]
    modifies node, existing
    ensures Linked(nodes + [node], Arrive(p, succ))
  {
    ghost var last := p[|p| - 1];
    assert nodes[succ[last]] == existing.ref;
    forall i | 0 <= i < |nodes| && i != last ensures nodes[i] != existing { assert !SameNode(nodes, i, last); }
    node.ref := existing.ref;
    existing.ref := node;
    forall i, j | SameNode(nodes + [node], i, j) ensures i == j { assert SameNode(nodes, i, j) || i == j; }
  }

  // ---------------------------------------------------------------- the index

  /** The index leads from a name to its newest value, or nowhere. */
  ghost predicate Agree<S(!new)>(ks: Keys<S>, t: seq<Chain<S, Hdr<S>>>, names: seq<S>, nodes: seq<Hdr<S>>)
    requires IsPow2(|t|)
  {
    && |names| == |nodes|
    && forall k {:trigger Lookup(ks, t, k)} :: Lookup(ks, t, k) == Newest(Sel(ks, names, k), nodes)
  }

  ghost function Newest<S>(p: seq<nat>, nodes: seq<Hdr<S>>): Option<Hdr<S>>
  {
    if p == [] || p[|p| - 1] >= |nodes| then None else Some(nodes[p[|p| - 1]])
  }

  lemma NewestArrives<S>(p: seq<nat>, nodes: seq<Hdr<S>>, node: Hdr<S>)
    requires forall i :: 0 <= i < |p| ==> p[i] < |nodes|
    ensures Newest(p + [|nodes|], nodes + [node]) == Some(node)
    ensures Newest(p, nodes + [node]) == Newest(p, nodes)
  {
  }

  lemma {:induction false} ArriveNewest<S>(ks: Keys<S>, names: seq<S>, nodes: seq<Hdr<S>>, name: S, node: Hdr<S>, k: S)
    requires |names| == |nodes|
    ensures Newest(Sel(ks, names + [name], k), nodes + [node]) ==
      if ks.equals(name, k) then Some(node) else Newest(Sel(ks, names, k), nodes)
  {
    SelAppend(ks, names, name, k);
    NewestArrives(Sel(ks, names, k), nodes, node);
    assert Sel(ks, names, k) + [] == Sel(ks, names, k);
  }

  /** An update of the index with a new node keeps it in agreement with the log. */
  lemma {:induction false} ArriveAgree<S(!new)>(ks: Keys<S>, t: seq<Chain<S, Hdr<S>>>, t': seq<Chain<S, Hdr<S>>>,
                                               names: seq<S>, nodes: seq<Hdr<S>>, name: S, node: Hdr<S>)
    requires IsPow2(|t|) && IsPow2(|t'|) && Agree(ks, t, names, nodes)
    requires forall k {:trigger Lookup(ks, t', k)} :: Lookup(ks, t', k) == if ks.equals(name, k) then Some(node)
      else Lookup(ks, t, k)
    ensures Agree(ks, t', names + [name], nodes + [node])
  {
    forall k ensures Lookup(ks, t', k) == Newest(Sel(ks, names + [name], k), nodes + [node]) {
      ArriveNewest(ks, names, nodes, name, node, k);
    }
  }

  // ---------------------------------------------------------------- the spelling of the names

  /** This is how a name was spelled when it first arrived. */
  ghost predicate IsFirst<S>(ks: Keys<S>, names: seq<S>, k: S)
  {
    var p := Sel(ks, names, k);
    p != [] && names[p[0]] == k
  }

  /** The index stores every name as it first arrived. */
  ghost predicate FirstSpelled<S(!new)>(ks: Keys<S>, t: seq<Chain<S, Hdr<S>>>, names: seq<S>)
  {
    forall k :: k in KeySet(Flat(t)) ==> IsFirst(ks, names, k)
  }

  /** The spelling that a name gets when it arrives: that of its first arrival. */
  ghost function Spelling<S>(ks: Keys<S>, names: seq<S>, name: S): S
  {
    var p := Sel(ks, names, name);
    if p == [] then name else names[p[0]]
  }

  lemma {:induction false} SpelledAs<S(!new)>(ks: Keys<S>, t: seq<Chain<S, Hdr<S>>>, names: seq<S>, name: S, key: S)
    requires Lawful(ks) && FirstSpelled(ks, t, names) && ks.equals(key, name)
    requires if Sel(ks, names, name) == [] then key == name else key in KeySet(Flat(t))
    ensures key == Spelling(ks, names, name)
  {
    SameSel(ks, names, key, name);
  }

  lemma {:induction false} StaysFirst<S>(ks: Keys<S>, names: seq<S>, name: S, k: S)
    requires IsFirst(ks, names, k)
    ensures IsFirst(ks, names + [name], k)
  {
    SelAppend(ks, names, name, k);
  }

  /** An update of the index keeps that: a stored name stays as it is, and a new one is the first of its kind. */
  lemma {:induction false} ArriveFirst<S(!new)>(ks: Keys<S>, t: seq<Chain<S, Hdr<S>>>, t': seq<Chain<S, Hdr<S>>>,
                                               names: seq<S>, name: S)
    requires Lawful(ks) && FirstSpelled(ks, t, names)
    requires KeySet(Flat(t')) == KeySet(Flat(t)) + (if Sel(ks, names, name) == [] then {name} else {})
    ensures FirstSpelled(ks, t', names + [name])
  {
    forall k | k in KeySet(Flat(t')) ensures IsFirst(ks, names + [name], k) {
      if k in KeySet(Flat(t)) {
        StaysFirst(ks, names, name, k);
      } else {
        SelAppend(ks, names, name, name);
      }
    }
  }

  // ---------------------------------------------------------------- reading a ring

  ghost function ValuesAt<S>(p: seq<nat>, nodes: seq<Hdr<S>>): (v: seq<S>)
    requires forall i :: 0 <= i < |p| ==> p[i] < |nodes|
    ensures |v| == |p| && forall i :: 0 <= i < |p| ==> v[i] == nodes[p[i]].header
  {
    seq(|p|, i requires 0 <= i < |p| => nodes[p[i]].header)
  }

  /** SetObjectArrayElement: a store behind the end throws and changes nothing. */
  function Stored<S>(cells: seq<Option<S>>, pos: nat, v: S): (cells': seq<Option<S>>)
    ensures |cells'| == |cells|
  {
    if pos < |cells| then cells[pos := Some(v)] else cells
  }

  /** The inner loop of getResponseHeaders: once around the ring, from the oldest value to the newest. */
  method WriteValues<S(!new)>(newest: Hdr<S>, cells: seq<Option<S>>, from: nat, ghost nodes: seq<Hdr<S>>,
                              ghost succ: seq<nat>, ghost p: seq<nat>)
    returns (cells': seq<Option<S>>, pos: nat, threw: bool)
    requires Linked(nodes, succ) && Cycle(p, succ) && p != [] && newest == nodes[p[|p| - 1]] && Ascending(p)
    ensures pos == from + |p| && |cells'| == |cells| && (threw <==> pos > |cells|)
    ensures forall q :: 0 <= q < |cells| ==>
      cells'[q] == if from <= q < pos then Some(nodes[p[q - from]].header) else cells[q]
  {
    cells', pos, threw := cells, from, false;
    ghost var i := 0;
    var hdr := newest.ref;
    var first := hdr;
    assert succ[p[|p| - 1]] == p[0];
    while true
      invariant 0 <= i < |p| && hdr == nodes[p[i]] && first == nodes[p[0]] && pos == from + i && |cells'| == |cells|
      invariant threw <==> i > 0 && pos > |cells|
      invariant forall q :: 0 <= q < |cells| ==>
        cells'[q] == if from <= q < pos then Some(nodes[p[q - from]].header) else cells[q]
      decreases |p| - i
    {
      threw := threw || pos >= |cells'|;
      cells' := Stored(cells', pos, hdr.header);
      pos := pos + 1;
      assert succ[p[i]] == p[Next(i, |p|)];
      hdr := hdr.ref;
      i := i + 1;
      if hdr == first {
        assert i < |p| ==> SameNode(nodes, p[i], p[0]);
        break;
      }
    }
  }
}
