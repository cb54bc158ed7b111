/**
  The response headers on their way from C to Java: one array of strings (type S) with, for every name, the name,
  its values in order of arrival, and a null in front of the next name.
*/
module HeaderArray {
  import opened Options

  datatype Group<S> = Group(name: S, values: seq<S>)

  function Somes<S>(values: seq<S>): seq<Option<S>>
  {
    seq(|values|, i requires 0 <= i < |values| => Some(values[i]))
  }

  function Cells<S>(g: Group<S>): seq<Option<S>> { [Some(g.name)] + Somes(g.values) }

  /** The array that getResponseHeaders fills. */
  function Encode<S>(groups: seq<Group<S>>): seq<Option<S>>
  {
    if groups == [] then []
    else if |groups| == 1 then Cells(groups[0])
    else Cells(groups[0]) + [None] + Encode(groups[1..])
  }

  function TotalValues<S>(groups: seq<Group<S>>): nat
  {
    if groups == [] then 0 else |groups[0].values| + TotalValues(groups[1..])
  }

  /** The array has two slots per name and one per value, less the last separator. */
  lemma {:induction false} EncodedLength<S>(groups: seq<Group<S>>)
    requires groups != []
    ensures |Encode(groups)| == 2 * |groups| + TotalValues(groups) - 1
  {
    if |groups| > 1 {
      EncodedLength(groups[1..]);
    } else {
      assert TotalValues(groups[1..]) == 0;
    }
  }

  // ---------------------------------------------------------------- decoding

  /**
    A decoded field: its name and the array cells of its values.  `Missing` is the exception for a name with no cell
    behind it.
  */
  datatype Decoded<S> = Missing | Fields(fields: seq<(S, seq<Option<S>>)>)

  /** The first null from `j` on, or the end of the array. */
  function NextNull<S>(a: seq<Option<S>>, j: nat): (k: nat)
    requires j <= |a|
    ensures j <= k <= |a| && (k < |a| ==> a[k].None?) && forall i :: j <= i < k ==> a[i].Some?
    decreases |a| - j
  {
    if j == |a| || a[j].None? then j else NextNull(a, j + 1)
  }

  /** The loop of getHeaderFields from position `i` on: a name, at least one value cell, up to a null. */
  function DecodeFrom<S>(a: seq<Option<S>>, i: nat): Decoded<S>
    decreases |a| - i
  {
    if i >= |a| || a[i].None? then Fields([])
    else if i + 1 >= |a| then Missing
    else
      var j := NextNull(a, i + 2);
      match DecodeFrom(a, j + 1)
      case Missing => Missing
      case Fields(rest) => Fields([(a[i].value, a[i + 1..j])] + rest)
  }

  /** Where a field begins: at the start, or behind a null that ends a field. */
  ghost predicate Begins<S>(a: seq<Option<S>>, i: nat, k: nat)
    decreases |a| - i
  {
    i == k || (i + 1 < |a| && a[i].Some? && Begins(a, NextNull(a, i + 2) + 1, k))
  }

  /** The exception comes exactly when a field begins in the last cell, with its name. */
  lemma {:induction false} MissingExactly<S>(a: seq<Option<S>>, i: nat)
    ensures DecodeFrom(a, i).Missing? <==> a != [] && a[|a| - 1].Some? && Begins(a, i, |a| - 1)
    decreases |a| - i
  {
    if i + 1 < |a| && a[i].Some? { MissingExactly(a, NextNull(a, i + 2) + 1); }
  }

  /** The inner loop of getHeaderFields. */
  method ScanNull<S>(a: seq<Option<S>>, from: nat) returns (j: nat)
    requires from <= |a|
    ensures j == NextNull(a, from)
  {
    j := from;
    while j < |a| && a[j].Some?
      invariant from <= j <= |a| && NextNull(a, from) == NextNull(a, j)
    {
      j := j + 1;
    }
  }

  function Prepend<S>(fields: seq<(S, seq<Option<S>>)>, d: Decoded<S>): Decoded<S>
  {
    match d case Missing => Missing case Fields(rest) => Fields(fields + rest)
  }

  lemma PrependOne<S>(fields: seq<(S, seq<Option<S>>)>, f: (S, seq<Option<S>>), d: Decoded<S>)
    ensures Prepend(fields + [f], d) == Prepend(fields, Prepend([f], d))
  {
    if d.Fields? {
      assert fields + [f] + d.fields == fields + ([f] + d.fields);
    }
  }

  // ---------------------------------------------------------------- the round trip

  function AsFields<S>(groups: seq<Group<S>>): seq<(S, seq<Option<S>>)>
  {
    seq(|groups|, i requires 0 <= i < |groups| => (groups[i].name, Somes(groups[i].values)))
  }

  lemma NextNullIs<S>(a: seq<Option<S>>, j: nat, k: nat)
    requires j <= k <= |a| && (k < |a| ==> a[k].None?) && forall i :: j <= i < k ==> a[i].Some?
    ensures NextNull(a, j) == k
  {
  }

  /** One step of the decoder, on the cells of a group that end the array or are followed by a null. */
  lemma {:induction false} DecodeOne<S>(a: seq<Option<S>>, p: nat, g: Group<S>)
    requires var j := p + |Cells(g)|; j <= |a| && a[p..j] == Cells(g) && (j == |a| || a[j].None?)
    requires g.values != []
    ensures DecodeFrom(a, p) == Prepend([(g.name, Somes(g.values))], DecodeFrom(a, p + |Cells(g)| + 1))
  {
    var j := p + |Cells(g)|;
    assert a[p] == a[p..j][0] == Some(g.name);
    assert a[p + 1..j] == Cells(g)[1..] == Somes(g.values);
    forall i | p + 2 <= i < j ensures a[i].Some? { assert a[i] == a[p + 1..j][i - p - 1]; }
    NextNullIs(a, p + 2, j);
  }

  /** The encoded groups, followed by cells that are still null. */
  ghost predicate Filled<S>(a: seq<Option<S>>, p: nat, groups: seq<Group<S>>)
  {
    && p + |Encode(groups)| <= |a|
    && a[p..p + |Encode(groups)|] == Encode(groups)
    && forall q :: p + |Encode(groups)| <= q < |a| ==> a[q].None?
  }

  lemma {:induction false} FilledSplit<S>(a: seq<Option<S>>, p: nat, groups: seq<Group<S>>)
    requires Filled(a, p, groups) && groups != []
    ensures var j := p + |Cells(groups[0])|;
      j <= |a| && a[p..j] == Cells(groups[0]) && (j == |a| || a[j].None?) &&
        (|groups| > 1 ==> Filled(a, j + 1, groups[1..]))
  {
    var c, e := Cells(groups[0]), Encode(groups);
    assert a[p..p + |e|][..|c|] == c;
    assert a[p..p + |c|] == a[p..p + |e|][..|c|];
    if |groups| > 1 {
      assert a[p..p + |e|][|c|] == None && a[p..p + |e|][|c| + 1..] == Encode(groups[1..]);
      assert a[p + |c| + 1..p + |e|] == a[p..p + |e|][|c| + 1..];
    }
  }

  /** Decoding the array gives back every name with its values, in order. */
  lemma {:induction false} DecodeEncode<S>(a: seq<Option<S>>, p: nat, groups: seq<Group<S>>)
    requires Filled(a, p, groups)
    requires forall i :: 0 <= i < |groups| ==> groups[i].values != []
    ensures DecodeFrom(a, p) == Fields(AsFields(groups))
    decreases |groups|, 1
  {
    if groups != [] {
      FilledSplit(a, p, groups);
      var rest := DecodeFrom(a, p + |Cells(groups[0])| + 1);
      DecodeRest(a, p, groups, rest);
      DecodeOne(a, p, groups[0]);
      AsFieldsSplit(groups);
    }
  }

  lemma {:induction false} DecodeRest<S>(a: seq<Option<S>>, p: nat, groups: seq<Group<S>>, rest: Decoded<S>)
    requires Filled(a, p, groups) && groups != []
    requires forall i :: 0 <= i < |groups| ==> groups[i].values != []
    requires rest == DecodeFrom(a, p + |Cells(groups[0])| + 1)
    ensures rest == Fields(AsFields(groups[1..]))
    decreases |groups|, 0
  {
    FilledSplit(a, p, groups);
    if |groups| > 1 {
      DecodeEncode(a, p + |Cells(groups[0])| + 1, groups[1..]);
    }
  }

  lemma AsFieldsSplit<S>(groups: seq<Group<S>>)
    requires groups != []
    ensures AsFields(groups) == [(groups[0].name, Somes(groups[0].values))] + AsFields(groups[1..])
  {
  }
}
