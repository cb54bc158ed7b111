/**
  The header containers on the Java side: HeaderPair, a list that starts as one string or as a slice of an array, and
  HeaderMap, which finds pairs by name up to case.  T is the type of the strings.
*/
module JavaHeaders {
  import opened Hashing
  import opened Options
  import opened Table
  import opened HeaderArray

  datatype Store<T> = One(text: T) | Many(cells: seq<T>)

  datatype Outcome<T> = Ok(value: T) | IndexOutOfBounds | ClassCast

  class HeaderPair<T> {
    const key: string
    const from: nat
    var value: Store<T>
    var to: nat

    /** A single string is a list of one; an array is seen through a slice that is not empty. */
    ghost predicate Valid()
      reads this
    {
      match value
      case One(_) => from == 0 && to == 1
      case Many(cells) => from < to <= |cells|
    }

    ghost function Contents(): (c: seq<T>)
      requires Valid()
      reads this
      ensures |c| == to - from
    {
      match value case One(text) => [text] case Many(cells) => cells[from..to]
    }

    constructor Single(key: string, text: T)
      ensures Valid() && from == 0 && value.One? && this.key == key && Contents() == [text]
    {
      this.key, from, value, to := key, 0, One(text), 1;
    }

    constructor Slice(key: string, cells: seq<T>, from: nat, to: nat)
      requires from < to <= |cells|
      ensures Valid() && this.from == from && value == Many(cells) && this.key == key && Contents() == cells[from..to]
    {
      this.key, this.from, value, this.to := key, from, Many(cells), to;
    }

    /** get.  The bound is `to`, not the size, so a slice answers some indices past its end. */
    method Get(index: int) returns (r: Outcome<T>)
      requires Valid()
      ensures 0 <= index < |Contents()| ==> r == Ok(Contents()[index])
      ensures r.Ok? <==> index < to && (value.Many? ==> 0 <= from + index < |value.cells|)
      ensures r.Ok? ==> r.value == match value case One(text) => text case Many(cells) => cells[from + index]
      ensures r.Ok? || r == IndexOutOfBounds
    {
      if index >= to {
        return IndexOutOfBounds;
      }
      match value
      case One(text) => return Ok(text);
      case Many(cells) =>
        if 0 <= from + index < |cells| {
          return Ok(cells[from + index]);
        }
        return IndexOutOfBounds;
    }

    /**
      What append can extend: a single string, or a slice of more that starts with its array or does not end with it.
    */
    ghost predicate CanAppend()
      reads this
    {
      value.One? || (to - from > 1 && (from == 0 || to < |value.cells|))
    }

    /**
      append.  It fails on a slice of one element and on a slice, not from the start, that reaches the end of its array.
    */
    method Append(element: T) returns (r: Outcome<()>)
      requires Valid()
      modifies this
      ensures Valid() && (r.Ok? <==> old(CanAppend()))
      ensures Contents() == if r.Ok? then old(Contents()) + [element] else old(Contents())
      ensures r.Ok? ==> value.Many?
      ensures r == ClassCast <==> old(value.Many? && to - from == 1)
    {
      var size := to - from;
      if size == 1 {
        if value.Many? {
          return ClassCast;
        }
        value := Many([value.text, element]);
      } else {
        var store := value.cells;
        if size >= |store| {
          store := store + [element];
        }
        if to >= |store| {
          return IndexOutOfBounds;
        }
        value := Many(store[to := element]);
      }
      to := to + 1;
      return Ok(());
    }
  }

  // ---------------------------------------------------------------- names up to case

  function Fold(name: string): (f: string)
    ensures |f| == |name|
  {
    seq(|name|, i requires 0 <= i < |name| => ToLower(name[i]))
  }

  lemma FoldIsEqualFold(a: string, b: string)
    ensures Fold(a) == Fold(b) <==> EqualFold(a, b)
  {
    if Fold(a) == Fold(b) {
      forall i | 0 <= i < |a| ensures ToLower(a[i]) == ToLower(b[i]) { assert Fold(a)[i] == Fold(b)[i]; }
    }
  }

  /** The values of the pairs named `k` up to case, in order. */
  ghost function Grouped<T>(pairs: seq<(string, T)>, k: string): seq<T>
  {
    if pairs == [] then []
    else
      var n := |pairs| - 1;
      Grouped(pairs[..n], k) + (if Fold(pairs[n].0) == k then [pairs[n].1] else [])
  }

  /** The first of the names that are `k` up to case. */
  ghost function FirstOf<T>(pairs: seq<(string, T)>, k: string): Option<string>
  {
    if pairs == [] then None
    else
      var n := |pairs| - 1;
      match FirstOf(pairs[..n], k)
      case Some(name) => Some(name)
      case None => if Fold(pairs[n].0) == k then Some(pairs[n].0) else None
  }

  lemma FirstOneMore<T>(pairs: seq<(string, T)>, p: (string, T), k: string)
    ensures FirstOf(pairs + [p], k) ==
      if FirstOf(pairs, k).None? && Fold(p.0) == k then Some(p.0) else FirstOf(pairs, k)
  {
    assert (pairs + [p])[..|pairs|] == pairs;
  }

  lemma GroupedOneMore<T>(pairs: seq<(string, T)>, p: (string, T), k: string)
    ensures Grouped(pairs + [p], k) == Grouped(pairs, k) + (if Fold(p.0) == k then [p.1] else [])
  {
    assert (pairs + [p])[..|pairs|] == pairs;
  }

  class HeaderMap<T> {
    /** HdrMap, by folded name. */
    var container: map<string, HeaderPair<T>>

    /** Different names have different pairs, and a pair is found by its own key, up to case. */
    ghost predicate Valid()
      reads this, container.Values
    {
      && (forall k :: k in container ==> container[k].Valid() && Fold(container[k].key) == k)
      && (forall j, k :: j in container && k in container && container[j] == container[k] ==> j == k)
    }

    /** The list that the map has for a folded name, empty when there is none. */
    ghost function Contents(k: string): seq<T>
      requires Valid()
      reads this, container.Values
    {
      if k in container then container[k].Contents() else []
    }

    /** The key of the entry that the map has for a folded name, as getKey gives it back. */
    ghost function Spelled(k: string): Option<string>
      reads this
    {
      if k in container then Some(container[k].key) else None
    }

    /** All lists start where their array does, or are single strings: those that append can extend. */
    ghost predicate Extensible()
      reads this, container.Values
    {
      forall k :: k in container ==> container[k].from == 0 && (container[k].value.Many? ==> container[k].to > 1)
    }

    constructor ()
      ensures Valid() && Extensible() && container == map[]
    {
      container := map[];
    }

    /** append of one value to the list of its name; a list that is a slice of an array may refuse it. */
    method Append(key: string, value: T) returns (r: Outcome<()>)
      requires Valid()
      modifies this, container.Values
      ensures Valid() && fresh(container.Values - old(container.Values))
      ensures container.Keys == old(container.Keys) + {Fold(key)}
      ensures forall k :: Contents(k) == old(Contents(k)) + (if k == Fold(key) && r.Ok? then [value] else [])
      ensures forall k :: Spelled(k) == if k == Fold(key) && old(Spelled(k)).None? then Some(key) else old(Spelled(k))
      ensures r.Ok? <==> old(Fold(key) in container ==> container[Fold(key)].CanAppend())
      ensures old(Extensible()) ==> Extensible() && r.Ok?
    {
      if Fold(key) !in container {
        var pair := new HeaderPair<T>.Single(key, value);
        container := container[Fold(key) := pair];
        return Ok(());
      }
      r := AppendMore(key, value);
    }

    /** To a list that is there. */
    method AppendMore(key: string, value: T) returns (r: Outcome<()>)
      requires Valid() && Fold(key) in container
      modifies container.Values
      ensures Valid() && forall k :: Contents(k) == old(Contents(k)) + (if k == Fold(key) && r.Ok? then [value] else [])
      ensures r.Ok? <==> old(container[Fold(key)].CanAppend())
      ensures old(Extensible()) ==> Extensible() && r.Ok?
    {
      r := container[Fold(key)].Append(value);
    }

    /** append of a slice; a long array is not kept for it, and a slice of one becomes a single string. */
    method AppendSlice(key: string, cells: seq<T>, from: nat, to: nat)
      requires Valid() && from < to <= |cells|
      modifies this
      ensures Valid() && fresh(container.Values - old(container.Values))
      ensures container.Keys == old(container.Keys) + {Fold(key)}
      ensures forall k :: Contents(k) == if k == Fold(key) then cells[from..to] else old(Contents(k))
      ensures forall k :: Spelled(k) == if k == Fold(key) then Some(key) else old(Spelled(k))
    {
      var pair := NewPair(key, cells, from, to);
      container := container[Fold(key) := pair];
    }
  }

  method NewPair<T>(key: string, cells: seq<T>, from: nat, to: nat) returns (pair: HeaderPair<T>)
    requires from < to <= |cells|
    ensures fresh(pair) && pair.Valid() && pair.key == key && pair.Contents() == cells[from..to]
  {
    if to - from == 1 {
      pair := new HeaderPair<T>.Single(key, cells[from]);
    } else if |cells| > 80 {
      pair := new HeaderPair<T>.Slice(key, cells[from..to], 0, to - from);
    } else {
      pair := new HeaderPair<T>.Slice(key, cells, from, to);
    }
  }

  // ---------------------------------------------------------------- request properties

  type Cell = Option<string>
  type NamedCell = (string, Cell)

  /**
    What the loop of getRequestProperties reads from cell `i` on: names and values in turn up to a null name; None is
    the exception for a name at the end.
  */
  function ReadPairs(a: seq<Cell>, i: nat): Option<seq<NamedCell>>
    decreases |a| - i
  {
    if i >= |a| || a[i].None? then Some([])
    else if i + 1 >= |a| then None
    else FrontPair((a[i].value, a[i + 1]), ReadPairs(a, i + 2))
  }

  function FrontPair(p: NamedCell, rest: Option<seq<NamedCell>>): Option<seq<NamedCell>>
  {
    match rest case None => None case Some(ps) => Some([p] + ps)
  }

  function FrontPairs(done: seq<NamedCell>, rest: Option<seq<NamedCell>>): Option<seq<NamedCell>>
  {
    match rest case None => None case Some(ps) => Some(done + ps)
  }

  lemma FrontOneMore(done: seq<NamedCell>, p: NamedCell, rest: Option<seq<NamedCell>>)
    ensures FrontPairs(done, FrontPair(p, rest)) == FrontPairs(done + [p], rest)
  {
    if rest.Some? {
      assert done + ([p] + rest.value) == done + [p] + rest.value;
    }
  }

  /** The grouping loop: every name, up to case, gets the list of its values in the order of the array. */
  method RequestProperties(a: seq<Cell>) returns (m: HeaderMap<Cell>, ok: bool)
    ensures fresh(m) && m.Valid() && (ok <==> ReadPairs(a, 0).Some?)
    ensures ok ==> forall k :: m.Contents(k) == Grouped(ReadPairs(a, 0).value, k)
    ensures ok ==> forall k :: m.Spelled(k) == FirstOf(ReadPairs(a, 0).value, k)
  {
    m := new HeaderMap();
    ghost var done: seq<NamedCell> := [];
    if ReadPairs(a, 0).Some? {
      assert [] + ReadPairs(a, 0).value == ReadPairs(a, 0).value;
    }
    var i := 0;
    while i < |a| && a[i].Some?
      invariant fresh(m) && fresh(m.container.Values) && m.Valid() && m.Extensible()
      invariant 0 <= i && FrontPairs(done, ReadPairs(a, i)) == ReadPairs(a, 0)
      invariant forall k :: m.Contents(k) == Grouped(done, k)
      invariant forall k :: m.Spelled(k) == FirstOf(done, k)
      decreases |a| - i
    {
      if i + 1 >= |a| {
        return m, false;
      }
      ghost var p := (a[i].value, a[i + 1]);
      forall k ensures Grouped(done + [p], k) == Grouped(done, k) + (if Fold(p.0) == k then [p.1] else []) {
        GroupedOneMore(done, p, k);
      }
      forall k ensures FirstOf(done + [p], k) ==
        if FirstOf(done, k).None? && Fold(p.0) == k then Some(p.0) else FirstOf(done, k) {
        FirstOneMore(done, p, k);
      }
      FrontOneMore(done, p, ReadPairs(a, i + 2));
      var r := m.Append(a[i].value, a[i + 1]);
      done := done + [p];
      i := i + 2;
    }
    assert done + [] == done;
    return m, true;
  }

  /** The array for a list of pairs, and maybe nulls behind them. */
  ghost predicate Spread(a: seq<Cell>, i: nat, pairs: seq<NamedCell>)
  {
    && i + 2 * |pairs| <= |a|
    && (forall n :: 0 <= n < |pairs| ==> a[i + 2 * n] == Some(pairs[n].0) && a[i + 2 * n + 1] == pairs[n].1)
    && (i + 2 * |pairs| < |a| ==> a[i + 2 * |pairs|].None?)
  }

  lemma {:induction false} SpreadIsRead(a: seq<Cell>, i: nat, pairs: seq<NamedCell>)
    requires Spread(a, i, pairs)
    ensures ReadPairs(a, i) == Some(pairs)
    decreases |pairs|
  {
    if pairs != [] {
      assert a[i + 2 * 0] == Some(pairs[0].0) && a[i + 2 * 0 + 1] == pairs[0].1;
      forall n | 0 <= n < |pairs[1..]| ensures a[i + 2 + 2 * n] == Some(pairs[1..][n].0) &&
        a[i + 2 + 2 * n + 1] == pairs[1..][n].1 {
        assert a[i + 2 * (n + 1)] == Some(pairs[n + 1].0) && a[i + 2 * (n + 1) + 1] == pairs[n + 1].1;
      }
      SpreadIsRead(a, i + 2, pairs[1..]);
      assert pairs == [pairs[0]] + pairs[1..];
    }
  }

  /** Every second cell from `i` on, if there is one, holds a name. */
  ghost predicate AllNamed(a: seq<Cell>, i: nat) { forall n: nat :: NamedAt(a, i, n) }

  predicate NamedAt(a: seq<Cell>, i: nat, n: nat) { i + 2 * n < |a| ==> a[i + 2 * n].Some? }

  lemma {:induction false} AllNamedTail(a: seq<Cell>, i: nat)
    requires i < |a|
    ensures AllNamed(a, i) <==> a[i].Some? && AllNamed(a, i + 2)
  {
    if AllNamed(a, i) {
      assert NamedAt(a, i, 0);
      var j := i + 2;
      forall n: nat ensures NamedAt(a, j, n) { assert NamedAt(a, i, n + 1); }
    }
    if a[i].Some? && AllNamed(a, i + 2) {
      forall n: nat ensures NamedAt(a, i, n) { assert n > 0 ==> NamedAt(a, i + 2, n - 1); }
    }
  }

  /** The exception comes exactly when the last cell is a name, those before it having values. */
  lemma {:induction false} ThrowsExactly(a: seq<Cell>, i: nat)
    requires i <= |a| + 1
    ensures ReadPairs(a, i).None? <==> i < |a| && (|a| - i) % 2 == 1 && AllNamed(a, i)
    decreases |a| - i
  {
    if i < |a| {
      AllNamedTail(a, i);
      if i + 1 < |a| {
        ThrowsExactly(a, i + 2);
        assert i + 2 == |a| ==> (|a| - i) % 2 == 0;
      }
    }
  }

  // ---------------------------------------------------------------- response headers

  /** The cells of the last field with a name, as a map to which all fields are added has them. */
  ghost function LastOf(fields: seq<(string, seq<Cell>)>, k: string): seq<Cell>
  {
    if fields == [] then []
    else
      var n := |fields| - 1;
      if Fold(fields[n].0) == k then fields[n].1 else LastOf(fields[..n], k)
  }

  /** And its name. */
  ghost function LastName(fields: seq<(string, seq<Cell>)>, k: string): Option<string>
  {
    if fields == [] then None
    else
      var n := |fields| - 1;
      if Fold(fields[n].0) == k then Some(fields[n].0) else LastName(fields[..n], k)
  }

  lemma {:induction false} LastOneMore(fields: seq<(string, seq<Cell>)>, f: (string, seq<Cell>))
    ensures forall k :: LastOf(fields + [f], k) == if Fold(f.0) == k then f.1 else LastOf(fields, k)
    ensures forall k :: LastName(fields + [f], k) == if Fold(f.0) == k then Some(f.0) else LastName(fields, k)
  {
    assert (fields + [f])[..|fields|] == fields;
  }

  lemma {:induction false} DecodeStep(a: seq<Cell>, i: nat, j: nat, fields: seq<(string, seq<Cell>)>,
                                      f: (string, seq<Cell>))
    requires i + 1 < |a| && a[i].Some? && j == NextNull(a, i + 2) && f == (a[i].value, a[i + 1..j])
    ensures Prepend(fields + [f], DecodeFrom(a, j + 1)) == Prepend(fields, DecodeFrom(a, i))
  {
    PrependOne(fields, f, DecodeFrom(a, j + 1));
  }

  lemma PrependNone<S>(d: Decoded<S>)
    ensures Prepend([], d) == d
  {
    if d.Fields? {
      assert [] + d.fields == d.fields;
    }
  }

  /** The map has, for every name, the last of the fields with that name, and its spelling. */
  ghost predicate IsMapOf(m: HeaderMap<Cell>, fields: seq<(string, seq<Cell>)>)
    reads m, m.container.Values
  {
    m.Valid() && forall k :: m.Contents(k) == LastOf(fields, k) && m.Spelled(k) == LastName(fields, k)
  }

  method AddField(m: HeaderMap<Cell>, key: string, a: seq<Cell>, from: nat, to: nat,
                  ghost fields: seq<(string, seq<Cell>)>, ghost fields': seq<(string, seq<Cell>)>)
    requires IsMapOf(m, fields) && from < to <= |a| && fields' == fields + [(key, a[from..to])]
    modifies m
    ensures IsMapOf(m, fields') && fresh(m.container.Values - old(m.container.Values))
  {
    LastOneMore(fields, (key, a[from..to]));
    m.AppendSlice(key, a, from, to);
  }

  /** The loop of getHeaderFields, which puts the slices into a header map. */
  method HeaderFields(a: seq<Cell>) returns (m: HeaderMap<Cell>, ok: bool)
    ensures fresh(m) && m.Valid() && (ok <==> DecodeFrom(a, 0).Fields?)
    ensures ok ==> IsMapOf(m, DecodeFrom(a, 0).fields)
  {
    m := new HeaderMap();
    ghost var fields, all := [], DecodeFrom(a, 0);
    PrependNone(all);
    var i := 0;
    while i < |a|
      invariant fresh(m) && fresh(m.container.Values) && IsMapOf(m, fields)
      invariant 0 <= i <= |a| + 1 && Prepend(fields, DecodeFrom(a, i)) == all
      decreases |a| - i
    {
      if a[i].None? {
        break;
      }
      if i + 1 >= |a| {
        return m, false;
      }
      var j := ScanNull(a, i + 2);
      ghost var fields' := fields + [(a[i].value, a[i + 1..j])];
      DecodeStep(a, i, j, fields, (a[i].value, a[i + 1..j]));
      AddField(m, a[i].value, a, i + 1, j, fields, fields');
      fields := fields';
      i := j + 1;
    }
    assert fields + [] == fields;
    return m, true;
  }
}
