/**
  The response-header store of a connection: the pair array in order of arrival, restarted by every response, beside
  the index of module HeaderIndex, and the header map that Java makes of it.
*/
module HeaderStore {
  import opened Hashing
  import opened Options
  import opened Table
  import opened HeaderRings
  import opened HeaderArray
  import opened HeaderIndex
  import opened Hashmap
  import opened HeaderLine

  /** The intended key functions of the index: names are equal up to case. */
  const NAME_KEYS: Keys<string> := Keys(HashCalc, EqualFold)

  lemma NamesLawful()
    ensures Lawful(NAME_KEYS)
  {
    forall a: string, b: string | EqualFold(a, b) ensures HashCalc(a) == HashCalc(b) {
      FoldedHash(|a|, a, b);
    }
  }

  // ---------------------------------------------------------------- what was received

  type NameValue = (string, string)

  /**
    The response being received: its status line, its fields in order of arrival, and whether its blank line was seen.
  */
  datatype Log = Log(status: Option<string>, fields: seq<NameValue>, ended: bool)

  const NOTHING := Log(None, [], false)

  /** What a line means, whatever came before. */
  function Receive(log: Log, line: Line): Log
  {
    match line
    case Status(text) => Log(Some(text), [], false)
    case Field(name, value) => log.(fields := log.fields + [(name, value)])
    case End => log.(ended := true)
  }

  /** Where a line may come: a status line first or after a blank line, a field after a status line. */
  predicate InOrder(log: Log, line: Line)
  {
    match line
    case Status(_) => log.ended || log.status == None
    case Field(_, _) => log.status.Some?
    case End => true
  }

  function Run(log: Log, lines: seq<Line>): Log
  {
    if lines == [] then log else Receive(Run(log, lines[..|lines| - 1]), lines[|lines| - 1])
  }

  ghost predicate AllInOrder(log: Log, lines: seq<Line>)
  {
    forall i :: 0 <= i < |lines| ==> InOrder(Run(log, lines[..i]), lines[i])
  }

  datatype Response = Response(status: string, fields: seq<NameValue>)

  function FieldLines(fields: seq<NameValue>): (lines: seq<Line>)
    ensures |lines| == |fields|
  {
    seq(|fields|, i requires 0 <= i < |fields| => Field(fields[i].0, fields[i].1))
  }

  function ResponseLines(r: Response): seq<Line> { [Status(r.status)] + FieldLines(r.fields) + [End] }

  function AllLines(rs: seq<Response>): seq<Line>
  {
    if rs == [] then [] else AllLines(rs[..|rs| - 1]) + ResponseLines(rs[|rs| - 1])
  }

  lemma {:induction false} RunConcat(log: Log, a: seq<Line>, b: seq<Line>)
    ensures Run(log, a + b) == Run(Run(log, a), b)
    decreases |b|
  {
    if b == [] {
      assert a + b == a;
    } else {
      var n := |b| - 1;
      assert (a + b)[..|a| + n] == a + b[..n];
      RunConcat(log, a, b[..n]);
    }
  }

  lemma {:induction false} RunFields(log: Log, fields: seq<NameValue>)
    ensures Run(log, FieldLines(fields)) == log.(fields := log.fields + fields)
  {
    if fields != [] {
      var n := |fields| - 1;
      assert FieldLines(fields)[..n] == FieldLines(fields[..n]);
      RunFields(log, fields[..n]);
      assert fields == fields[..n] + [fields[n]];
    }
  }

  lemma {:induction false} RunResponse(log: Log, r: Response)
    ensures Run(log, ResponseLines(r)) == Log(Some(r.status), r.fields, true)
  {
    var first, fields := [Status(r.status)], FieldLines(r.fields);
    assert first[..0] == [];
    RunConcat(log, first, fields);
    RunFields(Run(log, first), r.fields);
    RunConcat(log, first + fields, [End]);
    assert [End][..0] == [];
  }

  lemma {:induction false} OrderConcat(log: Log, a: seq<Line>, b: seq<Line>)
    requires AllInOrder(log, a) && AllInOrder(Run(log, a), b)
    ensures AllInOrder(log, a + b)
  {
    forall i | 0 <= i < |a + b| ensures InOrder(Run(log, (a + b)[..i]), (a + b)[i]) {
      if i < |a| {
        assert (a + b)[..i] == a[..i];
      } else {
        assert (a + b)[..i] == a + b[..i - |a|];
        RunConcat(log, a, b[..i - |a|]);
      }
    }
  }

  lemma {:induction false} ResponseInOrder(log: Log, r: Response)
    requires log.ended || log.status == None
    ensures AllInOrder(log, ResponseLines(r))
  {
    var lines := ResponseLines(r);
    forall i | 0 <= i < |lines| ensures InOrder(Run(log, lines[..i]), lines[i]) {
      if 0 < i <= |r.fields| {
        assert lines[..i] == [Status(r.status)] + FieldLines(r.fields[..i - 1]);
        RunConcat(log, [Status(r.status)], FieldLines(r.fields[..i - 1]));
        assert [Status(r.status)][..0] == [];
        RunFields(Run(log, [Status(r.status)]), r.fields[..i - 1]);
      } else if i == 0 {
        assert lines[..0] == [];
      }
    }
  }

  /** Any number of responses: their lines come in order, and what remains is the last response. */
  lemma {:induction false} LastResponseRemains(rs: seq<Response>)
    ensures AllInOrder(NOTHING, AllLines(rs))
    ensures Run(NOTHING, AllLines(rs)) ==
      if rs == [] then NOTHING else var last := rs[|rs| - 1]; Log(Some(last.status), last.fields, true)
  {
    if rs != [] {
      var n := |rs| - 1;
      LastResponseRemains(rs[..n]);
      ResponseInOrder(Run(NOTHING, AllLines(rs[..n])), rs[n]);
      OrderConcat(NOTHING, AllLines(rs[..n]), ResponseLines(rs[n]));
      RunConcat(NOTHING, AllLines(rs[..n]), ResponseLines(rs[n]));
      RunResponse(Run(NOTHING, AllLines(rs[..n])), rs[n]);
    }
  }

  // ---------------------------------------------------------------- the multimap of the fields

  /** The values of the fields named `k`, in order of arrival. */
  ghost function ValuesOf(ks: Keys<string>, fields: seq<NameValue>, k: string): seq<string>
  {
    if fields == [] then []
    else
      var n := |fields| - 1;
      ValuesOf(ks, fields[..n], k) + (if ks.equals(fields[n].0, k) then [fields[n].1] else [])
  }

  /** How a name was spelled when it first arrived, if it did. */
  ghost function FirstName(ks: Keys<string>, fields: seq<NameValue>, k: string): Option<string>
  {
    if fields == [] then None
    else
      var n := |fields| - 1;
      match FirstName(ks, fields[..n], k)
      case Some(name) => Some(name)
      case None => if ks.equals(fields[n].0, k) then Some(fields[n].0) else None
  }

  /**
    A decoded header map holds each name of the response, up to case, once and as it was first spelled, with its values
    in order of arrival.
  */
  ghost predicate IsHeaderMap(ks: Keys<string>, fs: seq<(string, seq<Option<string>>)>, fields: seq<NameValue>)
  {
    && (forall i :: 0 <= i < |fs| ==> fs[i].1 == Somes(ValuesOf(ks, fields, fs[i].0)) != [])
    && (forall i, j :: 0 <= i < j < |fs| ==> !ks.equals(fs[i].0, fs[j].0))
    && (forall n :: 0 <= n < |fields| ==> Contains(ks, fs, fields[n].0))
    && (forall i :: 0 <= i < |fs| ==> FirstName(ks, fields, fs[i].0) == Some(fs[i].0))
  }

  /**
    An array that decodes to the header map and has no cell to spare: two per name and one per value, less the last
    separator.
  */
  ghost predicate IsHeaderArray(ks: Keys<string>, cells: seq<Option<string>>, fields: seq<NameValue>)
  {
    Decodes(ks, cells, fields) && |cells| == 2 * |DecodeFrom(cells, 0).fields| + |fields| - 1
  }

  ghost predicate Decodes(ks: Keys<string>, cells: seq<Option<string>>, fields: seq<NameValue>)
  {
    var d := DecodeFrom(cells, 0);
    d.Fields? && IsHeaderMap(ks, d.fields, fields)
  }

  ghost predicate Contains(ks: Keys<string>, fs: seq<(string, seq<Option<string>>)>, k: string)
  {
    exists i :: 0 <= i < |fs| && ks.equals(fs[i].0, k)
  }

  /** The index has stored these fields. */
  ghost predicate Stores(names: seq<string>, nodes: seq<Hdr<string>>, fields: seq<NameValue>)
  {
    |names| == |nodes| == |fields| && forall i :: 0 <= i < |fields| ==>
      names[i] == fields[i].0 && nodes[i].header == fields[i].1
  }

  lemma {:induction false} RingValues(ks: Keys<string>, names: seq<string>, nodes: seq<Hdr<string>>,
                                      fields: seq<NameValue>, k: string)
    requires Stores(names, nodes, fields)
    ensures ValuesAt(Sel(ks, names, k), nodes) == ValuesOf(ks, fields, k)
  {
    if fields != [] {
      var n := |fields| - 1;
      RingValues(ks, names[..n], nodes[..n], fields[..n], k);
      var p := Sel(ks, names[..n], k);
      assert ValuesAt(p, nodes[..n]) == ValuesAt(p, nodes);
    }
  }

  lemma {:induction false} FirstOfRing(ks: Keys<string>, names: seq<string>, nodes: seq<Hdr<string>>,
                                       fields: seq<NameValue>, k: string)
    requires Stores(names, nodes, fields)
    ensures var p := Sel(ks, names, k); FirstName(ks, fields, k) == if p == [] then None else Some(names[p[0]])
  {
    if fields != [] {
      var n := |fields| - 1;
      FirstOfRing(ks, names[..n], nodes[..n], fields[..n], k);
    }
  }

  lemma {:induction false} MultimapIsHeaderMap(ks: Keys<string>, groups: seq<Group<string>>, names: seq<string>,
                                               nodes: seq<Hdr<string>>, fields: seq<NameValue>)
    requires Stores(names, nodes, fields) && IsMultimap(ks, groups, names, nodes)
    ensures IsHeaderMap(ks, AsFields(groups), fields)
  {
    var fs := AsFields(groups);
    forall i | 0 <= i < |fs| ensures fs[i].1 == Somes(ValuesOf(ks, fields, fs[i].0)) != [] {
      RingValues(ks, names, nodes, fields, fs[i].0);
      assert groups[i].values == ValuesAt(Sel(ks, names, groups[i].name), nodes) != [];
    }
    forall i, j | 0 <= i < j < |fs| ensures !ks.equals(fs[i].0, fs[j].0) {
      assert !ks.equals(groups[i].name, groups[j].name);
    }
    forall n | 0 <= n < |fields| ensures Contains(ks, fs, fields[n].0) {
      var i :| 0 <= i < |groups| && ks.equals(groups[i].name, names[n]);
      assert ks.equals(fs[i].0, fields[n].0);
    }
    forall i | 0 <= i < |fs| ensures FirstName(ks, fields, fs[i].0) == Some(fs[i].0) {
      assert IsFirst(ks, names, groups[i].name);
      FirstOfRing(ks, names, nodes, fields, fs[i].0);
    }
  }

  /** The fields that the index holds, in order of arrival. */
  ghost function Indexed(names: seq<string>, nodes: seq<Hdr<string>>): (fields: seq<NameValue>)
    requires |names| == |nodes|
    ensures Stores(names, nodes, fields)
  {
    seq(|names|, i requires 0 <= i < |names| => (names[i], nodes[i].header))
  }

  /** Decoding what was flattened gives the header map. */
  lemma {:induction false} DecodedMap(ks: Keys<string>, t: seq<Chain<string, Hdr<string>>>, names: seq<string>,
                                      nodes: seq<Hdr<string>>, cells: seq<Option<string>>)
    requires WellFormed(ks, t) && Agree(ks, t, names, nodes) && FirstSpelled(ks, t, names)
    requires Filled(cells, 0, GroupsOf(ks, Flat(t), names, nodes))
    ensures Decodes(ks, cells, Indexed(names, nodes))
    ensures |DecodeFrom(cells, 0).fields| == |GroupsOf(ks, Flat(t), names, nodes)|
  {
    var groups := GroupsOf(ks, Flat(t), names, nodes);
    GroupsCount(ks, t, names, nodes);
    DecodeEncode(cells, 0, groups);
    GroupsAreMultimap(ks, t, names, nodes);
    MultimapIsHeaderMap(ks, groups, names, nodes, Indexed(names, nodes));
  }

  // ---------------------------------------------------------------- the store

  /** A cell of headerPairs: cell 2k holds the value of pair k, cell 2k + 1 its name. */
  datatype Slot = Unset | Node(node: Hdr<string>) | Name(text: string)

  ghost predicate PairIs(ks: Keys<string>, cells: seq<Slot>, k: nat, field: NameValue, node: Hdr<string>, key: string)
  {
    && 2 * k + 1 < |cells| && cells[2 * k] == Node(node) && node.header == field.1
    && cells[2 * k + 1] == Name(key) && ks.equals(key, field.0)
  }

  /** Pair 0 is the status line, which has no value, and pair k the k-th field. */
  ghost predicate Layout(ks: Keys<string>, cells: seq<Slot>, count: nat, log: Log, held: seq<Hdr<string>>,
                         keys: seq<string>)
  {
    && 2 * count <= |cells| && |held| == |keys| == |log.fields|
    && (if log.status == None then count == 0 && log.fields == []
        else count == |log.fields| + 1 && cells[1] == Name(log.status.value) && cells[0].Node?)
    && forall k :: 0 <= k < |log.fields| ==> PairIs(ks, cells, k + 1, log.fields[k], held[k], keys[k])
  }

  /** The cells keep their contents and there may be more of them. */
  ghost predicate Extends(cells: seq<Slot>, cells': seq<Slot>, n: nat)
  {
    n <= |cells| && n <= |cells'| && forall i :: 0 <= i < n ==> cells'[i] == cells[i]
  }

  lemma LayoutExtends(ks: Keys<string>, cells: seq<Slot>, cells': seq<Slot>, count: nat, log: Log,
                      held: seq<Hdr<string>>, keys: seq<string>)
    requires Layout(ks, cells, count, log, held, keys) && Extends(cells, cells', 2 * count)
    ensures Layout(ks, cells', count, log, held, keys)
  {
    forall k | 0 <= k < |log.fields| ensures PairIs(ks, cells', k + 1, log.fields[k], held[k], keys[k]) {
      assert PairIs(ks, cells, k + 1, log.fields[k], held[k], keys[k]);
    }
  }

  function WithPair(cells: seq<Slot>, k: nat, node: Hdr<string>, key: string): seq<Slot>
    requires 2 * k + 1 < |cells|
  {
    cells[2 * k := Node(node)][2 * k + 1 := Name(key)]
  }

  lemma {:induction false} LayoutField(ks: Keys<string>, cells: seq<Slot>, count: nat, log: Log, held: seq<Hdr<string>>,
                                       keys: seq<string>, field: NameValue, node: Hdr<string>, key: string)
    requires Layout(ks, cells, count, log, held, keys) && log.status.Some? && 2 * count + 1 < |cells|
    requires node.header == field.1 && ks.equals(key, field.0)
    ensures Layout(ks, WithPair(cells, count, node, key), count + 1, log.(fields := log.fields + [field]),
      held + [node], keys + [key])
  {
    var cells' := WithPair(cells, count, node, key);
    LayoutExtends(ks, cells, cells', count, log, held, keys);
    assert PairIs(ks, cells', count, field, node, key);
    forall k | 0 <= k < |log.fields| ensures PairIs(ks, cells', k + 1, log.fields[k], held[k], keys[k]) {
    }
  }

  ghost function NamesOf(fields: seq<NameValue>): seq<string>
  {
    seq(|fields|, i requires 0 <= i < |fields| => fields[i].0)
  }

  lemma LayoutStores(ks: Keys<string>, cells: seq<Slot>, count: nat, log: Log, held: seq<Hdr<string>>,
                     keys: seq<string>)
    requires Layout(ks, cells, count, log, held, keys)
    ensures Stores(NamesOf(log.fields), held, log.fields) && Indexed(NamesOf(log.fields), held) == log.fields
  {
    forall i | 0 <= i < |log.fields| ensures held[i].header == log.fields[i].1 {
      assert PairIs(ks, cells, i + 1, log.fields[i], held[i], keys[i]);
    }
  }

  lemma NamesOneMore(fields: seq<NameValue>, f: NameValue)
    ensures NamesOf(fields + [f]) == NamesOf(fields) + [f.0]
  {
  }

  /** Every name as it was first spelled. */
  ghost function Spellings(ks: Keys<string>, names: seq<string>): (keys: seq<string>)
    ensures |keys| == |names|
  {
    if names == [] then []
    else var n := |names| - 1; Spellings(ks, names[..n]) + [Spelling(ks, names[..n], names[n])]
  }

  lemma SpellingsOneMore(ks: Keys<string>, names: seq<string>, name: string)
    ensures Spellings(ks, names + [name]) == Spellings(ks, names) + [Spelling(ks, names, name)]
  {
    assert (names + [name])[..|names|] == names;
  }

  lemma {:induction false} SpellingsAt(ks: Keys<string>, names: seq<string>, i: nat)
    requires Lawful(ks) && i < |names|
    ensures Spellings(ks, names)[i] == Spelling(ks, names, names[i])
  {
    var n := |names| - 1;
    var most, name := names[..n], names[n];
    assert names == most + [name];
    SelAppend(ks, most, name, names[i]);
    if i < n {
      SpellingsAt(ks, most, i);
      SelComplete(ks, most, names[i], i);
    }
  }

  lemma {:induction false} KeyIsFirstName(ks: Keys<string>, cells: seq<Slot>, count: nat, log: Log,
                                          held: seq<Hdr<string>>, keys: seq<string>, i: nat)
    requires Layout(ks, cells, count, log, held, keys) && Lawful(ks) && i < |log.fields|
    requires keys == Spellings(ks, NamesOf(log.fields))
    ensures FirstName(ks, log.fields, log.fields[i].0) == Some(keys[i])
  {
    var names := NamesOf(log.fields);
    LayoutStores(ks, cells, count, log, held, keys);
    SpellingsAt(ks, names, i);
    FirstOfRing(ks, names, held, log.fields, names[i]);
    SelComplete(ks, names, names[i], i);
  }

  /** The counter of pairs has 16 bits. */
  const MAX_PAIRS := 0xFFFF

  /** A fetched string, a null, or something that was never written. */
  datatype Fetched = Null | Text(text: string) | Undefined

  class HeaderStore {
    const index: ResponseIndex<string>
    var pairs: seq<Slot>
    var bufSize: nat
    var count: nat
    var ended: bool
    ghost var log: Log
    ghost var held: seq<Hdr<string>>
    ghost var named: seq<string>
    ghost var keys: seq<string>

    ghost predicate LogValid()
      reads this
    {
      && |pairs| == 2 * bufSize && 1 <= bufSize && count <= bufSize && ended == log.ended
      && Layout(index.ks, pairs, count, log, held, keys) && named == NamesOf(log.fields)
    }

    ghost predicate Valid()
      reads this, index, index.headers, index.headers.buckets, index.headers.nodes, index.nodes
    {
      LogValid() && index.Valid() && (log.status == None ==> index.names == [])
    }

    /** The index and the pair array hold the same fields. */
    ghost predicate Synced()
      reads this, index
    {
      index.nodes == held && index.names == named
    }

    /** Every pair has its name as it was first spelled. */
    ghost predicate Spelt()
      reads this
    {
      keys == Spellings(index.ks, named)
    }

    constructor (ks: Keys<string>)
      requires Lawful(ks)
      ensures Valid() && Synced() && Spelt() && index.ks == ks && log == NOTHING
      ensures fresh(index) && fresh(index.headers) && fresh(index.headers.buckets) && index.headers.nodes == {}
    {
      index := new ResponseIndex(ks);
      bufSize := HEADER_BUF_SIZE_DEFAULT;
      pairs := seq(2 * HEADER_BUF_SIZE_DEFAULT, _ => Unset);
      count, ended := 0, false;
      log, held, named, keys := NOTHING, [], [], [];
    }

    /** headers_ensure_capacity; `granted` is realloc's answer.  True is failure. */
    method EnsureCapacity(newItemCapacity: nat, granted: bool) returns (failed: bool)
      requires LogValid()
      modifies this`pairs, this`bufSize
      ensures LogValid()
      ensures failed <==> newItemCapacity > old(bufSize) && !granted
      ensures !failed ==> newItemCapacity <= bufSize
      ensures bufSize == if failed || newItemCapacity <= old(bufSize) then old(bufSize) else 3 * newItemCapacity / 2
    {
      if newItemCapacity <= bufSize {
        return false;
      }
      if !granted {
        return true;
      }
      var target := 3 * newItemCapacity / 2;
      ghost var was := pairs;
      pairs := pairs + seq(2 * target - |pairs|, _ => Unset);
      bufSize := target;
      LayoutExtends(index.ks, was, pairs, count, log, held, keys);
      return false;
    }

    /** The end of header_callback for a field: the pair goes behind the others. */
    method AppendPair(node: Hdr<string>, key: string, grown: bool, ghost name: string) returns (ok: bool)
      requires LogValid() && log.status.Some? && index.ks.equals(key, name) && count < MAX_PAIRS
      modifies this
      ensures LogValid()
      ensures ok <==> old(count) < old(bufSize) || grown
      ensures log == if ok then Receive(old(log), Field(name, node.header)) else old(log)
      ensures held == (if ok then old(held) + [node] else old(held)) && named == if ok then old(named) + [name]
        else old(named)
      ensures keys == if ok then old(keys) + [key] else old(keys)
    {
      var failed := EnsureCapacity(count + 1, grown);
      if failed {
        return false;
      }
      LayoutField(index.ks, pairs, count, log, held, keys, (name, node.header), node, key);
      pairs := WithPair(pairs, count, node, key);
      count := count + 1;
      NamesOneMore(log.fields, (name, node.header));
      log, held, named := log.(fields := log.fields + [(name, node.header)]), held + [node], named + [name];
      keys := keys + [key];
      return true;
    }

    /** header_callback on a field; `granted`, `moreBuckets` and `grown` are the allocator's answers. */
    method OnField(name: string, node: Hdr<string>, granted: bool, moreBuckets: bool, grown: bool)
      returns (ok: bool, ghost stored: bool)
      requires Valid() && log.status.Some? && count < MAX_PAIRS && node !in index.nodes
      modifies this, index, index.headers, index.headers.buckets, index.headers.nodes, index.nodes, node
      ensures Valid() && (granted ==> stored)
      ensures ok <==> old(count) < old(bufSize) || grown
      ensures log == if ok then Receive(old(log), Field(name, node.header)) else old(log)
      ensures ok ==> held == old(held) + [node] && named == old(named) + [name]
      ensures ok ==> keys == old(keys) + [Spelling(index.ks, old(index.names), name)]
      ensures if stored then index.names == old(index.names) + [name] && index.nodes == old(index.nodes) + [node]
        else index.names == old(index.names) && index.nodes == old(index.nodes)
      ensures index.headers.buckets == old(index.headers.buckets) || fresh(index.headers.buckets)
      ensures fresh(index.headers.nodes - old(index.headers.nodes))
    {
      var key;
      key, stored := index.Add(name, node, granted, moreBuckets);
      assert LogValid();
      ok := AppendToLog(node, key, grown, name);
    }

    /** The same, with the index left alone. */
    method AppendToLog(node: Hdr<string>, key: string, grown: bool, ghost name: string) returns (ok: bool)
      requires LogValid() && index.Valid() && log.status.Some? && index.ks.equals(key, name) && count < MAX_PAIRS
      modifies this
      ensures Valid()
      ensures ok <==> old(count) < old(bufSize) || grown
      ensures log == if ok then Receive(old(log), Field(name, node.header)) else old(log)
      ensures ok ==> held == old(held) + [node] && named == old(named) + [name] && keys == old(keys) + [key]
    {
      ok := AppendPair(node, key, grown, name);
    }

    /**
      header_callback on a status line: the previous response, once ended, makes room for a new one.  With no blank line
      before it, it replaces the status line, and a pair is counted that nobody wrote.
    */
    method OnStatus(text: string, node: Hdr<string>)
      requires Valid() && node.header == ""
      modifies this, index, index.headers, index.headers.buckets
      ensures old(InOrder(log, Status(text))) ==>
        Valid() && Synced() && Spelt() && log == Receive(old(log), Status(text)) && index.nodes == []
      ensures old(!InOrder(log, Status(text))) ==> Miscounts(old(pairs), old(count), text, node) && index.Valid()
      ensures old(!InOrder(log, Status(text))) ==> index.names == old(index.names) && index.nodes == old(index.nodes)
      ensures index.headers.buckets == old(index.headers.buckets) && index.headers.nodes == old(index.headers.nodes)
    {
      if ended {
        index.Clear();
      }
      StartPairs(text, node);
    }

    /** Only the first pair was written, and one more is counted. */
    ghost predicate Miscounts(cells: seq<Slot>, n: nat, text: string, node: Hdr<string>)
      reads this
    {
      2 <= |cells| && pairs == WithPair(cells, 0, node, text) && count == n + 1 && !ended
    }

    /**
      releaseHeaders when the last response had ended, and the pair of the status line; there is always room for one.
    */
    method StartPairs(text: string, node: Hdr<string>)
      requires LogValid() && node.header == ""
      modifies this
      ensures old(InOrder(log, Status(text))) ==>
        LogValid() && held == [] && named == [] && keys == [] && log == Receive(old(log), Status(text))
      ensures old(!InOrder(log, Status(text))) ==> Miscounts(old(pairs), old(count), text, node)
    {
      ghost var inOrder := InOrder(log, Status(text));
      if ended {
        count, ended := 0, false;
      }
      var oldHeaderCount := count;
      count := 0;
      pairs := WithPair(pairs, 0, node, text);
      count := oldHeaderCount + 1;
      if inOrder {
        log, held, named, keys := Log(Some(text), [], false), [], [], [];
      }
    }

    /** header_callback on the blank line. */
    method OnEnd()
      requires Valid()
      modifies this`ended, this`log
      ensures Valid() && log == Receive(old(log), End)
    {
      ended := true;
      log := log.(ended := true);
    }

    /** header_callback; a line that may come now.  False aborts the transfer. */
    method HeaderCallback(line: string, after: char, granted: bool, moreBuckets: bool, grown: bool) returns (ok: bool)
      requires Valid() && (|line| >= 2 || ':' in line) && InOrder(log, Read(line, after)) && count < MAX_PAIRS
      modifies this, index, index.headers, index.headers.buckets, index.headers.nodes, index.nodes
      ensures Valid()
      ensures log == if ok then Receive(old(log), Read(line, after)) else old(log)
      ensures !ok ==> Read(line, after).Field? && old(count) == old(bufSize) && !grown
      ensures old(Synced()) && granted && ok ==> Synced()
      ensures old(Synced() && Spelt()) && ok ==> Spelt()
      ensures index.headers.buckets == old(index.headers.buckets) || fresh(index.headers.buckets)
      ensures fresh(index.headers.nodes - old(index.headers.nodes))
      ensures forall n :: 0 <= n < |index.nodes| ==> index.nodes[n] in old(index.nodes) || fresh(index.nodes[n])
    {
      var r := Parse(line, after);
      ok := Take(r, granted, moreBuckets, grown);
    }

    /** The rest of header_callback, on a line that was parsed. */
    method Take(line: Line, granted: bool, moreBuckets: bool, grown: bool) returns (ok: bool)
      requires Valid() && InOrder(log, line) && count < MAX_PAIRS
      modifies this, index, index.headers, index.headers.buckets, index.headers.nodes, index.nodes
      ensures Valid()
      ensures log == if ok then Receive(old(log), line) else old(log)
      ensures !ok ==> line.Field? && old(count) == old(bufSize) && !grown
      ensures old(Synced()) && granted && ok ==> Synced()
      ensures old(Synced() && Spelt()) && ok ==> Spelt()
      ensures index.headers.buckets == old(index.headers.buckets) || fresh(index.headers.buckets)
      ensures fresh(index.headers.nodes - old(index.headers.nodes))
      ensures forall n :: 0 <= n < |index.nodes| ==> index.nodes[n] in old(index.nodes) || fresh(index.nodes[n])
    {
      ok := true;
      match line
      case Status(text) =>
        var node := new Hdr("");
        OnStatus(text, node);
      case End => OnEnd();
      case Field(name, value) =>
        ghost var node;
        ok, node := TakeField(name, value, granted, moreBuckets, grown);
    }

    method TakeField(name: string, value: string, granted: bool, moreBuckets: bool, grown: bool)
      returns (ok: bool, ghost node: Hdr<string>)
      requires Valid() && log.status.Some? && count < MAX_PAIRS
      modifies this, index, index.headers, index.headers.buckets, index.headers.nodes, index.nodes
      ensures Valid()
      ensures log == if ok then Receive(old(log), Field(name, value)) else old(log)
      ensures !ok ==> old(count) == old(bufSize) && !grown
      ensures old(Synced()) && granted && ok ==> Synced()
      ensures old(Synced() && Spelt()) && ok ==> Spelt()
      ensures index.headers.buckets == old(index.headers.buckets) || fresh(index.headers.buckets)
      ensures fresh(index.headers.nodes - old(index.headers.nodes))
      ensures fresh(node) && (index.nodes == old(index.nodes) || index.nodes == old(index.nodes) + [node])
    {
      var n := new Hdr(value);
      node := n;
      ghost var stored;
      ok, stored := OnField(name, n, granted, moreBuckets, grown);
    }

    /** The part of Curl_reset that concerns the headers. */
    method Reset()
      requires Valid()
      modifies this, index, index.headers, index.headers.buckets
      ensures Valid() && Synced() && Spelt() && log == NOTHING
      ensures index.headers.buckets == old(index.headers.buckets) && index.headers.nodes == old(index.headers.nodes) &&
        index.nodes == []
    {
      ReleaseHeaders();
      index.Clear();
    }

    method ReleaseHeaders()
      requires LogValid()
      modifies this
      ensures LogValid() && held == [] && named == [] && keys == [] && log == NOTHING
    {
      count, ended := 0, false;
      log, held, named, keys := NOTHING, [], [], [];
    }

    /**
      getSpecialHeader: the value of field n for positive n, else the name of pair -n, where pair 0 is the status line.
      A negative index past the last pair is let through: it gives the name of an earlier response, or reads what was
      never written.
    */
    method SpecialHeader(n: int) returns (r: Fetched)
      requires LogValid()
      ensures n >= count ==> r == Null
      ensures 0 < n < count ==> r == Text(log.fields[n - 1].1)
      ensures n <= 0 && n < count ==> NamedBy(-n, r)
    {
      if n >= count {
        return Null;
      }
      if n > 0 {
        assert PairIs(index.ks, pairs, (n - 1) + 1, log.fields[n - 1], held[n - 1], keys[n - 1]);
        return Text(pairs[2 * n].node.header);
      }
      r := NameOf(-n);
    }

    /**
      The name of pair n, and for a field that is how its name was first spelled; past the last pair it is what an
      earlier response left there, if anything.
    */
    ghost predicate NamedBy(n: nat, r: Fetched)
      requires LogValid()
      reads this
    {
      && (n == 0 < count ==> log.status.Some? && r == Text(log.status.value))
      && (0 < n < count ==> r == Text(keys[n - 1]) && index.ks.equals(r.text, log.fields[n - 1].0))
      && (Spelt() && Lawful(index.ks) && 0 < n < count ==>
           FirstName(index.ks, log.fields, log.fields[n - 1].0) == Some(r.text))
      && (n >= count ==> r == if n < bufSize && pairs[n * 2 + 1].Name? then Text(pairs[n * 2 + 1].text) else Undefined)
    }

    method NameOf(n: nat) returns (r: Fetched)
      requires LogValid()
      ensures NamedBy(n, r)
    {
      assert 0 < n < count ==> PairIs(index.ks, pairs, (n - 1) + 1, log.fields[n - 1], held[n - 1], keys[n - 1]);
      if Spelt() && Lawful(index.ks) && 0 < n < count {
        KeyIsFirstName(index.ks, pairs, count, log, held, keys, n - 1);
      }
      if n < bufSize && pairs[n * 2 + 1].Name? {
        return Text(pairs[n * 2 + 1].text);
      }
      return Undefined;
    }

    /**
      getResponseHeaders: the array decodes to the map of the fields in the index.  Where the pair array and the index
      agree, those are the fields of the response, and the array is filled exactly; it overruns exactly when the pair
      array lost a field that the index has.
    */
    method ResponseHeaders() returns (r: Flattened<string>)
      requires Valid()
      ensures r == NoFields <==> index.names == []
      ensures r == Overrun <==> index.names != [] && count <= |index.names|
      ensures r.Array? ==> Decodes(index.ks, r.cells, Indexed(index.names, index.nodes))
      ensures Synced() && log.status.Some? ==> r != Overrun && (r == NoFields <==> log.fields == [])
      ensures Synced() && log.status.Some? && r.Array? ==> IsHeaderArray(index.ks, r.cells, log.fields)
    {
      r := index.Flatten(count);
      if r.Array? {
        DecodedMap(index.ks, index.headers.table, index.names, index.nodes, r.cells);
      }
      LayoutStores(index.ks, pairs, count, log, held, keys);
    }
  }
}
