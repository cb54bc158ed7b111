/** Whole exchanges: the lines of any number of responses, handed one by one to the header store of a connection. */
module HeaderExchange {
  import opened Options
  import opened HeaderArray
  import opened HeaderIndex
  import opened HeaderLine
  import opened HeaderStore

  /** The logs after each line, each line coming in its order and no response having more fields than can be counted. */
  ghost predicate Course(lines: seq<Line>, logs: seq<Log>)
  {
    && |logs| == |lines| + 1
    && (forall i {:trigger lines[i]} :: 0 <= i < |lines| ==>
       logs[i + 1] == Receive(logs[i], lines[i]) && InOrder(logs[i], lines[i]))
    && (forall i {:trigger lines[i]} :: 0 <= i < |lines| ==> |logs[i].fields| + 1 < MAX_PAIRS)
  }

  /** The received text of some lines, each followed in memory by the byte `after`. */
  ghost predicate Carries(wire: seq<string>, after: char, lines: seq<Line>)
  {
    |wire| == |lines| && forall i :: 0 <= i < |wire| ==>
      (|wire[i]| >= 2 || ':' in wire[i]) && Read(wire[i], after) == lines[i]
  }

  /** One line, for which entries and pairs find their memory. */
  method ReceiveLine(store: HeaderStore, text: string, after: char, moreBuckets: bool, ghost line: Line,
                     ghost next: Log)
    requires store.Valid() && store.Synced() && (|text| >= 2 || ':' in text) && Read(text, after) == line
    requires InOrder(store.log, line) && |store.log.fields| + 1 < MAX_PAIRS && next == Receive(store.log, line)
    modifies store, store.index, store.index.headers, store.index.headers.buckets, store.index.headers.nodes,
      store.index.nodes
    ensures store.Valid() && store.Synced() && store.log == next
    ensures store.index.headers.buckets == old(store.index.headers.buckets) || fresh(store.index.headers.buckets)
    ensures fresh(store.index.headers.nodes - old(store.index.headers.nodes))
    ensures forall n :: 0 <= n < |store.index.nodes| ==>
      store.index.nodes[n] in old(store.index.nodes) || fresh(store.index.nodes[n])
  {
    var ok := store.HeaderCallback(text, after, true, moreBuckets, true);
  }

  /**
    A transfer hands what it received to the callback line by line, from number `i` on.  Entries and pairs find their
    memory; `moreBuckets` says when a larger bucket array does.
  */
  method ReceiveFrom(store: HeaderStore, wire: seq<string>, after: char, moreBuckets: seq<bool>, i: nat,
                     ghost lines: seq<Line>, ghost logs: seq<Log>)
    requires i <= |lines| && Carries(wire, after, lines) && |moreBuckets| == |wire|
    requires Course(lines, logs) && store.Valid() && store.Synced() && store.log == logs[i]
    modifies store, store.index, store.index.headers, store.index.headers.buckets, store.index.headers.nodes,
      store.index.nodes
    ensures store.Valid() && store.Synced() && store.log == logs[|lines|]
    decreases |lines| - i
  {
    if i < |wire| {
      assert Read(wire[i], after) == lines[i] && logs[i + 1] == Receive(logs[i], lines[i]) &&
        InOrder(logs[i], lines[i]);
      ReceiveLine(store, wire[i], after, moreBuckets[i], lines[i], logs[i + 1]);
      ReceiveFrom(store, wire, after, moreBuckets, i + 1, lines, logs);
    }
  }

  lemma {:induction false} ResponsePrefix(log: Log, r: Response, j: nat)
    requires 0 < j <= |ResponseLines(r)|
    ensures |Run(log, ResponseLines(r)[..j]).fields| <= |r.fields|
  {
    var lines := ResponseLines(r);
    if j == |lines| {
      assert lines[..j] == lines;
      RunResponse(log, r);
    } else {
      var fields := r.fields[..j - 1];
      assert lines[..j] == [Status(r.status)] + FieldLines(fields);
      RunConcat(log, [Status(r.status)], FieldLines(fields));
      assert [Status(r.status)][..0] == [];
      RunFields(Run(log, [Status(r.status)]), fields);
    }
  }

  lemma {:induction false} FieldsStayFew(rs: seq<Response>, i: nat)
    requires i <= |AllLines(rs)| && forall a :: 0 <= a < |rs| ==> |rs[a].fields| + 1 < MAX_PAIRS
    ensures |Run(NOTHING, AllLines(rs)[..i]).fields| + 1 < MAX_PAIRS
  {
    if rs != [] {
      var n := |rs| - 1;
      var before, r := AllLines(rs[..n]), rs[n];
      if i <= |before| {
        assert AllLines(rs)[..i] == before[..i];
        FieldsStayFew(rs[..n], i);
      } else {
        var j := i - |before|;
        assert AllLines(rs)[..i] == before + ResponseLines(r)[..j];
        RunConcat(NOTHING, before, ResponseLines(r)[..j]);
        ResponsePrefix(Run(NOTHING, before), r, j);
      }
    }
  }

  /** The logs after every prefix of the lines. */
  ghost function Logs(lines: seq<Line>): (logs: seq<Log>)
    ensures |logs| == |lines| + 1 && forall i :: 0 <= i < |logs| ==> logs[i] == Run(NOTHING, lines[..i])
  {
    seq(|lines| + 1, i requires 0 <= i <= |lines| => Run(NOTHING, lines[..i]))
  }

  lemma {:induction false} LogsStep(rs: seq<Response>, lines: seq<Line>, logs: seq<Log>, i: nat)
    requires lines == AllLines(rs) && logs == Logs(lines) && i < |lines|
    requires forall a :: 0 <= a < |rs| ==> |rs[a].fields| + 1 < MAX_PAIRS
    ensures logs[i + 1] == Receive(logs[i], lines[i]) && InOrder(logs[i], lines[i]) && |logs[i].fields| + 1 < MAX_PAIRS
  {
    RunOneMore(NOTHING, lines, i);
    OrderAt(rs, i);
    FieldsStayFew(rs, i);
  }

  lemma RunOneMore(log: Log, lines: seq<Line>, i: nat)
    requires i < |lines|
    ensures Run(log, lines[..i + 1]) == Receive(Run(log, lines[..i]), lines[i])
  {
    assert lines[..i + 1][..i] == lines[..i];
  }

  lemma {:induction false} OrderAt(rs: seq<Response>, i: nat)
    requires i < |AllLines(rs)|
    ensures InOrder(Run(NOTHING, AllLines(rs)[..i]), AllLines(rs)[i])
  {
    LastResponseRemains(rs);
  }

  lemma {:induction false} LastLog(rs: seq<Response>)
    requires rs != []
    ensures var lines, last := AllLines(rs), rs[|rs| - 1];
      Logs(lines)[0] == NOTHING && Logs(lines)[|lines|] == Log(Some(last.status), last.fields, true)
  {
    var lines := AllLines(rs);
    LastResponseRemains(rs);
    assert lines[..0] == [] && lines[..|lines|] == lines;
  }

  lemma {:induction false} ResponsesCourse(rs: seq<Response>, lines: seq<Line>, logs: seq<Log>)
    requires lines == AllLines(rs) && logs == Logs(lines) && rs != []
    requires forall a :: 0 <= a < |rs| ==> |rs[a].fields| + 1 < MAX_PAIRS
    ensures Course(lines, logs) && logs[0] == NOTHING
    ensures var last := rs[|rs| - 1]; logs[|lines|] == Log(Some(last.status), last.fields, true)
  {
    LastLog(rs);
    forall i | 0 <= i < |lines|
      ensures logs[i + 1] == Receive(logs[i], lines[i]) && InOrder(logs[i], lines[i]) &&
        |logs[i].fields| + 1 < MAX_PAIRS
    {
      LogsStep(rs, lines, logs, i);
    }
  }

  /**
    A whole exchange: any number of responses, redirects and interim ones included, handed line by line to a new
    store, which is then asked for the header array.
  */
  method Exchange(wire: seq<string>, after: char, moreBuckets: seq<bool>, ghost rs: seq<Response>)
    returns (store: HeaderStore, r: Flattened<string>)
    requires Carries(wire, after, AllLines(rs)) && |moreBuckets| == |wire|
    requires rs != [] && forall a :: 0 <= a < |rs| ==> |rs[a].fields| + 1 < MAX_PAIRS
    ensures var last := rs[|rs| - 1];
      && store.Valid() && store.Synced() && store.log == Log(Some(last.status), last.fields, true)
      && r != Overrun && (r == NoFields <==> last.fields == [])
      && (r.Array? ==> IsHeaderArray(NAME_KEYS, r.cells, last.fields))
  {
    NamesLawful();
    store := new HeaderStore(NAME_KEYS);
    ghost var lines := AllLines(rs);
    ghost var logs := Logs(lines);
    ResponsesCourse(rs, lines, logs);
    ReceiveFrom(store, wire, after, moreBuckets, 0, lines, logs);
    r := store.ResponseHeaders();
  }
}
