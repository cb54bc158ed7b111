/** Response headers from the wire to the Java map: the native store, its array, and the decoder together. */
module RoundTrip {
  import opened Hashing
  import opened Options
  import opened Table
  import opened HeaderArray
  import opened HeaderLine
  import opened HeaderStore
  import opened HeaderExchange
  import opened HeaderIndex
  import opened JavaHeaders

  lemma {:induction false} SameValues(fields: seq<NameValue>, a: string, b: string)
    requires EqualFold(a, b)
    ensures ValuesOf(NAME_KEYS, fields, a) == ValuesOf(NAME_KEYS, fields, b)
    ensures FirstName(NAME_KEYS, fields, a) == FirstName(NAME_KEYS, fields, b)
  {
    if fields != [] {
      SameValues(fields[..|fields| - 1], a, b);
    }
  }

  lemma {:induction false} NoValues(fields: seq<NameValue>, k: string)
    requires forall n :: 0 <= n < |fields| ==> !EqualFold(fields[n].0, k)
    ensures ValuesOf(NAME_KEYS, fields, k) == [] && FirstName(NAME_KEYS, fields, k) == None
  {
    if fields != [] {
      NoValues(fields[..|fields| - 1], k);
    }
  }

  lemma {:induction false} LastOfOnly(fs: seq<(string, seq<Cell>)>, i: nat, k: string)
    requires i < |fs| && EqualFold(fs[i].0, k) && forall j :: 0 <= j < |fs| && j != i ==> !EqualFold(fs[j].0, k)
    ensures LastOf(fs, Fold(k)) == fs[i].1 && LastName(fs, Fold(k)) == Some(fs[i].0)
  {
    var n := |fs| - 1;
    FoldIsEqualFold(fs[n].0, k);
    if i < n {
      LastOfOnly(fs[..n], i, k);
    }
  }

  lemma {:induction false} LastOfNone(fs: seq<(string, seq<Cell>)>, k: string)
    requires forall j :: 0 <= j < |fs| ==> !EqualFold(fs[j].0, k)
    ensures LastOf(fs, Fold(k)) == [] && LastName(fs, Fold(k)) == None
  {
    if fs != [] {
      var n := |fs| - 1;
      FoldIsEqualFold(fs[n].0, k);
      LastOfNone(fs[..n], k);
    }
  }

  /**
    Looking a name up in the map of a decoded array gives the values of that name in the response, in order of arrival,
    under the name as it was first spelled there.
  */
  lemma {:induction false} LookupIsValues(fs: seq<(string, seq<Cell>)>, fields: seq<NameValue>, k: string)
    requires IsHeaderMap(NAME_KEYS, fs, fields)
    ensures LastOf(fs, Fold(k)) == Somes(ValuesOf(NAME_KEYS, fields, k))
    ensures LastName(fs, Fold(k)) == FirstName(NAME_KEYS, fields, k)
  {
    if i :| 0 <= i < |fs| && EqualFold(fs[i].0, k) {
      forall j | 0 <= j < |fs| && j != i ensures !EqualFold(fs[j].0, k) {
        assert !NAME_KEYS.equals(fs[if i < j then i else j].0, fs[if i < j then j else i].0);
      }
      LastOfOnly(fs, i, k);
      SameValues(fields, fs[i].0, k);
    } else {
      LastOfNone(fs, k);
      forall n | 0 <= n < |fields| ensures !EqualFold(fields[n].0, k) {
        assert Contains(NAME_KEYS, fs, fields[n].0);
      }
      NoValues(fields, k);
    }
  }

  /**
    The map of a response: for every name its values in order of arrival, under the name as it was first spelled; and
    there is an entry for nothing else.
  */
  ghost predicate IsMapOfResponse(m: HeaderMap<Cell>, r: Response)
    reads m, m.container.Values
  {
    && m.Valid()
    && (forall k :: m.Contents(Fold(k)) == Somes(ValuesOf(NAME_KEYS, r.fields, k)))
    && (forall k :: m.Spelled(Fold(k)) == FirstName(NAME_KEYS, r.fields, k))
  }

  /** So the keys of its entries are names that arrived, one for every name up to case. */
  lemma {:induction false} EntryKeysArrived(m: HeaderMap<Cell>, r: Response, j: string)
    requires IsMapOfResponse(m, r) && j in m.container
    ensures exists n :: 0 <= n < |r.fields| && r.fields[n].0 == m.container[j].key && Fold(r.fields[n].0) == j
  {
    var key := m.container[j].key;
    assert m.Spelled(Fold(key)) == Some(key);
    FirstNameArrived(r.fields, key);
  }

  lemma {:induction false} FirstNameArrived(fields: seq<NameValue>, k: string)
    requires FirstName(NAME_KEYS, fields, k).Some?
    ensures exists n :: 0 <= n < |fields| && fields[n].0 == FirstName(NAME_KEYS, fields, k).value
    ensures EqualFold(FirstName(NAME_KEYS, fields, k).value, k)
  {
    var n := |fields| - 1;
    if FirstName(NAME_KEYS, fields[..n], k).Some? {
      FirstNameArrived(fields[..n], k);
      var i :| 0 <= i < n && fields[..n][i].0 == FirstName(NAME_KEYS, fields[..n], k).value;
      assert fields[i] == fields[..n][i];
    } else {
      assert fields[n].0 == FirstName(NAME_KEYS, fields, k).value;
    }
  }

  lemma {:induction false} ArrivedHasEntry(m: HeaderMap<Cell>, r: Response, n: nat)
    requires IsMapOfResponse(m, r) && n < |r.fields|
    ensures Fold(r.fields[n].0) in m.container && EqualFold(m.container[Fold(r.fields[n].0)].key, r.fields[n].0)
  {
    var k := r.fields[n].0;
    FirstNameExists(r.fields, n);
    assert m.Spelled(Fold(k)) == FirstName(NAME_KEYS, r.fields, k);
    FirstNameArrived(r.fields, k);
  }

  lemma {:induction false} FirstNameExists(fields: seq<NameValue>, n: nat)
    requires n < |fields|
    ensures FirstName(NAME_KEYS, fields, fields[n].0).Some?
  {
    if n < |fields| - 1 { FirstNameExists(fields[..|fields| - 1], n); }
  }

  /**
    getHeaderFields after any number of responses: the map of the last one.
  */
  method FetchHeaders(wire: seq<string>, after: char, moreBuckets: seq<bool>, ghost rs: seq<Response>)
    returns (m: HeaderMap<Cell>)
    requires Carries(wire, after, AllLines(rs)) && |moreBuckets| == |wire|
    requires rs != [] && forall a :: 0 <= a < |rs| ==> |rs[a].fields| + 1 < MAX_PAIRS
    ensures IsMapOfResponse(m, rs[|rs| - 1])
  {
    var store, r := Exchange(wire, after, moreBuckets, rs);
    ghost var fields := rs[|rs| - 1].fields;
    if r == NoFields {
      m := new HeaderMap();
      return;
    }
    var ok;
    m, ok := JavaHeaders.HeaderFields(r.cells);
    forall k ensures m.Contents(Fold(k)) == Somes(ValuesOf(NAME_KEYS, fields, k)) &&
      m.Spelled(Fold(k)) == FirstName(NAME_KEYS, fields, k) {
      LookupIsValues(DecodeFrom(r.cells, 0).fields, fields, k);
    }
  }

  // ---------------------------------------------------------------- from printed lines

  /** The text is printed from the lines, each of which survives printing. */
  ghost predicate Printed(wire: seq<string>, lines: seq<Line>)
  {
    |wire| == |lines| && forall i :: 0 <= i < |lines| ==> Printable(lines[i]) && Prints(wire[i], lines[i])
  }

  lemma {:induction false} PrintedCarries(wire: seq<string>, after: char, lines: seq<Line>)
    requires Printed(wire, lines) && IsBlank(after)
    ensures Carries(wire, after, lines)
  {
    forall i | 0 <= i < |wire| ensures (|wire[i]| >= 2 || ':' in wire[i]) && Read(wire[i], after) == lines[i] {
      PrintedIsRead(wire[i], lines[i], after);
    }
  }

  /**
    The round trip: responses printed to header lines with any spacing, parsed, indexed, written out as one array and
    decoded, give the map of the last response.
  */
  method PrintAndFetch(wire: seq<string>, after: char, moreBuckets: seq<bool>, ghost rs: seq<Response>)
    returns (m: HeaderMap<Cell>)
    requires Printed(wire, AllLines(rs)) && IsBlank(after) && |moreBuckets| == |wire|
    requires rs != [] && forall a :: 0 <= a < |rs| ==> |rs[a].fields| + 1 < MAX_PAIRS
    ensures IsMapOfResponse(m, rs[|rs| - 1])
  {
    PrintedCarries(wire, after, AllLines(rs));
    m := FetchHeaders(wire, after, moreBuckets, rs);
  }
}
