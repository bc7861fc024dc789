/**
 * The grouping table behind `scan_data`: a `HashMap<&[u8], Vec<&[u8]>>`
 * from key bytes to the value slices seen under that key, in file order.
 * Keys are compared by content, as `&[u8]` hashing and equality do.
 */
module Grouping {
  import opened Bytes

  /** A half-open range `buf[start..end]` of the input buffer (a Rust `&[u8]` into it). */
  datatype Slice = Slice(start: nat, end: nat)

  /** One scanned line: the key slice and the value slice. */
  datatype Record = Record(key: Slice, value: Slice)

  predicate InBounds(buf: seq<u8>, s: Slice) {
    s.start <= s.end <= |buf|
  }

  function SliceBytes(buf: seq<u8>, s: Slice): seq<u8>
    requires InBounds(buf, s)
  {
    buf[s.start..s.end]
  }

  predicate RecordsInBounds(buf: seq<u8>, recs: seq<Record>) {
    forall j :: 0 <= j < |recs| ==> InBounds(buf, recs[j].key) && InBounds(buf, recs[j].value)
  }

  type Table = map<seq<u8>, seq<Slice>>

  /** The values already stored under key, or none. */
  function Prior(t: Table, key: seq<u8>): seq<Slice> {
    if key in t then t[key] else []
  }

  /**
   * One store step of `scan_data`: push onto the key's list when the key is
   * present (`get_mut` then `push`), insert a one-element list otherwise.
   */
  function Store(t: Table, key: seq<u8>, v: Slice): (r: Table)
    ensures r.Keys == t.Keys + {key}
  {
    if key in t then t[key := t[key] + [v]] else t[key := [v]]
  }

  /** A store adds key, appends v to its list and leaves every other key's list alone. */
  lemma StoreContents(t: Table, key: seq<u8>, v: Slice)
    ensures Store(t, key, v).Keys == t.Keys + {key}
    ensures Store(t, key, v)[key] == Prior(t, key) + [v]
    ensures forall k :: k in t && k != key ==> Store(t, key, v)[k] == t[k]
  {
  }

  /** The table after storing every record of recs, in order. */
  function GroupAll(t: Table, buf: seq<u8>, recs: seq<Record>): Table
    requires RecordsInBounds(buf, recs)
    decreases |recs|
  {
    if recs == [] then t
    else GroupAll(Store(t, SliceBytes(buf, recs[0].key), recs[0].value), buf, recs[1..])
  }

  lemma GroupAllCons(t: Table, buf: seq<u8>, rec: Record, rest: seq<Record>)
    requires InBounds(buf, rec.key) && InBounds(buf, rec.value) && RecordsInBounds(buf, rest)
    ensures RecordsInBounds(buf, [rec] + rest)
    ensures GroupAll(t, buf, [rec] + rest) == GroupAll(Store(t, SliceBytes(buf, rec.key), rec.value), buf, rest)
  {
    assert ([rec] + rest)[1..] == rest;
    assert forall j :: 0 <= j < |rest| ==> rest[j] == ([rec] + rest)[j + 1];
  }

  /** The value slices of the records whose key bytes equal key, in record order. */
  function ValuesOf(buf: seq<u8>, recs: seq<Record>, key: seq<u8>): seq<Slice>
    requires RecordsInBounds(buf, recs)
    decreases |recs|
  {
    if recs == [] then []
    else (if SliceBytes(buf, recs[0].key) == key then [recs[0].value] else []) + ValuesOf(buf, recs[1..], key)
  }

  predicate HasKey(buf: seq<u8>, recs: seq<Record>, key: seq<u8>)
    requires RecordsInBounds(buf, recs)
  {
    exists j :: 0 <= j < |recs| && SliceBytes(buf, recs[j].key) == key
  }

  /**
   * Grouping appends each record's value exactly once, under its key bytes,
   * after whatever the table held: each list is in file order, and a key is
   * present exactly when it was before or some record carries it.
   */
  lemma {:induction false} GroupAllContents(t: Table, buf: seq<u8>, recs: seq<Record>, key: seq<u8>)
    requires RecordsInBounds(buf, recs)
    ensures key in GroupAll(t, buf, recs) <==> key in t || HasKey(buf, recs, key)
    ensures Prior(GroupAll(t, buf, recs), key) == Prior(t, key) + ValuesOf(buf, recs, key)
    decreases |recs|
  {
    if recs != [] {
      var t' := Store(t, SliceBytes(buf, recs[0].key), recs[0].value);
      GroupAllContents(t', buf, recs[1..], key);
      var head := if SliceBytes(buf, recs[0].key) == key then [recs[0].value] else [];
      var later := ValuesOf(buf, recs[1..], key);
      assert Prior(t', key) == Prior(t, key) + head;
      assert ValuesOf(buf, recs, key) == head + later;
      assert (Prior(t, key) + head) + later == Prior(t, key) + (head + later);
      HasKeyCons(buf, recs, key);
    }
  }

  lemma HasKeyCons(buf: seq<u8>, recs: seq<Record>, key: seq<u8>)
    requires RecordsInBounds(buf, recs) && recs != []
    ensures HasKey(buf, recs, key) <==> SliceBytes(buf, recs[0].key) == key || HasKey(buf, recs[1..], key)
  {
    if HasKey(buf, recs, key) && SliceBytes(buf, recs[0].key) != key {
      var j :| 0 <= j < |recs| && SliceBytes(buf, recs[j].key) == key;
      assert recs[1..][j - 1] == recs[j];
    }
    if HasKey(buf, recs[1..], key) {
      var j :| 0 <= j < |recs[1..]| && SliceBytes(buf, recs[1..][j].key) == key;
      assert recs[j + 1] == recs[1..][j];
    }
  }

  /** a occurs in vs at an earlier position than b. */
  predicate InOrder(vs: seq<Slice>, a: Slice, b: Slice) {
    exists p, q :: 0 <= p < q < |vs| && vs[p] == a && vs[q] == b
  }

  /**
   * Lines whose key bytes are identical land in the same group, whatever
   * their offsets, and the earlier line's value comes first there.
   */
  lemma SameKeySameGroup(t: Table, buf: seq<u8>, recs: seq<Record>, i: nat, j: nat)
    requires RecordsInBounds(buf, recs)
    requires i < j < |recs| && SliceBytes(buf, recs[i].key) == SliceBytes(buf, recs[j].key)
    ensures SliceBytes(buf, recs[i].key) in GroupAll(t, buf, recs)
    ensures InOrder(GroupAll(t, buf, recs)[SliceBytes(buf, recs[i].key)], recs[i].value, recs[j].value)
  {
    var key := SliceBytes(buf, recs[i].key);
    GroupAllContents(t, buf, recs, key);
    ValuesOfSplit(buf, recs, i, j, key);
    var g := GroupAll(t, buf, recs)[key];
    var vs := ValuesOf(buf, recs, key);
    var p, q :| 0 <= p < q < |vs| && vs[p] == recs[i].value && vs[q] == recs[j].value;
    var n := |Prior(t, key)|;
    assert g == Prior(t, key) + vs;
    assert g[n + p] == vs[p] && g[n + q] == vs[q];
  }

  lemma {:induction false} ValuesOfSplit(buf: seq<u8>, recs: seq<Record>, i: nat, j: nat, key: seq<u8>)
    requires RecordsInBounds(buf, recs)
    requires i < j < |recs| && SliceBytes(buf, recs[i].key) == key && SliceBytes(buf, recs[j].key) == key
    ensures InOrder(ValuesOf(buf, recs, key), recs[i].value, recs[j].value)
    decreases |recs|
  {
    var vs := ValuesOf(buf, recs, key);
    var rest := ValuesOf(buf, recs[1..], key);
    if i == 0 {
      ValuesOfHas(buf, recs[1..], j - 1, key);
      var q :| 0 <= q < |rest| && rest[q] == recs[1..][j - 1].value;
      assert vs == [recs[0].value] + rest;
      assert vs[0] == recs[i].value && vs[q + 1] == recs[j].value;
      assert 0 <= 0 < q + 1 < |vs|;
    } else {
      ValuesOfSplit(buf, recs[1..], i - 1, j - 1, key);
      var p, q :| 0 <= p < q < |rest| && rest[p] == recs[i].value && rest[q] == recs[j].value;
      var head := if SliceBytes(buf, recs[0].key) == key then [recs[0].value] else [];
      assert vs == head + rest;
      assert vs[|head| + p] == rest[p] && vs[|head| + q] == rest[q];
      var p', q' := |head| + p, |head| + q;
      assert 0 <= p' < q' < |vs| && vs[p'] == recs[i].value && vs[q'] == recs[j].value;
    }
  }

  lemma {:induction false} ValuesOfHas(buf: seq<u8>, recs: seq<Record>, j: nat, key: seq<u8>)
    requires RecordsInBounds(buf, recs)
    requires j < |recs| && SliceBytes(buf, recs[j].key) == key
    ensures exists q :: 0 <= q < |ValuesOf(buf, recs, key)| && ValuesOf(buf, recs, key)[q] == recs[j].value
    decreases |recs|
  {
    var vs := ValuesOf(buf, recs, key);
    if j == 0 {
      assert SliceBytes(buf, recs[0].key) == key;
      assert vs == [recs[0].value] + ValuesOf(buf, recs[1..], key);
      assert 0 <= 0 < |vs| && vs[0] == recs[j].value;
    } else {
      ValuesOfHas(buf, recs[1..], j - 1, key);
      var rest := ValuesOf(buf, recs[1..], key);
      var q :| 0 <= q < |rest| && rest[q] == recs[1..][j - 1].value;
      var head := if SliceBytes(buf, recs[0].key) == key then [recs[0].value] else [];
      assert vs == head + rest;
      var q' := |head| + q;
      assert 0 <= q' < |vs| && vs[q'] == recs[j].value;
    }
  }

  /** The number of value slices stored in the table, over all keys. */
  ghost function Size(t: Table): nat
    decreases |t|
  {
    if t == map[] then 0
    else
      var k :| k in t;
      assert |t - {k}| < |t| by { assert (t - {k}).Keys == t.Keys - {k}; }
      |t[k]| + Size(t - {k})
  }

  /** Size can peel off any key, not only the one its definition picks. */
  lemma {:induction false} SizeRemove(t: Table, k: seq<u8>)
    requires k in t
    ensures Size(t) == |t[k]| + Size(t - {k})
    decreases |t|
  {
    var k' :| k' in t && Size(t) == |t[k']| + Size(t - {k'});
    if k' != k {
      assert (t - {k}).Keys == t.Keys - {k};
      assert (t - {k'}).Keys == t.Keys - {k'};
      SizeRemove(t - {k'}, k);
      SizeRemove(t - {k}, k');
      assert t - {k'} - {k} == t - {k} - {k'};
    }
  }

  /** Each store adds exactly one value to the table. */
  lemma StoreSize(t: Table, key: seq<u8>, v: Slice)
    ensures Size(Store(t, key, v)) == Size(t) + 1
  {
    var r := Store(t, key, v);
    SizeRemove(r, key);
    assert r - {key} == t - {key};
    if key in t {
      SizeRemove(t, key);
    } else {
      assert t - {key} == t;
    }
  }

  /** No value is dropped or duplicated: the table grows by exactly the number of records. */
  lemma {:induction false} GroupAllSize(t: Table, buf: seq<u8>, recs: seq<Record>)
    requires RecordsInBounds(buf, recs)
    ensures Size(GroupAll(t, buf, recs)) == Size(t) + |recs|
    decreases |recs|
  {
    if recs != [] {
      var t' := Store(t, SliceBytes(buf, recs[0].key), recs[0].value);
      StoreSize(t, SliceBytes(buf, recs[0].key), recs[0].value);
      GroupAllSize(t', buf, recs[1..]);
    }
  }

  /** Every list in the table holds at least one value, so `median` is never given an empty list. */
  lemma {:induction false} GroupAllNonEmpty(t: Table, buf: seq<u8>, recs: seq<Record>)
    requires RecordsInBounds(buf, recs)
    requires forall k :: k in t ==> |t[k]| > 0
    ensures forall k :: k in GroupAll(t, buf, recs) ==> |GroupAll(t, buf, recs)[k]| > 0
    decreases |recs|
  {
    if recs != [] {
      StoreContents(t, SliceBytes(buf, recs[0].key), recs[0].value);
      GroupAllNonEmpty(Store(t, SliceBytes(buf, recs[0].key), recs[0].value), buf, recs[1..]);
    }
  }

  /** Every value stored under key comes from a record whose key bytes are key. */
  lemma {:induction false} ValuesOfOrigin(buf: seq<u8>, recs: seq<Record>, key: seq<u8>, q: nat)
    requires RecordsInBounds(buf, recs)
    requires q < |ValuesOf(buf, recs, key)|
    ensures exists j :: 0 <= j < |recs| && recs[j].value == ValuesOf(buf, recs, key)[q]
                      && SliceBytes(buf, recs[j].key) == key
    decreases |recs|
  {
    var head := if SliceBytes(buf, recs[0].key) == key then [recs[0].value] else [];
    var rest := ValuesOf(buf, recs[1..], key);
    assert ValuesOf(buf, recs, key) == head + rest;
    if q < |head| {
      assert recs[0].value == ValuesOf(buf, recs, key)[q];
    } else {
      ValuesOfOrigin(buf, recs[1..], key, q - |head|);
      var j :| 0 <= j < |recs[1..]| && recs[1..][j].value == rest[q - |head|]
               && SliceBytes(buf, recs[1..][j].key) == key;
      assert recs[j + 1] == recs[1..][j];
    }
  }
}
