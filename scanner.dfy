/**
 * `scan_data`: one left-to-right pass over the input buffer that cuts every
 * `key;value\n` line into a key slice and a value slice and stores the value
 * under the key's bytes.
 */
module Scanner {
  import opened Bytes
  import opened Grouping

  datatype Option<T> = None | Some(value: T)

  /** The first position at or after from holding b, or |buf| when there is none. */
  function Find(buf: seq<u8>, from: nat, b: u8): (r: nat)
    requires from <= |buf|
    ensures from <= r <= |buf|
    ensures r < |buf| ==> buf[r] == b
    decreases |buf| - from
  {
    if from == |buf| || buf[from] == b then from else Find(buf, from + 1, b)
  }

  /** No position before Find's answer holds b. */
  lemma {:induction false} FindSkips(buf: seq<u8>, from: nat, b: u8)
    requires from <= |buf|
    ensures forall k :: from <= k < Find(buf, from, b) ==> buf[k] != b
    decreases |buf| - from
  {
    if from < |buf| && buf[from] != b {
      FindSkips(buf, from + 1, b);
    }
  }

  /** Find stops at the first occurrence. */
  lemma {:induction false} FindFirst(buf: seq<u8>, from: nat, j: nat, b: u8)
    requires from <= j < |buf| && buf[j] == b
    requires forall k :: from <= k < j ==> buf[k] != b
    ensures Find(buf, from, b) == j
    decreases j - from
  {
    if from < j {
      FindFirst(buf, from + 1, j, b);
    }
  }

  /** Find stops no later than any occurrence. */
  lemma {:induction false} FindBefore(buf: seq<u8>, from: nat, j: nat, b: u8)
    requires from <= j < |buf| && buf[j] == b
    ensures Find(buf, from, b) <= j
    decreases j - from
  {
    if from < j && buf[from] != b {
      FindBefore(buf, from + 1, j, b);
    }
  }

  /**
   * A record as the scanner cuts it: the key runs up to the first ';' after
   * its start, the value from just after that ';' up to the next '\n', and
   * both delimiters lie inside the buffer.
   */
  predicate ValidRecord(buf: seq<u8>, r: Record) {
    && r.key.start <= r.key.end
    && r.value.start == r.key.end + 1
    && r.value.start <= r.value.end < |buf|
    && buf[r.key.end] == SEMI
    && buf[r.value.end] == NL
    && (forall k :: r.key.start <= k < r.key.end ==> buf[k] != SEMI)
    && (forall k :: r.value.start <= k < r.value.end ==> buf[k] != NL)
  }

  /**
   * recs were read in one pass from position i: each starts where the
   * previous line ended, and each starts on a byte the loop guard and the
   * blank-line check let through.
   */
  predicate Chained(buf: seq<u8>, i: nat, recs: seq<Record>) {
    && (|recs| > 0 ==> recs[0].key.start == i)
    && (forall k :: 0 <= k < |recs| ==> ValidRecord(buf, recs[k]))
    && (forall k :: 0 <= k < |recs| ==> recs[k].key.start + 1 < |buf| && buf[recs[k].key.start] != NL)
    && (forall k :: 0 <= k < |recs| - 1 ==> recs[k + 1].key.start == recs[k].value.end + 1)
  }

  /**
   * The records the scan reads from position i on, or None where the source
   * would index past the end of the buffer: no ';' anywhere after a key
   * start, or no '\n' after that ';'. The key loop does not stop at '\n', so
   * a line without ';' runs on into the next one. The scan ends when i
   * reaches |buf| - 1 or when the byte at a key start is '\n'.
   */
  function RecordsFrom(buf: seq<u8>, i: nat): (r: Option<seq<Record>>)
    requires i <= |buf|
    ensures r.Some? ==> RecordsInBounds(buf, r.value)
    decreases |buf| - i
  {
    if i + 1 >= |buf| || buf[i] == NL then Some([])
    else
      var semi := Find(buf, i, SEMI);
      if semi == |buf| then None
      else
        var nl := Find(buf, semi + 1, NL);
        if nl == |buf| then None
        else
          match RecordsFrom(buf, nl + 1)
          case None => None
          case Some(rest) => Some([Record(Slice(i, semi), Slice(semi + 1, nl))] + rest)
  }

  /**
   * Every record the scan produces is cut at its delimiters, starts where the
   * previous line ended, and the scan stops at |buf| - 1 or at a blank line.
   */
  lemma {:induction false} RecordsFromChained(buf: seq<u8>, i: nat)
    requires i <= |buf|
    ensures RecordsFrom(buf, i).Some? ==> Chained(buf, i, RecordsFrom(buf, i).value)
    ensures (i + 1 >= |buf| || buf[i] == NL) ==> RecordsFrom(buf, i) == Some([])
    decreases |buf| - i
  {
    if !(i + 1 >= |buf| || buf[i] == NL) && RecordsFrom(buf, i).Some? {
      RecordsFromStep(buf, i);
      var semi := Find(buf, i, SEMI);
      var nl := Find(buf, semi + 1, NL);
      FindSkips(buf, i, SEMI);
      FindSkips(buf, semi + 1, NL);
      RecordsFromChained(buf, nl + 1);
      ChainedCons(buf, i, Record(Slice(i, semi), Slice(semi + 1, nl)), RecordsFrom(buf, nl + 1).value);
    }
  }

  lemma ChainedCons(buf: seq<u8>, i: nat, rec: Record, rest: seq<Record>)
    requires ValidRecord(buf, rec) && rec.key.start == i && i + 1 < |buf| && buf[i] != NL
    requires Chained(buf, rec.value.end + 1, rest)
    ensures Chained(buf, i, [rec] + rest)
  {
    var recs := [rec] + rest;
    forall k | 0 <= k < |recs|
      ensures ValidRecord(buf, recs[k])
      ensures recs[k].key.start + 1 < |buf| && buf[recs[k].key.start] != NL
    {
      if k > 0 {
        assert recs[k] == rest[k - 1];
      }
    }
    forall k | 0 <= k < |recs| - 1
      ensures recs[k + 1].key.start == recs[k].value.end + 1
    {
      if k > 0 {
        assert recs[k] == rest[k - 1] && recs[k + 1] == rest[k];
      }
    }
  }

  /** One line of the scan: the record cut at position i, followed by the records after its '\n'. */
  lemma RecordsFromStep(buf: seq<u8>, i: nat)
    requires i <= |buf| && RecordsFrom(buf, i).Some?
    requires i + 1 < |buf| && buf[i] != NL
    ensures Find(buf, i, SEMI) < |buf|
    ensures Find(buf, Find(buf, i, SEMI) + 1, NL) < |buf|
    ensures RecordsFrom(buf, Find(buf, Find(buf, i, SEMI) + 1, NL) + 1).Some?
    ensures RecordsFrom(buf, i).value
         == [Record(Slice(i, Find(buf, i, SEMI)), Slice(Find(buf, i, SEMI) + 1, Find(buf, Find(buf, i, SEMI) + 1, NL)))]
            + RecordsFrom(buf, Find(buf, Find(buf, i, SEMI) + 1, NL) + 1).value
  {
  }

  /** The records of the whole buffer; an empty buffer fails, as `buf.len() - 1` underflows. */
  function Scan(buf: seq<u8>): Option<seq<Record>> {
    if |buf| == 0 then None else RecordsFrom(buf, 0)
  }

  /**
   * src/main.rs `scan_data`. The precondition is exactly the condition under
   * which the source neither underflows `buf.len() - 1` nor indexes past the
   * end of the buffer; WellFormedScans gives a readable sufficient condition.
   * The table is moved in and returned, as in the source.
   */
  method ScanData(buf: seq<u8>, table: Table) returns (result: Table)
    requires Scan(buf).Some?
    ensures result == GroupAll(table, buf, Scan(buf).value)
  {
    ghost var target := GroupAll(table, buf, Scan(buf).value);
    ghost var recs := Scan(buf).value;
    result := table;
    var i: nat := 0;
    while i < |buf| - 1
      invariant i <= |buf| && RecordsFrom(buf, i) == Some(recs)
      invariant RecordsInBounds(buf, recs) && GroupAll(result, buf, recs) == target
      decreases |buf| - i
    {
      if buf[i] == NL {
        break;
      }
      result, i, recs := ScanRecord(buf, i, result, recs);
    }
  }

  /**
   * The body of the outer loop of `scan_data`: cut the record at keyStart,
   * store exactly its key and value, and move the cursor just past its '\n';
   * the records still to scan are the ones after it.
   */
  method ScanRecord(buf: seq<u8>, keyStart: nat, t: Table, ghost recs: seq<Record>)
    returns (r: Table, next: nat, ghost rest: seq<Record>)
    requires keyStart + 1 < |buf| && buf[keyStart] != NL
    requires RecordsFrom(buf, keyStart) == Some(recs) && RecordsInBounds(buf, recs)
    ensures Find(buf, keyStart, SEMI) < |buf|
    ensures next == Find(buf, Find(buf, keyStart, SEMI) + 1, NL) + 1 <= |buf| && buf[next - 1] == NL
    ensures r == Store(t, buf[keyStart..Find(buf, keyStart, SEMI)], Slice(Find(buf, keyStart, SEMI) + 1, next - 1))
    ensures recs == [Record(Slice(keyStart, Find(buf, keyStart, SEMI)), Slice(Find(buf, keyStart, SEMI) + 1, next - 1))] + rest
    ensures RecordsFrom(buf, next) == Some(rest) && RecordsInBounds(buf, rest)
    ensures GroupAll(r, buf, rest) == GroupAll(t, buf, recs)
  {
    var semi, nl := ScanLineBounds(buf, keyStart);
    rest := ScanDataStep(t, buf, keyStart, recs, semi, nl);

    // Store key/value
    var key := buf[keyStart..semi];
    var val := Slice(semi + 1, nl);
    r := Store(t, key, val);
    next := nl + 1;
  }

  /**
   * One iteration of the outer loop of `scan_data`, on the specification side:
   * the record starting at i is stored, and rest are the records after it.
   */
  lemma ScanDataStep(t: Table, buf: seq<u8>, i: nat, recs: seq<Record>, semi: nat, nl: nat) returns (rest: seq<Record>)
    requires i + 1 < |buf| && buf[i] != NL && RecordsFrom(buf, i) == Some(recs)
    requires semi == Find(buf, i, SEMI) < |buf| && nl == Find(buf, semi + 1, NL) < |buf|
    requires RecordsInBounds(buf, recs)
    ensures RecordsFrom(buf, nl + 1) == Some(rest) && RecordsInBounds(buf, rest)
    ensures recs == [Record(Slice(i, semi), Slice(semi + 1, nl))] + rest
    ensures GroupAll(Store(t, buf[i..semi], Slice(semi + 1, nl)), buf, rest) == GroupAll(t, buf, recs)
  {
    RecordsFromStep(buf, i);
    rest := RecordsFrom(buf, nl + 1).value;
    GroupAllCons(t, buf, Record(Slice(i, semi), Slice(semi + 1, nl)), rest);
  }

  /**
   * The two inner loops of `scan_data`: walk the key up to its ';', then the
   * value up to its '\n'. Returns the positions of both delimiters.
   */
  method ScanLineBounds(buf: seq<u8>, keyStart: nat) returns (semi: nat, nl: nat)
    requires keyStart + 1 < |buf| && buf[keyStart] != NL && RecordsFrom(buf, keyStart).Some?
    ensures semi == Find(buf, keyStart, SEMI) < |buf| && nl == Find(buf, semi + 1, NL) < |buf|
  {
    RecordsFromStep(buf, keyStart);
    ghost var s := Find(buf, keyStart, SEMI);
    ghost var n := Find(buf, s + 1, NL);
    FindSkips(buf, keyStart, SEMI);
    FindSkips(buf, s + 1, NL);
    // Scan key
    var i := keyStart;
    var c := buf[i];
    while c != SEMI
      invariant keyStart <= i <= s && c == buf[i]
      decreases s - i
    {
      i := i + 1;
      c := buf[i];
    }
    semi := i;
    i := i + 1;
    c := buf[i];

    // Scan value
    while c != NL
      invariant semi + 1 <= i <= n && c == buf[i]
      decreases n - i
    {
      i := i + 1;
      c := buf[i];
    }
    nl := i;
  }

  /** A line start: the buffer's first byte, or a byte just after a '\n'. */
  predicate LineStart(buf: seq<u8>, s: nat) {
    s == 0 || (0 < s <= |buf| && buf[s - 1] == NL)
  }

  /** From s on, a ';' comes before any '\n'. */
  ghost predicate DelimitedLine(buf: seq<u8>, s: nat) {
    exists j :: s <= j < |buf| && buf[j] == SEMI && forall k :: s <= k < j ==> buf[k] != NL
  }

  /**
   * The input grammar: a non-empty buffer that ends in '\n' and whose every
   * non-blank line holds a ';' (a blank line ends the scan).
   */
  ghost predicate WellFormed(buf: seq<u8>) {
    && |buf| > 0
    && buf[|buf| - 1] == NL
    && forall s :: 0 <= s < |buf| && LineStart(buf, s) && buf[s] != NL ==> DelimitedLine(buf, s)
  }

  predicate KeyFreeOfNewline(buf: seq<u8>, r: Record)
    requires r.key.start <= r.key.end <= |buf|
  {
    forall k :: r.key.start <= k < r.key.end ==> buf[k] != NL
  }

  /**
   * On a well-formed buffer the scan never reads out of bounds, and every key
   * lies within one line.
   */
  lemma WellFormedScans(buf: seq<u8>)
    requires WellFormed(buf)
    ensures Scan(buf).Some?
    ensures KeysFreeOfNewline(buf, Scan(buf).value)
  {
    WellFormedFrom(buf, 0);
  }

  lemma {:induction false} WellFormedFrom(buf: seq<u8>, i: nat)
    requires WellFormed(buf) && i <= |buf| && LineStart(buf, i)
    ensures RecordsFrom(buf, i).Some?
    ensures KeysFreeOfNewline(buf, RecordsFrom(buf, i).value)
    decreases |buf| - i
  {
    if !(i + 1 >= |buf| || buf[i] == NL) {
      assert DelimitedLine(buf, i);
      WellFormedLine(buf, i);
      var semi := Find(buf, i, SEMI);
      var nl := Find(buf, semi + 1, NL);
      WellFormedFrom(buf, nl + 1);
      var rest := RecordsFrom(buf, nl + 1).value;
      var rec := Record(Slice(i, semi), Slice(semi + 1, nl));
      assert RecordsFrom(buf, i).value == [rec] + rest;
      KeysFreeCons(buf, rec, rest);
    }
  }

  /** In a buffer ending in '\n', a line whose ';' comes before any '\n' has both delimiters, and the next line starts after it. */
  lemma WellFormedLine(buf: seq<u8>, i: nat)
    requires i + 1 < |buf| && buf[|buf| - 1] == NL && DelimitedLine(buf, i)
    ensures Find(buf, i, SEMI) < |buf|
    ensures Find(buf, Find(buf, i, SEMI) + 1, NL) < |buf|
    ensures LineStart(buf, Find(buf, Find(buf, i, SEMI) + 1, NL) + 1)
    ensures forall k :: i <= k < Find(buf, i, SEMI) ==> buf[k] != NL
  {
    var j :| i <= j < |buf| && buf[j] == SEMI && forall k :: i <= k < j ==> buf[k] != NL;
    FindBefore(buf, i, j, SEMI);
    var semi := Find(buf, i, SEMI);
    assert semi < |buf| - 1 by {
      assert buf[semi] == SEMI && buf[|buf| - 1] == NL;
    }
    FindBefore(buf, semi + 1, |buf| - 1, NL);
  }

  predicate KeysFreeOfNewline(buf: seq<u8>, recs: seq<Record>)
    requires RecordsInBounds(buf, recs)
  {
    forall k :: 0 <= k < |recs| ==> KeyFreeOfNewline(buf, recs[k])
  }

  lemma KeysFreeCons(buf: seq<u8>, rec: Record, rest: seq<Record>)
    requires InBounds(buf, rec.key) && InBounds(buf, rec.value) && RecordsInBounds(buf, rest)
    requires KeyFreeOfNewline(buf, rec) && KeysFreeOfNewline(buf, rest)
    ensures RecordsInBounds(buf, [rec] + rest)
    ensures KeysFreeOfNewline(buf, [rec] + rest)
  {
    forall k | 0 <= k < |[rec] + rest|
      ensures KeyFreeOfNewline(buf, ([rec] + rest)[k])
    {
      if k > 0 {
        assert ([rec] + rest)[k] == rest[k - 1];
      }
    }
  }

  /** A line of the input as the source's data file holds it. */
  datatype Entry = Entry(key: seq<u8>, value: seq<u8>)

  /** A key free of ';' and '\n' and a value free of '\n'. */
  predicate ValidEntry(e: Entry) {
    SEMI !in e.key && NL !in e.key && NL !in e.value
  }

  function Line(e: Entry): seq<u8> {
    e.key + [SEMI] + e.value + [NL]
  }

  /** The buffer holding the entries, one `key;value\n` line each. */
  function Serialize(es: seq<Entry>): seq<u8> {
    if es == [] then [] else Line(es[0]) + Serialize(es[1..])
  }

  /** The key and value bytes the records point at. */
  function EntriesOf(buf: seq<u8>, recs: seq<Record>): (es: seq<Entry>)
    requires RecordsInBounds(buf, recs)
    ensures |es| == |recs|
    decreases |recs|
  {
    if recs == [] then []
    else [Entry(SliceBytes(buf, recs[0].key), SliceBytes(buf, recs[0].value))] + EntriesOf(buf, recs[1..])
  }

  /**
   * Scanning a serialized file gives back its lines: each key slice holds
   * exactly the key bytes and each value slice exactly the value bytes.
   */
  lemma ScanSerialize(es: seq<Entry>)
    requires es != [] && forall k :: 0 <= k < |es| ==> ValidEntry(es[k])
    ensures Scan(Serialize(es)).Some?
    ensures EntriesOf(Serialize(es), Scan(Serialize(es)).value) == es
  {
    assert Serialize(es) == [] + Serialize(es);
    RecordsFromSerialized([], es, Serialize(es));
  }

  lemma LineParts(e: Entry)
    ensures Line(e)[..|e.key|] == e.key
    ensures Line(e)[|e.key|] == SEMI
    ensures Line(e)[|e.key| + 1..|Line(e)| - 1] == e.value
    ensures Line(e)[|Line(e)| - 1] == NL
  {
    var L := Line(e);
    assert L == e.key + ([SEMI] + e.value + [NL]);
    assert L == (e.key + [SEMI] + e.value) + [NL];
    assert (e.key + [SEMI] + e.value) == (e.key + [SEMI]) + e.value;
  }

  /** A run of bytes free of b followed by b makes Find stop right after the run. */
  lemma FindAfterRun(buf: seq<u8>, i: nat, run: seq<u8>, b: u8)
    requires i + |run| < |buf| && buf[i..i + |run|] == run && buf[i + |run|] == b
    requires b !in run
    ensures Find(buf, i, b) == i + |run|
  {
    forall k | i <= k < i + |run|
      ensures buf[k] != b
    {
      assert buf[k] == buf[i..i + |run|][k - i];
    }
    FindFirst(buf, i, i + |run|, b);
  }

  /** The four pieces of a line laid out at position i. */
  predicate LaidOut(buf: seq<u8>, i: nat, e: Entry) {
    && i + |e.key| + |e.value| + 2 <= |buf|
    && buf[i..i + |e.key|] == e.key
    && buf[i + |e.key|] == SEMI
    && buf[i + |e.key| + 1..i + |e.key| + 1 + |e.value|] == e.value
    && buf[i + |e.key| + 1 + |e.value|] == NL
  }

  lemma LineLayout(buf: seq<u8>, i: nat, e: Entry)
    requires i + |Line(e)| <= |buf| && buf[i..i + |Line(e)|] == Line(e)
    ensures LaidOut(buf, i, e)
  {
    var L, ks, vs := Line(e), |e.key|, |e.value|;
    var w := buf[i..i + |L|];
    LineParts(e);
    assert buf[i..i + ks] == w[..ks];
    assert buf[i + ks + 1..i + ks + 1 + vs] == w[ks + 1..|L| - 1];
    assert buf[i + ks] == w[ks];
    assert buf[i + |L| - 1] == w[|L| - 1];
  }

  /** Where the scan cuts a line laid out at position i. */
  lemma ScanLine(buf: seq<u8>, i: nat, e: Entry)
    requires ValidEntry(e) && LaidOut(buf, i, e)
    ensures Find(buf, i, SEMI) == i + |e.key|
    ensures Find(buf, i + |e.key| + 1, NL) == i + |e.key| + 1 + |e.value|
    ensures i + 1 < |buf| && buf[i] != NL
  {
    FindAfterRun(buf, i, e.key, SEMI);
    FindAfterRun(buf, i + |e.key| + 1, e.value, NL);
    if |e.key| > 0 {
      assert buf[i] == buf[i..i + |e.key|][0];
    }
  }

  lemma {:induction false} RecordsFromSerialized(prefix: seq<u8>, es: seq<Entry>, buf: seq<u8>)
    requires forall k :: 0 <= k < |es| ==> ValidEntry(es[k])
    requires buf == prefix + Serialize(es)
    ensures RecordsFrom(buf, |prefix|).Some?
    ensures EntriesOf(buf, RecordsFrom(buf, |prefix|).value) == es
    decreases |es|
  {
    if es != [] {
      var e, i := es[0], |prefix|;
      var L := Line(e);
      assert buf == (prefix + L) + Serialize(es[1..]);
      assert buf[i..i + |L|] == L;
      LineLayout(buf, i, e);
      RecordsFromSerialized(prefix + L, es[1..], buf);
      assert |prefix + L| == i + |L|;
      var rest := RecordsFrom(buf, i + |L|).value;
      RecordsFromLine(buf, i, e);
      EntriesOfCons(buf, Record(Slice(i, i + |e.key|), Slice(i + |e.key| + 1, i + |L| - 1)), rest);
      assert es == [e] + es[1..];
    }
  }

  /** The scan of a line laid out at i is one record over its key and value, then the rest. */
  lemma RecordsFromLine(buf: seq<u8>, i: nat, e: Entry)
    requires ValidEntry(e) && LaidOut(buf, i, e) && RecordsFrom(buf, i + |Line(e)|).Some?
    ensures RecordsFrom(buf, i).Some?
    ensures RecordsFrom(buf, i).value
         == [Record(Slice(i, i + |e.key|), Slice(i + |e.key| + 1, i + |Line(e)| - 1))] + RecordsFrom(buf, i + |Line(e)|).value
    ensures SliceBytes(buf, Slice(i, i + |e.key|)) == e.key
    ensures SliceBytes(buf, Slice(i + |e.key| + 1, i + |Line(e)| - 1)) == e.value
  {
    ScanLine(buf, i, e);
  }

  lemma EntriesOfCons(buf: seq<u8>, rec: Record, rest: seq<Record>)
    requires InBounds(buf, rec.key) && InBounds(buf, rec.value) && RecordsInBounds(buf, rest)
    ensures RecordsInBounds(buf, [rec] + rest)
    ensures EntriesOf(buf, [rec] + rest) == [Entry(SliceBytes(buf, rec.key), SliceBytes(buf, rec.value))] + EntriesOf(buf, rest)
  {
    assert ([rec] + rest)[1..] == rest;
    assert forall j :: 0 <= j < |rest| ==> rest[j] == ([rec] + rest)[j + 1];
  }

  /** The values of the entries whose key is key, in order. */
  function EntryValues(es: seq<Entry>, key: seq<u8>): seq<seq<u8>> {
    if es == [] then []
    else (if es[0].key == key then [es[0].value] else []) + EntryValues(es[1..], key)
  }

  predicate SlicesInBounds(buf: seq<u8>, vs: seq<Slice>) {
    forall q :: 0 <= q < |vs| ==> InBounds(buf, vs[q])
  }

  /** The bytes each slice points at. */
  function SliceValues(buf: seq<u8>, vs: seq<Slice>): seq<seq<u8>>
    requires SlicesInBounds(buf, vs)
    decreases |vs|
  {
    if vs == [] then [] else [SliceBytes(buf, vs[0])] + SliceValues(buf, vs[1..])
  }

  /** Reading back the slices grouped under key gives the values of the records with that key. */
  lemma {:induction false} ValuesOfEntries(buf: seq<u8>, recs: seq<Record>, key: seq<u8>)
    requires RecordsInBounds(buf, recs)
    ensures SlicesInBounds(buf, ValuesOf(buf, recs, key))
    ensures SliceValues(buf, ValuesOf(buf, recs, key)) == EntryValues(EntriesOf(buf, recs), key)
    decreases |recs|
  {
    if recs != [] {
      ValuesOfEntries(buf, recs[1..], key);
      var rest := ValuesOf(buf, recs[1..], key);
      var es := EntriesOf(buf, recs);
      var e := Entry(SliceBytes(buf, recs[0].key), SliceBytes(buf, recs[0].value));
      assert es == [e] + EntriesOf(buf, recs[1..]);
      assert es[0] == e && es[1..] == EntriesOf(buf, recs[1..]);
      if e.key == key {
        var vs := [recs[0].value] + rest;
        assert ValuesOf(buf, recs, key) == vs;
        assert vs[0] == recs[0].value && vs[1..] == rest;
        assert SliceValues(buf, vs) == [e.value] + SliceValues(buf, rest);
      } else {
        assert ValuesOf(buf, recs, key) == rest;
      }
    }
  }

  /** The entry at position k holds the bytes of the record at position k. */
  lemma {:induction false} EntriesOfIndex(buf: seq<u8>, recs: seq<Record>, k: nat)
    requires RecordsInBounds(buf, recs) && k < |recs|
    ensures EntriesOf(buf, recs)[k] == Entry(SliceBytes(buf, recs[k].key), SliceBytes(buf, recs[k].value))
    decreases k
  {
    if k > 0 {
      EntriesOfIndex(buf, recs[1..], k - 1);
      assert recs[1..][k - 1] == recs[k];
    }
  }

  predicate EntriesHaveKey(es: seq<Entry>, key: seq<u8>) {
    exists k :: 0 <= k < |es| && es[k].key == key
  }

  /** A key occurs among the records exactly when it occurs among the entries they denote. */
  lemma HasKeyEntries(buf: seq<u8>, recs: seq<Record>, key: seq<u8>)
    requires RecordsInBounds(buf, recs)
    ensures HasKey(buf, recs, key) <==> EntriesHaveKey(EntriesOf(buf, recs), key)
  {
    var es := EntriesOf(buf, recs);
    if HasKey(buf, recs, key) {
      var j :| 0 <= j < |recs| && SliceBytes(buf, recs[j].key) == key;
      EntriesOfIndex(buf, recs, j);
      assert es[j].key == key;
    }
    if EntriesHaveKey(es, key) {
      var k :| 0 <= k < |es| && es[k].key == key;
      EntriesOfIndex(buf, recs, k);
      assert SliceBytes(buf, recs[k].key) == key;
    }
  }

  /**
   * Scanning and grouping a serialized file: a key has a group exactly when
   * some line carries it, and its group reads back as that key's values in
   * file order.
   */
  lemma GroupSerialized(es: seq<Entry>, key: seq<u8>)
    requires es != [] && forall k :: 0 <= k < |es| ==> ValidEntry(es[k])
    ensures Scan(Serialize(es)).Some?
    ensures key in GroupAll(map[], Serialize(es), Scan(Serialize(es)).value) <==> EntriesHaveKey(es, key)
    ensures SlicesInBounds(Serialize(es), Prior(GroupAll(map[], Serialize(es), Scan(Serialize(es)).value), key))
    ensures SliceValues(Serialize(es), Prior(GroupAll(map[], Serialize(es), Scan(Serialize(es)).value), key)) == EntryValues(es, key)
  {
    var buf := Serialize(es);
    ScanSerialize(es);
    var recs := Scan(buf).value;
    GroupAllContents(map[], buf, recs, key);
    ValuesOfEntries(buf, recs, key);
    HasKeyEntries(buf, recs, key);
    assert Prior(map[], key) == [];
    assert Prior(GroupAll(map[], buf, recs), key) == ValuesOf(buf, recs, key);
    assert EntriesOf(buf, recs) == es;
  }

  /** A value slice ending just before a '\n' inside the buffer, with no '\n' in it. */
  predicate StoredValue(buf: seq<u8>, v: Slice) {
    v.start <= v.end < |buf| && buf[v.end] == NL && NL !in buf[v.start..v.end]
  }

  /**
   * What a fresh table holds after a scan: every key is the bytes before a
   * ';' and contains no ';', and every stored value slice ends just before a
   * '\n' inside the buffer and contains no '\n'.
   */
  lemma ScannedTable(buf: seq<u8>)
    requires Scan(buf).Some?
    ensures forall key :: key in GroupAll(map[], buf, Scan(buf).value) ==> SEMI !in key
    ensures forall key, q :: key in GroupAll(map[], buf, Scan(buf).value) && 0 <= q < |GroupAll(map[], buf, Scan(buf).value)[key]| ==>
      StoredValue(buf, GroupAll(map[], buf, Scan(buf).value)[key][q])
  {
    var recs := Scan(buf).value;
    RecordsFromChained(buf, 0);
    forall key | key in GroupAll(map[], buf, recs)
      ensures SEMI !in key
    {
      ScannedKey(buf, recs, key);
    }
    forall key: seq<u8>, q: nat | key in GroupAll(map[], buf, recs) && q < |GroupAll(map[], buf, recs)[key]|
      ensures StoredValue(buf, GroupAll(map[], buf, recs)[key][q])
    {
      ScannedValue(buf, recs, key, q);
    }
  }

  lemma ScannedKey(buf: seq<u8>, recs: seq<Record>, key: seq<u8>)
    requires RecordsInBounds(buf, recs) && Chained(buf, 0, recs)
    requires key in GroupAll(map[], buf, recs)
    ensures SEMI !in key
  {
    GroupAllContents(map[], buf, recs, key);
    var j :| 0 <= j < |recs| && SliceBytes(buf, recs[j].key) == key;
    assert ValidRecord(buf, recs[j]);
  }

  lemma ScannedValue(buf: seq<u8>, recs: seq<Record>, key: seq<u8>, q: nat)
    requires RecordsInBounds(buf, recs) && Chained(buf, 0, recs)
    requires key in GroupAll(map[], buf, recs) && q < |GroupAll(map[], buf, recs)[key]|
    ensures StoredValue(buf, GroupAll(map[], buf, recs)[key][q])
  {
    GroupAllContents(map[], buf, recs, key);
    assert GroupAll(map[], buf, recs)[key] == ValuesOf(buf, recs, key);
    ValuesOfOrigin(buf, recs, key, q);
    var j :| 0 <= j < |recs| && recs[j].value == ValuesOf(buf, recs, key)[q] && SliceBytes(buf, recs[j].key) == key;
    ValidRecordStored(buf, recs[j]);
  }

  lemma ValidRecordStored(buf: seq<u8>, r: Record)
    requires ValidRecord(buf, r)
    ensures StoredValue(buf, r.value)
  {
    forall k | 0 <= k < r.value.end - r.value.start
      ensures buf[r.value.start..r.value.end][k] != NL
    {
      assert buf[r.value.start..r.value.end][k] == buf[r.value.start + k];
    }
  }
}
