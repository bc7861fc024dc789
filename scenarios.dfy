/**
 * Concrete inputs worked through the model by proof: the decoder's own test
 * vectors, a three-line file scanned and grouped, the inputs on which the
 * scan panics, the two places where it stops early, and a line without ';'.
 */
module Scenarios {
  import opened Bytes
  import opened Decimal
  import opened Grouping
  import opened Scanner

  /** The test vectors of `test_to_decimal_int`: "25.9" decodes to 259 and "20.7" to 207. */
  lemma DecodeTestVectors()
    ensures Decodable(Ascii("25.9")) && DecimalValue(Ascii("25.9")) == 259
    ensures Decodable(Ascii("20.7")) && DecimalValue(Ascii("20.7")) == 207
  {
    assert Digits(25) == [ZERO + 2, ZERO + 5];
    assert Ascii("25.9") == Format(259);
    DecodeFormat(259);
    assert Digits(20) == [ZERO + 2, ZERO];
    assert Ascii("20.7") == Format(207);
    DecodeFormat(207);
  }

  /** The lines "A;1.0", "B;2.5" and "A;3.0"; Serialize lays them out as the file "A;1.0\nB;2.5\nA;3.0\n". */
  function Sample(): seq<Entry> {
    [Entry(Ascii("A"), Ascii("1.0")), Entry(Ascii("B"), Ascii("2.5")), Entry(Ascii("A"), Ascii("3.0"))]
  }

  lemma SampleValid()
    ensures forall k :: 0 <= k < |Sample()| ==> ValidEntry(Sample()[k])
  {
  }

  /** The sample file holds three records, so the table holds three values in all. */
  lemma SampleSize()
    ensures Scan(Serialize(Sample())).Some? && |Scan(Serialize(Sample())).value| == 3
  {
    SampleValid();
    ScanSerialize(Sample());
  }

  lemma SampleValuesA()
    ensures EntryValues(Sample(), Ascii("A")) == [Ascii("1.0"), Ascii("3.0")]
  {
    var es := Sample();
    assert es[1..] == [es[1], es[2]] && es[1..][1..] == [es[2]] && es[1..][1..][1..] == [];
    assert es[1].key != Ascii("A") by {
      assert es[1].key[0] != Ascii("A")[0];
    }
  }

  /** Scanning and grouping the sample file puts "1.0" then "3.0", in file order, under "A". */
  lemma SampleGroupA()
    ensures Scan(Serialize(Sample())).Some?
    ensures SlicesInBounds(Serialize(Sample()), Prior(GroupAll(map[], Serialize(Sample()), Scan(Serialize(Sample())).value), Ascii("A")))
    ensures SliceValues(Serialize(Sample()), Prior(GroupAll(map[], Serialize(Sample()), Scan(Serialize(Sample())).value), Ascii("A")))
         == [Ascii("1.0"), Ascii("3.0")]
  {
    SampleValid();
    GroupSerialized(Sample(), Ascii("A"));
    SampleValuesA();
  }

  lemma SampleValuesB()
    ensures EntryValues(Sample(), Ascii("B")) == [Ascii("2.5")]
  {
    var es := Sample();
    assert es[1..] == [es[1], es[2]] && es[1..][1..] == [es[2]] && es[1..][1..][1..] == [];
    assert es[0].key != Ascii("B") by {
      assert es[0].key[0] != Ascii("B")[0];
    }
    assert es[2].key != Ascii("B") by {
      assert es[2].key[0] != Ascii("B")[0];
    }
  }

  /** The one line carrying "B" gives it the one-value group ["2.5"]. */
  lemma SampleGroupB()
    ensures Scan(Serialize(Sample())).Some?
    ensures SlicesInBounds(Serialize(Sample()), Prior(GroupAll(map[], Serialize(Sample()), Scan(Serialize(Sample())).value), Ascii("B")))
    ensures SliceValues(Serialize(Sample()), Prior(GroupAll(map[], Serialize(Sample()), Scan(Serialize(Sample())).value), Ascii("B")))
         == [Ascii("2.5")]
  {
    SampleValid();
    GroupSerialized(Sample(), Ascii("B"));
    SampleValuesB();
  }

  /** No line of the sample file carries "C", so the table has no group for it. */
  lemma SampleNoC()
    ensures Scan(Serialize(Sample())).Some?
    ensures Ascii("C") !in GroupAll(map[], Serialize(Sample()), Scan(Serialize(Sample())).value)
  {
    SampleValid();
    GroupSerialized(Sample(), Ascii("C"));
    var es := Sample();
    forall k | 0 <= k < |es|
      ensures es[k].key != Ascii("C")
    {
      assert es[k].key[0] != Ascii("C")[0];
    }
  }

  /**
   * The scan panics on an empty buffer (`buf.len() - 1` underflows) and on
   * "A;1", whose value loop reads past the end looking for a '\n'.
   */
  lemma ScanPanics()
    ensures Scan([]) == None
    ensures Scan(Ascii("A;1")) == None
  {
    var buf := Ascii("A;1");
    assert Find(buf, 0, SEMI) == 1;
    assert Find(buf, 2, NL) == 3;
  }

  /** A blank line ends the scan: the line after it is never read. */
  lemma BlankLineStops()
    ensures Scan(Ascii("A;1\n\nB;2\n")) == Some([Record(Slice(0, 1), Slice(2, 3))])
  {
    var buf := Ascii("A;1\n\nB;2\n");
    assert Find(buf, 0, SEMI) == 1;
    assert Find(buf, 2, NL) == 3;
    assert RecordsFrom(buf, 4) == Some([]);
    var rec := Record(Slice(0, 1), Slice(2, 3));
    assert [rec] + [] == [rec];
  }

  /** The scan also ends once the cursor reaches the last byte, so a one-byte last line is dropped. */
  lemma LastByteStops()
    ensures Scan(Ascii("A;1\nB")) == Some([Record(Slice(0, 1), Slice(2, 3))])
  {
    var buf := Ascii("A;1\nB");
    assert Find(buf, 0, SEMI) == 1;
    assert Find(buf, 2, NL) == 3;
    assert RecordsFrom(buf, 4) == Some([]);
    var rec := Record(Slice(0, 1), Slice(2, 3));
    assert [rec] + [] == [rec];
  }

  /**
   * The key loop looks for ';' only, not '\n': a line without ';' runs on
   * into the next line, whose key then starts at the earlier line and holds
   * the '\n' between them.
   */
  lemma MissingSemicolonJoinsLines()
    ensures Scan(Ascii("AB\nC;1\n")) == Some([Record(Slice(0, 4), Slice(5, 6))])
    ensures NL in Ascii("AB\nC;1\n")[0..4]
  {
    var buf := Ascii("AB\nC;1\n");
    assert Find(buf, 0, SEMI) == 4;
    assert Find(buf, 5, NL) == 6;
    assert RecordsFrom(buf, 7) == Some([]);
    var rec := Record(Slice(0, 4), Slice(5, 6));
    assert [rec] + [] == [rec];
    assert buf[0..4][2] == NL;
  }
}
