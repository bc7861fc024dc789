/**
 * The per-group statistics of `billion_row_challenge`: the minimum and
 * maximum decoded reading of a group (src/main.rs:104-118) and the middle
 * element rule of `median` (src/main.rs:43-57). Readings are decoded
 * tenths; a median is kept at twice its value so that the mean of the two
 * middle elements of an even-length list stays an integer.
 */
module Statistics {
  import opened Bytes
  import opened Decimal
  import opened Grouping

  /** Every value slice of the group lies in the buffer and decodes without overflow. */
  predicate GroupDecodable(buf: seq<u8>, group: seq<Slice>) {
    forall k :: 0 <= k < |group| ==> InBounds(buf, group[k]) && Decodable(SliceBytes(buf, group[k]))
  }

  /** The decoded reading of one value slice. */
  function Reading(buf: seq<u8>, v: Slice): nat
    requires InBounds(buf, v) && DigitsAndDots(SliceBytes(buf, v))
  {
    DecimalValue(SliceBytes(buf, v))
  }

  /** The decoded readings of a group, in list order. */
  function GroupReadings(buf: seq<u8>, group: seq<Slice>): seq<nat>
    requires GroupDecodable(buf, group)
  {
    seq(|group|, k requires 0 <= k < |group| => Reading(buf, group[k]))
  }

  /**
   * The median of a group lies between the group's extremes as the min/max
   * loop computes them.
   */
  lemma GroupMedianWithinExtremes(buf: seq<u8>, group: seq<Slice>, min: u32, max: u32)
    requires GroupDecodable(buf, group) && |group| > 0
    requires forall k :: 0 <= k < |group| ==> min as int <= Reading(buf, group[k]) <= max as int
    ensures 2 * min as int <= MedianTwice(GroupReadings(buf, group)) <= 2 * max as int
  {
    MedianWithinExtremes(GroupReadings(buf, group), min as nat, max as nat);
  }

  /**
   * The inner loop of `billion_row_challenge` for one group: start from
   * `u32::MAX` and `u32::MIN`, decode each value in list order, and lower
   * the minimum or raise the maximum where the reading passes it.
   */
  method GroupExtremes(buf: seq<u8>, group: seq<Slice>) returns (min: u32, max: u32)
    requires GroupDecodable(buf, group)
    ensures forall k :: 0 <= k < |group| ==> min as int <= Reading(buf, group[k]) <= max as int
    ensures |group| > 0 ==> exists k :: 0 <= k < |group| && Reading(buf, group[k]) == min as int
    ensures |group| > 0 ==> exists k :: 0 <= k < |group| && Reading(buf, group[k]) == max as int
    ensures |group| == 0 ==> min == U32_MAX && max == U32_MIN
  {
    min := U32_MAX;
    max := U32_MIN;
    for j := 0 to |group|
      invariant forall k :: 0 <= k < j ==> min as int <= Reading(buf, group[k]) <= max as int
      invariant j > 0 ==> exists k :: 0 <= k < j && Reading(buf, group[k]) == min as int
      invariant j > 0 ==> exists k :: 0 <= k < j && Reading(buf, group[k]) == max as int
      invariant j == 0 ==> min == U32_MAX && max == U32_MIN
    {
      var f := ToDecimalInt(SliceBytes(buf, group[j]));
      assert f as int == Reading(buf, group[j]);
      if f < min {
        min := f;
      }
      if f > max {
        max := f;
      }
    }
  }

  /**
   * `median` on the integers it would read, at twice their value: the two
   * middle elements `l/2 - 1` and `l/2` of an even-length list, twice the
   * element `l/2` of an odd-length one. The list is taken in the order it
   * was given.
   */
  function MedianTwice(vals: seq<nat>): (m: nat)
    requires |vals| > 0
    ensures m == vals[(|vals| - 1) / 2] + vals[|vals| / 2]
  {
    var l := |vals|;
    if l % 2 == 0 then vals[l / 2 - 1] + vals[l / 2] else 2 * vals[l / 2]
  }

  /**
   * The elements `median` reads are the two middle positions, counted from
   * either end: lo + hi == |vals| - 1 and lo and hi are equal or adjacent.
   */
  lemma MedianTwiceMiddle(vals: seq<nat>)
    requires |vals| > 0
    ensures (|vals| - 1) / 2 + |vals| / 2 == |vals| - 1
    ensures |vals| / 2 - (|vals| - 1) / 2 == 1 - |vals| % 2
  {
  }

  /** Within the range of its elements: twice the least element at most, twice the greatest at least. */
  lemma MedianWithinExtremes(vals: seq<nat>, lo: nat, hi: nat)
    requires |vals| > 0
    requires forall k :: 0 <= k < |vals| ==> lo <= vals[k] <= hi
    ensures 2 * lo <= MedianTwice(vals) <= 2 * hi
  {
    MedianTwiceMiddle(vals);
  }

  /** The number of elements x with 2 * x <= m. */
  function CountAtMost(vals: seq<nat>, m: nat): (c: nat)
    ensures c <= |vals|
  {
    if vals == [] then 0 else (if 2 * vals[0] <= m then 1 else 0) + CountAtMost(vals[1..], m)
  }

  /** The number of elements x with 2 * x >= m. */
  function CountAtLeast(vals: seq<nat>, m: nat): (c: nat)
    ensures c <= |vals|
  {
    if vals == [] then 0 else (if 2 * vals[0] >= m then 1 else 0) + CountAtLeast(vals[1..], m)
  }

  /**
   * m is twice a median of vals: at least half of the elements are at most
   * m / 2 and at least half are at least m / 2. For an even length every
   * value between the two middle elements qualifies; SortedMedianTwice picks
   * their mean, as `median` does.
   */
  predicate IsMedianTwice(vals: seq<nat>, m: nat) {
    2 * CountAtMost(vals, m) >= |vals| && 2 * CountAtLeast(vals, m) >= |vals|
  }

  predicate Sorted(s: seq<nat>) {
    forall i, j :: 0 <= i <= j < |s| ==> s[i] <= s[j]
  }

  /** A sorted list with x put in front of the first element not below it. */
  function Insert(x: nat, s: seq<nat>): (r: seq<nat>)
    ensures |r| == |s| + 1
  {
    if s == [] || x <= s[0] then [x] + s else [s[0]] + Insert(x, s[1..])
  }

  /** Insertion sort, ascending. */
  function SortAscending(s: seq<nat>): (r: seq<nat>)
    ensures |r| == |s|
  {
    if s == [] then [] else Insert(s[0], SortAscending(s[1..]))
  }

  lemma {:induction false} InsertPermutes(x: nat, s: seq<nat>)
    ensures multiset(Insert(x, s)) == multiset([x] + s)
    decreases |s|
  {
    if s != [] && x > s[0] {
      InsertPermutes(x, s[1..]);
      assert s == [s[0]] + s[1..];
      assert multiset([x] + s) == multiset([s[0]]) + multiset([x] + s[1..]);
    }
  }

  lemma {:induction false} SortPermutes(s: seq<nat>)
    ensures multiset(SortAscending(s)) == multiset(s)
    decreases |s|
  {
    if s != [] {
      SortPermutes(s[1..]);
      InsertPermutes(s[0], SortAscending(s[1..]));
      assert s == [s[0]] + s[1..];
    }
  }

  lemma {:induction false} InsertSorted(x: nat, s: seq<nat>)
    requires Sorted(s)
    ensures Sorted(Insert(x, s))
    decreases |s|
  {
    if s != [] && x > s[0] {
      InsertSorted(x, s[1..]);
      var r := Insert(x, s[1..]);
      InsertPermutes(x, s[1..]);
      forall k | 0 <= k < |r|
        ensures s[0] <= r[k]
      {
        assert r[k] in multiset(r);
        assert r[k] == x || r[k] in multiset(s[1..]);
        if r[k] != x {
          var q :| 0 <= q < |s[1..]| && s[1..][q] == r[k];
          assert s[0] <= s[q + 1];
        }
      }
      assert Insert(x, s) == [s[0]] + r;
    }
  }

  lemma {:induction false} SortAscendingSorted(s: seq<nat>)
    ensures Sorted(SortAscending(s))
    decreases |s|
  {
    if s != [] {
      SortAscendingSorted(s[1..]);
      InsertSorted(s[0], SortAscending(s[1..]));
    }
  }

  /** Inserting x adds one to a count exactly when x itself is counted. */
  lemma {:induction false} InsertCounts(x: nat, s: seq<nat>, m: nat)
    ensures CountAtMost(Insert(x, s), m) == (if 2 * x <= m then 1 else 0) + CountAtMost(s, m)
    ensures CountAtLeast(Insert(x, s), m) == (if 2 * x >= m then 1 else 0) + CountAtLeast(s, m)
    decreases |s|
  {
    if s == [] || x <= s[0] {
      assert ([x] + s)[1..] == s;
    } else {
      InsertCounts(x, s[1..], m);
      var r := [s[0]] + Insert(x, s[1..]);
      assert r[1..] == Insert(x, s[1..]);
    }
  }

  /** Sorting does not change how many elements lie on either side of any bound. */
  lemma {:induction false} SortCounts(s: seq<nat>, m: nat)
    ensures CountAtMost(SortAscending(s), m) == CountAtMost(s, m)
    ensures CountAtLeast(SortAscending(s), m) == CountAtLeast(s, m)
    decreases |s|
  {
    if s != [] {
      SortCounts(s[1..], m);
      InsertCounts(s[0], SortAscending(s[1..]), m);
    }
  }

  /** A count is at least the length of a prefix whose elements all qualify. */
  lemma {:induction false} CountAtMostPrefix(s: seq<nat>, m: nat, n: nat)
    requires n <= |s| && forall k :: 0 <= k < n ==> 2 * s[k] <= m
    ensures CountAtMost(s, m) >= n
    decreases n
  {
    if n > 0 {
      CountAtMostPrefix(s[1..], m, n - 1);
    }
  }

  /** A count is at least the length of a suffix whose elements all qualify. */
  lemma {:induction false} CountAtLeastSuffix(s: seq<nat>, m: nat, n: nat)
    requires n <= |s| && forall k :: n <= k < |s| ==> 2 * s[k] >= m
    ensures CountAtLeast(s, m) >= |s| - n
    decreases |s|
  {
    if s != [] {
      if n > 0 {
        CountAtLeastSuffix(s[1..], m, n - 1);
      } else {
        CountAtLeastSuffix(s[1..], m, 0);
      }
    }
  }

  /** On sorted input the middle-element rule of `median` gives a true median. */
  lemma MedianOfSorted(vals: seq<nat>)
    requires |vals| > 0 && Sorted(vals)
    ensures IsMedianTwice(vals, MedianTwice(vals))
  {
    var l := |vals|;
    var lo, hi := (l - 1) / 2, l / 2;
    var m := MedianTwice(vals);
    MedianTwiceMiddle(vals);
    CountAtMostPrefix(vals, m, lo + 1);
    CountAtLeastSuffix(vals, m, hi);
  }

  /**
   * The intended median: the middle-element rule applied to the readings
   * in ascending order.
   */
  function SortedMedianTwice(vals: seq<nat>): (m: nat)
    requires |vals| > 0
    ensures IsMedianTwice(vals, m)
  {
    var sorted := SortAscending(vals);
    SortAscendingSorted(vals);
    MedianOfSorted(sorted);
    SortCounts(vals, MedianTwice(sorted));
    MedianTwice(sorted)
  }

  /** On input already in ascending order the rule as written and the intended median agree. */
  lemma {:induction false} SortedAgrees(vals: seq<nat>)
    requires |vals| > 0 && Sorted(vals)
    ensures SortedMedianTwice(vals) == MedianTwice(vals)
  {
    SortedUnchanged(vals);
  }

  lemma {:induction false} SortedUnchanged(s: seq<nat>)
    requires Sorted(s)
    ensures SortAscending(s) == s
    decreases |s|
  {
    if s != [] {
      SortedUnchanged(s[1..]);
      assert SortAscending(s) == Insert(s[0], s[1..]);
      if |s| > 1 {
        assert s[0] <= s[1..][0];
      }
      assert [s[0]] + s[1..] == s;
    }
  }

  /** The sorted median of an odd-length list is its middle element, of an even-length one the mean of its two middle elements. */
  lemma SortedMedianExamples()
    ensures SortedMedianTwice([10, 20, 30]) == 2 * 20
    ensures SortedMedianTwice([10, 20, 30, 40]) == 20 + 30
    ensures SortedMedianTwice([30, 10, 20]) == 2 * 20
  {
    var a: seq<nat> := [10, 20, 30];
    var b: seq<nat> := [10, 20, 30, 40];
    assert Sorted(a);
    assert Sorted(b);
    SortedAgrees(a);
    SortedAgrees(b);
    ReorderedExample();
  }

  lemma ReorderedExample()
    ensures SortAscending([30, 10, 20]) == [10, 20, 30]
  {
    var s: seq<nat> := [30, 10, 20];
    assert s[1..] == [10, 20] && s[1..][1..] == [20] && s[1..][1..][1..] == [];
    assert SortAscending([20]) == Insert(20, []) == [20];
    assert SortAscending([10, 20]) == Insert(10, [20]) == [10, 20];
    assert SortAscending(s) == Insert(30, [10, 20]) == [10, 20, 30] by {
      assert [10, 20][1..] == [20];
      assert [20][1..] == [];
      assert Insert(30, []) == [30];
      assert Insert(30, [20]) == [20, 30];
    }
  }

  /**
   * In file order the rule can miss the median: the readings 1.5, 2.5, 1.0
   * give twice 2.5, which exceeds two of the three readings.
   */
  lemma UnsortedMedianMisses()
    ensures MedianTwice([15, 25, 10]) == 50
    ensures !IsMedianTwice([15, 25, 10], MedianTwice([15, 25, 10]))
    ensures SortedMedianTwice([15, 25, 10]) == 30
  {
    var s: seq<nat> := [15, 25, 10];
    assert s[1..] == [25, 10] && s[1..][1..] == [10] && s[1..][1..][1..] == [];
    assert CountAtLeast(s, 50) == 1;
    SortExample();
  }

  lemma SortExample()
    ensures SortAscending([15, 25, 10]) == [10, 15, 25]
  {
    var s: seq<nat> := [15, 25, 10];
    assert s[1..] == [25, 10] && s[1..][1..] == [10] && s[1..][1..][1..] == [];
    assert SortAscending([10]) == Insert(10, []) == [10];
    assert SortAscending([25, 10]) == Insert(25, [10]) == [10, 25] by {
      assert [10][1..] == [];
      assert Insert(25, []) == [25];
    }
    assert SortAscending(s) == Insert(15, [10, 25]) == [10, 15, 25] by {
      assert [10, 25][1..] == [25];
      assert Insert(15, [25]) == [15, 25];
    }
  }
}
