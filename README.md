# billion-row: scan, group and decode, in Dafny

This project models the core of `src/main.rs` of the billion-row program. That program reads a file of `station;reading\n` lines into one byte buffer. It groups the value slices by station name, then works out per-station statistics.

- **`scan_data`** passes over the buffer once, left to right.
  - From each key start it walks to the next `;` and then to the next `\n`. The key loop does not stop at `\n`, so a line without `;` runs on into the next line, and that record's key holds the `\n` between them. The model reproduces this (`Scenarios.MissingSemicolonJoinsLines`); `Scanner.WellFormedScans` gives the input condition under which no key holds a `\n`.
  - It stores the value slice under the key's bytes in a `HashMap<&[u8], Vec<&[u8]>>`, appending when the key is present and inserting a one-element list otherwise.
  - It stops when the cursor reaches `len - 1` or when a line starts with `\n` (a blank line).
  - Its inner loops have no bound test of their own; Rust's bounds-checked indexing panics when they run off the end. That happens when no `;` follows a key start anywhere in the rest of the buffer, or no `\n` follows the `;`. An empty buffer makes `buf.len() - 1` underflow.
- **`to_decimal_int`** decodes a reading as fixed-point tenths. It folds `acc * 10 + digit` over the bytes and skips every `.`, so `"25.9"` becomes 259.
- **The min/max loop** of `billion_row_challenge` starts a group at `u32::MAX` / `u32::MIN` and lowers or raises the two as it decodes each value.
- **`median`** picks the element `l/2` of an odd-length list, or averages the elements `l/2 - 1` and `l/2` of an even-length one. It does this on the list exactly as grouped, which is file order.

How the source maps onto Dafny:

- **Bytes** (`bytes.dfy`): the `u8` and `u32` newtypes and the delimiter constants.
- **Decimal** (`decimal.dfy`):
  - `ToDecimalInt` is the decoder's loop.
  - It is proved against `DecimalValue`, which reads the bytes with their dots removed, in base 10.
  - `Format` is the inverse used for the round trip.
- **Grouping** (`grouping.dfy`):
  - A `Slice` is a half-open range of the buffer, standing for a Rust `&[u8]`.
  - The table is a map from key *bytes* to lists of slices, so keys compare by content.
  - `Store` is one `get_mut`/`push` or `insert` step.
  - `GroupAll` folds `Store` over a record list.
- **Scanner** (`scanner.dfy`):
  - `RecordsFrom` and `Scan` give the records the scan reads, or `None` on the inputs where the source panics.
  - `ScanData` is the scan loop, with its body in `ScanRecord` and its two delimiter loops in `ScanLineBounds`.
  - `ScanData` is proved to return `GroupAll` of the scanned records.
  - `Serialize` lays out a list of entries as a file, for the round-trip lemmas.
- **Statistics** (`statistics.dfy`):
  - `GroupExtremes` is the min/max loop.
  - `MedianTwice` is the index rule of `median`, kept at twice the median so even lengths stay integral.
  - `SortedMedianTwice` is the median the rule evidently aims at.
- **Scenarios** (`scenarios.dfy`): the source's test vectors, and concrete buffers that show where the scan stops or fails.

## Model

| member | source | states |
|---|---|---|
| Decimal.ToDecimalInt | src/main.rs:59-73 | the loop yields exactly the base-10 value of the reading's digits with every '.' skipped, for readings made of digits and dots whose value fits in a u32 |
| Decimal.IgnoresDot | src/main.rs:63-69 | inserting a '.' anywhere in a reading does not change its decoded value |
| Decimal.DecodeFormat | src/main.rs:59-73 | decoding the one-fractional-digit text of n tenths ("25.9" for 259) gives back n, for every n |
| Scenarios.DecodeTestVectors | src/main.rs:184-189 | "25.9" and "20.7" are decodable and decode to 259 and 207 |
| Scanner.ScanData | src/main.rs:132-179 | on an input the scan reads in bounds, the returned table is the given table with every scanned record's value stored under its key bytes, in file order |
| Scanner.ScanRecord | src/main.rs:144-176 | one pass of the loop body stores exactly the record at the cursor (key up to the first ';', value from after it to the next '\n') and moves the cursor just past that '\n'; the records left to scan are the ones after it, so the final table is unchanged |
| Scanner.ScanLineBounds | src/main.rs:151-165 | the two delimiter loops stop at the first ';' from the key start and at the first '\n' after it, both inside the buffer |
| Scanner.RecordsFrom | src/main.rs:137-170 | the records the scan reads from a position, or None exactly where the source indexes past the end; every record it gives lies inside the buffer |
| Scanner.RecordsFromChained | src/main.rs:137-170 | each record's key runs up to the first ';' after its start and contains none; each value runs from after that ';' to the next '\n' and contains none; each line starts just after the previous '\n'; the scan yields nothing more once the cursor is at len - 1 or on a blank line |
| Scanner.WellFormedScans | src/main.rs:137-165 | a non-empty buffer ending in '\n' whose every non-blank line holds a ';' is scanned without reading out of bounds, and no key contains a '\n' |
| Scanner.ScannedTable | src/main.rs:145-176 | after a scan into an empty table, no key contains ';', and every stored value slice ends just before a '\n' in the buffer and contains no '\n' |
| Scanner.ScanSerialize | src/main.rs:132-179 | scanning a file serialized from valid entries yields exactly those entries' key and value bytes, one record per line |
| Scanner.GroupSerialized | src/main.rs:132-179 | after scanning a serialized file, a key has a group exactly when some line carries it, and the group's slices read back as that key's values in file order |
| Grouping.Store | src/main.rs:172-176 | one store step adds exactly the key to the table's keys (its lists are stated by StoreContents) |
| Grouping.GroupAll | src/main.rs:169-176 | the table after storing every record in order, starting from the given table (its contents are stated by GroupAllContents and GroupAllSize) |
| Grouping.StoreContents | src/main.rs:172-176 | a store adds the key, appends the value to that key's previous list (or starts a one-element list), and leaves every other key's list unchanged |
| Grouping.GroupAllContents | src/main.rs:172-176 | after grouping, a key is present exactly when it was before or some record carries it, and its list is the previous list followed by the values of exactly the records with those key bytes, in record order |
| Grouping.GroupAllSize | src/main.rs:172-176 | grouping adds exactly one value per record: the total number of stored values grows by the number of records |
| Grouping.SameKeySameGroup | src/main.rs:169-176 | two records with equal key bytes, at any offsets, land in the same group, with the earlier record's value first |
| Grouping.GroupAllNonEmpty | src/main.rs:172-176 | grouping never creates an empty list, so `median` is never handed one |
| Grouping.ValuesOfOrigin | src/main.rs:169-176 | every value stored under a key comes from a record whose key bytes are that key |
| Statistics.GroupExtremes | src/main.rs:104-118 | min and max bound every decoded reading of the group and are each attained by one; an empty group leaves u32::MAX and u32::MIN |
| Statistics.GroupMedianWithinExtremes | src/main.rs:43-57 | for a non-empty group, twice the as-written median lies between twice the min and twice the max of its readings |
| Statistics.MedianTwice | src/main.rs:43-57 | the rule as written gives the sum of the elements at positions (l-1)/2 and l/2 of the list in its given order: twice the middle element for odd l, the sum of the two middle elements for even l |
| Statistics.MedianTwiceMiddle | src/main.rs:43-57 | the positions (l-1)/2 and l/2 that the rule reads mirror each other around the middle and are equal for odd l and adjacent for even l |
| Statistics.MedianWithinExtremes | src/main.rs:43-57 | the rule's result lies within the range of the list's elements |
| Statistics.MedianOfSorted | src/main.rs:43-57 | on a sorted list the rule gives a true median: at least half the elements lie at or below it and at least half at or above |
| Statistics.SortedMedianTwice | src/main.rs:43-57 | the rule applied to the ascending order of the readings is a true median of the readings, whatever their order |
| Statistics.SortedMedianExamples | src/main.rs:43-57 | the sorted median of 1.0, 2.0, 3.0 is 2.0, also when given as 3.0, 1.0, 2.0; the sorted median of 1.0, 2.0, 3.0, 4.0 is the mean 2.5 of the two middle readings |
| Statistics.SortedAgrees | src/main.rs:43-57 | on input already in ascending order, the rule as written and the sorted median agree |
| Statistics.UnsortedMedianMisses | src/main.rs:43-57 | for the readings 1.5, 2.5, 1.0 in file order, the rule gives 2.5, which is not a median; sorting first gives 1.5 |
| Statistics.SortPermutes | src/main.rs:43-57 | sorting for the corrected median keeps the readings as a multiset |
| Statistics.SortAscendingSorted | src/main.rs:43-57 | sorting for the corrected median gives ascending order |
| Scenarios.ScanPanics | src/main.rs:137-165 | the scan fails on the empty buffer (`buf.len() - 1` underflows) and on "A;1", whose value loop reads past the end |
| Scenarios.BlankLineStops | src/main.rs:146-150 | a blank line ends the scan, and the lines after it are never read |
| Scenarios.LastByteStops | src/main.rs:137 | the scan ends once the cursor reaches the last byte, so a one-byte last line without '\n' is dropped |
| Scenarios.MissingSemicolonJoinsLines | src/main.rs:151-155 | in "AB\nC;1\n" the line without ';' runs on into the next: the scan gives one record whose key "AB\nC" holds a '\n' |
| Scenarios.SampleGroupA | src/main.rs:172-176 | scanning and grouping "A;1.0\nB;2.5\nA;3.0\n" stores "1.0" then "3.0" under "A" |
| Scenarios.SampleGroupB | src/main.rs:172-176 | in the same file "B" holds the single value "2.5" |
| Scenarios.SampleNoC | src/main.rs:172-176 | a key carried by no line of that file has no group |

## Left out

- `main` and the file handling in `billion_row_challenge` (src/main.rs:75-92, 125-129) are I/O: the model takes the buffer as a parameter.
- The progress bar (src/main.rs:96-101, 120-121) is display only.
- The `println!` calls are output only.
- The `Error` enum and its conversions (src/main.rs:13-41) are not modelled.
  - The I/O errors of `File::open` and `read_to_end` (src/main.rs:87, 89) belong to the file handling above.
  - `median`'s `from_utf8` and `parse::<f32>` errors are not modelled, because the model decodes readings as integers.
  - `scan_data` itself only ever returns `Ok`.
- `median`'s float arithmetic `(a + b) / 2.0` is not modelled, for two reasons:
  - the model works with integer tenths at twice scale, so the mean of the two middle elements is their sum;
  - `median` parses its readings as `f32`, so its rounding is not captured.
- `_med`, the value `median` returns at src/main.rs:107, is never used in the source. The model states what `median` computes and does not tie its result to any output.
- The order in which `for (_key, val) in hash_tab` visits the groups depends on the hash map's seeded hashing, so it is unobservable. `GroupExtremes` models one group; the model does not fix an order of groups.
- Statistics.GroupExtremes: does not model readings outside the value grammar of digits and '.'; its `GroupDecodable` requirement excludes them, as follows.
  - A byte below '0' other than '.', such as a '-' sign, makes `v - b'0'` underflow a u8, which panics in a debug build.
  - A byte from ':' (58) up does not panic: it silently adds a "digit" of 10 to 207.
  - A value over `u32::MAX` overflows the accumulator.
- Decimal.ToDecimalInt: requires `Decodable` for the same reasons, so it defines no result for those inputs. In a release build the source would wrap the u8 subtraction and the u32 arithmetic instead.
- Scanner.ScanData: the table is keyed by key bytes, not by the first `&[u8]` slice inserted. Rust's map compares slices by content, so the two are indistinguishable to every lookup.
- Scanner.ScanData: the source's `Result` return is always `Ok`.
  - The panicking inputs are excluded by the precondition `Scan(buf).Some?`.
  - The spec function `RecordsFrom` models those inputs as `None`.
- The loop body of `scan_data` is written as the method `ScanRecord`, and its two delimiter loops as the method `ScanLineBounds`. This is a structural split; the control flow is unchanged.

## Findings

| source | as written | input that shows it | evidently intended | confidence | as-written member | corrected member |
|---|---|---|---|---|---|---|
| src/main.rs:43-57 | `median` indexes the middle of the value list as grouped, which is file order, without sorting it first | the readings 1.5, 2.5, 1.0 in that order: the rule picks 2.5, above two of the three readings | the middle of the readings in ascending order, here 1.5 | not executed | Statistics.UnsortedMedianMisses | Statistics.SortedMedianTwice |
