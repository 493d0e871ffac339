# tsvio core in Dafny

tsvio indexes large tab-separated (TSV) files by the label in their first
column. It then extracts selected rows and columns by seeking straight to the
rows it needs. This project models the byte-level C core of the package and
proves properties of that model:

- **`Dht`** (`dht.dfy`) is the dynamic open-addressing hash table of
  `src/dht.c`. It is modelled as a class over an `array` of slots. Its probe
  loops are bounded by the 1000-rehash cap of the source. Insertion grows the
  table by re-probing every key into a table twice the size.
  - The ghost state records, for every key, its insertion order, its slot and
    the probe that reached that slot.
  - The class invariant says the slots hold exactly the inserted keys, each
    with its order, at the first free slot of its probe sequence.
- **`ValueDht`** (`valuedht.dfy`) is the value-carrying side of the table that
  `getlines.c` and `tsvlib.c` call. Examples are `insertStrVal`,
  `changeStrVal`, `setAllValues`, `countValues` and `getStringValue`. No file
  of this revision defines these, so they are given a contract over the
  sequence of (key, value) entries in insertion order. The iterator yields
  entries in that same order.
- **`GenIndex`** (`genindex.dfy`) is `generate_index`. It is a one-pass
  streaming method over the data file's bytes that writes the index bytes.
  It is proved against `IndexOf`, a recursive definition of the records and
  status a pass produces.
- **`IndexFormat`** (`index.dfy`) is the index file format: `label TAB
  decimal-offset NL`.
- **`GetLines`** (`getlines.dfy`) covers `scan_index_file`, `num_columns` and
  `find_col_indices`, with their fixed `label` and `posn` buffers as arrays.
- **`RoundTrip`** (`roundtrip.dfy`) proves that reading back a generated index
  gives its records.
- **`TsvLib`** (`tsvlib.dfy`) covers the rest of `src/tsvlib.c`:
  - `is_fatal_error`;
  - `get_tsv_line_buffer` and `get_tsv_fields` over a line buffer, with the
    result setter modelled as a recorded sequence of cell writes;
  - `scan_header_line` and its R-style header rule;
  - the column map, the collection and sorting of wanted rows by byte
    offset, and `getDataFromFile`;
  - the match-count rules of `tsvGetLines` and `tsvGetData`, and the
    rebuilding of the pattern tables in `tsvGetData`.
- **`Text`** (`text.dfy`) and **`TsvIo`** (`status.dfy`) hold the shared
  definitions:
  - bytes, and field and line ends;
  - tab splitting, with a reference definition `SplitTabs`;
  - decimal printing and `atol`;
  - `enum status`.

Files are byte sequences. R's `error()` becomes an error result (`Raised`).
`warning()` is either a returned flag (`InsertStr`'s `warned`,
`GetTsvLineBuffer`'s `eof`) or dropped.

`generate_index` rejects only a data line whose first byte is TAB
(genindex.c:27). A data line with no TAB at all is indexed, with the whole
line as its label.

## Model

| member | source | states |
|---|---|---|
| `TsvIo.Status` | src/tsvio.h:3 | the status codes, in the order of `enum status` |
| `Dht.HashBlocksWhole` | src/dht.c:39-49 | the main loop reads only the `len >> 2` whole four-byte blocks; the last `len & 3` bytes do not affect it |
| `Dht.HashTail` | src/dht.c:51-65 | the end cases for the last `len & 3` bytes; with no bytes left the hash is unchanged |
| `Dht.SuperFastHashModified` | src/dht.c:33-76 | the main loop, then the end cases, then the avalanche shifts of `Dht.Avalanche`; an empty key hashes to 0 whatever the initial hash |
| `Dht.Avalanche` | src/dht.c:67-73 | defined as the six final shift-and-mix steps; no contract |
| `Dht.ProbeHash` | src/dht.c:84-97 | defined as `hash` (seeded with the key length as uint32_t) for the first probe and `rehash` of the previous hash after it; no contract |
| `Dht.ProbeSlot` | src/dht.c:156-160 | `h % size` is a slot index of the table, `0 <= i < size` |
| `Dht.FirstFree` | src/dht.c:156-165 | the first probe within the cap that lands on a free slot; that slot is free |
| `Dht.FirstFreeSkip` | src/dht.c:157-160 | probes that hit occupied slots do not move the first free probe |
| `Dht.FirstFreeOccupiedBefore` | src/dht.c:157-160 | every probe before the first free one hits an occupied slot |
| `Dht.Rehash` | src/dht.c:183-198 | the grow copy as a value: each occupied old slot goes to the first free slot of its probe sequence in the new table, or the copy gives up |
| `Dht.RehashStuck` | src/dht.c:188-193 | a key whose capped probes all hit occupied slots stops the grow |
| `Dht.RehashPlace` | src/dht.c:188-196 | otherwise that key goes to the free slot its probe reaches, and the copy continues |
| `Dht.PlaceNew` | src/dht.c:166-169 | defined as writing the new key with the given order at its first free probe slot; its contract keeps only the length; `Dht.Place` states what it preserves |
| `Dht.Place` | src/dht.c:166-169 | writing a key at the free slot of its first free probe keeps the layout invariant |
| `Dht.OrderAt` | src/dht.c:166-169 | in a full layout, the slot of order `o` holds key `o` with order `o`, and each occupied slot's order names its key |
| `Dht.IndexesAppend` | src/dht.c:167 | the next key gets the next order, and the order map stays the inverse of the key list |
| `Dht.InjectiveBound` | src/dht.c:157 | pigeonhole: distinct slot indices below `n` that avoid one free slot number fewer than `n` |
| `Dht.LayoutCount` | src/dht.c:157-169 | while a free slot exists, fewer keys are stored than there are slots |
| `Dht.PutKeeps` | src/dht.c:166-169 | storing a new key with order `count` at its first free probe keeps the table invariant, and `count < size` afterwards |
| `Dht.Search` | src/dht.c:156-165 | the probe loop finds the slot holding the key, or the first free probe slot, or gives up with every capped probe occupied by other keys |
| `Dht.FindFree` | src/dht.c:186-194 | the grow re-probe finds the first free slot of the key's probe sequence, or reports that all capped probes are occupied |
| `Dht.CopyOne` | src/dht.c:184-196 | copying an occupied old slot to its new free slot keeps every copied key in the layout |
| `Dht.CopySkip` | src/dht.c:184 | a free old slot is not copied |
| `Dht.CopyStep` | src/dht.c:183-198 | one round of the copy loop agrees with `Rehash` and keeps the copied keys laid out |
| `Dht.CopySlots` | src/dht.c:174-198 | the grow copy builds a fresh table of twice the size equal to `Rehash` of the old slots, holding every key with its order unchanged, or fails exactly when `Rehash` does |
| `Dht.DynHashTab.constructor` | src/dht.c:124-143 | `size == isize`, `count == 0`, `loadLimit == isize*3/4`, every slot free, nothing stored |
| `Dht.DynHashTab.NotStored` | src/dht.c:157-165 | a key whose probes reach a free slot, or exhaust the cap, over other keys only, is not stored |
| `Dht.DynHashTab.GetStringIndex` | src/dht.c:215-232 | returns the insertion order of the stored key, and -1 exactly when the key was never inserted; the table is not modified |
| `Dht.DynHashTab.StoredSlots` | src/dht.c:103-109 | the occupied slots are exactly the inserted keys, each with its own order `0 .. count-1`, and no key is stored twice |
| `Dht.DynHashTab.Grow` | src/dht.c:171-205 | on success, `size` doubles, `loadLimit == size*3/4`, and the slots are `Rehash` of the old ones; on failure nothing changes; keys and orders are kept either way |
| `Dht.DynHashTab.Install` | src/dht.c:199-204 | the new slot array replaces the old one, `size` doubles, `loadLimit == size*3/4`, and the table invariant holds with the same keys and orders |
| `Dht.DynHashTab.Put` | src/dht.c:166-169 | the new key gets order `count`, `count` grows by one, only that slot changes, and `count <= size` |
| `Dht.DynHashTab.InsertStr` | src/dht.c:145-206 | a stored key leaves the table unchanged; a key with no free probe within the cap warns and changes nothing; otherwise the key is appended with order `count` and `count` grows by one; the table grows when `count` reaches `loadLimit`, and after any insertion without a warning, `count < size` |
| `ValueDht.Find` | src/tsvlib.c:787 | the position of a key among the entries, -1 exactly when absent, and otherwise its first position |
| `ValueDht.FindFirst` | src/tsvlib.c:787 | the first entry holding a key is where it is found |
| `ValueDht.FindSameKeys` | src/tsvlib.c:565 | tables with the same keys in the same order find every key at the same place |
| `ValueDht.UpsertSpec` | src/getlines.c:52 | `insertStrVal` stores the value for the key and appends the key exactly when it is new; keys stay distinct |
| `ValueDht.UpsertOther` | src/getlines.c:52 | `insertStrVal` leaves every other key's position and value alone |
| `ValueDht.ChangeSpec` | src/getlines.c:54 | `changeStrVal` stores the value of a stored key, never adds a key, and ignores an absent key |
| `ValueDht.ChangeOther` | src/getlines.c:54 | `changeStrVal` leaves every other key's position and value alone |
| `ValueDht.CountSplit` | src/tsvlib.c:234 | the count of entries with value `v` is the whole table exactly when every value is `v`, and zero exactly when none is |
| `ValueDht.ResetSpec` | src/tsvlib.c:565 | `setAllValues` keeps the keys and their order and gives every key the value |
| `ValueDht.ValueTab.constructor` | src/tsvlib.c:221 | a new table is empty |
| `ValueDht.ValueTab.Locate` | src/tsvlib.c:787 | a walk over the entries finds the key's position, as `Find` |
| `ValueDht.ValueTab.GetStringValue` | src/tsvlib.c:787 | the value stored for the key, -1 when it is absent |
| `ValueDht.ValueTab.InsertStrVal` | src/tsvlib.c:224 | the entries become `Upsert` of the old entries |
| `ValueDht.ValueTab.ChangeStrVal` | src/getlines.c:54 | the entries become `Change` of the old entries |
| `ValueDht.ValueTab.SetAllValues` | src/tsvlib.c:565 | the entries become `Reset` of the old entries |
| `ValueDht.ValueTab.CountValues` | src/tsvlib.c:234 | the number of keys whose value is `v` |
| `ValueDht.ValueTab.CountNotValues` | src/tsvlib.c:571 | the number of keys whose value is not `v` |
| `IndexFormat.SerializeSnoc` | src/genindex.c:31-49 | writing one more record appends its label, TAB, decimal offset and NL |
| `GenIndex.SoundWeaken` | src/genindex.c:23-54 | records indexing lines at or after `j` index lines at or after any `i <= j` |
| `GenIndex.DataRecordsSound` | src/genindex.c:23-54 | every record indexes a data line: its offset is where a non-blank line starts, and its label is that line's bytes up to the first TAB or NL; offsets strictly increase |
| `GenIndex.DataRecordsComplete` | src/genindex.c:23-54 | unless a TAB-led line stops the pass, every non-blank line gets a record with its start offset |
| `GenIndex.TabLineStops` | src/genindex.c:27-28 | a line starting with TAB ends the pass with NO_LABEL_ERROR, and only the lines before it have records |
| `GenIndex.NoNewlineFile` | src/genindex.c:12-20 | input without a newline writes nothing and returns EMPTY_FILE when empty, otherwise INCOMPLETE_LAST_LINE |
| `GenIndex.IndexOfSound` | src/genindex.c:12-17 | no record indexes the header line or anything before its end |
| `GenIndex.DataLine` | src/genindex.c:31-49 | a data line ending in NL gives its label and start offset, then the pass goes on at the next line |
| `GenIndex.LineEndAfterLabel` | src/genindex.c:32-46 | the label loop followed by the skip loop stops at the line's end |
| `GenIndex.CopyLabel` | src/genindex.c:31-37 | the label bytes are written, and the position is just past the TAB or NL that ended them, or at EOF |
| `GenIndex.SkipLine` | src/genindex.c:40-46 | the rest of the line is skipped through its NL, or to EOF |
| `GenIndex.IndexLine` | src/genindex.c:31-49 | one data line writes its label, then TAB, its start offset in decimal and NL, and the position moves past its NL |
| `GenIndex.IndexStep` | src/genindex.c:23-53 | one turn of the main loop writes the records it produces and agrees with `DataRecords` from its line on |
| `GenIndex.IndexLines` | src/genindex.c:23-55 | the main loop writes `Serialize` of the data records and returns the pass's status |
| `GenIndex.GenerateIndex` | src/genindex.c:6-56 | the bytes written are the serialized records of `IndexOf(input)`, and the status is that of `IndexOf(input)` |
| `GetLines.DigitEnd` | src/getlines.c:41-45 | the end of a run of decimal digits |
| `GetLines.OffsetEnd` | src/getlines.c:41-46 | the offset loop stops after at most 62 digits, at a non-digit, or at the end |
| `GetLines.ParseRecord` | src/getlines.c:23-58 | one record: a too-long label, EOF or NL before the TAB, a too-long or non-numeric offset, or a record followed by more input or by EOF |
| `GetLines.ParseRecordNext` | src/getlines.c:25-55 | a label of at most 1023 bytes, a TAB, digits and NL parse as that record, with the digits' value |
| `GetLines.ScanNext` | src/getlines.c:23-59 | a record followed by more input is applied, and scanning continues after it |
| `GetLines.ApplyValid` | src/getlines.c:50-55 | the updates keep the labels distinct, and changes alone never add a label |
| `GetLines.ApplyUntouched` | src/getlines.c:50-55 | a label that no record names keeps its position and value |
| `GetLines.ApplyLastWins` | src/getlines.c:50-55 | the last record naming a label sets its value, always when inserting, and for stored labels when changing |
| `GetLines.ApplyAppend` | src/getlines.c:23-59 | applying two runs of records is applying their concatenation |
| `GetLines.ReadLabel` | src/getlines.c:25-33 | the first byte is stored unchecked; the label is copied up to TAB, NL or EOF, or LABEL_TOO_LONG once 1023 bytes are exceeded |
| `GetLines.ReadIndex` | src/getlines.c:38-48 | the offset buffer holds the TAB and then the digits up to NL or EOF; more than 62 digits gives INDEX_TOO_LONG and a non-digit gives NON_NUMERIC_IN_INDEX |
| `GetLines.ReadRecord` | src/getlines.c:23-58 | one pass of the outer loop agrees with `ParseRecord`: an error leaves the table alone, and a record is applied before going on or returning INCOMPLETE_LAST_LINE |
| `GetLines.ScanIndexFile` | src/getlines.c:11-61 | the status is that of `Scan`, and the table receives every record before the failing one, inserted when `insertall` and only changed otherwise; an empty stream gives OK and no updates |
| `GetLines.NumColumns` | src/getlines.c:63-77 | one more than the number of TABs, which is the number of fields `SplitTabs` gives |
| `GetLines.FirstMatch` | src/getlines.c:99-124 | -1 or a 1-based field number |
| `GetLines.FirstMatchSpec` | src/getlines.c:115-124 | -1 exactly when no field's C string equals the label; otherwise the first field that does |
| `GetLines.ResumeStep` | src/getlines.c:99-124 | reading one more field keeps each label's first match |
| `GetLines.CountFoundSet` | src/getlines.c:119-121 | setting an unset index counts one more label found |
| `GetLines.CountFoundAll` | src/getlines.c:127-138 | the count is full exactly when every index is set, and positive exactly when some is |
| `GetLines.CopyField` | src/getlines.c:101-112 | the field is copied with a NUL after it, and the position moves past its terminator |
| `GetLines.MatchField` | src/getlines.c:115-124 | each unset label equal to the field takes its number; labels already set keep their value; the found count follows |
| `GetLines.NextField` | src/getlines.c:99-125 | one field pass moves each label's first match forward and keeps the found count |
| `GetLines.MatchFields` | src/getlines.c:95-125 | each `index[i]` is the 1-based number of the first header field equal to `labels[i]`, or -1; later duplicates are ignored |
| `GetLines.FindColIndices` | src/getlines.c:79-139 | the indices as in `MatchFields`; with `findany`, OK exactly when some label was found, and otherwise OK exactly when every label was found; else LABEL_NOT_FOUND |
| `RoundTrip.LineBytes` | src/genindex.c:31-49 | the bytes of one index line: label, TAB, digits, NL |
| `RoundTrip.ParseLine` | src/getlines.c:23-55 | a readable index line parses back as its record |
| `RoundTrip.ScanSerialize` | src/getlines.c:23-60 | scanning serialized readable records gives those records and OK |
| `RoundTrip.LongLabelRejected` | src/getlines.c:29-30 | a record whose label exceeds 1023 bytes stops the scan with LABEL_TOO_LONG |
| `RoundTrip.SoundAll` | src/genindex.c:23-54 | every generated record indexes a data line |
| `RoundTrip.RecordReadable` | src/getlines.c:29-45 | a generated record with a label under 1024 bytes reads back, when the file's offsets need at most 62 digits |
| `RoundTrip.IndexRoundTrip` | src/getlines.c:11-61 | scanning the index of a file gives exactly its records, in file order, with OK, whatever status generation ended with |
| `RoundTrip.IndexLookup` | src/getlines.c:50-55 | loading that index with `insertall` gives each label the start offset of the last data line carrying it |
| `Text.CStr` | src/getlines.c:116 | defined as the bytes before the first NUL; its contract keeps only that it is no longer than the buffer |
| `Text.FieldEnd` | src/getlines.c:105 | the first TAB or NL at or after `i`, or the end |
| `Text.LineEnd` | src/tsvlib.c:147 | the first NL at or after `i`, or the end |
| `Text.CountTabsAppend` | src/getlines.c:73-75 | the TAB count of a concatenation is the sum of the counts |
| `Text.SplitTabsJoin` | src/getlines.c:63-66 | splitting a line at its TABs and joining with TABs gives the line back |
| `Text.SplitTabsCount` | src/getlines.c:63-66 | a line has one field more than it has TABs |
| `Text.SplitTabsFree` | src/getlines.c:63-66 | no field of a split line holds a TAB |
| `Text.FieldsOfLine` | src/tsvlib.c:429-448 | the field loop over a line buffer ending in its NL visits exactly the tab-split fields of the line |
| `Text.Decimal` | src/genindex.c:48 | `%ld` of a non-negative number prints at least one digit and only digits |
| `Text.DecimalRoundTrip` | src/getlines.c:52 | reading back the printed digits gives the number |
| `Text.DecimalMonotone` | src/genindex.c:48 | a larger number never prints in fewer digits |
| `Text.DigitRunValue` | src/getlines.c:52 | `atol`'s digit accumulation gives the digits' value |
| `Text.Atol` | src/getlines.c:52 | defined as `atol`: leading white space, an optional sign, then the longest digit run; `Text.AtolTabDigits` states its value on the offset buffer |
| `Text.AtolTabDigits` | src/getlines.c:39-52 | `atol` of the offset buffer, TAB then digits, is the digits' value, and 0 for no digits |
| `TsvLib.DataRecordsStatus` | src/genindex.c:23-55 | a pass over data lines ends in OK, INCOMPLETE_LAST_LINE or NO_LABEL_ERROR |
| `TsvLib.NoLabelLine` | src/genindex.c:27-28 | NO_LABEL_ERROR names a line that starts with TAB |
| `TsvLib.IsFatalError` | src/tsvlib.c:75-79 | defined as every status but OK, EMPTY_FILE and INCOMPLETE_LAST_LINE; `TsvLib.IndexFatal` states which index passes it rejects |
| `TsvLib.IndexFatal` | src/tsvlib.c:75-79 | indexing a file fails fatally exactly when its status is NO_LABEL_ERROR, exactly when a data line starts with TAB |
| `TsvLib.LineAt` | src/tsvlib.c:146-152 | the bytes of the line at a position hold no NL |
| `TsvLib.GetTsvLineBuffer` | src/tsvlib.c:135-163 | a negative position raises a seek error; a line of `bufsize` bytes or more raises an error; otherwise the buffer holds the line and a NL, the length is the line's plus one, and `eof` is set exactly when EOF ended the line |
| `TsvLib.Wanted` | src/tsvlib.c:373 | at most `maxColumnWanted + 1` data fields are taken |
| `TsvLib.CellWritesSpec` | src/tsvlib.c:381-387 | data field `c` with `columnMap[c] >= 0` is written to cell `columnMap[c]*nrows + rowid`, and nothing else is written |
| `TsvLib.CellIndex` | src/tsvlib.c:385 | in a column-major result, cells of distinct (column, row) pairs are distinct and within the matrix |
| `TsvLib.DataFieldsOfLine` | src/tsvlib.c:363-368 | the fields after the row label of a line buffer are the line's data fields |
| `TsvLib.WriteFields` | src/tsvlib.c:370-391 | the field loop writes exactly `CellWrites` of the wanted fields |
| `TsvLib.SplitRow` | src/tsvlib.c:363-391 | skipping the row label and writing the wanted fields of a line gives `CellWrites` of its data fields |
| `TsvLib.SkipLabel` | src/tsvlib.c:363-368 | the position moves past the row label and its terminator |
| `TsvLib.FieldEndIn` | src/tsvlib.c:377-379 | the walk over the line buffer stops at the field's end, the first TAB or NL or the end of the line |
| `TsvLib.FieldWrite` | src/tsvlib.c:381-389 | one field: the setter call for its input column exactly when that column is wanted, at cell `outputColumn*nrows + rowid`, with the field's bytes; the next field starts after the terminator |
| `TsvLib.GetTsvFields` | src/tsvlib.c:343-392 | raises what reading the line raises; otherwise writes the wanted data fields of the line at `rowposn`, and cells of columns that a short line lacks are not written |
| `TsvLib.Numbered` | src/tsvlib.c:439-444 | defined as numbering the kept header fields 0, 1, ...; its contract keeps only one update per field; `TsvLib.NumberHeader` states the table it builds |
| `TsvLib.HeaderBuffer` | src/tsvlib.c:411-418 | a header buffer has one column per tab-split field |
| `TsvLib.FgetsColumns` | src/tsvlib.c:407-418 | `num_columns` of what `fgets` read counts the fields of that line |
| `TsvLib.FieldEndOf` | src/tsvlib.c:433-435 | the walk over the header stops at the field's end, the first TAB or NL or the end |
| `TsvLib.HeaderField` | src/tsvlib.c:432-447 | one header field is numbered in unless it is the skipped row-label column, the count of numbered fields grows accordingly, and the next field starts after the terminator |
| `TsvLib.NumberHeader` | src/tsvlib.c:425-448 | the kept header fields are numbered 0, 1, ... in the table, and their number is returned |
| `TsvLib.ScanHeaderLine` | src/tsvlib.c:394-453 | an empty file raises an error; a header-only file leaves the table alone; otherwise the header fields are numbered in, skipping field 0 exactly when the header and the first data row have equal column counts; an error is raised unless the kept fields are one fewer than the data columns |
| `TsvLib.HeaderCountRule` | src/tsvlib.c:437-451 | the count check passes exactly when the header has as many fields as the first row, or one fewer; then pattern `j` heads data column `j` |
| `TsvLib.HeaderLabelValue` | src/tsvlib.c:439-444 | a header label that does not recur further right holds its column number |
| `TsvLib.MaxValueSpec` | src/tsvlib.c:594-598 | `maxInputColumn` bounds every column number and, when not -1, is one of them |
| `TsvLib.MapEntrySpec` | src/tsvlib.c:603-608 | `columnMap[c]` is the order of the last label at input column `c`, and -1 exactly when none is |
| `TsvLib.ColumnMapInverse` | src/tsvlib.c:599-608 | with distinct column numbers, the map sends each label's input column back to its order |
| `TsvLib.ColumnMapInit` | src/tsvlib.c:594-602 | the map has `maxInputColumn + 1` slots, all -1 |
| `TsvLib.BuildColumnMap` | src/tsvlib.c:594-608 | `columnMap[c]` is the order of the label found at input column `c`, or -1; its length is the largest input column plus one |
| `TsvLib.StoreNextNumber` | src/tsvlib.c:439-444 | storing the next column number keeps numbers distinct |
| `TsvLib.ApplyNumberedValues` | src/tsvlib.c:578-579 | numbering into a table reset to -1 gives distinct column numbers |
| `TsvLib.CompareRowInfo` | src/tsvlib.c:534-543 | the result is -1, 0 or 1; `TsvLib.CompareRowInfoOrder` states how it orders rows |
| `TsvLib.CompareRowInfoOrder` | src/tsvlib.c:534-543 | the comparison orders rows by byte offset, and is antisymmetric and transitive |
| `TsvLib.WantedRowsSpec` | src/tsvlib.c:612-619 | the wanted rows are the entries whose offset is not -1, in table order, each with its order as output row |
| `TsvLib.WantedRowsPrefix` | src/tsvlib.c:615-619 | looking at more entries only adds rows at the end |
| `TsvLib.CollectRows` | src/tsvlib.c:612-619 | the row array holds exactly the wanted rows |
| `TsvLib.InsertSwap` | src/tsvlib.c:620 | swapping a larger left neighbour keeps the insertion shape |
| `TsvLib.SwapKeepsRows` | src/tsvlib.c:620 | a swap keeps the rows |
| `TsvLib.InsertDone` | src/tsvlib.c:620 | the rows through `i` are sorted once the moving row has no larger left neighbour |
| `TsvLib.InsertRow` | src/tsvlib.c:620 | one insertion step extends the sorted prefix and keeps the rows |
| `TsvLib.SortRows` | src/tsvlib.c:620 | the rows end up in nondecreasing byte offset, as a permutation of the rows given |
| `TsvLib.ReadRows` | src/tsvlib.c:621-623 | reads each row in turn: no error exactly when every row fits the buffer, and then the writes are each row's wanted fields in sorted order |
| `TsvLib.ColumnMap` | src/tsvlib.c:599 | defined as the column map `BuildColumnMap` fills; its contract keeps only the length, one more than the largest input column |
| `TsvLib.ApplyKeepsAbove` | src/getlines.c:50-55 | index updates store offsets, so no value drops below -1 |
| `TsvLib.RowsPlaced` | src/tsvlib.c:615-622 | every sorted wanted row has an offset |
| `TsvLib.GetDataFromFile` | src/tsvlib.c:547-624 | the row table is reset and rescanned; a failed scan, no wanted row, or no wanted column skips the file; a header error is raised; otherwise the wanted rows are read in byte-offset order, each writing its wanted fields through the column map, and a line too long for the buffer raises an error |
| `TsvLib.ReadWanted` | src/tsvlib.c:594-623 | the rows are read in file order as a permutation of the wanted rows, and their writes are as in `ReadRows` |
| `TsvLib.LinesMatchFails` | src/tsvlib.c:238 | defined as the `tsvGetLines` rule: no label found, or a partial match when every pattern is required; no contract |
| `TsvLib.DataMatchError` | src/tsvlib.c:766-777 | defined as the `tsvGetData` rule: no match is one error, a partial match with patterns given and all required is the other; no contract |
| `TsvLib.MatchRulesAgree` | src/tsvlib.c:766-777 | with patterns given, the `tsvGetLines` rule (line 238) and the `tsvGetData` rules for rows and, identically, columns (lines 822-835) reject the same counts; without patterns, `tsvGetData` rejects only a count of 0 |
| `TsvLib.LastNaming` | src/getlines.c:50-55 | some record is the last to name a label |
| `TsvLib.FoundExactly` | src/tsvlib.c:565-571 | after changes into a table of -1 values, a label is found exactly when it was in the table and some index record names it |
| `TsvLib.UpsertUnfound` | src/tsvlib.c:222-225 | inserting a pattern with -1 keeps every label unfound |
| `TsvLib.SeededValues` | src/tsvlib.c:222-225 | the pattern table has distinct labels, each -1 |
| `TsvLib.SeededFind` | src/tsvlib.c:222-225 | a label is in the pattern table exactly when it is a pattern |
| `TsvLib.MatchPatterns` | src/tsvlib.c:206-244 | no patterns is an error; a failed index scan is an error; otherwise the table is the scanned pattern table, the found count is patterns minus labels at -1, and the match rule decides the error |
| `TsvLib.Positions` | src/tsvlib.c:263 | defined as the stored position of each label, in table order; its contract keeps only one position per label |
| `TsvLib.FirstLineErrorSpec` | src/tsvlib.c:260-266 | reading lines fails exactly when some line cannot be read |
| `TsvLib.FirstLineErrorPrefix` | src/tsvlib.c:260-266 | an error among the first lines is the error of the whole |
| `TsvLib.FirstLineErrorSeek` | src/tsvlib.c:143-148 | when every line at a non-negative position fits the buffer, reading positions that include a negative one stops with the seek error |
| `TsvLib.ReadLines` | src/tsvlib.c:260-266 | the error is the first line error; without one, each line read is the line at its position with its NL |
| `TsvLib.TsvGetLinesAsWritten` | src/tsvlib.c:183-276 | as the code is written: after the match rule, it reads the header and then the line at every label's stored position, found or not |
| `TsvLib.TsvGetLines` | src/tsvlib.c:183-276 | as intended: after the match rule, it reads the header and then only the lines of the labels found |
| `TsvLib.SeededLength` | src/tsvlib.c:215-225 | the pattern table has at most one label per pattern, and exactly one when no pattern repeats |
| `TsvLib.LabelTableShape` | src/tsvlib.c:222-231 | after the scan, the label table keeps the pattern labels in order, with distinct labels and no value below -1 |
| `TsvLib.LabelTableFound` | src/tsvlib.c:222-234 | a label holds a position exactly when it is a pattern that some index record names |
| `TsvLib.FoundCountPositive` | src/tsvlib.c:234-238 | a pattern that some index record names makes the found count positive |
| `TsvLib.MissingLabelAborts` | src/tsvlib.c:263-264 | a pattern that no record names keeps -1, so reading the lines at all stored positions raises an error; when every line at a found position fits the buffer, that error is the seek error of lines 143-144 |
| `TsvLib.FindAnyAsWritten` | src/tsvlib.c:238-264 | with `findany`, one pattern found and one not, the match rule passes, yet reading the lines as written raises an error |
| `TsvLib.FoundLinesFit` | src/tsvlib.c:248-265 | only found labels are read, none at a negative position; with distinct patterns, their lines plus the header fill the result exactly |
| `TsvLib.UpsertPlaced` | src/tsvlib.c:788-789 | inserting a label with a position keeps every label placed |
| `TsvLib.RebuiltValid` | src/tsvlib.c:779-794 | the rebuilt table has distinct labels, each with a position |
| `TsvLib.RebuiltFind` | src/tsvlib.c:779-794 | a label keeps its position in the rebuilt table exactly when it is a pattern that was found; every other label is absent |
| `TsvLib.KeepFound` | src/tsvlib.c:779-794 | the rebuild makes a fresh table of the patterns found, in request order, with their positions; the column rebuild at lines 837-852 is the same |

## Left out

- `freeDynHashTab` (src/dht.h:15) and all memory ownership: freeing, `DHT_STRDUP` copies, the leaks at src/tsvlib.c:792 and 850, and allocation failure. Dafny has no explicit deallocation.
- The value-carrying table API (`insertStrVal`, `changeStrVal`, `setAllValues`, `countValues`, `countNotValues`, `getStringValue`, `initIterator`/`getNextStr`, `dhtNumStrings` (read as the number of entries), and the two- and three-argument `newDynHashTab`) is not defined by any file of this revision. `ValueDht.ValueTab` gives it a contract over entries in insertion order. The iterator is assumed to yield every stored key once, in that order. Only the order part is what `Dht` implements.
- `Dht.SuperFastHashModified` is written out over `bv32`, but every table property is proved for any hash function. Its `int len` parameter truncates keys of 2^31 bytes or more, which the model does not capture.
- `Dht.DynHashTab.InsertStr` and `Dht.DynHashTab.GetStringIndex` require keys without NUL bytes. The source compares keys with `strncmp`, which stops at a NUL.
- `GetLines.FindColIndices` requires every header field to fit the 1024-byte `label` buffer. The source does not check this.
- `GetLines.FindColIndices`: its `warn` calls for duplicate and missing labels are dropped.
- `TsvLib.ScanHeaderLine` assumes `fgets` reads whole lines. Truncation of a header or first row longer than the buffer is not modelled.
- `TsvLib.ScanHeaderLine` takes line lengths as byte counts. `strlen` would stop at an embedded NUL.
- `TsvLib.GetTsvLineBuffer`: the `warning` for a line ended by EOF is the `eof` flag. An `fseek` past the end of the file reads an empty line.
- `TsvLib.GetTsvFields`: the setter is a recorded write of (cell index, field bytes). `set_result_str`, `set_result_int` and `set_result_num` (`strtol`, `strtod`, NA handling, floating point) are not modelled.
- `TsvLib.GetDataFromFile`: its `warn` messages become the `skipped` flag. It is modelled for one file. `tsvGetData`'s loop over several files, its R matrix allocation and `add_dims` are not modelled.
- `TsvLib.TsvGetLines`: with a pattern given twice, the source counts both copies in `Npattern`. The result vector then has trailing unset elements. `TsvLib.FoundLinesFit` states the exact fit only for distinct patterns.
- `TsvLib.DataMatchError`: the rule is stated over bare counts. `tsvGetData` takes `NrowPattern` as the length of the pattern vector (tsvlib.c:739), repeats included, while `countNotValues` counts distinct labels. So the request `["a", "a"]` with both copies found and `findany` false fails the rule at tsvlib.c:772. Counting the patterns of a request is not part of this model.
- R glue is not modelled: `R_init_tsvio`, `R_unload_tsvio`, SEXP conversion, `PROTECT`, `mkCharLen`, `report_genindex_errors`, `tsvGenIndex`, `autoRowPatterns` and `dhtToStringVec`.
- File opening, temp files and `closeTsvFiles` are not modelled. Files are byte sequences given as parameters.
- `GenIndex.GenerateIndex`: the output is an in-memory byte sequence that cannot fail, so WRITE_ERROR from `putc`/`fprintf` is never returned.
- Integer widths are not modelled. Offsets and counts are unbounded, so `atol` overflow on more than 18 digits and the `int len` of `get_tsv_line_buffer` are out of scope.
- The stale declarations in src/tsvio.h:5-8 and src/getlines.h do not match the definitions. The model follows the definitions.

## Findings

| source | as written | input that shows it | evidently intended | confidence | as-written member | corrected member |
|---|---|---|---|---|---|---|
| src/tsvlib.c:238, 263-265 | `tsvGetLines` reads the line at the stored position of every pattern, including patterns still at -1. With `findany` the match rule lets partial matches through, but `fseek` to -1 then raises an error (src/tsvlib.c:143-144). The result vector also has only `Nresult + 1` elements. | patterns `["a", "b"]`, `findany` TRUE, an index naming only `a` | return the header and the lines of the found patterns only, as `getDataFromFile` does for rows (src/tsvlib.c:616) | not executed | `TsvLib.TsvGetLinesAsWritten`, `TsvLib.FindAnyAsWritten` | `TsvLib.TsvGetLines`, `TsvLib.FoundLinesFit` |
