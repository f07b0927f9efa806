# Verification of the OBLogProxy core

OBLogProxy converts OceanBase change records into MySQL binlog files and runs a
cluster of converter instances that coordinate through a shared meta database.
This project models the parts of it whose correctness is hardest to see and
proves their properties in Dafny 4.11: `dafny verify dfyconfig.toml`.

## What is modelled

- **JSON columns** (`JsonFormat`, `JsonEncoder`): the recursive encoder of the
  large binary format with its relative offsets and header slots patched after
  the fact, against a reader that follows the stored offsets. Main results:
  `JsonFormat.RoundTrip`, `ArrayLayout` and `ObjectLayout`.
- **DECIMAL, TIME and DATETIME columns** (`DecimalFormat`, `DecimalEncoder`,
  `TimeFormat`): the packing loops, their decoders, and the equality of
  byte-wise order with numeric and time order.
- **Row images** (`RowFormat`, `RowImage`, `RowSerializer`, `RowValues`, `Labels`): table
  map metadata, null bitmap, partial-JSON bitmap and column bytes.
  `RowValues.RowMeansItsCells` joins all value encoders: a reader with nothing
  but column types, metadata bytes and null bitmap sees exactly the values of
  the row.
- **GTID bookkeeping** (`GtidLog`, `GtidContents`, `GtidManagers`,
  `GtidReplication`): the
  compressor from transactions and heartbeats to the GTID log as a state
  machine, the manager object that refines it step by step, and the copy of the
  log in the meta table. The results hold over every run, with restarts that
  replay old events, purges and clean-ups in between; that the table is a prefix
  of the log holds over the runs that remove no line.
- **GTID sets** (`GtidSets`, `PreviousGtids`, `PreviousGtidsEvents`): interval
  merging and the event that carries the sets between files.
- **Crash recovery** (`RecoveryScan`, `WrittenBinlog`): the scan of a torn binlog
  file on bytes, with the exact condition under which it ends, and the transaction
  ids it reports against those the writer stored.
- **Cluster protocol** (`Failover`, `Election`): probes and elections as
  interleaved atomic statements on shared rows.
- **Purging** (`Purge`, `BinlogIndexes`, `GtidPurged`): the two purge commands on
  the index, and purges and expiry among rotations, flushes and saves as a state
  machine.
- **Rate limiter** (`TokenBucket`) and **packet framing** (`Packets`,
  `Connections`).

`Bytes` holds the integer codecs that the encoders share, `Wrappers` the option
type. `KnownAnswers` writes out the bytes of small values in every format.

Code that works by updating objects, vectors and buffers is modelled by classes
and methods with loops, each proved against a function; the properties are then
proved about that function. Clocks, the checksum function, random choices and
configuration values are parameters. The doubles of the token bucket are
reals, `log10` in the digit count is an exact digit count, and a socket is a
sequence of bytes in each direction.

## Where the code and its own intent differ

The model follows the code. Each of these is stated by a member of the project,
with the exact condition under which the intended property holds and, where the
condition can fail, a lemma at an input that fails it.

- A non-empty JSON array at depth 100 or more is left with blank slots
  (`JsonFormat.HundredArraysAreLost`). A JSON key is cut at its first NUL
  (`JsonFormat.NulKeyIsCut`), and its length is stored modulo 65536
  (`JsonFormat.LongKeyIsCut`). The exact condition is `JsonFormat.RoundTrip`. The
  inline test of unsigned integers goes through a signed 32-bit variable, so
  2^31..2^32-1 is written out of line as INT64; it still reads back.
- DECIMAL minus zero sorts below zero (`DecimalFormat.OrderIsNumeric`,
  `DecimalEncoder.MinusZeroSortsLower`). The assertion on the last fraction group
  is written with a strict comparison, but the group ends exactly at the end of
  the buffer.
- A negative TIME whose fraction vanishes at the scale of its column is stored
  one second off (`TimeFormat.TimeRoundTrip`, `TimeFormat.LostFractionWitness`)
  and sorts too low (`TimeFormat.TimeOrderedIff`, `TimeFormat.LostSortsLower`).
- The length of a VARCHAR is stored modulo 65536 and that of a CHAR modulo 1024,
  so some wide columns are read with one length byte where two are emitted
  (`RowFormat.WideVarcharIsMisread`, `RowFormat.WideCharIsMisread`), and a value of
  65536 bytes or more loses its length (`RowFormat.LongTextIsCut`,
  `RowImage.LongTextsCollide`). The exact conditions are `RowFormat.WidthAgrees` and
  `RowImage.RowSplit`.
- The label search of ENUM and SET compares a prefix, so a member can be stored as
  an earlier one (`Labels.EnumStoredIff`, `Labels.LongerLabelIsLost`,
  `Labels.SetStoredIff`).
- A snapshot taken before the first heartbeat of an instance compares no
  heartbeat, so it can take a refreshed instance offline
  (`Failover.StaleSnapshot`, `Failover.FirstHeartbeatIsNotProtected`). Heartbeats
  come from the clock of whichever node probes; a clock that is behind can write
  an old heartbeat back and undo the protection
  (`Failover.SlowClockUndoesProtection`); with one clock it holds
  (`Failover.OneClockIsSafe`).
- Log entries that share their version with the newest row of the meta table
  are never copied (`GtidReplication.RoundContinues`,
  `GtidReplication.SameVersionNeverCopied`). Two transactions of one second are
  enough (`GtidReplication.BusySecondLosesAnEntry`).
- The bound for the removal of old heartbeat rows is read from the wrong column of
  the report (src/cluster/database_protocol.cpp:3621 against
  src/binlog/sql_cmd_processor.cpp:2659-2670), so it removes every heartbeat row
  (`GtidReplication.MicrosecondsRemoveAll`). A removal that takes the newest row
  lets an entry be inserted again (`GtidReplication.InsertedOnce`,
  `GtidReplication.ForgottenHeartbeatReturns`).
- A torn tail that shows the header of a closing event makes recovery fail
  (`RecoveryScan.RecoveredAfterCut`, `RecoveryScan.TornXidIsRefused`). Headers
  that lead back keep the scan running for ever (`RecoveryScan.NeverEndsIff`),
  for example one that points to itself or a file of zeros
  (`RecoveryScan.SelfPointingNeverEnds`, `RecoveryScan.ZerosNeverEnd`). A file
  without the magic number is reported as sound (`RecoveryScan.SeekAndVerify`).
- Merging two range lists is not union in general (`GtidSets.MergeIsUnion`,
  `GtidSets.MergeDropsEarlierIds`, `GtidPurged.MergeIsUnionWithPrefix`).
- The previous-GTIDs event loses a range whose start is its end plus one in 64
  bits (`PreviousGtids.RoundTrip`, `PreviousGtids.ReversedRangeBecomesOne`).
- A purge of every record leaves the index file as it was (`Purge.IndexFollows`,
  `Purge.PurgeOfAllKeepsIndex`). That needs an active file that is missing from
  the index, which only an expiry that does not spare the active file brings about
  (`GtidPurged.IndexAlwaysFollows`, `GtidPurged.ExpiryLeadsToPurgeOfAll`).
- Expiry reads the index and writes it back later on another thread, so a file
  added in between is lost from the index, and the next flush overwrites the record
  of another file (`GtidPurged.ExpiryKeepsIff`, `GtidPurged.FlushKeepsOthersIff`,
  `GtidPurged.StaleExpiryLosesFile`).
- Between the index addition of a rotation and the next flush the old file counts
  as the active one, so the new file can be purged (`GtidPurged.WritingIsPurgedIff`,
  `GtidPurged.NewFileIsPurged`).
- After a purge the GTID log can take up a purged GTID again, because the next
  entry repeats the last GTID of the active file (`GtidPurged.LogAboveIff`,
  `GtidPurged.HeartbeatSavesPurgedGtid`).

The test meant to keep grayscale and paused instances out of the RUNNING state is
always true (src/cluster/database_protocol.cpp:3640). It changes the state of no
row, because only rows read as RUNNING are probed (`Failover.ReportChangesStateIff`).

## Model

| member | source | states |
|---|---|---|
| JsonEncoder.Parse | src/binlog/json_parser.h:536-541 | A document is written as its root type byte and its body, for every well-formed value |
| JsonEncoder.ParseNestedObject | src/binlog/json_parser.h:234-412 | The recursive encoder appends exactly the body of the value, patches the type into the parent entry, and returns the bytes appended minus the root type byte, even when the depth limit cuts an array short |
| JsonEncoder.AppendScalar | src/binlog/json_parser.h:413-534 | Literals, strings and every integer and double are appended at the width the number branches choose, and the count returned is theirs |
| JsonEncoder.AppendArray | src/binlog/json_parser.h:362-412 | Header, blank entries and values are appended and the size slot patched afterwards; beyond depth 100 the slots stay blank |
| JsonEncoder.AppendObject | src/binlog/json_parser.h:288-361 | Header, key entries, blank value entries, keys and values are appended and the size slot patched afterwards |
| JsonEncoder.AppendKeyEntries | src/binlog/json_parser.h:320-330 | Each key entry holds the offset and length of its own key; the offset ends behind the last key |
| JsonEncoder.AppendKeys | src/binlog/json_parser.h:336-343 | The keys lie back to back, each cut at its first NUL |
| JsonEncoder.AppendValues | src/binlog/json_parser.h:345-351 | The value loop fills every entry and appends the out-of-line values in order; the offset ends behind the last one |
| JsonEncoder.AppendValue | src/binlog/json_parser.h:209-232 | An inlined value changes only its entry; any other value stores the current offset and grows the buffer by its body |
| JsonEncoder.AppendVariableLength | src/binlog/json_parser.h:193-207 | The do-while loop appends the unsigned LEB128 form of the length and adds its size to the offset |
| JsonFormat.ReadLebOfLeb | src/binlog/json_parser.h:193-207 | A LEB128 reader recovers every length and the number of bytes used |
| JsonFormat.ReadNumberBody | src/binlog/json_parser.h:431-534 | Every integer of the 64-bit signed and unsigned ranges is read back from the width and type chosen for it, including 2^31..2^32-1, which is written as INT64 |
| JsonFormat.ReadInlined | src/binlog/json_parser.h:126-163 | The inlined form of null, booleans and small integers reads back as that value |
| JsonFormat.ReadArray | src/binlog/json_parser.h:362-412 | The reader recovers an array above the depth limit element by element |
| JsonFormat.ReadCutArray | src/binlog/json_parser.h:394-402 | A non-empty array at the depth limit is not readable |
| JsonFormat.ReadObject | src/binlog/json_parser.h:288-361 | The reader recovers the keys as stored, up to their first NUL and with the length taken modulo 65536, and the members in source order |
| JsonFormat.ReadEntriesBack | src/binlog/json_parser.h:209-232 | Following the stored offsets of the value entries recovers all children |
| JsonFormat.ArrayLayout | src/binlog/json_parser.h:362-412 | Header, value entries and values tile an array: each stored offset starts the region of its own child, and the last region ends at the end |
| JsonFormat.ObjectLayout | src/binlog/json_parser.h:288-361 | The same for an object with its key entries and keys, every key and value lying where its entry says |
| JsonFormat.EntrySlot | src/binlog/json_parser.h:209-232 | Entry i holds child i inlined, or its type and the start of its region |
| JsonFormat.ValueRegion | src/binlog/json_parser.h:209-232 | The region of child i holds exactly the bytes of child i |
| JsonFormat.KeyRegion | src/binlog/json_parser.h:320-343 | Key entry i stores where key i lies and how long it is |
| JsonFormat.DocumentRead | src/binlog/json_parser.h:234-541 | For every document whose encoding is below 4 GB, reading the encoding gives nothing if a non-empty array sits at depth 100 or deeper, and otherwise the document with its keys as stored |
| JsonFormat.RoundTrip | src/binlog/json_parser.h:234-541 | Reading the encoding gives the document back if and only if no non-empty array is too deep and every key is free of NULs and shorter than 65536 bytes |
| JsonFormat.NulKeyIsCut | src/binlog/json_parser.h:320-343 | A member whose key starts with a NUL comes back under the empty name |
| JsonFormat.LongKeyIsCut | src/binlog/json_parser.h:320-343 | A member whose key has exactly 65536 bytes and no NUL comes back under the empty name |
| JsonFormat.HundredArraysAreLost | src/binlog/json_parser.h:394-402 | One hundred arrays around a null are written and cannot be read |
| KnownAnswers.JsonNumberTypes | src/binlog/json_parser.h:431-534 | The type byte and width of every 64-bit integer, by its range |
| KnownAnswers.JsonInlined | src/binlog/json_parser.h:126-163 | Exactly the signed 32-bit integers are held in their entry, with type 5 or 7 |
| KnownAnswers.JsonScalars | src/binlog/json_parser.h:413-534 | The bytes of null, the booleans, an integer, a double and a string |
| KnownAnswers.JsonArray | src/binlog/json_parser.h:362-412 | The bytes of the array of the number one and the string a |
| KnownAnswers.JsonObject | src/binlog/json_parser.h:288-361 | The bytes of the object with the member a of value null |
| DecimalEncoder.Convert | src/binlog/data_type.cpp:343-517 | For every precision, scale and text with exactly scale fraction digits, the array filled in place is the packed, sign-masked, sign-flipped code of the column digits; the last partial group ends at the end of the buffer |
| DecimalEncoder.StoreInteger | src/binlog/data_type.cpp:409-461 | Sign bytes, the short leading group and the full groups of nine are the packed integer digits with leading zeros restored |
| DecimalEncoder.StoreFraction | src/binlog/data_type.cpp:463-512 | Full groups and the short last group fill the buffer exactly to its end |
| DecimalEncoder.StoreNines | src/binlog/data_type.cpp:455-472 | The group loop packs nine digits into four big-endian bytes each |
| DecimalEncoder.StoreGroup | src/binlog/data_type.cpp:429-451 | One group is its number, masked by the sign, stored big-endian |
| DecimalEncoder.FillSign | src/binlog/data_type.cpp:409-414 | Bytes in front of a short integer part are the masked zeros that part would have |
| DecimalEncoder.PackPadded | src/binlog/data_type.cpp:409-451 | Leading zeros change nothing but the bytes in front |
| DecimalFormat.RoundTrip | src/binlog/data_type.cpp:343-517 | Decoding the code of any digit string under any group shape gives its sign and number |
| DecimalFormat.OrderIsRank | src/binlog/data_type.cpp:343-517 | Byte-wise order of two codes of one shape is the order of sign and magnitude, negatives included |
| DecimalFormat.OrderIsNumeric | src/binlog/data_type.cpp:343-517 | Byte-wise order is numeric order except that minus zero sorts below zero |
| DecimalEncoder.TextRoundTrip | src/binlog/data_type.cpp:343-517 | The bytes of every valid text decode to the number the text denotes |
| DecimalEncoder.TextOrder | src/binlog/data_type.cpp:343-517 | For two valid texts of one column the bytes compare as the numbers do, minus zero aside |
| DecimalEncoder.MinusZeroSortsLower | src/binlog/data_type.cpp:343-517 | The texts -0 and 0 denote one number, and the bytes of the first sort below those of the second |
| KnownAnswers.DigitsToBytesLeast | src/binlog/data_type.h:85 | A group of digits takes the fewest bytes that hold its numbers and a sign bit |
| KnownAnswers.DecimalBytes | src/binlog/data_type.cpp:343-517 | The bytes of 12.34 and -12.34 in a DECIMAL(4, 2) |
| TimeFormat.CutoutOrPadZero | src/binlog/data_type.cpp:784-807 | Both loops together scale a number to the target count of digits |
| TimeFormat.CutoutExact | src/binlog/data_type.cpp:784-813 | Counting prefix zeros and cutting scales every fraction string exactly to its first n digits, zero-padded |
| TimeFormat.CutoutTimesTen | src/binlog/data_type.cpp:691-693 | The extra factor of ten for an odd scale changes nothing |
| TimeFormat.ConvertTime | src/binlog/data_type.cpp:625-666 | The branches over the scale write the offset time big-endian and the signed fraction in its bytes |
| TimeFormat.TimeIsInteger | src/binlog/data_type.cpp:625-666 | The code is one big-endian integer: the offset plus the signed time, less one second when a negative fraction vanished |
| TimeFormat.TimeRoundTrip | src/binlog/data_type.cpp:625-666 | A valid TIME comes back at every scale if and only if it is not a negative time whose fraction vanishes at the scale |
| TimeFormat.ColumnFractionKept | src/binlog/data_type.cpp:625-666 | With no more fraction digits than the column stores, nothing vanishes |
| TimeFormat.TimeOrder | src/binlog/data_type.cpp:625-666 | Byte order of two TIME codes that lost no fraction is time order, negative times with fractions included |
| TimeFormat.TimeOrderedIff | src/binlog/data_type.cpp:625-666 | A valid TIME compares in time order with every TIME that lost no fraction if and only if it lost none itself |
| TimeFormat.LostSortsLower | src/binlog/data_type.cpp:625-666 | Every TIME with a lost fraction sorts below the same time without a fraction, although both have the same value at the scale |
| TimeFormat.LostFractionWitness | src/binlog/data_type.cpp:625-645 | Minus 1.001 seconds at scale two is read as minus two seconds |
| TimeFormat.ConvertDateTime | src/binlog/data_type.cpp:668-724 | The shifts and the branches over the scale write the packed fields and the fraction |
| TimeFormat.DateFieldsBack | src/binlog/data_type.cpp:677-689 | The fields stay inside their bits, because year * 13 + month stays below 2^17, and come back |
| TimeFormat.DateTimeRoundTrip | src/binlog/data_type.cpp:668-724 | Every valid DATETIME comes back at every scale 0..6 |
| TimeFormat.DateTimeOrder | src/binlog/data_type.cpp:668-724 | Byte order of two DATETIME codes is calendar order |
| KnownAnswers.TimeBytes | src/binlog/data_type.cpp:625-666 | The bytes of 01:02:03, of its negative, and of minus one and a half seconds |
| KnownAnswers.DateTimeBytes | src/binlog/data_type.cpp:668-724 | The bytes of 2000-01-01 01:02:03 without and with a fraction |
| RowFormat.StringLengthBack | src/binlog/data_type.cpp:48-52 | The reader recovers the length of a STRING column modulo 1024 from the low byte and the two bits folded into its type byte |
| RowFormat.WidthAgrees | src/binlog/data_type.cpp:25-119 | For every type but NULL and GEOMETRY, and every value within the limits of its type, the width a reader derives from the metadata and the bytes is that of the bytes emitted if and only if, for a string column, the stored length asks for as many length bytes as the column and the value is below 65536 bytes |
| RowFormat.WideVarcharIsMisread | src/binlog/data_type.cpp:53-55 | VARCHAR(16384) of four bytes a character stores the length zero, so a reader takes one length byte where two are emitted |
| RowFormat.WideCharIsMisread | src/binlog/data_type.cpp:48-52 | The same for CHAR(256) of four bytes a character, whose length 1024 has no place in ten bits |
| RowFormat.LongTextIsCut | src/binlog/data_type.cpp:320-342 | A value of 65536 bytes is emitted with the length zero |
| KnownAnswers.ShortColumns | src/binlog/data_type.cpp:815-901 | Metadata and bytes of TINYINT, SMALLINT and MEDIUMINT values |
| KnownAnswers.LongColumns | src/binlog/data_type.cpp:815-901 | The same of INT and BIGINT |
| KnownAnswers.DayColumns | src/binlog/data_type.cpp:815-901 | The same of YEAR and DATE |
| KnownAnswers.EnumColumns | src/binlog/data_type.cpp:519-543 | The same of ENUM below and from 256 labels |
| KnownAnswers.BitColumns | src/binlog/data_type.cpp:815-901 | The same of BIT and SET |
| KnownAnswers.CharColumns | src/binlog/data_type.cpp:319-341 | The same of CHAR with one and with two length bytes |
| KnownAnswers.VarcharColumns | src/binlog/data_type.cpp:319-341 | The same of VARCHAR |
| KnownAnswers.SmallBlobColumns | src/binlog/data_type.cpp:815-901 | The same of TINYBLOB and BLOB |
| KnownAnswers.LargeBlobColumns | src/binlog/data_type.cpp:815-901 | The same of MEDIUMBLOB and LONGBLOB |
| KnownAnswers.JsonColumn | src/binlog/data_type.cpp:815-901 | The same of JSON |
| KnownAnswers.FloatColumns | src/binlog/data_type.cpp:290-317 | The same of FLOAT up to and beyond precision 24 and of DOUBLE |
| KnownAnswers.TimestampColumns | src/binlog/data_type.cpp:584-623 | The same of TIMESTAMP without and with a fraction |
| KnownAnswers.DecimalColumn | src/binlog/data_type.cpp:343-517 | The same of DECIMAL(4, 2) |
| Labels.FindLabel | src/binlog/data_type.cpp:519-545 | The loop finds the first label that the value begins with |
| Labels.EnumStoredIff | src/binlog/data_type.cpp:519-545 | A member of an ENUM is stored as itself if and only if no earlier label is a prefix of it |
| Labels.LongerLabelIsLost | src/binlog/data_type.cpp:519-545 | The second member of an ENUM of a and ab is stored as the first |
| Labels.FindLabels | src/binlog/data_type.cpp:547-565 | The loops set exactly the bits of the labels that some part of the value begins with |
| Labels.SetStoredIff | src/binlog/data_type.cpp:547-565 | The bits are the members of a SET value if and only if no label outside the value is a prefix of a member |
| RowImage.FillBitmap | src/binlog/data_type.cpp:1228-1237 | Bits of columns are clear and the unused bits of the last byte are set |
| RowImage.SetBit | src/binlog/data_type.cpp:1123 | Setting one bit in place changes that bit only |
| KnownAnswers.NullBitmap | src/binlog/data_type.cpp:1228-1237 | The null bitmap of ten columns of which the first and the last are null |
| RowImage.RowSplit | src/binlog/data_type.cpp:1106-1178 | Null flags and metadata split the row bytes into the columns emitted and leave what follows if and only if every string value of the row is legible |
| RowImage.RowReadsBack | src/binlog/data_type.cpp:1106-1178 | The same from the bits of the null bitmap |
| RowImage.RowsAreUnique | src/binlog/data_type.cpp:1106-1178 | Two rows of one table with the same bitmap and bytes, and no string of 65536 bytes or more, agree column by column |
| RowImage.LongTextsCollide | src/binlog/data_type.cpp:320-342 | Two different rows of two VARCHAR(65535) columns with the same bytes |
| RowSerializer.SerializeBefore | src/binlog/data_type.cpp:1106-1133 | The loop appends the non-null columns in order, counts their bytes and sets exactly the null bits |
| RowSerializer.SerializeAfter | src/binlog/data_type.cpp:1135-1180 | The same for the after image; the partial bitmap has a bit exactly for the JSON columns that carry a diff, and a diff is reported exactly when there is one |
| RowSerializer.PartialBitOf | src/binlog/data_type.cpp:1171-1178 | Bit j is set if and only if the j-th JSON column is a non-null diff of an update |
| RowSerializer.ColValBytes | src/binlog/data_type.cpp:1181-1226 | Both images, their total size, and a partial bitmap exactly for an update in which some JSON column carries a diff |
| RowValues.ValueBack | src/binlog/data_type.cpp:815-901 | For every type a reader with the type and the metadata bytes alone reads the bytes of a value as that value, integers modulo their width, and a string if and only if its stored length asks for the right length bytes |
| RowValues.RowMeansItsCells | src/binlog/data_type.cpp:1106-1133 | A legible row read with types, metadata bytes and null bitmap alone shows nulls as nulls and every other column as its value |
| GtidManagers.GtidManager.MarkEvent | src/binlog/gtid_manager.cpp:70-85 | One mark is the marking step of the state machine |
| GtidManagers.GtidManager.CompressAndSave | src/binlog/gtid_manager.cpp:87-120 | A flush saves the marked entries, then a transaction or heartbeat entry as time and count demand |
| GtidManagers.GtidManager.SavePending | src/binlog/gtid_manager.cpp:89-97 | The loop saves the marked entries in order and changes no counter |
| GtidManagers.GtidManager.SaveGtidSeq | src/binlog/gtid_manager.cpp:122-160 | An entry not newer than the cache after a restart is skipped; any other goes to cache, file and log |
| GtidManagers.GtidManager.EvictOutdated | src/binlog/gtid_manager.cpp:139-145 | Cached entries outside the window leave from the front |
| GtidManagers.GtidManager.ClearOutdatedHeartbeats | src/binlog/gtid_manager.cpp:392-405 | Old heartbeat entries leave the file once the signed 32-bit elapsed time passes the limit |
| GtidManagers.GtidManager.PurgeGtidBefore | src/binlog/gtid_manager.cpp:162-171 | The file keeps the entries above the GTID, in order |
| GtidManagers.GtidManager.Reopen | src/binlog/gtid_manager.cpp:280-314 | A start reads the window of the file back into the cache and resets the counters |
| GtidManagers.GtidManager.ReadLastValid | src/binlog/gtid_manager.cpp:446-478 | The last line that has a version is found |
| GtidManagers.LoadCache | src/binlog/gtid_manager.cpp:280-314 | The loading loop keeps the lines inside the window and finds the first version |
| GtidManagers.FilterAbove | src/binlog/gtid_manager.cpp:407-439 | The rewriting loop keeps the entries above the GTID and finds the first version among them |
| GtidManagers.GtidManager.IncrementalGtids | src/binlog/gtid_manager.cpp:188-242 | An incremental query is answered like a scan of the whole log when the cache reaches back far enough, and from the file otherwise |
| GtidManagers.Collect | src/binlog/gtid_manager.cpp:198-236 | The reporting loop returns the entries after the moment up to one beyond the limit |
| GtidManagers.BinarySearchGtidSeq | src/binlog/gtid_manager.cpp:480-530 | The unsigned indices never underflow, and the last entry not above the moment is found; moments outside the report give its ends |
| GtidLog.RunKeeps | src/binlog/gtid_manager.cpp:70-160 | The invariant of the manager holds in every state reachable by marks, flushes, purges and restarts |
| GtidLog.SavedLogOrdered | src/binlog/gtid_manager.cpp:122-160 | The saved log has non-decreasing versions over every run with restarts that replay old events and purges |
| GtidLog.TransactionsConserved | src/binlog/gtid_manager.cpp:70-120 | Within a process run the transactions marked are the sum of those counted by the log entries saved since its start, those counted by the entries skipped as replayed, and those pending |
| GtidLog.StepAppends | src/binlog/gtid_manager.cpp:70-160 | Within a process run the log only grows behind the entries it started with |
| GtidLog.FlushIsFresh | src/binlog/gtid_manager.cpp:87-120 | After a flush nothing is left unsaved beyond one interval or one batch |
| GtidContents.FlushWrites | src/binlog/gtid_manager.cpp:87-160 | A flush puts behind the log its marked entries and then, when due, one entry with the GTID of the flush: the batch with its transaction id and count, or a heartbeat; a restarted process passes over the first entries that are not newer than its log |
| GtidContents.SkipsOnlyOld | src/binlog/gtid_manager.cpp:124-136 | Only a restarted process passes over entries, and exactly up to the first that is newer than its log |
| GtidContents.GtidsDoNotGoBack | src/binlog/gtid_manager.cpp:70-160 | Over every run in which the GTIDs of transactions and flushes do not go back, neither do those of the log, the file and the marked entries |
| GtidContents.EntriesComeFromEvents | src/binlog/gtid_manager.cpp:70-160 | Over every run each entry of log and file carries the transaction id, GTID and second of a marked transaction, or the GTID of a flush with its transaction id and the second of a transaction, or the GTID of a flush and the second of a heartbeat |
| GtidContents.CacheIsWindow | src/binlog/gtid_manager.cpp:137-145 | Over every run with restarts and purges the cache holds exactly the entries of the log that are less than the window older than the last one |
| GtidContents.CleanUpEffect | src/binlog/gtid_manager.cpp:392-405 | A clean-up runs exactly when it is due, removes exactly the outdated heartbeat entries and records its bound |
| GtidContents.FirstFlushAfterRestart | src/binlog/gtid_manager.cpp:280-314 | When the first transaction of a new process is flushed, in terms of its start |
| GtidContents.KeepAboveExact | src/binlog/gtid_manager.cpp:162-171 | A purge keeps every entry above the GTID as often as it was there and no other |
| GtidLog.MarkedStepIsLogged | src/binlog/gtid_manager.cpp:78-97 | A transaction on the marking step has an entry of its own after the next flush |
| GtidLog.CacheAnswersLikeLog | src/binlog/gtid_manager.cpp:188-242 | A cache that reaches back to the moment answers like the whole log, with the same cut-off |
| GtidLog.CacheAgrees | src/binlog/gtid_manager.cpp:137-242 | In every reachable state the cache is a suffix of the log and answers like it |
| GtidLog.FileIsLog | src/binlog/gtid_manager.cpp:87-160 | Purges aside, a step keeps the file equal to the log if and only if it removes no line: when a clean-up of heartbeats is due in the signed 32-bit test, no entry is older than the expiry |
| GtidReplication.AnswerIsStretch | src/binlog/gtid_manager.cpp:188-242 | A report is the stretch of the log that begins after the moment |
| GtidReplication.TableInOrder | src/cluster/database_protocol.cpp:3369-3412 | Over every run of marks, flushes with their clean-ups, purges, restarts, probes and removals of rows, the table is at every moment an in-order selection of all entries the instance ever saved, no entry twice |
| GtidReplication.InsertedOnce | src/cluster/database_protocol.cpp:3369-3412 | Over every such run in which each removal leaves a row of the newest version, no entry is ever inserted twice |
| GtidReplication.PurgeReachesTable | src/cluster/database_protocol.cpp:3389-3398 | After a purge, the next probe and the removal of rows, exactly the rows up to the purged GTID are gone |
| GtidReplication.MicrosecondsRemoveAll | src/cluster/database_protocol.cpp:3619-3622 | The bound of the heartbeat removal is read from the column of the converter checkpoint in microseconds, so it removes every heartbeat row |
| GtidReplication.ForgottenHeartbeatReturns | src/cluster/database_protocol.cpp:3400-3409 | A run of a new instance in which the row of a heartbeat is removed and inserted again |
| GtidReplication.RoundPlaced | src/binlog/gtid_manager.cpp:188-242 | Whether the cache or the file answers a probe, the batch comes, in the order of saving, behind all rows that are not newer than the table |
| GtidReplication.RoundAppends | src/cluster/database_protocol.cpp:3378-3387 | A probe appends exactly the next stretch of log entries newer than every row of the table |
| GtidReplication.RoundContinues | src/cluster/database_protocol.cpp:3378-3387 | A probe continues a prefix with exactly the next entries if and only if the next entry is newer than the last one copied |
| GtidReplication.TableIsPrefix | src/cluster/database_protocol.cpp:3590-3606 | With strictly increasing versions the table is a prefix of the log in every run that removes no line of the file and no row |
| GtidReplication.CatchesUp | src/cluster/database_protocol.cpp:3590-3606 | With strictly increasing versions the table reaches the whole log, batch by batch, once the log stops growing |
| GtidReplication.SameVersionNeverCopied | src/cluster/database_protocol.cpp:3378-3387 | Entries that share their version with the newest row are never copied |
| GtidReplication.BusySecondLosesAnEntry | src/cluster/database_protocol.cpp:3378-3387 | A run of a new instance with two transactions in one second, after which an entry of the log never reaches the table |
| GtidReplication.StartsInOrder | src/cluster/database_protocol.cpp:3369-3389 | A new instance with an empty table meets the invariants of the runs |
| GtidSets.MergeTxnRange | src/binlog/ob_log_event.cpp:1154-1180 | The sweep over both lists replaces the ranges of the target, which may be the message itself |
| GtidSets.SweepDenotes | src/binlog/ob_log_event.cpp:1161-1178 | An ascending list swept into an open range keeps its ids except those below the start of that range |
| GtidSets.MergeDenotes | src/binlog/ob_log_event.cpp:1154-1180 | Merging ascending lists gives a sorted, disjoint, non-adjacent list of the ids of the message and those of the target not below the last group of the message |
| GtidSets.SelfMergeKeepsIds | src/binlog/ob_log_event.cpp:1106-1144 | Merging any ascending parsed list with itself keeps exactly its ids |
| GtidSets.SelfMergeNormal | src/binlog/ob_log_event.cpp:1106-1180 | That list is normal if and only if no range ends at the largest 64-bit number |
| GtidSets.MergeIsUnion | src/binlog/binlog-instance/binlog_func.cpp:83-109 | Merging is union if and only if the target has no new id below the last group of the message |
| GtidSets.MergeDropsEarlierIds | src/binlog/binlog-instance/binlog_func.cpp:83-109 | Two ascending lists whose merge loses an id |
| GtidSets.IsSubset | src/binlog/binlog-instance/binlog_func.cpp:111-126 | On merged lists the range-by-range test decides inclusion of the ids |
| PreviousGtids.TableHoldsFirsts | src/binlog/ob_log_event.cpp:564-573 | The map of messages is sorted by uuid and holds the first message of every uuid |
| PreviousGtids.RankIsUuid | src/binlog/ob_log_event.cpp:567-573 | The key of the map identifies the uuid |
| PreviousGtids.RangeBack | src/binlog/ob_log_event.cpp:529-535 | A range written half-open reads back as itself, or as one id when its start is its stored end |
| PreviousGtids.RangeKept | src/binlog/ob_log_event.cpp:603-610 | A range is kept if and only if its start is not its end plus one in 64 bits |
| PreviousGtids.MessagesBack | src/binlog/ob_log_event.cpp:575-619 | All messages are read back, up to such ranges, and nothing behind them is consumed |
| PreviousGtids.HeaderBack | src/binlog/ob_log_event.cpp:129-142 | The common header reads back field by field |
| PreviousGtids.RoundTrip | src/binlog/ob_log_event.cpp:506-538 | For every list of messages with correct interval counts, deserializing undoes flushing if and only if every range of the table is kept |
| PreviousGtids.OnlyTheFullRangeIsLost | src/binlog/ob_log_event.cpp:603-610 | With start at most end only the range of all 64-bit numbers is lost |
| PreviousGtids.ReversedRangeBecomesOne | src/binlog/ob_log_event.cpp:603-610 | The range 5-4, which a GTID set text can hold, survives the merge with itself and is read back as 5-5 |
| PreviousGtids.FullRangeBecomesZero | src/binlog/ob_log_event.cpp:603-610 | The range of all 64-bit numbers is read back as the single id zero |
| PreviousGtids.DeclaredIsWritten | src/binlog/ob_log_event.cpp:479-505 | The length declared in the header is the number of bytes written, with or without checksum, as long as it fits 32 bits |
| KnownAnswers.HeaderBytes | src/binlog/ob_log_event.cpp:129-142 | The bytes of a common header |
| KnownAnswers.RangeBytes | src/binlog/ob_log_event.cpp:529-535 | The bytes of the range 1-5 |
| KnownAnswers.MessageBytes | src/binlog/ob_log_event.cpp:520-536 | The bytes of the message of one server |
| PreviousGtidsEvents.PreviousGtidsEvent.constructor | src/binlog/ob_log_event.cpp:479-505 | The constructor adds up the length of the event over the table of its messages |
| PreviousGtidsEvents.PreviousGtidsEvent.SetGtidMessages | src/binlog/ob_log_event.cpp:564-573 | Messages are inserted one by one into the table |
| PreviousGtidsEvents.PreviousGtidsEvent.FlushToBuff | src/binlog/ob_log_event.cpp:507-538 | Flushing fills exactly the declared bytes of the buffer with the encoding and leaves the rest alone |
| PreviousGtidsEvents.PreviousGtidsEvent.Deserialize | src/binlog/ob_log_event.cpp:575-621 | Deserializing fills header, count and table from the bytes its counts announce |
| PreviousGtidsEvents.DeserializeMessage | src/binlog/ob_log_event.cpp:587-616 | One message with its ranges is read at a position and the position advances behind it |
| RecoveryScan.SeekAndVerify | src/binlog/ob_log_event.cpp:2281-2375 | On every file on which the loop ends, what it has found is returned, and the scan fails exactly when the last closing event does not verify; a file without the magic number is accepted as empty |
| RecoveryScan.Scan | src/binlog/ob_log_event.cpp:2302-2369 | On every file on which the loop ends, it returns the iteration of the switch along the next positions of the headers |
| RecoveryScan.NeverEndsIff | src/binlog/ob_log_event.cpp:2302-2369 | The loop runs for ever if and only if it is still running after as many turns as the file has bytes |
| RecoveryScan.ScanIsFold | src/binlog/ob_log_event.cpp:2302-2369 | On whole events and any tail that ends the scan, the loop ends and is a fold over the events and one look at the tail |
| RecoveryScan.VisitEvent | src/binlog/ob_log_event.cpp:2313-2367 | The switch over the event type is one step of the fold |
| RecoveryScan.VerifyEventChecksum | src/binlog/ob_log_event.cpp:2242-2279 | An event verifies exactly when it lies in the file and its checksum is right |
| RecoveryScan.FoldBinlog | src/binlog/ob_log_event.cpp:2281-2375 | Head events, whole transactions, plain events such as a rotation, and a begun transaction give the end and GTID of the last whole transaction and the GTID of the begun one |
| RecoveryScan.Recovered | src/binlog/ob_log_event.cpp:2281-2375 | For such events and any tail that ends the scan: if the tail shows a closing event the scan accepts exactly when that event is intact, and reports the position it points to, inside the file only if that is its end; otherwise it accepts exactly when the last closing event is intact, and reports the end of the last whole transaction and the right GTIDs |
| RecoveryScan.RecoveredAfterCut | src/binlog/ob_log_event.cpp:2281-2375 | After a crash inside a write the scan accepts if and only if the torn bytes show no header of a closing event and the last closing event is intact; it then reports the end of the longest prefix of whole transactions |
| RecoveryScan.CutXidIsRefused | src/binlog/ob_log_event.cpp:2313-2375 | Every file of two head events cut inside an XID event, behind its header, is refused |
| RecoveryScan.TornXidIsRefused | src/binlog/ob_log_event.cpp:2313-2375 | Such a file, with its head events intact |
| RecoveryScan.BackwardTailNeverEnds | src/binlog/ob_log_event.cpp:2302-2369 | A tail whose header points back to the start of an event or to itself keeps the loop running for any number of turns |
| RecoveryScan.SelfPointingNeverEnds | src/binlog/ob_log_event.cpp:2302-2369 | A file of the magic number and one header that points to itself is scanned for ever |
| RecoveryScan.ZerosNeverEnd | src/binlog/ob_log_event.cpp:2302-2369 | A file of zeros behind the magic number is scanned for ever |
| RecoveryScan.RescanIsStable | src/binlog/ob_log_event.cpp:2281-2375 | If the tail shows no closing event, scanning the cut file again accepts it, finds the same end and GTIDs and leaves nothing to cut |
| RecoveryScan.RescanAfterCut | src/binlog/ob_log_event.cpp:2281-2375 | Every accepted file that a crash cut inside a write is repaired by its first scan |
| WrittenBinlog.SealedIff | src/binlog/ob_log_event.cpp:218-227 | An event verifies if and only if it ends with what the writer of checksums appends to its bytes |
| WrittenBinlog.GtidBack | src/binlog/ob_log_event.cpp:1618-1642 | For every flag, uuid and 64-bit id, whatever the other fields hold, the id read from a written GTID event is the id written |
| WrittenBinlog.FoldsIds | src/binlog/ob_log_event.cpp:2281-2375 | The overview of a binlog whose transactions were written with given ids reports those ids and the end of the last whole transaction with the id asked for |
| WrittenBinlog.ReportsIds | src/binlog/ob_log_event.cpp:2281-2375 | With any tail that ends the scan the ids reported are those written: a closing event in the tail closes the begun one, otherwise the last whole one and the begun one are reported |
| WrittenBinlog.RecoversIds | src/binlog/ob_log_event.cpp:2281-2375 | After a crash inside a write every accepted file is reported with the ids that were written |
| WrittenBinlog.SmallFileIsRead | src/binlog/ob_log_event.cpp:2281-2375 | A file of 138 bytes with one transaction, its type codes written out: id and end are found |
| KnownAnswers.MagicBytes | src/binlog/ob_log_event.cpp:2293-2299 | The four bytes a scanned file begins with |
| Failover.MetaTable.UpdateInstance | src/cluster/database_protocol.cpp:1942-1965 | An update changes the row, by the columns that are set, exactly when every set column of the condition matches |
| Failover.MetaTable.Explore | src/cluster/database_protocol.cpp:3575-3687 | One probe with its branches is one step on row and callbacks |
| Failover.GoesDownIff | src/cluster/database_protocol.cpp:3653-3683 | A probe takes a row from RUNNING to OFFLINE if and only if there was no report, the local liveness test failed, the snapshot is RUNNING and matches, and the 64-bit difference of clock and snapshot heartbeat exceeds the expiration; the rest of the row stays |
| Failover.MatchesIff | src/cluster/database_protocol.cpp:1942-1965 | A complete snapshot matches exactly the row it was read from, the configuration aside; an unset column is not compared |
| Failover.ReportEffect | src/cluster/database_protocol.cpp:3608-3650 | A report of a matching row writes clock, delay and dump point and nothing else |
| Failover.AliveEffect | src/cluster/database_protocol.cpp:3653-3667 | A silent instance whose process lives locally gets a new heartbeat exactly if the old one has expired |
| Failover.StepCallsOnce | src/cluster/database_protocol.cpp:3653-3683 | A step calls back exactly the prober that took the row from RUNNING to OFFLINE |
| Failover.FailoverOncePerOutage | src/cluster/database_protocol.cpp:3575-3687 | Under every interleaving of any number of probers with stale snapshots and clocks of their own, the callbacks are the list of the probers that took the row from RUNNING to OFFLINE, one for each such change |
| Failover.DownStaysDown | src/cluster/database_protocol.cpp:3575-3687 | Whatever probes run, a row that is not RUNNING stays as it is and nobody is called back |
| Failover.OneFailoverByProbes | src/cluster/database_protocol.cpp:3575-3687 | Probes alone call back once if they leave a RUNNING row OFFLINE and never otherwise, so a second failover needs another writer in between |
| Failover.ReportChangesStateIff | src/cluster/database_protocol.cpp:3636-3644 | A report changes the state of a row if and only if it matches a row that is not RUNNING, which no snapshot of a RUNNING row does |
| Failover.HeartbeatStaysAway | src/cluster/database_protocol.cpp:3575-3687 | Over every run of probes an overwritten heartbeat does not come back unless some clock reads it again |
| Failover.OneClockNeverReads | src/cluster/database_protocol.cpp:3575-3687 | Over every run of probes with one clock that does not go back, a heartbeat overwritten on the way is never read again |
| Failover.StaleSnapshot | src/cluster/database_protocol.cpp:3653-3683 | A snapshot from before a refresh, whose heartbeat no clock reads again, takes the instance offline if and only if it had no heartbeat at all and agrees with the row otherwise |
| Failover.RefreshedIsSafe | src/cluster/database_protocol.cpp:3653-3683 | A snapshot with a heartbeat that no clock reads again changes nothing of a refreshed instance and calls nobody back |
| Failover.OneClockIsSafe | src/cluster/database_protocol.cpp:3575-3687 | With one clock that does not go back this holds of every snapshot with a heartbeat overwritten on the way |
| Failover.NoEarlyOffline | src/cluster/database_protocol.cpp:3653-3683 | Over every run of probes with one clock, of a row that always had a heartbeat, the row never goes OFFLINE within the expiration of the heartbeat it holds |
| Failover.FirstHeartbeatIsNotProtected | src/cluster/database_protocol.cpp:1942-1965 | A row without heartbeat is refreshed and an earlier snapshot still takes it offline |
| Failover.SlowClockUndoesProtection | src/cluster/database_protocol.cpp:3575-3687 | A node whose clock is behind writes an old heartbeat back, and a snapshot from before takes the refreshed instance offline |
| Election.PrimaryTable.Add | src/cluster/database_protocol.cpp:3784-3797 | An insert succeeds only where the tenant has no row |
| Election.PrimaryTable.Update | src/cluster/database_protocol.cpp:3799-3818 | An update succeeds only if its condition names the current master |
| Election.PrimaryTable.ResetMaster | src/cluster/database_protocol.cpp:703-730 | Undisturbed, a reset empties exactly the master it names |
| Election.PrimaryTable.DeterminePrimary | src/cluster/database_protocol.cpp:643-701 | Undisturbed, the call ends with the row holding the reported master: the proposed one if there was none |
| Election.RunKeeps | src/cluster/database_protocol.cpp:643-730 | The invariant of the interleaved processes holds in every reachable state |
| Election.MasterMoves | src/cluster/database_protocol.cpp:643-730 | Over every interleaving the master moves only from empty to a name or from a name to empty |
| Election.ReportedWasHeld | src/cluster/database_protocol.cpp:643-701 | A name reported as master was held by the row during the call |
| Election.NeverDeposesAnother | src/cluster/database_protocol.cpp:703-730 | A master is deposed only by an election started against it, and an empty row gets only the candidate of the process that fills it |
| Election.VacantBetween | src/cluster/database_protocol.cpp:643-730 | Between two different masters the row was empty |
| Election.AloneReports | src/cluster/database_protocol.cpp:643-730 | Alone, an election from an absent or empty row, or one that holds the master it was started against, installs and reports its candidate; any other master stays and is reported |
| Election.AttemptReports | src/cluster/database_protocol.cpp:643-730 | Alone, an attempt that begins with a look installs its candidate when there is no master or the master has dropped out, and otherwise changes and reports nothing |
| Election.ResetReports | src/cluster/database_protocol.cpp:703-730 | Alone, a mere reset empties the row of the master it names |
| Election.PrimaryTable.ElectAlone | src/cluster/database_protocol.cpp:643-730 | The reset and the determination on the table object are that run of the program |
| Election.EveryProcessEnds | src/cluster/database_protocol.cpp:643-730 | Under every interleaving a process ends within five statements of its own |
| Election.EndsWithCause | src/cluster/database_protocol.cpp:643-730 | A statement ends a call without a name if and only if a query failed, a present master was not dropped, it was only a reset, its reset or insert was refused, or the empty row it had seen was taken by another and cannot be read or is empty again |
| Election.NoNameHasCause | src/cluster/database_protocol.cpp:643-730 | Under every interleaving a call that ends without a name had such a cause |
| Election.ReportIsCurrent | src/cluster/database_protocol.cpp:643-701 | Under every interleaving the statement that ends a call with a name leaves the row with that master, unless the last query failed or found no row |
| TokenBucket.SmoothTokenBucket.Create | src/binlog/token_bucket.cpp:22-31 | A bucket starts empty at the given rate with one burst second |
| TokenBucket.SmoothTokenBucket.Resync | src/binlog/token_bucket.cpp:85-92 | Permits of the passed time are added up to the maximum |
| TokenBucket.SmoothTokenBucket.SetRate | src/binlog/token_bucket.cpp:77-104 | The rate, the maximum and the proportional stored permits change together |
| TokenBucket.SmoothTokenBucket.ReserveAndGetWait | src/binlog/token_bucket.cpp:62-116 | A reservation spends stored permits, charges the rest in truncated microseconds, and its unsigned wait is the time to the free moment and never wraps |
| TokenBucket.ReserveValid | src/binlog/token_bucket.cpp:106-116 | A reservation keeps the stored permits between zero and the maximum and never moves the free moment back |
| TokenBucket.RateChangeValid | src/binlog/token_bucket.cpp:94-104 | A change of rate sets interval and maximum from the rate and keeps the stored permits within the new maximum, in the old proportion |
| TokenBucket.GrantsAreBounded | src/binlog/token_bucket.cpp:62-116 | Over every run, whatever the clock does, permits granted and stored are at most those stored before, one per interval charged, and one microsecond per reservation |
| TokenBucket.GrantedBefore | src/binlog/token_bucket.cpp:62-116 | The same as a bound on the permits granted before a moment |
| TokenBucket.WaitsAreBounded | src/binlog/token_bucket.cpp:62-116 | The free moment is never later than the latest request plus the time of the permits asked for beyond those stored at the start |
| TokenBucket.IdleBucketIsFull | src/binlog/token_bucket.cpp:85-116 | After as much idle time as the maximum is worth the bucket is full, and a request within the maximum moves the free moment no further than now |
| TokenBucket.IdleTimeIsEarned | src/binlog/token_bucket.cpp:62-116 | Over every run, whatever the clock does, permits granted and stored are at least those stored before and one per interval charged, less what the maximum cut off |
| Connections.PacketBuf.EnsureWritable | src/binlog/mysql-protocol/packet_buf.inl:349-362 | The buffer grows in I/O steps, keeps its contents, and refuses exactly what passes the maximum; the 32-bit sum does not wrap |
| Connections.PacketBuf.Extend | src/binlog/mysql-protocol/packet_buf.inl:364-372 | A larger buffer keeps the readable bytes in place |
| Connections.Connection.SendMysqlPacket | src/binlog/connection.cpp:184-197 | One packet: length, sequence number, payload, and the counter goes on modulo 256 |
| Connections.Connection.SendDataPacket | src/binlog/connection.cpp:171-182 | The buffer goes out as the split of its contents |
| Connections.Connection.SendBinlogEvent | src/binlog/connection.cpp:371-381 | An event goes out as the same packets a buffered payload does |
| Connections.Connection.ReadMysqlPacket | src/binlog/connection.cpp:133-169 | One packet is read, or refused for a short stream, a wrong sequence number or the limit |
| Connections.Connection.ReadDataPacket | src/binlog/connection.cpp:121-131 | The loop reads packets up to the first that is not full, on every byte stream |
| Packets.Reassembled | src/binlog/connection.cpp:121-182 | The reader reconstructs what the writer split and consumes exactly those packets, the empty trailer included |
| Packets.OnlyFramingsAccepted | src/binlog/connection.cpp:121-169 | Whatever the reader accepts is the split of the payload it reports |
| Packets.Framing | src/binlog/connection.cpp:121-182 | A read ends well with a payload if and only if the wire starts with the split of that payload and the payload fits the limit |
| Packets.SplitPrefixFree | src/binlog/connection.cpp:171-182 | No wire starts with the packets of two different payloads |
| Packets.ReceivedIffFits | src/binlog/connection.cpp:121-169 | A payload is received if and only if it fits the limit and starts at the expected sequence number |
| Packets.SplitSize | src/binlog/connection.cpp:171-197 | Four bytes per packet, and one packet more than the full ones |
| KnownAnswers.PacketBytes | src/binlog/connection.cpp:171-197 | The bytes of a packet of one byte and of a payload of 16777215 bytes |
| Packets.Conversation | src/binlog/connection.cpp:121-197 | Any list of payloads is received in order and both counters agree afterwards, however often they wrapped |
| BinlogIndexes.BinlogIndexManager.PurgeBinlogBeforeTs | src/binlog/binlog_index.cpp:311-340 | The forward erasing loop keeps and purges the records of the command |
| BinlogIndexes.BinlogIndexManager.PurgeBinlogToFile | src/binlog/binlog_index.cpp:342-373 | The reverse erasing loop keeps and purges the records of the command, and reports the purged files last first |
| BinlogIndexes.BinlogIndexManager.PurgeRecords | src/binlog/binlog_index.cpp:273-279 | Either mode, or the refusal without a time, yields the outcome of the command |
| BinlogIndexes.BinlogIndexManager.PurgeBinlogIndex | src/binlog/binlog_index.cpp:260-291 | A purge updates the GTID log, the purged set and the index file from the outcome of its mode |
| Purge.PurgeSplitsIndex | src/binlog/binlog_index.cpp:311-373 | Either mode splits the index in order into kept and purged records, purges exactly the records the command is about, and never the active file |
| Purge.PartitionConserves | src/binlog/binlog_index.cpp:311-373 | No record is lost or doubled by the split |
| Purge.LastIsLargest | src/binlog/binlog_index.cpp:324-358 | With GTIDs in index order the reported GTID is the largest one purged |
| Purge.FailsIffNotFound | src/binlog/binlog_index.cpp:311-373 | A purge fails exactly when no time was given or the file is not in the index |
| Purge.IndexFollows | src/binlog/binlog_index.cpp:286-290 | The index file follows the kept records if and only if some remain; a failed purge purges nothing; an active file in the index always remains |
| Purge.PurgeOfAllKeepsIndex | src/binlog/binlog_index.cpp:286-290 | With the active file missing from the index, a purge of the only record leaves it in the index file |
| GtidPurged.PurgedSet.MergeGtidBefore | src/binlog/gtid_manager.cpp:558-591 | The loop merges the range into every entry of the server, or adds an entry |
| GtidPurged.MergeKeepsPrefix | src/binlog/gtid_manager.cpp:558-591 | Merging [1, gtid] extends a single range from one |
| GtidPurged.MergeLeavesOthers | src/binlog/gtid_manager.cpp:558-591 | Entries of other servers stay as they are |
| GtidPurged.SameUuids | src/binlog/gtid_manager.cpp:558-575 | Server uuids are compared without regard to case |
| GtidPurged.MergeIsUnionWithPrefix | src/binlog/gtid_manager.cpp:565-575 | For any merged list the ids of [1, gtid] are added exactly if and only if the list is empty, or starts at one and is a single range or has no gap below gtid |
| GtidPurged.PurgedIsOnePrefix | src/binlog/gtid_manager.cpp:162-179 | Over every run of index additions, index updates, saves, clean-ups, purges and expiries with stale readings of the index, the purged set of the server stays one range from one to the largest GTID purged |
| GtidPurged.IndexAlwaysFollows | src/binlog/binlog_index.cpp:286-290 | In every state of a run whose expiries act on the current index and keep the active file, with an active file, the index file holds what a purge keeps |
| GtidPurged.ExpiryKeepsIff | src/binlog/binlog-instance/binlog_storage.cpp:612-708 | When expiry that dropped something writes its index back, a record of the current index stays if and only if expiry had read it and did not drop it |
| GtidPurged.StaleExpiryLosesFile | src/binlog/binlog-instance/binlog_storage.cpp:612-708 | A rotation between the reading and the writing of the index by expiry: the new file is not in the index, and the next flush replaces the record of the file before it |
| GtidPurged.FlushKeepsOthersIff | src/binlog/binlog_index.cpp:168-206 | A flush keeps the records of all other files if and only if the last record of the index is that of its own file |
| GtidPurged.ExpiryLeadsToPurgeOfAll | src/binlog/binlog-instance/binlog_storage.cpp:612-708 | Expiry between a rotation and the next flush drops the active file, and a purge of the new one then leaves its record in the index file |
| GtidPurged.PurgesFileIff | src/binlog/binlog_index.cpp:142-146 | A command purges a file it covers if and only if another file is in memory as the active one |
| GtidPurged.WritingIsPurgedIff | src/binlog/binlog_index.cpp:128-206 | In every state of such a run the file being written is purged if and only if its record was added and not yet updated, another file is in memory, and the command covers it |
| GtidPurged.NewFileIsPurged | src/binlog/binlog_index.cpp:128-146 | A rotation followed by a purge before the next flush purges the new file |
| GtidPurged.PurgeCutsLog | src/binlog/gtid_manager.cpp:162-171 | Right after a purge the GTID log holds only entries above the largest GTID it purged |
| GtidPurged.ExpiryCutsLog | src/binlog/binlog-instance/binlog_storage.cpp:690-695 | The same after expiry, and the purged set reaches the largest GTID dropped |
| GtidPurged.LoadedFileIsSpared | src/binlog/binlog_index.cpp:148-156 | Once the name of the latest file is loaded, that file is spared and any other covered file is purged |
| GtidPurged.LogAboveIff | src/binlog/binlog-instance/binlog_storage.cpp:600-609 | Over a run the GTID log stays above everything purged if and only if every entry is above it when it is saved |
| GtidPurged.HeartbeatSavesPurgedGtid | src/binlog/binlog-instance/binlog_storage.cpp:389-394 | After a purge up to a file whose last GTID the active file still carries, a heartbeat saves that GTID again |

## Left out

- JSON diffs, GEOMETRY and the NULL column type: their encoders use foreign code or emit nothing.
- JSON text: the model starts from the parsed document and does not parse text.
- Float and double columns: their four and eight bytes are taken as given.
- ENUM and SET values in a row: they start from the index or bits that the label search found; reads behind a value shorter than a label are not part of this model.
- Text of temporal values: the model starts from the fields and the fraction digits, not from the string they are split from.
- DecimalEncoder.Convert: covers texts with exactly as many fraction digits as the scale, because with fewer digits the source reads past them.
- RecoveryScan.VisitEvent: what is read behind the buffer of an event announced too short for its GTID is a parameter, as in RecoveryScan.VerifyEventChecksum for a length below four.
- Connections.Connection.SendMysqlPacket: does not model a failing socket write.
- Connections.PacketBuf.EnsureWritable: asks for a maximum capacity that leaves room for one packet below 2^32, as the configured limits do.
- GtidManagers.GtidManager.SaveGtidSeq: does not model a failing append to the log file.
- GtidReplication.TableIsPrefix: leaves out runs that purge or clean up lines or remove rows; for those GtidReplication.TableInOrder says what the table is.
- GtidReplication.InsertedOnce: goes one way; a removal of the newest row brings an entry back only if the instance still reports it.
- GtidContents.CacheIsWindow: leaves out marks in the first second of the epoch, whose version zero the source takes for a missing one.
- GtidContents.CleanUpEffect: is stated for seconds below 2^31, where the signed and unsigned differences agree; GtidLog.FileIsLog covers the rest.
- Failover.NoEarlyOffline: is stated for a row that always had a heartbeat and one clock, because Failover.FirstHeartbeatIsNotProtected and Failover.SlowClockUndoesProtection break it otherwise.
- RowImage.RowsAreUnique: leaves out strings of 65536 bytes or more, for which RowImage.LongTextsCollide shows two rows with the same bytes.
- RowValues.RowMeansItsCells: is stated for legible rows; RowImage.RowSplit says exactly which rows are split rightly.
- GtidManagers.GtidManager.ReadLastValid: works on parsed lines; the byte-wise backward search for the start of a line is not part of this model.
- GtidPurged.PurgedIsOnePrefix: covers runs of one process whose index records carry GTIDs that do not go back; how many records expiry drops by age and size is left open, and restarts and the removal of single files are not part of this model.
- Election.PrimaryTable.ResetMaster: for an empty name it counts an update that changes nothing as done, which in the source depends on how the client library counts rows.
- TokenBucket.SmoothTokenBucket.ReserveAndGetWait: does not model overflow of the 64-bit microsecond counter.
- TokenBucket.SmoothTokenBucket.Create: asks for a positive rate; a negative one gives no bucket and zero divides by zero in the source.
- BinlogIndexes.BinlogIndexManager.PurgeBinlogIndex: does not model failures to read or rewrite the index file, and takes the purge time as a number.
- Election: one row per tenant; lost connections and the choice of the candidate are not part of this model.
- Failover: the steps after the callback that start the instance elsewhere are not part of this model.
- GTID set text: the model starts from the list of ranges.
- Range difference of GTID sets, the loops of expiry by age and size, binlog dumping, SQL commands, metrics, process control and network set-up: they would only add easy members or depend on the system.
