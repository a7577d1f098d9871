# gw-dat reader core, modelled in Dafny

This project models the core of `GWDatReader`, a reader for Guild Wars'
`gw.dat` archive:

- **Header check.** The constructor opens the file and checks its 16-byte header.
- **`readMFT`.** It follows the root pointer to the Master File Table (MFT) and decodes the 16 reserved bootstrap slots. It checks the MFT header signature. It loads the hash table that slot 2 locates, verifies its CRC-32 and decodes its 8-byte records. It sorts the records by FileOffset and skips those that name bootstrap slots. For every file slot from 16 up to the header's Entries, it attaches the file numbers of the records that name the slot, sorted descending, or the sentinel list `[0]`.
- **`read`.** It walks the file slots in order. It reads each slot's data block, checks it against the entry's CRC-32 and dispatches on the compression field: 0 dumps the bytes, 8 goes to an empty decompression branch, and any other value is ignored.

The open file is the archive's bytes plus a read position. `fseek` sets the position, and `fread` returns at most the requested number of bytes from it (`Bytes.Slice`). Where PHP throws or loops forever, the model returns an `Error` value:

- A short root pointer (line 163). `unpack` fails, and the `null` Offset it leaves makes `fseek` throw under strict types: `UnreadableRoot`.
- A 0-byte `fread` of the MFT, the hash table or a block: `ZeroLengthRead`.
- A short slot 0 or a wrong signature (lines 175-181): `InvalidMftHeader`.
- A short slot 2, whose `null` Offset reaches `fseek` (line 184): `UnreadableHashSlot`.
- A partial last hash record, which the typed `usort` comparator rejects: `PartialHashRecord`.
- The unbounded skip loop over the hash table: `HashCursorOverrun`.
- A file slot whose frame is short. On PHP 8, `readMFT` keeps it without an entry (line 207) and carries on. `read` fails on it with `UnreadableEntry` when it reaches that slot (line 137).

On PHP 8, a short frame in slots 1 or 3-15 only makes PHP warn (line 176). The model keeps that slot without an entry, and nothing fails.

Modules:
- `Bytes`: little-endian integers and `substr`/`fread` slices.
- `Layout`: the header constant, the frame layouts, and decoders with their encoders.
- `Crc`: PHP's `crc32`.
- `Sorting`: `usort` by FileOffset and `rsort`.
- `Correlation`: the alias list each file slot receives.
- `Reader`: the bootstrap functions and the class `GWDatReader`. Its methods update the read position and the MFT in place.

## Model

| member | source | states |
|---|---|---|
| Bytes.FromLEOfToLE | src/GWDatReader.php:79 | decoding a value's n-byte little-endian encoding gives the value back |
| Bytes.ToLEOfFromLE | src/GWDatReader.php:79 | every byte string is the encoding of the integer decoded from it, so the little-endian codes lose nothing |
| Bytes.Slice | src/GWDatReader.php:172 | a `substr`/`fread` result is never longer than asked; it is full-length exactly when the range fits; a short result is exactly the bytes that remain from the start, and a start at or past the end gives nothing |
| Layout.SlotFrame | src/GWDatReader.php:172 | slot i's frame is full exactly when bytes [24i, 24i+24) lie inside the raw MFT, and is then those bytes |
| Layout.HashFrame | src/GWDatReader.php:193 | record j's frame is full exactly when bytes [8j, 8j+8) lie inside the raw hash table, and is then those bytes |
| Layout.DecodeRoot | src/GWDatReader.php:163 | the root pointer decodes exactly when 16 bytes are available |
| Layout.RootIgnoresGap | src/GWDatReader.php:158-163 | the root pointer depends only on its Offset and Size bytes, not on the 4 skipped bytes |
| Layout.DecodeMftHeader | src/GWDatReader.php:56 | slot 0 decodes exactly when its frame is full, with a 4-byte signature |
| Layout.DecodeEntry | src/GWDatReader.php:79 | an MFT entry decodes exactly when its frame is full |
| Layout.DecodeHashRecord | src/GWDatReader.php:193 | a hash record decodes exactly when 8 bytes are available |
| Layout.EncodeRoot | src/GWDatReader.php:158-163 | the root pointer layout takes 16 bytes |
| Layout.EncodeMftHeader | src/GWDatReader.php:47-56 | the MFT header layout takes 24 bytes |
| Layout.EncodeEntry | src/GWDatReader.php:58-80 | the MFT entry layout takes 24 bytes |
| Layout.EncodeHashRecord | src/GWDatReader.php:81 | a hash record takes 8 bytes |
| Layout.RootRoundTrip | src/GWDatReader.php:163 | every root pointer survives encoding then decoding |
| Layout.MftHeaderRoundTrip | src/GWDatReader.php:56 | every MFT header survives encoding then decoding |
| Layout.MftHeaderIgnoresGaps | src/GWDatReader.php:47-56 | slot 0's decoded header depends only on the signature, Entries and CRC bytes, not on the two unknown gaps |
| Layout.EntryRoundTrip | src/GWDatReader.php:79 | every MFT entry survives encoding then decoding |
| Layout.EntryFrameRoundTrip | src/GWDatReader.php:58-80 | every full 24-byte frame is the encoding of the entry decoded from it: the entry layout covers every byte |
| Layout.HashRecordRoundTrip | src/GWDatReader.php:193 | every hash record survives encoding then decoding |
| Layout.HashFrameRoundTrip | src/GWDatReader.php:193 | every 8-byte frame is the encoding of the record decoded from it |
| Layout.HeaderFields | src/GWDatReader.php:39-45 | the header constant holds the tag "3AN", version 0x1a, header size 32, block size 512 and CRC 0x4ccbad70: the bytes 70 ad cb 4c that the source's comment lists in byte order, read as a little-endian word |
| Layout.SingleByteChangeRejected | src/GWDatReader.php:109-111 | changing any one byte of the header makes the constructor reject it |
| Crc.CheckValue | src/GWDatReader.php:187 | the CRC-32 used for the hash table and the data blocks gives the standard check value 0xcbf43926 for "123456789" |
| Sorting.SortByOffset | src/GWDatReader.php:196 | the sorted hash table is ordered by FileOffset and is a permutation of the decoded table |
| Sorting.SortDesc | src/GWDatReader.php:229 | an alias list after `rsort` is descending and a permutation of its input |
| Sorting.SortedDescUnique | src/GWDatReader.php:229 | two descending lists with the same elements are equal, so `rsort`'s output is fixed by its input's elements |
| Sorting.SortDescOfSorted | src/GWDatReader.php:229 | `rsort` leaves an already descending list as it is |
| Correlation.AliasIds | src/GWDatReader.php:206-229 | every file slot's alias list is non-empty and descending |
| Correlation.AliasIdsExact | src/GWDatReader.php:209-227 | a slot no record names gets exactly [0]; otherwise each file number occurs in its list exactly as often as the record (number, slot) occurs in the table |
| Correlation.AliasIdsOrderIndependent | src/GWDatReader.php:196-229 | the alias lists depend only on which records the table holds, not on their order |
| Correlation.EachRecordAttachedOnce | src/GWDatReader.php:206-224 | over any range of slots, the attached file numbers are exactly the file numbers of the records naming a slot in that range: none lost, none duplicated |
| Correlation.GroupIsSlotNumbers | src/GWDatReader.php:209-224 | in the sorted table, the run of records for one slot holds all of that slot's file numbers |
| Correlation.AllReserved | src/GWDatReader.php:198-203 | if the sorted table names no file slot, the decoded table names none either |
| Correlation.Example | src/GWDatReader.php:209-227 | records {5,16}, {7,16}, {9,17} give slot 16 [7,5], slot 17 [9] and an unnamed slot 18 [0] |
| Reader.HashRecordCount | src/GWDatReader.php:192 | the loop decodes ceil(Datasize/8) records: enough to cover Datasize bytes, and less than one record more |
| Reader.DecodeHashTable | src/GWDatReader.php:191-194 | decoding fails exactly when the last record would be partial, and then with PartialHashRecord; otherwise each record is the decoding of its own 8 bytes |
| Reader.HashTableRoundTrip | src/GWDatReader.php:191-194 | a table of whole records decodes back to the records it was encoded from |
| Reader.LoadRawMft | src/GWDatReader.php:163-168 | fails with UnreadableRoot exactly when fewer than 16 bytes remain at the handle, and with ZeroLengthRead exactly when Size is 0; otherwise the raw MFT is the Size bytes at Offset, short at the end of the file |
| Reader.CheckMftHeader | src/GWDatReader.php:174-181 | slot 0 is accepted exactly when the raw MFT holds a full frame starting with "Mft\x1a", otherwise InvalidMftHeader; its Entries and CRC are bytes 12-15 and 20-23 |
| Reader.HashTableEntry | src/GWDatReader.php:172-176 | slot 2 is read exactly when the raw MFT holds three full frames, otherwise UnreadableHashSlot; the entry is the one bytes 48-71 encode |
| Reader.LoadHashTable | src/GWDatReader.php:184-196 | a 0 Datasize gives ZeroLengthRead and a CRC mismatch HashTableCrcMismatch; with a matching CRC the table loads exactly when it holds only whole records, and is then the decoding of slot 2's block; a partial record gives PartialHashRecord, or HashCursorOverrun when it is the only one |
| Reader.LoadBootstrap | src/GWDatReader.php:163-203 | a successful bootstrap has a full slot 0 with signature "Mft\x1a" and its Entries, the hash table slot 2 locates with a matching CRC, and at least one record that names a file slot; a failure carries the error of the first step that fails |
| Reader.WellFormedArchiveLoads | src/GWDatReader.php:163-203 | an archive laid out by the encoders loads: root pointer, MFT header with the signature, hash-table entry in slot 2, whole records with a matching CRC and one naming a file slot give exactly that MFT, entry and table |
| Reader.BootstrapOfSteps | src/GWDatReader.php:163-203 | when every bootstrap step succeeds, the bootstrap succeeds with what the steps yield |
| Reader.BootSlots | src/GWDatReader.php:171-177 | the bootstrap always produces 16 slots |
| Reader.MftSlots | src/GWDatReader.php:171-230 | the loaded MFT has max(16, Entries) slots |
| Reader.BootSlotsPrefix | src/GWDatReader.php:171-177 | the first 16 slots of the loaded MFT are the bootstrap slots |
| Reader.ReadBlock | src/GWDatReader.php:137-150 | a block is accepted exactly when its slot decodes, Datasize is not 0 and its CRC-32 matches the entry's; otherwise UnreadableEntry, ZeroLengthRead or BlockCrcMismatch; compression 0 yields the raw bytes, 8 defers them, and any other value is ignored |
| Reader.BootSlotsNeverRead | src/GWDatReader.php:131-135 | `read` never looks at slots 0-15: MFTs that differ only there give the same result |
| Reader.DecodeHashRecords | src/GWDatReader.php:191-194 | the decoding loop computes exactly the hash table `DecodeHashTable` specifies |
| Reader.SkipReserved | src/GWDatReader.php:198-203 | the cursor stops at the first record naming a file slot: every record before it names a bootstrap slot, every record from it on a file slot |
| Reader.CollectGroup | src/GWDatReader.php:209-224 | the inner loop gathers exactly the file numbers of the slot's records and leaves the cursor on the first record of a higher slot |
| Reader.DecodeFileSlot | src/GWDatReader.php:206-229 | one step of the file-slot loop produces exactly the specified slot, entry and alias list, and moves the cursor to the next slot's records |
| Reader.GWDatReader.Fopen | src/GWDatReader.php:103 | a fresh handle is at position 0 with an empty MFT |
| Reader.GWDatReader.Open | src/GWDatReader.php:96-111 | opening succeeds exactly when the first 16 bytes are the gw.dat header, otherwise with InvalidHeader; an opened reader stands at byte 16 |
| Reader.GWDatReader.Fread | src/GWDatReader.php:138 | a 0-byte read fails; any other read returns the slice at the position and advances the position by its length |
| Reader.GWDatReader.ReadRawMft | src/GWDatReader.php:163-168 | reading the root pointer and the raw MFT gives what `LoadRawMft` specifies, and on success the handle ends after the bytes read from Offset |
| Reader.GWDatReader.ReadBootSlots | src/GWDatReader.php:171-177 | the MFT becomes the 16 bootstrap slots of the raw MFT |
| Reader.GWDatReader.ReadHashTable | src/GWDatReader.php:184-194 | the hash table read is the one `LoadHashTable` specifies, and the handle ends after its block whatever the outcome |
| Reader.GWDatReader.AttachFileSlots | src/GWDatReader.php:206-230 | the loop over slots 16 to Entries-1 extends the bootstrap slots to the whole specified MFT |
| Reader.GWDatReader.ReadMft | src/GWDatReader.php:155-232 | `readMFT` fails with the bootstrap's error, or leaves the handle after the hash table and the MFT equal to `MftSlots` |
| Reader.GWDatReader.ReadSlot | src/GWDatReader.php:137-150 | reading one slot's block gives what `ReadBlock` specifies; whenever the slot has an entry the handle ends after the block, whether the read succeeds or fails with ZeroLengthRead or BlockCrcMismatch, and a slot without an entry leaves the handle where it was |
| Reader.GWDatReader.ReadFileBlocks | src/GWDatReader.php:131-151 | the blocks of slots 16 on, in slot order, when every one is accepted; otherwise the error of the first slot that fails; on success the handle ends after the last file slot's block, or stays put when there is none |
| Reader.GWDatReader.Read | src/GWDatReader.php:128-153 | `read` fails with the bootstrap's error, or loads the specified MFT and returns its file slots' blocks as `ReadFileBlocks` states; on success the handle ends after the last file slot's block, or after the hash table when there is none |

## Left out

- The file system is left out: `realpath`, `is_readable`, a failing `fopen` and the destructor's `fclose`. The archive is given as its bytes.
- `var_dump` output is left out. `read` returns the blocks it would print (`Dumped`) instead of printing them.
- The compression-8 branch is empty in the source. The model records its block as `Deferred` and decompresses nothing.
- Reader.GWDatReader.Read: PHP prints blocks before a later slot fails. The model returns only the error and says nothing of partial output.
- Reader.GWDatReader.ReadMft: the position and the MFT after a failure are left unspecified. The source leaves them half-updated.
- Reader.GWDatReader.ReadRawMft: the position after a failure is left unspecified.
- Reader.GWDatReader.ReadFileBlocks: the position after a failing slot is left unspecified.
- Reader.GWDatReader.Read: the position after a failure is left unspecified. On success it is stated, and a second `read` starts from there.
- Sorting.SortByOffset: the order of records with equal FileOffset after `usort` is left open. PHP before 8.0 does not guarantee it, and the alias lists do not depend on it (`Correlation.AliasIdsOrderIndependent`).
- Layout.DecodeRoot, Layout.DecodeEntry: `unpack('Q')` yields a negative PHP integer for offsets of 2^63 and above. `fseek` to such an offset fails and leaves the position where it was. The model keeps the offset unsigned and does not model that case.
- PHP warnings, `TypeError`s, `ValueError`s and the endless skip loop are modelled as `Error` values and are not distinguished further.
- Three cases follow the source as written:
  - A block whose compression is neither 0 nor 8 is ignored (`Ignored`); it does not fail.
  - A table with no record naming a file slot, including an empty table, never leaves the skip loop at lines 201-203. The model returns HashCursorOverrun; it does not attach `[0]` to every slot.
  - A lone partial hash record is not compared by `usort`. It falls into the same skip loop and gives HashCursorOverrun as well.
- Reader.SkipReserved stops at the end of the table. The source's loop has no such bound; the case where it would run past the end is the HashCursorOverrun error above.
- Crc.CheckValue: CRC-32 is defined bit by bit, and only the standard check value is proved about it. No general property of the polynomial arithmetic is proved.
- Bytes are integers 0-255, not machine bytes.
- The model follows PHP 8 and later. There, `substr` past the end of a string returns "" and `fread(..., 0)` throws a `ValueError`. The source also runs on PHP 7.4, where `substr` past the end returns `false`, and strict `unpack` then throws a `TypeError`. So on 7.4, `readMFT` aborts in two cases:
  - a raw MFT too short to reach the start of one of slots 1-15 (lines 172-176);
  - a file slot whose frame starts past the end of the raw MFT (line 207).
  The model does not capture these. It keeps those slots without an entry and carries on.
