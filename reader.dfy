/**
 * The reader itself: the class that opens gw.dat, loads its MFT and hash
 * table, attaches the hash table's file numbers to the MFT's file slots,
 * and walks the file slots reading and checking each data block.
 *
 * The file handle is modelled by the file's bytes and a position; `fseek`
 * sets the position and `fread` returns what `Slice` gives from there.
 * Where PHP would throw, emit a warning and fail later, or loop forever,
 * the model returns an `Error`.
 */
module Reader {
  import opened Wrappers
  import opened Bytes
  import opened Layout
  import opened Crc
  import opened Sorting
  import opened Correlation

  datatype Error =
    | InvalidHeader         // the first 16 bytes are not the gw.dat header
    | UnreadableRoot        // fewer than 16 bytes where the root pointer should be
    | ZeroLengthRead        // `fread` asked for 0 bytes (a root size or Datasize of 0)
    | InvalidMftHeader      // slot 0 is short or its signature is not "Mft\x1a"
    | UnreadableHashSlot    // slot 2, which locates the hash table, is short
    | HashTableCrcMismatch  // the hash table's CRC-32 differs from slot 2's CRC
    | PartialHashRecord     // the last hash record is shorter than 8 bytes
    | HashCursorOverrun     // no hash record names a file slot: the skip loop never stops
    | UnreadableEntry       // a file slot is short, so it has no Offset or Datasize
    | BlockCrcMismatch      // a data block's CRC-32 differs from its entry's CRC

  /** One slot of the MFT as the reader keeps it. */
  datatype Slot =
    | HeaderSlot(header: Option<MftHeader>)                  // slot 0
    | ReservedSlot(entry: Option<MftEntry>)                  // slots 1-15
    | FileSlot(entry: Option<MftEntry>, fileNumbers: seq<u32>) // slots 16 and up

  /** What `read` does with a block whose CRC matches. */
  datatype BlockOutcome =
    | Dumped(data: seq<u8>)    // compression 0: the raw bytes are the block
    | Deferred(data: seq<u8>)  // compression 8: handed to the decompression branch, which is empty
    | Ignored(compression: u16) // any other compression: nothing is done

  datatype Block = Block(slot: nat, outcome: BlockOutcome)

  /** What loading the MFT and the hash table yields. */
  datatype Bootstrap = Bootstrap(
    rawMft: seq<u8>,
    entries: u32,
    hashEntry: MftEntry,
    table: seq<HashRecord>)

  function EntryOf(s: Slot): Option<MftEntry>
  {
    match s
    case HeaderSlot(_) => None
    case ReservedSlot(e) => e
    case FileSlot(e, _) => e
  }

  /** Slot `i` of the 16 bootstrap slots: slot 0 in the header layout, the others in the entry layout. */
  function BootSlot(rawMft: seq<u8>, i: nat): Slot
  {
    if i == 0 then HeaderSlot(DecodeMftHeader(SlotFrame(rawMft, 0)))
    else ReservedSlot(DecodeEntry(SlotFrame(rawMft, i)))
  }

  /** How often `for ($i = 0; $i < $Datasize / 8; $i++)` runs: the division is a float one. */
  function HashRecordCount(dataSize: nat): (n: nat)
    ensures HASH_SIZE * n >= dataSize && HASH_SIZE * n < dataSize + HASH_SIZE
  {
    (dataSize + HASH_SIZE - 1) / HASH_SIZE
  }

  /** The hash table: record j is decoded from bytes [8*j, 8*j+8); a short record fails. */
  function DecodeHashTable(rawHash: seq<u8>, dataSize: nat): (r: Result<seq<HashRecord>, Error>)
    ensures r.Success? <==> HASH_SIZE * HashRecordCount(dataSize) <= |rawHash|
    ensures r.Failure? ==> r.error == PartialHashRecord
    ensures r.Success? ==> |r.value| == HashRecordCount(dataSize)
    ensures r.Success? ==> forall j :: 0 <= j < |r.value| ==>
      EncodeHashRecord(r.value[j]) == rawHash[HASH_SIZE * j..HASH_SIZE * j + HASH_SIZE]
  {
    var n := HashRecordCount(dataSize);
    if HASH_SIZE * n <= |rawHash| then
      var recs := seq(n, j requires 0 <= j < n => DecodeHashRecord(HashFrame(rawHash, j)).value);
      assert forall j :: 0 <= j < n ==>
        EncodeHashRecord(recs[j]) == rawHash[HASH_SIZE * j..HASH_SIZE * j + HASH_SIZE] by {
        forall j | 0 <= j < n
          ensures EncodeHashRecord(recs[j]) == rawHash[HASH_SIZE * j..HASH_SIZE * j + HASH_SIZE]
        {
          HashFrameRoundTrip(HashFrame(rawHash, j));
        }
      }
      Success(recs)
    else Failure(PartialHashRecord)
  }

  function EncodeHashTable(recs: seq<HashRecord>): (raw: seq<u8>)
    ensures |raw| == HASH_SIZE * |recs|
  {
    if recs == [] then [] else EncodeHashRecord(recs[0]) + EncodeHashTable(recs[1..])
  }

  /** Record j of an encoded table sits at bytes [8*j, 8*j+8). */
  lemma {:induction false} EncodeHashTableAt(recs: seq<HashRecord>, j: nat)
    requires j < |recs|
    ensures EncodeHashTable(recs)[HASH_SIZE * j..HASH_SIZE * j + HASH_SIZE] == EncodeHashRecord(recs[j])
  {
    var tail := EncodeHashTable(recs[1..]);
    assert EncodeHashTable(recs) == EncodeHashRecord(recs[0]) + tail;
    if j > 0 {
      EncodeHashTableAt(recs[1..], j - 1);
      assert EncodeHashTable(recs)[HASH_SIZE * j..HASH_SIZE * j + HASH_SIZE]
          == tail[HASH_SIZE * (j - 1)..HASH_SIZE * (j - 1) + HASH_SIZE];
    }
  }

  /** A table of whole records decodes back to the records it was encoded from. */
  lemma HashTableRoundTrip(recs: seq<HashRecord>)
    ensures DecodeHashTable(EncodeHashTable(recs), HASH_SIZE * |recs|) == Success(recs)
  {
    var raw := EncodeHashTable(recs);
    var n := HashRecordCount(HASH_SIZE * |recs|);
    assert n == |recs|;
    var r := DecodeHashTable(raw, HASH_SIZE * |recs|);
    assert r.Success? && |r.value| == |recs|;
    forall j | 0 <= j < n
      ensures r.value[j] == recs[j]
    {
      EncodeHashTableAt(recs, j);
      HashRecordRoundTrip(recs[j]);
      HashRecordRoundTrip(r.value[j]);
    }
    assert r.value == recs;
  }

  /** The root pointer at `at`, then the raw MFT it locates. */
  function LoadRawMft(dat: seq<u8>, at: nat): (r: Result<seq<u8>, Error>)
    ensures r == Failure(UnreadableRoot) <==> |dat| < at + ROOT_SIZE
    ensures at + ROOT_SIZE <= |dat| ==>
      var root := DecodeRoot(dat[at..at + ROOT_SIZE]).value;
      (r == Failure(ZeroLengthRead) <==> root.size == 0) &&
      (root.size > 0 ==> r == Success(Slice(dat, root.offset, root.size)))
  {
    var root := DecodeRoot(Slice(dat, at, ROOT_SIZE));
    if root.None? then Failure(UnreadableRoot)
    else if root.value.size == 0 then Failure(ZeroLengthRead)
    else Success(Slice(dat, root.value.offset, root.value.size))
  }

  /** Slot 0, which must be a full frame with the signature "Mft\x1a". */
  function CheckMftHeader(rawMft: seq<u8>): (r: Result<MftHeader, Error>)
    ensures r.Success? <==> MFT_BLOCK_SIZE <= |rawMft| && rawMft[0..4] == MFT_SIGNATURE
    ensures r.Failure? ==> r.error == InvalidMftHeader
    ensures r.Success? ==> r.value.entries == FromLE(rawMft[12..16]) && r.value.crc == FromLE(rawMft[20..24])
  {
    var header := DecodeMftHeader(SlotFrame(rawMft, 0));
    if header.None? || header.value.signature != MFT_SIGNATURE then Failure(InvalidMftHeader)
    else
      assert SlotFrame(rawMft, 0)[12..16] == rawMft[12..16] && SlotFrame(rawMft, 0)[20..24] == rawMft[20..24];
      Success(header.value)
  }

  /** Slot 2, which locates the hash table. */
  function HashTableEntry(rawMft: seq<u8>): (r: Result<MftEntry, Error>)
    ensures r.Success? <==> 3 * MFT_BLOCK_SIZE <= |rawMft|
    ensures r.Failure? ==> r.error == UnreadableHashSlot
    ensures r.Success? ==> EncodeEntry(r.value) == rawMft[2 * MFT_BLOCK_SIZE..3 * MFT_BLOCK_SIZE]
  {
    var entry := DecodeEntry(SlotFrame(rawMft, 2));
    if entry.None? then Failure(UnreadableHashSlot)
    else
      EntryFrameRoundTrip(SlotFrame(rawMft, 2));
      Success(entry.value)
  }

  /** The bytes `fseek` to an entry's Offset and `fread` of its Datasize give. */
  function BlockBytes(dat: seq<u8>, e: MftEntry): seq<u8>
  {
    Slice(dat, e.offset, e.dataSize)
  }

  /** Where the handle stands after an entry's block has been read. */
  function BlockEnd(dat: seq<u8>, e: MftEntry): nat
  {
    e.offset + |BlockBytes(dat, e)|
  }

  /**
   * The hash table slot 2 locates: read, checked against slot 2's CRC,
   * decoded. A short record makes `usort`'s typed comparator fail, except
   * when it is the only record: `usort` then compares nothing and the skip
   * loop reads past it without end.
   */
  function LoadHashTable(dat: seq<u8>, e: MftEntry): (r: Result<seq<HashRecord>, Error>)
    ensures r.Success? ==> e.dataSize > 0 && Crc32(BlockBytes(dat, e)) as int == e.crc
    ensures r.Success? ==> DecodeHashTable(BlockBytes(dat, e), e.dataSize) == r
    ensures e.dataSize == 0 ==> r == Failure(ZeroLengthRead)
    ensures e.dataSize > 0 && Crc32(BlockBytes(dat, e)) as int != e.crc ==> r == Failure(HashTableCrcMismatch)
    ensures e.dataSize > 0 && Crc32(BlockBytes(dat, e)) as int == e.crc ==>
      (r.Success? <==> HASH_SIZE * HashRecordCount(e.dataSize) <= |BlockBytes(dat, e)|)
    ensures r == Failure(PartialHashRecord) ==> HashRecordCount(e.dataSize) > 1
    ensures (e.dataSize > 0 && Crc32(BlockBytes(dat, e)) as int == e.crc &&
             HASH_SIZE * HashRecordCount(e.dataSize) > |BlockBytes(dat, e)|) ==>
      r == Failure(if HashRecordCount(e.dataSize) == 1 then HashCursorOverrun else PartialHashRecord)
    ensures r == Failure(HashCursorOverrun) ==> HashRecordCount(e.dataSize) == 1
  {
    if e.dataSize == 0 then Failure(ZeroLengthRead)
    else if Crc32(BlockBytes(dat, e)) as int != e.crc then Failure(HashTableCrcMismatch)
    else
      var table := DecodeHashTable(BlockBytes(dat, e), e.dataSize);
      if table.Failure? && HashRecordCount(e.dataSize) == 1 then Failure(HashCursorOverrun)
      else table
  }

  /** No record names a file slot, so the loop skipping bootstrap records runs off the table. */
  predicate NamesNoFileSlot(table: seq<HashRecord>)
  {
    forall k :: 0 <= k < |table| ==> table[k].fileOffset < FIRST_FILE_SLOT
  }

  /** Everything `readMFT` reads before it correlates, from a handle at `at`, in the order it reads it. */
  function LoadBootstrap(dat: seq<u8>, at: nat): (r: Result<Bootstrap, Error>)
    ensures r.Success? ==> DecodeMftHeader(SlotFrame(r.value.rawMft, 0)).Some?
    ensures r.Success? ==> var h := DecodeMftHeader(SlotFrame(r.value.rawMft, 0)).value;
      h.signature == MFT_SIGNATURE && h.entries == r.value.entries
    ensures r.Success? ==> DecodeEntry(SlotFrame(r.value.rawMft, 2)) == Some(r.value.hashEntry)
    ensures r.Success? ==> Crc32(BlockBytes(dat, r.value.hashEntry)) as int == r.value.hashEntry.crc
    ensures r.Success? ==>
      DecodeHashTable(BlockBytes(dat, r.value.hashEntry), r.value.hashEntry.dataSize) == Success(r.value.table)
    ensures r.Success? ==> exists k :: 0 <= k < |r.value.table| && r.value.table[k].fileOffset >= FIRST_FILE_SLOT
    ensures LoadRawMft(dat, at).Failure? ==> r == Failure(LoadRawMft(dat, at).error)
    ensures LoadRawMft(dat, at).Success? ==>
      var raw := LoadRawMft(dat, at).value;
      (CheckMftHeader(raw).Failure? ==> r == Failure(InvalidMftHeader)) &&
      (CheckMftHeader(raw).Success? && HashTableEntry(raw).Failure? ==> r == Failure(UnreadableHashSlot)) &&
      (CheckMftHeader(raw).Success? && HashTableEntry(raw).Success? ==>
        var table := LoadHashTable(dat, HashTableEntry(raw).value);
        (table.Failure? ==> r == Failure(table.error)) &&
        (table.Success? && NamesNoFileSlot(table.value) ==> r == Failure(HashCursorOverrun)))
  {
    var rawMft :- LoadRawMft(dat, at);
    var header :- CheckMftHeader(rawMft);
    var hashEntry :- HashTableEntry(rawMft);
    var table :- LoadHashTable(dat, hashEntry);
    if NamesNoFileSlot(table) then Failure(HashCursorOverrun)
    else Success(Bootstrap(rawMft, header.entries, hashEntry, table))
  }

  /**
   * An archive laid out as the format describes loads: a root pointer at
   * `at` locating an MFT whose slot 0 is a header with the signature and
   * whose slot 2 locates a table of whole hash records with a matching
   * CRC-32, at least one of which names a file slot.
   */
  lemma WellFormedArchiveLoads(dat: seq<u8>, at: nat, root: RootPointer, raw: seq<u8>, h: MftHeader, e: MftEntry, recs: seq<HashRecord>)
    requires at + ROOT_SIZE <= |dat| && dat[at..at + ROOT_SIZE] == EncodeRoot(root)
    requires root.offset + root.size <= |dat| && dat[root.offset..root.offset + root.size] == raw
    requires 3 * MFT_BLOCK_SIZE <= |raw| && h.signature == MFT_SIGNATURE
    requires raw[0..MFT_BLOCK_SIZE] == EncodeMftHeader(h)
    requires raw[2 * MFT_BLOCK_SIZE..3 * MFT_BLOCK_SIZE] == EncodeEntry(e)
    requires e.dataSize == HASH_SIZE * |recs| && e.offset + e.dataSize <= |dat|
    requires dat[e.offset..e.offset + e.dataSize] == EncodeHashTable(recs)
    requires Crc32(EncodeHashTable(recs)) as int == e.crc
    requires exists k :: 0 <= k < |recs| && recs[k].fileOffset >= FIRST_FILE_SLOT
    ensures LoadBootstrap(dat, at) == Success(Bootstrap(raw, h.entries, e, recs))
  {
    RawMftLoads(dat, at, root);
    SlotsLoad(raw, h, e);
    var k :| 0 <= k < |recs| && recs[k].fileOffset >= FIRST_FILE_SLOT;
    TableLoads(dat, e, recs);
    BootstrapOfSteps(dat, at, raw, h, e, recs, k);
  }

  /** When every step of the bootstrap succeeds, so does the bootstrap, with what the steps yield. */
  lemma BootstrapOfSteps(dat: seq<u8>, at: nat, raw: seq<u8>, h: MftHeader, e: MftEntry, recs: seq<HashRecord>, k: nat)
    requires LoadRawMft(dat, at) == Success(raw)
    requires CheckMftHeader(raw) == Success(h) && HashTableEntry(raw) == Success(e)
    requires LoadHashTable(dat, e) == Success(recs)
    requires k < |recs| && recs[k].fileOffset >= FIRST_FILE_SLOT
    ensures LoadBootstrap(dat, at) == Success(Bootstrap(raw, h.entries, e, recs))
  {
    assert !NamesNoFileSlot(recs);
  }

  lemma RawMftLoads(dat: seq<u8>, at: nat, root: RootPointer)
    requires at + ROOT_SIZE <= |dat| && dat[at..at + ROOT_SIZE] == EncodeRoot(root)
    requires 0 < root.size && root.offset + root.size <= |dat|
    ensures LoadRawMft(dat, at) == Success(dat[root.offset..root.offset + root.size])
  {
    RootRoundTrip(root);
  }

  lemma SlotsLoad(raw: seq<u8>, h: MftHeader, e: MftEntry)
    requires 3 * MFT_BLOCK_SIZE <= |raw| && h.signature == MFT_SIGNATURE
    requires raw[0..MFT_BLOCK_SIZE] == EncodeMftHeader(h)
    requires raw[2 * MFT_BLOCK_SIZE..3 * MFT_BLOCK_SIZE] == EncodeEntry(e)
    ensures CheckMftHeader(raw) == Success(h) && HashTableEntry(raw) == Success(e)
  {
    MftHeaderRoundTrip(h);
    EntryRoundTrip(e);
  }

  lemma TableLoads(dat: seq<u8>, e: MftEntry, recs: seq<HashRecord>)
    requires recs != [] && e.dataSize == HASH_SIZE * |recs| && e.offset + e.dataSize <= |dat|
    requires dat[e.offset..e.offset + e.dataSize] == EncodeHashTable(recs)
    requires Crc32(EncodeHashTable(recs)) as int == e.crc
    ensures LoadHashTable(dat, e) == Success(recs)
  {
    assert BlockBytes(dat, e) == EncodeHashTable(recs);
    HashTableRoundTrip(recs);
  }

  /** Where the handle stands after the hash table has been read. */
  function HashEnd(dat: seq<u8>, b: Bootstrap): nat
  {
    BlockEnd(dat, b.hashEntry)
  }

  /** The MFT has the 16 bootstrap slots and, when Entries is larger, slots 16 to Entries-1. */
  function SlotCount(b: Bootstrap): nat
  {
    if b.entries <= FIRST_FILE_SLOT then FIRST_FILE_SLOT else b.entries
  }

  /** Slot `i` of the loaded MFT: a file slot carries its alias list. */
  function MftSlot(b: Bootstrap, i: nat): Slot
  {
    if i < FIRST_FILE_SLOT then BootSlot(b.rawMft, i)
    else FileSlot(DecodeEntry(SlotFrame(b.rawMft, i)), AliasIds(b.table, i))
  }

  /** The 16 bootstrap slots of a raw MFT. */
  function BootSlots(rawMft: seq<u8>): (slots: seq<Slot>)
    ensures |slots| == FIRST_FILE_SLOT
  {
    seq(FIRST_FILE_SLOT, i requires 0 <= i < FIRST_FILE_SLOT => BootSlot(rawMft, i))
  }

  /** The loaded MFT starts with the bootstrap slots. */
  lemma BootSlotsPrefix(b: Bootstrap)
    ensures MftSlots(b)[..FIRST_FILE_SLOT] == BootSlots(b.rawMft)
  {
    forall i | 0 <= i < FIRST_FILE_SLOT
      ensures MftSlots(b)[i] == BootSlots(b.rawMft)[i]
    {
    }
  }

  /** The loaded MFT, slot by slot. */
  function MftSlots(b: Bootstrap): (slots: seq<Slot>)
    ensures |slots| == SlotCount(b)
  {
    seq(SlotCount(b), i requires 0 <= i < SlotCount(b) => MftSlot(b, i))
  }

  /** What `read` does with one file slot. */
  function ReadBlock(dat: seq<u8>, e: Option<MftEntry>): (r: Result<BlockOutcome, Error>)
    ensures r.Success? <==> e.Some? && e.value.dataSize > 0 && Crc32(BlockBytes(dat, e.value)) as int == e.value.crc
    ensures e.None? ==> r == Failure(UnreadableEntry)
    ensures e.Some? && e.value.dataSize == 0 ==> r == Failure(ZeroLengthRead)
    ensures e.Some? && e.value.dataSize > 0 && Crc32(BlockBytes(dat, e.value)) as int != e.value.crc ==>
      r == Failure(BlockCrcMismatch)
    ensures r.Success? && e.value.compression != 0 && e.value.compression != 8 ==>
      r.value == Ignored(e.value.compression)
    ensures r.Success? && e.value.compression == 0 ==> r.value == Dumped(BlockBytes(dat, e.value))
    ensures r.Success? && e.value.compression == 8 ==> r.value == Deferred(BlockBytes(dat, e.value))
  {
    if e.None? then Failure(UnreadableEntry)
    else if e.value.dataSize == 0 then Failure(ZeroLengthRead)
    else
      var data := BlockBytes(dat, e.value);
      if Crc32(data) as int != e.value.crc then Failure(BlockCrcMismatch)
      else if e.value.compression == 0 then Success(Dumped(data))
      else if e.value.compression == 8 then Success(Deferred(data))
      else Success(Ignored(e.value.compression))
  }

  /** The loop that decodes the hash table, one 8-byte record at a time. */
  method DecodeHashRecords(rawHash: seq<u8>, dataSize: nat) returns (r: Result<seq<HashRecord>, Error>)
    ensures r == DecodeHashTable(rawHash, dataSize)
  {
    var count := HashRecordCount(dataSize);
    var table: seq<HashRecord> := [];
    var j := 0;
    while j < count
      invariant 0 <= j <= count && |table| == j
      invariant forall k :: 0 <= k < j ==>
        HASH_SIZE * k + HASH_SIZE <= |rawHash| && table[k] == DecodeHashRecord(HashFrame(rawHash, k)).value
    {
      var record := DecodeHashRecord(HashFrame(rawHash, j));
      if record.None? {
        return Failure(PartialHashRecord);
      }
      table := table + [record.value];
      j := j + 1;
    }
    assert count > 0 ==> HASH_SIZE * (count - 1) + HASH_SIZE <= |rawHash|;
    assert table == seq(count, k requires 0 <= k < count => DecodeHashRecord(HashFrame(rawHash, k)).value);
    return Success(table);
  }

  /**
   * The loop that moves the cursor past the records naming bootstrap slots,
   * bounded by the table's end. The source has no such bound: it stops only
   * at a record naming a file slot.
   */
  method SkipReserved(sorted: seq<HashRecord>) returns (cursor: nat)
    requires SortedByOffset(sorted)
    ensures cursor <= |sorted|
    ensures forall k :: 0 <= k < cursor ==> sorted[k].fileOffset < FIRST_FILE_SLOT
    ensures forall k :: cursor <= k < |sorted| ==> sorted[k].fileOffset >= FIRST_FILE_SLOT
  {
    cursor := 0;
    while cursor < |sorted| && sorted[cursor].fileOffset < FIRST_FILE_SLOT
      invariant cursor <= |sorted|
      invariant forall k :: 0 <= k < cursor ==> sorted[k].fileOffset < FIRST_FILE_SLOT
    {
      cursor := cursor + 1;
    }
  }

  /**
   * The duplicate-group loop for one slot: starting at the first record that
   * names `slot`, take the file numbers of the run of records naming it and
   * stop one past the run. These are all the file numbers of the slot.
   */
  method CollectGroup(sorted: seq<HashRecord>, cursor: nat, slot: u32) returns (ids: seq<u32>, next: nat)
    requires SortedByOffset(sorted)
    requires cursor < |sorted| && sorted[cursor].fileOffset == slot
    requires forall k :: 0 <= k < cursor ==> sorted[k].fileOffset < slot
    ensures cursor < next <= |sorted|
    ensures ids != [] && ids == NumbersAt(sorted, slot)
    ensures forall k :: 0 <= k < next ==> sorted[k].fileOffset <= slot
    ensures forall k :: next <= k < |sorted| ==> sorted[k].fileOffset > slot
  {
    next := cursor;
    ids := [sorted[next].fileNumber];
    assert sorted[cursor..cursor + 1] == [sorted[cursor]];
    while next + 1 < |sorted| && sorted[next].fileOffset == sorted[next + 1].fileOffset
      invariant cursor <= next < |sorted|
      invariant forall k :: cursor <= k <= next ==> sorted[k].fileOffset == slot
      invariant ids == NumbersAt(sorted[cursor..next + 1], slot)
    {
      next := next + 1;
      ids := ids + [sorted[next].fileNumber];
      assert sorted[cursor..next + 1] == sorted[cursor..next] + [sorted[next]];
      NumbersAtAppend(sorted[cursor..next], [sorted[next]], slot);
    }
    next := next + 1;
    forall k | next <= k < |sorted| ensures sorted[k].fileOffset > slot {
      assert sorted[next].fileOffset <= sorted[k].fileOffset;
    }
    GroupIsSlotNumbers(sorted, cursor, next, slot);
  }

  /** The cursor stands at the first record of the sorted table naming a slot at or past `slot`. */
  ghost predicate CursorAt(sorted: seq<HashRecord>, cursor: nat, slot: int)
  {
    cursor <= |sorted| &&
    (forall k :: 0 <= k < cursor ==> sorted[k].fileOffset < slot) &&
    (forall k :: cursor <= k < |sorted| ==> sorted[k].fileOffset >= slot)
  }

  /**
   * One turn of the slot loop: decode slot `i` and attach to it the file
   * numbers of the run of records at the cursor that name it, or the
   * sentinel 0 when the record at the cursor names a later slot.
   */
  method DecodeFileSlot(b: Bootstrap, sorted: seq<HashRecord>, cursor: nat, i: u32) returns (slot: Slot, next: nat)
    requires SortedByOffset(sorted) && multiset(sorted) == multiset(b.table)
    requires FIRST_FILE_SLOT <= i && CursorAt(sorted, cursor, i)
    ensures slot == MftSlot(b, i)
    ensures cursor <= next && CursorAt(sorted, next, i as int + 1)
  {
    var entry := DecodeEntry(SlotFrame(b.rawMft, i));
    var ids: seq<u32>;
    next := cursor;
    if next < |sorted| && sorted[next].fileOffset == i {
      ids, next := CollectGroup(sorted, next, i);
      assert AliasIds(sorted, i) == SortDesc(ids);
    } else {
      ids := [0];
      forall k | next <= k < |sorted| ensures sorted[k].fileOffset > i {
        assert sorted[next].fileOffset <= sorted[k].fileOffset;
      }
      NumbersAtNone(sorted, i);
      assert SortDesc([0]) == [0];
      assert AliasIds(sorted, i) == SortDesc(ids);
    }
    ids := SortDesc(ids);
    AliasIdsOrderIndependent(b.table, sorted, i);
    slot := FileSlot(entry, ids);
  }

  class GWDatReader {
    /** The bytes of gw.dat. */
    const dat: seq<u8>
    /** The position of the file handle. */
    var pos: nat
    /** The MFT, slot by slot. */
    var mft: seq<Slot>

    /** `fopen`: a handle at the start of the file and an empty MFT. */
    constructor Fopen(dat: seq<u8>)
      ensures this.dat == dat && pos == 0 && mft == []
    {
      this.dat := dat;
      pos := 0;
      mft := [];
    }

    /** `__construct`: open the file and check its first 16 bytes. */
    static method Open(dat: seq<u8>) returns (r: Result<GWDatReader, Error>)
      ensures r.Success? <==> |dat| >= 16 && dat[..16] == GWDAT_HEADER
      ensures r.Failure? ==> r.error == InvalidHeader
      ensures r.Success? ==> fresh(r.value) && r.value.dat == dat && r.value.pos == 16 && r.value.mft == []
    {
      var reader := new GWDatReader.Fopen(dat);
      var first := reader.Fread(16);
      if !HeaderAccepted(first.value) {
        return Failure(InvalidHeader);
      }
      return Success(reader);
    }

    /** `fread($fh, n)`: at most n bytes from the position on, which moves past them. */
    method Fread(n: nat) returns (r: Result<seq<u8>, Error>)
      modifies this`pos
      ensures n == 0 ==> r == Failure(ZeroLengthRead) && pos == old(pos)
      ensures n > 0 ==> r == Success(Slice(dat, old(pos), n)) && pos == old(pos) + |r.value|
    {
      if n == 0 {
        return Failure(ZeroLengthRead);
      }
      var data := Slice(dat, pos, n);
      pos := pos + |data|;
      return Success(data);
    }

    /** Read the root pointer at the handle, seek to the MFT and read it. */
    method ReadRawMft() returns (r: Result<seq<u8>, Error>)
      modifies this`pos
      ensures r == LoadRawMft(dat, old(pos))
      ensures r.Success? ==> pos == DecodeRoot(dat[old(pos)..old(pos) + ROOT_SIZE]).value.offset + |r.value|
    {
      var rootBytes := Fread(ROOT_SIZE);
      var root := DecodeRoot(rootBytes.value);
      if root.None? {
        return Failure(UnreadableRoot);
      }
      pos := root.value.offset;
      r := Fread(root.value.size);
    }

    /** Decode the 16 bootstrap slots: slot 0 in the header layout, slots 1-15 in the entry layout. */
    method ReadBootSlots(rawMft: seq<u8>)
      modifies this`mft
      ensures mft == BootSlots(rawMft)
    {
      mft := [];
      var i := 0;
      while i < FIRST_FILE_SLOT
        invariant 0 <= i <= FIRST_FILE_SLOT && |mft| == i
        invariant forall k :: 0 <= k < i ==> mft[k] == BootSlot(rawMft, k)
      {
        var frame := SlotFrame(rawMft, i);
        mft := mft + [if i == 0 then HeaderSlot(DecodeMftHeader(frame)) else ReservedSlot(DecodeEntry(frame))];
        i := i + 1;
      }
      assert mft == BootSlots(rawMft);
    }

    /** Seek to the hash table, read it, check its CRC against slot 2's and decode its records. */
    method ReadHashTable(e: MftEntry) returns (r: Result<seq<HashRecord>, Error>)
      modifies this`pos
      ensures r == LoadHashTable(dat, e)
      ensures pos == BlockEnd(dat, e)
    {
      pos := e.offset;
      var raw := Fread(e.dataSize);
      if raw.Failure? {
        return Failure(raw.error);
      }
      if Crc32(raw.value) as int != e.crc {
        return Failure(HashTableCrcMismatch);
      }
      r := DecodeHashRecords(raw.value, e.dataSize);
      if r.Failure? && HashRecordCount(e.dataSize) == 1 {
        r := Failure(HashCursorOverrun);
      }
    }

    /**
     * Decode slots 16 to Entries-1 and attach to each the file numbers of
     * its records, walking the sorted table with a cursor that starts past
     * the records naming bootstrap slots.
     */
    method AttachFileSlots(b: Bootstrap, sorted: seq<HashRecord>, start: nat)
      requires mft == MftSlots(b)[..FIRST_FILE_SLOT]
      requires SortedByOffset(sorted) && multiset(sorted) == multiset(b.table)
      requires CursorAt(sorted, start, FIRST_FILE_SLOT)
      modifies this`mft
      ensures mft == MftSlots(b)
    {
      ghost var want := MftSlots(b);
      var cursor: nat := start;
      var i := FIRST_FILE_SLOT;
      while i < b.entries
        invariant FIRST_FILE_SLOT <= i <= |want|
        invariant mft == want[..i]
        invariant CursorAt(sorted, cursor, i)
      {
        var slot;
        slot, cursor := DecodeFileSlot(b, sorted, cursor, i);
        assert slot == want[i];
        PrefixStep(want, i);
        mft := mft + [slot];
        i := i + 1;
      }
      assert want[..i] == want;
    }

    /**
     * `readMFT`: read the raw MFT at the handle and its 16 bootstrap slots,
     * check slot 0's signature, load the hash table slot 2 locates, sort it
     * by FileOffset, skip the records naming bootstrap slots, and decode the
     * file slots with their alias lists.
     */
    method ReadMft() returns (r: Outcome<Error>)
      modifies this
      ensures var b := LoadBootstrap(dat, old(pos));
        b.Failure? ==> r == Fail(b.error)
      ensures var b := LoadBootstrap(dat, old(pos));
        b.Success? ==> r == Pass && pos == HashEnd(dat, b.value) && mft == MftSlots(b.value)
    {
      ghost var at := pos;
      mft := [];
      var rawMft := ReadRawMft();
      if rawMft.Failure? {
        return Fail(rawMft.error);
      }
      ReadBootSlots(rawMft.value);
      if mft[0].header.None? || mft[0].header.value.signature != MFT_SIGNATURE {
        return Fail(InvalidMftHeader);
      }
      var header := mft[0].header.value;
      var hashEntry := EntryOf(mft[2]);
      if hashEntry.None? {
        return Fail(UnreadableHashSlot);
      }
      var table := ReadHashTable(hashEntry.value);
      if table.Failure? {
        return Fail(table.error);
      }
      var sorted := SortByOffset(table.value);
      var cursor := SkipReserved(sorted);
      if cursor == |sorted| {
        // PHP reads past the end of the table here, gets null < 16, and never leaves the loop.
        AllReserved(table.value, sorted);
        return Fail(HashCursorOverrun);
      }
      var b := Bootstrap(rawMft.value, header.entries, hashEntry.value, table.value);
      assert !NamesNoFileSlot(table.value) by {
        assert sorted[cursor] in multiset(table.value);
      }
      assert LoadBootstrap(dat, at) == Success(b);
      BootSlotsPrefix(b);
      AttachFileSlots(b, sorted, cursor);
      return Pass;
    }

    /** One turn of `read`'s loop: seek to the entry's block, read it, check its CRC, dispatch. */
    method ReadSlot(e: Option<MftEntry>) returns (r: Result<BlockOutcome, Error>)
      modifies this`pos
      ensures r == ReadBlock(dat, e)
      ensures e.Some? ==> pos == BlockEnd(dat, e.value)
      ensures e.None? ==> pos == old(pos)
    {
      if e.None? {
        return Failure(UnreadableEntry);
      }
      pos := e.value.offset;
      var data := Fread(e.value.dataSize);
      if data.Failure? {
        return Failure(data.error);
      }
      if Crc32(data.value) as int != e.value.crc {
        return Failure(BlockCrcMismatch);
      }
      if e.value.compression == 0 {
        r := Success(Dumped(data.value));
      } else if e.value.compression == 8 {
        r := Success(Deferred(data.value));
      } else {
        r := Success(Ignored(e.value.compression));
      }
    }

    /**
     * `read`: load the MFT, then read, check and dispatch the data block of
     * every slot from 16 on, in slot order. Slots 0-15 are skipped.
     */
    method Read() returns (r: Result<seq<Block>, Error>)
      modifies this
      ensures var b := LoadBootstrap(dat, old(pos));
        b.Failure? ==> r == Failure(b.error)
      ensures var b := LoadBootstrap(dat, old(pos));
        b.Success? ==> mft == MftSlots(b.value) && BlocksRead(dat, mft, r)
      ensures var b := LoadBootstrap(dat, old(pos));
        b.Success? && r.Success? ==> pos == PosAfterBlocks(dat, mft, HashEnd(dat, b.value))
    {
      var loaded := ReadMft();
      if loaded.Fail? {
        return Failure(loaded.error);
      }
      r := ReadFileBlocks();
    }

    /** `read`'s loop over the loaded MFT: the blocks of slots 16 on, or the first failure. */
    method ReadFileBlocks() returns (r: Result<seq<Block>, Error>)
      requires |mft| >= FIRST_FILE_SLOT
      modifies this`pos
      ensures BlocksRead(dat, mft, r)
      ensures r.Success? ==> pos == PosAfterBlocks(dat, mft, old(pos))
    {
      ghost var outcomes := SlotOutcomes(dat, mft);
      var blocks: seq<Block> := [];
      var k := 0;
      while k < |mft|
        invariant 0 <= k <= |mft|
        invariant |blocks| == if k <= FIRST_FILE_SLOT then 0 else k - FIRST_FILE_SLOT
        invariant forall q :: FIRST_FILE_SLOT <= q < k ==>
          outcomes[q].Success? && blocks[q - FIRST_FILE_SLOT] == Block(q, outcomes[q].value)
        invariant k <= FIRST_FILE_SLOT ==> pos == old(pos)
        invariant k > FIRST_FILE_SLOT ==> EntryOf(mft[k - 1]).Some? && pos == BlockEnd(dat, EntryOf(mft[k - 1]).value)
      {
        if k < FIRST_FILE_SLOT {
          k := k + 1;
          continue;
        }
        var outcome := ReadSlot(EntryOf(mft[k]));
        if outcome.Failure? {
          assert outcomes[k] == outcome;
          return Failure(outcome.error);
        }
        blocks := blocks + [Block(k, outcome.value)];
        k := k + 1;
      }
      return Success(blocks);
    }
  }

  /**
   * What `read` returns for an MFT: the outcome of every file slot's block,
   * in slot order, if all of them succeed; otherwise the error of the first
   * slot that fails.
   */
  ghost predicate BlocksRead(dat: seq<u8>, mft: seq<Slot>, r: Result<seq<Block>, Error>)
  {
    var outcomes := SlotOutcomes(dat, mft);
    |mft| >= FIRST_FILE_SLOT &&
    (r.Success? <==> forall k :: FIRST_FILE_SLOT <= k < |mft| ==> outcomes[k].Success?) &&
    (r.Success? ==>
      |r.value| == |mft| - FIRST_FILE_SLOT &&
      forall k :: FIRST_FILE_SLOT <= k < |mft| ==> r.value[k - FIRST_FILE_SLOT] == Block(k, outcomes[k].value)) &&
    (r.Failure? ==>
      exists k :: FIRST_FILE_SLOT <= k < |mft| && outcomes[k] == Failure(r.error) &&
        forall q :: FIRST_FILE_SLOT <= q < k ==> outcomes[q].Success?)
  }

  /** A prefix one longer is the prefix and the next slot. */
  lemma PrefixStep(s: seq<Slot>, i: nat)
    requires i < |s|
    ensures s[..i + 1] == s[..i] + [s[i]]
  {
  }

  /**
   * Where the handle stands after `read`'s loop, starting from `from`: the
   * end of the last file slot's block, or `from` when there is no file slot.
   */
  function PosAfterBlocks(dat: seq<u8>, mft: seq<Slot>, from: nat): nat
  {
    if |mft| <= FIRST_FILE_SLOT || EntryOf(mft[|mft| - 1]).None? then from
    else BlockEnd(dat, EntryOf(mft[|mft| - 1]).value)
  }

  /** `read` never looks at slots 0-15: MFTs that differ only there give the same result. */
  lemma BootSlotsNeverRead(dat: seq<u8>, m1: seq<Slot>, m2: seq<Slot>, r: Result<seq<Block>, Error>)
    requires |m1| == |m2| >= FIRST_FILE_SLOT
    requires m1[FIRST_FILE_SLOT..] == m2[FIRST_FILE_SLOT..]
    ensures BlocksRead(dat, m1, r) <==> BlocksRead(dat, m2, r)
  {
    forall k | FIRST_FILE_SLOT <= k < |m1|
      ensures SlotOutcomes(dat, m1)[k] == SlotOutcomes(dat, m2)[k]
    {
      assert m1[k] == m1[FIRST_FILE_SLOT..][k - FIRST_FILE_SLOT];
    }
  }

  /** The outcome of reading each slot's block. */
  function SlotOutcomes(dat: seq<u8>, mft: seq<Slot>): seq<Result<BlockOutcome, Error>>
  {
    seq(|mft|, k requires 0 <= k < |mft| => ReadBlock(dat, EntryOf(mft[k])))
  }
}
