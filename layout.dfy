/**
 * The fixed byte layouts of gw.dat: the 16-byte container header, the root
 * pointer that follows it, the 24-byte MFT frames (slot 0 holds the MFT
 * header, every other slot an MFT entry) and the 8-byte hash records.
 * A decoder returns None where PHP's `unpack` fails on too short an input.
 */
module Layout {
  import opened Wrappers
  import opened Bytes

  /** "3AN", version 0x1a, header size 32, block size 512, CRC 0x4ccbad70, the little-endian word of the bytes 70 ad cb 4c. */
  const GWDAT_HEADER: seq<u8> :=
    [0x33, 0x41, 0x4E, 0x1A, 0x20, 0x00, 0x00, 0x00, 0x00, 0x02, 0x00, 0x00, 0x70, 0xAD, 0xCB, 0x4C]

  /** "Mft" followed by 0x1a. */
  const MFT_SIGNATURE: seq<u8> := [0x4D, 0x66, 0x74, 0x1A]

  const ROOT_SIZE: nat := 16
  const MFT_BLOCK_SIZE: nat := 24
  const HASH_SIZE: nat := 8

  /** Where the MFT lies in the file. */
  datatype RootPointer = RootPointer(offset: u64, size: u32)

  /** Slot 0 of the MFT. */
  datatype MftHeader = MftHeader(signature: seq<u8>, entries: u32, crc: u32)

  /** Slots 1 and up of the MFT: one data block of the archive. */
  datatype MftEntry = MftEntry(
    offset: u64,
    dataSize: u32,
    compression: u16,
    content: u8,
    contentType: u8,
    id: u32,
    crc: u32)

  /** One record of the hash table; `fileOffset` is the MFT slot the file number resolves to. */
  datatype HashRecord = HashRecord(fileNumber: u32, fileOffset: u32)

  /** The constructor's check of the first 16 bytes read from the file. */
  predicate HeaderAccepted(first: seq<u8>)
  {
    first == GWDAT_HEADER
  }

  /** The MFT frame of slot `i`: bytes [24*i, 24*i+24) of the raw MFT, short at its end. */
  function SlotFrame(rawMft: seq<u8>, i: nat): (f: seq<u8>)
    ensures |f| == MFT_BLOCK_SIZE <==> MFT_BLOCK_SIZE * i + MFT_BLOCK_SIZE <= |rawMft|
    ensures |f| == MFT_BLOCK_SIZE ==> f == rawMft[MFT_BLOCK_SIZE * i..MFT_BLOCK_SIZE * i + MFT_BLOCK_SIZE]
  {
    Slice(rawMft, MFT_BLOCK_SIZE * i, MFT_BLOCK_SIZE)
  }

  /** The frame of hash record `j`: bytes [8*j, 8*j+8) of the raw hash table, short at its end. */
  function HashFrame(rawHash: seq<u8>, j: nat): (f: seq<u8>)
    ensures |f| == HASH_SIZE <==> HASH_SIZE * j + HASH_SIZE <= |rawHash|
    ensures |f| == HASH_SIZE ==> f == rawHash[HASH_SIZE * j..HASH_SIZE * j + HASH_SIZE]
  {
    Slice(rawHash, HASH_SIZE * j, HASH_SIZE)
  }

  /** `unpack('QOffset/LSize/x4', ...)`. */
  function DecodeRoot(f: seq<u8>): (r: Option<RootPointer>)
    ensures r.Some? <==> |f| >= ROOT_SIZE
  {
    if |f| < ROOT_SIZE then None
    else Some(RootPointer(FromLE(f[0..8]), FromLE(f[8..12])))
  }

  /** `unpack('a4Signature/x8/LEntries/x4/LCRC', ...)`. */
  function DecodeMftHeader(f: seq<u8>): (r: Option<MftHeader>)
    ensures r.Some? <==> |f| >= MFT_BLOCK_SIZE
    ensures r.Some? ==> |r.value.signature| == 4
  {
    if |f| < MFT_BLOCK_SIZE then None
    else Some(MftHeader(f[0..4], FromLE(f[12..16]), FromLE(f[20..24])))
  }

  /** `unpack('QOffset/LDatasize/SCompression/CContent/CContentType/LID/LCRC', ...)`. */
  function DecodeEntry(f: seq<u8>): (r: Option<MftEntry>)
    ensures r.Some? <==> |f| >= MFT_BLOCK_SIZE
  {
    if |f| < MFT_BLOCK_SIZE then None
    else Some(MftEntry(FromLE(f[0..8]), FromLE(f[8..12]), FromLE(f[12..14]), FromLE(f[14..15]),
                       FromLE(f[15..16]), FromLE(f[16..20]), FromLE(f[20..24])))
  }

  /** `unpack('LFileNumber/LFileOffset', ...)`. */
  function DecodeHashRecord(f: seq<u8>): (r: Option<HashRecord>)
    ensures r.Some? <==> |f| >= HASH_SIZE
  {
    if |f| < HASH_SIZE then None
    else Some(HashRecord(FromLE(f[0..4]), FromLE(f[4..8])))
  }

  function EncodeRoot(p: RootPointer): (f: seq<u8>)
    ensures |f| == ROOT_SIZE
  {
    ToLE(p.offset, 8) + ToLE(p.size, 4) + [0, 0, 0, 0]
  }

  /** Slot 0 with zero bytes in the unknown gaps at bytes 4-11 and 16-19. */
  function EncodeMftHeader(h: MftHeader): (f: seq<u8>)
    requires |h.signature| == 4
    ensures |f| == MFT_BLOCK_SIZE
  {
    h.signature + [0, 0, 0, 0, 0, 0, 0, 0] + ToLE(h.entries, 4) + [0, 0, 0, 0] + ToLE(h.crc, 4)
  }

  /**
   * An MFT entry: Offset at bytes 0-7, Datasize 8-11, Compression 12-13,
   * Content 14, ContentType 15, ID 16-19 and CRC 20-23.
   */
  function EncodeEntry(e: MftEntry): (f: seq<u8>)
    ensures |f| == MFT_BLOCK_SIZE
  {
    ToLE(e.offset, 8) + ToLE(e.dataSize, 4) + ToLE(e.compression, 2) + ToLE(e.content, 1)
      + ToLE(e.contentType, 1) + ToLE(e.id, 4) + ToLE(e.crc, 4)
  }

  /** A hash record: FileNumber at bytes 0-3, FileOffset at 4-7. */
  function EncodeHashRecord(r: HashRecord): (f: seq<u8>)
    ensures |f| == HASH_SIZE
  {
    ToLE(r.fileNumber, 4) + ToLE(r.fileOffset, 4)
  }

  lemma RootRoundTrip(p: RootPointer)
    ensures DecodeRoot(EncodeRoot(p)) == Some(p)
  {
    var f := EncodeRoot(p);
    assert f[0..8] == ToLE(p.offset, 8);
    assert f[8..12] == ToLE(p.size, 4);
    FromLEOfToLE(p.offset, 8);
    FromLEOfToLE(p.size, 4);
  }

  /** The root pointer depends on its first 12 bytes only: the reserved word is skipped. */
  lemma RootIgnoresGap(f: seq<u8>, g: seq<u8>)
    requires |f| == |g| == ROOT_SIZE
    requires f[0..12] == g[0..12]
    ensures DecodeRoot(f) == DecodeRoot(g)
  {
    assert f[0..8] == f[0..12][0..8] && g[0..8] == g[0..12][0..8];
    assert f[8..12] == f[0..12][8..12] && g[8..12] == g[0..12][8..12];
  }

  lemma MftHeaderRoundTrip(h: MftHeader)
    requires |h.signature| == 4
    ensures DecodeMftHeader(EncodeMftHeader(h)) == Some(h)
  {
    var f := EncodeMftHeader(h);
    assert f[0..4] == h.signature;
    assert f[12..16] == ToLE(h.entries, 4);
    assert f[20..24] == ToLE(h.crc, 4);
    FromLEOfToLE(h.entries, 4);
    FromLEOfToLE(h.crc, 4);
  }

  /** Slot 0 depends on the signature, Entries and CRC bytes only: the gaps are ignored. */
  lemma MftHeaderIgnoresGaps(f: seq<u8>, g: seq<u8>)
    requires |f| == |g| == MFT_BLOCK_SIZE
    requires f[0..4] == g[0..4] && f[12..16] == g[12..16] && f[20..24] == g[20..24]
    ensures DecodeMftHeader(f) == DecodeMftHeader(g)
  {
  }

  lemma EntryRoundTrip(e: MftEntry)
    ensures DecodeEntry(EncodeEntry(e)) == Some(e)
  {
    var f := EncodeEntry(e);
    assert f[0..8] == ToLE(e.offset, 8);
    assert f[8..12] == ToLE(e.dataSize, 4);
    assert f[12..14] == ToLE(e.compression, 2);
    assert f[14..15] == ToLE(e.content, 1);
    assert f[15..16] == ToLE(e.contentType, 1);
    assert f[16..20] == ToLE(e.id, 4);
    assert f[20..24] == ToLE(e.crc, 4);
    FromLEOfToLE(e.offset, 8);
    FromLEOfToLE(e.dataSize, 4);
    FromLEOfToLE(e.compression, 2);
    FromLEOfToLE(e.content, 1);
    FromLEOfToLE(e.contentType, 1);
    FromLEOfToLE(e.id, 4);
    FromLEOfToLE(e.crc, 4);
  }

  /** Every 24-byte frame is the encoding of the entry decoded from it: the layout has no gaps. */
  lemma EntryFrameRoundTrip(f: seq<u8>)
    requires |f| == MFT_BLOCK_SIZE
    ensures DecodeEntry(f).Some? && EncodeEntry(DecodeEntry(f).value) == f
  {
    EntryFields(f);
    SplitSlice(f, 0, 8, 12);
    SplitSlice(f, 0, 12, 14);
    SplitSlice(f, 0, 14, 15);
    SplitSlice(f, 0, 15, 16);
    SplitSlice(f, 0, 16, 20);
    SplitSlice(f, 0, 20, 24);
    assert f[0..24] == f;
  }

  /** Each field of a decoded frame encodes back to its own bytes. */
  lemma EntryFields(f: seq<u8>)
    requires |f| == MFT_BLOCK_SIZE
    ensures var e := DecodeEntry(f).value;
      ToLE(e.offset, 8) == f[0..8] && ToLE(e.dataSize, 4) == f[8..12] &&
      ToLE(e.compression, 2) == f[12..14] && ToLE(e.content, 1) == f[14..15] &&
      ToLE(e.contentType, 1) == f[15..16] && ToLE(e.id, 4) == f[16..20] && ToLE(e.crc, 4) == f[20..24]
  {
    ToLEOfFromLE(f[0..8]);
    ToLEOfFromLE(f[8..12]);
    ToLEOfFromLE(f[12..14]);
    ToLEOfFromLE(f[14..15]);
    ToLEOfFromLE(f[15..16]);
    ToLEOfFromLE(f[16..20]);
    ToLEOfFromLE(f[20..24]);
  }

  lemma HashRecordRoundTrip(r: HashRecord)
    ensures DecodeHashRecord(EncodeHashRecord(r)) == Some(r)
  {
    var f := EncodeHashRecord(r);
    assert f[0..4] == ToLE(r.fileNumber, 4);
    assert f[4..8] == ToLE(r.fileOffset, 4);
    FromLEOfToLE(r.fileNumber, 4);
    FromLEOfToLE(r.fileOffset, 4);
  }

  lemma HashFrameRoundTrip(f: seq<u8>)
    requires |f| == HASH_SIZE
    ensures DecodeHashRecord(f).Some? && EncodeHashRecord(DecodeHashRecord(f).value) == f
  {
    var r := DecodeHashRecord(f).value;
    ToLEOfFromLE(f[0..4]);
    ToLEOfFromLE(f[4..8]);
    assert ToLE(r.fileNumber, 4) == f[0..4] && ToLE(r.fileOffset, 4) == f[4..8];
    assert f == f[0..4] + f[4..8];
  }

  /** The header's fields: tag "3AN", version 0x1a, header size 32, block size 512, and the CRC word 0x4ccbad70 read little-endian from the bytes 70 ad cb 4c. */
  lemma HeaderFields()
    ensures GWDAT_HEADER[0..3] == ['3' as int, 'A' as int, 'N' as int] && GWDAT_HEADER[3] == 0x1A
    ensures FromLE(GWDAT_HEADER[4..8]) == 32
    ensures FromLE(GWDAT_HEADER[8..12]) == 512
    ensures FromLE(GWDAT_HEADER[12..16]) == 0x4CCB_AD70
  {
    assert GWDAT_HEADER[4..8] == [0x20, 0x00, 0x00, 0x00];
    FromLE4(GWDAT_HEADER[4..8]);
    assert GWDAT_HEADER[8..12] == [0x00, 0x02, 0x00, 0x00];
    FromLE4(GWDAT_HEADER[8..12]);
    assert GWDAT_HEADER[12..16] == [0x70, 0xAD, 0xCB, 0x4C];
    FromLE4(GWDAT_HEADER[12..16]);
  }

  lemma FromLE4(s: seq<u8>)
    requires |s| == 4
    ensures FromLE(s) == s[0] as int + 0x100 * s[1] as int + 0x1_0000 * s[2] as int + 0x100_0000 * s[3] as int
  {
    assert s[3..][1..] == [];
    assert FromLE(s[3..]) == s[3] as int;
    assert s[2..][1..] == s[3..];
    assert FromLE(s[2..]) == s[2] as int + 0x100 * s[3] as int;
    assert s[1..][1..] == s[2..];
    assert FromLE(s[1..]) == s[1] as int + 0x100 * s[2] as int + 0x1_0000 * s[3] as int;
  }

  /** Changing any single byte of the canonical header makes the constructor reject it. */
  lemma SingleByteChangeRejected(i: nat, b: u8)
    requires i < |GWDAT_HEADER| && b != GWDAT_HEADER[i]
    ensures !HeaderAccepted(GWDAT_HEADER[i := b])
  {
    assert GWDAT_HEADER[i := b][i] != GWDAT_HEADER[i];
  }
}
