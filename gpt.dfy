/** The GPT header of section 5.3.2 and the partition entries of section 5.3.3
    of the UEFI Specification (pkg/disk/gpt.go): the 92-byte header, its
    checksum, the primary/secondary layout of a fresh disk, and the byte layout
    of one partition entry. The loops that read and write a whole entry array
    are in module GptArray. */
module GptCodec {
  import opened Bytes
  import opened Errors
  import opened GuidCodec
  import Crc32

  const GPT_SIZE: u32 := 92
  const GPT_PARTITION_SIZE: u32 := 128
  const GPT_VERSION_2_10: u32 := 0x0001_0000
  const GPT_SIGNATURE: u64 := 0x5452_4150_2049_4645

  /** The ASCII text "EFI PART", which is what the signature looks like on disk. */
  const EFI_PART: seq<byte> := [0x45, 0x46, 0x49, 0x20, 0x50, 0x41, 0x52, 0x54]

  /** The number of blocks each copy of the partition entry array occupies. */
  const PARTITION_BLOCKS: nat := 32

  datatype Gpt = Gpt(
    signature: u64,
    revision: u32,
    size: u32,
    checksum: u32,
    reserved: u32,
    thisLba: u64,
    alternativeLba: u64,
    dataFirst: u64,
    dataLast: u64,
    guid: Guid,
    partitionsLba: u64,
    partitionCount: u32,
    entrySize: u32,
    partitionsCrc: u32)
  {
    /** The header as this implementation understands it: signature, revision
        1.0 and a 92-byte size. */
    predicate Supported()
    {
      signature == GPT_SIGNATURE && revision == GPT_VERSION_2_10 && size == GPT_SIZE
    }

    /** The 92 bytes of the header: every integer little-endian at its fixed
        offset, the disk GUID in its mixed-endian form at 56-71. */
    function Bytes(): (r: seq<byte>)
      ensures |r| == GPT_SIZE as nat
    {
      Prologue() + Locations() + GuidToBytes(guid) + ArrayInfo()
    }

    /** Bytes 0-23: signature, revision, size, checksum, reserved. */
    function Prologue(): (r: seq<byte>)
      ensures |r| == 24
    {
      ToLE(signature, 8) + ToLE(revision, 4) + ToLE(size, 4) + ToLE(checksum, 4)
      + ToLE(reserved, 4)
    }

    /** Bytes 24-55: this header's block, the other header's block, and the
        first and last usable blocks. */
    function Locations(): (r: seq<byte>)
      ensures |r| == 32
    {
      ToLE(thisLba, 8) + ToLE(alternativeLba, 8) + ToLE(dataFirst, 8) + ToLE(dataLast, 8)
    }

    /** Bytes 72-91: where the partition entry array is, its entry count, its
        entry size and its CRC-32. */
    function ArrayInfo(): (r: seq<byte>)
      ensures |r| == 20
    {
      ToLE(partitionsLba, 8) + ToLE(partitionCount, 4) + ToLE(entrySize, 4)
      + ToLE(partitionsCrc, 4)
    }

    /** The offset of every field in the serialised header. */
    lemma Fields()
      ensures var b := Bytes();
        && b[0..8] == ToLE(signature, 8)
        && b[8..12] == ToLE(revision, 4)
        && b[12..16] == ToLE(size, 4)
        && b[16..20] == ToLE(checksum, 4)
        && b[20..24] == ToLE(reserved, 4)
        && b[24..32] == ToLE(thisLba, 8)
        && b[32..40] == ToLE(alternativeLba, 8)
        && b[40..48] == ToLE(dataFirst, 8)
        && b[48..56] == ToLE(dataLast, 8)
        && b[56..72] == GuidToBytes(guid)
        && b[72..80] == ToLE(partitionsLba, 8)
        && b[80..84] == ToLE(partitionCount, 4)
        && b[84..88] == ToLE(entrySize, 4)
        && b[88..92] == ToLE(partitionsCrc, 4)
    {
      var b := Bytes();
      Parts4(Prologue(), Locations(), GuidToBytes(guid), ArrayInfo());
      Parts5(ToLE(signature, 8), ToLE(revision, 4), ToLE(size, 4), ToLE(checksum, 4), ToLE(reserved, 4));
      Parts4(ToLE(thisLba, 8), ToLE(alternativeLba, 8), ToLE(dataFirst, 8), ToLE(dataLast, 8));
      Parts4(ToLE(partitionsLba, 8), ToLE(partitionCount, 4), ToLE(entrySize, 4), ToLE(partitionsCrc, 4));
      SubSlice(b, 0, 24, 0, 8);
      SubSlice(b, 0, 24, 8, 12);
      SubSlice(b, 0, 24, 12, 16);
      SubSlice(b, 0, 24, 16, 20);
      SubSlice(b, 0, 24, 20, 24);
      SubSlice(b, 24, 56, 0, 8);
      SubSlice(b, 24, 56, 8, 16);
      SubSlice(b, 24, 56, 16, 24);
      SubSlice(b, 24, 56, 24, 32);
      SubSlice(b, 72, 92, 0, 8);
      SubSlice(b, 72, 92, 8, 12);
      SubSlice(b, 72, 92, 12, 16);
      SubSlice(b, 72, 92, 16, 20);
    }

    /** Serialises the header into `data[0..92]`. Go panics unless the buffer
        length, truncated to 32 bits, is at least the header's own size and at
        least 92. */
    method FillBytes(data: array<byte>)
      requires Trunc32(data.Length) >= size
      requires Trunc32(data.Length) >= GPT_SIZE
      modifies data
      ensures data[..GPT_SIZE] == Bytes()
      ensures data[GPT_SIZE..] == old(data[GPT_SIZE..])
    {
      ghost var s := data[..];
      // bytes 0-23
      ghost var done := ToLE(signature, 8);
      Blit(data, 0, ToLE(signature, 8));
      Blit(data, 8, ToLE(revision, 4));
      SpliceConcat(s, 0, done, ToLE(revision, 4));
      done := done + ToLE(revision, 4);
      Blit(data, 12, ToLE(size, 4));
      SpliceConcat(s, 0, done, ToLE(size, 4));
      done := done + ToLE(size, 4);
      Blit(data, 16, ToLE(checksum, 4));
      SpliceConcat(s, 0, done, ToLE(checksum, 4));
      done := done + ToLE(checksum, 4);
      Blit(data, 20, ToLE(reserved, 4));
      SpliceConcat(s, 0, done, ToLE(reserved, 4));
      done := done + ToLE(reserved, 4);
      assert data[..] == Splice(s, 0, Prologue());
      // bytes 24-55
      ghost var t := data[..];
      done := ToLE(thisLba, 8);
      Blit(data, 24, ToLE(thisLba, 8));
      Blit(data, 32, ToLE(alternativeLba, 8));
      SpliceConcat(t, 24, done, ToLE(alternativeLba, 8));
      done := done + ToLE(alternativeLba, 8);
      Blit(data, 40, ToLE(dataFirst, 8));
      SpliceConcat(t, 24, done, ToLE(dataFirst, 8));
      done := done + ToLE(dataFirst, 8);
      Blit(data, 48, ToLE(dataLast, 8));
      SpliceConcat(t, 24, done, ToLE(dataLast, 8));
      done := done + ToLE(dataLast, 8);
      assert done == Locations();
      SpliceConcat(s, 0, Prologue(), Locations());
      // bytes 56-71
      Blit(data, 56, GuidToBytes(guid));
      SpliceConcat(s, 0, Prologue() + Locations(), GuidToBytes(guid));
      // bytes 72-91
      t := data[..];
      done := ToLE(partitionsLba, 8);
      Blit(data, 72, ToLE(partitionsLba, 8));
      Blit(data, 80, ToLE(partitionCount, 4));
      SpliceConcat(t, 72, done, ToLE(partitionCount, 4));
      done := done + ToLE(partitionCount, 4);
      Blit(data, 84, ToLE(entrySize, 4));
      SpliceConcat(t, 72, done, ToLE(entrySize, 4));
      done := done + ToLE(entrySize, 4);
      Blit(data, 88, ToLE(partitionsCrc, 4));
      SpliceConcat(t, 72, done, ToLE(partitionsCrc, 4));
      done := done + ToLE(partitionsCrc, 4);
      assert done == ArrayInfo();
      SpliceConcat(s, 0, Prologue() + Locations() + GuidToBytes(guid), ArrayInfo());
      assert data[..] == Splice(s, 0, Bytes());
      assert data[GPT_SIZE..] == s[GPT_SIZE..];
    }

    /** The CRC-32 of the 92 serialised bytes with bytes 16-19 (the checksum
        field) cleared: the same as the checksum of this header with a zero
        checksum field. Go fills a 92-byte array, so it panics when the declared
        size exceeds 92. */
    function CalculateChecksum(): (c: u32)
      requires size <= GPT_SIZE
      ensures c == Crc32.Checksum(this.(checksum := 0).Bytes())
    {
      ChecksumFieldCleared();
      Crc32.Checksum(Splice(Bytes(), 16, [0, 0, 0, 0]))
    }

    lemma ChecksumFieldCleared()
      ensures Splice(Bytes(), 16, [0, 0, 0, 0]) == this.(checksum := 0).Bytes()
    {
      var z: seq<byte> := [0, 0, 0, 0];
      var g := GuidToBytes(guid);
      SplicePrefix(Prologue() + Locations() + g, ArrayInfo(), 16, z);
      SplicePrefix(Prologue() + Locations(), g, 16, z);
      SplicePrefix(Prologue(), Locations(), 16, z);
      var head := ToLE(signature, 8) + ToLE(revision, 4) + ToLE(size, 4);
      SpliceMiddle(head, ToLE(checksum, 4), ToLE(reserved, 4), z);
      ZerosEncodeZero(4);
      assert ToLE(0, 4) == z;
      assert this.(checksum := 0).Prologue() == head + z + ToLE(reserved, 4);
    }

    /** The stored checksum agrees with the header's contents. */
    predicate ChecksumValid()
      requires size <= GPT_SIZE
    {
      checksum == CalculateChecksum()
    }
  }

  /** The checksum does not depend on the value already in the checksum field. */
  lemma ChecksumIgnoresStoredChecksum(h: Gpt, stale: u32)
    requires h.size <= GPT_SIZE
    ensures h.(checksum := stale).CalculateChecksum() == h.CalculateChecksum()
  {
  }

  /** Storing the computed checksum makes the header validate. */
  lemma StoredChecksumValidates(h: Gpt)
    requires h.size <= GPT_SIZE
    ensures h.(checksum := h.CalculateChecksum()).ChecksumValid()
  {
    ChecksumIgnoresStoredChecksum(h, h.CalculateChecksum());
  }

  /** The primary and secondary headers of a fresh disk of `diskBlocks` blocks
      (Go's uint64 arithmetic, so they wrap on disks under 130 blocks). The
      partition array holds (512 / 128) * 32 = 128 entries. The last usable block
      is computed from that entry count, not from the 32-block array size. The
      disk GUID is drawn at random in Go; here it is an input. */
  function NewGpt(diskBlocks: u64, id: Guid): (r: (Gpt, Gpt))
    ensures var (primary, secondary) := r;
      && primary.Supported() && secondary.Supported()
      && primary.checksum == 0 && primary.partitionsCrc == 0
      && secondary.checksum == 0 && secondary.partitionsCrc == 0
      // the primary header is at block 1, its array right after it, data after that
      && primary.thisLba == 1 && primary.partitionsLba == primary.thisLba + 1
      && primary.dataFirst == primary.partitionsLba + PARTITION_BLOCKS
      // 128 entries of 128 bytes, which fill the 32 blocks of the array exactly
      && primary.partitionCount == 128 && primary.entrySize == GPT_PARTITION_SIZE
      && primary.partitionCount as nat * primary.entrySize as nat == PARTITION_BLOCKS * BLOCK_SIZE
      && primary.reserved == 0 && secondary.reserved == primary.reserved
      // the backup is at the last block and points back at the primary
      && primary.alternativeLba == Sub64(diskBlocks, 1)
      && secondary.thisLba == primary.alternativeLba
      && secondary.alternativeLba == primary.thisLba
      // the backup array ends exactly where the backup header starts
      && Add64(secondary.partitionsLba, PARTITION_BLOCKS) == secondary.thisLba
      // both describe the same disk, entries and usable range
      && secondary.guid == primary.guid == id
      && secondary.partitionCount == primary.partitionCount
      && secondary.entrySize == primary.entrySize
      && secondary.dataFirst == primary.dataFirst
      && secondary.dataLast == primary.dataLast
      && primary.dataLast == Sub64(Sub64(diskBlocks, 2), primary.partitionCount)
  {
    var partBlocks := PARTITION_BLOCKS;
    var partCount := (BLOCK_SIZE / GPT_PARTITION_SIZE as nat) * partBlocks;
    var primary := Gpt(
      GPT_SIGNATURE, GPT_VERSION_2_10, GPT_SIZE, 0, 0,
      1, Sub64(diskBlocks, 1), partBlocks + 2, Sub64(Sub64(diskBlocks, 2), partCount),
      id, 2, partCount, GPT_PARTITION_SIZE, 0);
    var secondary := Gpt(
      primary.signature, primary.revision, primary.size, 0, primary.reserved,
      primary.alternativeLba, primary.thisLba, primary.dataFirst, primary.dataLast,
      primary.guid, Sub64(Sub64(diskBlocks, 1), partBlocks), primary.partitionCount,
      primary.entrySize, 0);
    (primary, secondary)
  }

  /** As written, the usable range of a disk of at least 130 blocks ends at block
      N - 130, leaving 96 blocks between it and the backup array at N - 33. */
  lemma NewGptDataLastGap(diskBlocks: u64, id: Guid)
    requires diskBlocks >= 130
    ensures NewGpt(diskBlocks, id).0.dataLast == diskBlocks - 130
    ensures NewGpt(diskBlocks, id).1.partitionsLba == diskBlocks - 33
    ensures NewGpt(diskBlocks, id).1.partitionsLba - NewGpt(diskBlocks, id).0.dataLast - 1 == 96
  {
  }

  /** Reads a header, checking, in this order: at least 16 bytes, the signature,
      the revision, the declared size, and that the buffer length truncated to
      32 bits covers the declared size. The checksums are not checked. */
  function ParseGpt(data: seq<byte>): (r: Result<Gpt>)
    ensures r.Ok? ==> |data| >= GPT_SIZE as nat && r.value.Supported()
    ensures r.Err? ==> r.error.UnexpectedEof? || r.error.GptNotPresent?
                       || r.error.GptUnsupportedRevision? || r.error.GptUnsupportedSize?
    ensures r.Err? && r.error.GptUnsupportedRevision? ==> r.error.revision != GPT_VERSION_2_10
    ensures r.Err? && r.error.GptUnsupportedSize? ==> r.error.size != GPT_SIZE
  {
    if |data| < 16 then Err(UnexpectedEof)
    else if Uint64(data[0..8]) != GPT_SIGNATURE then Err(GptNotPresent)
    else if Uint32(data[8..12]) != GPT_VERSION_2_10 then
      Err(GptUnsupportedRevision(Uint32(data[8..12])))
    else if Uint32(data[12..16]) != GPT_SIZE then
      Err(GptUnsupportedSize(Uint32(data[12..16])))
    else if Trunc32(|data|) < GPT_SIZE then Err(UnexpectedEof)
    else Ok(DecodeHeader(data))
  }

  /** Every field of the header read from its fixed offset. */
  function DecodeHeader(data: seq<byte>): (h: Gpt)
    requires |data| >= GPT_SIZE as nat
    ensures h.Bytes() == data[..GPT_SIZE]
  {
    var h := Gpt(
      Uint64(data[0..8]),
      Uint32(data[8..12]),
      Uint32(data[12..16]),
      Uint32(data[16..20]),
      Uint32(data[20..24]),
      Uint64(data[24..32]),
      Uint64(data[32..40]),
      Uint64(data[40..48]),
      Uint64(data[48..56]),
      GuidFromBytes(data[56..72]),
      Uint64(data[72..80]),
      Uint32(data[80..84]),
      Uint32(data[84..88]),
      Uint32(data[88..92]));
    PrologueReadBack(data, h);
    LocationsReadBack(data, h);
    ArrayInfoReadBack(data, h);
    GuidBytesRoundTrip(data[56..72]);
    assert data[..92] == data[0..24] + data[24..56] + data[56..72] + data[72..92];
    h
  }

  lemma PrologueReadBack(data: seq<byte>, h: Gpt)
    requires |data| >= 24
    requires h.signature == FromLE(data[0..8]) && h.revision == FromLE(data[8..12])
    requires h.size == FromLE(data[12..16]) && h.checksum == FromLE(data[16..20])
    requires h.reserved == FromLE(data[20..24])
    ensures h.Prologue() == data[0..24]
  {
    ToLEFromLE(data[0..8]);
    ToLEFromLE(data[8..12]);
    ToLEFromLE(data[12..16]);
    ToLEFromLE(data[16..20]);
    ToLEFromLE(data[20..24]);
    SliceSplit(data, 0, 8, 12);
    SliceSplit(data, 0, 12, 16);
    SliceSplit(data, 0, 16, 20);
    SliceSplit(data, 0, 20, 24);
  }

  lemma LocationsReadBack(data: seq<byte>, h: Gpt)
    requires |data| >= 56
    requires h.thisLba == FromLE(data[24..32]) && h.alternativeLba == FromLE(data[32..40])
    requires h.dataFirst == FromLE(data[40..48]) && h.dataLast == FromLE(data[48..56])
    ensures h.Locations() == data[24..56]
  {
    ToLEFromLE(data[24..32]);
    ToLEFromLE(data[32..40]);
    ToLEFromLE(data[40..48]);
    ToLEFromLE(data[48..56]);
    SliceSplit(data, 24, 32, 40);
    SliceSplit(data, 24, 40, 48);
    SliceSplit(data, 24, 48, 56);
  }

  lemma ArrayInfoReadBack(data: seq<byte>, h: Gpt)
    requires |data| >= 92
    requires h.partitionsLba == FromLE(data[72..80]) && h.partitionCount == FromLE(data[80..84])
    requires h.entrySize == FromLE(data[84..88]) && h.partitionsCrc == FromLE(data[88..92])
    ensures h.ArrayInfo() == data[72..92]
  {
    ToLEFromLE(data[72..80]);
    ToLEFromLE(data[80..84]);
    ToLEFromLE(data[84..88]);
    ToLEFromLE(data[88..92]);
    SliceSplit(data, 72, 80, 84);
    SliceSplit(data, 72, 84, 88);
    SliceSplit(data, 72, 88, 92);
  }

  lemma SignatureIsEfiPart()
    ensures ToLE(GPT_SIGNATURE, 8) == EFI_PART
  {
    assert ToLE(0x54, 1) == [0x54];
    assert ToLE(0x5452, 2) == [0x52] + ToLE(0x54, 1);
    assert ToLE(0x545241, 3) == [0x41] + ToLE(0x5452, 2);
    assert ToLE(0x5452_4150, 4) == [0x50] + ToLE(0x545241, 3);
    assert ToLE(0x54_5241_5020, 5) == [0x20] + ToLE(0x5452_4150, 4);
    assert ToLE(0x5452_4150_2049, 6) == [0x49] + ToLE(0x54_5241_5020, 5);
    assert ToLE(0x54_5241_5020_4946, 7) == [0x46] + ToLE(0x5452_4150_2049, 6);
    assert ToLE(GPT_SIGNATURE, 8) == [0x45] + ToLE(0x54_5241_5020_4946, 7);
  }

  /** The failures of ParseGpt, in terms of the bytes: too short, then not
      "EFI PART", then not revision 00 00 01 00, then not size 5C 00 00 00, then
      shorter (mod 2^32) than 92 bytes; otherwise it succeeds. */
  lemma ParseGptErrors(data: seq<byte>)
    ensures |data| < 16 ==> ParseGpt(data) == Err(UnexpectedEof)
    ensures |data| >= 16 && data[0..8] != EFI_PART ==> ParseGpt(data) == Err(GptNotPresent)
    ensures |data| >= 16 && data[0..8] == EFI_PART && data[8..12] != [0, 0, 1, 0]
            ==> ParseGpt(data).Err? && ParseGpt(data).error.GptUnsupportedRevision?
    ensures |data| >= 16 && data[0..8] == EFI_PART && data[8..12] == [0, 0, 1, 0]
            && data[12..16] != [92, 0, 0, 0]
            ==> ParseGpt(data).Err? && ParseGpt(data).error.GptUnsupportedSize?
    ensures |data| >= 16 && data[0..8] == EFI_PART && data[8..12] == [0, 0, 1, 0]
            && data[12..16] == [92, 0, 0, 0]
            ==> if Trunc32(|data|) < 92 then ParseGpt(data) == Err(UnexpectedEof)
                else ParseGpt(data).Ok?
  {
    if |data| >= 16 {
      Pow256Widths();
      SignatureIsEfiPart();
      FromLEIsConstant(data[0..8], GPT_SIGNATURE);
      FromLEIsConstant(data[8..12], GPT_VERSION_2_10);
      FromLEIsConstant(data[12..16], GPT_SIZE);
      assert ToLE(GPT_VERSION_2_10, 4) == [0, 0, 1, 0];
      assert ToLE(GPT_SIZE, 4) == [92, 0, 0, 0];
    }
  }

  /** A supported header survives serialisation and parsing unchanged. */
  lemma GptRoundTrip(h: Gpt)
    requires h.Supported()
    ensures ParseGpt(h.Bytes()) == Ok(h)
  {
    Pow256Widths();
    h.Fields();
    FromLEToLE(h.signature, 8);
    FromLEToLE(h.revision, 4);
    FromLEToLE(h.size, 4);
    FromLEToLE(h.checksum, 4);
    FromLEToLE(h.reserved, 4);
    FromLEToLE(h.thisLba, 8);
    FromLEToLE(h.alternativeLba, 8);
    FromLEToLE(h.dataFirst, 8);
    FromLEToLE(h.dataLast, 8);
    FromLEToLE(h.partitionsLba, 8);
    FromLEToLE(h.partitionCount, 4);
    FromLEToLE(h.entrySize, 4);
    FromLEToLE(h.partitionsCrc, 4);
    GuidRoundTrip(h.guid);
  }

  /** Whatever ParseGpt accepts is a supported header whose serialisation is the
      first 92 bytes it was read from. */
  lemma GptBytesRoundTrip(data: seq<byte>)
    requires ParseGpt(data).Ok?
    ensures ParseGpt(data).value.Supported()
    ensures ParseGpt(data).value.Bytes() == data[..GPT_SIZE]
  {
    ParseGptAccepts(data);
  }

  lemma ParseGptAccepts(data: seq<byte>)
    requires ParseGpt(data).Ok?
    ensures |data| >= GPT_SIZE as nat
    ensures ParseGpt(data) == Ok(DecodeHeader(data))
    ensures DecodeHeader(data).Supported()
  {
  }

  /** One entry of the partition entry array. The name is held as UTF-16 code
      units. */
  datatype GptPartition = GptPartition(
    partType: Guid,
    id: Guid,
    startLba: u64,
    endLba: u64,
    attributes: u64,
    name: seq<u16>)

  /** An unused slot: all fields zero, empty name. */
  const ZERO_ENTRY: GptPartition := GptPartition(ZERO_GUID, ZERO_GUID, 0, 0, 0, [])

  /** A new entry with no attributes. Go draws the unique partition GUID at
      random; here it is an input. */
  function NewGptPartition(partType: Guid, start: u64, end: u64, name: seq<u16>, id: Guid): (p: GptPartition)
    ensures p.partType == partType && p.id == id && p.name == name
    ensures p.startLba == start && p.endLba == end && p.attributes == 0
  {
    GptPartition(partType, id, start, end, 0, name)
  }

  /** The offset of the name field inside an entry. */
  const NAME_OFFSET: nat := 56

  /** The number of code units the name field of a `size`-byte entry holds. */
  function NameCapacity(size: nat): nat
    requires size >= NAME_OFFSET
  {
    (size - NAME_OFFSET) / 2
  }

  /** The encoded name fits the entry; otherwise Go writes past the end of its
      scratch buffer and panics. */
  predicate NameFits(p: GptPartition, size: nat)
  {
    NAME_OFFSET + 2 * |p.name| <= size
  }

  /** The name contains no zero code unit, which would end it when read back. */
  predicate NameHasNoNul(p: GptPartition)
  {
    forall j :: 0 <= j < |p.name| ==> p.name[j] != 0
  }

  /** The code units of a name, little-endian, two bytes each. */
  function NameBytes(units: seq<u16>): (r: seq<byte>)
    ensures |r| == 2 * |units|
  {
    if units == [] then [] else NameBytes(units[..|units| - 1]) + ToLE(units[|units| - 1], 2)
  }

  lemma {:induction false} NameBytesAt(units: seq<u16>, j: nat)
    requires j < |units|
    ensures NameBytes(units)[2 * j..2 * j + 2] == ToLE(units[j], 2)
  {
    var init := units[..|units| - 1];
    if j < |units| - 1 {
      NameBytesAt(init, j);
      assert NameBytes(units)[2 * j..2 * j + 2] == NameBytes(init)[2 * j..2 * j + 2];
    }
  }

  /** Bytes 0-55 of an entry: type GUID, partition GUID, first and last block,
      attributes. */
  function EntryHead(p: GptPartition): (r: seq<byte>)
    ensures |r| == NAME_OFFSET
  {
    GuidToBytes(p.partType) + GuidToBytes(p.id) + ToLE(p.startLba, 8) + ToLE(p.endLba, 8)
    + ToLE(p.attributes, 8)
  }

  /** The `size`-byte record of an entry: the fixed fields, the name, and zeros
      to the end of the record. */
  function EncodeEntry(p: GptPartition, size: nat): (r: seq<byte>)
    requires NameFits(p, size)
    ensures |r| == size
    ensures r[..NAME_OFFSET] == EntryHead(p)
    ensures r[NAME_OFFSET..NAME_OFFSET + 2 * |p.name|] == NameBytes(p.name)
    ensures forall j :: NAME_OFFSET + 2 * |p.name| <= j < size ==> r[j] == 0
  {
    EntryHead(p) + NameBytes(p.name) + Zeros(size - NAME_OFFSET - 2 * |p.name|)
  }

  /** The name field of a record read as code units: as many as fit. */
  function Units(field: seq<byte>): (units: seq<u16>)
    ensures |units| == |field| / 2
  {
    seq(|field| / 2, j requires 0 <= j < |field| / 2 => Uint16(field[2 * j..2 * j + 2]))
  }

  /** The code units up to (not including) the first zero, or all of them. */
  function TakeName(units: seq<u16>): (name: seq<u16>)
    ensures |name| <= |units| && name == units[..|name|]
    ensures forall j :: 0 <= j < |name| ==> name[j] != 0
    ensures |name| == |units| || units[|name|] == 0
  {
    if units == [] || units[0] == 0 then [] else [units[0]] + TakeName(units[1..])
  }

  /** TakeName is the only prefix with no zero that ends at a zero or at the end. */
  lemma TakeNameUnique(units: seq<u16>, k: nat)
    requires k <= |units|
    requires forall j :: 0 <= j < k ==> units[j] != 0
    requires k == |units| || units[k] == 0
    ensures TakeName(units) == units[..k]
  {
  }

  /** Reads an entry from its record; the name is read until its first zero code
      unit or until the field ends. Whatever the record holds, the entry read
      can be written back into a record of the same size. */
  function DecodeEntry(rec: seq<byte>): (e: GptPartition)
    requires |rec| >= NAME_OFFSET
    ensures NameFits(e, |rec|) && NameHasNoNul(e)
  {
    GptPartition(
      GuidFromBytes(rec[0..16]),
      GuidFromBytes(rec[16..32]),
      Uint64(rec[32..40]),
      Uint64(rec[40..48]),
      Uint64(rec[48..56]),
      TakeName(Units(rec[NAME_OFFSET..])))
  }

  /** The name field of an encoded entry reads back as the name followed by zero
      code units. */
  lemma UnitsOfNameField(name: seq<u16>, m: nat)
    ensures var units := Units(NameBytes(name) + Zeros(m));
      && |units| == |name| + m / 2
      && units[..|name|] == name
      && forall j :: |name| <= j < |units| ==> units[j] == 0
  {
    var field := NameBytes(name) + Zeros(m);
    var units := Units(field);
    Pow256Widths();
    forall j | 0 <= j < |name|
      ensures units[j] == name[j]
    {
      NameBytesAt(name, j);
      assert field[2 * j..2 * j + 2] == NameBytes(name)[2 * j..2 * j + 2];
      FromLEToLE(name[j], 2);
    }
    forall j | |name| <= j < |units|
      ensures units[j] == 0
    {
      assert field[2 * j..2 * j + 2] == Zeros(2);
      ZerosEncodeZero(2);
    }
  }

  /** The fixed fields read back from the first 56 bytes of a record. */
  lemma EntryHeadReadBack(p: GptPartition, rec: seq<byte>)
    requires |rec| >= NAME_OFFSET && rec[..NAME_OFFSET] == EntryHead(p)
    ensures GuidFromBytes(rec[0..16]) == p.partType
    ensures GuidFromBytes(rec[16..32]) == p.id
    ensures Uint64(rec[32..40]) == p.startLba
    ensures Uint64(rec[40..48]) == p.endLba
    ensures Uint64(rec[48..56]) == p.attributes
  {
    Pow256Widths();
    EntryHeadFields(p, rec);
    GuidRoundTrip(p.partType);
    GuidRoundTrip(p.id);
    FromLEToLE(p.startLba, 8);
    FromLEToLE(p.endLba, 8);
    FromLEToLE(p.attributes, 8);
  }

  lemma EntryHeadFields(p: GptPartition, rec: seq<byte>)
    requires |rec| >= NAME_OFFSET && rec[..NAME_OFFSET] == EntryHead(p)
    ensures rec[0..16] == GuidToBytes(p.partType)
    ensures rec[16..32] == GuidToBytes(p.id)
    ensures rec[32..40] == ToLE(p.startLba, 8)
    ensures rec[40..48] == ToLE(p.endLba, 8)
    ensures rec[48..56] == ToLE(p.attributes, 8)
  {
    Parts5(GuidToBytes(p.partType), GuidToBytes(p.id), ToLE(p.startLba, 8), ToLE(p.endLba, 8), ToLE(p.attributes, 8));
    SubSlice(rec, 0, NAME_OFFSET, 0, 16);
    SubSlice(rec, 0, NAME_OFFSET, 16, 32);
    SubSlice(rec, 0, NAME_OFFSET, 32, 40);
    SubSlice(rec, 0, NAME_OFFSET, 40, 48);
    SubSlice(rec, 0, NAME_OFFSET, 48, 56);
  }

  /** An entry whose name fits and has no zero code unit survives encoding and
      decoding unchanged. */
  lemma EntryRoundTrip(p: GptPartition, size: nat)
    requires NameFits(p, size) && NameHasNoNul(p)
    ensures DecodeEntry(EncodeEntry(p, size)) == p
  {
    var rec := EncodeEntry(p, size);
    EntryHeadReadBack(p, rec);
    NameReadBack(p, size);
  }

  /** The name field of an encoded entry reads back as the name. */
  lemma NameReadBack(p: GptPartition, size: nat)
    requires NameFits(p, size) && NameHasNoNul(p)
    ensures TakeName(Units(EncodeEntry(p, size)[NAME_OFFSET..])) == p.name
  {
    var m := size - NAME_OFFSET - 2 * |p.name|;
    assert EncodeEntry(p, size)[NAME_OFFSET..] == NameBytes(p.name) + Zeros(m);
    UnitsOfNameField(p.name, m);
    TakeNameUnique(Units(NameBytes(p.name) + Zeros(m)), |p.name|);
  }

  /** The unused slot is an all-zero record, and an all-zero record reads back as
      the unused slot (with the empty name). */
  lemma ZeroEntryIsZeros(size: nat)
    requires size >= NAME_OFFSET
    ensures EncodeEntry(ZERO_ENTRY, size) == Zeros(size)
    ensures DecodeEntry(Zeros(size)) == ZERO_ENTRY
  {
    assert GuidToBytes(ZERO_GUID) == Zeros(16);
    ToLEOfZero(8);
    assert EntryHead(ZERO_ENTRY) == Zeros(NAME_OFFSET);
    assert EncodeEntry(ZERO_ENTRY, size) == Zeros(size);
    EntryRoundTrip(ZERO_ENTRY, size);
  }

  /** The records of `parts`, in order. */
  function EncodeRecords(parts: seq<GptPartition>, size: nat): (recs: seq<seq<byte>>)
    requires forall i :: 0 <= i < |parts| ==> NameFits(parts[i], size)
    ensures |recs| == |parts| && Uniform(recs, size)
  {
    if parts == [] then []
    else EncodeRecords(parts[..|parts| - 1], size) + [EncodeEntry(parts[|parts| - 1], size)]
  }

  lemma {:induction false} EncodeRecordsAt(parts: seq<GptPartition>, size: nat, i: nat)
    requires forall j :: 0 <= j < |parts| ==> NameFits(parts[j], size)
    requires i < |parts|
    ensures EncodeRecords(parts, size)[i] == EncodeEntry(parts[i], size)
  {
    if i < |parts| - 1 {
      EncodeRecordsAt(parts[..|parts| - 1], size, i);
    }
  }

  /** One more entry appends its record. */
  lemma EncodeRecordsAppend(parts: seq<GptPartition>, p: GptPartition, size: nat)
    requires forall i :: 0 <= i < |parts| ==> NameFits(parts[i], size)
    requires NameFits(p, size)
    ensures EncodeRecords(parts + [p], size) == EncodeRecords(parts, size) + [EncodeEntry(p, size)]
  {
    assert (parts + [p])[..|parts|] == parts;
  }

  /** The entry array: the records of `parts`, one after another. */
  function EncodeArray(parts: seq<GptPartition>, size: nat): (r: seq<byte>)
    requires forall i :: 0 <= i < |parts| ==> NameFits(parts[i], size)
    ensures |r| == RecordOffset(|parts|, size)
  {
    JoinLength(EncodeRecords(parts, size), size);
    Join(EncodeRecords(parts, size))
  }

  /** Record `i` of the array is the encoding of entry `i`. */
  lemma EncodeArrayAt(parts: seq<GptPartition>, size: nat, i: nat)
    requires forall j :: 0 <= j < |parts| ==> NameFits(parts[j], size)
    requires i < |parts|
    ensures RecordOffset(i, size) + size <= |EncodeArray(parts, size)|
    ensures EncodeArray(parts, size)[RecordOffset(i, size)..RecordOffset(i, size) + size]
         == EncodeEntry(parts[i], size)
  {
    JoinAt(EncodeRecords(parts, size), size, i);
    EncodeRecordsAt(parts, size, i);
  }

  /** The entries read from `recs`, in order. */
  function DecodeRecords(recs: seq<seq<byte>>): (parts: seq<GptPartition>)
    requires forall i :: 0 <= i < |recs| ==> |recs[i]| >= NAME_OFFSET
    ensures |parts| == |recs|
  {
    if recs == [] then []
    else DecodeRecords(recs[..|recs| - 1]) + [DecodeEntry(recs[|recs| - 1])]
  }

  lemma {:induction false} DecodeRecordsAt(recs: seq<seq<byte>>, i: nat)
    requires forall j :: 0 <= j < |recs| ==> |recs[j]| >= NAME_OFFSET
    requires i < |recs|
    ensures DecodeRecords(recs)[i] == DecodeEntry(recs[i])
  {
    if i < |recs| - 1 {
      DecodeRecordsAt(recs[..|recs| - 1], i);
    }
  }

  /** One more record appends its entry. */
  lemma DecodeRecordsAppend(recs: seq<seq<byte>>, rec: seq<byte>)
    requires forall i :: 0 <= i < |recs| ==> |recs[i]| >= NAME_OFFSET
    requires |rec| >= NAME_OFFSET
    ensures DecodeRecords(recs + [rec]) == DecodeRecords(recs) + [DecodeEntry(rec)]
  {
    assert (recs + [rec])[..|recs|] == recs;
  }

  /** Reads `count` consecutive `size`-byte records. */
  function DecodeArray(bytes: seq<byte>, size: nat, count: nat): (parts: seq<GptPartition>)
    requires size >= NAME_OFFSET && |bytes| == RecordOffset(count, size)
    ensures |parts| == count
  {
    DecodeRecords(Split(bytes, size, count))
  }

  /** Entry `i` is read from record `i`. */
  lemma DecodeArrayAt(bytes: seq<byte>, size: nat, count: nat, i: nat)
    requires size >= NAME_OFFSET && |bytes| == RecordOffset(count, size)
    requires i < count
    ensures RecordOffset(i, size) + size <= |bytes|
    ensures DecodeArray(bytes, size, count)[i]
         == DecodeEntry(bytes[RecordOffset(i, size)..RecordOffset(i, size) + size])
  {
    SplitAt(bytes, size, count, i);
    DecodeRecordsAt(Split(bytes, size, count), i);
  }

  /** Joined records decode to the entries the records decode to one by one. */
  lemma DecodeArrayJoin(recs: seq<seq<byte>>, size: nat)
    requires size >= NAME_OFFSET && Uniform(recs, size)
    ensures |Join(recs)| == RecordOffset(|recs|, size)
    ensures DecodeArray(Join(recs), size, |recs|) == DecodeRecords(recs)
  {
    SplitJoin(recs, size);
  }

  /** Writing an entry array and reading it back with the same entry size and
      count gives the same entries, provided every name fits and has no zero
      code unit. */
  lemma ArrayRoundTrip(parts: seq<GptPartition>, size: nat)
    requires size >= NAME_OFFSET
    requires forall i :: 0 <= i < |parts| ==> NameFits(parts[i], size) && NameHasNoNul(parts[i])
    ensures DecodeArray(EncodeArray(parts, size), size, |parts|) == parts
  {
    var recs := EncodeRecords(parts, size);
    DecodeArrayJoin(recs, size);
    forall i | 0 <= i < |parts|
      ensures DecodeRecords(recs)[i] == parts[i]
    {
      RecordRoundTrip(parts, size, i);
    }
  }

  /** Record `i` of an encoded array reads back as entry `i`. */
  lemma RecordRoundTrip(parts: seq<GptPartition>, size: nat, i: nat)
    requires size >= NAME_OFFSET && i < |parts|
    requires forall i :: 0 <= i < |parts| ==> NameFits(parts[i], size) && NameHasNoNul(parts[i])
    ensures DecodeRecords(EncodeRecords(parts, size))[i] == parts[i]
  {
    DecodeRecordsAt(EncodeRecords(parts, size), i);
    EncodeRecordsAt(parts, size, i);
    EntryRoundTrip(parts[i], size);
  }

  /** Appending one entry appends its record. */
  lemma EncodeArrayAppend(parts: seq<GptPartition>, p: GptPartition, size: nat)
    requires forall i :: 0 <= i < |parts| ==> NameFits(parts[i], size)
    requires NameFits(p, size)
    ensures EncodeArray(parts + [p], size) == EncodeArray(parts, size) + EncodeEntry(p, size)
  {
    EncodeRecordsAppend(parts, p, size);
    JoinAppend(EncodeRecords(parts, size), EncodeEntry(p, size));
  }

  /** Reading one more record appends its entry. */
  lemma DecodeArrayAppend(bytes: seq<byte>, rec: seq<byte>, size: nat, count: nat)
    requires size >= NAME_OFFSET && |bytes| == RecordOffset(count, size) && |rec| == size
    ensures |bytes + rec| == RecordOffset(count + 1, size)
    ensures DecodeArray(bytes + rec, size, count + 1) == DecodeArray(bytes, size, count) + [DecodeEntry(rec)]
  {
    assert (bytes + rec)[..|bytes|] == bytes;
    assert (bytes + rec)[|bytes|..] == rec;
    assert Split(bytes + rec, size, count + 1) == Split(bytes, size, count) + [rec];
    DecodeRecordsAppend(Split(bytes, size, count), rec);
  }
}
