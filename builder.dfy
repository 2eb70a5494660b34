/** The disk builder of pkg/diskbuilder/builder.go: it creates a zeroed image
    of a whole number of 512-byte blocks, holds a fresh MBR, the primary and
    secondary GPT headers and a table of 128 partition entries, lets the caller
    fill entries and MBR slots in order, and on Close writes the MBR, the
    primary array and header, then the secondary array and header. */
module DiskBuilder {
  import opened Bytes
  import opened Errors
  import opened MbrCodec
  import opened GptCodec
  import Crc32
  import opened BlockDevice
  import GptArray
  import opened GuidCodec

  /** MBR slot `k` (0 to 3) of a record. */
  function Slot(m: Mbr, k: nat): MbrPartition
    requires k < 4
  {
    if k == 0 then m.part1 else if k == 1 then m.part2 else if k == 2 then m.part3 else m.part4
  }

  /** The record with slot `k` replaced by `p`: the switch of `AddMBR`. */
  function WithPartition(m: Mbr, k: nat, p: MbrPartition): (r: Mbr)
    requires k < 4
    ensures Slot(r, k) == p
    ensures forall j :: 0 <= j < 4 && j != k ==> Slot(r, j) == Slot(m, j)
    ensures r.bootstrap == m.bootstrap && r.diskId == m.diskId
    ensures r.reserved == m.reserved && r.signature == m.signature
  {
    match k
    case 0 => m.(part1 := p)
    case 1 => m.(part2 := p)
    case 2 => m.(part3 := p)
    case 3 => m.(part4 := p)
  }

  /** The header once Close has stored the array's CRC-32 and then the header
      checksum computed over the result. */
  function Seal(h: Gpt, crc: u32): (r: Gpt)
    requires h.size <= GPT_SIZE
    ensures r.size == h.size && r.partitionsCrc == crc && r.ChecksumValid()
    ensures r.(checksum := h.checksum, partitionsCrc := h.partitionsCrc) == h
  {
    var h' := h.(partitionsCrc := crc);
    StoredChecksumValidates(h');
    h'.(checksum := h'.CalculateChecksum())
  }

  /** The byte offset at which the entry array of `h` is written:
      `PartitionsLBA * 512` in uint64 arithmetic. */
  function ArrayStart(h: Gpt): u64
  {
    Mul64(h.partitionsLba, BLOCK_SIZE)
  }

  /** The array of `count` entries described by `h` and the header itself both
      fit an image of `n` bytes. */
  predicate CopyFits(h: Gpt, count: nat, n: nat)
  {
    && (count == 0 || ArrayStart(h) + RecordOffset(count, h.entrySize) <= n)
    && 0 <= Disk.BlockOffset(h.thisLba) && Disk.BlockOffset(h.thisLba) + GPT_SIZE as nat <= n
  }

  /** Every write of Close fits an image of `n` bytes. */
  predicate CloseFits(primary: Gpt, secondary: Gpt, count: nat, n: nat)
  {
    MBR_SIZE <= n && CopyFits(primary, count, n) && CopyFits(secondary, count, n)
  }

  /** The image after one copy of the table is written: the entry array at
      the array block of `h`, then `h` sealed with the array's CRC-32 at its own
      block. */
  ghost function CopyImage(image: seq<byte>, h: Gpt, parts: seq<GptPartition>): (r: seq<byte>)
    requires h.size <= GPT_SIZE
    requires forall i :: 0 <= i < |parts| ==> NameFits(parts[i], h.entrySize)
    requires parts != [] && CopyFits(h, |parts|, |image|)
    ensures |r| == |image|
  {
    var a := EncodeArray(parts, h.entrySize);
    var written := Splice(image, ArrayStart(h), a);
    Splice(written, Disk.BlockOffset(h.thisLba), Seal(h, Crc32.Checksum(a)).Bytes())
  }

  /** The image after the five writes of Close, in order: the MBR, the primary
      array and header, the secondary array and header. */
  ghost function ClosedImage(image: seq<byte>, mbr: Mbr, primary: Gpt, secondary: Gpt,
                             parts: seq<GptPartition>): (r: seq<byte>)
    requires primary.size <= GPT_SIZE && secondary.size <= GPT_SIZE
    requires forall i :: 0 <= i < |parts| ==> NameFits(parts[i], primary.entrySize)
    requires forall i :: 0 <= i < |parts| ==> NameFits(parts[i], secondary.entrySize)
    requires parts != [] && CloseFits(primary, secondary, |parts|, |image|)
    ensures |r| == |image|
  {
    var withMbr := Splice(image, 0, mbr.Bytes());
    CopyImage(CopyImage(withMbr, primary, parts), secondary, parts)
  }

  /** The two assignments of Close that store the array CRC and then the
      header checksum give the sealed header. */
  lemma SealStep(h: Gpt, crc: u32, sealed: Gpt)
    requires h.size <= GPT_SIZE
    requires sealed == h.(partitionsCrc := crc).(checksum := h.(partitionsCrc := crc).CalculateChecksum())
    ensures sealed == Seal(h, crc) && sealed.thisLba == h.thisLba
  {
  }

  /** Writing the array and then the sealed header gives the image of one copy. */
  lemma CopyStep(before: seq<byte>, written: seq<byte>, after: seq<byte>, h: Gpt,
                 parts: seq<GptPartition>, sealed: Gpt)
    requires h.size <= GPT_SIZE
    requires forall i :: 0 <= i < |parts| ==> NameFits(parts[i], h.entrySize)
    requires parts != [] && CopyFits(h, |parts|, |before|)
    requires written == Splice(before, ArrayStart(h), EncodeArray(parts, h.entrySize))
    requires sealed == Seal(h, Crc32.Checksum(EncodeArray(parts, h.entrySize)))
    requires after == Splice(written, Disk.BlockOffset(sealed.thisLba), sealed.Bytes())
    ensures after == CopyImage(before, h, parts)
  {
  }

  /** Close fits a fresh image exactly when it has at least 34 blocks: the MBR,
      the primary header at block 1 and its 32-block array from block 2 take
      the first 34 blocks. On smaller images Go's uint64 arithmetic wraps the
      secondary's blocks, and the writes then fail. */
  lemma FreshImageFits(blocks: u64, guid: Guid)
    requires blocks * BLOCK_SIZE < TWO_63
    ensures var (primary, secondary) := NewGpt(blocks, guid);
      CloseFits(primary, secondary, primary.partitionCount as nat, blocks * BLOCK_SIZE) <==> blocks >= 34
  {
    var (primary, secondary) := NewGpt(blocks, guid);
    assert primary.partitionCount == 128 && primary.entrySize == 128;
    RecordOffsetIsProduct(128, 128);
    assert ArrayStart(primary) == 1024;
    assert Disk.BlockOffset(primary.thisLba) == 512;
    if blocks >= 34 {
      assert secondary.thisLba == blocks - 1;
      assert Disk.BlockOffset(secondary.thisLba) == (blocks - 1) * BLOCK_SIZE;
      assert secondary.partitionsLba == blocks - 33;
      assert ArrayStart(secondary) == (blocks - 33) * BLOCK_SIZE;
    }
  }

  /** The fresh-disk layout of the five writes of Close, in increasing byte
      order and without overlap: the MBR, the primary header, the primary array,
      the secondary array and the secondary header. */
  predicate InOrder(primary: Gpt, secondary: Gpt, count: nat, n: nat)
  {
    var len := RecordOffset(count, GPT_PARTITION_SIZE as nat);
    && MBR_SIZE <= Disk.BlockOffset(primary.thisLba)
    && Disk.BlockOffset(primary.thisLba) + GPT_SIZE as nat <= ArrayStart(primary)
    && ArrayStart(primary) + len <= ArrayStart(secondary)
    && ArrayStart(secondary) + len <= Disk.BlockOffset(secondary.thisLba)
    && Disk.BlockOffset(secondary.thisLba) + GPT_SIZE as nat <= n
  }

  /** The headers of a fresh disk are laid out in order exactly when it has at
      least 67 blocks; below that the secondary array, which ends at the last
      block, reaches back into the primary one. */
  lemma FreshImageInOrder(blocks: u64, guid: Guid)
    requires blocks * BLOCK_SIZE < TWO_63
    ensures var (primary, secondary) := NewGpt(blocks, guid);
      InOrder(primary, secondary, primary.partitionCount as nat, blocks * BLOCK_SIZE) <==> blocks >= 67
  {
    var (primary, secondary) := NewGpt(blocks, guid);
    assert primary.partitionCount == 128;
    RecordOffsetIsProduct(128, 128);
    assert ArrayStart(primary) == 1024;
    if blocks >= 33 {
      assert secondary.partitionsLba == blocks - 33;
      assert ArrayStart(secondary) == (blocks - 33) * BLOCK_SIZE;
    }
    if blocks >= 67 {
      assert Disk.BlockOffset(secondary.thisLba) == (blocks - 1) * BLOCK_SIZE;
    }
  }

  /** What reading back the image Close leaves relies on: headers Go's
      ParseGPT accepts, 128-byte entries whose names survive the round trip
      through the array, and the five writes of Close laid out in order. */
  predicate ReadBackable(n: nat, primary: Gpt, secondary: Gpt, parts: seq<GptPartition>)
  {
    && primary.Supported() && secondary.Supported()
    && primary.entrySize == GPT_PARTITION_SIZE && secondary.entrySize == GPT_PARTITION_SIZE
    && parts != [] && InOrder(primary, secondary, |parts|, n)
    && forall i :: 0 <= i < |parts| ==> NameFits(parts[i], GPT_PARTITION_SIZE) && NameHasNoNul(parts[i])
  }

  /** The image of a fresh builder of at least 67 blocks, with every entry's
      name fitting its 128-byte record and free of zero code units, meets every
      condition of the read-back lemmas below: after Close, the MBR, both
      sealed headers and both arrays read back as written. */
  lemma FreshBuilderReadsBack(blocks: u64, guid: Guid, parts: seq<GptPartition>)
    requires 67 <= blocks && blocks * BLOCK_SIZE < TWO_63
    requires |parts| == NewGpt(blocks, guid).0.partitionCount as nat
    requires forall i :: 0 <= i < |parts| ==> NameFits(parts[i], GPT_PARTITION_SIZE) && NameHasNoNul(parts[i])
    ensures ReadBackable(blocks * BLOCK_SIZE, NewGpt(blocks, guid).0, NewGpt(blocks, guid).1, parts)
  {
    FreshImageInOrder(blocks, guid);
  }

  /** The first 512 bytes of the closed image parse back to the MBR. */
  lemma ClosedMbrReadsBack(image: seq<byte>, mbr: Mbr, primary: Gpt, secondary: Gpt,
                                    parts: seq<GptPartition>)
    requires ReadBackable(|image|, primary, secondary, parts)
    ensures CloseFits(primary, secondary, |parts|, |image|)
    ensures ParseMbr(ClosedImage(image, mbr, primary, secondary, parts)[..MBR_SIZE]) == mbr
  {
    var a := EncodeArray(parts, GPT_PARTITION_SIZE);
    var crc := Crc32.Checksum(a);
    ClosedImageLayout(image, mbr, primary, secondary, parts);
    ReadsBackRegions(image, mbr.Bytes(), a, Seal(primary, crc).Bytes(), Seal(secondary, crc).Bytes(),
                     Disk.BlockOffset(primary.thisLba), ArrayStart(primary),
                     Disk.BlockOffset(secondary.thisLba), ArrayStart(secondary));
    MbrRoundTrip(mbr);
  }

  /** At the block of the primary header the closed image holds a header Go's
      ParseGPT returns as that header sealed with the CRC-32 of the encoded
      entries, and whose own checksum is valid. */
  lemma ClosedPrimaryHeaderReadsBack(image: seq<byte>, mbr: Mbr, primary: Gpt, secondary: Gpt,
                                             parts: seq<GptPartition>)
    requires ReadBackable(|image|, primary, secondary, parts)
    ensures CloseFits(primary, secondary, |parts|, |image|)
    ensures var out := ClosedImage(image, mbr, primary, secondary, parts);
      var sealed := Seal(primary, Crc32.Checksum(EncodeArray(parts, GPT_PARTITION_SIZE)));
      var here := Disk.BlockOffset(primary.thisLba);
      ParseGpt(out[here..here + GPT_SIZE as nat]) == Ok(sealed) && sealed.ChecksumValid()
  {
    var out := ClosedImage(image, mbr, primary, secondary, parts);
    var crc := Crc32.Checksum(EncodeArray(parts, GPT_PARTITION_SIZE));
    ReadBackableFits(|image|, primary, secondary, parts);
    ClosedPrimaryHeaderRegion(image, mbr, primary, secondary, parts);
    HeaderReadsBackAt(out, Disk.BlockOffset(primary.thisLba), primary, crc);
  }

  /** At the block of the secondary header the closed image holds a header Go's
      ParseGPT returns as that header sealed with the CRC-32 of the encoded
      entries, and whose own checksum is valid. */
  lemma ClosedSecondaryHeaderReadsBack(image: seq<byte>, mbr: Mbr, primary: Gpt, secondary: Gpt,
                                             parts: seq<GptPartition>)
    requires ReadBackable(|image|, primary, secondary, parts)
    ensures CloseFits(primary, secondary, |parts|, |image|)
    ensures var out := ClosedImage(image, mbr, primary, secondary, parts);
      var sealed := Seal(secondary, Crc32.Checksum(EncodeArray(parts, GPT_PARTITION_SIZE)));
      var here := Disk.BlockOffset(secondary.thisLba);
      ParseGpt(out[here..here + GPT_SIZE as nat]) == Ok(sealed) && sealed.ChecksumValid()
  {
    var out := ClosedImage(image, mbr, primary, secondary, parts);
    var crc := Crc32.Checksum(EncodeArray(parts, GPT_PARTITION_SIZE));
    ReadBackableFits(|image|, primary, secondary, parts);
    ClosedSecondaryHeaderRegion(image, mbr, primary, secondary, parts);
    HeaderReadsBackAt(out, Disk.BlockOffset(secondary.thisLba), secondary, crc);
  }

  /** Bytes of `out` at `here` that equal the serialised header `h` sealed with
      `crc` parse back to that sealed header. */
  lemma HeaderReadsBackAt(out: seq<byte>, here: nat, h: Gpt, crc: u32)
    requires h.Supported()
    requires here + GPT_SIZE as nat <= |out| && out[here..here + GPT_SIZE as nat] == Seal(h, crc).Bytes()
    ensures ParseGpt(out[here..here + GPT_SIZE as nat]) == Ok(Seal(h, crc))
  {
    GptRoundTrip(Seal(h, crc));
  }

  /** At the array block of the primary header the closed image holds bytes
      that decode back to the entries and whose CRC-32 is the one the sealed
      header stores. */
  lemma ClosedPrimaryArrayReadsBack(image: seq<byte>, mbr: Mbr, primary: Gpt, secondary: Gpt,
                                            parts: seq<GptPartition>)
    requires ReadBackable(|image|, primary, secondary, parts)
    ensures CloseFits(primary, secondary, |parts|, |image|)
    ensures var out := ClosedImage(image, mbr, primary, secondary, parts);
      var a := EncodeArray(parts, GPT_PARTITION_SIZE);
      var at := ArrayStart(primary);
      && DecodeArray(out[at..at + |a|], GPT_PARTITION_SIZE as nat, |parts|) == parts
      && Crc32.Checksum(out[at..at + |a|]) == Seal(primary, Crc32.Checksum(a)).partitionsCrc
  {
    var out := ClosedImage(image, mbr, primary, secondary, parts);
    ReadBackableFits(|image|, primary, secondary, parts);
    ClosedPrimaryArrayRegion(image, mbr, primary, secondary, parts);
    ArrayReadsBackAt(out, ArrayStart(primary), parts);
  }

  /** At the array block of the secondary header the closed image holds bytes
      that decode back to the entries and whose CRC-32 is the one the sealed
      header stores. */
  lemma ClosedSecondaryArrayReadsBack(image: seq<byte>, mbr: Mbr, primary: Gpt, secondary: Gpt,
                                            parts: seq<GptPartition>)
    requires ReadBackable(|image|, primary, secondary, parts)
    ensures CloseFits(primary, secondary, |parts|, |image|)
    ensures var out := ClosedImage(image, mbr, primary, secondary, parts);
      var a := EncodeArray(parts, GPT_PARTITION_SIZE);
      var at := ArrayStart(secondary);
      && DecodeArray(out[at..at + |a|], GPT_PARTITION_SIZE as nat, |parts|) == parts
      && Crc32.Checksum(out[at..at + |a|]) == Seal(secondary, Crc32.Checksum(a)).partitionsCrc
  {
    var out := ClosedImage(image, mbr, primary, secondary, parts);
    ReadBackableFits(|image|, primary, secondary, parts);
    ClosedSecondaryArrayRegion(image, mbr, primary, secondary, parts);
    ArrayReadsBackAt(out, ArrayStart(secondary), parts);
  }

  /** Bytes of `out` at `at` that equal the encoded entries decode back to
      them and have their CRC-32. */
  lemma ArrayReadsBackAt(out: seq<byte>, at: nat, parts: seq<GptPartition>)
    requires forall i :: 0 <= i < |parts| ==> NameFits(parts[i], GPT_PARTITION_SIZE) && NameHasNoNul(parts[i])
    requires at + |EncodeArray(parts, GPT_PARTITION_SIZE)| <= |out|
    requires out[at..at + |EncodeArray(parts, GPT_PARTITION_SIZE)|] == EncodeArray(parts, GPT_PARTITION_SIZE)
    ensures var a := EncodeArray(parts, GPT_PARTITION_SIZE);
      && DecodeArray(out[at..at + |a|], GPT_PARTITION_SIZE as nat, |parts|) == parts
      && Crc32.Checksum(out[at..at + |a|]) == Crc32.Checksum(a)
  {
    ArrayRoundTrip(parts, GPT_PARTITION_SIZE as nat);
  }

  /** What the closed image holds at the block of the primary header:
      the sealed primary header. */
  lemma ClosedPrimaryHeaderRegion(image: seq<byte>, mbr: Mbr, primary: Gpt, secondary: Gpt,
                                  parts: seq<GptPartition>)
    requires ReadBackable(|image|, primary, secondary, parts)
    ensures var out := ClosedImage(image, mbr, primary, secondary, parts);
      var a := EncodeArray(parts, GPT_PARTITION_SIZE);
      var crc := Crc32.Checksum(a);
      var here := Disk.BlockOffset(primary.thisLba);
      out[here..here + GPT_SIZE as nat] == Seal(primary, crc).Bytes()
  {
    var a := EncodeArray(parts, GPT_PARTITION_SIZE);
    var crc := Crc32.Checksum(a);
    ClosedImageLayout(image, mbr, primary, secondary, parts);
    ReadsBackRegions(image, mbr.Bytes(), a, Seal(primary, crc).Bytes(), Seal(secondary, crc).Bytes(),
                     Disk.BlockOffset(primary.thisLba), ArrayStart(primary),
                     Disk.BlockOffset(secondary.thisLba), ArrayStart(secondary));
  }

  /** What the closed image holds at the array block of the primary
      header: the encoded entries. */
  lemma ClosedPrimaryArrayRegion(image: seq<byte>, mbr: Mbr, primary: Gpt, secondary: Gpt,
                                  parts: seq<GptPartition>)
    requires ReadBackable(|image|, primary, secondary, parts)
    ensures var out := ClosedImage(image, mbr, primary, secondary, parts);
      var a := EncodeArray(parts, GPT_PARTITION_SIZE);
      var at := ArrayStart(primary);
      out[at..at + |a|] == a
  {
    var a := EncodeArray(parts, GPT_PARTITION_SIZE);
    var crc := Crc32.Checksum(a);
    ClosedImageLayout(image, mbr, primary, secondary, parts);
    ReadsBackRegions(image, mbr.Bytes(), a, Seal(primary, crc).Bytes(), Seal(secondary, crc).Bytes(),
                     Disk.BlockOffset(primary.thisLba), ArrayStart(primary),
                     Disk.BlockOffset(secondary.thisLba), ArrayStart(secondary));
  }

  /** What the closed image holds at the array block of the
      secondary header: the encoded entries. */
  lemma ClosedSecondaryArrayRegion(image: seq<byte>, mbr: Mbr, primary: Gpt, secondary: Gpt,
                                  parts: seq<GptPartition>)
    requires ReadBackable(|image|, primary, secondary, parts)
    ensures var out := ClosedImage(image, mbr, primary, secondary, parts);
      var a := EncodeArray(parts, GPT_PARTITION_SIZE);
      var at := ArrayStart(secondary);
      out[at..at + |a|] == a
  {
    var a := EncodeArray(parts, GPT_PARTITION_SIZE);
    var crc := Crc32.Checksum(a);
    ClosedImageLayout(image, mbr, primary, secondary, parts);
    ReadsBackRegions(image, mbr.Bytes(), a, Seal(primary, crc).Bytes(), Seal(secondary, crc).Bytes(),
                     Disk.BlockOffset(primary.thisLba), ArrayStart(primary),
                     Disk.BlockOffset(secondary.thisLba), ArrayStart(secondary));
  }

  /** What the closed image holds at the block of the secondary
      header: the sealed secondary header. */
  lemma ClosedSecondaryHeaderRegion(image: seq<byte>, mbr: Mbr, primary: Gpt, secondary: Gpt,
                                  parts: seq<GptPartition>)
    requires ReadBackable(|image|, primary, secondary, parts)
    ensures var out := ClosedImage(image, mbr, primary, secondary, parts);
      var a := EncodeArray(parts, GPT_PARTITION_SIZE);
      var crc := Crc32.Checksum(a);
      var here := Disk.BlockOffset(secondary.thisLba);
      out[here..here + GPT_SIZE as nat] == Seal(secondary, crc).Bytes()
  {
    var a := EncodeArray(parts, GPT_PARTITION_SIZE);
    var crc := Crc32.Checksum(a);
    ClosedImageLayout(image, mbr, primary, secondary, parts);
    ReadsBackRegions(image, mbr.Bytes(), a, Seal(primary, crc).Bytes(), Seal(secondary, crc).Bytes(),
                     Disk.BlockOffset(primary.thisLba), ArrayStart(primary),
                     Disk.BlockOffset(secondary.thisLba), ArrayStart(secondary));
  }

  /** A read-back-able table fits the image it is written to. */
  lemma ReadBackableFits(n: nat, primary: Gpt, secondary: Gpt, parts: seq<GptPartition>)
    requires ReadBackable(n, primary, secondary, parts)
    ensures CloseFits(primary, secondary, |parts|, n)
  {
  }

  /** The five writes of Close, at their byte offsets. */
  lemma ClosedImageLayout(image: seq<byte>, mbr: Mbr, primary: Gpt, secondary: Gpt, parts: seq<GptPartition>)
    requires ReadBackable(|image|, primary, secondary, parts)
    ensures CloseFits(primary, secondary, |parts|, |image|)
    ensures var a := EncodeArray(parts, GPT_PARTITION_SIZE);
      var crc := Crc32.Checksum(a);
      var i1 := Splice(image, 0, mbr.Bytes());
      var i2 := Splice(i1, ArrayStart(primary), a);
      var i3 := Splice(i2, Disk.BlockOffset(primary.thisLba), Seal(primary, crc).Bytes());
      var i4 := Splice(i3, ArrayStart(secondary), a);
      ClosedImage(image, mbr, primary, secondary, parts)
        == Splice(i4, Disk.BlockOffset(secondary.thisLba), Seal(secondary, crc).Bytes())
  {
  }

  /** What each region of the image holds after the five writes, given the
      regions the fresh layout puts them in. */
  lemma ReadsBackRegions(image: seq<byte>, m: seq<byte>, a: seq<byte>, g1: seq<byte>, g2: seq<byte>,
                         h1: nat, a1: nat, h2: nat, a2: nat)
    requires |m| == 512 && |g1| == 92 && |g2| == 92
    requires 512 <= h1 && h1 + 92 <= a1 && a1 + |a| <= a2 && a2 + |a| <= h2 && h2 + 92 <= |image|
    ensures var i1 := Splice(image, 0, m);
      var i2 := Splice(i1, a1, a);
      var i3 := Splice(i2, h1, g1);
      var i4 := Splice(i3, a2, a);
      var out := Splice(i4, h2, g2);
      && out[..512] == m
      && out[h1..h1 + 92] == g1
      && out[a1..a1 + |a|] == a
      && out[a2..a2 + |a|] == a
      && out[h2..h2 + 92] == g2
  {
    var i1 := Splice(image, 0, m);
    var i2 := Splice(i1, a1, a);
    var i3 := Splice(i2, h1, g1);
    var i4 := Splice(i3, a2, a);
    var out := Splice(i4, h2, g2);
    SpliceElsewhere(i1, a1, a, 0, 512);
    SpliceElsewhere(i2, h1, g1, 0, 512);
    SpliceElsewhere(i3, a2, a, 0, 512);
    SpliceElsewhere(i4, h2, g2, 0, 512);
    assert out[..512] == out[0..512];
    SpliceElsewhere(i3, a2, a, h1, h1 + 92);
    SpliceElsewhere(i4, h2, g2, h1, h1 + 92);
    SpliceElsewhere(i2, h1, g1, a1, a1 + |a|);
    SpliceElsewhere(i3, a2, a, a1, a1 + |a|);
    SpliceElsewhere(i4, h2, g2, a1, a1 + |a|);
    SpliceElsewhere(i4, h2, g2, a2, a2 + |a|);
  }

  class Builder {
    const disk: Disk
    var mbr: Mbr
    var primary: Gpt
    var secondary: Gpt
    var parts: seq<GptPartition>
    var lastPart: nat
    var lastMbrPart: nat

    /** The shape every builder keeps: 92-byte headers with 128-byte entries,
        an entry table as long as the header says, and the two counters within
        their tables. */
    predicate Valid()
      reads this, disk
    {
      && disk.Valid()
      && primary.size == GPT_SIZE && secondary.size == GPT_SIZE
      && primary.entrySize == GPT_PARTITION_SIZE && secondary.entrySize == GPT_PARTITION_SIZE
      && |parts| == primary.partitionCount as nat && parts != []
      && lastPart <= |parts| && lastMbrPart <= 4
    }

    constructor (disk: Disk, mbr: Mbr, primary: Gpt, secondary: Gpt, parts: seq<GptPartition>)
      ensures this.disk == disk && this.mbr == mbr && this.primary == primary
      ensures this.secondary == secondary && this.parts == parts
      ensures lastPart == 0 && lastMbrPart == 0
    {
      this.disk := disk;
      this.mbr := mbr;
      this.primary := primary;
      this.secondary := secondary;
      this.parts := parts;
      lastPart := 0;
      lastMbrPart := 0;
    }

    /** diskbuilder.New: a size that is not a whole number of blocks is
        refused before anything is created; creating the image fails for a
        negative size. The disk id of the MBR and the disk GUID are drawn at
        random in Go; here they are inputs. */
    static method New(size: i64, diskId: u32, guid: Guid) returns (r: Result<Builder>)
      ensures r.Ok? <==> size % BLOCK_SIZE == 0 && size >= 0
      ensures r.Err? ==> r.error == (if size % BLOCK_SIZE != 0 then InvalidSize else IoError)
      ensures r.Ok? ==> fresh(r.value) && fresh(r.value.disk) && fresh(r.value.disk.data)
      ensures r.Ok? ==> r.value.Valid() && r.value.disk.data[..] == Zeros(size)
      ensures r.Ok? ==> r.value.mbr == NewMbr(diskId)
      ensures r.Ok? ==> (r.value.primary, r.value.secondary) == NewGpt(size / BLOCK_SIZE, guid)
      ensures r.Ok? ==> r.value.parts == seq(r.value.primary.partitionCount as nat, _ => ZERO_ENTRY)
      ensures r.Ok? ==> r.value.lastPart == 0 && r.value.lastMbrPart == 0
    {
      if size % BLOCK_SIZE != 0 {
        return Err(InvalidSize);
      }
      var blocks := size / BLOCK_SIZE;
      var d := Disk.Create(size);
      if d.Err? {
        return Err(d.error);
      }
      var (primary, secondary) := NewGpt(blocks, guid);
      var parts := seq(primary.partitionCount as nat, _ => ZERO_ENTRY);
      var b := new Builder(d.value, NewMbr(diskId), primary, secondary, parts);
      return Ok(b);
    }

    /** Builder.Add: stores the entry in the next slot of the table. Go panics
        once all slots are taken. */
    method Add(p: GptPartition)
      requires Valid() && lastPart < |parts|
      modifies this
      ensures Valid()
      ensures parts == old(parts)[old(lastPart) := p] && lastPart == old(lastPart) + 1
      ensures mbr == old(mbr) && lastMbrPart == old(lastMbrPart)
      ensures primary == old(primary) && secondary == old(secondary)
    {
      parts := parts[lastPart := p];
      lastPart := lastPart + 1;
    }

    /** Builder.AddMBR: stores the record in the next of the four MBR slots.
        Go panics on a fifth call. */
    method AddMbr(p: MbrPartition)
      requires Valid() && lastMbrPart < 4
      modifies this
      ensures Valid()
      ensures mbr == WithPartition(old(mbr), old(lastMbrPart), p)
      ensures lastMbrPart == old(lastMbrPart) + 1
      ensures parts == old(parts) && lastPart == old(lastPart)
      ensures primary == old(primary) && secondary == old(secondary)
    {
      if lastMbrPart == 0 {
        mbr := mbr.(part1 := p);
      } else if lastMbrPart == 1 {
        mbr := mbr.(part2 := p);
      } else if lastMbrPart == 2 {
        mbr := mbr.(part3 := p);
      } else {
        mbr := mbr.(part4 := p);
      }
      lastMbrPart := lastMbrPart + 1;
    }

    /** Builder.Close: writes the MBR, then the primary copy of the table,
        then the secondary one; the first write that fails ends the call with
        its error. Go panics when an entry's name does not fit its record. */
    method Close() returns (r: Outcome)
      requires Valid()
      requires forall i :: 0 <= i < |parts| ==> NameFits(parts[i], GPT_PARTITION_SIZE)
      modifies this, disk.data
      ensures Valid()
      ensures r.Pass? <==> CloseFits(old(primary), old(secondary), |parts|, disk.data.Length)
      ensures r.Fail? ==> r.error == IoError || r.error == UnexpectedEof
      ensures mbr == old(mbr) && parts == old(parts)
      ensures lastPart == old(lastPart) && lastMbrPart == old(lastMbrPart)
      ensures r.Pass? ==>
        var crc := Crc32.Checksum(EncodeArray(parts, GPT_PARTITION_SIZE));
        && primary == Seal(old(primary), crc)
        && secondary == Seal(old(secondary), crc)
        && disk.data[..] == ClosedImage(old(disk.data[..]), mbr, old(primary), old(secondary), parts)
    {
      r := disk.WriteMbr(mbr);
      if r.Fail? {
        return;
      }
      r, primary := WriteCopy(primary);
      if r.Fail? {
        return;
      }
      r, secondary := WriteCopy(secondary);
    }

    /** One copy of the table, as Close writes it: the entry array at the array
        block of `h`; then `h` with the array's CRC-32 and its own checksum
        stored, which is returned, written at its own block. */
    method WriteCopy(h: Gpt) returns (r: Outcome, sealed: Gpt)
      requires disk.Valid() && h.size == GPT_SIZE && h.entrySize == GPT_PARTITION_SIZE
      requires parts != [] && forall i :: 0 <= i < |parts| ==> NameFits(parts[i], GPT_PARTITION_SIZE)
      modifies disk.data
      ensures r.Pass? <==> CopyFits(h, |parts|, disk.data.Length)
      ensures r.Fail? ==> r.error == IoError || r.error == UnexpectedEof
      ensures sealed == h || sealed == Seal(h, Crc32.Checksum(EncodeArray(parts, GPT_PARTITION_SIZE)))
      ensures r.Pass? ==> sealed == Seal(h, Crc32.Checksum(EncodeArray(parts, GPT_PARTITION_SIZE)))
      ensures r.Pass? ==> disk.data[..] == CopyImage(old(disk.data[..]), h, parts)
    {
      ghost var before := disk.data[..];
      var crc := GptArray.WriteGptPartitions(disk, ArrayStart(h), h.entrySize, parts);
      if crc.Err? {
        return Fail(crc.error), h;
      }
      ghost var written := disk.data[..];
      sealed := h.(partitionsCrc := crc.value);
      sealed := sealed.(checksum := sealed.CalculateChecksum());
      SealStep(h, crc.value, sealed);
      r := disk.WriteGpt(sealed.thisLba, sealed);
      if r.Pass? {
        CopyStep(before, written, disk.data[..], h, parts, sealed);
      }
    }
  }
}
