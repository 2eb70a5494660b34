/** The legacy Master Boot Record of section 5.2.1 of the UEFI Specification
    (pkg/disk/mbr.go): a 512-byte sector holding 440 bytes of boot code, a 32-bit
    disk identifier, two reserved bytes, four 16-byte partition records and the
    boot signature. Every byte of the sector belongs to exactly one field. */
module MbrCodec {
  import opened Bytes

  const MBR_SIZE: nat := 512
  const MBR_PARTITION_SIZE: nat := 16
  const MBR_SIGNATURE: u16 := 0xAA55

  /** A cylinder/head/sector address, stored as head, sector, cylinder. */
  datatype ChsAddr = ChsAddr(head: byte, sector: byte, cylinder: byte)

  /** The address FF FF FF: "not representable, use the LBA fields". */
  const CHS_INVALID: ChsAddr := ChsAddr(0xFF, 0xFF, 0xFF)

  datatype MbrPartition = MbrPartition(
    attrs: byte,
    chsStart: ChsAddr,
    partType: byte,
    chsLast: ChsAddr,
    lbaStart: u32,
    lbaSize: u32)
  {
    /** The 16-byte record: attributes at 0, start CHS at 1-3, type at 4, last
        CHS at 5-7, LBA start (little-endian) at 8-11, LBA size at 12-15. */
    function Bytes(): (r: seq<byte>)
      ensures |r| == MBR_PARTITION_SIZE
    {
      [attrs, chsStart.head, chsStart.sector, chsStart.cylinder,
       partType, chsLast.head, chsLast.sector, chsLast.cylinder]
      + ToLE(lbaStart, 4) + ToLE(lbaSize, 4)
    }

    /** Writes the record into `data[off .. off + 16]`, the Go slice handed to
        `MBRPartition.FillBytes`; no other byte changes. */
    method FillBytes(data: array<byte>, off: nat)
      requires off + MBR_PARTITION_SIZE <= data.Length
      modifies data
      ensures data[..] == Splice(old(data[..]), off, Bytes())
    {
      ghost var s := data[..];
      data[off] := attrs;
      data[off + 1] := chsStart.head;
      data[off + 2] := chsStart.sector;
      data[off + 3] := chsStart.cylinder;
      data[off + 4] := partType;
      data[off + 5] := chsLast.head;
      data[off + 6] := chsLast.sector;
      data[off + 7] := chsLast.cylinder;
      ghost var head := [attrs, chsStart.head, chsStart.sector, chsStart.cylinder,
                         partType, chsLast.head, chsLast.sector, chsLast.cylinder];
      assert data[..] == Splice(s, off, head);
      Blit(data, off + 8, ToLE(lbaStart, 4));
      SpliceConcat(s, off, head, ToLE(lbaStart, 4));
      Blit(data, off + 12, ToLE(lbaSize, 4));
      SpliceConcat(s, off, head + ToLE(lbaStart, 4), ToLE(lbaSize, 4));
    }
  }

  /** The unused slot: every field zero. */
  const EMPTY_PARTITION: MbrPartition :=
    MbrPartition(0, ChsAddr(0, 0, 0), 0, ChsAddr(0, 0, 0), 0, 0)

  /** A partition addressed by LBA only: no attributes, both CHS addresses invalid. */
  function NewMbrPartition(partType: byte, start: u32, size: u32): (p: MbrPartition)
    ensures p.Bytes() == [0, 0xFF, 0xFF, 0xFF, partType, 0xFF, 0xFF, 0xFF]
                         + ToLE(start, 4) + ToLE(size, 4)
  {
    MbrPartition(0, CHS_INVALID, partType, CHS_INVALID, start, size)
  }

  /** Reads a partition record from the first 16 bytes of `data`. */
  function ParseMbrPartition(data: seq<byte>): MbrPartition
    requires |data| >= MBR_PARTITION_SIZE
  {
    MbrPartition(
      data[0],
      ChsAddr(data[1], data[2], data[3]),
      data[4],
      ChsAddr(data[5], data[6], data[7]),
      Uint32(data[8..12]),
      Uint32(data[12..16]))
  }

  lemma MbrPartitionRoundTrip(p: MbrPartition)
    ensures ParseMbrPartition(p.Bytes()) == p
  {
    Pow256Widths();
    FromLEToLE(p.lbaStart, 4);
    FromLEToLE(p.lbaSize, 4);
    assert p.Bytes()[8..12] == ToLE(p.lbaStart, 4);
    assert p.Bytes()[12..16] == ToLE(p.lbaSize, 4);
  }

  lemma MbrPartitionBytesRoundTrip(data: seq<byte>)
    requires |data| >= MBR_PARTITION_SIZE
    ensures ParseMbrPartition(data).Bytes() == data[..MBR_PARTITION_SIZE]
  {
    ToLEFromLE(data[8..12]);
    ToLEFromLE(data[12..16]);
    assert data[..16] == data[..8] + data[8..12] + data[12..16];
  }

  /** The empty slot is the all-zero record, in both directions. */
  lemma EmptyPartitionIsZero()
    ensures EMPTY_PARTITION.Bytes() == Zeros(MBR_PARTITION_SIZE)
    ensures ParseMbrPartition(Zeros(MBR_PARTITION_SIZE)) == EMPTY_PARTITION
  {
    ZerosEncodeZero(4);
    assert Zeros(16) == Zeros(8) + Zeros(4) + Zeros(4);
    assert Zeros(16)[8..12] == Zeros(4) && Zeros(16)[12..16] == Zeros(4);
  }

  type Bootstrap = s: seq<byte> | |s| == 440 witness Zeros(440)

  datatype Mbr = Mbr(
    bootstrap: Bootstrap,
    diskId: u32,
    reserved: u16,
    part1: MbrPartition,
    part2: MbrPartition,
    part3: MbrPartition,
    part4: MbrPartition,
    signature: u16)
  {
    /** The 512-byte sector: boot code 0-439, disk id 440-443, reserved 444-445,
        partition records at 446, 462, 478 and 494, signature 510-511. */
    function Bytes(): (r: seq<byte>)
      ensures |r| == MBR_SIZE
    {
      bootstrap + ToLE(diskId, 4) + ToLE(reserved, 2)
      + part1.Bytes() + part2.Bytes() + part3.Bytes() + part4.Bytes()
      + ToLE(signature, 2)
    }

    /** Serialises the record into the first 512 bytes of `data`. */
    method FillBytes(data: array<byte>)
      requires data.Length >= MBR_SIZE
      modifies data
      ensures data[..MBR_SIZE] == Bytes()
      ensures data[MBR_SIZE..] == old(data[MBR_SIZE..])
    {
      ghost var s := data[..];
      Blit(data, 0, bootstrap);
      Blit(data, 440, ToLE(diskId, 4));
      SpliceConcat(s, 0, bootstrap, ToLE(diskId, 4));
      ghost var done := bootstrap + ToLE(diskId, 4);
      // Go writes PutUint16 into data[444:447]; only bytes 444 and 445 change.
      Blit(data, 444, ToLE(reserved, 2));
      SpliceConcat(s, 0, done, ToLE(reserved, 2));
      done := done + ToLE(reserved, 2);
      part1.FillBytes(data, 446);
      SpliceConcat(s, 0, done, part1.Bytes());
      done := done + part1.Bytes();
      part2.FillBytes(data, 462);
      SpliceConcat(s, 0, done, part2.Bytes());
      done := done + part2.Bytes();
      part3.FillBytes(data, 478);
      SpliceConcat(s, 0, done, part3.Bytes());
      done := done + part3.Bytes();
      part4.FillBytes(data, 494);
      SpliceConcat(s, 0, done, part4.Bytes());
      done := done + part4.Bytes();
      Blit(data, 510, ToLE(signature, 2));
      SpliceConcat(s, 0, done, ToLE(signature, 2));
      done := done + ToLE(signature, 2);
      assert done == Bytes();
    }
  }

  /** A fresh record: no boot code, the given disk id, four empty slots and the
      boot signature 0xAA55. Go draws the disk id at random; here it is an input. */
  function NewMbr(diskId: u32): Mbr
  {
    Mbr(Zeros(440), diskId, 0, EMPTY_PARTITION, EMPTY_PARTITION, EMPTY_PARTITION,
        EMPTY_PARTITION, MBR_SIGNATURE)
  }

  /** The sector of a fresh record is zero except for the disk id and the bytes
      55 AA at 510 and 511. */
  lemma NewMbrBytes(diskId: u32)
    ensures NewMbr(diskId).Bytes()
         == Zeros(440) + ToLE(diskId, 4) + Zeros(66) + [0x55, 0xAA]
  {
    EmptyPartitionIsZero();
    ZerosEncodeZero(2);
    var head := Zeros(440) + ToLE(diskId, 4);
    var z := Zeros(16);
    assert NewMbr(diskId).Bytes() == head + Zeros(2) + z + z + z + z + ToLE(MBR_SIGNATURE, 2);
    ZerosConcat(2, 16);
    assert head + Zeros(2) + z == head + Zeros(18);
    ZerosConcat(18, 16);
    assert head + Zeros(18) + z == head + Zeros(34);
    ZerosConcat(34, 16);
    assert head + Zeros(34) + z == head + Zeros(50);
    ZerosConcat(50, 16);
    assert head + Zeros(50) + z == head + Zeros(66);
    assert ToLE(MBR_SIGNATURE, 2) == [0x55, 0xAA];
  }

  /** Reads a record from the first 512 bytes of `data`. The boot signature is
      returned as found: it is not checked. */
  function ParseMbr(data: seq<byte>): Mbr
    requires |data| >= MBR_SIZE
  {
    Mbr(
      data[0..440],
      Uint32(data[440..444]),
      Uint16(data[444..446]),
      ParseMbrPartition(data[446..462]),
      ParseMbrPartition(data[462..478]),
      ParseMbrPartition(data[478..494]),
      ParseMbrPartition(data[494..510]),
      Uint16(data[510..512]))
  }

  /** Where each field lies in the sector of a record. */
  lemma MbrLayout(m: Mbr)
    ensures var b := m.Bytes();
      && b[0..440] == m.bootstrap
      && b[440..444] == ToLE(m.diskId, 4)
      && b[444..446] == ToLE(m.reserved, 2)
      && b[446..462] == m.part1.Bytes()
      && b[462..478] == m.part2.Bytes()
      && b[478..494] == m.part3.Bytes()
      && b[494..510] == m.part4.Bytes()
      && b[510..512] == ToLE(m.signature, 2)
  {
    var b := m.Bytes();
    assert b[0..440] == m.bootstrap;
    assert b[440..444] == ToLE(m.diskId, 4);
    assert b[444..446] == ToLE(m.reserved, 2);
    assert b[446..462] == m.part1.Bytes();
    assert b[462..478] == m.part2.Bytes();
    assert b[478..494] == m.part3.Bytes();
    assert b[494..510] == m.part4.Bytes();
    var sig := ToLE(m.signature, 2);
    assert b == b[..510] + sig;
    assert b[510] == sig[0] && b[511] == sig[1];
    assert b[510..512] == sig;
  }

  lemma MbrRoundTrip(m: Mbr)
    ensures ParseMbr(m.Bytes()) == m
  {
    MbrLayout(m);
    Pow256Widths();
    FromLEToLE(m.diskId, 4);
    FromLEToLE(m.reserved, 2);
    FromLEToLE(m.signature, 2);
    MbrPartitionRoundTrip(m.part1);
    MbrPartitionRoundTrip(m.part2);
    MbrPartitionRoundTrip(m.part3);
    MbrPartitionRoundTrip(m.part4);
  }

  /** Every byte of the sector belongs to a field: parsing and re-serialising
      returns the sector unchanged, whatever its boot signature. */
  lemma MbrBytesRoundTrip(data: seq<byte>)
    requires |data| >= MBR_SIZE
    ensures ParseMbr(data).Bytes() == data[..MBR_SIZE]
  {
    ToLEFromLE(data[440..444]);
    ToLEFromLE(data[444..446]);
    ToLEFromLE(data[510..512]);
    MbrPartitionBytesRoundTrip(data[446..462]);
    MbrPartitionBytesRoundTrip(data[462..478]);
    MbrPartitionBytesRoundTrip(data[478..494]);
    MbrPartitionBytesRoundTrip(data[494..510]);
    assert data[..512] == data[0..440] + data[440..444] + data[444..446]
      + data[446..462] + data[462..478] + data[478..494] + data[494..510] + data[510..512];
  }
}
