/** The mixed-endian GUID encoding of sections 5.3.2 and 5.3.3 of the UEFI
    Specification (pkg/disk/gpt.go `guidFromBytes`, `guidToBytes`). A GUID is
    held as its 16 bytes in the field order of section 4.1.2 of RFC 4122; on disk
    the first three fields (32, 16 and 16 bits) are stored little-endian and the
    last 8 bytes as they are. */
module GuidCodec {
  import opened Bytes

  type Guid = s: seq<byte> | |s| == 16 witness ZERO_GUID

  const ZERO_GUID: seq<byte> := [0, 0, 0, 0, 0, 0, 0, 0, 0, 0, 0, 0, 0, 0, 0, 0]

  function Reverse(s: seq<byte>): (r: seq<byte>)
    ensures |r| == |s|
    ensures forall i :: 0 <= i < |s| ==> r[i] == s[|s| - 1 - i]
  {
    if s == [] then [] else Reverse(s[1..]) + [s[0]]
  }

  /** Decodes the on-disk form held in the first 16 bytes of `data`. */
  function GuidFromBytes(data: seq<byte>): (guid: Guid)
    requires |data| >= 16
  {
    [data[3], data[2], data[1], data[0], data[5], data[4], data[7], data[6]] + data[8..16]
  }

  /** Encodes a GUID into its 16-byte on-disk form. */
  function GuidToBytes(guid: Guid): (data: seq<byte>)
    ensures |data| == 16
  {
    [guid[3], guid[2], guid[1], guid[0], guid[5], guid[4], guid[7], guid[6]] + guid[8..16]
  }

  /** Decoding reverses the first three fields and copies the last 8 bytes. */
  lemma GuidFromBytesLayout(data: seq<byte>)
    requires |data| >= 16
    ensures var guid := GuidFromBytes(data);
      && guid[0..4] == Reverse(data[0..4])
      && guid[4..6] == Reverse(data[4..6])
      && guid[6..8] == Reverse(data[6..8])
      && guid[8..16] == data[8..16]
  {
  }

  /** Encoding reverses the first three fields and copies the last 8 bytes. */
  lemma GuidToBytesLayout(guid: Guid)
    ensures var data := GuidToBytes(guid);
      && data[0..4] == Reverse(guid[0..4])
      && data[4..6] == Reverse(guid[4..6])
      && data[6..8] == Reverse(guid[6..8])
      && data[8..16] == guid[8..16]
  {
  }

  lemma GuidRoundTrip(guid: Guid)
    ensures GuidFromBytes(GuidToBytes(guid)) == guid
  {
  }

  lemma GuidBytesRoundTrip(data: seq<byte>)
    requires |data| == 16
    ensures GuidToBytes(GuidFromBytes(data)) == data
  {
  }

  /** The EFI System Partition type: on-disk bytes 28 73 2a c1 1f f8 d2 11 ba 4b 00
      a0 c9 3e c9 3b are the GUID C12A7328-F81F-11D2-BA4B-00A0C93EC93B. */
  lemma EfiSystemPartitionVector()
    ensures GuidFromBytes([0x28, 0x73, 0x2a, 0xc1, 0x1f, 0xf8, 0xd2, 0x11,
                           0xba, 0x4b, 0x00, 0xa0, 0xc9, 0x3e, 0xc9, 0x3b])
         == [0xC1, 0x2A, 0x73, 0x28, 0xF8, 0x1F, 0x11, 0xD2,
             0xBA, 0x4B, 0x00, 0xA0, 0xC9, 0x3E, 0xC9, 0x3B]
    ensures GuidToBytes([0xC1, 0x2A, 0x73, 0x28, 0xF8, 0x1F, 0x11, 0xD2,
                         0xBA, 0x4B, 0x00, 0xA0, 0xC9, 0x3E, 0xC9, 0x3B])
         == [0x28, 0x73, 0x2a, 0xc1, 0x1f, 0xf8, 0xd2, 0x11,
             0xba, 0x4b, 0x00, 0xa0, 0xc9, 0x3e, 0xc9, 0x3b]
  {
    var onDisk: seq<byte> := [0x28, 0x73, 0x2a, 0xc1, 0x1f, 0xf8, 0xd2, 0x11,
                              0xba, 0x4b, 0x00, 0xa0, 0xc9, 0x3e, 0xc9, 0x3b];
    var guid: seq<byte> := [0xC1, 0x2A, 0x73, 0x28, 0xF8, 0x1F, 0x11, 0xD2,
                            0xBA, 0x4B, 0x00, 0xA0, 0xC9, 0x3E, 0xC9, 0x3B];
    assert onDisk[8..16] == guid[8..16];
    assert GuidFromBytes(onDisk) == guid;
    assert GuidToBytes(guid) == onDisk;
  }
}
