# go-appliance disk layout, modelled in Dafny

This project models the part of go-appliance that lays out a bootable disk
image:

- the Master Boot Record codec (`pkg/disk/mbr.go`);
- the GUID Partition Table codec (`pkg/disk/gpt.go`), covering:
  - the 92-byte header and its CRC-32 checksum;
  - the mixed-endian GUID encoding;
  - the array of fixed-size partition entries with UTF-16LE names;
- the positioned writes of the disk type (`pkg/disk/disk.go`);
- the disk builder (`pkg/diskbuilder/builder.go`). It creates a zeroed image,
  collects GPT entries and MBR slots, and on `Close` writes the MBR, then the
  primary entry array and header, then the secondary array and header.

Modules, one per file:

| File | Module | What it holds |
|---|---|---|
| `bytes.dfy` | `Bytes` | Fixed-width integers. Go's wrap-around `uint64` arithmetic and the `int64` conversion. Little-endian encoding as in `encoding/binary`. `Splice`, the write of a byte string into a larger one. |
| `crc32.dfy` | `Crc32` | The IEEE CRC-32 of `hash/crc32`, bit by bit, over an integer register. A hasher that accumulates writes. |
| `errors.dfy` | `Errors` | The error kinds: `io.EOF`, `io.ErrUnexpectedEOF`, `ErrGPTNotPresent`, `ErrGPTUnsupported` and `ErrInvalidSize`, plus any other I/O failure. |
| `guid.dfy` | `GuidCodec` | `guidFromBytes` and `guidToBytes`: the GUID layout of section 5.3.3 of the UEFI Specification. |
| `mbr.dfy` | `MbrCodec` | `MBR` and `MBRPartition`: construction, `ParseMBR`, `ParseMBRPartition` and both `FillBytes`. |
| `gpt.dfy` | `GptCodec` | The GPT header (section 5.3.2 of the UEFI Specification): `NewGPT`, `ParseGPT`, `FillBytes`, `CalculateChecksum`. The partition entry (section 5.3.3) and the value-level encoding of the entry array. |
| `gpt_array.dfy` | `GptArray` | The loops of `ParseGPTPartitions` and `WriteGPTPartitions`. They work over a scratch buffer and a disk, and are proved against the array encoding of `GptCodec`. |
| `disk.dfy` | `BlockDevice` | The image file as a `class Disk` over a byte array: `Create`, `ReadAt`, `WriteAt`, `WriteMBR` and `WriteGPT`. |
| `builder.dfy` | `DiskBuilder` | The `Builder` class, with `New`, `Add`, `AddMBR` and `Close`. Also the image that `Close` leaves, and the lemmas that read it back. |

What is proved, in outline:

- **Codecs.** The GUID, MBR, MBR partition and GPT header codecs round-trip
  in both directions: value to bytes to value, and bytes to value to bytes.
  - Entries and entry arrays are proved in one direction only: value to
    bytes to value, for names that fit their record and hold no zero code
    unit. The other direction does not hold. A name field whose code units
    are `0x41, 0, 0x42` decodes to the name `A`, and `A` re-encodes with
    zeros after it, so the `0x42` is lost. What does hold is that every
    decoded entry can be written back: `DecodeEntry` always returns a name
    that fits its record and holds no zero.
  - `ParseGptErrors` is a single lemma. It gives the outcome of each of
    `ParseGPT`'s checks, in the order the code makes them.
  - The header checksum ignores the stored checksum field.
  - Sealing a header always gives a header whose checksum validates.
- **Entry-array loops.** These are proved against the value-level encoding.
  - The bytes `WriteGPTPartitions` writes are exactly the encoded array.
  - The CRC it returns is the CRC-32 of that array.
  - When a write fails, the records before the first one that does not fit
    stay written, and nothing else in the image changes.
  - `ParseGPTPartitions` returns the decoded region and its CRC.
  - Both fail exactly when the array does not fit the image.
- **Builder.** `Close` succeeds exactly when all five writes fit the image.
  - When it succeeds, the image is the starting image with the MBR, the two
    arrays and the two sealed headers written in.
  - Each of the five regions parses back to what was written: the MBR, both
    sealed headers (accepted by `ParseGPT`, with a valid checksum) and both
    arrays (decoding to the entries, with the CRC stored in the header).
    This needs the conditions of `ReadBackable`:
    - both headers are supported: the "EFI PART" signature, revision
      `0x00010000` and a 92-byte header;
    - both use 128-byte entries;
    - the table is not empty;
    - every name fits its record and holds no zero code unit;
    - the regions are in order (`InOrder`): the MBR, the primary header, the
      primary array, the secondary array, the secondary header, then the end
      of the image.
  - `FreshBuilderReadsBack`: a fresh builder's headers meet these
    conditions on every image of at least 67 blocks. This holds for any 128
    entries whose names fit and hold no zero.

Two properties of a fresh disk come out of the proofs:

- `FreshImageFits`: `Close` fits an image exactly when it has at least 34
  blocks.
- `FreshImageInOrder`: the five regions are in order and disjoint exactly
  when the image has at least 67 blocks.
  - On a disk of 34 to 66 blocks, the secondary array starts at block
    `N - 33`, so it is written over the primary array and, at 34 blocks,
    over the primary header.
  - `New` only checks that the size is a whole number of blocks.
- `NewGptDataLastGap`: `NewGPT` sets the last usable block to `N - 2 - 128`
  rather than the block just before the secondary array. This leaves 96
  unused blocks before that array.

A name longer than its record is not written: `WriteGPTPartitions` slices
`data[i:i+2]` of a buffer one record long (`pkg/disk/gpt.go:336-344`), so such
a name makes Go panic. `NameFits` is therefore a precondition of the writing
operations.

## Model

| member | source | states |
|---|---|---|
| Bytes.Sub64 | pkg/disk/gpt.go:64-66 | uint64 subtraction: exact when no borrow, otherwise wraps by 2^64 |
| Bytes.Add64 | pkg/disk/gpt.go:356 | uint64 addition: exact below 2^64, otherwise wraps |
| Bytes.Mul64 | pkg/disk/disk.go:97 | uint64 multiplication is exact when the product is below 2^64 |
| Bytes.ToInt64 | pkg/disk/disk.go:97 | int64(x) is non-negative exactly when x < 2^63, and is x or x - 2^64 |
| Bytes.Trunc32 | pkg/disk/gpt.go:116-118 | uint32(len) never exceeds the length and equals it below 2^32 |
| Bytes.FromLEToLE | pkg/disk/gpt.go:208-221 | decoding a little-endian field gives back any value that fits its width |
| Bytes.ToLEFromLE | pkg/disk/gpt.go:121-138 | re-encoding a decoded little-endian field gives back its bytes |
| Crc32.Checksum | pkg/disk/gpt.go:235 | `crc32.ChecksumIEEE(s)` is what a fresh `NewIEEE` hasher reports after `s` is written to it |
| Crc32.Hasher.Write | pkg/disk/gpt.go:272-280 | a write folds the bytes into the hasher's register (see `Crc32.WriteAppend`) |
| Crc32.Hasher.Sum32 | pkg/disk/gpt.go:315 | the CRC-32 of everything written, read off the register (see `Crc32.Checksum`) |
| Crc32.UpdateAppend | pkg/disk/gpt.go:346-359 | running the register over `a` then `b` is running it over `a + b` |
| Crc32.WriteAppend | pkg/disk/gpt.go:346-359 | two writes to a hasher leave it as one write of their concatenation; the array loops use this to show the sum is the CRC-32 of the whole array |
| GuidCodec.GuidFromBytes | pkg/disk/gpt.go:141-158 | reads a GUID from 16 bytes (its layout in `GuidFromBytesLayout`, its inverse in `GuidBytesRoundTrip`) |
| GuidCodec.GuidToBytes | pkg/disk/gpt.go:160-177 | 16 bytes (its layout in `GuidToBytesLayout`, its inverse in `GuidRoundTrip`) |
| GuidCodec.GuidFromBytesLayout | pkg/disk/gpt.go:141-158 | the first three GUID fields are byte-reversed and the last 8 bytes are copied |
| GuidCodec.GuidToBytesLayout | pkg/disk/gpt.go:160-177 | encoding byte-reverses the first three fields and copies the last 8 bytes |
| GuidCodec.GuidRoundTrip | pkg/disk/gpt.go:141-177 | guidFromBytes inverts guidToBytes for every GUID |
| GuidCodec.GuidBytesRoundTrip | pkg/disk/gpt.go:141-177 | guidToBytes inverts guidFromBytes for every 16 bytes |
| GuidCodec.EfiSystemPartitionVector | pkg/disk/gpt_test.go:12-23 | the EFI System Partition vector decodes to C12A7328-F81F-11D2-BA4B-00A0C93EC93B and back |
| MbrCodec.MbrPartition.FillBytes | pkg/disk/mbr.go:178-193 | writes exactly the 16-byte record at the offset and leaves the rest of the buffer unchanged |
| MbrCodec.NewMbrPartition | pkg/disk/mbr.go:104-113 | no attributes, both CHS addresses FF FF FF, type, LBA start and size little-endian |
| MbrCodec.MbrPartition.Bytes | pkg/disk/mbr.go:178-193 | the 16-byte record (its inverse in `MbrPartitionRoundTrip` and `MbrPartitionBytesRoundTrip`) |
| MbrCodec.ParseMbrPartition | pkg/disk/mbr.go:115-132 | reads the record's fields from 16 bytes (the round trips below) |
| MbrCodec.MbrPartitionRoundTrip | pkg/disk/mbr.go:115-132 | ParseMBRPartition recovers every partition record from its bytes |
| MbrCodec.MbrPartitionBytesRoundTrip | pkg/disk/mbr.go:115-132 | every 16 bytes are reproduced by parse then serialise: no byte is ignored |
| MbrCodec.EmptyPartitionIsZero | pkg/disk/mbr.go:74-85 | the empty slot is 16 zero bytes and zero bytes parse to the empty slot |
| MbrCodec.Mbr.FillBytes | pkg/disk/mbr.go:163-176 | writes exactly the 512-byte sector and leaves the rest of the buffer unchanged |
| MbrCodec.Mbr.Bytes | pkg/disk/mbr.go:163-176 | the 512-byte sector (layout in `MbrLayout`, inverse in `MbrRoundTrip` and `MbrBytesRoundTrip`) |
| MbrCodec.ParseMbr | pkg/disk/mbr.go:87-102 | reads every field of the sector, without checking the signature (the round trips below) |
| MbrCodec.NewMbr | pkg/disk/mbr.go:74-85 | zero boot code, four empty slots and the 55 AA signature around the given disk id (see `NewMbrBytes`) |
| MbrCodec.NewMbrBytes | pkg/disk/mbr.go:74-85 | a fresh MBR is zero except the disk id at 440 and the signature 55 AA at 510 |
| MbrCodec.MbrLayout | pkg/disk/mbr.go:163-176 | boot code, disk id, reserved, four records and signature at their sector offsets |
| MbrCodec.MbrRoundTrip | pkg/disk/mbr.go:87-102 | ParseMBR recovers every MBR from its sector |
| MbrCodec.MbrBytesRoundTrip | pkg/disk/mbr.go:87-102 | every sector is reproduced by parse then serialise, whatever its signature |
| GptCodec.Gpt.Bytes | pkg/disk/gpt.go:199-222 | the 92 header bytes (field offsets in `Gpt.Fields`, inverse in `GptRoundTrip` and `GptBytesRoundTrip`) |
| GptCodec.Gpt.Fields | pkg/disk/gpt.go:208-221 | each header field sits at its UEFI offset in the 92 bytes |
| GptCodec.Gpt.FillBytes | pkg/disk/gpt.go:199-222 | writes the 92 header bytes; the panics on a short buffer are preconditions |
| GptCodec.Gpt.CalculateChecksum | pkg/disk/gpt.go:224-236 | the CRC-32 of the header serialised with a zero checksum field |
| GptCodec.Gpt.ChecksumFieldCleared | pkg/disk/gpt.go:229-233 | clearing bytes 16-19 of the serialised header is serialising it with checksum 0 |
| GptCodec.ChecksumIgnoresStoredChecksum | pkg/disk/gpt.go:224-236 | the computed checksum does not depend on the stored one |
| GptCodec.StoredChecksumValidates | pkg/disk/gpt.go:224-236 | storing the computed checksum yields a header whose checksum validates |
| GptCodec.NewGpt | pkg/disk/gpt.go:48-92 | supported mirrored headers: primary at 1 with array at 2, secondary at N-1 with array 32 blocks before it; 128 entries of 128 bytes filling the 32 array blocks; reserved 0; same GUID, counts and data range in both |
| GptCodec.NewGptDataLastGap | pkg/disk/gpt.go:63-85 | DataLast is N-130, which leaves 96 blocks below the secondary array at N-33 |
| GptCodec.SignatureIsEfiPart | pkg/disk/gpt.go:18 | the signature constant is "EFI PART" little-endian |
| GptCodec.DecodeHeader | pkg/disk/gpt.go:121-138 | the decoded header serialises back to the 92 bytes it was read from |
| GptCodec.ParseGpt | pkg/disk/gpt.go:94-119 | a header is returned only from at least 92 bytes and is supported; an error is one of the four kinds checked, carrying the rejected revision or size |
| GptCodec.ParseGptErrors | pkg/disk/gpt.go:94-119 | short input, wrong signature, wrong revision, wrong size and a buffer under 92 bytes fail in that order; otherwise it parses |
| GptCodec.GptRoundTrip | pkg/disk/gpt.go:94-139 | ParseGPT accepts and recovers every supported header from its bytes |
| GptCodec.GptBytesRoundTrip | pkg/disk/gpt.go:94-139 | an accepted header is supported and re-serialises to the bytes it came from |
| GptCodec.ParseGptAccepts | pkg/disk/gpt.go:94-139 | ParseGPT succeeds only on at least 92 bytes and then returns the decoded header |
| GptCodec.NewGptPartition | pkg/disk/gpt.go:247-261 | the entry has the given type, id, range and name and no attributes |
| GptCodec.EncodeEntry | pkg/disk/gpt.go:328-344 | record of the entry size: fixed fields, UTF-16LE name, zero padding |
| GptCodec.DecodeEntry | pkg/disk/gpt.go:285-310 | the entry read from any record has a name that fits that record and holds no zero, so it can be written back |
| GptCodec.TakeName | pkg/disk/gpt.go:285-295 | the longest prefix of code units without a zero, ended by a zero or the capacity |
| GptCodec.TakeNameUnique | pkg/disk/gpt.go:285-295 | any prefix stopped at the first zero or at capacity is the name read |
| GptCodec.EntryRoundTrip | pkg/disk/gpt.go:285-344 | decoding an encoded entry whose name fits and has no NUL gives the entry back |
| GptCodec.NameReadBack | pkg/disk/gpt.go:285-301 | the name scan of an encoded record returns exactly the written name |
| GptCodec.ZeroEntryIsZeros | pkg/diskbuilder/builder.go:41 | an unused entry encodes to zeros and zero records decode to the unused entry |
| GptCodec.EncodeArray | pkg/disk/gpt.go:327-357 | `count` records of the entry size back to back (record `i` in `EncodeArrayAt`) |
| GptCodec.DecodeArray | pkg/disk/gpt.go:274-313 | one entry per record, `count` in all (entry `i` in `DecodeArrayAt`, inverse in `ArrayRoundTrip`) |
| GptCodec.EncodeArrayAt | pkg/disk/gpt.go:327-357 | record i of the array is the encoding of entry i at offset i*size |
| GptCodec.DecodeArrayAt | pkg/disk/gpt.go:274-313 | entry i is decoded from bytes i*size to (i+1)*size |
| GptCodec.ArrayRoundTrip | pkg/disk/gpt.go:263-360 | decoding the encoded array gives back every entry, in order |
| GptCodec.EncodeArrayAppend | pkg/disk/gpt.go:327-357 | one more entry appends exactly its record |
| GptCodec.DecodeArrayAppend | pkg/disk/gpt.go:274-313 | one more record appends exactly its decoded entry |
| GptArray.FillHead | pkg/disk/gpt.go:330-334 | writes the two GUIDs and three little-endian fields at the head of the record |
| GptArray.Clear | pkg/disk/gpt.go:328 | the scratch record is all zeros |
| GptArray.FillName | pkg/disk/gpt.go:336-344 | writes each name code unit little-endian from offset 56 and nothing else |
| GptArray.FillEntry | pkg/disk/gpt.go:328-344 | the scratch record holds exactly the encoding of the entry |
| GptArray.DecodeRecord | pkg/disk/gpt.go:285-310 | the name scan and field reads of one record give its decoded entry |
| GptArray.ReadEntry | pkg/disk/gpt.go:275-312 | reads one record (EOF past the end, error at a negative offset), hashes it and stores its entry |
| GptArray.ParseGptPartitions | pkg/disk/gpt.go:263-316 | succeeds iff the array lies inside the image; returns the decoded region and its CRC-32 |
| GptArray.ReadComplete | pkg/disk/gpt.go:315 | after the loop the entries and the hasher's sum are those of the whole region |
| GptArray.WriteEntry | pkg/disk/gpt.go:328-356 | encodes, hashes and writes one record; a failed write changes nothing |
| GptArray.WriteGptPartitions | pkg/disk/gpt.go:318-360 | succeeds iff the array fits; then writes exactly the encoded array and returns its CRC-32; on failure the records before the first one that does not fit are written, nothing else changes (`StoppedAt`) |
| GptArray.EmitFailed | pkg/disk/gpt.go:351-354 | when record `k` does not fit, the image is the old one with records `0..k-1` written (`StoppedAt`), the whole array does not fit, and bytes outside it are untouched |
| GptArray.EmitDone | pkg/disk/gpt.go:359 | after the loop the image holds the encoded array and the sum is its CRC-32 |
| BlockDevice.Disk.Create | pkg/disk/disk.go:26-39 | a negative size fails; otherwise a zero-filled image of that size |
| BlockDevice.Disk.ReadAt | pkg/disk/gpt.go:275-278 | copies the bytes at the offset; EOF past the end, error at a negative offset |
| BlockDevice.Disk.WriteAt | pkg/disk/disk.go:65-72 | writes the buffer at the offset; a write past the end fails and changes nothing |
| BlockDevice.Disk.WriteMbr | pkg/disk/disk.go:60-75 | the MBR sector is written at offset 0 iff the image holds 512 bytes |
| BlockDevice.Disk.BlockOffset | pkg/disk/disk.go:97 | int64(lba*512) is the byte offset of the block when it is below 2^63 |
| BlockDevice.Disk.WriteGpt | pkg/disk/disk.go:92-107 | the 92 header bytes are written at the block's offset iff they fit |
| DiskBuilder.WithPartition | pkg/diskbuilder/builder.go:58-69 | slot k holds the new record and every other field is unchanged |
| DiskBuilder.Seal | pkg/diskbuilder/builder.go:88-89 | the header with the array CRC stored and a valid checksum; nothing else changes |
| DiskBuilder.FreshImageFits | pkg/diskbuilder/builder.go:74-112 | Close fits a fresh image exactly when it has at least 34 blocks |
| DiskBuilder.FreshImageInOrder | pkg/disk/gpt.go:63-85 | the five regions of a fresh image are ordered and disjoint exactly from 67 blocks |
| DiskBuilder.FreshBuilderReadsBack | pkg/diskbuilder/builder.go:22-50 | the headers `New` creates on an image of at least 67 blocks meet every condition of the read-back lemmas, for any entries whose names fit and hold no zero |
| DiskBuilder.ClosedMbrReadsBack | pkg/diskbuilder/builder.go:75 | the first sector of the closed image parses to the builder's MBR |
| DiskBuilder.ClosedPrimaryHeaderReadsBack | pkg/diskbuilder/builder.go:88-93 | ParseGPT accepts the primary header block and returns the sealed header, whose checksum validates |
| DiskBuilder.ClosedSecondaryHeaderReadsBack | pkg/diskbuilder/builder.go:104-109 | likewise for the secondary header at the last block |
| DiskBuilder.ClosedPrimaryArrayReadsBack | pkg/diskbuilder/builder.go:79-89 | the primary array decodes to the entries and its CRC-32 is the one stored in the sealed header |
| DiskBuilder.ClosedSecondaryArrayReadsBack | pkg/diskbuilder/builder.go:95-105 | likewise for the secondary array |
| DiskBuilder.Builder.New | pkg/diskbuilder/builder.go:22-50 | InvalidSize unless a whole number of blocks; then a zeroed image, fresh MBR, NewGPT headers, empty table |
| DiskBuilder.Builder.Add | pkg/diskbuilder/builder.go:52-55 | the entry goes in the next table slot; nothing else changes |
| DiskBuilder.Builder.AddMbr | pkg/diskbuilder/builder.go:57-72 | the record goes in the next of the four MBR slots; nothing else changes |
| DiskBuilder.Builder.WriteCopy | pkg/diskbuilder/builder.go:79-93 | succeeds iff array and header fit; then the array and the sealed header are written |
| DiskBuilder.Builder.Close | pkg/diskbuilder/builder.go:74-112 | succeeds iff all five writes fit; then both headers are sealed with the array CRC and the image is the closed image |

## Left out

- The image is a fixed-size array. An OS file grows on a write past its end; the model fails that write with `io.ErrUnexpectedEOF`, the error Go reports for a short write.
- Short reads and writes that report a count below the buffer length without an error are not modelled. The model's reads and writes are all or nothing.
- Randomness is an input: the GUIDs `uuid.NewRandom` draws and the MBR disk id from `rand.Uint32`. The error path of `uuid.NewRandom` in `NewGPT` and `NewGPTPartition` is not modelled.
- GptCodec.NewGptPartition: takes the name as UTF-16 code units. The UTF-8 to UTF-16 conversion of Go strings is not modelled, and names are compared as code units.
- Error values keep only their kind. The `fmt.Errorf` wrapping messages are left out.
- Panics are preconditions of the member that would panic:
  - an entry size below 128;
  - a name too long for its record;
  - a buffer shorter than the structure `FillBytes` fills;
  - a fifth `AddMBR`;
  - an `Add` past the 128-entry table (an index out of range in Go).
- DiskBuilder.Builder.Close: when a write fails, the image left by the writes that succeeded is not stated. Only the error kind is.
- DiskBuilder.Builder.WriteCopy: on failure the returned header is stated only to be either the unsealed or the sealed header.
- The read-back lemmas assume the conditions of `ReadBackable`, including the five regions in order. A fresh builder meets them from 67 blocks (`FreshBuilderReadsBack`); smaller images, where the secondary array overwrites the primary one, are not read back.
- `Disk.Open`, `Disk.Close`, `ReadMBR` and `ReadGPT` of `pkg/disk/disk.go` are not modelled. The same goes for the one-line `ReadGPTPartitions` and `WriteGPTPartitions` wrappers and the `String` methods. They are file handling, formatting, or direct delegation to modelled operations.
- The CRC-32 is the bitwise definition of the reflected IEEE polynomial. The table-driven implementation of `hash/crc32` is not modelled.
- No concurrency: the builder is used by one caller at a time.
