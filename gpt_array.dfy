/** Reading and writing a GPT partition entry array (pkg/disk/gpt.go
    `ParseGPTPartitions`, `WriteGPTPartitions`): `count` records of `size` bytes
    from byte offset `start`, one scratch buffer reused for every record, and a
    CRC-32 fed each record in turn. */
module GptArray {
  import opened Bytes
  import opened Errors
  import opened GuidCodec
  import opened GptCodec
  import Crc32
  import opened BlockDevice

  /** The `len` bytes at `start`, or nothing when `len` is zero. */
  function Region(bytes: seq<byte>, start: nat, len: nat): (r: seq<byte>)
    requires len == 0 || start + len <= |bytes|
    ensures |r| == len
  {
    if len == 0 then [] else bytes[start..start + len]
  }

  /** Writes the fixed fields of an entry over the first 56 bytes of `data`. */
  method FillHead(data: array<byte>, part: GptPartition)
    requires data.Length >= NAME_OFFSET
    modifies data
    ensures data[..] == Splice(old(data[..]), 0, EntryHead(part))
  {
    ghost var s := data[..];
    ghost var done := GuidToBytes(part.partType);
    Blit(data, 0, GuidToBytes(part.partType));
    Blit(data, 16, GuidToBytes(part.id));
    SpliceConcat(s, 0, done, GuidToBytes(part.id));
    done := done + GuidToBytes(part.id);
    Blit(data, 32, ToLE(part.startLba, 8));
    SpliceConcat(s, 0, done, ToLE(part.startLba, 8));
    done := done + ToLE(part.startLba, 8);
    Blit(data, 40, ToLE(part.endLba, 8));
    SpliceConcat(s, 0, done, ToLE(part.endLba, 8));
    done := done + ToLE(part.endLba, 8);
    Blit(data, 48, ToLE(part.attributes, 8));
    SpliceConcat(s, 0, done, ToLE(part.attributes, 8));
    done := done + ToLE(part.attributes, 8);
    assert done == EntryHead(part);
  }

  /** Encodes one entry into the scratch buffer: clears it, writes the fixed
      fields, then the name one code unit at a time. */
  method FillEntry(data: array<byte>, part: GptPartition)
    requires NameFits(part, data.Length)
    modifies data
    ensures data[..] == EncodeEntry(part, data.Length)
  {
    Clear(data);
    FillHead(data, part);
    FillName(data, part.name);
    EntryLayout(part, data.Length);
  }

  /** Sets every byte of `data` to zero. */
  method Clear(data: array<byte>)
    modifies data
    ensures data[..] == Zeros(data.Length)
  {
    forall i | 0 <= i < data.Length {
      data[i] := 0;
    }
  }

  /** Writes the name, one little-endian code unit at a time, from byte 56. */
  method FillName(data: array<byte>, name: seq<u16>)
    requires NAME_OFFSET + 2 * |name| <= data.Length
    modifies data
    ensures data[..] == Splice(old(data[..]), NAME_OFFSET, NameBytes(name))
  {
    ghost var base := data[..];
    var i := 0;
    while i < |name|
      invariant 0 <= i <= |name|
      invariant data[..] == Splice(base, NAME_OFFSET, NameBytes(name[..i]))
    {
      var pos := i * 2 + NAME_OFFSET;
      Blit(data, pos, ToLE(name[i], 2));
      SpliceConcat(base, NAME_OFFSET, NameBytes(name[..i]), ToLE(name[i], 2));
      assert name[..i + 1][..i] == name[..i];
      i := i + 1;
    }
    assert name[..|name|] == name;
  }

  /** Writing the fixed fields and then the name over a cleared record gives
      the record of the entry. */
  lemma EntryLayout(part: GptPartition, size: nat)
    requires NameFits(part, size)
    ensures Splice(Splice(Zeros(size), 0, EntryHead(part)), NAME_OFFSET, NameBytes(part.name))
         == EncodeEntry(part, size)
  {
    var rest := Zeros(size - NAME_OFFSET);
    SpliceAfter([], Zeros(size), EntryHead(part));
    assert Zeros(size)[NAME_OFFSET..] == rest;
    SpliceAfter(EntryHead(part), rest, NameBytes(part.name));
    assert rest[2 * |part.name|..] == Zeros(size - NAME_OFFSET - 2 * |part.name|);
  }

  /** Decodes the record in the scratch buffer, reading the name into `chars`
      until its first zero code unit or until the field ends. */
  method DecodeRecord(buf: array<byte>, chars: array<u16>) returns (part: GptPartition)
    requires buf.Length >= NAME_OFFSET && chars.Length == NameCapacity(buf.Length)
    modifies chars
    ensures part == DecodeEntry(buf[..])
  {
    ghost var units := Units(buf[NAME_OFFSET..]);
    var nameLen := 0;
    while nameLen < chars.Length
      invariant 0 <= nameLen <= chars.Length
      invariant forall j :: 0 <= j < nameLen ==> chars[j] == units[j] && chars[j] != 0
    {
      var pos := NAME_OFFSET + nameLen * 2;
      assert buf[pos..pos + 2] == buf[NAME_OFFSET..][2 * nameLen..2 * nameLen + 2];
      chars[nameLen] := Uint16(buf[pos..pos + 2]);
      if chars[nameLen] == 0 {
        break;
      }
      nameLen := nameLen + 1;
    }
    assert nameLen == chars.Length || units[nameLen] == 0;
    var name := chars[..nameLen];
    TakeNameUnique(units, nameLen);
    part := GptPartition(
      GuidFromBytes(buf[0..16]),
      GuidFromBytes(buf[16..32]),
      Uint64(buf[32..40]),
      Uint64(buf[40..48]),
      Uint64(buf[48..56]),
      name);
  }

  /** The record read right after the bytes read so far extends them by the
      next slice of the image. */
  lemma ReadExtends(disk: seq<byte>, start: nat, off: nat, recs: seq<seq<byte>>, rec: seq<byte>,
                    off': nat, recs': seq<seq<byte>>)
    requires off == start + |Join(recs)| && off + |rec| <= |disk|
    requires recs != [] ==> Join(recs) == disk[start..off]
    requires rec == disk[off..off + |rec|]
    requires off' == off + |rec| && recs' == recs + [rec]
    ensures off' <= |disk| && Join(recs') == disk[start..off']
  {
    JoinAppend(recs, rec);
    SliceSplit(disk, start, off, off + |rec|);
  }

  /** Writing the next record right after the bytes written so far leaves the
      image as writing them all in one go. */
  lemma WriteExtends(before: seq<byte>, cur: seq<byte>, start: nat, written: seq<byte>, rec: seq<byte>)
    requires start + |written| + |rec| <= |before|
    requires written == [] ==> cur == before
    requires written != [] ==> cur == Splice(before, start, written)
    ensures Splice(cur, start + |written|, rec) == Splice(before, start, written + rec)
  {
    if written == [] {
      assert written + rec == rec;
    } else {
      SpliceConcat(before, start, written, rec);
    }
  }

  /** The state of the reading loop after the records `recs`: they are the
      image from `start` on, read back to back, `off` is the byte after them,
      `parts` holds their entries and the hasher has been fed all of them. */
  ghost predicate Scanned(disk: seq<byte>, start: nat, size: nat, off: nat, recs: seq<seq<byte>>,
                          parts: seq<GptPartition>, hasher: Crc32.Hasher)
  {
    && size >= NAME_OFFSET && Uniform(recs, size)
    && |Join(recs)| == RecordOffset(|recs|, size)
    && off == start + |Join(recs)|
    && (recs != [] ==> off <= |disk| && Join(recs) == disk[start..off])
    && parts == DecodeRecords(recs)
    && hasher == Crc32.NEW_HASHER.Write(Join(recs))
  }

  /** One turn of the reading loop: reads the record at `off` into the scratch
      buffer, feeds it to the hasher, decodes it into slot `i` of `parts` and
      advances `off`. */
  method ReadEntry(reader: Disk, buf: array<byte>, chars: array<u16>, parts: array<GptPartition>,
                   i: nat, off: u64, hasher: Crc32.Hasher,
                   ghost disk: seq<byte>, ghost start: nat, ghost recs: seq<seq<byte>>)
    returns (e: Outcome, next: u64, hasher': Crc32.Hasher, ghost recs': seq<seq<byte>>)
    requires reader.Valid() && buf != reader.data && buf.Length >= NAME_OFFSET
    requires chars.Length == NameCapacity(buf.Length)
    requires i < parts.Length && |recs| == i
    requires reader.data[..] == disk
    requires Scanned(disk, start, buf.Length, off, recs, parts[..i], hasher)
    modifies buf, chars, parts
    ensures e.Pass? <==> off < TWO_63 && off + buf.Length <= |disk|
    ensures e.Fail? ==> e.error == (if off < TWO_63 then Eof else IoError)
    ensures e.Pass? ==> |recs'| == i + 1
    ensures e.Pass? ==> Scanned(disk, start, buf.Length, next, recs', parts[..i + 1], hasher')
  {
    next, hasher', recs' := off, hasher, recs;
    ghost var done := parts[..i];
    e := reader.ReadAt(buf, ToInt64(off));
    if e.Fail? {
      return;
    }
    assert ToInt64(off) == off;
    assert reader.data[..] == disk;
    ghost var rec := buf[..];
    assert rec == disk[off..off + buf.Length];
    hasher' := hasher.Write(buf[..]);
    var part := DecodeRecord(buf, chars);
    assert parts[..i] == done;
    Store(parts, i, part);
    recs' := recs + [rec];
    assert off + buf.Length < TWO_64;
    next := Add64(off, buf.Length as u64);
    ScanStep(disk, start, buf.Length, off, recs, done, hasher, rec, part,
             next, recs', parts[..i + 1], hasher');
  }

  /** Stores `part` in slot `i`, extending the filled prefix by one. */
  method Store(parts: array<GptPartition>, i: nat, part: GptPartition)
    requires i < parts.Length
    modifies parts
    ensures parts[..i + 1] == old(parts[..i]) + [part]
  {
    parts[i] := part;
    assert parts[..i + 1] == old(parts[..i]) + [part];
  }

  /** The loop state after one more record read at `off`. */
  lemma ScanStep(disk: seq<byte>, start: nat, size: nat, off: nat, recs: seq<seq<byte>>,
                 parts: seq<GptPartition>, hasher: Crc32.Hasher, rec: seq<byte>, part: GptPartition,
                 off': nat, recs': seq<seq<byte>>, parts': seq<GptPartition>, hasher': Crc32.Hasher)
    requires Scanned(disk, start, size, off, recs, parts, hasher)
    requires off + size <= |disk| && rec == disk[off..off + size] && part == DecodeEntry(rec)
    requires off' == off + size && recs' == recs + [rec] && parts' == parts + [part]
    requires hasher' == hasher.Write(rec)
    ensures Scanned(disk, start, size, off', recs', parts', hasher')
  {
    ReadExtends(disk, start, off, recs, rec, off', recs');
    UniformAppend(recs, rec, size);
    DecodeRecordsAppend(recs, rec);
    JoinAppend(recs, rec);
    Crc32.WriteAppend(Crc32.NEW_HASHER, Join(recs), rec);
  }

  /** Reads `count` entries of `size` bytes starting at byte `start`, returning
      them with the CRC-32 of all the records read. The first read that fails
      ends the call with its error. Go panics when `size` is below 128. */
  method ParseGptPartitions(reader: Disk, start: u64, size: u32, count: u32)
    returns (r: Result<(seq<GptPartition>, u32)>)
    requires reader.Valid()
    requires size >= GPT_PARTITION_SIZE
    ensures r.Ok? <==> count == 0 || start + RecordOffset(count, size) <= reader.data.Length
    ensures r.Err? ==> r.error == Eof || r.error == IoError
    ensures r.Ok? ==>
      var region := Region(reader.data[..], start, RecordOffset(count, size));
      r.value == (DecodeArray(region, size, count), Crc32.Checksum(region))
  {
    var parts := new GptPartition[count](_ => ZERO_ENTRY);
    var buf := new byte[size];
    var chars := new u16[NameCapacity(size)];
    var hasher := Crc32.NEW_HASHER;
    var off := start;
    var i: nat := 0;
    ghost var recs: seq<seq<byte>> := [];
    while i < count
      invariant i <= count && |recs| == i
      invariant Scanned(reader.data[..], start, size, off, recs, parts[..i], hasher)
    {
      var e;
      e, off, hasher, recs := ReadEntry(reader, buf, chars, parts, i, off, hasher, reader.data[..], start, recs);
      if e.Fail? {
        RecordBefore(i, count, size);
        return Err(e.error);
      }
      i := i + 1;
    }
    ReadComplete(reader.data[..], start, size, off, recs, parts[..], hasher);
    return Ok((parts[..], hasher.Sum32()));
  }

  /** After all `count` records, the loop state gives the result promised. */
  lemma ReadComplete(disk: seq<byte>, start: nat, size: nat, off: nat, recs: seq<seq<byte>>,
                     parts: seq<GptPartition>, hasher: Crc32.Hasher)
    requires Scanned(disk, start, size, off, recs, parts[..|parts|], hasher)
    ensures recs == [] || start + RecordOffset(|recs|, size) <= |disk|
    ensures var region := Region(disk, start, RecordOffset(|recs|, size));
      parts == DecodeArray(region, size, |recs|) && hasher.Sum32() == Crc32.Checksum(region)
  {
    assert parts[..|parts|] == parts;
    DecodeArrayJoin(recs, size);
    assert Region(disk, start, RecordOffset(|recs|, size)) == Join(recs);
  }

  /** The state of the writing loop after the entries `parts`: the image is
      the one before the call with their encoding written from `start` on,
      `off` is the byte after it and the hasher has been fed all of it. */
  ghost predicate Emitted(before: seq<byte>, cur: seq<byte>, start: nat, size: nat, off: nat,
                          parts: seq<GptPartition>, hasher: Crc32.Hasher)
  {
    && (forall i :: 0 <= i < |parts| ==> NameFits(parts[i], size))
    && off == start + RecordOffset(|parts|, size)
    && |cur| == |before|
    && (parts != [] ==> off <= |before| && cur == Splice(before, start, EncodeArray(parts, size)))
    && (parts == [] ==> cur == before)
    && hasher == Crc32.NEW_HASHER.Write(EncodeArray(parts, size))
  }

  /** One turn of the writing loop: encodes `part` into the scratch buffer,
      feeds it to the hasher, writes it at `off` and advances `off`. */
  method WriteEntry(writer: Disk, buf: array<byte>, part: GptPartition, off: u64, hasher: Crc32.Hasher,
                    ghost before: seq<byte>, ghost start: nat, ghost done: seq<GptPartition>)
    returns (e: Outcome, next: u64, hasher': Crc32.Hasher)
    requires writer.Valid() && buf != writer.data && NameFits(part, buf.Length)
    requires Emitted(before, writer.data[..], start, buf.Length, off, done, hasher)
    modifies buf, writer.data
    ensures e.Pass? <==> off < TWO_63 && off + buf.Length <= writer.data.Length
    ensures e.Fail? ==> e.error == (if off < TWO_63 then UnexpectedEof else IoError)
    ensures e.Fail? ==> writer.data[..] == old(writer.data[..])
    ensures e.Pass? ==> Emitted(before, writer.data[..], start, buf.Length, next, done + [part], hasher')
  {
    next, hasher' := off, hasher;
    ghost var cur := writer.data[..];
    FillEntry(buf, part);
    assert writer.data[..] == cur;
    ghost var rec := buf[..];
    hasher' := hasher.Write(buf[..]);
    e := writer.WriteAt(buf, ToInt64(off));
    if e.Fail? {
      return;
    }
    assert ToInt64(off) == off;
    next := Add64(off, buf.Length as u64);
    EmitStep(before, cur, start, buf.Length, off, done, hasher, part, rec,
             writer.data[..], next, done + [part], hasher');
  }

  /** The loop state after one more entry written at `off`. */
  lemma EmitStep(before: seq<byte>, cur: seq<byte>, start: nat, size: nat, off: nat,
                 parts: seq<GptPartition>, hasher: Crc32.Hasher, part: GptPartition, rec: seq<byte>,
                 cur': seq<byte>, off': nat, parts': seq<GptPartition>, hasher': Crc32.Hasher)
    requires Emitted(before, cur, start, size, off, parts, hasher)
    requires NameFits(part, size) && rec == EncodeEntry(part, size) && off + size <= |cur|
    requires cur' == Splice(cur, off, rec) && off' == off + size && parts' == parts + [part]
    requires hasher' == hasher.Write(rec)
    ensures Emitted(before, cur', start, size, off', parts', hasher')
  {
    var written := EncodeArray(parts, size);
    EncodeArrayAppend(parts, part, size);
    WriteExtends(before, cur, start, written, rec);
    assert written + rec == EncodeArray(parts', size);
    Crc32.WriteAppend(Crc32.NEW_HASHER, written, rec);
  }

  /** The image after the writing loop stopped at record `k`, the first one
      that does not fit the image: records 0 to k - 1 are written from `start`
      on and nothing else has changed. */
  ghost predicate StoppedAt(before: seq<byte>, cur: seq<byte>, start: nat, size: nat,
                            parts: seq<GptPartition>, k: nat)
  {
    && k < |parts|
    && (forall i :: 0 <= i < k ==> NameFits(parts[i], size))
    && !(start + RecordOffset(k + 1, size) <= |cur|)
    && (k == 0 ==> cur == before)
    && (k > 0 ==> start + RecordOffset(k, size) <= |before|
                  && cur == Splice(before, start, EncodeArray(parts[..k], size)))
  }

  /** A write that fails at record `k` leaves the image where the loop stopped,
      and it differs from the one before the call only inside the region of
      the whole array, which does not fit. */
  lemma EmitFailed(before: seq<byte>, cur: seq<byte>, start: nat, size: nat, off: nat,
                   parts: seq<GptPartition>, hasher: Crc32.Hasher, k: nat)
    requires k < |parts| && Emitted(before, cur, start, size, off, parts[..k], hasher)
    requires |cur| < TWO_63 && !(off < TWO_63 && off + size <= |cur|)
    ensures StoppedAt(before, cur, start, size, parts, k)
    ensures !(start + RecordOffset(|parts|, size) <= |cur|)
    ensures forall j :: 0 <= j < |cur| && !(start <= j < start + RecordOffset(|parts|, size)) ==>
      cur[j] == before[j]
  {
    RecordBefore(k, |parts|, size);
    assert |parts[..k]| == k;
  }

  /** The state after the last entry gives the results of the call. */
  lemma EmitDone(before: seq<byte>, cur: seq<byte>, start: nat, size: nat, off: nat,
                 parts: seq<GptPartition>, hasher: Crc32.Hasher)
    requires Emitted(before, cur, start, size, off, parts[..|parts|], hasher)
    ensures parts == [] || start + RecordOffset(|parts|, size) <= |cur|
    ensures hasher.Sum32() == Crc32.Checksum(EncodeArray(parts, size))
    ensures parts != [] ==> cur == Splice(before, start, EncodeArray(parts, size))
    ensures parts == [] ==> cur == before
  {
    assert parts[..|parts|] == parts;
  }

  /** Writes the entries as `size`-byte records from byte `start`, returning the
      CRC-32 of all the records written. The first write that fails ends the
      call with its error: that is record `k`, the first one that does not fit
      the image, and the records before it stay written. Go panics when `size`
      is below 128 or a name does not fit its record. */
  method WriteGptPartitions(writer: Disk, start: u64, size: u32, parts: seq<GptPartition>)
    returns (r: Result<u32>)
    requires writer.Valid()
    requires size >= GPT_PARTITION_SIZE
    requires forall i :: 0 <= i < |parts| ==> NameFits(parts[i], size)
    modifies writer.data
    ensures r.Ok? <==> parts == [] || start + RecordOffset(|parts|, size) <= writer.data.Length
    ensures r.Err? ==> r.error == IoError || r.error == UnexpectedEof
    ensures r.Ok? ==> r.value == Crc32.Checksum(EncodeArray(parts, size))
    ensures r.Ok? && parts != [] ==>
      writer.data[..] == Splice(old(writer.data[..]), start, EncodeArray(parts, size))
    ensures r.Ok? && parts == [] ==> writer.data[..] == old(writer.data[..])
    ensures r.Err? ==>
      forall j :: 0 <= j < writer.data.Length && !(start <= j < start + RecordOffset(|parts|, size)) ==>
        writer.data[j] == old(writer.data[j])
    ensures r.Err? ==> exists k :: StoppedAt(old(writer.data[..]), writer.data[..], start, size, parts, k)
  {
    var hasher := Crc32.NEW_HASHER;
    var buf := new byte[size];
    var off := start;
    var i := 0;
    ghost var before := writer.data[..];
    while i < |parts|
      invariant 0 <= i <= |parts|
      invariant Emitted(before, writer.data[..], start, size, off, parts[..i], hasher)
    {
      ghost var cur, off0, hasher0 := writer.data[..], off, hasher;
      var e;
      e, off, hasher := WriteEntry(writer, buf, parts[i], off, hasher, before, start, parts[..i]);
      if e.Fail? {
        EmitFailed(before, cur, start, size, off0, parts, hasher0, i);
        assert StoppedAt(old(writer.data[..]), writer.data[..], start, size, parts, i);
        return Err(e.error);
      }
      TakeNext(parts, i);
      i := i + 1;
    }
    EmitDone(before, writer.data[..], start, size, off, parts, hasher);
    return Ok(hasher.Sum32());
  }
}
