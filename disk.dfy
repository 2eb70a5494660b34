/** The disk image of pkg/disk/disk.go: a fixed-size array of bytes created
    zeroed, positional reads and writes that either transfer everything or fail,
    and the helpers that serialise an MBR or a GPT header into a scratch buffer
    and write it at block `lba` (byte offset `lba * 512`, in Go's uint64 and then
    int64 arithmetic). */
module BlockDevice {
  import opened Bytes
  import opened Errors
  import MbrCodec
  import GptCodec

  class Disk {
    /** The bytes of the image. */
    const data: array<byte>

    /** An image a Go `int64` size can describe. */
    predicate Valid()
    {
      data.Length < TWO_63
    }

    constructor (size: nat)
      requires size < TWO_63
      ensures fresh(data) && data[..] == Zeros(size) && Valid()
    {
      data := new byte[size](_ => 0);
    }

    /** disk.Create: a new image of `size` zero bytes. Truncating a file to a
        negative size fails. */
    static method Create(size: i64) returns (r: Result<Disk>)
      ensures r.Ok? <==> size >= 0
      ensures r.Err? ==> r.error == IoError
      ensures r.Ok? ==> fresh(r.value) && fresh(r.value.data) && r.value.Valid()
      ensures r.Ok? ==> r.value.data[..] == Zeros(size)
    {
      if size < 0 {
        return Err(IoError);
      }
      var d := new Disk(size);
      return Ok(d);
    }

    /** Reads `buf.Length` bytes at `off`. A negative offset is an error; a read
        that runs past the end reports io.EOF and leaves `buf` unchanged. */
    method ReadAt(buf: array<byte>, off: int) returns (e: Outcome)
      requires buf != data
      modifies buf
      ensures e.Pass? <==> 0 <= off && off + buf.Length <= data.Length
      ensures e.Fail? ==> e.error == (if off < 0 then IoError else Eof)
      ensures e.Pass? ==> buf[..] == data[off..off + buf.Length]
      ensures e.Fail? ==> buf[..] == old(buf[..])
    {
      if off < 0 {
        return Fail(IoError);
      }
      if off + buf.Length > data.Length {
        return Fail(Eof);
      }
      forall i | 0 <= i < buf.Length {
        buf[i] := data[off + i];
      }
      return Pass;
    }

    /** Writes all of `buf` at `off`. A negative offset is an error; a write
        that does not fit the image is a short write, reported as
        io.ErrUnexpectedEOF, and changes nothing. */
    method WriteAt(buf: array<byte>, off: int) returns (e: Outcome)
      requires buf != data
      modifies data
      ensures e.Pass? <==> 0 <= off && off + buf.Length <= data.Length
      ensures e.Fail? ==> e.error == (if off < 0 then IoError else UnexpectedEof)
      ensures e.Pass? ==> data[..] == Splice(old(data[..]), off, buf[..])
      ensures e.Fail? ==> data[..] == old(data[..])
    {
      if off < 0 {
        return Fail(IoError);
      }
      if off + buf.Length > data.Length {
        return Fail(UnexpectedEof);
      }
      Blit(data, off, buf[..]);
      return Pass;
    }

    /** Serialises the MBR into a 512-byte buffer and writes it at offset 0. */
    method WriteMbr(mbr: MbrCodec.Mbr) returns (e: Outcome)
      modifies data
      ensures e.Pass? <==> MbrCodec.MBR_SIZE <= data.Length
      ensures e.Fail? ==> e.error == UnexpectedEof && data[..] == old(data[..])
      ensures e.Pass? ==> data[..] == Splice(old(data[..]), 0, mbr.Bytes())
    {
      var buf := new byte[MbrCodec.MBR_SIZE];
      mbr.FillBytes(buf);
      assert buf[..] == buf[..MbrCodec.MBR_SIZE];
      e := WriteAt(buf, 0);
    }

    /** The byte offset of block `lba` as Go computes it: `int64(lba * 512)`. */
    static function BlockOffset(lba: u64): (off: i64)
      ensures lba * BLOCK_SIZE < TWO_63 ==> off == lba * BLOCK_SIZE
    {
      ToInt64(Mul64(lba, BLOCK_SIZE))
    }

    /** Serialises the header into a 92-byte buffer and writes it at block `lba`.
        Go's FillBytes panics when the header declares a size above 92. */
    method WriteGpt(lba: u64, h: GptCodec.Gpt) returns (e: Outcome)
      requires h.size <= GptCodec.GPT_SIZE
      modifies data
      ensures e.Pass? <==> 0 <= BlockOffset(lba) && BlockOffset(lba) + GptCodec.GPT_SIZE as nat <= data.Length
      ensures e.Fail? ==> e.error == (if BlockOffset(lba) < 0 then IoError else UnexpectedEof)
      ensures e.Fail? ==> data[..] == old(data[..])
      ensures e.Pass? ==> data[..] == Splice(old(data[..]), BlockOffset(lba), h.Bytes())
    {
      var buf := new byte[GptCodec.GPT_SIZE];
      h.FillBytes(buf);
      assert buf[..] == buf[..GptCodec.GPT_SIZE];
      e := WriteAt(buf, BlockOffset(lba));
    }
  }
}
