/** CRC-32 with the IEEE polynomial (Go's hash/crc32 `ChecksumIEEE` and the
    `crc32.NewIEEE` streaming hasher), defined bit by bit on the reflected
    polynomial 0xEDB88320, with the 32-bit register held as an integer. */
module Crc32 {
  import opened Bytes

  /** The reflected IEEE polynomial. */
  const POLYNOMIAL: u32 := 0xEDB88320

  /** The state of a fresh hasher: the register preset to all ones. */
  const INIT: u32 := 0xFFFF_FFFF

  const WORD_BITS: nat := 32

  const BYTE_BITS: nat := 8

  /** Two to the power `k`. */
  function Pow2(k: nat): (r: nat)
    ensures r >= 1
  {
    if k == 0 then 1 else 2 * Pow2(k - 1)
  }

  lemma {:induction false} Pow2Add(a: nat, b: nat)
    ensures Pow2(a + b) == Pow2(a) * Pow2(b)
    decreases a
  {
    if a > 0 {
      Pow2Add(a - 1, b);
      assert Pow2(a + b) == 2 * Pow2(a - 1 + b);
    }
  }

  /** The register holds 32 bits. */
  lemma Pow2Word()
    ensures Pow2(WORD_BITS) == TWO_32
  {
    assert Pow2(8) == 0x100;
    Pow2Add(8, 8);
    Pow2Add(16, 16);
  }

  /** The bitwise exclusive or of `a` and `b`, one bit at a time from the least
      significant end. */
  function Xor(a: nat, b: nat): nat
    decreases a + b
  {
    if a == 0 && b == 0 then 0 else (a + b) % 2 + 2 * Xor(a / 2, b / 2)
  }

  /** The exclusive or of two values of `m` bits has `m` bits. */
  lemma {:induction false} XorBound(a: nat, b: nat, m: nat)
    requires a < Pow2(m) && b < Pow2(m)
    ensures Xor(a, b) < Pow2(m)
    decreases m
  {
    if m > 0 && !(a == 0 && b == 0) {
      XorBound(a / 2, b / 2, m - 1);
    }
  }

  /** The exclusive or of two 32-bit values. */
  function Xor32(a: u32, b: u32): u32
  {
    Pow2Word();
    XorBound(a, b, WORD_BITS);
    Xor(a, b)
  }

  /** One shift step of the reflected register: shift right by one, and fold
      in the polynomial when the bit shifted out was set. */
  function Half(c: u32): u32
  {
    if c % 2 == 1 then Xor32(c / 2, POLYNOMIAL) else c / 2
  }

  /** The register, started at `c`, after all bytes of `s` but the last and,
      for the last byte, its exclusive or into the register and `k` shift
      steps; with `s` empty it is `c` itself. */
  function Reg(c: u32, s: seq<byte>, k: nat): u32
    decreases |s|, k
  {
    if s == [] then c
    else if k == 0 then Xor32(Reg(c, s[..|s| - 1], BYTE_BITS), s[|s| - 1])
    else Half(Reg(c, s, k - 1))
  }

  /** The register after absorbing the bytes of `s` in order (`hasher.Write`). */
  function Update(c: u32, s: seq<byte>): u32
  {
    Reg(c, s, BYTE_BITS)
  }

  /** The checksum a hasher in state `c` reports (`hasher.Sum32`): the
      register with every bit inverted. */
  function Sum(c: u32): u32
  {
    TWO_32 - 1 - c
  }

  /** `crc32.ChecksumIEEE(s)`: what a fresh hasher reports once `s` is written to it. */
  function Checksum(s: seq<byte>): (r: u32)
    ensures r == NEW_HASHER.Write(s).Sum32()
  {
    Sum(Update(INIT, s))
  }

  /** A `crc32.NewIEEE()` hasher: the 32-bit register it keeps between writes. */
  datatype Hasher = Hasher(reg: u32)
  {
    /** `hasher.Write(s)`, which never fails. */
    function Write(s: seq<byte>): Hasher
    {
      Hasher(Update(reg, s))
    }

    /** `hasher.Sum32()`. */
    function Sum32(): u32
    {
      Sum(reg)
    }
  }

  /** `crc32.NewIEEE()`. */
  const NEW_HASHER: Hasher := Hasher(INIT)

  /** Writing `a` and then `b` leaves a hasher as writing `a + b` does, so a
      hasher fed record by record reports the checksum of all the records. */
  lemma WriteAppend(h: Hasher, a: seq<byte>, b: seq<byte>)
    ensures h.Write(a).Write(b) == h.Write(a + b)
  {
    UpdateAppend(h.reg, a, b);
  }

  /** Absorbing the non-empty `b` into the register left by `a` is absorbing
      `a + b`. */
  lemma {:induction false} RegAfter(c: u32, a: seq<byte>, b: seq<byte>, k: nat)
    requires b != []
    ensures Reg(Update(c, a), b, k) == Reg(c, a + b, k)
    decreases |b|, k
  {
    var front := b[..|b| - 1];
    if k == 0 {
      assert (a + b)[..|a + b| - 1] == a + front;
      if front != [] {
        RegAfter(c, a, front, BYTE_BITS);
      } else {
        assert a + front == a;
      }
    } else {
      RegAfter(c, a, b, k - 1);
    }
  }

  /** Feeding `a` and then `b` to a hasher leaves it as feeding `a + b` does:
      the streamed hash of consecutive records is the hash of their concatenation. */
  lemma UpdateAppend(c: u32, a: seq<byte>, b: seq<byte>)
    ensures Update(Update(c, a), b) == Update(c, a + b)
  {
    if b == [] {
      assert a + b == a;
    } else {
      RegAfter(c, a, b, BYTE_BITS);
    }
  }
}
