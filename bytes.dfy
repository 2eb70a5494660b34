/** Fixed-width unsigned integers, Go's wrap-around arithmetic on them, and the
    little-endian byte encoding of encoding/binary on which every on-disk
    layout of this model is built. */
module Bytes {

  type byte = x: int | 0 <= x < 0x100
  type u16 = x: int | 0 <= x < 0x1_0000
  type u32 = x: int | 0 <= x < 0x1_0000_0000
  type u64 = x: int | 0 <= x < 0x1_0000_0000_0000_0000
  type i64 = x: int | -0x8000_0000_0000_0000 <= x < 0x8000_0000_0000_0000

  /** disk.BlockSize: the size of one logical block in bytes. */
  const BLOCK_SIZE: nat := 512

  const TWO_32: int := 0x1_0000_0000
  const TWO_63: int := 0x8000_0000_0000_0000
  const TWO_64: int := 0x1_0000_0000_0000_0000

  /** Go's `a - b` on uint64. */
  function Sub64(a: u64, b: u64): (r: u64)
    ensures a >= b ==> r == a - b
    ensures a < b ==> r == a - b + TWO_64
  {
    (a - b) % TWO_64
  }

  /** Go's `a + b` on uint64. */
  function Add64(a: u64, b: u64): (r: u64)
    ensures a + b < TWO_64 ==> r == a + b
    ensures a + b >= TWO_64 ==> r == a + b - TWO_64
  {
    (a + b) % TWO_64
  }

  /** Go's `a * b` on uint64: the product modulo 2^64. */
  function Mul64(a: u64, b: u64): (r: u64)
    ensures a * b < TWO_64 ==> r == a * b
  {
    var p := a * b;
    if p < TWO_64 then p else p % TWO_64
  }

  /** Go's `uint32(n)` for a non-negative length: the low 32 bits. */
  function Trunc32(n: nat): (r: u32)
    ensures r <= n
    ensures n < TWO_32 ==> r == n
  {
    n % TWO_32
  }

  /** Go's `int64(x)` for a uint64 `x`: values with the top bit set become negative. */
  function ToInt64(x: u64): (r: i64)
    ensures 0 <= r <==> x < TWO_63
    ensures r == x || r == x - TWO_64
  {
    if x < TWO_63 then x else x - TWO_64
  }

  /** 256 to the power `k`: the number of values a `k`-byte field can hold. */
  function Pow256(k: nat): (r: nat)
    ensures r >= 1
  {
    if k == 0 then 1 else 256 * Pow256(k - 1)
  }

  lemma Pow256Widths()
    ensures Pow256(2) == 0x1_0000
    ensures Pow256(4) == TWO_32
    ensures Pow256(8) == TWO_64
  {
  }

  /** The `k`-byte little-endian encoding of `n` (binary.LittleEndian.PutUintN);
      bits of `n` above the `k` bytes are dropped. */
  function ToLE(n: nat, k: nat): (r: seq<byte>)
    ensures |r| == k
  {
    if k == 0 then [] else [n % 256] + ToLE(n / 256, k - 1)
  }

  /** The value of a little-endian byte string (binary.LittleEndian.UintN). */
  function FromLE(s: seq<byte>): (n: nat)
    ensures n < Pow256(|s|)
  {
    if s == [] then 0 else s[0] + 256 * FromLE(s[1..])
  }

  /** binary.LittleEndian.Uint16, Uint32 and Uint64 on a slice of exactly the width. */
  function Uint16(s: seq<byte>): u16
    requires |s| == 2
  {
    Pow256Widths();
    FromLE(s)
  }

  function Uint32(s: seq<byte>): u32
    requires |s| == 4
  {
    Pow256Widths();
    FromLE(s)
  }

  function Uint64(s: seq<byte>): u64
    requires |s| == 8
  {
    Pow256Widths();
    FromLE(s)
  }

  lemma {:induction false} FromLEToLE(n: nat, k: nat)
    requires n < Pow256(k)
    ensures FromLE(ToLE(n, k)) == n
  {
    if k > 0 {
      FromLEToLE(n / 256, k - 1);
    }
  }

  lemma {:induction false} ToLEFromLE(s: seq<byte>)
    ensures ToLE(FromLE(s), |s|) == s
  {
    if s != [] {
      var rest := FromLE(s[1..]);
      assert (s[0] + 256 * rest) % 256 == s[0];
      assert (s[0] + 256 * rest) / 256 == rest;
      ToLEFromLE(s[1..]);
    }
  }

  /** Two byte strings of equal length are equal exactly when their values are. */
  lemma FromLEInjective(s: seq<byte>, t: seq<byte>)
    requires |s| == |t|
    ensures FromLE(s) == FromLE(t) <==> s == t
  {
    if FromLE(s) == FromLE(t) {
      ToLEFromLE(s);
      ToLEFromLE(t);
    }
  }

  /** A field decodes to the constant `c` exactly when it holds the encoding of `c`. */
  lemma FromLEIsConstant(s: seq<byte>, c: nat)
    requires c < Pow256(|s|)
    ensures FromLE(s) == c <==> s == ToLE(c, |s|)
  {
    FromLEToLE(c, |s|);
    FromLEInjective(s, ToLE(c, |s|));
  }

  function Zeros(k: nat): (r: seq<byte>)
    ensures |r| == k
    ensures forall i :: 0 <= i < k ==> r[i] == 0
  {
    seq(k, i => 0)
  }

  lemma ZerosConcat(a: nat, b: nat)
    ensures Zeros(a) + Zeros(b) == Zeros(a + b)
  {
  }

  lemma ZerosEncodeZero(k: nat)
    ensures ToLE(0, k) == Zeros(k)
    ensures FromLE(Zeros(k)) == 0
  {
    FromLEToLE(0, k);
    ToLEOfZero(k);
  }

  lemma {:induction false} ToLEOfZero(k: nat)
    ensures ToLE(0, k) == Zeros(k)
  {
    if k > 0 {
      ToLEOfZero(k - 1);
      assert ToLE(0, k) == [0] + Zeros(k - 1);
    }
  }

  /** `s` with the bytes at `off .. off + |src|` replaced by `src`: the effect of a
      Go `copy` or `PutUintN` into a slice of a buffer. */
  function Splice(s: seq<byte>, off: nat, src: seq<byte>): (r: seq<byte>)
    requires off + |src| <= |s|
    ensures |r| == |s|
    ensures r[off..off + |src|] == src
    ensures forall i :: 0 <= i < |s| && !(off <= i < off + |src|) ==> r[i] == s[i]
  {
    s[..off] + src + s[off + |src|..]
  }

  /** Writing right after an already written prefix extends the prefix. */
  lemma SpliceAfter(p: seq<byte>, rest: seq<byte>, src: seq<byte>)
    requires |src| <= |rest|
    ensures Splice(p + rest, |p|, src) == p + src + rest[|src|..]
  {
    assert (p + rest)[..|p|] == p;
    assert (p + rest)[|p| + |src|..] == rest[|src|..];
  }

  /** Reading a region that a splice did not touch gives the old bytes. */
  lemma SpliceElsewhere(s: seq<byte>, off: nat, src: seq<byte>, a: nat, b: nat)
    requires off + |src| <= |s| && a <= b <= |s|
    requires b <= off || off + |src| <= a
    ensures Splice(s, off, src)[a..b] == s[a..b]
  {
  }

  /** Two writes to adjacent regions, in order, are one write of both. */
  lemma SpliceConcat(s: seq<byte>, off: nat, done: seq<byte>, x: seq<byte>)
    requires off + |done| + |x| <= |s|
    ensures Splice(Splice(s, off, done), off + |done|, x) == Splice(s, off, done + x)
  {
    var t := Splice(s, off, done);
    assert t[..off + |done|] == s[..off] + done;
    assert t[off + |done| + |x|..] == s[off + |done| + |x|..];
  }

  /** A write that falls inside the prefix leaves the suffix alone. */
  lemma SplicePrefix(p: seq<byte>, rest: seq<byte>, off: nat, src: seq<byte>)
    requires off + |src| <= |p|
    ensures Splice(p + rest, off, src) == Splice(p, off, src) + rest
  {
    assert (p + rest)[..off] == p[..off];
    assert (p + rest)[off + |src|..] == p[off + |src|..] + rest;
  }

  /** Overwriting one field of a layout replaces exactly that field. */
  lemma SpliceMiddle(p: seq<byte>, x: seq<byte>, q: seq<byte>, y: seq<byte>)
    requires |x| == |y|
    ensures Splice(p + x + q, |p|, y) == p + y + q
  {
    assert (p + x + q)[..|p|] == p;
    assert (p + x + q)[|p| + |y|..] == q;
  }

  /** Two adjacent slices make up the slice that spans them. */
  lemma SliceSplit(s: seq<byte>, a: nat, b: nat, c: nat)
    requires a <= b <= c <= |s|
    ensures s[a..c] == s[a..b] + s[b..c]
  {
  }

  /** A slice inside the first part of a concatenation. */
  lemma SliceOfPrefix<T>(a: seq<T>, b: seq<T>, lo: nat, hi: nat)
    requires lo <= hi <= |a|
    ensures (a + b)[lo..hi] == a[lo..hi]
  {
  }

  /** A slice inside a prefix of a sequence. */
  lemma SliceOfTake<T>(s: seq<T>, n: nat, lo: nat, hi: nat)
    requires lo <= hi <= n <= |s|
    ensures s[..n][lo..hi] == s[lo..hi]
  {
    assert forall k :: 0 <= k < hi - lo ==> s[..n][lo..hi][k] == s[lo + k];
  }

  /** The first `i + 1` elements are the first `i` followed by element `i`. */
  lemma TakeNext<T>(s: seq<T>, i: nat)
    requires i < |s|
    ensures s[..i + 1] == s[..i] + [s[i]]
  {
  }

  /** A slice of a slice is a slice of the original. */
  lemma SubSlice(s: seq<byte>, lo: nat, hi: nat, i: nat, j: nat)
    requires lo <= hi <= |s| && i <= j <= hi - lo
    ensures s[lo..hi][i..j] == s[lo + i..lo + j]
  {
    assert forall k :: 0 <= k < j - i ==> s[lo..hi][i..j][k] == s[lo + i + k];
  }

  /** Where the parts of a four-part layout lie. */
  lemma Parts4(a: seq<byte>, b: seq<byte>, c: seq<byte>, d: seq<byte>)
    ensures var s := a + b + c + d;
      && s[0..|a|] == a
      && s[|a|..|a| + |b|] == b
      && s[|a| + |b|..|a| + |b| + |c|] == c
      && s[|a| + |b| + |c|..|s|] == d
  {
    var s := a + b + c + d;
    assert s == (a + b + c) + d;
    assert s[0..|a|] == (a + b + c)[0..|a|];
    assert s[|a|..|a| + |b|] == (a + b + c)[|a|..|a| + |b|];
    assert s[|a| + |b|..|a| + |b| + |c|] == (a + b + c)[|a| + |b|..|a| + |b| + |c|];
  }

  /** Where the parts of a five-part layout lie. */
  lemma Parts5(a: seq<byte>, b: seq<byte>, c: seq<byte>, d: seq<byte>, e: seq<byte>)
    ensures var s := a + b + c + d + e;
      && s[0..|a|] == a
      && s[|a|..|a| + |b|] == b
      && s[|a| + |b|..|a| + |b| + |c|] == c
      && s[|a| + |b| + |c|..|a| + |b| + |c| + |d|] == d
      && s[|a| + |b| + |c| + |d|..|s|] == e
  {
    var s := a + b + c + d + e;
    Parts4(a, b, c, d);
    var t := a + b + c + d;
    assert s[0..|t|] == t;
    SubSlice(s, 0, |t|, 0, |a|);
    SubSlice(s, 0, |t|, |a|, |a| + |b|);
    SubSlice(s, 0, |t|, |a| + |b|, |a| + |b| + |c|);
    SubSlice(s, 0, |t|, |a| + |b| + |c|, |t|);
  }

  /** Where record `i` of an array of `size`-byte records starts: `i * size`,
      counted out one record at a time. */
  function RecordOffset(i: nat, size: nat): nat
  {
    if i == 0 then 0 else RecordOffset(i - 1, size) + size
  }

  lemma {:induction false} RecordOffsetIsProduct(i: nat, size: nat)
    ensures RecordOffset(i, size) == i * size
  {
    if i > 0 {
      RecordOffsetIsProduct(i - 1, size);
      assert i * size == (i - 1) * size + size;
    }
  }

  /** Every record before the `n`th ends within the first `n` records. */
  lemma {:induction false} RecordBefore(i: nat, n: nat, size: nat)
    requires i < n
    ensures RecordOffset(i, size) + size <= RecordOffset(n, size)
  {
    if i < n - 1 {
      RecordBefore(i, n - 1, size);
    }
  }

  /** Records written one after another. */
  function Join(recs: seq<seq<byte>>): seq<byte>
  {
    if recs == [] then [] else Join(recs[..|recs| - 1]) + recs[|recs| - 1]
  }

  predicate Uniform(recs: seq<seq<byte>>, size: nat)
  {
    forall j :: 0 <= j < |recs| ==> |recs[j]| == size
  }

  lemma {:induction false} JoinLength(recs: seq<seq<byte>>, size: nat)
    requires Uniform(recs, size)
    ensures |Join(recs)| == RecordOffset(|recs|, size)
  {
    if recs != [] {
      JoinLength(recs[..|recs| - 1], size);
    }
  }

  /** One more record extends the joined bytes by that record. */
  lemma JoinAppend(recs: seq<seq<byte>>, rec: seq<byte>)
    ensures Join(recs + [rec]) == Join(recs) + rec
  {
    assert (recs + [rec])[..|recs|] == recs;
  }

  lemma UniformAppend(recs: seq<seq<byte>>, rec: seq<byte>, size: nat)
    requires Uniform(recs, size) && |rec| == size
    ensures Uniform(recs + [rec], size)
  {
  }

  /** Record `i` of the joined bytes is `recs[i]`. */
  lemma {:induction false} JoinAt(recs: seq<seq<byte>>, size: nat, i: nat)
    requires Uniform(recs, size) && i < |recs|
    ensures RecordOffset(i, size) + size <= |Join(recs)|
    ensures Join(recs)[RecordOffset(i, size)..RecordOffset(i, size) + size] == recs[i]
  {
    var n := |recs| - 1;
    var init := Join(recs[..n]);
    JoinLength(recs[..n], size);
    JoinLength(recs, size);
    if i < n {
      JoinAt(recs[..n], size, i);
      RecordBefore(i, n, size);
      SliceOfPrefix(init, recs[n], RecordOffset(i, size), RecordOffset(i, size) + size);
    } else {
      assert (init + recs[n])[|init|..|init| + |recs[n]|] == recs[n];
    }
  }

  /** Cuts `count` consecutive `size`-byte records out of `bytes`. */
  function Split(bytes: seq<byte>, size: nat, count: nat): (recs: seq<seq<byte>>)
    requires |bytes| == RecordOffset(count, size)
    ensures |recs| == count && Uniform(recs, size)
    decreases count
  {
    if count == 0 then []
    else
      var last := RecordOffset(count - 1, size);
      Split(bytes[..last], size, count - 1) + [bytes[last..]]
  }

  /** Record `i` is bytes `i * size` to `(i + 1) * size`. */
  lemma {:induction false} SplitAt(bytes: seq<byte>, size: nat, count: nat, i: nat)
    requires |bytes| == RecordOffset(count, size) && i < count
    ensures RecordOffset(i, size) + size <= |bytes|
    ensures Split(bytes, size, count)[i] == bytes[RecordOffset(i, size)..RecordOffset(i, size) + size]
    decreases count
  {
    var o := RecordOffset(i, size);
    var last := RecordOffset(count - 1, size);
    var init := bytes[..last];
    if i < count - 1 {
      SplitAt(init, size, count - 1, i);
      RecordBefore(i, count - 1, size);
      SliceOfTake(bytes, last, o, o + size);
    } else {
      assert bytes[last..] == bytes[o..o + size];
    }
  }

  /** Splitting joined records gives the records back. */
  lemma SplitJoin(recs: seq<seq<byte>>, size: nat)
    requires Uniform(recs, size)
    ensures |Join(recs)| == RecordOffset(|recs|, size)
    ensures Split(Join(recs), size, |recs|) == recs
  {
    JoinLength(recs, size);
    forall i | 0 <= i < |recs|
      ensures Split(Join(recs), size, |recs|)[i] == recs[i]
    {
      SplitAt(Join(recs), size, |recs|, i);
      JoinAt(recs, size, i);
    }
  }

  /** Copies `src` into `data` at `off`; nothing else changes. */
  method Blit(data: array<byte>, off: nat, src: seq<byte>)
    requires off + |src| <= data.Length
    modifies data
    ensures data[..] == Splice(old(data[..]), off, src)
  {
    forall i | 0 <= i < |src| {
      data[off + i] := src[i];
    }
  }
}
