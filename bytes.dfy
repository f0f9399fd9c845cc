/**
 * Bytes, fixed-width unsigned integers and the `struct`/`bytearray`
 * primitives the container formats are written with: little- and big-endian
 * encodings, zero padding (`bytes.ljust(n, b'\x00')`), reads past the end of
 * a file, `struct.pack_into` and Python's slice assignment on a bytearray.
 */
module Bytes {

  /** A byte as Python sees it in a `bytes` object: an integer in 0..255. */
  type byte = x: int | 0 <= x < 0x100
  type u8 = x: int | 0 <= x < 0x100
  type u16 = x: int | 0 <= x < 0x1_0000
  type u32 = x: int | 0 <= x < 0x1_0000_0000
  type u64 = x: int | 0 <= x < 0x1_0000_0000_0000_0000

  /** The readable files: a path exists exactly when it is a key. */
  type FileSystem = map<string, seq<byte>>

  /** The bytes of the file at `path`; read only once the existence checks have passed. */
  function Contents(fs: FileSystem, path: string): seq<byte>
  {
    if path in fs then fs[path] else []
  }

  function Pow256(n: nat): (r: nat)
    ensures r >= 1
  {
    if n == 0 then 1 else 256 * Pow256(n - 1)
  }

  /** Little-endian encoding of `v` in `n` bytes (`struct` formats `<H`, `<I`, `<Q`). */
  function LeBytes(v: nat, n: nat): (r: seq<byte>)
    ensures |r| == n
  {
    if n == 0 then [] else [v % 256] + LeBytes(v / 256, n - 1)
  }

  /** The unsigned value of a little-endian byte string. */
  function LeValue(s: seq<byte>): (r: nat)
    ensures r < Pow256(|s|)
  {
    if s == [] then 0 else s[0] + 256 * LeValue(s[1..])
  }

  /** The unsigned value of a big-endian byte string (`struct` format `>I`). */
  function BeValue(s: seq<byte>): (r: nat)
    ensures r < Pow256(|s|)
  {
    if s == [] then 0 else 256 * BeValue(s[..|s| - 1]) + s[|s| - 1]
  }

  /** The big-endian value of four bytes, digit by digit. */
  lemma BeValueFour(s: seq<byte>)
    requires |s| == 4
    ensures BeValue(s) == ((s[0] as int * 256 + s[1]) * 256 + s[2]) * 256 + s[3]
  {
    assert s[..3][..2] == s[..2];
    assert s[..2][..1] == s[..1];
    assert s[..1][..0] == [];
  }

  function Le16(v: u16): (r: seq<byte>)
  {
    LeBytes(v, 2)
  }

  function Le32(v: u32): (r: seq<byte>)
  {
    LeBytes(v, 4)
  }

  lemma {:induction false} LeValueOfLeBytes(v: nat, n: nat)
    requires v < Pow256(n)
    ensures LeValue(LeBytes(v, n)) == v
  {
    if n > 0 {
      LeValueOfLeBytes(v / 256, n - 1);
      var s := LeBytes(v, n);
      assert s[1..] == LeBytes(v / 256, n - 1);
    }
  }

  lemma {:induction false} LeBytesOfLeValue(s: seq<byte>)
    ensures LeBytes(LeValue(s), |s|) == s
  {
    if s != [] {
      var v := LeValue(s);
      assert v == s[0] + 256 * LeValue(s[1..]);
      assert v % 256 == s[0];
      assert v / 256 == LeValue(s[1..]);
      LeBytesOfLeValue(s[1..]);
    }
  }

  /** Two byte strings of the same width with the same little-endian value are equal. */
  lemma LeValueInjective(a: seq<byte>, b: seq<byte>)
    requires |a| == |b| && LeValue(a) == LeValue(b)
    ensures a == b
  {
    LeBytesOfLeValue(a);
    LeBytesOfLeValue(b);
  }

  lemma Le16RoundTrip(v: u16)
    ensures |Le16(v)| == 2 && LeValue(Le16(v)) == v
  {
    LeValueOfLeBytes(v, 2);
  }

  lemma Le32RoundTrip(v: u32)
    ensures |Le32(v)| == 4 && LeValue(Le32(v)) == v
  {
    LeValueOfLeBytes(v, 4);
  }

  /** Bitwise exclusive or of the low `k` bits of `a` and `b` (Python `^` on non-negative ints). */
  function XorBits(a: nat, b: nat, k: nat): (r: nat)
    ensures r < Pow2(k)
  {
    if k == 0 then 0 else (a + b) % 2 + 2 * XorBits(a / 2, b / 2, k - 1)
  }

  function Pow2(k: nat): (r: nat)
    ensures r >= 1
  {
    if k == 0 then 1 else 2 * Pow2(k - 1)
  }

  lemma Pow2Eight()
    ensures Pow2(8) == 256
  {
  }

  /** `a ^ b` on two bytes. */
  function Xor(a: byte, b: byte): (r: byte)
  {
    Pow2Eight();
    XorBits(a, b, 8)
  }

  /** `x` written as a low bit `p` and the rest `q`. */
  lemma DivMod2(x: nat, p: nat, q: nat)
    requires p < 2 && x == p + 2 * q
    ensures x % 2 == p && x / 2 == q
  {
  }

  lemma HalfBelow(a: nat, k: nat)
    requires k > 0 && a < Pow2(k)
    ensures a / 2 < Pow2(k - 1)
  {
  }

  /** Adding `b` to `p + 2q` leaves the parity of `p + b`; with `p = (a + b) % 2` that is the parity of `a`. */
  lemma ParityTwice(a: nat, b: nat, c: nat, q: nat)
    requires c == (a + b) % 2 + 2 * q
    ensures (c + b) % 2 == a % 2
  {
  }

  lemma {:induction false} XorBitsTwice(a: nat, b: nat, k: nat)
    requires a < Pow2(k)
    ensures XorBits(XorBits(a, b, k), b, k) == a
  {
    if k > 0 {
      var c := XorBits(a, b, k);
      var rest := XorBits(a / 2, b / 2, k - 1);
      DivMod2(c, (a + b) % 2, rest);
      HalfBelow(a, k);
      XorBitsTwice(a / 2, b / 2, k - 1);
      ParityTwice(a, b, c, rest);
      var back := XorBits(c, b, k);
      assert back == (c + b) % 2 + 2 * XorBits(c / 2, b / 2, k - 1);
      assert back == a % 2 + 2 * (a / 2);
    }
  }

  /** Exclusive or with the same byte twice is the identity. */
  lemma XorTwice(a: byte, b: byte)
    ensures Xor(Xor(a, b), b) == a
  {
    Pow2Eight();
    XorBitsTwice(a, b, 8);
  }

  function Min(a: int, b: int): int
  {
    if a <= b then a else b
  }

  function Max(a: int, b: int): int
  {
    if a >= b then a else b
  }

  function Zeros(n: nat): (r: seq<byte>)
    ensures |r| == n && forall k :: 0 <= k < n ==> r[k] == 0
  {
    seq(n, _ => 0)
  }

  /** `s.ljust(n, b'\x00')`: pad on the right with zero bytes up to length `n`. */
  function PadRight(s: seq<byte>, n: nat): (r: seq<byte>)
    ensures |s| <= n ==> |r| == n
    ensures |s| >= n ==> r == s
    ensures r[..|s|] == s
    ensures forall k :: |s| <= k < |r| ==> r[k] == 0
  {
    if |s| >= n then s else s + Zeros(n - |s|)
  }

  /** `f.seek(off); f.read(n)` on a file holding `file`: short (or empty) past the end. */
  function ReadAt(file: seq<byte>, off: nat, n: nat): (r: seq<byte>)
    ensures |r| <= n
    ensures off + n <= |file| ==> r == file[off..off + n]
    ensures off >= |file| ==> r == []
  {
    if off >= |file| then []
    else if off + n <= |file| then file[off..off + n]
    else file[off..]
  }

  /** `struct.pack_into(fmt, buf, off, ...)` once `data` is the packed value: in place, in bounds. */
  function PackInto(buf: seq<byte>, off: nat, data: seq<byte>): (r: seq<byte>)
    requires off + |data| <= |buf|
    ensures |r| == |buf|
    ensures r[off..off + |data|] == data
    ensures forall k :: 0 <= k < |buf| && !(off <= k < off + |data|) ==> r[k] == buf[k]
  {
    buf[..off] + data + buf[off + |data|..]
  }

  /**
   * Python's `buf[off:off + len(data)] = data` on a bytearray: the slice is
   * clipped to the buffer, so a write that runs past the end grows it, and a
   * write that starts past the end is appended.
   */
  function WriteAt(buf: seq<byte>, off: nat, data: seq<byte>): (r: seq<byte>)
    ensures off <= |buf| ==> |r| == if off + |data| <= |buf| then |buf| else off + |data|
    ensures off <= |buf| ==> r[..off] == buf[..off] && r[off..off + |data|] == data
    ensures off + |data| <= |buf| ==> r[off + |data|..] == buf[off + |data|..]
    ensures off > |buf| ==> r == buf + data
  {
    if off + |data| <= |buf| then buf[..off] + data + buf[off + |data|..]
    else if off <= |buf| then buf[..off] + data
    else buf + data
  }

  /**
   * Python's `buf[lo:hi] = data` on a bytearray, for `lo <= hi`: the slice,
   * clipped to the buffer, is replaced by `data`, which may be shorter or
   * longer than it, so the buffer can shrink or grow.
   */
  function SliceAssign(buf: seq<byte>, lo: nat, hi: nat, data: seq<byte>): (r: seq<byte>)
    requires lo <= hi
    ensures hi <= |buf| ==> r == buf[..lo] + data + buf[hi..]
    ensures |r| == |buf| - (Min(hi, |buf|) - Min(lo, |buf|)) + |data|
  {
    buf[..Min(lo, |buf|)] + data + buf[Min(hi, |buf|)..]
  }

  /** `bytes` lies at offset `at` of `img`. */
  predicate SliceIs(img: seq<byte>, at: nat, bytes: seq<byte>)
  {
    at + |bytes| <= |img| && img[at..at + |bytes|] == bytes
  }

  /** The regions `[a, a + m)` and `[b, b + n)` do not overlap. */
  predicate Apart(a: nat, m: nat, b: nat, n: nat)
  {
    a + m <= b || b + n <= a
  }

  lemma SliceIsConcat(img: seq<byte>, at: nat, x: seq<byte>, y: seq<byte>)
    requires SliceIs(img, at, x) && SliceIs(img, at + |x|, y)
    ensures SliceIs(img, at, x + y)
  {
    assert img[at..at + |x + y|] == img[at..at + |x|] + img[at + |x|..at + |x| + |y|];
  }

  /** A field packed elsewhere leaves a slice as it was. */
  lemma PackIntoKeeps(buf: seq<byte>, off: nat, data: seq<byte>, at: nat, bytes: seq<byte>)
    requires off + |data| <= |buf|
    requires SliceIs(buf, at, bytes) && Apart(at, |bytes|, off, |data|)
    ensures SliceIs(PackInto(buf, off, data), at, bytes)
  {
    var r := PackInto(buf, off, data);
    forall k | 0 <= k < |bytes|
      ensures r[at..at + |bytes|][k] == bytes[k]
    {
      assert r[at + k] == buf[at + k];
      assert buf[at..at + |bytes|][k] == buf[at + k];
    }
  }

  /** Two adjacent fields packed one after the other are the two packed at once. */
  lemma PackIntoConcat(buf: seq<byte>, off: nat, x: seq<byte>, y: seq<byte>)
    requires off + |x| + |y| <= |buf|
    ensures PackInto(PackInto(buf, off, x), off + |x|, y) == PackInto(buf, off, x + y)
  {
    var r1 := PackInto(PackInto(buf, off, x), off + |x|, y);
    var r2 := PackInto(buf, off, x + y);
    assert |r1| == |r2|;
    forall k | 0 <= k < |r1|
      ensures r1[k] == r2[k]
    {
      if off <= k < off + |x| {
        assert r1[off..off + |x|][k - off] == x[k - off];
        assert r2[off..off + |x| + |y|][k - off] == (x + y)[k - off];
      } else if off + |x| <= k < off + |x| + |y| {
        assert r1[off + |x|..off + |x| + |y|][k - off - |x|] == y[k - off - |x|];
        assert r2[off..off + |x| + |y|][k - off] == (x + y)[k - off];
      }
    }
  }

  /** Data written at or after the end of a slice leaves it as it was. */
  lemma WriteAtKeeps(buf: seq<byte>, off: nat, data: seq<byte>, at: nat, bytes: seq<byte>)
    requires off <= |buf|
    requires SliceIs(buf, at, bytes) && at + |bytes| <= off
    ensures SliceIs(WriteAt(buf, off, data), at, bytes)
  {
    var r := WriteAt(buf, off, data);
    assert r[at..at + |bytes|] == r[..off][at..at + |bytes|];
    assert buf[at..at + |bytes|] == buf[..off][at..at + |bytes|];
  }

  lemma ZerosSlice(n: nat, a: nat, b: nat)
    requires a <= b <= n
    ensures Zeros(n)[a..b] == Zeros(b - a)
  {
    assert forall k :: 0 <= k < b - a ==> Zeros(n)[a..b][k] == Zeros(n)[a + k];
  }

  // ---------------------------------------------------------- arithmetic

  /** Floor division by a positive divisor, as Python's `//` and Dafny's `/` both compute it. */
  lemma DivBounds(x: int, a: int)
    requires a > 0
    ensures (x / a) * a <= x < (x / a) * a + a
    ensures ((x / a) * a) % a == 0
  {
  }

  lemma MultiplesApart(r: int, m: int, a: int)
    requires a > 0 && r % a == 0 && m % a == 0 && m < r
    ensures m <= r - a
  {
    var qr, qm := r / a, m / a;
    assert r == qr * a && m == qm * a;
    if qr <= qm {
      MulMonotone(qr, qm, a);
    }
    MulMonotone(qm + 1, qr, a);
    assert (qm + 1) * a == m + a;
  }

  lemma MulMonotone(x: int, y: int, a: int)
    requires x <= y && a > 0
    ensures x * a <= y * a
  {
    assert y * a - x * a == (y - x) * a;
  }

  lemma Pow256Widths()
    ensures Pow256(1) == 0x100 && Pow256(2) == 0x1_0000 && Pow256(4) == 0x1_0000_0000
  {
    assert Pow256(2) == 0x1_0000;
  }

  /** Slicing lemmas stated once for any element type, so that callers need not re-derive them by extensionality. */
  lemma DropConcat<T>(a: seq<T>, b: seq<T>, n: nat)
    requires |a| <= n <= |a| + |b|
    ensures (a + b)[n..] == b[n - |a|..]
  {
  }

  lemma TakeConcat<T>(a: seq<T>, b: seq<T>, n: nat)
    requires n <= |a|
    ensures (a + b)[..n] == a[..n]
  {
  }

  lemma DropDrop<T>(s: seq<T>, m: nat, n: nat)
    requires m + n <= |s|
    ensures s[m..][n..] == s[m + n..]
  {
  }

  lemma SliceOfDrop<T>(s: seq<T>, m: nat, n: nat)
    requires m + n <= |s|
    ensures s[m..][..n] == s[m..m + n]
  {
  }

  lemma ConcatAssoc<T>(a: seq<T>, b: seq<T>, c: seq<T>)
    ensures (a + b) + c == a + (b + c)
  {
  }

  lemma TakeExtend<T>(s: seq<T>, m: nat, n: nat)
    requires m <= n <= |s|
    ensures s[..n] == s[..m] + s[m..n]
  {
  }

  lemma SliceLeft<T>(a: seq<T>, b: seq<T>, i: nat, j: nat)
    requires i <= j <= |a|
    ensures (a + b)[i..j] == a[i..j]
  {
  }

  lemma SliceRight<T>(a: seq<T>, b: seq<T>, i: nat, j: nat)
    requires |a| <= i <= j <= |a| + |b|
    ensures (a + b)[i..j] == b[i - |a|..j - |a|]
  {
  }

  lemma DropSlice<T>(s: seq<T>, k: nat, i: nat, j: nat)
    requires k <= |s| && i <= j <= |s| - k
    ensures s[k..][i..j] == s[k + i..k + j]
  {
  }

  lemma SliceOfSlice<T>(s: seq<T>, lo: nat, hi: nat, i: nat, j: nat)
    requires lo <= hi <= |s| && i <= j <= hi - lo
    ensures s[lo..hi][i..j] == s[lo + i..lo + j]
  {
    var a := s[lo..hi];
    var b := a[i..j];
    assert |b| == j - i;
    assert forall m :: 0 <= m < j - i ==> b[m] == a[i + m] == s[lo + i + m];
  }

  /** Where each of four concatenated pieces sits. */
  lemma InFirst<T>(a: seq<T>, b: seq<T>, c: seq<T>, d: seq<T>)
    ensures (a + b + c + d)[..|a|] == a
  {
    TakeConcat(a + b + c, d, |a|);
    TakeConcat(a + b, c, |a|);
    TakeConcat(a, b, |a|);
  }

  lemma InSecond<T>(a: seq<T>, b: seq<T>, c: seq<T>, d: seq<T>, i: nat, j: nat)
    requires i <= j <= |b|
    ensures |a| + j <= |a + b + c + d|
    ensures (a + b + c + d)[|a| + i..|a| + j] == b[i..j]
  {
    SliceLeft(a + b + c, d, |a| + i, |a| + j);
    SliceLeft(a + b, c, |a| + i, |a| + j);
    SliceRight(a, b, |a| + i, |a| + j);
  }

  lemma InThird<T>(a: seq<T>, b: seq<T>, c: seq<T>, d: seq<T>, i: nat, j: nat)
    requires i <= j <= |c|
    ensures |a| + |b| + j <= |a + b + c + d|
    ensures (a + b + c + d)[|a| + |b| + i..|a| + |b| + j] == c[i..j]
  {
    SliceLeft(a + b + c, d, |a| + |b| + i, |a| + |b| + j);
    SliceRight(a + b, c, |a| + |b| + i, |a| + |b| + j);
  }

  lemma InFourth<T>(a: seq<T>, b: seq<T>, c: seq<T>, d: seq<T>, i: nat, j: nat)
    requires i <= j <= |d|
    ensures |a| + |b| + |c| + j <= |a + b + c + d|
    ensures (a + b + c + d)[|a| + |b| + |c| + i..|a| + |b| + |c| + j] == d[i..j]
  {
    SliceRight(a + b + c, d, |a| + |b| + |c| + i, |a| + |b| + |c| + j);
  }

  /** A piece found inside the middle or the last of three concatenated pieces, at the offset given. */
  lemma PieceInMiddle<T>(whole: seq<T>, a: seq<T>, b: seq<T>, c: seq<T>, lo: nat, p: seq<T>, off: int, size: int)
    requires whole == a + b + c
    requires lo + |p| <= |b| && b[lo..lo + |p|] == p
    requires off == |a| + lo && size == |p|
    ensures 0 <= off && off + size <= |whole| && whole[off..off + size] == p
  {
    SliceLeft(a + b, c, off, off + size);
    SliceRight(a, b, off, off + size);
  }

  lemma PieceInLast<T>(whole: seq<T>, a: seq<T>, b: seq<T>, c: seq<T>, lo: nat, p: seq<T>, off: int, size: int)
    requires whole == a + b + c
    requires lo + |p| <= |c| && c[lo..lo + |p|] == p
    requires off == |a| + |b| + lo && size == |p|
    ensures 0 <= off && off + size <= |whole| && whole[off..off + size] == p
  {
    SliceRight(a + b, c, off, off + size);
  }

  lemma TakeSnoc<T>(s: seq<T>, i: nat)
    requires i < |s|
    ensures s[..i + 1] == s[..i] + [s[i]]
  {
  }

  /** The chunks written one after the other. */
  function Flatten<T>(chunks: seq<seq<T>>): (r: seq<T>)
  {
    if chunks == [] then [] else Flatten(chunks[..|chunks| - 1]) + chunks[|chunks| - 1]
  }

  lemma FlattenSnoc<T>(chunks: seq<seq<T>>, k: nat)
    requires k < |chunks|
    ensures Flatten(chunks[..k + 1]) == Flatten(chunks[..k]) + chunks[k]
  {
    assert chunks[..k + 1][..k] == chunks[..k];
  }

  /** The `k`-th chunk sits right after the first `k`. */
  lemma {:induction false} FlattenAt<T>(chunks: seq<seq<T>>, k: nat)
    requires k < |chunks|
    ensures var lo := |Flatten(chunks[..k])|;
      lo + |chunks[k]| <= |Flatten(chunks)| && Flatten(chunks)[lo..lo + |chunks[k]|] == chunks[k]
  {
    var n := |chunks|;
    var front := Flatten(chunks[..n - 1]);
    var lo := |Flatten(chunks[..k])|;
    if k < n - 1 {
      FlattenAt(chunks[..n - 1], k);
      assert chunks[..n - 1][..k] == chunks[..k];
      SliceLeft(front, chunks[n - 1], lo, lo + |chunks[k]|);
    } else {
      assert chunks[..n - 1] == chunks[..k];
      SliceRight(front, chunks[n - 1], lo, lo + |chunks[k]|);
    }
  }
}
