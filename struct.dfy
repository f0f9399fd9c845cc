/**
 * Python's `struct.pack` and `struct.unpack` for the formats the container
 * tools use: a `<` format of unsigned fields `B`, `H`, `I` and `Q`, here
 * written as the list of the fields' byte widths (`"<HBBBBB"` is
 * `[2, 1, 1, 1, 1, 1]`).  Packing raises `struct.error` when the number of
 * values differs from the number of fields or a value does not fit its
 * field; unpacking raises it unless the buffer has exactly the format's size.
 */
module Struct {
  import opened Bytes
  import opened Results

  /** The byte widths of the fields of a little-endian, unsigned `struct` format. */
  type Format = seq<nat>

  /** `struct.calcsize(fmt)`: `<` formats have no alignment padding. */
  function CalcSize(fmt: Format): (r: nat)
  {
    SizeFrom(fmt, 0)
  }

  /** The total width of the fields from the `i`-th on. */
  function SizeFrom(fmt: Format, i: nat): (r: nat)
    requires i <= |fmt|
    decreases |fmt| - i
  {
    if i == |fmt| then 0 else fmt[i] + SizeFrom(fmt, i + 1)
  }

  /** The fields of `fmt` from `j + k` on are those of `fmt[j..]` from `k` on. */
  lemma {:induction false} SizeFromSuffix(fmt: Format, j: nat, k: nat)
    requires j + k <= |fmt|
    ensures SizeFrom(fmt, j + k) == SizeFrom(fmt[j..], k)
    decreases |fmt| - j - k
  {
    if j + k < |fmt| {
      SizeFromSuffix(fmt, j, k + 1);
      assert fmt[j..][k] == fmt[j + k];
    }
  }

  /** The first field's width plus the rest's. */
  lemma CalcSizeCons(fmt: Format)
    requires fmt != []
    ensures CalcSize(fmt) == fmt[0] + CalcSize(fmt[1..])
  {
    SizeFromSuffix(fmt, 1, 0);
  }

  /** Every value is present and fits its field. */
  predicate Fits(fmt: Format, values: seq<int>)
  {
    |values| == |fmt| && forall i :: 0 <= i < |fmt| ==> 0 <= values[i] < Pow256(fmt[i])
  }

  /** `n` copies of the width `w` (the format `"<20H"` is `Repeat(2, 20)`). */
  function Repeat(w: nat, n: nat): (r: Format)
    ensures |r| == n && forall i :: 0 <= i < n ==> r[i] == w
  {
    seq(n, _ => w)
  }

  lemma {:induction false} SizeFromRepeat(w: nat, n: nat, i: nat)
    requires i <= n
    ensures SizeFrom(Repeat(w, n), i) == w * (n - i)
    decreases n - i
  {
    if i < n {
      SizeFromRepeat(w, n, i + 1);
      assert w * (n - i) == w + w * (n - (i + 1));
    }
  }

  lemma CalcSizeRepeat(w: nat, n: nat)
    ensures CalcSize(Repeat(w, n)) == w * n
  {
    SizeFromRepeat(w, n, 0);
  }

  /** Single-byte fields (`"<BB"`, `"<4B"`) unpack to the bytes themselves. */
  lemma {:induction false} DecodeBytes(data: seq<byte>)
    ensures CalcSize(Repeat(1, |data|)) == |data|
    ensures |Decode(Repeat(1, |data|), data)| == |data|
    ensures forall i :: 0 <= i < |data| ==> Decode(Repeat(1, |data|), data)[i] == data[i]
  {
    CalcSizeRepeat(1, |data|);
    if data != [] {
      var fmt := Repeat(1, |data|);
      CalcSizeCons(fmt);
      assert fmt[1..] == Repeat(1, |data| - 1);
      assert data[..1] == [data[0]];
      assert LeValue(data[..1]) == data[0] by {
        assert data[..1][1..] == [];
      }
      DecodeBytes(data[1..]);
    }
  }

  /** The packed bytes: each value in little-endian order in its field's width. */
  function Encode(fmt: Format, values: seq<int>): (r: seq<byte>)
    requires Fits(fmt, values)
    ensures |r| == CalcSize(fmt)
  {
    if fmt == [] then [] else CalcSizeCons(fmt); LeBytes(values[0], fmt[0]) + Encode(fmt[1..], values[1..])
  }

  /** The field values of a buffer of exactly the format's size. */
  function Decode(fmt: Format, data: seq<byte>): (r: seq<nat>)
    requires |data| == CalcSize(fmt)
    ensures Fits(fmt, r)
  {
    if fmt == [] then [] else CalcSizeCons(fmt); [LeValue(data[..fmt[0]])] + Decode(fmt[1..], data[fmt[0]..])
  }

  /** The values after the first fit the fields after the first. */
  lemma FitsTail(fmt: Format, values: seq<int>)
    requires Fits(fmt, values) && fmt != []
    ensures Fits(fmt[1..], values[1..])
  {
    forall i | 0 <= i < |fmt| - 1
      ensures 0 <= values[1..][i] < Pow256(fmt[1..][i])
    {
      assert values[1..][i] == values[i + 1] && fmt[1..][i] == fmt[i + 1];
    }
  }

  /** The `i`-th value is packed at the sum of the widths before it. */
  lemma {:induction false} EncodeField(fmt: Format, values: seq<int>, i: nat)
    requires Fits(fmt, values) && i < |fmt|
    ensures CalcSize(fmt[..i]) + fmt[i] <= CalcSize(fmt)
    ensures Encode(fmt, values)[CalcSize(fmt[..i])..CalcSize(fmt[..i]) + fmt[i]] == LeBytes(values[i], fmt[i])
  {
    CalcSizeCons(fmt);
    if i == 0 {
      assert fmt[..0] == [];
      TakeConcat(LeBytes(values[0], fmt[0]), Encode(fmt[1..], values[1..]), fmt[0]);
    } else {
      var head := LeBytes(values[0], fmt[0]);
      FitsTail(fmt, values);
      var tail := Encode(fmt[1..], values[1..]);
      EncodeField(fmt[1..], values[1..], i - 1);
      var before := CalcSize(fmt[1..][..i - 1]);
      CalcSizeCons(fmt[..i]);
      assert fmt[..i][1..] == fmt[1..][..i - 1];
      assert CalcSize(fmt[..i]) == fmt[0] + before;
      assert fmt[1..][i - 1] == fmt[i] && values[1..][i - 1] == values[i];
      SliceRight(head, tail, fmt[0] + before, fmt[0] + before + fmt[i]);
    }
  }

  /** `struct.pack(fmt, *values)`. */
  function Pack(fmt: Format, values: seq<int>): (r: Result<seq<byte>>)
    ensures r.Success? <==> Fits(fmt, values)
    ensures r.Success? ==> |r.value| == CalcSize(fmt)
  {
    if Fits(fmt, values) then Success(Encode(fmt, values)) else Failure(StructError)
  }

  /**
   * `struct.pack_into("<H", buf, off, v)` (width 2) or `"<I"` (width 4):
   * struct.error unless `v` fits the field and the field lies in the buffer.
   */
  function PackField(buf: seq<byte>, off: nat, width: nat, v: int): (r: Result<seq<byte>>)
    ensures r.Success? <==> 0 <= v < Pow256(width) && off + width <= |buf|
    ensures r.Failure? ==> r.error == StructError
  {
    if 0 <= v < Pow256(width) && off + width <= |buf| then Success(PackInto(buf, off, LeBytes(v, width)))
    else Failure(StructError)
  }

  /** `data` cut or zero-padded to `n` bytes, as a `"<Ns"` field holds it. */
  function FixedBytes(data: seq<byte>, n: nat): (r: seq<byte>)
    ensures |r| == n
    ensures r[..Min(|data|, n)] == data[..Min(|data|, n)]
    ensures forall k :: |data| <= k < n ==> r[k] == 0
  {
    if |data| >= n then data[..n] else PadRight(data, n)
  }

  /** `struct.pack_into("<Ns", buf, off, data)`: struct.error unless the field lies in the buffer. */
  function PackBytes(buf: seq<byte>, off: nat, n: nat, data: seq<byte>): (r: Result<seq<byte>>)
    ensures r.Success? <==> off + n <= |buf|
    ensures r.Failure? ==> r.error == StructError
  {
    if off + n <= |buf| then Success(PackInto(buf, off, FixedBytes(data, n))) else Failure(StructError)
  }

  /** `struct.unpack(fmt, data)`. */
  function Unpack(fmt: Format, data: seq<byte>): (r: Result<seq<nat>>)
    ensures r.Success? <==> |data| == CalcSize(fmt)
    ensures r.Success? ==> |r.value| == |fmt|
  {
    if |data| == CalcSize(fmt) then Success(Decode(fmt, data)) else Failure(StructError)
  }

  lemma {:induction false} DecodeEncode(fmt: Format, values: seq<int>)
    requires Fits(fmt, values)
    ensures Decode(fmt, Encode(fmt, values)) == values
  {
    if fmt != [] {
      var head := LeBytes(values[0], fmt[0]);
      var tail := Encode(fmt[1..], values[1..]);
      FitsTail(fmt, values);
      assert (head + tail)[..fmt[0]] == head;
      assert (head + tail)[fmt[0]..] == tail;
      LeValueOfLeBytes(values[0], fmt[0]);
      DecodeEncode(fmt[1..], values[1..]);
    }
  }

  lemma {:induction false} EncodeDecode(fmt: Format, data: seq<byte>)
    requires |data| == CalcSize(fmt)
    ensures Encode(fmt, Decode(fmt, data)) == data
  {
    if fmt != [] {
      CalcSizeCons(fmt);
      var values := Decode(fmt, data);
      assert values[1..] == Decode(fmt[1..], data[fmt[0]..]);
      LeBytesOfLeValue(data[..fmt[0]]);
      EncodeDecode(fmt[1..], data[fmt[0]..]);
      assert data == data[..fmt[0]] + data[fmt[0]..];
    }
  }

  /** What was packed unpacks to the same values. */
  lemma UnpackPack(fmt: Format, values: seq<int>)
    requires Fits(fmt, values)
    ensures Pack(fmt, values).Success?
    ensures Unpack(fmt, Pack(fmt, values).value) == Success(values)
  {
    DecodeEncode(fmt, values);
  }

  /** A buffer of the right size unpacks to values that pack back to the same bytes. */
  lemma PackUnpack(fmt: Format, data: seq<byte>)
    requires |data| == CalcSize(fmt)
    ensures Unpack(fmt, data).Success?
    ensures Pack(fmt, Unpack(fmt, data).value) == Success(data)
  {
    EncodeDecode(fmt, data);
  }
}
