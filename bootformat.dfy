/**
 * The on-disk records of a Rockchip loader image (`loader.bin` /
 * `idbloader.img` as written by boot_merger): the 7-byte release time, the
 * 102-byte boot header and the 54-byte entry descriptor, together with the
 * small helpers that fill them (BCD version digits, the chip type, size
 * alignment and the UTF-16 style entry name).
 */
module BootFormat {
  import opened Bytes
  import opened Results
  import opened Struct

  /** "BOOT" read as a little-endian u32. */
  const TagBoot: nat := 0x544F_4F42
  const MergerVersion: nat := 0x0103_0000
  /** RC4 block size for loader payloads. */
  const SmallPacket: nat := 512
  /** Payload alignment. */
  const EntryAlign: nat := 2048
  const MaxNameLen: nat := 20
  const BootReservedSize: nat := 57
  const HeaderSize: nat := 102
  const EntrySize: nat := 54

  lemma TagBootSpellsBoot()
    ensures Le32(TagBoot) == [0x42, 0x4F, 0x4F, 0x54]
  {
  }

  // ---------------------------------------------------------------- helpers

  /** `get_bcd(value)`: two decimal digits, tens in the high nibble. */
  function GetBcd(value: int): (r: u8)
    ensures r / 16 <= 9 && r % 16 <= 9
    ensures 0 <= value <= 99 ==> r / 16 == value / 10 && r % 16 == value % 10
  {
    var v := if value > 99 then value % 100 else value;
    var tens := (v / 10) % 10;
    var ones := v % 10;
    BcdNibbles(tens, ones);
    // `(tens << 4) | ones`: the two nibbles do not overlap, so the or is a sum.
    (tens * 16 + ones) % 0x100
  }

  lemma BcdNibbles(tens: int, ones: int)
    requires 0 <= tens <= 9 && 0 <= ones <= 9
    ensures (tens * 16 + ones) % 0x100 == tens * 16 + ones
    ensures (tens * 16 + ones) / 16 == tens && (tens * 16 + ones) % 16 == ones
  {
  }

  /** The decimal number a BCD byte stands for. */
  function BcdValue(b: u8): nat
  {
    10 * (b / 16) + b % 16
  }

  /** A value of two decimal digits is recovered from its BCD byte. */
  lemma GetBcdDecodes(value: int)
    requires 0 <= value <= 99
    ensures BcdValue(GetBcd(value)) == value
  {
  }

  /** Above 99 only the last two decimal digits count. */
  lemma GetBcdAboveNinetyNine(value: int)
    requires value > 99
    ensures GetBcd(value) == GetBcd(value % 100)
  {
  }

  lemma GetBcdExamples()
    ensures GetBcd(25) == 0x25 && GetBcd(50) == 0x50 && GetBcd(125) == 0x25
  {
  }

  /** The chip names whose type is fixed by table rather than derived from the name. */
  const ChipNameMap: map<string, u32> := map[
    "RK28" := 0x20, "RK281X" := 0x21, "RKPANDA" := 0x22, "RK27" := 0x10,
    "RKNANO" := 0x30, "RKSMART" := 0x31, "RKCROWN" := 0x40, "RKCAYMAN" := 0x11,
    "RK29" := 0x50, "RK292X" := 0x51, "RK30" := 0x60, "RK30B" := 0x61,
    "RK31" := 0x70, "RK32" := 0x80]

  /** Python's `s[lo:hi]` for `0 <= lo <= hi`: the bounds are clipped to the string. */
  function Slice<T>(s: seq<T>, lo: nat, hi: nat): (r: seq<T>)
    requires lo <= hi
    ensures |r| <= hi - lo
  {
    if lo >= |s| then [] else if hi >= |s| then s[lo..] else s[lo..hi]
  }

  /** The four characters a chip name contributes: after an "RK" prefix, or from the start, NUL-padded. */
  function ChipId(chipName: string): (r: string)
    ensures |r| == 4
  {
    var id := if |chipName| >= 2 && chipName[..2] == "RK" then Slice(chipName, 2, 6) else Slice(chipName, 0, 4);
    id + seq(4 - |id|, _ => '\0')
  }

  predicate IsAscii(s: string)
  {
    forall i :: 0 <= i < |s| ==> s[i] as int < 128
  }

  /** `get_chip_type(chip_name)`; a non-ASCII character raises UnicodeEncodeError. */
  function GetChipType(chipName: string): (r: Result<u32>)
    ensures chipName in ChipNameMap ==> r == Success(ChipNameMap[chipName])
    ensures chipName !in ChipNameMap ==> (r.Success? <==> IsAscii(ChipId(chipName)))
  {
    if chipName in ChipNameMap then Success(ChipNameMap[chipName])
    else
      var id := ChipId(chipName);
      if !IsAscii(id) then Failure(CodecError)
      else Success(BeValue(seq(4, i requires 0 <= i < 4 => id[i] as int as byte)))
  }

  /** The worked examples of `get_chip_type`: a derived type reads the four characters big-endian. */
  lemma GetChipTypeExamples()
    ensures GetChipType("RK3399") == Success(0x3333_3939)
    ensures GetChipType("RK330C") == Success(0x3333_3043)
  {
    ChipType3399();
    ChipType330C();
  }

  lemma ChipType3399()
    ensures GetChipType("RK3399") == Success(0x3333_3939)
  {
    assert "RK3399" !in ChipNameMap;
    assert ChipId("RK3399") == "3399";
    BeValueFour([0x33, 0x33, 0x39, 0x39]);
    assert seq(4, i requires 0 <= i < 4 => "3399"[i] as int as byte) == [0x33, 0x33, 0x39, 0x39];
  }

  lemma ChipType330C()
    ensures GetChipType("RK330C") == Success(0x3333_3043)
  {
    assert "RK330C" !in ChipNameMap;
    assert ChipId("RK330C") == "330C";
    BeValueFour([0x33, 0x33, 0x30, 0x43]);
    assert seq(4, i requires 0 <= i < 4 => "330C"[i] as int as byte) == [0x33, 0x33, 0x30, 0x43];
  }

  /** A table name is looked up rather than read. */
  lemma GetChipTypeTable()
    ensures GetChipType("RK30") == Success(0x60)
  {
  }

  /** A short name is padded with NUL before it is read. */
  lemma GetChipTypePadded()
    ensures GetChipType("RK33") == Success(0x3333_0000)
  {
    assert "RK33" !in ChipNameMap;
    assert ChipId("RK33") == "33\0\0";
    BeValueFour([0x33, 0x33, 0x00, 0x00]);
    assert seq(4, i requires 0 <= i < 4 => "33\0\0"[i] as int as byte) == [0x33, 0x33, 0x00, 0x00];
  }

  /** Python nonnegative-divisor floor division is Dafny's `/`; the alignment must be positive. */
  function AlignSize(size: int, alignment: int): (r: int)
    requires alignment > 0
    ensures r % alignment == 0
    ensures size <= r < size + alignment
  {
    var q := (size + alignment - 1) / alignment;
    DivBounds(size + alignment - 1, alignment);
    q * alignment
  }

  /** No smaller multiple of the alignment lies at or above `size`. */
  lemma AlignSizeLeast(size: int, alignment: int, m: int)
    requires alignment > 0 && m % alignment == 0 && m >= size
    ensures AlignSize(size, alignment) <= m
  {
    var r := AlignSize(size, alignment);
    if m < r {
      MultiplesApart(r, m, alignment);
    }
  }

  lemma AlignSizeIdempotent(size: int, alignment: int)
    requires alignment > 0
    ensures AlignSize(AlignSize(size, alignment), alignment) == AlignSize(size, alignment)
  {
    var r := AlignSize(size, alignment);
    AlignSizeLeast(r, alignment, r);
  }

  /** Loader ("fix") sizing: up to 512-byte blocks, then up to the 2048-byte alignment. */
  function FixAlignSize(fileSize: int): (r: int)
  {
    AlignSize(((fileSize - 1) / SmallPacket + 1) * SmallPacket, EntryAlign)
  }

  /** The `data_size` of an entry for a file of `fileSize` bytes. */
  function EntryDataSize(fileSize: int, fix: bool): (r: int)
  {
    if fix then FixAlignSize(fileSize) else AlignSize(fileSize, EntryAlign)
  }

  /** Since 2048 is a multiple of 512 the two sizings agree. */
  lemma FixSizingIsPlain(fileSize: int)
    ensures EntryDataSize(fileSize, true) == EntryDataSize(fileSize, false)
    ensures EntryDataSize(1000, true) == 2048
  {
    var blocks := ((fileSize - 1) / SmallPacket + 1) * SmallPacket;
    DivBounds(fileSize - 1, SmallPacket);
    var plain := AlignSize(fileSize, EntryAlign);
    var fixed := AlignSize(blocks, EntryAlign);
    AlignSizeLeast(fileSize, EntryAlign, fixed);
    assert plain % SmallPacket == 0;
    if plain < blocks {
      MultiplesApart(blocks, plain, SmallPacket);
    }
    AlignSizeLeast(blocks, EntryAlign, plain);
    assert FixAlignSize(1000) == 2048;
  }

  /** An entry's data size is aligned and holds the whole file. */
  lemma EntryDataSizeBounds(fileSize: nat, fix: bool)
    ensures var s := EntryDataSize(fileSize, fix); s % EntryAlign == 0 && fileSize <= s < fileSize + EntryAlign
  {
    FixSizingIsPlain(fileSize);
  }

  /** `str_to_wide(s, max_len)`: the code points of the first `max_len` characters, zero-filled. */
  function StrToWide(s: string, maxLen: nat): (r: seq<int>)
    ensures |r| == maxLen
    ensures forall i :: 0 <= i < Min(|s|, maxLen) ==> r[i] == s[i] as int
    ensures forall i :: Min(|s|, maxLen) <= i < maxLen ==> r[i] == 0
  {
    var wide := seq(Min(|s|, maxLen), i requires 0 <= i < Min(|s|, maxLen) => s[i] as int);
    (wide + seq(maxLen - |wide|, _ => 0))[..maxLen]
  }

  // ------------------------------------------------------------ RKTime

  datatype RKTime = RKTime(year: int, month: int, day: int, hour: int, minute: int, second: int)

  /** `"<HBBBBB"`. */
  const TimeFormat: Format := [2, 1, 1, 1, 1, 1]

  lemma TimeFormatSize()
    ensures CalcSize(TimeFormat) == 7
  {
    var f := TimeFormat;
    assert SizeFrom(f, 6) == 0; assert SizeFrom(f, 5) == 1; assert SizeFrom(f, 4) == 2;
    assert SizeFrom(f, 3) == 3; assert SizeFrom(f, 2) == 4; assert SizeFrom(f, 1) == 5;
  }

  function TimeFields(t: RKTime): seq<int>
  {
    [t.year, t.month, t.day, t.hour, t.minute, t.second]
  }

  /** `RKTime.to_bytes`. */
  function TimeToBytes(t: RKTime): (r: Result<seq<byte>>)
    ensures r.Success? <==>
      0 <= t.year < 0x1_0000 && 0 <= t.month < 256 && 0 <= t.day < 256 &&
      0 <= t.hour < 256 && 0 <= t.minute < 256 && 0 <= t.second < 256
    ensures r.Success? ==> |r.value| == 7
  {
    assert Pow256(2) == 0x1_0000 && Pow256(1) == 256;
    TimeFormatSize();
    Pack(TimeFormat, TimeFields(t))
  }

  /** `RKTime.from_bytes`: unpacks the first 7 bytes; fewer raise struct.error. */
  function TimeFromBytes(data: seq<byte>): (r: Result<RKTime>)
    ensures r.Success? <==> |data| >= 7
    ensures r.Failure? ==> r.error == StructError
  {
    TimeFormatSize();
    var f :- Unpack(TimeFormat, data[..Min(7, |data|)]);
    Success(RKTime(f[0], f[1], f[2], f[3], f[4], f[5]))
  }

  /** A time whose fields fit packs to 7 bytes and reads back unchanged; a short buffer is refused. */
  lemma TimeRoundTrip(t: RKTime, data: seq<byte>)
    ensures TimeToBytes(t).Success? <==>
      0 <= t.year < 0x1_0000 && 0 <= t.month < 256 && 0 <= t.day < 256 &&
      0 <= t.hour < 256 && 0 <= t.minute < 256 && 0 <= t.second < 256
    ensures TimeToBytes(t).Success? ==>
      |TimeToBytes(t).value| == 7 && TimeFromBytes(TimeToBytes(t).value) == Success(t)
    ensures |data| < 7 ==> TimeFromBytes(data) == Failure(StructError)
  {
    assert Pow256(2) == 0x1_0000 && Pow256(1) == 256;
    TimeFormatSize();
    if Fits(TimeFormat, TimeFields(t)) {
      UnpackPack(TimeFormat, TimeFields(t));
      var b := TimeToBytes(t).value;
      assert b[..Min(7, |b|)] == b;
    }
  }

  // ------------------------------------------------------- RKBootHeader

  datatype RKBootHeader = RKBootHeader(
    tag: int, size: int, version: int, mergerVersion: int, releaseTime: RKTime,
    chipType: int,
    code471Num: int, code471Offset: int, code471Size: int,
    code472Num: int, code472Offset: int, code472Size: int,
    loaderNum: int, loaderOffset: int, loaderSize: int,
    signFlag: int, rc4Flag: int, reserved: seq<byte>)

  /** `"<IHIIHBBBBBIBIBBIBBIBBB"`: the 45 bytes of fields before the reserved area. */
  const HeaderFormat: Format := [4, 2, 4, 4, 2, 1, 1, 1, 1, 1, 4, 1, 4, 1, 1, 4, 1, 1, 4, 1, 1, 1]

  /** 45: the fields' widths added up from the last one back. */
  lemma HeaderFormatSize()
    ensures CalcSize(HeaderFormat) == 45
  {
    var f := HeaderFormat;
    assert SizeFrom(f, 22) == 0; assert SizeFrom(f, 21) == 1; assert SizeFrom(f, 20) == 2;
    assert SizeFrom(f, 19) == 3; assert SizeFrom(f, 18) == 7; assert SizeFrom(f, 17) == 8;
    assert SizeFrom(f, 16) == 9; assert SizeFrom(f, 15) == 13; assert SizeFrom(f, 14) == 14;
    assert SizeFrom(f, 13) == 15; assert SizeFrom(f, 12) == 19; assert SizeFrom(f, 11) == 20;
    assert SizeFrom(f, 10) == 24; assert SizeFrom(f, 9) == 25; assert SizeFrom(f, 8) == 26;
    assert SizeFrom(f, 7) == 27; assert SizeFrom(f, 6) == 28; assert SizeFrom(f, 5) == 29;
    assert SizeFrom(f, 4) == 31; assert SizeFrom(f, 3) == 35; assert SizeFrom(f, 2) == 39;
    assert SizeFrom(f, 1) == 41;
  }

  /** The values `to_bytes` packs; the size field is always written as 102. */
  function HeaderFields(h: RKBootHeader): (r: seq<int>)
  {
    var t := h.releaseTime;
    [h.tag, HeaderSize, h.version, h.mergerVersion,
     t.year, t.month, t.day, t.hour, t.minute, t.second,
     h.chipType,
     h.code471Num, h.code471Offset, h.code471Size,
     h.code472Num, h.code472Offset, h.code472Size,
     h.loaderNum, h.loaderOffset, h.loaderSize,
     h.signFlag, h.rc4Flag]
  }

  function HeaderOfFields(f: seq<int>, reserved: seq<byte>): (h: RKBootHeader)
    requires |f| == 22
  {
    RKBootHeader(f[0], f[1], f[2], f[3], RKTime(f[4], f[5], f[6], f[7], f[8], f[9]),
      f[10], f[11], f[12], f[13], f[14], f[15], f[16], f[17], f[18], f[19], f[20], f[21], reserved)
  }

  /**
   * `RKBootHeader.to_bytes`: the packed fields and 57 zero bytes; the
   * `size` and `reserved` fields of the record are not consulted.  (The
   * release time is also packed on its own first, which fails exactly when
   * its fields do not fit, as here.)
   */
  function HeaderToBytes(h: RKBootHeader): (r: Result<seq<byte>>)
    ensures r.Success? <==> Fits(HeaderFormat, HeaderFields(h))
    ensures r.Success? ==> |r.value| == HeaderSize && r.value[45..] == Zeros(BootReservedSize)
  {
    HeaderFormatSize();
    var fields :- Pack(HeaderFormat, HeaderFields(h));
    Success(fields + Zeros(BootReservedSize))
  }

  /** `RKBootHeader.from_bytes`. */
  function HeaderFromBytes(data: seq<byte>): (r: Result<RKBootHeader>)
    ensures |data| < HeaderSize <==> r == Failure(TooShort(|data|, HeaderSize))
    ensures r.Success? ==> r.value.code471Num >= 0 && r.value.code472Num >= 0 && r.value.loaderNum >= 0
  {
    if |data| < HeaderSize then Failure(TooShort(|data|, HeaderSize))
    else
      HeaderFormatSize();
      // `struct.unpack` cannot fail here: the slice has exactly the format's size.
      Success(HeaderOfFields(Decode(HeaderFormat, data[..45]), data[45..HeaderSize]))
  }

  /** The header as `to_bytes` writes it: size 102 and zeros in the reserved area. */
  function Normalized(h: RKBootHeader): (n: RKBootHeader)
  {
    h.(size := HeaderSize, reserved := Zeros(BootReservedSize))
  }

  /** Reading back a written header recovers every field but `size` and `reserved`, which come back as 102 and zeros. */
  lemma HeaderRoundTrip(h: RKBootHeader)
    requires HeaderToBytes(h).Success?
    ensures HeaderFromBytes(HeaderToBytes(h).value) == Success(Normalized(h))
  {
    HeaderFormatSize();
    var fields := Encode(HeaderFormat, HeaderFields(h));
    var b := fields + Zeros(BootReservedSize);
    assert b[..45] == fields;
    assert b[45..HeaderSize] == Zeros(BootReservedSize);
    UnpackPack(HeaderFormat, HeaderFields(h));
  }

  // -------------------------------------------------------- RKBootEntry

  datatype EntryType = Entry471 | Entry472 | EntryLoader {
    function Code(): u8
    {
      match this
      case Entry471 => 1
      case Entry472 => 2
      case EntryLoader => 4
    }
  }

  /** `RKEntryType(code)`: ValueError for a code outside 1, 2, 4. */
  function EntryTypeOf(code: int): (r: Result<EntryType>)
    ensures r.Success? <==> code in {1, 2, 4}
    ensures r.Success? ==> r.value.Code() == code
  {
    if code == 1 then Success(Entry471)
    else if code == 2 then Success(Entry472)
    else if code == 4 then Success(EntryLoader)
    else Failure(BadEntryType(code))
  }

  datatype RKBootEntry = RKBootEntry(
    size: int, entryType: EntryType, name: seq<int>, dataOffset: int, dataSize: int, dataDelay: int)

  const NameFormat: Format := Repeat(2, MaxNameLen)

  /** `"<BB"` and `"<III"`. */
  const HeadFormat: Format := Repeat(1, 2)
  const TailFormat: Format := Repeat(4, 3)

  lemma EntryFormatSizes()
    ensures CalcSize(NameFormat) == 40 && CalcSize(HeadFormat) == 2 && CalcSize(TailFormat) == 12
  {
    CalcSizeRepeat(2, MaxNameLen);
    CalcSizeRepeat(1, 2);
    CalcSizeRepeat(4, 3);
  }

  /** `RKBootEntry.to_bytes`: size byte 54, type byte, 20 u16 name units, then offset, size and delay. */
  function EntryToBytes(e: RKBootEntry): (r: Result<seq<byte>>)
    ensures r.Success? <==>
      Fits(NameFormat, e.name[..Min(MaxNameLen, |e.name|)]) && Fits(TailFormat, [e.dataOffset, e.dataSize, e.dataDelay])
    ensures r.Success? ==> |r.value| == EntrySize
  {
    EntryFormatSizes();
    var nameBytes :- Pack(NameFormat, e.name[..Min(MaxNameLen, |e.name|)]);
    // The size and type bytes always fit.
    var head := Encode(HeadFormat, [EntrySize, e.entryType.Code()]);
    var tail :- Pack(TailFormat, [e.dataOffset, e.dataSize, e.dataDelay]);
    Success(head + nameBytes + tail)
  }

  /** Where `to_bytes` puts each field: 54 and the type code, 20 little-endian u16 name units, then three little-endian u32. */
  lemma EntryBytesLayout(e: RKBootEntry)
    requires EntryToBytes(e).Success?
    ensures var b := EntryToBytes(e).value;
      b[0] == EntrySize && b[1] == e.entryType.Code() &&
      (forall k :: 0 <= k < MaxNameLen ==> b[2 + 2 * k..4 + 2 * k] == LeBytes(e.name[k], 2)) &&
      b[42..46] == Le32(e.dataOffset) && b[46..50] == Le32(e.dataSize) && b[50..54] == Le32(e.dataDelay)
  {
    EntryHeadBytes(e);
    forall k | 0 <= k < MaxNameLen
      ensures |EntryToBytes(e).value| == EntrySize && EntryToBytes(e).value[2 + 2 * k..4 + 2 * k] == LeBytes(e.name[k], 2)
    {
      EntryNameUnit(e, k);
    }
    EntryTailField(e, 0);
    EntryTailField(e, 1);
    EntryTailField(e, 2);
  }

  /** The size and type bytes. */
  lemma EntryHeadBytes(e: RKBootEntry)
    requires EntryToBytes(e).Success?
    ensures var b := EntryToBytes(e).value; b[0] == EntrySize && b[1] == e.entryType.Code()
  {
    var head := Encode(HeadFormat, [EntrySize, e.entryType.Code()]);
    EntryBytesParts(e);
    DecodeBytes(head);
    DecodeEncode(HeadFormat, [EntrySize, e.entryType.Code()]);
  }

  /** The `k`-th name unit, little-endian at `2 + 2 * k`. */
  lemma EntryNameUnit(e: RKBootEntry, k: nat)
    requires EntryToBytes(e).Success? && k < MaxNameLen
    ensures var b := EntryToBytes(e).value; |b| == EntrySize && k < |e.name| && b[2 + 2 * k..4 + 2 * k] == LeBytes(e.name[k], 2)
  {
    var b := EntryToBytes(e).value;
    var name := e.name[..Min(MaxNameLen, |e.name|)];
    EntryBytesParts(e);
    FieldAt(NameFormat, name, 2, k);
    SliceOfSlice(b, 2, 42, 2 * k, 2 * k + 2);
  }

  /** The `k`-th of offset, size and delay, little-endian at `42 + 4 * k`. */
  lemma EntryTailField(e: RKBootEntry, k: nat)
    requires EntryToBytes(e).Success? && k < 3
    ensures var b := EntryToBytes(e).value;
      |b| == EntrySize && b[42 + 4 * k..46 + 4 * k] == Le32([e.dataOffset, e.dataSize, e.dataDelay][k])
  {
    var b := EntryToBytes(e).value;
    var tailValues := [e.dataOffset, e.dataSize, e.dataDelay];
    EntryBytesParts(e);
    FieldAt(TailFormat, tailValues, 4, k);
    SliceOfSlice(b, 42, 54, 4 * k, 4 * k + 4);
  }

  /** The three packed pieces of an entry record. */
  lemma EntryBytesParts(e: RKBootEntry)
    requires EntryToBytes(e).Success?
    ensures var b := EntryToBytes(e).value;
      |b| == EntrySize &&
      b[..2] == Encode(HeadFormat, [EntrySize, e.entryType.Code()]) &&
      b[2..42] == Encode(NameFormat, e.name[..Min(MaxNameLen, |e.name|)]) &&
      b[42..54] == Encode(TailFormat, [e.dataOffset, e.dataSize, e.dataDelay])
  {
    EntryFormatSizes();
    var head := Encode(HeadFormat, [EntrySize, e.entryType.Code()]);
    var nameBytes := Encode(NameFormat, e.name[..Min(MaxNameLen, |e.name|)]);
    var tail := Encode(TailFormat, [e.dataOffset, e.dataSize, e.dataDelay]);
    SliceLeft(head + nameBytes, tail, 0, 2);
    SliceLeft(head, nameBytes, 0, 2);
    SliceLeft(head + nameBytes, tail, 2, 42);
    SliceRight(head, nameBytes, 2, 42);
    SliceRight(head + nameBytes, tail, 42, 54);
  }

  /** In a format of `n` fields of width `w`, field `k` is at `w * k`. */
  lemma FieldAt(fmt: Format, values: seq<int>, w: nat, k: nat)
    requires Fits(fmt, values) && k < |fmt| && fmt == Repeat(w, |fmt|)
    ensures w * k + w <= |Encode(fmt, values)|
    ensures Encode(fmt, values)[w * k..w * k + w] == LeBytes(values[k], w)
  {
    EncodeField(fmt, values, k);
    assert fmt[..k] == Repeat(w, k);
    CalcSizeRepeat(w, k);
  }

  /** `RKBootEntry.from_bytes`. */
  function EntryFromBytes(data: seq<byte>): (r: Result<RKBootEntry>)
    ensures |data| < EntrySize ==> r == Failure(TooShort(|data|, EntrySize))
    ensures |data| >= EntrySize ==> (r.Success? <==> data[1] in {1, 2, 4})
    ensures r.Success? ==> |r.value.name| == MaxNameLen && r.value.dataOffset >= 0 && r.value.dataSize >= 0
  {
    EntryFormatSizes();
    if |data| < EntrySize then Failure(TooShort(|data|, EntrySize))
    else
      var head := Decode(HeadFormat, data[..2]);
      DecodeBytes(data[..2]);
      var name := Decode(NameFormat, data[2..42]);
      var tail := Decode(TailFormat, data[42..54]);
      var entryType :- EntryTypeOf(head[1]);
      Success(RKBootEntry(head[0], entryType, name, tail[0], tail[1], tail[2]))
  }

  /** The entry as `to_bytes` writes it: size 54 and the name cut to 20 units. */
  function NormalizedEntry(e: RKBootEntry): (n: RKBootEntry)
    requires |e.name| >= MaxNameLen
  {
    e.(size := EntrySize, name := e.name[..MaxNameLen])
  }

  /** A written entry reads back with its size normalised to 54 and its name to its first 20 units. */
  lemma EntryRoundTrip(e: RKBootEntry)
    requires EntryToBytes(e).Success?
    ensures |e.name| >= MaxNameLen
    ensures EntryFromBytes(EntryToBytes(e).value) == Success(NormalizedEntry(e))
  {
    EntryFormatSizes();
    var name := e.name[..Min(MaxNameLen, |e.name|)];
    UnpackPack(NameFormat, name);
    UnpackPack(HeadFormat, [EntrySize, e.entryType.Code()]);
    UnpackPack(TailFormat, [e.dataOffset, e.dataSize, e.dataDelay]);
    var nameBytes := Encode(NameFormat, name);
    var head := Encode(HeadFormat, [EntrySize, e.entryType.Code()]);
    var tail := Encode(TailFormat, [e.dataOffset, e.dataSize, e.dataDelay]);
    var b := head + nameBytes + tail;
    assert b[..2] == head;
    assert b[2..42] == nameBytes;
    assert b[42..54] == tail;
  }
}
