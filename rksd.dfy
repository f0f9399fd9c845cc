/**
 * The rksd SD/MMC boot image (U-Boot's `mkimage -T rksd`): header0, a
 * 512-byte record encrypted with the Rockchip RC4 key; zeros up to byte
 * 0x800; then the SPL, zero-padded to a whole number of four-block groups
 * and, on chips that need it, encrypted 512 bytes at a time.
 *
 * Files are read from a file system given as a map from paths to contents;
 * `create_rksd_image` is modelled by the bytes it writes to its output
 * file, `append_to_rksd` by the file system it leaves behind and
 * `verify_rksd_image` by the dictionary it returns.
 */
module Rksd {
  import opened Bytes
  import opened Results
  import opened Struct
  import opened Rc4

  const RkSignature: nat := 0x0FF0_AA55
  const RkBlkSize: nat := 512
  /** The SPL starts at block 4. */
  const RkInitOffset: nat := 4
  /** Byte 2048, where the SPL and its magic start. */
  const RkSplHdrStart: nat := RkInitOffset * RkBlkSize
  /** Block counts are rounded up to multiples of four blocks. */
  const RkInitSizeAlign: nat := 4
  const Header0Size: nat := 512

  // ------------------------------------------------------------ chip table

  datatype ChipConfig = ChipConfig(name: string, splHdr: seq<byte>, splSize: nat, splRc4: bool)

  // The four-byte SPL magics, as ASCII.
  const Rk30: seq<byte> := [0x52, 0x4B, 0x33, 0x30]
  const Rk31: seq<byte> := [0x52, 0x4B, 0x33, 0x31]
  const Rk32: seq<byte> := [0x52, 0x4B, 0x33, 0x32]
  const Rk33: seq<byte> := [0x52, 0x4B, 0x33, 0x33]
  const Rk11: seq<byte> := [0x52, 0x4B, 0x31, 0x31]

  /** `CHIP_CONFIGS`, in insertion order, which is the order `verify_rksd_image` searches it in. */
  const ChipConfigs: seq<ChipConfig> := [
    ChipConfig("rk3036", Rk30, 0x1000, false),
    ChipConfig("rk3066", Rk30, 0x8000, true),
    ChipConfig("rk3128", Rk31, 0x1800, false),
    ChipConfig("rk3188", Rk31, 0x8000 - 0x800, true),
    ChipConfig("rk322x", Rk32, 0x8000 - 0x1000, false),
    ChipConfig("rk3288", Rk32, 0x8000, false),
    ChipConfig("rk3308", Rk33, 0x40000 - 0x1000, false),
    ChipConfig("rk3328", Rk32, 0x8000 - 0x1000, false),
    ChipConfig("rk3368", Rk33, 0x8000 - 0x1000, false),
    ChipConfig("rk3399", Rk33, 0x30000 - 0x2000, false),
    ChipConfig("px30", Rk33, 0x2800, false),
    ChipConfig("rv1108", Rk11, 0x1800, false)
  ]

  /** The configuration named `chip` among those from position `i` on. */
  function ConfigFrom(chip: string, i: nat): (r: Option<ChipConfig>)
    requires i <= |ChipConfigs|
    ensures r.None? <==> forall j :: i <= j < |ChipConfigs| ==> ChipConfigs[j].name != chip
    ensures r.Some? ==> r.value.name == chip && exists j :: i <= j < |ChipConfigs| && ChipConfigs[j] == r.value
    decreases |ChipConfigs| - i
  {
    if i == |ChipConfigs| then None
    else if ChipConfigs[i].name == chip then Some(ChipConfigs[i])
    else ConfigFrom(chip, i + 1)
  }

  /** `CHIP_CONFIGS[chip]`, or `None` when `chip not in CHIP_CONFIGS`. */
  function ChipConfigOf(chip: string): (r: Option<ChipConfig>)
    ensures r.None? <==> forall j :: 0 <= j < |ChipConfigs| ==> ChipConfigs[j].name != chip
    ensures r.Some? ==> r.value.name == chip && r.value in ChipConfigs
  {
    ConfigFrom(chip, 0)
  }

  /** The RK3399 entry: 0x2E000 bytes of SPL at most, magic "RK33", no SPL encryption. */
  lemma Rk3399Config()
    ensures ChipConfigOf("rk3399") == Some(ChipConfig("rk3399", Rk33, 0x2_E000, false))
  {
    assert ConfigFrom("rk3399", 9) == Some(ChipConfigs[9]);
    forall i | 0 <= i < 9
      ensures ChipConfigs[i].name != "rk3399"
    {
      assert ChipConfigs[i].name[3] != '3' || ChipConfigs[i].name[4] != '9';
    }
  }

  /** RK3066 and RK3188 are the chips whose SPL is RC4-encrypted. */
  lemma EncryptedSplChips()
    ensures forall j :: 0 <= j < |ChipConfigs| ==>
      (ChipConfigs[j].splRc4 <==> ChipConfigs[j].name == "rk3066" || ChipConfigs[j].name == "rk3188")
  {
  }

  /** A chip missing from the table is not found. */
  lemma UnknownChipConfig()
    ensures ChipConfigOf("rk3588").None?
  {
  }

  /** The name of the first configuration from position `i` on whose SPL magic is `hdr`, or "unknown". */
  function ChipNameFrom(hdr: seq<byte>, i: nat): (r: string)
    requires i <= |ChipConfigs|
    ensures r == "unknown" <==> forall j :: i <= j < |ChipConfigs| ==> ChipConfigs[j].splHdr != hdr
    ensures r != "unknown" ==>
      exists j :: i <= j < |ChipConfigs| && ChipConfigs[j].splHdr == hdr && ChipConfigs[j].name == r &&
        forall m :: i <= m < j ==> ChipConfigs[m].splHdr != hdr
    decreases |ChipConfigs| - i
  {
    if i == |ChipConfigs| then "unknown"
    else if ChipConfigs[i].splHdr == hdr then ChipConfigs[i].name
    else ChipNameFrom(hdr, i + 1)
  }

  /** The chip `verify_rksd_image` reports for the four bytes at 2048. */
  function ChipNameFor(hdr: seq<byte>): (r: string)
  {
    ChipNameFrom(hdr, 0)
  }

  /** A configuration from position `i` on whose magic is not `hdr` is passed over. */
  lemma SkipChip(hdr: seq<byte>, i: nat)
    requires i < |ChipConfigs| && ChipConfigs[i].splHdr != hdr
    ensures ChipNameFrom(hdr, i) == ChipNameFrom(hdr, i + 1)
  {
  }

  /** Several chips share a magic, and the first of them wins: an RK3399 SPL reports rk3308. */
  lemma Rk33ChipName()
    ensures ChipNameFor(Rk33) == "rk3308"
  {
    assert ChipNameFrom(Rk33, 6) == "rk3308";
    forall i | 0 <= i < 6
      ensures ChipConfigs[i].splHdr != Rk33
    {
      assert ChipConfigs[i].splHdr[3] != Rk33[3];
    }
  }

  /** The first entry of each of the other magics is the one reported. */
  lemma FirstChipNames()
    ensures ChipNameFor(Rk30) == "rk3036"
    ensures ChipNameFor(Rk31) == "rk3128"
    ensures ChipNameFor(Rk32) == "rk322x"
  {
    assert ChipNameFrom(Rk32, 4) == "rk322x";
    assert ChipNameFrom(Rk31, 2) == "rk3128";
    forall i | 0 <= i < 4
      ensures ChipConfigs[i].splHdr != Rk32
      ensures i < 2 ==> ChipConfigs[i].splHdr != Rk31
    {
      assert ChipConfigs[i].splHdr[3] != Rk32[3];
      assert ChipConfigs[i].splHdr[3] != Rk31[3] || i >= 2;
    }
  }

  /** RV1108, the last entry, has a magic of its own. */
  lemma Rk11ChipName()
    ensures ChipNameFor(Rk11) == "rv1108"
  {
    assert ChipNameFrom(Rk11, 11) == "rv1108";
    forall i | 0 <= i < 11
      ensures ChipConfigs[i].splHdr != Rk11
    {
      assert ChipConfigs[i].splHdr[2] != Rk11[2];
    }
  }

  /** A file too short to hold a magic reports "unknown". */
  lemma NoMagicChipName()
    ensures ChipNameFor([]) == "unknown"
  {
    forall i | 0 <= i < |ChipConfigs|
      ensures ChipConfigs[i].splHdr != []
    {
      assert |ChipConfigs[i].splHdr| == 4;
    }
  }

  /** The chip-matching loop of `verify_rksd_image`, which stops at the first match. */
  method FindChip(header1: seq<byte>) returns (chipName: string)
    ensures chipName == ChipNameFor(header1)
  {
    chipName := "unknown";
    var i := 0;
    while i < |ChipConfigs|
      invariant 0 <= i <= |ChipConfigs|
      invariant ChipNameFrom(header1, i) == ChipNameFor(header1)
    {
      if ChipConfigs[i].splHdr == header1 {
        chipName := ChipConfigs[i].name;
        break;
      }
      i := i + 1;
    }
  }

  // --------------------------------------------------------------- header0

  /** `Header0`; the reserved fields are byte strings of any length. */
  datatype Header0 = Header0(
    signature: int, reserved: seq<byte>, disableRc4: int, initOffset: int,
    reserved1: seq<byte>, reserved2: seq<byte>, initSize: int, initBootSize: int)

  /** The reserved fields have the widths of the slices `to_bytes` assigns them to. */
  predicate WellShaped(h: Header0)
  {
    |h.reserved| == 4 && |h.reserved1| == 490 && |h.reserved2| == 2
  }

  /** Every integer field fits its `struct` field (`<I` or `<H`). */
  predicate FieldsFit(h: Header0)
  {
    0 <= h.signature < 0x1_0000_0000 && 0 <= h.disableRc4 < 0x1_0000_0000 &&
    0 <= h.initOffset < 0x1_0000 && 0 <= h.initSize < 0x1_0000 && 0 <= h.initBootSize < 0x1_0000
  }

  /**
   * The 512 bytes of a header: signature at 0x000, reserved at 0x004,
   * disable_rc4 at 0x008, init_offset at 0x00C, reserved1 at 0x00E,
   * reserved2 at 0x1F8, init_size at 0x1FA, init_boot_size at 0x1FC, and
   * two zero bytes that nothing writes.
   */
  function Header0Layout(h: Header0): (r: seq<byte>)
    requires FieldsFit(h)
  {
    LeBytes(h.signature, 4) + h.reserved + LeBytes(h.disableRc4, 4) + LeBytes(h.initOffset, 2) +
    h.reserved1 + h.reserved2 + LeBytes(h.initSize, 2) + LeBytes(h.initBootSize, 2) + Zeros(2)
  }

  /** The fields of a well-shaped header sit at their offsets. */
  lemma Header0Offsets(h: Header0)
    requires WellShaped(h) && FieldsFit(h)
    ensures var r := Header0Layout(h);
      |r| == Header0Size &&
      r[0x000..0x004] == LeBytes(h.signature, 4) && r[0x004..0x008] == h.reserved &&
      r[0x008..0x00C] == LeBytes(h.disableRc4, 4) && r[0x00C..0x00E] == LeBytes(h.initOffset, 2) &&
      r[0x00E..0x1F8] == h.reserved1 && r[0x1F8..0x1FA] == h.reserved2 &&
      r[0x1FA..0x1FC] == LeBytes(h.initSize, 2) && r[0x1FC..0x1FE] == LeBytes(h.initBootSize, 2) &&
      r[0x1FE..] == Zeros(2)
  {
    var p1 := LeBytes(h.signature, 4);
    var p2 := p1 + h.reserved;
    var p3 := p2 + LeBytes(h.disableRc4, 4);
    var p4 := p3 + LeBytes(h.initOffset, 2);
    var p5 := p4 + h.reserved1;
    var p6 := p5 + h.reserved2;
    var p7 := p6 + LeBytes(h.initSize, 2);
    var p8 := p7 + LeBytes(h.initBootSize, 2);
    var r := p8 + Zeros(2);
    TakeConcat(p8, Zeros(2), 0x1FE);
    assert r[..0x1FE] == p8;
    TakeConcat(p7, LeBytes(h.initBootSize, 2), 0x1FC);
    TakeConcat(p6, LeBytes(h.initSize, 2), 0x1FA);
    TakeConcat(p5, h.reserved2, 0x1F8);
    TakeConcat(p4, h.reserved1, 0x00E);
    TakeConcat(p3, LeBytes(h.initOffset, 2), 0x00C);
    TakeConcat(p2, LeBytes(h.disableRc4, 4), 0x008);
    TakeConcat(p1, h.reserved, 0x004);
    SliceRight(p7, LeBytes(h.initBootSize, 2), 0x1FC, 0x1FE);
    SliceRight(p6, LeBytes(h.initSize, 2), 0x1FA, 0x1FC);
    SliceRight(p5, h.reserved2, 0x1F8, 0x1FA);
    SliceRight(p4, h.reserved1, 0x00E, 0x1F8);
    SliceRight(p3, LeBytes(h.initOffset, 2), 0x00C, 0x00E);
    SliceRight(p2, LeBytes(h.disableRc4, 4), 0x008, 0x00C);
    SliceRight(p1, h.reserved, 0x004, 0x008);
    PrefixSlice(r, p8, 0x1FC, 0x1FE);
    PrefixSlice(r, p7, 0x1FA, 0x1FC);
    PrefixSlice(r, p6, 0x1F8, 0x1FA);
    PrefixSlice(r, p5, 0x00E, 0x1F8);
    PrefixSlice(r, p4, 0x00C, 0x00E);
    PrefixSlice(r, p3, 0x008, 0x00C);
    PrefixSlice(r, p2, 0x004, 0x008);
    PrefixSlice(r, p1, 0x000, 0x004);
    DropConcat(p8, Zeros(2), 0x1FE);
  }

  /** A slice inside a prefix of a sequence is the same slice of the sequence. */
  lemma PrefixSlice(s: seq<byte>, p: seq<byte>, i: nat, j: nat)
    requires |p| <= |s| && s[..|p|] == p && i <= j <= |p|
    ensures s[i..j] == p[i..j]
  {
    assert s[0..|p|] == s[..|p|];
    SliceOfSlice(s, 0, |p|, i, j);
  }

  /** Writing `x` at the end of `p` in a buffer of `p` followed by zeros. */
  lemma OverZeros(p: seq<byte>, x: seq<byte>, n: nat)
    requires |x| <= n
    ensures (p + Zeros(n))[..|p|] + x + (p + Zeros(n))[|p| + |x|..] == p + x + Zeros(n - |x|)
  {
    TakeConcat(p, Zeros(n), |p|);
    DropConcat(p, Zeros(n), |p| + |x|);
    assert Zeros(n)[|x|..] == Zeros(n - |x|);
  }

  /**
   * `Header0.to_bytes`: `pack_into` and slice assignments on a 512-byte
   * bytearray.  An integer field that does not fit raises struct.error;
   * when the reserved fields have their widths the result is the layout.
   */
  method Header0ToBytes(h: Header0) returns (r: Result<seq<byte>>)
    ensures WellShaped(h) && FieldsFit(h) ==> r == Success(Header0Layout(h))
    ensures !FieldsFit(h) ==> r == Failure(StructError)
  {
    Pow256Widths();
    ghost var shaped := WellShaped(h) && FieldsFit(h);
    ghost var p := [];
    var data: seq<byte> := Zeros(Header0Size);
    assert shaped ==> data == p + Zeros(512);
    var packed := PackField(data, 0x000, 4, h.signature);
    if packed.Failure? {
      return Failure(packed.error);
    }
    if shaped {
      OverZeros(p, LeBytes(h.signature, 4), 512);
      p := p + LeBytes(h.signature, 4);
    }
    data := SliceAssign(packed.value, 0x004, 0x008, h.reserved);
    if shaped {
      OverZeros(p, h.reserved, 508);
      p := p + h.reserved;
    }
    packed := PackField(data, 0x008, 4, h.disableRc4);
    if packed.Failure? {
      return Failure(packed.error);
    }
    if shaped {
      OverZeros(p, LeBytes(h.disableRc4, 4), 504);
      p := p + LeBytes(h.disableRc4, 4);
    }
    packed := PackField(packed.value, 0x00C, 2, h.initOffset);
    if packed.Failure? {
      return Failure(packed.error);
    }
    if shaped {
      OverZeros(p, LeBytes(h.initOffset, 2), 500);
      p := p + LeBytes(h.initOffset, 2);
    }
    data := SliceAssign(packed.value, 0x00E, 0x1F8, h.reserved1);
    if shaped {
      OverZeros(p, h.reserved1, 498);
      p := p + h.reserved1;
    }
    data := SliceAssign(data, 0x1F8, 0x1FA, h.reserved2);
    if shaped {
      OverZeros(p, h.reserved2, 8);
      p := p + h.reserved2;
    }
    packed := PackField(data, 0x1FA, 2, h.initSize);
    if packed.Failure? {
      return Failure(packed.error);
    }
    if shaped {
      OverZeros(p, LeBytes(h.initSize, 2), 6);
      p := p + LeBytes(h.initSize, 2);
    }
    packed := PackField(packed.value, 0x1FC, 2, h.initBootSize);
    if packed.Failure? {
      return Failure(packed.error);
    }
    if shaped {
      OverZeros(p, LeBytes(h.initBootSize, 2), 4);
    }
    return Success(packed.value);
  }

  /** `Header0.from_bytes`: the fields at their offsets in the first 512 bytes; shorter input is rejected. */
  function Header0FromBytes(data: seq<byte>): (r: Result<Header0>)
    ensures |data| < Header0Size <==> r == Failure(TooShort(|data|, Header0Size))
    ensures r.Success? ==> WellShaped(r.value) && FieldsFit(r.value)
  {
    if |data| < Header0Size then Failure(TooShort(|data|, Header0Size))
    else
      Success(Header0(
        LeValue(data[0x000..0x004]), data[0x004..0x008], LeValue(data[0x008..0x00C]), LeValue(data[0x00C..0x00E]),
        data[0x00E..0x1F8], data[0x1F8..0x1FA], LeValue(data[0x1FA..0x1FC]), LeValue(data[0x1FC..0x1FE])))
  }

  /** A header whose fields have their widths reads back from its bytes unchanged. */
  lemma Header0RoundTrip(h: Header0)
    requires WellShaped(h) && FieldsFit(h)
    ensures Header0FromBytes(Header0Layout(h)) == Success(h)
  {
    Header0Offsets(h);
    Pow256Widths();
    LeValueOfLeBytes(h.signature, 4);
    LeValueOfLeBytes(h.disableRc4, 4);
    LeValueOfLeBytes(h.initOffset, 2);
    LeValueOfLeBytes(h.initSize, 2);
    LeValueOfLeBytes(h.initBootSize, 2);
  }

  /** Reading 512 or more bytes and writing them back gives the first 510 of them and two zero bytes. */
  lemma Header0Rewrite(data: seq<byte>)
    requires |data| >= Header0Size
    ensures Header0FromBytes(data).Success?
    ensures Header0Layout(Header0FromBytes(data).value) == data[..0x1FE] + Zeros(2)
  {
    var h := Header0FromBytes(data).value;
    Header0Offsets(h);
    var r := Header0Layout(h);
    LeBytesOfLeValue(data[0x000..0x004]);
    LeBytesOfLeValue(data[0x008..0x00C]);
    LeBytesOfLeValue(data[0x00C..0x00E]);
    LeBytesOfLeValue(data[0x1FA..0x1FC]);
    LeBytesOfLeValue(data[0x1FC..0x1FE]);
    forall x | 0 <= x < Header0Size
      ensures r[x] == (data[..0x1FE] + Zeros(2))[x]
    {
      if x < 0x004 { assert r[x] == r[0x000..0x004][x]; }
      else if x < 0x008 { assert r[x] == r[0x004..0x008][x - 0x004]; }
      else if x < 0x00C { assert r[x] == r[0x008..0x00C][x - 0x008]; }
      else if x < 0x00E { assert r[x] == r[0x00C..0x00E][x - 0x00C]; }
      else if x < 0x1F8 { assert r[x] == r[0x00E..0x1F8][x - 0x00E]; }
      else if x < 0x1FA { assert r[x] == r[0x1F8..0x1FA][x - 0x1F8]; }
      else if x < 0x1FC { assert r[x] == r[0x1FA..0x1FC][x - 0x1FA]; }
      else if x < 0x1FE { assert r[x] == r[0x1FC..0x1FE][x - 0x1FC]; }
      else { assert r[x] == r[0x1FE..][x - 0x1FE]; }
    }
  }

  // ---------------------------------------------------------- block counts

  /** `_round_up(n, align)`: the least multiple of `align` at or above `n`. */
  function RoundUp(n: int, align: int): (r: int)
    requires align > 0
    ensures r % align == 0 && n <= r < n + align
  {
    DivBounds(n + align - 1, align);
    (n + align - 1) / align * align
  }

  /** No smaller multiple of `align` lies at or above `n`. */
  lemma RoundUpLeast(n: int, align: int, m: int)
    requires align > 0 && m % align == 0 && m >= n
    ensures RoundUp(n, align) <= m
  {
    var r := RoundUp(n, align);
    if m < r {
      MultiplesApart(r, m, align);
    }
  }

  /** `_div_round_up(n, d)`: the ceiling of `n / d`. */
  function DivRoundUp(n: int, d: int): (r: int)
    requires d > 0
    ensures (r - 1) * d < n <= r * d
  {
    DivBounds(n + d - 1, d);
    (n + d - 1) / d
  }

  /** `init_size`: the SPL's blocks rounded up to a multiple of four. */
  function InitSize(fileSize: int): (r: int)
  {
    RoundUp(DivRoundUp(fileSize, RkBlkSize), RkInitSizeAlign)
  }

  /** `init_boot_size`: the SPL's rounded blocks plus those of the next stage, rounded up to a multiple of four. */
  function InitBootSize(initSize: int, maxBootSize: int): (r: int)
  {
    RoundUp(initSize + DivRoundUp(maxBootSize, RkBlkSize), RkInitSizeAlign)
  }

  /**
   * Both counts are multiples of four blocks, the SPL fits in its blocks
   * with less than five blocks to spare, and the boot count covers both
   * stages; an 8192-byte SPL takes 16 blocks, 1040 with the default 512 KiB
   * next stage.
   */
  lemma BlockCounts(fileSize: nat, maxBootSize: int)
    ensures var n := InitSize(fileSize);
      n % RkInitSizeAlign == 0 && fileSize <= n * RkBlkSize < fileSize + 5 * RkBlkSize
    ensures var n := InitSize(fileSize); var b := InitBootSize(n, maxBootSize);
      b % RkInitSizeAlign == 0 && n * RkBlkSize + maxBootSize <= b * RkBlkSize
    ensures InitSize(8192) == 16 && InitBootSize(16, 512 * 1024) == 1040
  {
    var d := DivRoundUp(fileSize, RkBlkSize);
    var n := InitSize(fileSize);
    MulMonotone(d, n, RkBlkSize);
    assert n * RkBlkSize < (d + 4) * RkBlkSize;
    var e := DivRoundUp(maxBootSize, RkBlkSize);
    var b := InitBootSize(n, maxBootSize);
    MulMonotone(n + e, b, RkBlkSize);
    assert (n + e) * RkBlkSize == n * RkBlkSize + e * RkBlkSize;
    assert DivRoundUp(8192, RkBlkSize) == 16;
    assert DivRoundUp(512 * 1024, RkBlkSize) == 1024;
  }

  // ---------------------------------------------------------------- create

  /** The header0 `create_rksd_image` builds for an SPL of `fileSize` bytes. */
  function RksdHeader0(config: ChipConfig, fileSize: nat, maxBootSize: int): (h: Header0)
    ensures WellShaped(h)
  {
    var initSize := InitSize(fileSize);
    Header0(RkSignature, Zeros(4), if !config.splRc4 then 1 else 0, RkInitOffset, Zeros(490), Zeros(2),
      initSize, InitBootSize(initSize, maxBootSize))
  }

  /** The SPL as written from byte 2048: padded to `initSize` blocks and, when `rc4`, encrypted block by block. */
  function SplImage(spl: seq<byte>, initSize: nat, rc4: bool): (r: seq<byte>)
  {
    var padded := PadRight(spl, initSize * RkBlkSize);
    if rc4 then CryptBlocks(padded, RkBlkSize, RockchipKey) else padded
  }

  /**
   * What `create_rksd_image` writes to its output file: an unknown chip,
   * a missing SPL file, an SPL over the chip's limit or a block count that
   * does not fit its field ends it before anything is written.
   */
  function RksdImage(fs: FileSystem, splPath: string, chip: string, maxBootSize: int): (r: Result<seq<byte>>)
  {
    var config := ChipConfigOf(chip);
    if config.None? then Failure(UnsupportedChip(chip))
    else if splPath !in fs then Failure(FileNotFound(splPath))
    else
      var spl := fs[splPath];
      if |spl| > config.value.splSize then Failure(SplTooLarge(|spl|, config.value.splSize))
      else RksdImageOf(config.value, spl, maxBootSize)
  }

  /** The image once the checks on the chip and the SPL file have passed. */
  function RksdImageOf(config: ChipConfig, spl: seq<byte>, maxBootSize: int): (r: Result<seq<byte>>)
  {
    var h := RksdHeader0(config, |spl|, maxBootSize);
    if !FieldsFit(h) then Failure(StructError)
    else
      Success(Crypt(Header0Layout(h), RockchipKey) + Zeros(RkSplHdrStart - RkBlkSize) +
        SplImage(spl, h.initSize, config.splRc4))
  }

  /** The checks of `create_rksd_image`, in order, each before anything is written. */
  lemma RksdImageChecks(fs: FileSystem, splPath: string, chip: string, maxBootSize: int)
    ensures ChipConfigOf(chip).None? ==> RksdImage(fs, splPath, chip, maxBootSize) == Failure(UnsupportedChip(chip))
    ensures ChipConfigOf(chip).Some? && splPath !in fs ==>
      RksdImage(fs, splPath, chip, maxBootSize) == Failure(FileNotFound(splPath))
    ensures ChipConfigOf(chip).Some? && splPath in fs && |fs[splPath]| > ChipConfigOf(chip).value.splSize ==>
      RksdImage(fs, splPath, chip, maxBootSize) == Failure(SplTooLarge(|fs[splPath]|, ChipConfigOf(chip).value.splSize))
    ensures RksdImage(fs, splPath, chip, maxBootSize).Success? <==>
      ChipConfigOf(chip).Some? && splPath in fs && |fs[splPath]| <= ChipConfigOf(chip).value.splSize &&
      0 <= InitBootSize(InitSize(|fs[splPath]|), maxBootSize) < 0x1_0000
  {
    if ChipConfigOf(chip).Some? && splPath in fs && |fs[splPath]| <= ChipConfigOf(chip).value.splSize {
      var config := ChipConfigOf(chip).value;
      var n := |fs[splPath]|;
      BlockCounts(n, maxBootSize);
      assert n <= 0x3_F000;
      assert InitSize(n) * RkBlkSize < 0x3_F000 + 5 * RkBlkSize;
    }
  }

  /**
   * A created image is the encrypted header0, zeros up to byte 2048 and
   * the SPL region, `2048 + 512 * init_size` bytes in all; decrypting its
   * first 512 bytes gives back the header's layout.
   */
  lemma RksdImageLayout(fs: FileSystem, splPath: string, chip: string, maxBootSize: int)
    requires RksdImage(fs, splPath, chip, maxBootSize).Success?
    ensures var config := ChipConfigOf(chip).value;
      var spl := fs[splPath];
      var h := RksdHeader0(config, |spl|, maxBootSize);
      var image := RksdImage(fs, splPath, chip, maxBootSize).value;
      FieldsFit(h) && h.disableRc4 == (if config.splRc4 then 0 else 1) &&
      |image| == RkSplHdrStart + h.initSize * RkBlkSize &&
      Crypt(image[..Header0Size], RockchipKey) == Header0Layout(h) &&
      image[Header0Size..RkSplHdrStart] == Zeros(RkSplHdrStart - RkBlkSize) &&
      image[RkSplHdrStart..] == SplImage(spl, h.initSize, config.splRc4)
  {
    var config := ChipConfigOf(chip).value;
    var spl := fs[splPath];
    var h := RksdHeader0(config, |spl|, maxBootSize);
    var enc := Crypt(Header0Layout(h), RockchipKey);
    var gap := Zeros(RkSplHdrStart - RkBlkSize);
    var splPart := SplImage(spl, h.initSize, config.splRc4);
    Header0Offsets(h);
    BlockCounts(|spl|, maxBootSize);
    CryptBlocksLength(PadRight(spl, h.initSize * RkBlkSize), RkBlkSize, RockchipKey);
    CryptInvolution(Header0Layout(h), RockchipKey);
    TakeConcat(enc + gap, splPart, Header0Size);
    TakeConcat(enc, gap, Header0Size);
    assert enc[..Header0Size] == enc;
    SliceLeft(enc + gap, splPart, Header0Size, RkSplHdrStart);
    SliceRight(enc, gap, Header0Size, RkSplHdrStart);
    DropConcat(enc + gap, splPart, RkSplHdrStart);
  }

  /** With SPL encryption, decrypting the SPL region block by block gives back the padded SPL. */
  lemma SplImageDecrypts(spl: seq<byte>, initSize: nat)
    ensures CryptBlocks(SplImage(spl, initSize, true), RkBlkSize, RockchipKey) == PadRight(spl, initSize * RkBlkSize)
    ensures SplImage(spl, initSize, false) == PadRight(spl, initSize * RkBlkSize)
  {
    CryptBlocksInvolution(PadRight(spl, initSize * RkBlkSize), RkBlkSize, RockchipKey);
  }

  /** The SPL encryption loop of `create_rksd_image`: `rc4_crypt` of each 512-byte block in turn. */
  method EncryptSpl(padded: seq<byte>) returns (encrypted: seq<byte>)
    ensures encrypted == CryptBlocks(padded, RkBlkSize, RockchipKey)
  {
    encrypted := [];
    if padded == [] {
      return;
    }
    var offset: nat := 0;
    CryptBlocksStart(padded, RkBlkSize, RockchipKey);
    while offset < |padded|
      invariant encrypted + MapBlocks(padded[Min(offset, |padded|)..], RkBlkSize, Cipher(RockchipKey)) ==
        CryptBlocks(padded, RkBlkSize, RockchipKey)
      decreases |padded| - offset
    {
      var block := padded[offset..offset + Min(RkBlkSize, |padded| - offset)];
      var encryptedBlock := Rc4Crypt(block, RockchipKey);
      ghost var done, lo := encrypted, offset;
      encrypted := encrypted + encryptedBlock;
      offset := offset + RkBlkSize;
      CryptBlocksStep(padded, RkBlkSize, RockchipKey, lo, offset, done, encryptedBlock, encrypted);
    }
    CryptBlocksEnd(padded, RkBlkSize, RockchipKey, offset, encrypted);
  }

  /** `create_rksd_image`: the checks, the block counts, header0 encrypted, the gap, then the SPL. */
  method CreateRksdImage(fs: FileSystem, splPath: string, chip: string, maxBootSize: int) returns (r: Result<seq<byte>>)
    ensures r == RksdImage(fs, splPath, chip, maxBootSize)
  {
    var config := ChipConfigOf(chip);
    if config.None? {
      return Failure(UnsupportedChip(chip));
    }
    if splPath !in fs {
      return Failure(FileNotFound(splPath));
    }
    var splData := fs[splPath];
    var fileSize := |splData|;
    if fileSize > config.value.splSize {
      return Failure(SplTooLarge(fileSize, config.value.splSize));
    }
    r := BuildRksdImage(config.value, splData, maxBootSize);
  }

  /** The block counts, header0 encrypted, the gap, then the SPL, encrypted when the chip asks for it. */
  method BuildRksdImage(config: ChipConfig, splData: seq<byte>, maxBootSize: int) returns (r: Result<seq<byte>>)
    ensures r == RksdImageOf(config, splData, maxBootSize)
  {
    var fileSize := |splData|;
    var initSize := DivRoundUp(fileSize, RkBlkSize);
    initSize := RoundUp(initSize, RkInitSizeAlign);
    var initBootSize := initSize + DivRoundUp(maxBootSize, RkBlkSize);
    initBootSize := RoundUp(initBootSize, RkInitSizeAlign);
    var header0 := Header0(RkSignature, Zeros(4), if !config.splRc4 then 1 else 0, RkInitOffset,
      Zeros(490), Zeros(2), initSize, initBootSize);
    assert header0 == RksdHeader0(config, fileSize, maxBootSize);
    var header0Bytes := Header0ToBytes(header0);
    if header0Bytes.Failure? {
      return Failure(header0Bytes.error);
    }
    var header0Encrypted := Rc4Crypt(header0Bytes.value, RockchipKey);
    var image := header0Encrypted + Zeros(RkSplHdrStart - RkBlkSize);
    BlockCounts(fileSize, maxBootSize);
    var splDataPadded := PadRight(splData, initSize * RkBlkSize);
    if config.splRc4 {
      var encryptedSpl := EncryptSpl(splDataPadded);
      image := image + encryptedSpl;
    } else {
      image := image + splDataPadded;
    }
    return Success(image);
  }

  // ---------------------------------------------------------------- append

  /** `append_to_rksd`: the image file (created if absent) gains the appended file's bytes at its end. */
  function AppendToRksd(fs: FileSystem, imagePath: string, appendPath: string): (r: Result<FileSystem>)
    ensures r.Success? <==> appendPath in fs
    ensures r.Success? ==>
      imagePath in r.value && r.value[imagePath] == (if imagePath in fs then fs[imagePath] else []) + fs[appendPath]
    ensures r.Success? ==> forall p :: p != imagePath ==> (p in r.value <==> p in fs) && (p in fs ==> r.value[p] == fs[p])
  {
    if appendPath !in fs then Failure(FileNotFound(appendPath))
    else
      var before := if imagePath in fs then fs[imagePath] else [];
      Success(fs[imagePath := before + fs[appendPath]])
  }

  // ---------------------------------------------------------------- verify

  /** The dictionary `verify_rksd_image` returns; the signature is kept as a number and the magic as bytes. */
  datatype RksdInfo = RksdInfo(
    signature: int, chip: string, splMagic: seq<byte>, initOffset: int,
    initSizeBlocks: int, initSizeBytes: int, initBootSizeBlocks: int, disableRc4: int, fileSize: nat)

  /**
   * The report for a file of `fileSize` bytes whose first 512 bytes decrypt
   * to `header0Bytes` and whose four bytes at 2048 are `header1`.
   */
  function Report(header0Bytes: seq<byte>, header1: seq<byte>, fileSize: nat): (r: Result<RksdInfo>)
    ensures |header0Bytes| < Header0Size ==> r == Failure(TooShort(|header0Bytes|, Header0Size))
  {
    var h :- Header0FromBytes(header0Bytes);
    if h.signature != RkSignature then Failure(BadSignature(h.signature))
    else
      Success(RksdInfo(h.signature, ChipNameFor(header1), header1, h.initOffset,
        h.initSize, h.initSize * RkBlkSize, h.initBootSize, h.disableRc4, fileSize))
  }

  /**
   * The report for an image holding `file` when its first 512 bytes are
   * decrypted by `decrypt`; a file shorter than 512 bytes gives a short block.
   */
  function InfoUnder(file: seq<byte>, decrypt: seq<byte> -> seq<byte>): (r: Result<RksdInfo>)
  {
    Report(decrypt(ReadAt(file, 0, RkBlkSize)), ReadAt(file, RkSplHdrStart, 4), |file|)
  }

  /** What `verify_rksd_image` reports for an image holding `file`. */
  function ImageInfo(file: seq<byte>): (r: Result<RksdInfo>)
    ensures |file| < Header0Size ==> r == Failure(TooShort(|file|, Header0Size))
  {
    InfoUnder(file, Cipher(RockchipKey))
  }

  /** `verify_rksd_image(image_file)`. */
  function VerifyRksdImage(fs: FileSystem, imagePath: string): (r: Result<RksdInfo>)
  {
    if imagePath !in fs then Failure(FileNotFound(imagePath)) else ImageInfo(fs[imagePath])
  }

  /** `verify_rksd_image`: decrypt and parse header0, check its signature, then look the SPL magic up. */
  method VerifyRksd(fs: FileSystem, imagePath: string) returns (r: Result<RksdInfo>)
    ensures r == VerifyRksdImage(fs, imagePath)
  {
    if imagePath !in fs {
      return Failure(FileNotFound(imagePath));
    }
    var file := fs[imagePath];
    var header0Bytes := Rc4Crypt(ReadAt(file, 0, RkBlkSize), RockchipKey);
    var header0 := Header0FromBytes(header0Bytes);
    if header0.Failure? {
      return Failure(header0.error);
    }
    var h := header0.value;
    if h.signature != RkSignature {
      return Failure(BadSignature(h.signature));
    }
    var header1 := ReadAt(file, RkSplHdrStart, 4);
    var chipName := FindChip(header1);
    return Success(RksdInfo(h.signature, chipName, header1, h.initOffset,
      h.initSize, h.initSize * RkBlkSize, h.initBootSize, h.disableRc4, |file|));
  }

  /**
   * Verifying a created image decrypts header0 back to what `create`
   * built: the signature, offset 4, both block counts and the RC4 flag,
   * with the chip found from the first four bytes of the SPL region.
   */
  lemma VerifyCreated(fs: FileSystem, splPath: string, chip: string, maxBootSize: int)
    requires RksdImage(fs, splPath, chip, maxBootSize).Success?
    ensures var config := ChipConfigOf(chip).value;
      var spl := fs[splPath];
      var h := RksdHeader0(config, |spl|, maxBootSize);
      var image := RksdImage(fs, splPath, chip, maxBootSize).value;
      var magic := ReadAt(SplImage(spl, h.initSize, config.splRc4), 0, 4);
      ImageInfo(image) == Success(RksdInfo(RkSignature, ChipNameFor(magic), magic, RkInitOffset,
        h.initSize, h.initSize * RkBlkSize, h.initBootSize, h.disableRc4, |image|))
  {
    var config := ChipConfigOf(chip).value;
    var spl := fs[splPath];
    var h := RksdHeader0(config, |spl|, maxBootSize);
    var image := RksdImage(fs, splPath, chip, maxBootSize).value;
    var splPart := SplImage(spl, h.initSize, config.splRc4);
    RksdImageLayout(fs, splPath, chip, maxBootSize);
    Header0RoundTrip(h);
    assert ReadAt(image, 0, RkBlkSize) == image[..Header0Size];
    ReadAtDrop(image, RkSplHdrStart, 4);
  }

  /** Reading from `off` is reading the part after `off` from its start. */
  lemma ReadAtDrop(file: seq<byte>, off: nat, n: nat)
    requires off <= |file|
    ensures ReadAt(file, off, n) == ReadAt(file[off..], 0, n)
  {
  }

  /** A plain SPL of four bytes or more shows its own first four bytes as the magic. */
  lemma PlainSplMagic(spl: seq<byte>, initSize: nat)
    requires |spl| >= 4 && |spl| <= initSize * RkBlkSize
    ensures ReadAt(SplImage(spl, initSize, false), 0, 4) == spl[..4]
  {
    var padded := PadRight(spl, initSize * RkBlkSize);
    assert padded[..4] == padded[..|spl|][..4];
  }

  /** The same report with another file size; an error is kept as it is. */
  function WithFileSize(r: Result<RksdInfo>, fileSize: nat): Result<RksdInfo>
  {
    if r.Success? then Success(r.value.(fileSize := fileSize)) else r
  }

  /**
   * Appending to an image of at least 2052 bytes leaves what
   * `verify_rksd_image` reports unchanged but for the file size.
   */
  lemma AppendKeepsInfo(file: seq<byte>, data: seq<byte>)
    requires |file| >= RkSplHdrStart + 4
    ensures ImageInfo(file + data) == WithFileSize(ImageInfo(file), |file| + |data|)
  {
    AppendKeepsInfoUnder(file, data, Cipher(RockchipKey));
  }

  /** The same under any decryption of header0: only the two headers and the size are read. */
  lemma AppendKeepsInfoUnder(file: seq<byte>, data: seq<byte>, decrypt: seq<byte> -> seq<byte>)
    requires |file| >= RkSplHdrStart + 4
    ensures InfoUnder(file + data, decrypt) == WithFileSize(InfoUnder(file, decrypt), |file| + |data|)
  {
    var block := ReadAt(file + data, 0, RkBlkSize);
    var header1 := ReadAt(file + data, RkSplHdrStart, 4);
    assert block == ReadAt(file, 0, RkBlkSize) by {
      SliceLeft(file, data, 0, RkBlkSize);
    }
    assert header1 == ReadAt(file, RkSplHdrStart, 4) by {
      SliceLeft(file, data, RkSplHdrStart, RkSplHdrStart + 4);
    }
    ReportSize(decrypt(block), header1, |file|, |file| + |data|);
  }

  /** The file size is only copied into the report. */
  lemma ReportSize(header0Bytes: seq<byte>, header1: seq<byte>, n: nat, m: nat)
    ensures Report(header0Bytes, header1, m) == WithFileSize(Report(header0Bytes, header1, n), m)
  {
  }
}
