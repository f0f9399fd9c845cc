/**
 * The generic Rockchip firmware header: its magic number, the chip
 * identifiers, the defaults of the header record and the magic check that
 * recognises a Rockchip image by its first four bytes.
 */
module Header {
  import opened Bytes

  /** 0x0FF0AA55, stored little-endian as the first word of an image. */
  const RkHeaderMagic: u32 := 0x0FF0_AA55
  /** Bytes 55 AA F0 0F: the magic as it appears in a file. */
  const MagicBytes: seq<byte> := [0x55, 0xAA, 0xF0, 0x0F]
  const HeaderSize: nat := 512

  datatype RKChip = RK3399 | RK3588 | RK3568 {
    function Code(): u32
    {
      match this
      case RK3399 => 0x3333_3339
      case RK3588 => 0x3335_3838
      case RK3568 => 0x3335_3638
    }
  }

  datatype RKHeader = RKHeader(magic: int, chip: int, loadAddr: int, dataSize: int)

  /** `RKHeader()` with every field left at its default. */
  function DefaultHeader(): (h: RKHeader)
  {
    RKHeader(RkHeaderMagic, RK3399.Code(), 0x20_0000, 0)
  }

  /** `validate_header(data)`. */
  function ValidateHeader(data: seq<byte>): (ok: bool)
    ensures ok <==> |data| >= 4 && data[..4] == MagicBytes
  {
    MagicEncoding();
    if |data| < 4 then false
    else
      var magic := LeValue(data[..4]);
      MagicDecodes(data[..4]);
      magic == RkHeaderMagic
  }

  lemma MagicEncoding()
    ensures LeValue(MagicBytes) == RkHeaderMagic
    ensures Le32(RkHeaderMagic) == MagicBytes
  {
    LeBytesOfLeValue(MagicBytes);
  }

  /** Four bytes decode to the magic exactly when they are the magic's bytes. */
  lemma MagicDecodes(w: seq<byte>)
    requires |w| == 4
    ensures LeValue(w) == RkHeaderMagic <==> w == MagicBytes
  {
    MagicEncoding();
    if LeValue(w) == RkHeaderMagic {
      LeValueInjective(w, MagicBytes);
    }
  }

  /** Only the first four bytes are looked at: whatever follows them never changes the verdict. */
  lemma ValidateHeaderPrefix(a: seq<byte>, b: seq<byte>)
    requires |a| >= 4
    ensures ValidateHeader(a + b) == ValidateHeader(a)
    ensures ValidateHeader(a) == ValidateHeader(a[..4])
  {
    assert (a + b)[..4] == a[..4];
    assert a[..4][..4] == a[..4];
  }

  /** The cases of the header tests: the magic alone passes; zeros and a two-byte prefix of it fail. */
  lemma ValidateHeaderExamples()
    ensures ValidateHeader([0x55, 0xAA, 0xF0, 0x0F])
    ensures !ValidateHeader([0x00, 0x00, 0x00, 0x00])
    ensures !ValidateHeader([0x55, 0xAA])
  {
    assert [0x55, 0xAA, 0xF0, 0x0F][..4] == MagicBytes;
    var zeros: seq<byte> := [0x00, 0x00, 0x00, 0x00];
    assert zeros[..4][0] != MagicBytes[0];
  }

  /** A default header carries the magic (so its encoding validates) and loads at 0x200000. */
  lemma DefaultHeaderValid()
    ensures DefaultHeader().magic == RkHeaderMagic
    ensures DefaultHeader().loadAddr == 0x20_0000
    ensures ValidateHeader(Le32(DefaultHeader().magic))
  {
    MagicEncoding();
    assert Le32(DefaultHeader().magic)[..4] == MagicBytes;
  }
}
