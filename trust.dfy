/**
 * The trust image merger (`trust_merger.py`): BL31 (ARM Trusted Firmware)
 * and BL32 (OP-TEE) binaries, or the PT_LOAD segments of their ELF files,
 * packed behind a 2048-byte header into one image that is stored twice in
 * a 4 MiB file, and the unpacker that reads such an image back.
 *
 * Layout of one image with `n` components (offsets in bytes):
 *   0     tag "BL3X", version (BCD), flags, size field, 784 reserved bytes
 *   800   `n` component records of 48 bytes: SHA-256 hash, load address
 *   800 + 48n          256 bytes of signature (left zero)
 *   1056 + 48n         `n` storage records of 16 bytes: id, offset, size
 *   2048  the components' data, each padded to a multiple of 2048 bytes
 */
module Trust {
  import opened Bytes
  import opened Results
  import opened Struct
  import opened Elf

  const TrustHeaderSize: nat := 2048
  /** Where the component records start: the size of the header structure proper. */
  const TrustHeaderStructSize: nat := 800
  const SignatureSize: nat := 256
  const EntryAlign: nat := 2048
  /** `TRUST_MAX_SIZE`: the room for one copy of the image. */
  const TrustMaxSize: nat := 0x20_0000
  /** `TRUST_MAX_NUM`: the number of copies in the written file. */
  const TrustMaxNum: nat := 2

  /** `b'BL3X'`. */
  const TrustTag: seq<byte> := [0x42, 0x4C, 0x33, 0x58]
  /** `b'BL31'` and `b'BL32'`. */
  const Bl31Id: seq<byte> := [0x42, 0x4C, 0x33, 0x31]
  const Bl32Id: seq<byte> := [0x42, 0x4C, 0x33, 0x32]

  /** `RSAMode`: NONE, PKCS1_V15, PKCS1_V15_RSA2048, PKCS1_V21, PKCS1_V21_NEW. */
  type RsaMode = m: nat | m <= 4
  /** `SHAMode`: NONE, SHA1, SHA256_RK, SHA256. */
  type ShaMode = m: nat | m <= 3

  /** A `BL31_OPTION` or `BL32_OPTION` section: the binary's path and load address. */
  datatype BinaryEntry = BinaryEntry(path: string, address: int)

  /** The parsed RKTRUST configuration: the version pair and the two optional binaries. */
  datatype TrustConfig = TrustConfig(major: int, minor: int, bl31: Option<BinaryEntry>, bl32: Option<BinaryEntry>)

  /** One piece of the image: a whole binary, or one PT_LOAD segment of an ELF file. */
  datatype BLComponent = BLComponent(
    componentId: seq<byte>, path: string, loadAddr: int, offset: nat, size: nat, alignSize: nat)

  // ------------------------------------------------------- header fields

  /** `align_size`: a positive size rounded up to a multiple of `alignment`; other sizes unchanged. */
  function AlignSize(size: int, alignment: int): (r: int)
    requires alignment > 0
    ensures size > 0 ==> r % alignment == 0 && size <= r < size + alignment
    ensures size <= 0 ==> r == size
  {
    if size > 0 then
      var q := (size - 1) / alignment;
      DivBounds(size - 1, alignment);
      assert (q + 1) * alignment == q * alignment + alignment;
      DivModUnique((q + 1) * alignment, alignment, q + 1, 0);
      (q + 1) * alignment
    else size
  }

  /**
   * `get_bcd`: the last two decimal digits as two nibbles.  The source
   * computes `((v // 10) << 4) | (v % 10)`; the low four bits of a
   * multiple of 16 are clear and `v % 10` is below 10, so the `|` adds.
   * A negative value (which the source does not reduce) stays negative.
   */
  function GetBcd(value: int): (r: int)
    ensures value >= 0 ==> 0 <= r < 0xA0 && r / 16 == (value % 100) / 10 && r % 16 == value % 10
    ensures value < 0 <==> r < 0
  {
    var v := if value > 99 then value % 100 else value;
    BcdDigits(value, v);
    (v / 10) * 16 + v % 10
  }

  /** The nibbles of `get_bcd` are the quotient and remainder by 10 of the reduced value. */
  lemma BcdDigits(value: int, v: int)
    requires v == if value > 99 then value % 100 else value
    ensures (v / 10) * 16 + v % 10 == 16 * (v / 10) + v % 10
    ensures value >= 0 ==> 0 <= v < 100 && v == value % 100 && v % 10 == value % 10 && 0 <= v / 10 < 10
    ensures value >= 0 ==> ((v / 10) * 16 + v % 10) / 16 == v / 10 && ((v / 10) * 16 + v % 10) % 16 == v % 10
    ensures value < 0 ==> v / 10 < 0
  {
    var t, u := v / 10, v % 10;
    DivBounds(v, 10);
    if value >= 0 {
      DivModUnique(value, 100, value / 100, value % 100);
      if value <= 99 {
        DivModUnique(value, 100, 0, value);
      }
      DivModUnique(value, 10, 10 * (value / 100) + t, u);
      DivModUnique(t * 16 + u, 16, t, u);
    }
  }

  /**
   * `(major_bcd << 8) | minor_bcd` as `struct.pack_into("<I")` accepts it:
   * for non-negative versions the two BCD bytes side by side; a negative
   * version makes the packed value negative, and the pack raises.
   */
  function VersionValue(major: int, minor: int): (r: Result<nat>)
    ensures r.Success? <==> major >= 0 && minor >= 0
    ensures r.Failure? ==> r.error == StructError
    ensures r.Success? ==> r.value < 0x1_0000 && r.value / 256 == GetBcd(major) && r.value % 256 == GetBcd(minor)
  {
    var majorBcd := GetBcd(major);
    var minorBcd := GetBcd(minor);
    if majorBcd >= 0 && minorBcd >= 0 then Success(majorBcd * 256 + minorBcd) else Failure(StructError)
  }

  /** `(sha_mode & 0xF) | ((rsa_mode & 0xF) << 4)`: the SHA mode in bits 0-3, the RSA mode in bits 4-7. */
  function Flags(sha: ShaMode, rsa: RsaMode): (r: nat)
    ensures r < 256 && r % 16 == sha && r / 16 == rsa
  {
    sha + 16 * rsa
  }

  /** Python's `a | b` on non-negative integers, bit by bit from the lowest. */
  function BitOr(a: nat, b: nat): (r: nat)
    decreases a + b
  {
    if a == 0 then b
    else if b == 0 then a
    else 2 * BitOr(a / 2, b / 2) + (if a % 2 == 1 || b % 2 == 1 then 1 else 0)
  }

  /** The defining step of `|` holds for zero operands too. */
  lemma BitOrStep(a: nat, b: nat)
    ensures BitOr(a, b) == 2 * BitOr(a / 2, b / 2) + (if a % 2 == 1 || b % 2 == 1 then 1 else 0)
  {
    if a == 0 {
      assert BitOr(0, b / 2) == b / 2;
    } else if b == 0 {
      assert BitOr(a / 2, 0) == a / 2;
    }
  }

  lemma {:induction false} BitOrAtLeast(a: nat, b: nat)
    ensures BitOr(a, b) >= a
    decreases a + b
  {
    if a != 0 && b != 0 {
      BitOrAtLeast(a / 2, b / 2);
    }
  }

  lemma DivModUnique(x: int, d: int, q: int, r: int)
    requires d > 0 && 0 <= r < d && x == q * d + r
    ensures x / d == q && x % d == r
  {
    var q', r' := x / d, x % d;
    assert q' * d + r' == q * d + r;
    if q' < q {
      MulMonotone(q' + 1, q, d);
    } else if q' > q {
      MulMonotone(q + 1, q', d);
    }
  }

  /** The low `k` bits of `x` are its lowest bit and the low `k - 1` bits of `x / 2`. */
  lemma ModPow2Step(x: nat, k: nat)
    requires k > 0
    ensures x % Pow2(k) == 2 * ((x / 2) % Pow2(k - 1)) + x % 2
    ensures x / Pow2(k) == (x / 2) / Pow2(k - 1)
  {
    var p := Pow2(k - 1);
    var q, r := x / 2, x % 2;
    var t, s := q / p, q % p;
    assert q == t * p + s;
    assert x == t * (2 * p) + (2 * s + r);
    DivModUnique(x, 2 * p, t, 2 * s + r);
  }

  /** The low `k` bits of `x`, and the bits above them, one bit at a time. */
  function Low(x: nat, k: nat): (r: nat)
  {
    if k == 0 then 0 else x % 2 + 2 * Low(x / 2, k - 1)
  }

  function High(x: nat, k: nat): (r: nat)
  {
    if k == 0 then x else High(x / 2, k - 1)
  }

  /** The low bits are the remainder by `2^k`, the high bits the quotient. */
  lemma {:induction false} LowHighDiv(x: nat, k: nat)
    ensures Low(x, k) == x % Pow2(k) && High(x, k) == x / Pow2(k)
  {
    if k > 0 {
      LowHighDiv(x / 2, k - 1);
      ModPow2Step(x, k);
    }
  }

  /** `|` works on the low `k` bits and on the bits above them separately. */
  lemma {:induction false} BitOrSplit(a: nat, b: nat, k: nat)
    ensures Low(BitOr(a, b), k) == BitOr(Low(a, k), Low(b, k))
    ensures High(BitOr(a, b), k) == BitOr(High(a, k), High(b, k))
  {
    if k > 0 {
      var x := BitOr(a, b);
      var bit := if a % 2 == 1 || b % 2 == 1 then 1 else 0;
      BitOrStep(a, b);
      DivMod2(x, bit, BitOr(a / 2, b / 2));
      BitOrSplit(a / 2, b / 2, k - 1);
      var la, lb := Low(a, k), Low(b, k);
      DivMod2(la, a % 2, Low(a / 2, k - 1));
      DivMod2(lb, b % 2, Low(b / 2, k - 1));
      BitOrStep(la, lb);
    }
  }

  lemma {:induction false} Pow2Add(a: nat, b: nat)
    ensures Pow2(a + b) == Pow2(a) * Pow2(b)
  {
    if b > 0 {
      Pow2Add(a, b - 1);
      assert Pow2(a + b) == 2 * Pow2(a + (b - 1));
    }
  }

  lemma Pow2Sixteen()
    ensures Pow2(16) == 0x1_0000 && Pow2(32) == 0x1_0000_0000
  {
    Pow2Eight();
    Pow2Add(8, 8);
    Pow2Add(16, 16);
  }

  /** `sign_offset`: the records end where the signature starts. */
  function SignOffset(n: nat): (r: nat)
  {
    TrustHeaderStructSize + 48 * n
  }

  /** `(num_components << 16) | (sign_offset >> 2)`. */
  function SizeValue(n: nat): (r: nat)
  {
    BitOr(n * 0x1_0000, SignOffset(n) / 4)
  }

  /** What `unpack` makes of a size field: `(f >> 16) & 0xFFFF` components, the signature at `(f & 0xFFFF) << 2`. */
  function DecodedCount(field: nat): (r: nat)
  {
    (field / 0x1_0000) % 0x1_0000
  }

  function DecodedSignOffset(field: nat): (r: nat)
  {
    (field % 0x1_0000) * 4
  }

  /** The size field fits the `<I` it is packed into exactly when the count fits 16 bits. */
  lemma SizeValueFits(n: nat)
    ensures SizeValue(n) < 0x1_0000_0000 <==> n < 0x1_0000
  {
    var a, b := n * 0x1_0000, SignOffset(n) / 4;
    BitOrAtLeast(a, b);
    if n < 0x1_0000 {
      Pow2Sixteen();
      BitOrSplit(a, b, 32);
      LowHighDiv(a, 32);
      LowHighDiv(b, 32);
      LowHighDiv(SizeValue(n), 32);
      DivModUnique(a, 0x1_0000_0000, 0, a);
      DivModUnique(b, 0x1_0000_0000, 0, b);
      assert BitOr(High(a, 32), High(b, 32)) == BitOr(0, 0) == 0;
      DivBounds(SizeValue(n), 0x1_0000_0000);
    } else {
      MulMonotone(0x1_0000, n, 0x1_0000);
    }
  }

  /** `sign_offset` is a multiple of 4, so `>> 2` loses nothing. */
  lemma SignOffsetQuarter(n: nat)
    ensures SignOffset(n) / 4 == 200 + 12 * n && SignOffset(n) % 4 == 0
  {
    DivModUnique(SignOffset(n), 4, 200 + 12 * n, 0);
  }

  /**
   * Unpacking the size field gives back both the count and the signature
   * offset exactly when the count is at most 5444: from 5445 components on,
   * `sign_offset >> 2` no longer fits its 16 bits and spills into the count.
   */
  lemma SizeValueDecodes(n: nat)
    requires n < 0x1_0000
    ensures DecodedCount(SizeValue(n)) == n && DecodedSignOffset(SizeValue(n)) == SignOffset(n) <==> n <= 5444
    ensures n <= 5444 ==> SizeValue(n) == n * 0x1_0000 + SignOffset(n) / 4
  {
    Pow2Sixteen();
    var a, b := n * 0x1_0000, SignOffset(n) / 4;
    var v := SizeValue(n);
    SignOffsetQuarter(n);
    BitOrSplit(a, b, 16);
    LowHighDiv(a, 16);
    LowHighDiv(b, 16);
    LowHighDiv(v, 16);
    LowHighDiv(n, 16);
    DivModUnique(a, 0x1_0000, n, 0);
    assert Low(a, 16) == 0 && High(a, 16) == n;
    assert Low(v, 16) == BitOr(0, Low(b, 16)) == b % 0x1_0000;
    assert DecodedSignOffset(v) == (b % 0x1_0000) * 4;
    if n <= 5444 {
      DivModUnique(b, 0x1_0000, 0, b);
      assert High(v, 16) == BitOr(n, 0) == n;
      DivModUnique(n, 0x1_0000, 0, n);
      DivBounds(v, 0x1_0000);
      assert v == High(v, 16) * 0x1_0000 + Low(v, 16);
    } else {
      DivBounds(b, 0x1_0000);
      assert b % 0x1_0000 < b;
    }
  }

  // ---------------------------------------------------------- components

  /** Every component the merger builds has its size rounded up to the entry alignment. */
  predicate Aligned(c: BLComponent)
  {
    c.alignSize == AlignSize(c.size, EntryAlign)
  }

  /** `BLComponent.from_binary_entry`: the whole file, loaded at the configured address. */
  function FromBinaryEntry(entry: BinaryEntry, id: seq<byte>, fileSize: nat): (c: BLComponent)
    ensures Aligned(c)
  {
    BLComponent(id, entry.path, entry.address, 0, fileSize, AlignSize(fileSize, EntryAlign))
  }

  /** `BLComponent.from_elf`: one PT_LOAD segment, loaded at its virtual address. */
  function FromElf(entry: BinaryEntry, id: seq<byte>, segment: ElfSegment): (c: BLComponent)
    ensures Aligned(c)
  {
    BLComponent(id, entry.path, segment.vaddr, segment.offset, segment.filesz, AlignSize(segment.filesz, EntryAlign))
  }

  /** One component per segment, in segment order. */
  function ElfComponents(entry: BinaryEntry, id: seq<byte>, segments: seq<ElfSegment>): (r: seq<BLComponent>)
    ensures |r| == |segments|
  {
    if segments == [] then []
    else ElfComponents(entry, id, segments[..|segments| - 1]) + [FromElf(entry, id, segments[|segments| - 1])]
  }

  lemma {:induction false} ElfComponentsAt(entry: BinaryEntry, id: seq<byte>, segments: seq<ElfSegment>, i: nat)
    requires i < |segments|
    ensures ElfComponents(entry, id, segments)[i] == FromElf(entry, id, segments[i])
  {
    if i < |segments| - 1 {
      ElfComponentsAt(entry, id, segments[..|segments| - 1], i);
    }
  }

  /**
   * What one configured, existing binary contributes: the PT_LOAD segments
   * of an ELF file, or the whole file when the ELF parser raises its
   * ValueError.  A short read inside the parser raises struct.error, which
   * the `except ValueError` does not catch.
   */
  function EntryComponents(entry: BinaryEntry, id: seq<byte>, file: seq<byte>): (r: Result<seq<BLComponent>>)
  {
    var parsed := ElfSegments(file);
    if parsed.Success? then Success(ElfComponents(entry, id, parsed.value))
    else if parsed.error == StructError then Failure(StructError)
    else Success([FromBinaryEntry(entry, id, |file|)])
  }

  /** A configured binary whose file exists contributes its components; otherwise nothing. */
  function OptionalComponents(entry: Option<BinaryEntry>, id: seq<byte>, fs: FileSystem): (r: Result<seq<BLComponent>>)
  {
    if entry.Some? && entry.value.path in fs then EntryComponents(entry.value, id, fs[entry.value.path])
    else Success([])
  }

  /** `_prepare_components`: the BL31 components, then the BL32 ones. */
  function Components(config: TrustConfig, fs: FileSystem): (r: Result<seq<BLComponent>>)
  {
    var bl31 :- OptionalComponents(config.bl31, Bl31Id, fs);
    var bl32 :- OptionalComponents(config.bl32, Bl32Id, fs);
    Success(bl31 + bl32)
  }

  /** Every component of one binary carries its id, its path and its size rounded up. */
  predicate ComponentsOf(cs: seq<BLComponent>, id: seq<byte>, path: string)
  {
    forall i :: 0 <= i < |cs| ==> cs[i].componentId == id && cs[i].path == path && Aligned(cs[i])
  }

  lemma EntryComponentsShape(entry: BinaryEntry, id: seq<byte>, file: seq<byte>)
    ensures EntryComponents(entry, id, file).Success? ==> ComponentsOf(EntryComponents(entry, id, file).value, id, entry.path)
  {
    var parsed := ElfSegments(file);
    if parsed.Success? {
      forall i | 0 <= i < |parsed.value| {
        ElfComponentsAt(entry, id, parsed.value, i);
      }
    }
  }

  /**
   * The components come in configuration order: first those of BL31's
   * file, all tagged "BL31", then those of BL32's, all tagged "BL32"; each
   * has its size rounded up to 2048 bytes and reads an existing file.
   */
  lemma ComponentsOrder(config: TrustConfig, fs: FileSystem)
    requires Components(config, fs).Success?
    ensures var cs := Components(config, fs).value;
      exists k :: 0 <= k <= |cs| &&
        (k > 0 ==> config.bl31.Some? && ComponentsOf(cs[..k], Bl31Id, config.bl31.value.path)) &&
        (k < |cs| ==> config.bl32.Some? && ComponentsOf(cs[k..], Bl32Id, config.bl32.value.path))
    ensures forall i :: 0 <= i < |Components(config, fs).value| ==> Components(config, fs).value[i].path in fs
  {
    var bl31 := OptionalComponents(config.bl31, Bl31Id, fs).value;
    var bl32 := OptionalComponents(config.bl32, Bl32Id, fs).value;
    var cs := bl31 + bl32;
    if config.bl31.Some? && config.bl31.value.path in fs {
      EntryComponentsShape(config.bl31.value, Bl31Id, fs[config.bl31.value.path]);
    }
    if config.bl32.Some? && config.bl32.value.path in fs {
      EntryComponentsShape(config.bl32.value, Bl32Id, fs[config.bl32.value.path]);
    }
    assert cs[..|bl31|] == bl31 && cs[|bl31|..] == bl32;
  }

  /** An ELF file yields one component per PT_LOAD segment: its vaddr, file offset and file size. */
  lemma ElfEntryComponents(entry: BinaryEntry, id: seq<byte>, file: seq<byte>)
    requires ElfSegments(file).Success?
    ensures var segments := ElfSegments(file).value;
      EntryComponents(entry, id, file).Success? &&
      var cs := EntryComponents(entry, id, file).value;
      |cs| == |segments| &&
      forall i :: 0 <= i < |cs| ==>
        cs[i].loadAddr == segments[i].vaddr && cs[i].offset == segments[i].offset && cs[i].size == segments[i].filesz
  {
    var segments := ElfSegments(file).value;
    forall i | 0 <= i < |segments| {
      ElfComponentsAt(entry, id, segments, i);
    }
  }

  /** An ELF file without PT_LOAD segments contributes nothing. */
  lemma NoLoadContributesNothing(entry: BinaryEntry, id: seq<byte>, file: seq<byte>)
    requires ElfSegments(file) == Success([])
    ensures EntryComponents(entry, id, file) == Success([])
  {
  }

  /** A file the ELF parser rejects is taken whole: offset 0, its size, the configured address. */
  lemma BinaryEntryComponent(entry: BinaryEntry, id: seq<byte>, file: seq<byte>)
    requires |file| >= 4 && LeValue(file[..4]) != ElfMagic
    ensures EntryComponents(entry, id, file) == Success([BLComponent(id, entry.path, entry.address, 0, |file|, AlignSize(|file|, EntryAlign))])
  {
    ElfSegmentsRejects(file);
  }

  /** A file too short for the ELF magic fails the whole pack with struct.error. */
  lemma ShortFileFails(entry: BinaryEntry, id: seq<byte>, file: seq<byte>)
    requires |file| < 4
    ensures EntryComponents(entry, id, file) == Failure(StructError)
  {
    ElfSegmentsRejects(file);
  }

  /** The body of one `try` in `_prepare_components`: parse, then append a component per segment. */
  method EntryComponentsOf(entry: BinaryEntry, id: seq<byte>, file: seq<byte>) returns (r: Result<seq<BLComponent>>)
    ensures r == EntryComponents(entry, id, file)
  {
    var parsed := ParseElfSegments(file);
    if parsed.Failure? {
      if parsed.error == StructError {
        return Failure(StructError);
      }
      return Success([FromBinaryEntry(entry, id, |file|)]);
    }
    var segments := parsed.value;
    var components: seq<BLComponent> := [];
    var i := 0;
    while i < |segments|
      invariant 0 <= i <= |segments|
      invariant components == ElfComponents(entry, id, segments[..i])
    {
      assert segments[..i + 1][..i] == segments[..i];
      components := components + [FromElf(entry, id, segments[i])];
      i := i + 1;
    }
    assert segments[..i] == segments;
    return Success(components);
  }

  /** One `if ... exists()` block of `_prepare_components`. */
  method OptionalComponentsOf(entry: Option<BinaryEntry>, id: seq<byte>, fs: FileSystem) returns (r: Result<seq<BLComponent>>)
    ensures r == OptionalComponents(entry, id, fs)
  {
    if entry.Some? && entry.value.path in fs {
      r := EntryComponentsOf(entry.value, id, fs[entry.value.path]);
    } else {
      r := Success([]);
    }
  }

  /** `_prepare_components`: the BL31 block, then the BL32 block. */
  method PrepareComponents(config: TrustConfig, fs: FileSystem) returns (r: Result<seq<BLComponent>>)
    ensures r == Components(config, fs)
  {
    var bl31 := OptionalComponentsOf(config.bl31, Bl31Id, fs);
    if bl31.Failure? {
      return Failure(bl31.error);
    }
    var bl32 := OptionalComponentsOf(config.bl32, Bl32Id, fs);
    if bl32.Failure? {
      return Failure(bl32.error);
    }
    return Success(bl31.value + bl32.value);
  }
}
