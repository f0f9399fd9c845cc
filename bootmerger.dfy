/**
 * `BootMerger.pack` and `BootMerger.unpack`: the loader image is the boot
 * header, one 54-byte entry per DDR (CODE471) binary and per loader binary,
 * the binaries themselves zero-padded to 2048-byte multiples in the same
 * order, and the CRC-32 of all of that, little-endian; with RC4 enabled the
 * finished file is encrypted once as a whole.
 *
 * Files are read from a file system given as a map from paths to contents;
 * the release time is a parameter rather than the clock.  The written image
 * is the result of `PackImage`, and what `unpack` writes into its output
 * directory is the list of `Extracted` files returned by `UnpackImage`, in
 * the order they are written.
 */
module BootMerger {
  import opened Bytes
  import opened Results
  import opened BootFormat
  import opened Checksum
  import opened Rc4

  /** A binary named in the ini file; `stem` is the file name without its extension (`Path.stem`). */
  datatype BinaryEntry = BinaryEntry(path: string, stem: string, address: int)

  /** The parts of the parsed RKBOOT configuration that the merger reads. */
  datatype BootConfig = BootConfig(
    chipName: string, major: int, minor: int,
    ddrBins: seq<BinaryEntry>, loaderBins: seq<BinaryEntry>)

  predicate AllPresent(bins: seq<BinaryEntry>, fs: FileSystem)
  {
    forall i :: 0 <= i < |bins| ==> bins[i].path in fs
  }

  // ---------------------------------------------------- existence checks

  /** The position of the first binary whose file does not exist, or `|bins|` when all do. */
  function FirstMissing(bins: seq<BinaryEntry>, fs: FileSystem): (r: nat)
    ensures r <= |bins|
    ensures forall j :: 0 <= j < r ==> bins[j].path in fs
    ensures r < |bins| ==> bins[r].path !in fs
    ensures r == |bins| <==> AllPresent(bins, fs)
  {
    if bins == [] then 0
    else if bins[0].path !in fs then 0
    else
      var rest := FirstMissing(bins[1..], fs);
      assert forall j :: 0 < j <= rest ==> bins[j] == bins[1..][j - 1];
      1 + rest
  }

  /** The existence loop of `pack`: it stops at the first binary that is not there. */
  method CheckPresent(bins: seq<BinaryEntry>, fs: FileSystem) returns (missing: nat)
    ensures missing == FirstMissing(bins, fs)
  {
    missing := 0;
    while missing < |bins| && bins[missing].path in fs
      invariant missing <= |bins|
      invariant forall j :: 0 <= j < missing ==> bins[j].path in fs
    {
      missing := missing + 1;
    }
    FirstMissingUnique(bins, fs, missing);
  }

  /** Only one position has all binaries before it present and itself missing. */
  lemma FirstMissingUnique(bins: seq<BinaryEntry>, fs: FileSystem, m: nat)
    requires m <= |bins|
    requires forall j :: 0 <= j < m ==> bins[j].path in fs
    requires m < |bins| ==> bins[m].path !in fs
    ensures m == FirstMissing(bins, fs)
  {
  }

  // ------------------------------------------------------------ header

  /** `_build_header`: the release time is `now`; the chip name may not be encodable. */
  function BuildHeader(config: BootConfig, now: RKTime, enableRc4: bool): (r: Result<RKBootHeader>)
  {
    var chipType :- GetChipType(config.chipName);
    var code471Num := |config.ddrBins|;
    var code472Num := 0;
    var code471Offset := HeaderSize;
    var code472Offset := code471Offset + code471Num * EntrySize;
    var loaderOffset := code472Offset + code472Num * EntrySize;
    // `(get_bcd(major) << 8) | get_bcd(minor)`: the two bytes do not overlap, so the or is a sum.
    var version := GetBcd(config.major) * 256 + GetBcd(config.minor);
    Success(RKBootHeader(
      TagBoot, HeaderSize, version, MergerVersion, now, chipType,
      code471Num, code471Offset, EntrySize,
      code472Num, code472Offset, EntrySize,
      |config.loaderBins|, loaderOffset, EntrySize,
      0, if enableRc4 then 0 else 1, Zeros(BootReservedSize)))
  }

  /** `_calculate_data_offset`: the payloads start right after the last entry record. */
  function DataOffset(h: RKBootHeader): (r: int)
  {
    HeaderSize + (h.code471Num + h.code472Num + h.loaderNum) * EntrySize
  }

  /**
   * What the built header says: the version bytes are the BCD digits of
   * major and minor, the three entry tables follow the header back to back,
   * the data starts where the last table ends, and the RC4 flag is 0
   * exactly when RC4 is on.
   */
  lemma BuildHeaderFields(config: BootConfig, now: RKTime, enableRc4: bool)
    ensures BuildHeader(config, now, enableRc4).Success? <==> GetChipType(config.chipName).Success?
    ensures BuildHeader(config, now, enableRc4).Success? ==>
      var h := BuildHeader(config, now, enableRc4).value;
      h.tag == TagBoot && h.chipType == GetChipType(config.chipName).value && h.releaseTime == now &&
      h.version / 256 == GetBcd(config.major) && h.version % 256 == GetBcd(config.minor) &&
      h.code471Num == |config.ddrBins| && h.code472Num == 0 && h.loaderNum == |config.loaderBins| &&
      h.code471Offset == HeaderSize &&
      h.code472Offset == h.code471Offset + h.code471Num * EntrySize &&
      h.loaderOffset == h.code472Offset + h.code472Num * EntrySize &&
      h.code471Size == EntrySize && h.code472Size == EntrySize && h.loaderSize == EntrySize &&
      DataOffset(h) == h.loaderOffset + h.loaderNum * EntrySize &&
      (h.rc4Flag == 0 <==> enableRc4) && (h.rc4Flag == 1 <==> !enableRc4) &&
      Normalized(h) == h
  {
  }

  // ----------------------------------------------------------- entries

  /** `_create_entry`: the entry for a file of `fileSize` bytes whose data is placed at `dataOffset`. */
  function CreateEntry(bin: BinaryEntry, entryType: EntryType, dataOffset: int, fileSize: nat, fix: bool): (e: RKBootEntry)
    ensures e.size == EntrySize && e.entryType == entryType && e.dataOffset == dataOffset && e.dataDelay == 0
    ensures e.name == StrToWide(bin.stem, MaxNameLen)
    ensures e.dataSize % EntryAlign == 0 && fileSize <= e.dataSize < fileSize + EntryAlign
  {
    EntryDataSizeBounds(fileSize, fix);
    RKBootEntry(EntrySize, entryType, StrToWide(bin.stem, MaxNameLen), dataOffset, EntryDataSize(fileSize, fix), 0)
  }

  /** `_write_entry_data`: the file zero-padded to its entry's data size. */
  function PaddedPayload(data: seq<byte>, fix: bool): (r: seq<byte>)
    ensures |r| == EntryDataSize(|data|, fix)
  {
    EntryDataSizeBounds(|data|, fix);
    PadRight(data, EntryDataSize(|data|, fix))
  }

  /** The padded payloads of `bins`, one per binary. */
  function PayloadChunks(bins: seq<BinaryEntry>, fs: FileSystem, fix: bool): (r: seq<seq<byte>>)
    ensures |r| == |bins|
  {
    seq(|bins|, k requires 0 <= k < |bins| => PaddedPayload(Contents(fs, bins[k].path), fix))
  }

  /** The padded payloads of `bins`, in order. */
  function Payloads(bins: seq<BinaryEntry>, fs: FileSystem, fix: bool): (r: seq<byte>)
  {
    Flatten(PayloadChunks(bins, fs, fix))
  }

  /** Where the `k`-th payload starts, counted from the first one: the space the earlier ones take up. */
  function PayloadOffset(bins: seq<BinaryEntry>, fs: FileSystem, fix: bool, k: nat): (r: nat)
    requires k <= |bins|
  {
    |Flatten(PayloadChunks(bins, fs, fix)[..k])|
  }

  /** Each payload starts where the one before it ends. */
  lemma PayloadOffsetNext(bins: seq<BinaryEntry>, fs: FileSystem, fix: bool, k: nat)
    requires k < |bins|
    ensures PayloadOffset(bins, fs, fix, k + 1) == PayloadOffset(bins, fs, fix, k) + EntryDataSize(|Contents(fs, bins[k].path)|, fix)
  {
    FlattenSnoc(PayloadChunks(bins, fs, fix), k);
  }

  /** The first payload starts at 0 and the last one ends with the whole run. */
  lemma PayloadOffsetEnds(bins: seq<BinaryEntry>, fs: FileSystem, fix: bool)
    ensures PayloadOffset(bins, fs, fix, 0) == 0
    ensures PayloadOffset(bins, fs, fix, |bins|) == |Payloads(bins, fs, fix)|
  {
    var chunks := PayloadChunks(bins, fs, fix);
    assert chunks[..0] == [];
    assert chunks[..|bins|] == chunks;
  }

  /** The `k`-th payload sits at its offset, padded to its entry's size. */
  lemma PayloadAt(bins: seq<BinaryEntry>, fs: FileSystem, fix: bool, k: nat)
    requires k < |bins|
    ensures var lo := PayloadOffset(bins, fs, fix, k);
      var p := PaddedPayload(Contents(fs, bins[k].path), fix);
      lo + |p| <= |Payloads(bins, fs, fix)| && Payloads(bins, fs, fix)[lo..lo + |p|] == p
  {
    var chunks := PayloadChunks(bins, fs, fix);
    assert chunks[k] == PaddedPayload(Contents(fs, bins[k].path), fix);
    FlattenAt(chunks, k);
  }

  /** The entries for `bins`, each one's data placed after the payloads of those before it. */
  function LayoutEntries(bins: seq<BinaryEntry>, fs: FileSystem, entryType: EntryType, start: int, fix: bool): (r: seq<RKBootEntry>)
    ensures |r| == |bins|
  {
    seq(|bins|, k requires 0 <= k < |bins| => EntryAt(bins, fs, entryType, start, fix, k))
  }

  /** The entry for the `k`-th binary, its data placed after the payloads of those before it. */
  function EntryAt(bins: seq<BinaryEntry>, fs: FileSystem, entryType: EntryType, start: int, fix: bool, k: nat): (e: RKBootEntry)
    requires k < |bins|
    ensures e.dataOffset == start + PayloadOffset(bins, fs, fix, k)
    ensures e.dataSize == |PaddedPayload(Contents(fs, bins[k].path), fix)|
    ensures e.entryType == entryType && e.name == StrToWide(bins[k].stem, MaxNameLen)
  {
    CreateEntry(bins[k], entryType, start + PayloadOffset(bins, fs, fix, k), |Contents(fs, bins[k].path)|, fix)
  }

  /** The first entry's data starts at `start`. */
  lemma LayoutFirst(bins: seq<BinaryEntry>, fs: FileSystem, entryType: EntryType, start: int, fix: bool)
    requires |bins| > 0
    ensures LayoutEntries(bins, fs, entryType, start, fix)[0].dataOffset == start
  {
    PayloadOffsetEnds(bins, fs, fix);
  }

  /** The offset chain of `pack`: every later entry's data starts where the previous one's ends. */
  lemma LayoutChain(bins: seq<BinaryEntry>, fs: FileSystem, entryType: EntryType, start: int, fix: bool, k: nat)
    requires k + 1 < |bins|
    ensures var r := LayoutEntries(bins, fs, entryType, start, fix);
      r[k + 1].dataOffset == r[k].dataOffset + r[k].dataSize
  {
    LayoutStep(bins, fs, entryType, start, fix, k);
  }

  /** The last entry's data ends where the payloads end. */
  lemma LayoutLast(bins: seq<BinaryEntry>, fs: FileSystem, entryType: EntryType, start: int, fix: bool)
    requires |bins| > 0
    ensures var r := LayoutEntries(bins, fs, entryType, start, fix);
      r[|r| - 1].dataOffset + r[|r| - 1].dataSize == start + |Payloads(bins, fs, fix)|
  {
    PayloadOffsetEnds(bins, fs, fix);
    LayoutStep(bins, fs, entryType, start, fix, |bins| - 1);
  }

  /** The `k`-th entry's data ends where the payloads of the first `k + 1` binaries end. */
  lemma LayoutStep(bins: seq<BinaryEntry>, fs: FileSystem, entryType: EntryType, start: int, fix: bool, k: nat)
    requires k < |bins|
    ensures var r := LayoutEntries(bins, fs, entryType, start, fix);
      r[k].dataOffset + r[k].dataSize == start + PayloadOffset(bins, fs, fix, k + 1)
  {
    PayloadOffsetNext(bins, fs, fix, k);
  }

  /** The entry loops of `pack`: each entry advances `data_offset` past its data. */
  method CreateEntries(bins: seq<BinaryEntry>, fs: FileSystem, entryType: EntryType, start: int, fix: bool)
    returns (entries: seq<RKBootEntry>, dataOffset: int)
    ensures entries == LayoutEntries(bins, fs, entryType, start, fix)
    ensures dataOffset == start + |Payloads(bins, fs, fix)|
  {
    entries := [];
    dataOffset := start;
    ghost var layout := LayoutEntries(bins, fs, entryType, start, fix);
    PayloadOffsetEnds(bins, fs, fix);
    for i := 0 to |bins|
      invariant entries == layout[..i]
      invariant dataOffset == start + PayloadOffset(bins, fs, fix, i)
    {
      var entry := CreateEntry(bins[i], entryType, dataOffset, |Contents(fs, bins[i].path)|, fix);
      LayoutStep(bins, fs, entryType, start, fix, i);
      assert layout[i] == entry;
      TakeSnoc(layout, i);
      entries := entries + [entry];
      dataOffset := entry.dataOffset + entry.dataSize;
    }
    assert layout[..|bins|] == layout;
    PayloadOffsetEnds(bins, fs, fix);
  }

  /** The entry records written one after the other; a field out of range raises struct.error. */
  function EntriesBytes(entries: seq<RKBootEntry>): (r: Result<seq<byte>>)
    ensures r.Success? ==> |r.value| == EntrySize * |entries|
  {
    if entries == [] then Success([])
    else
      var front :- EntriesBytes(entries[..|entries| - 1]);
      var last :- EntryToBytes(entries[|entries| - 1]);
      Success(front + last)
  }

  /** The `k`-th record sits at `54 * k`. */
  lemma {:induction false} EntriesBytesAt(entries: seq<RKBootEntry>, k: nat)
    requires EntriesBytes(entries).Success? && k < |entries|
    ensures EntryToBytes(entries[k]).Success?
    ensures EntriesBytes(entries).value[EntrySize * k..EntrySize * k + EntrySize] == EntryToBytes(entries[k]).value
  {
    var n := |entries|;
    var front := EntriesBytes(entries[..n - 1]).value;
    if k < n - 1 {
      EntriesBytesAt(entries[..n - 1], k);
      SliceLeft(front, EntryToBytes(entries[n - 1]).value, EntrySize * k, EntrySize * k + EntrySize);
    } else {
      SliceRight(front, EntryToBytes(entries[n - 1]).value, EntrySize * k, EntrySize * k + EntrySize);
    }
  }

  /** The entry-writing loops of `pack`. */
  method WriteEntries(entries: seq<RKBootEntry>) returns (r: Result<seq<byte>>)
    ensures r == EntriesBytes(entries)
  {
    var out := [];
    assert entries[..0] == [];
    for i := 0 to |entries|
      invariant EntriesBytes(entries[..i]) == Success(out)
    {
      assert entries[..i + 1][..i] == entries[..i];
      var record := EntryToBytes(entries[i]);
      if record.Failure? {
        EntriesBytesFail(entries, i + 1);
        return Failure(record.error);
      }
      out := out + record.value;
    }
    assert entries[..|entries|] == entries;
    return Success(out);
  }

  /** Once a prefix fails to encode, so does the whole list, with the same error. */
  lemma {:induction false} EntriesBytesFail(entries: seq<RKBootEntry>, i: nat)
    requires i <= |entries| && EntriesBytes(entries[..i]).Failure?
    ensures EntriesBytes(entries) == EntriesBytes(entries[..i])
    decreases |entries| - i
  {
    if i < |entries| {
      assert entries[..i + 1][..i] == entries[..i];
      EntriesBytesFail(entries, i + 1);
    } else {
      assert entries[..i] == entries;
    }
  }

  /** The payload loops of `pack`. */
  method WritePayloads(bins: seq<BinaryEntry>, fs: FileSystem, fix: bool) returns (out: seq<byte>)
    requires AllPresent(bins, fs)
    ensures out == Payloads(bins, fs, fix)
  {
    out := [];
    ghost var chunks := PayloadChunks(bins, fs, fix);
    assert chunks[..0] == [];
    for i := 0 to |bins|
      invariant out == Flatten(chunks[..i])
    {
      var data := fs[bins[i].path];
      var alignedSize := EntryDataSize(|data|, fix);
      FlattenSnoc(chunks, i);
      out := out + PadRight(data, alignedSize);
    }
    assert chunks[..|bins|] == chunks;
  }

  /** A padded payload is the file itself followed by zero bytes. */
  lemma PaddedPayloadContents(data: seq<byte>, fix: bool)
    ensures var p := PaddedPayload(data, fix);
      |data| <= |p| < |data| + EntryAlign && p[..|data|] == data &&
      (forall k :: |data| <= k < |p| ==> p[k] == 0)
  {
    EntryDataSizeBounds(|data|, fix);
  }

  // -------------------------------------------------------------- pack

  /** The path `pack` reports as missing: the first DDR binary that does not exist, else the first such loader binary. */
  function MissingBinary(config: BootConfig, fs: FileSystem): (r: Option<string>)
    ensures r == None <==> AllPresent(config.ddrBins, fs) && AllPresent(config.loaderBins, fs)
    ensures r.Some? ==> r.value !in fs
  {
    var ddr := config.ddrBins;
    var loader := config.loaderBins;
    if FirstMissing(ddr, fs) < |ddr| then Some(ddr[FirstMissing(ddr, fs)].path)
    else if FirstMissing(loader, fs) < |loader| then Some(loader[FirstMissing(loader, fs)].path)
    else None
  }

  /** The DDR binaries are checked first, each list in order. */
  lemma MissingBinaryOrder(config: BootConfig, fs: FileSystem)
    ensures var m := FirstMissing(config.ddrBins, fs);
      m < |config.ddrBins| ==> MissingBinary(config, fs) == Some(config.ddrBins[m].path)
    ensures var m := FirstMissing(config.loaderBins, fs);
      AllPresent(config.ddrBins, fs) && m < |config.loaderBins| ==> MissingBinary(config, fs) == Some(config.loaderBins[m].path)
  {
  }

  /**
   * The entry records of the image with header `h`: the DDR entries, whose
   * data starts at `DataOffset(h)`, then the loader entries, whose data
   * follows the DDR payloads.  There are never CODE472 entries.
   */
  function ImageEntries(config: BootConfig, fs: FileSystem, h: RKBootHeader): (r: seq<RKBootEntry>)
    ensures |r| == |config.ddrBins| + |config.loaderBins|
  {
    LayoutEntries(config.ddrBins, fs, Entry471, DataOffset(h), false) +
    LayoutEntries(config.loaderBins, fs, EntryLoader, DataOffset(h) + |Payloads(config.ddrBins, fs, false)|, true)
  }

  /**
   * What `pack` writes for header `h` before the CRC: the header record,
   * the entry records, the DDR payloads and the loader payloads.  A field
   * that does not fit its struct field raises struct.error.
   */
  function ImageBody(config: BootConfig, fs: FileSystem, h: RKBootHeader): (r: Result<seq<byte>>)
  {
    var hb :- HeaderToBytes(h);
    var eb :- EntriesBytes(ImageEntries(config, fs, h));
    Success(hb + eb + Payloads(config.ddrBins, fs, false) + Payloads(config.loaderBins, fs, true))
  }

  /** The file with its CRC-32 appended, little-endian. */
  function CloseImage(body: seq<byte>): (r: seq<byte>)
  {
    body + Le32(Crc32(body))
  }

  /** The closed file keeps the body in front, and its last four bytes are the CRC that `verify_crc` accepts for it. */
  lemma CloseImageCrc(body: seq<byte>)
    ensures var r := CloseImage(body);
      |r| == |body| + 4 && r[..|body|] == body &&
      VerifyCrc(r[..|r| - 4], LeValue(r[|r| - 4..]))
  {
    var r := CloseImage(body);
    var crc := Le32(Crc32(body));
    TakeConcat(body, crc, |body|);
    DropConcat(body, crc, |body|);
    LeValueOfLeBytes(Crc32(body), 4);
  }

  /**
   * The image `pack` writes before any encryption.  A missing binary, a
   * chip name whose four id characters are not ASCII or a value that does
   * not fit its field ends `pack` with the corresponding error.
   */
  function PlainImage(config: BootConfig, fs: FileSystem, now: RKTime, enableRc4: bool): (r: Result<seq<byte>>)
  {
    if MissingBinary(config, fs).Some? then Failure(FileNotFound(MissingBinary(config, fs).value))
    else
      var h :- BuildHeader(config, now, enableRc4);
      var body :- ImageBody(config, fs, h);
      Success(CloseImage(body))
  }

  /** The file `pack` leaves behind: the plain image, encrypted as a whole when RC4 is enabled. */
  function PackImage(config: BootConfig, fs: FileSystem, now: RKTime, enableRc4: bool): (r: Result<seq<byte>>)
  {
    var image :- PlainImage(config, fs, now, enableRc4);
    Success(if enableRc4 then Crypt(image, RockchipKey) else image)
  }

  /** The checks of `pack` come in order: missing binary, then a chip name that cannot be encoded; a successful image is a closed body. */
  lemma PackChecks(config: BootConfig, fs: FileSystem, now: RKTime, enableRc4: bool)
    ensures MissingBinary(config, fs).Some? ==>
      PackImage(config, fs, now, enableRc4) == Failure(FileNotFound(MissingBinary(config, fs).value))
    ensures MissingBinary(config, fs) == None && GetChipType(config.chipName).Failure? ==>
      PackImage(config, fs, now, enableRc4) == Failure(GetChipType(config.chipName).error)
    ensures PlainImage(config, fs, now, enableRc4).Success? ==>
      AllPresent(config.ddrBins, fs) && AllPresent(config.loaderBins, fs) &&
      BuildHeader(config, now, enableRc4).Success? &&
      ImageBody(config, fs, BuildHeader(config, now, enableRc4).value).Success? &&
      PlainImage(config, fs, now, enableRc4).value ==
        CloseImage(ImageBody(config, fs, BuildHeader(config, now, enableRc4).value).value)
  {
  }

  /** With RC4 on, decrypting the file gives back the plain image; with it off, nothing is encrypted. */
  lemma PackEncryption(config: BootConfig, fs: FileSystem, now: RKTime, enableRc4: bool)
    ensures PackImage(config, fs, now, enableRc4).Success? <==> PlainImage(config, fs, now, enableRc4).Success?
    ensures PackImage(config, fs, now, enableRc4).Success? ==>
      var image := PlainImage(config, fs, now, enableRc4).value;
      var file := PackImage(config, fs, now, enableRc4).value;
      |file| == |image| &&
      (enableRc4 ==> Crypt(file, RockchipKey) == image) &&
      (!enableRc4 ==> file == image)
  {
    if PlainImage(config, fs, now, enableRc4).Success? {
      CryptInvolution(PlainImage(config, fs, now, enableRc4).value, RockchipKey);
    }
  }

  /** The pieces of a body, the header record 102 bytes long and the entry records ending at the data offset. */
  lemma ImageBodyParts(config: BootConfig, fs: FileSystem, h: RKBootHeader)
    requires ImageBody(config, fs, h).Success?
    ensures HeaderToBytes(h).Success? && EntriesBytes(ImageEntries(config, fs, h)).Success?
    ensures var hb := HeaderToBytes(h).value;
      var eb := EntriesBytes(ImageEntries(config, fs, h)).value;
      |hb| == HeaderSize && |eb| == EntrySize * (|config.ddrBins| + |config.loaderBins|) &&
      ImageBody(config, fs, h).value == hb + eb + Payloads(config.ddrBins, fs, false) + Payloads(config.loaderBins, fs, true)
  {
  }

  /** The body starts with the header record, which reads back as the header normalised. */
  lemma ImageBodyHeader(config: BootConfig, fs: FileSystem, h: RKBootHeader)
    requires ImageBody(config, fs, h).Success?
    ensures var body := ImageBody(config, fs, h).value;
      |body| >= HeaderSize && HeaderFromBytes(body[..HeaderSize]) == Success(Normalized(h))
  {
    ImageBodyParts(config, fs, h);
    var hb := HeaderToBytes(h).value;
    var eb := EntriesBytes(ImageEntries(config, fs, h)).value;
    var p471 := Payloads(config.ddrBins, fs, false);
    var pLoader := Payloads(config.loaderBins, fs, true);
    InFirst(hb, eb, p471, pLoader);
    HeaderRoundTrip(h);
  }

  /** The `k`-th entry record sits at `102 + 54 * k`. */
  lemma ImageBodyRecord(config: BootConfig, fs: FileSystem, h: RKBootHeader, k: nat)
    requires ImageBody(config, fs, h).Success? && k < |config.ddrBins| + |config.loaderBins|
    ensures var e := ImageEntries(config, fs, h)[k];
      var body := ImageBody(config, fs, h).value;
      EntryToBytes(e).Success? && HeaderSize + EntrySize * k + EntrySize <= |body| &&
      body[HeaderSize + EntrySize * k..HeaderSize + EntrySize * k + EntrySize] == EntryToBytes(e).value
  {
    ImageBodyParts(config, fs, h);
    var entries := ImageEntries(config, fs, h);
    EntriesBytesAt(entries, k);
    InSecond(HeaderToBytes(h).value, EntriesBytes(entries).value, Payloads(config.ddrBins, fs, false),
      Payloads(config.loaderBins, fs, true), EntrySize * k, EntrySize * k + EntrySize);
  }

  /**
   * The `k`-th DDR binary, padded, sits at `PayloadOffset(k)` past the entry
   * records in any file where the two payload runs follow those records.
   */
  lemma LaidOutDdrPayload(config: BootConfig, fs: FileSystem, records: seq<byte>, k: nat)
    requires k < |config.ddrBins|
    ensures var file := records + Payloads(config.ddrBins, fs, false) + Payloads(config.loaderBins, fs, true);
      var lo := |records| + PayloadOffset(config.ddrBins, fs, false, k);
      var p := PaddedPayload(Contents(fs, config.ddrBins[k].path), false);
      lo + |p| <= |file| && file[lo..lo + |p|] == p
  {
    var ddr := config.ddrBins;
    PayloadAt(ddr, fs, false, k);
    PieceInMiddle(records + Payloads(ddr, fs, false) + Payloads(config.loaderBins, fs, true), records,
      Payloads(ddr, fs, false), Payloads(config.loaderBins, fs, true), PayloadOffset(ddr, fs, false, k),
      PaddedPayload(Contents(fs, ddr[k].path), false),
      |records| + PayloadOffset(ddr, fs, false, k), |PaddedPayload(Contents(fs, ddr[k].path), false)|);
  }

  /** The `k`-th loader binary, padded in 512-byte blocks, sits at its offset past the DDR payloads. */
  lemma LaidOutLoaderPayload(config: BootConfig, fs: FileSystem, records: seq<byte>, k: nat)
    requires k < |config.loaderBins|
    ensures var file := records + Payloads(config.ddrBins, fs, false) + Payloads(config.loaderBins, fs, true);
      var lo := |records| + |Payloads(config.ddrBins, fs, false)| + PayloadOffset(config.loaderBins, fs, true, k);
      var p := PaddedPayload(Contents(fs, config.loaderBins[k].path), true);
      lo + |p| <= |file| && file[lo..lo + |p|] == p
  {
    var loader := config.loaderBins;
    var p471 := Payloads(config.ddrBins, fs, false);
    PayloadAt(loader, fs, true, k);
    PieceInLast(records + p471 + Payloads(loader, fs, true), records, p471, Payloads(loader, fs, true),
      PayloadOffset(loader, fs, true, k), PaddedPayload(Contents(fs, loader[k].path), true),
      |records| + |p471| + PayloadOffset(loader, fs, true, k), |PaddedPayload(Contents(fs, loader[k].path), true)|);
  }

  /** Where the `k`-th DDR entry places its data, and how much it takes. */
  lemma DdrEntryPlace(config: BootConfig, fs: FileSystem, h: RKBootHeader, k: nat)
    requires k < |config.ddrBins|
    ensures var e := ImageEntries(config, fs, h)[k];
      e.dataOffset == DataOffset(h) + PayloadOffset(config.ddrBins, fs, false, k) &&
      e.dataSize == |PaddedPayload(Contents(fs, config.ddrBins[k].path), false)| &&
      e.entryType == Entry471 && e.name == StrToWide(config.ddrBins[k].stem, MaxNameLen)
  {
    ImageEntryDdr(config, fs, h, k);
  }

  /** Where the `k`-th loader entry places its data, and how much it takes. */
  lemma LoaderEntryPlace(config: BootConfig, fs: FileSystem, h: RKBootHeader, k: nat)
    requires k < |config.loaderBins|
    ensures var e := ImageEntries(config, fs, h)[|config.ddrBins| + k];
      e.dataOffset == DataOffset(h) + |Payloads(config.ddrBins, fs, false)| + PayloadOffset(config.loaderBins, fs, true, k) &&
      e.dataSize == |PaddedPayload(Contents(fs, config.loaderBins[k].path), true)| &&
      e.entryType == EntryLoader && e.name == StrToWide(config.loaderBins[k].stem, MaxNameLen)
  {
    ImageEntryLoader(config, fs, h, k);
  }

  /** The DDR entries come first in the image. */
  lemma ImageEntryDdr(config: BootConfig, fs: FileSystem, h: RKBootHeader, k: nat)
    requires k < |config.ddrBins|
    ensures ImageEntries(config, fs, h)[k] == EntryAt(config.ddrBins, fs, Entry471, DataOffset(h), false, k)
  {
  }

  /** The loader entries follow the DDR entries, their data after the DDR payloads. */
  lemma ImageEntryLoader(config: BootConfig, fs: FileSystem, h: RKBootHeader, k: nat)
    requires k < |config.loaderBins|
    ensures ImageEntries(config, fs, h)[|config.ddrBins| + k] ==
      EntryAt(config.loaderBins, fs, EntryLoader, DataOffset(h) + |Payloads(config.ddrBins, fs, false)|, true, k)
  {
  }

  /** The data offset of a header that counts `n` entries. */
  lemma DataOffsetCounts(h: RKBootHeader, n: nat)
    requires h.code471Num + h.code472Num + h.loaderNum == n
    ensures DataOffset(h) == HeaderSize + EntrySize * n
  {
  }

  // ------------------------------------------------------------ unpack

  /** A file `unpack` writes into its output directory: its name, as code points, and its bytes. */
  datatype Extracted = Extracted(fileName: seq<int>, data: seq<byte>)

  /** `".bin"`, the extension every extracted file gets. */
  const BinSuffix: seq<int> := [0x2E, 0x62, 0x69, 0x6E]

  /** `''.join(chr(c) for c in entry.name if c != 0)`: the name units with every zero dropped. */
  function EntryName(name: seq<int>): (r: seq<int>)
    ensures |r| <= |name|
  {
    if name == [] then [] else (if name[0] == 0 then [] else [name[0]]) + EntryName(name[1..])
  }

  /** The entry records that follow the header, read one after the other; a short or ill-typed record ends the read. */
  function ParseEntries(file: seq<byte>, count: nat): (r: Result<seq<RKBootEntry>>)
    ensures r.Success? ==> |r.value| == count
    ensures r.Success? ==> forall k :: 0 <= k < count ==> r.value[k].dataOffset >= 0 && r.value[k].dataSize >= 0
  {
    if count == 0 then Success([])
    else
      var front :- ParseEntries(file, count - 1);
      var entry :- EntryFromBytes(ReadAt(file, HeaderSize + EntrySize * (count - 1), EntrySize));
      Success(front + [entry])
  }

  /**
   * One extracted binary: `data_size` bytes read from `data_offset` (fewer
   * past the end of the file), decrypted when the header's RC4 flag is 0 —
   * in 512-byte blocks for a loader entry, as one stream otherwise.
   */
  function ExtractEntry(file: seq<byte>, rc4Flag: int, e: RKBootEntry): (x: Extracted)
    requires e.dataOffset >= 0 && e.dataSize >= 0
  {
    var data := ReadAt(file, e.dataOffset, e.dataSize);
    var plain :=
      if rc4Flag != 0 then data
      else if e.entryType == EntryLoader then CryptBlocks(data, SmallPacket, RockchipKey)
      else Crypt(data, RockchipKey);
    Extracted(EntryName(e.name) + BinSuffix, plain)
  }

  /** `unpack`: the files it writes, in order; a file that cannot be parsed raises before any is written. */
  function UnpackImage(file: seq<byte>): (r: Result<seq<Extracted>>)
    ensures |file| < HeaderSize ==> r == Failure(TooShort(|file|, HeaderSize))
  {
    var h :- HeaderFromBytes(ReadAt(file, 0, HeaderSize));
    var entries :- ParseEntries(file, h.code471Num + h.code472Num + h.loaderNum);
    Success(ExtractedFiles(file, h.rc4Flag, entries))
  }

  /** The files extracted for `entries`, in order. */
  function ExtractedFiles(file: seq<byte>, rc4Flag: int, entries: seq<RKBootEntry>): (r: seq<Extracted>)
    requires forall k :: 0 <= k < |entries| ==> entries[k].dataOffset >= 0 && entries[k].dataSize >= 0
    ensures |r| == |entries|
  {
    seq(|entries|, k requires 0 <= k < |entries| => ExtractEntry(file, rc4Flag, entries[k]))
  }

  /** Once the first `i` records cannot be read, reading more fails with the same error. */
  lemma {:induction false} ParseEntriesFail(file: seq<byte>, i: nat, count: nat)
    requires i <= count && ParseEntries(file, i).Failure?
    ensures ParseEntries(file, count) == ParseEntries(file, i)
    decreases count
  {
    if i < count {
      ParseEntriesFail(file, i, count - 1);
    }
  }

  /** A record that reads successfully extends the entries read so far. */
  lemma ParseEntriesNext(file: seq<byte>, i: nat, entries: seq<RKBootEntry>, entry: RKBootEntry)
    requires ParseEntries(file, i) == Success(entries)
    requires EntryFromBytes(ReadAt(file, HeaderSize + EntrySize * i, EntrySize)) == Success(entry)
    ensures ParseEntries(file, i + 1) == Success(entries + [entry])
  {
  }

  /** A record that does not read ends the whole read with its error. */
  lemma ParseEntriesStop(file: seq<byte>, i: nat, entries: seq<RKBootEntry>, count: nat)
    requires i < count && ParseEntries(file, i) == Success(entries)
    requires EntryFromBytes(ReadAt(file, HeaderSize + EntrySize * i, EntrySize)).Failure?
    ensures ParseEntries(file, count) == Failure(EntryFromBytes(ReadAt(file, HeaderSize + EntrySize * i, EntrySize)).error)
  {
    ParseEntriesFail(file, i + 1, count);
  }

  /** The extraction of one entry, through the cipher's loops. */
  method ExtractOne(file: seq<byte>, rc4Flag: int, e: RKBootEntry) returns (x: Extracted)
    requires e.dataOffset >= 0 && e.dataSize >= 0
    ensures x == ExtractEntry(file, rc4Flag, e)
  {
    var data := ReadAt(file, e.dataOffset, e.dataSize);
    if rc4Flag == 0 {
      if e.entryType == EntryLoader {
        data := Rc4DecryptBlocks(data, SmallPacket, RockchipKey);
      } else {
        data := Rc4Crypt(data, RockchipKey);
      }
    }
    x := Extracted(EntryName(e.name) + BinSuffix, data);
  }

  /** The entry-reading loop of `unpack`: each read continues where the previous one ended. */
  method ReadEntries(file: seq<byte>, entryCount: nat) returns (r: Result<seq<RKBootEntry>>)
    ensures r == ParseEntries(file, entryCount)
  {
    var entries := [];
    var position := HeaderSize;
    for i := 0 to entryCount
      invariant ParseEntries(file, i) == Success(entries)
      invariant position == HeaderSize + EntrySize * i
    {
      var entry := EntryFromBytes(ReadAt(file, position, EntrySize));
      if entry.Failure? {
        ParseEntriesStop(file, i, entries, entryCount);
        return Failure(entry.error);
      }
      ParseEntriesNext(file, i, entries, entry.value);
      entries := entries + [entry.value];
      position := position + EntrySize;
    }
    return Success(entries);
  }

  /** The extraction loop of `unpack`. */
  method ExtractAll(file: seq<byte>, rc4Flag: int, entries: seq<RKBootEntry>) returns (out: seq<Extracted>)
    requires forall k :: 0 <= k < |entries| ==> entries[k].dataOffset >= 0 && entries[k].dataSize >= 0
    ensures out == ExtractedFiles(file, rc4Flag, entries)
  {
    out := [];
    for i := 0 to |entries|
      invariant |out| == i
      invariant forall k :: 0 <= k < i ==> out[k] == ExtractEntry(file, rc4Flag, entries[k])
    {
      var x := ExtractOne(file, rc4Flag, entries[i]);
      out := out + [x];
    }
  }

  /** `unpack`: read the header, then every entry record, then extract each entry in turn. */
  method Unpack(file: seq<byte>) returns (r: Result<seq<Extracted>>)
    ensures r == UnpackImage(file)
  {
    var header := HeaderFromBytes(ReadAt(file, 0, HeaderSize));
    if header.Failure? {
      return Failure(header.error);
    }
    var h := header.value;
    var entries := ReadEntries(file, h.code471Num + h.code472Num + h.loaderNum);
    if entries.Failure? {
      return Failure(entries.error);
    }
    var out := ExtractAll(file, h.rc4Flag, entries.value);
    return Success(out);
  }

  /** Dropping zeros distributes over concatenation. */
  lemma {:induction false} EntryNameConcat(a: seq<int>, b: seq<int>)
    ensures EntryName(a + b) == EntryName(a) + EntryName(b)
  {
    if a != [] {
      assert (a + b)[0] == a[0];
      assert (a + b)[1..] == a[1..] + b;
      EntryNameConcat(a[1..], b);
    } else {
      assert a + b == b;
    }
  }

  /** Units with no zero among them are kept as they are. */
  lemma {:induction false} EntryNameKeeps(s: seq<int>)
    requires forall i :: 0 <= i < |s| ==> s[i] != 0
    ensures EntryName(s) == s
  {
    if s != [] {
      EntryNameKeeps(s[1..]);
    }
  }

  /** Zero units vanish. */
  lemma {:induction false} EntryNameDropsZeros(s: seq<int>)
    requires forall i :: 0 <= i < |s| ==> s[i] == 0
    ensures EntryName(s) == []
  {
    if s != [] {
      EntryNameDropsZeros(s[1..]);
    }
  }

  /**
   * The name `unpack` gives back for a binary is the code points of the
   * first 20 characters of its stem (`str_to_wide` cuts it there), as long as none of them is NUL.
   */
  lemma StemName(stem: string)
    requires forall i :: 0 <= i < Min(|stem|, MaxNameLen) ==> stem[i] != 0 as char
    ensures EntryName(StrToWide(stem, MaxNameLen)) == seq(Min(|stem|, MaxNameLen), i requires 0 <= i < Min(|stem|, MaxNameLen) => stem[i] as int)
  {
    var n := Min(|stem|, MaxNameLen);
    var w := StrToWide(stem, MaxNameLen);
    var front := seq(n, i requires 0 <= i < n => stem[i] as int);
    assert w == front + w[n..];
    EntryNameConcat(front, w[n..]);
    EntryNameKeeps(front);
    EntryNameDropsZeros(w[n..]);
  }

  /** What `unpack` should give back for a binary: a file named after the entry's name, holding the padded contents. */
  function ExpectedFile(bin: BinaryEntry, fs: FileSystem, fix: bool): (x: Extracted)
  {
    Extracted(EntryName(StrToWide(bin.stem, MaxNameLen)) + BinSuffix, PaddedPayload(Contents(fs, bin.path), fix))
  }

  /** The files for the DDR binaries, then for the loader binaries. */
  function ExpectedFiles(config: BootConfig, fs: FileSystem): (r: seq<Extracted>)
    ensures |r| == |config.ddrBins| + |config.loaderBins|
  {
    seq(|config.ddrBins|, k requires 0 <= k < |config.ddrBins| => ExpectedFile(config.ddrBins[k], fs, false)) +
    seq(|config.loaderBins|, k requires 0 <= k < |config.loaderBins| => ExpectedFile(config.loaderBins[k], fs, true))
  }

  // -------------------------------------------------- unpack after pack

  /** Every entry `pack` makes is already in the form `from_bytes` returns. */
  lemma ImageEntryNormalized(config: BootConfig, fs: FileSystem, h: RKBootHeader, k: nat)
    requires k < |config.ddrBins| + |config.loaderBins|
    ensures var e := ImageEntries(config, fs, h)[k]; |e.name| == MaxNameLen && NormalizedEntry(e) == e
  {
    if k < |config.ddrBins| {
      ImageEntryDdr(config, fs, h, k);
    } else {
      ImageEntryLoader(config, fs, h, k - |config.ddrBins|);
    }
  }

  /** The header `unpack` reads from a closed image. */
  lemma UnpackReadsHeader(config: BootConfig, fs: FileSystem, h: RKBootHeader)
    requires ImageBody(config, fs, h).Success?
    ensures HeaderFromBytes(ReadAt(CloseImage(ImageBody(config, fs, h).value), 0, HeaderSize)) == Success(Normalized(h))
    ensures Normalized(h).code471Num + Normalized(h).code472Num + Normalized(h).loaderNum ==
      h.code471Num + h.code472Num + h.loaderNum
    ensures Normalized(h).rc4Flag == h.rc4Flag
  {
    var body := ImageBody(config, fs, h).value;
    ImageBodyHeader(config, fs, h);
    SliceLeft(body, Le32(Crc32(body)), 0, HeaderSize);
  }

  /** The `k`-th 54-byte record after the header of `file` is the encoding of `e`, which reads back as itself. */
  predicate RecordAt(file: seq<byte>, e: RKBootEntry, k: nat)
  {
    EntryToBytes(e).Success? && |e.name| >= MaxNameLen && NormalizedEntry(e) == e &&
    HeaderSize + EntrySize * k + EntrySize <= |file| &&
    file[HeaderSize + EntrySize * k..HeaderSize + EntrySize * k + EntrySize] == EntryToBytes(e).value
  }

  /** Records laid out one after the other read back, the first `n` of them, as the entries they encode. */
  lemma {:induction false} ParseRecords(file: seq<byte>, entries: seq<RKBootEntry>, n: nat)
    requires n <= |entries|
    requires forall k :: 0 <= k < |entries| ==> RecordAt(file, entries[k], k)
    ensures ParseEntries(file, n) == Success(entries[..n])
  {
    if n == 0 {
      assert entries[..0] == [];
    } else {
      var e := entries[n - 1];
      ParseRecords(file, entries, n - 1);
      assert RecordAt(file, e, n - 1);
      var record := ReadAt(file, HeaderSize + EntrySize * (n - 1), EntrySize);
      assert record == EntryToBytes(e).value;
      EntryRoundTrip(e);
      assert EntryFromBytes(record) == Success(e);
      TakeSnoc(entries, n - 1);
    }
  }

  /** The `k`-th record of a closed image encodes the `k`-th entry `pack` made. */
  lemma ClosedImageRecord(config: BootConfig, fs: FileSystem, h: RKBootHeader, k: nat)
    requires ImageBody(config, fs, h).Success? && k < |config.ddrBins| + |config.loaderBins|
    ensures RecordAt(CloseImage(ImageBody(config, fs, h).value), ImageEntries(config, fs, h)[k], k)
  {
    var body := ImageBody(config, fs, h).value;
    ImageBodyRecord(config, fs, h, k);
    SliceLeft(body, Le32(Crc32(body)), HeaderSize + EntrySize * k, HeaderSize + EntrySize * k + EntrySize);
    ImageEntryNormalized(config, fs, h, k);
  }

  /** The records `unpack` reads from a closed image are the entries `pack` made. */
  lemma UnpackReadsEntries(config: BootConfig, fs: FileSystem, h: RKBootHeader)
    requires ImageBody(config, fs, h).Success?
    ensures var entries := ImageEntries(config, fs, h);
      ParseEntries(CloseImage(ImageBody(config, fs, h).value), |entries|) == Success(entries)
  {
    var file := CloseImage(ImageBody(config, fs, h).value);
    var entries := ImageEntries(config, fs, h);
    forall k | 0 <= k < |entries|
      ensures RecordAt(file, entries[k], k)
    {
      ClosedImageRecord(config, fs, h, k);
    }
    ParseRecords(file, entries, |entries|);
    assert entries[..|entries|] == entries;
  }

  /** The header counts every entry `pack` made. */
  predicate CountsAll(config: BootConfig, h: RKBootHeader)
  {
    h.code471Num + h.code472Num + h.loaderNum == |config.ddrBins| + |config.loaderBins|
  }

  /** Closing the image leaves every slice of the body where it was. */
  lemma ClosedSlice(body: seq<byte>, lo: nat, hi: nat)
    requires lo <= hi <= |body|
    ensures hi <= |CloseImage(body)| && CloseImage(body)[lo..hi] == body[lo..hi]
  {
    SliceLeft(body, Le32(Crc32(body)), lo, hi);
  }

  /** `e` is named after `bin`, and its data, `bin`'s contents padded, lies in `body` where `e` says. */
  predicate PayloadPlaced(body: seq<byte>, e: RKBootEntry, bin: BinaryEntry, fs: FileSystem, fix: bool)
  {
    var p := PaddedPayload(Contents(fs, bin.path), fix);
    e.dataOffset >= 0 && e.name == StrToWide(bin.stem, MaxNameLen) &&
    e.dataSize == |p| && e.dataOffset + |p| <= |body| && body[e.dataOffset..e.dataOffset + |p|] == p
  }

  /** A placed entry extracts from the closed image, with the RC4 flag off, as the file expected for its binary. */
  lemma ExtractPlaced(body: seq<byte>, rc4Flag: int, e: RKBootEntry, bin: BinaryEntry, fs: FileSystem, fix: bool)
    requires rc4Flag != 0 && PayloadPlaced(body, e, bin, fs, fix)
    ensures e.dataOffset >= 0 && e.dataSize >= 0
    ensures ExtractEntry(CloseImage(body), rc4Flag, e) == ExpectedFile(bin, fs, fix)
  {
    ClosedSlice(body, e.dataOffset, e.dataOffset + e.dataSize);
  }

  /** The header and entry records take exactly the bytes up to the data offset. */
  lemma RecordsEnd(config: BootConfig, fs: FileSystem, h: RKBootHeader)
    requires ImageBody(config, fs, h).Success? && CountsAll(config, h)
    ensures HeaderToBytes(h).Success? && EntriesBytes(ImageEntries(config, fs, h)).Success?
    ensures |HeaderToBytes(h).value + EntriesBytes(ImageEntries(config, fs, h)).value| == DataOffset(h)
  {
    ImageBodyParts(config, fs, h);
    DataOffsetCounts(h, |config.ddrBins| + |config.loaderBins|);
  }

  /** After any records, the data of the `k`-th DDR entry laid out from their end is its binary, padded, where the entry says. */
  lemma DdrPlaced(config: BootConfig, fs: FileSystem, records: seq<byte>, k: nat)
    requires k < |config.ddrBins|
    ensures PayloadPlaced(records + Payloads(config.ddrBins, fs, false) + Payloads(config.loaderBins, fs, true),
      EntryAt(config.ddrBins, fs, Entry471, |records|, false, k), config.ddrBins[k], fs, false)
  {
    LaidOutDdrPayload(config, fs, records, k);
  }

  /** After any records, the data of the `k`-th loader entry laid out past the DDR payloads is its binary, padded, where the entry says. */
  lemma LoaderPlaced(config: BootConfig, fs: FileSystem, records: seq<byte>, k: nat)
    requires k < |config.loaderBins|
    ensures PayloadPlaced(records + Payloads(config.ddrBins, fs, false) + Payloads(config.loaderBins, fs, true),
      EntryAt(config.loaderBins, fs, EntryLoader, |records| + |Payloads(config.ddrBins, fs, false)|, true, k),
      config.loaderBins[k], fs, true)
  {
    LaidOutLoaderPayload(config, fs, records, k);
  }

  /** With RC4 off, the `k`-th DDR entry laid out after any records extracts from the closed file as its binary, padded. */
  lemma ClosedDdrFile(config: BootConfig, fs: FileSystem, records: seq<byte>, rc4Flag: int, k: nat)
    requires rc4Flag != 0 && k < |config.ddrBins|
    ensures var e := EntryAt(config.ddrBins, fs, Entry471, |records|, false, k);
      var file := records + Payloads(config.ddrBins, fs, false) + Payloads(config.loaderBins, fs, true);
      e.dataOffset >= 0 && e.dataSize >= 0 &&
      ExtractEntry(CloseImage(file), rc4Flag, e) == ExpectedFile(config.ddrBins[k], fs, false)
  {
    var file := records + Payloads(config.ddrBins, fs, false) + Payloads(config.loaderBins, fs, true);
    DdrPlaced(config, fs, records, k);
    ExtractPlaced(file, rc4Flag, EntryAt(config.ddrBins, fs, Entry471, |records|, false, k), config.ddrBins[k], fs, false);
  }

  /** With RC4 off, the `k`-th loader entry laid out after any records extracts from the closed file as its binary, padded. */
  lemma ClosedLoaderFile(config: BootConfig, fs: FileSystem, records: seq<byte>, rc4Flag: int, k: nat)
    requires rc4Flag != 0 && k < |config.loaderBins|
    ensures var e := EntryAt(config.loaderBins, fs, EntryLoader, |records| + |Payloads(config.ddrBins, fs, false)|, true, k);
      var file := records + Payloads(config.ddrBins, fs, false) + Payloads(config.loaderBins, fs, true);
      e.dataOffset >= 0 && e.dataSize >= 0 &&
      ExtractEntry(CloseImage(file), rc4Flag, e) == ExpectedFile(config.loaderBins[k], fs, true)
  {
    var file := records + Payloads(config.ddrBins, fs, false) + Payloads(config.loaderBins, fs, true);
    LoaderPlaced(config, fs, records, k);
    ExtractPlaced(file, rc4Flag,
      EntryAt(config.loaderBins, fs, EntryLoader, |records| + |Payloads(config.ddrBins, fs, false)|, true, k),
      config.loaderBins[k], fs, true);
  }

  /** With RC4 off, the `k`-th DDR entry of a closed image extracts as its binary, padded, the `k`-th expected file. */
  lemma ClosedImageDdrFile(config: BootConfig, fs: FileSystem, h: RKBootHeader, rc4Flag: int, k: nat)
    requires ImageBody(config, fs, h).Success? && CountsAll(config, h) && rc4Flag != 0
    requires k < |config.ddrBins|
    ensures var e := ImageEntries(config, fs, h)[k];
      e.dataOffset >= 0 && e.dataSize >= 0 &&
      ExtractEntry(CloseImage(ImageBody(config, fs, h).value), rc4Flag, e) == ExpectedFiles(config, fs)[k]
  {
    ExpectedDdrFile(config, fs, k);
    ImageBodyParts(config, fs, h);
    RecordsEnd(config, fs, h);
    ImageEntryDdr(config, fs, h, k);
    ClosedDdrFile(config, fs, HeaderToBytes(h).value + EntriesBytes(ImageEntries(config, fs, h)).value, rc4Flag, k);
  }

  /** With RC4 off, the `k`-th loader entry of a closed image extracts as its binary, padded, the expected file after the DDR ones. */
  lemma ClosedImageLoaderFile(config: BootConfig, fs: FileSystem, h: RKBootHeader, rc4Flag: int, k: nat)
    requires ImageBody(config, fs, h).Success? && CountsAll(config, h) && rc4Flag != 0
    requires k < |config.loaderBins|
    ensures var e := ImageEntries(config, fs, h)[|config.ddrBins| + k];
      e.dataOffset >= 0 && e.dataSize >= 0 &&
      ExtractEntry(CloseImage(ImageBody(config, fs, h).value), rc4Flag, e) == ExpectedFiles(config, fs)[|config.ddrBins| + k]
  {
    ExpectedLoaderFile(config, fs, k);
    ImageBodyParts(config, fs, h);
    RecordsEnd(config, fs, h);
    ImageEntryLoader(config, fs, h, k);
    ClosedLoaderFile(config, fs, HeaderToBytes(h).value + EntriesBytes(ImageEntries(config, fs, h)).value, rc4Flag, k);
  }

  /** The expected files list the DDR binaries first. */
  lemma ExpectedDdrFile(config: BootConfig, fs: FileSystem, k: nat)
    requires k < |config.ddrBins|
    ensures ExpectedFiles(config, fs)[k] == ExpectedFile(config.ddrBins[k], fs, false)
  {
  }

  /** The expected files list the loader binaries after the DDR binaries. */
  lemma ExpectedLoaderFile(config: BootConfig, fs: FileSystem, k: nat)
    requires k < |config.loaderBins|
    ensures ExpectedFiles(config, fs)[|config.ddrBins| + k] == ExpectedFile(config.loaderBins[k], fs, true)
  {
  }

  /** With RC4 off, the `k`-th entry of a closed image extracts as the `k`-th expected file. */
  lemma ClosedImageFile(config: BootConfig, fs: FileSystem, h: RKBootHeader, rc4Flag: int, k: nat)
    requires ImageBody(config, fs, h).Success? && CountsAll(config, h) && rc4Flag != 0
    requires k < |config.ddrBins| + |config.loaderBins|
    ensures var e := ImageEntries(config, fs, h)[k];
      e.dataOffset >= 0 && e.dataSize >= 0 &&
      ExtractEntry(CloseImage(ImageBody(config, fs, h).value), rc4Flag, e) == ExpectedFiles(config, fs)[k]
  {
    if k < |config.ddrBins| {
      ClosedImageDdrFile(config, fs, h, rc4Flag, k);
    } else {
      var j := k - |config.ddrBins|;
      assert |config.ddrBins| + j == k;
      ClosedImageLoaderFile(config, fs, h, rc4Flag, j);
    }
  }

  /** With RC4 off, the files extracted for the entries of a closed image are the expected files, in order. */
  lemma ClosedImageFiles(config: BootConfig, fs: FileSystem, h: RKBootHeader, rc4Flag: int)
    requires ImageBody(config, fs, h).Success? && CountsAll(config, h) && rc4Flag != 0
    ensures var entries := ImageEntries(config, fs, h);
      (forall k :: 0 <= k < |entries| ==> entries[k].dataOffset >= 0 && entries[k].dataSize >= 0) &&
      ExtractedFiles(CloseImage(ImageBody(config, fs, h).value), rc4Flag, entries) == ExpectedFiles(config, fs)
  {
    var entries := ImageEntries(config, fs, h);
    var file := CloseImage(ImageBody(config, fs, h).value);
    forall k | 0 <= k < |entries|
      ensures entries[k].dataOffset >= 0 && entries[k].dataSize >= 0
      ensures ExtractEntry(file, rc4Flag, entries[k]) == ExpectedFiles(config, fs)[k]
    {
      ClosedImageFile(config, fs, h, rc4Flag, k);
    }
  }

  /** `unpack` of a file whose header, records and extracted files are known. */
  lemma UnpackSteps(file: seq<byte>, h: RKBootHeader, n: nat, entries: seq<RKBootEntry>, rc4Flag: int, files: seq<Extracted>)
    requires HeaderFromBytes(ReadAt(file, 0, HeaderSize)) == Success(h)
    requires h.code471Num + h.code472Num + h.loaderNum == n && h.rc4Flag == rc4Flag
    requires ParseEntries(file, n) == Success(entries)
    requires ExtractedFiles(file, rc4Flag, entries) == files
    ensures UnpackImage(file) == Success(files)
  {
  }

  /** With RC4 off in its header, a closed image unpacks to the expected files. */
  lemma UnpackClosedImage(config: BootConfig, fs: FileSystem, h: RKBootHeader)
    requires ImageBody(config, fs, h).Success? && CountsAll(config, h) && h.rc4Flag != 0
    ensures UnpackImage(CloseImage(ImageBody(config, fs, h).value)) == Success(ExpectedFiles(config, fs))
  {
    var file := CloseImage(ImageBody(config, fs, h).value);
    var entries := ImageEntries(config, fs, h);
    UnpackReadsHeader(config, fs, h);
    UnpackReadsEntries(config, fs, h);
    ClosedImageFiles(config, fs, h, h.rc4Flag);
    UnpackSteps(file, Normalized(h), |entries|, entries, h.rc4Flag, ExpectedFiles(config, fs));
  }

  /**
   * Unpacking what `pack` wrote without RC4 gives back every binary, DDR
   * ones first, each under its stem's name truncated to 20 characters with
   * NUL characters dropped, and with its contents zero-padded to the entry's
   * data size.
   */
  lemma UnpackPack(config: BootConfig, fs: FileSystem, now: RKTime)
    requires PlainImage(config, fs, now, false).Success?
    ensures PackImage(config, fs, now, false).Success?
    ensures UnpackImage(PackImage(config, fs, now, false).value) == Success(ExpectedFiles(config, fs))
  {
    PackChecks(config, fs, now, false);
    PackEncryption(config, fs, now, false);
    BuildHeaderFields(config, now, false);
    UnpackClosedImage(config, fs, BuildHeader(config, now, false).value);
  }

  // ------------------------------------------------------------ pack, step by step

  /** How the body's two fallible steps decide its outcome. */
  lemma ImageBodySteps(config: BootConfig, fs: FileSystem, h: RKBootHeader)
    ensures HeaderToBytes(h).Failure? ==> ImageBody(config, fs, h) == Failure(HeaderToBytes(h).error)
    ensures HeaderToBytes(h).Success? && EntriesBytes(ImageEntries(config, fs, h)).Failure? ==>
      ImageBody(config, fs, h) == Failure(EntriesBytes(ImageEntries(config, fs, h)).error)
    ensures HeaderToBytes(h).Success? && EntriesBytes(ImageEntries(config, fs, h)).Success? ==>
      ImageBody(config, fs, h) == Success(HeaderToBytes(h).value + EntriesBytes(ImageEntries(config, fs, h)).value +
        Payloads(config.ddrBins, fs, false) + Payloads(config.loaderBins, fs, true))
  {
  }

  /** The image's entries are the DDR layout from the data offset, then the loader layout from where the DDR data ends. */
  lemma ImageEntriesSplit(config: BootConfig, fs: FileSystem, h: RKBootHeader)
    ensures ImageEntries(config, fs, h) ==
      LayoutEntries(config.ddrBins, fs, Entry471, DataOffset(h), false) +
      LayoutEntries(config.loaderBins, fs, EntryLoader, DataOffset(h) + |Payloads(config.ddrBins, fs, false)|, true)
  {
  }

  /** The entry loops of `pack`: DDR entries from the data offset, then loader entries from where their data ends. */
  method CreateImageEntries(config: BootConfig, fs: FileSystem, h: RKBootHeader) returns (entries: seq<RKBootEntry>)
    ensures entries == ImageEntries(config, fs, h)
  {
    var entries471, next := CreateEntries(config.ddrBins, fs, Entry471, DataOffset(h), false);
    var entriesLoader, end := CreateEntries(config.loaderBins, fs, EntryLoader, next, true);
    ImageEntriesSplit(config, fs, h);
    entries := entries471 + entriesLoader;
  }

  /** Steps 3 to 5 of `pack`: the header record, the entries laid out from the data offset, then their data. */
  method WriteImageBody(config: BootConfig, fs: FileSystem, h: RKBootHeader) returns (r: Result<seq<byte>>)
    requires AllPresent(config.ddrBins, fs) && AllPresent(config.loaderBins, fs)
    ensures r == ImageBody(config, fs, h)
  {
    ImageBodySteps(config, fs, h);
    var hb := HeaderToBytes(h);
    if hb.Failure? {
      return Failure(hb.error);
    }
    var entries := CreateImageEntries(config, fs, h);
    var eb := WriteEntries(entries);
    if eb.Failure? {
      return Failure(eb.error);
    }
    var payloads471 := WritePayloads(config.ddrBins, fs, false);
    var payloadsLoader := WritePayloads(config.loaderBins, fs, true);
    return Success(hb.value + eb.value + payloads471 + payloadsLoader);
  }

  /**
   * `pack` up to the CRC: the existence checks, DDR binaries first; the
   * header; the body; then the CRC-32 of everything written, appended
   * little-endian.
   */
  method WritePlainImage(config: BootConfig, fs: FileSystem, now: RKTime, enableRc4: bool) returns (r: Result<seq<byte>>)
    ensures r == PlainImage(config, fs, now, enableRc4)
  {
    var missing := CheckPresent(config.ddrBins, fs);
    if missing < |config.ddrBins| {
      return Failure(FileNotFound(config.ddrBins[missing].path));
    }
    missing := CheckPresent(config.loaderBins, fs);
    if missing < |config.loaderBins| {
      return Failure(FileNotFound(config.loaderBins[missing].path));
    }
    var header := BuildHeader(config, now, enableRc4);
    if header.Failure? {
      return Failure(header.error);
    }
    var body := WriteImageBody(config, fs, header.value);
    if body.Failure? {
      return Failure(body.error);
    }
    return Success(body.value + Le32(Crc32(body.value)));
  }

  /** `pack`: the plain image and, when RC4 is enabled, the whole file encrypted as one stream. */
  method Pack(config: BootConfig, fs: FileSystem, now: RKTime, enableRc4: bool) returns (r: Result<seq<byte>>)
    ensures r == PackImage(config, fs, now, enableRc4)
  {
    var image := WritePlainImage(config, fs, now, enableRc4);
    if image.Failure? {
      return Failure(image.error);
    }
    if enableRc4 {
      var encrypted := Rc4Crypt(image.value, RockchipKey);
      return Success(encrypted);
    }
    return image;
  }
}
