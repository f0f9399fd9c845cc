/**
 * The image side of the trust merger: the header, the pack loop that lays
 * out records, storage records and data, the two copies written to the
 * output, and the unpacker that reads an image back.
 */
module TrustImage {
  import opened Bytes
  import opened Results
  import opened Struct
  import opened Trust

  // -------------------------------------------------------------- header

  /** `header_buf`: tag, BCD version, flags and size field at 0, 4, 8 and 12 of 2048 zero bytes. */
  function TrustHeader(major: int, minor: int, sha: ShaMode, rsa: RsaMode, n: nat): (r: Result<seq<byte>>)
  {
    var buf := Zeros(TrustHeaderSize);
    var withTag :- PackBytes(buf, 0, 4, TrustTag);
    var version :- VersionValue(major, minor);
    var withVersion :- PackField(withTag, 4, 4, version);
    var withFlags :- PackField(withVersion, 8, 4, Flags(sha, rsa));
    PackField(withFlags, 12, 4, SizeValue(n))
  }

  /**
   * The header packs unless the version is negative or the count does not
   * fit 16 bits; it is then the tag and the three little-endian words,
   * followed by zeros.
   */
  lemma TrustHeaderFields(major: int, minor: int, sha: ShaMode, rsa: RsaMode, n: nat)
    ensures TrustHeader(major, minor, sha, rsa, n).Success? <==> major >= 0 && minor >= 0 && n < 0x1_0000
    ensures TrustHeader(major, minor, sha, rsa, n).Failure? ==> TrustHeader(major, minor, sha, rsa, n).error == StructError
    ensures TrustHeader(major, minor, sha, rsa, n).Success? ==>
      var h := TrustHeader(major, minor, sha, rsa, n).value;
      var version := VersionValue(major, minor).value;
      |h| == TrustHeaderSize && h[..4] == TrustTag && h[4..8] == LeBytes(version, 4) &&
      h[8..12] == LeBytes(Flags(sha, rsa), 4) && h[12..16] == LeBytes(SizeValue(n), 4) &&
      forall k :: 16 <= k < TrustHeaderSize ==> h[k] == 0
  {
    Pow256Widths();
    SizeValueFits(n);
    var r := TrustHeader(major, minor, sha, rsa, n);
    if r.Success? {
      var version := VersionValue(major, minor).value;
      var b0 := Zeros(TrustHeaderSize);
      var b1 := PackInto(b0, 0, FixedBytes(TrustTag, 4));
      var b2 := PackInto(b1, 4, LeBytes(version, 4));
      var b3 := PackInto(b2, 8, LeBytes(Flags(sha, rsa), 4));
      var b4 := PackInto(b3, 12, LeBytes(SizeValue(n), 4));
      assert r.value == b4;
      assert FixedBytes(TrustTag, 4) == TrustTag;
      assert b4[..4] == b1[..4];
      assert b4[4..8] == b2[4..8];
      assert b4[8..12] == b3[8..12];
    }
  }

  /** The header packing of `pack`, in place on `header_buf`. */
  method BuildHeader(major: int, minor: int, sha: ShaMode, rsa: RsaMode, n: nat) returns (r: Result<seq<byte>>)
    ensures r == TrustHeader(major, minor, sha, rsa, n)
  {
    var headerBuf := Zeros(TrustHeaderSize);
    var packed := PackBytes(headerBuf, 0, 4, TrustTag);
    headerBuf := packed.value;
    var version := VersionValue(major, minor);
    if version.Failure? {
      return Failure(version.error);
    }
    Pow256Widths();
    packed := PackField(headerBuf, 4, 4, version.value);
    headerBuf := packed.value;
    packed := PackField(headerBuf, 8, 4, Flags(sha, rsa));
    headerBuf := packed.value;
    r := PackField(headerBuf, 12, 4, SizeValue(n));
  }

  // ---------------------------------------------------------------- pack

  /** The sum of the components' padded sizes. */
  function UsedSize(cs: seq<BLComponent>): (r: nat)
  {
    if cs == [] then 0 else UsedSize(cs[..|cs| - 1]) + cs[|cs| - 1].alignSize
  }

  /** `data_offset` when the loop reaches component `k`: 2048 plus the padded sizes before it. */
  function DataOffsetOf(cs: seq<BLComponent>, k: nat): (r: nat)
    requires k <= |cs|
  {
    TrustHeaderSize + UsedSize(cs[..k])
  }

  /** `component_info_offset`: the storage records follow the signature. */
  function InfoOffset(n: nat): (r: nat)
  {
    SignOffset(n) + SignatureSize
  }

  /** `out_file_size`: the records, the signature, the storage records and the padded data. */
  function OutFileSize(cs: seq<BLComponent>): (r: nat)
  {
    InfoOffset(|cs|) + 16 * |cs| + UsedSize(cs)
  }

  /** `comp.size` bytes read from `comp.offset` of the component's file, zero-padded to `comp.align_size`. */
  function Payload(c: BLComponent, fs: FileSystem): (r: seq<byte>)
    ensures Aligned(c) ==> |r| == c.alignSize
  {
    PadRight(ReadAt(Contents(fs, c.path), c.offset, c.size), c.alignSize)
  }

  /** Where the record of component `idx` starts: 48-byte records follow the 800-byte header structure. */
  function RecordAt(idx: nat): (r: nat)
  {
    TrustHeaderStructSize + 48 * idx
  }

  /** What a record holds: the hash as a `"<32s"` field, then the load address as `"<I"`. */
  function RecordBytes(hash: seq<byte>, loadAddr: nat): (r: seq<byte>)
    ensures |r| == 36
  {
    FixedBytes(hash, 32) + LeBytes(loadAddr, 4)
  }

  /** What a storage record holds: the id as `"<4s"`, then the data offset and the padded size in 512-byte units. */
  function InfoBytes(id: seq<byte>, dataOffset: nat, alignSize: nat): (r: seq<byte>)
    ensures |r| == 12
  {
    FixedBytes(id, 4) + LeBytes(dataOffset / 512, 4) + LeBytes(alignSize / 512, 4)
  }

  /** The values `pack` stores for a component at `dataOffset` fit their 32-bit fields. */
  predicate Fits(c: BLComponent, dataOffset: nat)
  {
    0 <= c.loadAddr < 0x1_0000_0000 && dataOffset / 512 < 0x1_0000_0000 && c.alignSize / 512 < 0x1_0000_0000
  }

  /** None of the five `pack_into` calls of a turn raises struct.error: the fields lie in the buffer and the values fit. */
  predicate Packable(bufLen: nat, c: BLComponent, idx: nat, infoOffset: nat, dataOffset: nat)
  {
    RecordAt(idx) + 36 <= bufLen && infoOffset + 16 * idx + 12 <= bufLen && Fits(c, dataOffset)
  }

  /**
   * One turn of the pack loop for component `idx`: its record at
   * `800 + 48 idx`, its storage record at `infoOffset + 16 idx`, and its
   * padded data written at `dataOffset`, which may grow the buffer.
   */
  function PackComponent(buf: seq<byte>, c: BLComponent, fs: FileSystem, sha256: seq<byte> -> seq<byte>,
                         idx: nat, infoOffset: nat, dataOffset: nat): (r: Result<seq<byte>>)
    ensures r.Success? <==> Packable(|buf|, c, idx, infoOffset, dataOffset)
    ensures r.Success? ==> |r.value| >= |buf|
    ensures r.Success? && dataOffset <= |buf| ==>
      dataOffset + |Payload(c, fs)| <= |r.value| &&
      r.value[dataOffset..dataOffset + |Payload(c, fs)|] == Payload(c, fs)
  {
    if !Packable(|buf|, c, idx, infoOffset, dataOffset) then Failure(StructError)
    else
      var data := Payload(c, fs);
      var withRecord := PackInto(buf, RecordAt(idx), RecordBytes(sha256(data), c.loadAddr));
      var withInfo := PackInto(withRecord, infoOffset + 16 * idx, InfoBytes(c.componentId, dataOffset, c.alignSize));
      Success(WriteAt(withInfo, dataOffset, data))
  }

  /** The buffer after the loop has handled the first `k` components. */
  function PackComponents(buf: seq<byte>, cs: seq<BLComponent>, fs: FileSystem, sha256: seq<byte> -> seq<byte>, k: nat)
    : (r: Result<seq<byte>>)
    requires k <= |cs|
  {
    if k == 0 then Success(buf)
    else
      var prev :- PackComponents(buf, cs, fs, sha256, k - 1);
      PackComponent(prev, cs[k - 1], fs, sha256, k - 1, InfoOffset(|cs|), DataOffsetOf(cs, k - 1))
  }

  /** `out_buf`: a zero buffer of `out_file_size` bytes, the header over its first 2048, then the loop. */
  function SingleImage(cs: seq<BLComponent>, fs: FileSystem, sha256: seq<byte> -> seq<byte>, header: seq<byte>)
    : (r: Result<seq<byte>>)
  {
    var outBuf := SliceAssign(Zeros(OutFileSize(cs)), 0, TrustHeaderSize, header);
    PackComponents(outBuf, cs, fs, sha256, |cs|)
  }

  /** `total_buf`, `count` slots of `stride` bytes, after the first `i` copies of the image. */
  function Copies(single: seq<byte>, stride: nat, count: nat, i: nat): (r: seq<byte>)
  {
    if i == 0 then Zeros(stride * count)
    else WriteAt(Copies(single, stride, count, i - 1), (i - 1) * stride, single)
  }

  /** Copy `i + 1` is written at `i * stride`. */
  lemma CopiesNext(single: seq<byte>, stride: nat, count: nat, i: nat)
    ensures Copies(single, stride, count, i + 1) == WriteAt(Copies(single, stride, count, i), i * stride, single)
  {
  }

  /** `validate_binaries`: every configured binary exists. */
  predicate BinariesPresent(config: TrustConfig, fs: FileSystem)
  {
    (config.bl31.Some? ==> config.bl31.value.path in fs) && (config.bl32.Some? ==> config.bl32.value.path in fs)
  }

  /**
   * `pack`: the existence check, the components, the header, the image,
   * the size check, and the two copies.  `sha256` stands for `sha256_hash`.
   */
  function PackTrust(config: TrustConfig, fs: FileSystem, sha: ShaMode, rsa: RsaMode, sha256: seq<byte> -> seq<byte>)
    : (r: Result<seq<byte>>)
  {
    if !BinariesPresent(config, fs) then Failure(MissingBinaries)
    else
      var cs :- Components(config, fs);
      if cs == [] then Failure(NoComponents)
      else
        var header :- TrustHeader(config.major, config.minor, sha, rsa, |cs|);
        var single :- SingleImage(cs, fs, sha256, header);
        if |single| > TrustMaxSize then Failure(ImageTooLarge(|single|, TrustMaxSize))
        else Success(Copies(single, TrustMaxSize, TrustMaxNum, TrustMaxNum))
  }

  /** Once a loop turn has failed, the whole loop fails with its error. */
  lemma {:induction false} PackComponentsFail(buf: seq<byte>, cs: seq<BLComponent>, fs: FileSystem,
                                              sha256: seq<byte> -> seq<byte>, j: nat, k: nat, e: Error)
    requires j <= k <= |cs|
    requires PackComponents(buf, cs, fs, sha256, j) == Failure(e)
    ensures PackComponents(buf, cs, fs, sha256, k) == Failure(e)
    decreases k
  {
    if k > j {
      PackComponentsFail(buf, cs, fs, sha256, j, k - 1, e);
      assert PackComponents(buf, cs, fs, sha256, k - 1).IsFailure();
    }
  }

  /** The loop's next turn, as one step of the fold. */
  lemma PackComponentsNext(buf: seq<byte>, cs: seq<BLComponent>, fs: FileSystem, sha256: seq<byte> -> seq<byte>,
                           k: nat, prev: seq<byte>)
    requires k < |cs|
    requires PackComponents(buf, cs, fs, sha256, k) == Success(prev)
    ensures PackComponents(buf, cs, fs, sha256, k + 1) ==
      PackComponent(prev, cs[k], fs, sha256, k, InfoOffset(|cs|), DataOffsetOf(cs, k))
  {
  }

  lemma UsedSizeNext(cs: seq<BLComponent>, k: nat)
    requires k < |cs|
    ensures UsedSize(cs[..k + 1]) == UsedSize(cs[..k]) + cs[k].alignSize
  {
    assert cs[..k + 1][..k] == cs[..k];
  }

  /** The two `pack_into` calls of a record: they fail unless it lies in the buffer and the address fits. */
  method PackRecordFields(buf: seq<byte>, at: nat, hash: seq<byte>, loadAddr: int) returns (r: Result<seq<byte>>)
    ensures r.Success? <==> at + 36 <= |buf| && 0 <= loadAddr < 0x1_0000_0000
    ensures r.Success? ==> loadAddr >= 0 && r.value == PackInto(buf, at, RecordBytes(hash, loadAddr))
    ensures r.Failure? ==> r.error == StructError
  {
    Pow256Widths();
    var packed := PackBytes(buf, at, 32, hash);
    if packed.Failure? {
      return packed;
    }
    r := PackField(packed.value, at + 32, 4, loadAddr);
    if r.Success? {
      PackIntoConcat(buf, at, FixedBytes(hash, 32), LeBytes(loadAddr, 4));
    }
  }

  /** The three `pack_into` calls of a storage record: they fail unless it lies in the buffer and the values fit. */
  method PackInfoFields(buf: seq<byte>, at: nat, id: seq<byte>, dataOffset: nat, alignSize: nat) returns (r: Result<seq<byte>>)
    ensures r.Success? <==> at + 12 <= |buf| && dataOffset / 512 < 0x1_0000_0000 && alignSize / 512 < 0x1_0000_0000
    ensures r.Success? ==> r.value == PackInto(buf, at, InfoBytes(id, dataOffset, alignSize))
    ensures r.Failure? ==> r.error == StructError
  {
    Pow256Widths();
    var packed := PackBytes(buf, at, 4, id);
    if packed.Failure? {
      return packed;
    }
    ghost var withId := packed.value;
    packed := PackField(packed.value, at + 4, 4, dataOffset / 512);
    if packed.Failure? {
      return packed;
    }
    r := PackField(packed.value, at + 8, 4, alignSize / 512);
    if r.Success? {
      var f1, f2, f3 := FixedBytes(id, 4), LeBytes(dataOffset / 512, 4), LeBytes(alignSize / 512, 4);
      PackIntoConcat(buf, at, f1, f2);
      PackIntoConcat(buf, at, f1 + f2, f3);
    }
  }

  /** One turn of the loop of `pack`: the record and the storage record packed into `out_buf`, then the data copied in. */
  method PackOne(outBuf: seq<byte>, c: BLComponent, fs: FileSystem, sha256: seq<byte> -> seq<byte>,
                 idx: nat, compDataOffset: nat, componentInfoOffset: nat, dataOffset: nat) returns (r: Result<seq<byte>>)
    requires compDataOffset == RecordAt(idx)
    ensures r == PackComponent(outBuf, c, fs, sha256, idx, componentInfoOffset, dataOffset)
  {
    var compData := ReadAt(Contents(fs, c.path), c.offset, c.size);
    if |compData| < c.alignSize {
      compData := compData + Zeros(c.alignSize - |compData|);
    }
    assert compData == Payload(c, fs);
    var packed := PackRecordFields(outBuf, compDataOffset, sha256(compData), c.loadAddr);
    if packed.Failure? {
      return packed;
    }
    var compInfoPos := componentInfoOffset + 16 * idx;
    packed := PackInfoFields(packed.value, compInfoPos, c.componentId, dataOffset, c.alignSize);
    if packed.Failure? {
      return packed;
    }
    r := Success(WriteAt(packed.value, dataOffset, compData));
  }

  /** The sizing loop of `pack`: `out_file_size`. */
  method ComputeOutFileSize(cs: seq<BLComponent>) returns (outFileSize: nat)
    ensures outFileSize == OutFileSize(cs)
  {
    var n := |cs|;
    var componentInfoOffset := SignOffset(n) + SignatureSize;
    outFileSize := componentInfoOffset + n * 16;
    var i := 0;
    while i < n
      invariant 0 <= i <= n
      invariant outFileSize == componentInfoOffset + n * 16 + UsedSize(cs[..i])
    {
      UsedSizeNext(cs, i);
      outFileSize := outFileSize + cs[i].alignSize;
      i := i + 1;
    }
    assert cs[..n] == cs;
  }

  /** The header copy and component loop of `pack`. */
  method WriteImage(cs: seq<BLComponent>, fs: FileSystem, sha256: seq<byte> -> seq<byte>, header: seq<byte>)
    returns (r: Result<seq<byte>>)
    ensures r == SingleImage(cs, fs, sha256, header)
  {
    var n := |cs|;
    var componentInfoOffset := SignOffset(n) + SignatureSize;
    var outFileSize := ComputeOutFileSize(cs);
    var outBuf := Zeros(outFileSize);
    outBuf := SliceAssign(outBuf, 0, TrustHeaderSize, header);
    ghost var start := outBuf;
    var dataOffset := TrustHeaderSize;
    var compDataOffset := TrustHeaderStructSize;
    var idx := 0;
    assert cs[..0] == [];
    assert componentInfoOffset == InfoOffset(|cs|);
    while idx < n
      invariant 0 <= idx <= n
      invariant dataOffset == DataOffsetOf(cs, idx)
      invariant compDataOffset == RecordAt(idx)
      invariant PackComponents(start, cs, fs, sha256, idx) == Success(outBuf)
    {
      var step := PackOne(outBuf, cs[idx], fs, sha256, idx, compDataOffset, componentInfoOffset, dataOffset);
      PackComponentsNext(start, cs, fs, sha256, idx, outBuf);
      assert PackComponents(start, cs, fs, sha256, idx + 1) == step;
      if step.Failure? {
        PackComponentsFail(start, cs, fs, sha256, idx + 1, n, step.error);
        return Failure(step.error);
      }
      outBuf := step.value;
      compDataOffset := compDataOffset + 48;
      UsedSizeNext(cs, idx);
      dataOffset := dataOffset + cs[idx].alignSize;
      idx := idx + 1;
    }
    return Success(outBuf);
  }

  /** `pack`, writing the merged image into `total_buf`. */
  method Pack(config: TrustConfig, fs: FileSystem, sha: ShaMode, rsa: RsaMode, sha256: seq<byte> -> seq<byte>)
    returns (r: Result<seq<byte>>)
    ensures r == PackTrust(config, fs, sha, rsa, sha256)
  {
    if !BinariesPresent(config, fs) {
      return Failure(MissingBinaries);
    }
    var components := PrepareComponents(config, fs);
    if components.Failure? {
      return Failure(components.error);
    }
    var cs := components.value;
    if cs == [] {
      return Failure(NoComponents);
    }
    var header := BuildHeader(config.major, config.minor, sha, rsa, |cs|);
    if header.Failure? {
      return Failure(header.error);
    }
    var single := WriteImage(cs, fs, sha256, header.value);
    if single.Failure? {
      return Failure(single.error);
    }
    var outBuf := single.value;
    if |outBuf| > TrustMaxSize {
      return Failure(ImageTooLarge(|outBuf|, TrustMaxSize));
    }
    var totalBuf := WriteCopies(outBuf, TrustMaxSize, TrustMaxNum);
    return Success(totalBuf);
  }

  /** The copy loop of `pack`: `count` copies of the image into a zero buffer, `stride` bytes apart. */
  method WriteCopies(outBuf: seq<byte>, stride: nat, count: nat) returns (totalBuf: seq<byte>)
    ensures totalBuf == Copies(outBuf, stride, count, count)
  {
    totalBuf := Zeros(stride * count);
    var i := 0;
    while i < count
      invariant 0 <= i <= count
      invariant totalBuf == Copies(outBuf, stride, count, i)
    {
      var offset := i * stride;
      CopiesNext(outBuf, stride, count, i);
      totalBuf := WriteAt(totalBuf, offset, outBuf);
      i := i + 1;
    }
  }

  // -------------------------------------------------------------- layout

  /**
   * One turn of the loop, when the record and the storage record lie
   * before the data: it fails exactly when a value does not fit its field,
   * and otherwise grows the buffer to the end of the data.
   */
  lemma PackComponentEffect(prev: seq<byte>, c: BLComponent, fs: FileSystem, sha256: seq<byte> -> seq<byte>,
                            idx: nat, infoOffset: nat, dataOffset: nat)
    requires Aligned(c)
    requires RecordAt(idx) + 36 <= dataOffset && infoOffset + 16 * idx + 12 <= dataOffset <= |prev|
    ensures PackComponent(prev, c, fs, sha256, idx, infoOffset, dataOffset).Success? <==> Fits(c, dataOffset)
    ensures PackComponent(prev, c, fs, sha256, idx, infoOffset, dataOffset).Success? ==>
      |PackComponent(prev, c, fs, sha256, idx, infoOffset, dataOffset).value| == Max(|prev|, dataOffset + c.alignSize)
  {
  }

  /** A turn that succeeds leaves the component's record in place when the storage record lies after it. */
  lemma PackComponentRecord(prev: seq<byte>, c: BLComponent, fs: FileSystem, sha256: seq<byte> -> seq<byte>,
                            idx: nat, infoOffset: nat, dataOffset: nat)
    requires RecordAt(idx) + 36 <= infoOffset + 16 * idx && infoOffset + 16 * idx + 12 <= dataOffset <= |prev|
    requires PackComponent(prev, c, fs, sha256, idx, infoOffset, dataOffset).Success?
    ensures c.loadAddr >= 0
    ensures SliceIs(PackComponent(prev, c, fs, sha256, idx, infoOffset, dataOffset).value, RecordAt(idx),
                    RecordBytes(sha256(Payload(c, fs)), c.loadAddr))
  {
    var data := Payload(c, fs);
    var at := infoOffset + 16 * idx;
    var record := RecordBytes(sha256(data), c.loadAddr);
    var info := InfoBytes(c.componentId, dataOffset, c.alignSize);
    var withRecord := PackInto(prev, RecordAt(idx), record);
    var withInfo := PackInto(withRecord, at, info);
    PackIntoKeeps(withRecord, at, info, RecordAt(idx), record);
    WriteAtKeeps(withInfo, dataOffset, data, RecordAt(idx), record);
  }

  /** A turn that succeeds leaves the component's storage record in place. */
  lemma PackComponentInfo(prev: seq<byte>, c: BLComponent, fs: FileSystem, sha256: seq<byte> -> seq<byte>,
                          idx: nat, infoOffset: nat, dataOffset: nat)
    requires infoOffset + 16 * idx + 12 <= dataOffset <= |prev|
    requires PackComponent(prev, c, fs, sha256, idx, infoOffset, dataOffset).Success?
    ensures SliceIs(PackComponent(prev, c, fs, sha256, idx, infoOffset, dataOffset).value, infoOffset + 16 * idx,
                    InfoBytes(c.componentId, dataOffset, c.alignSize))
  {
    var data := Payload(c, fs);
    var at := infoOffset + 16 * idx;
    var info := InfoBytes(c.componentId, dataOffset, c.alignSize);
    var withRecord := PackInto(prev, RecordAt(idx), RecordBytes(sha256(data), c.loadAddr));
    WriteAtKeeps(PackInto(withRecord, at, info), dataOffset, data, at, info);
  }

  /** A turn that succeeds leaves the component's padded data at `dataOffset`. */
  lemma PackComponentData(prev: seq<byte>, c: BLComponent, fs: FileSystem, sha256: seq<byte> -> seq<byte>,
                          idx: nat, infoOffset: nat, dataOffset: nat)
    requires dataOffset <= |prev|
    requires PackComponent(prev, c, fs, sha256, idx, infoOffset, dataOffset).Success?
    ensures SliceIs(PackComponent(prev, c, fs, sha256, idx, infoOffset, dataOffset).value, dataOffset, Payload(c, fs))
  {
  }

  /** A turn writes the record, then the storage record, then the data. */
  lemma PackComponentWrites(prev: seq<byte>, c: BLComponent, fs: FileSystem, sha256: seq<byte> -> seq<byte>,
                            idx: nat, infoOffset: nat, dataOffset: nat)
    requires PackComponent(prev, c, fs, sha256, idx, infoOffset, dataOffset).Success?
    ensures RecordAt(idx) + 36 <= |prev| && infoOffset + 16 * idx + 12 <= |prev|
    ensures PackComponent(prev, c, fs, sha256, idx, infoOffset, dataOffset).value ==
      WriteAt(PackInto(PackInto(prev, RecordAt(idx), RecordBytes(sha256(Payload(c, fs)), c.loadAddr)),
                       infoOffset + 16 * idx, InfoBytes(c.componentId, dataOffset, c.alignSize)),
              dataOffset, Payload(c, fs))
  {
  }

  /** Two writes in place and a write from `off` on leave bytes apart from all three where they were. */
  lemma WritesKeep(buf: seq<byte>, at1: nat, x1: seq<byte>, at2: nat, x2: seq<byte>, off: nat, data: seq<byte>,
                   a: nat, bytes: seq<byte>)
    requires at1 + |x1| <= |buf| && at2 + |x2| <= |buf| && off <= |buf|
    requires SliceIs(buf, a, bytes) && a + |bytes| <= off
    requires Apart(a, |bytes|, at1, |x1|) && Apart(a, |bytes|, at2, |x2|)
    ensures SliceIs(WriteAt(PackInto(PackInto(buf, at1, x1), at2, x2), off, data), a, bytes)
  {
    var b1 := PackInto(buf, at1, x1);
    PackIntoKeeps(buf, at1, x1, a, bytes);
    PackIntoKeeps(b1, at2, x2, a, bytes);
    WriteAtKeeps(PackInto(b1, at2, x2), off, data, a, bytes);
  }

  lemma PackComponentKeeps(prev: seq<byte>, c: BLComponent, fs: FileSystem, sha256: seq<byte> -> seq<byte>,
                           idx: nat, infoOffset: nat, dataOffset: nat, a: nat, bytes: seq<byte>)
    requires PackComponent(prev, c, fs, sha256, idx, infoOffset, dataOffset).Success?
    requires dataOffset <= |prev|
    requires SliceIs(prev, a, bytes) && a + |bytes| <= dataOffset
    requires Apart(a, |bytes|, RecordAt(idx), 36) && Apart(a, |bytes|, infoOffset + 16 * idx, 12)
    ensures SliceIs(PackComponent(prev, c, fs, sha256, idx, infoOffset, dataOffset).value, a, bytes)
  {
    PackComponentWrites(prev, c, fs, sha256, idx, infoOffset, dataOffset);
    WritesKeep(prev, RecordAt(idx), RecordBytes(sha256(Payload(c, fs)), c.loadAddr),
               infoOffset + 16 * idx, InfoBytes(c.componentId, dataOffset, c.alignSize), dataOffset, Payload(c, fs),
               a, bytes);
  }

  /** Where the storage record of component `idx` of `n` starts. */
  function InfoAt(n: nat, idx: nat): (r: nat)
  {
    InfoOffset(n) + 16 * idx
  }

  /** Every component's padded size is its size rounded up to `EntryAlign`. */
  predicate AllAligned(cs: seq<BLComponent>)
  {
    forall j :: 0 <= j < |cs| ==> Aligned(cs[j])
  }

  /**
   * Component `j` of `cs` as `pack` leaves it in `img`: its record holds its
   * data's hash and its load address, its storage record its id, data
   * offset and padded size, and its padded data lies at that offset.
   */
  predicate Placed(img: seq<byte>, cs: seq<BLComponent>, fs: FileSystem, sha256: seq<byte> -> seq<byte>, j: nat)
    requires j < |cs|
  {
    var c := cs[j];
    c.loadAddr >= 0 &&
    SliceIs(img, RecordAt(j), RecordBytes(sha256(Payload(c, fs)), c.loadAddr)) &&
    SliceIs(img, InfoAt(|cs|, j), InfoBytes(c.componentId, DataOffsetOf(cs, j), c.alignSize)) &&
    SliceIs(img, DataOffsetOf(cs, j), Payload(c, fs))
  }

  lemma AlignedMultiple(c: BLComponent)
    requires Aligned(c)
    ensures c.alignSize % EntryAlign == 0
  {
  }

  /** The data offsets are multiples of `EntryAlign`. */
  lemma {:induction false} UsedSizeAligned(cs: seq<BLComponent>, k: nat)
    requires k <= |cs| && AllAligned(cs)
    ensures UsedSize(cs[..k]) % EntryAlign == 0
  {
    if k > 0 {
      UsedSizeAligned(cs, k - 1);
      UsedSizeNext(cs, k - 1);
      AlignedMultiple(cs[k - 1]);
      var a, b := UsedSize(cs[..k - 1]), cs[k - 1].alignSize;
      DivBounds(a, EntryAlign);
      DivBounds(b, EntryAlign);
      assert a + b == (a / EntryAlign + b / EntryAlign) * EntryAlign;
      DivModUnique(a + b, EntryAlign, a / EntryAlign + b / EntryAlign, 0);
    }
  }

  /** The data offsets grow with the index. */
  lemma {:induction false} UsedSizeMonotone(cs: seq<BLComponent>, j: nat, k: nat)
    requires j <= k <= |cs|
    ensures UsedSize(cs[..j]) <= UsedSize(cs[..k])
    decreases k
  {
    if j < k {
      UsedSizeMonotone(cs, j, k - 1);
      UsedSizeNext(cs, k - 1);
    }
  }

  /** A later loop turn leaves an earlier component in place. */
  lemma PlacedKept(prev: seq<byte>, cs: seq<BLComponent>, fs: FileSystem, sha256: seq<byte> -> seq<byte>, j: nat, k: nat)
    requires j < k < |cs| <= 15 && AllAligned(cs)
    requires DataOffsetOf(cs, k) <= |prev|
    requires PackComponent(prev, cs[k], fs, sha256, k, InfoOffset(|cs|), DataOffsetOf(cs, k)).Success?
    requires Placed(prev, cs, fs, sha256, j)
    ensures Placed(PackComponent(prev, cs[k], fs, sha256, k, InfoOffset(|cs|), DataOffsetOf(cs, k)).value, cs, fs, sha256, j)
  {
    var c := cs[j];
    var n := |cs|;
    var off := DataOffsetOf(cs, k);
    UsedSizeNext(cs, j);
    UsedSizeMonotone(cs, j + 1, k);
    assert DataOffsetOf(cs, j) + c.alignSize <= off;
    PackComponentKeeps(prev, cs[k], fs, sha256, k, InfoOffset(n), off,
                       RecordAt(j), RecordBytes(sha256(Payload(c, fs)), c.loadAddr));
    PackComponentKeeps(prev, cs[k], fs, sha256, k, InfoOffset(n), off,
                       InfoAt(n, j), InfoBytes(c.componentId, DataOffsetOf(cs, j), c.alignSize));
    PackComponentKeeps(prev, cs[k], fs, sha256, k, InfoOffset(n), off, DataOffsetOf(cs, j), Payload(c, fs));
  }

  /** Components `0 .. k - 1` are in place in `img`. */
  predicate AllPlaced(img: seq<byte>, cs: seq<BLComponent>, fs: FileSystem, sha256: seq<byte> -> seq<byte>, k: nat)
    requires k <= |cs|
  {
    k == 0 || (AllPlaced(img, cs, fs, sha256, k - 1) && Placed(img, cs, fs, sha256, k - 1))
  }

  lemma {:induction false} AllPlacedAt(img: seq<byte>, cs: seq<BLComponent>, fs: FileSystem,
                                       sha256: seq<byte> -> seq<byte>, k: nat, j: nat)
    requires j < k <= |cs| && AllPlaced(img, cs, fs, sha256, k)
    ensures Placed(img, cs, fs, sha256, j)
  {
    if j < k - 1 {
      AllPlacedAt(img, cs, fs, sha256, k - 1, j);
    }
  }

  /** The values of components `0 .. k - 1` fit their fields. */
  predicate AllFit(cs: seq<BLComponent>, k: nat)
    requires k <= |cs|
  {
    k == 0 || (AllFit(cs, k - 1) && Fits(cs[k - 1], DataOffsetOf(cs, k - 1)))
  }

  lemma {:induction false} AllFitEvery(cs: seq<BLComponent>, k: nat)
    requires k <= |cs|
    ensures AllFit(cs, k) <==> forall j :: 0 <= j < k ==> Fits(cs[j], DataOffsetOf(cs, j))
  {
    if k > 0 {
      AllFitEvery(cs, k - 1);
    }
  }

  lemma {:induction false} AllFitAt(cs: seq<BLComponent>, k: nat, j: nat)
    requires j < k <= |cs| && AllFit(cs, k)
    ensures Fits(cs[j], DataOffsetOf(cs, j))
  {
    if j < k - 1 {
      AllFitAt(cs, k - 1, j);
    }
  }

  /** The buffer after the first `k` turns: the header structure kept, components `0 .. k - 1` in place. */
  predicate LaidOut(r: seq<byte>, buf: seq<byte>, cs: seq<BLComponent>, fs: FileSystem, sha256: seq<byte> -> seq<byte>, k: nat)
    requires k <= |cs| && TrustHeaderStructSize <= |buf|
  {
    |r| == Max(|buf|, DataOffsetOf(cs, k)) && SliceIs(r, 0, buf[..TrustHeaderStructSize]) &&
    AllPlaced(r, cs, fs, sha256, k)
  }

  /** The turn for component `k` puts it in place. */
  lemma PlacedNew(prev: seq<byte>, cs: seq<BLComponent>, fs: FileSystem, sha256: seq<byte> -> seq<byte>, k: nat)
    requires k < |cs| <= 15 && AllAligned(cs)
    requires DataOffsetOf(cs, k) <= |prev|
    ensures PackComponent(prev, cs[k], fs, sha256, k, InfoOffset(|cs|), DataOffsetOf(cs, k)).Success? <==>
      Fits(cs[k], DataOffsetOf(cs, k))
    ensures PackComponent(prev, cs[k], fs, sha256, k, InfoOffset(|cs|), DataOffsetOf(cs, k)).Success? ==>
      var r := PackComponent(prev, cs[k], fs, sha256, k, InfoOffset(|cs|), DataOffsetOf(cs, k)).value;
      |r| == Max(|prev|, DataOffsetOf(cs, k + 1)) && Placed(r, cs, fs, sha256, k)
  {
    var c, io, off := cs[k], InfoOffset(|cs|), DataOffsetOf(cs, k);
    UsedSizeNext(cs, k);
    assert InfoAt(|cs|, k) == io + 16 * k;
    assert RecordAt(k) + 36 <= io + 16 * k && io + 16 * k + 12 <= off;
    PackComponentEffect(prev, c, fs, sha256, k, io, off);
    if Fits(c, off) {
      PackComponentRecord(prev, c, fs, sha256, k, io, off);
      PackComponentInfo(prev, c, fs, sha256, k, io, off);
      PackComponentData(prev, c, fs, sha256, k, io, off);
    }
  }

  /** The turn for component `k` leaves the components before it in place. */
  lemma {:induction false} AllPlacedKept(prev: seq<byte>, cs: seq<BLComponent>, fs: FileSystem,
                                         sha256: seq<byte> -> seq<byte>, m: nat, k: nat)
    requires m <= k < |cs| <= 15 && AllAligned(cs)
    requires DataOffsetOf(cs, k) <= |prev|
    requires PackComponent(prev, cs[k], fs, sha256, k, InfoOffset(|cs|), DataOffsetOf(cs, k)).Success?
    requires AllPlaced(prev, cs, fs, sha256, m)
    ensures AllPlaced(PackComponent(prev, cs[k], fs, sha256, k, InfoOffset(|cs|), DataOffsetOf(cs, k)).value, cs, fs, sha256, m)
  {
    if m > 0 {
      AllPlacedKept(prev, cs, fs, sha256, m - 1, k);
      PlacedKept(prev, cs, fs, sha256, m - 1, k);
    }
  }

  /** One turn of the loop keeps the layout of the turns before it and adds its own. */
  lemma LayoutStep(prev: seq<byte>, buf: seq<byte>, cs: seq<BLComponent>, fs: FileSystem,
                   sha256: seq<byte> -> seq<byte>, k: nat)
    requires k < |cs| <= 15 && AllAligned(cs)
    requires TrustHeaderSize <= |buf|
    requires LaidOut(prev, buf, cs, fs, sha256, k)
    ensures PackComponent(prev, cs[k], fs, sha256, k, InfoOffset(|cs|), DataOffsetOf(cs, k)).Success? <==>
      Fits(cs[k], DataOffsetOf(cs, k))
    ensures PackComponent(prev, cs[k], fs, sha256, k, InfoOffset(|cs|), DataOffsetOf(cs, k)).Success? ==>
      LaidOut(PackComponent(prev, cs[k], fs, sha256, k, InfoOffset(|cs|), DataOffsetOf(cs, k)).value, buf, cs, fs, sha256, k + 1)
  {
    var off := DataOffsetOf(cs, k);
    UsedSizeNext(cs, k);
    assert off <= |prev|;
    PlacedNew(prev, cs, fs, sha256, k);
    var step := PackComponent(prev, cs[k], fs, sha256, k, InfoOffset(|cs|), off);
    if step.Success? {
      var r := step.value;
      assert |r| == Max(|buf|, DataOffsetOf(cs, k + 1));
      PackComponentKeeps(prev, cs[k], fs, sha256, k, InfoOffset(|cs|), off, 0, buf[..TrustHeaderStructSize]);
      AllPlacedKept(prev, cs, fs, sha256, k, k);
      assert AllPlaced(r, cs, fs, sha256, k + 1);
    }
  }

  /**
   * For at most 15 components the records, the storage records and the
   * data do not overlap: the first `k` turns of the loop succeed exactly
   * when every value fits its field, and then every component so far is
   * in place, the header structure is untouched, and the buffer reaches
   * the end of the last data.
   */
  lemma {:induction false} PackComponentsLayout(buf: seq<byte>, cs: seq<BLComponent>, fs: FileSystem,
                                                sha256: seq<byte> -> seq<byte>, k: nat)
    requires k <= |cs| <= 15 && AllAligned(cs)
    requires TrustHeaderSize <= |buf|
    ensures PackComponents(buf, cs, fs, sha256, k).Success? <==> AllFit(cs, k)
    ensures PackComponents(buf, cs, fs, sha256, k).Success? ==>
      LaidOut(PackComponents(buf, cs, fs, sha256, k).value, buf, cs, fs, sha256, k)
  {
    if k == 0 {
      assert cs[..0] == [];
    } else {
      PackComponentsLayout(buf, cs, fs, sha256, k - 1);
      var prevResult := PackComponents(buf, cs, fs, sha256, k - 1);
      if prevResult.Success? {
        PackComponentsNext(buf, cs, fs, sha256, k - 1, prevResult.value);
        LayoutStep(prevResult.value, buf, cs, fs, sha256, k - 1);
      }
    }
  }

  // --------------------------------------------------------------- image

  /** Every component comes from BL31 or BL32 and carries its padded size. */
  lemma ComponentsShape(config: TrustConfig, fs: FileSystem)
    requires Components(config, fs).Success?
    ensures AllAligned(Components(config, fs).value)
    ensures forall i :: 0 <= i < |Components(config, fs).value| ==>
      Components(config, fs).value[i].componentId == Bl31Id || Components(config, fs).value[i].componentId == Bl32Id
  {
    ComponentsOrder(config, fs);
    var cs := Components(config, fs).value;
    var k :| 0 <= k <= |cs| &&
      (k > 0 ==> config.bl31.Some? && ComponentsOf(cs[..k], Bl31Id, config.bl31.value.path)) &&
      (k < |cs| ==> config.bl32.Some? && ComponentsOf(cs[k..], Bl32Id, config.bl32.value.path));
    forall i | 0 <= i < |cs|
      ensures Aligned(cs[i]) && (cs[i].componentId == Bl31Id || cs[i].componentId == Bl32Id)
    {
      if i < k {
        assert cs[..k][i] == cs[i];
      } else {
        assert cs[k..][i - k] == cs[i];
      }
    }
  }

  /** The header assignment leaves a buffer of at least 2048 bytes that starts with the header. */
  lemma HeaderAssigned(size: nat, header: seq<byte>)
    requires |header| == TrustHeaderSize
    ensures |SliceAssign(Zeros(size), 0, TrustHeaderSize, header)| == Max(size, TrustHeaderSize)
    ensures SliceAssign(Zeros(size), 0, TrustHeaderSize, header)[..TrustHeaderSize] == header
  {
    var z := Zeros(size);
    assert SliceAssign(z, 0, TrustHeaderSize, header) == header + z[Min(TrustHeaderSize, size)..];
  }

  /**
   * For at most 15 components the single image packs exactly when every
   * value fits its field; it is then 2048 bytes plus the padded data, starts
   * with the header structure, and holds every component in place.
   */
  lemma SingleImageLayout(cs: seq<BLComponent>, fs: FileSystem, sha256: seq<byte> -> seq<byte>, header: seq<byte>)
    requires |cs| <= 15 && AllAligned(cs) && |header| == TrustHeaderSize
    ensures SingleImage(cs, fs, sha256, header).Success? <==> AllFit(cs, |cs|)
    ensures SingleImage(cs, fs, sha256, header).Success? ==>
      var r := SingleImage(cs, fs, sha256, header).value;
      |r| == TrustHeaderSize + UsedSize(cs) && r[..16] == header[..16] && AllPlaced(r, cs, fs, sha256, |cs|)
  {
    var outBuf := SliceAssign(Zeros(OutFileSize(cs)), 0, TrustHeaderSize, header);
    HeaderAssigned(OutFileSize(cs), header);
    assert outBuf[..TrustHeaderStructSize] == header[..TrustHeaderStructSize];
    PackComponentsLayout(outBuf, cs, fs, sha256, |cs|);
    assert cs[..|cs|] == cs;
    var result := PackComponents(outBuf, cs, fs, sha256, |cs|);
    if result.Success? {
      var r := result.value;
      assert r[..16] == r[..TrustHeaderStructSize][..16];
    }
  }

  /** Two copies `m` bytes apart: the image, zeros up to `m`, the image again, zeros up to `2 m`. */
  lemma CopiesLayout(single: seq<byte>, m: nat)
    requires |single| <= m
    ensures Copies(single, m, 2, 2) == single + Zeros(m - |single|) + single + Zeros(m - |single|)
  {
    var n := |single|;
    var c0 := Zeros(m * 2);
    var c1 := WriteAt(c0, 0, single);
    assert Copies(single, m, 2, 1) == c1;
    assert c1 == single + c0[n..];
    ZerosSlice(m * 2, n, m * 2);
    assert c1 == single + Zeros(2 * m - n);
    var c2 := WriteAt(c1, m, single);
    assert c2 == c1[..m] + single + c1[m + n..];
    assert c1[..m] == single + Zeros(2 * m - n)[..m - n];
    ZerosSlice(2 * m - n, 0, m - n);
    assert c1[m + n..] == Zeros(2 * m - n)[m..];
    ZerosSlice(2 * m - n, m, 2 * m - n);
  }

  /**
   * `img` is the image `pack` builds for `cs`: the tag, version, flags and
   * size field, every component in place, and nothing past the last data.
   */
  predicate ImageOf(img: seq<byte>, cs: seq<BLComponent>, fs: FileSystem, sha256: seq<byte> -> seq<byte>,
                    version: nat, flags: nat)
  {
    |img| == TrustHeaderSize + UsedSize(cs) && img[..4] == TrustTag && img[4..8] == LeBytes(version, 4) &&
    img[8..12] == LeBytes(flags, 4) && img[12..16] == LeBytes(SizeValue(|cs|), 4) &&
    AllPlaced(img, cs, fs, sha256, |cs|)
  }

  /** The ways `pack` fails before it lays out the image. */
  lemma PackTrustErrors(config: TrustConfig, fs: FileSystem, sha: ShaMode, rsa: RsaMode, sha256: seq<byte> -> seq<byte>)
    ensures !BinariesPresent(config, fs) ==> PackTrust(config, fs, sha, rsa, sha256) == Failure(MissingBinaries)
    ensures BinariesPresent(config, fs) && Components(config, fs).Failure? ==>
      PackTrust(config, fs, sha, rsa, sha256) == Failure(Components(config, fs).error)
    ensures BinariesPresent(config, fs) && Components(config, fs) == Success([]) ==>
      PackTrust(config, fs, sha, rsa, sha256) == Failure(NoComponents)
    ensures (BinariesPresent(config, fs) && Components(config, fs).Success? && Components(config, fs).value != [] &&
             (config.major < 0 || config.minor < 0)) ==>
      PackTrust(config, fs, sha, rsa, sha256) == Failure(StructError)
  {
    if BinariesPresent(config, fs) && Components(config, fs).Success? {
      TrustHeaderFields(config.major, config.minor, sha, rsa, |Components(config, fs).value|);
    }
  }

  lemma SameFields(s: seq<byte>, h: seq<byte>)
    requires 16 <= |s| && 16 <= |h| && s[..16] == h[..16]
    ensures s[..4] == h[..4] && s[4..8] == h[4..8] && s[8..12] == h[8..12] && s[12..16] == h[12..16]
  {
    assert s[..4] == s[..16][..4] && h[..4] == h[..16][..4];
    assert s[4..8] == s[..16][4..8] && h[4..8] == h[..16][4..8];
    assert s[8..12] == s[..16][8..12] && h[8..12] == h[..16][8..12];
    assert s[12..16] == s[..16][12..16] && h[12..16] == h[..16][12..16];
  }

  /** The conditions under which `pack` succeeds for components `cs` that come from the configuration. */
  predicate PackSucceeds(config: TrustConfig, cs: seq<BLComponent>)
  {
    config.major >= 0 && config.minor >= 0 && AllFit(cs, |cs|) && TrustHeaderSize + UsedSize(cs) <= TrustMaxSize
  }

  /**
   * With one to 15 components, `pack` succeeds exactly when the version is
   * non-negative, every value fits its field and the image fits 2 MiB.
   */
  lemma PackTrustSucceeds(config: TrustConfig, fs: FileSystem, sha: ShaMode, rsa: RsaMode, sha256: seq<byte> -> seq<byte>)
    requires BinariesPresent(config, fs) && Components(config, fs).Success?
    requires 1 <= |Components(config, fs).value| <= 15
    ensures PackTrust(config, fs, sha, rsa, sha256).Success? <==> PackSucceeds(config, Components(config, fs).value)
  {
    var cs := Components(config, fs).value;
    ComponentsShape(config, fs);
    TrustHeaderFields(config.major, config.minor, sha, rsa, |cs|);
    var header := TrustHeader(config.major, config.minor, sha, rsa, |cs|);
    if header.Success? {
      SingleImageLayout(cs, fs, sha256, header.value);
    }
  }

  /** Past the checks, `pack` returns the single image stored twice. */
  lemma PackTrustCopies(config: TrustConfig, fs: FileSystem, sha: ShaMode, rsa: RsaMode, sha256: seq<byte> -> seq<byte>,
                        header: seq<byte>, single: seq<byte>)
    requires BinariesPresent(config, fs) && Components(config, fs).Success? && Components(config, fs).value != []
    requires TrustHeader(config.major, config.minor, sha, rsa, |Components(config, fs).value|) == Success(header)
    requires SingleImage(Components(config, fs).value, fs, sha256, header) == Success(single)
    requires |single| <= TrustMaxSize
    ensures PackTrust(config, fs, sha, rsa, sha256) == Success(Copies(single, TrustMaxSize, TrustMaxNum, TrustMaxNum))
  {
  }

  /** An image that starts with the header's fields and has its components in place is `ImageOf` them. */
  lemma ImageOfHeader(img: seq<byte>, header: seq<byte>, cs: seq<BLComponent>, fs: FileSystem,
                      sha256: seq<byte> -> seq<byte>, version: nat, flags: nat)
    requires |img| == TrustHeaderSize + UsedSize(cs) && |header| == TrustHeaderSize && img[..16] == header[..16]
    requires header[..4] == TrustTag && header[4..8] == LeBytes(version, 4) && header[8..12] == LeBytes(flags, 4)
    requires header[12..16] == LeBytes(SizeValue(|cs|), 4)
    requires AllPlaced(img, cs, fs, sha256, |cs|)
    ensures ImageOf(img, cs, fs, sha256, version, flags)
  {
    SameFields(img, header);
  }

  /** Two copies of `img`, as `pack` stores them, start with `img`. */
  lemma CopiesPrefix(out: seq<byte>, img: seq<byte>, len: nat)
    requires |img| == len <= TrustMaxSize && out == Copies(img, TrustMaxSize, TrustMaxNum, TrustMaxNum)
    ensures |out| == TrustMaxSize * TrustMaxNum && out[..len] == img
    ensures out == out[..len] + Zeros(TrustMaxSize - len) + out[..len] + Zeros(TrustMaxSize - len)
  {
    CopiesLayout(img, TrustMaxSize);
    var z := Zeros(TrustMaxSize - len);
    InFirst(img, z, img, z);
  }

  /** `out` holds an image laid out as `ImageOf` says, at offset 0 and again at `TrustMaxSize`, each padded with zeros. */
  predicate StoredTwice(out: seq<byte>, cs: seq<BLComponent>, fs: FileSystem, sha256: seq<byte> -> seq<byte>,
                        version: nat, flags: nat)
  {
    TrustHeaderSize + UsedSize(cs) <= |out| && TrustHeaderSize + UsedSize(cs) <= TrustMaxSize &&
    var single := out[..TrustHeaderSize + UsedSize(cs)];
    ImageOf(single, cs, fs, sha256, version, flags) &&
    out == single + Zeros(TrustMaxSize - |single|) + single + Zeros(TrustMaxSize - |single|)
  }

  /** The copies `pack` makes of an image are `StoredTwice`. */
  lemma CopiesStored(out: seq<byte>, img: seq<byte>, cs: seq<BLComponent>, fs: FileSystem,
                     sha256: seq<byte> -> seq<byte>, version: nat, flags: nat)
    requires |img| <= TrustMaxSize && ImageOf(img, cs, fs, sha256, version, flags)
    requires out == Copies(img, TrustMaxSize, TrustMaxNum, TrustMaxNum)
    ensures |out| == TrustMaxSize * TrustMaxNum && StoredTwice(out, cs, fs, sha256, version, flags)
  {
    CopiesPrefix(out, img, TrustHeaderSize + UsedSize(cs));
  }

  /** When `pack` succeeds, its output is the image, laid out as `ImageOf` says, stored twice. */
  lemma PackTrustOutput(config: TrustConfig, fs: FileSystem, sha: ShaMode, rsa: RsaMode, sha256: seq<byte> -> seq<byte>)
    requires BinariesPresent(config, fs) && Components(config, fs).Success?
    requires 1 <= |Components(config, fs).value| <= 15
    requires PackSucceeds(config, Components(config, fs).value)
    ensures PackTrust(config, fs, sha, rsa, sha256).Success?
    ensures |PackTrust(config, fs, sha, rsa, sha256).value| == TrustMaxSize * TrustMaxNum
    ensures StoredTwice(PackTrust(config, fs, sha, rsa, sha256).value, Components(config, fs).value, fs, sha256,
                        VersionValue(config.major, config.minor).value, Flags(sha, rsa))
  {
    var cs := Components(config, fs).value;
    var n := |cs|;
    ComponentsShape(config, fs);
    TrustHeaderFields(config.major, config.minor, sha, rsa, n);
    var header := TrustHeader(config.major, config.minor, sha, rsa, n).value;
    SingleImageLayout(cs, fs, sha256, header);
    var s := SingleImage(cs, fs, sha256, header).value;
    PackTrustCopies(config, fs, sha, rsa, sha256, header, s);
    ImageOfHeader(s, header, cs, fs, sha256, VersionValue(config.major, config.minor).value, Flags(sha, rsa));
    CopiesStored(PackTrust(config, fs, sha, rsa, sha256).value, s, cs, fs, sha256,
                 VersionValue(config.major, config.minor).value, Flags(sha, rsa));
  }
}
