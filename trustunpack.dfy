/**
 * `TrustMerger.unpack`: reading the components back out of a trust image.
 *
 * The header is the first 2048 bytes of the file (fewer if the file is
 * shorter). After the tag, version, flags and size field, component `i`'s
 * load address is read from its record in the header, and its 16-byte
 * storage record from the file at the storage-record offset plus `16 * i`;
 * the data offset and size there are in 512-byte units. Each component's
 * bytes are written to a file named after its id, decoded as ASCII and
 * stripped of surrounding whitespace.
 */
module TrustUnpack {
  import opened Bytes
  import opened Results
  import opened Struct
  import opened Trust
  import opened TrustImage

  /** One component `unpack` reads: its four-byte id and its data. */
  datatype Extracted = Extracted(id: seq<byte>, data: seq<byte>)

  // ------------------------------------------------------------ names

  /** `bytes.decode('ascii')` succeeds exactly when every byte is below 128. */
  predicate IsAsciiBytes(b: seq<byte>)
  {
    forall k :: 0 <= k < |b| ==> b[k] < 128
  }

  /** The characters of `b`, one per byte. */
  function AsciiText(b: seq<byte>): (r: string)
    ensures |r| == |b| && forall k :: 0 <= k < |b| ==> r[k] as int == b[k]
  {
    seq(|b|, k requires 0 <= k < |b| => b[k] as char)
  }

  /** The ASCII characters `str.strip()` removes: tab to carriage return, the four separators and space. */
  predicate IsSpace(c: char)
  {
    9 <= c as int <= 13 || 28 <= c as int <= 32
  }

  /** `s` without its leading whitespace. */
  function StripLeading(s: string): (r: string)
  {
    if s != [] && IsSpace(s[0]) then StripLeading(s[1..]) else s
  }

  /** `s` without its trailing whitespace. */
  function StripTrailing(s: string): (r: string)
  {
    if s != [] && IsSpace(s[|s| - 1]) then StripTrailing(s[..|s| - 1]) else s
  }

  /** Stripping the front keeps a suffix, drops only whitespace, and stops at a non-space. */
  lemma {:induction false} StripLeadingShape(s: string)
    ensures var r := StripLeading(s);
      |r| <= |s| && r == s[|s| - |r|..] &&
      (forall k :: 0 <= k < |s| - |r| ==> IsSpace(s[k])) &&
      (r != [] ==> !IsSpace(r[0]))
  {
    if s != [] && IsSpace(s[0]) {
      StripLeadingShape(s[1..]);
      var r := StripLeading(s);
      forall k | 1 <= k < |s| - |r|
        ensures IsSpace(s[k])
      {
        assert s[k] == s[1..][k - 1];
      }
    }
  }

  /** Stripping the back keeps a prefix, drops only whitespace, and stops at a non-space. */
  lemma {:induction false} StripTrailingShape(s: string)
    ensures var r := StripTrailing(s);
      |r| <= |s| && r == s[..|r|] &&
      (forall k :: |r| <= k < |s| ==> IsSpace(s[k])) &&
      (r != [] ==> !IsSpace(r[|r| - 1]))
  {
    if s != [] && IsSpace(s[|s| - 1]) {
      var init := s[..|s| - 1];
      StripTrailingShape(init);
      var r := StripTrailing(s);
      assert r == init[..|r|];
      forall k | |r| <= k < |init|
        ensures IsSpace(s[k])
      {
        assert s[k] == init[k];
      }
    }
  }

  /** `str.strip()` on an ASCII string. */
  function Strip(s: string): (r: string)
  {
    StripTrailing(StripLeading(s))
  }

  /** What `strip` keeps lies inside `s`, starts and ends with a non-space, and everything it drops is whitespace. */
  lemma StripShape(s: string)
    ensures var r, lo := Strip(s), |s| - |StripLeading(s)|;
      0 <= lo && lo + |r| <= |s| && r == s[lo..lo + |r|] &&
      (forall k :: 0 <= k < lo ==> IsSpace(s[k])) &&
      (forall k :: lo + |r| <= k < |s| ==> IsSpace(s[k])) &&
      (r != [] ==> !IsSpace(r[0]) && !IsSpace(r[|r| - 1]))
  {
    var t := StripLeading(s);
    var r := StripTrailing(t);
    var lo := |s| - |t|;
    StripLeadingShape(s);
    StripTrailingShape(t);
    SliceOfDrop(s, lo, |r|);
    forall k | lo + |r| <= k < |s|
      ensures IsSpace(s[k])
    {
      assert s[k] == t[k - lo];
    }
  }

  /** A string with no surrounding whitespace is left as it is. */
  lemma StripKeeps(s: string)
    requires s == [] || (!IsSpace(s[0]) && !IsSpace(s[|s| - 1]))
    ensures Strip(s) == s
  {
  }

  /** Stripping twice strips no more than once. */
  lemma StripIdempotent(s: string)
    ensures Strip(Strip(s)) == Strip(s)
  {
    var r := Strip(s);
    StripShape(s);
    StripKeeps(r);
  }

  /** The file name `unpack` gives component id `id`. */
  function IdName(id: seq<byte>): (r: string)
  {
    Strip(AsciiText(id))
  }

  /** The two ids `pack` writes name the files `BL31` and `BL32`. */
  lemma StandardNames()
    ensures IsAsciiBytes(Bl31Id) && IdName(Bl31Id) == "BL31"
    ensures IsAsciiBytes(Bl32Id) && IdName(Bl32Id) == "BL32"
  {
    assert AsciiText(Bl31Id) == "BL31";
    StripKeeps("BL31");
    assert AsciiText(Bl32Id) == "BL32";
    StripKeeps("BL32");
  }

  // ------------------------------------------------------------ reading

  /**
   * Turn `i` of the loop: the load address must lie in the header, the
   * storage record must hold the three fields and the id must be ASCII;
   * the component is then the bytes at the stored offset.
   */
  function UnpackComponent(file: seq<byte>, headerData: seq<byte>, infoOffset: nat, i: nat): (r: Result<Extracted>)
    ensures r.Success? ==> |r.value.id| == 4 && IsAsciiBytes(r.value.id)
    ensures r.Failure? ==> r.error == StructError || r.error == CodecError
  {
    if RecordAt(i) + 36 > |headerData| then Failure(StructError)
    else
      var compInfo := ReadAt(file, infoOffset + 16 * i, 16);
      if |compInfo| < 12 then Failure(StructError)
      else
        var id := compInfo[..4];
        var storageOffset := LeValue(compInfo[4..8]) * 512;
        var sizeBytes := LeValue(compInfo[8..12]) * 512;
        if !IsAsciiBytes(id) then Failure(CodecError)
        else Success(Extracted(id, ReadAt(file, storageOffset, sizeBytes)))
  }

  /** What each of the `n` turns of the loop reads, in order. */
  function Turns(file: seq<byte>, headerData: seq<byte>, infoOffset: nat, n: nat): (r: seq<Result<Extracted>>)
  {
    seq(n, i requires 0 <= i < n => UnpackComponent(file, headerData, infoOffset, i))
  }

  /** `unpack` on the bytes of a trust image file: the components, in the order of their records. */
  function UnpackTrust(file: seq<byte>): (r: Result<seq<Extracted>>)
    ensures r.Success? ==> 16 <= |file| && file[..4] == TrustTag
  {
    var headerData := ReadAt(file, 0, TrustHeaderSize);
    if |headerData| < 4 then Failure(StructError)
    else if headerData[..4] != TrustTag then Failure(BadTag(headerData[..4]))
    else if |headerData| < 16 then Failure(StructError)
    else
      var sizeField := LeValue(headerData[12..16]);
      Collect(Turns(file, headerData, DecodedSignOffset(sizeField) + SignatureSize, DecodedCount(sizeField)))
  }

  /** A file too short for the tag or the three header words, or with another tag, is rejected. */
  lemma UnpackTrustRejects(file: seq<byte>)
    ensures |file| < 4 ==> UnpackTrust(file) == Failure(StructError)
    ensures 4 <= |file| && file[..4] != TrustTag ==> UnpackTrust(file) == Failure(BadTag(file[..4]))
    ensures 4 <= |file| < 16 && file[..4] == TrustTag ==> UnpackTrust(file) == Failure(StructError)
  {
    var headerData := ReadAt(file, 0, TrustHeaderSize);
    if 4 <= |file| {
      SliceOfDrop(file, 0, Min(|file|, TrustHeaderSize));
      assert headerData[..4] == file[..4];
    }
  }

  // ------------------------------------------------------------ files

  /** The files the loop writes, by name: a later component overwrites an earlier one of the same name. */
  function Written(es: seq<Extracted>): (r: map<string, seq<byte>>)
  {
    if es == [] then map[] else Written(es[..|es| - 1])[IdName(es[|es| - 1].id) := es[|es| - 1].data]
  }

  /** A file is written exactly for the names of the components. */
  lemma {:induction false} WrittenNames(es: seq<Extracted>, name: string)
    ensures name in Written(es) <==> exists i :: 0 <= i < |es| && IdName(es[i].id) == name
  {
    if es != [] {
      var init := es[..|es| - 1];
      WrittenNames(init, name);
      if exists i :: 0 <= i < |init| && IdName(init[i].id) == name {
        var i :| 0 <= i < |init| && IdName(init[i].id) == name;
        assert IdName(es[i].id) == name;
      }
      if exists i :: 0 <= i < |es| && IdName(es[i].id) == name {
        var i :| 0 <= i < |es| && IdName(es[i].id) == name;
        if i < |init| {
          assert IdName(init[i].id) == name;
        }
      }
    }
  }

  /** The file of a name holds the data of the last component with that name. */
  lemma {:induction false} WrittenLast(es: seq<Extracted>, i: nat)
    requires i < |es|
    requires forall j :: i < j < |es| ==> IdName(es[j].id) != IdName(es[i].id)
    ensures IdName(es[i].id) in Written(es) && Written(es)[IdName(es[i].id)] == es[i].data
  {
    if i < |es| - 1 {
      var init := es[..|es| - 1];
      assert init[i] == es[i];
      forall j | i < j < |init|
        ensures IdName(init[j].id) != IdName(init[i].id)
      {
        assert init[j] == es[j];
      }
      WrittenLast(init, i);
    }
  }

  /** The files written for the components the loop returns, or the loop's error. */
  function FilesOf(res: Result<seq<Extracted>>): (r: Result<map<string, seq<byte>>>)
  {
    var es :- res;
    Success(Written(es))
  }

  /** `unpack`'s result: the files it writes, keyed by name (the source maps each name to its path). */
  function UnpackedFiles(file: seq<byte>): (r: Result<map<string, seq<byte>>>)
  {
    FilesOf(UnpackTrust(file))
  }

  /** One turn of the loop, field by field. */
  method UnpackOne(file: seq<byte>, headerData: seq<byte>, componentInfoOffset: nat, i: nat) returns (r: Result<Extracted>)
    ensures r == UnpackComponent(file, headerData, componentInfoOffset, i)
  {
    var compDataOffset := TrustHeaderStructSize + i * 48;
    if compDataOffset + 32 + 4 > |headerData| {
      return Failure(StructError);
    }
    var compInfo := ReadAt(file, componentInfoOffset + i * 16, 16);
    if |compInfo| < 12 {
      return Failure(StructError);
    }
    var componentId := compInfo[..4];
    var storageAddr := LeValue(compInfo[4..8]);
    var imageSize := LeValue(compInfo[8..12]);
    var storageOffset := storageAddr * 512;
    var sizeBytes := imageSize * 512;
    if !IsAsciiBytes(componentId) {
      return Failure(CodecError);
    }
    var compData := ReadAt(file, storageOffset, sizeBytes);
    r := Success(Extracted(componentId, compData));
  }

  /** `unpack`: the header checks, then one turn per component; the files written, by name. */
  method Unpack(file: seq<byte>) returns (r: Result<map<string, seq<byte>>>)
    ensures r == UnpackedFiles(file)
  {
    var headerData := ReadAt(file, 0, TrustHeaderSize);
    if |headerData| < 4 {
      return Failure(StructError);
    }
    var tag := headerData[..4];
    if tag != TrustTag {
      return Failure(BadTag(tag));
    }
    if |headerData| < 16 {
      return Failure(StructError);
    }
    var sizeField := LeValue(headerData[12..16]);
    var numComponents := DecodedCount(sizeField);
    var signOffset := DecodedSignOffset(sizeField);
    var componentInfoOffset := signOffset + SignatureSize;
    assert UnpackTrust(file) == Collect(Turns(file, headerData, componentInfoOffset, numComponents)) by {
      assert ReadAt(file, 0, TrustHeaderSize) == headerData;
      assert LeValue(headerData[12..16]) == sizeField;
    }
    r := ExtractComponents(file, headerData, componentInfoOffset, numComponents);
  }

  /** The loop of `unpack`: each turn reads a component and writes its file, over any earlier one of that name. */
  method ExtractComponents(file: seq<byte>, headerData: seq<byte>, componentInfoOffset: nat, numComponents: nat)
    returns (r: Result<map<string, seq<byte>>>)
    ensures r == FilesOf(Collect(Turns(file, headerData, componentInfoOffset, numComponents)))
  {
    ghost var turns := Turns(file, headerData, componentInfoOffset, numComponents);
    var extracted: map<string, seq<byte>> := map[];
    ghost var done: seq<Extracted> := [];
    var i := 0;
    while i < numComponents
      invariant 0 <= i <= numComponents
      invariant Collect(turns[..i]) == Success(done)
      invariant extracted == Written(done)
    {
      var e := UnpackOne(file, headerData, componentInfoOffset, i);
      assert e == turns[i];
      CollectNext(turns, i, done);
      if e.Failure? {
        CollectPrefixFail(turns, i + 1, e.error);
        return Failure(e.error);
      }
      var compName := IdName(e.value.id);
      extracted := extracted[compName := e.value.data];
      assert (done + [e.value])[..|done|] == done;
      done := done + [e.value];
      i := i + 1;
    }
    assert turns[..i] == turns;
    r := Success(extracted);
  }

  // ------------------------------------------------------------ round trip

  /** What `unpack` recovers from an image of `cs`: each component's id as its name and its padded data. */
  function Recovered(cs: seq<BLComponent>, fs: FileSystem): (r: seq<Extracted>)
    ensures |r| == |cs|
  {
    seq(|cs|, j requires 0 <= j < |cs| => Extracted(cs[j].componentId, Payload(cs[j], fs)))
  }

  /** Every id is four ASCII bytes. */
  predicate AsciiIds(cs: seq<BLComponent>)
  {
    forall j :: 0 <= j < |cs| ==> |cs[j].componentId| == 4 && IsAsciiBytes(cs[j].componentId)
  }

  /** A slice that ends within the first `n` bytes is the same slice of the whole. */
  lemma SliceIsPrefix(file: seq<byte>, n: nat, at: nat, bytes: seq<byte>)
    requires at + |bytes| <= n <= |file|
    ensures SliceIs(file[..n], at, bytes) <==> SliceIs(file, at, bytes)
  {
    assert file[..n][at..at + |bytes|] == file[at..at + |bytes|];
  }

  /** Bytes that lie in the first `n` bytes are what a read of the whole file at their offset returns. */
  lemma DataBack(file: seq<byte>, n: nat, at: nat, bytes: seq<byte>)
    requires n <= |file| && SliceIs(file[..n], at, bytes)
    ensures ReadAt(file, at, |bytes|) == bytes
  {
    assert file[..n][at..at + |bytes|] == file[at..at + |bytes|];
  }

  /** A multiple of 2048, and 2048 past it, survive the division into 512-byte units and back. */
  lemma Units(x: nat)
    requires x % EntryAlign == 0
    ensures x / 512 * 512 == x && (EntryAlign + x) / 512 * 512 == EntryAlign + x
  {
    var q := x / EntryAlign;
    assert x == q * EntryAlign;
    DivModUnique(x, 512, 4 * q, 0);
    DivModUnique(EntryAlign + x, 512, 4 * q + 4, 0);
  }

  /** The storage record stored at `at` reads back as the id and the two values stored. */
  lemma InfoBack(file: seq<byte>, at: nat, id: seq<byte>, dataOffset: nat, alignSize: nat)
    requires at + 16 <= |file| && |id| == 4 && SliceIs(file, at, InfoBytes(id, dataOffset, alignSize))
    requires dataOffset / 512 < 0x1_0000_0000 && alignSize / 512 < 0x1_0000_0000
    ensures var compInfo := ReadAt(file, at, 16);
      |compInfo| == 16 && compInfo[..4] == id &&
      LeValue(compInfo[4..8]) == dataOffset / 512 && LeValue(compInfo[8..12]) == alignSize / 512
  {
    var compInfo := ReadAt(file, at, 16);
    var info := InfoBytes(id, dataOffset, alignSize);
    assert compInfo[..12] == info;
    assert compInfo[..4] == info[..4];
    assert compInfo[4..8] == info[4..8] == LeBytes(dataOffset / 512, 4);
    assert compInfo[8..12] == info[8..12] == LeBytes(alignSize / 512, 4);
    Pow256Widths();
    LeValueOfLeBytes(dataOffset / 512, 4);
    LeValueOfLeBytes(alignSize / 512, 4);
  }

  /** The data offset and the padded size are whole numbers of 512-byte units. */
  lemma OffsetUnits(cs: seq<BLComponent>, j: nat)
    requires j < |cs| && AllAligned(cs)
    ensures DataOffsetOf(cs, j) / 512 * 512 == DataOffsetOf(cs, j)
    ensures cs[j].alignSize / 512 * 512 == cs[j].alignSize
  {
    UsedSizeAligned(cs, j);
    Units(UsedSize(cs[..j]));
    AlignedMultiple(cs[j]);
    Units(cs[j].alignSize);
  }

  /** What turn `i` returns once its storage record is known to hold an ASCII id, a data offset and a size. */
  lemma UnpackComponentReads(file: seq<byte>, headerData: seq<byte>, infoOffset: nat, i: nat, at: nat,
                             id: seq<byte>, storageOffset: nat, sizeBytes: nat)
    requires RecordAt(i) + 36 <= |headerData| && IsAsciiBytes(id) && at == infoOffset + 16 * i
    requires var compInfo := ReadAt(file, at, 16);
      |compInfo| == 16 && compInfo[..4] == id &&
      LeValue(compInfo[4..8]) * 512 == storageOffset && LeValue(compInfo[8..12]) * 512 == sizeBytes
    ensures UnpackComponent(file, headerData, infoOffset, i) == Success(Extracted(id, ReadAt(file, storageOffset, sizeBytes)))
  {
  }

  /** Turn `j` reads component `j` back from a file that starts with its image. */
  lemma UnpackComponentBack(file: seq<byte>, cs: seq<BLComponent>, fs: FileSystem, sha256: seq<byte> -> seq<byte>, j: nat)
    requires j < |cs| <= 15 && AllAligned(cs) && AsciiIds(cs)
    requires TrustImage.Fits(cs[j], DataOffsetOf(cs, j))
    requires TrustHeaderSize + UsedSize(cs) <= |file|
    requires Placed(file[..TrustHeaderSize + UsedSize(cs)], cs, fs, sha256, j)
    ensures UnpackComponent(file, file[..TrustHeaderSize], InfoOffset(|cs|), j) ==
      Success(Extracted(cs[j].componentId, Payload(cs[j], fs)))
  {
    var c := cs[j];
    var len := TrustHeaderSize + UsedSize(cs);
    var io := InfoAt(|cs|, j);
    var off := DataOffsetOf(cs, j);
    var data := Payload(c, fs);
    assert io + 16 <= TrustHeaderSize;
    SliceIsPrefix(file, len, io, InfoBytes(c.componentId, off, c.alignSize));
    InfoBack(file, io, c.componentId, off, c.alignSize);
    OffsetUnits(cs, j);
    assert |data| == c.alignSize;
    DataBack(file, len, off, data);
    var compInfo := ReadAt(file, io, 16);
    assert LeValue(compInfo[4..8]) * 512 == off;
    assert LeValue(compInfo[8..12]) * 512 == c.alignSize;
    assert |file[..TrustHeaderSize]| == TrustHeaderSize;
    UnpackComponentReads(file, file[..TrustHeaderSize], InfoOffset(|cs|), j, io, c.componentId, off, c.alignSize);
  }

  /** The header fields of an image are the same fields of any file it starts. */
  lemma PrefixFields(file: seq<byte>, len: nat)
    requires TrustHeaderSize <= len <= |file|
    ensures ReadAt(file, 0, TrustHeaderSize) == file[..TrustHeaderSize]
    ensures file[..len][..4] == file[..4] && file[..len][12..16] == file[12..16]
  {
  }

  /** The size field `pack` writes for `n` components decodes to `n` and to the storage records' offset. */
  lemma SizeFieldBack(n: nat)
    requires 1 <= n <= 15
    ensures DecodedCount(LeValue(LeBytes(SizeValue(n), 4))) == n
    ensures DecodedSignOffset(LeValue(LeBytes(SizeValue(n), 4))) + SignatureSize == InfoOffset(n)
  {
    SizeValueFits(n);
    Pow256Widths();
    LeValueOfLeBytes(SizeValue(n), 4);
    SizeValueDecodes(n);
  }

  /** With the tag and a size field for `n` components, `unpack` reads `n` storage records after an `n`-record signature. */
  lemma UnpackTrustHeader(file: seq<byte>, n: nat)
    requires 1 <= n <= 15 && TrustHeaderSize <= |file|
    requires file[..4] == TrustTag && file[12..16] == LeBytes(SizeValue(n), 4)
    ensures UnpackTrust(file) == Collect(Turns(file, file[..TrustHeaderSize], InfoOffset(n), n))
  {
    var headerData := file[..TrustHeaderSize];
    assert ReadAt(file, 0, TrustHeaderSize) == headerData;
    assert headerData[..4] == file[..4] && headerData[12..16] == file[12..16];
    SizeFieldBack(n);
    var sizeField := LeValue(headerData[12..16]);
    assert DecodedCount(sizeField) == n && DecodedSignOffset(sizeField) + SignatureSize == InfoOffset(n);
    assert UnpackTrust(file) == Collect(Turns(file, headerData, DecodedSignOffset(sizeField) + SignatureSize, n));
  }

  /** Every turn reads its component back from a file that starts with an image of `cs`. */
  lemma UnpackComponentsBack(file: seq<byte>, cs: seq<BLComponent>, fs: FileSystem, sha256: seq<byte> -> seq<byte>)
    requires |cs| <= 15 && AllAligned(cs) && AsciiIds(cs) && AllFit(cs, |cs|)
    requires TrustHeaderSize + UsedSize(cs) <= |file|
    requires AllPlaced(file[..TrustHeaderSize + UsedSize(cs)], cs, fs, sha256, |cs|)
    ensures Collect(Turns(file, file[..TrustHeaderSize], InfoOffset(|cs|), |cs|)) == Success(Recovered(cs, fs))
  {
    var rs := Turns(file, file[..TrustHeaderSize], InfoOffset(|cs|), |cs|);
    var es := Recovered(cs, fs);
    forall j | 0 <= j < |cs|
      ensures rs[j] == Success(es[j])
    {
      AllFitAt(cs, |cs|, j);
      AllPlacedAt(file[..TrustHeaderSize + UsedSize(cs)], cs, fs, sha256, |cs|, j);
      UnpackComponentBack(file, cs, fs, sha256, j);
    }
    CollectAll(rs, es);
  }

  /** A file that starts with an image holds the image's tag and size field. */
  lemma ImageHeader(file: seq<byte>, cs: seq<BLComponent>, fs: FileSystem, sha256: seq<byte> -> seq<byte>,
                    version: nat, flags: nat)
    requires TrustHeaderSize + UsedSize(cs) <= |file|
    requires ImageOf(file[..TrustHeaderSize + UsedSize(cs)], cs, fs, sha256, version, flags)
    ensures file[..4] == TrustTag && file[12..16] == LeBytes(SizeValue(|cs|), 4)
  {
    PrefixFields(file, TrustHeaderSize + UsedSize(cs));
  }

  /** `unpack` recovers every component, in order, from a file that starts with an image of one to 15 components. */
  lemma UnpackImage(file: seq<byte>, cs: seq<BLComponent>, fs: FileSystem, sha256: seq<byte> -> seq<byte>,
                    version: nat, flags: nat)
    requires 1 <= |cs| <= 15 && AllAligned(cs) && AsciiIds(cs) && AllFit(cs, |cs|)
    requires TrustHeaderSize + UsedSize(cs) <= |file|
    requires ImageOf(file[..TrustHeaderSize + UsedSize(cs)], cs, fs, sha256, version, flags)
    ensures UnpackTrust(file) == Success(Recovered(cs, fs))
  {
    ImageHeader(file, cs, fs, sha256, version, flags);
    UnpackPlaced(file, cs, fs, sha256);
  }

  /** The same, from the header fields and the placed components. */
  lemma UnpackPlaced(file: seq<byte>, cs: seq<BLComponent>, fs: FileSystem, sha256: seq<byte> -> seq<byte>)
    requires 1 <= |cs| <= 15 && AllAligned(cs) && AsciiIds(cs) && AllFit(cs, |cs|)
    requires TrustHeaderSize + UsedSize(cs) <= |file|
    requires file[..4] == TrustTag && file[12..16] == LeBytes(SizeValue(|cs|), 4)
    requires AllPlaced(file[..TrustHeaderSize + UsedSize(cs)], cs, fs, sha256, |cs|)
    ensures UnpackTrust(file) == Success(Recovered(cs, fs))
  {
    UnpackTrustHeader(file, |cs|);
    UnpackComponentsBack(file, cs, fs, sha256);
  }

  /**
   * The round trip: when `pack` succeeds with one to 15 components,
   * `unpack` of its output gives back every component, in order, named
   * after its id, with its data padded to its aligned size.
   */
  lemma UnpackOfPack(config: TrustConfig, fs: FileSystem, sha: ShaMode, rsa: RsaMode, sha256: seq<byte> -> seq<byte>)
    requires BinariesPresent(config, fs) && Components(config, fs).Success?
    requires 1 <= |Components(config, fs).value| <= 15
    requires PackSucceeds(config, Components(config, fs).value)
    ensures PackTrust(config, fs, sha, rsa, sha256).Success?
    ensures UnpackTrust(PackTrust(config, fs, sha, rsa, sha256).value) == Success(Recovered(Components(config, fs).value, fs))
  {
    var cs := Components(config, fs).value;
    PackTrustOutput(config, fs, sha, rsa, sha256);
    ComponentsShape(config, fs);
    StandardNames();
    var out := PackTrust(config, fs, sha, rsa, sha256).value;
    UnpackImage(out, cs, fs, sha256, VersionValue(config.major, config.minor).value, Flags(sha, rsa));
  }

  /** The files `unpack` writes for a packed image are named `BL31` for BL31 components and `BL32` for BL32 ones. */
  lemma ComponentNames(config: TrustConfig, fs: FileSystem)
    requires Components(config, fs).Success?
    ensures forall j :: 0 <= j < |Components(config, fs).value| ==>
      IdName(Components(config, fs).value[j].componentId) ==
        (if Components(config, fs).value[j].componentId == Bl31Id then "BL31" else "BL32")
  {
    ComponentsShape(config, fs);
    StandardNames();
  }
}
