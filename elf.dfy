/**
 * The PT_LOAD extractor of the trust image merger (`parse_elf_segments`),
 * reading the ELF header and program header table as laid out in the
 * System V gABI, chapter 4 ("ELF Header") and chapter 5 ("Program Header").
 *
 * Each field is read with `f.read(n)` and `struct.unpack`; a read that comes
 * back short (past the end of the file) makes `struct.unpack` raise
 * `struct.error`, which is why every read here can fail with StructError.
 */
module Elf {
  import opened Bytes
  import opened Results

  /** `b'\x7fELF'` read as a little-endian u32. */
  const ElfMagic: nat := 0x464C_457F
  /** `PT_LOAD`. */
  const PtLoad: nat := 1

  /** What is kept of a PT_LOAD program header. */
  datatype ElfSegment = ElfSegment(offset: nat, vaddr: nat, filesz: nat, memsz: nat)

  /** A program header as the parser reads it (`p_flags` and `p_paddr` are read and dropped). */
  datatype ProgramHeader = ProgramHeader(pType: nat, offset: nat, vaddr: nat, filesz: nat, memsz: nat)

  /** `struct.unpack("<…", f.read(n))` after `f.seek(off)`: the field's value, or struct.error on a short read. */
  function ReadField(file: seq<byte>, off: nat, n: nat): (r: Result<nat>)
    ensures n > 0 ==> (r.Success? <==> off + n <= |file|)
    ensures r.Success? ==> r.value == LeValue(ReadAt(file, off, n)) && r.value < Pow256(n)
    ensures r.Failure? ==> r.error == StructError
  {
    var field := ReadAt(file, off, n);
    if |field| == n then Success(LeValue(field)) else Failure(StructError)
  }

  lemma ElfMagicBytes()
    ensures LeValue([0x7F, 0x45, 0x4C, 0x46]) == ElfMagic
  {
  }

  /** The bytes a program header read consumes: 48 for ELF64, 24 for ELF32. */
  function EntryReadSize(is64: bool): nat
  {
    if is64 then 48 else 24
  }

  /**
   * The fields of one program header entry: ELF64 entries are u32 type,
   * u32 flags, then five u64s (offset, vaddr, paddr, filesz, memsz); ELF32
   * entries are six u32s (type, offset, vaddr, paddr, filesz, memsz).
   */
  function DecodeProgramHeader(entry: seq<byte>, is64: bool): (h: ProgramHeader)
    requires |entry| == EntryReadSize(is64)
  {
    var w := if is64 then 8 else 4;
    ProgramHeader(LeValue(entry[..4]), LeValue(entry[w..2 * w]), LeValue(entry[2 * w..3 * w]),
                  LeValue(entry[4 * w..5 * w]), LeValue(entry[5 * w..6 * w]))
  }

  /**
   * The program header at `pos`.  The source reads its fields one after
   * the other; each read past the end of the file raises the same
   * struct.error, so the entry reads exactly when all its bytes are there.
   */
  function ProgramHeaderAt(file: seq<byte>, pos: nat, is64: bool): (r: Result<ProgramHeader>)
    ensures r.Success? <==> pos + EntryReadSize(is64) <= |file|
    ensures r.Failure? ==> r.error == StructError
  {
    var n := EntryReadSize(is64);
    if pos + n <= |file| then Success(DecodeProgramHeader(file[pos..pos + n], is64)) else Failure(StructError)
  }

  /** The fields sit at their gABI offsets in the entry. */
  lemma DecodeProgramHeaderFields(entry: seq<byte>, is64: bool)
    requires |entry| == EntryReadSize(is64)
    ensures var h := DecodeProgramHeader(entry, is64);
      if is64 then
        h.pType == LeValue(entry[0..4]) && h.offset == LeValue(entry[8..16]) && h.vaddr == LeValue(entry[16..24]) &&
        h.filesz == LeValue(entry[32..40]) && h.memsz == LeValue(entry[40..48])
      else
        h.pType == LeValue(entry[0..4]) && h.offset == LeValue(entry[4..8]) && h.vaddr == LeValue(entry[8..12]) &&
        h.filesz == LeValue(entry[16..20]) && h.memsz == LeValue(entry[20..24])
  {
  }


  /** `e_phoff + i * e_phentsize`: where the `i`-th program header starts. */
  function EntryPos(phoff: nat, phentsize: nat, i: nat): nat
  {
    phoff + i * phentsize
  }

  /** What reading each of the first `n` entries of the table at `phoff`, `phentsize` bytes apart, gives. */
  function EntryReads(file: seq<byte>, phoff: nat, phentsize: nat, n: nat, is64: bool): (r: seq<Result<ProgramHeader>>)
  {
    seq(n, i requires 0 <= i < n => ProgramHeaderAt(file, EntryPos(phoff, phentsize, i), is64))
  }

  /** The first `n` entries of the table, in table order, or the error of the first one that does not read. */
  function ProgramHeaders(file: seq<byte>, phoff: nat, phentsize: nat, n: nat, is64: bool): (r: Result<seq<ProgramHeader>>)
  {
    Collect(EntryReads(file, phoff, phentsize, n, is64))
  }

  /**
   * The table reads successfully exactly when each of its `n` entries
   * does, and then its `i`-th element is the entry at `phoff + i * phentsize`.
   */
  lemma ProgramHeadersAt(file: seq<byte>, phoff: nat, phentsize: nat, n: nat, is64: bool)
    ensures ProgramHeaders(file, phoff, phentsize, n, is64).Success? <==>
      forall i :: 0 <= i < n ==> ProgramHeaderAt(file, EntryPos(phoff, phentsize, i), is64).Success?
    ensures ProgramHeaders(file, phoff, phentsize, n, is64).Failure? ==>
      ProgramHeaders(file, phoff, phentsize, n, is64).error == StructError
    ensures ProgramHeaders(file, phoff, phentsize, n, is64).Success? ==>
      var hs := ProgramHeaders(file, phoff, phentsize, n, is64).value;
      |hs| == n && forall i :: 0 <= i < n ==> hs[i] == ProgramHeaderAt(file, EntryPos(phoff, phentsize, i), is64).value
  {
    var entries := EntryReads(file, phoff, phentsize, n, is64);
    assert forall i :: 0 <= i < n ==> entries[i] == ProgramHeaderAt(file, EntryPos(phoff, phentsize, i), is64);
    CollectSucceeds(entries);
    CollectFailureIs(entries, StructError);
  }

  function SegmentOf(h: ProgramHeader): (s: ElfSegment)
  {
    ElfSegment(h.offset, h.vaddr, h.filesz, h.memsz)
  }

  /** The PT_LOAD headers of `hs`, in order, as segments. */
  function LoadSegments(hs: seq<ProgramHeader>): (r: seq<ElfSegment>)
  {
    if hs == [] then []
    else
      var last := hs[|hs| - 1];
      LoadSegments(hs[..|hs| - 1]) + (if last.pType == PtLoad then [SegmentOf(last)] else [])
  }

  /** Filtering keeps the table's order: the segments of two runs of headers are those of each, in turn. */
  lemma {:induction false} LoadSegmentsAppend(a: seq<ProgramHeader>, b: seq<ProgramHeader>)
    ensures LoadSegments(a + b) == LoadSegments(a) + LoadSegments(b)
    decreases |b|
  {
    if b == [] {
      assert a + b == a;
    } else {
      var b' := b[..|b| - 1];
      assert (a + b)[..|a + b| - 1] == a + b';
      LoadSegmentsAppend(a, b');
    }
  }

  /** One header contributes its segment exactly when it is PT_LOAD. */
  lemma LoadSegmentsSingle(h: ProgramHeader)
    ensures LoadSegments([h]) == if h.pType == PtLoad then [SegmentOf(h)] else []
  {
    assert [h][..0] == [];
  }

  /** A segment is returned exactly when some PT_LOAD header in the table describes it. */
  lemma {:induction false} LoadSegmentsMembers(hs: seq<ProgramHeader>, s: ElfSegment)
    ensures s in LoadSegments(hs) <==> exists h :: h in hs && h.pType == PtLoad && SegmentOf(h) == s
  {
    if hs != [] {
      var front := hs[..|hs| - 1];
      var last := hs[|hs| - 1];
      LoadSegmentsMembers(front, s);
      assert hs == front + [last];
      if s in LoadSegments(hs) && s !in LoadSegments(front) {
        assert last in hs;
      }
      if h :| h in hs && h.pType == PtLoad && SegmentOf(h) == s {
        if h != last {
          assert h in front;
        }
      }
    }
  }

  /** A table without PT_LOAD headers gives no segments. */
  lemma {:induction false} NoLoadNoSegments(hs: seq<ProgramHeader>)
    requires forall i :: 0 <= i < |hs| ==> hs[i].pType != PtLoad
    ensures LoadSegments(hs) == []
  {
    if hs != [] {
      NoLoadNoSegments(hs[..|hs| - 1]);
    }
  }

  /**
   * `parse_elf_segments`, on the file's bytes: the magic, then EI_CLASS at
   * 4 and EI_DATA at 5, then e_type at 16, then the 64-bit (e_phoff at 32,
   * e_phentsize and e_phnum at 54 and 56) or the 32-bit layout (28, 42 and
   * 44), then the PT_LOAD entries of the program header table.
   */
  function ElfSegments(file: seq<byte>): (r: Result<seq<ElfSegment>>)
  {
    var magic :- ReadField(file, 0, 4);
    if magic != ElfMagic then Failure(NotElf)
    else
      var elfClass :- ReadField(file, 4, 1);
      var endian :- ReadField(file, 5, 1);
      if endian != 1 then Failure(ElfNotLittleEndian)
      else
        var eType :- ReadField(file, 16, 2);
        if eType != 2 then Failure(ElfNotExecutable)
        else
          var is64 := elfClass == 2;
          var phoff :- ReadField(file, if is64 then 32 else 28, if is64 then 8 else 4);
          var phentsize :- ReadField(file, if is64 then 54 else 42, 2);
          var phnum :- ReadField(file, if is64 then 56 else 44, 2);
          var headers :- ProgramHeaders(file, phoff, phentsize, phnum, is64);
          Success(LoadSegments(headers))
  }

  /**
   * The rejections, in the order the header is read: a file that is not
   * ELF, one that is not little-endian, one that is not an executable;
   * any read past the end of the file is a struct.error.
   */
  lemma ElfSegmentsRejects(file: seq<byte>)
    ensures |file| < 4 ==> ElfSegments(file) == Failure(StructError)
    ensures |file| >= 4 && LeValue(file[..4]) != ElfMagic ==> ElfSegments(file) == Failure(NotElf)
    ensures |file| >= 6 && LeValue(file[..4]) == ElfMagic && file[5] != 1 ==>
      ElfSegments(file) == Failure(ElfNotLittleEndian)
    ensures |file| >= 18 && LeValue(file[..4]) == ElfMagic && file[5] == 1 && LeValue(file[16..18]) != 2 ==>
      ElfSegments(file) == Failure(ElfNotExecutable)
    ensures ElfSegments(file).Failure? ==>
      ElfSegments(file).error in {StructError, NotElf, ElfNotLittleEndian, ElfNotExecutable}
  {
    if |file| >= 6 {
      assert LeValue(file[5..6]) == file[5] by {
        assert file[5..6][1..] == [];
      }
    }
    var elfClass := ReadField(file, 4, 1);
    if elfClass.Success? {
      var is64 := elfClass.value == 2;
      var phoff := ReadField(file, if is64 then 32 else 28, if is64 then 8 else 4);
      var phentsize := ReadField(file, if is64 then 54 else 42, 2);
      var phnum := ReadField(file, if is64 then 56 else 44, 2);
      if phoff.Success? && phentsize.Success? && phnum.Success? {
        ProgramHeadersAt(file, phoff.value, phentsize.value, phnum.value, is64);
      }
    }
  }

  /**
   * A well-formed header leads to the program header table: the segments
   * are exactly those of the table's PT_LOAD entries, in table order.
   */
  lemma ElfSegmentsOfTable(file: seq<byte>)
    requires |file| >= 58 && LeValue(file[..4]) == ElfMagic && file[5] == 1 && LeValue(file[16..18]) == 2
    ensures var is64 := file[4] == 2;
      var phoff := if is64 then LeValue(file[32..40]) else LeValue(file[28..32]);
      var phentsize := if is64 then LeValue(file[54..56]) else LeValue(file[42..44]);
      var phnum := if is64 then LeValue(file[56..58]) else LeValue(file[44..46]);
      ElfSegments(file) == (
        var headers :- ProgramHeaders(file, phoff, phentsize, phnum, is64);
        Success(LoadSegments(headers)))
  {
    assert LeValue(file[4..5]) == file[4] by {
      assert file[4..5][1..] == [];
    }
    assert LeValue(file[5..6]) == file[5] by {
      assert file[5..6][1..] == [];
    }
  }

  /** `parse_elf_segments`: the header checks, then the loop over the program headers, appending each PT_LOAD. */
  method ParseElfSegments(file: seq<byte>) returns (r: Result<seq<ElfSegment>>)
    ensures r == ElfSegments(file)
  {
    var magic := ReadField(file, 0, 4);
    if magic.Failure? {
      return Failure(magic.error);
    }
    if magic.value != ElfMagic {
      return Failure(NotElf);
    }
    var elfClass := ReadField(file, 4, 1);
    if elfClass.Failure? {
      return Failure(elfClass.error);
    }
    var endian := ReadField(file, 5, 1);
    if endian.Failure? {
      return Failure(endian.error);
    }
    if endian.value != 1 {
      return Failure(ElfNotLittleEndian);
    }
    var eType := ReadField(file, 16, 2);
    if eType.Failure? {
      return Failure(eType.error);
    }
    if eType.value != 2 {
      return Failure(ElfNotExecutable);
    }
    var is64 := elfClass.value == 2;
    var phoff := ReadField(file, if is64 then 32 else 28, if is64 then 8 else 4);
    if phoff.Failure? {
      return Failure(phoff.error);
    }
    var phentsize := ReadField(file, if is64 then 54 else 42, 2);
    if phentsize.Failure? {
      return Failure(phentsize.error);
    }
    var phnum := ReadField(file, if is64 then 56 else 44, 2);
    if phnum.Failure? {
      return Failure(phnum.error);
    }
    r := ReadLoadSegments(file, phoff.value, phentsize.value, phnum.value, is64);
  }

  /** The loop of `parse_elf_segments` over the `phnum` program headers. */
  method ReadLoadSegments(file: seq<byte>, phoff: nat, phentsize: nat, phnum: nat, is64: bool)
    returns (r: Result<seq<ElfSegment>>)
    ensures r == (var headers :- ProgramHeaders(file, phoff, phentsize, phnum, is64); Success(LoadSegments(headers)))
  {
    var segments: seq<ElfSegment> := [];
    ghost var entries := EntryReads(file, phoff, phentsize, phnum, is64);
    ghost var headers: seq<ProgramHeader> := [];
    var i := 0;
    while i < phnum
      invariant 0 <= i <= phnum
      invariant Collect(entries[..i]) == Success(headers)
      invariant segments == LoadSegments(headers)
    {
      var h := ProgramHeaderAt(file, EntryPos(phoff, phentsize, i), is64);
      assert h == entries[i];
      CollectNext(entries, i, headers);
      if h.Failure? {
        CollectPrefixFail(entries, i + 1, h.error);
        return Failure(h.error);
      }
      LoadSegmentsAppend(headers, [h.value]);
      LoadSegmentsSingle(h.value);
      headers := headers + [h.value];
      if h.value.pType == PtLoad {
        segments := segments + [SegmentOf(h.value)];
      }
      i := i + 1;
    }
    assert entries[..i] == entries;
    return Success(segments);
  }
}
