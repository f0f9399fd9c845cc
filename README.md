# Rockchip boot-chain image tools in Dafny

This project models the byte-exact packers and parsers of the `rkpyimg`
Rockchip image tools, plus the primitives they rest on. For each operation it
proves the layout, the error conditions and the round trips. The modules are:

- **Results** (`results.dfy`). The error kinds the tools raise (`FileNotFound`,
  `TooShort`, `StructError`, `BadTag`, …), a `Result` type with `:-`
  propagation, and `Collect`. `Collect` folds a sequence of per-item reads
  that can each fail, and stops at the first failure, as the tools' loops do.
- **Bytes** (`bytes.dfy`). Bytes as integers 0..255. Little- and big-endian
  encoders and decoders, bitwise XOR, and zero padding. Also the three ways the
  tools write into a buffer:
  - `struct.pack_into` (`PackInto`), which never grows the buffer;
  - slice assignment `buf[a:b] = data` (`SliceAssign`, `WriteAt`), which can grow it;
  - reads past the end, which return short (`ReadAt`).
- **Struct** (`struct.dfy`). Python's `struct` module on formats made only of
  little-endian unsigned fields: `pack` rejects a value out of range, and
  `unpack` demands the exact length.
- **Rc4** (`rc4.dfy`). `core/rc4.py`:
  - key scheduling over a 256-entry state that stays a permutation;
  - the keystream XOR;
  - the block mode, in which every block starts from a fresh state.

  The loops of the source are methods proved against the functions `InitialBox`, `Crypt` and `CryptBlocks`.
- **Checksum** (`checksum.dfy`). `core/checksum.py`:
  - the additive checksum modulo 2^32;
  - the CRC-32 check;
  - `crc32_rk`, spelled out on a 32-bit register as the reflected CRC-32 of IEEE 802.3 (clause 3.2.9), the algorithm of `binascii.crc32`; `Crc32Check` proves that it gives the algorithm's standard check value, 0xCBF43926 for the nine bytes "123456789".
- **Header** (`header.dfy`). The magic check and the `RKHeader` defaults of `core/header.py`.
- **Partition** (`partition.dfy`). The fixed GPT sector layout of `image/partition.py`.
- **BootFormat** (`bootformat.dfy`):
  - the value helpers of `tools/boot_merger.py`: `get_bcd`, `get_chip_type`, `align_size`, `str_to_wide`;
  - the 7-byte `RKTime`, the 102-byte `RKBootHeader` and the 54-byte `RKBootEntry` encodings, with their round trips.
- **BootMerger** (`bootmerger.dfy`). The loader (`loader.bin`) packer and unpacker:
  - `pack`: header, entry table, 2048-aligned payloads and the trailing CRC, then optional whole-file RC4;
  - `unpack`: reads the header, then each entry, then each entry's data;
  - with RC4 off, `pack` followed by `unpack` returns every input file padded to its entry size.
- **Rksd** (`rksd.dfy`). The SD/MMC `idbloader` builder of `tools/rksd.py`:
  - the 512-byte header0, which is RC4-encrypted;
  - the chip table;
  - the block-count arithmetic;
  - the SPL, encrypted per 512-byte block where the chip needs it;
  - `append` and `verify`.
- **Elf** (`elf.dfy`). The PT_LOAD extractor of `tools/trust_merger.py`, following the ELF header and program-header layouts of the System V gABI.
- **Trust** (`trust.dfy`). The trust image's components (`BLComponent`) and how BL31 and BL32 binaries become components. Also the version, flags and size fields.
- **TrustImage** (`trustimage.dfy`). The trust `pack`:
  - the 2048-byte header;
  - the 48-byte hash/load-address records at 800 + 48i;
  - the 16-byte storage records after the signature slot;
  - the payloads from offset 2048;
  - two 2 MiB copies.
- **TrustUnpack** (`trustunpack.dfy`). The trust `unpack`: tag check, size-field decode, the component loop, and a dictionary keyed by the stripped component name. For 1 to 15 components, `pack` followed by `unpack` returns every component's padded payload.

Operations that work step by step in the source are methods:
- the KSA/PRGA loops;
- the block loops;
- the entry, record and program-header loops;
- the buffer writes;
- the chip-table search;
- the copy loop.

Each method's `ensures` ties its result to a specification function. The properties are proved as lemmas about those functions.

The file system is a `map<string, seq<byte>>` from path to contents: a path exists iff it is a key. The tools' exceptions become `Failure` values.

Where the code and its own comments disagree, the model follows the code:
- **rksd header0.** `Header0.to_bytes` puts init_size at 0x1FA and init_boot_size at 0x1FC (`rksd.py:111-112`). The module docstring says 0x1F8 and 0x1FA.
- **SPL magic.** `create_rksd_image` writes no SPL magic. The four bytes at 2048 are the SPL file's own.
- **Partition sizes.** `create_partition_table` gives trust 16384 sectors (8 MiB) and boot 327680 sectors (160 MiB) (`partition.py:84-100`). The layout table in the module docstring says 4 MB and 32 MB. `Partition.FixedPartitionSizes` states the code's sizes.
- **Trust buffer size.** `pack` allocates `component_info_offset + 16n + Σalign` bytes, but it writes the payloads from offset 2048. Python's slice assignment then changes the buffer's length. The model writes the same sequence of writes, so the single image comes out as `2048 + Σalign` bytes for up to 15 components.
- **Short ELF files.** A short read inside `parse_elf_segments` raises `struct.error`. The `except ValueError` fallback of `_prepare_components` does not catch it (`trust_merger.py:340`), so the model fails with `StructError` instead of treating the file as a plain binary.

## Model

| member | source | states |
|---|---|---|
| Results.CollectSucceeds | src/rkpyimg/tools/trust_merger.py:579-613 | a read loop succeeds iff every step does, and then yields every step's value in order |
| Results.CollectFirstError | src/rkpyimg/tools/boot_merger.py:706-709 | a read loop fails with the error of its first failing step |
| Bytes.LeValueOfLeBytes | src/rkpyimg/tools/boot_merger.py:187-221 | decoding a little-endian field written with `struct.pack('<…')` gives back the value, for values that fit the width |
| Bytes.LeBytesOfLeValue | src/rkpyimg/tools/boot_merger.py:224-251 | re-encoding a decoded little-endian field gives back the bytes |
| Bytes.XorTwice | src/rkpyimg/core/rc4.py:110-113 | XOR with the same byte twice is the identity |
| Bytes.PadRight | src/rkpyimg/tools/rksd.py:247-248 | `ljust(n, b'\x00')`: the data followed by zeros up to n, unchanged when already at least n long |
| Bytes.ReadAt | src/rkpyimg/tools/rksd.py:336-337 | `seek` + `read(n)`: the n bytes at the offset, fewer near the end, none past it |
| Bytes.PackInto | src/rkpyimg/tools/trust_merger.py:469-479 | `struct.pack_into` overwrites exactly its field and keeps every other byte and the length |
| Bytes.WriteAt | src/rkpyimg/tools/trust_merger.py:483 | slice assignment at an offset keeps the bytes before it, places the data there and grows the buffer when the data runs past the end |
| Bytes.SliceAssign | src/rkpyimg/tools/trust_merger.py:447 | `buf[lo:hi] = data` replaces the slice and shifts the tail by the difference in length |
| Struct.DecodeEncode | src/rkpyimg/tools/boot_merger.py:224-251 | `unpack(fmt, pack(fmt, values)) == values` for values that fit their fields |
| Struct.EncodeDecode | src/rkpyimg/tools/boot_merger.py:187-221 | `pack(fmt, unpack(fmt, data)) == data` for data of the format's size |
| Struct.Pack | src/rkpyimg/tools/boot_merger.py:187-221 | `struct.pack` succeeds iff every value fits its field, and yields `calcsize(fmt)` bytes |
| Struct.Unpack | src/rkpyimg/tools/boot_merger.py:224-251 | `struct.unpack` succeeds iff the data has exactly `calcsize(fmt)` bytes, yielding one value per field |
| Struct.EncodeField | src/rkpyimg/tools/rksd.py:105-112 | field i of a packed record is the little-endian encoding of value i at the sum of the preceding widths |
| Rc4.KsaPermutation | src/rkpyimg/core/rc4.py:64-68 | the key-scheduling loop leaves S a permutation of 0..255 |
| Rc4.InitialBoxPermutation | src/rkpyimg/core/rc4.py:53-68 | the S-box `rc4_init` returns is a permutation of 0..255 |
| Rc4.Rc4Init | src/rkpyimg/core/rc4.py:37-70 | `rc4_init` returns the scheduled S-box, a permutation of `range(256)`, and K with K[i] = key[i mod len(key)] |
| Rc4.KsaRound | src/rkpyimg/core/rc4.py:65-68 | one KSA iteration: j += S[i] + K[i] mod 256, then swap S[i] and S[j] |
| Rc4.PrgaRound | src/rkpyimg/core/rc4.py:100-110 | one PRGA iteration advances i and j, swaps, and outputs S[(S[i] + S[j]) mod 256] |
| Rc4.Rc4Prga | src/rkpyimg/core/rc4.py:97-115 | the output loop XORs each byte with the keystream byte generated for its position |
| Rc4.Rc4Crypt | src/rkpyimg/core/rc4.py:73-115 | `rc4_crypt` equals `Crypt`: empty for empty input, else data XOR the keystream of the key |
| Rc4.Crypt | src/rkpyimg/core/rc4.py:90-97 | the output has the input's length |
| Rc4.CryptAt | src/rkpyimg/core/rc4.py:94-113 | out[x] = data[x] XOR a keystream byte that depends only on the key and x |
| Rc4.CryptPrefix | src/rkpyimg/core/rc4.py:94-113 | `crypt(a + b)` starts with `crypt(a)` |
| Rc4.CryptInvolution | src/rkpyimg/core/rc4.py:118-120 | decrypting an encryption gives the data back, so `rc4_decrypt` is `rc4_encrypt` |
| Rc4.CryptEmpty | src/rkpyimg/core/rc4.py:90-91 | empty input gives empty output |
| Rc4.Rc4EncryptBlocks | src/rkpyimg/core/rc4.py:123-164 | the block loop equals `CryptBlocks`: each chunk of `block_size` bytes encrypted from a fresh state, concatenated |
| Rc4.Rc4DecryptBlocks | src/rkpyimg/core/rc4.py:167-183 | block decryption is the same function as block encryption |
| Rc4.CryptBlocksAt | src/rkpyimg/core/rc4.py:151-162 | out[x] = data[x] XOR the keystream byte at position x mod block_size |
| Rc4.CryptBlocksLength | src/rkpyimg/core/rc4.py:144-162 | block mode preserves the length |
| Rc4.CryptBlocksInvolution | src/rkpyimg/core/rc4.py:167-183 | block mode is an involution for every block size |
| Rc4.CryptBlocksSingle | src/rkpyimg/core/rc4.py:151-162 | with block_size >= len(data) block mode is plain `rc4_crypt` |
| Rc4.MapBlocksAt | src/rkpyimg/core/rc4.py:151-162 | byte x of a block-wise map comes from the block holding x, at x's offset within it |
| Checksum.Crc32 | src/rkpyimg/core/checksum.py:14-32 | `crc32_rk` is below 2^32 |
| Checksum.Crc32Check | src/rkpyimg/core/checksum.py:32 | `crc32_rk(b"123456789")` is 0xCBF43926, the check value of the CRC-32 that `binascii.crc32` computes |
| Checksum.CrcUpdateConcat | src/rkpyimg/core/checksum.py:32 | the CRC register runs over a + b as over a and then b |
| Checksum.Crc32Empty | src/rkpyimg/core/checksum.py:32 | the CRC-32 of no bytes is 0 |
| Checksum.CalculateChecksum | src/rkpyimg/core/checksum.py:35-48 | below 2^32, and equal to the plain byte sum while that sum is below 2^32 |
| Checksum.ChecksumEmpty | src/rkpyimg/core/checksum.py:48 | the checksum of no bytes is 0 |
| Checksum.ChecksumConcat | src/rkpyimg/core/checksum.py:48 | checksum(a + b) = (checksum(a) + checksum(b)) mod 2^32 |
| Checksum.VerifyCrc | src/rkpyimg/core/checksum.py:51-62 | `verify_crc` can hold only for an expected value below 2^32 |
| Checksum.VerifyCrcExactly | src/rkpyimg/core/checksum.py:51-62 | `verify_crc(d, c)` holds iff c is the CRC of d; it always holds for the CRC of d |
| Header.ValidateHeader | src/rkpyimg/core/header.py:127-140 | true iff there are at least 4 bytes and they are the little-endian encoding of 0x0FF0AA55 |
| Header.MagicDecodes | src/rkpyimg/core/header.py:139-140 | four bytes decode to the magic iff they are 55 AA F0 0F |
| Header.ValidateHeaderPrefix | src/rkpyimg/core/header.py:139-140 | only the first four bytes matter: appending data never changes the verdict |
| Header.ValidateHeaderExamples | tests/test_header.py:18-32 | 55 AA F0 0F is accepted; 00 00 00 00 and 55 AA are rejected |
| Header.DefaultHeaderValid | src/rkpyimg/core/header.py:63-66 | an `RKHeader` defaults to magic 0x0FF0AA55 and load address 0x200000, and its magic validates |
| Partition.SizeBytes | src/rkpyimg/image/partition.py:57-60 | (end - start + 1) sectors of 512 bytes, positive iff start <= end |
| Partition.CreatePartitionTable | src/rkpyimg/image/partition.py:68-110 | four partitions with rootfs and three without; the first three are named uboot, trust and boot, the fourth rootfs |
| Partition.FixedPartitions | src/rkpyimg/image/partition.py:84-100 | the first three partitions are uboot [24576, 32767], trust [32768, 49151] and boot [49152, 376831] |
| Partition.RootfsPartition | src/rkpyimg/image/partition.py:102-110 | exactly three partitions without rootfs; with it a fourth, "rootfs", from 376832 to image_size_mb * 2048 - 34 |
| Partition.PartitionsAdjacent | src/rkpyimg/image/partition.py:84-108 | each partition starts right after the previous one ends, so none overlap |
| Partition.BootSizeIgnored | src/rkpyimg/image/partition.py:68-100 | `boot_size_mb` has no effect on the table |
| Partition.FixedPartitionSizes | src/rkpyimg/image/partition.py:84-100 | uboot is 4 MiB, trust 8 MiB and boot 160 MiB |
| BootFormat.TagBootSpellsBoot | src/rkpyimg/tools/boot_merger.py:52-57 | the header tag 0x544F4F42 is "BOOT" in little-endian bytes |
| BootFormat.GetBcd | src/rkpyimg/tools/boot_merger.py:310-332 | both nibbles are at most 9, and for 0..99 they are the tens and ones digits |
| BootFormat.GetBcdDecodes | src/rkpyimg/tools/boot_merger.py:310-332 | reading the nibbles back as decimal digits gives the value, for 0..99 |
| BootFormat.GetBcdAboveNinetyNine | src/rkpyimg/tools/boot_merger.py:310-332 | a value above 99 is encoded as its last two digits |
| BootFormat.GetBcdExamples | src/rkpyimg/tools/boot_merger.py:310-332 | 25 gives 0x25, 50 gives 0x50 and 125 gives 0x25 |
| BootFormat.GetChipType | src/rkpyimg/tools/boot_merger.py:335-363 | a name in `CHIP_NAME_MAP` gives its table value; any other name succeeds iff its four id characters are ASCII |
| BootFormat.GetChipTypeExamples | src/rkpyimg/tools/boot_merger.py:335-363 | "RK3399" gives 0x33333939 and "RK330C" gives 0x33333043 |
| BootFormat.GetChipTypeTable | src/rkpyimg/tools/boot_merger.py:87-102 | "RK30" is looked up in the table and gives 0x60 |
| BootFormat.GetChipTypePadded | src/rkpyimg/tools/boot_merger.py:347-363 | a two-character id is padded with NULs before the big-endian read: "RK33" gives 0x33330000 |
| BootFormat.AlignSize | src/rkpyimg/tools/boot_merger.py:366-377 | a multiple of the alignment, at least the size and less than size + alignment |
| BootFormat.AlignSizeLeast | src/rkpyimg/tools/boot_merger.py:366-377 | no multiple of the alignment at least the size is smaller |
| BootFormat.AlignSizeIdempotent | src/rkpyimg/tools/boot_merger.py:366-377 | aligning twice is aligning once |
| BootFormat.FixSizingIsPlain | src/rkpyimg/tools/boot_merger.py:624-630 | loader sizing (round to 512, then 2048) equals plain 2048 rounding; 1000 bytes take 2048 |
| BootFormat.EntryDataSizeBounds | src/rkpyimg/tools/boot_merger.py:624-630 | an entry's data size is a multiple of 2048, at least the file size and less than 2048 more |
| BootFormat.StrToWide | src/rkpyimg/tools/boot_merger.py:380-394 | exactly max_len code units: the code points of the first min(len, max_len) characters, then zeros |
| BootFormat.TimeToBytes | src/rkpyimg/tools/boot_merger.py:125-129 | `to_bytes` succeeds iff the year fits 16 bits and the other five fields 8 bits, and then gives 7 bytes |
| BootFormat.TimeFromBytes | src/rkpyimg/tools/boot_merger.py:131-135 | `from_bytes` succeeds iff there are at least 7 bytes; otherwise it raises `struct.error` |
| BootFormat.TimeRoundTrip | src/rkpyimg/tools/boot_merger.py:125-135 | `RKTime.to_bytes` succeeds iff every field fits its width, yields 7 bytes, and `from_bytes` gives the time back; fewer than 7 bytes fail |
| BootFormat.HeaderToBytes | src/rkpyimg/tools/boot_merger.py:187-221 | succeeds iff the fields fit, gives 102 bytes, and bytes 45.. are zero whatever `reserved` holds |
| BootFormat.HeaderFromBytes | src/rkpyimg/tools/boot_merger.py:224-251 | fails with a short-data error iff given fewer than 102 bytes |
| BootFormat.HeaderRoundTrip | src/rkpyimg/tools/boot_merger.py:187-251 | `from_bytes(to_bytes(h))` is h with size 102 and zero reserved bytes, fields otherwise unchanged |
| BootFormat.EntryTypeOf | src/rkpyimg/tools/boot_merger.py:300 | `RKEntryType(code)` succeeds iff the code is 1, 2 or 4, and keeps the code |
| BootFormat.EntryToBytes | src/rkpyimg/tools/boot_merger.py:270-286 | succeeds iff the name units fit 16 bits and offset, size and delay fit 32 bits; yields 54 bytes |
| BootFormat.EntryBytesLayout | src/rkpyimg/tools/boot_merger.py:270-286 | byte 0 is 54, byte 1 the type, then 20 UTF-16LE name units, then offset, size and delay as u32 LE |
| BootFormat.EntryFromBytes | src/rkpyimg/tools/boot_merger.py:289-305 | rejects fewer than 54 bytes, and otherwise succeeds iff byte 1 is 1, 2 or 4 |
| BootFormat.EntryRoundTrip | src/rkpyimg/tools/boot_merger.py:270-305 | `from_bytes(to_bytes(e))` is e with its size normalised to 54 |
| BootMerger.FirstMissing | src/rkpyimg/tools/boot_merger.py:470-476 | the index of the first binary whose file does not exist, or the count when all exist |
| BootMerger.CheckPresent | src/rkpyimg/tools/boot_merger.py:470-476 | the existence loop finds the first missing binary |
| BootMerger.MissingBinary | src/rkpyimg/tools/boot_merger.py:738-753 | no binary is reported missing iff all DDR and loader binaries exist; a reported path does not exist |
| BootMerger.MissingBinaryOrder | src/rkpyimg/tools/boot_merger.py:470-476 | the DDR binaries are checked before the loader binaries, each list in order |
| BootMerger.BuildHeaderFields | src/rkpyimg/tools/boot_merger.py:553-597 | the tag, the chip type, the time and the BCD version; 471 entries for the DDR files, none for 472, loader entries for the loaders; table offsets 102, +54 per entry; data start after the tables; rc4_flag 0 iff RC4 is on |
| BootMerger.CreateEntry | src/rkpyimg/tools/boot_merger.py:599-645 | an entry carries its type, offset, zero delay and the wide stem name, with a data size rounded up to 2048 |
| BootMerger.DataOffsetCounts | src/rkpyimg/tools/boot_merger.py:594-597 | data start = 102 + 54 * the number of entries |
| BootMerger.CreateEntries | src/rkpyimg/tools/boot_merger.py:488-502 | the entry loop yields the laid-out entries and advances the offset by all their payloads |
| BootMerger.LayoutFirst | src/rkpyimg/tools/boot_merger.py:488-502 | the first entry of a group starts at the group's data offset |
| BootMerger.LayoutChain | src/rkpyimg/tools/boot_merger.py:488-502 | each later entry starts where the previous entry's data ends |
| BootMerger.LayoutLast | src/rkpyimg/tools/boot_merger.py:488-502 | the last entry's data ends where the group's payloads end |
| BootMerger.PaddedPayloadContents | src/rkpyimg/tools/boot_merger.py:647-680 | a payload is the file followed by zeros up to less than 2048 more bytes |
| BootMerger.PayloadAt | src/rkpyimg/tools/boot_merger.py:505-524 | payload k sits in the written data at the sum of the preceding payload sizes |
| BootMerger.WriteEntries | src/rkpyimg/tools/boot_merger.py:505-524 | the entry writes equal `EntriesBytes`, stopping at the first entry that does not serialise |
| BootMerger.EntriesBytesAt | src/rkpyimg/tools/boot_merger.py:505-524 | record k of the entry table is the 54-byte encoding of entry k |
| BootMerger.WritePayloads | src/rkpyimg/tools/boot_merger.py:647-680 | the payload writes equal `Payloads`: every file padded to its entry size, in order |
| BootMerger.WriteImageBody | src/rkpyimg/tools/boot_merger.py:505-524 | the sequential writes give header, entry table and payloads |
| BootMerger.ImageBodyParts | src/rkpyimg/tools/boot_merger.py:505-524 | the body is the 102-byte header, 54 bytes per entry, the DDR payloads and then the loader payloads |
| BootMerger.CloseImageCrc | src/rkpyimg/tools/boot_merger.py:529-536 | the last 4 bytes are the little-endian CRC-32 of everything before them, and the CRC check passes |
| BootMerger.PackChecks | src/rkpyimg/tools/boot_merger.py:470-536 | a missing binary, or a chip name whose four id characters are not ASCII, fails before anything is written; a success is the closed body |
| BootMerger.PackEncryption | src/rkpyimg/tools/boot_merger.py:538-545 | with RC4 on, the file is the plain image passed once through RC4; with it off, the plain image |
| BootMerger.WritePlainImage | src/rkpyimg/tools/boot_merger.py:448-536 | the pack steps up to the CRC equal `PlainImage` |
| BootMerger.Pack | src/rkpyimg/tools/boot_merger.py:448-551 | `pack` equals `PackImage` |
| BootMerger.ParseEntries | src/rkpyimg/tools/boot_merger.py:704-709 | parsed entries are as many as the header counts, with non-negative offsets and sizes |
| BootMerger.ReadEntries | src/rkpyimg/tools/boot_merger.py:704-709 | the entry-reading loop equals `ParseEntries` |
| BootMerger.ExtractOne | src/rkpyimg/tools/boot_merger.py:712-731 | one entry's data, decrypted whole or per 512-byte block when rc4_flag is 0 |
| BootMerger.ExtractAll | src/rkpyimg/tools/boot_merger.py:712-734 | the extraction loop yields one named file per entry |
| BootMerger.UnpackImage | src/rkpyimg/tools/boot_merger.py:682-736 | fewer than 102 bytes are rejected |
| BootMerger.Unpack | src/rkpyimg/tools/boot_merger.py:682-736 | `unpack` equals `UnpackImage` |
| BootMerger.EntryNameKeeps | src/rkpyimg/tools/boot_merger.py:714 | dropping NULs keeps a name without NULs |
| BootMerger.EntryNameDropsZeros | src/rkpyimg/tools/boot_merger.py:714 | an all-NUL name becomes empty |
| BootMerger.StemName | src/rkpyimg/tools/boot_merger.py:714 | the name read back from an entry is the stem, cut to 20 characters |
| BootMerger.UnpackReadsHeader | src/rkpyimg/tools/boot_merger.py:698-699 | unpack reads back the header pack wrote |
| BootMerger.UnpackReadsEntries | src/rkpyimg/tools/boot_merger.py:704-709 | unpack reads back exactly the entries pack wrote |
| BootMerger.ClosedImageFiles | src/rkpyimg/tools/boot_merger.py:712-734 | every extracted file is the packed binary padded to its entry size |
| BootMerger.UnpackPack | src/rkpyimg/tools/boot_merger.py:448-736 | with RC4 off, unpacking a packed image gives every binary back, padded, under its stem name |
| Rksd.ConfigFrom | src/rkpyimg/tools/rksd.py:188-194 | the search from row i finds nothing iff no later row has the chip's name, and otherwise returns a row of the table with that name |
| Rksd.ChipConfigOf | src/rkpyimg/tools/rksd.py:188-194 | a chip is found iff it is in `CHIP_CONFIGS`, and then its own row is returned |
| Rksd.Rk3399Config | src/rkpyimg/tools/rksd.py:70 | rk3399 has magic RK33, an SPL limit of 0x2E000 bytes and no SPL encryption |
| Rksd.EncryptedSplChips | src/rkpyimg/tools/rksd.py:60-73 | only rk3066 and rk3188 encrypt their SPL |
| Rksd.UnknownChipConfig | src/rkpyimg/tools/rksd.py:188-192 | a chip outside the table, such as rk3588, is not found |
| Rksd.ChipNameFrom | src/rkpyimg/tools/rksd.py:339-344 | "unknown" iff no row has the magic; otherwise the name of the first row that has it |
| Rksd.FindChip | src/rkpyimg/tools/rksd.py:339-344 | the search loop with its `break` yields the first matching row's name |
| Rksd.Rk33ChipName | src/rkpyimg/tools/rksd.py:60-73 | the magic RK33 reports rk3308, the first RK33 row |
| Rksd.FirstChipNames | src/rkpyimg/tools/rksd.py:60-73 | RK30, RK31 and RK32 report rk3036, rk3128 and rk322x |
| Rksd.NoMagicChipName | src/rkpyimg/tools/rksd.py:340 | an image too short for a magic reports "unknown" |
| Rksd.Header0ToBytes | src/rkpyimg/tools/rksd.py:100-114 | the 512-byte layout when the reserved fields are 4, 490 and 2 bytes and the numbers fit; `struct.error` when a number does not |
| Rksd.Header0Offsets | src/rkpyimg/tools/rksd.py:100-114 | signature at 0x000, disable_rc4 at 0x008, init_offset at 0x00C, init_size at 0x1FA, init_boot_size at 0x1FC, the reserved bytes in between |
| Rksd.Header0FromBytes | src/rkpyimg/tools/rksd.py:116-140 | fewer than 512 bytes are rejected; parsed fields fit their widths |
| Rksd.Header0RoundTrip | src/rkpyimg/tools/rksd.py:100-140 | `from_bytes(to_bytes(h)) == h` for fields in range |
| Rksd.Header0Rewrite | src/rkpyimg/tools/rksd.py:116-140 | re-serialising a parsed block reproduces its first 510 bytes |
| Rksd.RoundUp | src/rkpyimg/tools/rksd.py:143-145 | a multiple of the alignment, at least n and less than n + alignment |
| Rksd.RoundUpLeast | src/rkpyimg/tools/rksd.py:143-145 | the least such multiple |
| Rksd.DivRoundUp | src/rkpyimg/tools/rksd.py:148-150 | the ceiling of n / d |
| Rksd.BlockCounts | src/rkpyimg/tools/rksd.py:217-222 | init_size and init_boot_size are multiples of 4 blocks and cover the SPL and the boot size; 8192 bytes give 16 blocks |
| Rksd.RksdHeader0 | src/rkpyimg/tools/rksd.py:225-231 | header0 has the reserved widths `to_bytes` needs |
| Rksd.RksdImageChecks | src/rkpyimg/tools/rksd.py:188-209 | an unknown chip, a missing SPL and an SPL above the chip's limit are rejected, in that order; otherwise the image builds iff init_boot_size fits 16 bits |
| Rksd.RksdImageLayout | src/rkpyimg/tools/rksd.py:225-263 | the image is the encrypted header0, 1536 zeros, then the padded SPL, 2048 + 512 * init_size bytes; disable_rc4 is 0 iff the chip encrypts its SPL |
| Rksd.SplImageDecrypts | src/rkpyimg/tools/rksd.py:246-263 | the SPL region decrypts per block to the SPL padded to init_size blocks |
| Rksd.EncryptSpl | src/rkpyimg/tools/rksd.py:251-260 | the SPL block loop equals `rc4_encrypt_blocks(padded, 512)` |
| Rksd.CreateRksdImage | src/rkpyimg/tools/rksd.py:153-270 | `create_rksd_image` equals `RksdImage` |
| Rksd.BuildRksdImage | src/rkpyimg/tools/rksd.py:216-263 | building the image from a chip row and an SPL equals `RksdImageOf` |
| Rksd.AppendToRksd | src/rkpyimg/tools/rksd.py:294-300 | succeeds iff the appended file exists; the image becomes its old bytes followed by the file's, and no other file changes |
| Rksd.Report | src/rkpyimg/tools/rksd.py:324-358 | a header0 shorter than 512 bytes is rejected |
| Rksd.ImageInfo | src/rkpyimg/tools/rksd.py:324-358 | an image shorter than 512 bytes is rejected |
| Rksd.VerifyRksd | src/rkpyimg/tools/rksd.py:308-358 | `verify_rksd_image` equals `VerifyRksdImage` |
| Rksd.VerifyCreated | src/rkpyimg/tools/rksd.py:324-358 | verifying a created image reports the signature, offset 4, both block counts, the RC4 flag, the image size and the chip of the SPL's first four bytes |
| Rksd.PlainSplMagic | src/rkpyimg/tools/rksd.py:250 | an unencrypted image's bytes at 2048 are the SPL file's own first four bytes |
| Rksd.AppendKeepsInfo | src/rkpyimg/tools/rksd.py:294-300 | appending to an image changes nothing `verify` reports but the file size |
| Elf.ReadField | src/rkpyimg/tools/trust_merger.py:184-198 | a field read succeeds iff it fits in the file, yields the little-endian value, and otherwise raises `struct.error` |
| Elf.ElfMagicBytes | src/rkpyimg/tools/trust_merger.py:76 | 7F 'E' 'L' 'F' decodes to `ELF_MAGIC` |
| Elf.ProgramHeaderAt | src/rkpyimg/tools/trust_merger.py:211-244 | one program header reads iff all its bytes are in the file; otherwise `struct.error` |
| Elf.DecodeProgramHeaderFields | src/rkpyimg/tools/trust_merger.py:211-244 | the 64-bit layout reads type, offset, vaddr, filesz and memsz at 0, 8, 16, 32 and 40; the 32-bit layout at 0, 4, 8, 16 and 20 |
| Elf.ProgramHeadersAt | src/rkpyimg/tools/trust_merger.py:211-244 | the table reads iff every entry at phoff + i * phentsize does, giving them in order; a failure is `struct.error` |
| Elf.LoadSegmentsAppend | src/rkpyimg/tools/trust_merger.py:221-227 | the PT_LOAD filter distributes over concatenation, keeping table order |
| Elf.LoadSegmentsMembers | src/rkpyimg/tools/trust_merger.py:221-252 | a segment is returned iff it comes from a program header of type PT_LOAD |
| Elf.NoLoadNoSegments | src/rkpyimg/tools/trust_merger.py:221-252 | a table without PT_LOAD gives no segments |
| Elf.ElfSegmentsRejects | src/rkpyimg/tools/trust_merger.py:184-200 | short files raise `struct.error`; bad magic, EI_DATA other than 1 and e_type other than 2 raise their ValueErrors, in that order |
| Elf.ElfSegmentsOfTable | src/rkpyimg/tools/trust_merger.py:202-254 | a valid header's result is the PT_LOAD segments of the table at phoff/phentsize/phnum, read at 32/54/56 for EI_CLASS 2 and 28/42/44 otherwise |
| Elf.ReadLoadSegments | src/rkpyimg/tools/trust_merger.py:211-227 | the program-header loop equals the table read followed by the PT_LOAD filter |
| Elf.ParseElfSegments | src/rkpyimg/tools/trust_merger.py:167-254 | `parse_elf_segments` equals `ElfSegments` |
| Trust.AlignSize | src/rkpyimg/tools/trust_merger.py:80-84 | for a positive size the least multiple at least the size; any other size is returned unchanged |
| Trust.GetBcd | src/rkpyimg/tools/trust_merger.py:87-103 | for a non-negative value the nibbles are the last two decimal digits; negative values stay negative |
| Trust.VersionValue | src/rkpyimg/tools/trust_merger.py:421-424 | packable iff both parts are non-negative; then the high byte is bcd(major) and the low byte bcd(minor) |
| Trust.Flags | src/rkpyimg/tools/trust_merger.py:427 | the low nibble is the SHA mode and the high nibble the RSA mode |
| Trust.SizeValueFits | src/rkpyimg/tools/trust_merger.py:431-432 | the size field fits 32 bits iff there are fewer than 2^16 components |
| Trust.SignOffsetQuarter | src/rkpyimg/tools/trust_merger.py:409 | sign_offset = 800 + 48n is a multiple of 4, so `>> 2` loses nothing |
| Trust.SizeValueDecodes | src/rkpyimg/tools/trust_merger.py:565-566 | unpack's decode recovers both n and sign_offset iff n <= 5444, the point where sign_offset >> 2 overflows 16 bits |
| Trust.FromBinaryEntry | src/rkpyimg/tools/trust_merger.py:133-147 | a whole-file component's aligned size is the size rounded up to 2048 |
| Trust.FromElf | src/rkpyimg/tools/trust_merger.py:150-164 | a segment component's aligned size is the file size rounded up to 2048 |
| Trust.ElfEntryComponents | src/rkpyimg/tools/trust_merger.py:329-339 | an ELF gives one component per PT_LOAD segment with load_addr = vaddr, offset = p_offset and size = filesz |
| Trust.NoLoadContributesNothing | src/rkpyimg/tools/trust_merger.py:332 | an ELF without PT_LOAD segments contributes no component |
| Trust.BinaryEntryComponent | src/rkpyimg/tools/trust_merger.py:340-346 | a non-ELF file gives one component: the configured address, offset 0, the whole file |
| Trust.ShortFileFails | src/rkpyimg/tools/trust_merger.py:340 | a file shorter than 4 bytes raises `struct.error`, which the fallback does not catch |
| Trust.EntryComponentsShape | src/rkpyimg/tools/trust_merger.py:326-346 | every component of a binary carries its id, its path and its size rounded up to 2048 |
| Trust.ComponentsOrder | src/rkpyimg/tools/trust_merger.py:314-368 | the BL31 components all come before the BL32 ones, and every component reads an existing file |
| Trust.EntryComponentsOf | src/rkpyimg/tools/trust_merger.py:329-346 | the per-binary loop equals `EntryComponents` |
| Trust.PrepareComponents | src/rkpyimg/tools/trust_merger.py:314-368 | `_prepare_components` equals `Components` |
| TrustImage.TrustHeaderFields | src/rkpyimg/tools/trust_merger.py:409-435 | a 2048-byte header with "BL3X", the version, the flags and the size field at 0, 4, 8 and 12, zeros elsewhere; `struct.error` when a value does not fit |
| TrustImage.BuildHeader | src/rkpyimg/tools/trust_merger.py:413-432 | the header writes equal `TrustHeader` |
| TrustImage.Payload | src/rkpyimg/tools/trust_merger.py:456-462 | a component's payload is its aligned size long |
| TrustImage.PackRecordFields | src/rkpyimg/tools/trust_merger.py:469-470 | the 32-byte hash and the u32 load address in place; `struct.error` when either does not fit |
| TrustImage.PackInfoFields | src/rkpyimg/tools/trust_merger.py:476-479 | id, offset >> 9 and size >> 9 in place; `struct.error` when either number does not fit |
| TrustImage.PackOne | src/rkpyimg/tools/trust_merger.py:454-484 | one loop turn writes the record, the storage entry and the payload |
| TrustImage.PackComponent | src/rkpyimg/tools/trust_merger.py:454-484 | a turn succeeds iff its five `pack_into` calls fit; the buffer never shrinks and, when the data offset is within it, holds the padded payload there |
| TrustImage.PackComponentWrites | src/rkpyimg/tools/trust_merger.py:467-483 | a component turn is the two `pack_into` writes followed by the payload's slice assignment |
| TrustImage.ComputeOutFileSize | src/rkpyimg/tools/trust_merger.py:440-442 | the size loop equals `OutFileSize` |
| TrustImage.WriteImage | src/rkpyimg/tools/trust_merger.py:444-484 | the buffer writes equal `SingleImage` |
| TrustImage.PackComponentsLayout | src/rkpyimg/tools/trust_merger.py:451-484 | the loop succeeds iff every component's numbers fit; it then leaves every component's record, storage entry and payload in place |
| TrustImage.UsedSizeAligned | src/rkpyimg/tools/trust_merger.py:484 | payload offsets advance by aligned sizes, so they stay multiples of 2048 |
| TrustImage.SingleImageLayout | src/rkpyimg/tools/trust_merger.py:444-484 | the single image is 2048 + Σalign bytes, starts with the header, and holds every component in place |
| TrustImage.CopiesLayout | src/rkpyimg/tools/trust_merger.py:497-502 | the copy loop places the image at 0 and 2 MiB, zeros elsewhere |
| TrustImage.WriteCopies | src/rkpyimg/tools/trust_merger.py:497-502 | the copy loop equals `Copies` |
| TrustImage.PackTrustErrors | src/rkpyimg/tools/trust_merger.py:390-432 | a missing binary, a component error, no components and a negative version part are rejected, in that order |
| TrustImage.PackTrustSucceeds | src/rkpyimg/tools/trust_merger.py:398-494 | for 1..15 components the pack succeeds iff the numbers fit and the single image is at most 2 MiB |
| TrustImage.PackTrustOutput | src/rkpyimg/tools/trust_merger.py:489-506 | the output is 4 MiB and holds the header and every component twice, at 0 and 2 MiB, zeros elsewhere |
| TrustImage.Pack | src/rkpyimg/tools/trust_merger.py:370-508 | `pack` equals `PackTrust` |
| TrustUnpack.AsciiText | src/rkpyimg/tools/trust_merger.py:607 | ASCII decoding keeps each byte as its character |
| TrustUnpack.StripShape | src/rkpyimg/tools/trust_merger.py:607 | `strip` removes exactly the leading and trailing whitespace |
| TrustUnpack.StripIdempotent | src/rkpyimg/tools/trust_merger.py:607 | stripping twice is stripping once |
| TrustUnpack.StandardNames | src/rkpyimg/tools/trust_merger.py:607 | the ids BL31 and BL32 are saved as "BL31" and "BL32" |
| TrustUnpack.UnpackTrust | src/rkpyimg/tools/trust_merger.py:551-613 | `unpack` succeeds only on a file of at least 16 bytes that starts with the tag "BL3X" |
| TrustUnpack.UnpackComponent | src/rkpyimg/tools/trust_merger.py:579-604 | a turn yields a four-byte ASCII id, or fails with `struct.error` or a decode error |
| TrustUnpack.UnpackTrustRejects | src/rkpyimg/tools/trust_merger.py:553-562 | a file shorter than 4 bytes or than the header fields raises `struct.error`; a tag other than "BL3X" is rejected |
| TrustUnpack.WrittenNames | src/rkpyimg/tools/trust_merger.py:607-612 | a name is in the result iff some component decodes to it |
| TrustUnpack.WrittenLast | src/rkpyimg/tools/trust_merger.py:607-612 | a name maps to the data of the last component with that name |
| TrustUnpack.UnpackOne | src/rkpyimg/tools/trust_merger.py:579-604 | one loop turn reads the storage entry and the payload it points to |
| TrustUnpack.ExtractComponents | src/rkpyimg/tools/trust_merger.py:579-613 | the component loop collects the per-component reads into the name dictionary |
| TrustUnpack.Unpack | src/rkpyimg/tools/trust_merger.py:529-615 | `unpack` equals `UnpackedFiles` |
| TrustUnpack.InfoBack | src/rkpyimg/tools/trust_merger.py:589-595 | reading a storage entry back gives the id and the offset and size in 512-byte units |
| TrustUnpack.OffsetUnits | src/rkpyimg/tools/trust_merger.py:594-595 | `<< 9` recovers every payload offset and aligned size exactly |
| TrustUnpack.SizeFieldBack | src/rkpyimg/tools/trust_merger.py:565-576 | for 1..15 components unpack decodes n and finds the storage table where pack put it |
| TrustUnpack.UnpackComponentBack | src/rkpyimg/tools/trust_merger.py:585-604 | unpack reads component j's id and padded payload from a packed image |
| TrustUnpack.UnpackImage | src/rkpyimg/tools/trust_merger.py:551-613 | a file that starts with a packed single image unpacks to its components' payloads |
| TrustUnpack.UnpackOfPack | src/rkpyimg/tools/trust_merger.py:370-615 | unpacking a packed trust image gives back every component's padded payload with its id, in order |
| TrustUnpack.ComponentNames | src/rkpyimg/tools/trust_merger.py:607 | every component is saved under "BL31" or "BL32" by its id |

## Left out

- Console output, the argparse and click command lines, `main` functions and
  INI parsing are not modelled. The parsed configuration is an input value:
  version, binary lists with paths and addresses, optional BL31/BL32.
- File-system effects are left out:
  - open failures other than a missing file;
  - `mkdir` and output paths.

  Unpacking yields the extracted data instead of writing files. `append` and `create` return the new contents.
- `RKTime.now()` is not modelled; the timestamp is a parameter.
- SHA-256 (`sha256_hash`, which `trust_merger.py` imports from `checksum.py`,
  where it is not defined) is a function parameter. Nothing is assumed about it.
- `binascii.crc32` is replaced by its definition: the reflected CRC-32 with
  polynomial 0xEDB88320 over IEEE 802.3's frame check sequence (clause 3.2.9).
  The link to `binascii` is the standard check value that `Crc32Check` proves; no
  other input is compared with it.
- RSA signing and the RSA/SHA modes beyond their flag nibbles are not
  modelled. As in the source, the N/E/C and signature slots stay zero, and
  `TrustMerger.size` is unused.
- `loaderimage.py`, `builder.py`, `write_gpt_header`, the float `size_mb`,
  `ini_parser.py` and `scripts/` are not part of this model.
- `RKHeader.from_bytes`/`to_bytes`/`from_file`/`write_to` are not part of
  this model; the shown methods are stubs or I/O.
- `get_file_name` (`Path.stem`) is not modelled; each configured binary carries its stem.
- Unicode above U+FFFF, UTF-8 and case folding are not modelled. Strings are
  sequences of characters; the ASCII id checks compare code points.
- BootMerger.UnpackPack: states the round trip only with RC4 off. With RC4
  on, `pack` encrypts the whole file, but `unpack` still reads the header and
  tables as plain bytes and decrypts only the entries' data. The two therefore
  do not invert each other, and PackEncryption states what `pack` then writes.
- TrustImage.PackTrustOutput: states the layout of the output for 1 to 15
  components only. With more, the tables pass offset 2048 and collide with
  the first payload.
- TrustImage.PackTrustSucceeds: states the success condition for 1 to 15
  components only; PackTrustErrors covers every component count.
- TrustUnpack.UnpackOfPack: states the pack/unpack round trip for 1 to 15 components only, for the same reason.
- Trust.SizeValueDecodes: the size-field decode is exact only for n <= 5444,
  because `sign_offset >> 2` must fit 16 bits. The lemma proves both
  directions of that bound. It says nothing about the image for larger n.
- Rc4.Rc4Init: requires a non-empty key. With an empty key, `key[i % key_len]`
  raises ZeroDivisionError (`core/rc4.py:57-61`), so `rc4_crypt` fails on
  non-empty data; the model does not represent that exception. Every caller
  passes `ROCKCHIP_RC4_KEY`, which is 16 bytes.
- Rc4.Rc4EncryptBlocks: requires `block_size > 0` for non-empty data. With
  `block_size <= 0` the source never ends: `offset += block_size` does not
  move `offset` towards `len(data)` (`core/rc4.py:151-162`). Every caller passes
  512 or `SMALL_PACKET` (512) and `ROCKCHIP_RC4_KEY`.
- BootMerger.PackImage and TrustUnpack.UnpackTrust: on a failure part-way, the
  source leaves the files written so far; the model returns only the error.
  `pack` opens the output before the first `to_bytes` that can raise
  `struct.error` (`boot_merger.py:505-515`), and `unpack` has already written
  the earlier components' files when a later turn raises `struct.error` or
  UnicodeDecodeError (`trust_merger.py:579-612`).
- Rksd.Report: `verify_rksd_image` formats the signature as the text
  `"0x%08X"` and decodes `spl_magic` as ASCII with replacement characters
  (`rksd.py:346-349`). `RksdInfo` keeps the signature as a number and the magic
  as its raw bytes.
