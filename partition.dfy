/**
 * The standard Rockchip GPT layout: U-Boot, trust and boot partitions at
 * fixed sectors, and an optional root file system up to the backup GPT.
 */
module Partition {
  import opened Results

  const SectorSize: nat := 512

  // Fixed offsets, in 512-byte sectors.
  const RkIdbloaderOffset: nat := 64
  const RkUbootOffset: nat := 24576
  const RkTrustOffset: nat := 32768
  const RkBootOffset: nat := 49152
  const RkRootfsOffset: nat := 376832

  /** Sectors kept free at the end of the disk for the backup GPT header and entries. */
  const BackupGptSectors: nat := 34

  /** A GPT partition; the GUIDs are 128-bit values and default to absent. */
  datatype GptPartition = GptPartition(
    name: string,
    startSector: int,
    endSector: int,
    typeGuid: Option<nat>,
    partitionGuid: Option<nat>,
    attributes: int)

  function NewPartition(name: string, startSector: int, endSector: int): (p: GptPartition)
  {
    GptPartition(name, startSector, endSector, None, None, 0)
  }

  /** `size_bytes`: the partition spans both its first and its last sector. */
  function SizeBytes(p: GptPartition): (r: int)
    ensures r % SectorSize == 0
    ensures r / SectorSize == p.endSector - p.startSector + 1
    ensures p.startSector <= p.endSector <==> r > 0
  {
    (p.endSector - p.startSector + 1) * SectorSize
  }

  /** `create_partition_table(image_size_mb, boot_size_mb, include_rootfs)`. */
  function CreatePartitionTable(imageSizeMb: int, bootSizeMb: int, includeRootfs: bool): (r: seq<GptPartition>)
    ensures |r| == if includeRootfs then 4 else 3
    ensures r[0].name == "uboot" && r[1].name == "trust" && r[2].name == "boot"
    ensures includeRootfs ==> r[3].name == "rootfs"
  {
    var fixed := [
      NewPartition("uboot", RkUbootOffset, RkTrustOffset - 1),
      NewPartition("trust", RkTrustOffset, RkBootOffset - 1),
      NewPartition("boot", RkBootOffset, RkRootfsOffset - 1)
    ];
    if includeRootfs then
      var totalSectors := (imageSizeMb * 1024 * 1024) / SectorSize;
      fixed + [NewPartition("rootfs", RkRootfsOffset, totalSectors - BackupGptSectors)]
    else
      fixed
  }

  /** The three fixed partitions come first, in this order and at these sectors. */
  lemma FixedPartitions(imageSizeMb: int, bootSizeMb: int, includeRootfs: bool)
    ensures var r := CreatePartitionTable(imageSizeMb, bootSizeMb, includeRootfs);
      |r| >= 3 &&
      r[0].name == "uboot" && r[0].startSector == 24576 && r[0].endSector == 32767 &&
      r[1].name == "trust" && r[1].startSector == 32768 && r[1].endSector == 49151 &&
      r[2].name == "boot" && r[2].startSector == 49152 && r[2].endSector == 376831
  {
  }

  /** Exactly three partitions without a root file system; with one, a fourth that runs to the backup GPT. */
  lemma RootfsPartition(imageSizeMb: int, bootSizeMb: int, includeRootfs: bool)
    ensures var r := CreatePartitionTable(imageSizeMb, bootSizeMb, includeRootfs);
      (!includeRootfs <==> |r| == 3) &&
      (includeRootfs ==>
        |r| == 4 && r[3].name == "rootfs" && r[3].startSector == 376832 &&
        r[3].endSector == imageSizeMb * 2048 - 34)
  {
    assert imageSizeMb * 1024 * 1024 == (imageSizeMb * 2048) * SectorSize;
  }

  /** Each partition starts on the sector after the previous one ends, and no two overlap. */
  lemma PartitionsAdjacent(imageSizeMb: int, bootSizeMb: int, includeRootfs: bool)
    ensures var r := CreatePartitionTable(imageSizeMb, bootSizeMb, includeRootfs);
      (forall i :: 0 < i < |r| ==> r[i - 1].endSector + 1 == r[i].startSector) &&
      (forall i, j :: 0 <= i < j < |r| ==> r[i].endSector < r[j].startSector)
  {
  }

  /** The boot size argument is never read. */
  lemma BootSizeIgnored(imageSizeMb: int, bootSizeA: int, bootSizeB: int, includeRootfs: bool)
    ensures CreatePartitionTable(imageSizeMb, bootSizeA, includeRootfs) ==
            CreatePartitionTable(imageSizeMb, bootSizeB, includeRootfs)
  {
  }

  /**
   * Each fixed partition ends where the next begins, so U-Boot spans 8192
   * sectors (4 MiB), trust 16384 sectors (8 MiB) and boot 327680 sectors
   * (160 MiB), whatever size is asked for boot.
   */
  lemma FixedPartitionSizes(imageSizeMb: int, bootSizeMb: int, includeRootfs: bool)
    ensures var r := CreatePartitionTable(imageSizeMb, bootSizeMb, includeRootfs);
      |r| >= 3 &&
      SizeBytes(r[0]) == 4 * 1024 * 1024 && SizeBytes(r[1]) == 8 * 1024 * 1024 &&
      SizeBytes(r[2]) == 160 * 1024 * 1024
  {
  }
}
