/** The repacking pipeline ("Write"): the ten system sectors, the rewritten
    directory, the host files sector by sector and the battle sectors
    0x44C to 0x540 are laid end to end; the number of the first free sector is
    stored at a fixed displacement from the battle file's start sector; the
    result is padded with 0xFF to the size of a 720 KB disk. Sectors and host
    files are taken from maps instead of from the host file system. */
module Repack {
  import opened Bytes
  import opened Outcome
  import opened Sectors
  import opened Ascii
  import opened RootDirectory
  import opened FileArea
  import opened Unpack

  /** Sectors 0 to 9: boot sector and other system data. */
  const SystemSectors: nat := 10
  /** First of the battle sectors, which the game reads by number. */
  const BattleFirstSector: nat := 0x44C
  /** One past the last battle sector. */
  const BattleSectorEnd: nat := 0x541
  /** Where, counted from the start of BATTLE.COM, the game keeps the sector
      number of the battle sectors. */
  const PointerDisplacement: nat := 0xF6C
  /** Size of the written image: 1440 sectors. */
  const ImageSize: nat := 0xB4000
  /** Filler after the written data. */
  const PadByte: uint8 := 0xFF

  /** The image holds 1440 whole sectors, more than the system sectors and
      the directory. */
  lemma {:induction false} ImageGeometry()
    ensures ImageSize % SectorSize == 0 && ImageSize / SectorSize == 1440
    ensures FileAreaOffset <= ImageSize
  {
  }

  /** The sector artifacts `lo` to `hi - 1`, read in order; reading stops at
      the first one that does not exist. */
  function ReadSectors(artifacts: map<nat, seq<uint8>>, lo: nat, hi: nat): (r: Result<seq<seq<uint8>>>)
    requires lo <= hi
    ensures r.Ok? <==> forall s :: lo <= s < hi ==> s in artifacts
    ensures r.Ok? ==> |r.value| == hi - lo && forall i :: 0 <= i < hi - lo ==> r.value[i] == artifacts[lo + i]
    ensures r.Err? ==> && r.error.MissingSector?
                       && lo <= r.error.index < hi && r.error.index !in artifacts
                       && forall s :: lo <= s < r.error.index ==> s in artifacts
    decreases hi - lo
  {
    if lo == hi then Ok([])
    else if lo !in artifacts then Err(MissingSector(lo))
    else
      var rest :- ReadSectors(artifacts, lo + 1, hi);
      Ok([artifacts[lo]] + rest)
  }

  /** The records of the rewritten directory, one per entry. */
  function Records(entries: seq<Entry>): (r: seq<seq<uint8>>)
    ensures |r| == |entries|
  {
    seq(|entries|, k requires 0 <= k < |entries| => Encode(entries[k]))
  }

  /** Every entry encodes to one whole record. */
  predicate FitsRecords(entries: seq<Entry>) {
    forall k :: 0 <= k < |entries| ==> |Encode(entries[k])| == RdSize
  }

  /** The data written before padding: system sectors, directory, files and
      battle sectors, in that order. */
  function Merge(system: seq<seq<uint8>>, entries: seq<Entry>, fileSectors: seq<seq<uint8>>,
                 battle: seq<seq<uint8>>): seq<uint8>
  {
    Concat(system) + Concat(Records(entries)) + Concat(fileSectors) + Concat(battle)
  }

  /** Byte offset of the battle pointer: the displacement into the run of
      sectors starting at the battle file's start sector. */
  function PointerOffset(battleSector: uint16): nat {
    battleSector * 0x200 + PointerDisplacement
  }

  /** Overwrites two bytes at `offset` with `v`, low byte first. Writing past
      the end of the buffer fails. */
  function PatchPointer(buf: seq<uint8>, offset: nat, v: uint16): (r: Result<seq<uint8>>)
    ensures r.Ok? <==> offset + 2 <= |buf|
    ensures r.Err? ==> r.error == PointerOutOfRange(offset, |buf|)
    ensures r.Ok? ==> && |r.value| == |buf|
                      && FromLe16(r.value[offset], r.value[offset + 1]) == v
                      && forall i :: 0 <= i < |buf| && (i < offset || offset + 2 <= i) ==> r.value[i] == buf[i]
  {
    if offset + 2 > |buf| then Err(PointerOutOfRange(offset, |buf|))
    else Ok(buf[..offset] + Le16(v) + buf[offset + 2..])
  }

  /** The buffer copied over an image-sized run of 0xFF. A buffer longer than
      the image fails. */
  function PadImage(buf: seq<uint8>): (r: Result<seq<uint8>>)
    ensures r.Ok? <==> |buf| <= ImageSize
    ensures r.Err? ==> r.error == ImageTooLarge(|buf|)
    ensures r.Ok? ==> && |r.value| == ImageSize
                      && r.value[..|buf|] == buf
                      && forall i :: |buf| <= i < ImageSize ==> r.value[i] == PadByte
  {
    if |buf| > ImageSize then Err(ImageTooLarge(|buf|))
    else Ok(buf + Repeat(PadByte, ImageSize - |buf|))
  }

  /** The repacking pipeline over a directory table, the sector artifacts and
      the host files by name. */
  function Repack(table: seq<Entry>, artifacts: map<nat, seq<uint8>>, files: map<string, seq<uint8>>)
    : (r: Result<seq<uint8>>)
    ensures r.Ok? ==> |r.value| == ImageSize
    ensures r.Ok? ==> AllAccepted(table, files)
    ensures r.Ok? ==> forall s :: 0 <= s < SystemSectors ==> s in artifacts
    ensures r.Ok? ==> forall s :: BattleFirstSector <= s < BattleSectorEnd ==> s in artifacts
  {
    var system :- ReadSectors(artifacts, 0, SystemSectors);
    var a :- Allocate(table, files);
    var battle :- ReadSectors(artifacts, BattleFirstSector, BattleSectorEnd);
    var merged := Merge(system, a.entries, a.fileSectors, battle);
    var patched :- PatchPointer(merged, PointerOffset(a.battleSector), a.cursor);
    PadImage(patched)
  }

  /** The intermediate results of a repacking that succeeds with `image`
      after allocating `a`: both sector reads succeeded, and the image is the
      merged data with the pointer written into it, followed by 0xFF. */
  lemma {:induction false} RepackParts(table: seq<Entry>, artifacts: map<nat, seq<uint8>>,
                                       files: map<string, seq<uint8>>, image: seq<uint8>, a: Allocation)
    requires Repack(table, artifacts, files) == Ok(image)
    requires Allocate(table, files) == Ok(a)
    ensures ReadSectors(artifacts, 0, SystemSectors).Ok?
    ensures ReadSectors(artifacts, BattleFirstSector, BattleSectorEnd).Ok?
    ensures var merged := Merge(ReadSectors(artifacts, 0, SystemSectors).value, a.entries, a.fileSectors,
                                ReadSectors(artifacts, BattleFirstSector, BattleSectorEnd).value);
            var off := PointerOffset(a.battleSector);
            && |image| == ImageSize
            && off + 2 <= |merged| <= ImageSize
            && FromLe16(image[off], image[off + 1]) == a.cursor
            && (forall i :: 0 <= i < |merged| && (i < off || off + 2 <= i) ==> image[i] == merged[i])
            && (forall i :: |merged| <= i < ImageSize ==> image[i] == PadByte)
  {
    var system := ReadSectors(artifacts, 0, SystemSectors).value;
    var battle := ReadSectors(artifacts, BattleFirstSector, BattleSectorEnd).value;
    var merged := Merge(system, a.entries, a.fileSectors, battle);
    var off := PointerOffset(a.battleSector);
    var patched := PatchPointer(merged, off, a.cursor).value;
    assert image == PadImage(patched).value;
    assert image[..|patched|] == patched;
    forall i | 0 <= i < |merged| && (i < off || off + 2 <= i)
      ensures image[i] == merged[i]
    {
      assert image[i] == image[..|patched|][i];
    }
    assert image[off] == patched[off] by {
      assert image[off] == image[..|patched|][off];
    }
    assert image[off + 1] == patched[off + 1] by {
      assert image[off + 1] == image[..|patched|][off + 1];
    }
  }

  /** Every record of entries that fit is sixteen bytes wide. */
  lemma {:induction false} RecordsWidth(entries: seq<Entry>)
    requires FitsRecords(entries)
    ensures AllOfWidth(Records(entries), RdSize)
    ensures |Concat(Records(entries))| == RdSize * |entries|
  {
    ConcatLength(Records(entries), RdSize);
  }

  /** Where each part of the merged data lies. */
  lemma {:induction false} MergedLayout(system: seq<seq<uint8>>, entries: seq<Entry>, fileSectors: seq<seq<uint8>>,
                                        battle: seq<seq<uint8>>)
    requires |system| == SystemSectors && FullSectors(system)
    requires FitsRecords(entries)
    requires FullSectors(fileSectors) && FullSectors(battle)
    ensures var m := Merge(system, entries, fileSectors, battle);
            var d := DirectoryOffset + RdSize * |entries|;
            var f := d + SectorSize * |fileSectors|;
            && |m| == f + SectorSize * |battle|
            && m[..DirectoryOffset] == Concat(system)
            && m[DirectoryOffset..d] == Concat(Records(entries))
            && m[d..f] == Concat(fileSectors)
            && m[f..] == Concat(battle)
  {
    ConcatLength(system, SectorSize);
    RecordsWidth(entries);
    ConcatLength(fileSectors, SectorSize);
    ConcatLength(battle, SectorSize);
  }

  /** A missing system sector stops repacking before any host file is
      looked at, with the first missing one reported. */
  lemma {:induction false} RepackMissingSystemSector(table: seq<Entry>, artifacts: map<nat, seq<uint8>>,
                                                     files: map<string, seq<uint8>>, s: nat)
    requires s < SystemSectors && s !in artifacts
    requires forall t :: 0 <= t < s ==> t in artifacts
    ensures Repack(table, artifacts, files) == Err(MissingSector(s))
  {
    var r := ReadSectors(artifacts, 0, SystemSectors);
    assert r.Err?;
  }

  /** With the system sectors present, repacking stops at the first entry
      whose host file is missing or not a whole number of sectors. */
  lemma {:induction false} RepackRejects(table: seq<Entry>, artifacts: map<nat, seq<uint8>>, files: map<string, seq<uint8>>, k: nat)
    requires forall s :: 0 <= s < SystemSectors ==> s in artifacts
    requires k < |table| && !Accepted(table[k], files) && AllAccepted(table[..k], files)
    ensures Repack(table, artifacts, files) == Err(Rejection(table[k], files))
  {
    AllocateRejects(table, files, k);
  }

  /** With the system sectors and every host file in place, a missing battle
      sector stops repacking, with the first missing one reported. */
  lemma {:induction false} RepackMissingBattleSector(table: seq<Entry>, artifacts: map<nat, seq<uint8>>,
                                                     files: map<string, seq<uint8>>, s: nat)
    requires forall t :: 0 <= t < SystemSectors ==> t in artifacts
    requires AllAccepted(table, files)
    requires BattleFirstSector <= s < BattleSectorEnd && s !in artifacts
    requires forall t :: BattleFirstSector <= t < s ==> t in artifacts
    ensures Repack(table, artifacts, files) == Err(MissingSector(s))
  {
    var r := ReadSectors(artifacts, BattleFirstSector, BattleSectorEnd);
    assert r.Err?;
  }

  /** Once every input is read, repacking fails exactly when the pointer
      lies outside the merged data or the merged data does not fit the image,
      in that order. */
  lemma {:induction false} RepackFinalStages(table: seq<Entry>, artifacts: map<nat, seq<uint8>>, files: map<string, seq<uint8>>)
    requires forall s :: 0 <= s < SystemSectors ==> s in artifacts
    requires AllAccepted(table, files)
    requires forall s :: BattleFirstSector <= s < BattleSectorEnd ==> s in artifacts
    ensures var a := Allocate(table, files).value;
            var merged := Merge(ReadSectors(artifacts, 0, SystemSectors).value, a.entries, a.fileSectors,
                                ReadSectors(artifacts, BattleFirstSector, BattleSectorEnd).value);
            var off := PointerOffset(a.battleSector);
            && (Repack(table, artifacts, files).Ok? <==> off + 2 <= |merged| <= ImageSize)
            && (|merged| < off + 2 ==> Repack(table, artifacts, files) == Err(PointerOutOfRange(off, |merged|)))
            && (off + 2 <= |merged| && ImageSize < |merged| ==>
                  Repack(table, artifacts, files) == Err(ImageTooLarge(|merged|)))
  {
  }

  /** The inputs as unpacking a 720 KB disk leaves them: a table of 2880
      entries that each encode to one record, and the system and battle
      sectors present as whole sectors. */
  predicate DumpShaped(table: seq<Entry>, artifacts: map<nat, seq<uint8>>) {
    && |table| == DirectoryEntries
    && FitsRecords(table)
    && (forall s :: 0 <= s < SystemSectors ==> s in artifacts && |artifacts[s]| == SectorSize)
    && (forall s :: BattleFirstSector <= s < BattleSectorEnd ==> s in artifacts && |artifacts[s]| == SectorSize)
  }

  /** Placing an entry does not change the length of its record. */
  lemma {:induction false} PlacedFits(table: seq<Entry>, files: map<string, seq<uint8>>)
    requires AllAccepted(table, files) && FitsRecords(table)
    ensures Allocate(table, files).Ok?
    ensures FitsRecords(Allocate(table, files).value.entries)
  {
    AllocatedEntries(table, files);
    var entries := Allocate(table, files).value.entries;
    forall k | 0 <= k < |entries|
      ensures |Encode(entries[k])| == RdSize
    {
      assert entries[k] == PlacedAt(table[k], files, Wrap16(SectorFileStart + Before(table, files, k)));
    }
  }

  /** The system sectors read from artifacts shaped like a dump. */
  lemma {:induction false} SystemShape(artifacts: map<nat, seq<uint8>>)
    requires forall s :: 0 <= s < SystemSectors ==> s in artifacts && |artifacts[s]| == SectorSize
    ensures ReadSectors(artifacts, 0, SystemSectors).Ok?
    ensures var system := ReadSectors(artifacts, 0, SystemSectors).value;
            |system| == SystemSectors && FullSectors(system)
  {
  }

  /** The battle sectors read from artifacts shaped like a dump. */
  lemma {:induction false} BattleShape(artifacts: map<nat, seq<uint8>>)
    requires forall s :: BattleFirstSector <= s < BattleSectorEnd ==> s in artifacts && |artifacts[s]| == SectorSize
    ensures ReadSectors(artifacts, BattleFirstSector, BattleSectorEnd).Ok?
    ensures var battle := ReadSectors(artifacts, BattleFirstSector, BattleSectorEnd).value;
            |battle| == BattleSectorEnd - BattleFirstSector && FullSectors(battle)
  {
    var battle := ReadSectors(artifacts, BattleFirstSector, BattleSectorEnd).value;
    forall i | 0 <= i < |battle|
      ensures |battle[i]| == SectorSize
    {
      assert battle[i] == artifacts[BattleFirstSector + i];
    }
  }

  /** What a successful repacking of dump-shaped inputs is made of, in terms
      of its allocation `a` and its image: whole system and battle sectors,
      one record per directory entry, the cursor right after the file
      sectors, the battle sector 0 or in the file area, and the image the
      merged data with the pointer written into it, padded with 0xFF. */
  predicate Assembled(artifacts: map<nat, seq<uint8>>, a: Allocation, image: seq<uint8>) {
    var system := ReadSectors(artifacts, 0, SystemSectors);
    var battle := ReadSectors(artifacts, BattleFirstSector, BattleSectorEnd);
    && (forall s :: 0 <= s < SystemSectors ==> s in artifacts && |artifacts[s]| == SectorSize)
    && (forall s :: BattleFirstSector <= s < BattleSectorEnd ==> s in artifacts && |artifacts[s]| == SectorSize)
    && system.Ok? && |system.value| == SystemSectors && FullSectors(system.value)
    && battle.Ok? && |battle.value| == BattleSectorEnd - BattleFirstSector && FullSectors(battle.value)
    && |a.entries| == DirectoryEntries && FitsRecords(a.entries) && FullSectors(a.fileSectors)
    && a.cursor == SectorFileStart + |a.fileSectors|
    && (a.battleSector == 0 || SectorFileStart <= a.battleSector <= a.cursor)
    && var merged := Merge(system.value, a.entries, a.fileSectors, battle.value);
       var off := PointerOffset(a.battleSector);
       && off + 2 <= |merged| <= |image| == ImageSize
       && |merged| == SectorSize * (a.cursor + (BattleSectorEnd - BattleFirstSector))
       && FromLe16(image[off], image[off + 1]) == a.cursor
       && (forall i :: 0 <= i < |merged| && (i < off || off + 2 <= i) ==> image[i] == merged[i])
       && (forall i :: |merged| <= i < |image| ==> image[i] == PadByte)
  }

  /** A successful repacking of dump-shaped inputs: every entry was
      accepted; the files take at most 1095 sectors, so no sector number
      wraps and the directory, files and battle sectors fit the image; the
      cursor is the sector after the last file; and the image is assembled
      from the allocation. */
  lemma {:induction false} RepackedShape(table: seq<Entry>, artifacts: map<nat, seq<uint8>>,
                                         files: map<string, seq<uint8>>, image: seq<uint8>, a: Allocation)
    requires Repack(table, artifacts, files) == Ok(image) && DumpShaped(table, artifacts)
    requires Allocate(table, files) == Ok(a)
    ensures AllAccepted(table, files)
    ensures SectorFileStart + Total(table, files) + (BattleSectorEnd - BattleFirstSector) <= ImageSize / SectorSize
    ensures a.cursor == SectorFileStart + Total(table, files) && |a.fileSectors| == Total(table, files)
    ensures Assembled(artifacts, a, image)
  {
    RepackParts(table, artifacts, files, image, a);
    SystemShape(artifacts);
    BattleShape(artifacts);
    AllocatedSectors(table, files);
    PlacedFits(table, files);
    var system := ReadSectors(artifacts, 0, SystemSectors).value;
    var battle := ReadSectors(artifacts, BattleFirstSector, BattleSectorEnd).value;
    MergedLayout(system, a.entries, a.fileSectors, battle);
    var total := Total(table, files);
    var m := Merge(system, a.entries, a.fileSectors, battle);
    assert |m| == SectorSize * (SectorFileStart + total + (BattleSectorEnd - BattleFirstSector));
    assert total < 0x1_0000 - SectorFileStart;
    AllocatedCursor(table, files);
    Wrap16Small(SectorFileStart + total);
    BattleSectorInFileArea(table, files);
  }

  /** Record `k` of a repacked image's directory is the encoding of entry `k`
      as rewritten: the pointer never lands in the directory. */
  lemma {:induction false} RepackedRecord(table: seq<Entry>, artifacts: map<nat, seq<uint8>>,
                                          files: map<string, seq<uint8>>, image: seq<uint8>, a: Allocation, k: nat)
    requires Repack(table, artifacts, files) == Ok(image) && DumpShaped(table, artifacts)
    requires Allocate(table, files) == Ok(a)
    requires k < DirectoryEntries
    ensures k < |a.entries| && DirectoryOffset + RdSize * k + RdSize <= |image|
    ensures image[DirectoryOffset + RdSize * k .. DirectoryOffset + RdSize * k + RdSize] == Encode(a.entries[k])
  {
    RepackedShape(table, artifacts, files, image, a);
    AssembledRecord(artifacts, a, image, k);
  }

  /** Record `k` of assembled data, as `RepackedRecord`. */
  lemma {:induction false} AssembledRecord(artifacts: map<nat, seq<uint8>>, a: Allocation, image: seq<uint8>, k: nat)
    requires Assembled(artifacts, a, image) && k < DirectoryEntries
    ensures DirectoryOffset + RdSize * k + RdSize <= |image|
    ensures image[DirectoryOffset + RdSize * k .. DirectoryOffset + RdSize * k + RdSize] == Encode(a.entries[k])
  {
    var system := ReadSectors(artifacts, 0, SystemSectors).value;
    var battle := ReadSectors(artifacts, BattleFirstSector, BattleSectorEnd).value;
    MergedRecord(system, a.entries, a.fileSectors, battle, k);
    PatchedRecord(image, Merge(system, a.entries, a.fileSectors, battle), a.battleSector, k);
  }

  /** The pointer of a battle sector that is 0 or in the file area misses
      the directory, so the records of the merged data reach the image. */
  lemma {:induction false} PatchedRecord(image: seq<uint8>, merged: seq<uint8>, battleSector: uint16, k: nat)
    requires |merged| <= |image|
    requires battleSector == 0 || SectorFileStart <= battleSector
    requires var off := PointerOffset(battleSector);
             forall i :: 0 <= i < |merged| && (i < off || off + 2 <= i) ==> image[i] == merged[i]
    requires k < DirectoryEntries && DirectoryOffset + RdSize * k + RdSize <= |merged|
    ensures image[DirectoryOffset + RdSize * k .. DirectoryOffset + RdSize * k + RdSize]
              == merged[DirectoryOffset + RdSize * k .. DirectoryOffset + RdSize * k + RdSize]
  {
    var off := PointerOffset(battleSector);
    var lo := DirectoryOffset + RdSize * k;
    assert lo + RdSize <= off || off + 2 <= lo;
    Unpatched(image, merged, off, lo, RdSize);
  }

  /** Record `k` of the merged data's directory is the encoding of entry `k`. */
  lemma {:induction false} MergedRecord(system: seq<seq<uint8>>, entries: seq<Entry>, fileSectors: seq<seq<uint8>>,
                                        battle: seq<seq<uint8>>, k: nat)
    requires |system| == SystemSectors && FullSectors(system)
    requires FitsRecords(entries) && k < |entries|
    requires FullSectors(fileSectors) && FullSectors(battle)
    ensures DirectoryOffset + RdSize * k + RdSize <= |Merge(system, entries, fileSectors, battle)|
    ensures var lo := DirectoryOffset + RdSize * k;
            Merge(system, entries, fileSectors, battle)[lo .. lo + RdSize] == Encode(entries[k])
  {
    MergedLayout(system, entries, fileSectors, battle);
    RecordsWidth(entries);
    ConcatBlock(Records(entries), RdSize, k);
    var m := Merge(system, entries, fileSectors, battle);
    var dir := Concat(Records(entries));
    var end := DirectoryOffset + RdSize * |entries|;
    var lo := DirectoryOffset + RdSize * k;
    assert RdSize * k + RdSize <= RdSize * |entries| == end - DirectoryOffset;
    assert DirectoryOffset <= end <= |m|;
    SliceOfSlice(m, DirectoryOffset, end, RdSize * k, RdSize * k + RdSize);
    assert m[DirectoryOffset..end] == dir;
    assert dir[RdSize * k .. RdSize * k + RdSize] == Records(entries)[k];
  }

  /** Bytes the pointer does not cover are the merged data's. */
  lemma {:induction false} Unpatched(image: seq<uint8>, merged: seq<uint8>, off: nat, lo: nat, n: nat)
    requires |merged| <= |image| && lo + n <= |merged|
    requires forall i :: 0 <= i < |merged| && (i < off || off + 2 <= i) ==> image[i] == merged[i]
    requires lo + n <= off || off + 2 <= lo
    ensures image[lo .. lo + n] == merged[lo .. lo + n]
  {
    forall i | lo <= i < lo + n
      ensures image[i] == merged[i]
    {
    }
    assert image[lo .. lo + n] == merged[lo .. lo + n];
  }

  /** Byte `q` of the file sectors is byte `q` of the file area of the
      merged data, which starts at sector 0x64. */
  lemma {:induction false} MergedFileByte(system: seq<seq<uint8>>, entries: seq<Entry>, fileSectors: seq<seq<uint8>>,
                                          battle: seq<seq<uint8>>, q: nat)
    requires |system| == SystemSectors && FullSectors(system)
    requires |entries| == DirectoryEntries && FitsRecords(entries)
    requires FullSectors(fileSectors) && FullSectors(battle)
    requires q < SectorSize * |fileSectors|
    ensures |Concat(fileSectors)| == SectorSize * |fileSectors|
    ensures FileAreaOffset + q < |Merge(system, entries, fileSectors, battle)|
    ensures Merge(system, entries, fileSectors, battle)[FileAreaOffset + q] == Concat(fileSectors)[q]
  {
    MergedLayout(system, entries, fileSectors, battle);
    ConcatLength(fileSectors, SectorSize);
    var m := Merge(system, entries, fileSectors, battle);
    var f := FileAreaOffset + SectorSize * |fileSectors|;
    assert m[FileAreaOffset + q] == m[FileAreaOffset..f][q];
  }

  /** Byte `q` of the file sectors of assembled data lies at byte `q` of the
      file area of the image, unless the pointer overwrote it. */
  lemma {:induction false} AssembledFileByte(artifacts: map<nat, seq<uint8>>, a: Allocation, image: seq<uint8>, q: nat)
    requires Assembled(artifacts, a, image) && q < SectorSize * |a.fileSectors|
    ensures |Concat(a.fileSectors)| == SectorSize * |a.fileSectors|
    ensures FileAreaOffset + q < |image|
    ensures var off := PointerOffset(a.battleSector);
            FileAreaOffset + q < off || off + 2 <= FileAreaOffset + q ==>
              image[FileAreaOffset + q] == Concat(a.fileSectors)[q]
  {
    var system := ReadSectors(artifacts, 0, SystemSectors).value;
    var battle := ReadSectors(artifacts, BattleFirstSector, BattleSectorEnd).value;
    MergedFileByte(system, a.entries, a.fileSectors, battle, q);
  }

  /** Byte `j` of the host file of entry `k` is byte `512 * before + j` of
      the file sectors of its allocation `a`, where `before` counts the
      sectors of the entries before it. */
  lemma {:induction false} AllocatedFileByte(table: seq<Entry>, files: map<string, seq<uint8>>, a: Allocation, k: nat, j: nat)
    requires AllAccepted(table, files) && Allocate(table, files) == Ok(a)
    requires k < |table| && j < |Contents(table[k], files)|
    ensures SectorSize * Before(table, files, k) + j < SectorSize * |a.fileSectors| == |Concat(a.fileSectors)|
    ensures Concat(a.fileSectors)[SectorSize * Before(table, files, k) + j] == Contents(table[k], files)[j]
  {
    AllocatedSectors(table, files);
    FileDataWindow(table, files, k);
    FileDataLength(table, files);
    ConcatLength(a.fileSectors, SectorSize);
    var lo := SectorSize * Before(table, files, k);
    var c := Contents(table[k], files);
    assert FileData(table, files)[lo .. lo + |c|][j] == FileData(table, files)[lo + j];
  }

  /** Byte `j` of the host file of entry `k` lies in a repacked image at
      byte `j` of the start sector written into the entry, unless the pointer
      overwrote it. */
  lemma {:induction false} RepackedFileByte(table: seq<Entry>, artifacts: map<nat, seq<uint8>>,
                                            files: map<string, seq<uint8>>, image: seq<uint8>, a: Allocation,
                                            k: nat, j: nat)
    requires Repack(table, artifacts, files) == Ok(image) && DumpShaped(table, artifacts)
    requires Allocate(table, files) == Ok(a)
    requires k < |table| && table[k].Populated?
    requires AllAccepted(table, files) && j < |Contents(table[k], files)|
    ensures a.entries[k].Populated?
    ensures var p := SectorSize * a.entries[k].startSector + j;
            var off := PointerOffset(a.battleSector);
            && p < |image|
            && (p < off || off + 2 <= p ==> image[p] == files[table[k].File()][j])
  {
    RepackedShape(table, artifacts, files, image, a);
    AssembledHostByte(table, files, artifacts, a, image, k, j);
  }

  /** Byte `j` of the host file of entry `k` in assembled data whose file
      area ends below sector 0x10000, as `RepackedFileByte`. */
  lemma {:induction false} AssembledHostByte(table: seq<Entry>, files: map<string, seq<uint8>>,
                                             artifacts: map<nat, seq<uint8>>, a: Allocation, image: seq<uint8>,
                                             k: nat, j: nat)
    requires Allocate(table, files) == Ok(a) && Assembled(artifacts, a, image)
    requires SectorFileStart + Total(table, files) < 0x1_0000
    requires k < |table| && table[k].Populated? && j < |Contents(table[k], files)|
    ensures a.entries[k].Populated?
    ensures var p := SectorSize * a.entries[k].startSector + j;
            var off := PointerOffset(a.battleSector);
            && p < |image|
            && (p < off || off + 2 <= p ==> image[p] == files[table[k].File()][j])
  {
    PlacedWithoutWrap(table, files, a, k);
    AllocatedFileByte(table, files, a, k, j);
    var q := SectorSize * Before(table, files, k) + j;
    AssembledFileByte(artifacts, a, image, q);
    assert SectorSize * a.entries[k].startSector + j == FileAreaOffset + q;
  }

  /** Byte `j` of battle sector `0x44C + i` lies in a repacked image at byte
      `j` of sector `cursor + i`, unless the pointer overwrote it. */
  lemma {:induction false} RepackedBattleByte(table: seq<Entry>, artifacts: map<nat, seq<uint8>>,
                                              files: map<string, seq<uint8>>, image: seq<uint8>, a: Allocation,
                                              i: nat, j: nat)
    requires Repack(table, artifacts, files) == Ok(image) && DumpShaped(table, artifacts)
    requires Allocate(table, files) == Ok(a)
    requires i < BattleSectorEnd - BattleFirstSector && j < SectorSize
    ensures var p := SectorSize * (a.cursor + i) + j;
            var off := PointerOffset(a.battleSector);
            && p < |image|
            && (p < off || off + 2 <= p ==> image[p] == artifacts[BattleFirstSector + i][j])
  {
    RepackedShape(table, artifacts, files, image, a);
    AssembledBattleByte(artifacts, a, image, i, j);
  }

  /** Byte `j` of battle sector `i` of assembled data, as `RepackedBattleByte`. */
  lemma {:induction false} AssembledBattleByte(artifacts: map<nat, seq<uint8>>, a: Allocation, image: seq<uint8>,
                                               i: nat, j: nat)
    requires Assembled(artifacts, a, image)
    requires i < BattleSectorEnd - BattleFirstSector && j < SectorSize
    ensures var p := SectorSize * (a.cursor + i) + j;
            var off := PointerOffset(a.battleSector);
            && p < |image|
            && (p < off || off + 2 <= p ==> image[p] == artifacts[BattleFirstSector + i][j])
  {
    var system := ReadSectors(artifacts, 0, SystemSectors).value;
    var battle := ReadSectors(artifacts, BattleFirstSector, BattleSectorEnd).value;
    var merged := Merge(system, a.entries, a.fileSectors, battle);
    var p := SectorSize * (a.cursor + i) + j;
    var off := PointerOffset(a.battleSector);
    MergedBattleByte(system, a.entries, a.fileSectors, battle, a.cursor, i, j);
    assert battle[i] == artifacts[BattleFirstSector + i];
    if p < off || off + 2 <= p {
      assert image[p] == merged[p];
    }
  }

  /** Byte `j` of battle sector `i` lies in the merged data right after the
      file sectors. */
  lemma {:induction false} MergedBattleByte(system: seq<seq<uint8>>, entries: seq<Entry>, fileSectors: seq<seq<uint8>>,
                                            battle: seq<seq<uint8>>, cursor: nat, i: nat, j: nat)
    requires |system| == SystemSectors && FullSectors(system)
    requires FitsRecords(entries) && |entries| == DirectoryEntries
    requires FullSectors(fileSectors) && FullSectors(battle)
    requires cursor == SectorFileStart + |fileSectors|
    requires i < |battle| && j < SectorSize
    ensures var p := SectorSize * (cursor + i) + j;
            p < |Merge(system, entries, fileSectors, battle)|
            && Merge(system, entries, fileSectors, battle)[p] == battle[i][j]
  {
    var merged := Merge(system, entries, fileSectors, battle);
    MergedLayout(system, entries, fileSectors, battle);
    var f := DirectoryOffset + RdSize * |entries| + SectorSize * |fileSectors|;
    assert f == SectorSize * cursor;
    ConcatIndex(battle, SectorSize, i, j);
    var p := SectorSize * (cursor + i) + j;
    assert p == f + (SectorSize * i + j);
    assert merged[p] == merged[f..][SectorSize * i + j];
  }

  /** Byte `j` of system sector `s` is byte `j` of sector `s` of a repacked
      image, unless the pointer overwrote it. */
  lemma {:induction false} RepackedSystemByte(table: seq<Entry>, artifacts: map<nat, seq<uint8>>,
                                              files: map<string, seq<uint8>>, image: seq<uint8>, a: Allocation,
                                              s: nat, j: nat)
    requires Repack(table, artifacts, files) == Ok(image) && DumpShaped(table, artifacts)
    requires Allocate(table, files) == Ok(a)
    requires s < SystemSectors && j < SectorSize
    ensures SectorSize * s + j < |image|
    ensures var off := PointerOffset(a.battleSector);
            var p := SectorSize * s + j;
            p < off || off + 2 <= p ==> image[p] == artifacts[s][j]
  {
    RepackedShape(table, artifacts, files, image, a);
    AssembledSystemByte(artifacts, a, image, s, j);
  }

  /** Byte `j` of system sector `s` of assembled data, as `RepackedSystemByte`. */
  lemma {:induction false} AssembledSystemByte(artifacts: map<nat, seq<uint8>>, a: Allocation, image: seq<uint8>,
                                               s: nat, j: nat)
    requires Assembled(artifacts, a, image)
    requires s < SystemSectors && j < SectorSize
    ensures SectorSize * s + j < |image|
    ensures var off := PointerOffset(a.battleSector);
            var p := SectorSize * s + j;
            p < off || off + 2 <= p ==> image[p] == artifacts[s][j]
  {
    var system := ReadSectors(artifacts, 0, SystemSectors).value;
    var battle := ReadSectors(artifacts, BattleFirstSector, BattleSectorEnd).value;
    MergedSystemByte(system, a.entries, a.fileSectors, battle, s, j);
    assert system[s] == artifacts[s];
  }

  /** Byte `j` of system sector `s` is byte `j` of sector `s` of the merged
      data. */
  lemma {:induction false} MergedSystemByte(system: seq<seq<uint8>>, entries: seq<Entry>, fileSectors: seq<seq<uint8>>,
                                            battle: seq<seq<uint8>>, s: nat, j: nat)
    requires |system| == SystemSectors && FullSectors(system)
    requires FitsRecords(entries)
    requires FullSectors(fileSectors) && FullSectors(battle)
    requires s < SystemSectors && j < SectorSize
    ensures SectorSize * s + j < |Merge(system, entries, fileSectors, battle)|
    ensures Merge(system, entries, fileSectors, battle)[SectorSize * s + j] == system[s][j]
  {
    var merged := Merge(system, entries, fileSectors, battle);
    MergedLayout(system, entries, fileSectors, battle);
    ConcatIndex(system, SectorSize, s, j);
    var p := SectorSize * s + j;
    assert merged[p] == merged[..DirectoryOffset][p];
  }

  /** Everything after the battle sectors is 0xFF. */
  lemma {:induction false} RepackedPadding(table: seq<Entry>, artifacts: map<nat, seq<uint8>>,
                                           files: map<string, seq<uint8>>, image: seq<uint8>, a: Allocation, i: nat)
    requires Repack(table, artifacts, files) == Ok(image) && DumpShaped(table, artifacts)
    requires Allocate(table, files) == Ok(a)
    requires SectorSize * (a.cursor + (BattleSectorEnd - BattleFirstSector)) <= i < |image|
    ensures image[i] == PadByte
  {
    RepackedShape(table, artifacts, files, image, a);
  }

  /** The pointer a repacked image holds is the sector its battle sectors
      start at, right after the last file. */
  lemma {:induction false} RepackedPointer(table: seq<Entry>, artifacts: map<nat, seq<uint8>>,
                                           files: map<string, seq<uint8>>, image: seq<uint8>, a: Allocation)
    requires Repack(table, artifacts, files) == Ok(image) && DumpShaped(table, artifacts)
    requires Allocate(table, files) == Ok(a)
    ensures AllAccepted(table, files)
    ensures var off := PointerOffset(a.battleSector);
            && off + 2 <= |image|
            && FromLe16(image[off], image[off + 1]) == a.cursor == SectorFileStart + Total(table, files)
  {
    RepackedShape(table, artifacts, files, image, a);
  }

  /** Unpacking a repacked image reads back, as entry `k` of its directory,
      the rewritten entry `k` after an encode and a decode. */
  lemma {:induction false} RepackedDirectory(table: seq<Entry>, artifacts: map<nat, seq<uint8>>,
                                             files: map<string, seq<uint8>>, image: seq<uint8>, a: Allocation, k: nat)
    requires Repack(table, artifacts, files) == Ok(image) && DumpShaped(table, artifacts)
    requires Allocate(table, files) == Ok(a)
    requires k < DirectoryEntries
    ensures Unpack.Unpack(image).Ok?
    ensures k < |a.entries| && |Encode(a.entries[k])| == RdSize
    ensures Unpack.Unpack(image).value.table[k] == Decode(Encode(a.entries[k]))
  {
    RepackedRecord(table, artifacts, files, image, a, k);
    TableOfFullImage(image, k);
  }

  /** A full-size image unpacks, and entry `k` of its table is its record `k`
      decoded. */
  lemma {:induction false} TableOfFullImage(image: seq<uint8>, k: nat)
    requires |image| == ImageSize && k < DirectoryEntries
    ensures Unpack.Unpack(image).Ok?
    ensures Unpack.Unpack(image).value.table[k]
              == Decode(image[DirectoryOffset + RdSize * k .. DirectoryOffset + RdSize * k + RdSize])
  {
    ImageGeometry();
    UnpackedTable(image);
  }

  /** A file entry whose name is an ASCII token of at most eight characters
      and whose extension is a four-character ASCII token reads back from a
      repacked image with its name, extension and new sectors, unless its
      record happens to be sixteen equal bytes. */
  lemma {:induction false} RepackedEntry(table: seq<Entry>, artifacts: map<nat, seq<uint8>>,
                                         files: map<string, seq<uint8>>, image: seq<uint8>, a: Allocation, k: nat)
    requires Repack(table, artifacts, files) == Ok(image) && DumpShaped(table, artifacts)
    requires Allocate(table, files) == Ok(a)
    requires k < DirectoryEntries && table[k].Populated?
    requires IsToken(table[k].fileName) && AllAscii(table[k].fileName) && |table[k].fileName| <= NameWidth
    requires IsToken(table[k].fileExt) && AllAscii(table[k].fileExt) && |table[k].fileExt| == ExtFieldWidth
    ensures Unpack.Unpack(image).Ok?
    ensures var e := a.entries[k];
            var read := Unpack.Unpack(image).value.table[k];
            && e.Populated? && e.fileName == table[k].fileName && e.fileExt == table[k].fileExt
            && e.startSector == SectorFileStart + Before(table, files, k)
            && (read == e || (Uniform(Encode(e)) && read == Empty(Encode(e)[0])))
  {
    RepackedShape(table, artifacts, files, image, a);
    PlacedWithoutWrap(table, files, a, k);
    RepackedDirectory(table, artifacts, files, image, a, k);
    EncodeDecodeRoundTrip(a.entries[k]);
  }

  /** On a full-size image, an entry that reads back with `n` sectors from
      `start`, inside the disk, unpacks as exactly those sectors: byte `j` of
      its file is byte `j` of sector `start`. */
  lemma {:induction false} UnpackedWindow(image: seq<uint8>, d: Dump, k: nat, start: nat, n: nat, j: nat)
    requires Unpack.Unpack(image) == Ok(d) && |image| == ImageSize
    requires k < |d.table| && LastWithName(d.table, k)
    requires d.table[k].startSector == start && d.table[k].SizeInSectors() == n
    requires start + n <= ImageSize / SectorSize && j < SectorSize * n
    ensures d.table[k].File() in d.files
    ensures |d.files[d.table[k].File()]| == SectorSize * n
    ensures SectorSize * start + j < |image|
    ensures d.files[d.table[k].File()][j] == image[SectorSize * start + j]
  {
    UnpackedFiles(image, d, k);
    assert Min(start, |image| / SectorSize) == start && Min(start + n, |image| / SectorSize) == start + n;
    assert SectorSize * (start + n) == SectorSize * start + SectorSize * n;
  }

  /** When the whole allocation fits on the disk, an entry with fewer than
      256 sectors keeps its name and reads back its exact sector count, inside
      the disk. */
  lemma {:induction false} PlacedSmall(table: seq<Entry>, files: map<string, seq<uint8>>, a: Allocation, k: nat)
    requires AllAccepted(table, files) && Allocate(table, files) == Ok(a)
    requires SectorFileStart + Total(table, files) <= ImageSize / SectorSize
    requires k < |table| && table[k].Populated? && SectorCount(table[k], files) < 0x100
    ensures a.entries[k].Populated? && a.entries[k].File() == table[k].File()
    ensures a.entries[k].SizeInSectors() == SectorCount(table[k], files)
    ensures a.entries[k].startSector + SectorCount(table[k], files) <= ImageSize / SectorSize
  {
    var n := SectorCount(table[k], files);
    TotalPrefix(table, files, k);
    PlacedWithoutWrap(table, files, a, k);
    Wrap8Small(n);
  }

  /** Writing and then dumping gives a host file back: when entry `k` reads
      back from the written image as it was rewritten, is the last entry of
      its name, and has fewer than 256 sectors, the file unpacking cuts out
      for it is the host file, except for the two pointer bytes if they fall
      inside it. */
  lemma {:induction false} WriteThenDumpFile(table: seq<Entry>, artifacts: map<nat, seq<uint8>>,
                                             files: map<string, seq<uint8>>, image: seq<uint8>, a: Allocation,
                                             d: Dump, k: nat, j: nat)
    requires Repack(table, artifacts, files) == Ok(image) && DumpShaped(table, artifacts)
    requires Allocate(table, files) == Ok(a)
    requires Unpack.Unpack(image) == Ok(d)
    requires AllAccepted(table, files)
    requires k < DirectoryEntries && table[k].Populated? && SectorCount(table[k], files) < 0x100
    requires d.table[k] == a.entries[k] && LastWithName(d.table, k)
    requires j < |files[table[k].File()]|
    ensures table[k].File() in d.files && |d.files[table[k].File()]| == |files[table[k].File()]|
    ensures var p := SectorSize * a.entries[k].startSector + j;
            var off := PointerOffset(a.battleSector);
            p < off || off + 2 <= p ==> d.files[table[k].File()][j] == files[table[k].File()][j]
  {
    RepackedShape(table, artifacts, files, image, a);
    DumpedHostByte(table, files, artifacts, a, image, d, k, j);
  }

  /** The host file byte of `WriteThenDumpFile`, for assembled data whose
      files fit the image. */
  lemma {:induction false} DumpedHostByte(table: seq<Entry>, files: map<string, seq<uint8>>,
                                          artifacts: map<nat, seq<uint8>>, a: Allocation, image: seq<uint8>,
                                          d: Dump, k: nat, j: nat)
    requires Allocate(table, files) == Ok(a) && Assembled(artifacts, a, image)
    requires SectorFileStart + Total(table, files) + (BattleSectorEnd - BattleFirstSector) <= ImageSize / SectorSize
    requires Unpack.Unpack(image) == Ok(d)
    requires k < DirectoryEntries && table[k].Populated? && SectorCount(table[k], files) < 0x100
    requires |table| == DirectoryEntries && d.table[k] == a.entries[k] && LastWithName(d.table, k)
    requires j < |files[table[k].File()]|
    ensures table[k].File() in d.files && |d.files[table[k].File()]| == |files[table[k].File()]|
    ensures var p := SectorSize * a.entries[k].startSector + j;
            var off := PointerOffset(a.battleSector);
            p < off || off + 2 <= p ==> d.files[table[k].File()][j] == files[table[k].File()][j]
  {
    ImageGeometry();
    PlacedSmall(table, files, a, k);
    ContentsFillSectors(table[k], files);
    UnpackedWindow(image, d, k, a.entries[k].startSector, SectorCount(table[k], files), j);
    AssembledHostByte(table, files, artifacts, a, image, k, j);
  }

  /** The sector artifacts a dump writes are what writing reads back: any
      range of them reads as the same range of the dumped sectors. */
  lemma {:induction false} DumpedSectorsRead(sectors: seq<seq<uint8>>, lo: nat, hi: nat)
    requires lo <= hi <= |sectors|
    ensures ReadSectors(SectorArtifacts(sectors), lo, hi) == Ok(sectors[lo..hi])
  {
    var r := ReadSectors(SectorArtifacts(sectors), lo, hi);
    assert r.Ok?;
    forall i | 0 <= i < hi - lo
      ensures r.value[i] == sectors[lo..hi][i]
    {
      assert r.value[i] == SectorArtifacts(sectors)[lo + i];
    }
    assert r.value == sectors[lo..hi];
  }

  /** The sectors a dump leaves behind feed the write: the ten system sectors
      always, the battle sectors whenever the image reaches them. */
  lemma {:induction false} DumpedArtifacts(image: seq<uint8>, d: Dump)
    requires Unpack.Unpack(image) == Ok(d)
    ensures ReadSectors(SectorArtifacts(d.sectors), 0, SystemSectors) == Ok(d.sectors[..SystemSectors])
    ensures BattleSectorEnd <= |d.sectors| ==>
              ReadSectors(SectorArtifacts(d.sectors), BattleFirstSector, BattleSectorEnd)
                == Ok(d.sectors[BattleFirstSector..BattleSectorEnd])
  {
    assert SystemSectors <= |d.sectors|;
    DumpedSectorsRead(d.sectors, 0, SystemSectors);
    if BattleSectorEnd <= |d.sectors| {
      DumpedSectorsRead(d.sectors, BattleFirstSector, BattleSectorEnd);
    }
  }

  /** A dump of a 720 KB image is dump-shaped exactly when every entry of the
      dumped table encodes back to one 16-byte record. */
  lemma {:induction false} DumpedShape(image: seq<uint8>, d: Dump)
    requires Unpack.Unpack(image) == Ok(d) && |image| == ImageSize
    ensures DumpShaped(d.table, SectorArtifacts(d.sectors)) <==> FitsRecords(d.table)
  {
    ImageGeometry();
    var artifacts := SectorArtifacts(d.sectors);
    assert BattleSectorEnd <= |d.sectors|;
    forall s | 0 <= s < |d.sectors|
      ensures s in artifacts && |artifacts[s]| == SectorSize
    {
      assert artifacts[s] == d.sectors[s];
    }
  }

  /** Dumping an image and writing it back does not reproduce the image when
      the original holds anything but 0xFF past the sector where the moved
      battle sectors end: the write fills that region with 0xFF. */
  lemma {:induction false} DumpThenWriteLosesTail(original: seq<uint8>, d: Dump, files: map<string, seq<uint8>>,
                                                  image: seq<uint8>, a: Allocation, i: nat)
    requires Unpack.Unpack(original) == Ok(d)
    requires Repack(d.table, SectorArtifacts(d.sectors), files) == Ok(image)
    requires DumpShaped(d.table, SectorArtifacts(d.sectors))
    requires Allocate(d.table, files) == Ok(a)
    requires SectorSize * (a.cursor + (BattleSectorEnd - BattleFirstSector)) <= i < |original|
    requires original[i] != PadByte
    ensures image != original
    ensures i < |image| ==> image[i] == PadByte
  {
    RepackedShape(d.table, SectorArtifacts(d.sectors), files, image, a);
    if i < |image| {
      RepackedPadding(d.table, SectorArtifacts(d.sectors), files, image, a, i);
    }
  }
}
