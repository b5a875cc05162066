/** The unpacking pipeline ("Dump"): an image is split into sectors, the root
    directory is read from sectors 10 to 99, and every file the directory names
    is cut out of the sectors. What is written to the host is returned instead:
    the numbered sector artifacts, the directory table, and the file artifacts
    by host name. */
module Unpack {
  import opened Bytes
  import opened Outcome
  import opened Sectors
  import opened RootDirectory

  /** First sector of the root directory. */
  const DirectoryFirstSector: nat := 10
  /** Records in one directory sector. */
  const EntriesPerSector: nat := 32
  /** Records in the whole directory. */
  const DirectoryEntries: nat := 2880
  /** Byte offset of the directory in the image. */
  const DirectoryOffset: nat := 0x1400
  /** Byte offset of the file area in the image, the end of the directory. */
  const FileAreaOffset: nat := 0xC800

  /** Everything unpacking produces. */
  datatype Dump = Dump(sectors: seq<seq<uint8>>, table: seq<Entry>, files: map<string, seq<uint8>>)

  /** The records of one sector in order, as many whole records as it holds. */
  function SectorRecords(sector: seq<uint8>): seq<Entry> {
    seq(|sector| / RdSize,
        j requires 0 <= j < |sector| / RdSize => Decode(sector[RdSize * j .. RdSize * j + RdSize]))
  }

  /** The records of directory sectors `s` up to 99, sector by sector.
      Here and in the lemmas about the scan, 16 (`RdSize`), 32
      (`EntriesPerSector`) and 100 (`SectorFileStart`) are written as numbers,
      which keeps their index arithmetic linear for the solver. */
  function ScanFrom(sectors: seq<seq<uint8>>, s: nat): (r: seq<Entry>)
    requires DirectoryFirstSector <= s <= 100 <= |sectors|
    ensures FullSectors(sectors) ==> |r| == 32 * (100 - s)
    decreases 100 - s
  {
    if s == 100 then [] else SectorRecords(sectors[s]) + ScanFrom(sectors, s + 1)
  }

  /** The record that entry `k` of a scan from sector `s` is read from. */
  function RecordAt(sectors: seq<seq<uint8>>, s: nat, k: nat): seq<uint8>
    requires FullSectors(sectors) && s + k / 32 < |sectors|
  {
    var j := k % 32;
    sectors[s + k / 32][16 * j .. 16 * j + 16]
  }

  /** Entry `k` of a scan from sector `s` is record `k % 32` of sector
      `s + k / 32`. */
  lemma {:induction false} ScanFromEntry(sectors: seq<seq<uint8>>, s: nat, k: nat)
    requires DirectoryFirstSector <= s <= 100 <= |sectors| && FullSectors(sectors)
    requires k < 32 * (100 - s)
    ensures s + k / 32 < 100
    ensures ScanFrom(sectors, s)[k] == Decode(RecordAt(sectors, s, k))
    decreases 100 - s
  {
    if k < 32 {
      ScanHead(sectors, s, k);
    } else {
      ScanFromEntry(sectors, s + 1, k - 32);
      ScanTail(sectors, s, k);
      RecordAtShift(sectors, s, k);
    }
  }

  /** The first 32 entries of a scan from sector `s` are the records of
      sector `s`. */
  lemma {:induction false} ScanHead(sectors: seq<seq<uint8>>, s: nat, k: nat)
    requires DirectoryFirstSector <= s < 100 <= |sectors| && FullSectors(sectors)
    requires k < 32
    ensures k / 32 == 0
    ensures ScanFrom(sectors, s)[k] == Decode(RecordAt(sectors, s, k))
  {
    assert |sectors[s]| == SectorSize;
    HeadRecord(sectors[s], k);
    assert ScanFrom(sectors, s)[k] == SectorRecords(sectors[s])[k];
    DivSmall(k);
  }

  /** Record `k` of a full sector is its `k`-th 16-byte window. */
  lemma {:induction false} HeadRecord(sector: seq<uint8>, k: nat)
    requires |sector| == SectorSize && k < 32
    ensures |SectorRecords(sector)| == 32
    ensures 16 * k + 16 <= |sector|
    ensures SectorRecords(sector)[k] == Decode(sector[16 * k .. 16 * k + 16])
  {
    assert |sector| / 16 == 32;
    assert 16 * k + 16 <= 16 * 32;
  }

  /** Past the first 32 entries, a scan from sector `s` continues with the
      scan from sector `s + 1`. */
  lemma {:induction false} ScanTail(sectors: seq<seq<uint8>>, s: nat, k: nat)
    requires DirectoryFirstSector <= s < 100 <= |sectors| && FullSectors(sectors)
    requires 32 <= k < |ScanFrom(sectors, s)|
    ensures k - 32 < |ScanFrom(sectors, s + 1)|
    ensures ScanFrom(sectors, s)[k] == ScanFrom(sectors, s + 1)[k - 32]
  {
    assert |sectors[s]| == SectorSize;
    HeadRecord(sectors[s], 0);
    assert ScanFrom(sectors, s) == SectorRecords(sectors[s]) + ScanFrom(sectors, s + 1);
  }

  /** Record `k` from sector `s` is record `k - 32` from sector `s + 1`. */
  lemma {:induction false} RecordAtShift(sectors: seq<seq<uint8>>, s: nat, k: nat)
    requires FullSectors(sectors) && 32 <= k && s + k / 32 < |sectors|
    ensures s + 1 + (k - 32) / 32 == s + k / 32
    ensures RecordAt(sectors, s + 1, k - 32) == RecordAt(sectors, s, k)
  {
    DivShift(k);
  }

  lemma {:induction false} DivSmall(k: nat)
    requires k < 32
    ensures k / 32 == 0 && k % 32 == k
  {
  }

  lemma {:induction false} DivShift(k: nat)
    requires k >= 32
    ensures (k - 32) / 32 == k / 32 - 1 && (k - 32) % 32 == k % 32
  {
  }

  /** The directory table: every record of sectors 10 to 99 in sector-major
      order. Reading a directory sector the image does not have fails. */
  function ScanDirectory(sectors: seq<seq<uint8>>): (r: Result<seq<Entry>>)
    ensures r.Ok? <==> |sectors| >= SectorFileStart
    ensures r.Err? ==> r.error == TooFewSectors(|sectors|)
    ensures r.Ok? && FullSectors(sectors) ==> |r.value| == DirectoryEntries
  {
    if |sectors| < SectorFileStart then Err(TooFewSectors(|sectors|))
    else Ok(ScanFrom(sectors, DirectoryFirstSector))
  }

  /** An image of at least 100 whole sectors has a directory table, the scan
      from sector 10. */
  lemma {:induction false} ScanOfImage(image: seq<uint8>)
    requires Split(image).Ok? && |image| >= FileAreaOffset
    ensures |Split(image).value| >= SectorFileStart
    ensures ScanDirectory(Split(image).value) == Ok(ScanFrom(Split(image).value, DirectoryFirstSector))
  {
    DivAtLeast(|image|, SectorSize, SectorFileStart);
  }

  /** The record entry `k` of the directory is read from lies at byte
      5120 + 16k of the image. */
  lemma {:induction false} RecordOfImage(image: seq<uint8>, k: nat)
    requires Split(image).Ok? && |image| >= FileAreaOffset
    requires k < DirectoryEntries
    ensures DirectoryFirstSector + k / EntriesPerSector < |Split(image).value|
    ensures RecordAt(Split(image).value, DirectoryFirstSector, k)
              == image[DirectoryOffset + RdSize * k .. DirectoryOffset + RdSize * k + RdSize]
  {
    var sectors := Split(image).value;
    DivAtLeast(|image|, SectorSize, SectorFileStart);
    var s := DirectoryFirstSector + k / EntriesPerSector;
    var j := k % EntriesPerSector;
    var at := SectorSize * s;
    assert at + RdSize * j == DirectoryOffset + RdSize * k by {
      assert k == 32 * (k / 32) + k % 32;
    }
    SectorOfImage(image, s);
    RecordOfSector(image, sectors[s], at, j);
    var lo := DirectoryOffset + RdSize * k;
    assert RecordAt(sectors, DirectoryFirstSector, k) == sectors[s][RdSize * j .. RdSize * j + RdSize];
    assert image[at + RdSize * j .. at + RdSize * j + RdSize] == image[lo .. lo + RdSize];
  }

  /** Entry `k` of the directory of a split image is decoded from the record
      at byte 5120 + 16k of the image. */
  lemma {:induction false} DirectoryEntryOfImage(image: seq<uint8>, k: nat)
    requires Split(image).Ok? && |image| >= FileAreaOffset
    requires k < DirectoryEntries
    ensures ScanDirectory(Split(image).value).Ok?
    ensures ScanDirectory(Split(image).value).value[k]
              == Decode(image[DirectoryOffset + RdSize * k .. DirectoryOffset + RdSize * k + RdSize])
  {
    var sectors := Split(image).value;
    ScanOfImage(image);
    ScanFromEntry(sectors, DirectoryFirstSector, k);
    RecordOfImage(image, k);
  }

  lemma {:induction false} RecordOfSector(image: seq<uint8>, sector: seq<uint8>, at: nat, j: nat)
    requires at + SectorSize <= |image| && sector == image[at .. at + SectorSize]
    requires j < EntriesPerSector
    ensures sector[RdSize * j .. RdSize * j + RdSize] == image[at + RdSize * j .. at + RdSize * j + RdSize]
  {
    SliceOfSlice(image, at, at + SectorSize, RdSize * j, RdSize * j + RdSize);
  }

  lemma {:induction false} DivAtLeast(n: nat, d: nat, m: nat)
    requires d > 0 && n >= m * d
    ensures n / d >= m
  {
    var q, r := n / d, n % d;
    assert n == d * q + r;
    if q < m {
      MulMono(d, q + 1, m);
      assert false;
    }
  }

  /** The directory of a split image is its 2880 records from byte 5120 on. */
  lemma {:induction false} DirectoryOfImage(image: seq<uint8>)
    requires Split(image).Ok? && |image| >= FileAreaOffset
    ensures ScanDirectory(Split(image).value).Ok?
    ensures var table := ScanDirectory(Split(image).value).value;
            && |table| == DirectoryEntries
            && forall k :: 0 <= k < DirectoryEntries ==>
                 table[k] == Decode(image[DirectoryOffset + RdSize * k .. DirectoryOffset + RdSize * k + RdSize])
  {
    forall k | 0 <= k < DirectoryEntries
      ensures ScanDirectory(Split(image).value).value[k]
                == Decode(image[DirectoryOffset + RdSize * k .. DirectoryOffset + RdSize * k + RdSize])
    {
      DirectoryEntryOfImage(image, k);
    }
  }

  /** The bytes of a file entry: its `SizeInSectors` sectors from its start
      sector, clipped to the sectors the image has. */
  function ExtractFile(sectors: seq<seq<uint8>>, e: Entry): seq<uint8>
    requires e.Populated?
  {
    Concat(Take(Skip(sectors, e.startSector), e.SizeInSectors()))
  }

  /** Sectors `start` to `start + count - 1` of an image, as one run of
      bytes, clipped to the whole sectors the image has. */
  function SectorWindow(image: seq<uint8>, start: nat, count: nat): seq<uint8> {
    var n := |image| / SectorSize;
    var first := Min(start, n);
    var last := Min(start + count, n);
    MulMono(SectorSize, first, last);
    MulMono(SectorSize, last, n);
    image[SectorSize * first .. SectorSize * last]
  }

  /** A file cut from a split image is the window of whole sectors from its
      start sector, for as many of its sectors as the image holds. */
  lemma {:induction false} ExtractedFromImage(image: seq<uint8>, e: Entry)
    requires Split(image).Ok? && e.Populated?
    ensures ExtractFile(Split(image).value, e) == SectorWindow(image, e.startSector, e.SizeInSectors())
    ensures |ExtractFile(Split(image).value, e)|
              == SectorSize * Min(e.SizeInSectors(), Max(0, |image| / SectorSize - e.startSector))
  {
    var sectors := Split(image).value;
    var n := |image| / SectorSize;
    var first := Min(e.startSector, n);
    var last := Min(e.startSector + e.SizeInSectors(), n);
    assert Take(Skip(sectors, e.startSector), e.SizeInSectors()) == sectors[first..last];
    ConcatSlice(sectors, SectorSize, first, last);
    assert last - first == Min(e.SizeInSectors(), Max(0, n - e.startSector));
  }

  /** No later file entry of the table has the same host name as entry `k`. */
  predicate LastWithName(table: seq<Entry>, k: int)
    requires 0 <= k < |table|
  {
    && table[k].Populated?
    && forall j :: k < j < |table| && table[j].Populated? ==> table[j].File() != table[k].File()
  }

  /** The file artifacts: one per file entry, named by its host name; a later
      entry with the same host name overwrites an earlier one. */
  function ExtractFiles(sectors: seq<seq<uint8>>, table: seq<Entry>): (files: map<string, seq<uint8>>)
    ensures files.Keys == set k | 0 <= k < |table| && table[k].Populated? :: table[k].File()
    decreases |table|
  {
    if |table| == 0 then map[]
    else
      var init := table[..|table| - 1];
      var files := ExtractFiles(sectors, init);
      var e := table[|table| - 1];
      assert forall k :: 0 <= k < |init| ==> init[k] == table[k];
      if e.Populated? then files[e.File() := ExtractFile(sectors, e)] else files
  }

  /** Each host name holds the bytes of the last file entry with that name. */
  lemma {:induction false} ExtractFilesLastWins(sectors: seq<seq<uint8>>, table: seq<Entry>, k: nat)
    requires k < |table| && LastWithName(table, k)
    ensures table[k].File() in ExtractFiles(sectors, table)
    ensures ExtractFiles(sectors, table)[table[k].File()] == ExtractFile(sectors, table[k])
    decreases |table|
  {
    var init := table[..|table| - 1];
    if k < |table| - 1 {
      assert init[k] == table[k];
      assert LastWithName(init, k);
      ExtractFilesLastWins(sectors, init, k);
    }
  }

  /** The numbered sector artifacts. */
  function SectorArtifacts(sectors: seq<seq<uint8>>): (artifacts: map<nat, seq<uint8>>)
    ensures forall k: nat :: k in artifacts <==> k < |sectors|
    ensures forall k :: 0 <= k < |sectors| ==> artifacts[k] == sectors[k]
  {
    map k: nat | k < |sectors| :: sectors[k]
  }

  /** The unpacking pipeline: split, then scan the directory, then cut out
      the files. It fails when the image is not a whole number of sectors or
      too short to hold the directory. */
  function Unpack(image: seq<uint8>): (r: Result<Dump>)
    ensures r.Ok? <==> |image| % SectorSize == 0 && |image| >= FileAreaOffset
    ensures r.Err? ==> r.error == if |image| % SectorSize != 0 then MisalignedImage(|image|)
                                 else TooFewSectors(|image| / SectorSize)
    ensures r.Ok? ==> |r.value.sectors| == |image| / SectorSize && FullSectors(r.value.sectors)
    ensures r.Ok? ==> Concat(r.value.sectors) == image
    ensures r.Ok? ==> |r.value.table| == DirectoryEntries
    ensures r.Ok? ==> r.value.sectors == Split(image).value
    ensures r.Ok? ==> r.value.table == ScanDirectory(r.value.sectors).value
    ensures r.Ok? ==> r.value.files == ExtractFiles(r.value.sectors, r.value.table)
  {
    var sectors :- Split(image);
    var table :- ScanDirectory(sectors);
    Ok(Dump(sectors, table, ExtractFiles(sectors, table)))
  }

  /** The table unpacking writes is the 2880 records from byte 5120 of the
      image, decoded one by one. */
  lemma {:induction false} UnpackedTable(image: seq<uint8>)
    requires Unpack(image).Ok?
    ensures var table := Unpack(image).value.table;
            forall k :: 0 <= k < DirectoryEntries ==>
              table[k] == Decode(image[DirectoryOffset + RdSize * k .. DirectoryOffset + RdSize * k + RdSize])
  {
    DirectoryOfImage(image);
  }

  /** The file artifact of the last entry with a host name is that entry's
      file cut from the sectors. */
  lemma {:induction false} UnpackedFile(image: seq<uint8>, d: Dump, k: nat)
    requires Unpack(image) == Ok(d)
    requires k < |d.table| && LastWithName(d.table, k)
    ensures Split(image).Ok? && d.sectors == Split(image).value
    ensures d.table[k].File() in d.files
    ensures d.files[d.table[k].File()] == ExtractFile(d.sectors, d.table[k])
  {
    ExtractFilesLastWins(d.sectors, d.table, k);
  }

  /** Each host name unpacking writes holds the image window of the last
      file entry with that name. */
  lemma {:induction false} UnpackedFiles(image: seq<uint8>, d: Dump, k: nat)
    requires Unpack(image) == Ok(d)
    requires k < |d.table| && LastWithName(d.table, k)
    ensures d.table[k].File() in d.files
    ensures d.files[d.table[k].File()] == SectorWindow(image, d.table[k].startSector, d.table[k].SizeInSectors())
  {
    UnpackedFile(image, d, k);
    ExtractedFromImage(image, d.table[k]);
  }
}
