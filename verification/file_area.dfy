/** Placing the host files back on the disk. The directory table is walked in
    order; every file entry takes the next run of sectors from sector 0x64 on,
    as many as its host file has, and gets its start and end sectors rewritten.
    The cursor and the sector numbers are 16-bit and wrap. The start sector of
    the last BATTLE.COM entry is remembered for the battle-data pointer. */
module FileArea {
  import opened Bytes
  import opened Outcome
  import opened Sectors
  import opened RootDirectory

  /** What the walk over the table has produced so far: the rewritten entries,
      the file sectors in order, the next free sector and the battle sector. */
  datatype Allocation = Allocation(entries: seq<Entry>, fileSectors: seq<seq<uint8>>,
                                   cursor: uint16, battleSector: uint16)

  /** Before the first entry: nothing placed, the cursor on the first file
      sector and no battle sector. */
  const Start: Allocation := Allocation([], [], SectorFileStart, 0)

  /** An entry the walk gets past: an unused slot, or a file entry whose host
      file exists and is a whole number of sectors long. */
  predicate Accepted(e: Entry, files: map<string, seq<uint8>>) {
    e.Empty? || (e.File() in files && |files[e.File()]| % SectorSize == 0)
  }

  predicate AllAccepted(table: seq<Entry>, files: map<string, seq<uint8>>) {
    forall k :: 0 <= k < |table| ==> Accepted(table[k], files)
  }

  /** Why the walk stops at an entry: its host file is missing, or the file is
      not a whole number of sectors (reported with the entry's name only). */
  function Rejection(e: Entry, files: map<string, seq<uint8>>): Error
    requires !Accepted(e, files)
  {
    if e.File() !in files then MissingFile(e.File()) else SizeMismatch(e.fileName, |files[e.File()]|)
  }

  /** The bytes an accepted entry puts in the file area. */
  function Contents(e: Entry, files: map<string, seq<uint8>>): seq<uint8>
    requires Accepted(e, files)
  {
    if e.Empty? then [] else files[e.File()]
  }

  /** The sectors an accepted entry occupies. */
  function SectorCount(e: Entry, files: map<string, seq<uint8>>): nat
    requires Accepted(e, files)
  {
    |Contents(e, files)| / SectorSize
  }

  /** An accepted file fills its sectors exactly. */
  lemma {:induction false} ContentsFillSectors(e: Entry, files: map<string, seq<uint8>>)
    requires Accepted(e, files)
    ensures |Contents(e, files)| == SectorSize * SectorCount(e, files)
  {
  }

  /** Sectors occupied by all entries of `table`. */
  function Total(table: seq<Entry>, files: map<string, seq<uint8>>): nat
    requires AllAccepted(table, files)
    decreases |table|
  {
    if |table| == 0 then 0
    else Total(table[..|table| - 1], files) + SectorCount(table[|table| - 1], files)
  }

  /** The file area: the contents of all entries of `table`, in table order. */
  function FileData(table: seq<Entry>, files: map<string, seq<uint8>>): seq<uint8>
    requires AllAccepted(table, files)
    decreases |table|
  {
    if |table| == 0 then []
    else FileData(table[..|table| - 1], files) + Contents(table[|table| - 1], files)
  }

  /** An accepted entry as it is written back when its run of sectors starts
      at `start`: a file entry gets that start and, as end, its last sector,
      wrapped to 16 bits; an unused slot is kept as it is. */
  function PlacedAt(e: Entry, files: map<string, seq<uint8>>, start: uint16): Entry
    requires Accepted(e, files)
  {
    if e.Empty? then e
    else e.(startSector := start, endSector := Wrap16(start + SectorCount(e, files) - 1))
  }

  /** One iteration of the walk: the entry is placed at the cursor, the cursor
      moves past its sectors, and a BATTLE.COM entry records its start. */
  function Step(a: Allocation, e: Entry, files: map<string, seq<uint8>>): (r: Result<Allocation>)
    ensures r.Ok? <==> Accepted(e, files)
    ensures r.Err? ==> r.error == Rejection(e, files)
    ensures r.Ok? ==> && r.value.entries == a.entries + [PlacedAt(e, files, a.cursor)]
                      && r.value.cursor == Wrap16(a.cursor + SectorCount(e, files))
                      && r.value.fileSectors == a.fileSectors + Chunks(Contents(e, files))
                      && r.value.battleSector ==
                           if e.Populated? && e.File() == BattleFile then a.cursor else a.battleSector
  {
    if e.Empty? then Ok(a.(entries := a.entries + [e]))
    else if e.File() !in files then Err(MissingFile(e.File()))
    else
      var bytes := files[e.File()];
      if |bytes| % SectorSize != 0 then Err(SizeMismatch(e.fileName, |bytes|))
      else
        var start := a.cursor;
        var end := Wrap16(start + Wrap16(|bytes| / SectorSize - 1));
        var placed := e.(startSector := start, endSector := end);
        Wrap16Add(|bytes| / SectorSize - 1, start);
        Wrap16Add(start + |bytes| / SectorSize - 1, 1);
        Ok(Allocation(a.entries + [placed], a.fileSectors + Chunks(bytes), Wrap16(end + 1),
                      if placed.File() == BattleFile then start else a.battleSector))
  }

  /** The whole walk over the table. It stops at the first entry it cannot
      place. */
  function Allocate(table: seq<Entry>, files: map<string, seq<uint8>>): (r: Result<Allocation>)
    ensures r.Ok? <==> AllAccepted(table, files)
    ensures r.Ok? ==> |r.value.entries| == |table|
    decreases |table|
  {
    if |table| == 0 then Ok(Start)
    else
      var init := table[..|table| - 1];
      assert forall k :: 0 <= k < |init| ==> init[k] == table[k];
      var a :- Allocate(init, files);
      Step(a, table[|table| - 1], files)
  }

  /** The walk fails at the first entry it cannot place, with that entry's
      error. */
  lemma {:induction false} AllocateRejects(table: seq<Entry>, files: map<string, seq<uint8>>, k: nat)
    requires k < |table| && !Accepted(table[k], files) && AllAccepted(table[..k], files)
    ensures Allocate(table, files).Err?
    ensures Allocate(table, files).error == Rejection(table[k], files)
    decreases |table|
  {
    var init := table[..|table| - 1];
    if k < |table| - 1 {
      assert init[..k] == table[..k];
      AllocateRejects(init, files, k);
    } else {
      assert init == table[..k];
    }
  }

  /** The walk's view of a table grown by one entry. */
  lemma {:induction false} AllocateLast(table: seq<Entry>, files: map<string, seq<uint8>>)
    requires |table| > 0 && AllAccepted(table, files)
    ensures AllAccepted(table[..|table| - 1], files)
    ensures Allocate(table[..|table| - 1], files).Ok?
    ensures Allocate(table, files) == Step(Allocate(table[..|table| - 1], files).value, table[|table| - 1], files)
    ensures Total(table, files) == Total(table[..|table| - 1], files) + SectorCount(table[|table| - 1], files)
  {
  }

  /** After the walk the cursor is sector 0x64 plus all sectors placed,
      wrapped to 16 bits. */
  lemma {:induction false} AllocatedCursor(table: seq<Entry>, files: map<string, seq<uint8>>)
    requires AllAccepted(table, files)
    ensures Allocate(table, files).Ok?
    ensures Allocate(table, files).value.cursor == Wrap16(SectorFileStart + Total(table, files))
    decreases |table|
  {
    if |table| == 0 {
      assert Allocate(table, files) == Ok(Start);
    } else {
      var init := table[..|table| - 1];
      AllocateLast(table, files);
      AllocatedCursor(init, files);
      Wrap16Add(SectorFileStart + Total(init, files), SectorCount(table[|table| - 1], files));
    }
  }

  /** Sectors occupied by the first `k` entries of `table`. */
  function Before(table: seq<Entry>, files: map<string, seq<uint8>>, k: nat): nat
    requires AllAccepted(table, files) && k <= |table|
  {
    assert forall j :: 0 <= j < k ==> table[..k][j] == table[j];
    Total(table[..k], files)
  }

  /** Dropping the last entry of the table does not change what lies before
      an earlier one. */
  lemma {:induction false} BeforeInit(table: seq<Entry>, files: map<string, seq<uint8>>, k: nat)
    requires AllAccepted(table, files) && k < |table|
    ensures AllAccepted(table[..|table| - 1], files)
    ensures Before(table[..|table| - 1], files, k) == Before(table, files, k)
  {
    PrefixOfPrefix(table, k, |table| - 1);
  }

  /** Every entry is placed after the sectors of the entries before it. */
  predicate PlacedInOrder(table: seq<Entry>, files: map<string, seq<uint8>>, entries: seq<Entry>)
    requires AllAccepted(table, files)
  {
    && |entries| == |table|
    && forall k :: 0 <= k < |table| ==>
         entries[k] == PlacedAt(table[k], files, Wrap16(SectorFileStart + Before(table, files, k)))
  }

  /** Placing the last entry at the cursor extends an in-order placement of
      the others. */
  lemma {:induction false} PlacedInOrderExtend(table: seq<Entry>, files: map<string, seq<uint8>>, prev: seq<Entry>, cursor: uint16)
    requires |table| > 0 && AllAccepted(table, files)
    requires AllAccepted(table[..|table| - 1], files)
    requires PlacedInOrder(table[..|table| - 1], files, prev)
    requires cursor == Wrap16(SectorFileStart + Total(table[..|table| - 1], files))
    ensures PlacedInOrder(table, files, prev + [PlacedAt(table[|table| - 1], files, cursor)])
  {
    var entries := prev + [PlacedAt(table[|table| - 1], files, cursor)];
    forall k | 0 <= k < |table|
      ensures entries[k] == PlacedAt(table[k], files, Wrap16(SectorFileStart + Before(table, files, k)))
    {
      PlacedInOrderEntry(table, files, prev, cursor, k);
    }
  }

  lemma {:induction false} PlacedInOrderEntry(table: seq<Entry>, files: map<string, seq<uint8>>, prev: seq<Entry>, cursor: uint16, k: nat)
    requires |table| > 0 && AllAccepted(table, files)
    requires AllAccepted(table[..|table| - 1], files)
    requires PlacedInOrder(table[..|table| - 1], files, prev)
    requires cursor == Wrap16(SectorFileStart + Total(table[..|table| - 1], files))
    requires k < |table|
    ensures (prev + [PlacedAt(table[|table| - 1], files, cursor)])[k]
              == PlacedAt(table[k], files, Wrap16(SectorFileStart + Before(table, files, k)))
  {
    var init := table[..|table| - 1];
    if k < |init| {
      BeforeInit(table, files, k);
      assert init[k] == table[k];
      assert prev[k] == PlacedAt(init[k], files, Wrap16(SectorFileStart + Before(init, files, k)));
    } else {
      assert init == table[..k];
    }
  }

  /** Entry `k` is written back with its run of sectors starting after the
      sectors of all entries before it. */
  lemma {:induction false} AllocatedEntries(table: seq<Entry>, files: map<string, seq<uint8>>)
    requires AllAccepted(table, files)
    ensures Allocate(table, files).Ok?
    ensures PlacedInOrder(table, files, Allocate(table, files).value.entries)
    decreases |table|
  {
    if |table| > 0 {
      var init := table[..|table| - 1];
      var e := table[|table| - 1];
      AllocateLast(table, files);
      AllocatedEntries(init, files);
      AllocatedCursor(init, files);
      var a := Allocate(init, files).value;
      PlacedInOrderExtend(table, files, a.entries, a.cursor);
    }
  }

  /** The sectors before entry `k + 1` are those before entry `k` and entry
      `k`'s own. */
  lemma {:induction false} BeforeNext(table: seq<Entry>, files: map<string, seq<uint8>>, k: nat)
    requires AllAccepted(table, files) && k < |table|
    ensures Before(table, files, k + 1) == Before(table, files, k) + SectorCount(table[k], files)
  {
    PrefixOfPrefix(table, k, k + 1);
    assert table[..k + 1][k] == table[k];
  }

  /** Unused slots between entries `k` and `m` take no sectors: the sectors
      before `m` are those before `k` and entry `k`'s own. */
  lemma {:induction false} BeforeSkipsEmpty(table: seq<Entry>, files: map<string, seq<uint8>>, k: nat, m: nat)
    requires AllAccepted(table, files) && k < m <= |table|
    requires forall i :: k < i < m ==> table[i].Empty?
    ensures Before(table, files, m) == Before(table, files, k) + SectorCount(table[k], files)
    decreases m - k
  {
    BeforeNext(table, files, m - 1);
    if m - 1 > k {
      BeforeSkipsEmpty(table, files, k, m - 1);
    }
  }

  /** The walk places files back to back: the next file entry after entry `k`,
      past any unused slots, starts at the sector after entry `k`'s end, with
      16-bit wrap-around. */
  lemma {:induction false} ContiguousEntries(table: seq<Entry>, files: map<string, seq<uint8>>, a: Allocation, k: nat, m: nat)
    requires AllAccepted(table, files) && Allocate(table, files) == Ok(a)
    requires k < m < |table| && table[k].Populated? && table[m].Populated?
    requires forall i :: k < i < m ==> table[i].Empty?
    ensures m < |a.entries| && a.entries[k].Populated? && a.entries[m].Populated?
    ensures a.entries[m].startSector == Wrap16(a.entries[k].endSector + 1)
  {
    AllocatedEntries(table, files);
    InOrderContiguous(table, files, a.entries, k, m);
  }

  /** `ContiguousEntries` for any in-order placement. */
  lemma {:induction false} InOrderContiguous(table: seq<Entry>, files: map<string, seq<uint8>>, entries: seq<Entry>,
                                             k: nat, m: nat)
    requires AllAccepted(table, files) && PlacedInOrder(table, files, entries)
    requires k < m < |table| && table[k].Populated? && table[m].Populated?
    requires forall i :: k < i < m ==> table[i].Empty?
    ensures m < |entries| && entries[k].Populated? && entries[m].Populated?
    ensures entries[m].startSector == Wrap16(entries[k].endSector + 1)
  {
    var s := SectorFileStart + Before(table, files, k);
    assert entries[k] == PlacedAt(table[k], files, Wrap16(s));
    assert entries[m] == PlacedAt(table[m], files, Wrap16(SectorFileStart + Before(table, files, m)));
    BeforeSkipsEmpty(table, files, k, m);
    PlacedBackToBack(table[k], table[m], files, entries[k], entries[m], s);
  }

  /** A file entry placed at `s` and the next file entry placed right after
      its sectors lie back to back. */
  lemma {:induction false} PlacedBackToBack(e: Entry, f: Entry, files: map<string, seq<uint8>>,
                                            placedE: Entry, placedF: Entry, s: nat)
    requires Accepted(e, files) && Accepted(f, files) && e.Populated? && f.Populated?
    requires placedE == PlacedAt(e, files, Wrap16(s))
    requires placedF == PlacedAt(f, files, Wrap16(s + SectorCount(e, files)))
    ensures placedE.Populated? && placedF.Populated?
    ensures placedF.startSector == Wrap16(placedE.endSector + 1)
  {
    WrapNext(placedE.endSector, placedF.startSector, s, SectorCount(e, files));
  }

  /** A run of `n` sectors from `s` ends at `last`, and `next` follows it,
      all wrapped to 16 bits: then `next` is the sector after `last`. */
  lemma {:induction false} WrapNext(last: int, next: int, s: int, n: int)
    requires last == Wrap16(Wrap16(s) + n - 1) && next == Wrap16(s + n)
    ensures next == Wrap16(last + 1)
  {
    Wrap16Add(s, n - 1);
    Wrap16Add(s + n - 1, 1);
  }

  /** Appending the whole sectors of one more accepted entry keeps the file
      sectors equal to the file area. */
  lemma {:induction false} SectorsExtend(table: seq<Entry>, files: map<string, seq<uint8>>, prev: seq<seq<uint8>>)
    requires |table| > 0 && AllAccepted(table, files)
    requires AllAccepted(table[..|table| - 1], files)
    requires Concat(prev) == FileData(table[..|table| - 1], files)
    requires FullSectors(prev) && |prev| == Total(table[..|table| - 1], files)
    ensures var next := prev + Chunks(Contents(table[|table| - 1], files));
            && Concat(next) == FileData(table, files)
            && FullSectors(next)
            && |next| == Total(table, files)
  {
    var c := Contents(table[|table| - 1], files);
    var piece := Chunks(c);
    ChunksOfAligned(c);
    ConcatAppend(prev, piece);
    var next := prev + piece;
    forall i | 0 <= i < |next|
      ensures |next[i]| == SectorSize
    {
      if i < |prev| {
        assert next[i] == prev[i];
      } else {
        assert next[i] == piece[i - |prev|];
      }
    }
  }

  /** The file sectors are the file area cut into whole sectors. */
  lemma {:induction false} AllocatedSectors(table: seq<Entry>, files: map<string, seq<uint8>>)
    requires AllAccepted(table, files)
    ensures Allocate(table, files).Ok?
    ensures var a := Allocate(table, files).value;
            && Concat(a.fileSectors) == FileData(table, files)
            && FullSectors(a.fileSectors)
            && |a.fileSectors| == Total(table, files)
    decreases |table|
  {
    if |table| > 0 {
      var init := table[..|table| - 1];
      var e := table[|table| - 1];
      AllocateLast(table, files);
      AllocatedSectors(init, files);
      var a := Allocate(init, files).value;
      var r := Step(a, e, files);
      assert r.Ok? && r.value.fileSectors == a.fileSectors + Chunks(Contents(e, files));
      SectorsExtend(table, files, a.fileSectors);
      assert Allocate(table, files).value.fileSectors == r.value.fileSectors;
    }
  }

  /** The file area is a whole number of sectors: one per sector placed. */
  lemma {:induction false} FileDataLength(table: seq<Entry>, files: map<string, seq<uint8>>)
    requires AllAccepted(table, files)
    ensures |FileData(table, files)| == SectorSize * Total(table, files)
    decreases |table|
  {
    if |table| > 0 {
      var init := table[..|table| - 1];
      var c := Contents(table[|table| - 1], files);
      FileDataLength(init, files);
      assert |c| == SectorSize * (|c| / SectorSize);
    }
  }

  /** The file area of a prefix of the table is a prefix of the file area. */
  lemma {:induction false} FileDataPrefix(table: seq<Entry>, files: map<string, seq<uint8>>, m: nat)
    requires AllAccepted(table, files) && m <= |table|
    ensures AllAccepted(table[..m], files)
    ensures |FileData(table[..m], files)| <= |FileData(table, files)|
    ensures FileData(table[..m], files) == FileData(table, files)[..|FileData(table[..m], files)|]
    decreases |table|
  {
    if m < |table| {
      var init := table[..|table| - 1];
      assert init[..m] == table[..m];
      FileDataPrefix(init, files, m);
    } else {
      assert table[..m] == table;
    }
  }

  /** The host file of entry `k` lies in the file area right after the
      sectors of the entries before it. */
  lemma {:induction false} FileDataWindow(table: seq<Entry>, files: map<string, seq<uint8>>, k: nat)
    requires AllAccepted(table, files) && k < |table|
    ensures var lo := SectorSize * Before(table, files, k);
            && lo + |Contents(table[k], files)| <= |FileData(table, files)|
            && FileData(table, files)[lo .. lo + |Contents(table[k], files)|] == Contents(table[k], files)
  {
    var pre := table[..k + 1];
    PrefixOfPrefix(table, k, k + 1);
    FileDataPrefix(table, files, k + 1);
    FileDataLength(table[..k], files);
    var c := Contents(table[k], files);
    assert FileData(pre, files) == FileData(table[..k], files) + c;
  }

  lemma {:induction false} PrefixOfPrefix<T>(s: seq<T>, k: nat, m: nat)
    requires k <= m <= |s|
    ensures s[..m][..k] == s[..k]
  {
  }

  /** The sectors before entry `k` and entry `k`'s own do not exceed the total. */
  lemma {:induction false} TotalPrefix(table: seq<Entry>, files: map<string, seq<uint8>>, k: nat)
    requires AllAccepted(table, files) && k < |table|
    ensures Before(table, files, k) + SectorCount(table[k], files) <= Total(table, files)
    decreases |table|
  {
    var init := table[..|table| - 1];
    if k < |table| - 1 {
      BeforeInit(table, files, k);
      TotalPrefix(init, files, k);
    } else {
      assert init == table[..k];
    }
  }

  predicate IsBattle(e: Entry) {
    e.Populated? && e.File() == BattleFile
  }

  /** Without a BATTLE.COM entry the battle sector stays 0. */
  lemma {:induction false} NoBattleSector(table: seq<Entry>, files: map<string, seq<uint8>>)
    requires AllAccepted(table, files)
    requires forall k :: 0 <= k < |table| ==> !IsBattle(table[k])
    ensures Allocate(table, files).Ok?
    ensures Allocate(table, files).value.battleSector == 0
    decreases |table|
  {
    if |table| > 0 {
      AllocateLast(table, files);
      NoBattleSector(table[..|table| - 1], files);
    }
  }

  /** A step records the cursor as battle sector exactly for a BATTLE.COM
      entry. */
  lemma {:induction false} BattleStep(a: Allocation, e: Entry, files: map<string, seq<uint8>>)
    requires Accepted(e, files)
    ensures Step(a, e, files).Ok?
    ensures Step(a, e, files).value.battleSector == if IsBattle(e) then a.cursor else a.battleSector
  {
  }

  /** The battle sector is the start of the last BATTLE.COM entry. */
  lemma {:induction false} LastBattleSector(table: seq<Entry>, files: map<string, seq<uint8>>, k: nat)
    requires AllAccepted(table, files)
    requires k < |table| && IsBattle(table[k])
    requires forall j :: k < j < |table| ==> !IsBattle(table[j])
    ensures Allocate(table, files).Ok?
    ensures Allocate(table, files).value.battleSector == Wrap16(SectorFileStart + Before(table, files, k))
    decreases |table|
  {
    var init := table[..|table| - 1];
    var e := table[|table| - 1];
    AllocateLast(table, files);
    var a := Allocate(init, files).value;
    BattleStep(a, e, files);
    var battle := Allocate(table, files).value.battleSector;
    assert battle == Step(a, e, files).value.battleSector;
    if k < |table| - 1 {
      BeforeInit(table, files, k);
      LastBattleSector(init, files, k);
      assert battle == a.battleSector;
    } else {
      LastEntryBattle(table, files);
    }
  }

  /** A BATTLE.COM entry at the end of the table sets the battle sector to
      the cursor before it. */
  lemma {:induction false} LastEntryBattle(table: seq<Entry>, files: map<string, seq<uint8>>)
    requires AllAccepted(table, files)
    requires |table| > 0 && IsBattle(table[|table| - 1])
    ensures Allocate(table, files).Ok?
    ensures Allocate(table, files).value.battleSector
              == Wrap16(SectorFileStart + Before(table, files, |table| - 1))
  {
    var init := table[..|table| - 1];
    AllocateLast(table, files);
    var a := Allocate(init, files).value;
    BattleStep(a, table[|table| - 1], files);
    AllocatedCursor(init, files);
    assert Before(table, files, |table| - 1) == Total(init, files);
  }

  /** When the file area ends below sector 0x10000 no sector number wraps:
      a file entry starts at sector 0x64 plus the sectors before it, ends on
      its last sector (or just before its start when its host file is empty),
      keeps its name, and reports its sector count modulo 256. */
  lemma {:induction false} PlacedWithoutWrap(table: seq<Entry>, files: map<string, seq<uint8>>, a: Allocation, k: nat)
    requires Allocate(table, files) == Ok(a) && k < |table| && table[k].Populated?
    requires SectorFileStart + Total(table, files) < 0x1_0000
    ensures AllAccepted(table, files) && k < |a.entries|
    ensures var e := a.entries[k];
            && e.Populated?
            && e.fileName == table[k].fileName && e.fileExt == table[k].fileExt
            && e.startSector == SectorFileStart + Before(table, files, k)
            && e.endSector == e.startSector + SectorCount(table[k], files) - 1
            && e.SizeInSectors() == SectorCount(table[k], files) % 0x100
  {
    AllocatedEntries(table, files);
    TotalPrefix(table, files, k);
    var start := SectorFileStart + Before(table, files, k);
    assert a.entries[k] == PlacedAt(table[k], files, Wrap16(start));
    Wrap16Small(start);
    PlacedAtSmall(table[k], files, start);
  }

  /** A file entry placed where its run of sectors does not reach sector
      0x10000 ends on its last sector. */
  lemma {:induction false} PlacedAtSmall(e: Entry, files: map<string, seq<uint8>>, start: uint16)
    requires Accepted(e, files) && e.Populated?
    requires 0 < start && start + SectorCount(e, files) < 0x1_0000
    ensures var p := PlacedAt(e, files, start);
            && p.Populated?
            && p.fileName == e.fileName && p.fileExt == e.fileExt
            && p.startSector == start
            && p.endSector == start + SectorCount(e, files) - 1
            && p.SizeInSectors() == SectorCount(e, files) % 0x100
  {
    var n := SectorCount(e, files);
    Wrap16Small(start + n - 1);
    var p := PlacedAt(e, files, start);
    assert p.endSector - p.startSector + 1 == n;
  }

  /** When the file area ends below sector 0x10000 the battle sector is 0 or
      a sector of the file area. */
  lemma {:induction false} BattleSectorInFileArea(table: seq<Entry>, files: map<string, seq<uint8>>)
    requires AllAccepted(table, files)
    requires SectorFileStart + Total(table, files) < 0x1_0000
    ensures Allocate(table, files).Ok?
    ensures var b := Allocate(table, files).value.battleSector;
            b == 0 || SectorFileStart <= b <= SectorFileStart + Total(table, files)
    decreases |table|
  {
    if |table| > 0 {
      var init := table[..|table| - 1];
      var e := table[|table| - 1];
      AllocateLast(table, files);
      BattleSectorInFileArea(init, files);
      AllocatedCursor(init, files);
      var a := Allocate(init, files).value;
      BattleStep(a, e, files);
      assert Allocate(table, files).value.battleSector == Step(a, e, files).value.battleSector;
      Wrap16Small(SectorFileStart + Total(init, files));
    }
  }
}
