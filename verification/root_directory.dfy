/** One 16-byte root-directory record of a Say-DOS disk and the entry it
    describes: either an unused slot filled with one repeated byte, or a file
    with an 8-byte name field, a 4-byte extension field and an inclusive range
    of sectors. The Write branch's test `File == "BATTLE.COM"` implies that the
    extension field holds the dot, as in ".COM". */
module RootDirectory {
  import opened Bytes
  import opened Ascii

  /** Size of one record in bytes. */
  const RdSize: nat := 0x10
  /** Width of the name field, read and padded alike. */
  const NameWidth: nat := 8
  /** Width of the extension field read on decoding (bytes 8 to 11). */
  const ExtFieldWidth: nat := 4
  /** Width the extension is padded to on encoding. */
  const ExtPadWidth: nat := 3
  /** The file whose start sector locates the battle-data pointer. */
  const BattleFile: string := "BATTLE.COM"

  datatype Entry =
    | Empty(byteFill: uint8)
    | Populated(fileName: string, fileExt: string, startSector: uint16, endSector: uint16)
  {
    /** Host file name of the entry: name and extension joined as they are. */
    function File(): string
      requires Populated?
    {
      fileName + fileExt
    }

    /** Sector count of the inclusive range, narrowed to a byte. */
    function SizeInSectors(): uint8
      requires Populated?
    {
      Wrap8(endSector - startSector + 1)
    }
  }

  /** Every byte of the record equals its first byte. */
  predicate Uniform(b: seq<uint8>)
    requires |b| > 0
  {
    forall i :: 0 <= i < |b| ==> b[i] == b[0]
  }

  /** Decoding constructor of a directory entry. */
  function Decode(b: seq<uint8>): (e: Entry)
    requires |b| == RdSize
    ensures e.Empty? <==> Uniform(b)
    ensures e.Empty? ==> e.byteFill == b[0]
    ensures e.Populated? ==>
              && e.fileName == Trim(DecodeBytes(b[..NameWidth]))
              && e.fileExt == Trim(DecodeBytes(b[NameWidth..NameWidth + ExtFieldWidth]))
              && |e.fileName| <= NameWidth && |e.fileExt| <= ExtFieldWidth
    ensures e.Populated? ==> e.startSector == b[12] as int + 0x100 * (b[13] as int)
    ensures e.Populated? ==> e.endSector == b[14] as int + 0x100 * (b[15] as int)
  {
    if Uniform(b) then
      Empty(b[0])
    else
      Populated(Trim(DecodeBytes(b[..NameWidth])),
                Trim(DecodeBytes(b[NameWidth..NameWidth + ExtFieldWidth])),
                FromLe16(b[12], b[13]),
                FromLe16(b[14], b[15]))
  }

  /** Encoding of a directory entry. An unused slot is sixteen copies of its
      fill byte; a file is its padded name, its extension padded to only three
      characters, and the two sector numbers, so its length depends on the
      lengths of the name and the extension. */
  function Encode(e: Entry): (r: seq<uint8>)
    ensures e.Empty? ==> |r| == RdSize && forall i :: 0 <= i < |r| ==> r[i] == e.byteFill
    ensures e.Populated? ==> |r| == Max(|e.fileName|, NameWidth) + Max(|e.fileExt|, ExtPadWidth) + 4
    ensures e.Populated? ==> r[|r| - 4..] == Le16(e.startSector) + Le16(e.endSector)
  {
    match e
    case Empty(fill) => Repeat(fill, RdSize)
    case Populated(name, ext, start, end) =>
      EncodeChars(PadRight(name, NameWidth)) + EncodeChars(PadRight(ext, ExtPadWidth))
        + Le16(start) + Le16(end)
  }

  /** An unused slot is reproduced byte for byte. */
  lemma {:induction false} EmptyRoundTrip(b: seq<uint8>)
    requires |b| == RdSize && Uniform(b)
    ensures Decode(b) == Empty(b[0])
    ensures Encode(Decode(b)) == b
  {
  }

  /** A file record whose name field is an ASCII token padded with spaces and
      whose extension field is a four-character ASCII token is reproduced byte
      for byte, and decodes to exactly that token, extension and sector pair. */
  lemma {:induction false} PopulatedRoundTrip(b: seq<uint8>, name: string, ext: string)
    requires |b| == RdSize && !Uniform(b)
    requires IsToken(name) && AllAscii(name) && |name| <= NameWidth
    requires IsToken(ext) && AllAscii(ext) && |ext| == ExtFieldWidth
    requires b[..NameWidth] == EncodeChars(PadRight(name, NameWidth))
    requires b[NameWidth..NameWidth + ExtFieldWidth] == EncodeChars(ext)
    ensures Decode(b) == Populated(name, ext, FromLe16(b[12], b[13]), FromLe16(b[14], b[15]))
    ensures Encode(Decode(b)) == b
  {
    var padded := PadRight(name, NameWidth);
    assert AllAscii(padded);
    DecodeEncodeChars(padded);
    TrimPadded(name, NameWidth);
    DecodeEncodeChars(ext);
    TrimToken(ext);
    var e := Decode(b);
    assert e == Populated(name, ext, FromLe16(b[12], b[13]), FromLe16(b[14], b[15]));
    assert PadRight(ext, ExtPadWidth) == ext;
    Le16OfFromLe16(b[12], b[13]);
    Le16OfFromLe16(b[14], b[15]);
    RecordFields(b);
  }

  /** A record is its name field, its extension field and two sector fields. */
  lemma {:induction false} RecordFields(b: seq<uint8>)
    requires |b| == RdSize
    ensures b == b[..NameWidth] + b[NameWidth..NameWidth + ExtFieldWidth] + [b[12], b[13]] + [b[14], b[15]]
  {
  }

  /** Encoding a file entry with an ASCII token name of at most eight
      characters and a four-character ASCII token extension and decoding the
      bytes gives the entry back, unless the sixteen bytes happen to be all
      equal, in which case they read as an unused slot. */
  lemma {:induction false} EncodeDecodeRoundTrip(e: Entry)
    requires e.Populated?
    requires IsToken(e.fileName) && AllAscii(e.fileName) && |e.fileName| <= NameWidth
    requires IsToken(e.fileExt) && AllAscii(e.fileExt) && |e.fileExt| == ExtFieldWidth
    ensures |Encode(e)| == RdSize
    ensures Decode(Encode(e)) == if Uniform(Encode(e)) then Empty(Encode(e)[0]) else e
  {
    var b := Encode(e);
    var name := EncodeChars(PadRight(e.fileName, NameWidth));
    assert PadRight(e.fileExt, ExtPadWidth) == e.fileExt;
    var ext := EncodeChars(e.fileExt);
    var start, end := Le16(e.startSector), Le16(e.endSector);
    assert b == name + ext + start + end;
    assert |name| == NameWidth && |ext| == ExtFieldWidth;
    assert b[..NameWidth] == name;
    assert b[NameWidth..NameWidth + ExtFieldWidth] == ext;
    assert b[12] == start[0] && b[13] == start[1];
    assert b[14] == end[0] && b[15] == end[1];
    if !Uniform(b) {
      PopulatedRoundTrip(b, e.fileName, e.fileExt);
    }
  }

  /** A file entry all of whose encoded bytes are equal exists: it reads back
      as an unused slot. */
  lemma {:induction false} UniformFileEncoding()
    ensures Decode(Encode(Populated("AAAAAAAA", "AAAA", 0x4141, 0x4141))) == Empty(0x41)
  {
    var e := Populated("AAAAAAAA", "AAAA", 0x4141, 0x4141);
    var b := Encode(e);
    assert PadRight("AAAAAAAA", NameWidth) == "AAAAAAAA";
    assert PadRight("AAAA", ExtPadWidth) == "AAAA";
    assert EncodeChars("AAAAAAAA") == Repeat(0x41, 8);
    assert EncodeChars("AAAA") == Repeat(0x41, 4);
    assert Le16(0x4141) == [0x41, 0x41];
    assert b == Repeat(0x41, 8) + Repeat(0x41, 4) + [0x41, 0x41] + [0x41, 0x41];
    assert Uniform(b);
  }

  /** A file entry encodes to a whole record exactly when its name has at most
      eight characters and its extension exactly four, or its name has nine
      and its extension at most three. */
  lemma {:induction false} EncodedLengthIsRecordSize(e: Entry)
    requires e.Populated?
    ensures |Encode(e)| == RdSize <==>
              || (|e.fileName| <= NameWidth && |e.fileExt| == ExtFieldWidth)
              || (|e.fileName| == NameWidth + 1 && |e.fileExt| <= ExtPadWidth)
  {
  }

  /** Re-encoding a decoded file record yields sixteen bytes when its trimmed
      extension has four characters and fifteen otherwise, so a record with a
      shorter extension does not survive a decode and encode. */
  lemma {:induction false} ReencodedLength(b: seq<uint8>)
    requires |b| == RdSize && !Uniform(b)
    ensures |Encode(Decode(b))| == if |Decode(b).fileExt| == ExtFieldWidth then RdSize else RdSize - 1
    ensures |Decode(b).fileExt| < ExtFieldWidth ==> Encode(Decode(b)) != b
  {
    var e := Decode(b);
    DecodedEncodingLength(e);
  }

  /** An entry with fields no wider than decoding produces encodes to sixteen
      bytes when its extension has four characters and fifteen otherwise. */
  lemma {:induction false} DecodedEncodingLength(e: Entry)
    requires e.Populated? && |e.fileName| <= NameWidth && |e.fileExt| <= ExtFieldWidth
    ensures |Encode(e)| == if |e.fileExt| == ExtFieldWidth then RdSize else RdSize - 1
  {
  }

  /** In the encoding of a file entry with a name of at most eight characters,
      the bytes after the name field are the extension padded to three. */
  lemma {:induction false} ExtensionField(e: Entry)
    requires e.Populated? && |e.fileName| <= NameWidth
    ensures Encode(e)[NameWidth..NameWidth + Max(|e.fileExt|, ExtPadWidth)]
              == EncodeChars(PadRight(e.fileExt, ExtPadWidth))
  {
  }

  /** Whenever a file entry encodes to a whole record that is not uniform,
      decoding it again keeps its start and end sectors, whatever its name. */
  lemma {:induction false} SectorsSurviveReencoding(e: Entry)
    requires e.Populated? && |Encode(e)| == RdSize && !Uniform(Encode(e))
    ensures Decode(Encode(e)).Populated?
    ensures Decode(Encode(e)).startSector == e.startSector
    ensures Decode(Encode(e)).endSector == e.endSector
  {
    var b := Encode(e);
    assert b[12..16] == Le16(e.startSector) + Le16(e.endSector);
  }

  /** The byte-sized sector count is the true length of the inclusive range
      whenever that length is below 256, and is the length modulo 256 always. */
  lemma {:induction false} SizeInSectorsCounts(e: Entry)
    requires e.Populated?
    ensures (e.SizeInSectors() - (e.endSector - e.startSector + 1)) % 0x100 == 0
    ensures e.startSector <= e.endSector < e.startSector + 0xFF ==>
              e.SizeInSectors() == e.endSector - e.startSector + 1
  {
  }

  /** An example record of the battle program: "BATTLE  .COM" at sectors
      0x64 to 0x6B, eight sectors, enough to hold the battle-sector pointer
      0xF6C bytes from its start. Its extension field carries the dot. */
  const BattleRecordBytes: seq<uint8> :=
    [0x42, 0x41, 0x54, 0x54, 0x4C, 0x45, 0x20, 0x20, 0x2E, 0x43, 0x4F, 0x4D, 0x64, 0x00, 0x6B, 0x00]

  /** The example battle record decodes to an eight-sector entry named
      BATTLE.COM and re-encodes to itself. */
  lemma {:induction false} BattleRecord()
    ensures Decode(BattleRecordBytes) == Populated("BATTLE", ".COM", 0x64, 0x6B)
    ensures Encode(Decode(BattleRecordBytes)) == BattleRecordBytes
  {
    var b := BattleRecordBytes;
    var name, ext := "BATTLE", ".COM";
    assert !Uniform(b) by {
      assert b[1] != b[0];
    }
    assert IsToken(name) && AllAscii(name) && IsToken(ext) && AllAscii(ext);
    assert b[..NameWidth] == EncodeChars(PadRight(name, NameWidth)) by {
      assert PadRight(name, NameWidth) == "BATTLE  ";
    }
    assert b[NameWidth..NameWidth + ExtFieldWidth] == EncodeChars(ext);
    assert FromLe16(b[12], b[13]) == 0x64 && FromLe16(b[14], b[15]) == 0x6B;
    PopulatedRoundTrip(b, name, ext);
  }

  /** The entry of the example battle record is the sentinel file and spans eight sectors. */
  lemma {:induction false} BattleEntry()
    ensures Populated("BATTLE", ".COM", 0x64, 0x6B).File() == BattleFile
    ensures Populated("BATTLE", ".COM", 0x64, 0x6B).SizeInSectors() == 8
  {
  }
}
