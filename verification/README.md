# Say-DOS disk image tool, modelled in Dafny

Final Fantasy for the MSX2 ships on a 720 KB disk formatted with Say-DOS, a
sector file system of the game's own. The tool unpacks such an image and
packs it again:

* **Dump** does four things:
  * It cuts the image into 512-byte sectors.
  * It writes every sector out as a numbered artifact.
  * It reads the root directory: sectors 10 to 99, 32 records of 16 bytes each, 2880 entries in all.
  * It writes out every file the directory names, as the run of sectors starting at its start sector.
* **Write** does these things, in order:
  * It reads back the ten system sectors.
  * It walks the directory table. Every file entry gets the next run of sectors from sector 0x64 on, as many as its host file fills, and its start and end sectors are rewritten. The cursor is a 16-bit `ushort` that wraps.
  * It lays the following end to end: the system sectors, the re-encoded directory, the host files and the battle sectors 0x44C to 0x540.
  * It stores the first free sector as a little-endian `ushort` at byte 0xF6C past the start of the last `BATTLE.COM` entry.
  * It pads the result with 0xFF to 0xB4000 bytes.

A directory record (`SayDosRootDirectory`) comes in two kinds:
* An unused slot is sixteen copies of one fill byte.
* A file record holds:
  * an 8-byte ASCII name and a 4-byte ASCII extension, both trimmed on decoding;
  * a little-endian start sector and end sector.

  On encoding, the name is padded to 8 characters and the extension to only 3.

The model is functional:
* Every step is a pure function returning `Result<T>`. Every exception of the modelled steps is an `Error` case.
* Host files and sector files are maps passed in and returned. Dump returns the sector artifacts, the table and the files it would write.
* `ushort` and `byte` arithmetic is written out with explicit wrap-around (`Wrap16`, `Wrap8`).

| file | module | models |
|---|---|---|
| `outcome.dfy` | `Outcome` | the errors that end a run; `Result` |
| `bytes.dfy` | `Bytes` | `byte`/`ushort`, unchecked narrowing, `BitConverter` little-endian 16-bit, LINQ `Skip`/`Take`/`SelectMany` |
| `ascii.dfy` | `Ascii` | `Encoding.ASCII`, `String.Trim`, `String.PadRight`, `Char.IsWhiteSpace` |
| `root_directory.dfy` | `RootDirectory` | the directory entry, its decoding constructor, `CreateRootDirectoryEntry`, `File`, `SizeInSectors` |
| `sectors.dfy` | `Sectors` | sector size, the split of the image and of a host file into sectors |
| `unpack.dfy` | `Unpack` | the Dump branch: split, directory scan, file extraction |
| `file_area.dfy` | `FileArea` | the Write branch's walk over the table: checks, allocation, battle sector |
| `repack.dfy` | `Repack` | the rest of the Write branch: system and battle sectors, merge, pointer, padding |

Lemmas about a successful repacking take the image and the allocation as
parameters. They are tied to the run by `Repack(table, artifacts, files) == Ok(image)` and
`Allocate(table, files) == Ok(a)`. "Dump-shaped" inputs (`Repack.DumpShaped`)
are a restriction on the inputs of Write:
* 2880 entries, each encoding to one 16-byte record;
* system and battle sectors of 512 bytes.

A Dump of a 720 KB image always provides the sectors and the 2880 entries.
Its table meets the record condition only when every file entry re-encodes to
16 bytes, which fails for a trimmed extension shorter than 4 characters
(`RootDirectory.ReencodedLength`). `Repack.DumpedArtifacts` and `Repack.DumpedShape` state this.

## Model

| member | source | states |
|---|---|---|
| Bytes.Le16 | SayDos/SayDosRootDirectory.cs:60-61 | `BitConverter.GetBytes(ushort)` gives two bytes that read back, low byte first, as the value |
| Bytes.Le16OfFromLe16 | SayDos/SayDosRootDirectory.cs:41-42 | for any two bytes, the little-endian encoding of the `ushort` they read as is exactly those two bytes |
| Bytes.Wrap16Add | SayDos/Program.cs:194-196 | narrowing to `ushort` after an addition and again after the next gives the same value as narrowing the whole sum once |
| Ascii.EncodeDecodeBytes | SayDos/SayDosRootDirectory.cs:39-40 | bytes below 0x80 decode to ASCII text that encodes back to the same bytes |
| Ascii.DecodeEncodeChars | SayDos/SayDosRootDirectory.cs:58-59 | ASCII text encodes to bytes that decode back to the same text |
| Ascii.TrimStart | SayDos/SayDosRootDirectory.cs:39-40 | the result is a suffix of the input, everything cut off is whitespace, and the result does not start with whitespace |
| Ascii.TrimEnd | SayDos/SayDosRootDirectory.cs:39-40 | the result is a prefix of the input, everything cut off is whitespace, and the result does not end with whitespace |
| Ascii.Trim | SayDos/SayDosRootDirectory.cs:39-40 | the trimmed string has whitespace at neither end and is no longer than the input |
| Ascii.TrimIsWindow | SayDos/SayDosRootDirectory.cs:39-40 | the trimmed string is a contiguous window of the input with only whitespace before and after it |
| Ascii.PadRight | SayDos/SayDosRootDirectory.cs:58-59 | padding keeps the string as a prefix, reaches the width or keeps the longer length, and fills with spaces |
| Ascii.TrimPadded | SayDos/SayDosRootDirectory.cs:39-59 | trimming undoes right padding of a string with no whitespace at either end |
| RootDirectory.Decode | SayDos/SayDosRootDirectory.cs:28-43 | a record is an unused slot exactly when all 16 bytes equal the first, with that byte as fill. Otherwise the entry's fields are: the trimmed ASCII of bytes 0-7; the trimmed ASCII of bytes 8-11, at most 4 characters; `b[12] + 256*b[13]`; and `b[14] + 256*b[15]` |
| RootDirectory.Encode | SayDos/SayDosRootDirectory.cs:50-62 | an unused slot encodes to 16 fill bytes. A file entry encodes to the larger of 8 and the name length, plus the larger of 3 and the extension length, plus 4 bytes, ending in its start and end sectors little-endian |
| RootDirectory.EmptyRoundTrip | SayDos/SayDosRootDirectory.cs:31-55 | a uniform record decodes to an unused slot and encodes back to itself |
| RootDirectory.PopulatedRoundTrip | SayDos/SayDosRootDirectory.cs:39-61 | a non-uniform record whose name field is a padded ASCII token and whose extension field is a 4-character ASCII token decodes to that token, extension and sector pair, and encodes back to itself |
| RootDirectory.EncodeDecodeRoundTrip | SayDos/SayDosRootDirectory.cs:39-61 | a file entry with an ASCII token name of at most 8 and a 4-character ASCII token extension encodes to 16 bytes. These decode to the entry, unless the bytes are uniform and read as an unused slot |
| RootDirectory.UniformFileEncoding | SayDos/SayDosRootDirectory.cs:31-61 | the file entry `AAAAAAAA` `AAAA` with sectors 0x4141 encodes to 16 equal bytes and reads back as an unused slot |
| RootDirectory.EncodedLengthIsRecordSize | SayDos/SayDosRootDirectory.cs:57-61 | a file entry encodes to exactly 16 bytes iff: its name has at most 8 characters and its extension exactly 4; or its name has 9 and its extension at most 3 |
| RootDirectory.ReencodedLength | SayDos/SayDosRootDirectory.cs:40-59 | a decoded file record re-encodes to 16 bytes if its trimmed extension has 4 characters and to 15 otherwise, so a shorter extension never round-trips |
| RootDirectory.ExtensionField | SayDos/SayDosRootDirectory.cs:58-59 | after a name of at most 8 characters, the encoding holds the extension padded to 3 |
| RootDirectory.SectorsSurviveReencoding | SayDos/SayDosRootDirectory.cs:41-61 | whenever a file entry encodes to a non-uniform 16-byte record, decoding it keeps its start and end sectors |
| RootDirectory.SizeInSectorsCounts | SayDos/SayDosRootDirectory.cs:22 | `SizeInSectors` is `End - Start + 1` modulo 256, and is exactly that count when it is below 256 |
| RootDirectory.BattleRecord | SayDos/SayDosRootDirectory.cs:28-62 | an example record of the battle program, `BATTLE  .COM` at sectors 0x64 to 0x6B, decodes to name `BATTLE` and extension `.COM` with those sectors, and encodes back to itself |
| RootDirectory.BattleEntry | SayDos/SayDosRootDirectory.cs:15-22 | that example entry's host name is `BATTLE.COM`, the name the Write branch looks for, and it spans eight sectors |
| Sectors.Chunks | SayDos/Program.cs:190 | a host file splits into `ceil(n/512)` pieces |
| Sectors.ChunkPieces | SayDos/Program.cs:190-191 | piece `k` is the non-empty window `[512k, min(512k+512, n))` of the file, and the pieces laid end to end are the file |
| Sectors.ChunksOfAligned | SayDos/Program.cs:184-191 | a file that is a whole number of sectors splits into `n/512` full sectors that concatenate to it |
| Sectors.Split | SayDos/Program.cs:74-79 | the image splits iff its length is a multiple of 512, into `n/512` sectors; sector `k` is bytes `[512k, 512k+512)`, and the sectors concatenate to the image; otherwise the error names the length |
| Unpack.ScanDirectory | SayDos/Program.cs:100-108 | the scan fails exactly when the image has fewer than 100 sectors, and otherwise yields 90 × 32 = 2880 entries |
| Unpack.ScanFromEntry | SayDos/Program.cs:100-106 | entry `k` of the scan from sector `s` is record `k % 32` of sector `s + k / 32`, decoded |
| Unpack.DirectoryEntryOfImage | SayDos/Program.cs:100-106 | entry `k` of the directory is the record at image bytes `[0x1400 + 16k, 0x1410 + 16k)`, decoded |
| Unpack.DirectoryOfImage | SayDos/Program.cs:100-108 | the directory of an image of at least 100 whole sectors is its 2880 records from byte 0x1400, decoded in order |
| Unpack.ExtractedFromImage | SayDos/Program.cs:117-118 | a file cut out for an entry is the image window of sectors `[Start, Start+SizeInSectors)` clipped to the image, of length `512·min(SizeInSectors, max(0, nSectors − Start))` |
| Unpack.ExtractFiles | SayDos/Program.cs:113-120 | the written host names are exactly the names of the file entries |
| Unpack.ExtractFilesLastWins | SayDos/Program.cs:113-119 | a host name holds the bytes of the last file entry with that name |
| Unpack.SectorArtifacts | SayDos/Program.cs:89-95 | the artifacts are numbered 0 to n-1 for n sectors, and artifact k holds sector k |
| Repack.DumpedSectorsRead | SayDos/Program.cs:161-164 | any range of the artifacts a Dump writes reads back in Write as the same range of the dumped sectors |
| Repack.DumpedArtifacts | SayDos/Program.cs:89-95 | after a Dump, Write reads the dumped system sectors, and the dumped battle sectors when the image reaches sector 0x541 |
| Repack.DumpedShape | SayDos/Program.cs:89-106 | for a 720 KB image, the Dump output is dump-shaped exactly when every dumped entry encodes to 16 bytes |
| Unpack.Unpack | SayDos/Program.cs:69-119 | unpacking succeeds iff the image is a whole number of sectors and at least 100 of them. The misaligned-length error comes first. On success there are `n/512` sectors concatenating to the image, and a 2880-entry table |
| Unpack.UnpackedTable | SayDos/Program.cs:100-108 | the table unpacking writes is the 2880 records from byte 0x1400 of the image, decoded |
| Unpack.UnpackedFiles | SayDos/Program.cs:113-119 | every host name unpacking writes holds the image window of the last file entry with that name |
| FileArea.ContentsFillSectors | SayDos/Program.cs:184-188 | an accepted host file is exactly 512 bytes per sector it occupies |
| FileArea.Step | SayDos/Program.cs:173-206 | one entry: <br>• it is accepted iff it is unused, or its host file exists and is a whole number of sectors; <br>• otherwise the error is a missing file or a size mismatch, in that order; <br>• on success, the entry is placed at the cursor, the cursor advances by its sector count modulo 2^16, its file's sectors are appended, and `BATTLE.COM` records its start |
| FileArea.Allocate | SayDos/Program.cs:166-206 | the walk succeeds iff every entry is accepted, and then rewrites one entry per table entry |
| FileArea.AllocateRejects | SayDos/Program.cs:173-188 | the walk fails with the error of the first entry it cannot accept |
| FileArea.AllocatedCursor | SayDos/Program.cs:194-196 | the final cursor is `0x64 + total sectors` modulo 2^16 |
| FileArea.AllocatedEntries | SayDos/Program.cs:175-196 | entry `k` is rewritten with start `0x64 + sectors of entries before k` (mod 2^16) and end `start + count − 1` (mod 2^16). Unused entries are kept as they are |
| FileArea.ContiguousEntries | SayDos/Program.cs:193-196 | the next file entry after entry `k`, past any unused slots, starts at entry `k`'s end sector + 1, modulo 2^16 |
| FileArea.AllocatedSectors | SayDos/Program.cs:190-191 | the file sectors are the host files in table order, cut into full sectors, one per sector allocated |
| FileArea.FileDataWindow | SayDos/Program.cs:190-191 | the host file of entry `k` lies in the file sectors right after the sectors of the entries before it |
| FileArea.NoBattleSector | SayDos/Program.cs:167 | without a `BATTLE.COM` entry the battle sector stays 0 |
| FileArea.LastBattleSector | SayDos/Program.cs:199-202 | the battle sector is the start of the last `BATTLE.COM` entry |
| FileArea.PlacedWithoutWrap | SayDos/Program.cs:193-196 | when the file area ends below sector 0x10000, a rewritten file entry: <br>• keeps its name and extension; <br>• starts at `0x64 + sectors before it` and ends at `start + count − 1`; <br>• reports its count modulo 256 |
| FileArea.BattleSectorInFileArea | SayDos/Program.cs:167-202 | when nothing wraps, the battle sector is 0 or a sector of the file area |
| Repack.ReadSectors | SayDos/Program.cs:161-164 | reading sector artifacts `lo..hi-1` succeeds iff they all exist, giving them in order. Otherwise it fails on the first missing one |
| Repack.PatchPointer | SayDos/Program.cs:223-224 | writing the pointer succeeds iff two bytes fit at the offset. Those bytes then read back as the value, and every other byte is unchanged |
| Repack.PadImage | SayDos/Program.cs:226-228 | padding succeeds iff the data is at most 0xB4000 bytes. It gives exactly 0xB4000 bytes: the data, then 0xFF |
| Repack.Repack | SayDos/Program.cs:150-228 | a written image is 0xB4000 bytes. Writing one requires every entry accepted and system sectors 0-9 and battle sectors 0x44C-0x540 present |
| Repack.MergedLayout | SayDos/Program.cs:208-221 | the merged data is the system sectors up to byte 0x1400, then the directory records, then the file sectors, then the battle sectors |
| Repack.RepackMissingSystemSector | SayDos/Program.cs:161-164 | a missing system sector stops the Write branch with that sector, before any host file is read |
| Repack.RepackRejects | SayDos/Program.cs:173-188 | with the system sectors present, the Write branch stops at the first entry whose host file is missing or misaligned |
| Repack.RepackMissingBattleSector | SayDos/Program.cs:218-221 | with the earlier inputs in place, the first missing battle sector stops the Write branch |
| Repack.RepackFinalStages | SayDos/Program.cs:223-228 | once everything is read, writing fails exactly when the pointer lies outside the merged data or that data exceeds 0xB4000 bytes, in that order |
| Repack.RepackedShape | SayDos/Program.cs:166-228 | for dump-shaped inputs, a successful write: <br>• used at most 1095 file sectors, so nothing wraps; <br>• leaves the cursor right after the file sectors; <br>• keeps the battle sector 0 or in the file area; <br>• produces an image that is the merged data with the pointer written in, then 0xFF |
| Repack.RepackedRecord | SayDos/Program.cs:205-224 | record `k` of a written image's directory is the encoding of rewritten entry `k`; the pointer never lands in the directory |
| Repack.RepackedFileByte | SayDos/Program.cs:190-210 | byte `j` of entry `k`'s host file lies at byte `512·Start + j` of the written image, unless the pointer covers it |
| Repack.RepackedBattleByte | SayDos/Program.cs:218-221 | byte `j` of battle sector `0x44C + i` lies at byte `j` of sector `cursor + i`, unless the pointer covers it |
| Repack.RepackedSystemByte | SayDos/Program.cs:161-208 | byte `j` of system sector `s` lies at byte `j` of sector `s`, unless the pointer covers it |
| Repack.RepackedPadding | SayDos/Program.cs:226-228 | everything after the battle sectors is 0xFF |
| Repack.RepackedPointer | SayDos/Program.cs:223-224 | the two bytes at `512·battleSector + 0xF6C` read as the final cursor, `0x64 + total file sectors`, where the battle sectors start |
| Repack.RepackedDirectory | SayDos/Program.cs:205-209 | a written image unpacks, and entry `k` of its table is rewritten entry `k` encoded and decoded |
| Repack.RepackedEntry | SayDos/Program.cs:193-205 | take a file entry with an ASCII token name of at most 8 and a 4-character ASCII token extension. It reads back from a written image with the same name and extension and its new start sector, unless its record is 16 equal bytes |
| Repack.WriteThenDumpFile | SayDos/Program.cs:113-119 | a file entry with fewer than 256 sectors that reads back from a written image as rewritten, and is the last with its name, unpacks to a file of the host file's length that equals it byte for byte, except the two pointer bytes |
| Repack.DumpThenWriteLosesTail | SayDos/Program.cs:218-228 | Dump then Write does not give back the original image when it holds a byte other than 0xFF past the sector where the moved battle sectors end, because Write pads that region with 0xFF |

## Left out

- File-system I/O is replaced by values:
  * reading and writing the image;
  * the sector and file folders, the current-directory changes and the existence checks of the folders.
  
  Sector artifacts and host files are maps. A later entry with the same host name overwrites an earlier one.
- The JSON file of the directory table, and its hex converters. The table is passed from Dump to Write unchanged. The converters' `MyMath` helpers are not part of this model.
- Argument-count checks, action dispatch and console output: they hold no logic beyond failing fast.
- File-name case sensitivity and the `\` path separator of the host file system: host names are compared as strings.
- The table the Write branch reads is whatever the JSON held, so the model takes any sequence of entries. A null `FileName` or `FileExt` from an edited JSON is not modelled, because the model's strings are never null. For such an entry the source throws at SayDosRootDirectory.cs:58-59 when it re-encodes it.
- The split loop's `int` index overflow cannot happen, because images are far below 2 GB.
- Ascii.PadRight: .NET pads by UTF-16 code units; the model pads by characters. The two agree for the ASCII names the directory holds.
- Ascii.EncodeDecodeBytes: `Encoding.ASCII` replaces characters above U+007F with `?`. This is modelled, but the round trip is stated only for bytes below 0x80.
- Repack.RepackedShape, Repack.RepackedRecord, Repack.RepackedFileByte, Repack.RepackedBattleByte, Repack.RepackedSystemByte, Repack.RepackedPadding, Repack.RepackedPointer, Repack.RepackedDirectory, Repack.RepackedEntry, Repack.WriteThenDumpFile, Repack.DumpThenWriteLosesTail: stated only for dump-shaped inputs, that is, 2880 entries that each encode to 16 bytes and 512-byte system and battle sectors. A dumped table with a short extension is not dump-shaped (see `Repack.DumpedShape`). Its records are 15 bytes, so every later byte of the written image shifts. For such inputs, only `Repack.RepackParts` describes the result: the stages and the merged data. `Repack.MergedLayout` also needs 16-byte records.
- Repack.MergedLayout: requires every entry to encode to 16 bytes, because the record offsets it states hold only then.
- Repack.DumpThenWriteLosesTail: Dump followed by Write does not give back the original image byte for byte. Write moves the battle sectors from 0x44C to the first free sector, pads everything after them with 0xFF, and writes short extensions as 15-byte records. No lemma states a byte-for-byte round trip.
- Unpack.Unpack: an aligned image of fewer than 100 sectors writes all its sector artifacts before the directory scan throws. The model returns only the error and no partial output.
- Unpack.Unpack: the host file system may reject the name of a dumped file, for example an empty name or one holding `?` for a byte of 0x80 or above. Such a rejection stops the source midway. The model keeps every file under its name.
- Sectors.Chunks: `i * 512` at Program.cs:190 is an `int` and wraps negative for a host file of 4 MiB or more. `Skip` then returns the whole file, and the source gets extra pieces. The model always gives `ceil(n/512)` pieces, so for such files it may report a different error (`ImageTooLarge` vs `PointerOutOfRange`). Such a file cannot fit a 720 KB image either way.
- Repack.WriteThenDumpFile: a file of 256 sectors or more is cut short on the next Dump, because `SizeInSectors` is a byte. The lemma therefore needs fewer than 256 sectors, and `RootDirectory.SizeInSectorsCounts` states the truncation.
