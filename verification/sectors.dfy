/** The sector geometry of the disk and the splitting of a byte buffer into
    512-byte sectors. */
module Sectors {
  import opened Bytes
  import opened Outcome

  const SectorSize: nat := 0x200
  /** First sector of the file area; the sectors before it are the system
      sectors and the root directory. */
  const SectorFileStart: nat := 0x64

  predicate FullSectors(sectors: seq<seq<uint8>>) {
    AllOfWidth(sectors, SectorSize)
  }

  /** Consecutive 512-byte pieces of `data`, the last one possibly shorter:
      piece `k` is `Skip(512 * k).Take(512)`, and only non-empty pieces are
      kept. What the pieces are is stated by `ChunkPieces`. */
  function Chunks(data: seq<uint8>): (r: seq<seq<uint8>>)
    ensures |r| == (|data| + SectorSize - 1) / SectorSize
    decreases |data|
  {
    if |data| == 0 then []
    else if |data| <= SectorSize then [data]
    else
      var rest := Chunks(data[SectorSize..]);
      assert |data[SectorSize..]| + SectorSize - 1 + SectorSize == |data| + SectorSize - 1;
      [data[..SectorSize]] + rest
  }

  /** The pieces are non-empty, piece `k` is the `k`-th 512-byte window of
      `data` (clipped at its end), and laid end to end they are `data`. */
  lemma {:induction false} ChunkPieces(data: seq<uint8>)
    ensures Concat(Chunks(data)) == data
    ensures forall k :: 0 <= k < |Chunks(data)| ==> 0 < |Chunks(data)[k]|
    ensures forall k :: 0 <= k < |Chunks(data)| ==>
              SectorSize * k < |data| && Chunks(data)[k] == data[SectorSize * k .. Min(SectorSize * k + SectorSize, |data|)]
    decreases |data|
  {
    if |data| > SectorSize {
      var tail := data[SectorSize..];
      ChunkPieces(tail);
      assert Chunks(data) == [data[..SectorSize]] + Chunks(tail);
      ConcatCons(data, Chunks(tail));
      WindowsCons(data, Chunks(tail));
    } else if |data| > 0 {
      assert Chunks(data) == [data];
      assert Concat(Chunks(data)) == data + Concat([]);
    }
  }

  /** The first sector followed by the pieces of the rest lays out as `data`. */
  lemma {:induction false} ConcatCons(data: seq<uint8>, rest: seq<seq<uint8>>)
    requires |data| > SectorSize && Concat(rest) == data[SectorSize..]
    ensures Concat([data[..SectorSize]] + rest) == data
  {
    var r := [data[..SectorSize]] + rest;
    assert r[1..] == rest;
    assert data == data[..SectorSize] + data[SectorSize..];
  }

  /** The first sector followed by the windows of the rest are the windows
      of `data`. */
  lemma {:induction false} WindowsCons(data: seq<uint8>, rest: seq<seq<uint8>>)
    requires |data| > SectorSize
    requires forall k :: 0 <= k < |rest| ==> 0 < |rest[k]|
    requires forall k :: 0 <= k < |rest| ==>
               SectorSize * k < |data| - SectorSize
               && rest[k] == data[SectorSize..][SectorSize * k .. Min(SectorSize * k + SectorSize, |data| - SectorSize)]
    ensures var r := [data[..SectorSize]] + rest;
            forall k :: 0 <= k < |r| ==>
              && 0 < |r[k]| && SectorSize * k < |data|
              && r[k] == data[SectorSize * k .. Min(SectorSize * k + SectorSize, |data|)]
  {
    var r := [data[..SectorSize]] + rest;
    ShiftedPieces(data);
    forall k | 0 <= k < |r|
      ensures 0 < |r[k]| && SectorSize * k < |data|
      ensures r[k] == data[SectorSize * k .. Min(SectorSize * k + SectorSize, |data|)]
    {
      if k > 0 {
        assert r[k] == rest[k - 1];
      }
    }
  }

  /** Piece `k - 1` of what follows the first sector is piece `k` of the whole. */
  lemma {:induction false} ShiftedPieces(data: seq<uint8>)
    requires |data| > SectorSize
    ensures forall k :: 1 <= k ==> SectorSize * (k - 1) < |data| - SectorSize ==>
              data[SectorSize..][SectorSize * (k - 1) .. Min(SectorSize * (k - 1) + SectorSize, |data| - SectorSize)]
                == data[SectorSize * k .. Min(SectorSize * k + SectorSize, |data|)]
  {
    forall k | 1 <= k && SectorSize * (k - 1) < |data| - SectorSize
      ensures data[SectorSize..][SectorSize * (k - 1) .. Min(SectorSize * (k - 1) + SectorSize, |data| - SectorSize)]
                == data[SectorSize * k .. Min(SectorSize * k + SectorSize, |data|)]
    {
      var lo := SectorSize * (k - 1);
      var hi := Min(lo + SectorSize, |data| - SectorSize);
      assert SectorSize + lo == SectorSize * k;
      assert SectorSize + hi == Min(SectorSize * k + SectorSize, |data|);
      SliceOfSlice(data, SectorSize, |data|, lo, hi);
    }
  }

  /** A buffer that fills whole sectors splits into full sectors only. */
  lemma {:induction false} ChunksOfAligned(data: seq<uint8>)
    requires |data| % SectorSize == 0
    ensures |Chunks(data)| == |data| / SectorSize
    ensures FullSectors(Chunks(data))
    ensures Concat(Chunks(data)) == data
  {
    var r := Chunks(data);
    ChunkPieces(data);
    forall k | 0 <= k < |r|
      ensures |r[k]| == SectorSize
    {
      assert SectorSize * k + SectorSize <= |data| by {
        assert k < |data| / SectorSize;
      }
    }
  }

  /** The sector split of an image read for unpacking. Each sector is a fixed
      512-byte copy, so an image whose length is not a whole number of sectors
      fails on its last copy. */
  function Split(image: seq<uint8>): (r: Result<seq<seq<uint8>>>)
    ensures r.Ok? <==> |image| % SectorSize == 0
    ensures r.Err? ==> r.error == MisalignedImage(|image|)
    ensures r.Ok? ==> |r.value| == |image| / SectorSize && FullSectors(r.value)
    ensures r.Ok? ==> forall k :: 0 <= k < |r.value| ==>
                        r.value[k] == image[SectorSize * k .. SectorSize * k + SectorSize]
    ensures r.Ok? ==> Concat(r.value) == image
  {
    if |image| % SectorSize != 0 then
      Err(MisalignedImage(|image|))
    else
      ChunksOfAligned(image);
      ChunkPieces(image);
      Ok(Chunks(image))
  }

  /** Sector `s` of a split image is its `s`-th 512-byte window. */
  lemma {:induction false} SectorOfImage(image: seq<uint8>, s: nat)
    requires Split(image).Ok? && s < |image| / SectorSize
    ensures SectorSize * s + SectorSize <= |image|
    ensures Split(image).value[s] == image[SectorSize * s .. SectorSize * s + SectorSize]
  {
  }
}
