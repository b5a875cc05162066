/** Byte-level vocabulary shared by the codec: the unsigned integer widths the
    tool computes in, their unchecked narrowing casts, the little-endian 16-bit
    layout of BitConverter, and flattening of a list of byte blocks. */
module Bytes {

  type uint8 = x: int | 0 <= x < 0x100
  type uint16 = x: int | 0 <= x < 0x1_0000

  function Min(a: int, b: int): int {
    if a <= b then a else b
  }

  function Max(a: int, b: int): int {
    if a >= b then a else b
  }

  /** An unchecked narrowing to `ushort`: the low 16 bits of the two's-complement
      value. Dafny's `%` is Euclidean, so negative values wrap as in C#. */
  function Wrap16(x: int): uint16 {
    x % 0x1_0000
  }

  /** Narrowing leaves a value that already fits alone. */
  lemma {:induction false} Wrap16Small(x: int)
    requires 0 <= x < 0x1_0000
    ensures Wrap16(x) == x
  {
  }

  /** An unchecked narrowing to `byte`. */
  function Wrap8(x: int): uint8 {
    x % 0x100
  }

  lemma {:induction false} Wrap8Small(x: int)
    requires 0 <= x < 0x100
    ensures Wrap8(x) == x && x % 0x100 == x
  {
  }

  /** Reading a `ushort` from two bytes, low byte first (BitConverter.ToUInt16
      on a little-endian machine). */
  function FromLe16(lo: uint8, hi: uint8): uint16 {
    lo + 0x100 * hi
  }

  /** The two bytes of a `ushort`, low byte first (BitConverter.GetBytes on a
      little-endian machine). */
  function Le16(v: uint16): (r: seq<uint8>)
    ensures |r| == 2
    ensures FromLe16(r[0], r[1]) == v
  {
    [v % 0x100, v / 0x100]
  }

  /** Writing back what was read reproduces the two bytes. */
  lemma {:induction false} Le16OfFromLe16(lo: uint8, hi: uint8)
    ensures Le16(FromLe16(lo, hi)) == [lo, hi]
  {
    var v := FromLe16(lo, hi);
    assert v == hi * 0x100 + lo;
    assert v / 0x100 == hi && v % 0x100 == lo;
  }

  /** Narrowing absorbs an earlier narrowing of one summand. */
  lemma {:induction false} Wrap16Add(x: int, y: int)
    ensures Wrap16(Wrap16(x) + y) == Wrap16(x + y)
  {
    var q := x / 0x1_0000;
    assert x == 0x1_0000 * q + Wrap16(x);
    ModMultiple(Wrap16(x) + y, q);
  }

  lemma {:induction false} ModMultiple(z: int, q: int)
    ensures (z + 0x1_0000 * q) % 0x1_0000 == z % 0x1_0000
  {
    var a := z / 0x1_0000;
    var b := z % 0x1_0000;
    assert z + 0x1_0000 * q == 0x1_0000 * (a + q) + b;
  }

  function Repeat<T>(v: T, n: nat): (r: seq<T>)
    ensures |r| == n
    ensures forall i :: 0 <= i < n ==> r[i] == v
  {
    seq(n, _ => v)
  }

  /** LINQ `Skip`: drops up to `n` leading elements. */
  function Skip<T>(s: seq<T>, n: nat): seq<T> {
    s[Min(n, |s|)..]
  }

  /** LINQ `Take`: keeps up to `n` leading elements. */
  function Take<T>(s: seq<T>, n: nat): seq<T> {
    s[..Min(n, |s|)]
  }

  lemma {:induction false} SliceOfSlice<T>(s: seq<T>, lo: nat, hi: nat, i: nat, j: nat)
    requires lo <= hi <= |s| && i <= j <= hi - lo
    ensures s[lo..hi][i..j] == s[lo + i..lo + j]
  {
    var t := s[lo..hi];
    forall k | 0 <= k < j - i
      ensures t[i..j][k] == s[lo + i..lo + j][k]
    {
      assert t[i..j][k] == t[i + k] == s[lo + i + k];
    }
  }

  /** The blocks laid end to end, in order (LINQ `SelectMany(x => x)`). */
  function Concat<T>(blocks: seq<seq<T>>): seq<T> {
    if |blocks| == 0 then [] else blocks[0] + Concat(blocks[1..])
  }

  predicate AllOfWidth<T>(blocks: seq<seq<T>>, w: nat) {
    forall i :: 0 <= i < |blocks| ==> |blocks[i]| == w
  }

  lemma {:induction false} ConcatAppend<T>(a: seq<seq<T>>, b: seq<seq<T>>)
    ensures Concat(a + b) == Concat(a) + Concat(b)
    decreases |a|
  {
    if |a| == 0 {
      assert a + b == b;
    } else {
      assert (a + b)[1..] == a[1..] + b;
      ConcatAppend(a[1..], b);
    }
  }

  lemma {:induction false} MulSucc(w: nat, n: nat)
    ensures w * (n + 1) == w * n + w
  {
  }

  lemma {:induction false} ConcatLength<T>(blocks: seq<seq<T>>, w: nat)
    requires AllOfWidth(blocks, w)
    ensures |Concat(blocks)| == w * |blocks|
    decreases |blocks|
  {
    if |blocks| > 0 {
      ConcatLength(blocks[1..], w);
      MulSucc(w, |blocks| - 1);
    }
  }

  /** Block `i` of a run of `w`-wide blocks is the `i`-th `w`-wide window of
      their concatenation. */
  lemma {:induction false} ConcatBlock<T>(blocks: seq<seq<T>>, w: nat, i: nat)
    requires AllOfWidth(blocks, w)
    requires i < |blocks|
    ensures w * i + w <= |Concat(blocks)|
    ensures Concat(blocks)[w * i .. w * i + w] == blocks[i]
  {
    assert blocks == blocks[..i] + blocks[i..];
    ConcatAppend(blocks[..i], blocks[i..]);
    ConcatLength(blocks[..i], w);
    ConcatLength(blocks, w);
    MulSucc(w, i);
    assert w * (i + 1) <= w * |blocks| by {
      MulMono(w, i + 1, |blocks|);
    }
    assert Concat(blocks[i..]) == blocks[i] + Concat(blocks[i + 1..]) by {
      assert blocks[i..][1..] == blocks[i + 1..];
    }
  }

  lemma {:induction false} MulMono(w: nat, a: nat, b: nat)
    requires a <= b
    ensures w * a <= w * b
  {
  }

  /** A run of equal-width blocks is the matching window of their concatenation. */
  lemma {:induction false} ConcatSlice<T>(blocks: seq<seq<T>>, w: nat, i: nat, j: nat)
    requires AllOfWidth(blocks, w)
    requires i <= j <= |blocks|
    ensures w * i <= w * j <= |Concat(blocks)|
    ensures Concat(blocks[i..j]) == Concat(blocks)[w * i .. w * j]
  {
    var pre, mid, post := blocks[..i], blocks[i..j], blocks[j..];
    assert blocks == pre + mid + post;
    ConcatAppend(pre + mid, post);
    ConcatAppend(pre, mid);
    ConcatLength(pre, w);
    ConcatLength(pre + mid, w);
    ConcatLength(blocks, w);
    assert pre + mid == blocks[..j];
    MulMono(w, i, j);
    MulMono(w, j, |blocks|);
  }

  /** Element `j` of block `i` of a run of `w`-wide blocks sits at `w * i + j`
      in their concatenation. */
  lemma {:induction false} ConcatIndex<T>(blocks: seq<seq<T>>, w: nat, i: nat, j: nat)
    requires AllOfWidth(blocks, w)
    requires i < |blocks| && j < w
    ensures w * i + j < |Concat(blocks)|
    ensures Concat(blocks)[w * i + j] == blocks[i][j]
  {
    ConcatBlock(blocks, w, i);
    assert Concat(blocks)[w * i .. w * i + w][j] == Concat(blocks)[w * i + j];
  }
}
