/** The text operations the directory codec uses: ASCII decoding and encoding
    with '?' replacement (Encoding.ASCII), whitespace trimming at both ends
    (String.Trim) and right padding with spaces (String.PadRight). */
module Ascii {
  import opened Bytes

  /** The characters Char.IsWhiteSpace accepts, which String.Trim removes. */
  predicate IsWhiteSpace(c: char) {
    || ('\t' <= c <= '\r')
    || c == ' '
    || c == '\U{85}'
    || c == '\U{A0}'
    || c == '\U{1680}'
    || ('\U{2000}' <= c <= '\U{200A}')
    || c == '\U{2028}'
    || c == '\U{2029}'
    || c == '\U{202F}'
    || c == '\U{205F}'
    || c == '\U{3000}'
  }

  predicate IsAscii(c: char) {
    (c as int) < 0x80
  }

  predicate AllAscii(s: string) {
    forall i :: 0 <= i < |s| ==> IsAscii(s[i])
  }

  /** One byte through Encoding.ASCII.GetString: bytes from 0x80 up become '?'. */
  function DecodeByte(b: uint8): char {
    if b < 0x80 then b as char else '?'
  }

  /** One character through Encoding.ASCII.GetBytes: non-ASCII becomes '?'. */
  function EncodeChar(c: char): uint8 {
    if IsAscii(c) then c as int else '?' as int
  }

  function DecodeBytes(bs: seq<uint8>): (s: string)
    ensures |s| == |bs|
  {
    seq(|bs|, i requires 0 <= i < |bs| => DecodeByte(bs[i]))
  }

  function EncodeChars(s: string): (bs: seq<uint8>)
    ensures |bs| == |s|
  {
    seq(|s|, i requires 0 <= i < |s| => EncodeChar(s[i]))
  }

  /** Decoding gives back ASCII text, which encodes to the original bytes. */
  lemma {:induction false} EncodeDecodeBytes(bs: seq<uint8>)
    requires forall i :: 0 <= i < |bs| ==> bs[i] < 0x80
    ensures AllAscii(DecodeBytes(bs))
    ensures EncodeChars(DecodeBytes(bs)) == bs
  {
  }

  /** ASCII text survives encoding and decoding. */
  lemma {:induction false} DecodeEncodeChars(s: string)
    requires AllAscii(s)
    ensures DecodeBytes(EncodeChars(s)) == s
  {
  }

  /** A string with nothing to trim: empty, or no whitespace at either end. */
  predicate IsToken(s: string) {
    |s| == 0 || (!IsWhiteSpace(s[0]) && !IsWhiteSpace(s[|s| - 1]))
  }

  predicate AllWhiteSpace(s: string) {
    forall i :: 0 <= i < |s| ==> IsWhiteSpace(s[i])
  }

  /** How many whitespace characters `s` starts with. */
  function LeadingWhiteSpace(s: string): (n: nat)
    ensures n <= |s| && AllWhiteSpace(s[..n])
    ensures n == |s| || !IsWhiteSpace(s[n])
  {
    if |s| > 0 && IsWhiteSpace(s[0]) then
      var m := LeadingWhiteSpace(s[1..]);
      WhiteSpaceHead(s, m + 1);
      m + 1
    else 0
  }

  /** How many whitespace characters `s` ends with. */
  function TrailingWhiteSpace(s: string): (n: nat)
    ensures n <= |s| && AllWhiteSpace(s[|s| - n..])
    ensures n == |s| || !IsWhiteSpace(s[|s| - n - 1])
  {
    if |s| > 0 && IsWhiteSpace(s[|s| - 1]) then
      var m := TrailingWhiteSpace(s[..|s| - 1]);
      WhiteSpaceTail(s, |s| - 1 - m);
      m + 1
    else 0
  }

  /** String.TrimStart(): the longest suffix that does not start with whitespace. */
  function TrimStart(s: string): (r: string)
    ensures |r| <= |s| && r == s[|s| - |r|..]
    ensures AllWhiteSpace(s[..|s| - |r|])
    ensures |r| == 0 || !IsWhiteSpace(r[0])
  {
    s[LeadingWhiteSpace(s)..]
  }

  /** String.TrimEnd(): the longest prefix that does not end with whitespace. */
  function TrimEnd(s: string): (r: string)
    ensures |r| <= |s| && r == s[..|r|]
    ensures AllWhiteSpace(s[|r|..])
    ensures |r| == 0 || !IsWhiteSpace(r[|r| - 1])
  {
    s[..|s| - TrailingWhiteSpace(s)]
  }

  /** A whitespace character followed by whitespace up to `n` is whitespace
      up to `n`. */
  lemma {:induction false} WhiteSpaceHead(s: string, n: nat)
    requires 0 < n <= |s| && IsWhiteSpace(s[0]) && AllWhiteSpace(s[1..][..n - 1])
    ensures AllWhiteSpace(s[..n]) && (n == |s| || s[1..][n - 1] == s[n])
  {
    forall i | 0 <= i < n
      ensures IsWhiteSpace(s[..n][i])
    {
      if i > 0 {
        assert s[..n][i] == s[1..][..n - 1][i - 1];
      }
    }
  }

  /** Whitespace from `n` up to a whitespace last character is whitespace
      from `n` on. */
  lemma {:induction false} WhiteSpaceTail(s: string, n: nat)
    requires n < |s| && IsWhiteSpace(s[|s| - 1]) && AllWhiteSpace(s[..|s| - 1][n..])
    ensures AllWhiteSpace(s[n..]) && (n == 0 || s[..|s| - 1][n - 1] == s[n - 1])
  {
    forall i | 0 <= i < |s| - n
      ensures IsWhiteSpace(s[n..][i])
    {
      if i < |s| - 1 - n {
        assert s[n..][i] == s[..|s| - 1][n..][i];
      }
    }
  }

  /** String.Trim(): whitespace removed from both ends. Where the result
      sits in `s` is stated by `TrimIsWindow`. */
  function Trim(s: string): (r: string)
    ensures |r| <= |s|
    ensures IsToken(r)
  {
    TrimEnd(TrimStart(s))
  }

  /** `r` sits at offset `i` of `s` with only whitespace around it. */
  predicate TrimWindow(s: string, i: nat, r: string) {
    && i + |r| <= |s| && r == s[i..i + |r|]
    && AllWhiteSpace(s[..i]) && AllWhiteSpace(s[i + |r|..])
  }

  /** What trimming leaves is the window of `s` between a whitespace-only
      head and a whitespace-only tail. */
  lemma {:induction false} TrimIsWindow(s: string)
    ensures exists i: nat :: TrimWindow(s, i, Trim(s))
  {
    var t := TrimStart(s);
    var i := |s| - |t|;
    TrimEndWindow(s, i, t);
    assert TrimWindow(s, i, Trim(s));
  }

  /** Trimming the end of a suffix `t` at offset `i` leaves a window of `s`
      with a whitespace-only tail. */
  lemma {:induction false} TrimEndWindow(s: string, i: nat, t: string)
    requires i <= |s| && t == s[i..]
    ensures var r := TrimEnd(t);
            i + |r| <= |s| && r == s[i..i + |r|] && AllWhiteSpace(s[i + |r|..])
  {
    var r := TrimEnd(t);
    assert s[i..][..|r|] == s[i..i + |r|];
    assert s[i + |r|..] == t[|r|..];
  }

  /** String.PadRight(w): `s` followed by enough spaces to reach width `w`;
      a string already that wide is left alone. */
  function PadRight(s: string, w: nat): (r: string)
    ensures |r| == Max(|s|, w)
    ensures r[..|s|] == s
    ensures forall i :: |s| <= i < |r| ==> r[i] == ' '
  {
    if |s| >= w then s else s + Repeat(' ', w - |s|)
  }

  lemma {:induction false} TrimStartSpaces(n: nat)
    ensures TrimStart(Repeat(' ', n)) == ""
  {
    if n > 0 {
      assert Repeat(' ', n)[1..] == Repeat(' ', n - 1);
      TrimStartSpaces(n - 1);
    }
  }

  lemma {:induction false} TrimEndSpaces(t: string, n: nat)
    requires IsToken(t)
    ensures TrimEnd(t + Repeat(' ', n)) == t
  {
    var p := t + Repeat(' ', n);
    TrailingSpaces(t, n);
    assert p[..|t|] == t;
  }

  lemma {:induction false} TrailingSpaces(t: string, n: nat)
    requires IsToken(t)
    ensures TrailingWhiteSpace(t + Repeat(' ', n)) == n
  {
    var p := t + Repeat(' ', n);
    if n == 0 {
      assert p == t;
    } else {
      assert p[|p| - 1] == ' ';
      assert p[..|p| - 1] == t + Repeat(' ', n - 1);
      TrailingSpaces(t, n - 1);
    }
  }

  /** Trimming undoes right padding of a token. */
  lemma {:induction false} TrimPadded(t: string, w: nat)
    requires IsToken(t)
    ensures Trim(PadRight(t, w)) == t
  {
    var n := if |t| >= w then 0 else w - |t|;
    var p := PadRight(t, w);
    assert p == t + Repeat(' ', n);
    if |t| == 0 {
      assert p == Repeat(' ', n);
      TrimStartSpaces(n);
    } else {
      assert TrimStart(p) == p;
      TrimEndSpaces(t, n);
    }
  }

  /** Trimming removes nothing from a token. */
  lemma {:induction false} TrimToken(t: string)
    requires IsToken(t)
    ensures Trim(t) == t
  {
    TrimPadded(t, 0);
  }
}
