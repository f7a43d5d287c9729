/** The Type 1 font file split of `MakeFontAFM`: a PFB file (Adobe Technical
    Note #5040) holds a clear-text segment that ends just after the `eexec`
    keyword, then the encrypted binary segment, then a trailer of ASCII zeros.
    Each segment may be preceded by a 6-byte header that starts with byte 128.
    The embedder keeps the first two segments and drops the trailer; it finds
    the boundaries with the search of the `Kmp` module. */
module Pfb {
  import opened Wrappers
  import opened Bytes
  import opened Kmp

  /** `eexec` in ASCII. */
  const Eexec: seq<byte> := [0x65, 0x65, 0x78, 0x65, 0x63]

  /** `00000000` in ASCII, the start of the trailer. */
  const Zeros: seq<byte> := [0x30, 0x30, 0x30, 0x30, 0x30, 0x30, 0x30, 0x30]

  /** The first byte of a PFB segment header, and the header's length. */
  const SegmentMarker := 128
  const HeaderLength := 6

  /** The two kept segments; the font records `size1 == |clear|` and
      `size2 == |binary|`. */
  datatype Segments = Segments(clear: seq<byte>, binary: seq<byte>)

  /** Where the clear-text segment starts: past the first header when the
      file starts with one. */
  function ClearStart(data: seq<byte>): nat
  {
    if |data| > 0 && data[0] == SegmentMarker then HeaderLength else 0
  }

  /** The split, with the bounds checks the source leaves out: a file too short
      for its first header, an `eexec` with no byte after the character that
      ends its line, and a second header cut short all give `None`, as a file
      without `eexec` or without the zero trailer does. */
  function Split(data: seq<byte>): Option<Segments>
  {
    var start1 := ClearStart(data);
    if |data| < start1 then None else SplitClear(data[start1..], start1 == HeaderLength)
  }

  /** The split from the start of the clear text on; `headed` says whether
      the file started with a segment header, the only case in which a
      second header is looked for. */
  function SplitClear(buf1: seq<byte>, headed: bool): Option<Segments>
  {
    var e := IndexOf(buf1, Eexec);
    if e < 0 then None
    else
      var size1 := e + 6;
      if size1 >= |buf1| then None
      else
        var skip := if headed && buf1[size1] == SegmentMarker then HeaderLength else 0;
        if |buf1| - size1 < skip then None
        else SplitBinary(buf1[..size1], buf1[size1 + skip..])
  }

  /** The last step: the binary segment runs up to the first `00000000`. */
  function SplitBinary(clear: seq<byte>, buf2: seq<byte>): Option<Segments>
  {
    var z := IndexOf(buf2, Zeros);
    if z < 0 then None else Some(Segments(clear, buf2[..z]))
  }

  /** The split as the embedder performs it, moving a start position and a
      remaining length through the file. */
  method SplitPfb(data: seq<byte>) returns (r: Option<Segments>)
    ensures r == Split(data)
  {
    var len := |data|;
    var first := if len > 0 then data[0] else 0;
    var start1 := 0;
    if first == SegmentMarker {
      if len < HeaderLength {
        return None;
      }
      start1 := HeaderLength;
      len := len - HeaderLength;
    }
    var f := MakeFail(Eexec);
    var size1 := FindString(data[start1..], Eexec, f);
    if size1 < 0 {
      return None;
    }
    size1 := size1 + 6;
    if size1 >= len {
      return None;
    }
    ghost var buf1 := data[start1..];
    assert len == |buf1|;
    var second := data[start1 + size1];
    assert second == buf1[size1];
    var start2 := start1 + size1;
    len := len - size1;
    if first == SegmentMarker && second == SegmentMarker {
      if len < HeaderLength {
        return None;
      }
      start2 := start2 + HeaderLength;
      len := len - HeaderLength;
    }
    f := MakeFail(Zeros);
    var size2 := FindString(data[start2..], Zeros, f);
    if size2 < 0 {
      return None;
    }
    ghost var skip := start2 - start1 - size1;
    assert skip == if ClearStart(data) == HeaderLength && buf1[size1] == SegmentMarker then HeaderLength else 0;
    DropOfDrop(data, start1, size1 + skip, start2);
    TakeOfDrop(data, start1, size1, start1 + size1);
    TakeOfDrop(data, start2, size2, start2 + size2);
    r := Some(Segments(data[start1..start1 + size1], data[start2..start2 + size2]));
  }

  /** What a split that succeeds keeps: the clear-text segment follows the
      first header and ends one byte past its first `eexec`; the binary
      segment holds no `00000000` and is followed in the file by one. */
  lemma SplitFound(data: seq<byte>)
    requires Split(data).Some?
    ensures var s, start1 := Split(data).value, ClearStart(data);
      && start1 + |s.clear| < |data|
      && data[start1..start1 + |s.clear|] == s.clear
      && |s.clear| >= 6 && IndexOf(s.clear, Eexec) == |s.clear| - 6
      && IndexOf(s.binary, Zeros) == -1
      && exists k :: start1 + |s.clear| <= k && FollowedByZeros(data, k, s.binary)
  {
    var start1 := ClearStart(data);
    var buf1 := data[start1..];
    var e := IndexOf(buf1, Eexec);
    var size1 := e + 6;
    assert e >= 0 && size1 < |buf1|;
    var skip := if start1 == HeaderLength && buf1[size1] == SegmentMarker then HeaderLength else 0;
    var buf2 := buf1[size1 + skip..];
    var z := IndexOf(buf2, Zeros);
    assert Split(data).value == Segments(buf1[..size1], buf2[..z]);
    SplitFoundClear(buf1, size1);
    TakeOfDrop(data, start1, size1, start1 + size1);
    DropOfDrop(data, start1, size1 + skip, start1 + size1 + skip);
    SplitFoundBinary(data, start1 + size1 + skip);
  }

  lemma SplitFoundClear(buf1: seq<byte>, size1: int)
    requires IndexOf(buf1, Eexec) >= 0 && size1 == IndexOf(buf1, Eexec) + 6 && size1 < |buf1|
    ensures IndexOf(buf1[..size1], Eexec) == size1 - 6
  {
    IndexOfPrefix(buf1, size1, Eexec);
  }

  lemma SplitFoundBinary(data: seq<byte>, k: nat)
    requires k <= |data| && IndexOf(data[k..], Zeros) >= 0
    ensures IndexOf(data[k..][..IndexOf(data[k..], Zeros)], Zeros) == -1
    ensures FollowedByZeros(data, k, data[k..][..IndexOf(data[k..], Zeros)])
  {
    var buf2 := data[k..];
    var z := IndexOf(buf2, Zeros);
    IndexOfPrefix(buf2, z, Zeros);
    IndexOfSpec(buf2, Zeros);
    assert data[k..k + z + 8] == buf2[..z + 8];
    assert buf2[..z + 8] == buf2[..z] + buf2[z..z + 8];
  }

  lemma DropOfDrop(data: seq<byte>, a: nat, i: nat, b: nat)
    requires b == a + i <= |data|
    ensures data[a..][i..] == data[b..]
  {
  }

  lemma TakeOfDrop(data: seq<byte>, a: nat, n: nat, b: nat)
    requires b == a + n <= |data|
    ensures data[a..][..n] == data[a..b]
  {
  }

  /** `b` followed by `00000000` starts at position `k` of `data`. */
  predicate FollowedByZeros(data: seq<byte>, k: int, b: seq<byte>)
  {
    0 <= k && k + |b| + 8 <= |data| && data[k..k + |b| + 8] == b + Zeros
  }

  /** The first match of `p` in `s` is the first match in any prefix of `s`
      long enough to hold it; a shorter prefix holds no match. */
  lemma IndexOfPrefix(s: seq<byte>, n: nat, p: seq<byte>)
    requires n <= |s|
    ensures IndexOf(s, p) >= 0 && IndexOf(s, p) + |p| <= n ==> IndexOf(s[..n], p) == IndexOf(s, p)
    ensures (IndexOf(s, p) == -1 || IndexOf(s, p) + |p| > n) ==> IndexOf(s[..n], p) == -1
  {
    IndexOfSpec(s, p);
    IndexOfSpec(s[..n], p);
    forall j | MatchAt(s[..n], p, j)
      ensures MatchAt(s, p, j)
    {
      assert s[..n][j..j + |p|] == s[j..j + |p|];
    }
    var k0 := IndexOf(s, p);
    if k0 >= 0 && k0 + |p| <= n {
      assert s[..n][k0..k0 + |p|] == s[k0..k0 + |p|];
      assert MatchAt(s[..n], p, k0);
    }
  }

  /** A match found in a prefix is still the first match once anything is appended. */
  lemma IndexOfExtend(a: seq<byte>, b: seq<byte>, p: seq<byte>)
    requires IndexOf(a, p) >= 0
    ensures IndexOf(a + b, p) == IndexOf(a, p)
  {
    assert (a + b)[..|a|] == a;
    IndexOfSpec(a, p);
    IndexOfSpec(a + b, p);
    var k := IndexOf(a, p);
    assert (a + b)[k..k + |p|] == a[k..k + |p|];
    IndexOfPrefix(a + b, |a|, p);
  }

  /** The 6-byte header of a PFB segment: marker, segment kind, and the
      segment length as a 32-bit little-endian number. */
  function SegmentHeader(kind: byte, n: nat): (h: seq<byte>)
    requires n < 0x1_0000_0000
    ensures |h| == HeaderLength && h[0] == SegmentMarker
  {
    [SegmentMarker, kind, n % 256, (n / 0x100) % 256, (n / 0x1_0000) % 256, n / 0x100_0000]
  }

  /** A PFB file: a clear-text segment, then a binary segment holding the
      encrypted part followed by the zero trailer. */
  function PfbFile(clear: seq<byte>, binary: seq<byte>, trailer: seq<byte>): seq<byte>
    requires |clear| < 0x1_0000_0000 && |binary| + |trailer| < 0x1_0000_0000
  {
    SegmentHeader(1, |clear|) + (clear + (SegmentHeader(2, |binary| + |trailer|) + (binary + trailer)))
  }

  /** Splitting a PFB file whose clear text ends one byte after its first
      `eexec` and whose binary part is followed by the first `00000000` gives
      back the two segments without their headers. */
  lemma SplitPfbFile(clear: seq<byte>, binary: seq<byte>, trailer: seq<byte>)
    requires |clear| < 0x1_0000_0000 && |binary| + |trailer| < 0x1_0000_0000
    requires |clear| >= 6 && IndexOf(clear, Eexec) == |clear| - 6
    requires IndexOf(binary + trailer, Zeros) == |binary|
    ensures Split(PfbFile(clear, binary, trailer)) == Some(Segments(clear, binary))
  {
    SplitSegments(SegmentHeader(1, |clear|), clear, SegmentHeader(2, |binary| + |trailer|), binary, trailer);
  }

  /** The split reads no more of a segment header than its marker: the
      segment kinds and lengths the headers record are never checked. */
  lemma SplitSegments(h1: seq<byte>, clear: seq<byte>, h2: seq<byte>, binary: seq<byte>, trailer: seq<byte>)
    requires |h1| == HeaderLength && h1[0] == SegmentMarker
    requires |h2| == HeaderLength && h2[0] == SegmentMarker
    requires |clear| >= 6 && IndexOf(clear, Eexec) == |clear| - 6
    requires IndexOf(binary + trailer, Zeros) == |binary|
    ensures Split(h1 + (clear + (h2 + (binary + trailer)))) == Some(Segments(clear, binary))
  {
    var buf1 := clear + (h2 + (binary + trailer));
    Parts(h1, buf1);
    assert ClearStart(h1 + buf1) == HeaderLength;
    SplitClearSegment(clear, h2, binary + trailer);
    SplitBinarySegment(clear, binary, trailer);
  }

  lemma SplitClearSegment(clear: seq<byte>, h2: seq<byte>, tail: seq<byte>)
    requires |h2| == HeaderLength && h2[0] == SegmentMarker
    requires |clear| >= 6 && IndexOf(clear, Eexec) == |clear| - 6
    ensures SplitClear(clear + (h2 + tail), true) == SplitBinary(clear, tail)
  {
    var rest := h2 + tail;
    var buf1 := clear + rest;
    IndexOfExtend(clear, rest, Eexec);
    Parts(clear, rest);
    assert buf1[|clear|] == SegmentMarker;
    Parts(h2, tail);
    DropOfDrop(buf1, |clear|, HeaderLength, |clear| + HeaderLength);
  }

  lemma SplitBinarySegment(clear: seq<byte>, binary: seq<byte>, trailer: seq<byte>)
    requires IndexOf(binary + trailer, Zeros) == |binary|
    ensures SplitBinary(clear, binary + trailer) == Some(Segments(clear, binary))
  {
    Parts(binary, trailer);
  }

  /** Where each part of a concatenation sits in it. */
  lemma Parts(x: seq<byte>, y: seq<byte>)
    ensures (x + y)[..|x|] == x && (x + y)[|x|..] == y
  {
  }

  /** The position of the byte `buf1[size1]` that the source reads to look for
      the second segment header, as it computes it: no check keeps it inside
      the file. */
  function MarkerReadAsWritten(data: seq<byte>): Option<int>
  {
    var start1 := ClearStart(data);
    var buf1 := if start1 <= |data| then data[start1..] else [];
    var e := IndexOf(buf1, Eexec);
    if e < 0 then None else Some(start1 + e + 6)
  }

  /** A file that ends with `eexec` makes the source read a byte past its end;
      the guarded split rejects it. */
  lemma EexecAtEndReadsPastEnd()
    ensures MarkerReadAsWritten(Eexec) == Some(6) && 6 > |Eexec|
    ensures Split(Eexec) == None
  {
    assert Eexec[0..5] == Eexec;
  }

  /** Whenever the source's read of the second marker stays inside the file,
      the guarded split reads the same byte. */
  lemma MarkerReadGuarded(data: seq<byte>)
    requires MarkerReadAsWritten(data).Some? && MarkerReadAsWritten(data).value < |data|
    ensures ClearStart(data) <= |data|
    ensures IndexOf(data[ClearStart(data)..], Eexec) + 6 < |data[ClearStart(data)..]|
  {
  }
}
