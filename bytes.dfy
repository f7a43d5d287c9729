/** Bytes of a binary font file and the big-endian integer readers
    `ReadShort` and `ReadInt` of makefont.cpp. A read that would pass the end
    of the file yields `None` instead of the unspecified bytes the stream
    would leave in the source's buffer. */
module Bytes {
  import opened Wrappers

  type byte = x: int | 0 <= x < 256

  /** Two's complement reading of an unsigned value whose top bit is worth `half`. */
  function Signed(u: int, half: int): int
  {
    if u >= half then u - 2 * half else u
  }

  /** makefont.cpp `ReadShort`: a big-endian signed 16-bit integer. */
  function ReadShort(data: seq<byte>, pos: int): (r: Option<int>)
    ensures r.Some? <==> 0 <= pos && pos + 2 <= |data|
    ensures r.Some? ==> -0x8000 <= r.value < 0x8000
    ensures r.Some? ==> (r.value + 0x10000) % 0x10000 == data[pos] as int * 256 + data[pos + 1] as int
  {
    if 0 <= pos && pos + 2 <= |data| then
      Some(Signed(data[pos] as int * 256 + data[pos + 1] as int, 0x8000))
    else None
  }

  /** makefont.cpp `ReadInt`: a big-endian signed 32-bit integer. */
  function ReadInt(data: seq<byte>, pos: int): (r: Option<int>)
    ensures r.Some? <==> 0 <= pos && pos + 4 <= |data|
    ensures r.Some? ==> -0x8000_0000 <= r.value < 0x8000_0000
  {
    if 0 <= pos && pos + 4 <= |data| then
      var b0, b1, b2, b3 := data[pos] as int, data[pos + 1] as int, data[pos + 2] as int, data[pos + 3] as int;
      Some(Signed(((b0 * 256 + b1) * 256 + b2) * 256 + b3, 0x8000_0000))
    else None
  }

  /** The two bytes a big-endian writer emits for a signed 16-bit value. */
  function ShortBytes(v: int): (b: seq<byte>)
    requires -0x8000 <= v < 0x8000
    ensures |b| == 2
  {
    var u := if v < 0 then v + 0x10000 else v;
    [u / 256, u % 256]
  }

  /** The four bytes a big-endian writer emits for a signed 32-bit value:
      the unsigned reading, taken apart one byte at a time from the low end. */
  function IntBytes(v: int): (b: seq<byte>)
    requires -0x8000_0000 <= v < 0x8000_0000
    ensures |b| == 4
  {
    var u := if v < 0 then v + 0x1_0000_0000 else v;
    var q1 := u / 256;
    var q2 := q1 / 256;
    [q2 / 256, q2 % 256, q1 % 256, u % 256]
  }

  lemma ReadShortRoundTrip(v: int, prefix: seq<byte>, suffix: seq<byte>)
    requires -0x8000 <= v < 0x8000
    ensures ReadShort(prefix + ShortBytes(v) + suffix, |prefix|) == Some(v)
  {
    var data := prefix + ShortBytes(v) + suffix;
    var u := if v < 0 then v + 0x10000 else v;
    assert data[|prefix|] == u / 256 && data[|prefix| + 1] == u % 256;
  }

  lemma ReadIntRoundTrip(v: int, prefix: seq<byte>, suffix: seq<byte>)
    requires -0x8000_0000 <= v < 0x8000_0000
    ensures ReadInt(prefix + IntBytes(v) + suffix, |prefix|) == Some(v)
  {
    var data := prefix + IntBytes(v) + suffix;
    var p := |prefix|;
    var u := if v < 0 then v + 0x1_0000_0000 else v;
    var q1 := u / 256;
    var q2 := q1 / 256;
    assert data[p] == q2 / 256 && data[p + 1] == q2 % 256;
    assert data[p + 2] == q1 % 256 && data[p + 3] == u % 256;
    assert q2 == (q2 / 256) * 256 + q2 % 256;
    assert q1 == q2 * 256 + q1 % 256;
    assert u == q1 * 256 + u % 256;
  }

  /** A big-endian 32-bit value found anywhere in a file reads back as itself. */
  lemma ReadIntAt(data: seq<byte>, pos: int, v: int)
    requires -0x8000_0000 <= v < 0x8000_0000
    requires 0 <= pos && pos + 4 <= |data| && data[pos..pos + 4] == IntBytes(v)
    ensures ReadInt(data, pos) == Some(v)
  {
    assert data == data[..pos] + IntBytes(v) + data[pos + 4..];
    ReadIntRoundTrip(v, data[..pos], data[pos + 4..]);
  }

  /** A big-endian 16-bit value found anywhere in a file reads back as itself. */
  lemma ReadShortAt(data: seq<byte>, pos: int, v: int)
    requires -0x8000 <= v < 0x8000
    requires 0 <= pos && pos + 2 <= |data| && data[pos..pos + 2] == ShortBytes(v)
    ensures ReadShort(data, pos) == Some(v)
  {
    assert data == data[..pos] + ShortBytes(v) + data[pos + 2..];
    ReadShortRoundTrip(v, data[..pos], data[pos + 2..]);
  }
}
