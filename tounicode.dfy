/** `WriteToUnicode`: the ToUnicode CMap (Adobe Technical Note #5411) that
    `MakeFontUFM` writes for a CFF-flavoured font instead of a CIDToGIDMap.
    Each glyph of the list becomes a one-glyph `bfrange` line
    `<gid><gid><uid>`; the lines are grouped in blocks of at most 100, each
    opened by `n beginbfrange` and closed by `endbfrange`. */
module ToUnicode {
  import opened Text
  import opened GlyphList

  /** The fixed lines before the ranges. */
  function Prologue(): string
  {
    "/CIDInit /ProcSet findresource begin\n" + "12 dict begin\n" + "begincmap\n" + "/CIDSystemInfo\n"
    + "<< /Registry (Adobe)\n" + "/Ordering (UCS)\n" + "/Supplement 0\n" + ">> def\n"
    + "/CMapName /Adobe-Identity-UCS def\n" + "/CMapType 2 def\n" + "1 begincodespacerange\n"
    + "<0000><FFFF>\n" + "endcodespacerange\n"
  }

  /** The fixed lines after the last `endbfrange`. */
  function Epilogue(): string
  {
    "endcmap\n" + "CMapName currentdict /CMap defineresource pop\n" + "end end\n"
  }

  const BlockLimit := 100

  /** The `bfrange` line of one glyph. */
  function EntryLine(e: GlyphEntry): string
  {
    var fromTo := "<" + Hex4(e.gid) + ">";
    var uniChr := "<" + Hex4(e.uid) + ">";
    fromTo + fromTo + uniChr + "\n"
  }

  /** The lines of entries `i` to `j - 1`. */
  function Lines(list: seq<GlyphEntry>, i: nat, j: nat): string
    requires i <= j <= |list|
    decreases j - i
  {
    if i == j then "" else EntryLine(list[i]) + Lines(list, i + 1, j)
  }

  function Entries(es: seq<GlyphEntry>): string
    decreases |es|
  {
    if es == [] then "" else EntryLine(es[0]) + Entries(es[1..])
  }


  lemma {:induction false} LinesAreEntries(list: seq<GlyphEntry>, i: nat, j: nat)
    requires i <= j <= |list|
    ensures Lines(list, i, j) == Entries(list[i..j])
    decreases j - i
  {
    if i < j {
      LinesAreEntries(list, i + 1, j);
      assert list[i..j][1..] == list[i + 1..j];
    }
  }

  /** How many entries the block starting at entry `b` holds. */
  function BlockSize(list: seq<GlyphEntry>, b: nat): nat
    requires b <= |list|
  {
    if |list| - b > BlockLimit then BlockLimit else |list| - b
  }

  /** Where the block starting at entry `b` ends. */
  function BlockEnd(list: seq<GlyphEntry>, b: nat): nat
    requires b <= |list|
  {
    b + BlockSize(list, b)
  }

  /** The blocks from entry `b` on; every block after the first is preceded by
      the `endbfrange` of the block before it. */
  function Body(list: seq<GlyphEntry>, b: nat): string
    requires b <= |list|
    decreases |list| - b
  {
    if b == |list| then ""
    else RangeHeader(BlockSize(list, b), b == 0) + (Lines(list, b, BlockEnd(list, b)) + Body(list, BlockEnd(list, b)))
  }

  /** `n beginbfrange`, after the `endbfrange` of the previous block unless
      this is the first. */
  function RangeHeader(n: int, first: bool): string
  {
    (if first then "" else "endbfrange\n") + IntToString(n) + " beginbfrange\n"
  }

  /** The whole CMap. The closing `endbfrange` is written even when the list
      is empty and no block was opened. */
  function ToUnicodeText(list: seq<GlyphEntry>): string
  {
    Prologue() + Body(list, 0) + "endbfrange\n" + Epilogue()
  }

  /** The writer. */
  method WriteToUnicode(list: seq<GlyphEntry>) returns (out: string)
    ensures out == ToUnicodeText(list)
  {
    out := Prologue();
    out := WriteRanges(out, list);
    out := out + Epilogue();
  }

  /** The range loop of the writer, appending to `out0`: `size` counts down
      the entries left in the open block, which ends at entry `stop`. */
  method WriteRanges(out0: string, list: seq<GlyphEntry>) returns (out: string)
    ensures out == out0 + Body(list, 0) + "endbfrange\n"
  {
    ghost var whole := out0 + Body(list, 0);
    out := out0;
    var size := 0;
    var k := 0;
    ghost var stop := 0;
    Started(list, out0);
    while k < |list|
      invariant 0 <= size && stop == k + size
      invariant Progress(list, k, stop, out, whole)
      decreases |list| - k
    {
      out, size, stop := WriteEntry(out, list, k, size, stop, whole);
      k := k + 1;
    }
    Finished(list, k, stop, out, whole);
    out := out + "endbfrange\n";
  }

  /** The text written so far followed by what is left to write, from entry
      `k` in the open block that ends at entry `stop`, is the whole. */
  ghost predicate Progress(list: seq<GlyphEntry>, k: nat, stop: nat, written: string, whole: string)
  {
    k <= stop <= |list| && written + Remaining(list, k, stop) == whole
  }

  lemma Started(list: seq<GlyphEntry>, out0: string)
    ensures Progress(list, 0, 0, out0, out0 + Body(list, 0))
  {
    assert Lines(list, 0, 0) == "";
    assert "" + Body(list, 0) == Body(list, 0);
  }

  lemma Finished(list: seq<GlyphEntry>, k: nat, stop: nat, written: string, whole: string)
    requires Progress(list, k, stop, written, whole) && k == |list|
    ensures written == whole
  {
    assert Remaining(list, k, stop) == "";
    assert written + "" == written;
  }

  /** Opens the block at entry `k`: closes the block before it unless this
      is the first, then writes how many entries the new block holds. */
  method OpenRange(out: string, list: seq<GlyphEntry>, k: nat) returns (written: string, size: int)
    requires k < |list|
    ensures size == BlockSize(list, k) && 1 <= size <= |list| - k
    ensures written == out + RangeHeader(size, k == 0)
  {
    written := out;
    if k != 0 {
      written := written + "endbfrange\n";
    }
    size := if |list| - k > 100 then 100 else |list| - k;
    written := written + IntToString(size) + " beginbfrange\n";
    HeaderAppended(out, k == 0, size);
  }

  /** One turn of the range loop: opens a new block when the open one is
      used up, then writes the line of entry `k`. */
  method WriteEntry(out: string, list: seq<GlyphEntry>, k: nat, size: int, ghost stop: int, ghost whole: string)
    returns (written: string, left: int, ghost stop': int)
    requires k < |list| && 0 <= size && stop == k + size
    requires Progress(list, k, stop, out, whole)
    ensures 0 <= left && stop' == k + 1 + left
    ensures Progress(list, k + 1, stop', written, whole)
  {
    written, left, stop' := out, size, stop;
    if left == 0 {
      ghost var before := written;
      written, left := OpenRange(written, list, k);
      stop' := k + left;
      OpenBlock(list, k, left, stop', before, whole);
    }
    ghost var head := written;
    left := left - 1;
    var fromTo := "<" + Hex4(list[k].gid) + ">";
    var uniChr := "<" + Hex4(list[k].uid) + ">";
    written := written + fromTo + fromTo + uniChr + "\n";
    EntryWritten(head, list[k]);
    NextEntry(list, k, stop', head, whole);
  }

  lemma EntryWritten(out: string, e: GlyphEntry)
    ensures var fromTo := "<" + Hex4(e.gid) + ">"; var uniChr := "<" + Hex4(e.uid) + ">";
      out + fromTo + fromTo + uniChr + "\n" == out + EntryLine(e)
  {
    var fromTo := "<" + Hex4(e.gid) + ">";
    var uniChr := "<" + Hex4(e.uid) + ">";
    Assoc(out, fromTo, fromTo);
    Assoc(out, fromTo + fromTo, uniChr);
    Assoc(out, fromTo + fromTo + uniChr, "\n");
  }

  /** What is left to write once entry `k` is reached in the open block that
      ends at entry `stop`. */
  function Remaining(list: seq<GlyphEntry>, k: nat, stop: nat): string
    requires k <= stop <= |list|
  {
    Lines(list, k, stop) + Body(list, stop)
  }

  /** Opening the block at entry `k` moves its header from the text still to
      write to the text written. */
  lemma OpenBlock(list: seq<GlyphEntry>, k: nat, n: int, stop: int, before: string, whole: string)
    requires k < |list| && n == BlockSize(list, k) && stop == k + n
    requires Progress(list, k, k, before, whole)
    ensures Progress(list, k, stop, before + RangeHeader(n, k == 0), whole)
  {
    assert stop == BlockEnd(list, k);
    assert Lines(list, k, k) == "";
    assert "" + Body(list, k) == Body(list, k);
    Assoc(before, RangeHeader(n, k == 0), Remaining(list, k, stop));
  }

  lemma HeaderAppended(before: string, first: bool, n: int)
    ensures (if first then before else before + "endbfrange\n") + IntToString(n) + " beginbfrange\n"
         == before + RangeHeader(n, first)
  {
    var d := IntToString(n);
    var b := " beginbfrange\n";
    if first {
      assert "" + d == d;
      Assoc(before, d, b);
    } else {
      var e := "endbfrange\n";
      Assoc(before, e, d);
      Assoc(before, e + d, b);
    }
  }

  /** Writing entry `k` moves its line from the text still to write to the
      text written. */
  lemma NextEntry(list: seq<GlyphEntry>, k: nat, stop: nat, written: string, whole: string)
    requires k < stop && Progress(list, k, stop, written, whole)
    ensures Progress(list, k + 1, stop, written + EntryLine(list[k]), whole)
  {
    var line, l, b := EntryLine(list[k]), Lines(list, k + 1, stop), Body(list, stop);
    assert Lines(list, k, stop) == line + l;
    Assoc(line, l, b);
    Assoc(written, line, l + b);
  }

  /** The entries the blocks from `b` on hold, block by block. */
  function Blocks(list: seq<GlyphEntry>, b: nat): seq<seq<GlyphEntry>>
    requires b <= |list|
    decreases |list| - b
  {
    if b == |list| then [] else [list[b..BlockEnd(list, b)]] + Blocks(list, BlockEnd(list, b))
  }

  function Flatten(bs: seq<seq<GlyphEntry>>): seq<GlyphEntry>
  {
    if bs == [] then [] else bs[0] + Flatten(bs[1..])
  }

  /** The blocks hold every entry once, in list order. */
  lemma {:induction false} BlocksFlatten(list: seq<GlyphEntry>, b: nat)
    requires b <= |list|
    ensures Flatten(Blocks(list, b)) == list[b..]
    decreases |list| - b
  {
    if b < |list| {
      var e := BlockEnd(list, b);
      BlocksFlatten(list, e);
      assert Blocks(list, b)[1..] == Blocks(list, e);
      assert list[b..] == list[b..e] + list[e..];
    }
  }

  /** Each block holds between 1 and 100 entries, and only the last may hold
      fewer than 100; their number is the number of entries divided by 100,
      rounded up. */
  lemma {:induction false} BlocksSizes(list: seq<GlyphEntry>, b: nat)
    requires b <= |list|
    ensures forall i :: 0 <= i < |Blocks(list, b)| ==> 1 <= |Blocks(list, b)[i]| <= BlockLimit
    ensures forall i :: 0 <= i < |Blocks(list, b)| - 1 ==> |Blocks(list, b)[i]| == BlockLimit
    ensures |Blocks(list, b)| == (|list| - b + BlockLimit - 1) / BlockLimit
    decreases |list| - b
  {
    if b < |list| {
      var e := BlockEnd(list, b);
      BlocksSizes(list, e);
      var bs, rest := Blocks(list, b), Blocks(list, e);
      assert bs[1..] == rest;
      assert |bs[0]| == BlockSize(list, b);
      forall i | 0 <= i < |bs|
        ensures 1 <= |bs[i]| <= BlockLimit
      {
        if i > 0 {
          assert bs[i] == rest[i - 1];
        }
      }
      forall i | 0 <= i < |bs| - 1
        ensures |bs[i]| == BlockLimit
      {
        if i > 0 {
          assert bs[i] == rest[i - 1];
        } else {
          assert rest != [];
        }
      }
    }
  }

  /** The text of the blocks from `b` on is their headers and entries, with an
      `endbfrange` between each two. */
  function BlocksText(bs: seq<seq<GlyphEntry>>, first: bool): string
  {
    if bs == [] then ""
    else RangeHeader(|bs[0]|, first) + (Entries(bs[0]) + BlocksText(bs[1..], false))
  }

  lemma {:induction false} BodyIsBlocks(list: seq<GlyphEntry>, b: nat)
    requires b <= |list|
    ensures Body(list, b) == BlocksText(Blocks(list, b), b == 0)
    decreases |list| - b
  {
    if b < |list| {
      var e := BlockEnd(list, b);
      assert e != 0;
      BodyIsBlocks(list, e);
      var bs := Blocks(list, b);
      assert bs[0] == list[b..e] && bs[1..] == Blocks(list, e);
      LinesAreEntries(list, b, e);
      assert |bs[0]| == BlockSize(list, b);
      assert BlocksText(bs, b == 0) == RangeHeader(|bs[0]|, b == 0) + (Entries(bs[0]) + BlocksText(bs[1..], false));
    }
  }

  /** One line per glyph: `<gid><gid><uid>` with both ids read back from the hexadecimal. */
  lemma EntryLineLayout(e: GlyphEntry)
    requires 0 <= e.gid < 0x1_0000 && 0 <= e.uid < 0x1_0000
    ensures var s := EntryLine(e);
      |s| == 19 && s[1..5] == Hex4(e.gid) && s[7..11] == Hex4(e.gid) && s[13..17] == Hex4(e.uid)
  {
    HexLength(e.gid);
    HexLength(e.uid);
    LineSlices(Hex4(e.gid), Hex4(e.uid));
  }

  /** Reading the glyph id and the Unicode code back from the line of a
      glyph gives the entry, for ids that fit four hexadecimal digits. */
  lemma EntryLineReadsBack(e: GlyphEntry)
    requires 0 <= e.gid < 0x1_0000 && 0 <= e.uid < 0x1_0000
    ensures |EntryLine(e)| == 19
    ensures HexValue(EntryLine(e)[1..5]) == e.gid && HexValue(EntryLine(e)[13..17]) == e.uid
  {
    EntryLineLayout(e);
    Hex4Value(e.gid);
    Hex4Value(e.uid);
  }

  lemma Hex4Value(v: int)
    requires 0 <= v < 0x1_0000
    ensures HexValue(Hex4(v)) == v
  {
    Hex4RoundTrip(v);
    assert v % 0x1_0000_0000 == v;
  }

  /** Where the three four-digit fields sit in a `bfrange` line. */
  lemma LineSlices(g: string, u: string)
    requires |g| == 4 && |u| == 4
    ensures var f, v := "<" + g + ">", "<" + u + ">"; var s := f + f + v + "\n";
      |s| == 19 && s[1..5] == g && s[7..11] == g && s[13..17] == u
  {
    var f, v := "<" + g + ">", "<" + u + ">";
    assert f[1..5] == g && v[1..5] == u;
    var s := f + f + v + "\n";
    assert s[1..5] == f[1..5] && s[7..11] == f[1..5] && s[13..17] == v[1..5];
  }

  lemma HexLength(v: int)
    requires 0 <= v < 0x1_0000
    ensures |Hex4(v)| == 4
  {
    NatToHexLength(v);
    assert v % 0x1_0000_0000 == v;
  }

  lemma {:induction false} NatToHexLength(n: nat)
    ensures n < 0x1_0000 ==> |NatToHex(n)| <= 4
    ensures n < 0x1000 ==> |NatToHex(n)| <= 3
    ensures n < 0x100 ==> |NatToHex(n)| <= 2
    ensures n < 0x10 ==> |NatToHex(n)| == 1
    decreases n
  {
    if n >= 16 {
      NatToHexLength(n / 16);
    }
  }
}
