/** `MakeFontUFM`: the compiler from a Unicode font metrics file (the AFM
    format with `U` records keyed by Unicode code) to the definition of a
    Unicode TrueType or OpenType font. Besides the width and glyph maps it
    fills a 131072-byte CIDToGIDMap buffer (two big-endian bytes of glyph
    number per code 0-0xFFFE), and, for a font with CFF outlines, a list of
    (glyph, code) entries sorted by glyph that becomes the ToUnicode CMap.
    With a VOLT name given, records without a code but with a glyph number are
    kept and get the next code of the Private Use Area from 0xE000 on. */
module Ufm {
  import opened Wrappers
  import opened Text
  import opened Bytes
  import opened Metrics
  import Sfnt
  import opened GlyphList
  import ToUnicode

  /** The size of the CIDToGIDMap buffer: two bytes for each code below 0x10000. */
  const CtgSize := 131072

  /** The first code of the Private Use Area handed to unnamed glyphs. */
  const PuaStart := 0xE000

  /** The codes the CIDToGIDMap records: 0 to 0xFFFE. */
  const CtgCodes := 0xFFFF

  /** Everything the line loop reads and updates, the CIDToGIDMap buffer apart. */
  datatype UfmState = UfmState(
    h: Header, widths: map<int, int>, glyphs: map<int, int>,
    paBase: int, glyphname: string, glyphList: seq<GlyphEntry>)

  /** Before the first line. */
  function UfmStart(ctor: FontDescription): (st: UfmState)
    ensures st.paBase == PuaStart && st.widths == map[] && st.glyphs == map[] && st.glyphList == []
  {
    UfmState(StartHeader(ctor, false), map[], map[], PuaStart, "", [])
  }

  /** The fields of a `U` record, read after the code. */
  function UfmMetrics(st: UfmState, toks: seq<string>): CharMetrics
    requires |toks| >= 2
  {
    ScanFields(toks, Advance(toks, 2, 1), StartMetrics(toks, st.glyphname))
  }

  /** A record is kept when it has a code, or, with a VOLT name, a positive
      glyph number. */
  predicate Kept(cm: CharMetrics, hasVolt: bool)
  {
    cm.code != -1 || (hasVolt && cm.glyphNumber > 0)
  }

  /** The code a kept record is stored under: its own, or the next Private
      Use Area code when it has none. */
  function CodeOf(st: UfmState, cm: CharMetrics): int
  {
    if cm.code == -1 then st.paBase else cm.code
  }

  /** What a `U` record with sub-fields `cm` does to the state. The box tops
      of `X` and `x` are judged on the record's own code; the missing width
      is taken from a `.notdef` record even when it is dropped. */
  function ApplyUfmRecord(st: UfmState, cm: CharMetrics, hasVolt: bool, cff: bool): UfmState
  {
    var st1 := if Kept(cm, hasVolt) then StoreUfmRecord(st, cm, cff) else st;
    st1.(h := NoteMissingWidth(st1.h, cm.name, cm.width), glyphname := cm.name)
  }

  /** Storing a kept record. */
  function StoreUfmRecord(st: UfmState, cm: CharMetrics, cff: bool): UfmState
  {
    var code := CodeOf(st, cm);
    st.(h := NoteBox(st.h, cm.code == 'X' as int, cm.code == 'x' as int, cm.boxTop),
        paBase := if cm.code == -1 then st.paBase + 1 else st.paBase,
        widths := st.widths[code := cm.width],
        glyphs := st.glyphs[code := cm.glyphNumber],
        glyphList := if cff then Insert(st.glyphList, GlyphEntry(cm.glyphNumber, code)) else st.glyphList)
  }

  /** One line: fewer than two tokens are skipped, `U` starts a record, any
      other first token is a header keyword. */
  function UfmLineStep(st: UfmState, toks: seq<string>, hasVolt: bool, cff: bool): UfmState
  {
    if |toks| < 2 then st
    else if toks[0] == "U" then ApplyUfmRecord(st, UfmMetrics(st, toks), hasVolt, cff)
    else st.(h := HeaderLine(st.h, toks))
  }

  /** The line loop over the whole file. */
  function UfmLines(st: UfmState, lines: seq<seq<string>>, hasVolt: bool, cff: bool): UfmState
    decreases |lines|
  {
    if lines == [] then st else UfmLines(UfmLineStep(st, lines[0], hasVolt, cff), lines[1..], hasVolt, cff)
  }

  /** Byte `i` of the CIDToGIDMap for the glyph map `glyphs`: the high byte
      (at even `i`) or the low byte (at odd `i`) of the glyph number of code
      `i / 2`, and 0 for a code without a glyph or past 0xFFFE. */
  function CtgByte(glyphs: map<int, int>, i: int): byte
  {
    var c := i / 2;
    if 0 <= c < CtgCodes && c in glyphs then
      if i % 2 == 0 then (glyphs[c] / 256) % 256 else glyphs[c] % 256
    else 0
  }

  /** The whole CIDToGIDMap buffer for the glyph map `glyphs`. */
  function CtgImage(glyphs: map<int, int>): (ctg: seq<byte>)
    ensures |ctg| == CtgSize
  {
    seq(CtgSize, i => CtgByte(glyphs, i))
  }

  /** The glyph a PDF reader finds for code `c` in a CIDToGIDMap. */
  function GidAt(ctg: seq<byte>, c: int): int
    requires 0 <= c && 2 * c + 1 < |ctg|
  {
    ctg[2 * c] as int * 256 + ctg[2 * c + 1] as int
  }

  /** A reader of the map finds, for every code 0-0xFFFE, the glyph number
      the font gives it, reduced to 16 bits, and glyph 0 for a code the font
      does not map; code 0xFFFF always reads as glyph 0. */
  lemma CtgDecode(glyphs: map<int, int>, c: int)
    requires 0 <= c <= 0xFFFF
    ensures GidAt(CtgImage(glyphs), c) == if c < CtgCodes && c in glyphs then glyphs[c] % 0x1_0000 else 0
  {
    var ctg := CtgImage(glyphs);
    var p := 2 * c;
    assert ctg[p] == CtgByte(glyphs, p) && ctg[p + 1] == CtgByte(glyphs, p + 1);
    assert p / 2 == c && (p + 1) / 2 == c && p % 2 == 0 && (p + 1) % 2 == 1;
    if c < CtgCodes && c in glyphs {
      SplitBytes(glyphs[c]);
    }
  }

  /** The high and low bytes of `g` make up `g` modulo 0x10000. */
  lemma SplitBytes(g: int)
    ensures ((g / 256) % 256) * 256 + g % 256 == g % 0x1_0000
  {
    var q := g / 256;
    var r := g % 256;
    assert g == q * 256 + r;
    var q2 := q / 256;
    assert q == q2 * 256 + q % 256;
    assert g == q2 * 0x1_0000 + ((q % 256) * 256 + r);
    assert 0 <= (q % 256) * 256 + r < 0x1_0000;
  }

  /** Storing glyph `g` for code `c` writes the two bytes of the code and
      leaves the rest of the buffer as it was. `lo` is the position `2 * c`. */
  lemma CtgStore(glyphs: map<int, int>, c: int, g: int, lo: int)
    requires 0 <= c < CtgCodes && lo == 2 * c
    ensures CtgImage(glyphs[c := g]) == CtgImage(glyphs)[lo := (g / 256) % 256][lo + 1 := g % 256]
  {
    var a := CtgImage(glyphs[c := g]);
    var b := CtgImage(glyphs)[lo := (g / 256) % 256][lo + 1 := g % 256];
    forall i | 0 <= i < CtgSize
      ensures a[i] == b[i]
    {
      if i == lo {
        assert i / 2 == c && i % 2 == 0;
      } else if i == lo + 1 {
        assert i / 2 == c && i % 2 == 1;
      } else {
        assert i / 2 != c;
      }
    }
  }

  /** A code the buffer has no room for leaves it alone. */
  lemma CtgSkip(glyphs: map<int, int>, c: int, g: int)
    requires !(0 <= c < CtgCodes)
    ensures CtgImage(glyphs[c := g]) == CtgImage(glyphs)
  {
    var a := CtgImage(glyphs[c := g]);
    var b := CtgImage(glyphs);
    forall i | 0 <= i < CtgSize
      ensures a[i] == b[i]
    {
    }
  }

  /** The last two bytes of the buffer, those of code 0xFFFF, stay 0. */
  lemma CtgLastCodeUnused(glyphs: map<int, int>)
    ensures CtgImage(glyphs)[CtgSize - 2] == 0 && CtgImage(glyphs)[CtgSize - 1] == 0
  {
    assert (CtgSize - 2) / 2 == CtgCodes && (CtgSize - 1) / 2 == CtgCodes;
  }

  /** The empty buffer the reader starts from. */
  method NewCtg() returns (ctg: array<byte>)
    ensures fresh(ctg) && ctg[..] == CtgImage(map[])
  {
    ctg := new byte[CtgSize];
    for j := 0 to CtgSize
      invariant forall k :: 0 <= k < j ==> ctg[k] == 0
    {
      ctg[j] := 0;
    }
    assert forall k :: 0 <= k < CtgSize ==> CtgImage(map[])[k] == 0;
  }

  /** The two buffer bytes of a code: `(g >> 8) & 0xFF` and `g & 0xFF`. */
  method SetGid(ctg: array<byte>, cc: int, g: int)
    requires ctg.Length == CtgSize && 0 <= cc < CtgCodes
    modifies ctg
    ensures ctg[..] == old(ctg[..])[2 * cc := (g / 256) % 256][2 * cc + 1 := g % 256]
  {
    ctg[2 * cc] := (g / 256) % 256;
    ctg[2 * cc + 1] := g % 256;
  }

  /** A kept record as the line loop stores it. */
  method StoreRecord(st: UfmState, cm: CharMetrics, cff: bool, ctg: array<byte>) returns (r: UfmState)
    requires ctg.Length == CtgSize && ctg[..] == CtgImage(st.glyphs)
    modifies ctg
    ensures r == StoreUfmRecord(st, cm, cff) && ctg[..] == CtgImage(r.glyphs)
  {
    var cc := cm.code;
    var h := NoteBox(st.h, cc == 'X' as int, cc == 'x' as int, cm.boxTop);
    var paBase := st.paBase;
    if cc == -1 {
      cc := paBase;
      paBase := paBase + 1;
    }
    var widths := st.widths[cc := cm.width];
    var glyphs := st.glyphs[cc := cm.glyphNumber];
    if cc >= 0 && cc < CtgCodes {
      SetGid(ctg, cc, cm.glyphNumber);
      CtgStore(st.glyphs, cc, cm.glyphNumber, 2 * cc);
    } else {
      CtgSkip(st.glyphs, cc, cm.glyphNumber);
    }
    var glyphList := st.glyphList;
    if cff {
      glyphList := Add(glyphList, GlyphEntry(cm.glyphNumber, cc));
    }
    r := st.(h := h, paBase := paBase, widths := widths, glyphs := glyphs, glyphList := glyphList);
  }

  /** One `U` record: the sub-field loop, then the record is kept or dropped. */
  method UfmRecord(st: UfmState, toks: seq<string>, hasVolt: bool, cff: bool, ctg: array<byte>)
    returns (r: UfmState)
    requires |toks| >= 2 && ctg.Length == CtgSize && ctg[..] == CtgImage(st.glyphs)
    modifies ctg
    ensures r == ApplyUfmRecord(st, UfmMetrics(st, toks), hasVolt, cff) && ctg[..] == CtgImage(r.glyphs)
  {
    var cm := ParseCharMetrics(toks, st.glyphname);
    r := st;
    if cm.code != -1 || (hasVolt && cm.glyphNumber > 0) {
      r := StoreRecord(st, cm, cff, ctg);
    }
    r := r.(h := NoteMissingWidth(r.h, cm.name, cm.width), glyphname := cm.name);
  }

  /** One line of the file. */
  method UfmLine(st: UfmState, toks: seq<string>, hasVolt: bool, cff: bool, ctg: array<byte>)
    returns (r: UfmState)
    requires ctg.Length == CtgSize && ctg[..] == CtgImage(st.glyphs)
    modifies ctg
    ensures r == UfmLineStep(st, toks, hasVolt, cff) && ctg[..] == CtgImage(r.glyphs)
  {
    r := st;
    if |toks| >= 2 {
      if toks[0] == "U" {
        r := UfmRecord(st, toks, hasVolt, cff, ctg);
      } else {
        r := st.(h := HeaderLine(st.h, toks));
      }
    }
  }

  /** The line loop of `MakeFontUFM`: the state follows `UfmLines` and the
      buffer always encodes the glyph map. */
  method ParseUfm(st0: UfmState, lines: seq<seq<string>>, hasVolt: bool, cff: bool, ctg: array<byte>)
    returns (st: UfmState)
    requires ctg.Length == CtgSize && ctg[..] == CtgImage(st0.glyphs)
    modifies ctg
    ensures st == UfmLines(st0, lines, hasVolt, cff) && ctg[..] == CtgImage(st.glyphs)
  {
    st := st0;
    for i := 0 to |lines|
      invariant ctg[..] == CtgImage(st.glyphs)
      invariant UfmLines(st, lines[i..], hasVolt, cff) == UfmLines(st0, lines, hasVolt, cff)
    {
      assert lines[i..][1..] == lines[i + 1..];
      st := UfmLine(st, lines[i], hasVolt, cff, ctg);
    }
    assert lines[|lines|..] == [];
  }

  /** The Private Use Area codes handed out so far all have a width and a glyph. */
  ghost predicate PuaAssigned(st: UfmState)
  {
    && st.paBase >= PuaStart
    && forall c :: PuaStart <= c < st.paBase ==> c in st.widths && c in st.glyphs
  }

  /** Every glyph list entry names a code of the glyph map. */
  ghost predicate ListedCodes(st: UfmState)
  {
    forall k :: 0 <= k < |st.glyphList| ==> st.glyphList[k].uid in st.glyphs
  }

  /** A record keeps the Private Use Area codes assigned, hands out the next
      one only to a kept record without a code, and never takes one back. */
  lemma RecordKeepsPua(st: UfmState, cm: CharMetrics, hasVolt: bool, cff: bool)
    requires PuaAssigned(st)
    ensures var r := ApplyUfmRecord(st, cm, hasVolt, cff);
      && PuaAssigned(r)
      && r.paBase == if Kept(cm, hasVolt) && cm.code == -1 then st.paBase + 1 else st.paBase
  {
  }

  /** The line loop keeps the Private Use Area codes assigned and never
      lowers the next one. */
  lemma {:induction false} UfmLinesKeepPua(st: UfmState, lines: seq<seq<string>>, hasVolt: bool, cff: bool)
    requires PuaAssigned(st)
    ensures PuaAssigned(UfmLines(st, lines, hasVolt, cff))
    ensures UfmLines(st, lines, hasVolt, cff).paBase >= st.paBase
    decreases |lines|
  {
    if lines != [] {
      var toks := lines[0];
      if |toks| >= 2 && toks[0] == "U" {
        RecordKeepsPua(st, UfmMetrics(st, toks), hasVolt, cff);
      }
      UfmLinesKeepPua(UfmLineStep(st, toks, hasVolt, cff), lines[1..], hasVolt, cff);
    }
  }

  /** With a VOLT name, a record without a code but with a positive glyph
      number gets the next Private Use Area code, with its width and glyph. */
  lemma UnnamedVoltGlyph(st: UfmState, cm: CharMetrics, cff: bool)
    requires cm.code == -1 && cm.glyphNumber > 0
    ensures var r := ApplyUfmRecord(st, cm, true, cff);
      && r.paBase == st.paBase + 1
      && r.widths == st.widths[st.paBase := cm.width]
      && r.glyphs == st.glyphs[st.paBase := cm.glyphNumber]
  {
  }

  /** A dropped record, one without a code that the VOLT rule does not keep,
      changes no map, no code counter and no glyph list; only its glyph name
      and a `.notdef` width are remembered. */
  lemma DroppedRecord(st: UfmState, cm: CharMetrics, hasVolt: bool, cff: bool)
    requires !Kept(cm, hasVolt)
    ensures var r := ApplyUfmRecord(st, cm, hasVolt, cff);
      && r.widths == st.widths && r.glyphs == st.glyphs
      && r.paBase == st.paBase && r.glyphList == st.glyphList
      && r.glyphname == cm.name
      && r.h == NoteMissingWidth(st.h, cm.name, cm.width)
  {
  }

  /** A kept record with a code stores its width and glyph under that code
      and no other. */
  lemma KeptRecordStored(st: UfmState, cm: CharMetrics, hasVolt: bool, cff: bool, c: int)
    requires cm.code != -1
    ensures var r := ApplyUfmRecord(st, cm, hasVolt, cff);
      && cm.code in r.widths && r.widths[cm.code] == cm.width
      && cm.code in r.glyphs && r.glyphs[cm.code] == cm.glyphNumber
    ensures var r := ApplyUfmRecord(st, cm, hasVolt, cff);
      c != cm.code ==> (c in r.widths <==> c in st.widths) && (c in st.widths ==> r.widths[c] == st.widths[c])
    ensures var r := ApplyUfmRecord(st, cm, hasVolt, cff);
      c != cm.code ==> (c in r.glyphs <==> c in st.glyphs) && (c in st.glyphs ==> r.glyphs[c] == st.glyphs[c])
  {
  }

  /** A record keeps the glyph list sorted by glyph and naming mapped codes;
      without CFF outlines it leaves the list empty. */
  lemma RecordKeepsList(st: UfmState, cm: CharMetrics, hasVolt: bool, cff: bool)
    requires Sorted(st.glyphList) && ListedCodes(st)
    ensures var r := ApplyUfmRecord(st, cm, hasVolt, cff);
      && Sorted(r.glyphList) && ListedCodes(r)
      && (!cff ==> r.glyphList == st.glyphList)
      && (cff && Kept(cm, hasVolt) ==> multiset(r.glyphList) == multiset(st.glyphList) + multiset{GlyphEntry(cm.glyphNumber, CodeOf(st, cm))})
  {
    if cff && Kept(cm, hasVolt) {
      var e := GlyphEntry(cm.glyphNumber, CodeOf(st, cm));
      InsertSorted(st.glyphList, e);
      var r := ApplyUfmRecord(st, cm, hasVolt, cff);
      forall k | 0 <= k < |r.glyphList|
        ensures r.glyphList[k].uid in r.glyphs
      {
        assert r.glyphList[k] in multiset(r.glyphList);
        if r.glyphList[k] != e {
          assert r.glyphList[k] in multiset(st.glyphList);
          var j :| 0 <= j < |st.glyphList| && st.glyphList[j] == r.glyphList[k];
        }
      }
    }
  }

  /** The line loop keeps the glyph list sorted by glyph, and each of its
      entries names a code of the glyph map. */
  lemma {:induction false} UfmLinesKeepList(st: UfmState, lines: seq<seq<string>>, hasVolt: bool, cff: bool)
    requires Sorted(st.glyphList) && ListedCodes(st)
    ensures Sorted(UfmLines(st, lines, hasVolt, cff).glyphList) && ListedCodes(UfmLines(st, lines, hasVolt, cff))
    ensures !cff ==> UfmLines(st, lines, hasVolt, cff).glyphList == st.glyphList
    decreases |lines|
  {
    if lines != [] {
      var toks := lines[0];
      if |toks| >= 2 && toks[0] == "U" {
        RecordKeepsList(st, UfmMetrics(st, toks), hasVolt, cff);
      }
      UfmLinesKeepList(UfmLineStep(st, toks, hasVolt, cff), lines[1..], hasVolt, cff);
    }
  }

  /** The inputs of `MakeFontUFM`: the font file name and the contents of the
      file (`None` when it cannot be opened), the metrics file as lines of
      tokens (`None` when it cannot be opened), the `type` and VOLT
      arguments, and the descriptor as its constructor leaves it. */
  datatype UfmInput = UfmInput(
    fontFileName: string, fontFile: Option<seq<byte>>, ufm: Option<seq<seq<string>>>,
    fontType: string, volt: string, ctor: FontDescription)

  /** The CIDToGIDMap file: the ToUnicode CMap for CFF outlines, the buffer otherwise. */
  datatype CtgFile = ToUnicodeCMap(text: string) | CidToGidMap(bytes: seq<byte>)

  /** What the font file contributes: nothing, or the compressed stream with
      the original file length, and the CIDToGIDMap file. */
  datatype UfmEmbedding = NotEmbedded | Embedded(size1: int, stream: seq<byte>, ctg: CtgFile)

  /** The font definition `MakeFontUFM` writes out. */
  datatype UfmFont = UfmFont(
    cff: bool, name: Option<string>, fd: FontDescription,
    widths: map<int, int>, glyphs: map<int, int>, embedding: UfmEmbedding)

  datatype UfmError = MetricsUnreadable

  /** The licence check, run only when a font file is named. */
  ghost function CheckOf(inp: UfmInput): Sfnt.TtfCheck
  {
    if inp.fontFileName != [] then Sfnt.Inspect(inp.fontFileName, inp.fontFile) else Sfnt.Closed
  }

  /** CFF outlines: a `CFF ` table past the start of a named font file, or,
      without a font file, the `OpenType` type argument. */
  ghost function CffOf(inp: UfmInput): bool
  {
    if inp.fontFileName != [] then CheckOf(inp).cffOffset > 0 else inp.fontType == "OpenType"
  }

  /** The `cffLength` bytes from `cffOffset`, as far as the file holds them. */
  function CffStream(data: seq<byte>, offset: int, length: int): (s: seq<byte>)
    ensures |s| <= |data|
    ensures 0 <= offset && 0 <= length && offset + length <= |data| ==> s == data[offset..offset + length]
  {
    var from := if offset < 0 then 0 else if offset > |data| then |data| else offset;
    var to := if offset + length < from then from else if offset + length > |data| then |data| else offset + length;
    data[from..to]
  }

  /** Embedding is allowed only for a font file that could be opened. */
  lemma EmbeddingNeedsFile(inp: UfmInput)
    ensures CheckOf(inp).embeddingAllowed ==> inp.fontFileName != [] && inp.fontFile.Some?
  {
  }

  /** The reader state after the whole metrics file. */
  ghost function ParsedUfm(inp: UfmInput): UfmState
    requires inp.ufm.Some?
  {
    UfmLines(UfmStart(inp.ctor), inp.ufm.value, inp.volt != [], CffOf(inp))
  }

  /** `MakeFontUFM` as a value. */
  ghost function UfmSpec(inp: UfmInput): Result<UfmFont, UfmError>
  {
    if inp.ufm.None? then Err(MetricsUnreadable)
    else
      EmbeddingNeedsFile(inp);
      Ok(UfmFontOf(ParsedUfm(inp), CffOf(inp), CheckOf(inp), inp.fontFile))
  }

  /** The font definition from the reader state `st`, the outline flavour and
      the licence check of the font file `file`. */
  function UfmFontOf(st: UfmState, cff: bool, check: Sfnt.TtfCheck, file: Option<seq<byte>>): UfmFont
    requires check.embeddingAllowed ==> file.Some?
  {
    var font := UfmFont(cff, st.h.fontName, Finish(st.h, false), st.widths, st.glyphs, NotEmbedded);
    if !check.embeddingAllowed then font
    else
      var data := file.value;
      var stream := if cff then CffStream(data, check.cffOffset, check.cffLength) else data;
      var ctg := if cff then ToUnicodeCMap(ToUnicode.ToUnicodeText(st.glyphList)) else CidToGidMap(CtgImage(st.glyphs));
      font.(embedding := Embedded(|data|, stream, ctg))
  }

  /** makefont.cpp `MakeFontUFM`. */
  method MakeFontUfm(inp: UfmInput) returns (r: Result<UfmFont, UfmError>)
    ensures r == UfmSpec(inp)
  {
    var hasVolt := |inp.volt| > 0;
    var check, cff := CheckFont(inp);
    if inp.ufm.None? {
      return Err(MetricsUnreadable);
    }
    EmbeddingNeedsFile(inp);
    var ctg := NewCtg();
    var st := ParseUfm(UfmStart(inp.ctor), inp.ufm.value, hasVolt, cff, ctg);
    var font := WriteFont(st, cff, check, inp.fontFile, ctg);
    r := Ok(font);
  }

  /** The licence check and the outline flavour, first thing in `MakeFontUFM`. */
  method CheckFont(inp: UfmInput) returns (check: Sfnt.TtfCheck, cff: bool)
    ensures check == CheckOf(inp) && cff == CffOf(inp)
  {
    check := Sfnt.Closed;
    if |inp.fontFileName| > 0 {
      check := Sfnt.CheckTtf(inp.fontFileName, inp.fontFile);
      cff := check.cffOffset > 0;
    } else {
      cff := inp.fontType == "OpenType";
    }
  }

  /** The end of `MakeFontUFM`: the descriptor, and, when embedding is
      allowed, the font stream and the CIDToGIDMap file. */
  method WriteFont(st: UfmState, cff: bool, check: Sfnt.TtfCheck, file: Option<seq<byte>>, ctg: array<byte>)
    returns (font: UfmFont)
    requires check.embeddingAllowed ==> file.Some?
    requires ctg[..] == CtgImage(st.glyphs)
    ensures font == UfmFontOf(st, cff, check, file)
  {
    font := UfmFont(cff, st.h.fontName, Finish(st.h, false), st.widths, st.glyphs, NotEmbedded);
    if check.embeddingAllowed {
      var data := file.value;
      var stream := data;
      var ctgFile;
      if cff {
        stream := CffStream(data, check.cffOffset, check.cffLength);
        var text := ToUnicode.WriteToUnicode(st.glyphList);
        ctgFile := ToUnicodeCMap(text);
      } else {
        ctgFile := CidToGidMap(ctg[..]);
      }
      font := font.(embedding := Embedded(|data|, stream, ctgFile));
    }
  }

  /** The run fails only when the metrics file cannot be read. */
  lemma UfmErrors(inp: UfmInput)
    ensures UfmSpec(inp).Err? <==> inp.ufm.None?
  {
  }

  /** The font is embedded exactly when the licence check allows it, which
      needs a named font file; without CFF outlines the whole file is the
      stream and the CIDToGIDMap buffer encodes the glyph map. */
  lemma EmbeddedIffAllowed(inp: UfmInput)
    requires inp.ufm.Some?
    ensures UfmSpec(inp).Ok?
    ensures UfmSpec(inp).value.embedding.Embedded? <==> CheckOf(inp).embeddingAllowed
    ensures inp.fontFileName == [] ==> UfmSpec(inp).value.embedding == NotEmbedded
    ensures UfmSpec(inp).value.embedding.Embedded? && !CffOf(inp) ==>
              UfmSpec(inp).value.embedding.stream == inp.fontFile.value
              && UfmSpec(inp).value.embedding.ctg == CidToGidMap(CtgImage(UfmSpec(inp).value.glyphs))
  {
  }

  /** The descriptor of a Unicode font is always non-symbolic (flag 32). */
  lemma UfmFlags(inp: UfmInput)
    requires inp.ufm.Some?
    ensures UfmSpec(inp).Ok? && UfmSpec(inp).value.fd.flags == ParsedUfm(inp).h.flags + 32
  {
  }

  /** After the whole file the glyph list that becomes the ToUnicode CMap of
      a CFF-flavoured font is sorted by glyph and names only mapped codes,
      and every Private Use Area code handed out has a width and a glyph. */
  lemma ParsedUfmInvariants(inp: UfmInput)
    requires inp.ufm.Some?
    ensures Sorted(ParsedUfm(inp).glyphList) && ListedCodes(ParsedUfm(inp))
    ensures PuaAssigned(ParsedUfm(inp))
  {
    UfmLinesKeepList(UfmStart(inp.ctor), inp.ufm.value, inp.volt != [], CffOf(inp));
    UfmLinesKeepPua(UfmStart(inp.ctor), inp.ufm.value, inp.volt != [], CffOf(inp));
  }
}
