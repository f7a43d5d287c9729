/** `MakeFontAFM`: the compiler from an Adobe Font Metrics file (Adobe
    Technical Note #5004) and an optional 8-bit encoding to the font
    description, width and glyph maps, `Differences` string and embedding
    ranges of a core-font definition. The reader keeps its state in an
    `AfmState`, which each line of the file updates; the width and glyph maps
    are hash maps whose `operator[]` inserts a 0 for a missing key. */
module Afm {
  import opened Wrappers
  import opened Text
  import opened Bytes
  import opened Encoding
  import opened Metrics
  import Sfnt
  import Pfb

  /** `wxPdfGlyphWidthMap` and `wxPdfChar2GlyphMap`, keyed by character code. */
  type WidthMap = map<int, int>
  type GlyphMap = map<int, int>

  /** The width that marks a code no record has set yet. */
  const Sentinel := 0xFFFF

  /** The value `widths[k]` yields: the entry, or 0 when there is none. */
  function Lookup(m: map<int, int>, k: int): int
  {
    if k in m then m[k] else 0
  }

  /** Everything the line loop reads and updates. */
  datatype AfmState = AfmState(
    h: Header, cc2gn: CodeMap, widths: WidthMap, glyphs: GlyphMap,
    glyphname: string, incWidth: int, incGlyph: int, hasGlyphNumbers: bool)

  /** Before the first line: with an encoding every code 0-255 holds the
      sentinel width and glyph 0; without one both maps are empty. */
  function StartWidths(cc2gn: CodeMap): WidthMap
  {
    if cc2gn == map[] then map[] else map c | c in Codes :: Sentinel
  }

  function StartGlyphs(cc2gn: CodeMap): GlyphMap
  {
    if cc2gn == map[] then map[] else map c | c in Codes :: 0
  }

  method InitMetrics(cc2gn: CodeMap) returns (widths: WidthMap, glyphs: GlyphMap)
    ensures widths == StartWidths(cc2gn) && glyphs == StartGlyphs(cc2gn)
  {
    widths, glyphs := map[], map[];
    if |cc2gn| != 0 {
      for cc := 0 to 256
        invariant forall k :: k in widths <==> 0 <= k < cc
        invariant forall k :: k in glyphs <==> 0 <= k < cc
        invariant forall k :: k in widths ==> widths[k] == Sentinel
        invariant forall k :: k in glyphs ==> glyphs[k] == 0
      {
        widths := widths[cc := Sentinel];
        glyphs := glyphs[cc := 0];
      }
      assert widths.Keys == Codes && glyphs.Keys == Codes;
    }
  }

  /** A glyph name whose last four characters are `20AC` is the Euro sign. */
  function EuroName(name: string): string
  {
    if RightEquals(name, "20AC") then "Euro" else name
  }

  /** `m` with every code 0-255 whose encoding name is `name` set to `v`. */
  function AssignByName(m: map<int, int>, enc: CodeMap, name: string, v: int): map<int, int>
  {
    m + map i | 0 <= i < 256 && Get(enc, i) == name :: v
  }

  /** The fields of a `C` record, read after the code. */
  function RecordMetrics(st: AfmState, toks: seq<string>): CharMetrics
    requires |toks| >= 2
  {
    ScanFields(toks, Advance(toks, 2, 1), StartMetrics(toks, st.glyphname))
  }

  /** The encoding once a record named `name` has had its deprecated name repaired. */
  function RecordEncoding(cc2gn: CodeMap, name: string): CodeMap
  {
    if name in FixGlyphs then Renamed(cc2gn, FixGlyphs[name], name) else cc2gn
  }

  /** One `C` record. Its glyph name (Euro-adjusted) may first repair a
      deprecated name in the encoding; then, without an encoding, its width and
      glyph number go to its own code, and with one, to every code the
      encoding gives its name. Box tops of `X` and `x` and the width of
      `.notdef` feed the descriptor. */
  function CharStep(st: AfmState, toks: seq<string>): AfmState
    requires |toks| >= 2
  {
    ApplyRecord(st, RecordMetrics(st, toks))
  }

  /** What a record with sub-fields `cm` does to the state. */
  function ApplyRecord(st: AfmState, cm: CharMetrics): AfmState
  {
    var hasGN := st.hasGlyphNumbers || cm.sawGlyphNumber;
    var name := EuroName(cm.name);
    var st1 := StoreRecord(st, cm, name, RecordEncoding(st.cc2gn, name), hasGN);
    st1.(h := NoteMissingWidth(st1.h, name, cm.width), glyphname := name,
         incWidth := if name == "increment" then cm.width else st.incWidth,
         incGlyph := if name == "increment" && hasGN then cm.glyphNumber else st.incGlyph,
         hasGlyphNumbers := hasGN)
  }

  /** Where a record's width and glyph number go, given its (Euro-adjusted)
      name and the repaired encoding `enc`. */
  function StoreRecord(st: AfmState, cm: CharMetrics, name: string, enc: CodeMap, hasGN: bool): AfmState
  {
    if enc == map[] then
      st.(widths := st.widths[cm.code := cm.width],
          glyphs := if hasGN then st.glyphs[cm.code := cm.glyphNumber] else st.glyphs,
          h := NoteBox(st.h, cm.code == 'X' as int, cm.code == 'x' as int, cm.boxTop),
          cc2gn := enc)
    else
      st.(widths := AssignByName(st.widths, enc, name, cm.width),
          glyphs := if hasGN then AssignByName(st.glyphs, enc, name, cm.glyphNumber) else st.glyphs,
          h := NoteBox(st.h, name == "X", name == "x", cm.boxTop),
          cc2gn := WithCodes(enc))
  }

  /** One line: fewer than two tokens are skipped, `C` starts a record, any
      other first token is a header keyword. */
  function LineStep(st: AfmState, toks: seq<string>): AfmState
  {
    if |toks| < 2 then st
    else if toks[0] == "C" then CharStep(st, toks)
    else st.(h := HeaderLine(st.h, toks))
  }

  /** The line loop over the whole file. */
  function AfmLines(st: AfmState, lines: seq<seq<string>>): AfmState
    decreases |lines|
  {
    if lines == [] then st else AfmLines(LineStep(st, lines[0]), lines[1..])
  }

  /** `r` is `m` with the codes below `i` whose encoding name is `name` set to `v`. */
  ghost predicate AssignedUpTo(r: map<int, int>, m: map<int, int>, enc: CodeMap, name: string, v: int, i: int)
  {
    && (forall k :: k in r <==> k in m || (0 <= k < i && Get(enc, k) == name))
    && (forall k :: k in r ==> r[k] == if 0 <= k < i && Get(enc, k) == name then v else m[k])
  }

  lemma AssignedStep(r: map<int, int>, m: map<int, int>, enc: CodeMap, name: string, v: int, i: int)
    requires 0 <= i && AssignedUpTo(r, m, enc, name, v, i)
    ensures AssignedUpTo(if Get(enc, i) == name then r[i := v] else r, m, enc, name, v, i + 1)
  {
  }

  lemma AssignedAll(r: map<int, int>, m: map<int, int>, enc: CodeMap, name: string, v: int)
    requires AssignedUpTo(r, m, enc, name, v, 256)
    ensures r == AssignByName(m, enc, name, v)
  {
  }

  /** `e` is `m` after `m[k]` has been read for every code `k` below `i`. */
  ghost predicate TouchedUpTo(e: CodeMap, m: CodeMap, i: int)
  {
    && (forall k :: k in e <==> k in m || 0 <= k < i)
    && (forall k :: k in e ==> e[k] == Get(m, k))
  }

  lemma TouchedAll(e: CodeMap, m: CodeMap)
    requires TouchedUpTo(e, m, 256)
    ensures e == WithCodes(m)
  {
  }

  /** The width-assignment loop of an encoded font: every code 0-255 whose
      encoding name is `name` gets the record's width, and its glyph number
      once glyph numbers have been seen; reading `cc2gn[i]` inserts the code. */
  method AssignWidths(cc2gn: CodeMap, name: string, widths: WidthMap, glyphs: GlyphMap,
                      width: int, glyph: int, hasGN: bool)
    returns (w: WidthMap, g: GlyphMap, enc: CodeMap)
    ensures w == AssignByName(widths, cc2gn, name, width)
    ensures g == if hasGN then AssignByName(glyphs, cc2gn, name, glyph) else glyphs
    ensures enc == WithCodes(cc2gn)
  {
    w, g, enc := widths, glyphs, cc2gn;
    for i := 0 to 256
      invariant TouchedUpTo(enc, cc2gn, i)
      invariant AssignedUpTo(w, widths, cc2gn, name, width, i)
      invariant if hasGN then AssignedUpTo(g, glyphs, cc2gn, name, glyph, i) else g == glyphs
    {
      enc := Touch(enc, i);
      AssignedStep(w, widths, cc2gn, name, width, i);
      if hasGN {
        AssignedStep(g, glyphs, cc2gn, name, glyph, i);
      }
      if enc[i] == name {
        w := w[i := width];
        if hasGN {
          g := g[i := glyph];
        }
      }
    }
    TouchedAll(enc, cc2gn);
    AssignedAll(w, widths, cc2gn, name, width);
    if hasGN {
      AssignedAll(g, glyphs, cc2gn, name, glyph);
    }
  }

  /** A `C` record as the line loop processes it. */
  method CharRecord(st: AfmState, toks: seq<string>) returns (r: AfmState)
    requires |toks| >= 2
    ensures r == CharStep(st, toks)
  {
    var cm := ParseCharMetrics(toks, st.glyphname);
    r := ApplyCharRecord(st, cm);
  }

  /** The part of the record loop that follows the sub-field loop. */
  method ApplyCharRecord(st: AfmState, cm: CharMetrics) returns (r: AfmState)
    ensures r == ApplyRecord(st, cm)
  {
    var hasGN := st.hasGlyphNumbers || cm.sawGlyphNumber;
    var name := cm.name;
    if RightEquals(name, "20AC") {
      name := "Euro";
    }
    var incWidth, incGlyph := st.incWidth, st.incGlyph;
    if name == "increment" {
      incWidth := cm.width;
      if hasGN {
        incGlyph := cm.glyphNumber;
      }
    }
    var cc2gn := RepairEncoding(st.cc2gn, name);
    r := StoreCharRecord(st, cm, name, cc2gn, hasGN);
    r := r.(h := NoteMissingWidth(r.h, name, cm.width), glyphname := name,
            incWidth := incWidth, incGlyph := incGlyph, hasGlyphNumbers := hasGN);
  }

  /** The repair of a deprecated glyph name in the encoding. */
  method RepairEncoding(cc2gn: CodeMap, name: string) returns (enc: CodeMap)
    ensures enc == RecordEncoding(cc2gn, name)
  {
    enc := cc2gn;
    if name in FixGlyphs {
      enc := FixupEncoding(enc, FixGlyphs[name], name);
    }
  }

  /** Storing the record's width and glyph number, and its box for the descriptor. */
  method StoreCharRecord(st: AfmState, cm: CharMetrics, name: string, cc2gn: CodeMap, hasGN: bool)
    returns (r: AfmState)
    ensures r == StoreRecord(st, cm, name, cc2gn, hasGN)
  {
    var h, widths, glyphs, enc := st.h, st.widths, st.glyphs, cc2gn;
    if |cc2gn| == 0 {
      widths := widths[cm.code := cm.width];
      if hasGN {
        glyphs := glyphs[cm.code := cm.glyphNumber];
      }
      h := NoteBox(h, cm.code == 'X' as int, cm.code == 'x' as int, cm.boxTop);
    } else {
      widths, glyphs, enc := AssignWidths(cc2gn, name, widths, glyphs, cm.width, cm.glyphNumber, hasGN);
      h := NoteBox(h, name == "X", name == "x", cm.boxTop);
    }
    r := st.(h := h, cc2gn := enc, widths := widths, glyphs := glyphs);
  }

  /** The line loop of `MakeFontAFM`. */
  method ParseAfm(st0: AfmState, lines: seq<seq<string>>) returns (st: AfmState)
    ensures st == AfmLines(st0, lines)
  {
    st := st0;
    for i := 0 to |lines|
      invariant AfmLines(st, lines[i..]) == AfmLines(st0, lines)
    {
      assert lines[i..][1..] == lines[i + 1..];
      var toks := lines[i];
      if |toks| >= 2 {
        if toks[0] == "C" {
          st := CharRecord(st, toks);
        } else {
          st := st.(h := HeaderLine(st.h, toks));
        }
      }
    }
    assert lines[|lines|..] == [];
  }

  /** The encoding map is empty or holds every code 0-255. */
  predicate CoversCodes(m: CodeMap)
  {
    m == map[] || Codes <= m.Keys
  }

  /** The line loop never drops a code from the encoding map, and keeps it
      either empty or covering codes 0-255: an encoded font stays encoded. */
  lemma {:induction false} AfmLinesKeepCodes(st: AfmState, lines: seq<seq<string>>)
    requires CoversCodes(st.cc2gn)
    ensures st.cc2gn.Keys <= AfmLines(st, lines).cc2gn.Keys
    ensures CoversCodes(AfmLines(st, lines).cc2gn)
    decreases |lines|
  {
    if lines != [] {
      var toks := lines[0];
      if |toks| >= 2 && toks[0] == "C" {
        RecordKeepsCodes(st, RecordMetrics(st, toks));
      }
      AfmLinesKeepCodes(LineStep(st, toks), lines[1..]);
    }
  }

  /** One record never drops a code from the encoding map, and keeps it
      either empty or covering codes 0-255. */
  lemma RecordKeepsCodes(st: AfmState, cm: CharMetrics)
    requires CoversCodes(st.cc2gn)
    ensures st.cc2gn.Keys <= ApplyRecord(st, cm).cc2gn.Keys
    ensures CoversCodes(ApplyRecord(st, cm).cc2gn)
  {
  }

  /** With an encoding, a record gives its width to every code 0-255 that the
      (repaired) encoding names after its glyph, and leaves the width of every
      other code alone. */
  lemma EncodedRecordSetsWidths(st: AfmState, cm: CharMetrics, i: int)
    requires Codes <= st.cc2gn.Keys && 0 <= i < 256
    ensures var r := ApplyRecord(st, cm);
      && r.cc2gn.Keys == st.cc2gn.Keys
      && (Get(r.cc2gn, i) == r.glyphname ==> i in r.widths && r.widths[i] == cm.width)
      && (Get(r.cc2gn, i) != r.glyphname && i in st.widths ==> i in r.widths && r.widths[i] == st.widths[i])
  {
    var name := EuroName(cm.name);
    var enc := RecordEncoding(st.cc2gn, name);
    assert i in enc;
    assert enc != map[];
    assert Get(WithCodes(enc), i) == Get(enc, i);
  }

  /** Without an encoding, a record whose glyph has a deprecated name makes the
      fixup loop insert every code 0-255 with an empty name. From then on the
      font counts as encoded: that record's width goes nowhere, and neither
      does the width of any later record. */
  lemma SymbolicFixupQuirk(st: AfmState, cm: CharMetrics)
    requires st.cc2gn == map[] && EuroName(cm.name) in FixGlyphs
    ensures var r := ApplyRecord(st, cm);
      && r.cc2gn.Keys == Codes
      && (forall c :: c in Codes ==> r.cc2gn[c] == "")
      && r.widths == st.widths
  {
    var name := EuroName(cm.name);
    FixGlyphsNamed(name);
    var enc := RecordEncoding(st.cc2gn, name);
    RenamedEmpty(FixGlyphs[name], name);
    assert 0 in enc;
    AssignNone(st.widths, enc, name, cm.width);
  }

  /** Both names of every repaired pair are non-empty. */
  lemma FixGlyphsNamed(name: string)
    requires name in FixGlyphs
    ensures name != "" && FixGlyphs[name] != ""
  {
  }

  /** Repairing a name in an empty encoding inserts codes 0-255, all unnamed. */
  lemma RenamedEmpty(canonical: string, deprecated: string)
    requires canonical != ""
    ensures Renamed(map[], canonical, deprecated).Keys == Codes
    ensures forall c :: c in Codes ==> Renamed(map[], canonical, deprecated)[c] == ""
  {
  }

  /** No code of an encoding that names nothing gets a named record's width. */
  lemma AssignNone(m: map<int, int>, enc: CodeMap, name: string, v: int)
    requires name != "" && forall c :: c in enc ==> enc[c] == ""
    ensures AssignByName(m, enc, name, v) == m
    ensures WithCodes(enc).Keys == enc.Keys + Codes
    ensures forall c :: c in WithCodes(enc) ==> WithCodes(enc)[c] == ""
  {
    assert (map i | 0 <= i < 256 && Get(enc, i) == name :: v) == map[];
  }

  /** The record `C 69 ; WX 600 ; N Edot ;` is such a record. */
  lemma EdotRecord(st: AfmState)
    ensures var toks := ["C", "69", ";", "WX", "600", ";", "N", "Edot", ";"];
      EuroName(RecordMetrics(st, toks).name) == "Edot" && "Edot" in FixGlyphs
  {
    var fs := [WidthField(600), NameField("Edot")];
    assert IntToString(69) == "69" && IntToString(600) == "600";
    assert ["C", "69", ";", "WX", "600", ";", "N", "Edot", ";"] == RecordTokens("C", 69, fs);
    ParseRecordRoundTrip("C", 69, fs, st.glyphname);
  }

  /** The value a code still holding the sentinel gets at the end: the width
      of `increment` for `Delta` when one was seen, the missing width otherwise. */
  function FallbackWidth(st: AfmState, c: int): int
  {
    if Get(st.cc2gn, c) == "Delta" && st.incWidth >= 0 then st.incWidth else st.h.fd.missingWidth
  }

  function FallbackGlyph(st: AfmState, c: int): int
  {
    if Get(st.cc2gn, c) == "Delta" && st.incWidth >= 0 then st.incGlyph else 0
  }

  predicate Unresolved(st: AfmState, c: int)
  {
    Lookup(st.widths, c) == Sentinel
  }

  /** The maps after the final loop over codes 0-255. */
  function FinalWidths(st: AfmState): WidthMap
  {
    map k | k in st.widths.Keys + Codes ::
      if 0 <= k < 256 && Unresolved(st, k) then FallbackWidth(st, k) else Lookup(st.widths, k)
  }

  function FinalGlyphs(st: AfmState): GlyphMap
  {
    if st.hasGlyphNumbers then st.glyphs + map c | 0 <= c < 256 && Unresolved(st, c) :: FallbackGlyph(st, c)
    else st.glyphs
  }

  function FinalNames(st: AfmState): CodeMap
  {
    map k | k in st.cc2gn.Keys + (set c | 0 <= c < 256 && Unresolved(st, c)) :: Get(st.cc2gn, k)
  }

  /** `w` is the width map once the final loop has handled the codes below `cc`. */
  ghost predicate WidthsUpTo(st: AfmState, w: WidthMap, cc: int)
  {
    && (forall k :: k in w <==> k in st.widths || 0 <= k < cc)
    && (forall k :: k in w ==>
          w[k] == if 0 <= k < cc && Unresolved(st, k) then FallbackWidth(st, k) else Lookup(st.widths, k))
  }

  ghost predicate GlyphsUpTo(st: AfmState, g: GlyphMap, cc: int)
  {
    && (forall k :: k in g <==> k in st.glyphs || (st.hasGlyphNumbers && 0 <= k < cc && Unresolved(st, k)))
    && (forall k :: k in g ==>
          g[k] == if st.hasGlyphNumbers && 0 <= k < cc && Unresolved(st, k) then FallbackGlyph(st, k) else st.glyphs[k])
  }

  ghost predicate NamesUpTo(st: AfmState, e: CodeMap, cc: int)
  {
    && (forall k :: k in e <==> k in st.cc2gn || (0 <= k < cc && Unresolved(st, k)))
    && (forall k :: k in e ==> e[k] == Get(st.cc2gn, k))
  }

  lemma WidthsStep(st: AfmState, w: WidthMap, cc: int)
    requires 0 <= cc && WidthsUpTo(st, w, cc)
    ensures Lookup(w, cc) == Lookup(st.widths, cc)
    ensures WidthsUpTo(st, w[cc := if Unresolved(st, cc) then FallbackWidth(st, cc) else Lookup(st.widths, cc)], cc + 1)
  {
  }

  lemma GlyphsStep(st: AfmState, g: GlyphMap, cc: int)
    requires 0 <= cc && GlyphsUpTo(st, g, cc)
    ensures GlyphsUpTo(st, if st.hasGlyphNumbers && Unresolved(st, cc) then g[cc := FallbackGlyph(st, cc)] else g, cc + 1)
  {
  }

  lemma NamesStep(st: AfmState, e: CodeMap, cc: int)
    requires 0 <= cc && NamesUpTo(st, e, cc)
    ensures Get(e, cc) == Get(st.cc2gn, cc)
    ensures NamesUpTo(st, if Unresolved(st, cc) then Touch(e, cc) else e, cc + 1)
  {
  }

  lemma FinalWidthsAll(st: AfmState, w: WidthMap)
    requires WidthsUpTo(st, w, 256)
    ensures w == FinalWidths(st)
  {
    assert w.Keys == FinalWidths(st).Keys;
  }

  lemma FinalGlyphsAll(st: AfmState, g: GlyphMap)
    requires GlyphsUpTo(st, g, 256)
    ensures g == FinalGlyphs(st)
  {
    if st.hasGlyphNumbers {
      var fallback := map c | 0 <= c < 256 && Unresolved(st, c) :: FallbackGlyph(st, c);
      assert forall k :: k in g <==> k in st.glyphs || k in fallback;
      assert g.Keys == (st.glyphs + fallback).Keys;
    } else {
      assert forall k :: k in g <==> k in st.glyphs;
      assert forall k :: k in g ==> g[k] == st.glyphs[k];
      assert g.Keys == st.glyphs.Keys;
    }
  }

  lemma FinalNamesAll(st: AfmState, e: CodeMap)
    requires NamesUpTo(st, e, 256)
    ensures e == FinalNames(st)
  {
    assert e.Keys == FinalNames(st).Keys;
  }

  /** The final loop of `MakeFontAFM`: each code 0-255 still holding the
      sentinel gets its fallback width (and glyph, once glyph numbers were
      seen); every code 0-255 ends up in the width map. */
  method Finalise(st: AfmState) returns (widths: WidthMap, glyphs: GlyphMap, cc2gn: CodeMap)
    ensures widths == FinalWidths(st) && glyphs == FinalGlyphs(st) && cc2gn == FinalNames(st)
  {
    widths, glyphs, cc2gn := st.widths, st.glyphs, st.cc2gn;
    for cc := 0 to 256
      invariant WidthsUpTo(st, widths, cc) && GlyphsUpTo(st, glyphs, cc) && NamesUpTo(st, cc2gn, cc)
    {
      widths, glyphs, cc2gn := FinaliseCode(st, widths, glyphs, cc2gn, cc);
    }
    FinalWidthsAll(st, widths);
    FinalGlyphsAll(st, glyphs);
    FinalNamesAll(st, cc2gn);
  }

  /** One pass of the final loop, for the code `cc`. */
  method FinaliseCode(st: AfmState, w0: WidthMap, g0: GlyphMap, e0: CodeMap, cc: int)
    returns (widths: WidthMap, glyphs: GlyphMap, cc2gn: CodeMap)
    requires 0 <= cc && WidthsUpTo(st, w0, cc) && GlyphsUpTo(st, g0, cc) && NamesUpTo(st, e0, cc)
    ensures WidthsUpTo(st, widths, cc + 1) && GlyphsUpTo(st, glyphs, cc + 1) && NamesUpTo(st, cc2gn, cc + 1)
  {
    WidthsStep(st, w0, cc);
    GlyphsStep(st, g0, cc);
    NamesStep(st, e0, cc);
    widths, glyphs, cc2gn := w0, g0, e0;
    var w := Lookup(widths, cc);
    widths := widths[cc := w];
    if w == Sentinel {
      cc2gn := Touch(cc2gn, cc);
      if cc2gn[cc] == "Delta" && st.incWidth >= 0 {
        widths := widths[cc := st.incWidth];
        if st.hasGlyphNumbers {
          glyphs := glyphs[cc := st.incGlyph];
        }
      } else {
        widths := widths[cc := st.h.fd.missingWidth];
        if st.hasGlyphNumbers {
          glyphs := glyphs[cc := 0];
        }
      }
    }
  }

  /** After the final loop no code 0-255 is left without a width, and one that
      still held the sentinel has its fallback, unless the fallback is itself
      the sentinel value. */
  lemma FinalWidthsResolve(st: AfmState, c: int)
    requires 0 <= c < 256
    ensures c in FinalWidths(st)
    ensures FinalWidths(st)[c] == Sentinel ==> Unresolved(st, c) ==> FallbackWidth(st, c) == Sentinel
  {
    assert c in Codes;
  }

  /** An item of a `Differences` array (section 9.6.6.1 of ISO 32000-1): a
      code that starts a run, or the glyph name of the next code. */
  datatype DiffItem = CodeItem(code: int) | NameItem(name: string)

  /** The items a differing code `i` adds: its code unless it follows `last`,
      then its name. */
  function DiffHead(enc: CodeMap, i: int, last: int): seq<DiffItem>
  {
    (if i != last + 1 then [CodeItem(i)] else []) + [NameItem(Get(enc, i))]
  }

  /** The items for codes `i`-255 that differ from the reference encoding;
      `last` is the previous differing code. A code is written only when it
      does not follow the previous one. */
  function DiffItems(enc: CodeMap, ref: CodeMap, i: int, last: int): seq<DiffItem>
    decreases 256 - i
  {
    if i >= 256 then []
    else if Get(enc, i) != Get(ref, i) then
      DiffHead(enc, i, last) + DiffItems(enc, ref, i + 1, i)
    else DiffItems(enc, ref, i + 1, last)
  }

  /** `"%d "` for a code, `"/name "` for a name. */
  function ItemText(d: DiffItem): string
  {
    match d
    case CodeItem(c) => IntToString(c) + " "
    case NameItem(n) => "/" + n + " "
  }

  function ItemsText(ds: seq<DiffItem>): string
  {
    if ds == [] then "" else ItemText(ds[0]) + ItemsText(ds[1..])
  }

  lemma {:induction false} ItemsTextAppend(a: seq<DiffItem>, b: seq<DiffItem>)
    ensures ItemsText(a + b) == ItemsText(a) + ItemsText(b)
    decreases |a|
  {
    if a != [] {
      assert (a + b)[0] == a[0];
      assert (a + b)[1..] == a[1..] + b;
      ItemsTextAppend(a[1..], b);
    } else {
      assert a + b == b;
    }
  }

  /** The `Differences` string of an encoded font, over codes 32-255. */
  function DiffsText(enc: CodeMap, ref: CodeMap): string
  {
    ItemsText(DiffItems(enc, ref, 32, 0))
  }

  /** The text the differences loop appends for a differing code `i`. */
  function DiffPiece(enc: CodeMap, i: int, last: int): string
  {
    (if i != last + 1 then IntToString(i) + " " else "") + "/" + Get(enc, i) + " "
  }

  lemma DiffHeadText(enc: CodeMap, i: int, last: int)
    ensures ItemsText(DiffHead(enc, i, last)) == DiffPiece(enc, i, last)
  {
    var name := [NameItem(Get(enc, i))];
    assert ItemsText(name) == "/" + Get(enc, i) + " " by {
      assert name[1..] == [];
    }
    if i != last + 1 {
      ItemsTextAppend([CodeItem(i)], name);
      var code := IntToString(i) + " ";
      assert ItemsText([CodeItem(i)]) == code by {
        assert [CodeItem(i)][1..] == [];
      }
      assert DiffPiece(enc, i, last) == code + ("/" + Get(enc, i) + " ");
    } else {
      assert DiffHead(enc, i, last) == name;
    }
  }

  lemma DiffsStep(enc: CodeMap, ref: CodeMap, i: int, last: int)
    requires i < 256 && Get(enc, i) != Get(ref, i)
    ensures ItemsText(DiffItems(enc, ref, i, last)) == DiffPiece(enc, i, last) + ItemsText(DiffItems(enc, ref, i + 1, i))
  {
    ItemsTextAppend(DiffHead(enc, i, last), DiffItems(enc, ref, i + 1, i));
    DiffHeadText(enc, i, last);
  }

  /** The differences loop of `MakeFontAFM`. */
  method BuildDiffs(enc: CodeMap, ref: CodeMap) returns (diffs: string)
    ensures diffs == DiffsText(enc, ref)
  {
    diffs := "";
    var last := 0;
    for i := 32 to 256
      invariant diffs + ItemsText(DiffItems(enc, ref, i, last)) == DiffsText(enc, ref)
    {
      if Get(enc, i) != Get(ref, i) {
        var piece := "";
        if i != last + 1 {
          piece := IntToString(i) + " ";
        }
        piece := piece + "/" + Get(enc, i) + " ";
        DiffsLoopStep(enc, ref, i, last, diffs, piece);
        diffs := diffs + piece;
        last := i;
      }
    }
  }

  lemma DiffsLoopStep(enc: CodeMap, ref: CodeMap, i: int, last: int, diffs: string, piece: string)
    requires i < 256 && Get(enc, i) != Get(ref, i)
    requires piece == (if i != last + 1 then IntToString(i) + " " else "") + "/" + Get(enc, i) + " "
    ensures diffs + ItemsText(DiffItems(enc, ref, i, last)) == (diffs + piece) + ItemsText(DiffItems(enc, ref, i + 1, i))
  {
    DiffsStep(enc, ref, i, last);
    assert piece == DiffPiece(enc, i, last);
    Assoc(diffs, piece, ItemsText(DiffItems(enc, ref, i + 1, i)));
  }

  /** How a PDF reader applies a `Differences` array to a base encoding: a
      code sets the current code, a name is given to the current code, which
      then advances. */
  function ApplyDiffs(ds: seq<DiffItem>, cur: int, m: CodeMap): CodeMap
    decreases |ds|
  {
    if ds == [] then m
    else match ds[0]
      case CodeItem(c) => ApplyDiffs(ds[1..], c, m)
      case NameItem(n) => ApplyDiffs(ds[1..], cur + 1, m[cur := n])
  }

  /** `r` is `m` with every code from `i` on that differs from the reference
      given the font's name, and every other entry left alone. */
  ghost predicate AppliedFrom(enc: CodeMap, ref: CodeMap, i: int, m: CodeMap, r: CodeMap)
  {
    && (forall c :: c in r <==> c in m || (i <= c < 256 && Get(enc, c) != Get(ref, c)))
    && (forall c :: c in r ==> r[c] == if i <= c < 256 && Get(enc, c) != Get(ref, c) then Get(enc, c) else m[c])
  }

  /** Applying the items for codes `i`-255, starting just after the previous
      differing code, gives every differing code from `i` on the font's name
      and leaves every other entry alone. */
  lemma {:induction false} ApplyDiffItems(enc: CodeMap, ref: CodeMap, i: int, last: int, m: CodeMap)
    ensures AppliedFrom(enc, ref, i, m, ApplyDiffs(DiffItems(enc, ref, i, last), last + 1, m))
    decreases 256 - i
  {
    if i < 256 && Get(enc, i) != Get(ref, i) {
      var rest := DiffItems(enc, ref, i + 1, i);
      ApplyDiffItems(enc, ref, i + 1, i, m[i := Get(enc, i)]);
      ApplyHead(enc, i, last, rest, m);
      AppliedStep(enc, ref, i, m, ApplyDiffs(rest, i + 1, m[i := Get(enc, i)]));
    } else if i < 256 {
      ApplyDiffItems(enc, ref, i + 1, last, m);
      AppliedSkip(enc, ref, i, m, ApplyDiffs(DiffItems(enc, ref, i + 1, last), last + 1, m));
    }
  }

  /** The items of one differing code name it and move past it. */
  lemma ApplyHead(enc: CodeMap, i: int, last: int, rest: seq<DiffItem>, m: CodeMap)
    ensures ApplyDiffs(DiffHead(enc, i, last) + rest, last + 1, m) == ApplyDiffs(rest, i + 1, m[i := Get(enc, i)])
  {
    var n := Get(enc, i);
    var ds := DiffHead(enc, i, last) + rest;
    if i != last + 1 {
      assert ds[0] == CodeItem(i);
      assert ds[1..] == [NameItem(n)] + rest;
      assert ds[1..][1..] == rest;
    } else {
      assert ds[0] == NameItem(n);
      assert ds[1..] == rest;
    }
  }

  lemma AppliedStep(enc: CodeMap, ref: CodeMap, i: int, m: CodeMap, r: CodeMap)
    requires i < 256 && Get(enc, i) != Get(ref, i)
    requires AppliedFrom(enc, ref, i + 1, m[i := Get(enc, i)], r)
    ensures AppliedFrom(enc, ref, i, m, r)
  {
  }

  lemma AppliedSkip(enc: CodeMap, ref: CodeMap, i: int, m: CodeMap, r: CodeMap)
    requires i < 256 && Get(enc, i) == Get(ref, i)
    requires AppliedFrom(enc, ref, i + 1, m, r)
    ensures AppliedFrom(enc, ref, i, m, r)
  {
  }

  /** Applying the `Differences` array to the reference encoding gives back
      the font's encoding for every code 32-255. */
  lemma DifferencesRestoreEncoding(enc: CodeMap, ref: CodeMap, c: int)
    requires Codes <= ref.Keys && 32 <= c < 256
    ensures var m := ApplyDiffs(DiffItems(enc, ref, 32, 0), 1, ref);
      c in m && m[c] == Get(enc, c)
  {
    ApplyDiffItems(enc, ref, 32, 0, ref);
    assert c in Codes;
  }

  /** Codes that agree with the reference add nothing to the array. */
  lemma {:induction false} DiffsSkip(enc: CodeMap, ref: CodeMap, i: int, j: int, last: int)
    requires i <= j <= 256
    requires forall c :: i <= c < j ==> Get(enc, c) == Get(ref, c)
    ensures DiffItems(enc, ref, i, last) == DiffItems(enc, ref, j, last)
    decreases j - i
  {
    if i < j {
      DiffsSkip(enc, ref, i + 1, j, last);
    }
  }

  /** Codes 128 and 200 differing from the reference give the array
      `128 /g128 200 /g200`: each code starts a run of its own. */
  lemma DiffsExample(ref: CodeMap)
    requires 128 in ref && 200 in ref && ref[128] != "g128" && ref[200] != "g200"
    ensures DiffItems(ref[128 := "g128"][200 := "g200"], ref, 32, 0)
      == [CodeItem(128), NameItem("g128"), CodeItem(200), NameItem("g200")]
  {
    var enc := ref[128 := "g128"][200 := "g200"];
    DiffsSkip(enc, ref, 32, 128, 0);
    DiffsSkip(enc, ref, 129, 200, 128);
    DiffsSkip(enc, ref, 201, 256, 200);
  }

  /** The same example as text: the string written is `"128 /g128 200 /g200 "`. */
  lemma DiffsTextExample(ref: CodeMap)
    requires 128 in ref && 200 in ref && ref[128] != "g128" && ref[200] != "g200"
    ensures DiffsText(ref[128 := "g128"][200 := "g200"], ref) == "128 " + ("/g128 " + ("200 " + "/g200 "))
  {
    DiffsExample(ref);
    ExampleItemsText();
  }

  /** The text of the items of `DiffsExample`. */
  lemma ExampleItemsText()
    ensures ItemsText([CodeItem(128), NameItem("g128"), CodeItem(200), NameItem("g200")])
         == "128 " + ("/g128 " + ("200 " + "/g200 "))
  {
    ItemsTextOfFour(CodeItem(128), NameItem("g128"), CodeItem(200), NameItem("g200"));
    assert ItemText(CodeItem(128)) == "128 " by { CodeItemText(128, "128"); }
    assert ItemText(CodeItem(200)) == "200 " by { CodeItemText(200, "200"); }
    assert ItemText(NameItem("g128")) == "/g128 " by { NameItemText("g128", "/g128 "); }
    assert ItemText(NameItem("g200")) == "/g200 " by { NameItemText("g200", "/g200 "); }
  }

  lemma NameItemText(n: string, t: string)
    requires t == ['/'] + n + [' ']
    ensures ItemText(NameItem(n)) == t
  {
  }

  lemma ItemsTextOfFour(a: DiffItem, b: DiffItem, c: DiffItem, d: DiffItem)
    ensures ItemsText([a, b, c, d]) == ItemText(a) + (ItemText(b) + (ItemText(c) + ItemText(d)))
  {
    assert [d][1..] == [];
    assert ItemsText([d]) == ItemText(d) + "";
    assert ItemText(d) + "" == ItemText(d);
    assert [c, d][0] == c && [c, d][1..] == [d];
    assert ItemsText([c, d]) == ItemText(c) + ItemsText([d]);
    assert [b, c, d][0] == b && [b, c, d][1..] == [c, d];
    assert ItemsText([b, c, d]) == ItemText(b) + ItemsText([c, d]);
    assert [a, b, c, d][0] == a && [a, b, c, d][1..] == [b, c, d];
  }

  /** The text of a code item of three decimal digits. */
  lemma CodeItemText(c: int, digits: string)
    requires 100 <= c < 1000 && |digits| == 3
    requires digits == [DigitChar(c / 100), DigitChar(c / 10 % 10), DigitChar(c % 10)]
    ensures ItemText(CodeItem(c)) == digits + " "
  {
    assert NatToString(c / 100) == [DigitChar(c / 100)];
    assert NatToString(c / 10) == NatToString(c / 100) + [DigitChar(c / 10 % 10)];
  }

  /** The inputs of `MakeFontAFM`: file names and the contents of the files
      they name (`None` when a file cannot be opened), the extension of the
      font file name, the `type` argument, and the descriptor as its
      constructor leaves it. `referenceMap` is the `cp1252` map. */
  datatype AfmInput = AfmInput(
    fontFileName: string, fontFileExt: string, fontFile: Option<seq<byte>>,
    afm: Option<seq<seq<string>>>,
    encoding: string, encodingMap: Option<MapFile>,
    patch: string, patchMap: Option<MapFile>,
    referenceMap: Option<MapFile>,
    fontType: string, ctor: FontDescription)

  /** What the font file contributes: nothing, the whole (TrueType) file of
      the given length, or the two kept segments of a Type 1 file. */
  datatype Embedding = NotEmbedded | WholeFile(size1: int) | Type1(segments: Pfb.Segments)

  /** The font definition `MakeFontAFM` writes out. */
  datatype AfmFont = AfmFont(
    trueType: bool, name: Option<string>, encoding: string, diffs: string,
    fd: FontDescription, widths: WidthMap, glyphs: GlyphMap, hasGlyphNumbers: bool,
    embedding: Embedding)

  datatype AfmError = EncodingUnreadable | MetricsUnreadable | FontFileUnreadable

  /** The font type: from the extension when a font file is named, else the
      `type` argument. */
  function FontTypeOf(inp: AfmInput): string
  {
    if inp.fontFileName == [] then inp.fontType
    else if inp.fontFileExt == "ttf" then "TrueType"
    else if inp.fontFileExt == "pfb" then "Type1"
    else inp.fontType
  }

  /** Whether the source tries to embed: true unless a TrueType file's licence
      forbids it, so also when no font file is named at all. */
  ghost function EmbeddingAllowedAsWritten(inp: AfmInput): bool
  {
    if inp.fontFileName != [] && FontTypeOf(inp) == "TrueType"
    then Sfnt.Inspect(inp.fontFileName, inp.fontFile).embeddingAllowed
    else true
  }

  /** Embedding is attempted only when a font file is named and its licence
      allows it. */
  ghost function EmbeddingAllowed(inp: AfmInput): bool
  {
    inp.fontFileName != [] && EmbeddingAllowedAsWritten(inp)
  }

  /** Opening the font file: an empty name names no file. */
  predicate FontFileOpens(inp: AfmInput)
  {
    inp.fontFileName != [] && inp.fontFile.Some?
  }

  /** Without a font file name the source still tries to embed, and opening
      the empty name fails: the whole run fails instead of producing a font
      without embedding. */
  lemma NoFontFileAsWritten(inp: AfmInput)
    requires inp.fontFileName == []
    ensures EmbeddingAllowedAsWritten(inp) && !FontFileOpens(inp)
    ensures !EmbeddingAllowed(inp)
  {
  }

  /** The encoding map after the encoding and the patch have been read. */
  ghost function EncodingOf(inp: AfmInput): CodeMap
    requires inp.encoding != [] ==> inp.encodingMap.Some?
  {
    if inp.encoding == [] then map[]
    else
      var base := LoadMap(inp.encodingMap.value);
      if inp.patch != [] && inp.patchMap.Some? then base + LoadMap(inp.patchMap.value) else base
  }

  /** The reader state after the whole metrics file. */
  ghost function ParsedAfm(inp: AfmInput): AfmState
    requires inp.encoding != [] ==> inp.encodingMap.Some?
    requires inp.afm.Some?
  {
    var cc2gn := EncodingOf(inp);
    AfmLines(AfmState(StartHeader(inp.ctor, true), cc2gn, StartWidths(cc2gn), StartGlyphs(cc2gn), "", -1, 0, false),
             inp.afm.value)
  }

  /** The font before the embedding step. */
  ghost function AfmMetrics(inp: AfmInput): AfmFont
    requires inp.encoding != [] ==> inp.encodingMap.Some?
    requires inp.afm.Some?
  {
    var st := ParsedAfm(inp);
    var names := FinalNames(st);
    var ref := if inp.referenceMap.Some? then LoadMap(inp.referenceMap.value) else map[];
    var diffs := if inp.encoding != [] then DiffsText(names, ref) else "";
    AfmFont(FontTypeOf(inp) == "TrueType", st.h.fontName, inp.encoding, diffs,
            Finish(st.h, names == map[]), FinalWidths(st), FinalGlyphs(st), st.hasGlyphNumbers, NotEmbedded)
  }

  /** `MakeFontAFM` as a value, with the corrected embedding rule: no
      embedding is attempted without a font file name. */
  ghost function AfmSpec(inp: AfmInput): Result<AfmFont, AfmError>
  {
    AfmRun(inp, EmbeddingAllowed(inp))
  }

  /** `MakeFontAFM` as written: embedding is attempted whenever the licence
      check (if any) did not forbid it. */
  ghost function AfmSpecAsWritten(inp: AfmInput): Result<AfmFont, AfmError>
  {
    AfmRun(inp, EmbeddingAllowedAsWritten(inp))
  }

  /** The run given whether embedding is attempted: the errors, then the font
      with its embedding. */
  ghost function AfmRun(inp: AfmInput, embed: bool): Result<AfmFont, AfmError>
  {
    if inp.encoding != [] && inp.encodingMap.None? then Err(EncodingUnreadable)
    else if inp.afm.None? then Err(MetricsUnreadable)
    else
      var font := AfmMetrics(inp);
      if !embed then Ok(font)
      else if !FontFileOpens(inp) then Err(FontFileUnreadable)
      else if FontTypeOf(inp) == "TrueType" then Ok(font.(embedding := WholeFile(|inp.fontFile.value|)))
      else match Pfb.Split(inp.fontFile.value)
        case None => Ok(font)
        case Some(s) => Ok(font.(embedding := Type1(s)))
  }

  /** The encoding map, as `MakeFontAFM` reads it. */
  method ReadEncoding(inp: AfmInput) returns (ok: bool, cc2gn: CodeMap)
    ensures ok == (inp.encoding == [] || inp.encodingMap.Some?)
    ensures ok ==> cc2gn == EncodingOf(inp)
  {
    cc2gn := map[];
    ok := true;
    if |inp.encoding| > 0 {
      ok, cc2gn := ReadMap(inp.encodingMap);
      if !ok {
        return;
      }
      LoadedIsLoadMap(inp.encodingMap.value, cc2gn);
      if |inp.patch| > 0 {
        var valid, cc2gnPatch := ReadMap(inp.patchMap);
        if valid {
          LoadedIsLoadMap(inp.patchMap.value, cc2gnPatch);
          cc2gn := Overlay(cc2gn, cc2gnPatch);
        }
      }
    }
  }

  /** Everything from the metrics file: line loop, final loop, differences and
      descriptor. */
  method CompileMetrics(inp: AfmInput, cc2gn: CodeMap) returns (font: AfmFont)
    requires inp.encoding != [] ==> inp.encodingMap.Some?
    requires inp.afm.Some? && cc2gn == EncodingOf(inp)
    ensures font == AfmMetrics(inp)
  {
    var widths, glyphs := InitMetrics(cc2gn);
    var st0 := AfmState(StartHeader(inp.ctor, true), cc2gn, widths, glyphs, "", -1, 0, false);
    var st := ParseAfm(st0, inp.afm.value);
    var names;
    widths, glyphs, names := Finalise(st);
    var diffs := "";
    if |inp.encoding| > 0 {
      var valid, cc2gnRef := ReadMap(inp.referenceMap);
      if valid {
        LoadedIsLoadMap(inp.referenceMap.value, cc2gnRef);
      }
      diffs := BuildDiffs(names, cc2gnRef);
    }
    var fd := Finish(st.h, |names| == 0);
    font := AfmFont(FontTypeOf(inp) == "TrueType", st.h.fontName, inp.encoding, diffs, fd,
                    widths, glyphs, st.hasGlyphNumbers, NotEmbedded);
  }

  /** makefont.cpp `MakeFontAFM`, with embedding skipped when no font file is
      named. */
  method MakeFontAfm(inp: AfmInput) returns (r: Result<AfmFont, AfmError>)
    ensures r == AfmSpec(inp)
  {
    var fontType := FontTypeOf(inp);
    var embeddingAllowed := true;
    if |inp.fontFileName| > 0 && fontType == "TrueType" {
      var check := Sfnt.CheckTtf(inp.fontFileName, inp.fontFile);
      embeddingAllowed := check.embeddingAllowed;
    }
    var ok, cc2gn := ReadEncoding(inp);
    if !ok {
      return Err(EncodingUnreadable);
    }
    if inp.afm.None? {
      return Err(MetricsUnreadable);
    }
    var font := CompileMetrics(inp, cc2gn);
    if embeddingAllowed && |inp.fontFileName| > 0 {
      if inp.fontFile.None? {
        return Err(FontFileUnreadable);
      }
      var data := inp.fontFile.value;
      if fontType == "TrueType" {
        font := font.(embedding := WholeFile(|data|));
      } else {
        var segments := Pfb.SplitPfb(data);
        if segments.Some? {
          font := font.(embedding := Type1(segments.value));
        }
      }
    }
    r := Ok(font);
  }

  /** The run fails exactly when the encoding, the metrics file or (when
      embedding is attempted) the font file cannot be read. */
  lemma AfmErrors(inp: AfmInput)
    ensures AfmSpec(inp) == Err(EncodingUnreadable) <==> inp.encoding != [] && inp.encodingMap.None?
    ensures AfmSpec(inp) == Err(MetricsUnreadable) <==>
              !(inp.encoding != [] && inp.encodingMap.None?) && inp.afm.None?
    ensures AfmSpec(inp) == Err(FontFileUnreadable) <==>
              !(inp.encoding != [] && inp.encodingMap.None?) && inp.afm.Some?
              && EmbeddingAllowed(inp) && inp.fontFile.None?
  {
  }

  /** Without a font file name the font is produced, unembedded. */
  lemma NoFontFileNoEmbedding(inp: AfmInput)
    requires inp.fontFileName == []
    requires inp.encoding != [] ==> inp.encodingMap.Some?
    requires inp.afm.Some?
    ensures AfmSpec(inp) == Ok(AfmMetrics(inp)) && AfmMetrics(inp).embedding == NotEmbedded
  {
  }

  /** With no font file name, readable encoding and metrics, the source as
      written fails on opening the empty name, where the corrected run
      produces the font unembedded. */
  lemma NoFontFileRunFails(inp: AfmInput)
    requires inp.fontFileName == []
    requires inp.encoding != [] ==> inp.encodingMap.Some?
    requires inp.afm.Some?
    ensures AfmSpecAsWritten(inp) == Err(FontFileUnreadable)
    ensures AfmSpec(inp).Ok? && AfmSpec(inp).value.embedding == NotEmbedded
  {
    NoFontFileAsWritten(inp);
  }

  /** A font read with an encoding is non-symbolic (flag 32); one read without
      is symbolic (flag 4) unless a deprecated glyph name filled its map. */
  lemma EncodedFontFlags(inp: AfmInput)
    requires inp.encoding != [] && inp.encodingMap.Some? && inp.afm.Some?
    ensures AfmMetrics(inp).fd.flags == ParsedAfm(inp).h.flags + 32
  {
    var cc2gn := EncodingOf(inp);
    var st0 := AfmState(StartHeader(inp.ctor, true), cc2gn, StartWidths(cc2gn), StartGlyphs(cc2gn), "", -1, 0, false);
    assert 0 in Codes;
    assert 0 in cc2gn;
    AfmLinesKeepCodes(st0, inp.afm.value);
    assert 0 in FinalNames(ParsedAfm(inp));
  }
}
