/** What `MakeFontAFM` and `MakeFontUFM` share: the font descriptor they fill
    in, the header keywords of a metrics file, the sub-fields of a character
    metrics record (`WX`, `N`, `G`, `B`, as in the "Character Metrics" section
    of Adobe Technical Note #5004), and the final flags and defaults.
    A line of a metrics file is modelled as its list of space-separated
    tokens; `Tok` is `wxStringTokenizer::GetNextToken`, which yields "" once
    the tokens are used up. */
module Metrics {
  import opened Wrappers
  import opened Text

  /** `wxPdfFontDescription`. */
  datatype FontDescription = FontDescription(
    ascent: int, descent: int, capHeight: int, xHeight: int, flags: int,
    fontBBox: string, italicAngle: int, stemV: int, missingWidth: int,
    underlinePosition: int, underlineThickness: int)

  /** The scalar parser state of both metrics readers: the descriptor, the
      font name, the first-wins flags and the running descriptor flags. */
  datatype Header = Header(
    fd: FontDescription, fontName: Option<string>,
    hasCapHeight: bool, hasXCapHeight: bool, hasXHeight: bool,
    hasFontBBox: bool, hasStemV: bool, hasMissingWidth: bool, flags: int)

  /** The state before the first line. `ctor` is the descriptor as its
      constructor leaves it; both readers then set ascent 1000, descent -200,
      italic angle 0, stem width 70 and missing width 600, and the AFM reader
      also underline position -100 and thickness 50. */
  function StartHeader(ctor: FontDescription, setUnderline: bool): (h: Header)
    ensures h.fd.ascent == 1000 && h.fd.descent == -200 && h.fd.italicAngle == 0
    ensures h.fd.stemV == 70 && h.fd.missingWidth == 600
    ensures setUnderline ==> h.fd.underlinePosition == -100 && h.fd.underlineThickness == 50
    ensures !setUnderline ==>
              h.fd.underlinePosition == ctor.underlinePosition && h.fd.underlineThickness == ctor.underlineThickness
    ensures !h.hasCapHeight && !h.hasXCapHeight && !h.hasXHeight && !h.hasFontBBox
    ensures !h.hasStemV && !h.hasMissingWidth && h.flags == 0 && h.fontName.None?
  {
    var fd := ctor.(ascent := 1000, descent := -200, italicAngle := 0, stemV := 70, missingWidth := 600);
    var fd' := if setUnderline then fd.(underlinePosition := -100, underlineThickness := 50) else fd;
    Header(fd', None, false, false, false, false, false, false, 0)
  }

  /** Token `k` of a line, "" past the end. */
  function Tok(toks: seq<string>, k: int): string
  {
    if 0 <= k < |toks| then toks[k] else ""
  }

  /** The position after reading `n` more tokens from position `k`. */
  function Advance(toks: seq<string>, k: nat, n: nat): (j: nat)
    requires k <= |toks|
    ensures k <= j <= |toks|
  {
    if k + n <= |toks| then k + n else |toks|
  }

  /** The header keywords the readers act on. */
  const Keywords: set<string> := {"FontName", "Weight", "ItalicAngle", "Ascender", "Descender",
    "UnderlineThickness", "UnderlinePosition", "IsFixedPitch", "FontBBox", "CapHeight", "StdVW"}

  /** One header line (a line whose first token is not the record key, with
      at least two tokens). The italic angle is read as the integer part of
      its parameter. */
  function HeaderLine(h: Header, toks: seq<string>): (r: Header)
    requires |toks| >= 2
    ensures toks[0] !in Keywords ==> r == h
    ensures r.hasXCapHeight == h.hasXCapHeight && r.hasXHeight == h.hasXHeight
    ensures r.hasMissingWidth == h.hasMissingWidth && r.fd.xHeight == h.fd.xHeight
    ensures r.fd.missingWidth == h.fd.missingWidth
    ensures r.flags - h.flags in {0, 1, 64}
  {
    var code, param, fd := toks[0], toks[1], h.fd;
    if code == "FontName" then h.(fontName := Some(param))
    else if code == "Weight" then
      var weight := Lower(param);
      if !h.hasStemV && (weight == "black" || weight == "bold") then h.(fd := fd.(stemV := 120)) else h
    else if code == "ItalicAngle" then
      var angle := ToLong(param);
      h.(fd := fd.(italicAngle := angle), flags := if angle > 0 then h.flags + 64 else h.flags)
    else if code == "Ascender" then h.(fd := fd.(ascent := ToLong(param)))
    else if code == "Descender" then h.(fd := fd.(descent := ToLong(param)))
    else if code == "UnderlineThickness" then h.(fd := fd.(underlineThickness := ToLong(param)))
    else if code == "UnderlinePosition" then h.(fd := fd.(underlinePosition := ToLong(param)))
    else if code == "IsFixedPitch" then
      if param == "true" then h.(flags := h.flags + 1) else h
    else if code == "FontBBox" then
      var bbox := "[" + param + " " + Tok(toks, 2) + " " + Tok(toks, 3) + " " + Tok(toks, 4) + "]";
      h.(hasFontBBox := true, fd := fd.(fontBBox := bbox))
    else if code == "CapHeight" then h.(hasCapHeight := true, fd := fd.(capHeight := ToLong(param)))
    else if code == "StdVW" then h.(hasStemV := true, fd := fd.(stemV := ToLong(param)))
    else h
  }

  /** An explicit `StdVW` wins over a bold or black `Weight`, in either order. */
  lemma StdVWWinsOverWeight(h: Header, weight: string, v: string)
    requires Lower(weight) == "bold" || Lower(weight) == "black"
    ensures HeaderLine(HeaderLine(h, ["StdVW", v]), ["Weight", weight]).fd.stemV == ToLong(v)
    ensures HeaderLine(HeaderLine(h, ["Weight", weight]), ["StdVW", v]).fd.stemV == ToLong(v)
    ensures !h.hasStemV ==> HeaderLine(h, ["Weight", weight]).fd.stemV == 120
  {
  }

  /** The sub-fields of one `C` or `U` record, as far as the readers use them.
      `boxTop` is the top of the `B` box, `None` when no box token was read. */
  datatype CharMetrics = CharMetrics(
    code: int, width: int, glyphNumber: int, sawGlyphNumber: bool, name: string, boxTop: Option<int>)

  /** The record state after its first three tokens: the code from token 1,
      width -1, glyph number 0 and no box; the glyph name is not reset and
      carries over from the previous record. */
  function StartMetrics(toks: seq<string>, prevName: string): CharMetrics
    requires |toks| >= 2
  {
    CharMetrics(ToLong(toks[1]), -1, 0, false, prevName, None)
  }

  /** The position after the next ";" at or after `k`, or the end of the line. */
  function SkipPast(toks: seq<string>, k: nat): (j: nat)
    requires k <= |toks|
    ensures k <= j <= |toks|
    decreases |toks| - k
  {
    if k == |toks| then k else if toks[k] == ";" then k + 1 else SkipPast(toks, k + 1)
  }

  /** The sub-field loop read as a function of the position of the next token. */
  function ScanFields(toks: seq<string>, k: nat, acc: CharMetrics): CharMetrics
    requires k <= |toks|
    decreases |toks| - k
  {
    if k == |toks| then acc
    else
      var (j, acc') := ReadField(toks, k, acc);
      ScanFields(toks, j, acc')
  }

  /** One pass of the sub-field loop: the key at `k`, then its arguments. The
      result is the position after them and the record state they give. */
  function ReadField(toks: seq<string>, k: nat, acc: CharMetrics): (r: (nat, CharMetrics))
    requires k < |toks|
    ensures k < r.0 <= |toks|
  {
    var token := toks[k];
    if token == "WX" then
      (Advance(toks, k + 1, 2), acc.(width := ToLong(Tok(toks, k + 1))))
    else if token == "N" then
      (Advance(toks, k + 1, 2), acc.(name := Tok(toks, k + 1)))
    else if token == "G" then
      (Advance(toks, k + 1, 2), acc.(glyphNumber := ToLong(Tok(toks, k + 1)), sawGlyphNumber := true))
    else if token == "B" then
      var top := Tok(toks, k + 4);
      (Advance(toks, k + 1, 5), acc.(boxTop := if top == "" then None else Some(ToLong(top))))
    else
      (SkipPast(toks, k + 1), acc)
  }

  /** The sub-field loop of a `C` (AFM) or `U` (UFM) record: tokens 0 to 2
      (key, code, semicolon) are already read. */
  method ParseCharMetrics(toks: seq<string>, prevName: string) returns (cm: CharMetrics)
    requires |toks| >= 2
    ensures cm == ScanFields(toks, Advance(toks, 2, 1), StartMetrics(toks, prevName))
  {
    cm := StartMetrics(toks, prevName);
    var pos := Advance(toks, 2, 1);
    ghost var start := pos;
    while pos < |toks|
      invariant start <= pos <= |toks|
      invariant ScanFields(toks, pos, cm) == ScanFields(toks, start, StartMetrics(toks, prevName))
      decreases |toks| - pos
    {
      pos, cm := ParseField(toks, pos, cm);
    }
  }

  /** One pass of the sub-field loop. */
  method ParseField(toks: seq<string>, pos0: nat, cm0: CharMetrics) returns (pos: nat, cm: CharMetrics)
    requires pos0 < |toks|
    ensures (pos, cm) == ReadField(toks, pos0, cm0)
  {
    cm := cm0;
    var token := toks[pos0];
    pos := pos0 + 1;
    if token == "WX" {
      cm := cm.(width := ToLong(Tok(toks, pos)));
      pos := Advance(toks, pos, 2);
    } else if token == "N" {
      cm := cm.(name := Tok(toks, pos));
      pos := Advance(toks, pos, 2);
    } else if token == "G" {
      cm := cm.(sawGlyphNumber := true, glyphNumber := ToLong(Tok(toks, pos)));
      pos := Advance(toks, pos, 2);
    } else if token == "B" {
      var tokenBoxHeight := Tok(toks, pos + 3);
      cm := cm.(boxTop := if tokenBoxHeight == "" then None else Some(ToLong(tokenBoxHeight)));
      pos := Advance(toks, pos, 5);
    } else {
      pos := SkipField(toks, pos);
    }
  }

  /** The loop that skips an unknown key's arguments up to and including the next ";". */
  method SkipField(toks: seq<string>, from: nat) returns (pos: nat)
    requires from <= |toks|
    ensures pos == SkipPast(toks, from)
  {
    pos := from;
    var more := pos < |toks|;
    while more
      invariant from <= pos <= |toks|
      invariant SkipPast(toks, from) == (if more then SkipPast(toks, pos) else pos)
      invariant more ==> pos < |toks|
      decreases |toks| - pos, more
    {
      var next := toks[pos];
      pos := pos + 1;
      more := pos < |toks| && next != ";";
    }
  }

  /** A sub-field as a well-formed record writes it. */
  datatype Field =
    | WidthField(w: int)
    | NameField(n: string)
    | GlyphField(g: int)
    | BoxField(llx: int, lly: int, urx: int, ury: int)
    | OtherField(key: string, args: seq<string>)

  /** Another key's arguments contain no ";", and its key is none the readers know. */
  predicate WellFormedField(f: Field)
  {
    f.OtherField? ==> f.key !in {"WX", "N", "G", "B", ";"} && forall i :: 0 <= i < |f.args| ==> f.args[i] != ";"
  }

  function FieldTokens(f: Field): seq<string>
  {
    match f
    case WidthField(w) => ["WX", IntToString(w), ";"]
    case NameField(n) => ["N", n, ";"]
    case GlyphField(g) => ["G", IntToString(g), ";"]
    case BoxField(llx, lly, urx, ury) =>
      ["B", IntToString(llx), IntToString(lly), IntToString(urx), IntToString(ury), ";"]
    case OtherField(key, args) => [key] + args + [";"]
  }

  function FieldsTokens(fs: seq<Field>): seq<string>
  {
    if fs == [] then [] else FieldTokens(fs[0]) + FieldsTokens(fs[1..])
  }

  /** The tokens of a whole record line: key, code, ";" and the sub-fields. */
  function RecordTokens(key: string, code: int, fs: seq<Field>): seq<string>
  {
    [key, IntToString(code), ";"] + FieldsTokens(fs)
  }

  /** What a sub-field means for the record: later fields of a kind override earlier ones. */
  function ApplyField(acc: CharMetrics, f: Field): CharMetrics
  {
    match f
    case WidthField(w) => acc.(width := w)
    case NameField(n) => acc.(name := n)
    case GlyphField(g) => acc.(glyphNumber := g, sawGlyphNumber := true)
    case BoxField(_, _, _, ury) => acc.(boxTop := Some(ury))
    case OtherField(_, _) => acc
  }

  function ApplyFields(acc: CharMetrics, fs: seq<Field>): CharMetrics
    decreases |fs|
  {
    if fs == [] then acc else ApplyFields(ApplyField(acc, fs[0]), fs[1..])
  }

  lemma {:induction false} SkipPastArgs(toks: seq<string>, k: nat, args: seq<string>)
    requires k + |args| < |toks| && toks[k..k + |args| + 1] == args + [";"]
    requires forall i :: 0 <= i < |args| ==> args[i] != ";"
    ensures SkipPast(toks, k) == k + |args| + 1
    decreases |args|
  {
    assert toks[k] == (args + [";"])[0];
    if args != [] {
      assert toks[k + 1..k + 1 + |args[1..]| + 1] == args[1..] + [";"];
      SkipPastArgs(toks, k + 1, args[1..]);
    }
  }

  /** Reading one sub-field's tokens applies that field. */
  lemma ScanField(toks: seq<string>, k: nat, acc: CharMetrics, f: Field)
    requires WellFormedField(f)
    requires k + |FieldTokens(f)| <= |toks| && toks[k..k + |FieldTokens(f)|] == FieldTokens(f)
    ensures ReadField(toks, k, acc) == (k + |FieldTokens(f)|, ApplyField(acc, f))
  {
    var ft := FieldTokens(f);
    assert toks[k] == ft[0];
    match f {
      case WidthField(w) =>
        assert toks[k + 1] == ft[1];
        ToLongOfIntToString(w);
      case NameField(n) =>
        assert toks[k + 1] == ft[1];
      case GlyphField(g) =>
        assert toks[k + 1] == ft[1];
        ToLongOfIntToString(g);
      case BoxField(llx, lly, urx, ury) =>
        assert toks[k + 4] == ft[4];
        assert IntToString(ury) != [];
        ToLongOfIntToString(ury);
      case OtherField(key, args) =>
        assert ft[1..] == args + [";"];
        assert toks[k + 1..k + 1 + |args| + 1] == ft[1..];
        SkipPastArgs(toks, k + 1, args);
    }
  }

  lemma {:induction false} ScanFieldsSuffix(toks: seq<string>, k: nat, acc: CharMetrics, fs: seq<Field>)
    requires forall i :: 0 <= i < |fs| ==> WellFormedField(fs[i])
    requires k <= |toks| && toks[k..] == FieldsTokens(fs)
    ensures ScanFields(toks, k, acc) == ApplyFields(acc, fs)
    decreases |fs|
  {
    if fs != [] {
      var n := |FieldTokens(fs[0])|;
      assert toks[k..k + n] == toks[k..][..n];
      assert toks[k + n..] == toks[k..][n..];
      assert k < |toks|;
      ScanField(toks, k, acc, fs[0]);
      ScanFieldsSuffix(toks, k + n, ApplyField(acc, fs[0]), fs[1..]);
    }
  }

  /** A well-formed record line parses back to its code and the meaning of its fields. */
  lemma ParseRecordRoundTrip(key: string, code: int, fs: seq<Field>, prevName: string)
    requires forall i :: 0 <= i < |fs| ==> WellFormedField(fs[i])
    ensures
      var toks := RecordTokens(key, code, fs);
      ScanFields(toks, Advance(toks, 2, 1), StartMetrics(toks, prevName))
        == ApplyFields(CharMetrics(code, -1, 0, false, prevName, None), fs)
  {
    var toks := RecordTokens(key, code, fs);
    ToLongOfIntToString(code);
    assert toks[3..] == FieldsTokens(fs);
    ScanFieldsSuffix(toks, 3, StartMetrics(toks, prevName), fs);
  }

  /** The cap-height and x-height rules of a record that is kept: the box top
      of glyph `X` becomes the cap height unless one is already known, the box
      top of glyph `x` the x-height unless one is already known. */
  function NoteBox(h: Header, isCapX: bool, isSmallX: bool, boxTop: Option<int>): (r: Header)
    ensures r.flags == h.flags && r.fontName == h.fontName && r.hasCapHeight == h.hasCapHeight
  {
    var h1 := if !h.hasCapHeight && !h.hasXCapHeight && isCapX && boxTop.Some?
      then h.(hasXCapHeight := true, fd := h.fd.(capHeight := boxTop.value)) else h;
    if !h1.hasXHeight && isSmallX && boxTop.Some?
      then h1.(hasXHeight := true, fd := h1.fd.(xHeight := boxTop.value)) else h1
  }

  /** The width of the first `.notdef` record becomes the missing width. */
  function NoteMissingWidth(h: Header, name: string, width: int): (r: Header)
    ensures r.flags == h.flags && r.hasMissingWidth == (h.hasMissingWidth || name == ".notdef")
  {
    if !h.hasMissingWidth && name == ".notdef" then h.(hasMissingWidth := true, fd := h.fd.(missingWidth := width))
    else h
  }

  /** An explicit `CapHeight` line wins over the box of glyph `X`, whichever comes first. */
  lemma CapHeightLineWins(h: Header, v: string, xTop: int, isSmallX: bool)
    ensures NoteBox(HeaderLine(h, ["CapHeight", v]), true, isSmallX, Some(xTop)).fd.capHeight == ToLong(v)
    ensures HeaderLine(NoteBox(h, true, isSmallX, Some(xTop)), ["CapHeight", v]).fd.capHeight == ToLong(v)
  {
  }

  /** Once a cap height, x-height or missing width is known, no later record changes it. */
  lemma FirstWins(h: Header, isCapX: bool, isSmallX: bool, boxTop: Option<int>, name: string, width: int)
    ensures (h.hasCapHeight || h.hasXCapHeight) ==> NoteBox(h, isCapX, isSmallX, boxTop).fd.capHeight == h.fd.capHeight
    ensures h.hasXHeight ==> NoteBox(h, isCapX, isSmallX, boxTop).fd.xHeight == h.fd.xHeight
    ensures h.hasMissingWidth ==> NoteMissingWidth(h, name, width).fd.missingWidth == h.fd.missingWidth
  {
  }

  /** `[0 d-100 1000 a+100]`, the bounding box used when the file gives none. */
  function DefaultBBox(fd: FontDescription): string
  {
    "[0 " + IntToString(fd.descent - 100) + " 1000 " + IntToString(fd.ascent + 100) + "]"
  }

  /** The end of both readers: the symbolic (4) or non-symbolic (32) flag is
      added and stored; a missing cap height becomes the ascent, a missing
      bounding box the default one. */
  function Finish(h: Header, symbolic: bool): (fd: FontDescription)
    ensures fd.flags == h.flags + (if symbolic then 4 else 32)
    ensures fd.capHeight == if h.hasCapHeight || h.hasXCapHeight then h.fd.capHeight else h.fd.ascent
    ensures fd.fontBBox == if h.hasFontBBox then h.fd.fontBBox else DefaultBBox(h.fd)
    ensures fd.(flags := h.fd.flags, capHeight := h.fd.capHeight, fontBBox := h.fd.fontBBox) == h.fd
  {
    var fd := h.fd.(flags := h.flags + if symbolic then 4 else 32);
    var fd' := if !h.hasCapHeight && !h.hasXCapHeight then fd.(capHeight := fd.ascent) else fd;
    if !h.hasFontBBox then fd'.(fontBBox := DefaultBBox(fd')) else fd'
  }

  /** Bit `n` (counted from 1) of a descriptor flags word, as numbered in
      section 9.8.2 of ISO 32000-1. */
  predicate FlagBit(flags: int, n: nat)
    requires 1 <= n <= 7
  {
    (flags / Pow2(n - 1)) % 2 == 1
  }

  function Pow2(n: nat): (p: nat)
    ensures p >= 1
  {
    if n == 0 then 1 else 2 * Pow2(n - 1)
  }

  /** A header that saw each of `IsFixedPitch true` and a positive
      `ItalicAngle` at most once ends with the flags ISO 32000-1 defines:
      FixedPitch (bit 1), Symbolic (bit 3) or Nonsymbolic (bit 6), Italic (bit 7),
      and neither Serif (bit 2) nor Script (bit 4). */
  lemma FinishFlags(h: Header, symbolic: bool)
    requires h.flags in {0, 1, 64, 65}
    ensures var f := Finish(h, symbolic).flags;
      && (FlagBit(f, 1) <==> h.flags % 2 == 1)
      && !FlagBit(f, 2)
      && (FlagBit(f, 3) <==> symbolic)
      && !FlagBit(f, 4)
      && (FlagBit(f, 6) <==> !symbolic)
      && (FlagBit(f, 7) <==> h.flags >= 64)
  {
    var f := Finish(h, symbolic).flags;
    assert Pow2(0) == 1 && Pow2(1) == 2 && Pow2(2) == 4 && Pow2(3) == 8;
    assert Pow2(5) == 32 && Pow2(6) == 64;
    FlagBits(f, h.flags % 2 == 1, symbolic, h.flags >= 64);
  }

  /** Flags are added with `+=`, not or-ed: a second `IsFixedPitch true` line
      carries into Serif (bit 2) and clears FixedPitch (bit 1). */
  lemma RepeatedFixedPitch(h: Header)
    requires h.flags == 0
    ensures var r := HeaderLine(HeaderLine(h, ["IsFixedPitch", "true"]), ["IsFixedPitch", "true"]);
      var f := Finish(r, false).flags;
      f == 34 && FlagBit(f, 2) && !FlagBit(f, 1)
  {
    assert Pow2(0) == 1 && Pow2(1) == 2;
  }

  /** The bits of a flags word built from FixedPitch, Symbolic or Nonsymbolic, and Italic. */
  lemma FlagBits(f: int, fixed: bool, symbolic: bool, italic: bool)
    requires Pow2(0) == 1 && Pow2(1) == 2 && Pow2(2) == 4 && Pow2(3) == 8 && Pow2(5) == 32 && Pow2(6) == 64
    requires f == (if fixed then 1 else 0) + (if symbolic then 4 else 32) + (if italic then 64 else 0)
    ensures (FlagBit(f, 1) <==> fixed) && !FlagBit(f, 2) && (FlagBit(f, 3) <==> symbolic)
    ensures !FlagBit(f, 4) && (FlagBit(f, 6) <==> !symbolic) && (FlagBit(f, 7) <==> italic)
  {
    if fixed {
      if symbolic {
        if italic { assert f == 69; } else { assert f == 5; }
      } else {
        if italic { assert f == 97; } else { assert f == 33; }
      }
    } else {
      if symbolic {
        if italic { assert f == 68; } else { assert f == 4; }
      } else {
        if italic { assert f == 96; } else { assert f == 32; }
      }
    }
  }
}
