/** The encoding map loader of makefont.cpp (`ReadMap`), the patch overlay of
    `MakeFontAFM`, and the table of deprecated glyph names it repairs.
    A `CTGMap` is a hash map from character code to glyph name whose
    `operator[]` inserts an empty name for a missing key; `Get` and `Touch`
    model the two halves of that behaviour. */
module Encoding {
  import opened Wrappers

  /** `CTGMap`: character code to glyph name. */
  type CodeMap = map<int, string>

  /** The codes 0-255 of an 8-bit encoding. */
  const Codes: set<int> := set i | 0 <= i < 256

  /** The value `cc2gn[k]` yields: the entry, or "" when there is none. */
  function Get(m: CodeMap, k: int): string
  {
    if k in m then m[k] else ""
  }

  /** The map after `cc2gn[k]` has been evaluated: a missing key is inserted with "". */
  function Touch(m: CodeMap, k: int): (r: CodeMap)
    ensures r.Keys == m.Keys + {k}
    ensures forall j :: j in m ==> r[j] == m[j]
    ensures r[k] == Get(m, k)
  {
    if k in m then m else m[k := ""]
  }

  /** A `.map` file as `wxTextInputStream >>` reads it: its whitespace-separated
      words, and whether whitespace follows the last word. */
  datatype MapFile = MapFile(words: seq<string>, endsWithSpace: bool)

  /** How many word triples `ReadMap` acts on. A triple whose reading reaches
      the end of the file sets `Eof` and is dropped: an incomplete last group
      always, a complete last triple when no whitespace follows it. */
  function TripleCount(f: MapFile): nat
  {
    var n := |f.words|;
    if n % 3 == 0 && n > 0 && !f.endsWithSpace then n / 3 - 1 else n / 3
  }

  /** `wxHexToDec` (wxWidgets 3.0) on the text after `!`: two characters,
      each worth `c - 'A' + 10` when `c >= 'A'` and `c - '0'` otherwise, kept
      to its low four bits (`& 0xF`, which on a two's complement `int` is the
      remainder modulo 16); a character past the end reads as NUL. */
  function HexToDec(s: string): int
  {
    var c0 := if |s| > 0 then s[0] else 0 as char;
    var c1 := if |s| > 1 then s[1] else 0 as char;
    16 * WxHexDigit(c0) + WxHexDigit(c1)
  }

  function WxHexDigit(c: char): int
  {
    (if c >= 'A' then c as int - 'A' as int + 10 else c as int - '0' as int) % 16
  }

  function UpperHexDigit(d: int): char
    requires 0 <= d < 16
  {
    if d < 10 then ('0' as int + d) as char else ('A' as int + d - 10) as char
  }

  /** A code written as two upper-case hexadecimal digits reads back as itself. */
  lemma HexToDecRoundTrip(v: int, rest: string)
    requires 0 <= v < 256
    ensures HexToDec([UpperHexDigit(v / 16), UpperHexDigit(v % 16)] + rest) == v
  {
  }

  /** Lower-case hexadecimal digits read as their upper-case forms: the mask
      drops the 32 that separates `a` from `A`. */
  lemma HexToDecLowerCase(d0: int, d1: int, rest: string)
    requires 10 <= d0 < 16 && 10 <= d1 < 16
    ensures HexToDec([('a' as int + d0 - 10) as char, ('a' as int + d1 - 10) as char] + rest) == 16 * d0 + d1
  {
    var s := [('a' as int + d0 - 10) as char, ('a' as int + d1 - 10) as char] + rest;
    assert WxHexDigit(s[0]) == d0;
    assert WxHexDigit(s[1]) == d1;
  }

  /** What triple `t` of the file assigns: a code and a glyph name when its
      first word starts with `!`, nothing otherwise. */
  function Assignment(f: MapFile, t: nat): Option<(int, string)>
    requires t < TripleCount(f)
  {
    var charcode := f.words[3 * t];
    if |charcode| > 0 && charcode[0] == '!' then Some((HexToDec(charcode[1..]), f.words[3 * t + 2]))
    else None
  }

  /** The glyph name the last of the first `n` triples that assigns code `c` gives it. */
  function LastSet(f: MapFile, n: nat, c: int): Option<string>
    requires n <= TripleCount(f)
  {
    if n == 0 then None
    else match Assignment(f, n - 1)
      case Some(a) => if a.0 == c then Some(a.1) else LastSet(f, n - 1, c)
      case None => LastSet(f, n - 1, c)
  }

  /** A code is assigned by the first `n` triples exactly when one of them names it. */
  lemma {:induction false} LastSetSome(f: MapFile, n: nat, c: int)
    requires n <= TripleCount(f)
    ensures LastSet(f, n, c).Some? <==>
              exists t :: 0 <= t < n && Assignment(f, t).Some? && Assignment(f, t).value.0 == c
  {
    if n > 0 {
      LastSetSome(f, n - 1, c);
    }
  }

  /** The map `ReadMap` builds from file `f`: the codes the file assigns, with
      the name of their last assignment, and every other code 0-255 as `.notdef`. */
  ghost predicate IsLoaded(f: MapFile, m: CodeMap)
  {
    && (forall c :: c in m <==> (c in Codes || LastSet(f, TripleCount(f), c).Some?))
    && (forall c :: c in m ==> m[c] == LastSet(f, TripleCount(f), c).GetOr(".notdef"))
  }

  /** The codes the file's assignments name. */
  ghost function AssignedCodes(f: MapFile): set<int>
  {
    set t | 0 <= t < TripleCount(f) && Assignment(f, t).Some? :: Assignment(f, t).value.0
  }

  /** The loaded map as a value: codes 0-255 and the assigned codes, each with
      the name of its last assignment or `.notdef`. */
  ghost function LoadMap(f: MapFile): CodeMap
  {
    map c | c in Codes + AssignedCodes(f) :: LastSet(f, TripleCount(f), c).GetOr(".notdef")
  }

  /** `IsLoaded` pins the map down: it is `LoadMap`. */
  lemma LoadedIsLoadMap(f: MapFile, m: CodeMap)
    requires IsLoaded(f, m)
    ensures m == LoadMap(f)
  {
    forall c
      ensures c in m <==> c in Codes + AssignedCodes(f)
    {
      LastSetSome(f, TripleCount(f), c);
      if LastSet(f, TripleCount(f), c).Some? {
        var t :| 0 <= t < TripleCount(f) && Assignment(f, t).Some? && Assignment(f, t).value.0 == c;
        assert c in AssignedCodes(f);
      }
    }
  }

  /** `m` holds what the first `t` triples assign, and nothing else. */
  ghost predicate LoadedUpTo(f: MapFile, t: nat, m: CodeMap)
    requires t <= TripleCount(f)
  {
    && (forall c :: c in m <==> LastSet(f, t, c).Some?)
    && (forall c :: c in m ==> m[c] == LastSet(f, t, c).value)
  }

  /** makefont.cpp `ReadMap`. `None` stands for a map file that cannot be opened,
      which leaves the caller's (empty) map untouched. */
  method ReadMap(file: Option<MapFile>) returns (ok: bool, cc2gn: CodeMap)
    ensures ok == file.Some?
    ensures !ok ==> cc2gn == map[]
    ensures ok ==> IsLoaded(file.value, cc2gn)
  {
    cc2gn := map[];
    if file.None? {
      return false, cc2gn;
    }
    var f := file.value;
    var pos := 0;
    ghost var t := 0;
    var eof := false;
    while !eof
      invariant (!eof ==> pos == 3 * t) && t <= TripleCount(f)
      invariant LoadedUpTo(f, t, cc2gn)
      invariant eof ==> t == TripleCount(f)
      decreases TripleCount(f) - t, !eof
    {
      pos, eof, cc2gn := ReadTriple(f, pos, t, cc2gn);
      if !eof {
        t := t + 1;
      }
    }
    cc2gn := FillNotdef(f, cc2gn);
    return true, cc2gn;
  }

  /** One pass of the reading loop: the three words from `pos`, and whether
      reading them reached the end of the file. */
  method ReadTriple(f: MapFile, pos0: nat, ghost t: nat, m: CodeMap) returns (pos: nat, eof: bool, cc2gn: CodeMap)
    requires pos0 == 3 * t && t <= TripleCount(f) && LoadedUpTo(f, t, m)
    ensures pos == pos0 + 3
    ensures eof ==> t == TripleCount(f) && cc2gn == m
    ensures !eof ==> t < TripleCount(f) && LoadedUpTo(f, t + 1, cc2gn)
  {
    var n := |f.words|;
    cc2gn := m;
    var charcode := if pos0 < n then f.words[pos0] else "";
    var glyphname := if pos0 + 2 < n then f.words[pos0 + 2] else "";
    pos := pos0 + 3;
    eof := pos > n || (pos == n && !f.endsWithSpace);
    EofAt(f, t);
    if !eof {
      if |charcode| > 0 && charcode[0] == '!' {
        var cc := HexToDec(charcode[1..]);
        cc2gn := cc2gn[cc := glyphname];
      }
      LoadStep(f, t, m);
    }
  }

  /** Reading triple `t` reaches the end of the file exactly when `t` is past
      the last triple acted on. */
  lemma EofAt(f: MapFile, t: nat)
    ensures (3 * t + 3 > |f.words| || (3 * t + 3 == |f.words| && !f.endsWithSpace)) <==> t >= TripleCount(f)
  {
  }

  lemma LoadStep(f: MapFile, t: nat, m: CodeMap)
    requires t < TripleCount(f) && LoadedUpTo(f, t, m)
    ensures LoadedUpTo(f, t + 1, match Assignment(f, t) case Some(a) => m[a.0 := a.1] case None => m)
  {
  }

  /** The final loop of `ReadMap`: every code 0-255 still missing gets `.notdef`. */
  method FillNotdef(f: MapFile, m: CodeMap) returns (cc2gn: CodeMap)
    requires LoadedUpTo(f, TripleCount(f), m)
    ensures IsLoaded(f, cc2gn)
  {
    cc2gn := m;
    for i := 0 to 256
      invariant forall c :: c in cc2gn <==> (0 <= c < i || LastSet(f, TripleCount(f), c).Some?)
      invariant forall c :: c in cc2gn ==> cc2gn[c] == LastSet(f, TripleCount(f), c).GetOr(".notdef")
    {
      if i !in cc2gn {
        cc2gn := cc2gn[i := ".notdef"];
      }
    }
  }

  /** The patch overlay of `MakeFontAFM`: every patch entry overwrites the base entry. */
  method Overlay(base: CodeMap, patch: CodeMap) returns (m: CodeMap)
    ensures m == base + patch
    ensures m.Keys == base.Keys + patch.Keys
    ensures forall k :: k in patch ==> m[k] == patch[k]
    ensures forall k :: k in base && k !in patch ==> m[k] == base[k]
  {
    m := base;
    var rest := patch.Keys;
    while rest != {}
      invariant rest <= patch.Keys
      invariant m.Keys == base.Keys + (patch.Keys - rest)
      invariant forall k :: k in m ==> m[k] == if k in patch && k !in rest then patch[k] else base[k]
      decreases rest
    {
      assert (forall k :: k !in rest) ==> rest == {};
      var key :| key in rest;
      m := m[key := patch[key]];
      rest := rest - {key};
    }
    assert m.Keys == (base + patch).Keys;
    assert forall k :: k in m ==> m[k] == (base + patch)[k];
  }

  /** Overlaying a patch twice gives the same map as overlaying it once. */
  lemma OverlayIdempotent(base: CodeMap, patch: CodeMap)
    ensures (base + patch) + patch == base + patch
  {
  }

  /** A patch loaded by `ReadMap` holds every code 0-255, so overlaying it
      replaces the whole base encoding: a code the patch file does not name
      becomes `.notdef`, whatever the base held. */
  lemma LoadedPatchReplacesAll(base: CodeMap, pf: MapFile, patch: CodeMap, c: int)
    requires IsLoaded(pf, patch) && 0 <= c < 256
    ensures c in base + patch
    ensures (base + patch)[c] == LastSet(pf, TripleCount(pf), c).GetOr(".notdef")
  {
    assert c in Codes;
  }

  /** The deprecated-to-canonical glyph-name table `fix` of `MakeFontAFM`. */
  const FixGlyphs: map<string, string> := map[
    "Edot" := "Edotaccent", "edot" := "edotaccent", "Idot" := "Idotaccent",
    "Zdot" := "Zdotaccent", "zdot" := "zdotaccent",
    "Odblacute" := "Ohungarumlaut", "odblacute" := "ohungarumlaut",
    "Udblacute" := "Uhungarumlaut", "udblacute" := "uhungarumlaut",
    "Gcedilla" := "Gcommaaccent", "gcedilla" := "gcommaaccent",
    "Kcedilla" := "Kcommaaccent", "kcedilla" := "kcommaaccent",
    "Lcedilla" := "Lcommaaccent", "lcedilla" := "lcommaaccent",
    "Ncedilla" := "Ncommaaccent", "ncedilla" := "ncommaaccent",
    "Rcedilla" := "Rcommaaccent", "rcedilla" := "rcommaaccent",
    "Scedilla" := "Scommaaccent", "scedilla" := "scommaaccent",
    "Tcedilla" := "Tcommaaccent", "tcedilla" := "tcommaaccent",
    "Dslash" := "Dcroat", "dslash" := "dcroat",
    "Dmacron" := "Dcroat", "dmacron" := "dcroat",
    "combininggraveaccent" := "gravecomb", "combininghookabove" := "hookabovecomb",
    "combiningtildeaccent" := "tildecomb", "combiningacuteaccent" := "acutecomb",
    "combiningdotbelow" := "dotbelowcomb", "dongsign" := "dong"]

  /** The map after `cc2gn[i]` has been read for every code 0-255. */
  function WithCodes(m: CodeMap): (r: CodeMap)
    ensures r.Keys == m.Keys + Codes
  {
    map k | k in m.Keys + Codes :: Get(m, k)
  }

  /** The fixup pass as a value: codes 0-255 named `canonical` are renamed to
      `deprecated`, and every code 0-255 is present. */
  function Renamed(m: CodeMap, canonical: string, deprecated: string): (r: CodeMap)
    ensures r.Keys == m.Keys + Codes
  {
    map k | k in m.Keys + Codes :: if 0 <= k < 256 && Get(m, k) == canonical then deprecated else Get(m, k)
  }

  /** The fixup pass of `MakeFontAFM`: every code 0-255 whose name is the
      canonical `canonical` is renamed to the font's `deprecated` name, so that
      the font's glyph lands on it. Reading `cc2gn[i]` inserts every code 0-255,
      even into an empty map. */
  method FixupEncoding(cc2gn: CodeMap, canonical: string, deprecated: string) returns (m: CodeMap)
    ensures m == Renamed(cc2gn, canonical, deprecated)
    ensures m.Keys == cc2gn.Keys + Codes
    ensures forall i :: 0 <= i < 256 ==>
              m[i] == (if Get(cc2gn, i) == canonical then deprecated else Get(cc2gn, i))
    ensures forall k :: k in cc2gn && k !in Codes ==> m[k] == cc2gn[k]
  {
    m := cc2gn;
    for i := 0 to 256
      invariant forall k :: k in m <==> k in cc2gn || 0 <= k < i
      invariant forall j :: 0 <= j < i ==>
                  m[j] == (if Get(cc2gn, j) == canonical then deprecated else Get(cc2gn, j))
      invariant forall k :: k in cc2gn && !(0 <= k < i) ==> m[k] == cc2gn[k]
    {
      m := Touch(m, i);
      if m[i] == canonical {
        m := m[i := deprecated];
      }
    }
  }
}
