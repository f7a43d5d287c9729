# MakeFont core, modelled in Dafny

MakeFont is the wxPdfDocument utility that compiles font metrics into font
definitions. This project models its core logic in `makefont/makefont.cpp`:

- the KMP substring search `makeFail`/`findString`;
- the encoding map loader `ReadMap` and the patch overlay;
- the big-endian readers and the sfnt licence check `CheckTTF`;
- the AFM reader of `MakeFontAFM`: `C` records, header keywords, the
  deprecated-glyph-name repair, finalisation of the widths, the `Differences`
  string and the split of a Type 1 PFB file into its two kept segments;
- the UFM reader of `MakeFontUFM`: `U` records, Private Use Area codes for
  unnamed VOLT glyphs, the 131072-byte CIDToGIDMap buffer and the glyph
  list kept sorted by glyph id;
- `WriteToUnicode`, which writes that list as a ToUnicode CMap
  (ISO 32000-1 section 9.10.3) in `beginbfrange` blocks of at most 100
  entries.

Each operation is a method. It is proved equal to a specification function
over values, and the properties the source promises are proved as lemmas
about those functions. The files:

- `kmp.dfy`: the search;
- `encoding.dfy`: map files and `CTGMap`;
- `bytes.dfy`: big-endian integers;
- `sfnt.dfy`: `CheckTTF`;
- `text.dfy`: `ToLong`, `%d`, `%04x`, `Lower`;
- `metrics.dfy`: the descriptor state and the record sub-fields both readers
  share;
- `afm.dfy`, `pfb.dfy`: `MakeFontAFM`;
- `glyphlist.dfy`, `ufm.dfy`, `tounicode.dfy`: `MakeFontUFM`;
- `wrappers.dfy`: `Option` and `Result`.

Files are inputs. A file that cannot be opened is `None`, a text file is its
lines as token lists, and a binary file is a sequence of bytes. Hash maps
whose `operator[]` inserts a default value are Dafny maps: `Get`/`Lookup`
give the value read and `Touch` gives the insertion.

## Model

| member | source | states |
|---|---|---|
| Kmp.MakeFail | makefont/makefont.cpp:112-134 | every entry `f[q]`, for q in 1..m, is the longest proper border of the first q pattern symbols |
| Kmp.FallBack | makefont/makefont.cpp:120-123 | the inner `while` stops at a border of `target[..s]` that `target[s]` extends (or 0), and no longer border extends |
| Kmp.NextBorderHit | makefont/makefont.cpp:124-128 | when `target[t] == target[s]`, `t + 1` is the longest border of `target[..s+1]` |
| Kmp.NextBorderMiss | makefont/makefont.cpp:129-132 | when no border extends, 0 is the longest border of `target[..s+1]` |
| Kmp.FindString | makefont/makefont.cpp:137-156 | given a failure table as `MakeFail` builds it, the result is the first match index of the pattern, or -1 |
| Kmp.IndexOfSpec | makefont/makefont.cpp:137-156 | the reference search returns -1 exactly when there is no match anywhere; otherwise the index it returns matches and no earlier index does |
| Kmp.IndexFromSpec | makefont/makefont.cpp:146-155 | the same from a start index on |
| Kmp.FirstMatch | makefont/makefont.cpp:153 | the scan's first full match ending at `e` is found at `e - m` |
| Kmp.NoMatch | makefont/makefont.cpp:155 | a scan with no full match returns -1 |
| Kmp.ScanStep | makefont/makefont.cpp:148-151 | falling back through the table keeps the state a suffix of the text read, and skips no longer candidate |
| Encoding.ReadMap | makefont/makefont.cpp:159-198 | fails exactly when the file cannot be opened, and leaves the map empty then; otherwise the map holds the last name each `!`-code line gives, and `.notdef` for every other code 0-255 |
| Encoding.ReadTriple | makefont/makefont.cpp:176-186 | one read of three words: at the end of the file nothing changes; otherwise the triple's assignment, if any, is added |
| Encoding.EofAt | makefont/makefont.cpp:174-179 | the loop reaches end of file exactly after the last triple followed by whitespace |
| Encoding.FillNotdef | makefont/makefont.cpp:188-196 | after the `.notdef` loop every code 0-255 is present, and assigned codes keep their names |
| Encoding.LoadedIsLoadMap | makefont/makefont.cpp:159-198 | the loaded map is fully determined by the file |
| Encoding.LastSetSome | makefont/makefont.cpp:180-185 | a code has an assignment exactly when some `!`-line among the first n names it |
| Encoding.HexToDecRoundTrip | makefont/makefont.cpp:183 | `wxHexToDec` reads back a two-digit upper-case hex code |
| Encoding.HexToDecLowerCase | makefont/makefont.cpp:183 | two lower-case hex letters read as their value, because each digit keeps only its low four bits |
| Encoding.Overlay | makefont/makefont.cpp:541-545 | every patch key takes the patch's name; every other base key keeps its name; the keys are the union |
| Encoding.OverlayIdempotent | makefont/makefont.cpp:541-545 | applying the same patch twice equals applying it once |
| Encoding.LoadedPatchReplacesAll | makefont/makefont.cpp:536-551 | after a loaded patch, each code 0-255 has the patch file's name for it, or `.notdef`, whatever the base said |
| Encoding.Touch | makefont/makefont.cpp:835 | reading `cc2gn[k]` inserts k with "" when it is missing and changes no existing entry |
| Encoding.FixupEncoding | makefont/makefont.cpp:688-698 | each code 0-255 whose name is the canonical one gets the deprecated name; every code 0-255 becomes present; no other entry changes |
| Bytes.ReadShort | makefont/makefont.cpp:200-207 | defined exactly when two bytes remain; a signed 16-bit value whose two's complement is the big-endian pair |
| Bytes.ReadInt | makefont/makefont.cpp:209-216 | defined exactly when four bytes remain; a signed 32-bit value |
| Bytes.ReadShortRoundTrip | makefont/makefont.cpp:200-207 | a written 16-bit value reads back as itself anywhere in a file |
| Bytes.ReadIntRoundTrip | makefont/makefont.cpp:209-216 | a written 32-bit value reads back as itself anywhere in a file |
| Bytes.ReadIntAt | makefont/makefont.cpp:209-216 | the same for four bytes found at a position of a file |
| Bytes.ReadShortAt | makefont/makefont.cpp:200-207 | the same for two bytes found at a position of a file |
| Sfnt.CheckTtf | makefont/makefont.cpp:219-288 | the licence check equals its specification `Inspect` |
| Sfnt.CheckData | makefont/makefont.cpp:236-287 | the check of an opened file equals `InspectData` |
| Sfnt.ScanDirectory | makefont/makefont.cpp:246-271 | the directory loop completes exactly when all records fit in the file, and then yields the last `OS/2` offset and the last `CFF ` offset and length |
| Sfnt.DirectoryStep | makefont/makefont.cpp:249-270 | one record: an `OS/2` tag sets the offset, a `CFF ` tag sets offset and length, any other tag changes neither |
| Sfnt.LastRecordSpec | makefont/makefont.cpp:246-271 | the record used is the last one with the tag, and no record has it when none is found |
| Sfnt.InspectFailsClosed | makefont/makefont.cpp:222-276 | no name, no file or a bad signature gives no embedding, no subsetting, CFF offset -1 and length 0; any permission needs an `OS/2` record, and any CFF value a `CFF ` record, among the `numTables` directory records the loop reads |
| Sfnt.EmbeddingMatchesUsage | makefont/makefont.cpp:280-287 | embedding is allowed exactly when the usage bits do not say restricted licence only (OpenType `fsType`) and bit 0x0200 is clear |
| Sfnt.FsTypeExamples | makefont/makefont.cpp:280-287 | 0x0200 forbids embedding but not subsetting; 0x0002 forbids embedding; 0x0006 allows it; 0x0100 forbids subsetting |
| Sfnt.InspectTwoTableFont | makefont/makefont.cpp:219-288 | a well-formed file with `CFF ` and `OS/2` records reads back exactly the `fsType` permissions and the CFF offset and length written into it |
| Sfnt.TwoTableFontLayout | makefont/makefont.cpp:236-282 | the signature, table count, tags, offsets and `fsType` of such a file sit where the check reads them |
| Text.ToLongOfIntToString | makefont/makefont.cpp:869 | a number written with `%d` reads back through `ToLong` |
| Text.Hex4RoundTrip | makefont/makefont.cpp:1047-1048 | `%04x` output reads back as the value modulo 2^32 |
| Text.Lower | makefont/makefont.cpp:761 | same length; exactly the ASCII capitals are lowered |
| Metrics.StartHeader | makefont/makefont.cpp:507-523 | ascent 1000, descent -200, angle 0, stem 70, missing width 600, underline -100/50 for AFM only; no first-wins flag set; flags 0 |
| Metrics.HeaderLine | makefont/makefont.cpp:755-828 | a line with an unknown keyword changes nothing; no header line touches the x-height, the box-derived cap height or the missing width; flags grow by 0, 1 (fixed pitch) or 64 (italic) |
| Metrics.StdVWWinsOverWeight | makefont/makefont.cpp:759-766 | an explicit `StdVW` wins over a bold or black `Weight` in either order; without it bold or black gives 120 |
| Metrics.ParseCharMetrics | makefont/makefont.cpp:631-674 | the sub-field loop equals `ScanFields` from token 3 |
| Metrics.ParseField | makefont/makefont.cpp:642-673 | one pass of the loop equals `ReadField` |
| Metrics.SkipField | makefont/makefont.cpp:672 | skipping an unknown field stops just after the next `;` or at the end of the line |
| Metrics.ReadField | makefont/makefont.cpp:642-673 | each pass consumes at least one token and stays within the line |
| Metrics.ScanField | makefont/makefont.cpp:642-673 | a well-formed `WX`, `N`, `G`, `B` or unknown field is read back as written |
| Metrics.ScanFieldsSuffix | makefont/makefont.cpp:640-674 | a run of well-formed fields is read back as written |
| Metrics.ParseRecordRoundTrip | makefont/makefont.cpp:631-674 | a record written from fields parses to those fields applied to the fresh record state, with the glyph name carried over when no `N` is given |
| Metrics.SkipPastArgs | makefont/makefont.cpp:672 | skipping stops right after the `;` closing the arguments |
| Metrics.NoteBox | makefont/makefont.cpp:707-716 | the box of glyph `X` or `x` leaves the flags, the font name and the record of a `CapHeight` line unchanged |
| Metrics.NoteMissingWidth | makefont/makefont.cpp:749-753 | the missing width is known afterwards exactly when it was known before or the glyph is `.notdef` |
| Metrics.CapHeightLineWins | makefont/makefont.cpp:707-711 | a `CapHeight` line wins over the box of glyph `X`, before or after it |
| Metrics.FirstWins | makefont/makefont.cpp:707-753 | once known, the cap height, x-height and missing width are not changed by later records |
| Metrics.Finish | makefont/makefont.cpp:878-895 | flag 4 (symbolic) or 32 is added; a missing cap height becomes the ascent, a missing box `[0 d-100 1000 a+100]`; nothing else changes |
| Metrics.FinishFlags | makefont/makefont.cpp:773-886 | for a header with at most one `IsFixedPitch true` line and at most one positive `ItalicAngle` line, the stored flags have bit 1 exactly for fixed pitch, bit 3 exactly when symbolic, bit 6 exactly when not, bit 7 exactly for a positive angle, and never bits 2 or 4 (ISO 32000-1 section 9.8.2) |
| Metrics.RepeatedFixedPitch | makefont/makefont.cpp:799-805 | because flags are added, two `IsFixedPitch true` lines give flags 34: Serif (bit 2) set and FixedPitch (bit 1) clear |
| Afm.InitMetrics | makefont/makefont.cpp:604-611 | with an encoding every code 0-255 starts at width 0xFFFF and glyph 0; without one both maps are empty |
| Afm.AssignWidths | makefont/makefont.cpp:720-733 | every code whose name is the glyph's gets its width, and its glyph number when glyph numbers were seen; every code 0-255 becomes present in the encoding |
| Afm.CharRecord | makefont/makefont.cpp:631-754 | one `C` record equals `CharStep` |
| Afm.ApplyCharRecord | makefont/makefont.cpp:676-753 | the record's effect after its sub-fields equals `ApplyRecord` |
| Afm.RepairEncoding | makefont/makefont.cpp:688-698 | the deprecated-name repair equals `RecordEncoding` |
| Afm.StoreCharRecord | makefont/makefont.cpp:699-748 | storing the record equals `StoreRecord` |
| Afm.ParseAfm | makefont/makefont.cpp:621-829 | the line loop equals `AfmLines` |
| Afm.AfmLinesKeepCodes | makefont/makefont.cpp:621-829 | once codes 0-255 are all present in the encoding they stay present, and no code is removed |
| Afm.EncodedRecordSetsWidths | makefont/makefont.cpp:720-733 | with an encoding, a record sets the width of every code named like the glyph and of no other code |
| Afm.SymbolicFixupQuirk | makefont/makefont.cpp:688-706 | with no encoding, a record whose glyph name is in the fixup table fills codes 0-255 with empty names and stores no width, so later records are handled as encoded |
| Afm.EdotRecord | makefont/makefont.cpp:566-698 | the record `C 69 ; WX 600 ; N Edot ;` reads the glyph name `Edot`, one of the names the fixup table handles |
| Afm.Finalise | makefont/makefont.cpp:831-853 | the final loop equals `FinalWidths`, `FinalGlyphs` and `FinalNames` |
| Afm.FinaliseCode | makefont/makefont.cpp:833-852 | one code of the final loop keeps the loop's invariants |
| Afm.FinalWidthsResolve | makefont/makefont.cpp:831-853 | every code 0-255 has a final width; an unresolved code is left at 0xFFFF only when its fallback width is 0xFFFF too |
| Afm.BuildDiffs | makefont/makefont.cpp:855-875 | the string built equals `DiffsText` |
| Afm.DiffsStep | makefont/makefont.cpp:865-873 | a differing code contributes `"i "` when it does not follow the previous one, then `"/name "` |
| Afm.ItemsTextAppend | makefont/makefont.cpp:855-875 | the text of two item runs is the concatenation of their texts |
| Afm.ApplyDiffItems | makefont/makefont.cpp:855-875 | a reader applying the items names every differing code from i on as the font does, and leaves the rest alone |
| Afm.DifferencesRestoreEncoding | makefont/makefont.cpp:855-875 | applying the `Differences` to the reference encoding gives the font's name for every code 32-255 (ISO 32000-1 section 9.6.6.1) |
| Afm.DiffsSkip | makefont/makefont.cpp:863-866 | codes equal to the reference contribute nothing |
| Afm.DiffsExample | makefont/makefont.cpp:863-874 | codes 128 and 200 differing give the items 128, g128, 200, g200 |
| Afm.DiffsTextExample | makefont/makefont.cpp:863-874 | the same codes give the text `"128 /g128 200 /g200 "` |
| Afm.NoFontFileAsWritten | makefont/makefont.cpp:487-496 | as written, a run with no font file name still tries to embed and cannot open the file |
| Afm.ReadEncoding | makefont/makefont.cpp:527-552 | fails exactly when an encoding is named but its map cannot be read; otherwise gives the base map overlaid with the patch when the patch reads |
| Afm.CompileMetrics | makefont/makefont.cpp:600-900 | everything from the metrics file equals `AfmMetrics` |
| Afm.MakeFontAfm | makefont/makefont.cpp:463-1000 | the whole compiler equals `AfmSpec`, the run with the corrected rule that no embedding is attempted without a font file name (see Findings) |
| Afm.AfmErrors | makefont/makefont.cpp:527-931 | the run fails with each error exactly in its case: encoding unreadable, metrics unreadable, or the font file cannot be opened when embedding is attempted |
| Afm.NoFontFileNoEmbedding | makefont/makefont.cpp:985-992 | with no font file name the run succeeds without embedding |
| Afm.NoFontFileRunFails | makefont/makefont.cpp:487-931 | with no font file name and readable encoding and metrics, the run as written (`AfmSpecAsWritten`) fails with the font file unreadable, while the corrected run produces the font unembedded |
| Afm.EncodedFontFlags | makefont/makefont.cpp:878-886 | an encoded font is non-symbolic: flag 32 is added |
| Pfb.SplitPfb | makefont/makefont.cpp:932-980 | the split equals `Split` |
| Pfb.SplitFound | makefont/makefont.cpp:938-975 | a split's clear segment is a slice of the file ending just after the first `eexec` plus one byte; its binary segment has no `00000000` and is followed by one |
| Pfb.SplitPfbFile | makefont/makefont.cpp:933-975 | a PFB file written with headers from a clear segment ending in `eexec` and a binary segment followed by zeros splits back into exactly those two segments |
| Pfb.SplitSegments | makefont/makefont.cpp:938-964 | the same for any two 6-byte headers starting with 128 |
| Pfb.SplitClearSegment | makefont/makefont.cpp:950-961 | the second header is skipped when both markers are 128 |
| Pfb.SplitBinarySegment | makefont/makefont.cpp:962-973 | the binary segment ends at the first `00000000` |
| Pfb.IndexOfPrefix | makefont/makefont.cpp:946 | a match found within a prefix is the match of the whole |
| Pfb.EexecAtEndReadsPastEnd | makefont/makefont.cpp:950-953 | as written, a file ending in `eexec` makes the source read the byte after the end; the guarded split rejects it |
| Pfb.MarkerReadGuarded | makefont/makefont.cpp:950-956 | whenever the source's read of the second marker stays inside the file, the corrected guard lets the split go on to that marker |
| GlyphList.IndexForInsert | makefont/makefont.cpp:47-62 | the sorted array's binary search equals `SearchInsert` under `CompareGlyphListEntries` |
| GlyphList.Add | makefont/makefont.cpp:1216-1222 | adding equals `Insert` at the position the search gives |
| GlyphList.SearchInsertSplits | makefont/makefont.cpp:56-60 | in a sorted list the search stops after every smaller id and before every larger one |
| GlyphList.InsertSorted | makefont/makefont.cpp:1216-1222 | adding to a sorted list keeps it sorted and adds exactly the one entry (as a multiset) |
| GlyphList.AddAllSorted | makefont/makefont.cpp:1216-1222 | a list filled by `Add` is a sorted permutation of the entries added |
| ToUnicode.WriteToUnicode | makefont/makefont.cpp:1013-1058 | the CMap written equals `ToUnicodeText` |
| ToUnicode.WriteRanges | makefont/makefont.cpp:1029-1054 | the range loop writes the block bodies, then the final `endbfrange` |
| ToUnicode.OpenRange | makefont/makefont.cpp:1034-1044 | a block holds min(100, remaining) entries, and its header is preceded by `endbfrange` except for the first |
| ToUnicode.WriteEntry | makefont/makefont.cpp:1045-1052 | each entry writes `<gid><gid><uid>` and keeps the countdown invariant |
| ToUnicode.BodyIsBlocks | makefont/makefont.cpp:1029-1054 | the body is the list cut into blocks, each written as header and lines |
| ToUnicode.BlocksFlatten | makefont/makefont.cpp:1032-1053 | the blocks together are the whole list, in order |
| ToUnicode.BlocksSizes | makefont/makefont.cpp:1040 | every block holds 1 to 100 entries, all but the last exactly 100, and there are ceil(n/100) of them |
| ToUnicode.EntryLineReadsBack | makefont/makefont.cpp:1047-1052 | for 16-bit ids a line is 19 characters and its hex fields read back as the glyph id and the code |
| ToUnicode.LinesAreEntries | makefont/makefont.cpp:1045-1052 | the lines of entries i..j are the entry lines of that slice |
| Ufm.UfmStart | makefont/makefont.cpp:1067-1110 | the first Private Use Area code is 0xE000; the maps and the list start empty |
| Ufm.CtgDecode | makefont/makefont.cpp:1121-1126 | a reader of the CIDToGIDMap finds, for each code 0-0xFFFE, the glyph number the font maps it to, modulo 2^16, and 0 for an unmapped code or code 0xFFFF (ISO 32000-1 section 9.7.4.2) |
| Ufm.SplitBytes | makefont/makefont.cpp:1213-1214 | the two stored bytes make the glyph number modulo 2^16 |
| Ufm.CtgStore | makefont/makefont.cpp:1211-1215 | storing a code below 0xFFFF writes its two bytes and leaves the rest of the buffer unchanged |
| Ufm.CtgSkip | makefont/makefont.cpp:1211 | a code outside 0..0xFFFE leaves the buffer unchanged |
| Ufm.CtgLastCodeUnused | makefont/makefont.cpp:1211 | the two bytes of code 0xFFFF stay 0 |
| Ufm.NewCtg | makefont/makefont.cpp:1121-1126 | a fresh 131072-byte buffer of zeros, the image of the empty glyph map |
| Ufm.SetGid | makefont/makefont.cpp:1213-1214 | writes `(g >> 8) & 0xFF` and `g & 0xFF` at `2cc` and `2cc+1` only |
| Ufm.StoreRecord | makefont/makefont.cpp:1191-1223 | storing a kept record equals `StoreUfmRecord`, and the buffer still encodes the glyph map |
| Ufm.UfmRecord | makefont/makefont.cpp:1148-1229 | one `U` record equals `ApplyUfmRecord` on its sub-fields, with the buffer in step |
| Ufm.UfmLine | makefont/makefont.cpp:1138-1303 | one line equals `UfmLineStep`, with the buffer in step |
| Ufm.ParseUfm | makefont/makefont.cpp:1138-1304 | the line loop equals `UfmLines`, and the buffer is the image of the final glyph map |
| Ufm.RecordKeepsPua | makefont/makefont.cpp:1191-1209 | a record keeps every Private Use Area code handed out mapped, and moves the next code on by one exactly when it keeps a record without a code |
| Ufm.UfmLinesKeepPua | makefont/makefont.cpp:1138-1304 | over the file, the handed-out Private Use Area codes stay mapped and the next code never goes down |
| Ufm.UnnamedVoltGlyph | makefont/makefont.cpp:1191-1209 | with VOLT, a record without a code but with a positive glyph gets the next Private Use Area code with its width and glyph |
| Ufm.DroppedRecord | makefont/makefont.cpp:1191-1228 | a record that is not kept changes no map, counter or list; only its name and a `.notdef` width are remembered |
| Ufm.KeptRecordStored | makefont/makefont.cpp:1204-1209 | a record with a code stores its width and glyph under that code, and changes no other code's width or glyph |
| Ufm.RecordKeepsList | makefont/makefont.cpp:1216-1222 | a record keeps the glyph list sorted and naming mapped codes; without CFF the list is unchanged; a kept CFF record adds exactly its (glyph, code) entry |
| Ufm.UfmLinesKeepList | makefont/makefont.cpp:1138-1304 | over the file, the list stays sorted and names only mapped codes, and stays unchanged without CFF |
| Ufm.CffStream | makefont/makefont.cpp:1336-1343 | when the CFF table lies inside the file the stream is exactly that slice |
| Ufm.EmbeddingNeedsFile | makefont/makefont.cpp:1073-1081 | embedding is allowed only for a named font file that opens |
| Ufm.CheckFont | makefont/makefont.cpp:1073-1085 | the licence check runs only for a named file; CFF is a `CFF ` table past offset 0, or the `OpenType` type when no file is named |
| Ufm.WriteFont | makefont/makefont.cpp:1305-1391 | the end of the run equals `UfmFontOf` |
| Ufm.MakeFontUfm | makefont/makefont.cpp:1061-1407 | the whole compiler equals `UfmSpec` |
| Ufm.UfmErrors | makefont/makefont.cpp:1112-1117 | the run fails exactly when the metrics file cannot be read |
| Ufm.EmbeddedIffAllowed | makefont/makefont.cpp:1324-1388 | the font is embedded exactly when the licence allows it, never without a file name; without CFF the stream is the whole file and the CIDToGIDMap file is the buffer image of the glyph map |
| Ufm.UfmFlags | makefont/makefont.cpp:1305-1306 | a Unicode font is always non-symbolic: flag 32 is added |
| Ufm.ParsedUfmInvariants | makefont/makefont.cpp:1138-1304 | after the file, the list for the ToUnicode CMap is sorted by glyph and names mapped codes, and every Private Use Area code handed out is mapped |

## Left out

- Command-line parsing and dispatch (`OnInit`, `OnRun`, `OnExit`) are glue and are not modelled.
- File streams are inputs: the contents of each file, or `None` when it cannot be opened.
- zlib compression, output file names and the XML written by `CreateFontMetricsFile` are not modelled. The model returns the values that would be written: maps, descriptor, `Differences`, embedded byte ranges and the CIDToGIDMap file.
- `MakeFontImmediate` is not modelled. It delegates to `wxPdfFontParserTrueType`, which is not part of this model.
- Logging and memory management are not modelled.
- `ItalicAngle` is read with `ToDouble` and `int()` in the source. The model reads it with `ToLong`, which gives the same truncated integer for plain decimal text but no floating-point semantics.
- `Text.ToLong` models `wxString::ToLong` as a prefix parse: optional sign, decimal digits, 0 when there are none. Overflow and the failure flag are not modelled.
- Widths are stored in wxPdfDocument's glyph width map, which is not part of this model. If that map holds 16-bit values, a record without `WX` (width -1) is stored as the 0xFFFF sentinel and the final loop (831-853) gives it the missing width. The model keeps -1.
- Widths, glyph numbers and codes are unbounded integers: the `long` to `int` truncation of `m_gid`/`m_uid` and of the map values is not modelled. The overflow of `CompareGlyphListEntries`' subtraction is not modelled either.
- A line is its space-separated tokens, so `wxStringTokenizer` is not modelled. A token asked for past the end of a line reads as "".
- Reads past the end of a binary file fail closed. `CheckTTF` returns its initial values and the PFB split gives no segments, where the source would use whatever `Read` left in its buffers.
- `Ufm.CffStream`: clamps the CFF slice to the file. The source writes `cffLength` bytes of a buffer that `Read` may leave partly unfilled, and a negative `cffLength` is not given a meaning.
- Ufm.MakeFontUfm: assumes that a font file which could be opened for the licence check can be opened again for embedding. The second open's failure branch (1327-1332) is not modelled.
- `subsettingAllowed` is computed (`Sfnt.Inspect`) but, as in the source, nothing uses it.
- FinishFlags: the bit meanings are proved only for a header with at most one `IsFixedPitch true` line and at most one positive `ItalicAngle` line. Flags are added with `+=`, so repeated lines carry into other bits; `Metrics.RepeatedFixedPitch` shows this.
- Encoding.HexToDec follows wxWidgets 3.0, which keeps the low four bits of each digit, so `4a` reads as 74. wxWidgets 3.1 and later return -1 for a non-hex digit instead; that behaviour is not modelled.
- Text.Lower maps only ASCII capitals. wxString's `Lower` is Unicode-aware (U+212A KELVIN SIGN lowers to `k`), which can change the `bold`/`black` test on `Weight` (761).
- The map file name is not modelled. The source derives it from the encoding name (`enc.Lower() + ".map"`); the model takes the map file contents directly.
- The `type`/patch mix-up of `OnRun` (1636) belongs to the command line and is not modelled.

## Findings

| source | as written | input that shows it | evidently intended | confidence | as-written member | corrected member |
|---|---|---|---|---|---|---|
| makefont/makefont.cpp:950-953 | after finding `eexec`, `buf1[size1]` is read with no check that `size1 < len` | a Type 1 file whose last bytes are `eexec` | read the second segment marker only when a byte follows the clear segment, and otherwise find no binary segment | not executed | Pfb.EexecAtEndReadsPastEnd | Pfb.MarkerReadGuarded |
| makefont/makefont.cpp:487-496, 903-931 | `embeddingAllowed` starts true and is only re-checked for a named TrueType file, so with no font file name the run tries to open "" and fails | `MakeFontAFM` with an empty font file name and a readable AFM file | produce the font without embedding, as the "Font file name missing" message at 985-992 says | not executed | Afm.NoFontFileRunFails | Afm.NoFontFileNoEmbedding |
