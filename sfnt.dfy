/** The licence check `CheckTTF` of makefont.cpp on an sfnt (TrueType or
    OpenType) font file: the table directory of a 12-byte header followed by
    16-byte records (tag, checksum, offset, length), the `OS/2` table's
    `fsType` field and the `CFF ` table's position, as the OpenType
    specification lays them out. The file is its sequence of bytes; a read
    past its end makes the check fail closed. */
module Sfnt {
  import opened Wrappers
  import opened Bytes

  /** The four results `CheckTTF` returns through its reference parameters. */
  datatype TtfCheck = TtfCheck(embeddingAllowed: bool, subsettingAllowed: bool, cffOffset: int, cffLength: int)

  /** What `CheckTTF` reports when it gives up early. */
  const Closed: TtfCheck := TtfCheck(false, false, -1, 0)

  /** The table tags `OS/2` and `CFF `. */
  const TagOS2: seq<byte> := [0x4F, 0x53, 0x2F, 0x32]
  const TagCFF: seq<byte> := [0x43, 0x46, 0x46, 0x20]

  /** The sfnt versions accepted: TrueType outlines, and `OTTO` for CFF outlines. */
  const VersionTrueType := 0x0001_0000
  const VersionOTTO := 0x4F54_544F

  /** The byte position of directory record `i`. */
  function RecordPos(i: int): int
  {
    12 + 16 * i
  }

  predicate TagAt(data: seq<byte>, p: int, tag: seq<byte>)
  {
    0 <= p && p + 4 <= |data| && data[p..p + 4] == tag
  }

  /** The last of the first `n` directory records that carries `tag`. */
  function LastRecord(data: seq<byte>, n: nat, tag: seq<byte>): (r: Option<nat>)
    ensures r.Some? ==> r.value < n
  {
    if n == 0 then None
    else if TagAt(data, RecordPos(n - 1), tag) then Some(n - 1)
    else LastRecord(data, n - 1, tag)
  }

  /** `LastRecord` finds a record with the tag exactly when there is one, and
      no later record carries the tag. */
  lemma {:induction false} LastRecordSpec(data: seq<byte>, n: nat, tag: seq<byte>)
    ensures var r := LastRecord(data, n, tag);
      && (r.Some? ==> r.value < n && TagAt(data, RecordPos(r.value), tag))
      && (r.Some? ==> forall j :: r.value < j < n ==> !TagAt(data, RecordPos(j), tag))
      && (r.None? ==> forall j :: 0 <= j < n ==> !TagAt(data, RecordPos(j), tag))
  {
    if n > 0 {
      LastRecordSpec(data, n - 1, tag);
    }
  }

  /** `(u & mask) != 0` for a single-bit `mask`. */
  predicate HasBit(u: int, mask: int)
    requires mask > 0
  {
    (u / mask) % 2 == 1
  }

  /** The embedding rule applied to `fsType`: not a restricted licence
      (0x02) without preview-and-print (0x04) or editable (0x08) permission,
      and not bitmap-only embedding (0x0200). */
  predicate EmbeddingAllowed(fsType: int)
  {
    var rl, pp, e, eb := HasBit(fsType, 0x02), HasBit(fsType, 0x04), HasBit(fsType, 0x08), HasBit(fsType, 0x0200);
    !(rl && !pp && !e) && !eb
  }

  /** Subsetting is allowed unless the no-subsetting bit 0x0100 is set. */
  predicate SubsettingAllowed(fsType: int)
  {
    !HasBit(fsType, 0x0100)
  }

  /** The result of the check, read declaratively off the file. */
  ghost function Inspect(fileName: string, file: Option<seq<byte>>): TtfCheck
  {
    if fileName == [] || file.None? then Closed else InspectData(file.value)
  }

  /** The number of directory records the loop reads: `numTables` at
      offset 4, none when it is negative or missing. */
  function TableCount(data: seq<byte>): nat
  {
    match ReadShort(data, 4)
    case None => 0
    case Some(v) => if v < 0 then 0 else v
  }

  /** The check on the bytes of a file that could be opened: signature,
      table count, then the directory. */
  ghost function InspectData(data: seq<byte>): TtfCheck
  {
    var id, nb := ReadInt(data, 0), ReadShort(data, 4);
    if id.None? || (id.value != VersionTrueType && id.value != VersionOTTO) || nb.None? then Closed
    else
      var n := TableCount(data);
      if RecordPos(n) > |data| then Closed
      else InspectDirectory(data, n)
  }

  /** The `CFF ` position of the last `CFF ` record, -1 and 0 when there is none. */
  function CffOf(data: seq<byte>, n: nat): (int, int)
    requires RecordPos(n) <= |data|
  {
    var cff := LastRecord(data, n, TagCFF);
    if cff.Some? then (ReadInt(data, RecordPos(cff.value) + 8).value, ReadInt(data, RecordPos(cff.value) + 12).value)
    else (-1, 0)
  }

  /** The offset of the `OS/2` table named by the last `OS/2` record. */
  function Os2Of(data: seq<byte>, n: nat): Option<int>
    requires RecordPos(n) <= |data|
  {
    var os2 := LastRecord(data, n, TagOS2);
    if os2.Some? then Some(ReadInt(data, RecordPos(os2.value) + 8).value) else None
  }

  /** The check once the `n` directory records are known to be in the file. */
  ghost function InspectDirectory(data: seq<byte>, n: nat): TtfCheck
    requires RecordPos(n) <= |data|
  {
    var (cffOffset, cffLength) := CffOf(data, n);
    var os2 := Os2Of(data, n);
    if os2.None? || os2.value < 0 || os2.value + 10 > |data| then TtfCheck(false, false, cffOffset, cffLength)
    else
      var fsType := data[os2.value + 8] as int * 256 + data[os2.value + 9] as int;
      TtfCheck(EmbeddingAllowed(fsType), SubsettingAllowed(fsType), cffOffset, cffLength)
  }

  /** makefont.cpp `CheckTTF`. `file` is `None` when the file cannot be opened. */
  method CheckTtf(fileName: string, file: Option<seq<byte>>) returns (r: TtfCheck)
    ensures r == Inspect(fileName, file)
  {
    r := Closed;
    if |fileName| == 0 || file.None? {
      return;
    }
    r := CheckData(file.value);
  }

  /** `CheckTTF` once the file is open: signature, table count, directory, `fsType`. */
  method CheckData(data: seq<byte>) returns (r: TtfCheck)
    ensures r == InspectData(data)
  {
    r := Closed;
    var id := ReadInt(data, 0);
    if id.None? || (id.value != VersionTrueType && id.value != VersionOTTO) {
      return;
    }
    var nb := ReadShort(data, 4);
    if nb.None? {
      return;
    }
    var complete, found, offset, cffOffset, cffLength := ScanDirectory(data, nb.value);
    if !complete {
      return;
    }
    if !found {
      r := TtfCheck(false, false, cffOffset, cffLength);
      return;
    }
    if offset < 0 || offset + 10 > |data| {
      r := TtfCheck(false, false, cffOffset, cffLength);
      return;
    }
    var fsType := data[offset + 8] as int * 256 + data[offset + 9] as int;
    r := TtfCheck(EmbeddingAllowed(fsType), SubsettingAllowed(fsType), cffOffset, cffLength);
  }

  /** The directory loop of `CheckTTF`: the last `OS/2` record's table offset
      and the last `CFF ` record's offset and length, over `nb` records.
      `complete` is false when a record lies past the end of the file. */
  method ScanDirectory(data: seq<byte>, nb: int) returns (complete: bool, found: bool, offset: int, cffOffset: int, cffLength: int)
    ensures var n: nat := if nb < 0 then 0 else nb;
      complete == (RecordPos(n) <= |data|)
    ensures var n: nat := if nb < 0 then 0 else nb;
      complete ==> Os2Of(data, n) == (if found then Some(offset) else None) && CffOf(data, n) == (cffOffset, cffLength)
  {
    found, offset, cffOffset, cffLength := false, 0, -1, 0;
    if nb <= 0 {
      return RecordPos(0) <= |data|, found, offset, cffOffset, cffLength;
    }
    var i := 0;
    while i < nb
      invariant 0 <= i <= nb
      invariant i == 0 || RecordPos(i) <= |data|
      invariant i == 0 ==> !found && cffOffset == -1 && cffLength == 0
      invariant RecordPos(i) <= |data| ==> Os2Of(data, i) == (if found then Some(offset) else None)
      invariant RecordPos(i) <= |data| ==> CffOf(data, i) == (cffOffset, cffLength)
    {
      var p := RecordPos(i);
      if p + 16 > |data| {
        return false, found, offset, cffOffset, cffLength;
      }
      var tag := data[p..p + 4];
      assert RecordPos(i + 1) == p + 16;
      DirectoryStep(data, i, tag);
      if tag == TagOS2 {
        found := true;
        offset := ReadInt(data, p + 8).value;
      } else if tag == TagCFF {
        cffOffset := ReadInt(data, p + 8).value;
        cffLength := ReadInt(data, p + 12).value;
      }
      assert Os2Of(data, i + 1) == (if found then Some(offset) else None);
      assert CffOf(data, i + 1) == (cffOffset, cffLength);
      i := i + 1;
    }
    complete := true;
  }

  /** The check fails closed: no name, no file or a wrong signature gives
      `Closed`; embedding or subsetting is allowed only when the directory
      holds an `OS/2` record; the `CFF ` position is reported only when it
      holds a `CFF ` record. */
  lemma InspectFailsClosed(fileName: string, file: Option<seq<byte>>)
    ensures fileName == [] || file.None? ==> Inspect(fileName, file) == Closed
    ensures (file.Some? && ReadInt(file.value, 0) != Some(VersionTrueType) && ReadInt(file.value, 0) != Some(VersionOTTO))
              ==> Inspect(fileName, file) == Closed
    ensures Inspect(fileName, file).embeddingAllowed || Inspect(fileName, file).subsettingAllowed ==>
              file.Some? && exists i :: 0 <= i < TableCount(file.value) && TagAt(file.value, RecordPos(i), TagOS2)
    ensures Inspect(fileName, file).cffOffset != -1 || Inspect(fileName, file).cffLength != 0 ==>
              file.Some? && exists i :: 0 <= i < TableCount(file.value) && TagAt(file.value, RecordPos(i), TagCFF)
  {
    if fileName != [] && file.Some? {
      var data := file.value;
      var n := TableCount(data);
      if ReadShort(data, 4).Some? && RecordPos(n) <= |data| {
        LastRecordSpec(data, n, TagOS2);
        LastRecordSpec(data, n, TagCFF);
        var os2, cff := LastRecord(data, n, TagOS2), LastRecord(data, n, TagCFF);
        if os2.Some? {
          assert TagAt(data, RecordPos(os2.value), TagOS2);
        }
        if cff.Some? {
          assert TagAt(data, RecordPos(cff.value), TagCFF);
        }
      }
    }
  }

  /** Reading one more directory record updates the captured positions. */
  lemma DirectoryStep(data: seq<byte>, i: nat, tag: seq<byte>)
    requires RecordPos(i + 1) <= |data| && tag == data[RecordPos(i)..RecordPos(i) + 4]
    ensures tag == TagOS2 ==> Os2Of(data, i + 1) == Some(ReadInt(data, RecordPos(i) + 8).value)
    ensures tag != TagOS2 ==> Os2Of(data, i + 1) == Os2Of(data, i)
    ensures tag == TagCFF ==>
              CffOf(data, i + 1) == (ReadInt(data, RecordPos(i) + 8).value, ReadInt(data, RecordPos(i) + 12).value)
    ensures tag != TagCFF ==> CffOf(data, i + 1) == CffOf(data, i)
    ensures tag == TagOS2 ==> tag != TagCFF
  {
    if tag == TagOS2 {
      assert tag[0] != TagCFF[0];
    }
  }

  /** The usage permissions of bits 0-3 of `fsType`. */
  datatype Permission = Installable | Restricted | PreviewPrint | Editable

  /** The OpenType reading of `fsType`: when several permission bits are set,
      the least restrictive one applies. */
  function Usage(fsType: int): Permission
  {
    if HasBit(fsType, 0x08) then Editable
    else if HasBit(fsType, 0x04) then PreviewPrint
    else if HasBit(fsType, 0x02) then Restricted
    else Installable
  }

  /** The embedding rule is the OpenType one: embedding is allowed exactly
      when the usage permission is not restricted-licence and the font does
      not ask for bitmap-only embedding. */
  lemma EmbeddingMatchesUsage(fsType: int)
    ensures EmbeddingAllowed(fsType) <==> Usage(fsType) != Restricted && !HasBit(fsType, 0x0200)
  {
  }

  /** Bitmap-only embedding alone, or a restricted licence alone, forbids
      embedding; a restricted licence with preview-and-print allows it. */
  lemma FsTypeExamples()
    ensures !EmbeddingAllowed(0x0200) && SubsettingAllowed(0x0200)
    ensures !EmbeddingAllowed(0x0002)
    ensures EmbeddingAllowed(0x0006)
    ensures EmbeddingAllowed(0x0000) && !SubsettingAllowed(0x0100)
  {
  }

  /** The bytes of one directory record: tag, zero checksum, offset, length. */
  function DirectoryRecord(tag: seq<byte>, offset: int, length: int): (b: seq<byte>)
    requires |tag| == 4
    requires -0x8000_0000 <= offset < 0x8000_0000 && -0x8000_0000 <= length < 0x8000_0000
    ensures |b| == 16
  {
    tag + IntBytes(0) + IntBytes(offset) + IntBytes(length)
  }

  /** A font file with a `CFF ` record and an `OS/2` record, followed by an
      `OS/2` table whose `fsType` (bytes 8-9) is `fsType`. */
  function TwoTableFont(version: int, cffOffset: int, cffLength: int, fsType: int): (b: seq<byte>)
    requires version == VersionTrueType || version == VersionOTTO
    requires -0x8000_0000 <= cffOffset < 0x8000_0000 && -0x8000_0000 <= cffLength < 0x8000_0000
    requires 0 <= fsType < 0x8000
  {
    OffsetTable(version) + DirectoryRecord(TagCFF, cffOffset, cffLength)
      + DirectoryRecord(TagOS2, 44, 10) + Os2Table(fsType)
  }

  /** The 12-byte offset table of a font file with two tables. */
  function OffsetTable(version: int): (b: seq<byte>)
    requires -0x8000_0000 <= version < 0x8000_0000
    ensures |b| == 12
  {
    IntBytes(version) + ShortBytes(2) + [0, 0, 0, 0, 0, 0]
  }

  /** The first ten bytes of an `OS/2` table, ending with `fsType`. */
  function Os2Table(fsType: int): (b: seq<byte>)
    requires 0 <= fsType < 0x8000
    ensures |b| == 10
  {
    [0, 0, 0, 0, 0, 0, 0, 0] + ShortBytes(fsType)
  }

  /** The check reads back the licence bits and the `CFF ` position written
      into a well-formed two-table font. */
  lemma InspectTwoTableFont(fileName: string, version: int, cffOffset: int, cffLength: int, fsType: int)
    requires fileName != []
    requires version == VersionTrueType || version == VersionOTTO
    requires -0x8000_0000 <= cffOffset < 0x8000_0000 && -0x8000_0000 <= cffLength < 0x8000_0000
    requires 0 <= fsType < 0x8000
    ensures Inspect(fileName, Some(TwoTableFont(version, cffOffset, cffLength, fsType)))
              == TtfCheck(EmbeddingAllowed(fsType), SubsettingAllowed(fsType), cffOffset, cffLength)
  {
    var data := TwoTableFont(version, cffOffset, cffLength, fsType);
    TwoTableFontLayout(version, cffOffset, cffLength, fsType);
    assert data[12..16][0] != TagOS2[0] && data[28..32][0] != TagCFF[0];
    assert LastRecord(data, 2, TagCFF) == Some(0);
    assert LastRecord(data, 2, TagOS2) == Some(1);
    assert CffOf(data, 2) == (cffOffset, cffLength);
    assert Os2Of(data, 2) == Some(44);
    assert InspectData(data) == InspectDirectory(data, 2);
  }

  lemma TwoTableFontLayout(version: int, cffOffset: int, cffLength: int, fsType: int)
    requires version == VersionTrueType || version == VersionOTTO
    requires -0x8000_0000 <= cffOffset < 0x8000_0000 && -0x8000_0000 <= cffLength < 0x8000_0000
    requires 0 <= fsType < 0x8000
    ensures var data := TwoTableFont(version, cffOffset, cffLength, fsType);
      && |data| == 54
      && ReadInt(data, 0) == Some(version) && ReadShort(data, 4) == Some(2)
      && data[12..16] == TagCFF && data[28..32] == TagOS2
      && ReadInt(data, 20) == Some(cffOffset) && ReadInt(data, 24) == Some(cffLength)
      && ReadInt(data, 36) == Some(44)
      && data[52] as int * 256 + data[53] as int == fsType
  {
    var data := TwoTableFont(version, cffOffset, cffLength, fsType);
    var h := OffsetTable(version);
    var r1 := DirectoryRecord(TagCFF, cffOffset, cffLength);
    var r2 := DirectoryRecord(TagOS2, 44, 10);
    var t := Os2Table(fsType);
    Quarters(h, r1, r2, t, data);
    OffsetTableLayout(data, version);
    RecordFields(data, 12, TagCFF, cffOffset, cffLength);
    RecordFields(data, 28, TagOS2, 44, 10);
    Os2TableLayout(data, fsType);
  }

  /** Version and table count read back from the offset table. */
  lemma OffsetTableLayout(data: seq<byte>, version: int)
    requires -0x8000_0000 <= version < 0x8000_0000
    requires |data| >= 12 && data[..12] == OffsetTable(version)
    ensures ReadInt(data, 0) == Some(version) && ReadShort(data, 4) == Some(2)
  {
    assert data[..4] == OffsetTable(version)[..4] == IntBytes(version);
    assert data[4..6] == OffsetTable(version)[4..6] == ShortBytes(2);
    ReadIntAt(data, 0, version);
    ReadShortAt(data, 4, 2);
  }

  /** Tag, offset and length read back from a directory record at `pos`. */
  lemma RecordFields(data: seq<byte>, pos: int, tag: seq<byte>, offset: int, length: int)
    requires |tag| == 4
    requires -0x8000_0000 <= offset < 0x8000_0000 && -0x8000_0000 <= length < 0x8000_0000
    requires 0 <= pos && pos + 16 <= |data| && data[pos..pos + 16] == DirectoryRecord(tag, offset, length)
    ensures data[pos..pos + 4] == tag
    ensures ReadInt(data, pos + 8) == Some(offset) && ReadInt(data, pos + 12) == Some(length)
  {
    var r := DirectoryRecord(tag, offset, length);
    RecordLayout(tag, offset, length);
    forall k | 0 <= k < 16
      ensures data[pos + k] == r[k]
    {
      assert data[pos..pos + 16][k] == data[pos + k];
    }
    assert data[pos..pos + 4] == r[..4];
    assert data[pos + 8..pos + 12] == r[8..12];
    assert data[pos + 12..pos + 16] == r[12..16];
    ReadIntAt(data, pos + 8, offset);
    ReadIntAt(data, pos + 12, length);
  }

  /** `fsType` reads back from the last two bytes of a 54-byte two-table font. */
  lemma Os2TableLayout(data: seq<byte>, fsType: int)
    requires 0 <= fsType < 0x8000
    requires |data| == 54 && data[44..] == Os2Table(fsType)
    ensures data[52] as int * 256 + data[53] as int == fsType
  {
    assert data[52] == Os2Table(fsType)[8] == ShortBytes(fsType)[0];
    assert data[53] == Os2Table(fsType)[9] == ShortBytes(fsType)[1];
    ShortBytesValue(fsType);
  }

  /** The fields of a directory record sit at offsets 0, 8 and 12. */
  lemma RecordLayout(tag: seq<byte>, offset: int, length: int)
    requires |tag| == 4
    requires -0x8000_0000 <= offset < 0x8000_0000 && -0x8000_0000 <= length < 0x8000_0000
    ensures var b := DirectoryRecord(tag, offset, length);
      b[..4] == tag && b[8..12] == IntBytes(offset) && b[12..16] == IntBytes(length)
  {
  }

  /** The four parts of a concatenation, read back by position. */
  lemma Quarters(a: seq<byte>, b: seq<byte>, c: seq<byte>, d: seq<byte>, data: seq<byte>)
    requires data == a + b + c + d
    ensures data[..|a|] == a && data[|a|..|a| + |b|] == b
    ensures data[|a| + |b|..|a| + |b| + |c|] == c && data[|a| + |b| + |c|..] == d
  {
  }

  /** A non-negative 16-bit value reads back from its two bytes. */
  lemma ShortBytesValue(v: int)
    requires 0 <= v < 0x8000
    ensures ShortBytes(v)[0] as int * 256 + ShortBytes(v)[1] as int == v
  {
  }
}
