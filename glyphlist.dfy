/** The glyph list of `MakeFontUFM` for a CFF-flavoured font: a
    `wxSortedArray` of (glyph id, Unicode code) entries ordered by glyph id,
    filled by `Add`, which places each new entry where a binary search
    (`IndexForInsert`) stops. Entries with equal glyph ids keep whatever order
    that search gives them. */
module GlyphList {

  /** `GlyphListEntry`: glyph id `m_gid` and Unicode code `m_uid`. */
  datatype GlyphEntry = GlyphEntry(gid: int, uid: int)

  /** Ordered by glyph id, as `CompareGlyphListEntries` orders them. */
  predicate Sorted(list: seq<GlyphEntry>)
  {
    forall i, j :: 0 <= i < j < |list| ==> list[i].gid <= list[j].gid
  }

  /** Where the binary search between `lo` and `hi` stops: the probe is the
      middle entry; a smaller id goes left, a larger id right, an equal id
      stops at the probe. */
  function SearchInsert(list: seq<GlyphEntry>, gid: int, lo: nat, hi: nat): (p: nat)
    requires lo <= hi <= |list|
    ensures lo <= p <= hi
    decreases hi - lo
  {
    if lo >= hi then lo
    else
      var i := (lo + hi) / 2;
      var res := gid - list[i].gid;
      if res < 0 then SearchInsert(list, gid, lo, i)
      else if res > 0 then SearchInsert(list, gid, i + 1, hi)
      else i
  }

  /** The list after `Add`: the entry goes where the search stops. */
  function Insert(list: seq<GlyphEntry>, e: GlyphEntry): seq<GlyphEntry>
  {
    var p := SearchInsert(list, e.gid, 0, |list|);
    list[..p] + [e] + list[p..]
  }

  /** `IndexForInsert` of the sorted array. */
  method IndexForInsert(list: seq<GlyphEntry>, gid: int) returns (p: nat)
    ensures p == SearchInsert(list, gid, 0, |list|)
  {
    var lo, hi := 0, |list|;
    while lo < hi
      invariant lo <= hi <= |list|
      invariant SearchInsert(list, gid, lo, hi) == SearchInsert(list, gid, 0, |list|)
      decreases hi - lo
    {
      var i := (lo + hi) / 2;
      var res := gid - list[i].gid;
      if res < 0 {
        hi := i;
      } else if res > 0 {
        lo := i + 1;
      } else {
        lo := i;
        break;
      }
    }
    p := lo;
  }

  /** `Add` of the sorted array. */
  method Add(list: seq<GlyphEntry>, e: GlyphEntry) returns (r: seq<GlyphEntry>)
    ensures r == Insert(list, e)
  {
    var p := IndexForInsert(list, e.gid);
    r := list[..p] + [e] + list[p..];
  }

  /** In a sorted list the search stops at a position with no larger id
      before it and no smaller id after it. */
  lemma {:induction false} SearchInsertSplits(list: seq<GlyphEntry>, gid: int, lo: nat, hi: nat)
    requires Sorted(list) && lo <= hi <= |list|
    requires forall k :: 0 <= k < lo ==> list[k].gid <= gid
    requires forall k :: hi <= k < |list| ==> list[k].gid >= gid
    ensures var p := SearchInsert(list, gid, lo, hi);
      && (forall k :: 0 <= k < p ==> list[k].gid <= gid)
      && (forall k :: p <= k < |list| ==> list[k].gid >= gid)
    decreases hi - lo
  {
    if lo < hi {
      var i := (lo + hi) / 2;
      if gid < list[i].gid {
        SearchInsertSplits(list, gid, lo, i);
      } else if gid > list[i].gid {
        SearchInsertSplits(list, gid, i + 1, hi);
      }
    }
  }

  /** Adding to a sorted list keeps it sorted, and adds exactly the one entry. */
  lemma InsertSorted(list: seq<GlyphEntry>, e: GlyphEntry)
    requires Sorted(list)
    ensures Sorted(Insert(list, e))
    ensures multiset(Insert(list, e)) == multiset(list) + multiset{e}
    ensures |Insert(list, e)| == |list| + 1
  {
    var p := SearchInsert(list, e.gid, 0, |list|);
    SearchInsertSplits(list, e.gid, 0, |list|);
    InsertOrder(list, e, p);
    assert list == list[..p] + list[p..];
  }

  /** Putting `e` at a position with no larger id before it and no smaller id
      after it keeps a sorted list sorted. */
  lemma InsertOrder(list: seq<GlyphEntry>, e: GlyphEntry, p: nat)
    requires Sorted(list) && p <= |list|
    requires forall k :: 0 <= k < p ==> list[k].gid <= e.gid
    requires forall k :: p <= k < |list| ==> list[k].gid >= e.gid
    ensures Sorted(list[..p] + [e] + list[p..])
  {
    var r := list[..p] + [e] + list[p..];
    assert forall k :: 0 <= k < p ==> r[k] == list[k];
    assert r[p] == e;
    assert forall k :: p < k < |r| ==> r[k] == list[k - 1];
    forall i, j | 0 <= i < j < |r|
      ensures r[i].gid <= r[j].gid
    {
      if j < p {
        assert r[i] == list[i] && r[j] == list[j];
      } else if i > p {
        assert r[i] == list[i - 1] && r[j] == list[j - 1];
      } else if i == p {
        assert r[j] == list[j - 1];
      } else if j == p {
        assert r[i] == list[i];
      } else {
        assert r[i] == list[i] && r[j] == list[j - 1];
      }
    }
  }

  /** A list filled by `Add` from empty is the sorted arrangement of the
      entries added. */
  function AddAll(es: seq<GlyphEntry>): seq<GlyphEntry>
    decreases |es|
  {
    if es == [] then [] else Insert(AddAll(es[..|es| - 1]), es[|es| - 1])
  }

  lemma {:induction false} AddAllSorted(es: seq<GlyphEntry>)
    ensures Sorted(AddAll(es)) && multiset(AddAll(es)) == multiset(es)
    decreases |es|
  {
    if es != [] {
      var init := es[..|es| - 1];
      AddAllSorted(init);
      InsertSorted(AddAll(init), es[|es| - 1]);
      assert es == init + [es[|es| - 1]];
    }
  }
}
