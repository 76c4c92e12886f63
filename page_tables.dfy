/**
 * Second-level page tables, directory slots that create them lazily, and
 * the directory matrix `dirs[segment][directory]` that the translation
 * engine owns, viewed through (segment, directory, page) triples.
 */
module PageTables {
  import opened MemoryTypes

  /**
   * The two random draws that initialise one page of a new table: its
   * presence flag and its protection.
   */
  datatype PageInit = PageInit(present: bool, prot: Protection)

  /** A second-level table: a fixed number of pages (and the page size it was made with). */
  datatype PageTable = PageTable(pages: seq<Page>, pageSize: int)

  /**
   * A new table of `n` pages. Every page starts unmapped (frame -1) with
   * last access 0, and takes its presence and protection from `fill`, so a
   * page may start "present" without a frame.
   */
  function NewPageTable(n: nat, pageSize: int, fill: seq<PageInit>): (pt: PageTable)
    requires |fill| == n
    ensures |pt.pages| == n && pt.pageSize == pageSize
    ensures forall i :: 0 <= i < n ==> pt.pages[i].frame == -1 && pt.pages[i].lastAccess == 0
    ensures forall i :: 0 <= i < n ==>
      pt.pages[i].present == fill[i].present && pt.pages[i].prot == fill[i].prot
  {
    PageTable(seq(n, i requires 0 <= i < n => Page(-1, fill[i].present, fill[i].prot, 0)), pageSize)
  }

  /** A directory slot: a presence flag and the table it owns once created. */
  datatype DirEntry = DirEntry(present: bool, pt: Option<PageTable>)

  const EmptyEntry := DirEntry(false, None)

  /**
   * The slot after its table is ensured: a slot already present is left
   * as it is, an absent one gets a new table of `n` pages.
   */
  function Ensure(de: DirEntry, n: nat, pageSize: int, fill: seq<PageInit>): (r: DirEntry)
    requires |fill| == n
    ensures r.present
    ensures de.present ==> r == de
    ensures !de.present ==> r.pt == Some(NewPageTable(n, pageSize, fill))
  {
    if de.present then de else DirEntry(true, Some(NewPageTable(n, pageSize, fill)))
  }

  /** A table is created at most once: ensuring twice is ensuring once. */
  lemma EnsureIdempotent(de: DirEntry, n: nat, pageSize: int, fill: seq<PageInit>, fill2: seq<PageInit>)
    requires |fill| == n && |fill2| == n
    ensures Ensure(Ensure(de, n, pageSize, fill), n, pageSize, fill2) == Ensure(de, n, pageSize, fill)
  {
  }

  /** Every slot's presence flag says whether it owns a table of `n` pages. */
  ghost predicate WellShaped(dirs: seq<seq<DirEntry>>, segs: int, n: int)
  {
    && |dirs| == segs
    && (forall s :: 0 <= s < |dirs| ==> |dirs[s]| == n)
    && (forall s, d :: 0 <= s < |dirs| && 0 <= d < |dirs[s]| ==> EntryShaped(dirs[s][d], n))
  }

  ghost predicate EntryShaped(de: DirEntry, n: int)
  {
    de.present == de.pt.Some? && (de.pt.Some? ==> |de.pt.value.pages| == n)
  }

  /** The two matrices have the same slots, the same present slots, the same table sizes. */
  ghost predicate SameShape(a: seq<seq<DirEntry>>, b: seq<seq<DirEntry>>)
  {
    && |a| == |b|
    && (forall s :: 0 <= s < |a| ==> |a[s]| == |b[s]|)
    && (forall s, d :: 0 <= s < |a| && 0 <= d < |a[s]| ==> Shape(a[s][d]) == Shape(b[s][d]))
  }

  function Shape(de: DirEntry): (r: (bool, bool, int))
  {
    (de.present, de.pt.Some?, if de.pt.Some? then |de.pt.value.pages| else 0)
  }

  lemma SameShapeKeepsWellShaped(a: seq<seq<DirEntry>>, b: seq<seq<DirEntry>>, segs: int, n: int)
    requires WellShaped(a, segs, n) && SameShape(a, b)
    ensures WellShaped(b, segs, n)
  {
    forall s, d | 0 <= s < |b| && 0 <= d < |b[s]| ensures EntryShaped(b[s][d], n) {
      assert Shape(a[s][d]) == Shape(b[s][d]);
    }
  }

  /**
   * The triple names a page: the segment and directory index are in range,
   * the slot is present with a table, and the page index is within it.
   */
  predicate Resolves(dirs: seq<seq<DirEntry>>, s: int, d: int, p: int)
  {
    && 0 <= s < |dirs| && 0 <= d < |dirs[s]|
    && dirs[s][d].present && dirs[s][d].pt.Some?
    && 0 <= p < |dirs[s][d].pt.value.pages|
  }

  /** The page a triple names (a default page when it names none). */
  function PageOf(dirs: seq<seq<DirEntry>>, s: int, d: int, p: int): (pg: Page)
  {
    if Resolves(dirs, s, d, p) then dirs[s][d].pt.value.pages[p] else DefaultPage
  }

  /**
   * Writes page `(s, d, p)`, when that triple names one; every other triple
   * keeps its page and the shape does not change.
   */
  function SetPage(dirs: seq<seq<DirEntry>>, s: int, d: int, p: int, pg: Page): (r: seq<seq<DirEntry>>)
    ensures SameShape(dirs, r)
    ensures forall s', d', p' :: Resolves(r, s', d', p') == Resolves(dirs, s', d', p')
    ensures forall s', d', p' ::
      PageOf(r, s', d', p') == if s' == s && d' == d && p' == p && Resolves(dirs, s, d, p) then pg else PageOf(dirs, s', d', p')
  {
    if Resolves(dirs, s, d, p) then
      var de := dirs[s][d];
      var pt := de.pt.value;
      dirs[s := dirs[s][d := DirEntry(de.present, Some(pt.(pages := pt.pages[p := pg])))]]
    else
      dirs
  }

  /**
   * The matrix after slot `(s, d)` is ensured to own a table: triples that
   * named a page still name the same page, and a triple that names a page
   * only now names an unmapped page of the new table.
   */
  function Materialize(dirs: seq<seq<DirEntry>>, s: int, d: int, n: nat, pageSize: int,
                       fill: seq<PageInit>): (r: seq<seq<DirEntry>>)
    requires |fill| == n
    ensures |r| == |dirs| && forall s' :: 0 <= s' < |r| ==> |r[s']| == |dirs[s']|
    ensures forall s', d' :: 0 <= s' < |r| && 0 <= d' < |r[s']| ==>
      r[s'][d'] == if s' == s && d' == d then Ensure(dirs[s][d], n, pageSize, fill) else dirs[s'][d']
    ensures forall s', d', p' :: Resolves(dirs, s', d', p') ==>
      Resolves(r, s', d', p') && PageOf(r, s', d', p') == PageOf(dirs, s', d', p')
    ensures forall s', d', p' :: Resolves(r, s', d', p') && !Resolves(dirs, s', d', p') ==>
      s' == s && d' == d && PageOf(r, s', d', p').frame == -1
  {
    if 0 <= s < |dirs| && 0 <= d < |dirs[s]| then
      dirs[s := dirs[s][d := Ensure(dirs[s][d], n, pageSize, fill)]]
    else
      dirs
  }

  /** Materializing a well-shaped matrix with a table of the right size keeps it well shaped. */
  lemma MaterializeKeepsWellShaped(dirs: seq<seq<DirEntry>>, segs: int, s: int, d: int, n: nat,
                                   pageSize: int, fill: seq<PageInit>)
    requires WellShaped(dirs, segs, n) && |fill| == n
    ensures WellShaped(Materialize(dirs, s, d, n, pageSize, fill), segs, n)
  {
  }

  /** In a well-shaped matrix, an in-range triple names a page once its slot is materialized. */
  lemma MaterializedResolves(dirs: seq<seq<DirEntry>>, segs: int, s: int, d: int, p: int, n: nat,
                             pageSize: int, fill: seq<PageInit>)
    requires WellShaped(dirs, segs, n) && |fill| == n
    requires 0 <= s < segs && 0 <= d < n && 0 <= p < n
    ensures Resolves(Materialize(dirs, s, d, n, pageSize, fill), s, d, p)
  {
  }
}
