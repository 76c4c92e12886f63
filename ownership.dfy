/**
 * The two-way link between pages and frames: a page's `frame` field points
 * into the frame pool, a used frame's owner triple points back into the
 * directory matrix. Each lemma shows that one step of `translate` keeps the
 * link.
 */
module Ownership {
  import opened MemoryTypes
  import opened Frames
  import opened PageTables

  /** Frame `f` is used and its owner triple is `(s, d, p)`. */
  predicate OwnedBy(meta: seq<FrameMeta>, f: int, s: int, d: int, p: int)
  {
    0 <= f < |meta| && !meta[f].free && meta[f].seg == s && meta[f].dir == d && meta[f].page == p
  }

  /**
   * The link invariant. A page with a frame is present and names a used
   * frame that it owns; a used frame's owner triple names a page whose
   * frame is that frame.
   */
  ghost predicate Linked(dirs: seq<seq<DirEntry>>, meta: seq<FrameMeta>)
  {
    && (forall s, d, p :: Resolves(dirs, s, d, p) && PageOf(dirs, s, d, p).frame != -1 ==>
          PageOf(dirs, s, d, p).present && OwnedBy(meta, PageOf(dirs, s, d, p).frame, s, d, p))
    && (forall f :: 0 <= f < |meta| && !meta[f].free ==>
          Resolves(dirs, meta[f].seg, meta[f].dir, meta[f].page)
          && PageOf(dirs, meta[f].seg, meta[f].dir, meta[f].page).frame == f)
  }

  /** With no table and no used frame, the link holds. */
  lemma LinkedInitially(dirs: seq<seq<DirEntry>>, meta: seq<FrameMeta>)
    requires forall s, d :: 0 <= s < |dirs| && 0 <= d < |dirs[s]| ==> !dirs[s][d].present
    requires forall f :: 0 <= f < |meta| ==> meta[f].free
    ensures Linked(dirs, meta)
  {
  }

  /** Under the link, no two pages claim the same frame. */
  lemma ExclusiveOwnership(dirs: seq<seq<DirEntry>>, meta: seq<FrameMeta>,
                           s1: int, d1: int, p1: int, s2: int, d2: int, p2: int)
    requires Linked(dirs, meta)
    requires Resolves(dirs, s1, d1, p1) && Resolves(dirs, s2, d2, p2)
    requires PageOf(dirs, s1, d1, p1).frame != -1
    requires PageOf(dirs, s1, d1, p1).frame == PageOf(dirs, s2, d2, p2).frame
    ensures s1 == s2 && d1 == d2 && p1 == p2
  {
  }

  /** Lazily creating a table keeps the link: its pages have no frame. */
  lemma {:induction false} LinkedAfterMaterialize(dirs: seq<seq<DirEntry>>, meta: seq<FrameMeta>,
                                                  s: int, d: int, n: nat, pageSize: int,
                                                  fill: seq<PageInit>)
    requires Linked(dirs, meta) && |fill| == n
    ensures Linked(Materialize(dirs, s, d, n, pageSize, fill), meta)
  {
    var r := Materialize(dirs, s, d, n, pageSize, fill);
    forall s', d', p' | Resolves(r, s', d', p') && PageOf(r, s', d', p').frame != -1
      ensures PageOf(r, s', d', p').present && OwnedBy(meta, PageOf(r, s', d', p').frame, s', d', p')
    {
      assert Resolves(dirs, s', d', p');
    }
  }

  /**
   * A hit keeps the link: the page's last access and, when its frame is
   * used, the frame's last access move to `now`; nothing else changes.
   */
  lemma {:induction false} LinkedAfterTouch(dirs: seq<seq<DirEntry>>, meta: seq<FrameMeta>,
                                            s: int, d: int, p: int, now: int)
    requires Linked(dirs, meta) && Resolves(dirs, s, d, p)
    ensures Linked(SetPage(dirs, s, d, p, PageOf(dirs, s, d, p).(lastAccess := now)),
                   Touched(meta, PageOf(dirs, s, d, p).frame, now))
  {
    var pg := PageOf(dirs, s, d, p);
    var r := SetPage(dirs, s, d, p, pg.(lastAccess := now));
    var m := Touched(meta, pg.frame, now);
    TouchedChangesOnlyLastAccess(meta, pg.frame, now);
    forall s', d', p' | Resolves(r, s', d', p') && PageOf(r, s', d', p').frame != -1
      ensures PageOf(r, s', d', p').present && OwnedBy(m, PageOf(r, s', d', p').frame, s', d', p')
    {
      assert PageOf(r, s', d', p').frame == PageOf(dirs, s', d', p').frame;
    }
    forall f | 0 <= f < |m| && !m[f].free
      ensures Resolves(r, m[f].seg, m[f].dir, m[f].page) && PageOf(r, m[f].seg, m[f].dir, m[f].page).frame == f
    {
      assert m[f].free == meta[f].free && m[f].seg == meta[f].seg;
      assert m[f].dir == meta[f].dir && m[f].page == meta[f].page;
    }
  }

  /** The page a frame's owner triple names with its mapping cleared, when it names one. */
  function ClearOwner(dirs: seq<seq<DirEntry>>, m: FrameMeta): (r: seq<seq<DirEntry>>)
  {
    SetPage(dirs, m.seg, m.dir, m.page, PageOf(dirs, m.seg, m.dir, m.page).(present := false, frame := -1))
  }

  /**
   * Evicting a used frame keeps the link: its owner triple names a page
   * mapped to it, and clearing that page and freeing the frame leave every
   * other link as it was.
   */
  lemma {:induction false} LinkedAfterEvict(dirs: seq<seq<DirEntry>>, meta: seq<FrameMeta>, v: int)
    requires Linked(dirs, meta) && 0 <= v < |meta| && !meta[v].free
    ensures Resolves(dirs, meta[v].seg, meta[v].dir, meta[v].page)
    ensures PageOf(dirs, meta[v].seg, meta[v].dir, meta[v].page).frame == v
    ensures Linked(ClearOwner(dirs, meta[v]), Freed(meta, v))
  {
    var o := meta[v];
    var r := ClearOwner(dirs, o);
    var m := Freed(meta, v);
    forall s', d', p' | Resolves(r, s', d', p') && PageOf(r, s', d', p').frame != -1
      ensures PageOf(r, s', d', p').present && OwnedBy(m, PageOf(r, s', d', p').frame, s', d', p')
    {
      assert !(s' == o.seg && d' == o.dir && p' == o.page);
      var f := PageOf(dirs, s', d', p').frame;
      assert OwnedBy(meta, f, s', d', p');
      assert f != v;
    }
    forall f | 0 <= f < |m| && !m[f].free
      ensures Resolves(r, m[f].seg, m[f].dir, m[f].page) && PageOf(r, m[f].seg, m[f].dir, m[f].page).frame == f
    {
      assert f != v && m[f] == meta[f];
      assert PageOf(dirs, meta[f].seg, meta[f].dir, meta[f].page).frame == f;
    }
  }

  /**
   * Mapping a free frame to an unmapped page keeps the link: the page
   * becomes present with that frame, the frame becomes used and owned by
   * the page.
   */
  lemma {:induction false} LinkedAfterMap(dirs: seq<seq<DirEntry>>, meta: seq<FrameMeta>,
                                          f: int, s: int, d: int, p: int, now: int)
    requires Linked(dirs, meta) && 0 <= f < |meta| && meta[f].free
    requires Resolves(dirs, s, d, p) && PageOf(dirs, s, d, p).frame == -1
    ensures Linked(SetPage(dirs, s, d, p, PageOf(dirs, s, d, p).(present := true, frame := f, lastAccess := now)),
                   meta[f := MappedMeta(s, d, p, now)])
  {
    var r := SetPage(dirs, s, d, p, PageOf(dirs, s, d, p).(present := true, frame := f, lastAccess := now));
    var m := meta[f := MappedMeta(s, d, p, now)];
    forall s', d', p' | Resolves(r, s', d', p') && PageOf(r, s', d', p').frame != -1
      ensures PageOf(r, s', d', p').present && OwnedBy(m, PageOf(r, s', d', p').frame, s', d', p')
    {
      if !(s' == s && d' == d && p' == p) {
        var g := PageOf(dirs, s', d', p').frame;
        assert OwnedBy(meta, g, s', d', p');
        assert g != f;
      }
    }
    forall g | 0 <= g < |m| && !m[g].free
      ensures Resolves(r, m[g].seg, m[g].dir, m[g].page) && PageOf(r, m[g].seg, m[g].dir, m[g].page).frame == g
    {
      if g != f {
        assert m[g] == meta[g];
        assert PageOf(dirs, meta[g].seg, meta[g].dir, meta[g].page).frame == g;
        assert !(meta[g].seg == s && meta[g].dir == d && meta[g].page == p);
      }
    }
  }
}
