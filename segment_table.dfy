/**
 * The translation engine: the segment table, the matrix of lazily created
 * directory slots, the counters and the logical clock, and `translate`,
 * the ordered chain of checks that turns (segment, page number, offset,
 * access) into a physical address or a counted failure.
 */
module Translation {
  import opened MemoryTypes
  import opened Frames
  import opened PageTables
  import opened Ownership

  /**
   * What one call reports: success, or the failure whose line `log` would
   * write ("bad segment", "Write to RO segment", "Page exceeds seg limit",
   * "Offset out of range", "Write to RO page", "No victim available").
   */
  datatype Outcome =
    | Translated
    | BadSegment
    | WriteToReadOnlySegment
    | PageBeyondLimit
    | OffsetOutOfRange
    | WriteToReadOnlyPage
    | NoVictim

  /** Physical base of segment `s` in the constructor's layout. */
  function SegmentBase(s: int): (base: int)
  {
    1000 + s * 5000
  }

  /** The address `translate` returns for a page within a segment. */
  function PhysicalAddress(sg: Segment, pageNum: int, pageSize: int, offset: int): (addr: int)
  {
    sg.base + pageNum * pageSize + offset
  }

  /** A translated address lies inside the segment's window of `limitPages` pages. */
  lemma AddressWithinSegment(sg: Segment, pageNum: int, pageSize: int, offset: int)
    requires 0 <= pageNum < sg.limitPages && 0 <= offset < pageSize
    ensures sg.base <= PhysicalAddress(sg, pageNum, pageSize, offset) < sg.base + sg.limitPages * pageSize
  {
    assert pageNum * pageSize <= (sg.limitPages - 1) * pageSize;
  }

  /** Within one segment, distinct (page number, offset) pairs get distinct addresses. */
  lemma AddressInjective(sg: Segment, pageSize: int, pn1: int, off1: int, pn2: int, off2: int)
    requires 0 <= off1 < pageSize && 0 <= off2 < pageSize
    requires PhysicalAddress(sg, pn1, pageSize, off1) == PhysicalAddress(sg, pn2, pageSize, off2)
    ensures pn1 == pn2 && off1 == off2
  {
    var k := pn1 - pn2;
    assert k * pageSize == pn1 * pageSize - pn2 * pageSize;
    assert k * pageSize == off2 - off1;
    NonZeroMultipleIsLarge(k, pageSize);
  }

  /** A nonzero multiple of a positive number is at least that number in size. */
  lemma NonZeroMultipleIsLarge(k: int, m: int)
    requires m > 0
    ensures k == 0 || k * m >= m || k * m <= -m
  {
    if k >= 1 {
      assert k * m == (k - 1) * m + m;
    } else if k <= -1 {
      assert k * m == (k + 1) * m - m;
    }
  }

  /**
   * Segment windows start 5000 apart, so a segment 0 whose window of
   * `limitPages * pageSize` bytes is longer than 5000 reaches into segment
   * 1: some admitted (page, offset) of segment 0 translates to the base of
   * segment 1, the address of its page 0 at offset 0.
   */
  lemma AdjacentSegmentsOverlap(sg0: Segment, pageSize: int)
    requires sg0.base == SegmentBase(0) && pageSize > 0 && sg0.limitPages * pageSize > 5000
    ensures exists pn, off ::
              && 0 <= pn < sg0.limitPages && 0 <= off < pageSize
              && PhysicalAddress(sg0, pn, pageSize, off) == SegmentBase(1)
  {
    var pn, off := 5000 / pageSize, 5000 % pageSize;
    assert pn * pageSize + off == 5000;
    if pn >= sg0.limitPages {
      MulMonotone(sg0.limitPages, pn, pageSize);
    }
    assert PhysicalAddress(sg0, pn, pageSize, off) == SegmentBase(1);
  }

  /** Multiplying by a non-negative number keeps the order. */
  lemma MulMonotone(a: int, b: int, m: int)
    requires a <= b && m >= 0
    ensures a * m <= b * m
  {
    assert b * m - a * m == (b - a) * m;
  }

  /**
   * With a square layout (limit at most `n * n`), the directory index and
   * the page index of an admitted page number are both below `n`.
   */
  lemma DirIndexInRange(pageNum: int, n: int)
    requires n > 0 && 0 <= pageNum < n * n
    ensures 0 <= pageNum / n < n && 0 <= pageNum % n < n
  {
  }

  /** Some frame is free. */
  predicate HasFree(meta: seq<FrameMeta>)
  {
    exists i :: 0 <= i < |meta| && meta[i].free
  }

  class SegmentTable {
    const dirSize: int
    const pageSize: int
    const pm: PhysicalMemory
    const segments: seq<Segment>
    var dirs: seq<seq<DirEntry>>
    var metrics: Metrics
    var time: int

    /**
     * The engine invariant: the pool's own invariant; a square layout; one
     * row of `dirSize` slots per segment, each present exactly when it owns
     * a table of `dirSize` pages; the two-way page/frame link; and no frame
     * time ahead of the clock.
     */
    ghost predicate Valid()
      reads this`dirs, this`time, pm
    {
      && pm.Valid()
      && dirSize > 0
      && (forall s :: 0 <= s < |segments| ==> segments[s].base == SegmentBase(s))
      && (forall s :: 0 <= s < |segments| ==> segments[s].limitPages <= dirSize * dirSize)
      && WellShaped(dirs, |segments|, dirSize)
      && Linked(dirs, pm.meta)
      && 0 <= time
      && (forall f :: 0 <= f < |pm.meta| ==> pm.meta[f].lastAccess <= time)
    }

    /**
     * Segment `s` gets base `1000 + 5000 * s`, limit `limits[s]` and
     * protection `prots[s]`, and a row of `dirSize` absent slots.
     */
    constructor (limits: seq<int>, prots: seq<Protection>, dirSize: int, pageSize: int, pm: PhysicalMemory)
      requires |limits| == |prots|
      requires dirSize > 0
      requires forall s :: 0 <= s < |limits| ==> limits[s] <= dirSize * dirSize
      requires pm.Valid() && forall f :: 0 <= f < |pm.meta| ==> pm.meta[f].free
      ensures Valid()
      ensures this.pm == pm && this.dirSize == dirSize && this.pageSize == pageSize
      ensures |segments| == |limits|
      ensures forall s :: 0 <= s < |limits| ==> segments[s] == Segment(SegmentBase(s), limits[s], prots[s])
      ensures dirs == seq(|limits|, _ => seq(dirSize, _ => EmptyEntry))
      ensures metrics == ZeroMetrics && time == 0
    {
      this.dirSize, this.pageSize, this.pm := dirSize, pageSize, pm;
      segments := seq(|limits|, s requires 0 <= s < |limits| => Segment(SegmentBase(s), limits[s], prots[s]));
      dirs := seq(|limits|, _ => seq(dirSize, _ => EmptyEntry));
      metrics := ZeroMetrics;
      time := 0;
      new;
      LinkedInitially(dirs, pm.meta);
    }

    /** Advances the logical clock; every frame time is then strictly behind it. */
    method Tick()
      requires Valid() && time < IntMax
      modifies this`time
      ensures Valid() && time == old(time) + 1
      ensures forall f :: 0 <= f < |pm.meta| ==> pm.meta[f].lastAccess < time
    {
      time := time + 1;
    }

    /** Counts one logged failure (the text sink is left out). */
    method Log()
      modifies this`metrics
      ensures metrics == old(metrics).(logs := old(metrics).logs + 1)
    {
      metrics := metrics.(logs := metrics.logs + 1);
    }

    /**
     * Unlinks a victim frame's owner: clears presence and frame of the page
     * its owner triple names, when the triple names one.
     */
    method OwningClear(m: FrameMeta) returns (cleared: bool)
      modifies this`dirs
      ensures cleared == Resolves(old(dirs), m.seg, m.dir, m.page)
      ensures dirs == ClearOwner(old(dirs), m)
    {
      if m.seg < 0 {
        return false;
      }
      if m.seg >= |dirs| {
        return false;
      }
      if m.dir < 0 || m.dir >= |dirs[m.seg]| {
        return false;
      }
      var de := dirs[m.seg][m.dir];
      if !de.present || de.pt.None? {
        return false;
      }
      if m.page < 0 || m.page >= |de.pt.value.pages| {
        return false;
      }
      var p := de.pt.value.pages[m.page];
      dirs := SetPage(dirs, m.seg, m.dir, m.page, p.(present := false, frame := -1));
      return true;
    }

    /** Checks 1 to 4 pass: the segment, its protection, the page limit, the offset. */
    predicate Admitted(seg: int, pageNum: int, offset: int, acc: Access)
    {
      && 0 <= seg < |segments|
      && !(acc == Write && segments[seg].prot == ReadOnly)
      && 0 <= pageNum < segments[seg].limitPages
      && 0 <= offset < pageSize
    }

    /**
     * Asks the pool for a victim at time `now`; when it proposes one, clears
     * the mapping of the page its owner triple names, frees it and counts a
     * replacement. Returns the victim, or -1 when the pool has no frame.
     * Every frame is in use when this is called.
     */
    method Evict(now: int) returns (v: int)
      requires pm.Valid() && WellShaped(dirs, |segments|, dirSize) && Linked(dirs, pm.meta)
      requires forall i :: 0 <= i < |pm.meta| ==> !pm.meta[i].free && pm.meta[i].lastAccess < IntMax
      modifies this`dirs, this`metrics, pm
      ensures pm.Valid() && WellShaped(dirs, |segments|, dirSize) && Linked(dirs, pm.meta)
      ensures v == -1 <==> pm.numFrames == 0
      ensures v == -1 ==>
        dirs == old(dirs) && pm.meta == old(pm.meta) && pm.fifoQ == old(pm.fifoQ) && metrics == old(metrics)
      ensures v != -1 ==>
        && 0 <= v < |old(pm.meta)|
        && IsVictim(pm.policy, old(pm.fifoQ), old(pm.meta), v)
        && var o := old(pm.meta)[v];
        && Resolves(old(dirs), o.seg, o.dir, o.page) && PageOf(old(dirs), o.seg, o.dir, o.page).frame == v
        && metrics == old(metrics).(replacements := old(metrics).replacements + 1)
        && dirs == ClearOwner(old(dirs), o)
        && pm.meta == Freed(old(pm.meta), v)
        && pm.fifoQ == QueueAfterVictim(pm.policy, old(pm.fifoQ), old(pm.meta))
    {
      ghost var dirs0, meta0, q0 := dirs, pm.meta, pm.fifoQ;
      v := pm.ChooseVictim(now);
      if pm.numFrames > 0 {
        UsedFrameYieldsVictim(meta0, pm.policy, v, 0);
      }
      if v == -1 {
        QueueHeadInRange(q0, pm.numFrames);
        return;
      }
      var finfo := pm.meta[v];
      LinkedAfterEvict(dirs0, meta0, v);
      var cleared := OwningClear(finfo);
      if cleared {
        pm.FreeFrame(v);
        metrics := metrics.(replacements := metrics.replacements + 1);
      } else {
        assert false;
      }
      SameShapeKeepsWellShaped(dirs0, dirs, |segments|, dirSize);
    }

    /**
     * Serves a fault on the unmapped page `(seg, d, p)` at time `now`: counts
     * it, then takes the lowest free frame, or else the policy's victim (see `Evict`); then the
     * page and the frame are bound to each other. Returns the frame, or -1
     * (changing nothing but the fault count) when there is no frame at all.
     */
    method FaultIn(seg: int, d: int, p: int, now: int) returns (f: int)
      requires pm.Valid() && WellShaped(dirs, |segments|, dirSize) && Linked(dirs, pm.meta)
      requires Resolves(dirs, seg, d, p) && !PageOf(dirs, seg, d, p).present
      requires 0 <= now <= IntMax
      requires forall i :: 0 <= i < |pm.meta| ==> pm.meta[i].lastAccess < now
      modifies this`dirs, this`metrics, pm
      ensures pm.Valid() && WellShaped(dirs, |segments|, dirSize) && Linked(dirs, pm.meta)
      ensures forall i :: 0 <= i < |pm.meta| ==> pm.meta[i].lastAccess <= now
      ensures f == -1 <==> pm.numFrames == 0
      ensures f == -1 ==>
        && dirs == old(dirs) && pm.meta == old(pm.meta) && pm.fifoQ == old(pm.fifoQ)
        && metrics == old(metrics).(faults := old(metrics).faults + 1)
      ensures f != -1 ==>
        && 0 <= f < |old(pm.meta)| && PageOf(dirs, seg, d, p).frame == f
        && pm.meta == old(pm.meta)[f := MappedMeta(seg, d, p, now)]
      ensures HasFree(old(pm.meta)) ==>
        && IsFirstFree(old(pm.meta), f)
        && metrics == old(metrics).(faults := old(metrics).faults + 1)
        && dirs == SetPage(old(dirs), seg, d, p, PageOf(old(dirs), seg, d, p).(present := true, frame := f, lastAccess := now))
        && pm.fifoQ == old(pm.fifoQ) + [f, f]
      ensures !HasFree(old(pm.meta)) && f != -1 ==>
        && IsVictim(pm.policy, old(pm.fifoQ), old(pm.meta), f)
        && var o := old(pm.meta)[f];
        && Resolves(old(dirs), o.seg, o.dir, o.page) && PageOf(old(dirs), o.seg, o.dir, o.page).frame == f
        && metrics == old(metrics).(faults := old(metrics).faults + 1, replacements := old(metrics).replacements + 1)
        && dirs == SetPage(ClearOwner(old(dirs), o), seg, d, p,
                           PageOf(old(dirs), seg, d, p).(present := true, frame := f, lastAccess := now))
        && pm.fifoQ == QueueAfterVictim(pm.policy, old(pm.fifoQ), old(pm.meta)) + [f]
    {
      ghost var meta0 := pm.meta;
      ghost var pg := PageOf(dirs, seg, d, p);
      metrics := metrics.(faults := metrics.faults + 1);
      f := pm.AllocateAnyFree();
      ghost var m := meta0;
      if f == -1 {
        f := Evict(now);
        if f == -1 {
          return;
        }
        ghost var o := meta0[f];
        assert !(o.seg == seg && o.dir == d && o.page == p);
        m := pm.meta;
      }
      Bind(seg, d, p, f, now, m);
    }

    /**
     * Binds the unmapped page `(seg, d, p)` and frame `f` to each other at
     * time `now`: the page becomes present with frame `f` and last access
     * `now`, and the pool maps `f` to the page. `m` is the frame metadata in
     * which `f` is still free and the link holds.
     */
    method Bind(seg: int, d: int, p: int, f: int, now: int, ghost m: seq<FrameMeta>)
      requires pm.Valid() && WellShaped(dirs, |segments|, dirSize) && Linked(dirs, m)
      requires Resolves(dirs, seg, d, p) && !PageOf(dirs, seg, d, p).present
      requires 0 <= f < |m| && m[f].free && |pm.meta| == |m| && pm.meta[f := m[f]] == m
      requires 0 <= now && forall i :: 0 <= i < |m| ==> m[i].lastAccess <= now
      modifies this`dirs, pm
      ensures pm.Valid() && WellShaped(dirs, |segments|, dirSize) && Linked(dirs, pm.meta)
      ensures forall i :: 0 <= i < |pm.meta| ==> pm.meta[i].lastAccess <= now
      ensures dirs == SetPage(old(dirs), seg, d, p, PageOf(old(dirs), seg, d, p).(present := true, frame := f, lastAccess := now))
      ensures PageOf(dirs, seg, d, p).frame == f
      ensures pm.meta == m[f := MappedMeta(seg, d, p, now)] && pm.fifoQ == old(pm.fifoQ) + [f]
    {
      ghost var dirs0 := dirs;
      var cur := PageOf(dirs, seg, d, p);
      LinkedAfterMap(dirs, m, f, seg, d, p, now);
      dirs := SetPage(dirs, seg, d, p, cur.(present := true, frame := f, lastAccess := now));
      SameShapeKeepsWellShaped(dirs0, dirs, |segments|, dirSize);
      pm.Map(f, seg, d, p, now);
      assert pm.meta == m[f := MappedMeta(seg, d, p, now)];
    }

    /** Gives slot `(seg, d)` a new table of `dirSize` pages unless it is present. */
    method EnsureSlot(seg: int, d: int, fill: seq<PageInit>)
      requires 0 <= seg < |dirs| && 0 <= d < |dirs[seg]| && dirSize >= 0 && |fill| == dirSize
      modifies this`dirs
      ensures dirs == Materialize(old(dirs), seg, d, dirSize, pageSize, fill)
    {
      var de := dirs[seg][d];
      if !de.present {
        dirs := dirs[seg := dirs[seg][d := DirEntry(true, Some(NewPageTable(dirSize, pageSize, fill)))]];
      } else {
        assert dirs[seg][d := de] == dirs[seg];
        assert dirs[seg := dirs[seg]] == dirs;
      }
    }

    /**
     * A hit on page `(seg, d, p)` at the current clock: the page's last
     * access and, when its frame is used, the frame's last access move to
     * the clock (a page present without a frame touches nothing).
     */
    method Hit(seg: int, d: int, p: int)
      requires Valid() && Resolves(dirs, seg, d, p)
      modifies this`dirs, pm
      ensures Valid()
      ensures dirs == SetPage(old(dirs), seg, d, p, PageOf(old(dirs), seg, d, p).(lastAccess := time))
      ensures pm.meta == Touched(old(pm.meta), PageOf(old(dirs), seg, d, p).frame, time)
      ensures pm.fifoQ == old(pm.fifoQ)
    {
      ghost var dirs0 := dirs;
      var pg := PageOf(dirs, seg, d, p);
      LinkedAfterTouch(dirs, pm.meta, seg, d, p, time);
      pm.Touch(pg.frame, time);
      dirs := SetPage(dirs, seg, d, p, pg.(lastAccess := time));
      SameShapeKeepsWellShaped(dirs0, dirs, |segments|, dirSize);
    }

    /**
     * What step 8 of a translation promises (with the address), from
     * directory matrix `md` (the one whose slot is already ensured), frame
     * metadata `m0`, FIFO queue `q0` and counters `c0`, at the current
     * clock: a hit, a fault served from the lowest free frame, a fault
     * served by the policy's victim, or "No victim available".
     */
    ghost predicate ServeResult(md: seq<seq<DirEntry>>, m0: seq<FrameMeta>, q0: seq<int>, c0: Metrics,
                                seg: int, pageNum: int, offset: int, latency: int,
                                physical: int, outcome: Outcome)
      requires 0 <= seg < |segments| && dirSize > 0 && QueueInRange(q0, |m0|)
      reads this, pm
    {
      var d, p := pageNum / dirSize, pageNum % dirSize;
      var pg := PageOf(md, seg, d, p);
      && (outcome == Translated || outcome == NoVictim)
      && ((outcome == Translated) == (physical != -1))
      && (outcome == Translated ==> physical == PhysicalAddress(segments[seg], pageNum, pageSize, offset))
      // hit: only the page's and its frame's last access move
      && (pg.present ==>
            && outcome == Translated
            && metrics == c0.(translations := c0.translations + 1, totalLatency := c0.totalLatency + latency)
            && dirs == SetPage(md, seg, d, p, pg.(lastAccess := time))
            && pm.meta == Touched(m0, pg.frame, time) && pm.fifoQ == q0)
      // fault with no frame at all: counted, then "No victim available"
      && (!pg.present ==> (outcome == NoVictim <==> pm.numFrames == 0))
      && (outcome == NoVictim ==>
            && metrics == c0.(faults := c0.faults + 1, logs := c0.logs + 1)
            && dirs == md && pm.meta == m0 && pm.fifoQ == q0)
      // fault served from the lowest free frame
      && (!pg.present && HasFree(m0) ==>
            var f := PageOf(dirs, seg, d, p).frame;
            && outcome == Translated
            && IsFirstFree(m0, f)
            && metrics == c0.(faults := c0.faults + 1, translations := c0.translations + 1,
                              totalLatency := c0.totalLatency + latency)
            && dirs == SetPage(md, seg, d, p, pg.(present := true, frame := f, lastAccess := time))
            && pm.meta == m0[f := MappedMeta(seg, d, p, time)]
            && pm.fifoQ == q0 + [f, f])
      // fault served by evicting the policy's victim
      && (!pg.present && !HasFree(m0) && pm.numFrames > 0 ==>
            var f := PageOf(dirs, seg, d, p).frame;
            && 0 <= f < |m0|
            && outcome == Translated
            && IsVictim(pm.policy, q0, m0, f)
            && var o := m0[f];
            && Resolves(md, o.seg, o.dir, o.page) && PageOf(md, o.seg, o.dir, o.page).frame == f
            && metrics == c0.(faults := c0.faults + 1, replacements := c0.replacements + 1,
                              translations := c0.translations + 1, totalLatency := c0.totalLatency + latency)
            && dirs == SetPage(ClearOwner(md, o), seg, d, p, pg.(present := true, frame := f, lastAccess := time))
            && pm.meta == m0[f := MappedMeta(seg, d, p, time)]
            && pm.fifoQ == QueueAfterVictim(pm.policy, q0, m0) + [f])
    }

    /**
     * What steps 5 to 8 of a translation promise, from directory matrix
     * `d0`, frame metadata `m0`, FIFO queue `q0` and counters `c0`: the
     * slot of the page's directory index is ensured; a write to a read-only
     * page of that slot's table fails with nothing else changed; any other
     * access is served as `ServeResult` says.
     */
    ghost predicate AccessResult(d0: seq<seq<DirEntry>>, m0: seq<FrameMeta>, q0: seq<int>, c0: Metrics,
                                 seg: int, pageNum: int, offset: int, acc: Access, latency: int,
                                 fill: seq<PageInit>, physical: int, outcome: Outcome)
      requires Admitted(seg, pageNum, offset, acc) && QueueInRange(q0, |m0|)
      requires dirSize > 0 && |fill| == dirSize
      reads this, pm
    {
      var md := Materialize(d0, seg, pageNum / dirSize, dirSize, pageSize, fill);
      var pg := PageOf(md, seg, pageNum / dirSize, pageNum % dirSize);
      if acc == Write && pg.prot == ReadOnly then
        && outcome == WriteToReadOnlyPage && physical == -1
        && metrics == c0.(protViol := c0.protViol + 1, writesDenied := c0.writesDenied + 1, logs := c0.logs + 1)
        && dirs == md && pm.meta == m0 && pm.fifoQ == q0
      else
        ServeResult(md, m0, q0, c0, seg, pageNum, offset, latency, physical, outcome)
    }

    /**
     * Steps 5 to 7 of a translation whose checks 1 to 4 passed: the index
     * split, the lazy table and page protection; step 8 is `Serve`.
     */
    method AccessPage(seg: int, pageNum: int, offset: int, acc: Access, latency: int, fill: seq<PageInit>)
      returns (physical: int, outcome: Outcome)
      requires Valid() && Admitted(seg, pageNum, offset, acc)
      requires 1 <= latency <= 5 && |fill| == dirSize
      requires 0 < time <= IntMax
      requires forall i :: 0 <= i < |pm.meta| ==> pm.meta[i].lastAccess < time
      modifies this`dirs, this`metrics, pm
      ensures Valid()
      ensures NoCounterDecreased(old(metrics), metrics)
      ensures (outcome == Translated) == (physical != -1)
      ensures outcome == Translated ==>
        && physical == PhysicalAddress(segments[seg], pageNum, pageSize, offset)
        && metrics.translations == old(metrics).translations + 1
        && metrics.totalLatency == old(metrics).totalLatency + latency
        && metrics.logs == old(metrics).logs
      ensures outcome != Translated ==>
        && metrics.translations == old(metrics).translations
        && metrics.totalLatency == old(metrics).totalLatency
        && metrics.logs == old(metrics).logs + 1
      ensures AccessResult(old(dirs), old(pm.meta), old(pm.fifoQ), old(metrics),
                           seg, pageNum, offset, acc, latency, fill, physical, outcome)
    {
      // two-level split
      var entriesPerPT := dirSize;
      var dir := pageNum / entriesPerPT;
      var page := pageNum % entriesPerPT;
      DirIndexInRange(pageNum, dirSize);

      // lazy creation of the second level
      ghost var dirs0, meta0 := dirs, pm.meta;
      EnsureSlot(seg, dir, fill);
      MaterializeKeepsWellShaped(dirs0, |segments|, seg, dir, dirSize, pageSize, fill);
      MaterializedResolves(dirs0, |segments|, seg, dir, page, dirSize, pageSize, fill);
      LinkedAfterMaterialize(dirs0, meta0, seg, dir, dirSize, pageSize, fill);
      var pg := PageOf(dirs, seg, dir, page);

      // page-level protection
      if acc == Write && pg.prot == ReadOnly {
        metrics := metrics.(protViol := metrics.protViol + 1, writesDenied := metrics.writesDenied + 1);
        Log();
        return -1, WriteToReadOnlyPage;
      }
      physical, outcome := Serve(seg, pageNum, offset, acc, latency);
    }

    /**
     * Step 8 of a translation, on the page of an ensured slot: a hit, or a
     * fault that `FaultIn` serves; then the address and the success
     * counters.
     */
    method Serve(seg: int, pageNum: int, offset: int, acc: Access, latency: int)
      returns (physical: int, outcome: Outcome)
      requires Valid() && Admitted(seg, pageNum, offset, acc)
      requires Resolves(dirs, seg, pageNum / dirSize, pageNum % dirSize)
      requires 0 < time <= IntMax
      requires forall i :: 0 <= i < |pm.meta| ==> pm.meta[i].lastAccess < time
      modifies this`dirs, this`metrics, pm
      ensures Valid()
      ensures ServeResult(old(dirs), old(pm.meta), old(pm.fifoQ), old(metrics),
                          seg, pageNum, offset, latency, physical, outcome)
    {
      var dir, page := pageNum / dirSize, pageNum % dirSize;
      var pg := PageOf(dirs, seg, dir, page);
      if !pg.present {
        var f := FaultIn(seg, dir, page, time);
        if f == -1 {
          Log();
          return -1, NoVictim;
        }
      } else {
        Hit(seg, dir, page);
      }
      assert Valid();

      AddressWithinSegment(segments[seg], pageNum, pageSize, offset);
      physical := PhysicalAddress(segments[seg], pageNum, pageSize, offset);
      metrics := metrics.(translations := metrics.translations + 1, totalLatency := metrics.totalLatency + latency);
      outcome := Translated;
    }

    /**
     * One translation. The clock ticks; then the first failing check
     * decides the outcome and bumps its counter; an admitted request
     * materializes its directory slot, checks page protection, and either
     * touches a present page or faults the page in, from a free frame or
     * from an evicted victim. `latency` stands for the simulated delay and
     * `fill` for the draws that initialise a table created by this call.
     */
    method Translate(seg: int, pageNum: int, offset: int, acc: Access, latency: int, fill: seq<PageInit>)
      returns (physical: int, outcome: Outcome)
      requires Valid()
      requires 1 <= latency <= 5
      requires |fill| == dirSize
      requires time < IntMax
      modifies this, pm
      ensures Valid()
      ensures time == old(time) + 1
      ensures NoCounterDecreased(old(metrics), metrics)
      ensures (outcome == Translated) == (physical != -1)
      ensures outcome == Translated ==>
        && Admitted(seg, pageNum, offset, acc)
        && physical == PhysicalAddress(segments[seg], pageNum, pageSize, offset)
        && metrics.translations == old(metrics).translations + 1
        && metrics.totalLatency == old(metrics).totalLatency + latency
        && metrics.logs == old(metrics).logs
      ensures outcome != Translated ==>
        && metrics.translations == old(metrics).translations
        && metrics.totalLatency == old(metrics).totalLatency
        && metrics.logs == old(metrics).logs + 1
      // 1. segment bound
      ensures !(0 <= seg < |segments|) ==>
        && outcome == BadSegment
        && metrics == old(metrics).(segFaults := old(metrics).segFaults + 1, logs := old(metrics).logs + 1)
        && dirs == old(dirs) && pm.meta == old(pm.meta) && pm.fifoQ == old(pm.fifoQ)
      // 2. segment write protection, before the page limit
      ensures 0 <= seg < |segments| && acc == Write && segments[seg].prot == ReadOnly ==>
        && outcome == WriteToReadOnlySegment
        && metrics == old(metrics).(protViol := old(metrics).protViol + 1,
                                    writesDenied := old(metrics).writesDenied + 1,
                                    logs := old(metrics).logs + 1)
        && dirs == old(dirs) && pm.meta == old(pm.meta) && pm.fifoQ == old(pm.fifoQ)
      // 3. page limit
      ensures 0 <= seg < |segments| && !(acc == Write && segments[seg].prot == ReadOnly)
              && !(0 <= pageNum < segments[seg].limitPages) ==>
        && outcome == PageBeyondLimit
        && metrics == old(metrics).(segFaults := old(metrics).segFaults + 1, logs := old(metrics).logs + 1)
        && dirs == old(dirs) && pm.meta == old(pm.meta) && pm.fifoQ == old(pm.fifoQ)
      // 4. offset bound
      ensures 0 <= seg < |segments| && !(acc == Write && segments[seg].prot == ReadOnly)
              && 0 <= pageNum < segments[seg].limitPages && !(0 <= offset < pageSize) ==>
        && outcome == OffsetOutOfRange
        && metrics == old(metrics).(offsetFaults := old(metrics).offsetFaults + 1, logs := old(metrics).logs + 1)
        && dirs == old(dirs) && pm.meta == old(pm.meta) && pm.fifoQ == old(pm.fifoQ)
      // 5.-8. index split, lazy table, page protection, hit or fault
      ensures Admitted(seg, pageNum, offset, acc) ==>
        AccessResult(old(dirs), old(pm.meta), old(pm.fifoQ), old(metrics),
                     seg, pageNum, offset, acc, latency, fill, physical, outcome)
    {
      Tick();

      // segment checks
      if seg < 0 || seg >= |segments| {
        metrics := metrics.(segFaults := metrics.segFaults + 1);
        Log();
        return -1, BadSegment;
      }
      var sg := segments[seg];
      if acc == Write && sg.prot == ReadOnly {
        metrics := metrics.(protViol := metrics.protViol + 1, writesDenied := metrics.writesDenied + 1);
        Log();
        return -1, WriteToReadOnlySegment;
      }
      if pageNum < 0 || pageNum >= sg.limitPages {
        metrics := metrics.(segFaults := metrics.segFaults + 1);
        Log();
        return -1, PageBeyondLimit;
      }
      if offset < 0 || offset >= pageSize {
        metrics := metrics.(offsetFaults := metrics.offsetFaults + 1);
        Log();
        return -1, OffsetOutOfRange;
      }

      physical, outcome := AccessPage(seg, pageNum, offset, acc, latency, fill);
    }
  }
}
