/**
 * The frame pool: a fixed number of physical frames, each with its
 * metadata, plus the queue of frame ids that FIFO replacement rotates.
 */
module Frames {
  import opened MemoryTypes

  /** Every entry of the queue names one of `n` frames. */
  predicate QueueInRange(q: seq<int>, n: int)
  {
    forall k :: 0 <= k < |q| ==> 0 <= q[k] < n
  }

  /** Moving the head to the tail keeps the queue in range. */
  lemma QueueInRangeRotate(q: seq<int>, n: int)
    requires QueueInRange(q, n) && q != []
    ensures QueueInRange(q[1..] + [q[0]], n)
  {
    assert QueueInRange(q[1..], n);
  }

  /** The head of an in-range queue names a frame (so a queue over no frames is empty). */
  lemma QueueHeadInRange(q: seq<int>, n: int)
    requires QueueInRange(q, n)
    ensures q != [] ==> 0 <= q[0] < n
  {
  }

  /** `f` is the lowest-numbered free frame. */
  predicate IsFirstFree(meta: seq<FrameMeta>, f: int)
  {
    0 <= f < |meta| && meta[f].free && forall j :: 0 <= j < f ==> !meta[j].free
  }

  /**
   * The queue once its leading entries that name free frames are popped:
   * a suffix of `q` whose head (if any) is a used frame, and everything
   * popped was free.
   */
  function DropFree(q: seq<int>, meta: seq<FrameMeta>): (r: seq<int>)
    requires QueueInRange(q, |meta|)
    ensures |r| <= |q| && r == q[|q| - |r|..]
    ensures r == [] || !meta[r[0]].free
    ensures forall k :: 0 <= k < |q| - |r| ==> meta[q[k]].free
  {
    if q == [] || !meta[q[0]].free then q else DropFree(q[1..], meta)
  }

  /** Popping free heads never loses a used frame. */
  lemma {:induction false} DropFreeKeepsUsed(q: seq<int>, meta: seq<FrameMeta>, f: int)
    requires QueueInRange(q, |meta|)
    requires f in q && 0 <= f < |meta| && !meta[f].free
    ensures f in DropFree(q, meta)
  {
    if q != [] && meta[q[0]].free {
      assert f != q[0];
      assert f in q[1..];
      DropFreeKeepsUsed(q[1..], meta, f);
    }
  }

  /** Every used frame occurs in `q`. */
  ghost predicate Covers(q: seq<int>, meta: seq<FrameMeta>)
  {
    forall i :: 0 <= i < |meta| && !meta[i].free ==> i in q
  }

  /** Popping a free head keeps every used frame in the queue. */
  lemma PopFreeKeepsCover(q: seq<int>, meta: seq<FrameMeta>)
    requires Covers(q, meta) && q != [] && 0 <= q[0] < |meta| && meta[q[0]].free
    ensures Covers(q[1..], meta)
  {
    forall i | 0 <= i < |meta| && !meta[i].free ensures i in q[1..] {
      assert i in q && i != q[0];
    }
  }

  /** The frame FIFO replacement proposes, or -1. */
  function FifoVictim(q: seq<int>, meta: seq<FrameMeta>): (v: int)
    requires QueueInRange(q, |meta|)
  {
    var r := DropFree(q, meta);
    if r == [] then -1 else r[0]
  }

  /** The queue after FIFO replacement: proposed head moved to the tail. */
  function FifoRotate(q: seq<int>, meta: seq<FrameMeta>): (rot: seq<int>)
    requires QueueInRange(q, |meta|)
  {
    var r := DropFree(q, meta);
    if r == [] then [] else r[1..] + [r[0]]
  }

  /**
   * FIFO proposes -1 exactly when no entry of the queue names a used frame;
   * otherwise it proposes a used frame and the rotation keeps the length of
   * what is left after popping.
   */
  lemma {:induction false} FifoVictimSpec(q: seq<int>, meta: seq<FrameMeta>)
    requires QueueInRange(q, |meta|)
    ensures FifoVictim(q, meta) == -1 <==> forall k :: 0 <= k < |q| ==> meta[q[k]].free
    ensures FifoVictim(q, meta) != -1 ==> FifoVictim(q, meta) in q && !meta[FifoVictim(q, meta)].free
    ensures |FifoRotate(q, meta)| == |DropFree(q, meta)|
    ensures multiset(FifoRotate(q, meta)) == multiset(DropFree(q, meta))
  {
    var r := DropFree(q, meta);
    if r != [] {
      assert r[0] == q[|q| - |r|];
      assert r == [r[0]] + r[1..];
    }
  }

  /**
   * When the queue holds every used frame, FIFO finds no victim exactly when
   * every frame is free, and its rotation still holds every used frame.
   */
  lemma FifoVictimCovered(q: seq<int>, meta: seq<FrameMeta>)
    requires QueueInRange(q, |meta|) && Covers(q, meta)
    ensures FifoVictim(q, meta) == -1 <==> forall i :: 0 <= i < |meta| ==> meta[i].free
    ensures Covers(FifoRotate(q, meta), meta)
  {
    var r := DropFree(q, meta);
    forall i | 0 <= i < |meta| && !meta[i].free ensures i in r {
      DropFreeKeepsUsed(q, meta, i);
    }
    if r != [] {
      var rot := r[1..] + [r[0]];
      assert rot == FifoRotate(q, meta);
      forall i | 0 <= i < |meta| && !meta[i].free ensures i in rot {
        assert i in r;
        if i != r[0] {
          assert i in r[1..];
        }
      }
    }
  }

  /**
   * `v` is what the LRU scan returns: the used frame with the least
   * last-access time below `IntMax`, the lowest index among equals; -1 when
   * no used frame has a last-access time below `IntMax`.
   */
  predicate IsLruPick(meta: seq<FrameMeta>, v: int)
  {
    if v == -1 then
      forall i :: 0 <= i < |meta| && !meta[i].free ==> meta[i].lastAccess >= IntMax
    else
      && 0 <= v < |meta| && !meta[v].free && meta[v].lastAccess < IntMax
      && (forall i :: 0 <= i < |meta| && !meta[i].free ==> meta[v].lastAccess <= meta[i].lastAccess)
      && (forall i :: 0 <= i < v && !meta[i].free ==> meta[v].lastAccess < meta[i].lastAccess)
  }

  /** The LRU choice is determined by the frame metadata. */
  lemma LruPickUnique(meta: seq<FrameMeta>, a: int, b: int)
    requires IsLruPick(meta, a) && IsLruPick(meta, b)
    ensures a == b
  {
    if a != -1 && b != -1 {
      assert !(a < b) && !(b < a);
    }
  }

  /**
   * A used frame touched later than another used frame is never the LRU
   * choice.
   */
  lemma LruSparesRecentFrame(meta: seq<FrameMeta>, v: int, older: int, newer: int)
    requires IsLruPick(meta, v)
    requires 0 <= older < |meta| && 0 <= newer < |meta|
    requires !meta[older].free && !meta[newer].free
    requires meta[older].lastAccess < meta[newer].lastAccess
    ensures v != newer
  {
  }

  /**
   * A used frame last touched before `IntMax` guarantees a victim: FIFO
   * finds one because not every frame is free, and the LRU scan finds one
   * because that frame's time beats the sentinel.
   */
  lemma UsedFrameYieldsVictim(meta: seq<FrameMeta>, policy: Policy, v: int, i: int)
    requires 0 <= i < |meta| && !meta[i].free && meta[i].lastAccess < IntMax
    requires policy == FIFO ==> (v == -1 <==> forall j :: 0 <= j < |meta| ==> meta[j].free)
    requires policy == LRU ==> IsLruPick(meta, v)
    ensures v != -1
  {
  }

  /**
   * When every frame was last touched before `IntMax` (as the engine's
   * clock guarantees), the LRU scan finds no frame exactly when every frame
   * is free.
   */
  lemma LruNoVictimIffAllFree(meta: seq<FrameMeta>, v: int)
    requires IsLruPick(meta, v)
    requires forall i :: 0 <= i < |meta| ==> meta[i].lastAccess < IntMax
    ensures v == -1 <==> forall i :: 0 <= i < |meta| ==> meta[i].free
  {
  }

  /** `v` is the frame the policy proposes for eviction. */
  predicate IsVictim(policy: Policy, q: seq<int>, meta: seq<FrameMeta>, v: int)
    requires QueueInRange(q, |meta|)
  {
    if policy == FIFO then v == FifoVictim(q, meta) else IsLruPick(meta, v)
  }

  /** The queue after a victim is chosen: FIFO rotates it, LRU leaves it. */
  function QueueAfterVictim(policy: Policy, q: seq<int>, meta: seq<FrameMeta>): (r: seq<int>)
    requires QueueInRange(q, |meta|)
  {
    if policy == FIFO then FifoRotate(q, meta) else q
  }

  /** Frame metadata after `touch(f, now)`: only a used frame's last access moves. */
  function Touched(meta: seq<FrameMeta>, f: int, now: int): (r: seq<FrameMeta>)
  {
    if 0 <= f < |meta| && !meta[f].free then meta[f := meta[f].(lastAccess := now)] else meta
  }

  /** Frame metadata after `free_frame(f)`: an in-range frame is reset. */
  function Freed(meta: seq<FrameMeta>, f: int): (r: seq<FrameMeta>)
  {
    if 0 <= f < |meta| then meta[f := FreeMeta] else meta
  }

  /** `touch` changes at most the `lastAccess` of one used frame. */
  lemma TouchedChangesOnlyLastAccess(meta: seq<FrameMeta>, f: int, now: int)
    ensures |Touched(meta, f, now)| == |meta|
    ensures forall i :: 0 <= i < |meta| ==>
      Touched(meta, f, now)[i] == if i == f && !meta[f].free then meta[i].(lastAccess := now) else meta[i]
  {
  }

  /** `free_frame` is idempotent. */
  lemma FreedIdempotent(meta: seq<FrameMeta>, f: int)
    ensures Freed(Freed(meta, f), f) == Freed(meta, f)
  {
  }

  /** Number of used frames. */
  function CountUsed(meta: seq<FrameMeta>): (n: nat)
  {
    if meta == [] then 0
    else CountUsed(meta[..|meta| - 1]) + (if meta[|meta| - 1].free then 0 else 1)
  }

  /** Number of free frames. */
  function CountFree(meta: seq<FrameMeta>): (n: nat)
  {
    if meta == [] then 0
    else CountFree(meta[..|meta| - 1]) + (if meta[|meta| - 1].free then 1 else 0)
  }

  /** Free frames plus used frames make up the whole pool. */
  lemma {:induction false} UsedPlusFreeIsCapacity(meta: seq<FrameMeta>)
    ensures CountUsed(meta) + CountFree(meta) == |meta|
  {
    if meta != [] {
      UsedPlusFreeIsCapacity(meta[..|meta| - 1]);
    }
  }

  /** No frame is used exactly when every frame is free. */
  lemma {:induction false} NoneUsedIffAllFree(meta: seq<FrameMeta>)
    ensures CountUsed(meta) == 0 <==> forall i :: 0 <= i < |meta| ==> meta[i].free
  {
    if meta != [] {
      var init := meta[..|meta| - 1];
      NoneUsedIffAllFree(init);
      assert forall i :: 0 <= i < |init| ==> init[i] == meta[i];
    }
  }

  class PhysicalMemory {
    const numFrames: nat
    const policy: Policy
    var meta: seq<FrameMeta>
    var fifoQ: seq<int>

    /**
     * The pool invariant: one metadata record per frame, queue entries name
     * frames, every used frame is somewhere in the queue, and a free frame
     * carries no owner.
     */
    ghost predicate Valid()
      reads this
    {
      && |meta| == numFrames
      && QueueInRange(fifoQ, numFrames)
      && Covers(fifoQ, meta)
      && (forall i :: 0 <= i < |meta| && meta[i].free ==> meta[i] == FreeMeta)
    }

    constructor (n: nat, p: Policy)
      ensures Valid() && numFrames == n && policy == p
      ensures meta == seq(n, _ => FreeMeta) && fifoQ == []
    {
      numFrames, policy := n, p;
      meta := seq(n, _ => FreeMeta);
      fifoQ := [];
    }

    /** `f` is an in-range used frame. */
    predicate ValidFrame(f: int)
      reads this
    {
      0 <= f < |meta| && !meta[f].free
    }

    /**
     * Takes the lowest-numbered free frame: marks it used (owner not yet
     * recorded) and appends it to the queue; -1 and no change when none is
     * free.
     */
    method AllocateAnyFree() returns (f: int)
      requires Valid()
      modifies this
      ensures Valid()
      ensures f == -1 <==> forall i :: 0 <= i < |old(meta)| ==> !old(meta)[i].free
      ensures f == -1 ==> meta == old(meta) && fifoQ == old(fifoQ)
      ensures f != -1 ==> IsFirstFree(old(meta), f)
      ensures f != -1 ==> meta == old(meta)[f := old(meta)[f].(free := false)]
      ensures f != -1 ==> fifoQ == old(fifoQ) + [f]
    {
      var i := 0;
      while i < numFrames
        invariant 0 <= i <= numFrames
        invariant forall j :: 0 <= j < i ==> !meta[j].free
        invariant meta == old(meta) && fifoQ == old(fifoQ)
      {
        if meta[i].free {
          meta := meta[i := meta[i].(free := false)];
          fifoQ := fifoQ + [i];
          return i;
        }
        i := i + 1;
      }
      return -1;
    }

    /**
     * The frame to evict. FIFO pops leading queue entries that name free
     * frames, then moves the head to the tail and returns it. LRU scans for
     * the least recently used frame. -1 when there is none.
     */
    method ChooseVictim(now: int) returns (v: int)
      requires Valid()
      modifies this
      ensures Valid() && meta == old(meta)
      ensures -1 <= v < numFrames
      ensures v != -1 ==> !meta[v].free
      ensures policy == FIFO ==> v == FifoVictim(old(fifoQ), meta)
      ensures policy == FIFO ==> fifoQ == FifoRotate(old(fifoQ), meta)
      ensures policy == FIFO ==> (v == -1 <==> forall i :: 0 <= i < |meta| ==> meta[i].free)
      ensures policy == LRU ==> IsLruPick(meta, v) && fifoQ == old(fifoQ)
    {
      if policy == FIFO {
        PopFreeHeads();
        FifoVictimCovered(old(fifoQ), meta);
        if fifoQ == [] {
          return -1;
        }
        v := fifoQ[0];
        QueueInRangeRotate(fifoQ, numFrames);
        fifoQ := fifoQ[1..] + [v];
      } else {
        v := LeastRecentlyUsed();
      }
    }

    /** Pops leading queue entries that name free frames. */
    method PopFreeHeads()
      requires Valid()
      modifies this`fifoQ
      ensures Valid() && fifoQ == DropFree(old(fifoQ), meta)
    {
      while fifoQ != [] && meta[fifoQ[0]].free
        invariant Valid()
        invariant DropFree(fifoQ, meta) == DropFree(old(fifoQ), meta)
        decreases |fifoQ|
      {
        PopFreeKeepsCover(fifoQ, meta);
        fifoQ := fifoQ[1..];
      }
    }

    /**
     * The LRU scan: the used frame with the least last-access time, the
     * lowest index winning ties because the comparison is strict.
     */
    method LeastRecentlyUsed() returns (best: int)
      requires |meta| == numFrames
      ensures IsLruPick(meta, best)
    {
      best := -1;
      var ts := IntMax;
      for i := 0 to numFrames
        invariant best == -1 ==> ts == IntMax
        invariant best != -1 ==> 0 <= best < i && !meta[best].free && ts == meta[best].lastAccess && ts < IntMax
        invariant forall j :: 0 <= j < i && !meta[j].free ==> ts <= meta[j].lastAccess
        invariant best != -1 ==> forall j :: 0 <= j < best && !meta[j].free ==> ts < meta[j].lastAccess
      {
        if !meta[i].free && meta[i].lastAccess < ts {
          ts := meta[i].lastAccess;
          best := i;
        }
      }
    }

    /** Gives `frame` to page `(seg, dir, page)` at time `now` and appends it to the queue. */
    method Map(frame: int, seg: int, dir: int, page: int, now: int)
      requires Valid() && 0 <= frame < numFrames
      modifies this
      ensures Valid()
      ensures meta == old(meta)[frame := MappedMeta(seg, dir, page, now)]
      ensures fifoQ == old(fifoQ) + [frame]
    {
      meta := meta[frame := MappedMeta(seg, dir, page, now)];
      fifoQ := fifoQ + [frame];
    }

    /** Records an access to a used frame; anything else is a no-op. */
    method Touch(frame: int, now: int)
      requires Valid()
      modifies this
      ensures Valid() && fifoQ == old(fifoQ)
      ensures meta == Touched(old(meta), frame, now)
    {
      if ValidFrame(frame) {
        meta := meta[frame := meta[frame].(lastAccess := now)];
      }
    }

    /** Resets an in-range frame to the free state; other ids are ignored. */
    method FreeFrame(frame: int)
      requires Valid()
      modifies this
      ensures Valid() && fifoQ == old(fifoQ)
      ensures meta == Freed(old(meta), frame)
    {
      if 0 <= frame < numFrames {
        meta := meta[frame := FreeMeta];
      }
    }

    /** The number of used frames (the integer part of `utilization`). */
    method UsedFrames() returns (used: nat)
      requires Valid()
      ensures used == CountUsed(meta)
    {
      used := 0;
      for i := 0 to numFrames
        invariant used == CountUsed(meta[..i])
      {
        assert meta[..i + 1][..i] == meta[..i];
        if !meta[i].free {
          used := used + 1;
        }
      }
      assert meta[..numFrames] == meta;
    }
  }

  /** A two-frame FIFO pool after pages 0 and 1 of one table have faulted in. */
  method TwoFramesLoaded() returns (pm: PhysicalMemory)
    ensures fresh(pm) && pm.Valid() && pm.policy == FIFO && pm.numFrames == 2
    ensures pm.meta == [MappedMeta(0, 0, 0, 1), MappedMeta(0, 0, 1, 2)]
    ensures pm.fifoQ == [0, 0, 1, 1]
  {
    pm := new PhysicalMemory(2, FIFO);
    assert pm.meta[0].free;
    var a := pm.AllocateAnyFree();
    assert a == 0;
    pm.Map(a, 0, 0, 0, 1);
    assert pm.meta == [MappedMeta(0, 0, 0, 1), FreeMeta];
    assert pm.meta[1].free && !pm.meta[0].free;
    var b := pm.AllocateAnyFree();
    assert b == 1;
    pm.Map(b, 0, 0, 1, 2);
  }

  /**
   * Two frames under FIFO: because `allocate_any_free` and `map` both push,
   * the frame just reloaded after an eviction is proposed again next time,
   * not the frame loaded before it.
   */
  method FifoReproposesReloadedFrame() returns (first: int, second: int)
    ensures first == 0 && second == 0
  {
    var pm := TwoFramesLoaded();
    assert DropFree(pm.fifoQ, pm.meta) == pm.fifoQ;
    first := pm.ChooseVictim(3);
    assert first == 0;
    pm.FreeFrame(first);
    pm.Map(first, 0, 0, 2, 3);
    assert pm.fifoQ == [0, 1, 1, 0, 0];
    assert pm.meta == [MappedMeta(0, 0, 2, 3), MappedMeta(0, 0, 1, 2)];
    assert DropFree(pm.fifoQ, pm.meta) == pm.fifoQ;
    second := pm.ChooseVictim(4);
  }
}
