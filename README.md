# Segmented-and-paged memory simulator: the translation engine

This project models the translation engine of a simulated two-level
segmented-and-paged memory manager (`memory_simulator.cpp`) and proves
properties of it. It has three parts:

- **The frame pool** (`physical_memory.dfy`, module `Frames`). The class
  `PhysicalMemory` has a fixed number of frames. Each has a `FrameMeta`
  record: a free flag, the owning (segment, directory, page) triple, and the
  load and last-access times. The pool also keeps the FIFO queue of frame
  ids.
  - It allocates the lowest free frame.
  - It proposes a victim by FIFO or by LRU.
  - It maps, touches and frees frames.
  - The C++ `vector` and `queue` become `seq` fields that the methods
    reassign.
- **Second-level page tables and directory slots** (`page_tables.dfy`,
  module `PageTables`). A slot creates its table on first use and only once.
  - Each `unique_ptr<PageTable>` is exclusively owned, so tables are values
    inside the engine's directory matrix `dirs[segment][directory]`.
  - A write through a `Page&` becomes `SetPage` on that matrix.
- **The segment table and `translate`** (`segment_table.dfy`, module
  `Translation`). The class `SegmentTable` holds:
  - the segment descriptors, with base `1000 + 5000 * s`;
  - the directory matrix, the counters and the logical clock;
  - a reference to the pool.

  `Translate` is the ordered chain of checks, and each check bumps its own
  counter:
  1. segment bound;
  2. segment write protection;
  3. page limit;
  4. offset bound;
  5. then, for an admitted request: the index split, lazy table creation,
     page write protection, a hit or a fault (free frame, or an evicted
     victim whose owner is unlinked), and finally the physical address.

`ownership.dfy` (module `Ownership`) states the two-way link between pages
and frames:
- a page with a frame owns a used frame;
- a used frame's owner triple names a page whose frame is that frame.

It proves that every step of a translation keeps this link. The link is
part of the engine invariant `SegmentTable.Valid`, which also holds:
- the pool invariant, including "every used frame is somewhere in the FIFO
  queue";
- the shape of the directory matrix;
- no frame time ahead of the clock.

The constructor establishes `Valid`. `Translate`, `Tick`, `AccessPage`,
`Serve` and `Hit` keep it. The internal steps (`EnsureSlot`, `Evict`,
`FaultIn`, `Bind`, `OwningClear`, `Log`) state how they change the parts
they touch, and their callers re-establish `Valid`. `Translate` states its
whole effect: the outcome, the address, every counter, and the new page,
frame and queue state, separately for each path.

## Quirks the model keeps

- **Duplicate queue entries.** Both `allocate_any_free` and `map` push the
  frame, so a frame faulted in from the free list is queued twice.
  `FifoReproposesReloadedFrame` shows the effect: FIFO may propose the frame
  it just reloaded rather than an older one.
- **Present pages without a frame.** A new table takes each page's presence
  and protection from an input (`fill`, in place of `rand()`), and every
  page starts with frame -1 (lines 112-113), so a page can be present with
  no frame. `translate` treats such a page as a hit (lines 185-186), and
  `touch(-1, …)` does nothing because `valid(-1)` is false (lines 79, 91).
  The model does the same: `Hit` touches no frame and counts no fault.
- **Fault counted before failure.** A fault is counted before the
  "No victim available" failure. Under the engine invariant, that failure
  happens exactly when the pool has no frames.
- **Square layout.** The constructor requires every segment limit to be at
  most `dirSize * dirSize`. Above that bound, the directory index of an
  admitted page number would fall outside its segment's row.

## Model

| member | source | states |
|---|---|---|
| Frames.PhysicalMemory.constructor | memory_simulator.cpp:47-49 | the pool has `n` free, default-initialised frames, an empty queue, and its invariant holds |
| Frames.PhysicalMemory.AllocateAnyFree | memory_simulator.cpp:51-55 | returns the lowest-indexed free frame, marks it used and appends it to the queue; returns -1 and changes nothing exactly when no frame is free |
| Frames.PhysicalMemory.ChooseVictim | memory_simulator.cpp:58-70 | FIFO: the head left after popping free entries, rotated to the tail, and -1 exactly when every frame is free; LRU: the scan's pick with the queue unchanged; frame metadata never changes |
| Frames.PhysicalMemory.PopFreeHeads | memory_simulator.cpp:60 | the loop leaves exactly the queue with its free heads dropped, and keeps the pool invariant |
| Frames.PhysicalMemory.LeastRecentlyUsed | memory_simulator.cpp:64-68 | the used frame with least last access, the lowest index among ties; -1 when no used frame is below the `INT_MAX` sentinel |
| Frames.PhysicalMemory.Map | memory_simulator.cpp:72-77 | the frame becomes used, owned by the triple, with load and access time `now`, and is appended to the queue |
| Frames.PhysicalMemory.Touch | memory_simulator.cpp:79 | only an in-range used frame's last access changes (the guard `ValidFrame` is `valid`, line 91); otherwise nothing changes |
| Frames.PhysicalMemory.FreeFrame | memory_simulator.cpp:80 | an in-range frame is reset to the default record; out-of-range ids are ignored |
| Frames.PhysicalMemory.UsedFrames | memory_simulator.cpp:82-85 | counts the used frames (the numerator of `utilization`) |
| Frames.QueueInRangeRotate | memory_simulator.cpp:62 | moving the head to the tail keeps every queue entry a frame id |
| Frames.QueueHeadInRange | memory_simulator.cpp:61 | the head of a non-empty queue is a frame id, so the queue of a pool with no frames is empty |
| Frames.DropFree | memory_simulator.cpp:60 | popping free heads leaves a suffix of the queue whose head is used, and every entry popped was free |
| Frames.DropFreeKeepsUsed | memory_simulator.cpp:60 | popping free heads never removes a used frame |
| Frames.PopFreeKeepsCover | memory_simulator.cpp:60 | popping a free head keeps every used frame in the queue |
| Frames.FifoVictimSpec | memory_simulator.cpp:58-63 | FIFO proposes -1 exactly when every queued frame is free; otherwise a used, queued frame; the rotation keeps the remaining entries as a multiset |
| Frames.FifoVictimCovered | memory_simulator.cpp:58-63 | when every used frame is queued, FIFO finds no victim exactly when all frames are free, and the rotated queue still holds every used frame |
| Frames.LruPickUnique | memory_simulator.cpp:64-68 | the LRU choice is determined by the frame metadata |
| Frames.LruSparesRecentFrame | memory_simulator.cpp:64-68 | a used frame touched after another used frame is never the LRU victim |
| Frames.LruNoVictimIffAllFree | memory_simulator.cpp:64-68 | with every time below the sentinel, LRU finds no frame exactly when every frame is free |
| Frames.UsedFrameYieldsVictim | memory_simulator.cpp:58-68 | a used frame with a time below the sentinel guarantees a victim under either policy |
| Frames.TouchedChangesOnlyLastAccess | memory_simulator.cpp:79 | touching changes at most the last access of one used frame |
| Frames.FreedIdempotent | memory_simulator.cpp:80 | freeing a frame twice is freeing it once |
| Frames.UsedPlusFreeIsCapacity | memory_simulator.cpp:82-85 | used frames plus free frames make up the whole pool |
| Frames.NoneUsedIffAllFree | memory_simulator.cpp:82-85 | no frame is used exactly when every frame is free |
| Frames.TwoFramesLoaded | memory_simulator.cpp:53-76 | after two faults served from free frames, each of the two frames is queued twice |
| Frames.FifoReproposesReloadedFrame | memory_simulator.cpp:58-77 | under FIFO with two frames, the frame just evicted and reloaded is proposed again, not the older one |
| PageTables.NewPageTable | memory_simulator.cpp:100-116 | a new table has `n` pages, each unmapped with last access 0, taking presence and protection from the draws |
| PageTables.Ensure | memory_simulator.cpp:166 | afterwards the slot is present; a present slot is untouched; an absent slot gets a new table |
| PageTables.EnsureIdempotent | memory_simulator.cpp:166 | a slot's table is created at most once |
| PageTables.SetPage | memory_simulator.cpp:183-186 | writing one page keeps the shape and every other page |
| PageTables.Materialize | memory_simulator.cpp:165-166 | lazy creation keeps every existing page and adds only unmapped pages of the one slot |
| PageTables.MaterializeKeepsWellShaped | memory_simulator.cpp:165-166 | lazy creation keeps every present slot owning a table of `dirSize` pages |
| PageTables.MaterializedResolves | memory_simulator.cpp:160-167 | after lazy creation, the page of an in-range split exists |
| Ownership.LinkedInitially | memory_simulator.cpp:135-145 | with no tables and no used frames, the link holds |
| Ownership.ExclusiveOwnership | memory_simulator.cpp:183-184 | under the link, no two pages hold the same frame |
| Ownership.LinkedAfterMaterialize | memory_simulator.cpp:165-166 | lazy table creation keeps the link |
| Ownership.LinkedAfterTouch | memory_simulator.cpp:185-186 | a hit keeps the link |
| Ownership.LinkedAfterEvict | memory_simulator.cpp:177-180 | a victim's owner names a page mapped to it, and unlinking it and freeing the frame keep the link |
| Ownership.LinkedAfterMap | memory_simulator.cpp:183-184 | binding a free frame to an unmapped page keeps the link |
| Translation.AddressWithinSegment | memory_simulator.cpp:189 | a translated address lies within the segment's window of `limitPages` pages |
| Translation.AddressInjective | memory_simulator.cpp:189 | within one segment, distinct (page, offset) pairs get distinct addresses |
| Translation.AdjacentSegmentsOverlap | memory_simulator.cpp:140 | with segment bases 5000 apart, when segment 0's window is longer than 5000 bytes some admitted (page, offset) of it translates to the base of segment 1, for any page size |
| Translation.DirIndexInRange | memory_simulator.cpp:160-162 | under the square layout, both indices of the split are below `dirSize` |
| Translation.SegmentTable.constructor | memory_simulator.cpp:135-145 | segment `s` has base `1000 + 5000 * s` and the given limit and protection; every slot is absent; counters and clock start at zero; the engine invariant holds |
| Translation.SegmentTable.Tick | memory_simulator.cpp:149 | the clock advances by one and is then ahead of every frame time |
| Translation.SegmentTable.Log | memory_simulator.cpp:234 | only the `logs` counter grows, by one |
| Translation.SegmentTable.OwningClear | memory_simulator.cpp:222-232 | reports whether the owner triple names a page, and clears that page's presence and frame when it does |
| Translation.SegmentTable.Evict | memory_simulator.cpp:177-181 | the policy's victim is returned, its owner's page is unlinked, the frame freed and a replacement counted; -1 with nothing changed exactly when the pool has no frames |
| Translation.SegmentTable.FaultIn | memory_simulator.cpp:173-184 | counts the fault; serves it from the lowest free frame (queued twice) or from the evicted victim (queued once more); the page ends present with that frame and time `now`, owned by the page; with no frames, nothing but the fault count changes |
| Translation.SegmentTable.Bind | memory_simulator.cpp:183-184 | the page becomes present with the frame and time `now`, the frame is mapped to the page, and the link is re-established |
| Translation.SegmentTable.EnsureSlot | memory_simulator.cpp:165-166 | the directory matrix becomes its lazily materialised form |
| Translation.SegmentTable.Hit | memory_simulator.cpp:185-186 | only the page's and its frame's last access move to the clock; the queue is unchanged |
| Translation.SegmentTable.AccessPage | memory_simulator.cpp:159-170 | a write to a read-only page fails after the slot is materialised, changing no page or frame; otherwise the page is served as in `Serve` |
| Translation.SegmentTable.Serve | memory_simulator.cpp:172-191 | a hit, a fault from a free frame, a fault by eviction, or "No victim available" exactly when the pool has no frames; success returns the address and counts the translation and latency |
| Translation.SegmentTable.Translate | memory_simulator.cpp:148-192 | the clock ticks once; the first failing check decides the outcome, with its own counters and nothing else changed; success returns `base + pageNum * pageSize + offset` and counts the translation and latency; failures always log; no counter decreases; the engine invariant, including the two-way link, holds afterwards |

## Left out

- `main`, command-line parsing, `parsePolicy`, `usage` and the interactive, batch and stress drivers (lines 244-343): argument and console plumbing around the engine.
- `printMemoryMap` (lines 194-216) and the file write in `log`: output only. `Log` keeps the `logs` counter.
- `utilization`: a floating-point percentage. `UsedFrames` computes its integer numerator.
- `rand()`, with its seed: the segment limits and protections, each new table's page presence and protection (`fill`), and the latency are inputs.
- Translation.SegmentTable.Translate: takes `latency` as an input in 1..5 instead of drawing it and writing it back through a reference; the caller already holds the value.
- Translation.SegmentTable.Translate: requires the clock to be below `INT_MAX`. Incrementing a signed `int` past it is undefined in C++.
- C++ integer widths: `int` and `long` are unbounded here. The address and the counters are not truncated.
- `info`, `frames`, `metrics` and `pageSize`: these accessors are field reads in the model.
- Translation.SegmentTable.constructor: requires a pool whose frames are all free, because the two-way link cannot be established over frames some other table already owns. It also requires the square layout (limit at most `dirSize * dirSize`) and `dirSize > 0`, because otherwise the source indexes outside a row or divides by zero.
- Translation.SegmentTable.Evict: the path where `owning_clear` returns false, so the victim is reused without being freed, is proved unreachable under the link invariant. It is therefore not modelled as a state change.
- The `pageSize` a table records is carried but never read, as in the source.
