/**
 * Value types shared by the frame pool, the page tables and the
 * translation engine of the segmented-and-paged memory simulator.
 */
module MemoryTypes {

  datatype Protection = ReadOnly | ReadWrite

  datatype Access = Read | Write

  /** Replacement policy of the frame pool. */
  datatype Policy = FIFO | LRU

  datatype Option<T> = None | Some(value: T)

  /** Largest value of a signed 32-bit `int`; the LRU scan starts from it. */
  const IntMax: int := 0x7fff_ffff

  /** One page's translation state; `frame == -1` means "not mapped". */
  datatype Page = Page(frame: int, present: bool, prot: Protection, lastAccess: int)

  /** A value-initialised `Page`. */
  const DefaultPage := Page(-1, false, ReadWrite, 0)

  /** A segment descriptor: physical base, page-count limit, protection. */
  datatype Segment = Segment(base: int, limitPages: int, prot: Protection)

  /**
   * Metadata of one physical frame: its free flag, the (segment, directory,
   * page) triple that owns it, and its load and last-access times.
   */
  datatype FrameMeta = FrameMeta(free: bool, seg: int, dir: int, page: int,
                                 loadedTime: int, lastAccess: int)

  /** A value-initialised `FrameMeta`: free, no owner, times zero. */
  const FreeMeta := FrameMeta(true, -1, -1, -1, 0, 0)

  /** The state of a frame that `map` has given to page `(seg, dir, page)` at time `now`. */
  function MappedMeta(seg: int, dir: int, page: int, now: int): (m: FrameMeta)
  {
    FrameMeta(false, seg, dir, page, now, now)
  }

  /** The engine's counters. */
  datatype Metrics = Metrics(translations: int, faults: int, replacements: int,
                             protViol: int, segFaults: int, offsetFaults: int,
                             writesDenied: int, logs: int, totalLatency: int)

  const ZeroMetrics := Metrics(0, 0, 0, 0, 0, 0, 0, 0, 0)

  /** No counter of `m1` is below the same counter of `m0`. */
  predicate NoCounterDecreased(m0: Metrics, m1: Metrics)
  {
    && m0.translations <= m1.translations && m0.faults <= m1.faults
    && m0.replacements <= m1.replacements && m0.protViol <= m1.protViol
    && m0.segFaults <= m1.segFaults && m0.offsetFaults <= m1.offsetFaults
    && m0.writesDenied <= m1.writesDenied && m0.logs <= m1.logs
    && m0.totalLatency <= m1.totalLatency
  }
}
