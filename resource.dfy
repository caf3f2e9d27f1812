/** Resource presets and the memory budget check (models/resource_config.py).
    The machine's total and free memory and the process's resident set size
    are inputs: the first two as megabytes, the last as a `RssProbe`. The
    preset arithmetic is done on reals; `int(x)` truncates toward zero. */
module Resource {
  import opened Strings

  /** A `ResourceConfig`: memory limit in MB and CPU limit in percent (`None`
      is unlimited), the delay between blocks in milliseconds and the depth of
      the block ring buffer. The source sets these once, in the constructor. */
  datatype ResourceConfig = ResourceConfig(
    maxMemoryMb: Option<int>,
    cpuLimit: Option<int>,
    blockDelayMs: int,
    bufferSize: int)

  /** The constructor's defaults: no limits, no delay, a buffer of three. */
  function DefaultConfig(): (c: ResourceConfig)
    ensures c.maxMemoryMb.None? && c.cpuLimit.None?
    ensures c.blockDelayMs == 0 && c.bufferSize == 3
  {
    ResourceConfig(None, None, 0, 3)
  }

  /** Python's `int(x)` on a float: truncation toward zero. */
  function Trunc(x: real): (n: int)
    ensures x >= 0.0 ==> n as real <= x < n as real + 1.0
    ensures x < 0.0 ==> n as real - 1.0 < x <= n as real
  {
    if x >= 0.0 then x.Floor else -((-x).Floor)
  }

  lemma TruncMonotone(x: real, y: real)
    requires x <= y
    ensures Trunc(x) <= Trunc(y)
  {
  }

  function Min(a: int, b: int): int {
    if a <= b then a else b
  }

  function Max(a: int, b: int): int {
    if a >= b then a else b
  }

  // ---------------------------------------------------------------------------
  // Presets

  /** The shape shared by the three presets: the share of total memory aimed
      at, the free-memory level (as a share of total) below which free memory
      also limits, the share of free memory then allowed, the cap as a share
      of total, and the floor in MB. */
  datatype Shape = Shape(share: real, lowFree: real, freeShare: real, cap: real, floor: int)

  const PerformanceShape: Shape := Shape(0.75, 0.20, 0.90, 0.80, 1024)
  const BalancedShape: Shape := Shape(0.50, 0.15, 0.80, 0.60, 512)
  const LowShape: Shape := Shape(0.25, 0.10, 0.70, 0.30, 256)

  /** The memory budget of a preset: `int(total * share)`, lowered to
      `int(free * freeShare)` when free memory is below `lowFree` of total,
      then kept between the floor and `int(total * cap)`, the floor winning. */
  function PresetMemory(total: real, free: real, s: Shape): (m: int)
    ensures m >= s.floor
    ensures m <= Max(s.floor, Trunc(total * s.cap))
    ensures m <= Max(s.floor, Trunc(total * s.share))
    ensures free < total * s.lowFree ==> m <= Max(s.floor, Trunc(free * s.freeShare))
    ensures (free >= total * s.lowFree && Trunc(total * s.share) <= Trunc(total * s.cap))
            ==> m == Max(s.floor, Trunc(total * s.share))
    ensures free >= total * s.lowFree ==> m >= Min(Trunc(total * s.share), Trunc(total * s.cap))
    ensures free < total * s.lowFree ==>
              m >= Min(Min(Trunc(total * s.share), Trunc(free * s.freeShare)), Trunc(total * s.cap))
  {
    var target := Trunc(total * s.share);
    var limited := if free < total * s.lowFree then Min(target, Trunc(free * s.freeShare)) else target;
    Max(s.floor, Min(limited, Trunc(total * s.cap)))
  }

  /** `max(lo, min(hi, int(memory / per)))`. */
  function BufferDepth(memory: int, per: real, lo: int, hi: int): (b: int)
    requires per > 0.0 && lo <= hi
    ensures lo <= b <= hi
    ensures lo <= Trunc(memory as real / per) <= hi ==> b == Trunc(memory as real / per)
    ensures Trunc(memory as real / per) <= lo ==> b == lo
    ensures Trunc(memory as real / per) >= hi ==> b == hi
  {
    Max(lo, Min(hi, Trunc(memory as real / per)))
  }

  /** `create_performance_mode`: at least 1 GB, no CPU limit, no delay, and a
      buffer of 5 to 50 blocks, one per 100 MB. */
  function PerformanceMode(total: real, free: real): (c: ResourceConfig)
    ensures c.maxMemoryMb.Some? && c.maxMemoryMb.value >= 1024
    ensures c.cpuLimit.None? && c.blockDelayMs == 0
    ensures 5 <= c.bufferSize <= 50
    ensures c.maxMemoryMb == Some(PresetMemory(total, free, PerformanceShape))
    ensures c.bufferSize == BufferDepth(c.maxMemoryMb.value, 100.0, 5, 50)
  {
    var m := PresetMemory(total, free, PerformanceShape);
    ResourceConfig(Some(m), None, 0, BufferDepth(m, 100.0, 5, 50))
  }

  /** `create_balanced_mode`: at least 512 MB, an 80% CPU limit, no delay, and
      a buffer of 3 to 30 blocks, one per 150 MB. */
  function BalancedMode(total: real, free: real): (c: ResourceConfig)
    ensures c.maxMemoryMb.Some? && c.maxMemoryMb.value >= 512
    ensures c.cpuLimit == Some(80) && c.blockDelayMs == 0
    ensures 3 <= c.bufferSize <= 30
    ensures c.maxMemoryMb == Some(PresetMemory(total, free, BalancedShape))
    ensures c.bufferSize == BufferDepth(c.maxMemoryMb.value, 150.0, 3, 30)
  {
    var m := PresetMemory(total, free, BalancedShape);
    ResourceConfig(Some(m), Some(80), 0, BufferDepth(m, 150.0, 3, 30))
  }

  /** `create_low_resource_mode`: at least 256 MB, a 50% CPU limit, a 5 ms
      delay, and a buffer of 2 to 15 blocks, one per 200 MB. */
  function LowResourceMode(total: real, free: real): (c: ResourceConfig)
    ensures c.maxMemoryMb.Some? && c.maxMemoryMb.value >= 256
    ensures c.cpuLimit == Some(50) && c.blockDelayMs == 5
    ensures 2 <= c.bufferSize <= 15
    ensures c.maxMemoryMb == Some(PresetMemory(total, free, LowShape))
    ensures c.bufferSize == BufferDepth(c.maxMemoryMb.value, 200.0, 2, 15)
  {
    var m := PresetMemory(total, free, LowShape);
    ResourceConfig(Some(m), Some(50), 5, BufferDepth(m, 200.0, 2, 15))
  }

  /** With enough free memory the presets are ordered as their names say:
      low never gets more memory or a deeper buffer than balanced, and
      balanced never more than performance. */
  lemma PresetsOrderedWhenFreeAmple(total: real, free: real)
    requires total >= 0.0 && free >= total * 0.20
    ensures LowResourceMode(total, free).maxMemoryMb.value <= BalancedMode(total, free).maxMemoryMb.value
    ensures BalancedMode(total, free).maxMemoryMb.value <= PerformanceMode(total, free).maxMemoryMb.value
    ensures LowResourceMode(total, free).bufferSize <= BalancedMode(total, free).bufferSize
    ensures BalancedMode(total, free).bufferSize <= PerformanceMode(total, free).bufferSize
  {
    var low, bal, perf := AmpleMemory(total, free);
    TruncMonotone(total * 0.25, total * 0.50);
    TruncMonotone(total * 0.50, total * 0.75);
    DeeperBuffer(low, bal, 200.0, 150.0, 2, 15, 3, 30);
    DeeperBuffer(bal, perf, 150.0, 100.0, 3, 30, 5, 50);
  }

  /** With free memory at or above a fifth of the total, every preset's
      budget is its target share, held at its floor. */
  lemma AmpleMemory(total: real, free: real) returns (low: int, bal: int, perf: int)
    requires total >= 0.0 && free >= total * 0.20
    ensures low == PresetMemory(total, free, LowShape) == Max(256, Trunc(total * 0.25))
    ensures bal == PresetMemory(total, free, BalancedShape) == Max(512, Trunc(total * 0.50))
    ensures perf == PresetMemory(total, free, PerformanceShape) == Max(1024, Trunc(total * 0.75))
  {
    TruncMonotone(total * 0.25, total * 0.30);
    TruncMonotone(total * 0.50, total * 0.60);
    TruncMonotone(total * 0.75, total * 0.80);
    low := PresetMemory(total, free, LowShape);
    bal := PresetMemory(total, free, BalancedShape);
    perf := PresetMemory(total, free, PerformanceShape);
  }

  /** More memory, fewer megabytes per block and higher bounds never give a
      shallower buffer. */
  lemma DeeperBuffer(m: int, m': int, per: real, per': real, lo: int, hi: int, lo': int, hi': int)
    requires 0 <= m <= m' && 0.0 < per' <= per && lo <= hi && lo' <= hi' && lo <= lo' && hi <= hi'
    ensures BufferDepth(m, per, lo, hi) <= BufferDepth(m', per', lo', hi')
  {
    assert m as real / per <= m' as real / per;
    assert m' as real / per <= m' as real / per';
    TruncMonotone(m as real / per, m' as real / per');
  }

  /** The thresholds differ per preset, so the order can invert when free
      memory is short: with 100 GB total and 12 GB free, the low-resource
      preset allows 25000 MB while the balanced one allows 9600 MB. */
  lemma LowCanExceedBalanced(total: real, free: real)
    requires total == 100000.0 && free == 12000.0
    ensures LowResourceMode(total, free).maxMemoryMb == Some(25000)
    ensures BalancedMode(total, free).maxMemoryMb == Some(9600)
  {
    assert Trunc(total * 0.25) == 25000;
    assert Trunc(total * 0.30) == 30000;
    assert Trunc(total * 0.50) == 50000;
    assert Trunc(total * 0.60) == 60000;
    assert Trunc(free * 0.80) == 9600;
  }

  // ---------------------------------------------------------------------------
  // Memory measurement

  /** One reading of the process's resident set size: psutil missing, the
      reading raising, or the size in bytes. */
  datatype RssProbe = Unavailable | Fails | Rss(bytes: nat)

  const BytesPerMb: nat := 1024 * 1024

  /** `check_memory_limit`: true without a limit and whenever the size cannot
      be read; otherwise true unless the size, in MB, exceeds the limit. The
      division by `2^20` is exact, so the comparison is made in bytes here;
      `MegabyteComparison` states that it agrees with the one in MB. */
  function CheckMemoryLimit(c: ResourceConfig, probe: RssProbe): (r: bool)
    ensures !r <==> c.maxMemoryMb.Some? && probe.Rss? && MemoryUsageMb(probe) > c.maxMemoryMb.value as real
  {
    if c.maxMemoryMb.None? then true
    else match probe
      case Unavailable => true
      case Fails => true
      case Rss(b) =>
        MegabyteComparison(b, c.maxMemoryMb.value);
        !(b > c.maxMemoryMb.value * BytesPerMb)
  }

  /** Comparing the size in MB with the limit is comparing the size in bytes
      with `limit * 2^20`. */
  lemma MegabyteComparison(bytes: nat, limit: int)
    ensures bytes as real / BytesPerMb as real > limit as real <==> bytes > limit * BytesPerMb
  {
    var mb := bytes as real / BytesPerMb as real;
    assert mb * BytesPerMb as real == bytes as real;
    assert (limit * BytesPerMb) as real == limit as real * BytesPerMb as real;
  }

  /** `should_continue`: the memory check alone decides. */
  function ShouldContinue(c: ResourceConfig, probe: RssProbe): (r: bool)
    ensures !r <==> c.maxMemoryMb.Some? && probe.Rss? && probe.bytes > c.maxMemoryMb.value * BytesPerMb
  {
    CheckMemoryLimit(c, probe)
  }

  /** `get_memory_usage_mb`: the size in MB, or 0.0 when it cannot be read. */
  function MemoryUsageMb(probe: RssProbe): (r: real)
    ensures r >= 0.0
    ensures !probe.Rss? ==> r == 0.0
    ensures probe.Rss? ==> r * BytesPerMb as real == probe.bytes as real
  {
    if probe.Rss? then probe.bytes as real / BytesPerMb as real else 0.0
  }
}
