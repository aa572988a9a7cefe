/**
 * The start-up step shared by the in-memory and the paginated local storage engines: once per
 * process it sizes the disk cache, the memory chunk and the write-ahead-log restore batch from
 * the machine's memory. A disk cache or restore batch the user has set is left alone; the memory
 * chunk is lowered to the disk cache whenever that is sized, whether or not the user set it.
 *
 * The readings the step takes from the JVM, the operating system and the memory utilities are
 * an `Environment` value given to it; the configuration is an object whose settings it writes.
 * Whether the configuration's `setValue` also marks a setting as user-set is not visible, so it
 * is a parameter (`marks`) and every property is proved for both answers.
 */
module EnginesInitializer {
  import opened Wrappers
  import opened JavaArith

  /** `OFileUtils.MEGABYTE` and `OFileUtils.GIGABYTE`, which are not part of this model; they are
      taken to be 2^20 and 2^30 bytes. */
  const Megabyte: int := 1024 * 1024
  const Gigabyte: int := 1024 * 1024 * 1024

  /** What the native layer reports about the memory available to the process. */
  datatype MemoryLimitResult = MemoryLimitResult(memoryLimit: Int64, insideContainer: bool)

  /** The readings the initializer takes when it runs. */
  datatype Environment = Environment(
    /** `Runtime.maxMemory()`, used for the restore batch. */
    runtimeMaxMemory: Int64,
    /** What `OMemory.getCappedRuntimeMaxMemory(2 GB)` returns, used for the disk cache. */
    cappedHeap: Int64,
    /** The configured limit of direct memory, -1 when unknown. */
    maxDirectMemory: Int64,
    /** The OS memory limit, `None` when it cannot be determined. */
    osMemory: Option<MemoryLimitResult>)

  /** A global setting's value and whether it counts as set by the user (`isChanged`). */
  datatype Setting = Setting(value: Int64, changed: bool)

  /** The settings the initializer reads and writes. */
  datatype Key = DiskCacheSize | WalRestoreBatchSize | MemoryChunkSize

  datatype Settings = Settings(diskCacheSize: Setting, walRestoreBatchSize: Setting, memoryChunkSize: Setting)

  /** `setValue(v)` on one setting: the new value, and the user-set flag raised when `marks`. */
  function Assign(s: Setting, v: Int64, marks: bool): (r: Setting)
    ensures r.value == v
    ensures r.changed <==> s.changed || marks
  {
    Setting(v, s.changed || marks)
  }

  function Get(s: Settings, key: Key): Setting
  {
    match key
    case DiskCacheSize => s.diskCacheSize
    case WalRestoreBatchSize => s.walRestoreBatchSize
    case MemoryChunkSize => s.memoryChunkSize
  }

  /** The settings after `setValue(v)` on one of them: that one is assigned, the others are as before. */
  function Update(s: Settings, key: Key, v: Int64, marks: bool): (r: Settings)
    ensures Get(r, key) == Assign(Get(s, key), v, marks)
    ensures forall k :: k != key ==> Get(r, k) == Get(s, k)
  {
    match key
    case DiskCacheSize => s.(diskCacheSize := Assign(s.diskCacheSize, v, marks))
    case WalRestoreBatchSize => s.(walRestoreBatchSize := Assign(s.walRestoreBatchSize, v, marks))
    case MemoryChunkSize => s.(memoryChunkSize := Assign(s.memoryChunkSize, v, marks))
  }

  // ---------------------------------------------------------------------------------------------
  // The size rules

  /** The restore batch size for a heap limit: 50000 above 2 GB, 10000 above 512 MB, and no change
      (`None`) otherwise. */
  function WalRestoreBatch(jvmMaxMemory: Int64): (r: Option<Int64>)
    ensures r.Some? <==> jvmMaxMemory > 512 * Megabyte
    ensures r.Some? ==> r.value == (if jvmMaxMemory > 2 * Gigabyte then 50000 else 10000)
  {
    if jvmMaxMemory > 2 * Gigabyte then Some(50000)
    else if jvmMaxMemory > 512 * Megabyte then Some(10000)
    else None
  }

  /** A larger heap never gets a smaller restore batch. */
  lemma WalRestoreBatchMonotone(heap: Int64, heap': Int64)
    requires heap <= heap'
    ensures WalRestoreBatch(heap).Some? ==> WalRestoreBatch(heap').Some?
    ensures WalRestoreBatch(heap).Some? ==> WalRestoreBatch(heap).value <= WalRestoreBatch(heap').value
  {
  }

  /** Two truncating divisions by 1024 truncate like one division by a megabyte. */
  lemma DivideTwice(x: Int64)
    ensures var r := Div(Div(x, 1024), 1024);
            && (x >= 0 ==> 0 <= r && r * Megabyte <= x < r * Megabyte + Megabyte)
            && (x < 0 ==> r <= 0 && r * Megabyte - Megabyte < x <= r * Megabyte)
  {
    var k := Div(x, 1024);
    var r := Div(k, 1024);
    assert r * Megabyte == (r * 1024) * 1024;
    if x >= 0 {
      MulLe(r * 1024, k, 1024);
      MulLe(k, r * 1024 + 1023, 1024);
    } else {
      MulLe(r * 1024 - 1023, k, 1024);
      MulLe(k, r * 1024, 1024);
    }
  }

  /** Bytes to megabytes, as `x / 1024 / 1024` computes it on a `long`: the whole megabytes in `x`,
      rounded toward zero. */
  function ToMegabytes(x: Int64): (r: Int64)
    ensures x >= 0 ==> 0 <= r && r * Megabyte <= x < r * Megabyte + Megabyte
    ensures x < 0 ==> r <= 0 && r * Megabyte - Megabyte < x <= r * Megabyte
  {
    DivideTwice(x);
    Div(Div(x, 1024), 1024)
  }

  /** The disk cache when the direct-memory limit is unknown: the heap in megabytes less 2 MB,
      which Java's own direct buffers use. For a non-negative heap it is the largest whole number
      of megabytes that leaves at least those 2 MB of the heap. */
  function HeapDiskCacheMB(heap: Int64): (r: Int64)
    ensures heap >= 0 ==> -2 <= r && (r + 2) * Megabyte <= heap < (r + 3) * Megabyte
  {
    Sub(ToMegabytes(heap), 2)
  }

  /** The memory kept back from the disk cache, in megabytes: 256 inside a container, 2 GB outside one. */
  function Reserve(os: MemoryLimitResult): int
  {
    if os.insideContainer then 256 else 2 * 1024
  }

  /** The memory left for the disk cache, in megabytes: the OS limit less the heap, in whole
      megabytes, less the reserve. With a heap within the OS limit, the result and the reserve are
      the whole megabytes of the difference; with a heap beyond it, nothing is left. */
  function RawDiskCacheMB(os: MemoryLimitResult, heap: Int64): (r: Int64)
    ensures 0 <= heap <= os.memoryLimit ==>
              (r + Reserve(os)) * Megabyte <= os.memoryLimit - heap < (r + Reserve(os)) * Megabyte + Megabyte
    ensures 0 <= os.memoryLimit < heap ==> r <= -Reserve(os)
  {
    var available := Sub(os.memoryLimit, heap);
    var inMB := Div(available, Megabyte);
    assert 0 <= heap <= os.memoryLimit ==> available == os.memoryLimit - heap;
    assert 0 <= os.memoryLimit < heap ==> available == os.memoryLimit - heap && inMB <= 0;
    var r := Sub(inMB, if os.insideContainer then 256 else 2 * 1024);
    assert r + Reserve(os) == inMB;
    r
  }

  /** The disk cache size in megabytes the initializer sets once the OS memory is known. With a
      known direct-memory limit it never exceeds that limit; a positive amount of memory left is
      used up to that limit, and otherwise the cache falls back to the minimum cache size. */
  function DiskCacheMB(os: MemoryLimitResult, heap: Int64, maxDirectMemory: Int64, minCacheSize: Int64): (r: Int64)
    ensures maxDirectMemory == -1 ==> r == HeapDiskCacheMB(heap)
    ensures maxDirectMemory != -1 ==> r <= ToMegabytes(maxDirectMemory)
    ensures maxDirectMemory != -1 && RawDiskCacheMB(os, heap) > 0 ==>
              r <= RawDiskCacheMB(os, heap) && (r == RawDiskCacheMB(os, heap) || r == ToMegabytes(maxDirectMemory))
    ensures maxDirectMemory != -1 && RawDiskCacheMB(os, heap) <= 0 ==>
              r <= minCacheSize && (r == minCacheSize || r == ToMegabytes(maxDirectMemory))
  {
    if maxDirectMemory == -1 then HeapDiskCacheMB(heap)
    else
      var maxDirectMemoryInMB := ToMegabytes(maxDirectMemory);
      var raw := RawDiskCacheMB(os, heap);
      if raw > 0 then Min(raw, maxDirectMemoryInMB) else Min(minCacheSize, maxDirectMemoryInMB)
  }

  /** In the regime where memory is left over, more OS memory never gives a smaller disk cache. */
  lemma DiskCacheMonotone(os: MemoryLimitResult, os': MemoryLimitResult, heap: Int64,
                          maxDirectMemory: Int64, minCacheSize: Int64)
    requires os.insideContainer == os'.insideContainer
    requires 0 <= heap <= os.memoryLimit <= os'.memoryLimit
    requires maxDirectMemory != -1 && RawDiskCacheMB(os, heap) > 0
    ensures DiskCacheMB(os, heap, maxDirectMemory, minCacheSize) <= DiskCacheMB(os', heap, maxDirectMemory, minCacheSize)
  {
    var reserve := if os.insideContainer then 256 else 2 * 1024;
    var d, d' := Div(os.memoryLimit - heap, Megabyte), Div(os'.memoryLimit - heap, Megabyte);
    DivMonotone(os.memoryLimit - heap, os'.memoryLimit - heap, Megabyte);
    assert RawDiskCacheMB(os, heap) == d - reserve;
    assert RawDiskCacheMB(os', heap) == d' - reserve;
  }

  /** Outside the regime the rule is not monotone: 1 MB left over gives a 1 MB cache, while no
      memory left over gives the fallback, here 256 MB. */
  lemma LowMemoryFallbackExceedsSmallSurplus()
    ensures var heap, direct := Gigabyte, 2 * Gigabyte;
            var tight := MemoryLimitResult(heap + 2048 * Megabyte, false);
            var roomier := MemoryLimitResult(heap + 2049 * Megabyte, false);
            && DiskCacheMB(tight, heap, direct, 256) == 256
            && DiskCacheMB(roomier, heap, direct, 256) == 1
  {
    assert ToMegabytes(2 * Gigabyte) == 2048 by {
      assert Div(2 * Gigabyte, 1024) == 2 * Megabyte;
      assert Div(2 * Megabyte, 1024) == 2048;
    }
    assert Div(2048 * Megabyte, Megabyte) == 2048;
    assert Div(2049 * Megabyte, Megabyte) == 2049;
  }

  /** The memory chunk after the disk cache is set: the cache size in bytes, unless the chunk was
      already smaller; it never grows. */
  function ChunkSize(diskCacheMB: Int64, previous: Int64): (r: Int64)
    ensures r <= previous
    ensures r == previous || r == Mul(Mul(diskCacheMB, 1024), 1024)
    ensures r <= Mul(Mul(diskCacheMB, 1024), 1024)
  {
    Min(Mul(Mul(diskCacheMB, 1024), 1024), previous)
  }

  /** `configureDefaultDiskCacheSize`: nothing changes when the OS memory is unknown; otherwise the
      disk cache is set by `DiskCacheMB` and the chunk lowered to it. */
  function DiskCacheDefaults(s: Settings, env: Environment, minCacheSize: Int64, marks: bool): (r: Settings)
    ensures r.walRestoreBatchSize == s.walRestoreBatchSize
    ensures env.osMemory.None? ==> r == s
    ensures env.osMemory.Some? ==>
              && r.diskCacheSize == Assign(s.diskCacheSize,
                   DiskCacheMB(env.osMemory.value, env.cappedHeap, env.maxDirectMemory, minCacheSize), marks)
              && r.memoryChunkSize == Assign(s.memoryChunkSize,
                   ChunkSize(r.diskCacheSize.value, s.memoryChunkSize.value), marks)
    ensures r.memoryChunkSize.value <= s.memoryChunkSize.value
  {
    match env.osMemory
    case None => s
    case Some(os) =>
      var mb := DiskCacheMB(os, env.cappedHeap, env.maxDirectMemory, minCacheSize);
      Update(Update(s, DiskCacheSize, mb, marks), MemoryChunkSize, ChunkSize(mb, s.memoryChunkSize.value), marks)
  }

  /** `configureDefaultWalRestoreBatchSize`: the batch size `WalRestoreBatch` gives, if it gives one. */
  function WalDefaults(s: Settings, env: Environment, marks: bool): (r: Settings)
    ensures r.diskCacheSize == s.diskCacheSize && r.memoryChunkSize == s.memoryChunkSize
    ensures WalRestoreBatch(env.runtimeMaxMemory).None? ==> r == s
    ensures WalRestoreBatch(env.runtimeMaxMemory).Some? ==>
              r.walRestoreBatchSize == Assign(s.walRestoreBatchSize, WalRestoreBatch(env.runtimeMaxMemory).value, marks)
  {
    match WalRestoreBatch(env.runtimeMaxMemory)
    case None => s
    case Some(v) => Update(s, WalRestoreBatchSize, v, marks)
  }

  /** `configureDefaults`: the disk cache and the batch size get their defaults only when the user
      has not set them, and then the values the rules give. A user-set disk cache keeps the chunk
      as it was too; otherwise the chunk may be lowered even when the user set it. No user-set flag
      is ever cleared. */
  function ConfiguredDefaults(s: Settings, env: Environment, minCacheSize: Int64, marks: bool): (r: Settings)
    ensures s.diskCacheSize.changed ==> r.diskCacheSize == s.diskCacheSize && r.memoryChunkSize == s.memoryChunkSize
    ensures s.walRestoreBatchSize.changed ==> r.walRestoreBatchSize == s.walRestoreBatchSize
    ensures !s.diskCacheSize.changed && env.osMemory.Some? ==>
              r.diskCacheSize.value == DiskCacheMB(env.osMemory.value, env.cappedHeap, env.maxDirectMemory, minCacheSize)
    ensures !s.walRestoreBatchSize.changed && WalRestoreBatch(env.runtimeMaxMemory).Some? ==>
              r.walRestoreBatchSize.value == WalRestoreBatch(env.runtimeMaxMemory).value
    ensures r.memoryChunkSize.value <= s.memoryChunkSize.value
    ensures forall k :: Get(s, k).changed ==> Get(r, k).changed
  {
    var afterCache := if !s.diskCacheSize.changed then DiskCacheDefaults(s, env, minCacheSize, marks) else s;
    if !afterCache.walRestoreBatchSize.changed then WalDefaults(afterCache, env, marks) else afterCache
  }

  /** The chunk is lowered even when the user set it: a user-set 2 GB chunk, with a 1 GB heap and
      an unknown direct-memory limit, becomes the 1022 MB disk cache. */
  lemma ChunkLoweredDespiteUserSetting(marks: bool)
    ensures var s := Settings(Setting(0, false), Setting(0, false), Setting(2 * Gigabyte, true));
            var env := Environment(Gigabyte, Gigabyte, -1, Some(MemoryLimitResult(4 * Gigabyte, false)));
            var r := ConfiguredDefaults(s, env, 256, marks);
            r.memoryChunkSize.changed && r.memoryChunkSize.value == 1022 * Megabyte
  {
    assert ToMegabytes(Gigabyte) == 1024 by {
      assert Div(Gigabyte, 1024) == Megabyte;
      assert Div(Megabyte, 1024) == 1024;
    }
  }

  /** Applying the defaults a second time with the same readings changes nothing more. */
  lemma ConfiguredDefaultsIdempotent(s: Settings, env: Environment, minCacheSize: Int64, marks: bool)
    ensures var once := ConfiguredDefaults(s, env, minCacheSize, marks);
            ConfiguredDefaults(once, env, minCacheSize, marks) == once
  {
    var once := ConfiguredDefaults(s, env, minCacheSize, marks);
    if !s.diskCacheSize.changed && env.osMemory.Some? {
      var mb := DiskCacheMB(env.osMemory.value, env.cappedHeap, env.maxDirectMemory, minCacheSize);
      var c := ChunkSize(mb, s.memoryChunkSize.value);
      assert once.memoryChunkSize.value == c;
      assert ChunkSize(mb, c) == c;
    }
  }

  // ---------------------------------------------------------------------------------------------
  // The configuration and the initializer

  /** The global configuration: the settings' current values and flags. */
  class GlobalConfiguration {
    var diskCacheSize: Setting
    var walRestoreBatchSize: Setting
    var memoryChunkSize: Setting
    /** Whether `setValue` marks the setting it writes as user-set. */
    const marks: bool

    constructor (s: Settings, marks: bool)
      ensures Snapshot() == s && this.marks == marks
    {
      diskCacheSize, walRestoreBatchSize, memoryChunkSize := s.diskCacheSize, s.walRestoreBatchSize, s.memoryChunkSize;
      this.marks := marks;
    }

    function Snapshot(): Settings
      reads this
    {
      Settings(diskCacheSize, walRestoreBatchSize, memoryChunkSize)
    }

    /** `getValueAsLong`. */
    function GetValue(key: Key): (v: Int64)
      reads this
      ensures v == Get(Snapshot(), key).value
    {
      match key
      case DiskCacheSize => diskCacheSize.value
      case WalRestoreBatchSize => walRestoreBatchSize.value
      case MemoryChunkSize => memoryChunkSize.value
    }

    /** `isChanged`. */
    function IsChanged(key: Key): (b: bool)
      reads this
      ensures b == Get(Snapshot(), key).changed
    {
      match key
      case DiskCacheSize => diskCacheSize.changed
      case WalRestoreBatchSize => walRestoreBatchSize.changed
      case MemoryChunkSize => memoryChunkSize.changed
    }

    /** `setValue`. */
    method SetValue(key: Key, v: Int64)
      modifies this
      ensures Snapshot() == Update(old(Snapshot()), key, v, marks)
    {
      match key
      case DiskCacheSize => diskCacheSize := Assign(diskCacheSize, v, marks);
      case WalRestoreBatchSize => walRestoreBatchSize := Assign(walRestoreBatchSize, v, marks);
      case MemoryChunkSize => memoryChunkSize := Assign(memoryChunkSize, v, marks);
    }
  }

  /** The shared initializer and its once-only flag. */
  class OMemoryAndLocalPaginatedEnginesInitializer {
    var initialized: bool
    /** The smallest disk cache, in megabytes, that the cache accepts. */
    const minCacheSize: Int64

    constructor (minCacheSize: Int64)
      ensures !initialized && this.minCacheSize == minCacheSize
    {
      initialized := false;
      this.minCacheSize := minCacheSize;
    }

    /** The first call applies the defaults; every later call changes nothing. */
    method Initialize(config: GlobalConfiguration, env: Environment)
      modifies this, config
      ensures initialized
      ensures old(initialized) ==> config.Snapshot() == old(config.Snapshot())
      ensures !old(initialized) ==>
                config.Snapshot() == ConfiguredDefaults(old(config.Snapshot()), env, minCacheSize, config.marks)
    {
      if initialized {
        return;
      }
      initialized := true;
      ConfigureDefaults(config, env);
    }

    method ConfigureDefaults(config: GlobalConfiguration, env: Environment)
      modifies config
      ensures config.Snapshot() == ConfiguredDefaults(old(config.Snapshot()), env, minCacheSize, config.marks)
    {
      if !config.IsChanged(DiskCacheSize) {
        ConfigureDefaultDiskCacheSize(config, env);
      }
      if !config.IsChanged(WalRestoreBatchSize) {
        ConfigureDefaultWalRestoreBatchSize(config, env);
      }
    }

    method ConfigureDefaultWalRestoreBatchSize(config: GlobalConfiguration, env: Environment)
      modifies config
      ensures config.Snapshot() == WalDefaults(old(config.Snapshot()), env, config.marks)
    {
      var jvmMaxMemory := env.runtimeMaxMemory;
      if jvmMaxMemory > 2 * Gigabyte {
        config.SetValue(WalRestoreBatchSize, 50000);
      } else if jvmMaxMemory > 512 * Megabyte {
        config.SetValue(WalRestoreBatchSize, 10000);
      }
    }

    method ConfigureDefaultDiskCacheSize(config: GlobalConfiguration, env: Environment)
      modifies config
      ensures config.Snapshot() == DiskCacheDefaults(old(config.Snapshot()), env, minCacheSize, config.marks)
    {
      if env.osMemory.None? {
        return;
      }
      var osMemory := env.osMemory.value;
      var jvmMaxMemory := env.cappedHeap;
      var maxDirectMemory := env.maxDirectMemory;
      var diskCacheInMB: Int64;
      if maxDirectMemory == -1 {
        diskCacheInMB := HeapDiskCacheMB(jvmMaxMemory);
      } else {
        var maxDirectMemoryInMB := ToMegabytes(maxDirectMemory);
        diskCacheInMB := RawDiskCacheMB(osMemory, jvmMaxMemory);
        if diskCacheInMB > 0 {
          diskCacheInMB := Min(diskCacheInMB, maxDirectMemoryInMB);
        } else {
          diskCacheInMB := Min(minCacheSize, maxDirectMemoryInMB);
        }
      }
      config.SetValue(DiskCacheSize, diskCacheInMB);
      config.SetValue(MemoryChunkSize, Min(Mul(Mul(diskCacheInMB, 1024), 1024), config.GetValue(MemoryChunkSize)));
    }
  }
}
