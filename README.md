# OrientDB direct-memory pool, SQL integer literals and engine auto-sizing, in Dafny

This project models three sequential pieces of OrientDB's core and proves properties about them.

- **`ByteBufferPool`** models `OByteBufferPool`, which hands out fixed-size pages of native memory.
  - Released pages go into a FIFO queue of at most `poolSize` pages for reuse. A page released while the queue is full goes back to the allocator.
  - A counter caches the queue length.
  - An identity-keyed map records, for every buffer handed out, the page behind it.
  - The only visible state of the allocator is two ghost sets: the pages it has issued and the pages it has freed.
  - The pool's invariant `Valid()` says:
    - the counter equals the queue length, and the queue respects the bound;
    - no page is queued twice, and no page is behind two buffers;
    - every page the pool ever obtained is queued, outstanding or handed back, and in exactly one of these.

  `Conservation` turns that invariant into a counting identity.
- **`SqlInteger`** models the SQL parser's `OInteger` node.
  - **Radix detection.** `0x`/`0X` means hexadecimal and a leading `0` means octal. One leading `-` is ignored while detecting.
  - **Conversion.** The hexadecimal prefix is stripped and an `L`/`l` suffix is removed.
  - **Parsing.** `Long.parseLong` is specified against the mathematical value of a digit string. Multiplying by the sign wraps at 64 bits.
  - **Result type.** The result is narrowed to an `Integer` when it fits in 32 bits and there was no suffix. Otherwise it stays a `Long`.

  The main theorem, `ParseWellFormed`, says exactly when every well-formed hexadecimal, octal or decimal literal parses, to what value, and as which box. Round-trip lemmas parse the decimal text of any value back. The node class covers `setValue`, `copy`, `equals`, `hashCode` and `toString`.
- **`EnginesInitializer`** models `OMemoryAndLocalPaginatedEnginesInitializer`. It runs once and sizes three global settings:
  - the WAL restore batch;
  - the disk cache;
  - the memory chunk.

  The size rules are pure functions of the environment's readings, using Java `long` arithmetic from `JavaArith`. Whether the configuration's `setValue` also marks a setting as user-set cannot be seen, so it is the configuration's `marks` parameter, and every property below holds for both answers. The initializer and the configuration are classes whose methods store those functions' results. Their contracts say:
  - a second `initialize` changes nothing;
  - a disk cache or restore batch size the user has set is never overwritten, but the memory chunk is lowered to the disk cache even when the user set it (`ChunkLoweredDespiteUserSetting`);
  - the disk cache never exceeds the direct-memory limit when that limit is known;
  - the chunk size never grows;
  - applying the defaults twice is the same as applying them once.

  Two lemmas show how the disk cache rule behaves as OS memory grows. It is monotone while memory is left over. `LowMemoryFallbackExceedsSmallSurplus` shows that across the boundary it is not.

`Wrappers` holds `Option` and `Result`. `JavaArith` holds Java's 32- and 64-bit integer ranges and several operations on `long`: multiplication and subtraction that wrap, division that truncates toward zero, and `Math.min`.

The environment readings are the inputs `Environment` gathers: `Runtime.maxMemory()`, the value `OMemory.getCappedRuntimeMaxMemory(2 GB)` returns, the configured direct-memory limit and the OS memory limit with its container flag. `O2QCache.MIN_CACHE_SIZE` is a constructor parameter of the initializer. Whether tracking mode is on is a constructor parameter of the pool.

## Model

| member | source | states |
|---|---|---|
| ByteBufferPool.OByteBufferPool.constructor | core/src/main/java/com/orientechnologies/common/directmemory/OByteBufferPool.java:121-125 | The pool takes the page size, allocator and bound it is given; it starts with an empty queue and map, and satisfies its invariant. |
| ByteBufferPool.OByteBufferPool.AcquireDirect | core/src/main/java/com/orientechnologies/common/directmemory/OByteBufferPool.java:136-156 | If a page is queued, the head page is reused, the queue loses its head and the counter drops by one. Otherwise one fresh page of `pageSize` is allocated and the queue and counter are unchanged. A cleared page is all zeros, and an uncleared reused page keeps its bytes. The buffer is fresh, at position 0, and added to the map with its page. The invariant is kept. |
| ByteBufferPool.OByteBufferPool.Release | core/src/main/java/com/orientechnologies/common/directmemory/OByteBufferPool.java:165-180 | A buffer not in the map is refused with an error and nothing changes, so a double release fails. Otherwise exactly that entry is removed. Below the bound, the page is appended to the queue and the counter rises by one. At the bound, the page is freed and the queue and counter stay as they were. The invariant is kept. |
| ByteBufferPool.OByteBufferPool.GetPoolSize | core/src/main/java/com/orientechnologies/common/directmemory/OByteBufferPool.java:186-188 | The counter equals the queue length and lies between 0 and the bound. |
| ByteBufferPool.OByteBufferPool.Conservation | core/src/main/java/com/orientechnologies/common/directmemory/OByteBufferPool.java:90-100 | The pages the pool has obtained number exactly: queued pages, plus outstanding buffers, plus pages handed back to the allocator. |
| ByteBufferPool.OByteBufferPool.CheckMemoryLeaks | core/src/main/java/com/orientechnologies/common/directmemory/OByteBufferPool.java:193-205 | With tracking on it reports exactly the outstanding buffers, and the leak flag is raised exactly when one is outstanding. With tracking off it reports nothing. |
| ByteBufferPool.OByteBufferPool.Clear | core/src/main/java/com/orientechnologies/common/directmemory/OByteBufferPool.java:210-232 | Every queued page and every outstanding page is freed. Afterwards the queue and map are empty, the counter is 0, and every page obtained has been handed back. The warning is issued exactly when tracking is off and buffers were outstanding. |
| ByteBufferPool.OByteBufferPool.DeallocateQueue | core/src/main/java/com/orientechnologies/common/directmemory/OByteBufferPool.java:211-213 | Freeing the queue in order frees exactly its pages. |
| ByteBufferPool.OByteBufferPool.DeallocateSet | core/src/main/java/com/orientechnologies/common/directmemory/OByteBufferPool.java:227-229 | Freeing the pages behind the outstanding buffers frees exactly those pages. |
| ByteBufferPool.Pointer.Clear | core/src/main/java/com/orientechnologies/common/directmemory/OByteBufferPool.java:147-149 | A cleared page holds `size` zero bytes. |
| ByteBufferPool.DirectMemoryAllocator.Allocate | core/src/main/java/com/orientechnologies/common/directmemory/OByteBufferPool.java:144 | The allocator hands out a fresh page of the requested size and records it as issued. |
| ByteBufferPool.DirectMemoryAllocator.Deallocate | core/src/main/java/com/orientechnologies/common/directmemory/OByteBufferPool.java:175 | An issued page that is not yet freed is freed. |
| ByteBufferPool.BoundOfOne | core/src/main/java/com/orientechnologies/common/directmemory/OByteBufferPool.java:165-188 | In a pool bounded at one page, two buffers are acquired and released. The pool then holds one page, and releasing the second buffer again fails. |
| SqlInteger.Radix | core/src/main/java/com/orientechnologies/orient/core/sql/parser/OInteger.java:50-61 | The radix is always 8, 10 or 16. |
| SqlInteger.RadixOfWellFormed | core/src/main/java/com/orientechnologies/orient/core/sql/parser/OInteger.java:50-61 | Radix detection on a well-formed literal, with or without `-`, recovers the literal's own radix. The one exception is `0L`, which is read in radix 8. |
| SqlInteger.ConvertToJavaByRadix | core/src/main/java/com/orientechnologies/orient/core/sql/parser/OInteger.java:39-48 | Octal and decimal text is unchanged. Hexadecimal text has a `0x`/`0X` prefix after its optional `-`, and only that prefix is dropped. The last character, where a suffix stands, is kept. |
| SqlInteger.ParseInteger | core/src/main/java/com/orientechnologies/orient/core/sql/parser/OInteger.java:23-37 | A successful parse of text with an `L`/`l` suffix gives a `Long`. Without a suffix the result is an `Integer` exactly when the value fits in 32 bits. A success needs the converted text, without its suffix and its sign, to be at least one digit, all of them digits of the detected radix. |
| SqlInteger.ParseWellFormed | core/src/main/java/com/orientechnologies/orient/core/sql/parser/OInteger.java:23-61 | A well-formed literal parses exactly when its signed value fits in a `long`. The value is then the sign times that value, wrapped to 64 bits. It is a `Long` exactly when the literal has a suffix or the product does not fit in an `int`. |
| SqlInteger.LiteralValue | core/src/main/java/com/orientechnologies/orient/core/sql/parser/OInteger.java:23-37 | A well-formed literal whose digits are worth `v <= Long.MAX_VALUE` always parses. Its value is the wrapped signed product, and its box is decided as above. |
| SqlInteger.TextRoundTrip | core/src/main/java/com/orientechnologies/orient/core/sql/parser/OInteger.java:27-36 | The decimal text of any stored number parses back, with sign 1, to the same value. A `Long` comes back as an `Integer` when it fits. |
| SqlInteger.NegatedTextRoundTrip | core/src/main/java/com/orientechnologies/orient/core/sql/parser/OInteger.java:29-36 | With sign -1, the decimal text of a non-negative `long` parses to its negation, narrowed the same way. |
| SqlInteger.DecimalParse | core/src/main/java/com/orientechnologies/orient/core/sql/parser/OInteger.java:29-36 | The decimal text of any `long`, with any sign, parses to the narrowed product wrapped to 64 bits. |
| SqlInteger.IntBoundaryExample | core/src/main/java/com/orientechnologies/orient/core/sql/parser/OInteger.java:30-35 | `2147483648` parses to a `Long`; the same text with sign -1 parses to the `Integer` -2147483648. |
| SqlInteger.OctalWithDecimalDigit | core/src/main/java/com/orientechnologies/orient/core/sql/parser/OInteger.java:57-58 | `08` is detected as octal and fails to parse. |
| SqlInteger.HexPrefixAlone | core/src/main/java/com/orientechnologies/orient/core/sql/parser/OInteger.java:54-58 | `0x` alone is detected as octal and fails to parse. |
| SqlInteger.OctalExample | core/src/main/java/com/orientechnologies/orient/core/sql/parser/OInteger.java:57-58 | `010` parses to the `Integer` 8. |
| SqlInteger.NegatedHexExample | core/src/main/java/com/orientechnologies/orient/core/sql/parser/OInteger.java:39-46 | `-0X1f` with sign -1 parses to the `Integer` 31. |
| SqlInteger.TrailingLetterRejected | core/src/main/java/com/orientechnologies/orient/core/sql/parser/OInteger.java:28-30 | `1a` is decimal, and its second character is not a decimal digit, so the parse fails. |
| SqlInteger.SuffixExample | core/src/main/java/com/orientechnologies/orient/core/sql/parser/OInteger.java:27-28 | `5L` parses to the `Long` 5, not an `Integer`. |
| SqlInteger.OInteger.SetValue | core/src/main/java/com/orientechnologies/orient/core/sql/parser/OInteger.java:23-37 | On success the node stores the parsed number. On a format error the error is returned and the old value is kept. |
| SqlInteger.OInteger.SetNumber | core/src/main/java/com/orientechnologies/orient/core/sql/parser/OInteger.java:63-65 | The node stores the given number, or null. |
| SqlInteger.OInteger.ToString | core/src/main/java/com/orientechnologies/orient/core/sql/parser/OInteger.java:67-69 | The builder is kept as a prefix. With no value, `null` is appended. Otherwise the appended text parses back, with sign 1, to the stored value, narrowed to an `Integer` when it fits. |
| SqlInteger.OInteger.Copy | core/src/main/java/com/orientechnologies/orient/core/sql/parser/OInteger.java:71-75 | The copy is a new node with the same value, and it equals the original both ways. |
| SqlInteger.ParseLong | core/src/main/java/com/orientechnologies/orient/core/sql/parser/OInteger.java:28-30 | `Long.parseLong` fails on empty text and on text starting with a character that is neither a sign nor a digit of the radix. Digits alone give their value when it fits in a `long`, and a `-` and digits give the negated value when it fits. A negative result always comes from text starting with `-`. Conversely, a success needs the text, without one leading sign, to be at least one digit, all of them digits of the radix, so a non-digit anywhere fails. |
| SqlInteger.OInteger.Equals | core/src/main/java/com/orientechnologies/orient/core/sql/parser/OInteger.java:77-90 | Two nodes are equal exactly when they hold equal values (null equal to null, `Integer` 5 not equal to `Long` 5), and equal nodes hash alike. |
| SqlInteger.OInteger.HashCode | core/src/main/java/com/orientechnologies/orient/core/sql/parser/OInteger.java:92-95 | A node without a value hashes to 0, and a value in `0..Integer.MAX_VALUE` hashes to itself, whether boxed as `Integer` or `Long`. |
| SqlInteger.NumberHash | core/src/main/java/com/orientechnologies/orient/core/sql/parser/OInteger.java:94 | Null hashes to 0 and an `Integer` to itself. A `Long` in the `int` range hashes to itself when non-negative and to `-1 - l` when negative, so `Long` -1 and `Integer` -1 hash differently. |
| SqlInteger.LongHash | core/src/main/java/com/orientechnologies/orient/core/sql/parser/OInteger.java:94 | `Long.hashCode`, the exclusive or of the two 32-bit halves: a non-negative `long` in the `int` range hashes to itself, a negative one to its complement `-1 - l`. |
| SqlInteger.EqualsIsEquivalence | core/src/main/java/com/orientechnologies/orient/core/sql/parser/OInteger.java:77-95 | `equals` is reflexive, symmetric and transitive, and equal nodes have equal `hashCode`. |
| EnginesInitializer.WalRestoreBatch | core/src/main/java/com/orientechnologies/orient/core/engine/OMemoryAndLocalPaginatedEnginesInitializer.java:69-77 | A batch size is set exactly when the heap exceeds 512 MB. It is 50000 above 2 GB and 10000 otherwise. |
| EnginesInitializer.WalRestoreBatchMonotone | core/src/main/java/com/orientechnologies/orient/core/engine/OMemoryAndLocalPaginatedEnginesInitializer.java:69-77 | A larger heap never gets a smaller restore batch, or none where a smaller heap got one. |
| EnginesInitializer.ToMegabytes | core/src/main/java/com/orientechnologies/orient/core/engine/OMemoryAndLocalPaginatedEnginesInitializer.java:103 | `x / 1024 / 1024` on a `long` is the whole number of megabytes in `x`, rounded toward zero: for `x >= 0`, `r` MB fit in `x` and `r + 1` MB do not; negative `x` is symmetric. |
| EnginesInitializer.HeapDiskCacheMB | core/src/main/java/com/orientechnologies/orient/core/engine/OMemoryAndLocalPaginatedEnginesInitializer.java:89-91 | With the direct-memory limit unknown, the disk cache of a non-negative heap is the largest whole number of megabytes that still leaves 2 MB of the heap to Java. |
| EnginesInitializer.RawDiskCacheMB | core/src/main/java/com/orientechnologies/orient/core/engine/OMemoryAndLocalPaginatedEnginesInitializer.java:105-112 | With a heap within the OS limit, the result plus the reserve (256 MB in a container, 2048 MB outside) is the whole number of megabytes between heap and limit. With a heap beyond the limit, the result is at most minus the reserve. |
| EnginesInitializer.DiskCacheMB | core/src/main/java/com/orientechnologies/orient/core/engine/OMemoryAndLocalPaginatedEnginesInitializer.java:86-132 | With the direct-memory limit unknown, the cache is the heap in MB less 2. Otherwise it never exceeds the limit in MB. A positive remainder (OS limit less heap, less 256 MB in a container or 2 GB outside one) is used up to that limit. A non-positive remainder falls back to the minimum cache size, up to that limit. |
| EnginesInitializer.DiskCacheMonotone | core/src/main/java/com/orientechnologies/orient/core/engine/OMemoryAndLocalPaginatedEnginesInitializer.java:106-122 | While memory is left over and the direct limit is known, more OS memory never gives a smaller disk cache. |
| EnginesInitializer.LowMemoryFallbackExceedsSmallSurplus | core/src/main/java/com/orientechnologies/orient/core/engine/OMemoryAndLocalPaginatedEnginesInitializer.java:114-125 | Across the low-memory boundary the rule is not monotone. A 1 MB surplus gives a 1 MB cache, but no surplus gives the 256 MB fallback. |
| EnginesInitializer.ChunkSize | core/src/main/java/com/orientechnologies/orient/core/engine/OMemoryAndLocalPaginatedEnginesInitializer.java:98-99 | The new chunk size never exceeds the old one or the disk cache in bytes, and it is one of the two. |
| EnginesInitializer.DiskCacheDefaults | core/src/main/java/com/orientechnologies/orient/core/engine/OMemoryAndLocalPaginatedEnginesInitializer.java:79-137 | With OS memory unknown nothing changes. Otherwise the disk cache gets `DiskCacheMB` and the chunk is lowered to it. The batch size is untouched and the chunk never grows. |
| EnginesInitializer.WalDefaults | core/src/main/java/com/orientechnologies/orient/core/engine/OMemoryAndLocalPaginatedEnginesInitializer.java:69-77 | When `WalRestoreBatch` gives no value, nothing changes. Otherwise the batch size is assigned that value as `setValue` does. The disk cache and chunk are untouched either way. |
| EnginesInitializer.ConfiguredDefaults | core/src/main/java/com/orientechnologies/orient/core/engine/OMemoryAndLocalPaginatedEnginesInitializer.java:61-67 | A user-set disk cache keeps the disk cache and the chunk as they were, and a user-set batch size is kept. A disk cache the user has not set takes `DiskCacheMB` when the OS memory is known, and an unset batch size takes `WalRestoreBatch` when it gives a value. The chunk never grows, and no user-set flag is cleared. |
| EnginesInitializer.ChunkLoweredDespiteUserSetting | core/src/main/java/com/orientechnologies/orient/core/engine/OMemoryAndLocalPaginatedEnginesInitializer.java:89-99 | A user-set 2 GB chunk, with a 1 GB heap and an unknown direct-memory limit, is lowered to the 1022 MB disk cache and stays marked user-set, whatever `setValue` does to the flag. |
| EnginesInitializer.ConfiguredDefaultsIdempotent | core/src/main/java/com/orientechnologies/orient/core/engine/OMemoryAndLocalPaginatedEnginesInitializer.java:61-137 | Applying the defaults a second time with the same readings changes nothing, whether or not `setValue` marks settings as user-set. |
| EnginesInitializer.GlobalConfiguration.SetValue | core/src/main/java/com/orientechnologies/orient/core/engine/OMemoryAndLocalPaginatedEnginesInitializer.java:73-76 | `setValue` gives the named setting its new value and leaves the other settings alone. Its effect on the user-set flag is the configuration's `marks` parameter. |
| EnginesInitializer.OMemoryAndLocalPaginatedEnginesInitializer.Initialize | core/src/main/java/com/orientechnologies/orient/core/engine/OMemoryAndLocalPaginatedEnginesInitializer.java:47-59 | Afterwards the engine is initialized. The first call applies `ConfiguredDefaults` to the configuration, and every later call leaves it unchanged. |
| EnginesInitializer.OMemoryAndLocalPaginatedEnginesInitializer.ConfigureDefaults | core/src/main/java/com/orientechnologies/orient/core/engine/OMemoryAndLocalPaginatedEnginesInitializer.java:61-67 | The configuration ends as `ConfiguredDefaults` of what it was. |
| EnginesInitializer.OMemoryAndLocalPaginatedEnginesInitializer.ConfigureDefaultWalRestoreBatchSize | core/src/main/java/com/orientechnologies/orient/core/engine/OMemoryAndLocalPaginatedEnginesInitializer.java:69-77 | The configuration ends as `WalDefaults` of what it was. |
| EnginesInitializer.OMemoryAndLocalPaginatedEnginesInitializer.ConfigureDefaultDiskCacheSize | core/src/main/java/com/orientechnologies/orient/core/engine/OMemoryAndLocalPaginatedEnginesInitializer.java:79-137 | The configuration ends as `DiskCacheDefaults` of what it was. |

## Left out

- Concurrency in the pool: the concurrent queue, map and atomic counter, and the race between `release`'s increment and decrement. The model runs on one thread.
- `OByteBufferPool.instance`: its compare-and-set singleton is concurrency. It makes the page size the configured kilobytes times 1024, and the model's constructor takes that page size as given.
- The pool's constructor without an allocator argument: it reads the process-wide allocator and the configured bound, and the injected constructor covers the same state.
- Allocator internals: which memory the allocator uses, its `OutOfMemoryError`, and page contents other than the zero-fill promised by `clear` are not modelled. `ODirectMemoryAllocator` and `OPointer` are not part of this model.
- `ByteBuffer` behaviour beyond its identity, its page and its position is not modelled.
- Diagnostics: log messages, allocation stack traces, and the Java `assert` in `checkMemoryLeaks` are not modelled. `detected` and `warned` result flags stand for them.
- `Long.parseLong` accepts only ASCII digits and letters here. Java also accepts the other Unicode digits that `Character.digit` recognises.
- `OGlobalConfiguration` is not part of this model. Whether `setValue` marks a setting as user-set cannot be seen, so it is the `marks` parameter of `GlobalConfiguration`, and the properties are proved for both values.
- `OMemory.checkDirectMemoryConfiguration`, `checkByteBufferPoolConfiguration`, `checkCacheMemoryConfiguration` and `fixCommonConfigurationProblems` are not part of this model. They are no-ops here.
- `ONative.getMemoryLimit`, `Runtime.maxMemory`, `OMemory.getCappedRuntimeMaxMemory` and `OMemory.getConfiguredMaxDirectMemory` are inputs in `Environment`.
- `O2QCache.MIN_CACHE_SIZE` is not visible. It is the initializer's `minCacheSize` parameter, and `LowMemoryFallbackExceedsSmallSurplus` takes it as 256.
- The initializer's log and warning messages are not modelled.
- `OFileUtils` is not part of this model. Its `MEGABYTE` and `GIGABYTE` constants are taken to be 2^20 and 2^30 bytes (`Megabyte`, `Gigabyte`).
- The JavaCC constructors of `OInteger` and its `ONumber` base class are parser plumbing and are not modelled.
- `OInteger.getValue` is the field itself.
- OInteger.SetNumber: the stored value is limited to an `Integer` or a `Long`. Java's `setValue(Number)` accepts any `Number` subclass, and `equals` and `hashCode` then follow that class; the model has only the two boxes the parser produces.
- `equals` with an object that is not an `OInteger` is not modelled. The model compares two nodes (or a node and null).
- LongHash: its value is stated only for `long`s in the `int` range; outside that range only the `int` range of the hash is proved.
- OByteBufferPool.Release: the counter is an unbounded integer. In the source, `pointersPoolSize` is an `AtomicInteger`; with counter and bound both at `Integer.MAX_VALUE`, the increment at line 172 wraps to `Integer.MIN_VALUE`, the test at line 173 fails, and the source queues the page and leaves a negative counter, where the model frees the page. The bound itself is an `int`.
- OByteBufferPool.AcquireDirect: every acquisition returns a fresh `Buffer` object. Whether `OPointer.getNativeByteBuffer()` returns a new object on each call is not visible. If it returned the same object for a page, a stale `release` of a buffer whose page has since been re-acquired would succeed in the source, but it fails in the model.
- `OCacheEntry`, `OrientEdgeIterator`, `ODatabaseRecordInternal` and the restore test are interfaces, adapters and a multithreaded integration test; they are context only.
