/**
 * The direct-memory page pool: a factory of fixed-size native pages that keeps released
 * pages in a bounded FIFO queue for reuse, and records which page every handed-out buffer
 * came from. Buffers are told apart by object identity, never by content.
 *
 * One thread runs the pool; the allocator is a foreign component, visible only through
 * the ghost record of what it has allocated and freed.
 */
module ByteBufferPool {
  import opened Wrappers
  import opened JavaArith

  /** Bytes of native memory. */
  type Byte = bv8

  /** A page of `size` zero bytes. */
  function Zeros(size: nat): (z: seq<Byte>)
    ensures |z| == size && forall i :: 0 <= i < size ==> z[i] == 0
  {
    seq(size, _ => 0)
  }

  /** A native memory page handed out by the allocator (an `OPointer`). */
  class Pointer {
    const size: nat
    var contents: seq<Byte>

    /** The allocator's own page set-up; it promises nothing about the bytes. */
    constructor (size: nat)
      ensures this.size == size
    {
      this.size := size;
    }

    /** Fills the page with zeros. */
    method Clear()
      modifies this
      ensures contents == Zeros(size)
    {
      contents := Zeros(size);
    }
  }

  /** The allocator of native memory. Its only observable state is which pages it has handed out and freed. */
  class DirectMemoryAllocator {
    ghost var issued: set<Pointer>
    ghost var freed: set<Pointer>

    constructor ()
      ensures issued == {} && freed == {}
    {
      issued, freed := {}, {};
    }

    /** A fresh page of `size` bytes. */
    method Allocate(size: nat) returns (p: Pointer)
      modifies this
      ensures fresh(p) && p.size == size
      ensures issued == old(issued) + {p} && freed == old(freed)
    {
      p := new Pointer(size);
      issued := issued + {p};
    }

    /** Frees a page; freeing a page twice, or one this allocator never issued, is a fatal usage error. */
    method Deallocate(p: Pointer)
      requires p in issued && p !in freed
      modifies this
      ensures freed == old(freed) + {p} && issued == old(issued)
    {
      freed := freed + {p};
    }
  }

  /** A native byte buffer over a page: a fresh object for every acquisition, so that its identity names the acquisition. */
  class Buffer {
    const page: Pointer
    var position: int

    constructor (page: Pointer)
      ensures this.page == page
    {
      this.page := page;
    }
  }

  /** `release` of a buffer that is not outstanding (never acquired here, or already released). */
  datatype PoolError = BufferNotAcquired(buffer: Buffer)

  /** No element of `s` occurs twice. */
  ghost predicate Distinct<T>(s: seq<T>)
  {
    forall i, j :: 0 <= i < j < |s| ==> s[i] != s[j]
  }

  /** No two keys of `m` map to the same value. */
  ghost predicate Injective<K, V>(m: map<K, V>)
  {
    forall k, k' :: k in m && k' in m && k != k' ==> m[k] != m[k']
  }

  /** A sequence without repetitions has as many distinct elements as entries. */
  lemma {:induction false} DistinctCardinality<T>(s: seq<T>)
    requires Distinct(s)
    ensures |set x | x in s| == |s|
  {
    if s != [] {
      var t := s[1..];
      assert Distinct(t);
      DistinctCardinality(t);
      assert (set x | x in s) == (set x | x in t) + {s[0]};
      assert s[0] !in (set x | x in t);
    }
  }

  /** An injective map has as many distinct values as keys. */
  lemma {:induction false} InjectiveCardinality<K, V>(m: map<K, V>)
    requires Injective(m)
    ensures |m.Values| == |m.Keys|
    decreases |m.Keys|
  {
    if m.Keys != {} {
      var k :| k in m;
      var m' := m - {k};
      assert Injective(m');
      assert m'.Keys == m.Keys - {k};
      InjectiveCardinality(m');
      assert m.Values == m'.Values + {m[k]} by {
        forall v | v in m.Values ensures v in m'.Values + {m[k]} {
          var k' :| k' in m && m[k'] == v;
          if k' != k { assert m'[k'] == v; }
        }
        forall v | v in m'.Values ensures v in m.Values {
          var k' :| k' in m' && m'[k'] == v;
          assert m[k'] == v;
        }
      }
    }
  }

  /** Polling the head of a queue without repetitions. */
  lemma PopFront<T>(s: seq<T>)
    requires s != [] && Distinct(s)
    ensures Distinct(s[1..])
    ensures (set x | x in s) == (set x | x in s[1..]) + {s[0]}
    ensures s[0] !in (set x | x in s[1..])
  {
    assert forall x :: x in s <==> x == s[0] || x in s[1..];
  }

  /** Appending an element a queue does not hold. */
  lemma PushBack<T>(s: seq<T>, x: T)
    requires Distinct(s) && x !in s
    ensures Distinct(s + [x])
    ensures (set y | y in s + [x]) == (set y | y in s) + {x}
  {
    assert forall y :: y in s + [x] <==> y in s || y == x;
  }

  /** Recording a new key with a value no other key has. */
  lemma MapInsert<K, V>(m: map<K, V>, k: K, v: V)
    requires Injective(m) && k !in m && v !in m.Values
    ensures Injective(m[k := v])
    ensures m[k := v].Values == m.Values + {v}
  {
    var m' := m[k := v];
    forall u | u in m.Values ensures u in m'.Values {
      var k' :| k' in m && m[k'] == u;
      assert m'[k'] == u;
    }
    assert m'[k] == v;
  }

  /** Removing a key of an injective map removes exactly its value. */
  lemma MapRemove<K, V>(m: map<K, V>, k: K)
    requires Injective(m) && k in m
    ensures Injective(m - {k})
    ensures (m - {k}).Values == m.Values - {m[k]}
  {
    var m' := m - {k};
    forall u | u in m.Values && u != m[k] ensures u in m'.Values {
      var k' :| k' in m && m[k'] == u;
      assert m'[k'] == u;
    }
  }

  /** The page accounting of a pool: every page it obtained is queued, outstanding or returned, and
      only one of them; it obtained its pages from the allocator, and only the returned ones are freed. */
  ghost predicate Accounts(queued: set<Pointer>, outstanding: set<Pointer>, returned: set<Pointer>,
                           obtained: set<Pointer>, issued: set<Pointer>, freed: set<Pointer>)
  {
    && queued !! outstanding
    && queued + outstanding + returned == obtained
    && obtained <= issued
    && returned <= freed
    && (queued + outstanding) !! freed
  }

  /** A queued page handed out again. */
  lemma AccountsReuse(q: set<Pointer>, o: set<Pointer>, r: set<Pointer>, ob: set<Pointer>,
                      i: set<Pointer>, f: set<Pointer>, p: Pointer)
    requires Accounts(q, o, r, ob, i, f) && p in q
    ensures Accounts(q - {p}, o + {p}, r, ob, i, f)
  {
  }

  /** A freshly allocated page handed out. */
  lemma AccountsAllocate(q: set<Pointer>, o: set<Pointer>, r: set<Pointer>, ob: set<Pointer>,
                         i: set<Pointer>, f: set<Pointer>, p: Pointer)
    requires Accounts(q, o, r, ob, i, f) && p !in i && p !in f
    ensures Accounts(q, o + {p}, r, ob + {p}, i + {p}, f)
  {
  }

  /** A released page queued for reuse. */
  lemma AccountsQueue(q: set<Pointer>, o: set<Pointer>, r: set<Pointer>, ob: set<Pointer>,
                      i: set<Pointer>, f: set<Pointer>, p: Pointer)
    requires Accounts(q, o, r, ob, i, f) && p in o
    ensures Accounts(q + {p}, o - {p}, r, ob, i, f)
  {
  }

  /** A released page given back to the allocator. */
  lemma AccountsFree(q: set<Pointer>, o: set<Pointer>, r: set<Pointer>, ob: set<Pointer>,
                     i: set<Pointer>, f: set<Pointer>, p: Pointer)
    requires Accounts(q, o, r, ob, i, f) && p in o
    ensures Accounts(q, o - {p}, r + {p}, ob, i, f + {p})
  {
  }

  /** Every queued and outstanding page given back to the allocator. */
  lemma AccountsClear(q: set<Pointer>, o: set<Pointer>, r: set<Pointer>, ob: set<Pointer>,
                      i: set<Pointer>, f: set<Pointer>)
    requires Accounts(q, o, r, ob, i, f)
    ensures Accounts({}, {}, r + q + o, ob, i, f + q + o)
  {
  }

  class OByteBufferPool {
    /** Size in bytes of every page. */
    const pageSize: nat
    /** Most pages kept in the queue; a page released beyond it goes back to the allocator. */
    const poolSize: Int32
    const allocator: DirectMemoryAllocator
    /** Whether leak tracking (allocation-site diagnostics) is on. */
    const track: bool

    /** Released pages, waiting for reuse (head is polled first). */
    var pointersPool: seq<Pointer>
    /** Cached length of `pointersPool`. */
    var pointersPoolSize: int
    /** Outstanding buffers and the page each was acquired with, keyed by buffer identity. */
    var bufferPointerMapping: map<Buffer, Pointer>

    /** Every page this pool has obtained from the allocator, and the ones it has handed back. */
    ghost var obtained: set<Pointer>
    ghost var returned: set<Pointer>

    ghost function Queued(): set<Pointer>
      reads this
    {
      set p | p in pointersPool
    }

    ghost function Outstanding(): set<Pointer>
      reads this
    {
      bufferPointerMapping.Values
    }

    /** The queue bound as an element count: a negative `poolSize` keeps nothing. */
    function Capacity(): nat
    {
      if poolSize < 0 then 0 else poolSize
    }

    /** The pool's invariant: the counter is the queue length, the queue respects the bound, and
        every page the pool ever obtained is exactly one of queued, outstanding or deallocated. */
    ghost predicate Valid()
      reads this, allocator
    {
      && pointersPoolSize == |pointersPool| <= Capacity()
      && Distinct(pointersPool)
      && Injective(bufferPointerMapping)
      && (forall b :: b in bufferPointerMapping ==> b.page == bufferPointerMapping[b])
      && Accounts(Queued(), Outstanding(), returned, obtained, allocator.issued, allocator.freed)
      && (forall p :: p in obtained ==> p.size == pageSize)
    }

    /** No buffer is outstanding: what `checkMemoryLeaks` asserts. */
    ghost predicate NoLeaks()
      reads this
    {
      bufferPointerMapping == map[]
    }

    /** The constructor that takes its allocator and queue bound from the caller. */
    constructor (pageSize: nat, allocator: DirectMemoryAllocator, poolSize: Int32, track: bool)
      ensures Valid()
      ensures this.pageSize == pageSize && this.allocator == allocator
      ensures this.poolSize == poolSize && this.track == track
      ensures pointersPool == [] && bufferPointerMapping == map[]
      ensures obtained == {} && returned == {}
    {
      this.pageSize := pageSize;
      this.allocator := allocator;
      this.poolSize := poolSize;
      this.track := track;
      pointersPool := [];
      pointersPoolSize := 0;
      bufferPointerMapping := map[];
      obtained, returned := {}, {};
    }

    /** A buffer over a queued page if there is one, else over a freshly allocated page; zero-filled when
        `clear` is set, positioned at 0, and recorded as outstanding with its page. */
    method AcquireDirect(clear: bool) returns (buffer: Buffer)
      requires Valid()
      modifies this, allocator, if pointersPool == [] then {} else {pointersPool[0]}
      ensures Valid()
      ensures fresh(buffer) && buffer.position == 0 && buffer.page.size == pageSize
      ensures clear ==> buffer.page.contents == Zeros(pageSize)
      ensures bufferPointerMapping == old(bufferPointerMapping)[buffer := buffer.page]
      ensures old(pointersPool) != [] ==>
        && buffer.page == old(pointersPool[0])
        && pointersPool == old(pointersPool[1..])
        && pointersPoolSize == old(pointersPoolSize) - 1
        && allocator.issued == old(allocator.issued)
        && obtained == old(obtained)
        && (!clear ==> buffer.page.contents == old(pointersPool[0].contents))
      ensures old(pointersPool) == [] ==>
        && fresh(buffer.page)
        && pointersPool == [] && pointersPoolSize == old(pointersPoolSize)
        && allocator.issued == old(allocator.issued) + {buffer.page}
        && obtained == old(obtained) + {buffer.page}
      ensures allocator.freed == old(allocator.freed) && returned == old(returned)
    {
      var pointer: Pointer;
      if pointersPool != [] {
        pointer := pointersPool[0];
        PopFront(pointersPool);
        AccountsReuse(Queued(), Outstanding(), returned, obtained, allocator.issued, allocator.freed, pointer);
        pointersPool := pointersPool[1..];
        pointersPoolSize := pointersPoolSize - 1;
      } else {
        ghost var issued := allocator.issued;
        pointer := allocator.Allocate(pageSize);
        AccountsAllocate(Queued(), Outstanding(), returned, obtained, issued, allocator.freed, pointer);
        obtained := obtained + {pointer};
      }

      if clear {
        pointer.Clear();
      }

      buffer := new Buffer(pointer);
      buffer.position := 0;

      MapInsert(bufferPointerMapping, buffer, pointer);
      bufferPointerMapping := bufferPointerMapping[buffer := pointer];
    }

    /** Takes `buffer` off the outstanding record and queues its page, or frees the page when the queue
        is already at its bound. A buffer that is not outstanding is refused and nothing changes. */
    method Release(buffer: Buffer) returns (result: Result<(), PoolError>)
      requires Valid()
      modifies this, allocator
      ensures Valid()
      ensures old(buffer !in bufferPointerMapping) ==>
        result == Failure(BufferNotAcquired(buffer)) && unchanged(this) && unchanged(allocator)
      ensures old(buffer in bufferPointerMapping) ==>
        && result == Success(())
        && bufferPointerMapping == old(bufferPointerMapping) - {buffer}
        && allocator.issued == old(allocator.issued)
        && obtained == old(obtained)
      ensures old(buffer in bufferPointerMapping && pointersPoolSize < poolSize) ==>
        && pointersPool == old(pointersPool) + [buffer.page]
        && pointersPoolSize == old(pointersPoolSize) + 1
        && allocator.freed == old(allocator.freed) && returned == old(returned)
      ensures old(buffer in bufferPointerMapping && pointersPoolSize >= poolSize) ==>
        && pointersPool == old(pointersPool)
        && pointersPoolSize == old(pointersPoolSize)
        && allocator.freed == old(allocator.freed) + {buffer.page}
        && returned == old(returned) + {buffer.page}
    {
      if buffer !in bufferPointerMapping {
        return Failure(BufferNotAcquired(buffer));
      }
      var pointer := bufferPointerMapping[buffer];
      assert pointer in Outstanding();
      MapRemove(bufferPointerMapping, buffer);
      bufferPointerMapping := bufferPointerMapping - {buffer};

      pointersPoolSize := pointersPoolSize + 1;
      if pointersPoolSize > poolSize {
        pointersPoolSize := pointersPoolSize - 1;
        AccountsFree(Queued(), old(Outstanding()), returned, obtained, allocator.issued, allocator.freed, pointer);
        allocator.Deallocate(pointer);
        returned := returned + {pointer};
      } else {
        PushBack(pointersPool, pointer);
        AccountsQueue(Queued(), old(Outstanding()), returned, obtained, allocator.issued, allocator.freed, pointer);
        pointersPool := pointersPool + [pointer];
      }
      result := Success(());
    }

    /** The number of queued pages, read from the cached counter. */
    function GetPoolSize(): (n: int)
      reads this, allocator
      requires Valid()
      ensures n == |pointersPool| && 0 <= n <= Capacity()
    {
      pointersPoolSize
    }

    /** Conservation of pages: every page the pool ever obtained from the allocator is counted exactly
        once among the queued pages, the outstanding buffers and the pages it handed back. */
    lemma Conservation()
      requires Valid()
      ensures |obtained| == GetPoolSize() + |bufferPointerMapping| + |returned|
    {
      DistinctCardinality(pointersPool);
      InjectiveCardinality(bufferPointerMapping);
      assert |Queued() + Outstanding()| == |Queued()| + |Outstanding()|;
      assert returned !! (Queued() + Outstanding());
    }

    /** With tracking on, reports every outstanding buffer (without removing it); `detected` is what the
        leak assertion checks. With tracking off, nothing is reported. */
    method CheckMemoryLeaks() returns (reported: set<Buffer>, detected: bool)
      requires Valid()
      ensures reported == if track then bufferPointerMapping.Keys else {}
      ensures detected <==> track && !NoLeaks()
    {
      reported, detected := {}, false;
      if track {
        var entries := bufferPointerMapping.Keys;
        while entries != {}
          invariant entries <= bufferPointerMapping.Keys
          invariant reported == bufferPointerMapping.Keys - entries
          invariant detected <==> reported != {}
          decreases entries
        {
          var b :| b in entries;
          reported := reported + {b};
          detected := true;
          entries := entries - {b};
        }
        assert detected <==> bufferPointerMapping.Keys != {};
        assert bufferPointerMapping.Keys == {} <==> bufferPointerMapping == map[];
      }
    }

    /** Frees every queued page and every page still outstanding; afterwards the pool holds no native
        memory. `warned` is the leak warning issued when tracking is off and buffers are outstanding. */
    method Clear() returns (warned: bool)
      requires Valid()
      modifies this, allocator
      ensures Valid()
      ensures pointersPool == [] && pointersPoolSize == 0 && NoLeaks()
      ensures allocator.freed == old(allocator.freed) + old(Queued()) + old(Outstanding())
      ensures allocator.issued == old(allocator.issued)
      ensures obtained == old(obtained) && returned == obtained
      ensures warned <==> !track && old(bufferPointerMapping) != map[]
    {
      ghost var queued, outstanding := Queued(), Outstanding();
      AccountsClear(queued, outstanding, returned, obtained, allocator.issued, allocator.freed);
      DeallocateQueue(pointersPool);
      returned := returned + queued;
      pointersPool := [];
      pointersPoolSize := 0;

      warned := !track && bufferPointerMapping != map[];

      DeallocateSet(bufferPointerMapping.Values);
      returned := returned + outstanding;
      bufferPointerMapping := map[];
    }

    /** Frees every page of a queue, in order. */
    method DeallocateQueue(queue: seq<Pointer>)
      requires Distinct(queue)
      requires forall i :: 0 <= i < |queue| ==> queue[i] in allocator.issued && queue[i] !in allocator.freed
      modifies allocator
      ensures allocator.freed == old(allocator.freed) + (set p | p in queue)
      ensures allocator.issued == old(allocator.issued)
    {
      for i := 0 to |queue|
        invariant allocator.freed == old(allocator.freed) + (set j | 0 <= j < i :: queue[j])
        invariant allocator.issued == old(allocator.issued)
      {
        assert queue[i] !in (set j | 0 <= j < i :: queue[j]);
        allocator.Deallocate(queue[i]);
        assert (set j | 0 <= j < i + 1 :: queue[j]) == (set j | 0 <= j < i :: queue[j]) + {queue[i]};
      }
      assert (set j | 0 <= j < |queue| :: queue[j]) == (set p | p in queue);
    }

    /** Frees every page of a set, in no particular order. */
    method DeallocateSet(pages: set<Pointer>)
      requires pages <= allocator.issued && pages !! allocator.freed
      modifies allocator
      ensures allocator.freed == old(allocator.freed) + pages
      ensures allocator.issued == old(allocator.issued)
    {
      var rest := pages;
      while rest != {}
        invariant rest <= pages
        invariant allocator.freed == old(allocator.freed) + (pages - rest)
        invariant allocator.issued == old(allocator.issued)
        decreases rest
      {
        var p :| p in rest;
        allocator.Deallocate(p);
        rest := rest - {p};
      }
    }
  }

  /** A pool bounded at one page: two buffers are acquired and both released. The first page is
      queued, the second goes back to the allocator, and a second release of the same buffer is
      refused. */
  method BoundOfOne() returns (size: int, again: Result<(), PoolError>)
    ensures size == 1
    ensures again.Failure?
  {
    var allocator := new DirectMemoryAllocator();
    var pool := new OByteBufferPool(4096, allocator, 1, false);
    var a := pool.AcquireDirect(true);
    var b := pool.AcquireDirect(false);
    assert a in pool.bufferPointerMapping && b in pool.bufferPointerMapping;
    var r := pool.Release(a);
    assert pool.pointersPoolSize == 1 && b in pool.bufferPointerMapping;
    r := pool.Release(b);
    size := pool.GetPoolSize();
    again := pool.Release(b);
  }
}
