/** The kernel pool allocator layer: malloc, calloc, realloc and recalloc over tagged pool blocks. */
module Pool {
  import opened AllocationLoops
  import opened Arith
  import opened MachineTypes

  const HEAP_MAXREQ: int := 0xFFFF_FFFF_FFFF_FFE0
  const ENOMEM: int := 12

  datatype Block = Block(bytes: seq<byte>, tag: nat)

  function Min(a: size_t, b: size_t): size_t { if a < b then a else b }

  function Zeros(n: nat): (z: seq<byte>)
    ensures |z| == n && forall i :: 0 <= i < n ==> z[i] == 0
  {
    seq(n, _ => 0)
  }

  /** A block resized from the first old bytes: kept as far as both sizes reach, zero beyond. */
  function Resized(bytes: seq<byte>, oldSize: size_t, newSize: size_t): (r: seq<byte>)
    requires oldSize <= |bytes|
    ensures |r| == newSize
  {
    bytes[..Min(oldSize, newSize)] + Zeros(newSize - Min(oldSize, newSize))
  }

  lemma ResizedBytes(bytes: seq<byte>, oldSize: size_t, newSize: size_t)
    requires oldSize <= |bytes|
    ensures forall k :: 0 <= k < newSize ==> Resized(bytes, oldSize, newSize)[k] == if k < oldSize then bytes[k] else 0
  {
  }

  // ---- the guard against overflow ----

  /** The true size of count elements, which may exceed what a size_t can hold. */
  function Total(count: size_t, size: size_t): nat
  {
    MulMono(0, 0, count, size);
    count * size
  }

  /** What is requested of the pool: never nothing. */
  function AtLeastOne(n: nat): nat
  {
    if n == 0 then 1 else n
  }

  predicate GuardPasses(count: size_t, size: size_t)
  {
    count == 0 || HEAP_MAXREQ / count >= size
  }

  /** The multiplication of two size_t values. */
  function WrappedTotal(count: size_t, size: size_t): size_t
  {
    Total(count, size) % BASE64
  }

  lemma TotalIsProduct(count: size_t, size: size_t)
    ensures Total(count, size) == count * size >= 0
  {
  }

  /** The division by count lets exactly the products through that the heap can serve, so none wraps. */
  lemma GuardIsExact(count: size_t, size: size_t)
    ensures GuardPasses(count, size) <==> count * size <= 0xFFFF_FFFF_FFFF_FFE0
    ensures GuardPasses(count, size) ==> WrappedTotal(count, size) == count * size
    ensures Total(count, size) == count * size
  {
    if count > 0 {
      DivMod(HEAP_MAXREQ, count);
      var q := HEAP_MAXREQ / count;
      if q >= size {
        MulLe(size, q, count);
      } else {
        MulLe(q + 1, size, count);
        Distribute(q, 1, count);
      }
    }
    MulMono(0, 0, count, size);
  }

  // ---- the pool ----

  lemma ClearedWhole(bytes: seq<byte>, n: size_t)
    requires |bytes| == n
    ensures bytes[..0] + Zeros(n) + bytes[0 + n..] == Zeros(n)
  {
  }

  lemma UpdateTwice(m: map<nat, Block>, k: nat, b: Block, b': Block)
    ensures m[k := b][k := b'] == m[k := b']
  {
  }

  /** A block gives way to a new one. */
  function Replaced(m: map<nat, Block>, from: nat, to: nat, bytes: seq<byte>, tag: nat): map<nat, Block>
  {
    (m - {from})[to := Block(bytes, tag)]
  }

  /** The size in bytes of an array that exists does not wrap. */
  lemma SmallTotal(count: size_t, size: size_t)
    ensures Total(count, size) < BASE64 ==> WrappedTotal(count, size) == Total(count, size)
  {
  }

  lemma MovedBlock(m: map<nat, Block>, from: nat, to: nat, b: Block, b': Block)
    requires from in m && to !in m
    ensures m[to := b][to := b'] - {from} == (m - {from})[to := b']
  {
  }

  lemma ZerosAbove(n: nat, m: nat)
    requires m <= n
    ensures Zeros(n)[m..] == Zeros(n - m)
  {
  }

  /** A resized block is a cleared one with the kept bytes moved over it. */
  lemma ResizedMeaning(bytes: seq<byte>, oldSize: size_t, newSize: size_t)
    requires oldSize <= |bytes|
    ensures var kept := if newSize < oldSize then newSize else oldSize;
            Resized(bytes, oldSize, newSize) == bytes[..kept] + Zeros(newSize)[kept..]
  {
    ZerosAbove(newSize, Min(newSize, oldSize));
  }

  /** Clearing all of a block just obtained. */
  lemma ClearsNew(m: map<nat, Block>, k: nat, garbage: seq<byte>, tag: nat, n: size_t)
    requires |garbage| == n
    ensures var b := Block(garbage, tag);
            m[k := b][k := b.(bytes := garbage[..0] + Zeros(n) + garbage[0 + n..])] == m[k := Block(Zeros(n), tag)]
  {
    ClearedWhole(garbage, n);
    UpdateTwice(m, k, Block(garbage, tag), Block(Zeros(n), tag));
  }

  /** The bytes beyond the old contents are zero already; clearing them again changes nothing. */
  lemma ZeroedTail(bytes: seq<byte>, oldSize: size_t, newSize: size_t)
    requires oldSize <= |bytes| && oldSize < newSize
    ensures var r := Resized(bytes, oldSize, newSize);
            r[..oldSize] + Zeros(newSize - oldSize) + r[oldSize + (newSize - oldSize)..] == r
  {
  }

  /** A resized block in the place of the old one, byte by byte. */
  lemma ReplacedBytes(m: map<nat, Block>, from: nat, to: nat, oldSize: size_t, newSize: size_t, tag: nat)
    requires from in m && oldSize <= |m[from].bytes|
    ensures var m' := Replaced(m, from, to, Resized(m[from].bytes, oldSize, newSize), tag);
            && to in m' && m' == (m - {from})[to := m'[to]] && m'[to].tag == tag && |m'[to].bytes| == newSize
            && forall k :: 0 <= k < newSize ==> m'[to].bytes[k] == if k < oldSize then m[from].bytes[k] else 0
  {
    ResizedBytes(m[from].bytes, oldSize, newSize);
    hide Resized;
  }

  /** Clearing the tail of a resized block. */
  lemma ClearsTail(m: map<nat, Block>, from: nat, k: nat, bytes: seq<byte>, oldSize: size_t, newSize: size_t, tag: nat)
    requires oldSize <= |bytes| && oldSize < newSize
    ensures var r := Resized(bytes, oldSize, newSize);
            var cleared := r[..oldSize] + Zeros(newSize - oldSize) + r[oldSize + (newSize - oldSize)..];
            Replaced(m, from, k, r, tag)[k := Block(r, tag).(bytes := cleared)] == Replaced(m, from, k, r, tag)
  {
    hide Resized;
    var r := Resized(bytes, oldSize, newSize);
    ZeroedTail(bytes, oldSize, newSize);
    UpdateTwice(m - {from}, k, Block(r, tag), Block(r, tag));
  }

  lemma ReplacedAt(m: map<nat, Block>, from: nat, to: nat, bytes: seq<byte>, tag: nat)
    ensures to in Replaced(m, from, to, bytes, tag) && Replaced(m, from, to, bytes, tag)[to] == Block(bytes, tag)
  {
  }

  class Pool {
    var blocks: map<nat, Block>
    var errno: int
    var future: Future
    /** Every address handed out and every address freed so far. */
    ghost var granted: multiset<nat>
    ghost var freed: multiset<nat>

    /** The live addresses are exactly those granted and not freed since; null is never one. */
    ghost predicate Valid()
      reads this
    {
      NULL !in blocks && granted == freed + multiset(blocks.Keys)
    }

    constructor (future: Future)
      ensures Valid() && blocks == map[] && this.future == future
    {
      blocks, errno := map[], 0;
      this.future := future;
      granted, freed := multiset{}, multiset{};
    }

    predicate Owned(block: nat, tag: nat)
      reads this
    {
      block in blocks && blocks[block].tag == tag
    }

    method ExAllocatePoolWithTag(size: size_t, tag: nat) returns (block: nat)
      requires Valid()
      modifies this`blocks, this`future, this`granted
      ensures Valid() && future == old(future).AfterPool()
      ensures block != 0 ==>
                && block !in old(blocks) && block in blocks && blocks == old(blocks)[block := blocks[block]]
                && blocks[block].tag == tag && |blocks[block].bytes| == size
      ensures var a := old(future).PoolAnswer();
              if Usable(a, old(blocks).Keys, size) then
                block == a.address && blocks == old(blocks)[block := Block(a.garbage, tag)]
              else
                block == NULL && blocks == old(blocks)
    {
      var a := future.PoolAnswer();
      future := future.AfterPool();
      block := NULL;
      if Usable(a, blocks.Keys, size) {
        block := a.address;
        ghost var before := blocks.Keys;
        blocks := blocks[block := Block(a.garbage, tag)];
        granted := granted + multiset{block};
        assert blocks.Keys == before + {block};
      }
    }

    method ExFreePoolWithTag(block: nat, tag: nat)
      requires Valid() && Owned(block, tag)
      modifies this`blocks, this`freed
      ensures Valid() && blocks == old(blocks) - {block} && freed == old(freed) + multiset{block}
    {
      assert blocks.Keys == (blocks - {block}).Keys + {block};
      blocks := blocks - {block};
      freed := freed + multiset{block};
    }

    /** kfree; freeing null does nothing. */
    method Free(block: nat, tag: nat)
      requires Valid() && (block != NULL ==> Owned(block, tag))
      modifies this`blocks, this`freed
      ensures Valid() && blocks == old(blocks) - {block}
      ensures freed == if block == NULL then old(freed) else old(freed) + multiset{block}
    {
      if block != NULL {
        ExFreePoolWithTag(block, tag);
      }
    }

    /** memset over part of a live block. */
    method Clear(block: nat, start: size_t, count: size_t)
      requires Valid() && block in blocks && start + count <= |blocks[block].bytes|
      modifies this`blocks
      ensures Valid()
      ensures blocks == old(blocks)[block :=
                old(blocks)[block].(bytes := old(blocks)[block].bytes[..start] + Zeros(count)
                                             + old(blocks)[block].bytes[start + count..])]
    {
      var bytes := blocks[block].bytes;
      ghost var before := blocks.Keys;
      blocks := blocks[block := blocks[block].(bytes := bytes[..start] + Zeros(count) + bytes[start + count..])];
      assert blocks.Keys == before;
    }

    method ClearAll(block: nat, count: size_t)
      requires Valid() && block in blocks && |blocks[block].bytes| == count
      modifies this`blocks
      ensures Valid() && blocks == old(blocks)[block := old(blocks)[block].(bytes := Zeros(count))]
    {
      ClearedWhole(blocks[block].bytes, count);
      Clear(block, 0, count);
    }

    /** memset of a block just obtained. */
    method ClearNew(block: nat, count: size_t, ghost others: map<nat, Block>, ghost garbage: seq<byte>, tag: nat)
      requires Valid() && |garbage| == count && blocks == others[block := Block(garbage, tag)]
      modifies this`blocks
      ensures Valid() && blocks == others[block := Block(Zeros(count), tag)]
    {
      ClearsNew(others, block, garbage, tag, count);
      Clear(block, 0, count);
    }

    /** memset of what a resized block has beyond the old contents. */
    method ClearTail(block: nat, oldSize: size_t, newSize: size_t,
                     ghost before: map<nat, Block>, ghost oldBlock: nat, ghost bytes: seq<byte>, tag: nat)
      requires Valid() && oldSize < newSize && oldSize <= |bytes|
      requires blocks == Replaced(before, oldBlock, block, Resized(bytes, oldSize, newSize), tag)
      modifies this`blocks
      ensures Valid() && blocks == old(blocks)
    {
      hide Resized, Replaced;
      ReplacedAt(before, oldBlock, block, Resized(bytes, oldSize, newSize), tag);
      ClearsTail(before, oldBlock, block, bytes, oldSize, newSize, tag);
      Clear(block, oldSize, newSize - oldSize);
    }

    /** memmove of the first count bytes between two live blocks. */
    method Move(to: nat, from: nat, count: size_t)
      requires Valid() && to in blocks && from in blocks
      requires count <= |blocks[to].bytes| && count <= |blocks[from].bytes|
      modifies this`blocks
      ensures Valid()
      ensures blocks == old(blocks)[to :=
                old(blocks)[to].(bytes := old(blocks)[from].bytes[..count] + old(blocks)[to].bytes[count..])]
    {
      ghost var before := blocks.Keys;
      blocks := blocks[to := blocks[to].(bytes := blocks[from].bytes[..count] + blocks[to].bytes[count..])];
      assert blocks.Keys == before;
    }

    /** memset of the whole new block, then memmove of what fits from the old one. */
    method Transfer(block: nat, oldBlock: nat, oldSize: size_t, newSize: size_t)
      requires Valid() && block in blocks && oldBlock in blocks && block != oldBlock
      requires |blocks[block].bytes| == newSize && oldSize <= |blocks[oldBlock].bytes|
      modifies this`blocks
      ensures Valid()
      ensures blocks == old(blocks)[block :=
                old(blocks)[block].(bytes := Resized(old(blocks)[oldBlock].bytes, oldSize, newSize))]
    {
      hide Zeros, Resized;
      var kept: size_t := if newSize < oldSize then newSize else oldSize;
      ghost var before := blocks;
      ClearAll(block, newSize);
      Move(block, oldBlock, kept);
      ResizedMeaning(before[oldBlock].bytes, oldSize, newSize);
      UpdateTwice(before, block, before[block].(bytes := Zeros(newSize)), blocks[block]);
    }

    /** One attempt to resize: a fresh zeroed block takes over what fits, and the old block is freed once. */
    method ExReallocatePoolWithTag(oldSize: size_t, newSize: size_t, oldBlock: nat, tag: nat) returns (block: nat)
      requires Valid() && Owned(oldBlock, tag) && oldSize <= |blocks[oldBlock].bytes|
      modifies this`blocks, this`future, this`granted, this`freed
      ensures Valid()
      ensures future == if oldSize == 0 then old(future) else old(future).AfterPool()
      ensures block != 0 ==>
                && block !in old(blocks) && block in blocks
                && blocks == (old(blocks) - {oldBlock})[block := blocks[block]]
                && blocks[block].tag == tag && |blocks[block].bytes| == newSize
                && forall k :: 0 <= k < newSize ==>
                     blocks[block].bytes[k] == if k < oldSize then old(blocks)[oldBlock].bytes[k] else 0
      ensures var a := old(future).PoolAnswer();
              if oldSize != 0 && Usable(a, old(blocks).Keys, newSize) then
                && block == a.address && freed == old(freed) + multiset{oldBlock}
                && blocks == Replaced(old(blocks), oldBlock, block,
                                      Resized(old(blocks)[oldBlock].bytes, oldSize, newSize), tag)
              else
                block == NULL && blocks == old(blocks) && freed == old(freed)
    {
      if oldSize == 0 {
        return NULL;
      }
      block := ExAllocatePoolWithTag(newSize, tag);
      if block != NULL {
        ghost var fresh' := blocks[block];
        Transfer(block, oldBlock, oldSize, newSize);
        ExFreePoolWithTag(oldBlock, tag);
        ghost var bytes := Resized(old(blocks)[oldBlock].bytes, oldSize, newSize);
        MovedBlock(old(blocks), oldBlock, block, fresh', Block(bytes, tag));
        ResizedBytes(old(blocks)[oldBlock].bytes, oldSize, newSize);
      }
    }

    /** The new handler, asked only in the new mode. */
    method CallNewHandler() returns (retry: bool)
      requires Valid()
      modifies this`future
      ensures Valid() && retry == old(future).Retries() && future == old(future).AfterHandler()
    {
      retry := future.Retries();
      future := future.AfterHandler();
    }

    /** kmalloc. */
    method Malloc(size: size_t, tag: nat) returns (block: nat)
      requires Valid()
      modifies this`blocks, this`errno, this`future, this`granted
      ensures Valid()
      ensures if block == 0 then errno == 12 && blocks == old(blocks)
              else
                && size <= 0xFFFF_FFFF_FFFF_FFE0 && errno == old(errno)
                && block !in old(blocks) && block in blocks && blocks == old(blocks)[block := blocks[block]]
                && blocks[block].tag == tag && |blocks[block].bytes| == if size == 0 then 1 else size
      ensures size > HEAP_MAXREQ ==> block == NULL && errno == ENOMEM && blocks == old(blocks) && future == old(future)
      ensures size <= HEAP_MAXREQ ==>
                var n := AtLeastOne(size);
                var a := Allocation(old(future), old(blocks).Keys, n);
                && future == AfterAllocation(old(future), old(blocks).Keys, n)
                && (a.None? ==> block == NULL && errno == ENOMEM && blocks == old(blocks))
                && (a.Some? ==> block == a.value.address && blocks == old(blocks)[block := Block(a.value.garbage, tag)])
    {
      if !(HEAP_MAXREQ >= size) {
        errno := ENOMEM;
        return NULL;
      }
      var actual: size_t := if size == 0 then 1 else size;
      ghost var live, f := blocks.Keys, future;
      while true
        invariant Valid() && blocks == old(blocks) && errno == old(errno)
        invariant Allocation(future, live, actual) == Allocation(f, live, actual)
        invariant AfterAllocation(future, live, actual) == AfterAllocation(f, live, actual)
        decreases |future.handler|
      {
        block := ExAllocatePoolWithTag(actual, tag);
        if block != NULL {
          return;
        }
        var retry := CallNewHandler();
        if !retry {
          errno := ENOMEM;
          return NULL;
        }
      }
    }

    method CallocLoop(actual: size_t, tag: nat) returns (block: nat)
      requires Valid() && 0 < actual <= HEAP_MAXREQ
      modifies this`blocks, this`errno, this`future, this`granted
      ensures Valid()
      ensures future == AfterZeroedAllocation(old(future), old(blocks).Keys, actual)
      ensures var a := ZeroedAllocation(old(future), old(blocks).Keys, actual);
              && (a.None? ==> block == NULL && errno == ENOMEM && blocks == old(blocks))
              && (a.Some? ==> block == a.value.address && blocks == old(blocks)[block := Block(Zeros(actual), tag)])
      ensures block != NULL ==>
                errno == if Allocation(old(future), old(blocks).Keys, actual).Some? then old(errno) else ENOMEM
    {
      hide Allocation, AfterAllocation, Usable;
      ghost var live, f, before := blocks.Keys, future, blocks;
      while true
        invariant Valid() && blocks == before
        invariant ZeroedAllocation(future, live, actual) == ZeroedAllocation(f, live, actual)
        invariant AfterZeroedAllocation(future, live, actual) == AfterZeroedAllocation(f, live, actual)
        invariant if future == f then errno == old(errno) else errno == ENOMEM && Allocation(f, live, actual).None?
        decreases |future.handler|
      {
        HandlerShrinks(future, live, actual);
        ghost var a := Allocation(future, live, actual);
        block := Malloc(actual, tag);
        if block != NULL {
          UpdateTwice(before, block, blocks[block], Block(Zeros(actual), tag));
          ClearAll(block, actual);
          return;
        }
        var retry := CallNewHandler();
        if !retry {
          errno := ENOMEM;
          return NULL;
        }
      }
    }

    /**
      kcalloc: zeroed memory for count elements, if the true product fits. A success leaves errno alone, except
      that it keeps what an inner malloc left when that failed first.
     */
    method Calloc(count: size_t, size: size_t, tag: nat) returns (block: nat)
      requires Valid()
      modifies this`blocks, this`errno, this`future, this`granted
      ensures Valid()
      ensures if block == 0 then errno == 12 && blocks == old(blocks)
              else
                && count * size <= 0xFFFF_FFFF_FFFF_FFE0
                && block !in old(blocks) && block in blocks && blocks == old(blocks)[block := blocks[block]]
                && blocks[block].tag == tag && |blocks[block].bytes| == (if count * size == 0 then 1 else count * size)
                && forall k :: 0 <= k < |blocks[block].bytes| ==> blocks[block].bytes[k] == 0
      ensures Total(count, size) > HEAP_MAXREQ ==>
                block == NULL && errno == ENOMEM && blocks == old(blocks) && future == old(future)
      ensures Total(count, size) <= HEAP_MAXREQ ==>
                var n := AtLeastOne(Total(count, size));
                var a := ZeroedAllocation(old(future), old(blocks).Keys, n);
                && future == AfterZeroedAllocation(old(future), old(blocks).Keys, n)
                && (a.None? ==> block == NULL && errno == ENOMEM && blocks == old(blocks))
                && (a.Some? ==> block == a.value.address && blocks == old(blocks)[block := Block(Zeros(n), tag)])
                && (a.Some? ==>
                      errno == if Allocation(old(future), old(blocks).Keys, n).Some? then old(errno) else ENOMEM)
    {
      hide Total, WrappedTotal, GuardPasses;
      GuardIsExact(count, size);
      if !GuardPasses(count, size) {
        errno := ENOMEM;
        return NULL;
      }
      var requested := WrappedTotal(count, size);
      block := CallocLoop(if requested == 0 then 1 else requested, tag);
    }

    /** krealloc of a live block to a nonzero size that the heap can serve. */
    method ResizeLoop(block: nat, oldSize: size_t, newSize: size_t, tag: nat) returns (result: nat)
      requires Valid() && Owned(block, tag) && oldSize <= |blocks[block].bytes|
      modifies this`blocks, this`errno, this`future, this`granted, this`freed
      ensures Valid()
      ensures oldSize == 0 ==> result == NULL && future == AfterRefusal(old(future))
      ensures result == NULL ==> errno == ENOMEM && blocks == old(blocks) && freed == old(freed)
      ensures result != NULL ==>
                && errno == old(errno) && result !in old(blocks) && freed == old(freed) + multiset{block}
                && blocks == Replaced(old(blocks), block, result,
                                      Resized(old(blocks)[block].bytes, oldSize, newSize), tag)
      ensures oldSize > 0 ==>
                && result == Granted(Allocation(old(future), old(blocks).Keys, newSize))
                && future == AfterAllocation(old(future), old(blocks).Keys, newSize)
    {
      ghost var live, f, before := blocks.Keys, future, blocks;
      while true
        invariant Valid() && blocks == before && freed == old(freed) && errno == old(errno)
        invariant oldSize == 0 ==> AfterRefusal(future) == AfterRefusal(f)
        invariant oldSize > 0 ==> Allocation(future, live, newSize) == Allocation(f, live, newSize)
        invariant oldSize > 0 ==> AfterAllocation(future, live, newSize) == AfterAllocation(f, live, newSize)
        decreases |future.handler|
      {
        result := ExReallocatePoolWithTag(oldSize, newSize, block, tag);
        if result != NULL {
          return;
        }
        var retry := CallNewHandler();
        if !retry {
          errno := ENOMEM;
          return NULL;
        }
      }
    }

    /**
      krealloc. A resize that succeeds keeps the first min(old, new) bytes, zeroes the rest and frees the old
      block once; one that fails leaves the old block and every other block alone. A live block said to have
      size zero can never be resized: the pool is not asked, and the handler is until it refuses.
     */
    method Realloc(block: nat, oldSize: size_t, newSize: size_t, tag: nat) returns (result: nat)
      requires Valid() && (block != NULL ==> Owned(block, tag) && oldSize <= |blocks[block].bytes|)
      modifies this`blocks, this`errno, this`future, this`granted, this`freed
      ensures Valid()
      ensures result == 0 && !(block != 0 && newSize == 0) ==> errno == 12 && blocks == old(blocks)
      ensures result != 0 || (block != 0 && newSize == 0) ==> errno == old(errno)
      ensures block != 0 && newSize == 0 ==> result == 0 && blocks == old(blocks) - {block}
      ensures result != 0 && block == 0 ==>
                && newSize <= 0xFFFF_FFFF_FFFF_FFE0
                && result !in old(blocks) && result in blocks && blocks == old(blocks)[result := blocks[result]]
                && blocks[result].tag == tag && |blocks[result].bytes| == if newSize == 0 then 1 else newSize
      ensures result != 0 && block != 0 ==>
                && 0 < oldSize && 0 < newSize <= 0xFFFF_FFFF_FFFF_FFE0
                && result !in old(blocks) && result in blocks
                && blocks == (old(blocks) - {block})[result := blocks[result]]
                && blocks[result].tag == tag && |blocks[result].bytes| == newSize
                && forall k :: 0 <= k < newSize ==>
                     blocks[result].bytes[k] == if k < oldSize then old(blocks)[block].bytes[k] else 0
      ensures newSize > HEAP_MAXREQ ==> result == NULL && future == old(future)
      ensures block == NULL ==> freed == old(freed)
      ensures block == NULL && newSize <= HEAP_MAXREQ ==>
                var n := AtLeastOne(newSize);
                var a := Allocation(old(future), old(blocks).Keys, n);
                && result == Granted(a) && future == AfterAllocation(old(future), old(blocks).Keys, n)
                && (a.Some? ==> blocks == old(blocks)[result := Block(a.value.garbage, tag)])
      ensures block == NULL && result == NULL ==> errno == ENOMEM && blocks == old(blocks)
      ensures block != NULL && newSize == 0 ==>
                && result == NULL && future == old(future)
                && blocks == old(blocks) - {block} && freed == old(freed) + multiset{block}
      ensures block != NULL && newSize > 0 && result == NULL ==>
                errno == ENOMEM && blocks == old(blocks) && freed == old(freed)
      ensures block != NULL && newSize > 0 && result != NULL ==>
                && 0 < oldSize && newSize <= HEAP_MAXREQ && result !in old(blocks)
                && freed == old(freed) + multiset{block}
                && blocks == Replaced(old(blocks), block, result,
                                      Resized(old(blocks)[block].bytes, oldSize, newSize), tag)
      ensures block != NULL && 0 < newSize <= HEAP_MAXREQ && oldSize == 0 ==> future == AfterRefusal(old(future))
      ensures block != NULL && 0 < newSize <= HEAP_MAXREQ && 0 < oldSize ==>
                && result == Granted(Allocation(old(future), old(blocks).Keys, newSize))
                && future == AfterAllocation(old(future), old(blocks).Keys, newSize)
    {
      hide Resized, Replaced, Allocation, AfterAllocation, AfterRefusal, AtLeastOne;
      if block == NULL {
        result := Malloc(newSize, tag);
        return;
      }
      if newSize == 0 {
        Free(block, tag);
        return NULL;
      }
      if !(HEAP_MAXREQ >= newSize) {
        errno := ENOMEM;
        return NULL;
      }
      result := ResizeLoop(block, oldSize, newSize, tag);
      ReplacedBytes(old(blocks), block, result, oldSize, newSize, tag);
    }

    /** What krecalloc does once the sizes in bytes are known and the new one can be served. */
    twostate predicate RecallocOutcome(block: nat, oldBytes: nat, newBytes: nat, tag: nat, result: nat)
      requires oldBytes < BASE64 && newBytes < BASE64
      requires block != NULL ==> block in old(blocks) && oldBytes <= |old(blocks)[block].bytes|
      reads this
    {
      && (block == NULL ==>
            var n := AtLeastOne(newBytes);
            var a := Allocation(old(future), old(blocks).Keys, n);
            && result == Granted(a) && freed == old(freed)
            && future == AfterAllocation(old(future), old(blocks).Keys, n)
            && (a.None? ==> errno == ENOMEM && blocks == old(blocks))
            && (a.Some? ==> blocks == old(blocks)[result :=
                              Block(if newBytes == 0 then a.value.garbage else Zeros(newBytes), tag)]))
      && (block != NULL && newBytes == 0 ==>
            && result == NULL && future == old(future)
            && blocks == old(blocks) - {block} && freed == old(freed) + multiset{block})
      && (block != NULL && newBytes > 0 && oldBytes == 0 ==> result == NULL && future == AfterRefusal(old(future)))
      && (block != NULL && newBytes > 0 && oldBytes > 0 ==>
            && result == Granted(Allocation(old(future), old(blocks).Keys, newBytes))
            && future == AfterAllocation(old(future), old(blocks).Keys, newBytes))
      && (block != NULL && newBytes > 0 && result == NULL ==>
            errno == ENOMEM && blocks == old(blocks) && freed == old(freed))
      && (block != NULL && newBytes > 0 && result != NULL ==>
            && result !in old(blocks) && freed == old(freed) + multiset{block}
            && blocks == Replaced(old(blocks), block, result,
                                  Resized(old(blocks)[block].bytes, oldBytes, newBytes), tag))
    }

    method RecallocBytes(block: nat, oldBytes: size_t, newBytes: size_t, tag: nat) returns (result: nat)
      requires Valid() && newBytes <= HEAP_MAXREQ
      requires if block != NULL then Owned(block, tag) && oldBytes <= |blocks[block].bytes| else oldBytes == 0
      modifies this`blocks, this`errno, this`future, this`granted, this`freed
      ensures Valid() && RecallocOutcome(block, oldBytes, newBytes, tag, result)
      ensures result == 0 && !(block != 0 && newBytes == 0) ==> errno == 12 && blocks == old(blocks)
      ensures result != 0 || (block != 0 && newBytes == 0) ==> errno == old(errno)
      ensures block != 0 && newBytes == 0 ==> result == 0 && blocks == old(blocks) - {block}
      ensures result != 0 && block == 0 ==>
                && result !in old(blocks) && result in blocks && blocks == old(blocks)[result := blocks[result]]
                && blocks[result].tag == tag && |blocks[result].bytes| == (if newBytes == 0 then 1 else newBytes)
                && (newBytes > 0 ==> forall k :: 0 <= k < newBytes ==> blocks[result].bytes[k] == 0)
      ensures result != 0 && block != 0 ==>
                && 0 < oldBytes && 0 < newBytes && result !in old(blocks) && result in blocks
                && blocks == (old(blocks) - {block})[result := blocks[result]]
                && blocks[result].tag == tag && |blocks[result].bytes| == newBytes
                && forall k :: 0 <= k < newBytes ==>
                     blocks[result].bytes[k] == if k < oldBytes then old(blocks)[block].bytes[k] else 0
    {
      hide Resized, Replaced, Zeros, Allocation, AfterAllocation, AfterRefusal, Usable;
      result := Realloc(block, oldBytes, newBytes, tag);
      if result != NULL && oldBytes < newBytes {
        if block == NULL {
          ghost var a := Allocation(old(future), old(blocks).Keys, AtLeastOne(newBytes));
          assert a.Some?;
          ClearNew(result, newBytes, old(blocks), a.value.garbage, tag);
        } else {
          ClearTail(result, oldBytes, newBytes, old(blocks), block, old(blocks)[block].bytes, tag);
        }
      }
    }

    /**
      krecalloc: resizes an array of count elements from oldSize to newSize bytes each. Bytes beyond the old
      contents are zero.
     */
    method Recalloc(block: nat, count: size_t, oldSize: size_t, newSize: size_t, tag: nat) returns (result: nat)
      requires Valid()
      requires block != NULL ==> Owned(block, tag) && Total(count, oldSize) <= |blocks[block].bytes| < BASE64
      modifies this`blocks, this`errno, this`future, this`granted, this`freed
      ensures Valid()
      ensures result == 0 && !(block != 0 && count * newSize == 0) ==> errno == 12 && blocks == old(blocks)
      ensures result != 0 || (block != 0 && count * newSize == 0) ==> errno == old(errno)
      ensures block != 0 && count * newSize == 0 ==> result == 0 && blocks == old(blocks) - {block}
      ensures result != 0 && block == 0 ==>
                && count * newSize <= 0xFFFF_FFFF_FFFF_FFE0
                && result !in old(blocks) && result in blocks && blocks == old(blocks)[result := blocks[result]]
                && blocks[result].tag == tag
                && |blocks[result].bytes| == (if count * newSize == 0 then 1 else count * newSize)
                && (count * newSize > 0 ==>
                      forall k :: 0 <= k < |blocks[result].bytes| ==> blocks[result].bytes[k] == 0)
      ensures result != 0 && block != 0 ==>
                && 0 < count * oldSize && 0 < count * newSize <= 0xFFFF_FFFF_FFFF_FFE0
                && result !in old(blocks) && result in blocks
                && blocks == (old(blocks) - {block})[result := blocks[result]]
                && blocks[result].tag == tag && |blocks[result].bytes| == count * newSize
                && forall k :: 0 <= k < |blocks[result].bytes| ==>
                     if k < count * oldSize then
                       k < |old(blocks)[block].bytes| && blocks[result].bytes[k] == old(blocks)[block].bytes[k]
                     else
                       blocks[result].bytes[k] == 0
      ensures Total(count, newSize) > HEAP_MAXREQ ==>
                && result == NULL && errno == ENOMEM
                && blocks == old(blocks) && freed == old(freed) && future == old(future)
      ensures Total(count, newSize) <= HEAP_MAXREQ ==>
                RecallocOutcome(block, if block != NULL then Total(count, oldSize) else 0, Total(count, newSize), tag,
                                result)
    {
      hide Total, WrappedTotal, GuardPasses, RecallocOutcome;
      GuardIsExact(count, newSize);
      TotalIsProduct(count, oldSize);
      if !GuardPasses(count, newSize) {
        errno := ENOMEM;
        return NULL;
      }
      var oldBytes: size_t := 0;
      if block != NULL {
        SmallTotal(count, oldSize);
        oldBytes := WrappedTotal(count, oldSize);
      }
      result := RecallocBytes(block, oldBytes, WrappedTotal(count, newSize), tag);
    }

  }
}
