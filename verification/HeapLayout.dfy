/** Where kmalloc and the slab allocator put things inside a buddy block, as predicates on
    memory (src/kernel/heap.cpp, src/kernel/slab.cpp). */
module HeapLayout {
  import opened Collections
  import opened Dyadic
  import opened Ram
  import opened FreeList
  import Buddy

  const HEADER_SIZE: nat := 20           // sizeof(header_t)
  const HEAP_MAGIC: nat := 0xCAFEBABE
  const FREED_MAGIC: nat := 0xBADB00B5
  const SLAB_MAGIC: nat := 0x51AB51AB
  const SLAB_HEADER: nat := 24           // sizeof(slab_header_t)
  const PAGE_SIZE: nat := 4096
  const NUM_CACHES: nat := 7
  const NO_OBJECT: nat := 0xFFFF_FFFF

  /** What a live buddy block is used for. */
  datatype Use =
    | Large(size: nat, aligned: bool)          // one allocation; size includes header and padding
    | Slab(cache: nat, free: seq<nat>)         // a page of objects; the free ones in list order

  /** A block and, within a slab, an object of it. */
  datatype Ref = Ref(block: Block, idx: nat)

  function ObjSize(cache: nat): (n: nat)
    requires cache < NUM_CACHES
    ensures n > 0
  {
    [32, 64, 128, 256, 512, 1024, 2048][cache]
  }

  function ObjCount(cache: nat): (n: nat)
    requires cache < NUM_CACHES
    ensures n > 0
  {
    [127, 63, 31, 15, 7, 3, 1][cache]
  }

  /** Each cache has objects twice as large as the one before, and as many as fit in a page. */
  lemma ObjCountIs(cache: nat)
    requires cache < NUM_CACHES
    ensures ObjSize(cache) == 32 * Pow2(cache)
    ensures ObjCount(cache) == (PAGE_SIZE - SLAB_HEADER) / ObjSize(cache)
    ensures ObjCount(cache) * ObjSize(cache) <= PAGE_SIZE - SLAB_HEADER - 4
  {}

  /** Offset of object j from the end of the slab header. */
  function ObjOff(cache: nat, j: nat): nat
    requires cache < NUM_CACHES
  {
    if j == 0 then 0 else ObjOff(cache, j - 1) + ObjSize(cache)
  }

  lemma {:induction false} ObjOffIs(cache: nat, j: nat)
    requires cache < NUM_CACHES
    ensures ObjOff(cache, j) == j * ObjSize(cache)
  {
    if j > 0 {
      ObjOffIs(cache, j - 1);
      assert j * ObjSize(cache) == (j - 1) * ObjSize(cache) + ObjSize(cache);
    }
  }

  lemma {:induction false} ObjOffOrdered(cache: nat, i: nat, j: nat)
    requires cache < NUM_CACHES && i < j
    ensures ObjOff(cache, i) + ObjSize(cache) <= ObjOff(cache, j)
    decreases j
  {
    if i < j - 1 { ObjOffOrdered(cache, i, j - 1); }
  }

  lemma ObjOffBounds(cache: nat, j: nat)
    requires cache < NUM_CACHES && j < ObjCount(cache)
    ensures ObjOff(cache, j) + ObjSize(cache) <= 4068
  {
    ObjCountIs(cache);
    ObjOffIs(cache, ObjCount(cache));
    ObjOffOrdered(cache, j, ObjCount(cache));
  }

  /** How slab_free finds the index again. */
  lemma ObjIndex(cache: nat, j: nat)
    requires cache < NUM_CACHES
    ensures ObjOff(cache, j) % ObjSize(cache) == 0 && ObjOff(cache, j) / ObjSize(cache) == j
  {}

  lemma {:induction false} ObjWord(cache: nat, j: nat)
    requires cache < NUM_CACHES
    ensures ObjOff(cache, j) % 4 == 0
  {
    assert ObjSize(cache) % 4 == 0;
    if j > 0 { ObjWord(cache, j - 1); }
  }

  // ---- addresses; `bp` is the address of the buddy block ----

  function SlabHeader(bp: nat): nat { bp + PAGE_SIZE + 4 }

  function ObjAddr(bp: nat, cache: nat, j: nat): nat
    requires cache < NUM_CACHES
  {
    SlabHeader(bp) + SLAB_HEADER + ObjOff(cache, j)
  }

  function LargeAddr(bp: nat, aligned: bool): nat {
    if aligned then bp + PAGE_SIZE + 4 else bp + HEADER_SIZE + 4
  }

  function Overhead(aligned: bool): nat {
    if aligned then HEADER_SIZE + 4 + PAGE_SIZE else HEADER_SIZE + 4
  }

  /** Payloads start at words. */
  lemma LargeWord(bp: nat, aligned: bool)
    requires bp % 4096 == 0
    ensures LargeAddr(bp, aligned) % 4 == 0
  {
    Fourfold(LargeAddr(bp, aligned), 1024 * (bp / 4096) + if aligned then 1025 else 6);
  }

  lemma Fourfold(x: nat, q: nat)
    requires x == 4 * q
    ensures x % 4 == 0
  {}

  lemma ObjAddrWord(bp: nat, cache: nat, j: nat)
    requires bp % 4096 == 0 && cache < NUM_CACHES
    ensures ObjAddr(bp, cache, j) % 4 == 0
  {
    ObjWord(cache, j);
    WordSum(bp + 4124, ObjOff(cache, j));
  }

  lemma WordSum(a: nat, b: nat)
    requires a % 4 == 0 && b % 4 == 0
    ensures (a + b) % 4 == 0
  {}

  // ---- what memory holds ----

  ghost predicate LargeOk(bp: nat, order: nat, size: nat, aligned: bool, words: Words) {
    && Overhead(aligned) < size <= 0x8000_0000 && order == Buddy.RequestOrder(size)
    && Load(words, LargeAddr(bp, aligned) - 4) == bp
    && Load(words, bp + 8) == size
    && Load(words, bp + 16) == HEAP_MAGIC
    && (!aligned ==> Load(words, bp + 4) == 0)
  }

  ghost predicate SlabOk(bp: nat, order: nat, cache: nat, free: seq<nat>, words: Words) {
    && order == 14 && cache < NUM_CACHES && Distinct(free)
    && (forall k :: 0 <= k < |free| ==> free[k] < ObjCount(cache))
    && Load(words, SlabHeader(bp)) == SLAB_MAGIC
    && Load(words, SlabHeader(bp) + 4) == cache
    && Load(words, SlabHeader(bp) + 16) == |free|
    && FreeChain(bp, cache, free, Load(words, SlabHeader(bp) + 20), words)
  }

  /** The free list threaded through the first words of the free objects. */
  ghost predicate FreeChain(bp: nat, cache: nat, free: seq<nat>, head: nat, words: Words)
    requires cache < NUM_CACHES
  {
    if free == [] then head == NO_OBJECT
    else head == free[0] && FreeChain(bp, cache, free[1..], Load(words, ObjAddr(bp, cache, free[0])), words)
  }

  ghost predicate UseOk(bp: nat, order: nat, u: Use, words: Words) {
    match u
    case Large(size, aligned) => LargeOk(bp, order, size, aligned, words)
    case Slab(cache, free) => SlabOk(bp, order, cache, free, words)
  }

  lemma {:induction false} FreeChainFrame(bp: nat, cache: nat, free: seq<nat>, head: nat, words: Words, words': Words)
    requires cache < NUM_CACHES && FreeChain(bp, cache, free, head, words)
    requires forall j :: j in free ==> Load(words', ObjAddr(bp, cache, j)) == Load(words, ObjAddr(bp, cache, j))
    ensures FreeChain(bp, cache, free, head, words')
  {
    if free != [] {
      FreeChainFrame(bp, cache, free[1..], Load(words, ObjAddr(bp, cache, free[0])), words, words');
    }
  }

  /** Whether a block is well formed depends only on the words inside it. */
  lemma UseFrame(bp: nat, order: nat, u: Use, words: Words, words': Words)
    requires UseOk(bp, order, u, words) && order >= MIN_ORDER
    requires forall a :: bp <= a < bp + Pow2(order) ==> Load(words', a) == Load(words, a)
    ensures UseOk(bp, order, u, words')
  {
    OrderSizes(order);
    match u
    case Large(size, aligned) =>
    case Slab(cache, free) =>
      forall j | j in free ensures Load(words', ObjAddr(bp, cache, j)) == Load(words, ObjAddr(bp, cache, j)) {
        ObjOffBounds(cache, j);
      }
      FreeChainFrame(bp, cache, free, Load(words, SlabHeader(bp) + 20), words, words');
  }

  lemma OrderSizes(order: nat)
    requires order >= MIN_ORDER
    ensures Pow2(order) >= 4096 && (order >= 13 ==> Pow2(order) >= 8192) && (order >= 14 ==> Pow2(order) >= 16384)
  {}

  // ---- a new slab page ----

  /** The indices i, i + 1, .., n - 1. */
  function UpFrom(i: nat, n: nat): (s: seq<nat>)
    ensures |s| == if i < n then n - i else 0
    ensures forall k :: 0 <= k < |s| ==> s[k] == i + k
    decreases n - i
  {
    if i < n then [i] + UpFrom(i + 1, n) else []
  }

  /** Objects i.. are linked in ascending order. */
  lemma {:induction false} UpFromChain(bp: nat, cache: nat, i: nat, words: Words)
    requires cache < NUM_CACHES && i <= ObjCount(cache)
    requires forall k :: i <= k < ObjCount(cache) ==>
               Load(words, ObjAddr(bp, cache, k)) == if k + 1 < ObjCount(cache) then k + 1 else NO_OBJECT
    ensures FreeChain(bp, cache, UpFrom(i, ObjCount(cache)), if i < ObjCount(cache) then i else NO_OBJECT, words)
    decreases ObjCount(cache) - i
  {
    if i < ObjCount(cache) {
      UpFromChain(bp, cache, i + 1, words);
      assert UpFrom(i, ObjCount(cache))[1..] == UpFrom(i + 1, ObjCount(cache));
    }
  }

  // ---- taking and returning an object ----

  /** Memory after slab_alloc takes the object at `obj` off the free list. */
  function Taken(words: Words, slab: nat, obj: nat, size: nat, x: nat): nat {
    if obj <= x < obj + size then 0
    else if x == slab + 16 then (Load(words, x) + NO_OBJECT) % WORD
    else if x == slab + 20 then Load(words, obj)
    else Load(words, x)
  }

  lemma TakenOk(bp: nat, cache: nat, free: seq<nat>, words: Words, words': Words)
    requires SlabOk(bp, 14, cache, free, words) && free != []
    requires forall x: nat :: Load(words', x) ==
               Taken(words, SlabHeader(bp), ObjAddr(bp, cache, free[0]), ObjSize(cache), x)
    ensures SlabOk(bp, 14, cache, free[1..], words')
  {
    FewFree(cache, free);
    CountDown(|free|);
    OtherObjects(bp, cache, free[1..], free[0]);
    FreeChainFrame(bp, cache, free[1..], Load(words, ObjAddr(bp, cache, free[0])), words, words');
  }

  /** Decrementing a positive 32-bit counter. */
  lemma CountDown(n: nat)
    requires 0 < n < WORD
    ensures (n + NO_OBJECT) % WORD == n - 1
  {}

  /** Memory after slab_free puts the object at `obj`, with index `idx`, back. */
  function Returned(words: Words, slab: nat, obj: nat, idx: nat, x: nat): nat {
    if x == slab + 16 then (Load(words, x) + 1) % WORD
    else if x == slab + 20 then idx
    else if x == obj then Load(words, slab + 20)
    else Load(words, x)
  }

  lemma FewFree(cache: nat, free: seq<nat>)
    requires cache < NUM_CACHES && Distinct(free) && forall k :: 0 <= k < |free| ==> free[k] < ObjCount(cache)
    ensures |free| + 1 < WORD
  {
    Pigeonhole(free, Below(ObjCount(cache)));
  }

  /** The objects on a free list are not written when another one is. */
  lemma OtherObjects(bp: nat, cache: nat, free: seq<nat>, idx: nat)
    requires cache < NUM_CACHES && idx !in free
    ensures forall j :: j in free ==>
              || ObjAddr(bp, cache, j) + ObjSize(cache) <= ObjAddr(bp, cache, idx)
              || ObjAddr(bp, cache, idx) + ObjSize(cache) <= ObjAddr(bp, cache, j)
  {
    forall j | j in free
      ensures || ObjAddr(bp, cache, j) + ObjSize(cache) <= ObjAddr(bp, cache, idx)
              || ObjAddr(bp, cache, idx) + ObjSize(cache) <= ObjAddr(bp, cache, j)
    {
      if j < idx { ObjOffOrdered(cache, j, idx); } else { ObjOffOrdered(cache, idx, j); }
    }
  }

  lemma ReturnedOk(bp: nat, cache: nat, free: seq<nat>, idx: nat, words: Words, words': Words)
    requires SlabOk(bp, 14, cache, free, words) && idx < ObjCount(cache) && idx !in free
    requires forall x: nat :: Load(words', x) == Returned(words, SlabHeader(bp), ObjAddr(bp, cache, idx), idx, x)
    ensures SlabOk(bp, 14, cache, [idx] + free, words')
  {
    FewFree(cache, free);
    OtherObjects(bp, cache, free, idx);
    FreeChainFrame(bp, cache, free, Load(words, SlabHeader(bp) + 20), words, words');
    assert ([idx] + free)[1..] == free;
  }

  /** The `prev` pointer of a slab is not read. */
  lemma SlabPrevOk(bp: nat, cache: nat, free: seq<nat>, words: Words, v: Word)
    requires SlabOk(bp, 14, cache, free, words)
    ensures SlabOk(bp, 14, cache, free, Put(words, SlabHeader(bp) + 12, v))
  {
    FreeChainFrame(bp, cache, free, Load(words, SlabHeader(bp) + 20), words, Put(words, SlabHeader(bp) + 12, v));
  }

  // ---- the owner of a payload writes to it ----

  lemma LargeWriteOk(bp: nat, order: nat, size: nat, aligned: bool, words: Words, a: nat, v: Word)
    requires LargeOk(bp, order, size, aligned, words) && LargeAddr(bp, aligned) <= a
    ensures LargeOk(bp, order, size, aligned, Put(words, a, v))
  {}

  lemma SlabWriteOk(bp: nat, cache: nat, free: seq<nat>, idx: nat, words: Words, a: nat, v: Word)
    requires SlabOk(bp, 14, cache, free, words) && idx < ObjCount(cache) && idx !in free
    requires ObjAddr(bp, cache, idx) <= a < ObjAddr(bp, cache, idx) + ObjSize(cache)
    ensures SlabOk(bp, 14, cache, free, Put(words, a, v))
    ensures Load(Put(words, a, v), SlabHeader(bp) + 8) == Load(words, SlabHeader(bp) + 8)
  {
    OtherObjects(bp, cache, free, idx);
    FreeChainFrame(bp, cache, free, Load(words, SlabHeader(bp) + 20), words, Put(words, a, v));
  }
}
