/** kmalloc and kfree over the buddy allocator, with the slab allocator for small sizes
    (src/kernel/heap.cpp, src/kernel/slab.cpp). */
module Heap {
  import opened Collections
  import opened Dyadic
  import opened Tiling
  import opened Ram
  import opened HeapLayout
  import Buddy
  import FreeList

  type Uses = map<Block, Use>

  // ---- what is allocated ----

  ghost predicate LiveRef(uses: Uses, r: Ref) {
    r.block in uses &&
    match uses[r.block]
    case Large(_, _) => r.idx == 0
    case Slab(cache, free) => cache < NUM_CACHES && r.idx < ObjCount(cache) && r.idx !in free
  }

  /** The address handed out for a live reference. */
  ghost function RefAddr(uses: Uses, r: Ref, start: nat): nat
    requires LiveRef(uses, r)
  {
    match uses[r.block]
    case Large(_, aligned) => LargeAddr(start + Lo(r.block), aligned)
    case Slab(cache, _) => ObjAddr(start + Lo(r.block), cache, r.idx)
  }

  /** The number of bytes its owner may use. */
  ghost function RefLen(uses: Uses, r: Ref): nat
    requires LiveRef(uses, r)
  {
    match uses[r.block]
    case Large(size, aligned) => if size > Overhead(aligned) then size - Overhead(aligned) else 0
    case Slab(cache, _) => ObjSize(cache)
  }

  /** Names the block one wants to know about; it keeps the verifier from unfolding them all. */
  ghost predicate Look(b: Block) { true }

  ghost predicate UsesOk(uses: Uses, words: Words, start: nat) {
    forall b {:trigger Look(b)} :: b in uses ==> UseOk(start + Lo(b), b.order, uses[b], words)
  }

  // ---- the list of slabs of each cache ----

  ghost predicate SlabList(s: seq<Block>, head: nat, words: Words, start: nat) {
    if s == [] then head == 0
    else head == SlabHeader(start + Lo(s[0])) && SlabList(s[1..], Load(words, head + 8), words, start)
  }

  ghost predicate IsSlabOf(uses: Uses, b: Block, cache: nat) {
    b in uses && uses[b].Slab? && uses[b].cache == cache
  }

  ghost predicate CachesOk(chains: seq<seq<Block>>, heads: seq<Word>, uses: Uses, words: Words, start: nat) {
    && |chains| == |heads| == NUM_CACHES
    && (forall i {:trigger FreeList.Slot(i)} :: 0 <= i < NUM_CACHES ==> SlabList(chains[i], heads[i], words, start))
    && (forall i, b :: 0 <= i < NUM_CACHES && b in chains[i] ==> IsSlabOf(uses, b, i))
  }

  ghost predicate ListedAt(chains: seq<seq<Block>>, uses: Uses, b: Block)
    requires |chains| == NUM_CACHES
  {
    b in uses && uses[b].Slab? ==> uses[b].cache < NUM_CACHES && b in chains[uses[b].cache]
  }

  /** Every slab is on the list of its cache. */
  ghost predicate Listed(chains: seq<seq<Block>>, uses: Uses) {
    |chains| == NUM_CACHES && forall b {:trigger Look(b)} :: ListedAt(chains, uses, b)
  }

  /** No slab of a cache has a free object. */
  ghost predicate SlabsFull(uses: Uses, cache: nat) {
    forall b :: IsSlabOf(uses, b, cache) ==> uses[b].free == []
  }

  /** b is the first slab on the list with a free object. */
  ghost predicate FirstOpen(uses: Uses, s: seq<Block>, b: Block) {
    b in uses && uses[b].Slab? && uses[b].free != [] &&
    exists k :: 0 <= k < |s| && s[k] == b && AllFull(uses, s[..k])
  }

  ghost predicate AllFull(uses: Uses, s: seq<Block>) {
    forall b :: b in s ==> b in uses && uses[b].Slab? && uses[b].free == []
  }

  lemma CacheFull(chains: seq<seq<Block>>, uses: Uses, cache: nat)
    requires Listed(chains, uses) && cache < NUM_CACHES && AllFull(uses, chains[cache])
    ensures SlabsFull(uses, cache)
  {
    forall b | IsSlabOf(uses, b, cache) ensures uses[b].free == [] {
      assert Look(b);
    }
  }

  /** A block gets another use, but a slab stays in its cache. */
  lemma ListedUse(chains: seq<seq<Block>>, uses: Uses, b: Block, u: Use)
    requires Listed(chains, uses)
    requires u.Large? || (b in uses && uses[b].Slab? && u.cache == uses[b].cache)
    ensures Listed(chains, uses[b := u])
  {
    var uses' := uses[b := u];
    forall c ensures ListedAt(chains, uses', c) { assert Look(c); }
  }

  lemma ListedWithout(chains: seq<seq<Block>>, uses: Uses, b: Block)
    requires Listed(chains, uses)
    ensures Listed(chains, uses - {b})
  {
    forall c ensures ListedAt(chains, uses - {b}, c) { assert Look(c); }
  }

  lemma ListedPush(chains: seq<seq<Block>>, uses: Uses, cache: nat, b: Block, u: Use)
    requires Listed(chains, uses) && cache < NUM_CACHES && u.Slab? && u.cache == cache
    ensures Listed(chains[cache := [b] + chains[cache]], uses[b := u])
  {
    var chains', uses' := chains[cache := [b] + chains[cache]], uses[b := u];
    forall c ensures ListedAt(chains', uses', c) { assert Look(c); }
  }

  /** The cache that serves a small request. */
  predicate Serves(cache: nat, size: nat) {
    cache < NUM_CACHES && size <= ObjSize(cache) && (cache > 0 ==> ObjSize(cache - 1) < size)
  }

  /** No aligned range that a request of the buddy allocator could use is free. */
  ghost predicate NoRoomFor(required: nat, uses: Uses, covered: nat) {
    forall g: Block :: g.order == Buddy.RequestOrder(required) ==> !Gap(g, uses.Keys, covered)
  }

  /** A small request finds no free object in its cache, and no room for another slab. */
  ghost predicate NoObject(uses: Uses, size: nat, covered: nat) {
    && (forall cache :: Serves(cache, size) ==> SlabsFull(uses, cache))
    && NoRoomFor(PAGE_SIZE + Overhead(true), uses, covered)
  }

  lemma OneServes(cache: nat, cache': nat, size: nat)
    requires Serves(cache, size) && Serves(cache', size)
    ensures cache == cache'
  {}

  /** A block of its own, with its header. */
  ghost predicate TakenLarge(uses: Uses, uses': Uses, r: Ref, size: nat, align: bool) {
    r.block !in uses && r.idx == 0 && uses' == uses[r.block := Large(size + Overhead(align), align)]
  }

  /** A small request gets the first free object of the first slab of its cache that has one, or
      else the first object of a new slab. */
  ghost predicate ServedBySlab(uses: Uses, chains: seq<seq<Block>>, uses': Uses, r: Ref, size: nat) {
    && |chains| == NUM_CACHES && r.block in uses' && uses'[r.block].Slab? && Serves(uses'[r.block].cache, size)
    && var cache := uses'[r.block].cache;
       if SlabsFull(uses, cache) then
         r.block !in uses && r.idx == 0 && uses' == uses[r.block := Slab(cache, UpFrom(1, ObjCount(cache)))]
       else
         && FirstOpen(uses, chains[cache], r.block) && uses[r.block].free[0] == r.idx
         && uses' == uses[r.block := Slab(cache, uses[r.block].free[1..])]
  }

  lemma {:induction false} SlabListFrame(s: seq<Block>, head: nat, words: Words, words': Words, start: nat)
    requires SlabList(s, head, words, start)
    requires forall b :: b in s ==> NextKept(b, words, words', start)
    ensures SlabList(s, head, words', start)
  {
    if s != [] {
      assert s[0] in s;
      SlabListFrame(s[1..], Load(words, head + 8), words, words', start);
    }
  }

  // ---- payloads never overlap ----

  lemma RefInBlock(uses: Uses, r: Ref, words: Words, start: nat)
    requires UsesOk(uses, words, start) && LiveRef(uses, r) && r.block.order >= MIN_ORDER
    ensures start + Lo(r.block) + HEADER_SIZE + 4 <= RefAddr(uses, r, start)
    ensures 0 < RefLen(uses, r) && RefAddr(uses, r, start) + RefLen(uses, r) <= start + Hi(r.block)
  {
    assert Look(r.block);
    OrderSizes(r.block.order);
    match uses[r.block]
    case Large(size, aligned) =>
    case Slab(cache, free) => ObjOffBounds(cache, r.idx);
  }

  /** Distinct live allocations occupy disjoint address ranges inside the heap. */
  lemma PayloadsDisjoint(uses: Uses, r: Ref, r': Ref, free: set<Block>, words: Words, start: nat, covered: nat)
    requires Canonical(free, uses.Keys, covered) && UsesOk(uses, words, start)
    requires LiveRef(uses, r) && LiveRef(uses, r') && r != r'
    ensures || RefAddr(uses, r, start) + RefLen(uses, r) <= RefAddr(uses, r', start)
            || RefAddr(uses, r', start) + RefLen(uses, r') <= RefAddr(uses, r, start)
    ensures start <= RefAddr(uses, r, start) && RefAddr(uses, r, start) + RefLen(uses, r) <= start + covered
  {
    LiveApart(free, uses.Keys, r.block, covered);
    LiveApart(free, uses.Keys, r'.block, covered);
    if r.block != r'.block {
      RefInBlock(uses, r, words, start);
      RefInBlock(uses, r', words, start);
    } else {
      RefInBlock(uses, r, words, start);
      var cache := uses[r.block].cache;
      if r.idx < r'.idx { ObjOffOrdered(cache, r.idx, r'.idx); } else { ObjOffOrdered(cache, r'.idx, r.idx); }
    }
  }

  // ---- one block changes ----

  ghost predicate SameOutside(b: Block, words: Words, words': Words, start: nat) {
    forall a: nat :: !(start + Lo(b) <= a < start + Hi(b)) ==> Load(words', a) == Load(words, a)
  }

  lemma OtherBlockSame(b: Block, c: Block, live: set<Block>, free: set<Block>, words: Words, words': Words,
      start: nat, covered: nat)
    requires Canonical(free, live, covered) && b in live && c in live && b != c
    requires SameOutside(b, words, words', start)
    ensures forall a :: start + Lo(c) <= a < start + Lo(c) + Pow2(c.order) ==> Load(words', a) == Load(words, a)
    ensures c.order >= MIN_ORDER
  {}

  /** All uses but that of `b` survive writes inside `b`. */
  lemma OthersKept(uses: Uses, b: Block, live: set<Block>, free: set<Block>, words: Words, words': Words,
      start: nat, covered: nat)
    requires Canonical(free, live, covered) && uses.Keys <= live && b in live && UsesOk(uses, words, start)
    requires SameOutside(b, words, words', start)
    ensures UsesOk(uses - {b}, words', start)
  {
    forall c | c in uses - {b} ensures UseOk(start + Lo(c), c.order, (uses - {b})[c], words') {
      assert Look(c);
      OtherBlockSame(b, c, live, free, words, words', start, covered);
      UseFrame(start + Lo(c), c.order, uses[c], words, words');
    }
  }

  lemma UsesInsert(uses: Uses, b: Block, u: Use, words: Words, start: nat)
    requires UsesOk(uses - {b}, words, start) && UseOk(start + Lo(b), b.order, u, words)
    ensures UsesOk(uses[b := u], words, start)
  {
    forall c | c in uses[b := u] ensures UseOk(start + Lo(c), c.order, uses[b := u][c], words) {
      assert Look(c);
    }
  }

  ghost predicate NextKept(b: Block, words: Words, words': Words, start: nat) {
    Load(words', SlabHeader(start + Lo(b)) + 8) == Load(words, SlabHeader(start + Lo(b)) + 8)
  }

  lemma NextKeptElsewhere(b: Block, c: Block, uses: Uses, live: set<Block>, free: set<Block>,
                          words: Words, words': Words, start: nat, covered: nat)
    requires Canonical(free, live, covered) && uses.Keys <= live && UsesOk(uses, words, start)
    requires b in live && c in uses && b != c && uses[c].Slab?
    requires SameOutside(b, words, words', start)
    ensures NextKept(c, words, words', start)
  {
    assert Look(c);
    OtherBlockSame(b, c, live, free, words, words', start, covered);
    OrderSizes(c.order);
  }

  lemma CachesAfterWrite(chains: seq<seq<Block>>, heads: seq<Word>, uses: Uses, b: Block, u: Use, live: set<Block>,
                         free: set<Block>, words: Words, words': Words, start: nat, covered: nat)
    requires Canonical(free, live, covered) && uses.Keys <= live && UsesOk(uses, words, start) && b in live
    requires CachesOk(chains, heads, uses, words, start)
    requires b in uses && uses[b].Slab? ==> u.Slab? && u.cache == uses[b].cache && NextKept(b, words, words', start)
    requires SameOutside(b, words, words', start)
    ensures CachesOk(chains, heads, uses[b := u], words', start)
  {
    forall i | 0 <= i < NUM_CACHES ensures SlabList(chains[i], heads[i], words', start) {
      assert FreeList.Slot(i);
      forall c | c in chains[i] ensures NextKept(c, words, words', start) {
        assert IsSlabOf(uses, c, i);
        if c != b { NextKeptElsewhere(b, c, uses, live, free, words, words', start, covered); }
      }
      SlabListFrame(chains[i], heads[i], words, words', start);
    }
    forall i, c | 0 <= i < NUM_CACHES && c in chains[i] ensures IsSlabOf(uses[b := u], c, i) {
      assert IsSlabOf(uses, c, i);
    }
  }

  ghost predicate SameWithin(uses: Uses, words: Words, words': Words, start: nat) {
    forall b, a {:trigger b in uses, Load(words', a)} ::
      b in uses && start + Lo(b) <= a < start + Lo(b) + Size(b) ==> Load(words', a) == Load(words, a)
  }

  /** Nothing changes when the words of all live blocks keep their values. */
  lemma AllKept(uses: Uses, chains: seq<seq<Block>>, heads: seq<Word>, words: Words, words': Words, start: nat)
    requires UsesOk(uses, words, start) && CachesOk(chains, heads, uses, words, start)
    requires SameWithin(uses, words, words', start)
    requires forall b {:trigger b in uses} :: b in uses ==> b.order >= MIN_ORDER
    ensures UsesOk(uses, words', start) && CachesOk(chains, heads, uses, words', start)
  {
    forall b | b in uses ensures UseOk(start + Lo(b), b.order, uses[b], words') {
      assert Look(b);
      UseFrame(start + Lo(b), b.order, uses[b], words, words');
    }
    forall i | 0 <= i < NUM_CACHES ensures SlabList(chains[i], heads[i], words', start) {
      assert FreeList.Slot(i);
      forall c | c in chains[i] ensures NextKept(c, words, words', start) {
        assert IsSlabOf(uses, c, i) && Look(c);
        OrderSizes(c.order);
      }
      SlabListFrame(chains[i], heads[i], words, words', start);
    }
  }

  function HeaderWritten(words: Words, bp: nat, size: nat, align: bool): Words
    requires bp < WORD && size < WORD
  {
    words[LargeAddr(bp, align) - 4 := bp][bp + 8 := size][bp + 12 := 1][bp + 16 := HEAP_MAGIC]
  }

  lemma HeaderWords(b: Block, bp: nat, size: nat, align: bool, words: Words, start: nat)
    requires bp == start + Lo(b) < WORD && b.order == Buddy.RequestOrder(size)
    requires Overhead(align) < size <= 0x8000_0000
    requires forall a :: bp <= a < bp + Size(b) ==> Load(words, a) == 0
    ensures var words' := HeaderWritten(words, bp, size, align);
            && LargeOk(bp, b.order, size, align, words') && SameOutside(b, words, words', start)
            && (forall a :: LargeAddr(bp, align) <= a < bp + Size(b) ==> Load(words', a) == 0)
  {
    OrderSizes(b.order);
    var words' := HeaderWritten(words, bp, size, align);
    HeaderLarge(bp, b.order, size, align, words);
    HeaderZeros(bp, Pow2(b.order), size, align, words);
    assert SameOutside(b, words, words', start);
  }

  lemma HeaderLarge(bp: nat, order: nat, size: nat, align: bool, words: Words)
    requires bp < WORD && order == Buddy.RequestOrder(size) && Overhead(align) < size <= 0x8000_0000
    requires Load(words, bp + 4) == 0
    ensures LargeOk(bp, order, size, align, HeaderWritten(words, bp, size, align))
  {}

  lemma HeaderZeros(bp: nat, len: nat, size: nat, align: bool, words: Words)
    requires bp < WORD && size < WORD
    requires forall a :: bp <= a < bp + len ==> Load(words, a) == 0
    ensures forall a :: LargeAddr(bp, align) <= a < bp + len ==> Load(HeaderWritten(words, bp, size, align), a) == 0
  {
    forall a | LargeAddr(bp, align) <= a < bp + len ensures Load(HeaderWritten(words, bp, size, align), a) == 0 {
      assert Load(words, a) == 0;
    }
  }

  /** The bytes owned by live allocations have the same values in both memories. */
  ghost predicate PayloadsSame(uses: Uses, words: Words, words': Words, start: nat) {
    forall r, a {:trigger LiveRef(uses, r), Load(words', a)} ::
      LiveRef(uses, r) && RefAddr(uses, r, start) <= a < RefAddr(uses, r, start) + RefLen(uses, r) ==>
        Load(words', a) == Load(words, a)
  }

  lemma WithinIsPayloads(uses: Uses, words: Words, words': Words, start: nat)
    requires UsesOk(uses, words, start) && SameWithin(uses, words, words', start)
    requires forall b {:trigger b in uses} :: b in uses ==> b.order >= MIN_ORDER
    ensures PayloadsSame(uses, words, words', start)
  {
    forall r | LiveRef(uses, r)
      ensures forall a :: RefAddr(uses, r, start) <= a < RefAddr(uses, r, start) + RefLen(uses, r) ==>
                Load(words', a) == Load(words, a)
    {
      assert r.block in uses;
      RefInBlock(uses, r, words, start);
    }
  }

  lemma CachesPush(chains: seq<seq<Block>>, heads: seq<Word>, uses: Uses, words: Words, start: nat,
      cache: nat, b: Block)
    requires CachesOk(chains, heads, uses, words, start) && cache < NUM_CACHES && IsSlabOf(uses, b, cache)
    requires SlabHeader(start + Lo(b)) < WORD
    requires Load(words, SlabHeader(start + Lo(b)) + 8) == heads[cache]
    ensures CachesOk(chains[cache := [b] + chains[cache]], heads[cache := SlabHeader(start + Lo(b))],
                     uses, words, start)
  {
    var chains', heads' := chains[cache := [b] + chains[cache]], heads[cache := SlabHeader(start + Lo(b))];
    forall i | 0 <= i < NUM_CACHES ensures SlabList(chains'[i], heads'[i], words, start) {
      assert FreeList.Slot(i);
      assert ([b] + chains[cache])[1..] == chains[cache];
    }
  }

  lemma PageSum(a: nat, b: nat)
    requires a % 4096 == 0 && b % 4096 == 0
    ensures (a + b) % 4096 == 0
  {}

  lemma UsesShrink(uses: Uses, b: Block, u: Use, words: Words, start: nat)
    requires UsesOk(uses[b := u], words, start) && b !in uses
    ensures UsesOk(uses, words, start)
  {
    forall c | c in uses ensures UseOk(start + Lo(c), c.order, uses[c], words) {
      assert Look(c);
    }
  }

  lemma LiveRefsGrow(uses: Uses, b: Block, u: Use, start: nat)
    requires b !in uses
    ensures forall r {:trigger LiveRef(uses, r)} :: LiveRef(uses, r) ==>
              && LiveRef(uses[b := u], r) && RefAddr(uses[b := u], r, start) == RefAddr(uses, r, start)
              && RefLen(uses[b := u], r) == RefLen(uses, r)
  {}

  /** Payloads of other blocks are not touched by writes inside `b`. */
  lemma OutsideIsPayloads(uses: Uses, b: Block, free: set<Block>, live: set<Block>, words: Words, words': Words,
      start: nat, covered: nat)
    requires Canonical(free, live, covered) && uses.Keys <= live && b in live && b !in uses
    requires UsesOk(uses, words, start) && SameOutside(b, words, words', start)
    ensures PayloadsSame(uses, words, words', start)
  {
    forall r | LiveRef(uses, r)
      ensures forall a :: RefAddr(uses, r, start) <= a < RefAddr(uses, r, start) + RefLen(uses, r) ==>
                Load(words', a) == Load(words, a)
    {
      OtherBlockSame(b, r.block, live, free, words, words', start, covered);
      RefInBlock(uses, r, words, start);
    }
  }

  // ---- one object of a slab changes hands ----

  /** Only the words of object j and the two list words of its slab's header change. */
  ghost predicate ObjectOnly(bp: nat, cache: nat, j: nat, words: Words, words': Words)
    requires cache < NUM_CACHES
  {
    forall x: nat {:trigger Load(words', x)} ::
      (!(ObjAddr(bp, cache, j) <= x < ObjAddr(bp, cache, j) + ObjSize(cache))
       && x != SlabHeader(bp) + 16 && x != SlabHeader(bp) + 20) ==> Load(words', x) == Load(words, x)
  }

  lemma TakenOnly(bp: nat, cache: nat, j: nat, words: Words, words': Words)
    requires cache < NUM_CACHES
    requires forall x: nat :: Load(words', x) == Taken(words, SlabHeader(bp), ObjAddr(bp, cache, j), ObjSize(cache), x)
    ensures ObjectOnly(bp, cache, j, words, words')
  {}

  lemma ReturnedOnly(bp: nat, cache: nat, j: nat, words: Words, words': Words)
    requires cache < NUM_CACHES
    requires forall x: nat :: Load(words', x) == Returned(words, SlabHeader(bp), ObjAddr(bp, cache, j), j, x)
    ensures ObjectOnly(bp, cache, j, words, words')
  {}

  /** A range meets neither the header of a slab nor its object j. */
  predicate Clear(bp: nat, cache: nat, j: nat, addr: nat, len: nat)
    requires cache < NUM_CACHES
  {
    || addr + len <= bp + PAGE_SIZE
    || (SlabHeader(bp) + SLAB_HEADER <= addr
        && (addr + len <= ObjAddr(bp, cache, j) || ObjAddr(bp, cache, j) + ObjSize(cache) <= addr))
  }

  /** All live payloads but that of object j itself are clear of it. */
  ghost predicate ObjectApart(uses: Uses, b: Block, cache: nat, j: nat, start: nat)
    requires cache < NUM_CACHES
  {
    forall r {:trigger LiveRef(uses, r)} :: LiveRef(uses, r) && r != Ref(b, j) ==>
      Clear(start + Lo(b), cache, j, RefAddr(uses, r, start), RefLen(uses, r))
  }

  /** So they keep their bytes. */
  lemma ObjectPayloads(uses: Uses, b: Block, cache: nat, j: nat, words: Words, words': Words, start: nat)
    requires cache < NUM_CACHES && ObjectApart(uses, b, cache, j, start) && !LiveRef(uses, Ref(b, j))
    requires ObjectOnly(start + Lo(b), cache, j, words, words')
    ensures PayloadsSame(uses, words, words', start)
  {}

  lemma ObjectInside(b: Block, cache: nat, j: nat, words: Words, words': Words, start: nat)
    requires cache < NUM_CACHES && j < ObjCount(cache) && b.order == 14
    requires ObjectOnly(start + Lo(b), cache, j, words, words')
    ensures SameOutside(b, words, words', start) && NextKept(b, words, words', start)
  {
    ObjOffBounds(cache, j);
    OrderSizes(14);
  }

  // ---- what an allocation and a release do to the set of live references ----

  ghost predicate SameAddress(uses: Uses, uses': Uses, r: Ref, start: nat) {
    && LiveRef(uses, r) && LiveRef(uses', r)
    && RefAddr(uses', r, start) == RefAddr(uses, r, start) && RefLen(uses', r) == RefLen(uses, r)
  }

  /** uses' has the live references of uses and `r`, each at its old address. */
  ghost predicate Extended(uses: Uses, uses': Uses, r: Ref, start: nat) {
    && !LiveRef(uses, r) && LiveRef(uses', r)
    && (forall q {:trigger LiveRef(uses', q)} :: LiveRef(uses', q) && q != r ==> SameAddress(uses, uses', q, start))
    && (forall q {:trigger LiveRef(uses, q)} :: LiveRef(uses, q) ==> SameAddress(uses, uses', q, start))
  }

  /** A freed object becomes the first free one of its slab, a large allocation disappears. */
  ghost function Freed(uses: Uses, r: Ref): Uses
    requires r.block in uses
  {
    match uses[r.block]
    case Large(_, _) => uses - {r.block}
    case Slab(cache, free) => uses[r.block := Slab(cache, [r.idx] + free)]
  }

  lemma LargeExtends(uses: Uses, b: Block, size: nat, aligned: bool, start: nat)
    requires b !in uses
    ensures Extended(uses, uses[b := Large(size, aligned)], Ref(b, 0), start)
  {}

  /** Freeing a large allocation is the reverse. */
  lemma LargeFreed(uses: Uses, b: Block, start: nat)
    requires b in uses && uses[b].Large?
    ensures Extended(uses - {b}, uses, Ref(b, 0), start)
  {
    LargeExtends(uses - {b}, b, uses[b].size, uses[b].aligned, start);
    assert (uses - {b})[b := uses[b]] == uses;
  }

  lemma TakeExtends(uses: Uses, b: Block, cache: nat, free: seq<nat>, start: nat)
    requires b in uses && uses[b] == Slab(cache, free) && cache < NUM_CACHES && free != [] && Distinct(free)
    requires free[0] < ObjCount(cache)
    ensures Extended(uses, uses[b := Slab(cache, free[1..])], Ref(b, free[0]), start)
  {}

  /** Freeing an object is the reverse of taking it. */
  lemma ReturnExtends(uses: Uses, r: Ref, start: nat)
    requires LiveRef(uses, r) && uses[r.block].Slab?
    ensures var Slab(cache, free) := uses[r.block];
            Extended(uses[r.block := Slab(cache, [r.idx] + free)], uses, r, start)
  {}

  lemma CachesForget(chains: seq<seq<Block>>, heads: seq<Word>, uses: Uses, b: Block, words: Words, start: nat)
    requires CachesOk(chains, heads, uses, words, start) && b in uses && uses[b].Large?
    ensures CachesOk(chains, heads, uses - {b}, words, start)
  {
    forall i | 0 <= i < NUM_CACHES ensures SlabList(chains[i], heads[i], words, start) {
      assert FreeList.Slot(i);
    }
    forall i, c | 0 <= i < NUM_CACHES && c in chains[i] ensures IsSlabOf(uses - {b}, c, i) {
      assert IsSlabOf(uses, c, i);
    }
  }

  lemma UsesWithout(uses: Uses, b: Block, words: Words, start: nat)
    requires UsesOk(uses, words, start)
    ensures UsesOk(uses - {b}, words, start)
  {
    forall c | c in uses - {b} ensures UseOk(start + Lo(c), c.order, (uses - {b})[c], words) {
      assert Look(c);
    }
  }

  /** A new page with every object free adds no live reference. */
  lemma PageExtends(uses: Uses, b: Block, cache: nat, r: Ref, uses'': Uses, start: nat)
    requires b !in uses && cache < NUM_CACHES
    requires Extended(uses[b := Slab(cache, UpFrom(0, ObjCount(cache)))], uses'', r, start)
    ensures Extended(uses, uses'', r, start)
  {
    var uses' := uses[b := Slab(cache, UpFrom(0, ObjCount(cache)))];
    forall j: nat | j < ObjCount(cache) ensures j in UpFrom(0, ObjCount(cache)) {
      assert UpFrom(0, ObjCount(cache))[j] == j;
    }
    forall q | LiveRef(uses, q) ensures SameAddress(uses, uses'', q, start) {
      assert LiveRef(uses', q);
    }
    forall q | LiveRef(uses'', q) && q != r ensures SameAddress(uses, uses'', q, start) {
      assert LiveRef(uses', q);
    }
  }

  method GetSlabIndex(size: nat) returns (idx: int)
    ensures idx == -1 <==> size > 2048
    ensures size <= 2048 ==> idx >= 0 && Serves(idx, size)
  {
    if size <= 32 { return 0; }
    if size <= 64 { return 1; }
    if size <= 128 { return 2; }
    if size <= 256 { return 3; }
    if size <= 512 { return 4; }
    if size <= 1024 { return 5; }
    if size <= 2048 { return 6; }
    return -1;
  }

  class KernelHeap {
    const ram: Memory
    const buddy: Buddy.BuddyAllocator
    const firstSlab: array<Word>
    var slabReady: bool
    ghost var uses: Uses
    ghost var chains: seq<seq<Block>>

    ghost function Bp(b: Block): nat { buddy.startAddr + Lo(b) }

    ghost predicate Layered()
      reads this, buddy, buddy.freeLists, buddy.freeLists.heads, ram
    {
      && buddy.ram == ram && buddy.startAddr % 4096 == 0 && buddy.Valid()
      && firstSlab.Length == NUM_CACHES && firstSlab != buddy.freeLists.heads
    }

    ghost predicate Valid()
      reads this, buddy, buddy.freeLists, buddy.freeLists.heads, ram, firstSlab
    {
      && Layered()
      && buddy.live == uses.Keys
      && UsesOk(uses, ram.words, buddy.startAddr)
      && CachesOk(chains, firstSlab[..], uses, ram.words, buddy.startAddr)
      && Listed(chains, uses)
      && (!slabReady ==> forall b {:trigger b in uses} :: b in uses ==> uses[b].Large?)
    }

    /** init_kheap, for page-aligned bounds */
    constructor (ram: Memory, start: nat, end: nat)
      requires 0 < start <= end < WORD && start % 4096 == 0 && end % 4096 == 0 && end - start < 0x8000_0000
      modifies ram
      ensures Valid() && uses == map[] && !slabReady && buddy.free == buddy.initial
      ensures fresh(buddy) && fresh(buddy.freeLists) && fresh(buddy.freeLists.heads) && fresh(firstSlab)
      ensures this.ram == ram && buddy.startAddr == start && buddy.covered == end - start
    {
      this.ram := ram;
      buddy := new Buddy.BuddyAllocator(ram, start, end);
      firstSlab := new Word[NUM_CACHES](_ => 0);
      slabReady := false;
      uses, chains := map[], seq(NUM_CACHES, _ => []);
      new;
      forall i | 0 <= i < NUM_CACHES ensures SlabList(chains[i], firstSlab[i], ram.words, start) {}
      forall c ensures ListedAt(chains, uses, c) {}
    }

    /** slab_init, and the flag the kernel sets after it */
    method StartSlabs()
      requires Valid() && !slabReady
      modifies this`slabReady
      ensures Valid() && slabReady && uses == old(uses)
    {
      slabReady := true;
    }

    /** The header and the hidden pointer of a fresh block. */
    method WriteHeader(bp: nat, size: nat, align: bool) returns (ptr: nat)
      requires bp % 4096 == 0 && bp + 16 < WORD && size < WORD
      modifies ram
      ensures ptr == LargeAddr(bp, align) && ram.words == HeaderWritten(old(ram.words), bp, size, align)
    {
      ptr := bp + HEADER_SIZE;
      if align && ptr % 4096 != 0 {
        ptr := (ptr + 0xFFF) - (ptr + 0xFFF) % 4096;
      }
      ptr := ptr + 4;
      ram.Store(ptr - 4, bp);
      ram.Store(bp + 8, size);
      ram.Store(bp + 12, 1);
      ram.Store(bp + 16, HEAP_MAGIC);
    }

    /** What must hold of new memory contents for a write into block `b`, used as `u` from
        then on, to keep the heap valid. */
    lemma WriteKeeps(b: Block, u: Use, words': Words)
      requires Layered() && buddy.live == uses.Keys + {b}
      requires UsesOk(uses, ram.words, buddy.startAddr)
      requires CachesOk(chains, firstSlab[..], uses, ram.words, buddy.startAddr)
      requires UseOk(Bp(b), b.order, u, words') && SameOutside(b, ram.words, words', buddy.startAddr)
      requires b in uses && uses[b].Slab? ==>
                 u.Slab? && u.cache == uses[b].cache && NextKept(b, ram.words, words', buddy.startAddr)
      ensures FreeList.AllLinked(buddy.freeLists.lists, buddy.freeLists.heads[..], words')
      ensures UsesOk(uses[b := u], words', buddy.startAddr)
      ensures CachesOk(chains, firstSlab[..], uses[b := u], words', buddy.startAddr)
    {
      buddy.OwnerMayWrite(b, words');
      OthersKept(uses, b, buddy.live, buddy.free, ram.words, words', buddy.startAddr, buddy.covered);
      UsesInsert(uses, b, u, words', buddy.startAddr);
      CachesAfterWrite(chains, firstSlab[..], uses, b, u, buddy.live, buddy.free, ram.words, words',
                       buddy.startAddr, buddy.covered);
    }

    /** buddy_alloc, seen from the heap: a zeroed block nobody uses yet. */
    method FreshBlock(required: nat) returns (bp: nat, ghost b: Block)
      requires Valid() && required <= 0x8000_0000
      modifies buddy`free, buddy`blocks, buddy`live, buddy.freeLists, buddy.freeLists.heads, ram
      ensures Layered() && UsesOk(uses, ram.words, buddy.startAddr)
      ensures CachesOk(chains, firstSlab[..], uses, ram.words, buddy.startAddr)
      ensures SameWithin(uses, old(ram.words), ram.words, buddy.startAddr)
      ensures bp == 0 ==> buddy.live == uses.Keys && buddy.free == old(buddy.free) && buddy.blocks == old(buddy.blocks)
      ensures bp == 0 <==> NoRoomFor(required, uses, buddy.covered)
      ensures bp != 0 ==> b !in uses && buddy.live == uses.Keys + {b}
      ensures bp != 0 ==> bp == Bp(b) && b.order == Buddy.RequestOrder(required)
      ensures bp != 0 ==> Buddy.CutFromBest(old(buddy.blocks), old(buddy.free), b)
      ensures bp != 0 ==> forall a :: bp <= a < bp + Size(b) ==> Load(ram.words, a) == 0
    {
      ghost var words := ram.words;
      bp, b := buddy.Alloc(required);
      AllKept(uses, chains, firstSlab[..], words, ram.words, buddy.startAddr);
    }

    /** The part of kmalloc_real that asks the buddy allocator. */
    method LargeAlloc(size: nat, align: bool) returns (ptr: nat, ghost b: Block)
      requires Valid() && 0 < size && size + Overhead(align) <= 0x8000_0000
      modifies this`uses
      modifies buddy`free, buddy`blocks, buddy`live, buddy.freeLists, buddy.freeLists.heads, ram
      ensures Valid() && SameWithin(old(uses), old(ram.words), ram.words, buddy.startAddr)
      ensures ptr == 0 ==> uses == old(uses) && buddy.free == old(buddy.free) && buddy.blocks == old(buddy.blocks)
      ensures ptr == 0 <==> NoRoomFor(size + Overhead(align), old(uses), buddy.covered)
      ensures ptr != 0 ==> b !in old(uses) && uses == old(uses)[b := Large(size + Overhead(align), align)]
      ensures ptr != 0 ==> ptr == LargeAddr(Bp(b), align)
      ensures ptr != 0 ==> Buddy.CutFromBest(old(buddy.blocks), old(buddy.free), b)
      ensures ptr != 0 ==> forall a :: ptr <= a < Bp(b) + Size(b) ==> Load(ram.words, a) == 0
    {
      var required := size + HEADER_SIZE + 4;
      if align { required := required + 4096; }
      var bp;
      bp, b := FreshBlock(required);
      if bp == 0 { return 0, b; }
      ptr := InstallLarge(bp, required, align, b);
    }

    method InstallLarge(bp: nat, required: nat, align: bool, ghost b: Block) returns (ptr: nat)
      requires Layered() && UsesOk(uses, ram.words, buddy.startAddr)
      requires CachesOk(chains, firstSlab[..], uses, ram.words, buddy.startAddr) && Listed(chains, uses)
      requires !slabReady ==> forall c {:trigger c in uses} :: c in uses ==> uses[c].Large?
      requires b !in uses && buddy.live == uses.Keys + {b}
      requires bp == Bp(b) && b.order == Buddy.RequestOrder(required) && Overhead(align) < required <= 0x8000_0000
      requires forall a :: bp <= a < bp + Size(b) ==> Load(ram.words, a) == 0
      modifies this`uses, ram
      ensures Valid() && uses == old(uses)[b := Large(required, align)] && ptr == LargeAddr(bp, align)
      ensures SameOutside(b, old(ram.words), ram.words, buddy.startAddr)
      ensures SameWithin(old(uses), old(ram.words), ram.words, buddy.startAddr)
      ensures forall a :: ptr <= a < bp + Size(b) ==> Load(ram.words, a) == 0
    {
      LiveBounds(b);
      HeaderWords(b, bp, required, align, ram.words, buddy.startAddr);
      ghost var words' := HeaderWritten(ram.words, bp, required, align);
      WriteKeeps(b, Large(required, align), words');
      OutsideIsWithin(b, words');
      ListedUse(chains, uses, b, Large(required, align));
      ptr := WriteHeader(bp, required, align);
      uses := uses[b := Large(required, align)];
    }

    lemma LiveBounds(b: Block)
      requires Layered() && b in buddy.live
      ensures Bp(b) % 4096 == 0 && 0 < Bp(b) && Bp(b) + 4096 <= Bp(b) + Size(b) < WORD && b.order >= MIN_ORDER
    {
      LiveApart(buddy.free, buddy.live, b, buddy.covered);
      PageMultiple(b);
      PageSum(buddy.startAddr, Lo(b));
      OrderSizes(b.order);
    }

    lemma OutsideIsWithin(b: Block, words': Words)
      requires Layered() && b in buddy.live && uses.Keys <= buddy.live && b !in uses
      requires SameOutside(b, ram.words, words', buddy.startAddr)
      ensures SameWithin(uses, ram.words, words', buddy.startAddr)
    {}

    /** Each object of a new slab points to the next one. */
    method LinkObjects(base: nat, cache: nat, size: nat, count: nat, ghost bp: nat)
      requires cache < NUM_CACHES && size == ObjSize(cache) && count == ObjCount(cache) > 0
      requires base == SlabHeader(bp) + SLAB_HEADER
      modifies ram
      ensures forall a: nat :: !(base <= a < base + 4068) ==> Load(ram.words, a) == Load(old(ram.words), a)
      ensures forall k :: 0 <= k < count ==>
                Load(ram.words, ObjAddr(bp, cache, k)) == if k + 1 < count then k + 1 else NO_OBJECT
    {
      var i := 0;
      while i < count - 1
        invariant i <= count - 1
        invariant forall k :: 0 <= k < i ==> Load(ram.words, ObjAddr(bp, cache, k)) == k + 1
        invariant forall a: nat :: !(base <= a < base + 4068) ==> Load(ram.words, a) == Load(old(ram.words), a)
      {
        ObjectBefore(bp, cache, i);
        ram.Store(base + i * size, i + 1);
        i := i + 1;
      }
      ObjectBefore(bp, cache, i);
      ram.Store(base + i * size, NO_OBJECT);
    }

    /** Where object i lies, behind all those before it. */
    lemma ObjectBefore(bp: nat, cache: nat, i: nat)
      requires cache < NUM_CACHES && i < ObjCount(cache)
      ensures ObjAddr(bp, cache, i) == SlabHeader(bp) + SLAB_HEADER + i * ObjSize(cache)
      ensures ObjAddr(bp, cache, i) < SlabHeader(bp) + SLAB_HEADER + 4068
      ensures forall k :: 0 <= k < i ==> ObjAddr(bp, cache, k) < ObjAddr(bp, cache, i)
    {
      ObjOffIs(cache, i);
      ObjOffBounds(cache, i);
      forall k | 0 <= k < i ensures ObjAddr(bp, cache, k) < ObjAddr(bp, cache, i) { ObjOffOrdered(cache, k, i); }
    }

    /** Fill in the header of a new slab and link its objects. */
    method FormatSlab(slab: nat, cache: nat, next: Word, ghost bp: nat)
      requires cache < NUM_CACHES && slab == SlabHeader(bp) && slab + PAGE_SIZE < WORD
      modifies ram
      ensures forall a: nat :: !(slab <= a < slab + PAGE_SIZE - 4) ==> Load(ram.words, a) == Load(old(ram.words), a)
      ensures SlabOk(bp, 14, cache, UpFrom(0, ObjCount(cache)), ram.words)
      ensures Load(ram.words, slab + 8) == next
    {
      var size, count := ObjSize(cache), (PAGE_SIZE - SLAB_HEADER) / ObjSize(cache);
      ObjCountIs(cache);
      ram.Store(slab, SLAB_MAGIC);
      ram.Store(slab + 4, cache);
      ram.Store(slab + 12, 0);
      ram.Store(slab + 8, next);
      ram.Store(slab + 16, count);
      ram.Store(slab + 20, 0);
      LinkObjects(slab + SLAB_HEADER, cache, size, count, bp);
      UpFromChain(bp, cache, 0, ram.words);
    }

    /** WriteKeeps for contents not known beforehand. */
    lemma WriteKeepsAny(b: Block, u: Use)
      requires Valid() && b in uses
      requires uses[b].Slab? ==> u.Slab? && u.cache == uses[b].cache
      ensures forall words' {:trigger SameOutside(b, ram.words, words', buddy.startAddr)} ::
                && UseOk(Bp(b), b.order, u, words') && SameOutside(b, ram.words, words', buddy.startAddr)
                && (uses[b].Slab? ==> NextKept(b, ram.words, words', buddy.startAddr)) ==>
                && FreeList.AllLinked(buddy.freeLists.lists, buddy.freeLists.heads[..], words')
                && UsesOk(uses[b := u], words', buddy.startAddr)
                && CachesOk(chains, firstSlab[..], uses[b := u], words', buddy.startAddr)
    {
      assert uses.Keys + {b} == uses.Keys;
      forall words': Words |
        && UseOk(Bp(b), b.order, u, words') && SameOutside(b, ram.words, words', buddy.startAddr)
        && (uses[b].Slab? ==> NextKept(b, ram.words, words', buddy.startAddr))
        ensures FreeList.AllLinked(buddy.freeLists.lists, buddy.freeLists.heads[..], words')
        ensures UsesOk(uses[b := u], words', buddy.startAddr)
        ensures CachesOk(chains, firstSlab[..], uses[b := u], words', buddy.startAddr)
      {
        WriteKeeps(b, u, words');
      }
    }

    /** WriteKeeps for a block that stays what it is. */
    lemma WriteKeepsUse(b: Block, words': Words)
      requires Valid() && b in uses && UseOk(Bp(b), b.order, uses[b], words')
      requires SameOutside(b, ram.words, words', buddy.startAddr)
      requires uses[b].Slab? ==> NextKept(b, ram.words, words', buddy.startAddr)
      ensures FreeList.AllLinked(buddy.freeLists.lists, buddy.freeLists.heads[..], words')
      ensures UsesOk(uses, words', buddy.startAddr)
      ensures CachesOk(chains, firstSlab[..], uses, words', buddy.startAddr)
    {
      assert uses.Keys + {b} == uses.Keys && uses[b := uses[b]] == uses;
      WriteKeeps(b, uses[b], words');
    }

    /** cache->first_slab->prev = slab, when there is a first slab */
    method LinkPrev(cache: nat, slab: nat)
      requires Valid() && cache < NUM_CACHES && slab < WORD
      modifies ram
      ensures Valid() && PayloadsSame(uses, old(ram.words), ram.words, buddy.startAddr)
      ensures ram.words ==
                if firstSlab[cache] == 0 then old(ram.words)
                else Put(old(ram.words), firstSlab[cache] as nat + 12, slab)
    {
      assert FreeList.Slot(cache);
      var first: nat := firstSlab[cache];
      if first != 0 {
        ghost var c := chains[cache][0];
        assert c in chains[cache];
        assert IsSlabOf(uses, c, cache);
        SetPrev(first, slab, c);
      }
    }

    method SetPrev(first: nat, slab: Word, ghost c: Block)
      requires Valid() && c in uses && uses[c].Slab? && first == SlabHeader(Bp(c))
      modifies ram
      ensures Valid() && PayloadsSame(uses, old(ram.words), ram.words, buddy.startAddr)
      ensures ram.words == Put(old(ram.words), first + 12, slab)
    {
      PrevKeeps(first, c, slab);
      ram.Store(first + 12, slab);
    }

    lemma PrevKeeps(first: nat, c: Block, v: Word)
      requires Valid() && c in uses && uses[c].Slab? && first == SlabHeader(Bp(c))
      ensures var words' := Put(ram.words, first + 12, v);
              && FreeList.AllLinked(buddy.freeLists.lists, buddy.freeLists.heads[..], words')
              && UsesOk(uses, words', buddy.startAddr)
              && CachesOk(chains, firstSlab[..], uses, words', buddy.startAddr)
              && PayloadsSame(uses, ram.words, words', buddy.startAddr)
    {
      SlabFieldKeeps(c, v);
      SlabFieldPayloads(c, v);
      WriteKeepsUse(c, Put(ram.words, first + 12, v));
    }

    /** Writing a header field that nothing reads. */
    lemma SlabFieldKeeps(c: Block, v: Word)
      requires Valid() && c in uses && uses[c].Slab?
      ensures var words' := Put(ram.words, SlabHeader(Bp(c)) + 12, v);
              && UseOk(Bp(c), c.order, uses[c], words') && SameOutside(c, ram.words, words', buddy.startAddr)
              && NextKept(c, ram.words, words', buddy.startAddr)
    {
      assert Look(c);
      LiveBounds(c);
      OrderSizes(c.order);
      SlabPrevOk(Bp(c), uses[c].cache, uses[c].free, ram.words, v);
    }

    lemma SlabFieldPayloads(c: Block, v: Word)
      requires Valid() && c in uses && uses[c].Slab?
      ensures PayloadsSame(uses, ram.words, Put(ram.words, SlabHeader(Bp(c)) + 12, v), buddy.startAddr)
    {
      forall r | LiveRef(uses, r)
        ensures || RefAddr(uses, r, buddy.startAddr) + RefLen(uses, r) <= SlabHeader(Bp(c)) + 12
                || SlabHeader(Bp(c)) + 12 < RefAddr(uses, r, buddy.startAddr)
      {
        HeaderNotPayload(c, r);
      }
    }

    /** No payload overlaps the header of a slab. */
    lemma HeaderNotPayload(c: Block, r: Ref)
      requires Valid() && c in uses && uses[c].Slab? && LiveRef(uses, r)
      ensures || RefAddr(uses, r, buddy.startAddr) + RefLen(uses, r) <= Bp(c) + PAGE_SIZE
              || SlabHeader(Bp(c)) + SLAB_HEADER <= RefAddr(uses, r, buddy.startAddr)
    {
      LiveApart(buddy.free, buddy.live, c, buddy.covered);
      LiveApart(buddy.free, buddy.live, r.block, buddy.covered);
      assert Look(c);
      OrderSizes(c.order);
      RefInBlock(uses, r, ram.words, buddy.startAddr);
    }

    /** A new slab at the head of its cache, all objects free. */
    method SlabCreate(cache: nat) returns (slab: nat, ghost b: Block)
      requires Valid() && slabReady && cache < NUM_CACHES
      modifies this`uses, this`chains, firstSlab
      modifies buddy`free, buddy`blocks, buddy`live, buddy.freeLists, buddy.freeLists.heads, ram
      ensures Valid() && PayloadsSame(old(uses), old(ram.words), ram.words, buddy.startAddr)
      ensures slab == 0 ==> uses == old(uses) && buddy.free == old(buddy.free) && buddy.blocks == old(buddy.blocks)
      ensures slab == 0 <==> NoRoomFor(PAGE_SIZE + Overhead(true), old(uses), buddy.covered)
      ensures slab != 0 ==> b !in old(uses) && uses == old(uses)[b := Slab(cache, UpFrom(0, ObjCount(cache)))]
      ensures slab != 0 ==> slab == SlabHeader(Bp(b)) && chains == old(chains)[cache := [b] + old(chains)[cache]]
      ensures slab != 0 ==> Buddy.CutFromBest(old(buddy.blocks), old(buddy.free), b)
    {
      slab, b := LargeAlloc(PAGE_SIZE, true);
      KeptOrders(old(uses));
      WithinIsPayloads(old(uses), old(ram.words), ram.words, buddy.startAddr);
      if slab == 0 { return; }
      ghost var words := ram.words;
      PageToSlab(cache, slab, b, old(uses));
      CarryOver(old(uses), old(uses), old(ram.words), words);
    }

    /** The page just allocated is linked in front of its cache's slabs. */
    method PageToSlab(cache: nat, slab: nat, ghost b: Block, ghost before: Uses)
      requires Valid() && slabReady && cache < NUM_CACHES && slab == SlabHeader(Bp(b))
      requires b !in before && uses == before[b := Large(PAGE_SIZE + Overhead(true), true)]
      modifies this`uses, this`chains, firstSlab, ram
      ensures Valid() && PayloadsSame(before, old(ram.words), ram.words, buddy.startAddr)
      ensures uses == before[b := Slab(cache, UpFrom(0, ObjCount(cache)))]
      ensures chains == old(chains)[cache := [b] + old(chains)[cache]]
    {
      PageOrder(b);
      LinkPrev(cache, slab);
      KeptOrders(before);
      UsesShrink(before, b, uses[b], ram.words, buddy.startAddr);
      LiveRefsGrow(before, b, uses[b], buddy.startAddr);
      ghost var words := ram.words;
      AdoptPage(cache, slab, b);
      OutsideIsPayloads(before, b, buddy.free, buddy.live, words, ram.words, buddy.startAddr, buddy.covered);
    }

    lemma KeptOrders(before: Uses)
      requires Layered() && before.Keys <= buddy.live
      ensures forall b {:trigger b in before} :: b in before ==> b.order >= MIN_ORDER
    {}

    /** Turn the page just allocated into a slab. */
    method AdoptPage(cache: nat, slab: nat, ghost b: Block)
      requires Valid() && slabReady && cache < NUM_CACHES
      requires b in uses && uses[b] == Large(PAGE_SIZE + Overhead(true), true) && slab == SlabHeader(Bp(b))
      modifies this`uses, this`chains, firstSlab, ram
      ensures Valid() && uses == old(uses)[b := Slab(cache, UpFrom(0, ObjCount(cache)))]
      ensures chains == old(chains)[cache := [b] + old(chains)[cache]]
      ensures SameOutside(b, old(ram.words), ram.words, buddy.startAddr)
    {
      ghost var u := Slab(cache, UpFrom(0, ObjCount(cache)));
      PageOrder(b);
      WriteKeepsAny(b, u);
      ListedPush(chains, uses, cache, b, u);
      var next := firstSlab[cache];
      FormatSlab(slab, cache, next, Bp(b));
      assert SameOutside(b, old(ram.words), ram.words, buddy.startAddr);
      assert UseOk(Bp(b), b.order, u, ram.words);
      uses := uses[b := u];
      CachesPush(chains, firstSlab[..], uses, ram.words, buddy.startAddr, cache, b);
      firstSlab[cache] := slab;
      chains := chains[cache := [b] + chains[cache]];
    }

    /** A page-aligned page with its overhead takes a block of four pages. */
    lemma PageOrder(b: Block)
      requires Valid() && b in uses && uses[b] == Large(PAGE_SIZE + Overhead(true), true)
      ensures b.order == 14 && Bp(b) + 16384 < WORD && Size(b) == 16384
    {
      assert Look(b);
      LiveBounds(b);
      assert Pow2(6) == 64;
      assert Pow2(12) == 4096;
      assert Pow2(13) == 8192 && Pow2(14) == 16384;
      if b.order < 14 { Pow2Monotone(b.order, 13); }
      if b.order > 14 { Pow2Monotone(14, b.order - 1); }
    }

    /** What the header of a cache's k-th slab says. */
    lemma SlabNode(cache: nat, k: nat, slab: nat)
      requires Valid() && cache < NUM_CACHES && k <= |chains[cache]| && slab != 0
      requires SlabList(chains[cache][k..], slab, ram.words, buddy.startAddr)
      ensures k < |chains[cache]| && IsSlabOf(uses, chains[cache][k], cache) && slab == SlabHeader(Bp(chains[cache][k]))
      ensures Load(ram.words, slab + 16) == |uses[chains[cache][k]].free|
      ensures SlabList(chains[cache][k + 1..], Load(ram.words, slab + 8), ram.words, buddy.startAddr)
    {
      var s := chains[cache];
      var b := s[k];
      assert b in s && IsSlabOf(uses, b, cache) && Look(b);
      assert SlabOk(Bp(b), 14, cache, uses[b].free, ram.words);
      assert s[k..][1..] == s[k + 1..];
    }

    /** The first slab of a cache that has a free object. */
    method FindSlab(cache: nat) returns (slab: nat, ghost b: Block)
      requires Valid() && cache < NUM_CACHES
      ensures slab == 0 ==> AllFull(uses, chains[cache])
      ensures slab != 0 ==> FirstOpen(uses, chains[cache], b) && IsSlabOf(uses, b, cache) && slab == SlabHeader(Bp(b))
    {
      assert FreeList.Slot(cache);
      slab := firstSlab[cache];
      ghost var s := chains[cache];
      ghost var k := 0;
      b := Block(0, 0);
      while slab != 0
        invariant k <= |s| && SlabList(s[k..], slab, ram.words, buddy.startAddr) && AllFull(uses, s[..k])
        decreases |s| - k
      {
        SlabNode(cache, k, slab);
        b := s[k];
        if Load(ram.words, slab + 16) > 0 { return; }
        slab := Load(ram.words, slab + 8);
        assert s[..k + 1] == s[..k] + [b];
        k := k + 1;
      }
      assert s[..k] == s;
    }

    /** Unlink the first free object of a slab and clear it. */
    method PopObject(slab: nat, size: nat) returns (ptr: nat)
      requires size > 0
      modifies ram
      ensures ptr == slab + SLAB_HEADER + Load(old(ram.words), slab + 20) * size
      ensures forall x: nat :: Load(ram.words, x) == Taken(old(ram.words), slab, ptr, size, x)
      ensures forall a :: ptr <= a < ptr + size ==> Load(ram.words, a) == 0
    {
      var idx: nat := Load(ram.words, slab + 20);
      ptr := slab + SLAB_HEADER + idx * size;
      Positive(idx, size);
      ram.Store(slab + 20, Load(ram.words, ptr));
      ram.Store(slab + 16, (Load(ram.words, slab + 16) + NO_OBJECT) % WORD);
      ram.Clear(ptr, size);
    }

    lemma Positive(a: nat, b: nat)
      ensures a * b >= 0
    {}

    /** The end of slab_alloc, for a slab with a free object. */
    method TakeObject(slab: nat, cache: nat, ghost b: Block) returns (ptr: nat)
      requires Valid() && IsSlabOf(uses, b, cache) && slab == SlabHeader(Bp(b)) && uses[b].free != []
      requires cache < NUM_CACHES
      modifies this`uses, ram
      ensures Valid() && uses == old(uses)[b := Slab(cache, old(uses)[b].free[1..])]
      ensures ptr == ObjAddr(Bp(b), cache, old(uses)[b].free[0])
      ensures PayloadsSame(old(uses), old(ram.words), ram.words, buddy.startAddr)
      ensures forall a :: ptr <= a < ptr + ObjSize(cache) ==> Load(ram.words, a) == 0
    {
      assert Look(b);
      ghost var free, words := uses[b].free, ram.words;
      ghost var u := Slab(cache, free[1..]);
      assert SlabOk(Bp(b), 14, cache, free, words);
      ObjOffIs(cache, free[0]);
      ListedUse(chains, uses, b, u);
      WriteKeepsAny(b, u);
      TakenApart(b, cache, free[0]);
      ptr := PopObject(slab, ObjSize(cache));
      assert ptr == ObjAddr(Bp(b), cache, free[0]);
      TakenOk(Bp(b), cache, free, words, ram.words);
      TakenOnly(Bp(b), cache, free[0], words, ram.words);
      ObjectInside(b, cache, free[0], words, ram.words, buddy.startAddr);
      ObjectPayloads(uses, b, cache, free[0], words, ram.words, buddy.startAddr);
      uses := uses[b := u];
    }

    /** Live payloads meet neither the header of a slab nor the objects that are not live. */
    lemma TakenApart(b: Block, cache: nat, j: nat)
      requires Valid() && IsSlabOf(uses, b, cache) && cache < NUM_CACHES && j < ObjCount(cache)
      ensures ObjectApart(uses, b, cache, j, buddy.startAddr)
    {
      forall r | LiveRef(uses, r) && r != Ref(b, j)
        ensures Clear(Bp(b), cache, j, RefAddr(uses, r, buddy.startAddr), RefLen(uses, r))
      {
        HeaderNotPayload(b, r);
        if r.block == b {
          if r.idx < j { ObjOffOrdered(cache, r.idx, j); } else { ObjOffOrdered(cache, j, r.idx); }
        } else {
          assert Look(b);
          LiveApart(buddy.free, buddy.live, b, buddy.covered);
          LiveApart(buddy.free, buddy.live, r.block, buddy.covered);
          RefInBlock(uses, r, ram.words, buddy.startAddr);
          ObjOffBounds(cache, j);
          OrderSizes(14);
        }
      }
    }

    /** slab_alloc */
    method SlabAlloc(size: nat) returns (ptr: nat, ghost r: Ref)
      requires Valid() && slabReady
      modifies this`uses, this`chains, firstSlab
      modifies buddy`free, buddy`blocks, buddy`live, buddy.freeLists, buddy.freeLists.heads, ram
      ensures Valid() && PayloadsSame(old(uses), old(ram.words), ram.words, buddy.startAddr)
      ensures ptr == 0 ==> uses == old(uses) && buddy.free == old(buddy.free) && buddy.blocks == old(buddy.blocks)
      ensures ptr != 0 ==> Extended(old(uses), uses, r, buddy.startAddr) && RefAddr(uses, r, buddy.startAddr) == ptr
      ensures ptr != 0 ==> size <= RefLen(uses, r)
      ensures ptr != 0 ==> forall a :: ptr <= a < ptr + RefLen(uses, r) ==> Load(ram.words, a) == 0
      ensures ptr % 4 == 0
      // Null exactly if no slab of the cache has a free object and there is no room for another.
      ensures size <= 2048 ==> (ptr == 0 <==> NoObject(old(uses), size, buddy.covered))
      ensures ptr != 0 ==> ServedBySlab(old(uses), old(chains), uses, r, size)
      ensures ptr != 0 && r.block !in old(uses) ==> Buddy.CutFromBest(old(buddy.blocks), old(buddy.free), r.block)
    {
      r := Ref(Block(0, 0), 0);
      var idx := GetSlabIndex(size);
      if idx == -1 { return 0, r; }
      var slab;
      ghost var b;
      slab, b := FindSlab(idx);
      forall cache | Serves(cache, size) ensures cache == idx { OneServes(cache, idx, size); }
      if slab == 0 {
        CacheFull(chains, uses, idx);
        ptr, r := FromNewSlab(idx);
      } else {
        ptr, r := FromSlab(slab, idx, b);
      }
      if ptr != 0 { WordAligned(r); }
    }

    /** The first free object of a slab that has one. */
    method FromSlab(slab: nat, cache: nat, ghost b: Block) returns (ptr: nat, ghost r: Ref)
      requires Valid() && cache < NUM_CACHES && IsSlabOf(uses, b, cache) && slab == SlabHeader(Bp(b))
      requires uses[b].free != []
      modifies this`uses, ram
      ensures Valid() && PayloadsSame(old(uses), old(ram.words), ram.words, buddy.startAddr)
      ensures r == Ref(b, old(uses)[b].free[0]) && uses == old(uses)[b := Slab(cache, old(uses)[b].free[1..])]
      ensures ptr != 0 && Extended(old(uses), uses, r, buddy.startAddr) && RefAddr(uses, r, buddy.startAddr) == ptr
      ensures RefLen(uses, r) == ObjSize(cache)
      ensures forall a :: ptr <= a < ptr + ObjSize(cache) ==> Load(ram.words, a) == 0
    {
      ghost var free := uses[b].free;
      assert Look(b);
      assert SlabOk(Bp(b), 14, cache, free, ram.words);
      TakeExtends(uses, b, cache, free, buddy.startAddr);
      ptr := TakeObject(slab, cache, b);
      r := Ref(b, free[0]);
    }

    /** The first object of a new slab. */
    method FromNewSlab(cache: nat) returns (ptr: nat, ghost r: Ref)
      requires Valid() && slabReady && cache < NUM_CACHES
      modifies this`uses, this`chains, firstSlab
      modifies buddy`free, buddy`blocks, buddy`live, buddy.freeLists, buddy.freeLists.heads, ram
      ensures Valid() && PayloadsSame(old(uses), old(ram.words), ram.words, buddy.startAddr)
      ensures ptr == 0 ==> uses == old(uses) && buddy.free == old(buddy.free) && buddy.blocks == old(buddy.blocks)
      ensures ptr == 0 <==> NoRoomFor(PAGE_SIZE + Overhead(true), old(uses), buddy.covered)
      ensures ptr != 0 ==> Extended(old(uses), uses, r, buddy.startAddr) && RefAddr(uses, r, buddy.startAddr) == ptr
      ensures ptr != 0 ==> r.block !in old(uses) && r.idx == 0
      ensures ptr != 0 ==> uses == old(uses)[r.block := Slab(cache, UpFrom(1, ObjCount(cache)))]
      ensures ptr != 0 ==> Buddy.CutFromBest(old(buddy.blocks), old(buddy.free), r.block)
      ensures ptr != 0 ==> forall a :: ptr <= a < ptr + ObjSize(cache) ==> Load(ram.words, a) == 0
    {
      r := Ref(Block(0, 0), 0);
      var slab;
      ghost var b;
      slab, b := SlabCreate(cache);
      if slab == 0 { return 0, r; }
      LiveRefsGrow(old(uses), b, Slab(cache, UpFrom(0, ObjCount(cache))), buddy.startAddr);
      ghost var uses', words' := uses, ram.words;
      ptr, r := FirstObject(slab, cache, b, old(uses));
      CarryOver(old(uses), uses', old(ram.words), words');
    }

    method FirstObject(slab: nat, cache: nat, ghost b: Block, ghost before: Uses) returns (ptr: nat, ghost r: Ref)
      requires Valid() && cache < NUM_CACHES && slab == SlabHeader(Bp(b))
      requires b !in before && uses == before[b := Slab(cache, UpFrom(0, ObjCount(cache)))]
      modifies this`uses, ram
      ensures Valid() && PayloadsSame(old(uses), old(ram.words), ram.words, buddy.startAddr)
      ensures ptr != 0 && Extended(before, uses, r, buddy.startAddr) && RefAddr(uses, r, buddy.startAddr) == ptr
      ensures r == Ref(b, 0) && uses == before[b := Slab(cache, UpFrom(1, ObjCount(cache)))]
      ensures forall a :: ptr <= a < ptr + ObjSize(cache) ==> Load(ram.words, a) == 0
    {
      assert UpFrom(0, ObjCount(cache))[1..] == UpFrom(1, ObjCount(cache));
      ptr, r := FromSlab(slab, cache, b);
      PageExtends(before, b, cache, r, uses, buddy.startAddr);
    }

    /** Payloads unchanged up to a moment when there was at least as much live are unchanged still. */
    lemma CarryOver(uses0: Uses, uses1: Uses, words0: Words, words1: Words)
      requires PayloadsSame(uses0, words0, words1, buddy.startAddr)
      requires forall q {:trigger LiveRef(uses0, q)} :: LiveRef(uses0, q) ==>
                 SameAddress(uses0, uses1, q, buddy.startAddr)
      requires PayloadsSame(uses1, words1, ram.words, buddy.startAddr)
      ensures PayloadsSame(uses0, words0, ram.words, buddy.startAddr)
    {}

    /** Every payload starts at a word. */
    lemma WordAligned(r: Ref)
      requires Valid() && LiveRef(uses, r)
      ensures RefAddr(uses, r, buddy.startAddr) % 4 == 0
    {
      assert Look(r.block);
      LiveBounds(r.block);
      match uses[r.block]
      case Large(_, aligned) => LargeWord(Bp(r.block), aligned);
      case Slab(cache, _) => ObjAddrWord(Bp(r.block), cache, r.idx);
    }

    /** LargeAlloc in terms of references. */
    method LargeRef(size: nat, align: bool) returns (ptr: nat, ghost r: Ref)
      requires Valid() && 0 < size && size + Overhead(align) <= 0x8000_0000
      modifies this`uses
      modifies buddy`free, buddy`blocks, buddy`live, buddy.freeLists, buddy.freeLists.heads, ram
      ensures Valid() && PayloadsSame(old(uses), old(ram.words), ram.words, buddy.startAddr)
      ensures ptr == 0 ==> uses == old(uses) && buddy.free == old(buddy.free) && buddy.blocks == old(buddy.blocks)
      ensures ptr == 0 <==> NoRoomFor(size + Overhead(align), old(uses), buddy.covered)
      ensures ptr != 0 ==> Extended(old(uses), uses, r, buddy.startAddr) && RefAddr(uses, r, buddy.startAddr) == ptr
      ensures ptr != 0 ==> size == RefLen(uses, r)
      ensures ptr % 4 == 0 && (ptr != 0 && align ==> ptr % 4096 == 4)
      ensures ptr != 0 ==> TakenLarge(old(uses), uses, r, size, align)
      ensures ptr != 0 ==> Buddy.CutFromBest(old(buddy.blocks), old(buddy.free), r.block)
      ensures ptr != 0 ==> forall a :: ptr <= a < ptr + size ==> Load(ram.words, a) == 0
    {
      ghost var b;
      ptr, b := LargeAlloc(size, align);
      r := Ref(b, 0);
      KeptOrders(old(uses));
      WithinIsPayloads(old(uses), old(ram.words), ram.words, buddy.startAddr);
      if ptr != 0 {
        LargeExtends(old(uses), b, size + Overhead(align), align, buddy.startAddr);
        LargePlace(b, size, align);
      }
    }

    lemma LargePlace(b: Block, size: nat, align: bool)
      requires Valid() && 0 < size && b in uses && uses[b] == Large(size + Overhead(align), align)
      ensures LargeAddr(Bp(b), align) % 4 == 0 && (align ==> LargeAddr(Bp(b), align) % 4096 == 4)
      ensures LargeAddr(Bp(b), align) + size <= Bp(b) + Size(b)
    {
      LiveBounds(b);
      PageRest(Bp(b), 4);
      LargeWord(Bp(b), align);
      RefInBlock(uses, Ref(b, 0), ram.words, buddy.startAddr);
    }

    /** kmalloc_real. Requests so large that get_order would not terminate are excluded. With the
        slabs on, a small one is served by them as long as they can. */
    method KmallocReal(size: nat, align: bool) returns (ptr: nat, ghost r: Ref)
      requires Valid() && size + Overhead(align) <= 0x8000_0000
      modifies this`uses, this`chains, firstSlab
      modifies buddy`free, buddy`blocks, buddy`live, buddy.freeLists, buddy.freeLists.heads, ram
      ensures Valid() && PayloadsSame(old(uses), old(ram.words), ram.words, buddy.startAddr)
      ensures ptr == 0 ==> uses == old(uses) && buddy.free == old(buddy.free) && buddy.blocks == old(buddy.blocks)
      ensures ptr != 0 ==> Extended(old(uses), uses, r, buddy.startAddr) && RefAddr(uses, r, buddy.startAddr) == ptr
      ensures ptr != 0 ==> size <= RefLen(uses, r)
      ensures ptr != 0 ==> forall a :: ptr <= a < ptr + size ==> Load(ram.words, a) == 0
      ensures ptr % 4 == 0 && (ptr != 0 && align ==> ptr % 4096 == 4)
      ensures if slabReady && size <= 2048 && !align && !NoObject(old(uses), size, buddy.covered) then
                ptr != 0 && ServedBySlab(old(uses), old(chains), uses, r, size)
              else if size == 0 || NoRoomFor(size + Overhead(align), old(uses), buddy.covered) then ptr == 0
              else ptr != 0 && TakenLarge(old(uses), uses, r, size, align)
      ensures ptr != 0 && r.block !in old(uses) ==> Buddy.CutFromBest(old(buddy.blocks), old(buddy.free), r.block)
    {
      if slabReady && size <= 2048 && !align {
        ptr, r := SlabAlloc(size);
        if ptr != 0 { return; }
        ghost var words := ram.words;
        if size != 0 { ptr, r := LargeRef(size, align); }
        CarryOver(old(uses), old(uses), old(ram.words), words);
      } else if size == 0 {
        ptr, r := 0, Ref(Block(0, 0), 0);
      } else {
        ptr, r := LargeRef(size, align);
      }
    }

    /** The word slab_free inspects is SLAB_MAGIC exactly for slab objects and for
        page-aligned allocations whose owner put that value in their first word. */
    lemma Routing(r: Ref)
      requires Valid() && LiveRef(uses, r)
      ensures var p := RefAddr(uses, r, buddy.startAddr);
              && p >= p % 4096
              && (Load(ram.words, p - p % 4096 + 4) == SLAB_MAGIC <==>
                    || uses[r.block].Slab?
                    || (uses[r.block].aligned && Load(ram.words, p) == SLAB_MAGIC))
      ensures uses[r.block].Slab? ==>
                var p := RefAddr(uses, r, buddy.startAddr); p - p % 4096 + 4 == SlabHeader(Bp(r.block))
    {
      assert Look(r.block);
      LiveBounds(r.block);
      match uses[r.block]
      case Large(size, aligned) =>
        PageRest(Bp(r.block), if aligned then 4 else 24);
      case Slab(cache, free) =>
        SlabPage(Bp(r.block), cache, r.idx);
    }

    /** The page of a slab object starts 4 bytes before the slab's header. */
    lemma SlabPage(bp: nat, cache: nat, j: nat)
      requires bp % 4096 == 0 && cache < NUM_CACHES && j < ObjCount(cache)
      ensures var p := ObjAddr(bp, cache, j); p >= p % 4096 && p - p % 4096 + 4 == SlabHeader(bp)
    {
      ObjOffBounds(cache, j);
      PageRest(bp, 28 + ObjOff(cache, j));
    }

    lemma PageRest(bp: nat, off: nat)
      requires bp % 4096 == 0 && off < 4096
      ensures (bp + off) % 4096 == off && (bp + 4096 + off) % 4096 == off
    {}

    /** slab_free; the pointer's page tells whether it belongs to a slab. */
    method SlabFree(ptr: nat, ghost r: Ref) returns (handled: bool)
      requires Valid() && LiveRef(uses, r) && ptr == RefAddr(uses, r, buddy.startAddr)
      requires uses[r.block].Large? && uses[r.block].aligned ==> Load(ram.words, ptr) != SLAB_MAGIC
      modifies this`uses, ram
      ensures Valid() && handled == old(uses)[r.block].Slab?
      ensures !handled ==> uses == old(uses) && ram.words == old(ram.words)
      ensures handled ==>
                uses == old(uses)[r.block := Slab(old(uses)[r.block].cache, [r.idx] + old(uses)[r.block].free)]
      ensures handled ==> PayloadsSame(uses, old(ram.words), ram.words, buddy.startAddr)
    {
      Routing(r);
      var page := ptr - ptr % 4096;
      var slab := page + 4;
      if Load(ram.words, slab) != SLAB_MAGIC { return false; }
      assert Look(r.block);
      var objSize := ObjSize(Load(ram.words, slab + 4));
      var offset := ptr - (slab + SLAB_HEADER);
      ObjIndex(uses[r.block].cache, r.idx);
      if offset % objSize != 0 { return false; }
      var idx := offset / objSize;
      ReturnObject(slab, ptr, idx, r);
      handled := true;
    }

    /** Put an object at the head of its slab's free list. */
    method PushObject(slab: nat, ptr: nat, idx: Word)
      requires ptr != slab + 16 && ptr != slab + 20
      modifies ram
      ensures forall x: nat :: Load(ram.words, x) == Returned(old(ram.words), slab, ptr, idx, x)
    {
      ram.Store(ptr, Load(ram.words, slab + 20));
      ram.Store(slab + 20, idx);
      ram.Store(slab + 16, (Load(ram.words, slab + 16) + 1) % WORD);
    }

    method ReturnObject(slab: nat, ptr: nat, idx: nat, ghost r: Ref)
      requires Valid() && LiveRef(uses, r) && uses[r.block].Slab? && idx == r.idx
      requires slab == SlabHeader(Bp(r.block)) && ptr == RefAddr(uses, r, buddy.startAddr)
      modifies this`uses, ram
      ensures Valid()
      ensures uses == old(uses)[r.block := Slab(old(uses)[r.block].cache, [r.idx] + old(uses)[r.block].free)]
      ensures PayloadsSame(uses, old(ram.words), ram.words, buddy.startAddr)
    {
      ghost var b, words := r.block, ram.words;
      ghost var Slab(cache, free) := uses[b];
      ghost var u := Slab(cache, [r.idx] + free);
      assert Look(b);
      assert SlabOk(Bp(b), 14, cache, free, words);
      ReturnExtends(uses, r, buddy.startAddr);
      ListedUse(chains, uses, b, u);
      WriteKeepsAny(b, u);
      TakenApart(b, cache, r.idx);
      PushObject(slab, ptr, idx);
      ReturnedOk(Bp(b), cache, free, r.idx, words, ram.words);
      ReturnedOnly(Bp(b), cache, r.idx, words, ram.words);
      ObjectInside(b, cache, r.idx, words, ram.words, buddy.startAddr);
      uses := uses[b := u];
      ObjectPayloads(uses, b, cache, r.idx, words, ram.words, buddy.startAddr);
    }

    /** Forgetting a large allocation, whatever was written into its block. */
    lemma ForgetKeeps(b: Block, words': Words)
      requires Valid() && b in uses && uses[b].Large? && SameOutside(b, ram.words, words', buddy.startAddr)
      ensures FreeList.AllLinked(buddy.freeLists.lists, buddy.freeLists.heads[..], words')
      ensures UsesOk(uses - {b}, words', buddy.startAddr)
      ensures CachesOk(chains, firstSlab[..], uses - {b}, words', buddy.startAddr)
      ensures PayloadsSame(uses - {b}, ram.words, words', buddy.startAddr)
    {
      buddy.OwnerMayWrite(b, words');
      OthersKept(uses, b, buddy.live, buddy.free, ram.words, words', buddy.startAddr, buddy.covered);
      CachesAfterWrite(chains, firstSlab[..], uses, b, uses[b], buddy.live, buddy.free, ram.words, words',
                       buddy.startAddr, buddy.covered);
      assert uses[b := uses[b]] == uses;
      CachesForget(chains, firstSlab[..], uses, b, words', buddy.startAddr);
      UsesWithout(uses, b, ram.words, buddy.startAddr);
      OutsideIsPayloads(uses - {b}, b, buddy.free, buddy.live, ram.words, words', buddy.startAddr, buddy.covered);
    }

    /** kfree invalidates the header of a large allocation. */
    method MarkFreed(buddyPtr: nat, ghost b: Block)
      requires Valid() && b in uses && uses[b].Large? && buddyPtr == Bp(b)
      modifies ram
      ensures Layered() && UsesOk(uses - {b}, ram.words, buddy.startAddr)
      ensures CachesOk(chains, firstSlab[..], uses - {b}, ram.words, buddy.startAddr)
      ensures PayloadsSame(uses - {b}, old(ram.words), ram.words, buddy.startAddr)
    {
      LiveBounds(b);
      ForgetKeeps(b, Put(Put(ram.words, buddyPtr + 12, 0), buddyPtr + 16, FREED_MAGIC));
      ram.Store(buddyPtr + 12, 0);
      ram.Store(buddyPtr + 16, FREED_MAGIC);
    }

    /** The end of kfree: give the block behind a large allocation back to the buddy allocator. */
    method FreeLarge(buddyPtr: nat, size: nat, ghost b: Block)
      requires Valid() && b in uses && uses[b].Large? && buddyPtr == Bp(b) && size == uses[b].size
      modifies this`uses, ram
      modifies buddy`free, buddy`blocks, buddy`live, buddy.freeLists, buddy.freeLists.heads
      ensures Valid() && uses == old(uses) - {b}
      ensures PayloadsSame(uses, old(ram.words), ram.words, buddy.startAddr)
    {
      assert Look(b);
      LiveBounds(b);
      ListedWithout(chains, uses, b);
      MarkFreed(buddyPtr, b);
      ghost var words' := ram.words;
      buddy.Free(buddyPtr, size, b);
      uses := uses - {b};
      KeptOrders(uses);
      AllKept(uses, chains, firstSlab[..], words', ram.words, buddy.startAddr);
      WithinIsPayloads(uses, words', ram.words, buddy.startAddr);
    }

    /** kfree of a live allocation. */
    method Kfree(ptr: nat, ghost r: Ref)
      requires Valid() && (ptr != 0 ==> LiveRef(uses, r) && ptr == RefAddr(uses, r, buddy.startAddr))
      requires slabReady && ptr != 0 && uses[r.block].Large? && uses[r.block].aligned ==>
                 Load(ram.words, ptr) != SLAB_MAGIC
      modifies this`uses
      modifies buddy`free, buddy`blocks, buddy`live, buddy.freeLists, buddy.freeLists.heads, ram
      ensures Valid() && PayloadsSame(uses, old(ram.words), ram.words, buddy.startAddr)
      ensures if ptr == 0 then uses == old(uses) else Extended(uses, old(uses), r, buddy.startAddr)
      ensures ptr != 0 ==> uses == Freed(old(uses), r)
    {
      if ptr == 0 { return; }
      if slabReady {
        var handled := SlabFree(ptr, r);
        if handled {
          ReturnExtends(old(uses), r, buddy.startAddr);
          return;
        }
      }
      FreeBehind(ptr, r);
    }

    /** The part of kfree behind the slabs: follow the hidden pointer to the block. */
    method FreeBehind(ptr: nat, ghost r: Ref)
      requires Valid() && LiveRef(uses, r) && uses[r.block].Large? && ptr == RefAddr(uses, r, buddy.startAddr)
      modifies this`uses
      modifies buddy`free, buddy`blocks, buddy`live, buddy.freeLists, buddy.freeLists.heads, ram
      ensures Valid() && PayloadsSame(uses, old(ram.words), ram.words, buddy.startAddr)
      ensures Extended(uses, old(uses), r, buddy.startAddr) && uses == old(uses) - {r.block}
    {
      ghost var b := r.block;
      assert Look(b);
      LiveBounds(b);
      var buddyPtr: nat := Load(ram.words, ptr - 4);
      if buddyPtr < buddy.startAddr || buddyPtr > buddy.endAddr { return; }
      if Load(ram.words, buddyPtr + 16) != HEAP_MAGIC { return; }
      var size: nat := Load(ram.words, buddyPtr + 8);
      FreeLarge(buddyPtr, size, b);
      LargeFreed(old(uses), b, buddy.startAddr);
    }

    /** An owner may write any word of its payload: allocator metadata is never part of one. */
    method OwnerWrites(a: nat, v: Word, ghost r: Ref)
      requires Valid() && LiveRef(uses, r) && a % 4 == 0
      requires RefAddr(uses, r, buddy.startAddr) <= a < RefAddr(uses, r, buddy.startAddr) + RefLen(uses, r)
      modifies ram
      ensures Valid() && ram.words == Put(old(ram.words), a, v)
    {
      PayloadWriteOk(a, v, r);
      WriteKeepsUse(r.block, Put(ram.words, a, v));
      ram.Store(a, v);
    }

    /** A byte of a payload, wherever it lies in its word. */
    method OwnerWritesByte(a: nat, v: nat, ghost r: Ref)
      requires Valid() && LiveRef(uses, r) && v < 256
      requires RefAddr(uses, r, buddy.startAddr) <= a < RefAddr(uses, r, buddy.startAddr) + RefLen(uses, r)
      modifies ram
      ensures Valid() && ByteChanged(old(ram.words), ram.words, a, v)
    {
      WordAligned(r);
      WordStart(RefAddr(uses, r, buddy.startAddr), a);
      var word := ByteWord(ram.words, Load(ram.words, a - a % 4), a, v);
      OwnerWrites(a - a % 4, word, r);
    }

    lemma WordStart(p: nat, a: nat)
      requires p % 4 == 0 && p <= a
      ensures p <= a - a % 4 && (a - a % 4) % 4 == 0
    {}

    lemma PayloadWriteOk(a: nat, v: Word, r: Ref)
      requires Valid() && LiveRef(uses, r)
      requires RefAddr(uses, r, buddy.startAddr) <= a < RefAddr(uses, r, buddy.startAddr) + RefLen(uses, r)
      ensures UseOk(Bp(r.block), r.block.order, uses[r.block], Put(ram.words, a, v))
      ensures SameOutside(r.block, ram.words, Put(ram.words, a, v), buddy.startAddr)
      ensures uses[r.block].Slab? ==> NextKept(r.block, ram.words, Put(ram.words, a, v), buddy.startAddr)
    {
      var b := r.block;
      assert Look(b);
      RefInBlock(uses, r, ram.words, buddy.startAddr);
      match uses[b]
      case Large(size, aligned) =>
        assert LargeOk(Bp(b), b.order, size, aligned, ram.words);
        LargeWriteOk(Bp(b), b.order, size, aligned, ram.words, a, v);
      case Slab(cache, free) =>
        assert SlabOk(Bp(b), 14, cache, free, ram.words);
        SlabWriteOk(Bp(b), cache, free, r.idx, ram.words, a, v);
    }

    /** Once nothing is in use, the free blocks are those initialisation built. */
    lemma NothingInUse()
      requires Valid() && !slabReady && forall q :: !LiveRef(uses, q)
      ensures uses == map[] && buddy.free == buddy.initial
    {
      forall b ensures b !in uses { assert !LiveRef(uses, Ref(b, 0)); }
      buddy.AllFreed();
    }
  }

  /** A client: what a new heap allocates and frees leaves the buddy allocator in its initial
      state. */
  method AllocateAndFree(ram: Memory, start: nat, end: nat, size: nat, align: bool) returns (heap: KernelHeap)
    requires 0 < start <= end < WORD && start % 4096 == 0 && end % 4096 == 0 && end - start < 0x8000_0000
    requires size + Overhead(align) <= 0x8000_0000
    modifies ram
    ensures heap.Valid() && heap.uses == map[] && !heap.slabReady && heap.ram == ram
    ensures heap.buddy.startAddr == start && heap.buddy.covered == end - start
    ensures heap.buddy.free == heap.buddy.initial
    ensures fresh(heap) && fresh(heap.firstSlab)
    ensures fresh(heap.buddy) && fresh(heap.buddy.freeLists) && fresh(heap.buddy.freeLists.heads)
  {
    heap := new KernelHeap(ram, start, end);
    UseOnce(heap, size, align);
  }

  method UseOnce(heap: KernelHeap, size: nat, align: bool)
    requires heap.Valid() && heap.uses == map[] && !heap.slabReady && size + Overhead(align) <= 0x8000_0000
    modifies heap`uses, heap`chains, heap.firstSlab, heap.ram
    modifies heap.buddy`free, heap.buddy`blocks, heap.buddy`live, heap.buddy.freeLists, heap.buddy.freeLists.heads
    ensures heap.Valid() && heap.uses == map[] && heap.buddy.free == heap.buddy.initial
  {
    var ptr;
    ghost var r;
    ptr, r := heap.KmallocReal(size, align);
    if ptr != 0 { heap.Kfree(ptr, r); }
    heap.NothingInUse();
  }

  /** The heap then goes on serving requests, from slabs as well. */
  method AllocateAgain(ram: Memory, start: nat, end: nat, size: nat, align: bool, next: nat)
    returns (heap: KernelHeap, ptr: nat, ghost r: Ref)
    requires 0 < start <= end < WORD && start % 4096 == 0 && end % 4096 == 0 && end - start < 0x8000_0000
    requires size + Overhead(align) <= 0x8000_0000 && next + Overhead(false) <= 0x8000_0000
    modifies ram
    ensures heap.Valid() && heap.slabReady && heap.buddy.covered == end - start
    ensures ptr != 0 ==> forall q :: LiveRef(heap.uses, q) <==> q == r
    ensures ptr != 0 ==> next <= RefLen(heap.uses, r)
  {
    heap := AllocateAndFree(ram, start, end, size, align);
    heap.StartSlabs();
    ptr, r := heap.KmallocReal(next, false);
  }

  /** A client writes to what it has just been given; no other payload changes. */
  method AllocateAndWrite(heap: KernelHeap, size: nat, align: bool, v: Word) returns (ptr: nat, ghost r: Ref)
    requires heap.Valid() && 0 < size && size + Overhead(align) <= 0x8000_0000
    modifies heap`uses, heap`chains, heap.firstSlab, heap.ram
    modifies heap.buddy`free, heap.buddy`blocks, heap.buddy`live, heap.buddy.freeLists, heap.buddy.freeLists.heads
    ensures heap.Valid()
    ensures ptr != 0 ==> Extended(old(heap.uses), heap.uses, r, heap.buddy.startAddr)
    ensures ptr != 0 ==> Load(heap.ram.words, ptr) == v && RefAddr(heap.uses, r, heap.buddy.startAddr) == ptr
    ensures ptr != 0 && align ==> heap.uses[r.block] == Large(size + Overhead(true), true)
  {
    ptr, r := heap.KmallocReal(size, align);
    if ptr != 0 { heap.OwnerWrites(ptr, v, r); }
  }

  /** If it is page-aligned and the client writes the slab magic there, kfree, with the slabs
      on, takes the allocation for a slab object. */
  method Misrouted(heap: KernelHeap, size: nat) returns (ptr: nat, ghost r: Ref)
    requires heap.Valid() && 0 < size && size + Overhead(true) <= 0x8000_0000
    modifies heap`uses, heap`chains, heap.firstSlab, heap.ram
    modifies heap.buddy`free, heap.buddy`blocks, heap.buddy`live, heap.buddy.freeLists, heap.buddy.freeLists.heads
    ensures ptr != 0 ==> r.block in heap.uses && heap.uses[r.block].Large?
    ensures ptr != 0 ==> ptr >= ptr % 4096 && Load(heap.ram.words, ptr - ptr % 4096 + 4) == SLAB_MAGIC
  {
    ptr, r := AllocateAndWrite(heap, size, true, SLAB_MAGIC);
    if ptr != 0 { heap.Routing(r); }
  }

  const PAGE := Block(0, 12)

  lemma OnePageFree(free: set<Block>)
    requires Canonical(free, {}, 4096)
    ensures free == {PAGE}
  {
    PageSize();
    forall x | 0 <= x < 4096 ensures Covers({PAGE} + {}, x) { assert PAGE in {PAGE} + {}; }
    assert Canonical({PAGE}, {}, 4096);
    FreeDeterminedByLive(free, {PAGE}, {}, 4096);
  }

  lemma OnePageRoom(size: nat)
    ensures NoRoomFor(size + Overhead(false), map[], 4096) <==> size > 4072
  {
    Buddy.PageSizes();
    if size <= 4072 {
      Buddy.SmallestOrder(size + Overhead(false));
      assert Gap(PAGE, {}, 4096);
    } else {
      var o := Buddy.RequestOrder(size + Overhead(false));
      forall g: Block | g.order == o ensures !Gap(g, {}, 4096) { Pow2Monotone(13, o); }
    }
  }

  method NewPage(ram: Memory, start: nat) returns (heap: KernelHeap)
    requires 0 < start && start % 4096 == 0 && start + 4096 < WORD
    modifies ram
    ensures heap.Valid() && heap.uses == map[] && !heap.slabReady && heap.ram == ram
    ensures heap.buddy.startAddr == start && heap.buddy.covered == 4096 && heap.buddy.free == {PAGE}
    ensures fresh(heap) && fresh(heap.firstSlab)
    ensures fresh(heap.buddy) && fresh(heap.buddy.freeLists) && fresh(heap.buddy.freeLists.heads)
  {
    heap := new KernelHeap(ram, start, start + 4096);
    OnePageFree(heap.buddy.free);
  }

  method ServePage(heap: KernelHeap, size: nat) returns (ptr: nat)
    requires heap.Valid() && heap.uses == map[] && !heap.slabReady && size + Overhead(false) <= 0x8000_0000
    requires heap.buddy.covered == 4096 && heap.buddy.free == {PAGE}
    modifies heap`uses, heap`chains, heap.firstSlab, heap.ram
    modifies heap.buddy`free, heap.buddy`blocks, heap.buddy`live, heap.buddy.freeLists, heap.buddy.freeLists.heads
    ensures ptr == if 0 < size <= 4072 then heap.buddy.startAddr + 24 else 0
  {
    OnePageRoom(size);
    ghost var blocks := heap.buddy.blocks;
    ghost var r;
    ptr, r := heap.KmallocReal(size, false);
    if ptr != 0 { Buddy.OnlyServes(blocks, PAGE, r.block); }
  }

  /** A client: of a heap of one page a request without the slabs can have 4072 bytes. */
  method OnePage(ram: Memory, start: nat, size: nat) returns (ptr: nat)
    requires 0 < start && start % 4096 == 0 && start + 4096 < WORD && size + Overhead(false) <= 0x8000_0000
    modifies ram
    ensures ptr == if 0 < size <= 4072 then start + 24 else 0
  {
    var heap := NewPage(ram, start);
    ptr := ServePage(heap, size);
  }

  const MEGABYTE: nat := 0x10_0000
  const WHOLE := Block(0, 20)  // the block that covers it

  /** A free megabyte is one block. */
  lemma OneBlock(free: set<Block>)
    requires Canonical(free, {}, MEGABYTE)
    ensures free == {WHOLE}
  {
    Buddy.PageSizes();
    assert Pow2(20) == 64 * Pow2(14);
    forall x | 0 <= x < MEGABYTE ensures Covers({WHOLE} + {}, x) { assert WHOLE in {WHOLE} + {}; }
    assert Canonical({WHOLE}, {}, MEGABYTE);
    FreeDeterminedByLive(free, {WHOLE}, {}, MEGABYTE);
  }

  method Megabyte(ram: Memory, start: nat) returns (heap: KernelHeap)
    requires 0 < start && start % 4096 == 0 && start + MEGABYTE < WORD
    modifies ram
    ensures heap.Valid() && heap.uses == map[] && !heap.slabReady && heap.ram == ram
    ensures heap.buddy.startAddr == start && heap.buddy.covered == MEGABYTE && heap.buddy.free == {WHOLE}
    ensures fresh(heap) && fresh(heap.firstSlab)
    ensures fresh(heap.buddy) && fresh(heap.buddy.freeLists) && fresh(heap.buddy.freeLists.heads)
  {
    heap := new KernelHeap(ram, start, start + MEGABYTE);
    OneBlock(heap.buddy.free);
  }

  lemma EmptyHasRoom()
    ensures !NoObject(map[], 32, MEGABYTE)
  {
    Buddy.PageSizes();
    Buddy.OrderIs(PAGE_SIZE + Overhead(true), 14);
    assert Gap(Block(0, 14), {}, MEGABYTE);
    assert !NoRoomFor(PAGE_SIZE + Overhead(true), map[], MEGABYTE);
  }

  lemma FirstServed(chains: seq<seq<Block>>, uses: Uses, r: Ref)
    requires ServedBySlab(map[], chains, uses, r, 32)
    ensures uses == map[r.block := Slab(0, UpFrom(1, ObjCount(0)))] && r.idx == 0
  {
    assert Serves(0, 32);
    OneServes(uses[r.block].cache, 0, 32);
  }

  lemma SecondServed(chains: seq<seq<Block>>, uses: Uses, uses': Uses, b: Block, r: Ref)
    requires ServedBySlab(uses, chains, uses', r, 32) && uses == map[b := Slab(0, UpFrom(1, ObjCount(0)))]
    ensures r == Ref(b, 1) && uses'[b].Slab? && uses'[b].cache == 0
  {
    assert Serves(0, 32);
    OneServes(uses'[r.block].cache, 0, 32);
    OneLeft(uses, b, 0);
  }

  lemma OneLeft(uses: Uses, b: Block, covered: nat)
    requires uses == map[b := Slab(0, UpFrom(1, ObjCount(0)))]
    ensures !NoObject(uses, 32, covered) && !SlabsFull(uses, 0)
  {
    assert IsSlabOf(uses, b, 0) && Serves(0, 32);
  }

  /** The first object of a slab on an empty heap. */
  method FirstSmall(heap: KernelHeap) returns (ptr: nat, ghost b: Block)
    requires heap.Valid() && heap.uses == map[] && heap.slabReady
    requires heap.buddy.covered == MEGABYTE && heap.buddy.free == {WHOLE}
    modifies heap`uses, heap`chains, heap.firstSlab, heap.ram
    modifies heap.buddy`free, heap.buddy`blocks, heap.buddy`live, heap.buddy.freeLists, heap.buddy.freeLists.heads
    ensures heap.Valid() && heap.uses == map[b := Slab(0, UpFrom(1, ObjCount(0)))] && Lo(b) == 0
    ensures ptr == heap.buddy.startAddr + 4096 + 28
  {
    EmptyHasRoom();
    ghost var blocks, chains := heap.buddy.blocks, heap.chains;
    ghost var r;
    ptr, r := heap.KmallocReal(32, false);
    FirstServed(chains, heap.uses, r);
    b := r.block;
    Buddy.OnlyServes(blocks, WHOLE, b);
  }

  /** The second one. */
  method SecondSmall(heap: KernelHeap, ghost b: Block) returns (ptr: nat)
    requires heap.Valid() && heap.slabReady && heap.uses == map[b := Slab(0, UpFrom(1, ObjCount(0)))]
    modifies heap`uses, heap`chains, heap.firstSlab, heap.ram
    modifies heap.buddy`free, heap.buddy`blocks, heap.buddy`live, heap.buddy.freeLists, heap.buddy.freeLists.heads
    ensures ptr == heap.buddy.startAddr + Lo(b) + 4096 + 28 + 32
  {
    OneLeft(heap.uses, b, heap.buddy.covered);
    ghost var uses, chains := heap.uses, heap.chains;
    ghost var r;
    ptr, r := heap.KmallocReal(32, false);
    SecondServed(chains, uses, heap.uses, b, r);
  }

  /** A client: with the slabs on, two requests for 32 bytes get the first two objects of one
      slab page. */
  method TwoSmall(ram: Memory, start: nat) returns (first: nat, second: nat)
    requires 0 < start && start % 4096 == 0 && start + MEGABYTE < WORD
    modifies ram
    ensures first == start + 4096 + 28 && second == first + 32
  {
    var heap := Megabyte(ram, start);
    heap.StartSlabs();
    ghost var b;
    first, b := FirstSmall(heap);
    second := SecondSmall(heap, b);
  }
}
