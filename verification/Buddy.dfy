/** The buddy allocator of src/kernel/buddy.cpp: seventeen linked lists of free blocks whose
    `next` words live in the free blocks themselves. */
module Buddy {
  import opened Collections
  import opened Dyadic
  import opened Tiling
  import opened Ram
  import opened FreeList

  // ---- request sizes ----

  function OrderFrom(k: nat, size: nat): (o: nat)
    ensures o >= k && size <= Pow2(o) && (o > k ==> Pow2(o - 1) < size)
    decreases size - Pow2(k)
  {
    if Pow2(k) >= size then k else OrderFrom(k + 1, size)
  }

  /** The order of the block that serves a request: the least one of at least a page
      whose blocks hold `size` bytes. */
  function RequestOrder(size: nat): (o: nat)
    ensures o >= MIN_ORDER && size <= Pow2(o) && (o > MIN_ORDER ==> Pow2(o - 1) < size)
  {
    if OrderFrom(0, size) < MIN_ORDER then
      Pow2Monotone(OrderFrom(0, size), MIN_ORDER);
      MIN_ORDER
    else OrderFrom(0, size)
  }

  /** get_order; 32-bit doubling reaches every size up to 2^31. */
  method GetOrder(size: nat) returns (order: nat)
    requires size <= 0x8000_0000
    ensures order == OrderFrom(0, size)
  {
    order := 0;
    var s := 1;
    while s < size
      invariant s == Pow2(order) && OrderFrom(order, size) == OrderFrom(0, size)
      decreases size - s
    {
      s := s * 2 % WORD;
      order := order + 1;
    }
  }

  /** get_order_floor; the doubled value must not wrap. */
  method GetOrderFloor(n: nat) returns (order: nat)
    requires 0 < n < 0x8000_0000
    ensures Pow2(order) <= n < Pow2(order + 1)
  {
    order := 0;
    var s := 1;
    while s * 2 % WORD <= n
      invariant s == Pow2(order) && s <= n
      decreases n - s
    {
      s := s * 2 % WORD;
      order := order + 1;
    }
  }

  /** The 32-bit variable that both loops double, after k rounds. */
  function Doubled(k: nat): nat {
    if k == 0 then 1 else Doubled(k - 1) * 2 % WORD
  }

  lemma WordBits()
    ensures Pow2(31) == 0x8000_0000 && Pow2(32) == WORD
  {
    assert Pow2(10) == 1024;
    assert Pow2(20) == 1024 * Pow2(10);
    assert Pow2(31) == 2048 * Pow2(20);
  }

  lemma {:induction false} DoubledIs(k: nat)
    ensures Doubled(k) == if k < 32 then Pow2(k) else 0
    ensures k < 32 ==> Pow2(k) <= 0x8000_0000
  {
    WordBits();
    if k < 32 { Pow2Monotone(k, 31); }
    if k > 0 {
      DoubledIs(k - 1);
      if k < 32 { SmallMod(Pow2(k)); }
    }
  }

  /** Above 2^31 get_order never ends, from 2^31 on get_order_floor does not either: after any
      number of rounds the loop goes on. */
  lemma NeverEnds(n: nat, k: nat)
    ensures n > 0x8000_0000 ==> Doubled(k) < n
    ensures n >= 0x8000_0000 ==> Doubled(k) * 2 % WORD <= n
  {
    DoubledIs(k);
    DoubledIs(k + 1);
  }

  /** The largest order up to MAX_ORDER whose blocks fit in n bytes. */
  method FittingOrder(n: nat) returns (order: nat)
    requires 0 < n < 0x8000_0000
    ensures order <= MAX_ORDER && Pow2(order) <= n
    ensures order < MAX_ORDER ==> n < 2 * Pow2(order)
    ensures order < MIN_ORDER ==> n < 4096
  {
    order := GetOrderFloor(n);
    if order > MAX_ORDER {
      Pow2Monotone(MAX_ORDER, order);
      order := MAX_ORDER;
    }
    if order < MIN_ORDER {
      PageSize();
      Pow2Monotone(order + 1, MIN_ORDER);
    }
  }

  // ---- the lists hold the free blocks ----

  /** Where each block's list node lives. */
  ghost function At(start: nat): Block -> nat { b => start + Lo(b) }

  /** `blocks` lists, order by order, the free blocks in the order of their list nodes. */
  ghost predicate Holds(blocks: seq<seq<Block>>, lists: seq<seq<nat>>, free: set<Block>, at: Block -> nat) {
    && |blocks| == |lists| == NUM_ORDERS
    && (forall i :: 0 <= i < NUM_ORDERS ==> |blocks[i]| == |lists[i]|)
    && (forall i, k {:trigger blocks[i][k]} :: 0 <= i < NUM_ORDERS && 0 <= k < |blocks[i]| ==>
          && blocks[i][k] in free && blocks[i][k].order == MIN_ORDER + i
          && lists[i][k] == at(blocks[i][k]))
    && (forall b {:trigger b in free} :: b in free ==>
          MIN_ORDER <= b.order <= MAX_ORDER && b in blocks[b.order - MIN_ORDER])
  }

  lemma HoldsPush(blocks: seq<seq<Block>>, lists: seq<seq<nat>>, free: set<Block>, at: Block -> nat, b: Block, i: nat)
    requires Holds(blocks, lists, free, at) && i < NUM_ORDERS && b.order == MIN_ORDER + i
    ensures Holds(blocks[i := [b] + blocks[i]], lists[i := [at(b)] + lists[i]], free + {b}, at)
  {}

  lemma HoldsPop(blocks: seq<seq<Block>>, lists: seq<seq<nat>>, free: set<Block>, at: Block -> nat, i: nat, k: nat)
    requires Holds(blocks, lists, free, at) && i < NUM_ORDERS && k < |blocks[i]| && Distinct(lists[i])
    ensures Holds(blocks[i := Without(blocks[i], k)], lists[i := Without(lists[i], k)], free - {blocks[i][k]}, at)
  {}

  lemma HoldsEmpty(blocks: seq<seq<Block>>, lists: seq<seq<nat>>, free: set<Block>, at: Block -> nat, i: nat)
    requires Holds(blocks, lists, free, at) && i < NUM_ORDERS && lists[i] == []
    ensures forall c :: c in free ==> c.order != MIN_ORDER + i
  {}

  /** List nodes lie in free blocks only. */
  lemma NodesOutside(blocks: seq<seq<Block>>, lists: seq<seq<nat>>, free: set<Block>, start: nat, b: Block)
    requires Holds(blocks, lists, free, At(start))
    requires forall c :: c in free ==> Disjoint(c, b)
    ensures forall j, a :: 0 <= j < NUM_ORDERS && a in lists[j] ==> !(start + Lo(b) <= a < start + Hi(b))
  {
    forall j, a | 0 <= j < NUM_ORDERS && a in lists[j] ensures !(start + Lo(b) <= a < start + Hi(b)) {
      var k :| 0 <= k < |lists[j]| && lists[j][k] == a;
      var c := blocks[j][k];
      assert Disjoint(blocks[j][k], b);
    }
  }

  /** The address the XOR computes is in the list exactly when the buddy is free. */
  lemma BuddyListed(blocks: seq<seq<Block>>, lists: seq<seq<nat>>, free: set<Block>, start: nat, u: Block, i: nat)
    requires Holds(blocks, lists, free, At(start)) && i < NUM_ORDERS && u.order == MIN_ORDER + i
    ensures (At(start)(u) in lists[i]) == (u in free)
    ensures forall k :: 0 <= k < |lists[i]| && lists[i][k] == At(start)(u) ==> blocks[i][k] == u
  {
    if u in free {
      var k :| 0 <= k < |blocks[i]| && blocks[i][k] == u;
      assert lists[i][k] == At(start)(u);
    }
    forall k | 0 <= k < |lists[i]| && lists[i][k] == At(start)(u) ensures blocks[i][k] == u {
      if blocks[i][k] != u { SameOrder(blocks[i][k], u); }
    }
  }

  lemma BuddyAddress(h: Block, start: nat)
    requires start + Hi(h) < WORD
    ensures (Xor(Lo(h), Size(h)) + start) % WORD == At(start)(Buddy(h))
  {
    XorIsBuddy(h);
    BuddyLow(h);
    SmallMod(start + Lo(Buddy(h)));
  }

  lemma SmallMod(x: nat)
    requires x < WORD
    ensures x % WORD == x
  {}

  /** Block h heads the list of its order. */
  ghost predicate First(blocks: seq<seq<Block>>, h: Block) {
    && MIN_ORDER <= h.order < MIN_ORDER + |blocks|
    && var list := blocks[h.order - MIN_ORDER];
       list != [] && list[0] == h
  }

  /** The free block that serves a request: the head of the first non-empty list from the
      requested order on, so no smaller free block would do. */
  ghost predicate BestFit(blocks: seq<seq<Block>>, free: set<Block>, order: nat, h: Block) {
    && h in free && order <= h.order && First(blocks, h)
    && forall c :: c in free && order <= c.order ==> h.order <= c.order
  }

  /** A block that has been split off such a block, from its start. */
  ghost predicate CutFromBest(blocks: seq<seq<Block>>, free: set<Block>, b: Block) {
    exists h :: BestFit(blocks, free, b.order, h) && Lo(h) == Lo(b)
  }

  class BuddyAllocator {
    const ram: Memory
    const startAddr: nat
    const endAddr: nat
    const freeLists: FreeLists

    ghost var covered: nat         // bytes of the region that belong to some block
    ghost var initial: set<Block>  // the free set right after initialisation
    ghost var blocks: seq<seq<Block>>  // the free blocks, list by list
    ghost var free: set<Block>
    ghost var live: set<Block>

    ghost function Addr(b: Block): nat { startAddr + Lo(b) }

    ghost predicate Shape()
      reads this, freeLists, freeLists.heads, ram
    {
      && 0 < startAddr && endAddr < WORD
      && freeLists.ram == ram && freeLists.Valid()
      && Holds(blocks, freeLists.lists, free, At(startAddr))
    }

    ghost predicate Valid()
      reads this, freeLists, freeLists.heads, ram
    {
      && Shape()
      && startAddr + covered <= endAddr
      && Canonical(free, live, covered)
      && Canonical(initial, {}, covered)
    }

    /** buddy_init */
    constructor (ram: Memory, start: nat, end: nat)
      requires 0 < start <= end < WORD && end - start < 0x8000_0000
      modifies ram
      ensures Valid() && fresh(freeLists) && fresh(freeLists.heads)
      ensures this.ram == ram && startAddr == start && endAddr == end
      ensures live == {} && free == initial
      ensures covered % 4096 == 0 && covered <= end - start < covered + 4096
    {
      this.ram := ram;
      startAddr, endAddr := start, end;
      freeLists := new FreeLists(ram, NUM_ORDERS);
      free, live, blocks := {}, {}, seq(NUM_ORDERS, _ => []);
      new;
      Fill();
    }

    /** Cover the range with the largest blocks that still fit. */
    method Fill()
      requires Shape() && free == {} && live == {}
      requires startAddr <= endAddr && endAddr - startAddr < 0x8000_0000
      modifies this, freeLists, freeLists.heads, ram
      ensures Valid() && live == {} && free == initial
      ensures covered % 4096 == 0 && covered <= endAddr - startAddr < covered + 4096
    {
      var current := startAddr;
      ghost var idx: nat, k: nat, pos: nat := 0, MAX_ORDER, 0;
      CoverNone(endAddr - startAddr);
      while current < endAddr
        invariant current == startAddr + pos <= endAddr && live == {}
        invariant Shape() && Covering(free, pos, idx, k, endAddr - current)
      {
        var order := FittingOrder(endAddr - current);
        if order < MIN_ORDER { break; }
        idx, pos := PlaceNext(current, order, pos, idx, k);
        k := order;
        current := current + Pow2(order);
      }
      covered, initial := pos, free;
      CoverDone(free, pos, idx, k, endAddr - current);
    }

    /** One iteration of buddy_init's loop, after the order is chosen. */
    method PlaceNext(current: nat, order: nat, ghost pos: nat, ghost idx: nat, ghost k: nat)
      returns (ghost idx': nat, ghost pos': nat)
      requires Shape() && current == startAddr + pos < endAddr && Covering(free, pos, idx, k, endAddr - current)
      requires MIN_ORDER <= order <= MAX_ORDER && Pow2(order) <= endAddr - current
      requires order < MAX_ORDER ==> endAddr - current < 2 * Pow2(order)
      modifies this`free, this`blocks, freeLists, freeLists.heads, ram
      ensures Shape() && pos' == pos + Pow2(order)
      ensures Covering(free, pos', idx', order, endAddr - current - Pow2(order))
    {
      ghost var b := CoverNext(free, pos, idx, k, endAddr - current, order);
      Push(order - MIN_ORDER, current, b);
      idx', pos' := b.idx + 1, Hi(b);
    }

    method Push(i: nat, block: nat, ghost b: Block)
      requires Shape() && i < NUM_ORDERS && b.order == MIN_ORDER + i && block == Addr(b) < WORD
      requires forall c :: c in free ==> Disjoint(c, b)
      modifies this`free, this`blocks, freeLists, freeLists.heads, ram
      ensures Shape() && free == old(free) + {b}
      ensures First(blocks, b)
      ensures forall a :: a != block ==> Load(ram.words, a) == Load(old(ram.words), a)
    {
      NodesOutside(blocks, freeLists.lists, free, startAddr, b);
      assert At(startAddr)(b) == block;
      HoldsPush(blocks, freeLists.lists, free, At(startAddr), b, i);
      freeLists.Push(i, block);
      blocks, free := blocks[i := [b] + blocks[i]], free + {b};
    }

    /** block = free_lists[i]; free_lists[i] = block->next, for a non-empty list. */
    method Pop(i: nat) returns (block: nat, ghost h: Block)
      requires Shape() && i < NUM_ORDERS && freeLists.lists[i] != []
      modifies this`free, this`blocks, freeLists, freeLists.heads
      ensures Shape() && h in old(free) && free == old(free) - {h}
      ensures h.order == MIN_ORDER + i && block == Addr(h) && First(old(blocks), h)
    {
      assert Slot(i);
      h := blocks[i][0];
      HoldsPop(blocks, freeLists.lists, free, At(startAddr), i, 0);
      block := freeLists.Pop(i);
      blocks, free := blocks[i := Without(blocks[i], 0)], free - {h};
    }

    /** Split the held block down to list `to`, freeing the upper halves. */
    method SplitDown(block: nat, from: nat, to: nat, ghost b: Block)
      requires Shape() && to <= from < NUM_ORDERS && b.order == MIN_ORDER + from && block == Addr(b)
      requires startAddr + Hi(b) < WORD && forall c :: c in free ==> Disjoint(c, b)
      modifies this`free, this`blocks, freeLists, freeLists.heads, ram
      ensures Shape() && free == Split(old(free), b, MIN_ORDER + to).0
      ensures forall a: nat :: !(block <= a < block + Size(b)) ==> Load(ram.words, a) == Load(old(ram.words), a)
    {
      ghost var h := b;
      var i := from;
      while i > to
        invariant to <= i <= from && h.order == MIN_ORDER + i && Lo(h) == Lo(b) && Hi(h) <= Hi(b)
        invariant Shape() && forall c :: c in free ==> Disjoint(c, h)
        invariant Split(free, h, MIN_ORDER + to) == Split(old(free), b, MIN_ORDER + to)
        invariant forall a: nat :: !(block <= a < block + Size(b)) ==> Load(ram.words, a) == Load(old(ram.words), a)
      {
        i := i - 1;
        Halves(h);
        var buddy := block + Pow2(i + MIN_ORDER);
        Push(i, buddy, RightHalf(h));
        h := LeftHalf(h);
      }
    }

    /** Look for the buddy of the held block in its free list and unlink it. */
    method TakeBuddy(i: nat, addr: nat, ghost h: Block) returns (found: bool, buddyAddr: nat)
      requires Shape() && i < NUM_ORDERS && h.order == MIN_ORDER + i && addr == Addr(h)
      requires startAddr + Hi(h) < WORD
      modifies this`free, this`blocks, freeLists, freeLists.heads, ram
      ensures Shape() && buddyAddr == Addr(Buddy(h))
      ensures found == (Buddy(h) in old(free))
      ensures free == if found then old(free) - {Buddy(h)} else old(free)
      ensures forall j, a :: 0 <= j < NUM_ORDERS && a in freeLists.lists[j] ==> a in old(freeLists.lists)[j]
      ensures forall a: nat :: a !in old(freeLists.lists)[i] ==> Load(ram.words, a) == Load(old(ram.words), a)
    {
      buddyAddr := BuddyAddr(i, addr, h);
      BuddyListed(blocks, freeLists.lists, free, startAddr, Buddy(h), i);
      HoldsPopAny(i);
      ghost var k;
      found, k := freeLists.Unlink(i, buddyAddr);
      if found {
        blocks, free := blocks[i := Without(blocks[i], k)], free - {Buddy(h)};
      }
    }

    /** The XOR of the block's offset with its size, as 32-bit address arithmetic. */
    method BuddyAddr(i: nat, addr: nat, ghost h: Block) returns (buddyAddr: nat)
      requires h.order == MIN_ORDER + i && addr == Addr(h) && startAddr + Hi(h) < WORD
      ensures buddyAddr == At(startAddr)(Buddy(h)) == Addr(Buddy(h))
    {
      BuddyAddress(h, startAddr);
      var blockSize := Pow2(i + MIN_ORDER);
      var relative := addr - startAddr;
      buddyAddr := (Xor(relative, blockSize) + startAddr) % WORD;
    }

    lemma HoldsPopAny(i: nat)
      requires Shape() && i < NUM_ORDERS
      ensures forall k :: 0 <= k < |blocks[i]| ==>
                Holds(blocks[i := Without(blocks[i], k)], freeLists.lists[i := Without(freeLists.lists[i], k)],
                      free - {blocks[i][k]}, At(startAddr))
    {
      assert Slot(i);
      forall k | 0 <= k < |blocks[i]| {
        HoldsPop(blocks, freeLists.lists, free, At(startAddr), i, k);
      }
    }

    /** Join the block at `addr0` with its buddies for as long as they are free. */
    method Coalesce(addr0: nat, order0: nat, ghost h0: Block) returns (addr: nat, order: nat, ghost h: Block)
      requires Shape() && h0.order == order0 && addr0 == Addr(h0) && MIN_ORDER <= order0 <= MAX_ORDER
      requires startAddr + covered <= endAddr
      requires Hi(h0) <= covered && forall c :: c in free ==> Hi(c) <= covered
      modifies this`free, this`blocks, freeLists, freeLists.heads, ram
      ensures Shape() && (free, h) == Join(old(free), h0)
      ensures h.order == order && addr == Addr(h) && order0 <= order <= MAX_ORDER
      ensures forall a: nat :: (forall j :: 0 <= j < NUM_ORDERS ==> a !in old(freeLists.lists)[j]) ==>
                Load(ram.words, a) == Load(old(ram.words), a)
    {
      addr, order, h := addr0, order0, h0;
      while order < MAX_ORDER
        invariant order0 <= order <= MAX_ORDER && h.order == order && addr == Addr(h)
        invariant Shape() && Hi(h) <= covered && forall c :: c in free ==> Hi(c) <= covered
        invariant Join(free, h) == Join(old(free), h0)
        invariant forall j, a :: 0 <= j < NUM_ORDERS && a in freeLists.lists[j] ==> a in old(freeLists.lists)[j]
        invariant forall a: nat :: (forall j :: 0 <= j < NUM_ORDERS ==> a !in old(freeLists.lists)[j]) ==>
                    Load(ram.words, a) == Load(old(ram.words), a)
      {
        var found, buddyAddr := TakeBuddy(order - MIN_ORDER, addr, h);
        if !found { break; }
        if buddyAddr < addr { addr := buddyAddr; }
        Family(h);
        h := Parent(h);
        order := order + 1;
      }
    }

    /** The words of these blocks have the same values in both memories. */
    ghost predicate SameIn(l: set<Block>, words: Words, words': Words) {
      forall b, a :: b in l && Addr(b) <= a < Addr(b) + Size(b) ==> Load(words', a) == Load(words, a)
    }

    /** memset of a block no free block meets */
    method ClearBlock(block: nat, order: nat, ghost b: Block)
      requires Shape() && block == Addr(b) && order == b.order
      requires forall c :: c in free ==> Disjoint(c, b)
      modifies ram
      ensures Shape()
      ensures forall a: nat :: Load(ram.words, a) == if block <= a < block + Size(b) then 0 else Load(old(ram.words), a)
    {
      NodesOutside(blocks, freeLists.lists, free, startAddr, b);
      ghost var before := ram.words;
      ram.Clear(block, Pow2(order));
      AllFrame(freeLists.lists, freeLists.heads[..], before, ram.words);
    }

    /** Take the first block of list `from` and split it down to list `to`. */
    method Carve(from: nat, to: nat) returns (block: nat, ghost h: Block)
      requires Valid() && to <= from < NUM_ORDERS && freeLists.lists[from] != []
      modifies this`free, this`blocks, freeLists, freeLists.heads, ram
      ensures Shape() && h in old(free) && h.order == MIN_ORDER + from && First(old(blocks), h) && block == Addr(h)
      ensures free == Split(old(free) - {h}, h, MIN_ORDER + to).0
      ensures forall a: nat :: !(block <= a < block + Size(h)) ==> Load(ram.words, a) == Load(old(ram.words), a)
    {
      block, h := Pop(from);
      FreeApart(old(free), live, h, covered);
      SplitDown(block, from, to, h);
    }

    /** Serve a request for a block of list `to` from the first block of list `from`. */
    method TakeFrom(from: nat, to: nat) returns (block: nat, ghost b: Block, ghost h: Block)
      requires Valid() && to <= from < NUM_ORDERS && freeLists.lists[from] != []
      modifies this`free, this`blocks, this`live, freeLists, freeLists.heads, ram
      ensures Valid() && SameIn(old(live), old(ram.words), ram.words)
      ensures b.order == MIN_ORDER + to && block == Addr(b) && b !in old(live) && live == old(live) + {b}
      ensures forall a :: block <= a < block + Size(b) ==> Load(ram.words, a) == 0
      ensures h in old(free) && h.order == MIN_ORDER + from && First(old(blocks), h) && Lo(b) == Lo(h)
    {
      block, h := Carve(from, to);
      FreeApart(old(free), live, h, covered);
      AllocKeeps(old(free), live, h, MIN_ORDER + to, covered);
      b := Split(old(free) - {h}, h, MIN_ORDER + to).1;
      live := live + {b};
      LiveApart(free, live, b, covered);
      ClearBlock(block, MIN_ORDER + to, b);
    }

    /** buddy_alloc. A null result means that no aligned range of the requested size is
        free of live blocks. A larger block is cut only if no smaller one that fits is free. */
    method Alloc(size: nat) returns (ptr: nat, ghost b: Block)
      requires Valid() && size <= 0x8000_0000
      modifies this`free, this`blocks, this`live, freeLists, freeLists.heads, ram
      ensures Valid() && SameIn(old(live), old(ram.words), ram.words)
      ensures ptr == 0 ==> live == old(live) && free == old(free) && blocks == old(blocks)
      ensures ptr == 0 ==> forall g: Block :: g.order == RequestOrder(size) ==> !Gap(g, live, covered)
      ensures ptr != 0 ==> b.order == RequestOrder(size) && ptr == Addr(b) && Gap(b, old(live), covered)
      ensures ptr != 0 ==> b !in old(live) && live == old(live) + {b}
      ensures ptr != 0 ==> CutFromBest(old(blocks), old(free), b)
      ensures ptr != 0 ==> forall a :: ptr <= a < ptr + Size(b) ==> Load(ram.words, a) == 0
    {
      b := Block(0, 0);
      var order := GetOrder(size);
      if order < MIN_ORDER { order := MIN_ORDER; }
      var listIdx := order - MIN_ORDER;
      if listIdx >= NUM_ORDERS { return 0, b; }
      for i := listIdx to NUM_ORDERS
        invariant Valid() && live == old(live) && ram.words == old(ram.words)
        invariant free == old(free) && blocks == old(blocks)
        invariant forall c :: c in free && order <= c.order ==> MIN_ORDER + i <= c.order
      {
        assert Slot(i);
        LinkedAt(freeLists.lists[i], 0, freeLists.heads[i], ram.words);
        if freeLists.heads[i] != 0 {
          ghost var h;
          ptr, b, h := TakeFrom(i, listIdx);
          assert BestFit(old(blocks), old(free), order, h);
          LiveApart(free, live, b, covered);
          return;
        }
        HoldsEmpty(blocks, freeLists.lists, free, At(startAddr), i);
      }
      ptr := 0;
      NoRoom(order, free, live, covered);
    }

    /** buddy_free of a live block, with the size it was requested with. */
    method Free(ptr: nat, size: nat, ghost b: Block)
      requires Valid() && size <= 0x8000_0000
      requires ptr != 0 ==> b in live && ptr == Addr(b) && b.order == RequestOrder(size)
      modifies this`free, this`blocks, this`live, freeLists, freeLists.heads, ram
      ensures Valid() && live == if ptr == 0 then old(live) else old(live) - {b}
      ensures SameIn(live, old(ram.words), ram.words)
      // The block, with what it could be joined with, is the next of its order to be used.
      ensures ptr != 0 ==> exists h :: h in free && Within(b, h) && First(blocks, h) &&
                                       (h == b <==> b.order == MAX_ORDER || Buddy(b) !in old(free))
    {
      if ptr == 0 { return; }
      JoinGrows(free, b);
      var order := GetOrder(size);
      if order < MIN_ORDER { order := MIN_ORDER; }
      LiveApart(free, live, b, covered);
      NodesNotLive();
      FreeKeeps(free, live, b, covered);
      var addr;
      ghost var h;
      addr, order, h := Coalesce(ptr, order, b);
      live := live - {b};
      FreeApart(free + {h}, live, h, covered);
      Push(order - MIN_ORDER, addr, h);
    }

    /** No word of a live block is a list node. */
    lemma NodesNotLive()
      requires Shape() && forall c, l :: c in free && l in live ==> Disjoint(c, l)
      ensures forall l, j, a :: l in live && Addr(l) <= a < Addr(l) + Size(l) && 0 <= j < NUM_ORDERS ==>
                a !in freeLists.lists[j]
    {
      forall l | l in live
        ensures forall j, a :: Addr(l) <= a < Addr(l) + Size(l) && 0 <= j < NUM_ORDERS ==> a !in freeLists.lists[j]
      {
        NodesOutside(blocks, freeLists.lists, free, startAddr, l);
      }
    }

    /** The owner of a live block may write to it: no list node is touched. */
    lemma OwnerMayWrite(b: Block, words': Words)
      requires Valid() && b in live
      requires forall a: nat :: !(Addr(b) <= a < Addr(b) + Size(b)) ==> Load(words', a) == Load(ram.words, a)
      ensures AllLinked(freeLists.lists, freeLists.heads[..], words')
    {
      LiveApart(free, live, b, covered);
      NodesOutside(blocks, freeLists.lists, free, startAddr, b);
      AllFrame(freeLists.lists, freeLists.heads[..], ram.words, words');
    }

    /** Once everything is freed, the free set is the one buddy_init built. */
    lemma AllFreed()
      requires Valid() && live == {}
      ensures free == initial
    {
      FreeDeterminedByLive(free, initial, live, covered);
    }
  }

  lemma PageSizes()
    ensures Pow2(12) == 4096 && Pow2(13) == 8192 && Pow2(14) == 16384
  {
    PageSize();
    assert Pow2(13) == 2 * Pow2(12);
  }

  const SMALL := Block(4, 12)  // the last 4096 of 20480 bytes
  const LARGE := Block(0, 14)  // the 16384 bytes before it

  /** Five pages are laid out as these two blocks. */
  lemma FivePages(free: set<Block>)
    requires Canonical(free, {}, 20480)
    ensures free == {SMALL, LARGE}
  {
    PageSizes();
    var layout := {SMALL, LARGE};
    forall x | 0 <= x < 20480 ensures Covers(layout + {}, x) {
      if x < 16384 { assert LARGE in layout + {}; } else { assert SMALL in layout + {}; }
    }
    assert Canonical(layout, {}, 20480);
    FreeDeterminedByLive(free, layout, {}, 20480);
  }

  /** With the small block in use the large one is what is free. */
  lemma LargeLeft(free: set<Block>)
    requires Canonical(free, {SMALL}, 20480)
    ensures free == {LARGE}
  {
    PageSizes();
    forall x | 0 <= x < 20480 ensures Covers({LARGE} + {SMALL}, x) {
      if x < 16384 { assert LARGE in {LARGE} + {SMALL}; } else { assert SMALL in {LARGE} + {SMALL}; }
    }
    assert Canonical({LARGE}, {SMALL}, 20480);
    FreeDeterminedByLive(free, {LARGE}, {SMALL}, 20480);
  }

  lemma OrderIs(size: nat, k: nat)
    requires MIN_ORDER < k && Pow2(k - 1) < size <= Pow2(k)
    ensures RequestOrder(size) == k
  {
    var o := RequestOrder(size);
    if o < k { Pow2Monotone(o, k - 1); }
    if o > k { Pow2Monotone(k, o - 1); }
  }

  lemma SmallestOrder(size: nat)
    requires size <= 4096
    ensures RequestOrder(size) == MIN_ORDER
  {
    PageSize();
    var o := RequestOrder(size);
    if o > MIN_ORDER { Pow2Monotone(MIN_ORDER, o - 1); }
  }

  method FivePagesFree(ram: Memory, start: nat) returns (buddy: BuddyAllocator)
    requires 0 < start && start + 20480 < WORD
    modifies ram
    ensures fresh(buddy) && fresh(buddy.freeLists) && fresh(buddy.freeLists.heads)
    ensures buddy.Valid() && buddy.ram == ram && buddy.startAddr == start && buddy.covered == 20480
    ensures buddy.live == {} && buddy.free == {SMALL, LARGE}
  {
    buddy := new BuddyAllocator(ram, start, start + 20480);
    FivePages(buddy.free);
  }

  /** What a request gets when the first block of its order is free. */
  lemma HeadServes(blocks: seq<seq<Block>>, free: set<Block>, h: Block, b: Block)
    requires CutFromBest(blocks, free, b) && h in free && First(blocks, h) && h.order == b.order
    ensures Lo(b) == Lo(h)
  {}

  lemma OnlyServes(blocks: seq<seq<Block>>, h: Block, b: Block)
    requires CutFromBest(blocks, {h}, b)
    ensures Lo(b) == Lo(h)
  {}

  /** What it gets when every other block that fits is larger. */
  lemma SmallestServes(blocks: seq<seq<Block>>, free: set<Block>, h: Block, b: Block)
    requires CutFromBest(blocks, free, b) && h in free && b.order <= h.order
    requires forall c :: c in free && c != h && b.order <= c.order ==> h.order < c.order
    ensures Lo(b) == Lo(h)
  {}

  /** A client: five pages serve one page and then four, because the first request leaves the
      large block whole. */
  method SmallThenLarge(ram: Memory, start: nat) returns (small: nat, large: nat)
    requires 0 < start && start + 20480 < WORD
    modifies ram
    ensures small == start + 16384 && large == start
  {
    PageSizes();
    SmallestOrder(4096);
    OrderIs(16384, 14);
    var buddy := FivePagesFree(ram, start);
    small := OnePage(buddy);
    LargeLeft(buddy.free);
    assert Gap(LARGE, {SMALL}, 20480);
    ghost var blocks := buddy.blocks;
    ghost var b;
    large, b := buddy.Alloc(16384);
    OnlyServes(blocks, LARGE, b);
  }

  method OnePage(buddy: BuddyAllocator) returns (small: nat)
    requires buddy.Valid() && buddy.covered == 20480 && buddy.live == {} && buddy.free == {SMALL, LARGE}
    modifies buddy`free, buddy`blocks, buddy`live, buddy.freeLists, buddy.freeLists.heads, buddy.ram
    ensures buddy.Valid() && buddy.live == {SMALL} && small == buddy.startAddr + 16384
  {
    PageSizes();
    SmallestOrder(4096);
    assert Gap(SMALL, {}, 20480);
    ghost var blocks := buddy.blocks;
    ghost var b;
    small, b := buddy.Alloc(4096);
    SmallestServes(blocks, {SMALL, LARGE}, SMALL, b);
  }

  /** A client: what is freed and cannot be joined is handed out again first. */
  method FreeThenAlloc(buddy: BuddyAllocator, ptr: nat, size: nat, ghost b: Block) returns (again: nat)
    requires buddy.Valid() && size <= 0x8000_0000 && ptr != 0
    requires b in buddy.live && ptr == buddy.Addr(b) && b.order == RequestOrder(size)
    modifies buddy`free, buddy`blocks, buddy`live, buddy.freeLists, buddy.freeLists.heads, buddy.ram
    ensures buddy.Valid() && again != 0
    ensures b.order == MAX_ORDER || Buddy(b) !in old(buddy.free) ==> again == ptr
  {
    LiveApart(buddy.free, buddy.live, b, buddy.covered);
    ghost var joined := b.order != MAX_ORDER && Buddy(b) in buddy.free;
    buddy.Free(ptr, size, b);
    assert Gap(b, buddy.live, buddy.covered);
    ghost var b', blocks, free := b, buddy.blocks, buddy.free;
    again, b' := buddy.Alloc(size);
    if !joined { HeadServes(blocks, free, b, b'); }
  }
}
