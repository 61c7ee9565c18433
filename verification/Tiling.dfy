/** What the sets of free and live blocks look like in every reachable state of the
    allocator, and why the free set depends on nothing but the live set. */
module Tiling {
  import opened Dyadic

  predicate InRegion(b: Block, covered: nat) {
    MIN_ORDER <= b.order <= MAX_ORDER && Hi(b) <= covered
  }

  ghost predicate Covers(s: set<Block>, x: int) {
    exists b :: b in s && Lo(b) <= x < Hi(b)
  }

  /** The blocks of `s` cut [0, covered) into pieces, without overlap and without gap. */
  ghost predicate Tiles(s: set<Block>, covered: nat) {
    && (forall b :: b in s ==> InRegion(b, covered))
    && (forall a, b :: a in s && b in s && a != b ==> Disjoint(a, b))
    && (forall x :: 0 <= x < covered ==> Covers(s, x))
  }

  /** No two buddies that could still be joined are both free. */
  ghost predicate Merged(free: set<Block>) {
    forall b {:trigger Buddy(b)} :: b in free && b.order < MAX_ORDER ==> Buddy(b) !in free
  }

  ghost predicate Canonical(free: set<Block>, live: set<Block>, covered: nat) {
    free !! live && Tiles(free + live, covered) && Merged(free)
  }

  /** A block-shaped range no live block touches. */
  ghost predicate Gap(b: Block, live: set<Block>, covered: nat) {
    InRegion(b, covered) && forall l :: l in live ==> Disjoint(b, l)
  }

  ghost predicate MaximalGap(b: Block, live: set<Block>, covered: nat) {
    Gap(b, live, covered) && !Gap(Parent(b), live, covered)
  }

  /** Whatever meets a gap is free. */
  lemma GapMeetsFree(g: Block, free: set<Block>, live: set<Block>, covered: nat) returns (t: Block)
    requires Canonical(free, live, covered) && Gap(g, live, covered)
    ensures t in free && !Disjoint(t, g)
  {
    assert Covers(free + live, Lo(g));
    t :| t in free + live && Lo(t) <= Lo(g) < Hi(t);
  }

  lemma SubGap(a: Block, g: Block, live: set<Block>, covered: nat)
    requires Gap(g, live, covered) && Within(a, g) && MIN_ORDER <= a.order <= MAX_ORDER
    ensures Gap(a, live, covered)
  {}

  /** A free block cannot lie strictly inside a gap: following smaller and smaller
      neighbours would end at two free buddies. */
  lemma {:induction false} NoFreeInside(m: Block, g: Block, free: set<Block>, live: set<Block>, covered: nat)
    requires Canonical(free, live, covered) && Gap(g, live, covered)
    requires m in free && m.order < g.order && !Disjoint(m, g)
    ensures false
    decreases m.order
  {
    assert m in free + live;
    ParentWithin(m, g);
    var s := Buddy(m);
    SubGap(s, g, live, covered);
    var t := GapMeetsFree(s, free, live, covered);
    assert t in free + live;
    if t.order < m.order {
      NoFreeInside(t, s, free, live, covered);
    } else if t.order == m.order {
      if t != s { SameOrder(t, s); }
    } else {
      ParentWithin(s, t);
      Family(m);
    }
  }

  lemma FreeIsMaximal(b: Block, free: set<Block>, live: set<Block>, covered: nat)
    requires Canonical(free, live, covered) && b in free
    ensures MaximalGap(b, live, covered)
  {
    assert b in free + live;
    Family(b);
    if Gap(Parent(b), live, covered) { NoFreeInside(b, Parent(b), free, live, covered); }
  }

  lemma MaximalIsFree(b: Block, free: set<Block>, live: set<Block>, covered: nat)
    requires Canonical(free, live, covered) && MaximalGap(b, live, covered)
    ensures b in free
  {
    var t := GapHasFreeBlock(b, free, live, covered);
    if t.order == b.order {
      if t != b { SameOrder(t, b); }
    } else {
      ParentWithin(b, t);
      assert t in free + live;
      assert Gap(Parent(b), live, covered) by {
        forall l | l in live ensures Disjoint(Parent(b), l) {
          assert l in free + live && Disjoint(t, l);
        }
      }
    }
  }

  /** The free blocks are exactly the maximal block-shaped gaps between live blocks. */
  lemma FreeIsMaximalGap(b: Block, free: set<Block>, live: set<Block>, covered: nat)
    requires Canonical(free, live, covered)
    ensures b in free <==> MaximalGap(b, live, covered)
  {
    if b in free { FreeIsMaximal(b, free, live, covered); }
    if MaximalGap(b, live, covered) { MaximalIsFree(b, free, live, covered); }
  }

  /** History independence: two allocators with the same live blocks have the same free blocks. */
  lemma FreeDeterminedByLive(free: set<Block>, free': set<Block>, live: set<Block>, covered: nat)
    requires Canonical(free, live, covered) && Canonical(free', live, covered)
    ensures free == free'
  {
    forall b ensures b in free <==> b in free' {
      FreeIsMaximalGap(b, free, live, covered);
      FreeIsMaximalGap(b, free', live, covered);
    }
  }

  /** Any gap lies inside one free block, so a request that would fit between the live
      blocks can be served. */
  lemma GapHasFreeBlock(g: Block, free: set<Block>, live: set<Block>, covered: nat) returns (t: Block)
    requires Canonical(free, live, covered) && Gap(g, live, covered)
    ensures t in free && g.order <= t.order && Within(g, t)
  {
    t := GapMeetsFree(g, free, live, covered);
    if t.order < g.order { NoFreeInside(t, g, free, live, covered); }
    Nested(g, t);
  }

  lemma NoRoom(order: nat, free: set<Block>, live: set<Block>, covered: nat)
    requires Canonical(free, live, covered)
    requires forall c :: c in free ==> c.order < order
    ensures forall g: Block :: g.order == order ==> !Gap(g, live, covered)
  {
    forall g: Block | g.order == order && Gap(g, live, covered) ensures false {
      var t := GapHasFreeBlock(g, free, live, covered);
    }
  }

  // ---- steps ----

  /** The allocator while it works on block `h`, which is neither free nor live. */
  ghost predicate Held(free: set<Block>, live: set<Block>, h: Block, covered: nat) {
    && free !! live && h !in free + live
    && Tiles(free + live + {h}, covered) && Merged(free)
  }

  lemma TakeFree(free: set<Block>, live: set<Block>, h: Block, covered: nat)
    requires Canonical(free, live, covered) && h in free
    ensures Held(free - {h}, live, h, covered)
  {
    assert free - {h} + live + {h} == free + live;
  }

  lemma TakeLive(free: set<Block>, live: set<Block>, h: Block, covered: nat)
    requires Canonical(free, live, covered) && h in live
    ensures Held(free, live - {h}, h, covered)
  {
    assert free + (live - {h}) + {h} == free + live;
  }

  lemma GiveLive(free: set<Block>, live: set<Block>, h: Block, covered: nat)
    requires Held(free, live, h, covered)
    ensures Canonical(free, live + {h}, covered)
  {
    assert free + (live + {h}) == free + live + {h};
  }

  lemma GiveFree(free: set<Block>, live: set<Block>, h: Block, covered: nat)
    requires Held(free, live, h, covered) && (h.order < MAX_ORDER ==> Buddy(h) !in free)
    ensures Canonical(free + {h}, live, covered)
  {
    assert (free + {h}) + live == free + live + {h};
    forall b | b in free + {h} && b.order < MAX_ORDER ensures Buddy(b) !in free + {h} {
      Family(b);
    }
  }

  /** Cutting the held block in two and freeing the upper half. */
  lemma SplitHeld(free: set<Block>, live: set<Block>, h: Block, covered: nat)
    requires Held(free, live, h, covered) && h.order > MIN_ORDER
    ensures Held(free + {RightHalf(h)}, live, LeftHalf(h), covered)
    ensures forall c :: c in free + live ==> Disjoint(c, RightHalf(h))
  {
    Halves(h);
    var s, l, r := free + live, LeftHalf(h), RightHalf(h);
    var s' := (free + {r}) + live + {l};
    forall b | b in s ensures Disjoint(b, l) && Disjoint(b, r) && b != l && b != r {
      assert b in s + {h} && h in s + {h};
      assert Disjoint(b, h);
    }
    forall x | 0 <= x < covered ensures Covers(s', x) {
      assert Covers(s + {h}, x);
      var b :| b in s + {h} && Lo(b) <= x < Hi(b);
      if b == h {
        if x < Hi(l) { assert l in s'; } else { assert r in s'; }
      } else {
        assert b in s';
      }
    }
    forall b | b in free + {r} && b.order < MAX_ORDER ensures Buddy(b) !in free + {r} {
      Family(b);
      Family(r);
    }
  }

  /** Joining the held block with its free buddy. */
  lemma JoinHeld(free: set<Block>, live: set<Block>, h: Block, covered: nat)
    requires Held(free, live, h, covered) && Buddy(h) in free && h.order < MAX_ORDER
    ensures Held(free - {Buddy(h)}, live, Parent(h), covered)
  {
    Family(h);
    var s, u, p := free + live, Buddy(h), Parent(h);
    var s' := (free - {u}) + live + {p};
    assert u in s + {h} && h in s + {h};
    forall b | b in s && b != u ensures Disjoint(b, p) && b != p {
      assert b in s + {h};
      assert Disjoint(b, u) && Disjoint(b, h);
    }
    forall x | 0 <= x < covered ensures Covers(s', x) {
      assert Covers(s + {h}, x);
      var b :| b in s + {h} && Lo(b) <= x < Hi(b);
      if b == h || b == u { assert p in s'; } else { assert b in s'; }
    }
  }

  // ---- whole operations on the set of free blocks ----

  /** The free set after cutting held block `h` down to order `to`, and what is left of `h`. */
  function Split(free: set<Block>, h: Block, to: nat): (r: (set<Block>, Block))
    decreases h.order
  {
    if h.order <= to then (free, h) else Split(free + {RightHalf(h)}, LeftHalf(h), to)
  }

  /** The free set after joining held block `h` with free buddies, and what `h` grew to. */
  function Join(free: set<Block>, h: Block): (r: (set<Block>, Block))
    decreases MAX_ORDER - h.order
  {
    if h.order < MAX_ORDER && Buddy(h) in free then Join(free - {Buddy(h)}, Parent(h)) else (free, h)
  }

  lemma {:induction false} JoinGrows(free: set<Block>, h: Block)
    ensures var h' := Join(free, h).1;
            Within(h, h') && (h' == h <==> h.order >= MAX_ORDER || Buddy(h) !in free) && h'.order >= h.order
    decreases MAX_ORDER - h.order
  {
    if h.order < MAX_ORDER && Buddy(h) in free {
      Family(h);
      JoinGrows(free - {Buddy(h)}, Parent(h));
    }
  }

  lemma {:induction false} SplitKeeps(free: set<Block>, live: set<Block>, h: Block, to: nat, covered: nat)
    requires Held(free, live, h, covered) && MIN_ORDER <= to <= h.order
    ensures var (free', h') := Split(free, h, to);
            Held(free', live, h', covered) && h'.order == to && Lo(h') == Lo(h)
    decreases h.order
  {
    if to < h.order {
      SplitHeld(free, live, h, covered);
      Halves(h);
      SplitKeeps(free + {RightHalf(h)}, live, LeftHalf(h), to, covered);
    }
  }

  lemma {:induction false} JoinKeeps(free: set<Block>, live: set<Block>, h: Block, covered: nat)
    requires Held(free, live, h, covered)
    ensures var (free', h') := Join(free, h);
            Held(free', live, h', covered) && (h'.order < MAX_ORDER ==> Buddy(h') !in free')
    decreases MAX_ORDER - h.order
  {
    if h.order < MAX_ORDER && Buddy(h) in free {
      JoinHeld(free, live, h, covered);
      JoinKeeps(free - {Buddy(h)}, live, Parent(h), covered);
    }
  }

  /** buddy_alloc, given the free block it takes: the new free set and the block handed out. */
  lemma AllocKeeps(free: set<Block>, live: set<Block>, h: Block, to: nat, covered: nat)
    requires Canonical(free, live, covered) && h in free && MIN_ORDER <= to <= h.order
    ensures var (free', b) := Split(free - {h}, h, to);
            Canonical(free', live + {b}, covered) && b !in live && b.order == to && Lo(b) == Lo(h)
  {
    TakeFree(free, live, h, covered);
    SplitKeeps(free - {h}, live, h, to, covered);
    var (free', b) := Split(free - {h}, h, to);
    GiveLive(free', live, b, covered);
  }

  /** buddy_free of a live block. */
  lemma FreeKeeps(free: set<Block>, live: set<Block>, b: Block, covered: nat)
    requires Canonical(free, live, covered) && b in live
    ensures var (free', h) := Join(free, b); h !in free' && Canonical(free' + {h}, live - {b}, covered)
  {
    TakeLive(free, live, b, covered);
    JoinKeeps(free, live - {b}, b, covered);
    var (free', h) := Join(free, b);
    GiveFree(free', live - {b}, h, covered);
  }

  lemma FreeApart(free: set<Block>, live: set<Block>, h: Block, covered: nat)
    requires Canonical(free, live, covered) && h in free
    ensures InRegion(h, covered)
    ensures forall c :: c in free && c != h ==> Disjoint(c, h)
    ensures forall c :: c in live ==> Disjoint(c, h)
  {}

  lemma LiveApart(free: set<Block>, live: set<Block>, b: Block, covered: nat)
    requires Canonical(free, live, covered) && b in live
    ensures InRegion(b, covered)
    ensures forall c :: c in free ==> Disjoint(c, b) && InRegion(c, covered)
    ensures forall c :: c in live && c != b ==> Disjoint(c, b)
  {}

  lemma AppendTile(s: set<Block>, b: Block, covered: nat)
    requires Tiles(s, covered) && Lo(b) == covered && MIN_ORDER <= b.order <= MAX_ORDER
    ensures b !in s && Tiles(s + {b}, Hi(b))
  {
    forall x | 0 <= x < Hi(b) ensures Covers(s + {b}, x) {
      if x < covered {
        assert Covers(s, x);
        var c :| c in s && Lo(c) <= x < Hi(c);
        assert c in s + {b};
      } else {
        assert b in s + {b};
      }
    }
  }

  // ---- initialisation ----

  /** After `pos` bytes are covered: every block so far is at least 2^k large, `pos` is a
      multiple of 2^k, and fewer than 2^k bytes are left unless k is the largest order. */
  ghost predicate Covering(free: set<Block>, pos: nat, idx: nat, k: nat, left: nat) {
    && MIN_ORDER <= k <= MAX_ORDER && pos == Lo(Block(idx, k))
    && (k < MAX_ORDER ==> left < Pow2(k))
    && (forall b :: b in free ==> b.order >= k)
    && Tiles(free, pos) && Merged(free)
  }

  lemma CoverNone(left: nat)
    ensures Covering({}, 0, 0, MAX_ORDER, left)
  {}

  /** One step of buddy_init, for the order it has chosen. */
  lemma CoverNext(free: set<Block>, pos: nat, idx: nat, k: nat, left: nat, order: nat) returns (b: Block)
    requires Covering(free, pos, idx, k, left)
    requires MIN_ORDER <= order <= MAX_ORDER && Pow2(order) <= left
    requires order < MAX_ORDER ==> left < 2 * Pow2(order)
    ensures b.order == order && Lo(b) == pos && Hi(b) == pos + Pow2(order)
    ensures forall c :: c in free ==> Disjoint(c, b)
    ensures Covering(free + {b}, Hi(b), b.idx + 1, order, left - Pow2(order))
  {
    if k < MAX_ORDER && order >= k { Pow2Monotone(k, order); }
    var i := Rescale(idx, k, order);
    b := Block(i, order);
    LoNext(i, order);
    AppendTile(free, b, pos);
    Family(b);
  }

  lemma CoverDone(free: set<Block>, pos: nat, idx: nat, k: nat, left: nat)
    requires Covering(free, pos, idx, k, left)
    ensures Canonical(free, {}, pos) && pos % 4096 == 0
  {
    assert free + {} == free;
    PageMultiple(Block(idx, k));
  }

  lemma PageSize()
    ensures Pow2(12) == 4096
  {}

  lemma {:induction false} PageOffset(idx: nat, k: nat)
    requires k >= MIN_ORDER
    ensures Lo(Block(idx, k)) % 4096 == 0
  {
    PageSize();
    var i := Rescale(idx, k, 12);
    assert Lo(Block(i, 12)) == i * 4096;
  }

  lemma PageMultiple(b: Block)
    requires b.order >= MIN_ORDER
    ensures Size(b) % 4096 == 0 && Lo(b) % 4096 == 0 && Hi(b) % 4096 == 0
  {
    PageOffset(1, b.order);
    PageOffset(b.idx, b.order);
  }
}
