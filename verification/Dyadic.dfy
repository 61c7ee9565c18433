/** The tree of aligned power-of-two blocks the buddy allocator works on.
    Block(idx, order) covers [idx * 2^order, (idx + 1) * 2^order) of the managed region,
    so every block's offset is a multiple of its size by construction. */
module Dyadic {

  const MIN_ORDER: nat := 12
  const MAX_ORDER: nat := 28
  const NUM_ORDERS: nat := 17

  datatype Block = Block(idx: nat, order: nat)

  function Pow2(k: nat): (r: nat)
    ensures r > 0
  {
    if k == 0 then 1 else 2 * Pow2(k - 1)
  }

  function Size(b: Block): (n: nat)
    ensures n > 0
  {
    Pow2(b.order)
  }

  function Lo(b: Block): nat { b.idx * Size(b) }

  function Hi(b: Block): nat { Lo(b) + Size(b) }

  predicate Disjoint(a: Block, b: Block) { Hi(a) <= Lo(b) || Hi(b) <= Lo(a) }

  predicate Within(a: Block, b: Block) { Lo(b) <= Lo(a) && Hi(a) <= Hi(b) }

  function Flip(q: nat): nat { if q % 2 == 0 then q + 1 else q - 1 }

  function Buddy(b: Block): Block {
    Block(Flip(b.idx), b.order)
  }

  function Parent(b: Block): Block { Block(b.idx / 2, b.order + 1) }

  function LeftHalf(b: Block): Block
    requires b.order > 0
  {
    Block(2 * b.idx, b.order - 1)
  }

  function RightHalf(b: Block): Block
    requires b.order > 0
  {
    Block(2 * b.idx + 1, b.order - 1)
  }

  /** The bitwise exclusive or of two naturals, one bit at a time. */
  function Xor(a: nat, b: nat): nat
    decreases a + b
  {
    if a == 0 && b == 0 then 0
    else (if a % 2 == b % 2 then 0 else 1) + 2 * Xor(a / 2, b / 2)
  }

  lemma {:induction false} Pow2Monotone(a: nat, b: nat)
    requires a <= b
    ensures Pow2(a) <= Pow2(b)
    decreases b - a
  {
    if a < b { Pow2Monotone(a + 1, b); }
  }

  lemma {:induction false} XorZero(a: nat)
    ensures Xor(a, 0) == a
  {
    if a > 0 { XorZero(a / 2); }
  }

  lemma DoubleProduct(q: nat, p: nat)
    ensures q * (2 * p) == 2 * (q * p)
  {}

  lemma XorDouble(a: nat, b: nat)
    ensures Xor(2 * a, 2 * b) == 2 * Xor(a, b)
  {}

  lemma {:induction false} XorPow2(q: nat, k: nat)
    ensures Xor(q * Pow2(k), Pow2(k)) == Flip(q) * Pow2(k)
  {
    if k == 0 {
      XorZero(q / 2);
      assert Pow2(0) == 1;
      assert Xor(q, 1) == (if q % 2 == 1 then 0 else 1) + 2 * Xor(q / 2, 0);
    } else {
      var p := Pow2(k - 1);
      DoubleProduct(q, p);
      DoubleProduct(Flip(q), p);
      XorDouble(q * p, p);
      XorPow2(q, k - 1);
    }
  }

  lemma LoNext(i: nat, k: nat)
    ensures Lo(Block(i + 1, k)) == Lo(Block(i, k)) + Pow2(k)
  {}

  /** XOR of a block's offset with its size is the offset of its buddy. */
  lemma XorIsBuddy(b: Block)
    ensures Xor(Lo(b), Size(b)) == Lo(Buddy(b))
  {
    XorPow2(b.idx, b.order);
  }

  lemma LoDouble(i: nat, k: nat)
    ensures Lo(Block(2 * i, k)) == Lo(Block(i, k + 1))
  {}

  /** A block and its buddy are the two halves of their parent. */
  lemma Family(b: Block)
    ensures Buddy(Buddy(b)) == b && Parent(Buddy(b)) == Parent(b) && Buddy(b) != b
    ensures Size(Parent(b)) == 2 * Size(b)
    ensures Within(b, Parent(b)) && Within(Buddy(b), Parent(b)) && Disjoint(b, Buddy(b))
    ensures Lo(Parent(b)) == if Lo(Buddy(b)) < Lo(b) then Lo(Buddy(b)) else Lo(b)
  {}

  lemma BuddyLow(b: Block)
    ensures Lo(Buddy(b)) <= Hi(b)
  {}

  lemma Halves(b: Block)
    requires b.order > 0
    ensures LeftHalf(b) == Buddy(RightHalf(b)) && Parent(LeftHalf(b)) == b == Parent(RightHalf(b))
    ensures Lo(LeftHalf(b)) == Lo(b) && Hi(LeftHalf(b)) == Lo(RightHalf(b)) && Hi(RightHalf(b)) == Hi(b)
    ensures Size(LeftHalf(b)) == Size(RightHalf(b)) && Size(b) == 2 * Size(LeftHalf(b))
  {}

  lemma {:induction false} LoOrdered(i: nat, j: nat, k: nat)
    requires i < j
    ensures Lo(Block(i, k)) + Pow2(k) <= Lo(Block(j, k))
    decreases j
  {
    LoNext(j - 1, k);
    if i < j - 1 { LoOrdered(i, j - 1, k); }
  }

  lemma SameOrder(a: Block, b: Block)
    requires a.order == b.order && a != b
    ensures Disjoint(a, b) && Lo(a) != Lo(b)
  {
    if a.idx < b.idx { LoOrdered(a.idx, b.idx, a.order); } else { LoOrdered(b.idx, a.idx, a.order); }
  }

  /** Blocks never straddle one another. */
  lemma {:induction false} Nested(a: Block, b: Block)
    requires a.order <= b.order
    ensures Disjoint(a, b) || Within(a, b)
    decreases b.order - a.order
  {
    if a.order == b.order {
      if a != b { SameOrder(a, b); }
    } else {
      Family(a);
      Nested(Parent(a), b);
    }
  }

  /** A block strictly smaller than one it meets lies in it together with its buddy. */
  lemma ParentWithin(a: Block, b: Block)
    requires a.order < b.order && !Disjoint(a, b)
    ensures Within(Parent(a), b) && Within(a, b) && Within(Buddy(a), b)
  {
    Family(a);
    Nested(Parent(a), b);
  }

  /** An offset that starts a block also starts a block of every smaller order. */
  lemma {:induction false} Rescale(idx: nat, k: nat, k': nat) returns (idx': nat)
    requires k' <= k
    ensures Lo(Block(idx', k')) == Lo(Block(idx, k))
    decreases k - k'
  {
    if k == k' {
      idx' := idx;
    } else {
      LoDouble(idx, k - 1);
      idx' := Rescale(2 * idx, k - 1, k');
    }
  }
}
