/** Physical memory as 32-bit words at byte addresses; a word never written reads as zero. */
module Ram {
  import opened Collections

  type Words = map<nat, Word>

  function Load(m: Words, a: nat): Word { if a in m then m[a] else 0 }

  function Put(m: Words, a: nat, v: Word): Words { m[a := v] }

  // ---- bytes, little end first ----

  function ByteOf(w: Word, k: nat): nat
    requires k < 4
  {
    if k == 0 then w % 0x100 else if k == 1 then w / 0x100 % 0x100
    else if k == 2 then w / 0x100 / 0x100 % 0x100 else w / 0x100 / 0x100 / 0x100
  }

  function WordOf(b0: nat, b1: nat, b2: nat, b3: nat): Word
    requires b0 < 0x100 && b1 < 0x100 && b2 < 0x100 && b3 < 0x100
  {
    b0 + 0x100 * (b1 + 0x100 * (b2 + 0x100 * b3))
  }

  lemma Digit(b: nat, rest: nat)
    requires b < 0x100
    ensures (b + 0x100 * rest) % 0x100 == b && (b + 0x100 * rest) / 0x100 == rest
  {}

  lemma BytesOfWord(b0: nat, b1: nat, b2: nat, b3: nat)
    requires b0 < 0x100 && b1 < 0x100 && b2 < 0x100 && b3 < 0x100
    ensures var w := WordOf(b0, b1, b2, b3);
            ByteOf(w, 0) == b0 && ByteOf(w, 1) == b1 && ByteOf(w, 2) == b2 && ByteOf(w, 3) == b3
  {
    Digit(b0, b1 + 0x100 * (b2 + 0x100 * b3));
    Digit(b1, b2 + 0x100 * b3);
    Digit(b2, b3);
  }

  /** The word with its k-th byte replaced. */
  function WithByte(w: Word, k: nat, v: nat): Word
    requires k < 4 && v < 0x100
  {
    WordOf(if k == 0 then v else ByteOf(w, 0), if k == 1 then v else ByteOf(w, 1),
           if k == 2 then v else ByteOf(w, 2), if k == 3 then v else ByteOf(w, 3))
  }

  lemma ByteReplaced(w: Word, k: nat, v: nat, j: nat)
    requires k < 4 && v < 0x100 && j < 4
    ensures ByteOf(WithByte(w, k, v), j) == if j == k then v else ByteOf(w, j)
  {
    BytesOfWord(if k == 0 then v else ByteOf(w, 0), if k == 1 then v else ByteOf(w, 1),
                if k == 2 then v else ByteOf(w, 2), if k == 3 then v else ByteOf(w, 3));
  }

  /** The byte at any address. */
  function ByteAt(m: Words, a: nat): nat { ByteOf(Load(m, a - a % 4), a % 4) }

  lemma SameByte(a: nat, x: nat)
    requires a - a % 4 == x - x % 4 && a % 4 == x % 4
    ensures a == x
  {}

  /** The byte at address a is v, every other byte is as before. */
  ghost predicate ByteChanged(m: Words, m': Words, a: nat, v: nat) {
    forall x: nat {:trigger ByteAt(m', x)} :: ByteAt(m', x) == if x == a then v else ByteAt(m, x)
  }

  /** The word to store for a byte. */
  method ByteWord(ghost m: Words, w: Word, a: nat, v: nat) returns (word: Word)
    requires v < 0x100 && w == Load(m, a - a % 4)
    ensures ByteChanged(m, Put(m, a - a % 4, word), a, v)
  {
    word := WithByte(w, a % 4, v);
    ghost var m' := Put(m, a - a % 4, word);
    forall x: nat ensures ByteAt(m', x) == if x == a then v else ByteAt(m, x) {
      ByteReplaced(w, a % 4, v, x % 4);
      if x - x % 4 == a - a % 4 && x % 4 == a % 4 { SameByte(a, x); }
    }
  }

  class Memory {
    var words: Words

    constructor ()
      ensures words == map[]
    {
      words := map[];
    }

    method Store(a: nat, v: Word)
      modifies this
      ensures words == old(words)[a := v]
      ensures forall x: nat :: Load(words, x) == if x == a then v else Load(old(words), x)
    {
      words := words[a := v];
    }

    /** memset(a, 0, len) */
    method Clear(a: nat, len: nat)
      modifies this
      ensures forall x: nat :: Load(words, x) == if a <= x < a + len then 0 else Load(old(words), x)
    {
      words := map x | x in words && !(a <= x < a + len) :: words[x];
    }
  }
}
