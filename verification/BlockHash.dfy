/** What SHA-256 and MD5 share: a compression function folded over 64-byte blocks
    (apps/include/crypto.h). The compression function is a parameter. */
module BlockHash {
  import opened Collections
  import opened Bytes

  const WRAP64: nat := 0x1_0000_0000_0000_0000

  /** The compression function folded over the first k blocks of a message. */
  ghost function Fold<S>(f: (S, seq<Byte>) -> S, init: S, m: seq<Byte>, k: nat): S
    requires 64 * k <= |m|
    decreases k
  {
    if k == 0 then init else f(Fold(f, init, m, k - 1), m[64 * (k - 1)..64 * k])
  }

  lemma FoldNext<S>(f: (S, seq<Byte>) -> S, init: S, m: seq<Byte>, k: nat)
    requires 64 * (k + 1) <= |m|
    ensures Fold(f, init, m, k + 1) == f(Fold(f, init, m, k), m[64 * k..64 * (k + 1)])
  {}

  lemma {:induction false} FoldPrefix<S>(f: (S, seq<Byte>) -> S, init: S, m: seq<Byte>, data: seq<Byte>, k: nat)
    requires 64 * k <= |m|
    ensures Fold(f, init, m + data, k) == Fold(f, init, m, k)
    decreases k
  {
    if k > 0 {
      FoldPrefix(f, init, m, data, k - 1);
      assert (m + data)[64 * (k - 1)..64 * k] == m[64 * (k - 1)..64 * k];
    }
  }

  /** What a context holds: the state after the k whole blocks, and the rest in the buffer. */
  ghost predicate Absorbed<S>(f: (S, seq<Byte>) -> S, init: S, state: S, buffer: seq<Byte>, m: seq<Byte>, k: nat) {
    && |buffer| == 64 && 64 * k <= |m| < 64 * (k + 1)
    && state == Fold(f, init, m, k)
    && buffer[..|m| - 64 * k] == m[64 * k..]
  }

  lemma AbsorbNothing<S>(f: (S, seq<Byte>) -> S, init: S, buffer: seq<Byte>)
    requires |buffer| == 64
    ensures Absorbed(f, init, init, buffer, [], 0)
  {}

  /** A message that grows without completing a block. */
  lemma AbsorbShort<S>(f: (S, seq<Byte>) -> S, init: S, state: S, buffer: seq<Byte>, m: seq<Byte>,
      data: seq<Byte>, k: nat, i: nat)
    requires Absorbed(f, init, state, buffer, m, k) && i == |m| - 64 * k && i + |data| < 64
    ensures Absorbed(f, init, state, Splice(buffer, i, data), m + data, k)
  {
    FoldPrefix(f, init, m, data, k);
    assert Splice(buffer, i, data)[..i + |data|] == buffer[..i] + data;
    assert (m + data)[64 * k..] == m[64 * k..] + data;
  }

  lemma FirstBlock(buffer: seq<Byte>, m: seq<Byte>, data: seq<Byte>, k: nat, i: nat)
    requires |buffer| == 64 && |m| == 64 * k + i && i < 64 <= i + |data| && buffer[..i] == m[64 * k..]
    ensures Splice(buffer, i, data[..64 - i]) == (m + data)[64 * k..64 * (k + 1)]
  {}

  /** The first block that the new data completes. */
  lemma AbsorbFirst<S>(f: (S, seq<Byte>) -> S, init: S, state: S, buffer: seq<Byte>, m: seq<Byte>,
      data: seq<Byte>, k: nat, i: nat)
    requires Absorbed(f, init, state, buffer, m, k) && i == |m| - 64 * k && i + |data| >= 64
    ensures f(state, Splice(buffer, i, data[..64 - i])) == Fold(f, init, m + data, k + 1)
  {
    FoldPrefix(f, init, m, data, k);
    FirstBlock(buffer, m, data, k, i);
    FoldNext(f, init, m + data, k);
  }

  /** Every further block is taken from the data. */
  lemma AbsorbNext<S>(f: (S, seq<Byte>) -> S, init: S, state: S, m: seq<Byte>, data: seq<Byte>, j: nat, k: nat)
    requires j + 64 <= |data| && |m| + j == 64 * k && state == Fold(f, init, m + data, k)
    ensures f(state, data[j..j + 64]) == Fold(f, init, m + data, k + 1)
  {
    assert (m + data)[64 * k..64 * (k + 1)] == data[j..j + 64];
  }

  lemma AbsorbLast<S>(f: (S, seq<Byte>) -> S, init: S, state: S, buffer: seq<Byte>, m: seq<Byte>,
      data: seq<Byte>, j: nat, k: nat)
    requires j <= |data| < j + 64 && |m| + j == 64 * k && |buffer| == 64
    requires state == Fold(f, init, m + data, k)
    ensures Absorbed(f, init, state, Splice(buffer, 0, data[j..]), m + data, k)
  {}

  function BeWord(w: Word): (r: seq<Byte>)
    ensures |r| == 4
  {
    [w / 0x100_0000, w / 0x1_0000 % 0x100, w / 0x100 % 0x100, w % 0x100]
  }

  function LeWord(w: Word): (r: seq<Byte>)
    ensures |r| == 4
  {
    [w % 0x100, w / 0x100 % 0x100, w / 0x1_0000 % 0x100, w / 0x100_0000]
  }

  lemma WordDigits(w: Word)
    ensures w == 0x100_0000 * (w / 0x100_0000) + 0x1_0000 * (w / 0x1_0000 % 0x100) + 0x100 * (w / 0x100 % 0x100)
                 + w % 0x100
  {
    var b, c := w / 0x100, w / 0x1_0000;
    assert w == 0x100 * b + w % 0x100;
    assert c == b / 0x100 && b == 0x100 * c + b % 0x100;
    assert w / 0x100_0000 == c / 0x100 && c == 0x100 * (c / 0x100) + c % 0x100;
  }

  lemma BeWordIs(w: Word)
    ensures BigEndian(BeWord(w)) == w
  {
    WordDigits(w);
    BigEndian4(BeWord(w));
  }

  lemma LeWordIs(w: Word)
    ensures LittleEndian(LeWord(w)) == w
  {
    WordDigits(w);
    LittleEndian4(LeWord(w));
  }

  function Concat(parts: seq<seq<Byte>>): seq<Byte> {
    if parts == [] then [] else Concat(parts[..|parts| - 1]) + parts[|parts| - 1]
  }

  /** Padding to 56 bytes modulo 64: a one bit, then zeros. */
  function PadTo56(n: nat): (r: seq<Byte>)
    ensures 1 <= |r| <= 64 && (n + |r|) % 64 == 56
  {
    var k := if n % 64 < 56 then 56 - n % 64 else 120 - n % 64;
    PadLength(n, k);
    [0x80] + Zeros(k - 1)
  }

  lemma Mod64(x: int, r: int, k: int)
    requires 0 <= r < WRAP64 && x == r + k * WRAP64
    ensures x % WRAP64 == r
  {}

  lemma ModBlock(x: int, r: int, k: int)
    requires 0 <= r < 64 && x == r + k * 64
    ensures x % 64 == r
  {}

  /** A 64-bit byte counter keeps the length modulo 2^64. */
  lemma CounterStep(n: nat, len: nat)
    ensures (n % WRAP64 + len) % WRAP64 == (n + len) % WRAP64
  {}

  /** It also gives the number of buffered bytes. */
  lemma CounterIndex(n: nat, k: nat)
    requires 64 * k <= n < 64 * (k + 1)
    ensures n % WRAP64 % 64 == n - 64 * k == n % 64
  {}

  lemma CounterBits(n: nat)
    ensures 8 * (n % WRAP64) % WRAP64 == 8 * n % WRAP64
  {
    var q, r := n / WRAP64, n % WRAP64;
    var k, m := 8 * r / WRAP64, 8 * r % WRAP64;
    assert n == r + q * WRAP64 && 8 * r == m + k * WRAP64;
    Mod64(8 * n, m, k + 8 * q);
  }

  lemma Whole64(n: nat)
    requires n % 64 == 56
    ensures (n + 8) % 64 == 0
  {}

  lemma PadLength(n: nat, k: nat)
    requires k == 56 - n % 64 || k == 120 - n % 64
    ensures (n + k) % 64 == 56
  {}
}
