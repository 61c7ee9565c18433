/** md5_init, md5_update and md5_final (apps/include/crypto.h). */
module Md5 {
  import opened Collections
  import opened Bytes
  import opened BlockHash

  type State = s: seq<Word> | |s| == 4 witness INIT

  const INIT: seq<Word> := [0x67452301, 0xefcdab89, 0x98badcfe, 0x10325476]

  /** Sections 3.1 and 3.2 of RFC 1321: a one bit, zeros, and the length in bits, low word first. */
  function Pad(m: seq<Byte>): (r: seq<Byte>)
    ensures |r| % 64 == 0
  {
    Whole64(|m| + |PadTo56(|m|)|);
    var bits := 8 * |m| % WRAP64;
    m + PadTo56(|m|) + (LeWord(bits % WORD) + LeWord(bits / WORD))
  }

  function DigestOf(state: State): (r: seq<Byte>)
    ensures |r| == 16
  {
    seq(16, i requires 0 <= i < 16 => LeWord(state[i / 4])[i % 4])
  }

  /** Sections 3.1 and 3.2 of RFC 1321 in terms of the padded message. */
  lemma Padded(m: seq<Byte>)
    ensures var p, n := Pad(m), |Pad(m)|;
            && n % 64 == 0 && |m| + 9 <= n < |m| + 9 + 64
            && p[..|m|] == m && p[|m|] == 0x80 && (forall k :: |m| < k < n - 8 ==> p[k] == 0)
            && LittleEndian(p[n - 8..]) == 8 * |m| % WRAP64
  {
    var p, n, bits := Pad(m), |Pad(m)|, 8 * |m| % WRAP64;
    var tail := LeWord(bits % WORD) + LeWord(bits / WORD);
    assert p[n - 8..] == tail && tail[..4] == LeWord(bits % WORD) && tail[4..] == LeWord(bits / WORD);
    LittleEndian8(tail);
    LeWordIs(bits % WORD);
    LeWordIs(bits / WORD);
  }

  /** Section 3.5 of RFC 1321: the digest is the four words, low bytes first. */
  lemma DigestWords(state: State, i: nat)
    requires i < 4
    ensures LittleEndian(DigestOf(state)[4 * i..4 * i + 4]) == state[i]
  {
    assert DigestOf(state)[4 * i..4 * i + 4] == LeWord(state[i]);
    LeWordIs(state[i]);
  }

  /** Section 3.3 of RFC 1321 gives the initial words low byte first. */
  lemma InitialWords()
    ensures DigestOf(INIT) == [0x01, 0x23, 0x45, 0x67, 0x89, 0xab, 0xcd, 0xef,
                               0xfe, 0xdc, 0xba, 0x98, 0x76, 0x54, 0x32, 0x10]
  {
    var bytes := [0x01, 0x23, 0x45, 0x67, 0x89, 0xab, 0xcd, 0xef, 0xfe, 0xdc, 0xba, 0x98, 0x76, 0x54, 0x32, 0x10];
    assert LeWord(INIT[0]) == bytes[..4] && LeWord(INIT[1]) == bytes[4..8];
    assert LeWord(INIT[2]) == bytes[8..12] && LeWord(INIT[3]) == bytes[12..];
  }

  lemma ShortHash(compress: (State, seq<Byte>) -> State, m: seq<Byte>)
    requires |m| <= 55
    ensures |Pad(m)| == 64 && Hash(compress, m) == DigestOf(compress(INIT, Pad(m)))
  {
    assert Pad(m)[0..64] == Pad(m);
  }

  /** The hash of a message for a given compression function. */
  ghost function Hash(compress: (State, seq<Byte>) -> State, m: seq<Byte>): seq<Byte> {
    DigestOf(Fold<State>(compress, INIT, Pad(m), |Pad(m)| / 64))
  }

  /** The counter of md5_update after `len` more bytes: two 32-bit words with a carry. */
  function Counted(count: (Word, Word), len: nat): (Word, Word)
    requires len < WORD
  {
    var bits := 8 * len % WORD;
    var lo := (count.0 + bits) % WORD;
    var carry := if lo < bits then 1 else 0;
    (lo, (count.1 + carry + len / 0x2000_0000) % WORD)
  }

  /** The two words are always 8 times the length modulo 2^64. */
  lemma CountedBits(count: (Word, Word), n: nat, len: nat)
    requires count.0 + WORD * count.1 == 8 * n % WRAP64 && len < WORD
    ensures var c := Counted(count, len); c.0 + WORD * c.1 == 8 * (n + len) % WRAP64
  {
    var c, bits, high := Counted(count, len), 8 * len % WORD, len / 0x2000_0000;
    assert 8 * len == bits + WORD * high;
    var carry := if c.0 < bits then 1 else 0;
    assert count.0 + bits == c.0 + WORD * carry;
    var k := (count.1 + carry + high) / WORD;
    assert count.1 + carry + high == c.1 + WORD * k;
    var q := 8 * n / WRAP64;
    assert 8 * (n + len) == c.0 + WORD * c.1 + (k + q) * WRAP64;
    Mod64(8 * (n + len), c.0 + WORD * c.1, k + q);
  }

  lemma CountWords(count: (Word, Word), bits: nat)
    requires count.0 + WORD * count.1 == bits
    ensures bits % WORD == count.0 && bits / WORD == count.1
  {}

  /** They also give the number of buffered bytes. */
  lemma CountedIndex(count: (Word, Word), n: nat, k: nat)
    requires count.0 + WORD * count.1 == 8 * n % WRAP64 && 64 * k <= n < 64 * (k + 1)
    ensures count.0 / 8 % 64 == n - 64 * k == n % 64
  {
    ModBlock(n, n - 64 * k, k);
    var q := 8 * n / WRAP64;
    assert 8 * n == count.0 + WORD * (count.1 + WORD * q);
    assert n == count.0 / 8 + 64 * (0x80_0000 * (count.1 + WORD * q));
  }

  /** The loop over whole blocks ends at the last position j of its kind with j + 63 in range. */
  predicate NoWrap(i: nat, len: nat)
    requires i < 64
  {
    len < WORD && (i + len) / 64 * 64 - i + 63 < WORD
  }

  class Context {
    const compress: (State, seq<Byte>) -> State
    var state: State
    var count: (Word, Word)
    const buffer: array<Byte>
    ghost var message: seq<Byte>
    ghost var blocks: nat

    ghost predicate Valid()
      reads this, buffer
    {
      && buffer.Length == 64 && count.0 + WORD * count.1 == 8 * |message| % WRAP64
      && Absorbed<State>(compress, INIT, state, buffer[..], message, blocks)
    }

    /** md5_init */
    constructor (compress: (State, seq<Byte>) -> State)
      ensures Valid() && message == [] && this.compress == compress && fresh(buffer)
    {
      this.compress := compress;
      state, count, message, blocks := INIT, (0, 0), [], 0;
      buffer := new Byte[64](i => 0);
      new;
      AbsorbNothing<State>(compress, INIT, buffer[..]);
    }

    /** md5_update; the 32-bit sum in the guard of its loop must not wrap. */
    method Update(data: seq<Byte>)
      requires Valid() && NoWrap(|message| % 64, |data|)
      modifies `state, `count, `message, `blocks, buffer
      ensures Valid() && message == old(message) + data
    {
      CountedIndex(count, |message|, blocks);
      CountedBits(count, |message|, |data|);
      var i := count.0 / 8 % 64;
      count := Counted(count, |data|);
      var part := 64 - i;
      if |data| >= part {
        Complete(data, i);
      } else {
        Buffer(data, i);
      }
    }

    /** The data fits the buffer without filling it. */
    method Buffer(data: seq<Byte>, i: nat)
      requires Absorbed<State>(compress, INIT, state, buffer[..], message, blocks)
      requires i == |message| - 64 * blocks && i + |data| < 64
      modifies `message, buffer
      ensures Absorbed<State>(compress, INIT, state, buffer[..], message, blocks) && message == old(message) + data
    {
      AbsorbShort<State>(compress, INIT, state, buffer[..], message, data, blocks, i);
      CopyTo(buffer, i, data);
      message := message + data;
    }

    /** The data completes the buffered block. */
    method Complete(data: seq<Byte>, i: nat)
      requires Absorbed<State>(compress, INIT, state, buffer[..], message, blocks)
      requires i == |message| - 64 * blocks && i + |data| >= 64 && NoWrap(i, |data|)
      modifies `state, `message, `blocks, buffer
      ensures Absorbed<State>(compress, INIT, state, buffer[..], message, blocks) && message == old(message) + data
    {
      AbsorbFirst<State>(compress, INIT, state, buffer[..], message, data, blocks, i);
      CopyTo(buffer, i, data[..64 - i]);
      state := compress(state, buffer[..]);
      blocks := Blocks(message, data, 64 - i, blocks + 1);
      message := message + data;
    }

    /** The whole blocks of the data from position `start`, then the rest into the buffer. */
    method Blocks(ghost m: seq<Byte>, data: seq<Byte>, start: nat, ghost first: nat) returns (ghost k: nat)
      requires buffer.Length == 64 && start <= |data| && |m| + start == 64 * first
      requires start + (|data| - start) / 64 * 64 + 63 < WORD
      requires state == Fold<State>(compress, INIT, m + data, first)
      modifies `state, buffer
      ensures Absorbed<State>(compress, INIT, state, buffer[..], m + data, k)
    {
      var j: nat := start;
      k := first;
      while (j + 63) % WORD < |data|
        invariant j <= |data| && |m| + j == 64 * k && j + 63 < WORD
        invariant state == Fold<State>(compress, INIT, m + data, k)
        decreases |data| - j
      {
        AbsorbNext<State>(compress, INIT, state, m, data, j, k);
        state := compress(state, data[j..j + 64]);
        j, k := j + 64, k + 1;
      }
      AbsorbLast<State>(compress, INIT, state, buffer[..], m, data, j, k);
      CopyTo(buffer, 0, data[j..]);
    }

    /** md5_final: the padding and the length go through md5_update. */
    method Final() returns (digest: seq<Byte>)
      requires Valid()
      modifies `state, `count, `message, `blocks, buffer
      ensures digest == Hash(compress, old(message))
    {
      ghost var m := message;
      CountedIndex(count, |m|, blocks);
      CountWords(count, 8 * |m| % WRAP64);
      var bits := LeWord(count.0) + LeWord(count.1);
      var index := count.0 / 8 % 64;
      var padlen := if index < 56 then 56 - index else 120 - index;
      var padding: seq<Byte> := [0x80] + Zeros(63);
      assert padding[..padlen] == PadTo56(|m|);
      Update(padding[..padlen]);
      Update(bits);
      assert message == Pad(m);
      assert blocks == |message| / 64;
      digest := DigestOf(state);
    }
  }

  /** md5_hash: one update and final. */
  method HashAll(compress: (State, seq<Byte>) -> State, data: seq<Byte>) returns (digest: seq<Byte>)
    requires |data| < WORD
    ensures digest == Hash(compress, data)
  {
    var ctx := new Context(compress);
    ctx.Update(data);
    assert [] + data == data;
    digest := ctx.Final();
  }

  /** However a message is split into updates, the result is the hash of the whole. */
  method HashParts(compress: (State, seq<Byte>) -> State, parts: seq<seq<Byte>>) returns (digest: seq<Byte>)
    requires forall p :: p in parts ==> |p| + 63 < WORD
    ensures digest == Hash(compress, Concat(parts))
  {
    var ctx := new Context(compress);
    for k := 0 to |parts|
      invariant ctx.Valid() && fresh(ctx) && fresh(ctx.buffer) && ctx.compress == compress
      invariant ctx.message == Concat(parts[..k])
    {
      assert parts[k] in parts && parts[..k + 1][..k] == parts[..k];
      ctx.Update(parts[k]);
    }
    assert parts[..|parts|] == parts;
    digest := ctx.Final();
  }
}
