/** sha256_init, sha256_update and sha256_final (apps/include/crypto.h). */
module Sha256 {
  import opened Collections
  import opened Bytes
  import opened BlockHash

  type State = s: seq<Word> | |s| == 8 witness INIT

  const INIT: seq<Word> :=
    [0x6a09e667, 0xbb67ae85, 0x3c6ef372, 0xa54ff53a, 0x510e527f, 0x9b05688c, 0x1f83d9ab, 0x5be0cd19]

  /** A 64-bit number, most significant byte first. */
  function Be64(n: nat): (r: seq<Byte>)
    requires n < WRAP64
    ensures |r| == 8
  {
    BeWord(n / WORD) + BeWord(n % WORD)
  }

  /** Section 5.1.1 of FIPS 180-4: a one bit, zeros, and the length in bits. */
  function Pad(m: seq<Byte>): (r: seq<Byte>)
    ensures |r| % 64 == 0
  {
    Whole64(|m| + |PadTo56(|m|)|);
    m + PadTo56(|m|) + Be64(8 * |m| % WRAP64)
  }

  function DigestOf(state: State): (r: seq<Byte>)
    ensures |r| == 32
  {
    seq(32, i requires 0 <= i < 32 => BeWord(state[i / 4])[i % 4])
  }

  /** Section 5.1.1 of FIPS 180-4 in terms of the padded message: it is the message, a one bit,
      fewer than 64 zero bytes and the length in bits as eight bytes in network order. */
  lemma Padded(m: seq<Byte>)
    ensures var p, n := Pad(m), |Pad(m)|;
            && n % 64 == 0 && |m| + 9 <= n < |m| + 9 + 64
            && p[..|m|] == m && p[|m|] == 0x80 && (forall k :: |m| < k < n - 8 ==> p[k] == 0)
            && BigEndian(p[n - 8..]) == 8 * |m| % WRAP64
  {
    var p, n, bits := Pad(m), |Pad(m)|, 8 * |m| % WRAP64;
    assert p[n - 8..] == Be64(bits);
    assert Be64(bits)[..4] == BeWord(bits / WORD) && Be64(bits)[4..] == BeWord(bits % WORD);
    BigEndian8(Be64(bits));
    BeWordIs(bits / WORD);
    BeWordIs(bits % WORD);
  }

  /** The digest is the eight words of the state in network order. */
  lemma DigestWords(state: State, i: nat)
    requires i < 8
    ensures BigEndian(DigestOf(state)[4 * i..4 * i + 4]) == state[i]
  {
    assert DigestOf(state)[4 * i..4 * i + 4] == BeWord(state[i]);
    BeWordIs(state[i]);
  }

  const PRIMES: seq<nat> := [2, 3, 5, 7, 11, 13, 17, 19]

  /** Section 5.3.3 of FIPS 180-4: the initial words are the first 32 bits of the fractional
      parts of the square roots of the first eight primes. */
  lemma InitialWords(i: nat) returns (whole: nat)
    requires i < 8
    ensures var root := whole * WORD + INIT[i]; root * root <= PRIMES[i] * WRAP64 < (root + 1) * (root + 1)
  {
    whole := [1, 1, 2, 2, 3, 3, 4, 4][i];
    assert i == 0 || i == 1 || i == 2 || i == 3 || i == 4 || i == 5 || i == 6 || i == 7;
  }

  /** A message of less than 56 bytes takes one compression. */
  lemma ShortHash(compress: (State, seq<Byte>) -> State, m: seq<Byte>)
    requires |m| <= 55
    ensures |Pad(m)| == 64 && Hash(compress, m) == DigestOf(compress(INIT, Pad(m)))
  {
    assert Pad(m)[0..64] == Pad(m);
  }

  /** The hash of a message for a given compression function. */
  ghost function Hash(compress: (State, seq<Byte>) -> State, m: seq<Byte>): seq<Byte> {
    DigestOf(Fold<State>(compress, INIT, Pad(m), |Pad(m)| / 64))
  }

  class Context {
    const compress: (State, seq<Byte>) -> State
    var state: State
    var count: nat
    const buffer: array<Byte>
    /** Everything passed to Update so far. */
    ghost var message: seq<Byte>
    ghost var blocks: nat

    ghost predicate Valid()
      reads this, buffer
    {
      && buffer.Length == 64 && count == |message| % WRAP64
      && Absorbed<State>(compress, INIT, state, buffer[..], message, blocks)
    }

    /** sha256_init */
    constructor (compress: (State, seq<Byte>) -> State)
      ensures Valid() && message == [] && this.compress == compress && fresh(buffer)
    {
      this.compress := compress;
      state, count, message, blocks := INIT, 0, [], 0;
      buffer := new Byte[64](i => 0);
      new;
      AbsorbNothing<State>(compress, INIT, buffer[..]);
    }

    /** sha256_update; the 32-bit sum of the buffered bytes and the length must not wrap. */
    method Update(data: seq<Byte>)
      requires Valid() && |message| % 64 + |data| < WORD
      modifies `state, `count, `message, `blocks, buffer
      ensures Valid() && message == old(message) + data
    {
      CounterStep(|message|, |data|);
      CounterIndex(|message|, blocks);
      var i := count % 64;
      count := (count + |data|) % WRAP64;
      if (i + |data|) % WORD < 64 {
        Buffer(data, i);
      } else {
        Complete(data, i);
      }
    }

    /** The data fits the buffer without filling it. */
    method Buffer(data: seq<Byte>, i: nat)
      requires Absorbed<State>(compress, INIT, state, buffer[..], message, blocks)
      requires i == |message| - 64 * blocks && i + |data| < 64
      modifies `message, buffer
      ensures Absorbed<State>(compress, INIT, state, buffer[..], message, blocks) && message == old(message) + data
    {
      AbsorbShort<State>(compress, INIT, state, buffer[..], message, data, blocks, i);
      CopyTo(buffer, i, data);
      message := message + data;
    }

    /** The data completes the buffered block. */
    method Complete(data: seq<Byte>, i: nat)
      requires Absorbed<State>(compress, INIT, state, buffer[..], message, blocks)
      requires i == |message| - 64 * blocks && i + |data| >= 64
      modifies `state, `message, `blocks, buffer
      ensures Absorbed<State>(compress, INIT, state, buffer[..], message, blocks) && message == old(message) + data
    {
      AbsorbFirst<State>(compress, INIT, state, buffer[..], message, data, blocks, i);
      CopyTo(buffer, i, data[..64 - i]);
      state := compress(state, buffer[..]);
      blocks := Blocks(message, data, 64 - i, blocks + 1);
      message := message + data;
    }

    /** The whole blocks of the data from position `start`, then the rest into the buffer. */
    method Blocks(ghost m: seq<Byte>, data: seq<Byte>, start: nat, ghost first: nat) returns (ghost k: nat)
      requires buffer.Length == 64 && start <= |data| && |m| + start == 64 * first
      requires state == Fold<State>(compress, INIT, m + data, first)
      modifies `state, buffer
      ensures Absorbed<State>(compress, INIT, state, buffer[..], m + data, k)
    {
      var j := start;
      k := first;
      while |data| - j >= 64
        invariant j <= |data| && |m| + j == 64 * k
        invariant state == Fold<State>(compress, INIT, m + data, k)
      {
        AbsorbNext<State>(compress, INIT, state, m, data, j, k);
        state := compress(state, data[j..j + 64]);
        j, k := j + 64, k + 1;
      }
      AbsorbLast<State>(compress, INIT, state, buffer[..], m, data, j, k);
      CopyTo(buffer, 0, data[j..]);
    }

    /** sha256_final */
    method Final() returns (digest: seq<Byte>)
      requires Valid()
      modifies `state, buffer
      ensures digest == Hash(compress, message)
    {
      CounterIndex(|message|, blocks);
      CounterBits(|message|);
      var i := count % 64;
      CopyTo(buffer, i, [0x80]);
      i := i + 1;
      assert buffer[..i] == message[64 * blocks..] + [0x80];
      var bits := Be64(8 * count % WRAP64);
      if i > 56 {
        FinishTwo(i, bits);
      } else {
        FinishOne(i, bits);
      }
      digest := DigestOf(state);
    }

    /** Zeros and the length fit the buffered block. */
    method FinishOne(i: nat, bits: seq<Byte>)
      requires buffer.Length == 64 && 64 * blocks <= |message| && i == |message| - 64 * blocks + 1 <= 56
      requires state == Fold<State>(compress, INIT, message, blocks) && bits == Be64(8 * |message| % WRAP64)
      requires buffer[..i] == message[64 * blocks..] + [0x80]
      modifies `state, buffer
      ensures state == Fold<State>(compress, INIT, Pad(message), |Pad(message)| / 64)
    {
      CopyTo(buffer, i, Zeros(56 - i));
      CopyTo(buffer, 56, bits);
      OneBlock(compress, state, message, blocks, buffer[..]);
      state := compress(state, buffer[..]);
    }

    /** They need another block. */
    method FinishTwo(i: nat, bits: seq<Byte>)
      requires buffer.Length == 64 && 64 * blocks <= |message| && 56 < i == |message| - 64 * blocks + 1 <= 64
      requires state == Fold<State>(compress, INIT, message, blocks) && bits == Be64(8 * |message| % WRAP64)
      requires buffer[..i] == message[64 * blocks..] + [0x80]
      modifies `state, buffer
      ensures state == Fold<State>(compress, INIT, Pad(message), |Pad(message)| / 64)
    {
      CopyTo(buffer, i, Zeros(64 - i));
      ghost var first, state0 := buffer[..], state;
      state := compress(state, buffer[..]);
      CopyTo(buffer, 0, Zeros(56));
      CopyTo(buffer, 56, bits);
      TwoBlocks(compress, state0, message, blocks, first, buffer[..]);
      state := compress(state, buffer[..]);
    }
  }

  lemma OneBlock(compress: (State, seq<Byte>) -> State, state: State, m: seq<Byte>, k: nat, block: seq<Byte>)
    requires 64 * k <= |m| < 64 * k + 56 && state == Fold<State>(compress, INIT, m, k)
    requires block == m[64 * k..] + [0x80] + Zeros(55 - (|m| - 64 * k)) + Be64(8 * |m| % WRAP64)
    ensures |Pad(m)| == 64 * (k + 1) && compress(state, block) == Fold<State>(compress, INIT, Pad(m), k + 1)
  {
    ModBlock(|m|, |m| - 64 * k, k);
    var p, tail := Pad(m), PadTo56(|m|) + Be64(8 * |m| % WRAP64);
    assert p == m + tail;
    FoldPrefix<State>(compress, INIT, m, tail, k);
    assert p[64 * k..64 * (k + 1)] == block;
  }

  lemma TwoBlocks(compress: (State, seq<Byte>) -> State, state: State, m: seq<Byte>, k: nat,
      first: seq<Byte>, second: seq<Byte>)
    requires 64 * k + 56 <= |m| < 64 * (k + 1) && state == Fold<State>(compress, INIT, m, k)
    requires first == m[64 * k..] + [0x80] + Zeros(63 - (|m| - 64 * k))
    requires second == Zeros(56) + Be64(8 * |m| % WRAP64)
    ensures |Pad(m)| == 64 * (k + 2)
    ensures compress(compress(state, first), second) == Fold<State>(compress, INIT, Pad(m), k + 2)
  {
    ModBlock(|m|, |m| - 64 * k, k);
    var p, tail := Pad(m), PadTo56(|m|) + Be64(8 * |m| % WRAP64);
    assert p == m + tail;
    FoldPrefix<State>(compress, INIT, m, tail, k);
    assert p[64 * k..64 * (k + 1)] == first;
    assert p[64 * (k + 1)..64 * (k + 2)] == second;
  }

  /** sha256_hash: one update and final. */
  method HashAll(compress: (State, seq<Byte>) -> State, data: seq<Byte>) returns (digest: seq<Byte>)
    requires |data| < WORD
    ensures digest == Hash(compress, data)
  {
    var ctx := new Context(compress);
    ctx.Update(data);
    assert [] + data == data;
    digest := ctx.Final();
  }

  /** However a message is split into updates, the result is the hash of the whole. */
  method HashParts(compress: (State, seq<Byte>) -> State, parts: seq<seq<Byte>>) returns (digest: seq<Byte>)
    requires forall p :: p in parts ==> |p| + 63 < WORD
    ensures digest == Hash(compress, Concat(parts))
  {
    var ctx := new Context(compress);
    for k := 0 to |parts|
      invariant ctx.Valid() && fresh(ctx) && fresh(ctx.buffer) && ctx.compress == compress
      invariant ctx.message == Concat(parts[..k])
    {
      assert parts[k] in parts && parts[..k + 1][..k] == parts[..k];
      ctx.Update(parts[k]);
    }
    assert parts[..|parts|] == parts;
    digest := ctx.Final();
  }
}
