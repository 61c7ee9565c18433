/** The three Internet checksum routines (src/kernel/net_stack.cpp, src/kernel/tcp.cpp,
    src/kernel/net.cpp), with their 32-bit accumulators. */
module Checksum {
  import opened Collections
  import opened Bytes

  const PROTO_TCP: Byte := 6

  // ---- the one's-complement sum of section 1 of RFC 1071 ----

  /** The sum of the 16-bit words in memory order; an odd last byte counts alone. */
  function WordSum(data: seq<Byte>): nat {
    if |data| == 0 then 0
    else if |data| == 1 then data[0]
    else Get16(data, 0) + WordSum(data[2..])
  }

  /** The one's-complement representative: congruent modulo 65535, and 0 only for 0. */
  function OnesSum(s: nat): (r: nat)
    ensures r < 0x10000 && (r == 0 <==> s == 0)
  {
    if s == 0 then 0 else (s - 1) % 0xFFFF + 1
  }

  function Checksum(data: seq<Byte>): (r: nat)
    ensures r < 0x10000
  {
    0xFFFF - OnesSum(WordSum(data))
  }

  /** One fold of the carries. */
  function Fold(s: nat): nat { s % 0x10000 + s / 0x10000 }

  lemma AddMultiple(x: nat, q: nat)
    ensures (x + 0xFFFF * q) % 0xFFFF == x % 0xFFFF
  {}

  /** Folding changes no sum, whatever is added later. */
  lemma FoldKeeps(s: nat, more: nat)
    ensures OnesSum(Fold(s) + more) == OnesSum(s + more)
    ensures s >= 0x10000 ==> Fold(s) < s
  {}

  /** The final loop of all three routines. */
  method FoldAll(sum: nat) returns (r: nat)
    requires sum < WORD
    ensures r == 0xFFFF - OnesSum(sum)
  {
    var s: nat := sum;
    while s / 0x10000 != 0
      invariant s < WORD && OnesSum(s) == OnesSum(sum)
      decreases s
    {
      FoldKeeps(s, 0);
      s := s % 0x10000 + s / 0x10000;
    }
    r := 0xFFFF - s;
  }

  lemma {:induction false} WordSumAppend(a: seq<Byte>, b: seq<Byte>)
    requires |a| % 2 == 0
    ensures WordSum(a + b) == WordSum(a) + WordSum(b)
  {
    if a == [] {
      assert a + b == b;
    } else {
      assert (a + b)[2..] == a[2..] + b;
      WordSumAppend(a[2..], b);
    }
  }

  lemma {:induction false} WordSumBound(data: seq<Byte>)
    ensures WordSum(data) <= 0xFFFF * ((|data| + 1) / 2)
  {
    if |data| > 1 { WordSumBound(data[2..]); }
  }

  lemma NextWord(data: seq<Byte>, j: nat)
    requires j + 1 < |data|
    ensures WordSum(data[j..]) == Get16(data, j) + WordSum(data[j + 2..])
  {}

  lemma LastByte(data: seq<Byte>, j: nat)
    requires |data| - 1 <= j <= |data|
    ensures WordSum(data[j..]) == if j < |data| then data[j] else 0
  {}

  // ---- the routines ----

  /** One word is added in 32 bits, and bit 31 is folded away. */
  method AddWord(sum: nat, w: nat, ghost rest: nat) returns (r: nat)
    requires sum < 0x8000_0000 && w < 0x10000
    ensures r < 0x8000_0000 && OnesSum(r + rest) == OnesSum(sum + (w + rest))
  {
    r := (sum + w) % WORD;
    if r >= 0x8000_0000 {
      FoldKeeps(r, rest);
      r := r % 0x10000 + r / 0x10000;
    }
  }

  /** net_checksum: the accumulator is folded whenever bit 31 is set, so for no length does the
      32-bit addition wrap, and the result is the checksum. */
  method NetChecksum(data: seq<Byte>) returns (r: nat)
    ensures r == Checksum(data)
  {
    var sum: nat, j: nat := 0, 0;
    assert data[0..] == data;
    while |data| - j > 1
      invariant j <= |data| && sum < 0x8000_0000
      invariant OnesSum(sum + WordSum(data[j..])) == OnesSum(WordSum(data))
    {
      NextWord(data, j);
      sum := AddWord(sum, Get16(data, j), WordSum(data[j + 2..]));
      j := j + 2;
    }
    LastByte(data, j);
    if j < |data| {
      sum := sum + data[j];
    }
    r := FoldAll(sum);
  }

  /** The accumulating loop without folding, modulo 2^32, onto a sum so far. */
  method Accumulate(start: nat, data: seq<Byte>) returns (sum: nat)
    requires start < WORD
    ensures sum == (start + WordSum(data)) % WORD
  {
    var j: nat := 0;
    sum := start;
    assert data[0..] == data;
    ghost var exact: nat := start;
    while |data| - j > 1
      invariant j <= |data| && sum == exact % WORD
      invariant exact + WordSum(data[j..]) == start + WordSum(data)
    {
      NextWord(data, j);
      sum, exact := AddWrapped(sum, Get16(data, j), exact);
      j := j + 2;
    }
    LastByte(data, j);
    if j < |data| {
      sum, exact := AddWrapped(sum, data[j], exact);
    }
  }

  /** A 32-bit addition. */
  method AddWrapped(sum: nat, w: nat, ghost exact: nat) returns (r: nat, ghost exact': nat)
    requires sum == exact % WORD
    ensures exact' == exact + w && r == exact' % WORD
  {
    r, exact' := (sum + w) % WORD, exact + w;
  }

  /** checksum of net.cpp: right exactly when the plain sum fits 32 bits, for every length that
      fits an int. */
  method SimpleChecksum(data: seq<Byte>) returns (r: nat)
    requires |data| < 0x8000_0000
    ensures r == Checksum(data) <==> WordSum(data) < WORD
  {
    var sum := Accumulate(0, data);
    r := FoldAll(sum);
    WordSumBound(data);
    WrapsWrong(WordSum(data));
  }

  /** Every wrap-around loses 1 modulo 65535. */
  lemma WrapsWrong(s: nat)
    requires s < WORD * 0x4000
    ensures OnesSum(s % WORD) == OnesSum(s) <==> s < WORD
  {}

  function Ones(n: nat): seq<Byte> { seq(2 * n, i => 0xFF) }

  lemma {:induction false} WordSumOnes(n: nat)
    ensures WordSum(Ones(n)) == 0xFFFF * n
  {
    if n > 0 {
      WordSumOnes(n - 1);
      assert Ones(n)[2..] == Ones(n - 1);
    }
  }

  /** 131076 bytes of 0xFF are too many for the simple routine. */
  lemma TooLong()
    ensures |Ones(65538)| == 131076 && WordSum(Ones(65538)) >= WORD
  {
    WordSumOnes(65538);
  }

  /** The pseudo-header of section 3.1 of RFC 9293, with the addresses as they lie in memory. */
  function PseudoHeader(src: nat, dst: nat, len: nat): (r: seq<Byte>)
    requires src < WORD && dst < WORD && len < 0x10000
    ensures |r| == 12
  {
    Le32(src) + Le32(dst) + [0, PROTO_TCP] + [len / 0x100, len % 0x100]
  }

  /** Its fields: the two addresses, a zero byte, protocol 6 and the length in network order. */
  lemma PseudoFields(src: nat, dst: nat, len: nat)
    requires src < WORD && dst < WORD && len < 0x10000
    ensures var r := PseudoHeader(src, dst, len);
            && LittleEndian(r[..4]) == src && LittleEndian(r[4..8]) == dst
            && r[8] == 0 && r[9] == 6 && BigEndian(r[10..]) == len
  {
    var r := PseudoHeader(src, dst, len);
    assert r[..4] == Le32(src) && r[4..8] == Le32(dst);
    LittleEndian4(r[..4]);
    LittleEndian4(r[4..8]);
    BigEndian2(r[10..]);
  }

  /** tcp_checksum of net_stack.cpp: pseudo-header and segment copied into one buffer. */
  method TcpChecksumCopied(src: nat, dst: nat, segment: seq<Byte>, haveMemory: bool) returns (r: nat)
    requires src < WORD && dst < WORD && |segment| < 0x10000
    ensures r == if haveMemory then Checksum(PseudoHeader(src, dst, |segment|) + segment) else 0
  {
    if !haveMemory { return 0; }
    var buf := PseudoHeader(src, dst, |segment|) + segment;
    r := NetChecksum(buf);
  }

  /** A pseudo-header and a segment together do not wrap. */
  lemma SegmentSum(pseudo: seq<Byte>, segment: seq<Byte>)
    requires |pseudo| == 12 && |segment| < 0x10000
    ensures WordSum(pseudo + segment) == WordSum(pseudo) + WordSum(segment) < WORD
  {
    WordSumBound(pseudo);
    WordSumBound(segment);
    WordSumAppend(pseudo, segment);
  }

  /** tcp_checksum of tcp.cpp: both parts summed in place; no segment is long enough to wrap. */
  method TcpChecksumInPlace(src: nat, dst: nat, segment: seq<Byte>) returns (r: nat)
    requires src < WORD && dst < WORD && |segment| < 0x10000
    ensures r == Checksum(PseudoHeader(src, dst, |segment|) + segment)
  {
    r := SumBoth(PseudoHeader(src, dst, |segment|), segment);
  }

  method SumBoth(pseudo: seq<Byte>, segment: seq<Byte>) returns (r: nat)
    requires |pseudo| == 12 && |segment| < 0x10000
    ensures r == Checksum(pseudo + segment)
  {
    SegmentSum(pseudo, segment);
    var sum := Accumulate(0, pseudo);
    sum := Accumulate(sum, segment);
    r := FoldAll(sum);
  }

  /** The example of section 3 of RFC 1071, whose sum is DDF2 in network order. */
  lemma Example()
    ensures Checksum([0x00, 0x01, 0xf2, 0x03, 0xf4, 0xf5, 0xf6, 0xf7]) == 0xFFFF - 0xF2DD
  {
    var data: seq<Byte> := [0x00, 0x01, 0xf2, 0x03, 0xf4, 0xf5, 0xf6, 0xf7];
    assert data[2..][2..] == data[4..] && data[4..][2..] == data[6..] && data[6..][2..] == [];
    assert WordSum(data[6..]) == 0xf7f6 && WordSum(data[4..]) == 0xf7f6 + 0xf5f4;
  }

  // ---- the re-check ----

  lemma {:induction false} WordSumSplice(data: seq<Byte>, at: nat, v: nat)
    requires at % 2 == 0 && at + 2 <= |data| && v < 0x10000 && Get16(data, at) == 0
    ensures WordSum(Splice(data, at, Le16(v))) == WordSum(data) + v
  {
    var r := Splice(data, at, Le16(v));
    Spliced16(data, at, v);
    if at == 0 {
      assert r[2..] == data[2..];
    } else {
      WordSumSplice(data[2..], at - 2, v);
      assert r[2..] == Splice(data[2..], at - 2, Le16(v));
    }
  }

  /** Storing the checksum in its zeroed, even-aligned field makes the re-check yield 0. */
  lemma Recheck(data: seq<Byte>, at: nat)
    requires at % 2 == 0 && at + 2 <= |data| && Get16(data, at) == 0
    ensures Checksum(Splice(data, at, Le16(Checksum(data)))) == 0
  {
    var s, c := WordSum(data), Checksum(data);
    WordSumSplice(data, at, c);
    if s > 0 {
      var q := (s - 1) / 0xFFFF;
      assert s + c - 1 == 0xFFFE + 0xFFFF * q;
      AddMultiple(0xFFFE, q);
    }
  }
}
