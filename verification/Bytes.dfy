/** Bytes, little-endian numbers in byte buffers, and C strings. */
module Bytes {
  type Byte = b: int | 0 <= b < 256

  function Zeros(n: nat): (r: seq<Byte>)
    ensures |r| == n
  {
    seq(n, i => 0)
  }

  function Get16(s: seq<Byte>, at: nat): (v: nat)
    requires at + 1 < |s|
    ensures v < 0x10000
  {
    s[at] as nat + 256 * s[at + 1] as nat
  }

  function Le16(v: nat): (r: seq<Byte>)
    requires v < 0x10000
    ensures |r| == 2
  {
    [v % 256, v / 256]
  }

  function Get32(s: seq<Byte>, at: nat): (v: nat)
    requires at + 3 < |s|
    ensures v < 0x1_0000_0000
  {
    Get16(s, at) + 0x10000 * Get16(s, at + 2)
  }

  function Le32(v: nat): (r: seq<Byte>)
    requires v < 0x1_0000_0000
    ensures |r| == 4
  {
    Le16(v % 0x10000) + Le16(v / 0x10000)
  }

  /** The number that bytes in network order stand for. */
  function BigEndian(s: seq<Byte>): (v: nat) {
    if s == [] then 0 else 256 * BigEndian(s[..|s| - 1]) + s[|s| - 1]
  }

  function LittleEndian(s: seq<Byte>): (v: nat) {
    if s == [] then 0 else s[0] + 256 * LittleEndian(s[1..])
  }

  lemma BigEndian2(s: seq<Byte>)
    requires |s| == 2
    ensures BigEndian(s) == 256 * s[0] as nat + s[1] as nat
  {
    assert BigEndian(s[..1]) == s[0] as nat;
  }

  lemma BigEndian4(s: seq<Byte>)
    requires |s| == 4
    ensures BigEndian(s) == 0x100_0000 * s[0] as nat + 0x1_0000 * s[1] as nat + 256 * s[2] as nat + s[3] as nat
  {
    assert s[..3][..2] == s[..2];
    assert BigEndian(s[..3]) == 256 * BigEndian(s[..2]) + s[2] as nat;
    BigEndian2(s[..2]);
  }

  lemma BigEndian8(s: seq<Byte>)
    requires |s| == 8
    ensures BigEndian(s) == 0x1_0000_0000 * BigEndian(s[..4]) + BigEndian(s[4..])
  {
    assert s[..5][..4] == s[..4] && s[..6][..5] == s[..5] && s[..7][..6] == s[..6];
    assert BigEndian(s[..5]) == 256 * BigEndian(s[..4]) + s[4] as nat;
    assert BigEndian(s[..6]) == 256 * BigEndian(s[..5]) + s[5] as nat;
    assert BigEndian(s[..7]) == 256 * BigEndian(s[..6]) + s[6] as nat;
    BigEndian4(s[4..]);
  }

  lemma LittleEndian2(s: seq<Byte>)
    requires |s| == 2
    ensures LittleEndian(s) == s[0] as nat + 256 * s[1] as nat
  {
    assert LittleEndian(s[1..]) == s[1] as nat;
  }

  lemma LittleEndian4(s: seq<Byte>)
    requires |s| == 4
    ensures LittleEndian(s) == s[0] as nat + 256 * s[1] as nat + 0x1_0000 * s[2] as nat + 0x100_0000 * s[3] as nat
  {
    assert s[1..][1..] == s[2..] && s[2..][1..] == s[3..];
    assert LittleEndian(s[3..]) == s[3] as nat && LittleEndian(s[2..]) == s[2] as nat + 256 * s[3] as nat;
  }

  lemma LittleEndian8(s: seq<Byte>)
    requires |s| == 8
    ensures LittleEndian(s) == LittleEndian(s[..4]) + 0x1_0000_0000 * LittleEndian(s[4..])
  {
    assert s[1..][1..] == s[2..] && s[2..][1..] == s[3..] && s[3..][1..] == s[4..];
    assert LittleEndian(s[3..]) == s[3] as nat + 256 * LittleEndian(s[4..]);
    assert LittleEndian(s[2..]) == s[2] as nat + 256 * LittleEndian(s[3..]);
    assert LittleEndian(s[1..]) == s[1] as nat + 256 * LittleEndian(s[2..]);
    LittleEndian4(s[..4]);
  }

  /** `s` with the bytes at `at` replaced by `x`: a memcpy into a buffer. */
  function Splice(s: seq<Byte>, at: nat, x: seq<Byte>): (r: seq<Byte>)
    requires at + |x| <= |s|
    ensures |r| == |s|
    ensures r[at..at + |x|] == x
    ensures forall k :: 0 <= k < |s| && !(at <= k < at + |x|) ==> r[k] == s[k]
  {
    s[..at] + x + s[at + |x|..]
  }

  /** memcpy into an array. */
  method CopyTo(buffer: array<Byte>, at: nat, src: seq<Byte>)
    requires at + |src| <= buffer.Length
    modifies buffer
    ensures buffer[..] == Splice(old(buffer[..]), at, src)
  {
    forall k | at <= k < at + |src| { buffer[k] := src[k - at]; }
  }

  /** The buffer holds `read` bytes of `raw` from `offset` on, and its old bytes after them. */
  ghost predicate Copied(raw: seq<Byte>, offset: nat, buf0: seq<Byte>, buf: seq<Byte>, read: nat) {
    if read == 0 then buf == buf0
    else offset + read <= |raw| && read <= |buf0| && buf == raw[offset..offset + read] + buf0[read..]
  }

  /** Copying the next part of a byte string into a buffer that holds the part before it. */
  lemma CopyOn(raw: seq<Byte>, offset: nat, buf0: seq<Byte>, buf: seq<Byte>, read: nat, n: nat, buf': seq<Byte>)
    requires Copied(raw, offset, buf0, buf, read) && offset + read + n <= |raw| && read + n <= |buf0|
    requires buf' == Splice(buf, read, raw[offset + read..offset + read + n])
    ensures Copied(raw, offset, buf0, buf', read + n)
  {}

  lemma SliceSlice<T>(s: seq<T>, a: nat, b: nat, c: nat, d: nat)
    requires a <= b <= |s| && c <= d <= b - a
    ensures s[a..b][c..d] == s[a + c..a + d]
  {
    var x, y := s[a..b][c..d], s[a + c..a + d];
    forall k | 0 <= k < d - c ensures x[k] == y[k] {}
  }

  lemma Spliced16(s: seq<Byte>, at: nat, v: nat)
    requires at + 2 <= |s| && v < 0x10000
    ensures Get16(Splice(s, at, Le16(v)), at) == v
  {}

  lemma Spliced32(s: seq<Byte>, at: nat, v: nat)
    requires at + 4 <= |s| && v < 0x1_0000_0000
    ensures Get32(Splice(s, at, Le32(v)), at) == v
  {}

  // ---- C strings: the bytes before the NUL ----

  ghost predicate CString(s: seq<Byte>) { 0 !in s }

  /** A C string ends at its first NUL. */
  function Cut(s: seq<Byte>): seq<Byte> {
    if s == [] || s[0] == 0 then [] else [s[0]] + Cut(s[1..])
  }

  lemma {:induction false} CutAll(s: seq<Byte>)
    requires CString(s)
    ensures Cut(s) == s
  {
    if s != [] { CutAll(s[1..]); }
  }

  lemma {:induction false} CutStops(s: seq<Byte>)
    ensures Cut(s) <= s && CString(Cut(s))
    ensures |Cut(s)| < |s| ==> s[|Cut(s)|] == 0
  {
    if s != [] && s[0] != 0 { CutStops(s[1..]); }
  }
}
