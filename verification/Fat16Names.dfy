/** 8.3 names: fat16_to_name, the parser of fat16_add_entry, and find_callback's
    case-insensitive comparison (src/drivers/fat16.cpp). A name is its bytes before the NUL. */
module Fat16Names {
  import opened Collections
  import opened Bytes
  import opened Fat16Layout

  const SPACE: Byte := 32
  const DOT: Byte := 46
  const DELETED: Byte := 0xE5

  function Upper(b: Byte): Byte { if 97 <= b <= 122 then b - 32 else b }

  function UpperAll(s: seq<Byte>): (r: seq<Byte>)
    ensures |r| == |s|
  {
    seq(|s|, i requires 0 <= i < |s| => Upper(s[i]))
  }

  function Spaces(n: nat): (r: seq<Byte>)
    ensures |r| == n
  {
    seq(n, i => SPACE)
  }

  function NoSpaces(s: seq<Byte>): (r: seq<Byte>)
    ensures |r| <= |s|
  {
    if s == [] then []
    else NoSpaces(s[..|s| - 1]) + if s[|s| - 1] == SPACE then [] else [s[|s| - 1]]
  }

  /** The stored 11 bytes as a name. */
  function Print(stored: seq<Byte>): seq<Byte>
    requires |stored| == 11
  {
    NoSpaces(stored[..8]) + if stored[8] == SPACE then [] else [DOT] + NoSpaces(stored[8..])
  }

  // ---- parsing ----

  /** The parser's variables: the bytes of the file name so far, in_ext, ei and ext. */
  datatype Parse = Parse(base: seq<Byte>, inExt: bool, ei: nat, ext: seq<Byte>)

  const START: Parse := Parse([], false, 0, Spaces(3))

  function Eat(p: Parse, ch: Byte): Parse
    requires p.ei < 3 ==> |p.ext| == 3
  {
    if Upper(ch) == DOT then p.(inExt := true, ei := 0)
    else if p.inExt then
      if p.ei < 3 then p.(ext := p.ext[p.ei := Upper(ch)], ei := p.ei + 1) else p
    else
      if |p.base| < 8 then p.(base := p.base + [Upper(ch)]) else p
  }

  function ParseName(name: seq<Byte>): (p: Parse)
    ensures |p.base| <= 8 && p.ei <= 3 && |p.ext| == 3
  {
    if name == [] then START else Eat(ParseName(name[..|name| - 1]), name[|name| - 1])
  }

  /** The 11 bytes that fat16_add_entry stores. */
  function StoredName(name: seq<Byte>): (r: seq<Byte>)
    ensures |r| == 11
  {
    var p := ParseName(name);
    p.base + Spaces(8 - |p.base|) + p.ext
  }

  // ---- when a name survives ----

  function FirstDot(name: seq<Byte>): (d: nat)
    ensures d <= |name| && (d < |name| ==> name[d] == DOT) && forall i :: 0 <= i < d ==> name[i] != DOT
  {
    if name == [] || name[0] == DOT then 0 else 1 + FirstDot(name[1..])
  }

  /** At most 8 characters, or at most 8 and a dot and 1 to 3 more; no space. */
  predicate WellFormed(name: seq<Byte>) {
    var d := FirstDot(name);
    && SPACE !in name && d <= 8
    && (d < |name| ==> DOT !in name[d + 1..] && 1 <= |name| - d - 1 <= 3)
  }

  lemma {:induction false} NoSpacesFacts(s: seq<Byte>)
    ensures SPACE !in NoSpaces(s)
    ensures forall b :: b in NoSpaces(s) ==> b in s
    ensures SPACE !in s ==> NoSpaces(s) == s
  {
    if s != [] {
      NoSpacesFacts(s[..|s| - 1]);
      assert s == s[..|s| - 1] + [s[|s| - 1]];
    }
  }

  lemma {:induction false} NoSpacesPadded(s: seq<Byte>, n: nat)
    requires SPACE !in s
    ensures NoSpaces(s + Spaces(n)) == s
    decreases n
  {
    if n == 0 {
      NoSpacesFacts(s);
      assert s + Spaces(0) == s;
    } else {
      NoSpacesPadded(s, n - 1);
      assert (s + Spaces(n))[..|s| + n - 1] == s + Spaces(n - 1);
    }
  }

  /** Stored fields never hold a dot or a NUL. */
  lemma {:induction false} ParsedBytes(name: seq<Byte>)
    requires CString(name)
    ensures var p := ParseName(name);
            && DOT !in p.base && DOT !in p.ext && 0 !in p.base && 0 !in p.ext
            && (forall b :: b in p.base || b in p.ext ==> Upper(b) == b)
  {
    if name != [] {
      var n := |name| - 1;
      assert name[n] in name;
      assert forall b :: b in name[..n] ==> b in name;
      ParsedBytes(name[..n]);
    }
  }

  /** Before the first dot the parser fills the file name. */
  lemma {:induction false} ParseBase(name: seq<Byte>)
    requires DOT !in name
    ensures ParseName(name) == Parse(UpperAll(name)[..Least(8, |name|)], false, 0, Spaces(3))
  {
    if name != [] {
      var n := |name| - 1;
      assert name[n] in name;
      assert forall b :: b in name[..n] ==> b in name;
      ParseBase(name[..n]);
      assert UpperAll(name[..n]) == UpperAll(name)[..n];
    }
  }

  /** After a single dot it fills the extension. */
  lemma {:induction false} ParseExt(base: seq<Byte>, ext: seq<Byte>)
    requires DOT !in base && DOT !in ext
    ensures var n := Least(3, |ext|);
            ParseName(base + [DOT] + ext) ==
              Parse(UpperAll(base)[..Least(8, |base|)], true, n, UpperAll(ext)[..n] + Spaces(3 - n))
    decreases |ext|
  {
    var name := base + [DOT] + ext;
    if ext == [] {
      assert name[..|base|] == base;
      ParseBase(base);
      assert UpperAll(ext)[..0] + Spaces(3) == Spaces(3);
    } else {
      var n := |ext| - 1;
      assert name[..|name| - 1] == base + [DOT] + ext[..n];
      assert ext[n] in ext;
      assert forall b :: b in ext[..n] ==> b in ext;
      ParseExt(base, ext[..n]);
      assert UpperAll(ext[..n]) == UpperAll(ext)[..n];
      ExtByte(UpperAll(ext), n);
    }
  }

  /** The next byte of the extension goes behind those before it, or nowhere. */
  lemma ExtByte(ext: seq<Byte>, n: nat)
    requires n < |ext|
    ensures n < 3 ==> (ext[..n] + Spaces(3 - n))[n := ext[n]] == ext[..n + 1] + Spaces(3 - (n + 1))
  {}

  lemma UpperKeeps(s: seq<Byte>)
    ensures DOT in UpperAll(s) <==> DOT in s
    ensures SPACE in UpperAll(s) <==> SPACE in s
    ensures 0 in UpperAll(s) <==> 0 in s
  {
    forall b | b in [DOT, SPACE, 0] ensures b in UpperAll(s) <==> b in s {
      if b in s {
        var i :| 0 <= i < |s| && s[i] == b;
        assert UpperAll(s)[i] == b;
      }
    }
    assert DOT in [DOT, SPACE, 0] && SPACE in [DOT, SPACE, 0] && 0 in [DOT, SPACE, 0];
  }

  const README: seq<Byte> := [114, 101, 97, 100, 109, 101, 46, 116, 120, 116]

  /** readme.txt is stored as README, two spaces, TXT. */
  lemma Example()
    ensures StoredName(README) == [82, 69, 65, 68, 77, 69, 32, 32, 84, 88, 84]
  {
    var base: seq<Byte>, ext: seq<Byte> := [114, 101, 97, 100, 109, 101], [116, 120, 116];
    assert README == base + [DOT] + ext;
    ParseExt(base, ext);
    assert UpperAll(base) == [82, 69, 65, 68, 77, 69] && UpperAll(ext) == [84, 88, 84];
    assert StoredName(README) == UpperAll(base) + Spaces(2) + UpperAll(ext);
  }

  /** What is read back of a name without spaces and with one dot. */
  lemma PrintOneDot(base: seq<Byte>, ext: seq<Byte>)
    requires DOT !in base && DOT !in ext && SPACE !in base && SPACE !in ext
    ensures Print(StoredName(base + [DOT] + ext)) ==
              UpperAll(base)[..Least(8, |base|)] +
              if ext == [] then [] else [DOT] + UpperAll(ext)[..Least(3, |ext|)]
  {
    ParseExt(base, ext);
    UpperKeeps(base);
    UpperKeeps(ext);
    var b, e := UpperAll(base)[..Least(8, |base|)], UpperAll(ext)[..Least(3, |ext|)];
    var stored := StoredName(base + [DOT] + ext);
    assert stored[..8] == b + Spaces(8 - |b|);
    assert stored[8..] == e + Spaces(3 - |e|);
    NoSpacesPadded(b, 8 - |b|);
    NoSpacesPadded(e, 3 - |e|);
  }

  lemma PrintNoDot(name: seq<Byte>)
    requires DOT !in name && SPACE !in name
    ensures Print(StoredName(name)) == UpperAll(name)[..Least(8, |name|)]
  {
    ParseBase(name);
    UpperKeeps(name);
    var b := UpperAll(name)[..Least(8, |name|)];
    assert StoredName(name)[..8] == b + Spaces(8 - |b|);
    NoSpacesPadded(b, 8 - |b|);
  }

  lemma UpperSplit(base: seq<Byte>, ext: seq<Byte>)
    ensures UpperAll(base + [DOT] + ext) == UpperAll(base) + [DOT] + UpperAll(ext)
  {}

  /** What is read back never has a space, and at most one dot. */
  lemma PrintShape(name: seq<Byte>)
    requires CString(name)
    ensures var r := Print(StoredName(name));
            && SPACE !in r
            && forall i, j :: 0 <= i < j < |r| && r[i] == DOT ==> r[j] != DOT
  {
    var stored := StoredName(name);
    ParsedBytes(name);
    NoSpacesFacts(stored[..8]);
    NoSpacesFacts(stored[8..]);
    assert DOT !in stored[..8];
    assert stored[8..] == ParseName(name).ext;
  }

  lemma RoundTripNoDot(name: seq<Byte>)
    requires DOT !in name && SPACE !in name
    ensures Print(StoredName(name)) == UpperAll(name) <==> |name| <= 8
  {
    PrintNoDot(name);
    if |name| <= 8 { assert UpperAll(name)[..|name|] == UpperAll(name); }
  }

  lemma RoundTripOneDot(base: seq<Byte>, ext: seq<Byte>)
    requires DOT !in base && DOT !in ext && SPACE !in base && SPACE !in ext
    ensures Print(StoredName(base + [DOT] + ext)) == UpperAll(base + [DOT] + ext) <==>
              |base| <= 8 && 1 <= |ext| <= 3
  {
    PrintOneDot(base, ext);
    UpperSplit(base, ext);
    if |base| <= 8 && 1 <= |ext| <= 3 {
      assert UpperAll(base)[..|base|] == UpperAll(base) && UpperAll(ext)[..|ext|] == UpperAll(ext);
    } else {
      assert |Print(StoredName(base + [DOT] + ext))| < |UpperAll(base + [DOT] + ext)|;
    }
  }

  lemma RoundTripDots(name: seq<Byte>, i: nat, j: nat)
    requires CString(name) && i < j < |name| && name[i] == name[j] == DOT
    ensures Print(StoredName(name)) != UpperAll(name)
  {
    PrintShape(name);
    assert UpperAll(name)[i] == DOT && UpperAll(name)[j] == DOT;
  }

  /** A name reads back as itself in capitals exactly when it is a well-formed 8.3 name. */
  lemma RoundTrip(name: seq<Byte>)
    requires CString(name)
    ensures Print(StoredName(name)) == UpperAll(name) <==> WellFormed(name)
  {
    var d := FirstDot(name);
    var base := name[..d];
    assert forall b :: b in base ==> b in name;
    if SPACE in name {
      UpperKeeps(name);
      PrintShape(name);
    } else if d == |name| {
      assert base == name;
      RoundTripNoDot(name);
    } else {
      var ext := name[d + 1..];
      if DOT in ext {
        var j :| 0 <= j < |ext| && ext[j] == DOT;
        RoundTripDots(name, d, d + 1 + j);
      } else {
        assert name == base + [DOT] + ext;
        RoundTripOneDot(base, ext);
      }
    }
  }

  /** fat16_to_name */
  method ToName(src: seq<Byte>, ext: seq<Byte>) returns (dest: seq<Byte>)
    requires |src| == 8 && |ext| == 3
    ensures dest == Print(src + ext)
  {
    dest := [];
    for j := 0 to 8
      invariant dest == NoSpaces(src[..j])
    {
      assert src[..j + 1][..j] == src[..j];
      if src[j] != SPACE { dest := dest + [src[j]]; }
    }
    assert src[..8] == src == (src + ext)[..8] && (src + ext)[8..] == ext;
    if ext[0] != SPACE {
      ghost var base := dest;
      dest := dest + [DOT];
      for j := 0 to 3
        invariant dest == base + [DOT] + NoSpaces(ext[..j])
      {
        assert ext[..j + 1][..j] == ext[..j];
        if ext[j] != SPACE { dest := dest + [ext[j]]; }
      }
      assert ext[..3] == ext;
    }
  }

  /** The comparison loop of find_callback, on two NUL-terminated strings. */
  method SameName(name: seq<Byte>, query: seq<Byte>) returns (same: bool)
    requires CString(query)
    ensures same <==> UpperAll(Cut(name)) == UpperAll(query)
  {
    CutStops(name);
    var a, b := name + [0], query + [0];
    var i := 0;
    while true
      invariant 0 <= i <= |Cut(name)| && i <= |query|
      invariant forall j :: 0 <= j < i ==> Upper(name[j]) == Upper(query[j])
      decreases |query| - i
    {
      var c1, c2 := Upper(a[i]), Upper(b[i]);
      if c1 != c2 {
        if i < |Cut(name)| && i < |query| {
          assert UpperAll(Cut(name))[i] != UpperAll(query)[i];
        }
        return false;
      }
      if c1 == 0 { return true; }
      i := i + 1;
    }
  }

  /** The parsing loop of fat16_add_entry. */
  method ParseInto(name: seq<Byte>) returns (stored: seq<Byte>)
    requires CString(name)
    ensures stored == StoredName(name)
  {
    var filename: seq<Byte>, ext: seq<Byte> := Spaces(8), Spaces(3);
    var fi, inExt, ei := 0, false, 0;
    for i := 0 to |name|
      invariant 0 <= fi <= 8 == |filename| && |ext| == 3 && 0 <= ei <= 3
      invariant filename == filename[..fi] + Spaces(8 - fi)
      invariant ParseName(name[..i]) == Parse(filename[..fi], inExt, ei, ext)
    {
      assert name[..i + 1][..i] == name[..i];
      var ch := Upper(name[i]);
      if ch == DOT {
        inExt, ei := true, 0;
      } else if inExt {
        if ei < 3 { ext, ei := ext[ei := ch], ei + 1; }
      } else if fi < 8 {
        ghost var before := filename;
        filename, fi := filename[fi := ch], fi + 1;
        assert filename[..fi] == before[..fi - 1] + [ch];
      }
    }
    assert name[..|name|] == name;
    stored := filename + ext;
  }

  /** The name find_callback compares with, in capitals. */
  function Key(e: DirEntry): seq<Byte> { UpperAll(Cut(Print(e[..11]))) }

  lemma UpperFixed(s: seq<Byte>)
    requires forall b :: b in s ==> Upper(b) == b
    ensures UpperAll(s) == s
  {}

  /** What is read back of a stored name is a C string in capitals. */
  lemma PrintBytes(name: seq<Byte>)
    requires CString(name)
    ensures var r := Print(StoredName(name)); CString(r) && UpperAll(r) == r
    ensures StoredName(name)[0] != 0
  {
    var stored := StoredName(name);
    ParsedBytes(name);
    assert forall b :: b in stored ==> b != 0 && Upper(b) == b;
    assert forall b :: b in stored[..8] || b in stored[8..] ==> b in stored;
    NoSpacesFacts(stored[..8]);
    NoSpacesFacts(stored[8..]);
    assert stored[0] in stored;
    UpperFixed(Print(stored));
  }

  /** A new entry has the key it was asked for exactly when the name is well-formed. */
  lemma StoredKey(name: seq<Byte>, e: DirEntry)
    requires CString(name) && e[..11] == StoredName(name)
    ensures e[0] == StoredName(name)[0] != 0
    ensures Key(e) == UpperAll(name) <==> WellFormed(name)
  {
    PrintBytes(name);
    CutAll(Print(StoredName(name)));
    assert e[0] == e[..11][0];
    RoundTrip(name);
  }

  /** Two names that differ in their ninth character only. */
  const LONG_B: seq<Byte> := [65, 65, 65, 65, 65, 65, 65, 65, 66]
  const LONG_C: seq<Byte> := [65, 65, 65, 65, 65, 65, 65, 65, 67]

  /** A longer name is cut, so two different names can be stored alike. */
  lemma TruncatedAlike()
    ensures LONG_B != LONG_C && StoredName(LONG_B) == StoredName(LONG_C) && StoredName(LONG_B)[0] == 65
    ensures !WellFormed(LONG_B) && !WellFormed(LONG_C)
  {
    ParseBase(LONG_B);
    ParseBase(LONG_C);
    assert UpperAll(LONG_B)[..8] == UpperAll(LONG_C)[..8];
    assert LONG_B[8] != LONG_C[8];
  }
}
