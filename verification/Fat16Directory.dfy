/** The root directory as a sequence of 32-byte entries, and the files it names
    (src/drivers/fat16.cpp). */
module Fat16Directory {
  import opened Collections
  import opened Bytes
  import opened Fat16Layout
  import opened Fat16Names
  import opened Fat16Chains

  const ATTR_LFN: Byte := 0x0F
  const ATTR_ARCHIVE: Byte := 0x20

  function Head(e: DirEntry): nat { Get16(e, 26) }

  function Size(e: DirEntry): nat { Get32(e, 28) }

  /** The entry that fat16_add_entry builds. */
  function NewEntry(name: seq<Byte>, attr: Byte, cluster: nat): (e: DirEntry)
    requires cluster < 0x10000
    ensures e[..11] == StoredName(name) && e[11] == attr && Head(e) == cluster && Size(e) == 0
  {
    var zeros := Zeros(32);
    var e := Splice(Splice(Splice(zeros, 0, StoredName(name)), 11, [attr]), 26, Le16(cluster));
    Spliced16(Splice(Splice(zeros, 0, StoredName(name)), 11, [attr]), 26, cluster);
    e
  }

  /** The entry after fat16_write_file has updated size and start cluster. */
  function Resized(e: DirEntry, cluster: nat, size: nat): (r: DirEntry)
    requires cluster < 0x10000 && size < 0x1_0000_0000
    ensures r[..26] == e[..26] && Head(r) == cluster && Size(r) == size
  {
    Spliced32(e, 28, size);
    Spliced16(Splice(e, 28, Le32(size)), 26, cluster);
    Splice(Splice(e, 28, Le32(size)), 26, Le16(cluster))
  }

  // ---- which entries count ----

  predicate Shown(e: DirEntry) { e[0] != 0 && e[0] != DELETED && e[11] != ATTR_LFN }

  /** Everything after the first end marker is an end marker too. */
  ghost predicate TailZero(dir: seq<DirEntry>) {
    forall i, j :: 0 <= i <= j < |dir| && dir[i][0] == 0 ==> dir[j][0] == 0
  }

  ghost predicate UniqueKeys(dir: seq<DirEntry>) {
    forall i, j :: 0 <= i < j < |dir| && Shown(dir[i]) && Shown(dir[j]) ==> Key(dir[i]) != Key(dir[j])
  }

  /** The index find_callback stops at with a match, or -1; the scan ends at an end marker. */
  function FindFrom(dir: seq<DirEntry>, key: seq<Byte>, i: nat): (r: int)
    requires i <= |dir|
    ensures r == -1 || i <= r < |dir|
    decreases |dir| - i
  {
    if i == |dir| || dir[i][0] == 0 then -1
    else if Shown(dir[i]) && Key(dir[i]) == key then i
    else FindFrom(dir, key, i + 1)
  }

  function Find(dir: seq<DirEntry>, key: seq<Byte>): (r: int)
    ensures -1 <= r < |dir|
  {
    FindFrom(dir, key, 0)
  }

  function FreeFrom(dir: seq<DirEntry>, i: nat): (r: int)
    requires i <= |dir|
    ensures r == -1 || i <= r < |dir|
    ensures r >= 0 ==> dir[r][0] in {0, DELETED}
    ensures forall j :: i <= j < (if r < 0 then |dir| else r) ==> dir[j][0] !in {0, DELETED}
    decreases |dir| - i
  {
    if i == |dir| then -1 else if dir[i][0] in {0, DELETED} then i else FreeFrom(dir, i + 1)
  }

  /** The early stop at an end marker hides nothing: the scan finds the first entry with the
      key, wherever it is. */
  lemma {:induction false} FindFirst(dir: seq<DirEntry>, key: seq<Byte>, i: nat)
    requires i <= |dir| && TailZero(dir)
    ensures var r := FindFrom(dir, key, i);
            && (r >= 0 ==> Shown(dir[r]) && Key(dir[r]) == key)
            && forall j :: i <= j < (if r < 0 then |dir| else r) ==> !(Shown(dir[j]) && Key(dir[j]) == key)
    decreases |dir| - i
  {
    if i < |dir| && dir[i][0] != 0 { FindFirst(dir, key, i + 1); }
  }

  lemma FoundAt(dir: seq<DirEntry>, i: nat)
    requires TailZero(dir) && UniqueKeys(dir) && i < |dir| && Shown(dir[i])
    ensures Find(dir, Key(dir[i])) == i
  {
    FindFirst(dir, Key(dir[i]), 0);
  }

  lemma FindIs(dir: seq<DirEntry>, key: seq<Byte>, r: int)
    requires TailZero(dir) && -1 <= r < |dir|
    requires r >= 0 ==> Shown(dir[r]) && Key(dir[r]) == key
    requires forall j :: 0 <= j < (if r < 0 then |dir| else r) ==> !(Shown(dir[j]) && Key(dir[j]) == key)
    ensures Find(dir, key) == r
  {
    FindFirst(dir, key, 0);
  }

  /** Filling the first free slot. */
  lemma AddKeeps(dir: seq<DirEntry>, e: DirEntry)
    requires TailZero(dir) && FreeFrom(dir, 0) >= 0 && e[0] != 0
    ensures TailZero(dir[FreeFrom(dir, 0) := e])
    ensures !Shown(dir[FreeFrom(dir, 0)])
  {}

  /** Searching after an entry has been added: its own key leads to it, if the key is new. */
  lemma FindAfterAdd(dir: seq<DirEntry>, e: DirEntry, key: seq<Byte>)
    requires TailZero(dir) && FreeFrom(dir, 0) >= 0 && e[0] != 0 && e[11] != ATTR_LFN
    ensures var i := FreeFrom(dir, 0);
            key != Key(e) || e[0] == DELETED ==> Find(dir[i := e], key) == Find(dir, key)
    ensures Find(dir, Key(e)) < 0 && e[0] != DELETED ==> Find(dir[FreeFrom(dir, 0) := e], Key(e)) == FreeFrom(dir, 0)
  {
    var i := FreeFrom(dir, 0);
    var dir' := dir[i := e];
    AddKeeps(dir, e);
    FindFirst(dir, key, 0);
    FindFirst(dir, Key(e), 0);
    if key != Key(e) || e[0] == DELETED { FindIs(dir', key, Find(dir, key)); }
    if Find(dir, Key(e)) < 0 && e[0] != DELETED { FindIs(dir', Key(e), i); }
  }

  /** Names stay unique exactly when the stored name is new or the entry looks deleted. */
  lemma AddUnique(dir: seq<DirEntry>, e: DirEntry)
    requires TailZero(dir) && UniqueKeys(dir) && FreeFrom(dir, 0) >= 0 && e[0] != 0 && e[11] != ATTR_LFN
    ensures UniqueKeys(dir[FreeFrom(dir, 0) := e]) <==> e[0] == DELETED || Find(dir, Key(e)) < 0
  {
    var i := FreeFrom(dir, 0);
    var dir' := dir[i := e];
    FindFirst(dir, Key(e), 0);
    var r := Find(dir, Key(e));
    AddKeeps(dir, e);
    if e[0] != DELETED && r >= 0 {
      assert Shown(dir'[r]) && Shown(dir'[i]) && Key(dir'[r]) == Key(dir'[i]);
    }
  }

  /** The first of two long names is not found once it has been added, so nothing keeps the
      second one out, and then two visible entries have the same name. */
  lemma LongNames(dir: seq<DirEntry>)
    requires TailZero(dir) && UniqueKeys(dir) && FreeFrom(dir, 0) >= 0
    requires Find(dir, UpperAll(LONG_B)) < 0 && Find(dir, UpperAll(LONG_C)) < 0
    requires Find(dir, Key(NewEntry(LONG_B, ATTR_ARCHIVE, 0))) < 0
    ensures var dir' := dir[FreeFrom(dir, 0) := NewEntry(LONG_B, ATTR_ARCHIVE, 0)];
            && UniqueKeys(dir') && Find(dir', UpperAll(LONG_B)) < 0 && Find(dir', UpperAll(LONG_C)) < 0
            && (FreeFrom(dir', 0) >= 0 ==>
                  !UniqueKeys(dir'[FreeFrom(dir', 0) := NewEntry(LONG_C, ATTR_ARCHIVE, 0)]))
  {
    var b, c := NewEntry(LONG_B, ATTR_ARCHIVE, 0), NewEntry(LONG_C, ATTR_ARCHIVE, 0);
    var dir' := dir[FreeFrom(dir, 0) := b];
    TruncatedAlike();
    StoredKey(LONG_B, b);
    StoredKey(LONG_C, c);
    AddUnique(dir, b);
    AddKeeps(dir, b);
    FindAfterAdd(dir, b, UpperAll(LONG_B));
    FindAfterAdd(dir, b, UpperAll(LONG_C));
    if FreeFrom(dir', 0) >= 0 { AddUnique(dir', c); }
  }

  /** A well-formed name whose first byte is the mark of deleted entries. */
  const HIDDEN: seq<Byte> := [0xE5]

  /** A file created under it is not found. */
  lemma HiddenName(dir: seq<DirEntry>)
    requires TailZero(dir) && FreeFrom(dir, 0) >= 0 && Find(dir, UpperAll(HIDDEN)) < 0
    ensures WellFormed(HIDDEN)
    ensures Find(dir[FreeFrom(dir, 0) := NewEntry(HIDDEN, ATTR_ARCHIVE, 0)], UpperAll(HIDDEN)) < 0
  {
    var e := NewEntry(HIDDEN, ATTR_ARCHIVE, 0);
    StoredKey(HIDDEN, e);
    assert ParseName(HIDDEN[..0]) == START;
    assert ParseName(HIDDEN).base == [0xE5];
    FindAfterAdd(dir, e, UpperAll(HIDDEN));
  }

  lemma DeleteKeeps(dir: seq<DirEntry>, i: nat)
    requires TailZero(dir) && i < |dir| && dir[i][0] != 0
    ensures TailZero(dir[i := dir[i][0 := DELETED]])
    ensures UniqueKeys(dir) ==> UniqueKeys(dir[i := dir[i][0 := DELETED]])
  {}

  lemma FindAfterDelete(dir: seq<DirEntry>, i: nat, key: seq<Byte>)
    requires TailZero(dir) && UniqueKeys(dir) && i < |dir| && Shown(dir[i])
    ensures Find(dir[i := dir[i][0 := DELETED]], key) == if key == Key(dir[i]) then -1 else Find(dir, key)
  {
    DeleteKeeps(dir, i);
    FindFirst(dir, key, 0);
    FoundAt(dir, i);
    FindIs(dir[i := dir[i][0 := DELETED]], key, if key == Key(dir[i]) then -1 else Find(dir, key));
  }

  lemma ResizeKeeps(dir: seq<DirEntry>, i: nat, cluster: nat, size: nat, key: seq<Byte>)
    requires TailZero(dir) && i < |dir| && cluster < 0x10000 && size < 0x1_0000_0000
    ensures var dir' := dir[i := Resized(dir[i], cluster, size)];
            TailZero(dir') && Find(dir', key) == Find(dir, key) && (UniqueKeys(dir) ==> UniqueKeys(dir'))
  {
    var e' := Resized(dir[i], cluster, size);
    var dir' := dir[i := e'];
    assert e'[..26][..11] == e'[..11] && dir[i][..26][..11] == dir[i][..11];
    assert e'[..26][0] == dir[i][..26][0] && e'[..26][11] == dir[i][..26][11];
    FindFirst(dir, key, 0);
    FindIs(dir', key, Find(dir, key));
  }

  // ---- reading ----

  function RoundUp(size: nat): (r: nat)
    ensures size <= r < size + 512
  {
    (size + 511) / 512 * 512
  }

  /** A buffer after whole sectors of `content` have been read into it. */
  function ReadInto(buffer: seq<Byte>, content: seq<Byte>, size: nat): (r: seq<Byte>)
    requires |buffer| >= RoundUp(size)
    ensures |r| == |buffer|
  {
    var m := Least(RoundUp(size), |content|);
    content[..m] + buffer[m..]
  }

  /** Data whose front has been stored reads back right, into every buffer, exactly when all
      of it has been stored. */
  lemma ReadsBack(content: seq<Byte>, data: seq<Byte>)
    requires var n := Least(|data|, |content|); content[..n] == data[..n]
    ensures |data| <= |content| <==>
              forall buffer: seq<Byte> {:trigger ReadInto(buffer, content, |data|)} :: |buffer| == RoundUp(|data|) ==>
                ReadInto(buffer, content, |data|)[..|data|] == data
  {
    if |data| > |content| {
      var buffer := UnlikeBuffer(content, data);
    } else {
      forall buffer: seq<Byte> {:trigger ReadInto(buffer, content, |data|)} | |buffer| == RoundUp(|data|)
        ensures ReadInto(buffer, content, |data|)[..|data|] == data
      {
        assert content[..|data|] == data;
      }
    }
  }

  /** A buffer whose old bytes give away what is missing. */
  lemma UnlikeBuffer(content: seq<Byte>, data: seq<Byte>) returns (buffer: seq<Byte>)
    requires |content| < |data|
    ensures |buffer| == RoundUp(|data|) && ReadInto(buffer, content, |data|)[..|data|] != data
  {
    var n := |content|;
    var other: Byte := if data[n] == 0 then 1 else 0;
    buffer := seq<Byte>(RoundUp(|data|), i => other);
    assert ReadInto(buffer, content, |data|)[..|data|][n] == other;
  }

  // ---- the files ----

  datatype Option<T> = None | Some(value: T)

  /** All bytes in the clusters of a file. */
  ghost function Content(img: Image, spc: nat, chains: map<nat, seq<nat>>, e: DirEntry): seq<Byte>
    requires Sound(img, spc, chains)
  {
    assert Head(e) in chains ==> HeadOk(img.fat, chains, Head(e));
    if Head(e) in chains then Flatten(Stored(img.data, spc, chains[Head(e)])) else []
  }

  /** The bytes of a file: its recorded size, as far as its chain reaches. */
  ghost function FileBytes(img: Image, spc: nat, chains: map<nat, seq<nat>>, e: DirEntry): seq<Byte>
    requires Sound(img, spc, chains)
  {
    var bytes := Content(img, spc, chains, e);
    bytes[..Least(Size(e), |bytes|)]
  }

  /** Reading the file fills every buffer with exactly `data`. */
  ghost predicate ReadsAs(img: Image, spc: nat, chains: map<nat, seq<nat>>, e: DirEntry, data: seq<Byte>)
    requires Sound(img, spc, chains)
  {
    && Size(e) == |data|
    && forall buffer: seq<Byte> {:trigger ReadInto(buffer, Content(img, spc, chains, e), |data|)} ::
         |buffer| == RoundUp(|data|) ==> ReadInto(buffer, Content(img, spc, chains, e), |data|)[..|data|] == data
  }

  ghost predicate Sound(img: Image, spc: nat, chains: map<nat, seq<nat>>) {
    && |img.fat| == CLUSTER_END && Room(img.data, spc)
    && ChainsOk(img.fat, chains)
  }

  /** Every visible entry owns the chain at its start cluster. */
  ghost predicate DirOk(dir: seq<DirEntry>, chains: map<nat, seq<nat>>) {
    && TailZero(dir)
    && (forall i :: 0 <= i < |dir| && Shown(dir[i]) ==> Head(dir[i]) == 0 || Head(dir[i]) in chains)
    && (forall i, j :: 0 <= i < j < |dir| && Shown(dir[i]) && Shown(dir[j]) && Head(dir[i]) != 0 ==>
          Head(dir[i]) != Head(dir[j]))
  }

  /** The number of clusters of a file. */
  ghost function ChainLen(chains: map<nat, seq<nat>>, e: DirEntry): nat {
    if Head(e) in chains then |chains[Head(e)]| else 0
  }

  /** The file system as a map from capital names to byte strings. */
  ghost function Lookup(img: Image, spc: nat, chains: map<nat, seq<nat>>, key: seq<Byte>): Option<seq<Byte>>
    requires Sound(img, spc, chains)
  {
    var i := Find(img.dir, key);
    if i < 0 then None else Some(FileBytes(img, spc, chains, img.dir[i]))
  }

  // ---- what the operations do to the files ----

  /** What fat16_write_vfs does: the buffer over the front of one chain, which grows no more
      than needed; the other chains and their contents stay. */
  ghost predicate Written(spc: nat, data0: Clusters, chains0: map<nat, seq<nat>>,
      data: Clusters, chains: map<nat, seq<nat>>, h: nat, buffer: seq<Byte>)
  {
    && Room(data0, spc) && Room(data, spc)
    && h in chains && AllClusters(chains[h]) && chains == chains0[h := chains[h]]
    && (h in chains0 ==> chains0[h] <= chains[h])
    && (|chains[h]| > (if h in chains0 then |chains0[h]| else 1) ==> Reach(spc, |chains[h]| - 1) < |buffer|)
    && Stored(data, spc, chains[h]) == OverlayAll(Stored(data0, spc, chains[h]), buffer)
    && (forall k, c :: k in chains0 && k != h && c in chains0[k] && IsCluster(c) ==> data[c] == data0[c])
  }

  /** A file whose chain was not written has the bytes it had. */
  lemma OtherFile(spc: nat, img0: Image, chains0: map<nat, seq<nat>>, img: Image, chains: map<nat, seq<nat>>,
      e: DirEntry)
    requires Sound(img0, spc, chains0) && Sound(img, spc, chains)
    requires Head(e) in chains0 <==> Head(e) in chains
    requires Head(e) in chains ==> chains[Head(e)] == chains0[Head(e)]
    requires Head(e) in chains ==> forall c :: c in chains[Head(e)] && IsCluster(c) ==> img.data[c] == img0.data[c]
    ensures FileBytes(img, spc, chains, e) == FileBytes(img0, spc, chains0, e)
  {
    if Head(e) in chains {
      assert HeadOk(img.fat, chains, Head(e)) && HeadOk(img0.fat, chains0, Head(e));
      StoredFramed(img0.data, img.data, spc, chains[Head(e)]);
    }
  }

  /** The content of a chain after a write. */
  lemma WrittenContent(spc: nat, data0: Clusters, chains0: map<nat, seq<nat>>,
      data: Clusters, chains: map<nat, seq<nat>>, h: nat, buffer: seq<Byte>)
    requires Written(spc, data0, chains0, data, chains, h, buffer)
    ensures var content, n := Flatten(Stored(data, spc, chains[h])), Reach(spc, |chains[h]|);
            |content| == n && content[..Least(|buffer|, n)] == buffer[..Least(|buffer|, n)]
  {}

  lemma NoChainAtZero(fat: Fat, chains: map<nat, seq<nat>>)
    requires ChainsOk(fat, chains)
    ensures 0 !in chains
  {
    assert 0 in chains ==> HeadOk(fat, chains, 0);
  }

  /** Rewriting the file at index i of the directory. */
  lemma LookupAfterWrite(spc: nat, img0: Image, chains0: map<nat, seq<nat>>, img: Image, chains: map<nat, seq<nat>>,
      i: nat, first: nat, buffer: seq<Byte>, key: seq<Byte>)
    requires Sound(img0, spc, chains0) && Sound(img, spc, chains) && DirOk(img0.dir, chains0)
    requires i < |img0.dir| && Shown(img0.dir[i]) && Find(img0.dir, Key(img0.dir[i])) == i
    requires Head(img0.dir[i]) == first || (Head(img0.dir[i]) == 0 && first !in chains0)
    requires first < 0x10000 && |buffer| < 0x1_0000_0000 && first != 0
    requires Written(spc, img0.data, chains0, img.data, chains, first, buffer)
    requires img.dir == img0.dir[i := Resized(img0.dir[i], first, |buffer|)]
    ensures Lookup(img, spc, chains, key) ==
              if key == Key(img0.dir[i]) then Some(buffer[..Least(|buffer|, Reach(spc, |chains[first]|))])
              else Lookup(img0, spc, chains0, key)
    ensures DirOk(img.dir, chains)
  {
    ResizeKeeps(img0.dir, i, first, |buffer|, key);
    FindFirst(img0.dir, key, 0);
    NoChainAtZero(img0.fat, chains0);
    NoChainAtZero(img.fat, chains);
    var j := Find(img0.dir, key);
    if key == Key(img0.dir[i]) {
      WrittenContent(spc, img0.data, chains0, img.data, chains, first, buffer);
    } else if j >= 0 {
      assert j != i && Head(img0.dir[j]) != first;
      OtherFile(spc, img0, chains0, img, chains, img0.dir[j]);
    }
    ResizedShown(img0.dir[i], first, |buffer|);
  }

  /** A rewritten file reads back as the data exactly when its chain has room for all of it. */
  lemma ReadsAfterWrite(spc: nat, data0: Clusters, chains0: map<nat, seq<nat>>, img: Image,
      chains: map<nat, seq<nat>>, e: DirEntry, buffer: seq<Byte>)
    requires Sound(img, spc, chains) && Written(spc, data0, chains0, img.data, chains, Head(e), buffer)
    requires Size(e) == |buffer|
    ensures ReadsAs(img, spc, chains, e, buffer) <==> |buffer| <= Reach(spc, |chains[Head(e)]|)
  {
    WrittenContent(spc, data0, chains0, img.data, chains, Head(e), buffer);
    ReadsBack(Content(img, spc, chains, e), buffer);
  }

  /** Without a cluster nothing but the empty file reads back. */
  lemma ReadsEmpty(img: Image, spc: nat, chains: map<nat, seq<nat>>, e: DirEntry, buffer: seq<Byte>)
    requires Sound(img, spc, chains) && (buffer == [] || Head(e) !in chains)
    ensures ReadsAs(img, spc, chains, e, buffer) <==> Size(e) == 0 && buffer == []
  {
    if buffer == [] {
      assert forall b: seq<Byte> :: b[..0] == [];
    } else {
      assert Content(img, spc, chains, e) == [];
      ReadsBack(Content(img, spc, chains, e), buffer);
    }
  }

  /** fat16_write_file with something written: the file has the front of the data, every
      other file is as before. */
  lemma FilesAfterWrite(spc: nat, img0: Image, chains0: map<nat, seq<nat>>, img: Image,
      chains: map<nat, seq<nat>>, i: nat, first: nat, data: seq<Byte>)
    requires Sound(img0, spc, chains0) && Sound(img, spc, chains) && DirOk(img0.dir, chains0)
    requires i < |img0.dir| && Shown(img0.dir[i]) && Find(img0.dir, Key(img0.dir[i])) == i
    requires Head(img0.dir[i]) == first || (Head(img0.dir[i]) == 0 && first !in chains0)
    requires first < 0x10000 && |data| < 0x1_0000_0000 && first != 0
    requires Written(spc, img0.data, chains0, img.data, chains, first, data)
    requires img.dir == img0.dir[i := Resized(img0.dir[i], first, |data|)]
    ensures DirOk(img.dir, chains) && Find(img.dir, Key(img0.dir[i])) == i
    ensures var room := Reach(spc, |chains[first]|);
            && Lookup(img, spc, chains, Key(img0.dir[i])) == Some(data[..Least(|data|, room)])
            && (ReadsAs(img, spc, chains, img.dir[i], data) <==> |data| <= room)
    ensures forall key :: key != Key(img0.dir[i]) ==> Lookup(img, spc, chains, key) == Lookup(img0, spc, chains0, key)
  {
    var key0 := Key(img0.dir[i]);
    ResizeKeeps(img0.dir, i, first, |data|, key0);
    ReadsAfterWrite(spc, img0.data, chains0, img, chains, img.dir[i], data);
    LookupAfterWrite(spc, img0, chains0, img, chains, i, first, data, key0);
    forall key | key != key0 ensures Lookup(img, spc, chains, key) == Lookup(img0, spc, chains0, key) {
      LookupAfterWrite(spc, img0, chains0, img, chains, i, first, data, key);
    }
  }

  /** A file that holds the data, with its size recorded, reads as the data. */
  lemma HeldReads(img: Image, spc: nat, chains: map<nat, seq<nat>>, e: DirEntry, data: seq<Byte>)
    requires Sound(img, spc, chains) && Size(e) == |data|
    ensures FileBytes(img, spc, chains, e) == data <==> ReadsAs(img, spc, chains, e, data)
  {
    var content := Content(img, spc, chains, e);
    if |data| <= |content| && content[..|data|] == data {
      ReadsBack(content, data);
    } else if |data| <= |content| {
      var buffer := Zeros(RoundUp(|data|));
      assert ReadInto(buffer, content, |data|)[..|data|] == content[..|data|];
    } else {
      var buffer := UnlikeBuffer(content, data);
    }
  }

  lemma ResizedShown(e: DirEntry, cluster: nat, size: nat)
    requires cluster < 0x10000 && size < 0x1_0000_0000
    ensures Shown(Resized(e, cluster, size)) == Shown(e)
  {}

  /** A write of nothing changes no file, though it can allocate a cluster. */
  lemma LookupAfterEmptyWrite(spc: nat, img0: Image, chains0: map<nat, seq<nat>>, img: Image,
      chains: map<nat, seq<nat>>, first: nat, key: seq<Byte>)
    requires Sound(img0, spc, chains0) && Sound(img, spc, chains) && DirOk(img0.dir, chains0)
    requires Written(spc, img0.data, chains0, img.data, chains, first, [])
    requires first in chains0 || forall i :: 0 <= i < |img0.dir| && Shown(img0.dir[i]) ==> Head(img0.dir[i]) != first
    requires img.dir == img0.dir
    ensures Lookup(img, spc, chains, key) == Lookup(img0, spc, chains0, key)
    ensures DirOk(img.dir, chains)
  {
    FindFirst(img0.dir, key, 0);
    var j := Find(img0.dir, key);
    if j >= 0 {
      var h := Head(img0.dir[j]);
      if h == first {
        assert chains[h] == chains0[h];
        assert OverlayAll(Stored(img0.data, spc, chains[h]), []) == Stored(img0.data, spc, chains[h]);
      } else {
        OtherFile(spc, img0, chains0, img, chains, img0.dir[j]);
      }
    }
  }

  /** Deleting the file at index i. */
  lemma LookupAfterDelete(spc: nat, img0: Image, chains0: map<nat, seq<nat>>, img: Image,
      chains: map<nat, seq<nat>>, i: nat, key: seq<Byte>)
    requires Sound(img0, spc, chains0) && Sound(img, spc, chains) && DirOk(img0.dir, chains0)
    requires i < |img0.dir| && Shown(img0.dir[i]) && img.data == img0.data
    requires img.dir == img0.dir[i := img0.dir[i][0 := DELETED]]
    requires chains == chains0 - {Head(img0.dir[i])}
    ensures UniqueKeys(img0.dir) ==>
              Lookup(img, spc, chains, key) ==
                if key == Key(img0.dir[i]) then None else Lookup(img0, spc, chains0, key)
    ensures DirOk(img.dir, chains) && (UniqueKeys(img0.dir) ==> UniqueKeys(img.dir))
  {
    DeleteKeeps(img0.dir, i);
    NoChainAtZero(img0.fat, chains0);
    if UniqueKeys(img0.dir) {
      FindAfterDelete(img0.dir, i, key);
      FindFirst(img0.dir, key, 0);
      var j := Find(img0.dir, key);
      if j >= 0 && key != Key(img0.dir[i]) {
        OtherFile(spc, img0, chains0, img, chains, img0.dir[j]);
      }
    }
  }

  /** Adding an empty file. */
  lemma LookupAfterAdd(spc: nat, img0: Image, chains: map<nat, seq<nat>>, img: Image, e: DirEntry, key: seq<Byte>)
    requires Sound(img0, spc, chains) && Sound(img, spc, chains) && DirOk(img0.dir, chains)
    requires FreeFrom(img0.dir, 0) >= 0 && e[0] != 0 && e[11] != ATTR_LFN && Head(e) == 0
    requires img.dir == img0.dir[FreeFrom(img0.dir, 0) := e] && img.data == img0.data
    ensures key != Key(e) || e[0] == DELETED ==> Lookup(img, spc, chains, key) == Lookup(img0, spc, chains, key)
    ensures Find(img0.dir, Key(e)) < 0 && e[0] != DELETED ==> Lookup(img, spc, chains, Key(e)) == Some([])
    ensures DirOk(img.dir, chains)
  {
    FindAfterAdd(img0.dir, e, key);
    AddKeeps(img0.dir, e);
    NoChainAtZero(img0.fat, chains);
    FindFirst(img0.dir, key, 0);
    FindFirst(img0.dir, Key(e), 0);
    var j := Find(img0.dir, key);
    if j >= 0 { OtherFile(spc, img0, chains, img, chains, img0.dir[j]); }
  }
}
