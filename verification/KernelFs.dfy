/** The inode file system in RAM: blocks, inodes, one-block directories (src/kernel/kernel_fs.cpp). */
module KernelFs {
  import opened Collections
  import opened Bytes

  const MAX_BLOCKS: nat := 4096
  const MAX_INODES: nat := 4096
  const BLOCK_SIZE: nat := 4096
  const DIRECT_BLOCKS: nat := 12

  type Block = s: seq<Byte> | |s| == BLOCK_SIZE witness seq<Byte>(BLOCK_SIZE, i => 0)

  datatype Inode = Inode(used: bool, isDir: bool, size: nat, blocks: seq<nat>, blockCount: nat, parent: nat)

  const UNUSED: Inode := Inode(false, false, 0, seq(DIRECT_BLOCKS, i => 0), 0, 0)

  // ---- specification ----

  /** The population count of the block bitmap. */
  function Pop(bitmap: seq<bool>): (n: nat)
    ensures n <= |bitmap|
  {
    if bitmap == [] then 0 else Pop(bitmap[..|bitmap| - 1]) + if bitmap[|bitmap| - 1] then 1 else 0
  }

  lemma {:induction false} PopSet(bitmap: seq<bool>, b: nat)
    requires b < |bitmap| && !bitmap[b]
    ensures Pop(bitmap[b := true]) == Pop(bitmap) + 1
  {
    var n := |bitmap| - 1;
    if b < n {
      PopSet(bitmap[..n], b);
      assert bitmap[b := true][..n] == bitmap[..n][b := true];
    } else {
      assert bitmap[b := true][..n] == bitmap[..n];
    }
  }

  lemma {:induction false} PopFull(bitmap: seq<bool>)
    ensures Pop(bitmap) == |bitmap| <==> forall b :: 0 <= b < |bitmap| ==> bitmap[b]
  {
    if bitmap != [] {
      var n := |bitmap| - 1;
      PopFull(bitmap[..n]);
      assert forall b :: 0 <= b < n ==> bitmap[..n][b] == bitmap[b];
    }
  }

  lemma {:induction false} PopNone(bitmap: seq<bool>)
    requires forall b :: 0 <= b < |bitmap| ==> !bitmap[b]
    ensures Pop(bitmap) == 0
  {
    if bitmap != [] { PopNone(bitmap[..|bitmap| - 1]); }
  }

  ghost predicate NodeOk(node: Inode) {
    |node.blocks| == DIRECT_BLOCKS && node.blockCount <= DIRECT_BLOCKS
  }

  /** Every block a live inode refers to is marked used and belongs to that place alone. */
  ghost predicate Owned(bitmap: seq<bool>, inodes: seq<Inode>, owner: map<nat, (nat, nat)>)
    requires |bitmap| == MAX_BLOCKS
  {
    && (forall i :: 0 <= i < |inodes| ==> NodeOk(inodes[i]))
    && (forall i, k {:trigger inodes[i].blocks[k]} :: 0 <= i < |inodes| && 0 <= k < inodes[i].blockCount ==>
          var b := inodes[i].blocks[k];
          b < MAX_BLOCKS && bitmap[b] && b in owner && owner[b] == (i, k))
  }

  /** No file is longer than its blocks. */
  ghost predicate FilesFit(inodes: seq<Inode>) {
    forall i :: 0 <= i < |inodes| && !inodes[i].isDir ==> inodes[i].size <= BLOCK_SIZE * inodes[i].blockCount
  }

  /** Live (inode, index) pairs map injectively to used blocks. */
  lemma Injective(bitmap: seq<bool>, inodes: seq<Inode>, owner: map<nat, (nat, nat)>, i: nat, k: nat, j: nat, l: nat)
    requires |bitmap| == MAX_BLOCKS && Owned(bitmap, inodes, owner)
    requires i < |inodes| && j < |inodes| && k < inodes[i].blockCount && l < inodes[j].blockCount
    ensures inodes[i].blocks[k] == inodes[j].blocks[l] <==> i == j && k == l
    ensures inodes[i].blocks[k] < MAX_BLOCKS && bitmap[inodes[i].blocks[k]]
  {}

  ghost predicate Reachable(node: Inode, disk: seq<Block>) {
    && NodeOk(node) && |disk| == MAX_BLOCKS
    && forall k :: 0 <= k < node.blockCount ==> node.blocks[k] < MAX_BLOCKS
  }

  /** All bytes in the blocks of an inode. */
  ghost function Raw(node: Inode, disk: seq<Block>): (r: seq<Byte>)
    requires Reachable(node, disk)
    ensures |r| == BLOCK_SIZE * node.blockCount
  {
    Joined(node.blocks, node.blockCount, disk)
  }

  ghost function Joined(blocks: seq<nat>, n: nat, disk: seq<Block>): (r: seq<Byte>)
    requires n <= |blocks| && forall k :: 0 <= k < n ==> blocks[k] < |disk|
    ensures |r| == BLOCK_SIZE * n
  {
    if n == 0 then [] else Joined(blocks, n - 1, disk) + disk[blocks[n - 1]]
  }

  lemma {:induction false} JoinedAt(blocks: seq<nat>, n: nat, disk: seq<Block>, k: nat)
    requires k < n <= |blocks| && forall k :: 0 <= k < n ==> blocks[k] < |disk|
    ensures Joined(blocks, n, disk)[BLOCK_SIZE * k..BLOCK_SIZE * (k + 1)] == disk[blocks[k]]
    decreases n
  {
    if k < n - 1 {
      JoinedAt(blocks, n - 1, disk, k);
      var front := Joined(blocks, n - 1, disk);
      assert (front + disk[blocks[n - 1]])[..|front|] == front;
    }
  }

  lemma {:induction false} JoinedFramed(blocks: seq<nat>, n: nat, disk: seq<Block>, disk': seq<Block>)
    requires n <= |blocks| && |disk| == |disk'| && forall k :: 0 <= k < n ==> blocks[k] < |disk|
    requires forall k :: 0 <= k < n ==> disk'[blocks[k]] == disk[blocks[k]]
    ensures Joined(blocks, n, disk') == Joined(blocks, n, disk)
  {
    if n > 0 { JoinedFramed(blocks, n - 1, disk, disk'); }
  }

  /** The content of a file: its size, as far as its blocks reach. */
  ghost function Contents(node: Inode, disk: seq<Block>): (r: seq<Byte>)
    requires Reachable(node, disk)
    ensures node.size <= BLOCK_SIZE * node.blockCount ==> |r| == node.size
  {
    Raw(node, disk)[..Least(node.size, BLOCK_SIZE * node.blockCount)]
  }

  lemma RawFramed(node: Inode, disk: seq<Block>, disk': seq<Block>)
    requires Reachable(node, disk) && Reachable(node, disk')
    requires forall k :: 0 <= k < node.blockCount ==> disk'[node.blocks[k]] == disk[node.blocks[k]]
    ensures Raw(node, disk') == Raw(node, disk) && Contents(node, disk') == Contents(node, disk)
  {
    JoinedFramed(node.blocks, node.blockCount, disk, disk');
  }

  /** `raw` is the blocks of the inode, one after the other. */
  ghost predicate Spans(node: Inode, disk: seq<Block>, raw: seq<Byte>) {
    && Reachable(node, disk) && |raw| == BLOCK_SIZE * node.blockCount
    && forall k {:trigger node.blocks[k]} :: 0 <= k < node.blockCount ==>
         raw[BLOCK_SIZE * k..BLOCK_SIZE * (k + 1)] == disk[node.blocks[k]]
  }

  lemma RawSpans(node: Inode, disk: seq<Block>)
    requires Reachable(node, disk)
    ensures Spans(node, disk, Raw(node, disk))
  {
    forall k | 0 <= k < node.blockCount
      ensures Raw(node, disk)[BLOCK_SIZE * k..BLOCK_SIZE * (k + 1)] == disk[node.blocks[k]]
    {
      JoinedAt(node.blocks, node.blockCount, disk, k);
    }
  }

  lemma SpanSlice(node: Inode, disk: seq<Block>, raw: seq<Byte>, pos: nat, n: nat)
    requires Spans(node, disk, raw) && pos % BLOCK_SIZE + n <= BLOCK_SIZE && pos / BLOCK_SIZE < node.blockCount
    ensures pos + n <= |raw|
    ensures raw[pos..pos + n] == disk[node.blocks[pos / BLOCK_SIZE]][pos % BLOCK_SIZE..pos % BLOCK_SIZE + n]
  {
    var k, off := pos / BLOCK_SIZE, pos % BLOCK_SIZE;
    assert raw[BLOCK_SIZE * k..BLOCK_SIZE * (k + 1)] == disk[node.blocks[k]];
    SliceSlice(raw, BLOCK_SIZE * k, BLOCK_SIZE * (k + 1), off, off + n);
    assert pos == BLOCK_SIZE * k + off;
  }

  /** The k-th block of a file that holds `data`, padded with zeros. */
  function Chunk(data: seq<Byte>, k: nat): Block
    requires BLOCK_SIZE * k <= |data|
  {
    if BLOCK_SIZE * (k + 1) <= |data| then data[BLOCK_SIZE * k..BLOCK_SIZE * (k + 1)]
    else data[BLOCK_SIZE * k..] + Zeros(BLOCK_SIZE * (k + 1) - |data|)
  }

  lemma ChunkAppend(data: seq<Byte>, at: nat, k: nat)
    requires at == BLOCK_SIZE * k <= |data|
    ensures var m := Least(at + BLOCK_SIZE, |data|); (data[..at] + Chunk(data, k))[..m] == data[..m]
  {}

  lemma {:induction false} ChunksJoined(blocks: seq<nat>, n: nat, disk: seq<Block>, data: seq<Byte>)
    requires n <= |blocks| && forall k :: 0 <= k < n ==> blocks[k] < |disk|
    requires forall k :: 0 <= k < n ==> BLOCK_SIZE * k <= |data| && disk[blocks[k]] == Chunk(data, k)
    ensures var m := Least(BLOCK_SIZE * n, |data|); Joined(blocks, n, disk)[..m] == data[..m]
  {
    if n > 0 {
      ChunksJoined(blocks, n - 1, disk, data);
      var at, front := BLOCK_SIZE * (n - 1), Joined(blocks, n - 1, disk);
      assert disk[blocks[n - 1]] == Chunk(data, n - 1);
      assert front == front[..at] == data[..at];
      ChunkAppend(data, at, n - 1);
    }
  }

  lemma ChunksHold(node: Inode, disk: seq<Block>, data: seq<Byte>)
    requires Reachable(node, disk) && node.size <= BLOCK_SIZE * node.blockCount && node.size <= |data|
    requires forall k :: 0 <= k < node.blockCount ==>
               BLOCK_SIZE * k <= |data| && disk[node.blocks[k]] == Chunk(data, k)
    ensures Contents(node, disk) == data[..node.size]
  {
    ChunksJoined(node.blocks, node.blockCount, disk, data);
    var m := Least(BLOCK_SIZE * node.blockCount, |data|);
    assert Raw(node, disk)[..m][..node.size] == Raw(node, disk)[..node.size];
    assert data[..m][..node.size] == data[..node.size];
  }

  // ---- reading a range ----

  /** The number of bytes fs_read_internal is asked to copy: `offset + len` is a 32-bit sum. */
  function Wanted(size: nat, len: nat, offset: nat): nat
    requires offset < size
  {
    if (offset + len) % WORD > size then size - offset else len
  }

  /** The number of bytes it copies: it stops at the last block, not at the size. */
  function ReadCount(node: Inode, len: nat, offset: nat): nat {
    if offset >= node.size then 0
    else if offset >= BLOCK_SIZE * node.blockCount then 0
    else Least(Wanted(node.size, len, offset), BLOCK_SIZE * node.blockCount - offset)
  }

  /** The range a reader expects. */
  function Slice(s: seq<Byte>, len: nat, offset: nat): seq<Byte> {
    if offset >= |s| then [] else s[offset..offset + Least(len, |s| - offset)]
  }

  /** A ranged read returns the matching slice exactly when the range does not wrap around
      2^32, or the wrapped end still lies behind the file, or the file fills its last block. */
  lemma ReadsSlice(node: Inode, disk: seq<Block>, len: nat, offset: nat)
    requires Reachable(node, disk) && node.size <= BLOCK_SIZE * node.blockCount
    requires len < WORD && offset < WORD
    ensures var n := ReadCount(node, len, offset);
            offset + n <= |Raw(node, disk)| || n == 0
    ensures var n := ReadCount(node, len, offset);
            (if n == 0 then [] else Raw(node, disk)[offset..offset + n]) == Slice(Contents(node, disk), len, offset)
            <==>
            (offset >= node.size || offset + len < WORD || offset + len - WORD > node.size
             || node.size == BLOCK_SIZE * node.blockCount)
  {}

  /** A read that wraps: from offset 1 of a file of 10 bytes with the largest length, 4095 bytes
      are copied, where the file has 9 left. */
  lemma WrappedRead(node: Inode, disk: seq<Block>)
    requires Reachable(node, disk) && node.size == 10 && node.blockCount == 1
    ensures ReadCount(node, WORD - 1, 1) == BLOCK_SIZE - 1
    ensures |Slice(Contents(node, disk), WORD - 1, 1)| == 9
  {}

  // ---- directories: 31 entries of 132 bytes in the first block ----

  const MAX_FILENAME: nat := 128
  const ENTRY_SIZE: nat := 132
  const MAX_ENTRIES: nat := 31

  function EntryInode(b: Block, i: nat): nat
    requires i < MAX_ENTRIES
  {
    Get32(b, i * ENTRY_SIZE)
  }

  function EntryName(b: Block, i: nat): seq<Byte>
    requires i < MAX_ENTRIES
  {
    Cut(b[i * ENTRY_SIZE + 4..i * ENTRY_SIZE + ENTRY_SIZE])
  }

  /** Entry i is 132 bytes long: the inode number, low byte first, then the name up to a NUL. */
  lemma EntryLayout(b: Block, i: nat)
    requires i < 31
    ensures EntryInode(b, i) == LittleEndian(b[132 * i..132 * i + 4])
    ensures EntryName(b, i) <= b[132 * i + 4..132 * i + 132] && 0 !in EntryName(b, i)
    ensures var n := |EntryName(b, i)|; n < 128 ==> b[132 * i + 4 + n] == 0
  {
    LittleEndian4(b[132 * i..132 * i + 4]);
    CutStops(b[132 * i + 4..132 * i + 132]);
  }

  /** strncpy with 127 bytes, and a final NUL. */
  function NameField(name: seq<Byte>): (r: seq<Byte>)
    ensures |r| == MAX_FILENAME
  {
    var n := Least(MAX_FILENAME - 1, |name|);
    name[..n] + Zeros(MAX_FILENAME - n)
  }

  lemma {:induction false} CutZeros(s: seq<Byte>, n: nat)
    requires CString(s) && n >= 1
    ensures Cut(s + Zeros(n)) == s
  {
    var r := s + Zeros(n);
    if s != [] {
      assert r[1..] == s[1..] + Zeros(n);
      CutZeros(s[1..], n);
    }
  }

  /** A name is kept up to 127 bytes. */
  lemma NameKept(name: seq<Byte>)
    requires CString(name)
    ensures Cut(NameField(name)) == name[..Least(MAX_FILENAME - 1, |name|)]
  {
    var n := Least(MAX_FILENAME - 1, |name|);
    CutZeros(name[..n], MAX_FILENAME - n);
  }

  /** The inode of the first entry with the name, or -1. */
  function SearchFrom(b: Block, name: seq<Byte>, i: nat): int
    requires i <= MAX_ENTRIES
    decreases MAX_ENTRIES - i
  {
    if i == MAX_ENTRIES then -1
    else if EntryInode(b, i) != 0 && EntryName(b, i) == name then EntryInode(b, i)
    else SearchFrom(b, name, i + 1)
  }

  function EmptyFrom(b: Block, i: nat): (r: nat)
    requires i <= MAX_ENTRIES
    ensures i <= r <= MAX_ENTRIES
    ensures r < MAX_ENTRIES ==> EntryInode(b, r) == 0
    ensures forall k :: i <= k < r ==> EntryInode(b, k) != 0
    decreases MAX_ENTRIES - i
  {
    if i == MAX_ENTRIES || EntryInode(b, i) == 0 then i else EmptyFrom(b, i + 1)
  }

  function WithEntry(b: Block, i: nat, inode: nat, name: seq<Byte>): (r: Block)
    requires i < MAX_ENTRIES && inode < WORD
  {
    Splice(b, i * ENTRY_SIZE, Le32(inode) + NameField(name))
  }

  lemma WithEntryReads(b: Block, i: nat, inode: nat, name: seq<Byte>, k: nat)
    requires i < MAX_ENTRIES && inode < WORD && CString(name) && k < MAX_ENTRIES
    ensures var r := WithEntry(b, i, inode, name);
            && EntryInode(r, k) == (if k == i then inode else EntryInode(b, k))
            && EntryName(r, k) == if k == i then name[..Least(MAX_FILENAME - 1, |name|)] else EntryName(b, k)
  {
    var r, x := WithEntry(b, i, inode, name), Le32(inode) + NameField(name);
    if k == i {
      var at := i * ENTRY_SIZE;
      assert r[at] == x[0] && r[at + 1] == x[1] && r[at + 2] == x[2] && r[at + 3] == x[3] by {
        assert r[at..at + |x|] == x;
      }
      assert r[at + 4..at + ENTRY_SIZE] == r[at..at + |x|][4..] == NameField(name);
      NameKept(name);
    } else {
      assert r[k * ENTRY_SIZE + 4..k * ENTRY_SIZE + ENTRY_SIZE] == b[k * ENTRY_SIZE + 4..k * ENTRY_SIZE + ENTRY_SIZE];
    }
  }

  /** Is there an entry with this name before slot e? */
  predicate NamedBefore(b: Block, q: seq<Byte>, i: nat, e: nat)
    requires i <= e <= MAX_ENTRIES
  {
    exists k :: i <= k < e && EntryName(b, k) == q
  }

  /** `b'` is `b` with another entry in its first empty slot, `e`. */
  ghost predicate OneEntry(b: Block, b': Block, e: nat)
    requires e < MAX_ENTRIES
  {
    && EntryInode(b, e) == 0 && EntryInode(b', e) != 0 && (forall k :: 0 <= k < e ==> EntryInode(b, k) != 0)
    && forall k :: 0 <= k < MAX_ENTRIES && k != e ==>
         EntryInode(b', k) == EntryInode(b, k) && EntryName(b', k) == EntryName(b, k)
  }

  /** Another name, or a name that an earlier entry has, is looked up as before. */
  lemma {:induction false} SearchOther(b: Block, b': Block, e: nat, q: seq<Byte>, i: nat)
    requires e < MAX_ENTRIES && OneEntry(b, b', e) && i <= MAX_ENTRIES
    requires q != EntryName(b', e) || (i <= e && NamedBefore(b, q, i, e))
    ensures SearchFrom(b', q, i) == SearchFrom(b, q, i)
    decreases MAX_ENTRIES - i
  {
    if i < MAX_ENTRIES && !(EntryInode(b, i) != 0 && EntryName(b, i) == q) { SearchOther(b, b', e, q, i + 1); }
  }

  /** A new name leads to the new inode. */
  lemma {:induction false} SearchNew(b: Block, b': Block, e: nat, i: nat)
    requires i <= e < MAX_ENTRIES && OneEntry(b, b', e) && !NamedBefore(b, EntryName(b', e), i, e)
    ensures SearchFrom(b', EntryName(b', e), i) == EntryInode(b', e)
    decreases MAX_ENTRIES - i
  {
    if i < e { SearchNew(b, b', e, i + 1); }
  }

  lemma SearchAfterAdd(b: Block, inode: nat, name: seq<Byte>, q: seq<Byte>)
    requires CString(name) && 0 < inode < WORD && EmptyFrom(b, 0) < MAX_ENTRIES
    ensures SearchFrom(WithEntry(b, EmptyFrom(b, 0), inode, name), q, 0) ==
              if q == name[..Least(MAX_FILENAME - 1, |name|)] && !NamedBefore(b, q, 0, EmptyFrom(b, 0)) then inode
              else SearchFrom(b, q, 0)
  {
    var e := EmptyFrom(b, 0);
    var b' := WithEntry(b, e, inode, name);
    forall k | 0 <= k < MAX_ENTRIES
      ensures EntryInode(b', k) == (if k == e then inode else EntryInode(b, k))
      ensures EntryName(b', k) == if k == e then name[..Least(MAX_FILENAME - 1, |name|)] else EntryName(b, k)
    {
      WithEntryReads(b, e, inode, name, k);
    }
    if q == EntryName(b', e) && !NamedBefore(b, q, 0, e) {
      SearchNew(b, b', e, 0);
    } else {
      SearchOther(b, b', e, q, 0);
    }
  }

  lemma {:induction false} SearchZeros(q: seq<Byte>, i: nat)
    requires i <= MAX_ENTRIES
    ensures SearchFrom(EmptyBlock(), q, i) == -1
    decreases MAX_ENTRIES - i
  {
    if i < MAX_ENTRIES {
      assert EntryInode(EmptyBlock(), i) == 0;
      SearchZeros(q, i + 1);
    }
  }

  // ---- the file system ----

  class FileSystem {
    const bitmap: array<bool>
    const disk: array<Block>
    const inodes: array<Inode>
    var usedBlocks: nat
    var usedInodes: nat
    /** The (inode, index) that each allocated block was handed to. */
    ghost var owner: map<nat, (nat, nat)>

    ghost predicate Valid()
      reads this, bitmap, disk, inodes
    {
      && bitmap.Length == MAX_BLOCKS && disk.Length == MAX_BLOCKS && inodes.Length == MAX_INODES
      && usedBlocks == Pop(bitmap[..])
      && Owned(bitmap[..], inodes[..], owner)
      && inodes[0].used && FilesFit(inodes[..])
    }

    ghost function FreeBlocks(): nat
      requires Valid()
      reads this, bitmap, disk, inodes
    {
      MAX_BLOCKS - usedBlocks
    }

    /** The content of inode i. */
    ghost function File(i: nat): (r: seq<Byte>)
      requires Valid() && i < MAX_INODES
      reads this, bitmap, disk, inodes
    {
      NodeReachable(i);
      Contents(inodes[i], disk[..])
    }

    lemma NodeReachable(i: nat)
      requires Valid() && i < MAX_INODES
      ensures Reachable(inodes[i], disk[..])
      ensures forall k :: 0 <= k < inodes[i].blockCount ==> bitmap[inodes[i].blocks[k]]
    {}

    /** kernel_fs_init up to its root directory, inode 0. */
    constructor ()
      ensures Valid() && fresh(bitmap) && fresh(disk) && fresh(inodes)
      ensures usedBlocks == 0 && inodes[0].isDir && forall i :: 1 <= i < MAX_INODES ==> !inodes[i].used
    {
      bitmap := new bool[MAX_BLOCKS](i => false);
      disk := new Block[MAX_BLOCKS](i => EmptyBlock());
      inodes := new Inode[MAX_INODES](i => UNUSED);
      usedBlocks, usedInodes, owner := 0, 0, map[];
      new;
      inodes[0] := UNUSED.(used := true, isDir := true);
      usedInodes := 1;
      PopNone(bitmap[..]);
    }

    /** alloc_block: the first free block, zeroed; -1 if there is none. */
    method AllocBlock() returns (b: int)
      requires Valid()
      modifies `usedBlocks, bitmap, disk
      ensures b == -1 <==> old(FreeBlocks()) == 0
      ensures b == -1 ==> bitmap[..] == old(bitmap[..]) && disk[..] == old(disk[..]) && usedBlocks == old(usedBlocks)
      ensures b != -1 ==>
                && 0 <= b < MAX_BLOCKS && !old(bitmap[..])[b] && bitmap[..] == old(bitmap[..])[b := true]
                && (forall k :: 0 <= k < b ==> old(bitmap[..])[k])
                && disk[..] == old(disk[..])[b := EmptyBlock()] && usedBlocks == old(usedBlocks) + 1
      ensures Valid()
    {
      b := 0;
      while b < MAX_BLOCKS
        invariant 0 <= b <= MAX_BLOCKS
        invariant forall k :: 0 <= k < b ==> bitmap[k]
      {
        if !bitmap[b] {
          PopFull(bitmap[..]);
          PopSet(bitmap[..], b);
          bitmap[b] := true;
          usedBlocks := usedBlocks + 1;
          disk[b] := EmptyBlock();
          return;
        }
        b := b + 1;
      }
      PopFull(bitmap[..]);
      b := -1;
    }

    /** The next block of inode i, holding `data` padded with zeros. */
    method AppendBlock(i: nat, data: seq<Byte>) returns (ok: bool)
      requires Valid() && i < MAX_INODES && inodes[i].blockCount < DIRECT_BLOCKS && |data| <= BLOCK_SIZE
      modifies `usedBlocks, `owner, bitmap, disk, inodes
      ensures Valid()
      ensures ok <==> old(FreeBlocks()) > 0
      ensures !ok ==> inodes[..] == old(inodes[..]) && disk[..] == old(disk[..]) && bitmap[..] == old(bitmap[..])
      ensures usedBlocks == old(usedBlocks) + if ok then 1 else 0
      ensures ok ==>
                var b, node := inodes[i].blocks[old(inodes[i].blockCount)], old(inodes[i]);
                && b < MAX_BLOCKS && !old(bitmap[..])[b] && bitmap[..] == old(bitmap[..])[b := true]
                && (forall k :: 0 <= k < b ==> old(bitmap[..])[k])
                && disk[..] == old(disk[..])[b := Splice(EmptyBlock(), 0, data)]
                && inodes[..] == old(inodes[..])[i := Appended(node, b)]
    {
      var b := AllocBlock();
      if b < 0 { return false; }
      var node := inodes[i];
      AppendOwned(old(bitmap[..]), inodes[..], owner, i, b);
      inodes[i] := Appended(node, b);
      disk[b] := Splice(disk[b], 0, data);
      owner := owner[b := (i, node.blockCount)];
      ok := true;
    }

    /** One round of the write loop; false if there is no free block. */
    method StoreBlock(i: nat, buffer: seq<Byte>, start: nat, ghost node0: Inode, ghost bitmap0: seq<bool>,
        ghost disk0: seq<Block>)
      returns (ok: bool, written: nat)
      requires Valid() && i < MAX_INODES && inodes[i].blockCount < DIRECT_BLOCKS
      requires Storing(node0, bitmap0, disk0, inodes[i], bitmap[..], disk[..], buffer)
      requires start == BLOCK_SIZE * inodes[i].blockCount < |buffer|
      modifies `usedBlocks, `owner, bitmap, disk, inodes
      ensures Valid() && inodes[..] == old(inodes[..])[i := inodes[i]]
      ensures Storing(node0, bitmap0, disk0, inodes[i], bitmap[..], disk[..], buffer)
      ensures ok <==> old(FreeBlocks()) > 0
      ensures inodes[i].blockCount == old(inodes[i].blockCount) + if ok then 1 else 0
      ensures usedBlocks == old(usedBlocks) + if ok then 1 else 0
      ensures written == Least(|buffer|, BLOCK_SIZE * inodes[i].blockCount)
    {
      var toCopy := if |buffer| - start > BLOCK_SIZE then BLOCK_SIZE else |buffer| - start;
      ghost var node, bm, d := inodes[i], bitmap[..], disk[..];
      ok := AppendBlock(i, buffer[start..start + toCopy]);
      if !ok { return ok, start; }
      written := start + toCopy;
      StoreStep(node0, bitmap0, disk0, node, bm, d, buffer, inodes[i].blocks[node.blockCount], written,
                inodes[i], bitmap[..], disk[..]);
    }

    /** The block loop of fs_write_internal. */
    method StoreBlocks(i: nat, buffer: seq<Byte>) returns (written: nat)
      requires Valid() && i < MAX_INODES && inodes[i].blockCount == 0
      modifies `usedBlocks, `owner, bitmap, disk, inodes
      ensures Valid() && inodes[..] == old(inodes[..])[i := inodes[i]]
      ensures written == Least(|buffer|, BLOCK_SIZE * Least(DIRECT_BLOCKS, old(FreeBlocks())))
      ensures written == Least(|buffer|, BLOCK_SIZE * inodes[i].blockCount)
      ensures usedBlocks == old(usedBlocks) + inodes[i].blockCount
      ensures Storing(old(inodes[i]), old(bitmap[..]), old(disk[..]), inodes[i], bitmap[..], disk[..], buffer)
    {
      written := 0;
      ghost var disk0, nodes0, bitmap0 := disk[..], inodes[..], bitmap[..];
      while written < |buffer| && inodes[i].blockCount < DIRECT_BLOCKS
        invariant Valid()
        invariant written == Least(|buffer|, BLOCK_SIZE * inodes[i].blockCount)
        invariant usedBlocks == old(usedBlocks) + inodes[i].blockCount
        invariant inodes[..] == nodes0[i := inodes[i]]
        invariant Storing(nodes0[i], bitmap0, disk0, inodes[i], bitmap[..], disk[..], buffer)
        decreases |buffer| - written
      {
        var ok;
        ok, written := StoreBlock(i, buffer, written, nodes0[i], bitmap0, disk0);
        if !ok { break; }
      }
    }

    /** fs_write_internal: write a file from the start into fresh blocks, as far as 12 blocks
        and the free ones go. Its old blocks are forgotten but stay marked used. */
    method WriteInternal(i: nat, buffer: seq<Byte>) returns (written: nat)
      requires Valid() && i < MAX_INODES
      modifies `usedBlocks, `owner, bitmap, disk, inodes
      ensures Valid()
      ensures written == Least(|buffer|, BLOCK_SIZE * Least(DIRECT_BLOCKS, old(FreeBlocks())))
      ensures File(i) == buffer[..written] && inodes[i].size == written
      ensures written <= BLOCK_SIZE * inodes[i].blockCount < written + BLOCK_SIZE
      ensures usedBlocks == old(usedBlocks) + inodes[i].blockCount
      ensures inodes[i].isDir == old(inodes[i]).isDir && inodes[i].used == old(inodes[i]).used
      ensures forall j :: 0 <= j < MAX_INODES && j != i ==> inodes[j] == old(inodes[j]) && File(j) == old(File(j))
    {
      ghost var disk0, nodes0, bitmap0 := disk[..], inodes[..], bitmap[..];
      ghost var owner0 := owner;
      ResizeOwned(bitmap[..], inodes[..], owner, i, 0, 0);
      inodes[i] := inodes[i].(blockCount := 0, size := 0);
      assert inodes[..] == nodes0[i := nodes0[i].(blockCount := 0, size := 0)];
      written := StoreBlocks(i, buffer);
      ghost var node := inodes[i];
      ResizeOwned(bitmap[..], inodes[..], owner, i, node.blockCount, written);
      inodes[i] := inodes[i].(size := written);
      assert inodes[..] == nodes0[i := node.(size := written)];
      ChunksHold(inodes[i], disk[..], buffer);
      forall j | 0 <= j < MAX_INODES && j != i ensures Contents(inodes[j], disk[..]) == Contents(nodes0[j], disk0) {
        FileKept(nodes0, bitmap0, disk0, owner0, bitmap[..], disk[..], j);
      }
    }

    /** One round of the read loop: as much as is wanted of the current block. */
    method ReadPart(node: Inode, ghost raw: seq<Byte>, buffer: array<Byte>, n: nat, currentPos: nat, read: nat)
      returns (toRead: nat)
      requires disk.Length == MAX_BLOCKS && Spans(node, disk[..], raw) && read < n
      requires currentPos < |raw| ==> Least(n, read + |raw| - currentPos) <= buffer.Length
      modifies buffer
      ensures currentPos < |raw| <==> toRead > 0
      ensures read + toRead <= n && (toRead > 0 ==> currentPos + toRead <= |raw| && read + toRead <= buffer.Length)
      ensures toRead > 0 ==> buffer[..] == Splice(old(buffer[..]), read, raw[currentPos..currentPos + toRead])
      ensures toRead == 0 ==> buffer[..] == old(buffer[..])
    {
      var blockIdx, blockOffset := currentPos / BLOCK_SIZE, currentPos % BLOCK_SIZE;
      if blockIdx >= node.blockCount { return 0; }
      var validInBlock := BLOCK_SIZE - blockOffset;
      toRead := if n - read < validInBlock then n - read else validInBlock;
      SpanSlice(node, disk[..], raw, currentPos, toRead);
      CopyTo(buffer, read, disk[node.blocks[blockIdx]][blockOffset..blockOffset + toRead]);
    }

    /** The loop of fs_read_internal. */
    method ReadBlocks(node: Inode, ghost raw: seq<Byte>, buffer: array<Byte>, n: nat, offset: nat) returns (read: nat)
      requires disk.Length == MAX_BLOCKS && Spans(node, disk[..], raw)
      requires offset < |raw| ==> Least(n, |raw| - offset) <= buffer.Length
      modifies buffer
      ensures read == if offset < |raw| then Least(n, |raw| - offset) else 0
      ensures Copied(raw, offset, old(buffer[..]), buffer[..], read)
    {
      ghost var d, buf0 := disk[..], buffer[..];
      read := 0;
      while read < n
        invariant read <= n && disk[..] == d && Copied(raw, offset, buf0, buffer[..], read)
        decreases n - read
      {
        ghost var before := buffer[..];
        var toRead := ReadPart(node, raw, buffer, n, offset + read, read);
        if toRead == 0 { break; }
        CopyOn(raw, offset, buf0, before, read, toRead, buffer[..]);
        read := read + toRead;
      }
    }

    /** fs_read_internal: copy bytes of the blocks from `offset` on; returns how many. The
        buffer has to hold what is copied, which can be more than the file has. */
    method ReadInternal(i: nat, buffer: array<Byte>, len: nat, offset: nat) returns (read: nat)
      requires Valid() && i < MAX_INODES && len < WORD && offset < WORD
      requires ReadCount(inodes[i], len, offset) <= buffer.Length
      modifies buffer
      ensures read == ReadCount(inodes[i], len, offset) && Reachable(inodes[i], disk[..])
      ensures Copied(Raw(inodes[i], disk[..]), offset, old(buffer[..]), buffer[..], read)
    {
      NodeReachable(i);
      var node := inodes[i];
      if offset >= node.size { return 0; }
      var n := len;
      if (offset + len) % WORD > node.size { n := node.size - offset; }
      RawSpans(node, disk[..]);
      read := ReadBlocks(node, Raw(node, disk[..]), buffer, n, offset);
    }

    /** The entries of a directory; one without a block has none. */
    ghost function DirBlock(d: nat): Block
      requires Valid() && d < MAX_INODES
      reads this, bitmap, disk, inodes
    {
      NodeReachable(d);
      if inodes[d].blockCount == 0 then EmptyBlock() else disk[inodes[d].blocks[0]]
    }

    /** Give an inode without blocks its first one; false if the disk is full. */
    method FirstBlock(d: nat) returns (ok: bool)
      requires Valid() && d < MAX_INODES
      modifies `usedBlocks, `owner, bitmap, disk, inodes
      ensures Valid() && inodes[..] == old(inodes[..])[d := inodes[d]]
      ensures ok <==> old(inodes[d]).blockCount > 0 || old(FreeBlocks()) > 0
      ensures ok <==> inodes[d].blockCount > 0
      ensures inodes[d].isDir == old(inodes[d]).isDir && inodes[d].used == old(inodes[d]).used
      ensures inodes[d].size == old(inodes[d]).size && (!ok ==> inodes[d] == old(inodes[d]))
      ensures inodes[d].blockCount == if ok && old(inodes[d]).blockCount == 0 then 1 else old(inodes[d]).blockCount
      ensures usedBlocks - inodes[d].blockCount == old(usedBlocks) - old(inodes[d]).blockCount
      ensures DirBlock(d) == old(DirBlock(d))
      ensures forall j :: 0 <= j < MAX_INODES && (j != d || !ok) ==> File(j) == old(File(j))
    {
      if inodes[d].blockCount > 0 { return true; }
      ghost var nodes0, bitmap0, disk0, owner0 := inodes[..], bitmap[..], disk[..], owner;
      ok := AppendBlock(d, []);
      if !ok { return; }
      assert Splice(EmptyBlock(), 0, []) == EmptyBlock();
      forall j | 0 <= j < MAX_INODES && j != d ensures Contents(inodes[j], disk[..]) == Contents(nodes0[j], disk0) {
        OtherBlocks(nodes0, bitmap0, disk0, owner0, disk[..], d, inodes[d].blocks[0], j);
      }
    }

    /** Rewrite the first block of an inode and set its size. */
    method SetFirst(d: nat, block: Block, size: nat)
      requires Valid() && d < MAX_INODES && inodes[d].blockCount > 0
      requires inodes[d].isDir || size <= BLOCK_SIZE * inodes[d].blockCount
      modifies disk, inodes
      ensures Valid() && inodes[..] == old(inodes[..])[d := old(inodes[d]).(size := size)]
      ensures DirBlock(d) == block
      ensures forall j :: 0 <= j < MAX_INODES && j != d ==> File(j) == old(File(j))
    {
      ghost var nodes0, disk0 := inodes[..], disk[..];
      NodeReachable(d);
      var b := inodes[d].blocks[0];
      ResizeOwned(bitmap[..], inodes[..], owner, d, inodes[d].blockCount, size);
      disk[b] := block;
      inodes[d] := inodes[d].(size := size);
      forall j | 0 <= j < MAX_INODES && j != d ensures Contents(inodes[j], disk[..]) == Contents(nodes0[j], disk0) {
        OtherBlocks(nodes0, bitmap[..], disk0, owner, disk[..], d, b, j);
      }
    }

    /** fs_write, the older one-block write: -1 for an unused inode or a full disk. */
    method Write(i: nat, data: seq<Byte>) returns (r: int)
      requires Valid()
      modifies `usedBlocks, `owner, bitmap, disk, inodes
      ensures Valid()
      ensures r == -1 <==>
                (i >= MAX_INODES || !old(inodes[..])[i].used ||
                 (old(inodes[..])[i].blockCount == 0 && old(FreeBlocks()) == 0))
      ensures r != -1 ==> r == Least(|data|, BLOCK_SIZE) && File(i) == data[..r] && inodes[i].size == r
      ensures usedBlocks == old(usedBlocks) + if r != -1 && old(inodes[..])[i].blockCount == 0 then 1 else 0
      ensures forall j :: 0 <= j < MAX_INODES && (j != i || r == -1) ==>
                inodes[j] == old(inodes[j]) && File(j) == old(File(j))
    {
      if i >= MAX_INODES || !inodes[i].used { return -1; }
      ghost var node0 := inodes[i];
      var ok := FirstBlock(i);
      if !ok { return -1; }
      var n := if |data| > BLOCK_SIZE then BLOCK_SIZE else |data|;
      NodeReachable(i);
      var block := Splice(disk[inodes[i].blocks[0]], 0, data[..n]);
      SetFirst(i, block, n);
      FirstBlockHolds(inodes[i], disk[..], data, n);
      r := n;
    }

    // ---- inodes and directories ----

    /** alloc_inode: the first unused inode, or -1. */
    method AllocInode(isDir: bool, parent: nat) returns (r: int)
      requires Valid()
      modifies `usedInodes, inodes
      ensures Valid()
      ensures r == -1 <==> forall i :: 0 <= i < MAX_INODES ==> old(inodes[i]).used
      ensures r == -1 ==> inodes[..] == old(inodes[..])
      ensures usedInodes == old(usedInodes) + if r == -1 then 0 else 1
      ensures r != -1 ==>
                && 0 < r < MAX_INODES && !old(inodes[..])[r].used
                && (forall i :: 0 <= i < r ==> old(inodes[..])[i].used)
                && inodes[..] == old(inodes[..])[r := Inode(true, isDir, 0, old(inodes[..])[r].blocks, 0, parent)]
    {
      r := 0;
      while r < MAX_INODES
        invariant 0 <= r <= MAX_INODES
        invariant forall i :: 0 <= i < r ==> inodes[i].used
      {
        if !inodes[r].used {
          ResizeOwned(bitmap[..], inodes[..], owner, r, 0, 0);
          inodes[r] := Inode(true, isDir, 0, inodes[r].blocks, 0, parent);
          usedInodes := usedInodes + 1;
          return;
        }
        r := r + 1;
      }
      r := -1;
    }

    /** Is there room for one more entry? */
    ghost predicate HasSlot(d: nat)
      requires Valid() && d < MAX_INODES
      reads this, bitmap, disk, inodes
    {
      (inodes[d].blockCount > 0 || FreeBlocks() > 0) && EmptyFrom(DirBlock(d), 0) < MAX_ENTRIES
    }

    /** The search loop of dir_add. */
    static method EmptySlot(entries: Block) returns (i: nat)
      ensures i == EmptyFrom(entries, 0)
    {
      i := 0;
      while i < MAX_ENTRIES && EntryInode(entries, i) != 0
        invariant 0 <= i <= MAX_ENTRIES && EmptyFrom(entries, i) == EmptyFrom(entries, 0)
      {
        i := i + 1;
      }
    }

    /** dir_add: the first empty slot of the first block; silently nothing if there is none. */
    method DirAdd(d: nat, child: nat, name: seq<Byte>)
      requires Valid() && d < MAX_INODES && inodes[d].isDir && 0 < child < MAX_INODES && CString(name)
      modifies `usedBlocks, `owner, bitmap, disk, inodes
      ensures Valid() && inodes[..] == old(inodes[..])[d := inodes[d]]
      ensures inodes[d].isDir && inodes[d].used == old(inodes[d].used)
      ensures inodes[d].size == old(inodes[d].size) + if old(HasSlot(d)) then ENTRY_SIZE else 0
      ensures usedBlocks - inodes[d].blockCount == old(usedBlocks) - old(inodes[d]).blockCount
      ensures DirBlock(d) ==
                if old(HasSlot(d)) then WithEntry(old(DirBlock(d)), EmptyFrom(old(DirBlock(d)), 0), child, name)
                else old(DirBlock(d))
      ensures old(HasSlot(d)) ==> inodes[d].blockCount > 0
      ensures forall j :: 0 <= j < MAX_INODES && j != d ==> File(j) == old(File(j))
    {
      var ok := FirstBlock(d);
      if !ok { return; }
      NodeReachable(d);
      var entries := disk[inodes[d].blocks[0]];
      var i := EmptySlot(entries);
      if i < MAX_ENTRIES { SetFirst(d, WithEntry(entries, i, child, name), inodes[d].size + ENTRY_SIZE); }
    }

    /** dir_lookup_internal */
    method Lookup(d: nat, name: seq<Byte>) returns (r: int)
      requires Valid() && d < MAX_INODES && CString(name)
      ensures r == Found(d, name)
    {
      if !inodes[d].isDir || inodes[d].blockCount == 0 { return -1; }
      NodeReachable(d);
      var entries := disk[inodes[d].blocks[0]];
      var i := 0;
      while i < MAX_ENTRIES
        invariant 0 <= i <= MAX_ENTRIES && SearchFrom(entries, name, i) == SearchFrom(entries, name, 0)
      {
        if EntryInode(entries, i) != 0 && EntryName(entries, i) == name { return EntryInode(entries, i); }
        i := i + 1;
      }
      r := -1;
    }

    ghost function Found(d: nat, name: seq<Byte>): int
      requires Valid() && d < MAX_INODES
      reads this, bitmap, disk, inodes
    {
      if !inodes[d].isDir || inodes[d].blockCount == 0 then -1 else SearchFrom(DirBlock(d), name, 0)
    }

    /** fs_create_internal: the new inode, or -1; the name is entered if the directory has room. */
    method Create(d: nat, name: seq<Byte>, isDir: bool) returns (r: int)
      requires Valid() && d < MAX_INODES && inodes[d].used && inodes[d].isDir && CString(name)
      modifies `usedBlocks, `usedInodes, `owner, bitmap, disk, inodes
      ensures Valid()
      ensures r == -1 <==> forall i :: 0 <= i < MAX_INODES ==> old(inodes[i]).used
      ensures r == -1 ==> inodes[..] == old(inodes[..]) && disk[..] == old(disk[..]) && usedBlocks == old(usedBlocks)
      ensures usedBlocks - inodes[d].blockCount == old(usedBlocks) - old(inodes[d]).blockCount
      ensures r != -1 ==> 0 < r < MAX_INODES && !old(inodes[..])[r].used && inodes[r].used && inodes[r].isDir == isDir
      ensures r != -1 ==> (forall i :: 0 <= i < r ==> old(inodes[..])[i].used)
      ensures r != -1 ==> File(r) == [] && usedInodes == old(usedInodes) + 1
      ensures inodes[d].used && inodes[d].isDir
      ensures forall j :: 0 <= j < MAX_INODES && j != d && j != r ==>
                inodes[j] == old(inodes[j]) && File(j) == old(File(j))
      // The name, cut to 127 bytes, leads to the new inode exactly when the directory has room
      // and no entry before the new one has it; every other name is looked up as before.
      ensures r != -1 ==> forall q: seq<Byte> {:trigger Found(d, q)} :: CString(q) ==>
                Found(d, q) ==
                  if q == name[..Least(MAX_FILENAME - 1, |name|)] && old(HasSlot(d)) &&
                     !NamedBefore(old(DirBlock(d)), q, 0, EmptyFrom(old(DirBlock(d)), 0))
                  then r else old(Found(d, q))
    {
      ghost var b, slot := DirBlock(d), HasSlot(d);
      forall q: seq<Byte> ensures Found(d, q) == SearchFrom(b, q, 0) { FoundIs(d, q); }
      r := AllocInode(isDir, d);
      if r < 0 { return; }
      DirAdd(d, r, name);
      forall q: seq<Byte> | CString(q)
        ensures Found(d, q) ==
                  if q == name[..Least(MAX_FILENAME - 1, |name|)] && slot && !NamedBefore(b, q, 0, EmptyFrom(b, 0))
                  then r else SearchFrom(b, q, 0)
      {
        FoundIs(d, q);
        if slot { SearchAfterAdd(b, r, name, q); }
      }
    }

    /** A directory without a block is one of empty slots. */
    lemma FoundIs(d: nat, q: seq<Byte>)
      requires Valid() && d < MAX_INODES && inodes[d].isDir
      ensures Found(d, q) == SearchFrom(DirBlock(d), q, 0)
    {
      SearchZeros(q, 0);
    }
  }

  function EmptyBlock(): Block { Zeros(BLOCK_SIZE) }

  function Appended(node: Inode, b: nat): Inode
    requires node.blockCount < |node.blocks|
  {
    node.(blocks := node.blocks[node.blockCount := b], blockCount := node.blockCount + 1)
  }

  /** Blocks in use keep their place and their bytes. */
  ghost predicate Kept(bitmap: seq<bool>, disk: seq<Block>, bitmap': seq<bool>, disk': seq<Block>) {
    && |bitmap| == |bitmap'| == |disk| == |disk'|
    && forall b {:trigger disk'[b]} {:trigger bitmap'[b]} :: 0 <= b < |disk| && bitmap[b] ==>
         bitmap'[b] && disk'[b] == disk[b]
  }

  /** The state of the write loop: the blocks so far hold the front of the buffer. */
  ghost predicate Storing(node0: Inode, bitmap0: seq<bool>, disk0: seq<Block>,
      node: Inode, bitmap: seq<bool>, disk: seq<Block>, buffer: seq<Byte>)
  {
    && Kept(bitmap0, disk0, bitmap, disk) && Reachable(node, disk)
    && node.isDir == node0.isDir && node.used == node0.used
    && BLOCK_SIZE * node.blockCount < |buffer| + BLOCK_SIZE
    && forall k {:trigger node.blocks[k]} :: 0 <= k < node.blockCount ==>
         BLOCK_SIZE * k <= |buffer| && bitmap[node.blocks[k]] && disk[node.blocks[k]] == Chunk(buffer, k)
  }

  lemma StoreStep(node0: Inode, bitmap0: seq<bool>, disk0: seq<Block>,
      node: Inode, bitmap: seq<bool>, disk: seq<Block>, buffer: seq<Byte>, b: nat, end: nat,
      node': Inode, bitmap': seq<bool>, disk': seq<Block>)
    requires Storing(node0, bitmap0, disk0, node, bitmap, disk, buffer) && b < |bitmap| && !bitmap[b]
    requires node.blockCount < DIRECT_BLOCKS && BLOCK_SIZE * node.blockCount < |buffer|
    requires end == Least(|buffer|, BLOCK_SIZE * (node.blockCount + 1))
    requires node' == Appended(node, b) && bitmap' == bitmap[b := true]
    requires disk' == disk[b := Splice(EmptyBlock(), 0, buffer[BLOCK_SIZE * node.blockCount..end])]
    ensures Storing(node0, bitmap0, disk0, node', bitmap', disk', buffer)
  {}

  lemma AppendOwned(bitmap: seq<bool>, inodes: seq<Inode>, owner: map<nat, (nat, nat)>, i: nat, b: nat)
    requires |bitmap| == MAX_BLOCKS && Owned(bitmap, inodes, owner)
    requires i < |inodes| && inodes[i].blockCount < DIRECT_BLOCKS && b < MAX_BLOCKS && !bitmap[b]
    ensures Owned(bitmap[b := true], inodes[i := Appended(inodes[i], b)], owner[b := (i, inodes[i].blockCount)])
  {}

  lemma ResizeOwned(bitmap: seq<bool>, inodes: seq<Inode>, owner: map<nat, (nat, nat)>, i: nat, n: nat, size: nat)
    requires |bitmap| == MAX_BLOCKS && Owned(bitmap, inodes, owner) && i < |inodes| && n <= inodes[i].blockCount
    ensures Owned(bitmap, inodes[i := inodes[i].(blockCount := n, size := size)], owner)
  {}

  lemma FileKept(inodes: seq<Inode>, bitmap: seq<bool>, disk: seq<Block>, owner: map<nat, (nat, nat)>,
      bitmap': seq<bool>, disk': seq<Block>, j: nat)
    requires |bitmap| == MAX_BLOCKS && Owned(bitmap, inodes, owner) && j < |inodes|
    requires Kept(bitmap, disk, bitmap', disk')
    ensures Reachable(inodes[j], disk) && Reachable(inodes[j], disk')
    ensures Contents(inodes[j], disk') == Contents(inodes[j], disk)
  {
    assert forall k :: 0 <= k < inodes[j].blockCount ==> bitmap[inodes[j].blocks[k]];
    RawFramed(inodes[j], disk, disk');
  }

  lemma FirstBlockHolds(node: Inode, disk: seq<Block>, data: seq<Byte>, n: nat)
    requires Reachable(node, disk) && node.blockCount >= 1 && n <= BLOCK_SIZE && n <= |data| && node.size == n
    requires disk[node.blocks[0]][..n] == data[..n]
    ensures Contents(node, disk) == data[..n]
  {
    JoinedAt(node.blocks, node.blockCount, disk, 0);
    assert Raw(node, disk)[..n] == Raw(node, disk)[0..BLOCK_SIZE][..n];
  }

  /** Changing one block that is free or the first of inode i leaves the other files alone. */
  lemma OtherBlocks(inodes: seq<Inode>, bitmap: seq<bool>, disk: seq<Block>, owner: map<nat, (nat, nat)>,
      disk': seq<Block>, i: nat, b: nat, j: nat)
    requires |bitmap| == MAX_BLOCKS && Owned(bitmap, inodes, owner) && i < |inodes| && j < |inodes| && j != i
    requires |disk| == |disk'| == MAX_BLOCKS && forall k :: 0 <= k < MAX_BLOCKS && k != b ==> disk'[k] == disk[k]
    requires b < MAX_BLOCKS && (!bitmap[b] || (inodes[i].blockCount > 0 && inodes[i].blocks[0] == b))
    ensures Reachable(inodes[j], disk) && Contents(inodes[j], disk') == Contents(inodes[j], disk)
  {
    forall k | 0 <= k < inodes[j].blockCount
      ensures inodes[j].blocks[k] < MAX_BLOCKS && inodes[j].blocks[k] != b
    {
      assert inodes[i].blockCount > 0 ==> owner[inodes[i].blocks[0]] == (i, 0);
    }
    RawFramed(inodes[j], disk, disk');
  }
}
