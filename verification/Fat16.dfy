/** The FAT16 driver over an array of sectors: allocation, chains, files and the root
    directory (src/drivers/fat16.cpp). */
module Fat16 {
  import opened Collections
  import opened Bytes
  import opened Fat16Layout
  import opened Fat16Names
  import opened Fat16Chains
  import opened Fat16Directory

  const SECTOR: nat := 512

  class Volume {
    const g: Geometry
    ghost const disk: seq<Sector>  // as it was mounted
    var sectors: seq<Sector>
    /** The clusters of every allocated chain, by first cluster. */
    ghost var chains: map<nat, seq<nat>>

    ghost var img: Image

    /** The sectors hold the image, the second FAT is a copy of the first, and what belongs to
        none of the three regions is as it was. */
    ghost predicate Mounted()
      reads this
    {
      Holds(g, sectors, img) && Mirrored(g, sectors) && Untouched(g, disk, sectors)
    }

    /** FAT copies equal, chains terminated and disjoint, every visible entry owns its chain. */
    ghost predicate Valid()
      reads this
    {
      Mounted() && ChainsOk(img.fat, chains) && DirOk(img.dir, chains)
    }

    ghost function Files(key: seq<Byte>): Option<seq<Byte>>
      requires Valid()
      reads this
    {
      Lookup(img, g.sectorsPerCluster, chains, key)
    }

    /** fat16_init, on a disk that holds a well-formed volume. */
    constructor (sectors: seq<Sector>, ghost img: Image, ghost chains: map<nat, seq<nat>>)
      requires sectors != [] && Holds(BootGeometry(sectors[0]), sectors, img)
      requires Mirrored(BootGeometry(sectors[0]), sectors)
      requires ChainsOk(img.fat, chains) && DirOk(img.dir, chains)
      ensures Valid() && g == BootGeometry(sectors[0]) && disk == sectors
      ensures this.sectors == sectors && this.img == img && this.chains == chains
    {
      g := BootGeometry(sectors[0]);
      disk := sectors;
      this.sectors, this.img, this.chains := sectors, img, chains;
    }

    // ---- the FAT ----

    /** fat16_get_fat_entry */
    method GetFatEntry(cluster: nat) returns (v: nat)
      requires Mounted() && cluster < CLUSTER_END
      ensures v == img.fat[cluster] < 0x10000
    {
      var fatSector, entryOffset := g.reserved + cluster * 2 / 512, cluster * 2 % 512;
      FatEntryAt(g, sectors, img, cluster);
      v := Get16(sectors[fatSector], entryOffset);
    }

    /** fat16_set_fat_entry */
    method SetFatEntry(cluster: nat, value: nat)
      requires Mounted() && cluster < CLUSTER_END && value < 0x10000
      modifies `sectors, `img
      ensures Mounted() && img == old(img).(fat := old(img).fat[cluster := value])
    {
      var fatSector, entryOffset := g.reserved + cluster * 2 / 512, cluster * 2 % 512;
      FatRoom(g);
      SetFatImage(g, sectors, img, cluster, value);
      SetFatMirrored(g, sectors, cluster, value);
      SetFatManaged(g, disk, sectors, cluster, value);
      ghost var sectors' := SetFat(g, sectors, cluster, value);
      var buffer: Sector := Splice(sectors[fatSector], entryOffset, Le16(value));
      sectors := sectors[fatSector := buffer];
      if g.fats > 1 { sectors := sectors[fatSector + g.sectorsPerFat := buffer]; }
      assert sectors == sectors';
      img := img.(fat := img.fat[cluster := value]);
    }

    /** fat16_alloc_cluster: the lowest free cluster, marked as the end of a chain. */
    method AllocCluster() returns (cluster: nat)
      requires Mounted()
      modifies `sectors, `img
      ensures Mounted()
      ensures cluster == 0 <==> FreeCount(old(img).fat) == 0
      ensures cluster == 0 ==> img == old(img)
      ensures cluster != 0 ==>
                && IsCluster(cluster) && old(img).fat[cluster] == 0
                && (forall c :: 2 <= c < cluster ==> old(img).fat[c] != 0)
                && img == old(img).(fat := old(img).fat[cluster := END_OF_CHAIN])
    {
      cluster := 2;
      while cluster < CLUSTER_END
        invariant 2 <= cluster <= CLUSTER_END && Mounted() && img == old(img)
        invariant forall c :: 2 <= c < cluster ==> img.fat[c] != 0
      {
        var v := GetFatEntry(cluster);
        if v == 0 {
          assert cluster in FreeSet(img.fat);
          SetFatEntry(cluster, END_OF_CHAIN);
          return;
        }
        cluster := cluster + 1;
      }
      assert FreeSet(img.fat) == {};
      cluster := 0;
    }

    /** The delete loop: it stops on every FAT, well-formed or not. */
    method FreeChain(first: nat)
      requires Mounted()
      modifies `sectors, `img
      ensures Mounted() && img == old(img).(fat := Freed(old(img).fat, first))
    {
      var cluster := first;
      while IsCluster(cluster)
        invariant Mounted() && img == old(img).(fat := img.fat)
        invariant Freed(img.fat, cluster) == Freed(old(img).fat, first)
        decreases |Used(img.fat)|, if IsCluster(cluster) then 1 else 0
      {
        ghost var fat := img.fat;
        var next := GetFatEntry(cluster);
        SetFatEntry(cluster, 0);
        if fat[cluster] != 0 { UsedShrinks(fat, cluster); } else { assert fat[cluster := 0] == fat; }
        cluster := next;
      }
    }

    // ---- data ----

    /** ata_read_sector on sector i of a cluster. */
    method ReadSector(cluster: nat, i: nat) returns (s: Sector)
      requires Mounted() && IsCluster(cluster) && i < g.sectorsPerCluster
      ensures s == img.data[cluster][i]
    {
      SectorAt(g, sectors, img, cluster, i);
      s := sectors[ClusterToSector(g, cluster) + i];
    }

    /** ata_write_sector on sector i of a cluster. */
    method WriteSector(cluster: nat, i: nat, s: Sector)
      requires Mounted() && IsCluster(cluster) && i < g.sectorsPerCluster
      modifies `sectors, `img
      ensures Mounted()
      ensures var data := old(img.data);
              img == old(img).(data := data[cluster := PutSector(data[cluster], i, s)])
    {
      SetDataImage(g, sectors, img, cluster, i, s);
      SetDataManaged(g, disk, sectors, cluster, i, s);
      sectors := sectors[ClusterToSector(g, cluster) + i := s];
      img := img.(data := img.data[cluster := PutSector(img.data[cluster], i, s)]);
    }

    /** One round of the inner loop of fat16_write_vfs: the next part of the buffer into sector i. */
    method WritePart(cluster: nat, i: nat, buffer: seq<Byte>, start: nat) returns (written: nat)
      requires Mounted() && IsCluster(cluster) && i < g.sectorsPerCluster && start < |buffer|
      modifies `sectors, `img
      ensures Mounted() && written == Least(|buffer|, start + SECTOR)
      ensures var cl := old(img.data)[cluster];
              img == old(img).(data := old(img.data)[cluster := PutSector(cl, i, Overlay(cl[i], buffer, start))])
    {
      var chunk := if |buffer| - start > SECTOR then SECTOR else |buffer| - start;
      var secBuf := ReadSector(cluster, i);
      secBuf := buffer[start..start + chunk] + secBuf[chunk..];
      assert secBuf == Overlay(img.data[cluster][i], buffer, start);
      WriteSector(cluster, i, secBuf);
      written := start + chunk;
    }

    /** The inner loop of fat16_write_vfs: the next part of the buffer into one cluster. */
    method WriteCluster(cluster: nat, buffer: seq<Byte>, start: nat) returns (written: nat)
      requires Mounted() && IsCluster(cluster) && start < |buffer|
      modifies `sectors, `img
      ensures Mounted()
      ensures written == Least(|buffer|, start + SECTOR * g.sectorsPerCluster)
      ensures var data := old(img.data);
              img == old(img).(data := data[cluster := OverlayCluster(data[cluster], buffer, start)])
    {
      ghost var before: seq<Sector>, now: seq<Sector> := img.data[cluster], img.data[cluster];
      assert img.data == img.data[cluster := now];
      written := start;
      var i := 0;
      while i < g.sectorsPerCluster && written < |buffer|
        invariant 0 <= i <= g.sectorsPerCluster && Mounted()
        invariant written == Least(|buffer|, start + SECTOR * i)
        invariant img == old(img).(data := old(img).data[cluster := now]) && |now| == |before| == g.sectorsPerCluster
        invariant forall j :: 0 <= j < |now| ==>
                    now[j] == if j < i then Overlay(before[j], buffer, start + SECTOR * j) else before[j]
      {
        now := PutSector(now, i, Overlay(now[i], buffer, written));
        written := WritePart(cluster, i, buffer, written);
        i := i + 1;
      }
      Overlaid(before, now, buffer, start, i);
    }

    ghost function Cap(n: nat): nat { Reach(g.sectorsPerCluster, n) }

    /** The chain at a start cluster; no chain at 0. */
    ghost function ChainAt(impl: nat): seq<nat>
      reads this
    {
      if impl in chains then chains[impl] else []
    }

    ghost predicate ChainsValid()
      reads this
    {
      Mounted() && ChainsOk(img.fat, chains)
    }

    /** What the write loop has done to the clusters of the chain so far. */
    ghost predicate Progress(data: Clusters, data0: Clusters, ch: seq<nat>, buffer: seq<Byte>, done: nat) {
      && Room(data, g.sectorsPerCluster) && Room(data0, g.sectorsPerCluster) && AllClusters(ch)
      && (forall i {:trigger NewAt(ch, 0, i)} :: NewAt(ch, 0, i) ==>
            data[ch[i]] == if i < done then OverlayCluster(data0[ch[i]], buffer, Cap(i)) else data0[ch[i]])
      && (forall c {:trigger Outside(ch, c)} :: Outside(ch, c) ==> data[c] == data0[c])
    }

    static ghost predicate Outside(ch: seq<nat>, c: int) { IsCluster(c) && c !in ch }

    /** Allocate a cluster for the chain at `first` and link it behind `cluster`; 0 if the
        disk is full. */
    method Extend(first: nat, cluster: nat) returns (next: nat)
      requires ChainsValid() && HeadOk(img.fat, chains, first) && cluster == Last(chains[first])
      modifies `sectors, `img, `chains
      ensures ChainsValid() && img == old(img).(fat := img.fat)
      ensures next == 0 ==> chains == old(chains) && FreeCount(img.fat) == 0
      ensures next != 0 ==>
                && next !in old(chains[first]) && (forall h :: h in old(chains) ==> next !in old(chains)[h])
                && chains == old(chains)[first := old(chains[first]) + [next]]
      ensures TakenInOrder(old(img).fat, |old(chains)[first]|, img.fat, chains[first])
      ensures FreeCount(img.fat) + |chains[first]| == old(FreeCount(img.fat) + |chains[first]|)
    {
      ghost var fat := img.fat;
      TakenNone(fat, chains[first]);
      next := AllocCluster();
      if next == 0 { return; }
      ChainUsed(fat, chains[first]);
      assert cluster in chains[first];
      TakenNext(fat, chains[first], next);
      FreeUnused(fat, chains, next);
      ExtendChain(fat, chains, first, next);
      Taken(fat, next, END_OF_CHAIN);
      Relinked(img.fat, cluster, next);
      SetFatEntry(cluster, next);
      chains := chains[first := chains[first] + [next]];
    }

    /** Allocate the first cluster of an empty file; 0 if the disk is full. */
    method Start() returns (first: nat)
      requires ChainsValid()
      modifies `sectors, `img, `chains
      ensures ChainsValid() && img == old(img).(fat := img.fat)
      ensures first == 0 <==> FreeCount(old(img).fat) == 0
      ensures first == 0 ==> img == old(img) && chains == old(chains)
      ensures first != 0 ==>
                && first !in old(chains) && chains == old(chains)[first := [first]] && first < CLUSTER_END
                && (forall h :: h in old(chains) ==> first !in old(chains)[h])
                && FreeCount(img.fat) == FreeCount(old(img).fat) - 1
                && TakenInOrder(old(img).fat, 0, img.fat, [first])
    {
      ghost var fat := img.fat;
      first := AllocCluster();
      if first == 0 { return; }
      TakenFirst(fat, first);
      FreeUnused(fat, chains, first);
      StartChain(fat, chains, first);
      Taken(fat, first, END_OF_CHAIN);
      chains := chains[first := [first]];
    }

    lemma ProgressEnd(data: Clusters, data0: Clusters, ch: seq<nat>, buffer: seq<Byte>, done: nat)
      requires Progress(data, data0, ch, buffer, done) && done <= |ch| && Cap(done) >= |buffer|
      ensures Progress(data, data0, ch, buffer, |ch|)
    {
      forall i | NewAt(ch, 0, i) && done <= i ensures OverlayCluster(data0[ch[i]], buffer, Cap(i)) == data0[ch[i]] {
        ReachGrows(g.sectorsPerCluster, done, i);
      }
    }

    /** The chain after a step of the write loop: as it was, or one cluster longer. */
    ghost predicate Grown(fat: Fat, chains0: map<nat, seq<nat>>, fat': Fat, chains': map<nat, seq<nat>>, first: nat) {
      && first in chains0 && HeadOk(fat', chains', first) && ChainsOk(fat', chains')
      && chains' == chains0[first := chains'[first]] && chains0[first] <= chains'[first]
      && FreeCount(fat') + |chains'[first]| == FreeCount(fat) + |chains0[first]|
      && TakenInOrder(fat, |chains0[first]|, fat', chains'[first])
    }

    /** The state of the write loop after `done` clusters of the chain. */
    ghost predicate Writing(img0: Image, chains0: map<nat, seq<nat>>, img: Image, chains': map<nat, seq<nat>>,
        first: nat, buffer: seq<Byte>, done: nat)
    {
      && |img0.fat| == |img.fat| == CLUSTER_END && img.dir == img0.dir
      && Grown(img0.fat, chains0, img.fat, chains', first)
      && done <= |chains'[first]| && Progress(img.data, img0.data, chains'[first], buffer, done)
      && (|chains'[first]| > |chains0[first]| ==> Cap(|chains'[first]| - 1) < |buffer|)
    }

    lemma WroteCluster(img0: Image, chains0: map<nat, seq<nat>>, img: Image,
        chains': map<nat, seq<nat>>, first: nat, buffer: seq<Byte>, done: nat)
      requires Writing(img0, chains0, img, chains', first, buffer, done) && done < |chains'[first]|
      ensures var c, data := chains'[first][done], img.data;
              Writing(img0, chains0, img.(data := data[c := OverlayCluster(data[c], buffer, Cap(done))]),
                      chains', first, buffer, done + 1)
    {
      var ch := chains'[first];
      ProgressNext(img.data, img0.data, ch, buffer, done);
    }

    lemma ProgressNext(data: Clusters, data0: Clusters, ch: seq<nat>, buffer: seq<Byte>, done: nat)
      requires Progress(data, data0, ch, buffer, done) && done < |ch|
      requires forall i, j :: 0 <= i < j < |ch| ==> ch[i] != ch[j]
      ensures var c := ch[done];
              Progress(data[c := OverlayCluster(data[c], buffer, Cap(done))], data0, ch, buffer, done + 1)
    {
      var c := ch[done];
      var data' := data[c := OverlayCluster(data[c], buffer, Cap(done))];
      forall i | NewAt(ch, 0, i)
        ensures data'[ch[i]] == if i < done + 1 then OverlayCluster(data0[ch[i]], buffer, Cap(i)) else data0[ch[i]]
      {
        assert i == done || ch[i] != c;
      }
    }

    lemma Advanced(img0: Image, chains0: map<nat, seq<nat>>, img: Image, chains1: map<nat, seq<nat>>,
        img': Image, chains': map<nat, seq<nat>>, first: nat, buffer: seq<Byte>, done: nat)
      requires Writing(img0, chains0, img, chains1, first, buffer, done) && Cap(done) < |buffer|
      requires img' == img.(fat := img'.fat) && |img'.fat| == CLUSTER_END
      requires Grown(img.fat, chains1, img'.fat, chains', first)
      requires chains' == chains1 ||
                 (|chains1[first]| == done && |chains'[first]| == done + 1
                  && Last(chains'[first]) !in chains1[first] && IsCluster(Last(chains'[first])))
      ensures Writing(img0, chains0, img', chains', first, buffer, done)
    {
      GrownOn(img0.fat, chains0, img.fat, chains1, img'.fat, chains', first);
      ProgressGrown(img.data, img0.data, chains1[first], chains'[first], buffer, done);
    }

    lemma GrownOn(fat0: Fat, chains0: map<nat, seq<nat>>, fat1: Fat, chains1: map<nat, seq<nat>>,
        fat2: Fat, chains2: map<nat, seq<nat>>, first: nat)
      requires Grown(fat0, chains0, fat1, chains1, first) && Grown(fat1, chains1, fat2, chains2, first)
      ensures Grown(fat0, chains0, fat2, chains2, first)
    {
      TakenMore(fat0, |chains0[first]|, fat1, chains1[first], fat2, chains2[first]);
    }

    lemma ProgressGrown(data: Clusters, data0: Clusters, ch: seq<nat>, ch': seq<nat>, buffer: seq<Byte>, done: nat)
      requires Progress(data, data0, ch, buffer, done) && done <= |ch| && ch <= ch'
      requires ch' == ch ||
                 (|ch| == done && |ch'| == done + 1 && Last(ch') !in ch && IsCluster(Last(ch')))
      ensures Progress(data, data0, ch', buffer, done)
    {
      forall i | NewAt(ch', 0, i)
        ensures data[ch'[i]] == if i < done then OverlayCluster(data0[ch'[i]], buffer, Cap(i)) else data0[ch'[i]]
      {
        assert NewAt(ch, 0, i) || Outside(ch, ch'[i]);
      }
      forall c | Outside(ch', c) ensures data[c] == data0[c] { assert Outside(ch, c); }
    }

    /** The cluster after position `done` of the chain, allocated if the chain ends there. */
    method Advance(first: nat, cluster: nat, ghost done: nat) returns (next: nat)
      requires ChainsValid() && HeadOk(img.fat, chains, first)
      requires done < |chains[first]| && cluster == chains[first][done]
      modifies `sectors, `img, `chains
      ensures Mounted() && img == old(img).(fat := img.fat)
      ensures Grown(old(img).fat, old(chains), img.fat, chains, first)
      ensures next == 0 ==> chains == old(chains) && FreeCount(img.fat) == 0 && done + 1 == |chains[first]|
      ensures next != 0 ==> done + 1 < |chains[first]| && next == chains[first][done + 1]
      ensures chains == old(chains) ||
                (old(|chains[first]|) == done + 1 && |chains[first]| == done + 2
                 && Last(chains[first]) !in old(chains[first]) && IsCluster(Last(chains[first])))
    {
      assert IsCluster(cluster);
      assert done + 1 < |chains[first]| ==> Link(img.fat, chains[first], done);
      next := GetFatEntry(cluster);
      if next >= CLUSTER_END || next == 0 {
        assert done + 1 == |chains[first]|;
        next := Extend(first, cluster);
      }
    }

    /** The bytes a file can hold: its chain and every free cluster. */
    ghost function Budget(fat: Fat, chains: map<nat, seq<nat>>, first: nat): nat {
      Cap(FreeCount(fat) + if first in chains then |chains[first]| else 0)
    }

    lemma Finished(img0: Image, chains0: map<nat, seq<nat>>, img: Image, chains': map<nat, seq<nat>>,
        first: nat, buffer: seq<Byte>, done: nat, written: nat)
      requires Writing(img0, chains0, img, chains', first, buffer, done)
      requires written == Least(|buffer|, Cap(done))
      requires Cap(done) >= |buffer| || (done == |chains'[first]| && FreeCount(img.fat) == 0)
      ensures Writing(img0, chains0, img, chains', first, buffer, |chains'[first]|)
      ensures written == Least(|buffer|, Budget(img0.fat, chains0, first)) == Least(|buffer|, Cap(|chains'[first]|))
    {
      var n := |chains'[first]|;
      ReachGrows(g.sectorsPerCluster, done, n);
      ReachGrows(g.sectorsPerCluster, n, FreeCount(img0.fat) + |chains0[first]|);
      if Cap(done) >= |buffer| { ProgressEnd(img.data, img0.data, chains'[first], buffer, done); }
    }

    lemma WritingStarts(img: Image, chains0: map<nat, seq<nat>>, first: nat, buffer: seq<Byte>)
      requires |img.fat| == CLUSTER_END && ChainsOk(img.fat, chains0) && HeadOk(img.fat, chains0, first)
      requires Room(img.data, g.sectorsPerCluster)
      ensures Writing(img, chains0, img, chains0, first, buffer, 0)
    {}

    method WriteNext(ghost img0: Image, ghost chains0: map<nat, seq<nat>>, first: nat, cluster: nat,
        buffer: seq<Byte>, start: nat, ghost done: nat)
      returns (written: nat)
      requires Mounted() && Writing(img0, chains0, img, chains, first, buffer, done)
      requires done < |chains[first]| && cluster == chains[first][done] && start == Cap(done) < |buffer|
      modifies `sectors, `img
      ensures Mounted() && Writing(img0, chains0, img, chains, first, buffer, done + 1)
      ensures written == Least(|buffer|, Cap(done + 1)) > start
    {
      ghost var before := img;
      assert IsCluster(cluster);
      written := WriteCluster(cluster, buffer, start);
      WroteCluster(img0, chains0, before, chains, first, buffer, done);
    }

    /** On to the next cluster, while there is more to write. */
    method AdvanceNext(ghost img0: Image, ghost chains0: map<nat, seq<nat>>, first: nat, cluster: nat,
        buffer: seq<Byte>, written: nat, ghost done: nat)
      returns (next: nat)
      requires Mounted() && Writing(img0, chains0, img, chains, first, buffer, done)
      requires 1 <= done <= |chains[first]| && cluster == chains[first][done - 1]
      requires written == Least(|buffer|, Cap(done))
      modifies `sectors, `img, `chains
      ensures Mounted() && Writing(img0, chains0, img, chains, first, buffer, done)
      ensures written < |buffer| ==>
                if next == 0 then done == |chains[first]| && FreeCount(img.fat) == 0
                else done < |chains[first]| && next == chains[first][done] >= 2
    {
      if written >= |buffer| { return cluster; }
      ghost var img1, chains1 := img, chains;
      next := Advance(first, cluster, done - 1);
      Advanced(img0, chains0, img1, chains1, img, chains, first, buffer, done);
    }

    /** One round of the write loop: a cluster's worth of the buffer, then on to the next
        cluster while there is more to write. */
    method WriteRound(ghost img0: Image, ghost chains0: map<nat, seq<nat>>, first: nat, cluster: nat,
        buffer: seq<Byte>, start: nat, ghost done: nat)
      returns (next: nat, written: nat)
      requires Mounted() && Writing(img0, chains0, img, chains, first, buffer, done)
      requires done < |chains[first]| && cluster == chains[first][done] && start == Cap(done) < |buffer|
      modifies `sectors, `img, `chains
      ensures Mounted() && Writing(img0, chains0, img, chains, first, buffer, done + 1)
      ensures written == Least(|buffer|, Cap(done + 1)) > start
      ensures written < |buffer| ==>
                if next == 0 then done + 1 == |chains[first]| && FreeCount(img.fat) == 0
                else done + 1 < |chains[first]| && next == chains[first][done + 1] >= 2
    {
      written := WriteNext(img0, chains0, first, cluster, buffer, start, done);
      next := AdvanceNext(img0, chains0, first, cluster, buffer, written, done + 1);
    }

    /** The write loop of fat16_write_vfs, on a chain with at least one cluster. */
    method WriteChain(first: nat, buffer: seq<Byte>) returns (written: nat)
      requires ChainsValid() && HeadOk(img.fat, chains, first)
      modifies `sectors, `img, `chains
      ensures Mounted() && first in chains
      ensures Writing(old(img), old(chains), img, chains, first, buffer, |chains[first]|)
      ensures written == Least(|buffer|, old(Budget(img.fat, chains, first))) == Least(|buffer|, Cap(|chains[first]|))
    {
      var cluster := first;
      ghost var img0, chains0, done := img, chains, 0;
      written := 0;
      WritingStarts(img0, chains, first, buffer);
      while cluster >= 2 && written < |buffer|
        invariant Mounted() && Writing(img0, chains0, img, chains, first, buffer, done)
        invariant written == Least(|buffer|, Cap(done))
        invariant written < |buffer| ==>
                    if cluster == 0 then done == |chains[first]| && FreeCount(img.fat) == 0
                    else done < |chains[first]| && cluster == chains[first][done] >= 2
        decreases |buffer| - written
      {
        cluster, written := WriteRound(img0, chains0, first, cluster, buffer, written, done);
        done := done + 1;
      }
      Finished(img0, chains0, img, chains, first, buffer, done, written);
    }

    /** The start cluster to write to: the file's own, or a new one for an empty file. */
    method FirstCluster(impl: nat) returns (first: nat)
      requires ChainsValid() && (impl == 0 || impl in chains)
      modifies `sectors, `img, `chains
      ensures ChainsValid() && img == old(img).(fat := img.fat)
      ensures 0 !in old(chains)
      ensures first == 0 ==> impl == 0 && FreeCount(old(img).fat) == 0 && img == old(img) && chains == old(chains)
      ensures first != 0 ==> HeadOk(img.fat, chains, first)
      ensures first != 0 ==> Budget(img.fat, chains, first) == old(Budget(img.fat, chains, impl))
      ensures impl != 0 ==> first == impl && img == old(img) && chains == old(chains)
      ensures impl == 0 && first != 0 ==>
                && first !in old(chains) && chains == old(chains)[first := [first]]
                && FreeCount(img.fat) == FreeCount(old(img).fat) - 1
                && TakenInOrder(old(img).fat, 0, img.fat, [first])
    {
      assert 0 in chains ==> HeadOk(img.fat, chains, 0);
      first := impl;
      if first == 0 { first := Start(); }
      assert first != 0 ==> HeadOk(img.fat, chains, first);
    }

    lemma WrittenFrom(img0: Image, chains0: map<nat, seq<nat>>, img: Image, chains': map<nat, seq<nat>>,
        h: nat, buffer: seq<Byte>)
      requires h in chains' && Writing(img0, chains0, img, chains', h, buffer, |chains'[h]|)
      ensures Written(g.sectorsPerCluster, img0.data, chains0, img.data, chains', h, buffer)
    {
      var ch := chains'[h];
      forall i | 0 <= i < |ch| ensures img.data[ch[i]] == OverlayCluster(img0.data[ch[i]], buffer, Cap(i)) {
        assert NewAt(ch, 0, i);
      }
      OverlayStored(img0.data, img.data, g.sectorsPerCluster, ch, buffer);
      forall k, c | k in chains0 && k != h && c in chains0[k] && IsCluster(c) ensures img.data[c] == img0.data[c] {
        assert c in chains'[k] && Outside(ch, c);
      }
    }

    /** fat16_write_vfs on a node with start cluster `impl` (0 for an empty file): the buffer
        goes over the front of the file, whatever the offset, and new clusters are taken as
        needed. */
    method WriteVfs(impl: nat, buffer: seq<Byte>) returns (first: nat, written: nat)
      requires ChainsValid() && (impl == 0 || impl in chains)
      modifies `sectors, `img, `chains
      ensures ChainsValid() && img.dir == old(img).dir
      ensures written == Least(|buffer|, old(Budget(img.fat, chains, impl)))
      ensures first == 0 ==> impl == 0 && FreeCount(old(img).fat) == 0 && img == old(img) && chains == old(chains)
      ensures first != 0 ==>
                first in chains && FreeCount(img.fat) + |chains[first]| == old(FreeCount(img.fat) + |ChainAt(impl)|)
      ensures first != 0 ==> HeadOk(img.fat, chains, first) && written == Least(|buffer|, Cap(|chains[first]|))
      ensures first != 0 ==> Written(g.sectorsPerCluster, old(img).data, old(chains), img.data, chains, first, buffer)
      ensures (impl != 0 ==> first == impl) && (written > 0 ==> first != 0)
      ensures impl == 0 && first != 0 ==> first !in old(chains)
      ensures first != 0 ==> TakenInOrder(old(img).fat, |old(ChainAt(impl))|, img.fat, chains[first])
    {
      first := FirstCluster(impl);
      if first == 0 { return first, 0; }
      ghost var img1, chains1 := img, chains;
      written := WriteChain(first, buffer);
      if impl == 0 { TakenMore(old(img).fat, 0, img1.fat, [first], img.fat, chains[first]); }
      WrittenFrom(img1, chains1, img, chains, first, buffer);
      WrittenAfterStart(old(img), old(chains), img1, chains1, img, chains, first, buffer);
    }

    lemma WrittenAfterStart(img0: Image, chains0: map<nat, seq<nat>>, img1: Image, chains1: map<nat, seq<nat>>,
        img: Image, chains': map<nat, seq<nat>>, h: nat, buffer: seq<Byte>)
      requires Written(g.sectorsPerCluster, img1.data, chains1, img.data, chains', h, buffer) && img1.data == img0.data
      requires h in chains1 && chains1 == chains0[h := chains1[h]]
      requires if h in chains0 then chains1 == chains0 else |chains1[h]| == 1
      ensures Written(g.sectorsPerCluster, img0.data, chains0, img.data, chains', h, buffer)
    {
      forall k, c | k in chains0 && k != h && c in chains0[k] && IsCluster(c) ensures img.data[c] == img0.data[c] {
        assert c in chains1[k];
      }
    }

    // ---- reading ----

    /** The buffer holds the front of a cluster's content from position `start` up to `read`. */
    static ghost predicate Front(buf0: seq<Byte>, content: seq<Byte>, start: nat, read: nat, buf: seq<Byte>) {
      && start <= read <= |buf0| && read - start <= |content|
      && buf == buf0[..start] + content[..read - start] + buf0[read..]
    }

    /** One sector of the inner loop of fat16_read_file. */
    method ReadOne(cluster: nat, i: nat, read: nat, buffer: array<Byte>, ghost start: nat, ghost buf0: seq<Byte>)
      requires Mounted() && IsCluster(cluster) && i < g.sectorsPerCluster && read == start + SECTOR * i
      requires read + SECTOR <= |buf0| && Front(buf0, Flatten(img.data[cluster]), start, read, buffer[..])
      modifies buffer
      ensures Front(buf0, Flatten(img.data[cluster]), start, read + SECTOR, buffer[..])
    {
      FlatSector(img.data[cluster], i);
      var s := ReadSector(cluster, i);
      SectorStep(buf0, Flatten(img.data[cluster]), start, read, s, buffer[..]);
      CopyTo(buffer, read, s);
    }

    /** The inner loop of fat16_read_file. */
    method ReadCluster(cluster: nat, size: nat, start: nat, buffer: array<Byte>) returns (bytesRead: nat)
      requires Mounted() && IsCluster(cluster) && start < size && start % SECTOR == 0
      requires buffer.Length >= RoundUp(size)
      modifies buffer
      ensures bytesRead == Least(RoundUp(size), start + SECTOR * g.sectorsPerCluster)
      ensures Front(old(buffer[..]), Flatten(img.data[cluster]), start, bytesRead, buffer[..])
    {
      bytesRead := start;
      ghost var buf0, k := buffer[..], start / SECTOR;
      Aligned(k, size);
      var i := 0;
      while i < g.sectorsPerCluster && bytesRead < size
        invariant 0 <= i <= g.sectorsPerCluster && bytesRead == start + SECTOR * i <= RoundUp(size)
        invariant bytesRead == 512 * (k + i)
        invariant Front(buf0, Flatten(img.data[cluster]), start, bytesRead, buffer[..])
      {
        Aligned(k + i, size);
        ReadOne(cluster, i, bytesRead, buffer, start, buf0);
        bytesRead := bytesRead + SECTOR;
        i := i + 1;
      }
      Aligned(k + i, size);
    }

    /** A sector that is begun below `size` ends below it rounded up. */
    static lemma Aligned(k: nat, size: nat)
      ensures 512 * k < size ==> 512 * k + 512 <= RoundUp(size)
      ensures size <= 512 * k <= RoundUp(size) ==> 512 * k == RoundUp(size)
    {}

    static lemma FlatSector(cl: seq<Sector>, i: nat)
      requires i < |cl|
      ensures Flatten(cl)[SECTOR * i..SECTOR * i + SECTOR] == cl[i]
    {}

    static lemma SectorStep(buf0: seq<Byte>, content: seq<Byte>, start: nat, read: nat, s: seq<Byte>, buf: seq<Byte>)
      requires Front(buf0, content, start, read, buf) && read + |s| <= |buf0| && read + |s| - start <= |content|
      requires s == content[read - start..read - start + |s|]
      ensures Front(buf0, content, start, read + |s|, Splice(buf, read, s))
    {}

    static lemma ReadStep(a: seq<Byte>, b: seq<Byte>, buf0: seq<Byte>, buf1: seq<Byte>, buf2: seq<Byte>,
        start: nat, end: nat)
      requires |a| == start <= |buf0| == |buf1| && buf1 == a[..start] + buf0[start..]
      requires Front(buf1, b, start, end, buf2)
      ensures buf2 == (a + b)[..end] + buf0[end..]
    {}

    static lemma WholeSectors(n: nat, size: nat)
      ensures 512 * n >= size ==> 512 * n >= RoundUp(size)
    {}

    static lemma ReadEnd(r: seq<Byte>, content: seq<Byte>, size: nat, end: nat, buf0: seq<Byte>)
      requires r <= content && (|r| >= size ==> |r| >= RoundUp(size)) && |buf0| >= RoundUp(size)
      requires end == Least(RoundUp(size), |r|) && (end >= size || r == content)
      ensures r[..end] + buf0[end..] == ReadInto(buf0, content, size)
    {}

    /** fat16_read_file: whole sectors of the chain until `size` bytes are in the buffer. */
    method ReadFile(entry: DirEntry, buffer: array<Byte>)
      requires ChainsValid() && (Head(entry) == 0 || Head(entry) in chains)
      requires buffer.Length >= RoundUp(Size(entry))
      modifies buffer
      ensures buffer[..] ==
                ReadInto(old(buffer[..]), Content(img, g.sectorsPerCluster, chains, entry), Size(entry))
    {
      NoChainAtZero(img.fat, chains);
      assert Head(entry) in chains ==> HeadOk(img.fat, chains, Head(entry));
      ReadChain(Head(entry), Size(entry), buffer, ChainAt(Head(entry)));
    }

    /** The buffer holds `read` bytes of the first `done` clusters of a chain. */
    static ghost predicate Reading(data: Clusters, spc: nat, ch: seq<nat>, done: nat, read: nat, buffer: seq<Byte>,
        buf0: seq<Byte>)
    {
      && Room(data, spc) && AllClusters(ch) && done <= |ch| && read <= |buf0|
      && var front := Flatten(Stored(data, spc, ch[..done])); read <= |front| && buffer == front[..read] + buf0[read..]
    }

    /** One round of the read loop: the wanted sectors of one cluster, then on to the next. */
    method ReadRound(cluster: nat, size: nat, start: nat, buffer: array<Byte>, ghost data: Clusters, ghost ch: seq<nat>,
        ghost done: nat, ghost buf0: seq<Byte>)
      returns (next: nat, bytesRead: nat)
      requires Mounted() && data == img.data && done < |ch| && cluster == ch[done]
      requires start == Cap(done) < size && buffer.Length == |buf0| >= RoundUp(size)
      requires Reading(data, g.sectorsPerCluster, ch, done, start, buffer[..], buf0)
      modifies buffer
      ensures next == img.fat[cluster] && bytesRead == Least(RoundUp(size), Cap(done + 1))
      ensures Reading(data, g.sectorsPerCluster, ch, done + 1, bytesRead, buffer[..], buf0)
    {
      ghost var before := buffer[..];
      assert IsCluster(cluster);
      bytesRead := ReadCluster(cluster, size, start, buffer);
      ReadingStep(data, g.sectorsPerCluster, ch, done, start, before, buf0, buffer[..], bytesRead);
      next := GetFatEntry(cluster);
    }

    static lemma ReadingStep(data: Clusters, spc: nat, ch: seq<nat>, done: nat, start: nat, before: seq<Byte>,
        buf0: seq<Byte>, after: seq<Byte>, end: nat)
      requires Reading(data, spc, ch, done, start, before, buf0) && done < |ch| && start == Reach(spc, done)
      requires start <= end <= |buf0| && end <= Reach(spc, done + 1)
      requires Front(before, Flatten(data[ch[done]]), start, end, after)
      ensures Reading(data, spc, ch, done + 1, end, after, buf0)
    {
      StoredPrefix(data, spc, ch, done);
      StoredPrefix(data, spc, ch, done + 1);
      ReadStep(Flatten(Stored(data, spc, ch[..done])), Flatten(data[ch[done]]), buf0, before, after, start, end);
    }

    method ReadChain(first: nat, size: nat, buffer: array<Byte>, ghost ch: seq<nat>)
      requires Mounted() && buffer.Length >= RoundUp(size)
      requires if ch == [] then first == 0 else Chain(img.fat, ch) && ch[0] == first
      modifies buffer
      ensures AllClusters(ch)
      ensures buffer[..] == ReadInto(old(buffer[..]), Flatten(Stored(img.data, g.sectorsPerCluster, ch)), size)
    {
      var cluster, bytesRead := first, 0;
      ghost var done, data, spc, buf0 := 0, img.data, g.sectorsPerCluster, buffer[..];
      while IsCluster(cluster) && bytesRead < size
        invariant 0 <= done <= |ch| && bytesRead == Least(RoundUp(size), Cap(done))
        invariant bytesRead < size ==> if done < |ch| then cluster == ch[done] else !IsCluster(cluster)
        invariant Reading(data, spc, ch, done, bytesRead, buffer[..], buf0)
        decreases |ch| - done
      {
        assert done + 1 < |ch| ==> Link(img.fat, ch, done);
        cluster, bytesRead := ReadRound(cluster, size, bytesRead, buffer, data, ch, done, buf0);
        done := done + 1;
      }
      ReadingDone(data, spc, ch, done, bytesRead, size, buffer[..], buf0);
    }

    static lemma ReadingDone(data: Clusters, spc: nat, ch: seq<nat>, done: nat, read: nat, size: nat,
        buffer: seq<Byte>, buf0: seq<Byte>)
      requires Reading(data, spc, ch, done, read, buffer, buf0) && |buf0| >= RoundUp(size)
      requires read == Least(RoundUp(size), Reach(spc, done)) && (read >= size || done == |ch|)
      ensures buffer == ReadInto(buf0, Flatten(Stored(data, spc, ch)), size)
    {
      StoredPrefix(data, spc, ch, done);
      assert done == |ch| ==> ch[..done] == ch;
      WholeSectors(|Stored(data, spc, ch[..done])|, size);
      ReadEnd(Flatten(Stored(data, spc, ch[..done])), Flatten(Stored(data, spc, ch)), size, read, buf0);
    }

    /** The file with a key holds the data, and its entry has the size. */
    ghost predicate Recorded(key: seq<Byte>, data: seq<Byte>)
      requires Valid()
      reads this
    {
      Files(key) == Some(data) && Size(img.dir[Find(img.dir, key)]) == |data|
    }

    /** Find a file and read it into a buffer of whole sectors. */
    method ReadNamed(name: seq<Byte>, ghost data: seq<Byte>) returns (bytes: seq<Byte>)
      requires Valid() && CString(name) && Recorded(UpperAll(name), data)
      ensures bytes == data
    {
      var index := FindEntry(name);
      var entry := GetEntry(index);
      FindFirst(img.dir, UpperAll(name), 0);
      var buffer := new Byte[RoundUp(Size(entry))];
      HeldReads(img, g.sectorsPerCluster, chains, entry, data);
      ReadFile(entry, buffer);
      bytes := buffer[..Size(entry)];
    }

    // ---- the root directory ----

    /** A sector of the root directory holds these sixteen entries. */
    static ghost predicate Sixteen(buffer: Sector, dir: seq<DirEntry>, s: nat) {
      && 16 * s + 16 <= |dir|
      && forall j :: 16 * s <= j < 16 * s + 16 ==> dir[j] == buffer[(j - 16 * s) * 32..(j - 16 * s) * 32 + 32]
    }

    method ReadRoot(s: nat) returns (buffer: Sector)
      requires Mounted() && s < g.RootSectors()
      ensures Sixteen(buffer, img.dir, s)
    {
      buffer := sectors[g.RootStart() + s];
      forall j | 16 * s <= j < 16 * s + 16
        ensures img.dir[j] == buffer[(j - 16 * s) * 32..(j - 16 * s) * 32 + 32]
      {
        assert img.dir[j] == DirAt(g, sectors, j);
      }
    }

    /** find_callback on the entries of one sector, until one of them ends the scan. */
    static method FindInSector(buffer: Sector, name: seq<Byte>, s: nat, ghost dir: seq<DirEntry>)
      returns (done: bool, index: int)
      requires CString(name) && Sixteen(buffer, dir, s)
      ensures FindFrom(dir, UpperAll(name), 16 * s) ==
                if done then index else FindFrom(dir, UpperAll(name), 16 * s + 16)
    {
      for i := 0 to 16
        invariant FindFrom(dir, UpperAll(name), 16 * s + i) == FindFrom(dir, UpperAll(name), 16 * s)
      {
        var entry: DirEntry := buffer[i * 32..i * 32 + 32];
        assert entry == dir[16 * s + i];
        if entry[0] == 0 { return true, -1; }
        if entry[0] != DELETED && entry[11] != ATTR_LFN {
          var printed := ToName(entry[..8], entry[8..11]);
          assert entry[..8] + entry[8..11] == entry[..11];
          var same := SameName(printed, name);
          if same { return true, 16 * s + i; }
        }
      }
      return false, -1;
    }

    /** fat16_iterate_dir on the root with find_callback: the index found, or -1. */
    method FindEntry(name: seq<Byte>) returns (index: int)
      requires Mounted() && CString(name)
      ensures index == Find(img.dir, UpperAll(name))
    {
      for s := 0 to g.RootSectors()
        invariant FindFrom(img.dir, UpperAll(name), 16 * s) == Find(img.dir, UpperAll(name))
      {
        var buffer := ReadRoot(s);
        var done;
        done, index := FindInSector(buffer, name, s, img.dir);
        if done { return; }
      }
      index := -1;
    }

    /** find_free_callback on the entries of one sector. */
    static method FreeInSector(buffer: Sector, s: nat, ghost dir: seq<DirEntry>) returns (index: int)
      requires Sixteen(buffer, dir, s)
      ensures FreeFrom(dir, 16 * s) == if index >= 0 then index else FreeFrom(dir, 16 * s + 16)
    {
      for i := 0 to 16
        invariant FreeFrom(dir, 16 * s + i) == FreeFrom(dir, 16 * s)
      {
        var entry: DirEntry := buffer[i * 32..i * 32 + 32];
        assert entry == dir[16 * s + i];
        if entry[0] == 0 || entry[0] == DELETED { return 16 * s + i; }
      }
      index := -1;
    }

    /** fat16_iterate_dir on the root with find_free_callback. */
    method FindFree() returns (index: int)
      requires Mounted()
      ensures index == FreeFrom(img.dir, 0)
    {
      for s := 0 to g.RootSectors()
        invariant FreeFrom(img.dir, 16 * s) == FreeFrom(img.dir, 0)
      {
        var buffer := ReadRoot(s);
        index := FreeInSector(buffer, s, img.dir);
        if index >= 0 { return; }
      }
      index := -1;
    }

    /** Read-modify-write of one directory entry. */
    method PutEntry(index: nat, e: DirEntry)
      requires Mounted() && index < |img.dir|
      modifies `sectors, `img
      ensures Mounted() && img == old(img).(dir := old(img).dir[index := e])
    {
      var sector := g.RootStart() + index / 16;
      SetDirImage(g, sectors, img, index, e);
      SetDirManaged(g, disk, sectors, index, e);
      var buffer := Splice(sectors[sector], index % 16 * 32, e);
      sectors := sectors[sector := buffer];
      img := img.(dir := img.dir[index := e]);
    }

    method GetEntry(index: nat) returns (e: DirEntry)
      requires Mounted() && index < |img.dir|
      ensures e == img.dir[index]
    {
      e := sectors[g.RootStart() + index / 16][index % 16 * 32..index % 16 * 32 + 32];
      assert e == DirAt(g, sectors, index);
    }

    /** fat16_create_file: -1 if the name exists, -2 if the directory is full. */
    method CreateFile(name: seq<Byte>) returns (r: int)
      requires Valid() && CString(name)
      modifies `sectors, `img
      ensures Valid() && img == old(img).(dir := img.dir)
      ensures r == (if Find(old(img).dir, UpperAll(name)) >= 0 then -1
                    else if FreeFrom(old(img).dir, 0) < 0 then -2 else 0)
      ensures r < 0 ==> img == old(img)
      ensures r >= 0 ==> r == 0 && img.dir == old(img).dir[FreeFrom(old(img).dir, 0) := NewEntry(name, ATTR_ARCHIVE, 0)]
      // The new file can be found under the name it was given exactly when the name is a
      // well-formed 8.3 name that does not start like a deleted entry; then it is the only change.
      ensures r >= 0 ==>
                (Files(UpperAll(name)) == Some([]) <==> WellFormed(name) && StoredName(name)[0] != DELETED)
      ensures r >= 0 && WellFormed(name) && StoredName(name)[0] != DELETED ==>
                Find(img.dir, UpperAll(name)) == FreeFrom(old(img).dir, 0)
      ensures r >= 0 && WellFormed(name) ==>
                forall key :: key != UpperAll(name) ==> Files(key) == old(Files(key))
      // Names stay unique exactly when the name as stored is new.
      ensures r >= 0 && UniqueKeys(old(img).dir) ==>
                (UniqueKeys(img.dir) <==>
                 StoredName(name)[0] == DELETED || Find(old(img).dir, UpperAll(Cut(Print(StoredName(name))))) < 0)
    {
      var found := FindEntry(name);
      if found >= 0 { return -1; }
      var index := FindFree();
      if index < 0 { return -2; }
      var stored := ParseInto(name);
      var e := NewEntry(name, ATTR_ARCHIVE, 0);
      assert e[..11] == stored;
      StoredKey(name, e);
      ghost var spc, img0 := g.sectorsPerCluster, img;
      if UniqueKeys(img.dir) { AddUnique(img.dir, e); }
      PutEntry(index, e);
      FindAfterAdd(img0.dir, e, UpperAll(name));
      LookupAfterAdd(spc, img0, chains, img, e, UpperAll(name));
      forall key | key != UpperAll(name) && WellFormed(name)
        ensures Lookup(img, spc, chains, key) == Lookup(img0, spc, chains, key)
      {
        LookupAfterAdd(spc, img0, chains, img, e, key);
      }
      r := 0;
    }

    lemma EmptyBudget(fat: Fat, chains: map<nat, seq<nat>>, h: nat)
      requires ChainsOk(fat, chains) && g.sectorsPerCluster >= 1
      ensures Budget(fat, chains, h) == 0 ==> h !in chains && FreeCount(fat) == 0
    {
      assert h in chains ==> HeadOk(fat, chains, h);
      ReachGrows(g.sectorsPerCluster, 0, FreeCount(fat) + if h in chains then |chains[h]| else 0);
    }

    /** Only the file with this key, and its entry, may have changed. */
    ghost predicate OthersSame(img0: Image, chains0: map<nat, seq<nat>>, img: Image, chains': map<nat, seq<nat>>,
        key: seq<Byte>)
      requires Sound(img0, g.sectorsPerCluster, chains0) && Sound(img, g.sectorsPerCluster, chains')
    {
      && Find(img0.dir, key) >= 0 && |img.dir| == |img0.dir|
      && (forall k :: Find(img.dir, k) == Find(img0.dir, k))
      && (forall j :: 0 <= j < |img.dir| && j != Find(img0.dir, key) ==> img.dir[j] == img0.dir[j])
      && (forall k :: k != key ==>
            Lookup(img, g.sectorsPerCluster, chains', k) == Lookup(img0, g.sectorsPerCluster, chains0, k))
    }

    /** The file with the key has the front of the data; a later read returns exactly the data
        if and only if the data fits. Of an empty write the old size and content stay. */
    ghost predicate ContentWritten(img0: Image, chains0: map<nat, seq<nat>>, img: Image, chains': map<nat, seq<nat>>,
        key: seq<Byte>, data: seq<Byte>, r: int)
      requires Sound(img0, g.sectorsPerCluster, chains0) && Sound(img, g.sectorsPerCluster, chains')
      requires Find(img0.dir, key) >= 0 && |img.dir| == |img0.dir|
    {
      var spc, e0, e := g.sectorsPerCluster, img0.dir[Find(img0.dir, key)], img.dir[Find(img0.dir, key)];
      var budget := Budget(img0.fat, chains0, Head(e0));
      && r == Least(|data|, budget)
      && (ReadsAs(img, spc, chains', e, data) <==> if data == [] then Size(e0) == 0 else |data| <= budget)
      && Lookup(img, spc, chains', key) == if r > 0 then Some(data[..r]) else Lookup(img0, spc, chains0, key)
    }

    /** What becomes of its entry and of the free clusters. */
    ghost predicate EntryWritten(e0: DirEntry, n0: nat, free0: nat, e: DirEntry, n: nat, free: nat, data: seq<Byte>,
        r: int)
    {
      if r > 0 then Size(e) == |data| && e[..26] == e0[..26] && Regrown(free0, n0, free, n, |data|)
      else e == e0 && free + Lost(free0, e0, data) == free0
    }

    /** What fat16_write_file does when it reports r bytes written. */
    ghost predicate FileWritten(img0: Image, chains0: map<nat, seq<nat>>, img: Image, chains': map<nat, seq<nat>>,
        key: seq<Byte>, data: seq<Byte>, r: int)
      requires Sound(img0, g.sectorsPerCluster, chains0) && Sound(img, g.sectorsPerCluster, chains')
    {
      && OthersSame(img0, chains0, img, chains', key) && ContentWritten(img0, chains0, img, chains', key, data, r)
      && (UniqueKeys(img0.dir) ==> UniqueKeys(img.dir))
      && var e0, e := img0.dir[Find(img0.dir, key)], img.dir[Find(img0.dir, key)];
      && ClustersTaken(img0.fat, chains0, e0, img.fat, chains', e, data, r)
      && EntryWritten(e0, ChainLen(chains0, e0), FreeCount(img0.fat),
                      e, ChainLen(chains', e), FreeCount(img.fat), data, r)
    }

    /** From `free0` free clusters some have gone to a chain of n0 and nowhere else, and no more
        than `size` bytes need. */
    ghost predicate Regrown(free0: nat, n0: nat, free: nat, n: nat, size: nat) {
      free + n == free0 + n0 && n0 <= n && (n0 < n ==> Cap(n - 1) < size)
    }

    /** Which clusters they are. */
    ghost predicate ClustersTaken(fat0: Fat, chains0: map<nat, seq<nat>>, e0: DirEntry,
        fat: Fat, chains': map<nat, seq<nat>>, e: DirEntry, data: seq<Byte>, r: int)
    {
      if r > 0 then Head(e) in chains' && TakenInOrder(fat0, ChainLen(chains0, e0), fat, chains'[Head(e)])
      else if Lost(FreeCount(fat0), e0, data) > 0 then exists c :: TakenInOrder(fat0, 0, fat, [c])
      else fat == fat0
    }

    /** Clusters lost in an empty write: an empty file is given one that its entry never
        records. */
    ghost function Lost(free0: nat, e0: DirEntry, data: seq<Byte>): nat {
      if data == [] && Head(e0) == 0 && free0 > 0 then 1 else 0
    }

    /** A write that stores nothing changes no file. */
    lemma NothingWritten(img0: Image, chains0: map<nat, seq<nat>>, img: Image, chains': map<nat, seq<nat>>,
        key: seq<Byte>, i: nat, first: nat, data: seq<Byte>)
      requires Sound(img0, g.sectorsPerCluster, chains0) && Sound(img, g.sectorsPerCluster, chains')
      requires DirOk(img0.dir, chains0) && img.dir == img0.dir && i == Find(img0.dir, key) && Shown(img.dir[i])
      requires Least(|data|, Budget(img0.fat, chains0, Head(img.dir[i]))) == 0
      requires first == 0 ==> Head(img.dir[i]) == 0 && FreeCount(img0.fat) == 0 && img == img0 && chains' == chains0
      requires first != 0 ==> first == Head(img.dir[i]) || (Head(img.dir[i]) == 0 && first !in chains0)
      requires first != 0 ==>
                 && HeadOk(img.fat, chains', first)
                 && FreeCount(img.fat) + |chains'[first]| ==
                      FreeCount(img0.fat) + ChainLen(chains0, img0.dir[i])
      requires first != 0 ==> Written(g.sectorsPerCluster, img0.data, chains0, img.data, chains', first, data)
      requires first != 0 ==>
                 first in chains' && TakenInOrder(img0.fat, ChainLen(chains0, img0.dir[i]), img.fat, chains'[first])
      ensures DirOk(img.dir, chains') && FileWritten(img0, chains0, img, chains', key, data, 0)
    {
      EmptyBudget(img0.fat, chains0, Head(img.dir[i]));
      NoChainAtZero(img0.fat, chains0);
      if first != 0 {
        forall k
          ensures Lookup(img, g.sectorsPerCluster, chains', k) == Lookup(img0, g.sectorsPerCluster, chains0, k)
          ensures DirOk(img.dir, chains')
        {
          LookupAfterEmptyWrite(g.sectorsPerCluster, img0, chains0, img, chains', first, k);
        }
        assert |chains'[first]| == if first in chains0 then |chains0[first]| else 1;
        assert first !in chains0 ==> chains'[first] == [first];
      }
      ReadsEmpty(img, g.sectorsPerCluster, chains', img.dir[i], data);
    }

    /** Only one entry has been rewritten. */
    lemma EntryResized(img0: Image, chains0: map<nat, seq<nat>>, img: Image, chains': map<nat, seq<nat>>,
        key: seq<Byte>, i: nat, first: nat, size: nat)
      requires Sound(img0, g.sectorsPerCluster, chains0) && Sound(img, g.sectorsPerCluster, chains')
      requires TailZero(img0.dir) && i == Find(img0.dir, key) && first < 0x10000 && size < 0x1_0000_0000
      requires img.dir == img0.dir[i := Resized(img0.dir[i], first, size)]
      requires forall k :: k != key ==>
                 Lookup(img, g.sectorsPerCluster, chains', k) == Lookup(img0, g.sectorsPerCluster, chains0, k)
      ensures OthersSame(img0, chains0, img, chains', key) && (UniqueKeys(img0.dir) ==> UniqueKeys(img.dir))
      ensures Size(img.dir[i]) == size && Head(img.dir[i]) == first && img.dir[i][..26] == img0.dir[i][..26]
    {
      forall k
        ensures Find(img.dir, k) == Find(img0.dir, k)
        ensures UniqueKeys(img0.dir) ==> UniqueKeys(img.dir)
      {
        ResizeKeeps(img0.dir, i, first, size, k);
      }
    }

    /** A write that stores something, and the update of the directory entry. */
    lemma SomethingWritten(img0: Image, chains0: map<nat, seq<nat>>, img: Image, chains': map<nat, seq<nat>>,
        key: seq<Byte>, i: nat, first: nat, data: seq<Byte>)
      requires Sound(img0, g.sectorsPerCluster, chains0) && Sound(img, g.sectorsPerCluster, chains')
      requires DirOk(img0.dir, chains0) && i == Find(img0.dir, key) && Shown(img0.dir[i]) && Key(img0.dir[i]) == key
      requires Head(img0.dir[i]) == first || (Head(img0.dir[i]) == 0 && first !in chains0)
      requires 0 < first < 0x10000 && |data| < 0x1_0000_0000
      requires HeadOk(img.fat, chains', first)
      requires Written(g.sectorsPerCluster, img0.data, chains0, img.data, chains', first, data)
      requires Least(|data|, Budget(img0.fat, chains0, Head(img0.dir[i]))) == Least(|data|, Cap(|chains'[first]|)) > 0
      requires FreeCount(img.fat) + |chains'[first]| == FreeCount(img0.fat) + ChainLen(chains0, img0.dir[i])
      requires img.dir == img0.dir[i := Resized(img0.dir[i], first, |data|)]
      requires TakenInOrder(img0.fat, ChainLen(chains0, img0.dir[i]), img.fat, chains'[first])
      ensures DirOk(img.dir, chains')
      ensures FileWritten(img0, chains0, img, chains', key, data, Least(|data|, Cap(|chains'[first]|)))
    {
      FilesAfterWrite(g.sectorsPerCluster, img0, chains0, img, chains', i, first, data);
      EntryResized(img0, chains0, img, chains', key, i, first, |data|);
      ghost var r := Least(|data|, Cap(|chains'[first]|));
      assert ContentWritten(img0, chains0, img, chains', key, data, r);
      ChainGrown(img0, chains0, img, chains', img0.dir[i], first, data);
    }

    lemma ChainGrown(img0: Image, chains0: map<nat, seq<nat>>, img: Image, chains': map<nat, seq<nat>>,
        e0: DirEntry, first: nat, data: seq<Byte>)
      requires |img0.fat| == |img.fat| == CLUSTER_END && ChainsOk(img0.fat, chains0) && data != []
      requires Head(e0) == first || (Head(e0) == 0 && first !in chains0)
      requires Written(g.sectorsPerCluster, img0.data, chains0, img.data, chains', first, data)
      requires FreeCount(img.fat) + |chains'[first]| == FreeCount(img0.fat) + ChainLen(chains0, e0)
      requires |chains'[first]| > 0
      ensures Regrown(FreeCount(img0.fat), ChainLen(chains0, e0), FreeCount(img.fat), |chains'[first]|, |data|)
    {
      NoChainAtZero(img0.fat, chains0);
    }

    /** fat16_write_file: the number of bytes written, or -1 if there is no such file. */
    method WriteFile(name: seq<Byte>, data: seq<Byte>) returns (r: int)
      requires Valid() && CString(name) && |data| < 0x1_0000_0000
      modifies `sectors, `img, `chains
      ensures Valid()
      ensures r == -1 <==> Find(old(img).dir, UpperAll(name)) < 0
      ensures r == -1 ==> img == old(img) && chains == old(chains)
      ensures r != -1 ==> FileWritten(old(img), old(chains), img, chains, UpperAll(name), data, r)
    {
      ghost var key, img0, chains0 := UpperAll(name), img, chains;
      var index := FindEntry(name);
      FindFirst(img.dir, key, 0);
      if index < 0 { return -1; }
      var entry := GetEntry(index);
      var first, written := WriteVfs(Head(entry), data);
      if written > 0 {
        var again := FindEntry(name);
        entry := GetEntry(again);
        PutEntry(again, Resized(entry, first, |data|));
        SomethingWritten(img0, chains0, img, chains, key, index, first, data);
      } else {
        NothingWritten(img0, chains0, img, chains, key, index, first, data);
      }
      r := written;
    }

    /** fat16_delete_file: 0, or -1 if there is no such file. */
    method DeleteFile(name: seq<Byte>) returns (r: int)
      requires Valid() && CString(name)
      modifies `sectors, `img, `chains
      ensures Valid()
      ensures r == (if Find(old(img).dir, UpperAll(name)) < 0 then -1 else 0)
      ensures r == -1 ==> img == old(img) && chains == old(chains)
      ensures r == 0 ==>
                var i := Find(old(img).dir, UpperAll(name));
                img.data == old(img).data && img.dir == old(img).dir[i := old(img).dir[i][0 := DELETED]]
      ensures r == 0 ==>
                FreeCount(img.fat) ==
                  old(FreeCount(img.fat) + |ChainAt(Head(img.dir[Find(img.dir, UpperAll(name))]))|)
      ensures r == 0 ==>
                var ch := old(ChainAt(Head(img.dir[Find(img.dir, UpperAll(name))])));
                forall c :: 0 <= c < CLUSTER_END ==> img.fat[c] == if c in ch then 0 else old(img).fat[c]
      ensures UniqueKeys(old(img).dir) ==> UniqueKeys(img.dir)
      ensures UniqueKeys(old(img).dir) ==>
                Files(UpperAll(name)) == None && forall key :: key != UpperAll(name) ==> Files(key) == old(Files(key))
    {
      ghost var key0, spc, img0, chains0 := UpperAll(name), g.sectorsPerCluster, img, chains;
      var index := FindEntry(name);
      FindFirst(img.dir, key0, 0);
      if index < 0 { return -1; }
      var entry := GetEntry(index);
      NoChainAtZero(img.fat, chains);
      FreeChain(Head(entry));
      assert Head(entry) == 0 ==> img.fat == img0.fat;
      if Head(entry) != 0 {
        assert HeadOk(img0.fat, chains0, Head(entry));
        FreedChain(img0.fat, chains0[Head(entry)], Head(entry));
        DropChain(img0.fat, chains0, Head(entry));
        FreedCount(img0.fat, chains0[Head(entry)]);
        chains := chains - {Head(entry)};
      }
      assert chains == chains0 - {Head(entry)};
      PutEntry(index, entry[0 := DELETED]);
      forall key
        ensures UniqueKeys(img0.dir) ==>
                  Lookup(img, spc, chains, key) == if key == key0 then None else Lookup(img0, spc, chains0, key)
        ensures DirOk(img.dir, chains) && (UniqueKeys(img0.dir) ==> UniqueKeys(img.dir))
      {
        LookupAfterDelete(spc, img0, chains0, img, chains, index, key);
      }
      r := 0;
    }
  }

  /** A disk that is zero behind its boot sector and the other reserved ones. */
  ghost predicate Formatted(d: seq<Sector>) {
    && d != [] && BootGeometry(d[0]).Ok() && BootGeometry(d[0]).Fits(d)
    && forall n :: BootGeometry(d[0]).reserved <= n < |d| ==> d[n] == Blank()
  }

  /** It holds an empty volume. */
  lemma BlankVolume(d: seq<Sector>) returns (img: Image)
    requires Formatted(d)
    ensures Holds(BootGeometry(d[0]), d, img) && Mirrored(BootGeometry(d[0]), d)
    ensures ChainsOk(img.fat, map[]) && DirOk(img.dir, map[])
    ensures forall c :: IsCluster(c) ==> img.fat[c] == 0
    ensures forall i :: 0 <= i < |img.dir| ==> img.dir[i][0] == 0
    ensures forall key :: Find(img.dir, key) == -1
  {
    var g := BootGeometry(d[0]);
    var entry: DirEntry := Zeros(32);
    img := Image(seq(CLUSTER_END, c => 0), seq(16 * g.RootSectors(), i => entry),
                 map c: nat | 2 <= c < CLUSTER_END :: ClusterAt(g, d, c));
    FatRoom(g);
    assert forall i: nat {:trigger DirAt(g, d, i)} :: i < 16 * g.RootSectors() ==> DirAt(g, d, i) == entry;
    forall key ensures Find(img.dir, key) == -1 { FindFirst(img.dir, key, 0); }
    BlankMirrored(d);
  }

  lemma BlankMirrored(d: seq<Sector>)
    requires Formatted(d)
    ensures Mirrored(BootGeometry(d[0]), d)
  {
    var g := BootGeometry(d[0]);
    FatRoom(g);
    if g.fats > 1 {
      assert d[g.reserved..g.reserved + g.sectorsPerFat] ==
             d[g.reserved + g.sectorsPerFat..g.reserved + 2 * g.sectorsPerFat];
    }
  }

  function Blank(): Sector { Zeros(512) }

  const NAME_A: seq<Byte> := [65]
  const NAME_B: seq<Byte> := [66]

  lemma OneLetter(c: Byte)
    requires 65 <= c <= 90
    ensures WellFormed([c]) && StoredName([c])[0] == c && UpperAll([c]) == [c] && CString([c])
  {
    assert ParseName([c][..0]) == START;
    assert ParseName([c]).base == [c];
  }

  /** A boot sector: sectors of 512 bytes, one a cluster, one reserved, two FATs of 256 sectors,
      512 root entries. */
  const BOOT: Sector :=
    Zeros(11) + [0, 2] + [1] + [1, 0] + [2] + [0, 2] + [0, 0] + [0xF8] + [0, 1] + Zeros(488)

  /** The entry of a file A of one byte in cluster 2. */
  const ENTRY_A: DirEntry :=
    [65, 32, 32, 32, 32, 32, 32, 32, 32, 32, 32, 0x20] + Zeros(14) + [2, 0] + [1, 0, 0, 0]

  /** The cluster numbers below n. */
  ghost function ClustersBelow(n: nat): (r: set<nat>)
    requires n >= 2
    ensures |r| == n - 2 && forall c :: c in r <==> 2 <= c < n
  {
    if n == 2 then {} else ClustersBelow(n - 1) + {n - 1}
  }

  /** A client: a freshly formatted disk is mounted. */
  method MountBlank(d: seq<Sector>) returns (v: Volume)
    requires Formatted(d) && BootGeometry(d[0]).rootEntries > 0
    ensures fresh(v) && v.Valid() && FreeCount(v.img.fat) == 0xFFEE
    ensures |v.img.dir| >= 16 && forall i :: 0 <= i < |v.img.dir| ==> v.img.dir[i][0] == 0
    ensures forall key :: Find(v.img.dir, key) == -1
    ensures (forall c :: IsCluster(c) ==> v.img.fat[c] == 0) && v.g == BootGeometry(d[0]) && v.disk == d
  {
    ghost var img := BlankVolume(d);
    AllFree(img);
    v := new Volume(d, img, map[]);
  }

  lemma AllFree(img: Image)
    requires |img.fat| == CLUSTER_END && forall c :: IsCluster(c) ==> img.fat[c] == 0
    ensures FreeCount(img.fat) == 0xFFEE
  {
    assert FreeSet(img.fat) == ClustersBelow(CLUSTER_END);
  }

  /** It takes a new file, A. */
  method CreateA(d: seq<Sector>) returns (v: Volume)
    requires Formatted(d) && BootGeometry(d[0]).rootEntries > 0
    ensures fresh(v) && v.Valid() && FreeCount(v.img.fat) == 0xFFEE
    ensures |v.img.dir| >= 16 && v.img.dir[1][0] == 0
    ensures v.Files(NAME_A) == Some([]) && forall key :: key != NAME_A ==> v.Files(key) == None
    ensures Find(v.img.dir, NAME_A) == 0 && v.img.dir[0] == NewEntry(NAME_A, ATTR_ARCHIVE, 0)
    ensures (forall c :: IsCluster(c) ==> v.img.fat[c] == 0) && v.g == BootGeometry(d[0]) && v.disk == d
  {
    v := MountBlank(d);
    OneLetter(65);
    assert FreeFrom(v.img.dir, 0) == 0;
    var r := v.CreateFile(NAME_A);
  }

  lemma OneCluster(fat0: Fat, fat: Fat, ch: seq<nat>)
    requires TakenInOrder(fat0, 0, fat, ch) && |ch| == 1 && forall c :: IsCluster(c) ==> fat0[c] == 0
    ensures ch == [2] && fat[2] == END_OF_CHAIN
  {
    assert NewAt(ch, 0, 0) && (ChangedAt(fat0, fat, 2) || FreeAt(fat, 2));
  }

  /** Byte 7 has been written to A: where it is in the image. */
  ghost predicate SevenIn(img: Image, e0: DirEntry) {
    && |img.fat| == CLUSTER_END && img.fat[2] == END_OF_CHAIN
    && 2 in img.data && img.data[2] != [] && img.data[2][0][0] == 7
    && img.dir != [] && img.dir[0][..26] == e0[..26] && Head(img.dir[0]) == 2 && Size(img.dir[0]) == 1
  }

  /** The first write to the first file. */
  method WriteSeven(v: Volume)
    requires v.Valid() && |v.img.dir| > 0 && v.Files(NAME_A) == Some([]) && Find(v.img.dir, NAME_A) == 0
    requires Head(v.img.dir[0]) == 0 && forall c :: IsCluster(c) ==> v.img.fat[c] == 0
    modifies v`sectors, v`img, v`chains
    ensures v.Valid() && v.Files(NAME_A) == Some([7]) && SevenIn(v.img, old(v.img).dir[0])
  {
    OneLetter(65);
    ghost var img0, chains0 := v.img, v.chains;
    AllFree(img0);
    v.EmptyBudget(img0.fat, chains0, 0);
    var r := v.WriteFile(NAME_A, [7]);
    FirstWrite(v, img0, chains0);
  }

  lemma FirstWrite(v: Volume, img0: Image, chains0: map<nat, seq<nat>>)
    requires v.Valid() && Sound(img0, v.g.sectorsPerCluster, chains0)
    requires v.FileWritten(img0, chains0, v.img, v.chains, NAME_A, [7], 1)
    requires Find(img0.dir, NAME_A) == 0 && Head(img0.dir[0]) == 0
    requires forall c :: IsCluster(c) ==> img0.fat[c] == 0
    ensures v.Files(NAME_A) == Some([7]) && SevenIn(v.img, img0.dir[0])
  {
    var e := v.img.dir[0];
    NoChainAtZero(img0.fat, chains0);
    assert [7][..1] == [7];
    var ch := v.chains[Head(e)];
    OneTaken(v, FreeCount(img0.fat), FreeCount(v.img.fat), |ch|);
    FirstOfFile(v, img0.fat, e, ch);
  }

  lemma OneTaken(v: Volume, free0: nat, free: nat, n: nat)
    requires v.g.sectorsPerCluster >= 1 && v.Regrown(free0, 0, free, n, 1)
    ensures n <= 1
  {
    ReachPositive(v.g.sectorsPerCluster, if n > 1 then n - 1 else 0);
  }

  lemma FirstOfFile(v: Volume, fat0: Fat, e: DirEntry, ch: seq<nat>)
    requires v.Valid() && Head(e) in v.chains && ch == v.chains[Head(e)] && |ch| <= 1
    requires TakenInOrder(fat0, 0, v.img.fat, ch) && forall c :: IsCluster(c) ==> fat0[c] == 0
    requires FileBytes(v.img, v.g.sectorsPerCluster, v.chains, e) == [7]
    ensures Head(e) == 2 && v.img.fat[2] == END_OF_CHAIN && v.img.data[2][0][0] == 7
  {
    assert HeadOk(v.img.fat, v.chains, Head(e));
    OneCluster(fat0, v.img.fat, ch);
    FirstByte(v.img.data, v.g.sectorsPerCluster);
    var content := Content(v.img, v.g.sectorsPerCluster, v.chains, e);
    assert content[..1][0] == content[0];
  }

  /** The content of cluster 2 starts with its first byte. */
  lemma FirstByte(data: Clusters, spc: nat)
    requires Room(data, spc)
    ensures IsCluster(2) && AllClusters([2]) && data[2] != []
    ensures Flatten(Stored(data, spc, [2]))[..1] == [data[2][0][0]]
  {
    assert [2][..0] == [];
    assert Stored(data, spc, [2]) == Stored(data, spc, []) + data[2] == data[2];
  }

  /** The file then holds one byte, and writing nothing over it does not empty it. */
  method EmptyWrite(d: seq<Sector>) returns (v: Volume, r: int)
    requires Formatted(d) && BootGeometry(d[0]).rootEntries > 0
    ensures v.Valid() && r == 0 && v.Files(NAME_A) == Some([7])
  {
    v := CreateA(d);
    WriteSeven(v);
    OneLetter(65);
    r := v.WriteFile(NAME_A, []);
  }

  /** Writing nothing to the empty file costs a cluster. */
  method ClusterLost(d: seq<Sector>) returns (v: Volume, r: int)
    requires Formatted(d) && BootGeometry(d[0]).rootEntries > 0
    ensures v.Valid() && r == 0 && v.Files(NAME_A) == Some([]) && FreeCount(v.img.fat) == 0xFFED
  {
    v := CreateA(d);
    OneLetter(65);
    r := v.WriteFile(NAME_A, []);
  }

  /** A second file, B. */
  method CreateBoth(d: seq<Sector>) returns (v: Volume)
    requires Formatted(d) && BootGeometry(d[0]).rootEntries > 0
    ensures fresh(v) && v.Valid() && FreeCount(v.img.fat) == 0xFFEE
    ensures v.Files(NAME_A) == Some([]) && v.Files(NAME_B) == Some([])
  {
    v := CreateA(d);
    OneLetter(66);
    assert v.Files(NAME_B) == None;
    var r := v.CreateFile(NAME_B);
    assert v.Files(UpperAll(NAME_B)) == Some([]);
  }

  /** A sector's worth of data or less is stored as long as a cluster is free, and takes no
      second one. */
  method WriteSmall(v: Volume, name: seq<Byte>, data: seq<Byte>, ghost key: seq<Byte>, ghost other: seq<Byte>)
    requires v.Valid() && CString(name) && v.Files(UpperAll(name)) != None
    requires 0 < |data| <= 512 && FreeCount(v.img.fat) > 0
    modifies v`sectors, v`img, v`chains
    ensures v.Valid() && FreeCount(v.img.fat) >= old(FreeCount(v.img.fat)) - 1
    ensures key != UpperAll(name) ==> v.Files(key) == old(v.Files(key))
    ensures v.Recorded(UpperAll(name), data)
    ensures key != UpperAll(name) && old(v.Recorded(key, other)) ==> v.Recorded(key, other)
  {
    ghost var img0, chains0 := v.img, v.chains;
    FindFirst(v.img.dir, key, 0);
    FindFirst(v.img.dir, UpperAll(name), 0);
    var r := v.WriteFile(name, data);
    SmallStored(v, img0, chains0, UpperAll(name), data, r);
  }

  lemma SmallStored(v: Volume, img0: Image, chains0: map<nat, seq<nat>>, key: seq<Byte>, data: seq<Byte>, r: int)
    requires v.Valid() && Sound(img0, v.g.sectorsPerCluster, chains0)
    requires v.FileWritten(img0, chains0, v.img, v.chains, key, data, r)
    requires 0 < |data| <= 512 && FreeCount(img0.fat) > 0
    ensures v.Recorded(key, data) && FreeCount(v.img.fat) >= FreeCount(img0.fat) - 1
  {
    SmallAll(v, img0, chains0, key, data, r);
    var e0, e := img0.dir[Find(img0.dir, key)], v.img.dir[Find(img0.dir, key)];
    OneMore(v, FreeCount(img0.fat), ChainLen(chains0, e0), FreeCount(v.img.fat), ChainLen(v.chains, e), |data|);
  }

  lemma SmallAll(v: Volume, img0: Image, chains0: map<nat, seq<nat>>, key: seq<Byte>, data: seq<Byte>, r: int)
    requires v.Valid() && Sound(img0, v.g.sectorsPerCluster, chains0)
    requires Find(img0.dir, key) >= 0 && |v.img.dir| == |img0.dir|
    requires v.ContentWritten(img0, chains0, v.img, v.chains, key, data, r)
    requires 0 < |data| <= 512 && FreeCount(img0.fat) > 0
    ensures r == |data| && v.Files(key) == Some(data)
  {
    var n0 := ChainLen(chains0, img0.dir[Find(img0.dir, key)]);
    ReachPositive(v.g.sectorsPerCluster, FreeCount(img0.fat) + n0);
    assert data[..|data|] == data;
  }

  lemma OneMore(v: Volume, free0: nat, n0: nat, free: nat, n: nat, size: nat)
    requires v.g.sectorsPerCluster >= 1 && v.Regrown(free0, n0, free, n, size) && size <= 512
    ensures free >= free0 - 1
  {
    ReachPositive(v.g.sectorsPerCluster, if n > 1 then n - 1 else 0);
  }

  /** What has been written to two files is read from them. */
  method TwoFiles(d: seq<Sector>, a: seq<Byte>, b: seq<Byte>) returns (readA: seq<Byte>, readB: seq<Byte>)
    requires Formatted(d) && BootGeometry(d[0]).rootEntries > 0
    requires 0 < |a| <= 512 && 0 < |b| <= 512
    ensures readA == a && readB == b
  {
    OneLetter(65);
    OneLetter(66);
    var v := CreateBoth(d);
    WriteSmall(v, NAME_A, a, NAME_B, []);
    WriteSmall(v, NAME_B, b, NAME_A, a);
    readA := v.ReadNamed(NAME_A, a);
    readB := v.ReadNamed(NAME_B, b);
  }

  lemma BootFields()
    ensures BootGeometry(BOOT) == Geometry(1, 1, 2, 256, 512)
    ensures BootGeometry(BOOT).RootSectors() == 32
  {}

  lemma EntryBytes(e: DirEntry)
    requires e[..26] == NewEntry(NAME_A, ATTR_ARCHIVE, 0)[..26] && Head(e) == 2 && Size(e) == 1
    ensures e == ENTRY_A
  {
    OneLetter(65);
    var e0 := NewEntry(NAME_A, ATTR_ARCHIVE, 0);
    assert e0[..11] == ENTRY_A[..11];
    forall k | 0 <= k < 26 ensures e[k] == ENTRY_A[k] {
      assert e[k] == e[..26][k] == e0[..26][k];
      if k < 11 { assert e0[k] == e0[..11][k] && ENTRY_A[k] == ENTRY_A[..11][k]; }
    }
  }

  /** Where the sectors of this volume are. */
  lemma OnDisk(g: Geometry, d0: seq<Sector>, d: seq<Sector>, img: Image)
    requires g == Geometry(1, 1, 2, 256, 512) && Holds(g, d, img) && Mirrored(g, d) && Untouched(g, d0, d)
    ensures |d| == |d0| >= 546 && d[0] == d0[0] && d[1] == d[257]
    ensures Get16(d[1], 4) == img.fat[2] && d[513][..32] == img.dir[0] && d[545] == img.data[2][0]
  {
    assert g.RootStart() == 513 && g.RootSectors() == 32 && !Managed(g, 0);
    assert FatEntry(g, d, 2) == img.fat[2];
    assert DirAt(g, d, 0) == img.dir[0];
    SectorAt(g, d, img, 2, 0);
    assert d[1..257][0] == d[257..513][0];
  }

  lemma BlankDisk(d: seq<Sector>)
    requires |d| >= 545 + 0xFFEE && d[0] == BOOT && forall n :: 1 <= n < |d| ==> d[n] == Blank()
    ensures Formatted(d) && BootGeometry(d[0]) == Geometry(1, 1, 2, 256, 512)
  {
    BootFields();
  }

  /** A client, in absolute sectors: on a blank disk with this boot sector, the first file's one
      byte goes to sector 545, its entry to sector 513, the mark of its cluster to both FATs, and
      nothing to the boot sector. */
  method FirstFile(d: seq<Sector>) returns (v: Volume)
    requires |d| >= 545 + 0xFFEE && d[0] == BOOT && forall n :: 1 <= n < |d| ==> d[n] == Blank()
    ensures |v.sectors| == |d| && v.sectors[0] == BOOT
    ensures Get16(v.sectors[1], 4) == Get16(v.sectors[257], 4) == 0xFFFF
    ensures v.sectors[513][..32] == ENTRY_A && v.sectors[545][0] == 7
  {
    BlankDisk(d);
    v := CreateA(d);
    WriteSeven(v);
    EntryBytes(v.img.dir[0]);
    OnDisk(v.g, d, v.sectors, v.img);
  }
}
