/** Where a FAT16 volume keeps things on the disk, byte by byte (src/drivers/fat16.cpp,
    src/drivers/fat16.h). */
module Fat16Layout {
  import opened Bytes

  type Sector = s: seq<Byte> | |s| == 512 witness seq<Byte>(512, i => 0)

  /** A 32-byte directory entry. */
  type DirEntry = e: seq<Byte> | |e| == 32 witness seq<Byte>(32, i => 0)

  /** One past the last cluster number in use; larger FAT values end a chain. */
  const CLUSTER_END: nat := 0xFFF0
  const END_OF_CHAIN: nat := 0xFFFF

  predicate IsCluster(c: int) { 2 <= c < CLUSTER_END }

  lemma Copies(n: nat, size: nat)
    ensures (n >= 1 ==> n * size >= size) && (n >= 2 ==> n * size >= 2 * size)
  {}

  /** The fields of the boot sector that fat16_init keeps. */
  datatype Geometry = Geometry(
    sectorsPerCluster: nat, reserved: nat, fats: nat, sectorsPerFat: nat, rootEntries: nat)
  {
    /** The FAT covers every cluster number below 0xFFF0. */
    ghost predicate Ok() { sectorsPerCluster >= 1 && fats >= 1 && sectorsPerFat >= 256 }

    function RootStart(): (r: nat)
      ensures fats >= 1 ==> reserved + sectorsPerFat <= r
      ensures fats >= 2 ==> reserved + 2 * sectorsPerFat <= r
    {
      Copies(fats, sectorsPerFat);
      reserved + fats * sectorsPerFat
    }

    function RootSectors(): nat { (rootEntries * 32 + 511) / 512 }

    function DataStart(): nat { RootStart() + RootSectors() }

    /** The disk has room for every cluster number below 0xFFF0. */
    ghost predicate Fits(d: seq<Sector>) {
      |d| >= DataStart() + (CLUSTER_END - 2) * sectorsPerCluster
    }
  }

  /** The fields as they lie in the boot sector. */
  function BootGeometry(boot: Sector): Geometry {
    Geometry(boot[13], Get16(boot, 14), boot[16], Get16(boot, 22), Get16(boot, 17))
  }

  /** The boot sector in the layout of Microsoft's FAT specification, version 1.03, section "Boot
      Sector and BPB": numbers of two bytes have the low byte first. */
  lemma BootBytes(boot: Sector)
    ensures var g := BootGeometry(boot);
            && g.sectorsPerCluster == boot[13] && g.reserved == LittleEndian(boot[14..16]) && g.fats == boot[16]
            && g.rootEntries == LittleEndian(boot[17..19]) && g.sectorsPerFat == LittleEndian(boot[22..24])
  {
    LittleEndian2(boot[14..16]);
    LittleEndian2(boot[17..19]);
    LittleEndian2(boot[22..24]);
  }

  /** The root directory has no more sectors than its entries need, it starts right behind the
      last FAT, and the clusters follow it without gaps, cluster 2 first (section "FAT Data
      Structure"). */
  lemma Regions(g: Geometry, c: nat)
    ensures 32 * g.rootEntries <= 512 * g.RootSectors() < 32 * g.rootEntries + 512
    ensures g.RootStart() == g.reserved + g.fats * g.sectorsPerFat
    ensures ClusterToSector(g, 2) == g.RootStart() + g.RootSectors()
    ensures ClusterToSector(g, c + 1) == ClusterToSector(g, c) + g.sectorsPerCluster
  {
    assert (c - 1) * g.sectorsPerCluster == (c - 2) * g.sectorsPerCluster + g.sectorsPerCluster;
  }

  /** What a volume stores: the FAT, the root directory and the sectors of each cluster. */
  datatype Image = Image(fat: seq<nat>, dir: seq<DirEntry>, data: map<nat, seq<Sector>>)

  // ---- the three regions ----

  function FatSector(g: Geometry, c: nat): nat { g.reserved + c * 2 / 512 }

  function FatEntry(g: Geometry, d: seq<Sector>, c: nat): nat
    requires g.Ok() && g.Fits(d) && c < CLUSTER_END
  {
    FatRoom(g);
    Get16(d[FatSector(g, c)], c * 2 % 512)
  }

  lemma FatRoom(g: Geometry)
    requires g.Ok()
    ensures g.reserved + g.sectorsPerFat <= g.RootStart()
    ensures g.fats > 1 ==> g.reserved + 2 * g.sectorsPerFat <= g.RootStart()
  {}

  function DirAt(g: Geometry, d: seq<Sector>, i: nat): DirEntry
    requires i / 16 < g.RootSectors() && g.DataStart() <= |d|
  {
    d[g.RootStart() + i / 16][i % 16 * 32..i % 16 * 32 + 32]
  }

  /** fat16_cluster_to_sector: clusters are counted from 2. */
  function ClusterToSector(g: Geometry, c: nat): int {
    g.DataStart() + (c - 2) * g.sectorsPerCluster
  }

  lemma FatEntryAt(g: Geometry, d: seq<Sector>, img: Image, c: nat)
    requires Holds(g, d, img) && c < CLUSTER_END
    ensures FatSector(g, c) < |d| && img.fat[c] == Get16(d[FatSector(g, c)], c * 2 % 512)
  {
    FatRoom(g);
    assert img.fat[c] == FatEntry(g, d, c);
  }

  lemma MulMono(a: int, b: int, m: nat)
    requires a <= b
    ensures a * m <= b * m
  {}

  lemma ClusterRoom(g: Geometry, c: nat)
    requires IsCluster(c)
    ensures g.DataStart() <= ClusterToSector(g, c)
    ensures ClusterToSector(g, c) + g.sectorsPerCluster <= g.DataStart() + (CLUSTER_END - 2) * g.sectorsPerCluster
  {
    MulMono(0, c - 2, g.sectorsPerCluster);
    MulMono(c - 1, CLUSTER_END - 2, g.sectorsPerCluster);
  }

  /** Sectors of different clusters are different. */
  lemma ClustersApart(g: Geometry, a: nat, b: nat)
    requires a < b
    ensures ClusterToSector(g, a) + g.sectorsPerCluster <= ClusterToSector(g, b)
  {
    MulMono(a - 1, b - 2, g.sectorsPerCluster);
  }

  function ClusterAt(g: Geometry, d: seq<Sector>, c: nat): (r: seq<Sector>)
    requires g.Fits(d) && IsCluster(c)
    ensures |r| == g.sectorsPerCluster
  {
    ClusterRoom(g, c);
    d[ClusterToSector(g, c)..ClusterToSector(g, c) + g.sectorsPerCluster]
  }

  function PutSector(cl: seq<Sector>, i: nat, s: Sector): seq<Sector>
    requires i < |cl|
  {
    cl[i := s]
  }

  ghost predicate Room(data: map<nat, seq<Sector>>, spc: nat) {
    spc >= 1 && forall c :: IsCluster(c) ==> c in data && |data[c]| == spc
  }

  /** The image that the sectors hold. */
  ghost predicate Holds(g: Geometry, d: seq<Sector>, img: Image) {
    && g.Ok() && g.Fits(d)
    && |img.fat| == CLUSTER_END && |img.dir| == 16 * g.RootSectors() && Room(img.data, g.sectorsPerCluster)
    && (forall c: nat {:trigger FatEntry(g, d, c)} :: c < CLUSTER_END ==> img.fat[c] == FatEntry(g, d, c))
    && (forall i: nat {:trigger DirAt(g, d, i)} :: i < 16 * g.RootSectors() ==> img.dir[i] == DirAt(g, d, i))
    && (forall c: nat {:trigger ClusterAt(g, d, c)} :: IsCluster(c) ==> img.data[c] == ClusterAt(g, d, c))
  }

  // ---- the image, byte by byte ----

  /** Byte n of the disk. */
  function ByteOf(d: seq<Sector>, n: nat): Byte
    requires n / 512 < |d|
  {
    d[n / 512][n % 512]
  }

  lemma InSector(k: nat, j: nat)
    requires j < 512
    ensures (512 * k + j) / 512 == k && (512 * k + j) % 512 == j
  {}

  /** Entry c of the FAT is two bytes, the low one first. */
  lemma FatBytes(g: Geometry, d: seq<Sector>, img: Image, c: nat)
    requires Holds(g, d, img) && c < CLUSTER_END
    ensures var n := 512 * g.reserved + 2 * c;
            (n + 1) / 512 < |d| && img.fat[c] == ByteOf(d, n) + 256 * ByteOf(d, n + 1)
  {
    FatEntryAt(g, d, img, c);
    InSector(FatSector(g, c), c * 2 % 512);
    InSector(FatSector(g, c), c * 2 % 512 + 1);
  }

  /** The entries of the root directory lie behind the FATs, 32 bytes each. */
  lemma DirBytes(g: Geometry, d: seq<Sector>, img: Image, i: nat, j: nat)
    requires Holds(g, d, img) && i < |img.dir| && j < 32
    ensures var n := 512 * (g.reserved + g.fats * g.sectorsPerFat) + 32 * i + j;
            n / 512 < |d| && img.dir[i][j] == ByteOf(d, n)
  {
    assert img.dir[i] == DirAt(g, d, i);
    InSector(g.RootStart() + i / 16, i % 16 * 32 + j);
  }

  /** Behind the r sectors of the root directory come the clusters, from cluster 2 on. */
  lemma DataBytes(g: Geometry, d: seq<Sector>, img: Image, r: nat, c: nat, k: nat, j: nat)
    requires Holds(g, d, img) && 32 * g.rootEntries <= 512 * r < 32 * g.rootEntries + 512
    requires IsCluster(c) && k < g.sectorsPerCluster && j < 512
    ensures (c - 2) * g.sectorsPerCluster >= 0
    ensures var n := 512 * (g.reserved + g.fats * g.sectorsPerFat + r + (c - 2) * g.sectorsPerCluster + k) + j;
            n / 512 < |d| && img.data[c][k][j] == ByteOf(d, n)
  {
    Regions(g, c);
    ClusterRoom(g, c);
    SectorAt(g, d, img, c, k);
    InSector(ClusterToSector(g, c) + k, j);
  }

  /** The second FAT is a copy of the first. */
  ghost predicate Mirrored(g: Geometry, d: seq<Sector>)
    requires g.Ok() && g.Fits(d)
  {
    FatRoom(g);
    g.fats > 1 ==>
      d[g.reserved..g.reserved + g.sectorsPerFat] ==
      d[g.reserved + g.sectorsPerFat..g.reserved + 2 * g.sectorsPerFat]
  }

  /** May sector n be written: does it lie in the first two FATs, the root directory or a cluster? */
  predicate Managed(g: Geometry, n: nat) {
    || g.reserved <= n < g.reserved + 256
    || (g.fats > 1 && g.reserved + g.sectorsPerFat <= n < g.reserved + g.sectorsPerFat + 256)
    || g.RootStart() <= n < g.DataStart() + (CLUSTER_END - 2) * g.sectorsPerCluster
  }

  /** No other sector has changed. */
  ghost predicate Untouched(g: Geometry, d0: seq<Sector>, d: seq<Sector>) {
    |d| == |d0| && forall n: nat {:trigger Managed(g, n)} :: n < |d| && !Managed(g, n) ==> d[n] == d0[n]
  }

  lemma SetFatManaged(g: Geometry, d0: seq<Sector>, d: seq<Sector>, c: nat, v: nat)
    requires g.Ok() && g.Fits(d) && c < CLUSTER_END && v < 0x10000 && Untouched(g, d0, d)
    ensures Untouched(g, d0, SetFat(g, d, c, v))
  {
    FatRoom(g);
    assert c * 2 / 512 < 256;
    assert Managed(g, FatSector(g, c));
    if g.fats > 1 { assert Managed(g, FatSector(g, c) + g.sectorsPerFat); }
  }

  lemma SetDirManaged(g: Geometry, d0: seq<Sector>, d: seq<Sector>, i: nat, e: DirEntry)
    requires g.Fits(d) && i / 16 < g.RootSectors() && Untouched(g, d0, d) && g.DataStart() <= |d|
    ensures Untouched(g, d0, SetDir(g, d, i, e))
  {
    ClusterRoom(g, 2);
    assert Managed(g, g.RootStart() + i / 16);
  }

  lemma SetDataManaged(g: Geometry, d0: seq<Sector>, d: seq<Sector>, c: nat, i: nat, s: Sector)
    requires g.Fits(d) && IsCluster(c) && i < g.sectorsPerCluster && Untouched(g, d0, d)
    requires 0 <= ClusterToSector(g, c) + i < |d|
    ensures Untouched(g, d0, d[ClusterToSector(g, c) + i := s])
  {
    ClusterRoom(g, c);
    assert Managed(g, ClusterToSector(g, c) + i);
  }

  /** The sectors after fat16_set_fat_entry. */
  function SetFat(g: Geometry, d: seq<Sector>, c: nat, v: nat): (r: seq<Sector>)
    requires g.Ok() && g.Fits(d) && c < CLUSTER_END && v < 0x10000
    ensures |r| == |d|
  {
    FatRoom(g);
    var n := FatSector(g, c);
    var buffer: Sector := Splice(d[n], c * 2 % 512, Le16(v));
    if g.fats > 1 then d[n := buffer][n + g.sectorsPerFat := buffer] else d[n := buffer]
  }

  lemma SetFatSector(g: Geometry, d: seq<Sector>, c: nat, v: nat, k: nat)
    requires g.Ok() && g.Fits(d) && c < CLUSTER_END && v < 0x10000 && k < g.sectorsPerFat
    ensures g.reserved + k < |d|
    ensures SetFat(g, d, c, v)[g.reserved + k] ==
              if k == c * 2 / 512 then Splice(d[g.reserved + k], c * 2 % 512, Le16(v)) else d[g.reserved + k]
  {
    FatRoom(g);
  }

  lemma SetFatEntry(g: Geometry, d: seq<Sector>, c: nat, v: nat, c': nat)
    requires g.Ok() && g.Fits(d) && c < CLUSTER_END && v < 0x10000 && c' < CLUSTER_END
    ensures FatEntry(g, SetFat(g, d, c, v), c') == if c' == c then v else FatEntry(g, d, c')
  {
    var row, at := c * 2 / 512, c * 2 % 512;
    var row', at' := c' * 2 / 512, c' * 2 % 512;
    Halved(c, row, at);
    Halved(c', row', at');
    assert c' < 256 * 256 && row' < 256;
    SetFatAt(g, d, c, v, row', at');
  }

  /** Where the two bytes of an entry lie. */
  lemma Halved(c: nat, row: nat, at: nat)
    requires row == c * 2 / 512 && at == c * 2 % 512
    ensures 2 * c == 512 * row + at && at + 2 <= 512
  {
    assert at == 2 * (c - 256 * row);
  }

  /** The two bytes at position `at` of sector `row` of the FAT after a write. */
  lemma SetFatAt(g: Geometry, d: seq<Sector>, c: nat, v: nat, row: nat, at: nat)
    requires g.Ok() && g.Fits(d) && c < CLUSTER_END && v < 0x10000 && row < g.sectorsPerFat && at + 2 <= 512
    requires row == c * 2 / 512 ==> at == c * 2 % 512 || at + 2 <= c * 2 % 512 || c * 2 % 512 + 2 <= at
    ensures g.reserved + row < |d|
    ensures Get16(SetFat(g, d, c, v)[g.reserved + row], at) ==
              if row == c * 2 / 512 && at == c * 2 % 512 then v else Get16(d[g.reserved + row], at)
  {
    SetFatSector(g, d, c, v, row);
    if row == c * 2 / 512 { SplicedEntry(d[g.reserved + row], c * 2 % 512, v, at); }
  }

  /** What a two-byte entry at another place, or the same one, says after a write. */
  lemma SplicedEntry(s: Sector, at: nat, v: nat, at': nat)
    requires at + 2 <= 512 && at' + 2 <= 512 && v < 0x10000
    requires at' == at || at' + 2 <= at || at + 2 <= at'
    ensures Get16(Splice(s, at, Le16(v)), at') == if at' == at then v else Get16(s, at')
  {
    Spliced16(s, at, v);
  }

  /** Writing one FAT entry changes that entry only, in both copies. */
  lemma SetFatImage(g: Geometry, d: seq<Sector>, img: Image, c: nat, v: nat)
    requires Holds(g, d, img) && c < CLUSTER_END && v < 0x10000
    ensures Holds(g, SetFat(g, d, c, v), img.(fat := img.fat[c := v]))
  {
    var d' := SetFat(g, d, c, v);
    FatRoom(g);
    forall k: nat | k < CLUSTER_END ensures FatEntry(g, d', k) == img.fat[c := v][k] { SetFatEntry(g, d, c, v, k); }
    SameDir(g, d, d');
    SameData(g, d, d');
  }

  lemma SameFat(g: Geometry, d: seq<Sector>, d': seq<Sector>)
    requires g.Ok() && g.Fits(d) && |d'| == |d|
    requires forall n :: 0 <= n < g.RootStart() ==> d'[n] == d[n]
    ensures forall k: nat {:trigger FatEntry(g, d', k)} :: k < CLUSTER_END ==> FatEntry(g, d', k) == FatEntry(g, d, k)
  {}

  lemma SameDir(g: Geometry, d: seq<Sector>, d': seq<Sector>)
    requires g.DataStart() <= |d| == |d'|
    requires forall n :: g.RootStart() <= n < g.DataStart() ==> d'[n] == d[n]
    ensures forall i: nat {:trigger DirAt(g, d', i)} :: i < 16 * g.RootSectors() ==> DirAt(g, d', i) == DirAt(g, d, i)
  {}

  lemma SameData(g: Geometry, d: seq<Sector>, d': seq<Sector>)
    requires g.Fits(d) && |d'| == |d|
    requires forall n :: g.DataStart() <= n < |d| ==> d'[n] == d[n]
    ensures forall c: nat {:trigger ClusterAt(g, d', c)} :: IsCluster(c) ==> ClusterAt(g, d', c) == ClusterAt(g, d, c)
  {
    forall c: nat | IsCluster(c) ensures ClusterAt(g, d', c) == ClusterAt(g, d, c) { ClusterRoom(g, c); }
  }

  lemma SetFatMirrored(g: Geometry, d: seq<Sector>, c: nat, v: nat)
    requires g.Ok() && g.Fits(d) && c < CLUSTER_END && v < 0x10000
    ensures Mirrored(g, d) ==> Mirrored(g, SetFat(g, d, c, v))
  {
    FatRoom(g);
    var d', n, spf := SetFat(g, d, c, v), FatSector(g, c), g.sectorsPerFat;
    if g.fats > 1 && Mirrored(g, d) {
      var a, b := d'[g.reserved..g.reserved + spf], d'[g.reserved + spf..g.reserved + 2 * spf];
      forall i | 0 <= i < spf ensures a[i] == b[i] {
        assert d[g.reserved..g.reserved + spf][i] == d[g.reserved + spf..g.reserved + 2 * spf][i];
      }
    }
  }

  lemma SameFatsMirrored(g: Geometry, d: seq<Sector>, d': seq<Sector>)
    requires g.Ok() && g.Fits(d) && |d'| == |d|
    requires forall n :: 0 <= n < g.RootStart() ==> d'[n] == d[n]
    ensures Mirrored(g, d) ==> Mirrored(g, d')
  {
    FatRoom(g);
    if g.fats > 1 {
      assert d'[g.reserved..g.reserved + g.sectorsPerFat] == d[g.reserved..g.reserved + g.sectorsPerFat];
      assert d'[g.reserved + g.sectorsPerFat..g.reserved + 2 * g.sectorsPerFat] ==
             d[g.reserved + g.sectorsPerFat..g.reserved + 2 * g.sectorsPerFat];
    }
  }

  /** The sectors after entry i of the root directory has been replaced. */
  function SetDir(g: Geometry, d: seq<Sector>, i: nat, e: DirEntry): (r: seq<Sector>)
    requires i / 16 < g.RootSectors() && g.DataStart() <= |d|
    ensures |r| == |d|
  {
    var n := g.RootStart() + i / 16;
    d[n := Splice(d[n], i % 16 * 32, e)]
  }

  lemma SetDirImage(g: Geometry, d: seq<Sector>, img: Image, i: nat, e: DirEntry)
    requires Holds(g, d, img) && i / 16 < g.RootSectors()
    ensures Holds(g, SetDir(g, d, i, e), img.(dir := img.dir[i := e]))
    ensures Mirrored(g, d) ==> Mirrored(g, SetDir(g, d, i, e))
  {
    var d' := SetDir(g, d, i, e);
    SameFat(g, d, d');
    SameData(g, d, d');
    forall j: nat | j < |img.dir| ensures DirAt(g, d', j) == img.dir[i := e][j] {
      assert img.dir[j] == DirAt(g, d, j);
      if j != i && j / 16 == i / 16 { SpliceKeepsSlot(d[g.RootStart() + i / 16], i % 16, e, j % 16); }
    }
    SameFatsMirrored(g, d, d');
  }

  lemma SpliceKeepsSlot(s: Sector, i: nat, e: DirEntry, j: nat)
    requires i < 16 && j < 16 && i != j
    ensures Splice(s, i * 32, e)[j * 32..j * 32 + 32] == s[j * 32..j * 32 + 32]
  {}

  lemma SectorAt(g: Geometry, d: seq<Sector>, img: Image, c: nat, i: nat)
    requires Holds(g, d, img) && IsCluster(c) && i < g.sectorsPerCluster
    ensures 0 <= ClusterToSector(g, c) + i < |d| && d[ClusterToSector(g, c) + i] == img.data[c][i]
  {
    ClusterRoom(g, c);
    assert img.data[c] == ClusterAt(g, d, c);
  }

  /** Writing sector i of cluster c. */
  lemma SetDataImage(g: Geometry, d: seq<Sector>, img: Image, c: nat, i: nat, s: Sector)
    requires Holds(g, d, img) && IsCluster(c) && i < g.sectorsPerCluster
    ensures 0 <= ClusterToSector(g, c) + i < |d|
    ensures var d' := d[ClusterToSector(g, c) + i := s];
            && Holds(g, d', img.(data := img.data[c := PutSector(img.data[c], i, s)]))
            && (Mirrored(g, d) ==> Mirrored(g, d'))
  {
    ClusterRoom(g, c);
    var d' := d[ClusterToSector(g, c) + i := s];
    SameFat(g, d, d');
    SameDir(g, d, d');
    forall k: nat | IsCluster(k) ensures ClusterAt(g, d', k) == img.data[c := PutSector(img.data[c], i, s)][k] {
      SetCluster(g, d, c, i, s, k);
    }
    SameFatsMirrored(g, d, d');
  }

  lemma SetCluster(g: Geometry, d: seq<Sector>, c: nat, i: nat, s: Sector, k: nat)
    requires g.Fits(d) && IsCluster(c) && IsCluster(k) && i < g.sectorsPerCluster
    requires 0 <= ClusterToSector(g, c) + i < |d|
    ensures ClusterAt(g, d[ClusterToSector(g, c) + i := s], k) ==
              if k == c then PutSector(ClusterAt(g, d, c), i, s) else ClusterAt(g, d, k)
  {
    ClusterRoom(g, c);
    ClusterRoom(g, k);
    if k < c { ClustersApart(g, k, c); }
    if c < k { ClustersApart(g, c, k); }
  }
}
