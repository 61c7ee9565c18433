/** Cluster chains in the FAT and the sectors they hold (src/drivers/fat16.cpp). */
module Fat16Chains {
  import opened Bytes
  import opened Fat16Layout

  type Fat = f: seq<nat> | |f| == CLUSTER_END witness seq<nat>(CLUSTER_END, i => 0)

  function Last<T>(s: seq<T>): T
    requires |s| > 0
  {
    s[|s| - 1]
  }

  ghost predicate AllClusters(ch: seq<nat>) { forall i :: 0 <= i < |ch| ==> IsCluster(ch[i]) }

  ghost predicate Link(fat: Fat, ch: seq<nat>, i: nat) {
    i < |ch| - 1 && ch[i] < CLUSTER_END && fat[ch[i]] == ch[i + 1]
  }

  /** A terminated chain of distinct clusters. */
  ghost predicate Chain(fat: Fat, ch: seq<nat>) {
    && |ch| > 0
    && AllClusters(ch)
    && (forall i, j :: 0 <= i < j < |ch| ==> ch[i] != ch[j])
    && (forall i: nat {:trigger Link(fat, ch, i)} :: i < |ch| - 1 ==> Link(fat, ch, i))
    && fat[Last(ch)] >= CLUSTER_END
  }

  ghost predicate HeadOk(fat: Fat, chains: map<nat, seq<nat>>, h: nat) {
    h in chains && Chain(fat, chains[h]) && chains[h][0] == h
  }

  /** Every recorded chain starts at its key, and no cluster is in two of them. */
  ghost predicate ChainsOk(fat: Fat, chains: map<nat, seq<nat>>) {
    && (forall h {:trigger HeadOk(fat, chains, h)} :: h in chains ==> HeadOk(fat, chains, h))
    && (forall h, k, c {:trigger c in chains[h], c in chains[k]} ::
          h in chains && k in chains && c in chains[h] && c in chains[k] ==> h == k)
  }

  /** Walking the FAT cannot visit a recorded chain twice: chains with the same head agree. */
  lemma {:induction false} ChainUnique(fat: Fat, a: seq<nat>, b: seq<nat>, i: nat)
    requires Chain(fat, a) && Chain(fat, b) && a[0] == b[0]
    ensures i < |a| ==> i < |b| && a[i] == b[i]
  {
    if 0 < i < |a| {
      ChainUnique(fat, a, b, i - 1);
      assert Link(fat, a, i - 1);
      assert i - 1 < |b| - 1 ==> Link(fat, b, i - 1);
    }
  }

  // ---- free clusters ----

  ghost function FreeSet(fat: Fat): set<nat> { set c: nat | 2 <= c < CLUSTER_END && fat[c] == 0 }

  ghost function FreeCount(fat: Fat): nat { |FreeSet(fat)| }

  lemma ChainUsed(fat: Fat, ch: seq<nat>)
    requires Chain(fat, ch)
    ensures forall c :: c in ch ==> IsCluster(c) && fat[c] != 0
  {
    forall i | 0 <= i < |ch| ensures fat[ch[i]] != 0 {
      assert i < |ch| - 1 ==> Link(fat, ch, i) && IsCluster(ch[i + 1]);
    }
  }

  lemma FreeUnused(fat: Fat, chains: map<nat, seq<nat>>, c: nat)
    requires ChainsOk(fat, chains) && c < CLUSTER_END && fat[c] == 0
    ensures c !in chains && forall h :: h in chains ==> c !in chains[h]
  {
    forall h | h in chains ensures c !in chains[h] && h != c {
      assert HeadOk(fat, chains, h) && chains[h][0] in chains[h];
      ChainUsed(fat, chains[h]);
    }
  }

  lemma Taken(fat: Fat, c: nat, v: nat)
    requires IsCluster(c) && fat[c] == 0 && v != 0
    ensures FreeCount(fat[c := v]) == FreeCount(fat) - 1
  {
    assert FreeSet(fat[c := v]) == FreeSet(fat) - {c};
  }

  lemma Relinked(fat: Fat, c: nat, v: nat)
    requires c < CLUSTER_END && fat[c] != 0 && v != 0
    ensures FreeCount(fat[c := v]) == FreeCount(fat)
  {
    assert FreeSet(fat[c := v]) == FreeSet(fat);
  }

  // ---- the three changes ----

  /** A freshly allocated cluster is a chain of its own. */
  lemma StartChain(fat: Fat, chains: map<nat, seq<nat>>, c: nat)
    requires ChainsOk(fat, chains) && IsCluster(c) && fat[c] == 0
    ensures c !in chains
    ensures ChainsOk(fat[c := END_OF_CHAIN], chains[c := [c]])
  {
    FreeUnused(fat, chains, c);
    var fat', chains' := fat[c := END_OF_CHAIN], chains[c := [c]];
    forall h | h in chains' ensures HeadOk(fat', chains', h) {
      if h != c {
        assert HeadOk(fat, chains, h);
        ChainFramed(fat, fat', chains[h]);
      }
    }
  }

  lemma ChainFramed(fat: Fat, fat': Fat, ch: seq<nat>)
    requires Chain(fat, ch) && forall c :: c in ch && c < CLUSTER_END ==> fat'[c] == fat[c]
    ensures Chain(fat', ch)
  {
    forall i: nat | i < |ch| - 1 ensures Link(fat', ch, i) {
      assert Link(fat, ch, i) && ch[i] in ch;
    }
    assert Last(ch) in ch;
  }

  /** A freshly allocated cluster linked behind the last one of a chain. */
  lemma ExtendChain(fat: Fat, chains: map<nat, seq<nat>>, h: nat, c: nat)
    requires ChainsOk(fat, chains) && HeadOk(fat, chains, h) && IsCluster(c) && fat[c] == 0
    ensures var fat' := fat[c := END_OF_CHAIN][Last(chains[h]) := c];
            ChainsOk(fat', chains[h := chains[h] + [c]])
  {
    FreeUnused(fat, chains, c);
    var ch := chains[h];
    var fat', chains' := fat[c := END_OF_CHAIN][Last(ch) := c], chains[h := ch + [c]];
    assert HeadOk(fat, chains, h) && Last(ch) in ch;
    forall k | k in chains' ensures HeadOk(fat', chains', k) {
      assert HeadOk(fat, chains, k);
      if k != h {
        assert forall x :: x in chains[k] ==> x != c && x != Last(ch);
        ChainFramed(fat, fat', chains[k]);
      } else {
        forall i: nat | i < |ch| ensures Link(fat', ch + [c], i) {
          assert ch[i] in ch;
          assert i < |ch| - 1 ==> Link(fat, ch, i) && ch[i] != Last(ch);
        }
      }
    }
  }

  // ---- which clusters a growing chain takes ----

  ghost predicate FreeAt(fat: Fat, c: int) { IsCluster(c) && fat[c] == 0 }

  ghost predicate ChangedAt(fat0: Fat, fat: Fat, c: int) { 0 <= c < CLUSTER_END && fat[c] != fat0[c] }

  /** Position i of the chain is new. */
  ghost predicate NewAt(ch: seq<nat>, n0: nat, i: int) { n0 <= i < |ch| }

  /** Since fat0, when it had n0 clusters, the chain has taken the lowest free clusters in
      ascending order; no other entry of the FAT has changed. */
  ghost predicate TakenInOrder(fat0: Fat, n0: nat, fat: Fat, ch: seq<nat>) {
    && n0 <= |ch|
    && (forall i {:trigger NewAt(ch, n0, i)} :: NewAt(ch, n0, i) ==> FreeAt(fat0, ch[i]))
    && (forall i, j {:trigger NewAt(ch, n0, i), NewAt(ch, n0, j)} ::
          NewAt(ch, n0, i) && NewAt(ch, n0, j) && i < j ==> ch[i] < ch[j])
    && (forall i, c {:trigger NewAt(ch, n0, i), FreeAt(fat, c)} :: NewAt(ch, n0, i) && FreeAt(fat, c) ==> ch[i] < c)
    && (forall c {:trigger FreeAt(fat, c)} :: FreeAt(fat, c) ==> FreeAt(fat0, c))
    && (forall c {:trigger ChangedAt(fat0, fat, c)} :: ChangedAt(fat0, fat, c) ==> c in ch)
    && if n0 == |ch| then fat == fat0 else Last(ch) < CLUSTER_END && fat[Last(ch)] == END_OF_CHAIN
  }

  lemma TakenNone(fat: Fat, ch: seq<nat>)
    ensures TakenInOrder(fat, |ch|, fat, ch)
  {}

  /** The lowest free cluster is linked behind the last one. */
  lemma TakenNext(fat: Fat, ch: seq<nat>, c: nat)
    requires ch != [] && Last(ch) < CLUSTER_END && fat[Last(ch)] != 0
    requires IsCluster(c) && fat[c] == 0 && forall k :: 2 <= k < c ==> fat[k] != 0
    ensures TakenInOrder(fat, |ch|, fat[c := END_OF_CHAIN][Last(ch) := c], ch + [c])
  {
    assert Last(ch) in ch + [c] && c in ch + [c];
  }

  lemma TakenFirst(fat: Fat, c: nat)
    requires IsCluster(c) && fat[c] == 0 && forall k :: 2 <= k < c ==> fat[k] != 0
    ensures TakenInOrder(fat, 0, fat[c := END_OF_CHAIN], [c])
  {}

  lemma TakenMore(fat0: Fat, n0: nat, fat1: Fat, ch1: seq<nat>, fat2: Fat, ch2: seq<nat>)
    requires TakenInOrder(fat0, n0, fat1, ch1) && TakenInOrder(fat1, |ch1|, fat2, ch2) && ch1 <= ch2
    ensures TakenInOrder(fat0, n0, fat2, ch2)
  {
    forall i | NewAt(ch2, n0, i)
      ensures FreeAt(fat0, ch2[i])
      ensures forall j :: NewAt(ch2, n0, j) && i < j ==> ch2[i] < ch2[j]
      ensures forall c :: FreeAt(fat2, c) ==> ch2[i] < c
    {
      TakenAt(fat0, n0, fat1, ch1, fat2, ch2, i);
      forall j | NewAt(ch2, n0, j) && i < j ensures ch2[i] < ch2[j] {
        TakenAt(fat0, n0, fat1, ch1, fat2, ch2, j);
      }
    }
    forall c | ChangedAt(fat0, fat2, c) ensures c in ch2 {
      assert ChangedAt(fat0, fat1, c) || ChangedAt(fat1, fat2, c);
    }
    forall c | FreeAt(fat2, c) ensures FreeAt(fat0, c) { assert FreeAt(fat1, c); }
  }

  /** A position taken in the first or the second step. */
  lemma TakenAt(fat0: Fat, n0: nat, fat1: Fat, ch1: seq<nat>, fat2: Fat, ch2: seq<nat>, i: nat)
    requires TakenInOrder(fat0, n0, fat1, ch1) && TakenInOrder(fat1, |ch1|, fat2, ch2) && ch1 <= ch2
    requires NewAt(ch2, n0, i)
    ensures FreeAt(fat0, ch2[i]) && forall c :: FreeAt(fat2, c) ==> ch2[i] < c
    ensures if i < |ch1| then NewAt(ch1, n0, i) && ch1[i] == ch2[i] else NewAt(ch2, |ch1|, i) && FreeAt(fat1, ch2[i])
  {
    if i < |ch1| { assert NewAt(ch1, n0, i); } else { assert NewAt(ch2, |ch1|, i); }
    forall c | FreeAt(fat2, c) ensures ch2[i] < c { assert FreeAt(fat1, c); }
  }

  // ---- deleting ----

  ghost function Used(fat: Fat): set<nat> { set c: nat | c < CLUSTER_END && fat[c] != 0 }

  lemma UsedShrinks(fat: Fat, c: nat)
    requires c < CLUSTER_END && fat[c] != 0
    ensures |Used(fat[c := 0])| == |Used(fat)| - 1
  {
    assert Used(fat[c := 0]) == Used(fat) - {c};
  }

  /** The FAT after the delete loop has started at c; it stops on any FAT, even a cyclic one,
      because a second visit finds 0. */
  ghost function Freed(fat: Fat, c: nat): Fat
    decreases |Used(fat)|, if IsCluster(c) then 1 else 0
  {
    if !IsCluster(c) then fat
    else if fat[c] == 0 then Freed(fat, 0)
    else
      UsedShrinks(fat, c);
      Freed(fat[c := 0], fat[c])
  }

  function ZeroAll(fat: Fat, cs: seq<nat>): (r: Fat)
    requires AllClusters(cs)
  {
    seq(CLUSTER_END, c requires 0 <= c < CLUSTER_END => if c in cs then 0 else fat[c])
  }

  /** Deleting a well-formed chain frees exactly its clusters. */
  lemma {:induction false} FreedChain(fat: Fat, ch: seq<nat>, c: nat)
    requires Chain(fat, ch) && c == ch[0]
    ensures Freed(fat, c) == ZeroAll(fat, ch)
    decreases |ch|
  {
    var fat' := fat[c := 0];
    var next := fat[ch[0]];
    if |ch| == 1 {
      assert Freed(fat', next) == fat';
      assert fat' == ZeroAll(fat, ch);
    } else {
      assert Link(fat, ch, 0);
      var rest := ch[1..];
      forall i: nat | i < |rest| - 1 ensures Link(fat', rest, i) { assert Link(fat, ch, i + 1); }
      assert Chain(fat', rest);
      FreedChain(fat', rest, next);
      assert ch == [ch[0]] + rest;
      assert ZeroAll(fat', rest) == ZeroAll(fat, ch);
    }
  }

  ghost function Members(ch: seq<nat>): set<nat> { set c | c in ch }

  /** Freeing a chain gives back as many clusters as it had. */
  lemma FreedCount(fat: Fat, ch: seq<nat>)
    requires Chain(fat, ch)
    ensures FreeCount(ZeroAll(fat, ch)) == FreeCount(fat) + |ch|
  {
    ChainUsed(fat, ch);
    MembersCount(ch);
    assert FreeSet(ZeroAll(fat, ch)) == FreeSet(fat) + Members(ch);
    assert FreeSet(fat) !! Members(ch);
  }

  lemma {:induction false} MembersCount(ch: seq<nat>)
    requires forall i, j :: 0 <= i < j < |ch| ==> ch[i] != ch[j]
    ensures |Members(ch)| == |ch|
  {
    if ch == [] {
      assert Members(ch) == {};
    } else {
      var n := |ch| - 1;
      MembersCount(ch[..n]);
      assert Members(ch) == Members(ch[..n]) + {ch[n]};
    }
  }

  lemma DropChain(fat: Fat, chains: map<nat, seq<nat>>, h: nat)
    requires ChainsOk(fat, chains) && h in chains
    ensures AllClusters(chains[h]) && ChainsOk(ZeroAll(fat, chains[h]), chains - {h})
  {
    assert HeadOk(fat, chains, h);
    forall k | k in chains && k != h ensures HeadOk(ZeroAll(fat, chains[h]), chains - {h}, k) {
      assert HeadOk(fat, chains, k);
      assert forall x :: x in chains[k] ==> x !in chains[h];
      ChainFramed(fat, ZeroAll(fat, chains[h]), chains[k]);
    }
  }

  // ---- the sectors of a chain ----

  type Clusters = map<nat, seq<Sector>>

  /** The bytes in n clusters. */
  ghost function Reach(spc: nat, n: nat): nat {
    if n == 0 then 0 else Reach(spc, n - 1) + 512 * spc
  }

  lemma {:induction false} ReachGrows(spc: nat, a: nat, b: nat)
    requires a <= b && spc >= 1
    ensures Reach(spc, a) <= Reach(spc, b) && (a < b ==> Reach(spc, a) < Reach(spc, b))
    decreases b
  {
    if a < b { ReachGrows(spc, a, b - 1); }
  }

  lemma ReachPositive(spc: nat, n: nat)
    requires spc >= 1
    ensures n >= 1 ==> Reach(spc, n) >= 512
  {
    if n >= 1 { ReachGrows(spc, 1, n); }
  }

  /** All sectors of a chain, in order. */
  ghost function Stored(data: Clusters, spc: nat, ch: seq<nat>): (r: seq<Sector>)
    requires Room(data, spc) && AllClusters(ch)
    ensures 512 * |r| == Reach(spc, |ch|)
  {
    if ch == [] then [] else Stored(data, spc, ch[..|ch| - 1]) + data[Last(ch)]
  }

  lemma {:induction false} StoredFramed(data: Clusters, data': Clusters, spc: nat, ch: seq<nat>)
    requires Room(data, spc) && Room(data', spc) && AllClusters(ch)
    requires forall c :: c in ch && IsCluster(c) ==> data'[c] == data[c]
    ensures Stored(data', spc, ch) == Stored(data, spc, ch)
  {
    if ch != [] { StoredFramed(data, data', spc, ch[..|ch| - 1]); }
  }

  function Flatten(s: seq<Sector>): (r: seq<Byte>)
    ensures |r| == 512 * |s|
  {
    seq(512 * |s|, j requires 0 <= j < 512 * |s| => s[j / 512][j % 512])
  }

  lemma FlattenAppend(a: seq<Sector>, b: seq<Sector>)
    ensures Flatten(a + b) == Flatten(a) + Flatten(b)
  {}

  /** The first k clusters of a chain hold the front of its content, followed by cluster k. */
  lemma {:induction false} StoredPrefix(data: Clusters, spc: nat, ch: seq<nat>, k: nat)
    requires Room(data, spc) && AllClusters(ch) && k <= |ch|
    ensures Flatten(Stored(data, spc, ch[..k])) <= Flatten(Stored(data, spc, ch))
    ensures |Flatten(Stored(data, spc, ch[..k]))| == Reach(spc, k)
    ensures k < |ch| ==>
              Flatten(Stored(data, spc, ch[..k + 1])) == Flatten(Stored(data, spc, ch[..k])) + Flatten(data[ch[k]])
    decreases |ch|
  {
    if k == |ch| {
      assert ch[..k] == ch;
    } else {
      var n := |ch| - 1;
      assert ch[..n][..k] == ch[..k];
      StoredPrefix(data, spc, ch[..n], k);
      FlattenAppend(Stored(data, spc, ch[..n]), data[ch[n]]);
      assert ch[..k + 1][..k] == ch[..k];
      FlattenAppend(Stored(data, spc, ch[..k]), data[ch[k]]);
    }
  }

  /** A sector after the part of `bytes` from position `at` has been written over it. */
  function Overlay(s: Sector, bytes: seq<Byte>, at: nat): Sector {
    if at >= |bytes| then s
    else if at + 512 <= |bytes| then bytes[at..at + 512]
    else bytes[at..] + s[|bytes| - at..]
  }

  function OverlayAll(s: seq<Sector>, bytes: seq<Byte>): (r: seq<Sector>)
    ensures |r| == |s|
  {
    seq(|s|, k requires 0 <= k < |s| => Overlay(s[k], bytes, 512 * k))
  }

  /** Sector by sector, until the buffer or the cluster ends. */
  lemma Overlaid(before: seq<Sector>, now: seq<Sector>, bytes: seq<Byte>, at: nat, n: nat)
    requires n <= |before| == |now| && (n == |before| || at + 512 * n >= |bytes|)
    requires forall j :: 0 <= j < |now| ==>
               now[j] == if j < n then Overlay(before[j], bytes, at + 512 * j) else before[j]
    ensures now == OverlayCluster(before, bytes, at)
  {}

  function OverlayCluster(s: seq<Sector>, bytes: seq<Byte>, at: nat): (r: seq<Sector>)
    ensures |r| == |s|
    ensures at >= |bytes| ==> r == s
  {
    seq(|s|, k requires 0 <= k < |s| => Overlay(s[k], bytes, at + 512 * k))
  }

  lemma OverlayAppend(a: seq<Sector>, b: seq<Sector>, bytes: seq<Byte>)
    ensures OverlayAll(a + b, bytes) == OverlayAll(a, bytes) + OverlayCluster(b, bytes, 512 * |a|)
  {}

  /** Writing cluster by cluster is writing over all sectors of the chain. */
  lemma {:induction false} OverlayStored(data: Clusters, data': Clusters, spc: nat, ch: seq<nat>, bytes: seq<Byte>)
    requires Room(data, spc) && Room(data', spc) && AllClusters(ch)
    requires forall i :: 0 <= i < |ch| ==> data'[ch[i]] == OverlayCluster(data[ch[i]], bytes, Reach(spc, i))
    ensures Stored(data', spc, ch) == OverlayAll(Stored(data, spc, ch), bytes)
  {
    if ch != [] {
      var n := |ch| - 1;
      OverlayStored(data, data', spc, ch[..n], bytes);
      OverlayAppend(Stored(data, spc, ch[..n]), data[ch[n]], bytes);
    }
  }

  /** Writing sector by sector is writing the byte string over the front of the content. */
  lemma OverlayBytes(s: seq<Sector>, bytes: seq<Byte>)
    ensures Flatten(OverlayAll(s, bytes)) ==
              if |bytes| <= 512 * |s| then bytes + Flatten(s)[|bytes|..] else bytes[..512 * |s|]
  {}
}
