/** Singly linked lists threaded through memory: each node's first word is the next node's
    address, 0 ends the list. */
module FreeList {
  import opened Collections
  import opened Ram

  predicate Linked(s: seq<nat>, head: nat, words: Words) {
    if s == [] then head == 0
    else head == s[0] && head != 0 && Linked(s[1..], Load(words, head), words)
  }

  ghost function Below(n: nat): (r: set<nat>)
    ensures |r| == n && forall x :: x in r <==> 0 <= x < n
  {
    if n == 0 then {} else Below(n - 1) + {n - 1}
  }

  /** Distinct numbers below n are at most n. */
  lemma {:induction false} Pigeonhole(s: seq<nat>, all: set<nat>)
    requires Distinct(s) && forall x :: x in s ==> x in all
    ensures |s| <= |all|
  {
    if s != [] {
      var last := s[|s| - 1];
      assert last in s;
      forall x | x in s[..|s| - 1] ensures x in all - {last} {
        assert x in s;
      }
      Pigeonhole(s[..|s| - 1], all - {last});
    }
  }

  lemma {:induction false} LinkedFrame(s: seq<nat>, head: nat, words: Words, words': Words)
    requires Linked(s, head, words)
    requires forall a :: a in s ==> Load(words', a) == Load(words, a)
    ensures Linked(s, head, words')
  {
    if s != [] { LinkedFrame(s[1..], Load(words, head), words, words'); }
  }

  lemma PushLinked(s: seq<nat>, head: Word, words: Words, a: nat)
    requires Linked(s, head, words) && Distinct(s) && a != 0 && a !in s
    ensures Linked([a] + s, a, words[a := head]) && Distinct([a] + s)
  {
    LinkedFrame(s, head, words, words[a := head]);
    assert ([a] + s)[1..] == s;
  }

  lemma WithoutDistinct<T>(s: seq<T>, k: nat)
    requires k < |s| && Distinct(s)
    ensures Distinct(Without(s, k))
    ensures forall x :: x in Without(s, k) <==> x in s && x != s[k]
  {}

  /** Redirecting the word of node k - 1 to the successor of node k unlinks node k. */
  lemma {:induction false} UnlinkInner(s: seq<nat>, k: nat, head: nat, words: Words)
    requires 0 < k < |s| && Linked(s, head, words) && Distinct(s)
    ensures Linked(Without(s, k), head, words[s[k - 1] := Load(words, s[k])])
  {
    var words' := words[s[k - 1] := Load(words, s[k])];
    var rest, next := s[1..], Load(words, s[0]);
    if k == 1 {
      assert Linked(rest[1..], Load(words, rest[0]), words);
      LinkedFrame(rest[1..], Load(words, s[1]), words, words');
      assert Without(s, 1)[1..] == rest[1..];
    } else {
      UnlinkInner(rest, k - 1, next, words);
      assert Without(s, k)[1..] == Without(rest, k - 1);
    }
  }

  /** Address of the k-th node, 0 past the end. */
  function Node(s: seq<nat>, k: nat): nat { if k < |s| then s[k] else 0 }

  lemma {:induction false} LinkedAt(s: seq<nat>, k: nat, head: nat, words: Words)
    requires Linked(s, head, words)
    ensures head == Node(s, 0)
    ensures k < |s| ==> s[k] != 0 && Load(words, s[k]) == Node(s, k + 1)
  {
    if k > 0 && s != [] { LinkedAt(s[1..], k - 1, Load(words, head), words); }
    else if s != [] { assert s[1..] == [] || s[1..][0] == s[1]; }
  }

  // ---- an array of lists ----

  /** Names the list one wants to know about; it keeps the verifier from unfolding them all. */
  ghost predicate Slot(i: int) { true }

  ghost predicate AllLinked(lists: seq<seq<nat>>, heads: seq<Word>, words: Words) {
    && |lists| == |heads|
    && (forall i {:trigger Slot(i)} :: 0 <= i < |lists| ==> Linked(lists[i], heads[i], words) && Distinct(lists[i]))
  }

  lemma AllFrame(lists: seq<seq<nat>>, heads: seq<Word>, words: Words, words': Words)
    requires AllLinked(lists, heads, words)
    requires forall i, a :: 0 <= i < |lists| && a in lists[i] ==> Load(words', a) == Load(words, a)
    ensures AllLinked(lists, heads, words')
  {
    forall i | 0 <= i < |lists| ensures Linked(lists[i], heads[i], words') && Distinct(lists[i]) {
      assert Slot(i);
      LinkedFrame(lists[i], heads[i], words, words');
    }
  }

  lemma PushAll(lists: seq<seq<nat>>, heads: seq<Word>, words: Words, i: nat, a: Word)
    requires AllLinked(lists, heads, words) && i < |lists| && a != 0
    requires forall j :: 0 <= j < |lists| ==> a !in lists[j]
    ensures AllLinked(lists[i := [a] + lists[i]], heads[i := a], words[a := heads[i]])
  {
    assert Slot(i);
    AllFrame(lists, heads, words, words[a := heads[i]]);
    PushLinked(lists[i], heads[i], words, a);
    var lists', heads', words' := lists[i := [a] + lists[i]], heads[i := a], words[a := heads[i]];
    forall j | 0 <= j < |lists'| ensures Linked(lists'[j], heads'[j], words') && Distinct(lists'[j]) {
      assert Slot(j);
    }
  }

  lemma PopAll(lists: seq<seq<nat>>, heads: seq<Word>, words: Words, i: nat)
    requires AllLinked(lists, heads, words) && i < |lists| && lists[i] != []
    ensures AllLinked(lists[i := Without(lists[i], 0)], heads[i := Load(words, lists[i][0])], words)
  {
    assert Slot(i);
    WithoutDistinct(lists[i], 0);
    assert Without(lists[i], 0) == lists[i][1..];
    var lists', heads' := lists[i := Without(lists[i], 0)], heads[i := Load(words, lists[i][0])];
    forall j | 0 <= j < |lists'| ensures Linked(lists'[j], heads'[j], words) && Distinct(lists'[j]) {
      assert Slot(j);
    }
  }

  lemma UnlinkAll(lists: seq<seq<nat>>, heads: seq<Word>, words: Words, i: nat, k: nat)
    requires AllLinked(lists, heads, words) && i < |lists| && 0 < k < |lists[i]|
    requires forall j :: 0 <= j < |lists| && j != i ==> lists[i][k - 1] !in lists[j]
    ensures AllLinked(lists[i := Without(lists[i], k)], heads,
                      words[lists[i][k - 1] := Load(words, lists[i][k])])
  {
    var words' := words[lists[i][k - 1] := Load(words, lists[i][k])];
    assert Slot(i);
    WithoutDistinct(lists[i], k);
    UnlinkInner(lists[i], k, heads[i], words);
    forall j | 0 <= j < |lists| && j != i ensures Linked(lists[j], heads[j], words') && Distinct(lists[j]) {
      assert Slot(j);
      LinkedFrame(lists[j], heads[j], words, words');
    }
  }

  /** An array of list heads, with the lists they denote. */
  class FreeLists {
    const ram: Memory
    const heads: array<Word>
    ghost var lists: seq<seq<nat>>

    ghost predicate Valid()
      reads this, heads, ram
    {
      && AllLinked(lists, heads[..], ram.words)
      && (forall i, j, a :: 0 <= i < j < |lists| && a in lists[i] ==> a !in lists[j])
    }

    constructor (ram: Memory, n: nat)
      ensures Valid() && fresh(heads) && this.ram == ram && heads.Length == n
      ensures lists == seq(n, _ => [])
    {
      this.ram := ram;
      heads := new Word[n](_ => 0);
      lists := seq(n, _ => []);
      new;
      forall i | 0 <= i < n ensures Linked(lists[i], heads[i], ram.words) && Distinct(lists[i]) {}
    }

    /** block->next = free_lists[i]; free_lists[i] = block */
    method Push(i: nat, block: Word)
      requires Valid() && i < |lists| && block != 0
      requires forall j :: 0 <= j < |lists| ==> block !in lists[j]
      modifies this, heads, ram
      ensures Valid() && lists == old(lists)[i := [block] + old(lists)[i]]
      ensures forall a :: a != block ==> Load(ram.words, a) == Load(old(ram.words), a)
    {
      PushAll(lists, heads[..], ram.words, i, block);
      ram.Store(block, heads[i]);
      heads[i] := block;
      lists := lists[i := [block] + lists[i]];
    }

    /** block = free_lists[i]; free_lists[i] = block->next */
    method Pop(i: nat) returns (block: Word)
      requires Valid() && i < |lists| && lists[i] != []
      modifies this, heads
      ensures Valid() && lists == old(lists)[i := Without(old(lists)[i], 0)]
      ensures block == old(lists)[i][0]
    {
      assert Slot(i);
      LinkedAt(lists[i], 0, heads[i], ram.words);
      PopAll(lists, heads[..], ram.words, i);
      block := heads[i];
      heads[i] := Load(ram.words, block);
      lists := lists[i := Without(lists[i], 0)];
    }

    /** The search for one address in a list, which unlinks the node it finds by writing
        its successor through the pointer that led to it. */
    method Unlink(i: nat, target: nat) returns (found: bool, ghost k: nat)
      requires Valid() && i < |lists|
      modifies this, heads, ram
      ensures Valid() && found == (target in old(lists)[i])
      ensures found ==> k < |old(lists)[i]| && old(lists)[i][k] == target
      ensures found ==> lists == old(lists)[i := Without(old(lists)[i], k)]
      ensures !found ==> lists == old(lists) && ram.words == old(ram.words)
      ensures forall a :: a !in old(lists)[i] ==> Load(ram.words, a) == Load(old(ram.words), a)
    {
      var prev, curr := 0, heads[i];
      k := 0;
      assert Slot(i);
      LinkedAt(lists[i], 0, heads[i], ram.words);
      while curr != 0
        invariant Valid() && lists == old(lists) && ram.words == old(ram.words) && heads[..] == old(heads[..])
        invariant k <= |lists[i]| && curr == Node(lists[i], k) && target !in lists[i][..k]
        invariant prev == if k == 0 then 0 else lists[i][k - 1]
        decreases |lists[i]| - k
      {
        assert Slot(i);
        LinkedAt(lists[i], k, heads[i], ram.words);
        if curr == target {
          var next := Load(ram.words, curr);
          if prev == 0 {
            if k > 0 { LinkedAt(lists[i], k - 1, heads[i], ram.words); }
            PopAll(lists, heads[..], ram.words, i);
            heads[i] := next;
          } else {
            UnlinkAll(lists, heads[..], ram.words, i, k);
            ram.Store(prev, next);
          }
          WithoutDistinct(lists[i], k);
          lists := lists[i := Without(lists[i], k)];
          return true, k;
        }
        prev := curr;
        curr := Load(ram.words, curr);
        k := k + 1;
      }
      assert Slot(i);
      LinkedAt(lists[i], k, heads[i], ram.words);
      assert lists[i][..k] == lists[i];
      found := false;
    }
  }
}
