/** Cluster chains as a theory of the table of links: what allocating and removing mean for the family
    of chains stored in it. Cluster numbers run from 2 to |links| - 1; link 0 marks a free cluster and a
    link of |links| or more ends a chain. */
module Chains {
  predicate IsCluster(links: seq<nat>, c: int) { 2 <= c < |links| }

  // ---------------------------------------------------------------------------------------------------
  // Counting free clusters

  function FreeUpTo(links: seq<nat>, k: nat): (n: nat)
    requires k <= |links|
    ensures n <= k
  {
    if k <= 2 then 0 else FreeUpTo(links, k - 1) + if links[k - 1] == 0 then 1 else 0
  }

  /** Number of free clusters. */
  function FreeCount(links: seq<nat>): (n: nat)
    ensures n <= |links|
  {
    FreeUpTo(links, |links|)
  }

  function One(b: bool): nat { if b then 1 else 0 }

  lemma {:induction false} FreeUpdate(links: seq<nat>, c: nat, v: nat, k: nat)
    requires c < |links| && k <= |links|
    ensures FreeUpTo(links[c := v], k) + One(2 <= c < k && links[c] == 0)
         == FreeUpTo(links, k) + One(2 <= c < k && v == 0)
  {
    if k > 2 {
      FreeUpdate(links, c, v, k - 1);
    }
  }

  /** Number of zero entries among the first k, the two reserved ones included. */
  function ZerosUpTo(links: seq<nat>, k: nat): nat
    requires k <= |links|
  {
    if k == 0 then 0 else ZerosUpTo(links, k - 1) + if links[k - 1] == 0 then 1 else 0
  }

  lemma {:induction false} ZerosAndFree(links: seq<nat>, k: nat)
    requires 2 <= k <= |links|
    ensures ZerosUpTo(links, k) == FreeUpTo(links, k) + One(links[0] == 0) + One(links[1] == 0)
  {
    if k > 2 {
      ZerosAndFree(links, k - 1);
    } else {
      assert ZerosUpTo(links, 2) == ZerosUpTo(links, 1) + One(links[1] == 0);
      assert ZerosUpTo(links, 1) == ZerosUpTo(links, 0) + One(links[0] == 0);
    }
  }

  lemma FreeCountUpdate(links: seq<nat>, c: nat, v: nat)
    requires IsCluster(links, c)
    ensures FreeCount(links[c := v]) + One(links[c] == 0) == FreeCount(links) + One(v == 0)
  {
    FreeUpdate(links, c, v, |links|);
  }

  lemma {:induction false} FreeBounds(links: seq<nat>, k: nat)
    requires 2 <= k <= |links|
    ensures FreeUpTo(links, k) <= k - 2
    ensures FreeUpTo(links, k) == 0 <==> forall c :: 2 <= c < k ==> links[c] != 0
    ensures FreeUpTo(links, k) == k - 2 <==> forall c :: 2 <= c < k ==> links[c] == 0
  {
    if k > 2 {
      FreeBounds(links, k - 1);
    }
  }

  // ---------------------------------------------------------------------------------------------------
  // Following a chain

  /** The first at most k clusters met from c on. */
  function Follow(links: seq<nat>, c: int, k: nat): (cs: seq<nat>)
    ensures |cs| <= k
    ensures forall i :: 0 <= i < |cs| ==> IsCluster(links, cs[i])
    decreases k
  {
    if k == 0 || !IsCluster(links, c) then [] else [c] + Follow(links, links[c], k - 1)
  }

  lemma {:induction false} FollowSteps(links: seq<nat>, c: int, k: nat, i: nat)
    requires i < |Follow(links, c, k)|
    ensures Follow(links, c, k)[0] == c
    ensures i + 1 < |Follow(links, c, k)| ==> Follow(links, c, k)[i + 1] == links[Follow(links, c, k)[i]]
    ensures i + 1 == |Follow(links, c, k)| < k ==> !IsCluster(links, links[Follow(links, c, k)[i]])
    decreases k
  {
    var cs := Follow(links, c, k);
    var rest := Follow(links, links[c], k - 1);
    assert cs == [c] + rest;
    if i > 0 {
      FollowSteps(links, links[c], k - 1, i - 1);
      assert cs[i] == rest[i - 1];
    } else if |rest| > 0 {
      FollowSteps(links, links[c], k - 1, 0);
    }
  }

  /** A complete chain: the links lead from each cluster to the next, and the last one ends it. */
  ghost predicate Chain(links: seq<nat>, cs: seq<nat>) {
    && |cs| > 0
    && (forall i :: 0 <= i < |cs| ==> IsCluster(links, cs[i]))
    && (forall i, j {:trigger cs[i], cs[j]} :: 0 <= i && j == i + 1 < |cs| ==> links[cs[i]] == cs[j])
    && links[cs[|cs| - 1]] >= |links|
  }

  /** A chain that ends cannot visit a cluster twice. */
  lemma {:induction false} ChainDistinct(links: seq<nat>, cs: seq<nat>, i: nat, j: nat)
    requires Chain(links, cs) && i < j < |cs|
    ensures cs[i] != cs[j]
    decreases |cs| - j
  {
    assert links[cs[i]] == cs[i + 1];
    if j + 1 < |cs| {
      ChainDistinct(links, cs, i + 1, j + 1);
      assert links[cs[j]] == cs[j + 1];
    }
  }

  /** Following a complete chain finds exactly its clusters, in order. */
  lemma {:induction false} FollowChain(links: seq<nat>, cs: seq<nat>, k: nat)
    requires Chain(links, cs) && k <= |cs|
    ensures Follow(links, cs[0], k) == cs[..k]
  {
    if k > 0 && |cs| > 1 {
      FollowChain(links, cs[1..], k - 1);
      assert cs[..k] == [cs[0]] + cs[1..][..k - 1];
    } else if k > 0 {
      assert Follow(links, links[cs[0]], 0) == [];
      assert cs[..k] == [cs[0]];
    }
  }

  lemma ChainTail(links: seq<nat>, cs: seq<nat>, k: nat)
    requires Chain(links, cs) && |cs| > 1 && k > 0
    ensures Chain(links, cs[1..])
    ensures Follow(links, cs[0], k) == [cs[0]] + Follow(links, cs[1], k - 1)
  {
  }

  /** Following a complete chain for longer than it is finds the whole chain. */
  lemma {:induction false} FollowWhole(links: seq<nat>, cs: seq<nat>, k: nat)
    requires Chain(links, cs)
    ensures Follow(links, cs[0], k) == if k <= |cs| then cs[..k] else cs
    decreases |cs|
  {
    if k <= |cs| {
      hide *;
      FollowChain(links, cs, k);
    } else if |cs| > 1 {
      hide Chain, Follow;
      ChainTail(links, cs, k);
      FollowWhole(links, cs[1..], k - 1);
    }
  }

  // ---------------------------------------------------------------------------------------------------
  // Choosing a cluster

  function Span(a: nat, b: nat): (r: seq<nat>)
    ensures |r| == if a <= b then b - a else 0
    ensures forall i :: 0 <= i < |r| ==> r[i] == a + i
  {
    if a <= b then seq(b - a, i requires 0 <= i < b - a => a + i) else []
  }

  /** The cyclic order in which create_chain looks at the clusters after `start`; `start` comes last. */
  function ScanOrder(start: nat, n: nat): (r: seq<nat>)
    requires 1 <= start < n
    ensures |r| == n - 2
    ensures forall i :: 0 <= i < |r| ==> r[i] == if start + 1 + i < n then start + 1 + i else start + 3 + i - n
  {
    Span(start + 1, n) + Span(2, start + 1)
  }

  /** Every cluster has a place in the order. */
  lemma ScanPosition(start: nat, n: nat, c: nat) returns (i: nat)
    requires 1 <= start < n && 2 <= c < n
    ensures i < n - 2 && ScanOrder(start, n)[i] == c
  {
    i := if c > start then c - start - 1 else c + n - start - 3;
  }

  /** The outcome of the search: the first free cluster in the order, 1 when an entry 1 comes first, 0
      when every cluster is taken. */
  function Pick(links: seq<nat>, order: seq<nat>): nat
    requires forall i :: 0 <= i < |order| ==> 2 <= order[i] < |links|
  {
    if order == [] then 0
    else if links[order[0]] == 0 then order[0]
    else if links[order[0]] == 1 then 1
    else Pick(links, order[1..])
  }

  /** Clusters in use at the front of the order do not matter. */
  lemma {:induction false} PickSkips(links: seq<nat>, order: seq<nat>, k: nat)
    requires forall i :: 0 <= i < |order| ==> 2 <= order[i] < |links|
    requires k <= |order| && forall i :: 0 <= i < k ==> links[order[i]] >= 2
    ensures k == |order| ==> Pick(links, order) == 0
    ensures k < |order| && links[order[k]] == 0 ==> Pick(links, order) == order[k]
    ensures k < |order| && links[order[k]] == 1 ==> Pick(links, order) == 1
  {
    if k > 0 {
      PickSkips(links, order[1..], k - 1);
    }
  }

  ghost predicate FirstAt(links: seq<nat>, order: seq<nat>, k: nat, v: nat)
    requires forall i :: 0 <= i < |order| ==> 2 <= order[i] < |links|
  {
    k < |order| && links[order[k]] == v && forall j :: 0 <= j < k ==> links[order[j]] >= 2
  }

  lemma {:induction false} PickMeaning(links: seq<nat>, order: seq<nat>) returns (k: nat)
    requires forall i :: 0 <= i < |order| ==> 2 <= order[i] < |links|
    ensures Pick(links, order) == 0 ==> forall i :: 0 <= i < |order| ==> links[order[i]] >= 2
    ensures Pick(links, order) == 1 ==> FirstAt(links, order, k, 1)
    ensures Pick(links, order) >= 2 ==> FirstAt(links, order, k, 0) && Pick(links, order) == order[k]
  {
    k := 0;
    if order != [] && links[order[0]] >= 2 {
      var k' := PickMeaning(links, order[1..]);
      assert forall i :: 1 <= i < |order| ==> order[i] == order[1..][i - 1];
      k := k' + 1;
    }
  }

  /** On a table without an entry 1, the search fails exactly when no cluster is free. */
  lemma PickComplete(links: seq<nat>, start: nat)
    requires 1 <= start < |links|
    requires forall c :: 2 <= c < |links| ==> links[c] != 1
    ensures var r := Pick(links, ScanOrder(start, |links|));
            && (r == 0 <==> FreeCount(links) == 0)
            && (r != 0 ==> IsCluster(links, r) && links[r] == 0)
  {
    hide ScanOrder;
    var order := ScanOrder(start, |links|);
    var k := PickMeaning(links, order);
    if |links| >= 2 {
      FreeBounds(links, |links|);
    }
    if Pick(links, order) == 0 {
      forall c | 2 <= c < |links|
        ensures links[c] != 0
      {
        var i := ScanPosition(start, |links|, c);
        assert order[i] == c;
      }
    }
  }

  /** An entry 1 stands in the order of the scan with no free cluster before it. */
  ghost predicate BadFirst(links: seq<nat>, order: seq<nat>)
    requires forall i :: 0 <= i < |order| ==> 2 <= order[i] < |links|
  {
    exists k :: 0 <= k < |order| && links[order[k]] == 1 && forall i :: 0 <= i < k ==> links[order[i]] != 0
  }

  /** The scan gives up exactly if it meets an entry 1 before any free cluster. */
  lemma PickGivesUpExactly(links: seq<nat>, order: seq<nat>)
    requires forall i :: 0 <= i < |order| ==> 2 <= order[i] < |links|
    ensures Pick(links, order) == 1 <==> BadFirst(links, order)
  {
    var k := PickMeaning(links, order);
    if BadFirst(links, order) {
      var b :| 0 <= b < |order| && links[order[b]] == 1 && forall i :: 0 <= i < b ==> links[order[i]] != 0;
      FirstOne(links, order, b);
    }
  }

  /** The first entry 1 of the order decides. */
  lemma {:induction false} FirstOne(links: seq<nat>, order: seq<nat>, b: nat)
    requires forall i :: 0 <= i < |order| ==> 2 <= order[i] < |links|
    requires b < |order| && links[order[b]] == 1 && forall i :: 0 <= i < b ==> links[order[i]] != 0
    ensures Pick(links, order) == 1
    decreases |order|
  {
    if b > 0 && links[order[0]] != 1 {
      FirstOne(links, order[1..], b - 1);
    }
  }

  /** An entry 1 in cluster 2 hides the free cluster 3. */
  lemma HiddenByOne()
    ensures var links := [0xFFF, 0xFFF, 1, 0];
            Pick(links, ScanOrder(1, 4)) == 1 && FreeCount(links) == 1
  {
    var links := [0xFFF, 0xFFF, 1, 0];
    assert ScanOrder(1, 4)[0] == 2;
    assert FreeUpTo(links, 2) == 0 && FreeUpTo(links, 3) == 0;
  }

  /** The number of free clusters is that of the zero links from 2 on. */
  lemma {:induction false} FreeAreZeros(links: seq<nat>, k: nat)
    requires k <= |links|
    ensures FreeUpTo(links, k) == |set c | 2 <= c < k && links[c] == 0|
  {
    if k > 2 {
      FreeAreZeros(links, k - 1);
      var was := set c | 2 <= c < k - 1 && links[c] == 0;
      var now := set c | 2 <= c < k && links[c] == 0;
      assert now == if links[k - 1] == 0 then was + {k - 1} else was;
    }
  }
}
