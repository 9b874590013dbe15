/** The allocator over whole runs: the chains of a volume stay complete and disjoint, and free clusters
    are conserved. */
module Allocation {
  import opened Chains

  const UNKNOWN := 0xFFFF

  // ---------------------------------------------------------------------------------------------------
  // Effect of the two operations on the links

  /** create_chain: the new cluster ends the chain, and the old last cluster leads to it. */
  function Allocated(links: seq<nat>, clust: nat, r: nat, endMark: nat): (now: seq<nat>)
    requires r < |links| && clust < |links|
    ensures |now| == |links|
  {
    var marked := links[r := endMark];
    if clust != 0 then marked[clust := r] else marked
  }

  /** Where create_chain starts searching. */
  function ScanStart(links: seq<nat>, clust: nat, lastClust: nat): (s: nat)
    requires clust < |links| && |links| >= 2
    ensures 1 <= s < |links|
  {
    if clust != 0 then clust else if lastClust < 2 || lastClust >= |links| then 1 else lastClust
  }

  /** The free counter after k more clusters became free; an unknown count stays unknown. */
  function Added(freeClust: nat, k: nat): nat {
    if freeClust + k < UNKNOWN then freeClust + k else UNKNOWN
  }

  /** The free counter after one cluster was taken: a 16-bit decrement. */
  function Taken(freeClust: nat): nat {
    if freeClust == UNKNOWN || freeClust == 0 then UNKNOWN else freeClust - 1
  }

  datatype Created = Created(r: nat, links: seq<nat>, lastClust: nat, freeClust: nat)

  /** create_chain on the links: 1 for an invalid or damaged chain, the successor of a cluster that has
      one, 0 when no cluster is free; otherwise a new cluster. */
  function Create(links: seq<nat>, lastClust: nat, freeClust: nat, clust: nat, endMark: nat): (a: Created)
    requires |links| >= 2
    ensures |a.links| == |links|
  {
    if clust != 0 && (!IsCluster(links, clust) || links[clust] < 2) then Created(1, links, lastClust, freeClust)
    else if clust != 0 && links[clust] < |links| then Created(links[clust], links, lastClust, freeClust)
    else
      var r := Pick(links, ScanOrder(ScanStart(links, clust, lastClust), |links|));
      if r < 2 || r >= |links| then Created(r, links, lastClust, freeClust)
      else Created(r, Allocated(links, clust, r, endMark), r, Taken(freeClust))
  }

  datatype Unlinked = Unlinked(links: seq<nat>, freed: nat, ok: bool)

  /** remove_chain: zero each link on the way until it leaves the cluster range or meets an entry 1. A
      cycle ends at the first cluster met again, whose link is zero by then. */
  function Unlink(links: seq<nat>, c: nat): (u: Unlinked)
    ensures |u.links| == |links|
    decreases |links| - FreeCount(links), if IsCluster(links, c) then 1 else 0
  {
    if !IsCluster(links, c) then Unlinked(links, 0, true)
    else if links[c] == 1 then Unlinked(links, 0, false)
    else
      FreeCountUpdate(links, c, 0);
      var u := Unlink(links[c := 0], links[c]);
      u.(freed := u.freed + 1)
  }

  /** The walk from c arrives at a free cluster: one that was free before, or, on a cycle, one that the
      walk has just freed. */
  predicate RunsIntoFree(links: seq<nat>, c: nat)
    decreases |links| - FreeCount(links), if IsCluster(links, c) then 1 else 0
  {
    if !IsCluster(links, c) || links[c] == 1 then false
    else if links[c] == 0 then true
    else FreeCountUpdate(links, c, 0); RunsIntoFree(links[c := 0], links[c])
  }

  /** On every table remove_chain counts the clusters it frees, and one more exactly when the walk runs
      into a free cluster. */
  lemma {:induction false} UnlinkCounts(links: seq<nat>, c: nat)
    ensures var u := Unlink(links, c);
            FreeCount(links) + u.freed == FreeCount(u.links) + One(RunsIntoFree(links, c))
    decreases |links| - FreeCount(links), if IsCluster(links, c) then 1 else 0
  {
    if IsCluster(links, c) && links[c] != 1 {
      FreeCountUpdate(links, c, 0);
      UnlinkCounts(links[c := 0], links[c]);
      if links[c] == 0 {
        assert links[c := 0] == links;
        assert Unlink(links, 0) == Unlinked(links, 0, true);
      }
    }
  }

  function Zeroed(links: seq<nat>, cs: seq<nat>): (r: seq<nat>)
    requires forall i :: 0 <= i < |cs| ==> cs[i] < |links|
    ensures |r| == |links|
    ensures forall c {:trigger r[c]} :: 0 <= c < |links| ==> r[c] == if c in cs then 0 else links[c]
  {
    seq(|links|, c requires 0 <= c < |links| => if c in cs then 0 else links[c])
  }

  ghost predicate Repeats(cs: seq<nat>) {
    exists i, j {:trigger cs[i], cs[j]} :: 0 <= i < j < |cs| && cs[i] == cs[j]
  }

  /** The clusters t, met behind the clusters p, end with a free one, or one of them all is met twice. */
  ghost predicate MeetsFree(links: seq<nat>, p: seq<nat>, t: seq<nat>)
    requires forall i :: 0 <= i < |t| ==> t[i] < |links|
  {
    t != [] && (links[t[|t| - 1]] == 0 || Repeats(p + t))
  }

  /** When the walk runs into a free cluster, read off the table before the call: the clusters met from c on end
      with a free one, or one of them is met twice. */
  lemma RunsIntoFreeExactly(links: seq<nat>, c: nat)
    ensures var cs := Follow(links, c, |links|);
            RunsIntoFree(links, c) <==> cs != [] && (links[cs[|cs| - 1]] == 0 || Repeats(cs))
  {
    if IsCluster(links, c) {
      assert Zeroed(links, []) == links;
      RunsOn(links, [], c);
      assert [] + Follow(links, c, |links|) == Follow(links, c, |links|);
    }
  }

  /** The walk after it has zeroed the clusters p. */
  lemma {:induction false} RunsOn(links: seq<nat>, p: seq<nat>, c: nat)
    requires |links| >= 2 && forall i :: 0 <= i < |p| ==> 2 <= p[i] < |links|
    requires !Repeats(p) && FreeCount(Zeroed(links, p)) == FreeCount(links) + |p|
    ensures |p| <= |links| - 2
    ensures RunsIntoFree(Zeroed(links, p), c) <==> MeetsFree(links, p, Follow(links, c, |links| - |p|))
    decreases |links| - |p|
  {
    hide FreeCount, Repeats, MeetsFree, Follow, Zeroed, RunsIntoFree;
    var now, k := Zeroed(links, p), |links| - |p|;
    FreeBounds(now, |now|);
    FreeCountIs(now);
    if !IsCluster(links, c) {
      RunsNowhere(links, p, c, k);
    } else {
      FollowOne(links, c, k);
      RunsHere(links, p, c, Follow(links, links[c], k - 1));
      if c !in p && links[c] >= 2 {
        NoRepeat(p, c);
        RunsOn(links, p + [c], links[c]);
      }
    }
  }

  lemma RunsNowhere(links: seq<nat>, p: seq<nat>, c: nat, k: nat)
    requires !IsCluster(links, c) && forall i :: 0 <= i < |p| ==> p[i] < |links|
    ensures !RunsIntoFree(Zeroed(links, p), c) && !MeetsFree(links, p, Follow(links, c, k))
  {
  }

  lemma FollowOne(links: seq<nat>, c: nat, k: nat)
    requires IsCluster(links, c) && k > 0
    ensures Follow(links, c, k) == [c] + Follow(links, links[c], k - 1)
    ensures links[c] < 2 ==> Follow(links, links[c], k - 1) == []
  {
  }

  /** One step of the walk, on the zeroed table and on the table before the call. */
  lemma RunsHere(links: seq<nat>, p: seq<nat>, c: nat, rest: seq<nat>)
    requires IsCluster(links, c) && !Repeats(p) && forall i :: 0 <= i < |p| ==> p[i] < |links|
    requires (forall i :: 0 <= i < |rest| ==> rest[i] < |links|) && (links[c] < 2 ==> rest == [])
    ensures c in p || links[c] < 2 ==> (RunsIntoFree(Zeroed(links, p), c) <==> MeetsFree(links, p, [c] + rest))
    ensures c !in p && links[c] >= 2 ==>
              && RunsIntoFree(Zeroed(links, p), c) == RunsIntoFree(Zeroed(links, p + [c]), links[c])
              && FreeCount(Zeroed(links, p + [c])) == FreeCount(Zeroed(links, p)) + 1
              && (MeetsFree(links, p, [c] + rest) <==> MeetsFree(links, p + [c], rest))
  {
    hide FreeCount, Repeats;
    assert p + ([c] + rest) == (p + [c]) + rest;
    if c in p {
      RepeatsAt(p, c, rest);
    } else {
      NoRepeat(p, c);
      assert rest == [] ==> (p + [c]) + rest == p + [c];
      FreeCountUpdate(Zeroed(links, p), c, 0);
      assert Zeroed(links, p + [c]) == Zeroed(links, p)[c := 0];
    }
  }

  lemma FreeCountIs(links: seq<nat>)
    requires |links| >= 2
    ensures FreeCount(links) == FreeUpTo(links, |links|)
  {
  }

  lemma RepeatsAt(p: seq<nat>, c: nat, rest: seq<nat>)
    requires c in p
    ensures Repeats(p + ([c] + rest))
  {
    var i :| 0 <= i < |p| && p[i] == c;
    var q := p + ([c] + rest);
    assert q[i] == c && q[|p|] == c;
  }

  lemma NoRepeat(p: seq<nat>, c: nat)
    requires !Repeats(p) && c !in p
    ensures !Repeats(p + [c])
  {
    var q := p + [c];
    forall i, j | 0 <= i < j < |q|
      ensures q[i] != q[j]
    {
      assert q[i] == p[i];
      if j < |p| {
        assert q[j] == p[j];
      }
    }
  }

  /** Two clusters that lead to each other are freed, and counted as three. */
  lemma CycleOvercounted()
    ensures var links := [0xFFF, 0xFFF, 3, 2]; var u := Unlink(links, 2);
            RunsIntoFree(links, 2) && FreeCount(links) == 0 && FreeCount(u.links) == 2 && u.freed == 3
  {
    var links := [0xFFF, 0xFFF, 3, 2];
    var a := links[2 := 0];
    var b := a[3 := 0];
    assert Unlink(b, 2) == Unlinked(b[2 := 0], 1, true) by {
      assert Unlink(b[2 := 0], 0) == Unlinked(b[2 := 0], 0, true);
    }
    assert Unlink(a, 3).freed == 2;
    assert Unlink(links, 2).freed == 3;
    assert RunsIntoFree(b, 2) && RunsIntoFree(a, 3);
    FreeBounds(links, 4);
    FreeBounds(Unlink(links, 2).links, 4);
    assert b[2 := 0] == [0xFFF, 0xFFF, 0, 0];
  }

  /** On a complete chain exactly its clusters become free, each is counted once, and all other links
      stay. */
  lemma {:induction false} UnlinkChain(links: seq<nat>, cs: seq<nat>)
    requires Chain(links, cs)
    ensures Unlink(links, cs[0]) == Unlinked(Zeroed(links, cs), |cs|, true)
    ensures !RunsIntoFree(links, cs[0])
    decreases |cs|
  {
    var c, next := cs[0], links[cs[0]];
    LinkOnChain(links, cs, 0);
    FreeCountUpdate(links, c, 0);
    var after := links[c := 0];
    if |cs| == 1 {
      assert Unlink(after, next) == Unlinked(after, 0, true);
      assert Zeroed(links, cs) == after;
    } else {
      var rest := cs[1..];
      forall i | 0 <= i < |rest|
        ensures after[rest[i]] == links[rest[i]]
      {
        ChainDistinct(links, cs, 0, i + 1);
      }
      UnlinkChain(after, rest);
      assert Zeroed(after, rest) == Zeroed(links, cs);
    }
  }

  // ---------------------------------------------------------------------------------------------------
  // The family of all chains

  /** Every occupied cluster lies on exactly one of the chains, and each chain is complete. */
  ghost predicate Partition(links: seq<nat>, chains: seq<seq<nat>>) {
    && AllChains(links, chains)
    && Disjoint(chains)
    && Covered(links, chains)
  }

  ghost predicate AllChains(links: seq<nat>, chains: seq<seq<nat>>) {
    forall i :: 0 <= i < |chains| ==> Chain(links, chains[i])
  }

  ghost predicate Disjoint(chains: seq<seq<nat>>) {
    forall i, j, c :: 0 <= i < j < |chains| && c in chains[i] ==> c !in chains[j]
  }

  ghost predicate Covered(links: seq<nat>, chains: seq<seq<nat>>) {
    forall c :: IsCluster(links, c) && links[c] != 0 ==> Owned(chains, c)
  }

  ghost predicate Owned(chains: seq<seq<nat>>, c: nat) {
    exists i :: 0 <= i < |chains| && c in chains[i]
  }

  function TotalLength(chains: seq<seq<nat>>): nat {
    if chains == [] then 0 else TotalLength(chains[..|chains| - 1]) + |chains[|chains| - 1]|
  }

  function Without(chains: seq<seq<nat>>, i: nat): (r: seq<seq<nat>>)
    requires i < |chains|
  {
    chains[..i] + chains[i + 1..]
  }

  lemma LinkOnChain(links: seq<nat>, cs: seq<nat>, x: nat)
    requires Chain(links, cs) && x < |cs|
    ensures links[cs[x]] == if x + 1 < |cs| then cs[x + 1] else links[cs[|cs| - 1]]
    ensures links[cs[x]] >= 2
  {
  }

  /** No link of a partitioned table is 1. */
  lemma NoBadEntry(links: seq<nat>, chains: seq<seq<nat>>, c: nat)
    requires Partition(links, chains) && IsCluster(links, c)
    ensures links[c] != 1
  {
    if links[c] == 1 {
      var i :| 0 <= i < |chains| && c in chains[i];
      var x :| 0 <= x < |chains[i]| && chains[i][x] == c;
      LinkOnChain(links, chains[i], x);
    }
  }

  lemma ChainUntouched(links: seq<nat>, cs: seq<nat>, c: nat, v: nat)
    requires Chain(links, cs) && c < |links| && c !in cs
    ensures Chain(links[c := v], cs)
  {
  }

  lemma NotOnChain(links: seq<nat>, cs: seq<nat>, c: nat)
    requires Chain(links, cs) && IsCluster(links, c) && links[c] == 0
    ensures c !in cs
  {
    if c in cs {
      var x :| 0 <= x < |cs| && cs[x] == c;
      LinkOnChain(links, cs, x);
    }
  }

  /** A free cluster lies on no chain. */
  lemma FreeIsUnowned(links: seq<nat>, chains: seq<seq<nat>>, r: nat)
    requires AllChains(links, chains) && IsCluster(links, r) && links[r] == 0
    ensures forall i :: 0 <= i < |chains| ==> r !in chains[i]
  {
    forall i | 0 <= i < |chains|
      ensures r !in chains[i]
    {
      NotOnChain(links, chains[i], r);
    }
  }

  lemma CoveredWithNew(links: seq<nat>, chains: seq<seq<nat>>, r: nat, endMark: nat)
    requires Covered(links, chains) && r < |links|
    ensures Covered(links[r := endMark], chains + [[r]])
  {
    hide AllChains, Disjoint, Chain;
    var all := chains + [[r]];
    forall c | IsCluster(links, c) && (c == r || links[c] != 0)
      ensures Owned(all, c)
    {
      if c == r {
        assert r in all[|chains|];
      } else {
        assert Owned(chains, c);
        var i :| 0 <= i < |chains| && c in chains[i];
        assert c in all[i];
      }
    }
  }

  /** A free cluster becomes a chain of its own. */
  lemma NewChainKeeps(links: seq<nat>, chains: seq<seq<nat>>, r: nat, endMark: nat)
    requires Partition(links, chains) && IsCluster(links, r) && links[r] == 0 && endMark >= |links|
    ensures Partition(Allocated(links, 0, r, endMark), chains + [[r]])
  {
    hide Chain, Covered, Owned;
    var now, all := links[r := endMark], chains + [[r]];
    FreeIsUnowned(links, chains, r);
    assert AllChains(now, all) by {
      hide Disjoint;
      forall i | 0 <= i < |chains|
        ensures Chain(now, chains[i])
      {
        ChainUntouched(links, chains[i], r, endMark);
      }
      SingleChain(now, r);
    }
    assert Disjoint(all) by { hide AllChains; }
    CoveredWithNew(links, chains, r, endMark);
  }

  lemma SingleChain(links: seq<nat>, r: nat)
    requires IsCluster(links, r) && links[r] >= |links|
    ensures Chain(links, [r])
  {
  }

  /** A free cluster extends one chain and leaves the others alone. */
  lemma StretchKeeps(links: seq<nat>, chains: seq<seq<nat>>, k: nat, r: nat, endMark: nat)
    requires Partition(links, chains) && IsCluster(links, r) && links[r] == 0 && endMark >= |links|
    requires k < |chains|
    ensures |chains[k]| > 0 && 0 < chains[k][|chains[k]| - 1] < |links|
    ensures Partition(Allocated(links, chains[k][|chains[k]| - 1], r, endMark), chains[k := chains[k] + [r]])
  {
    hide Chain;
    var cs := chains[k];
    ChainInRange(links, cs);
    var last := cs[|cs| - 1];
    assert last in cs;
    var now, all := links[r := endMark][last := r], chains[k := cs + [r]];
    FreeIsUnowned(links, chains, r);
    assert AllChains(now, all) by {
      StretchedChain(links, cs, r, endMark);
      forall i | 0 <= i < |chains| && i != k
        ensures Chain(now, chains[i])
      {
        assert last !in chains[i];
        ChainUntouched(links, chains[i], r, endMark);
        ChainUntouched(links[r := endMark], chains[i], last, r);
      }
    }
    assert Disjoint(all) by { hide AllChains, Covered; }
    assert Covered(now, all) by {
      hide AllChains, Disjoint;
      forall c | IsCluster(now, c) && now[c] != 0
        ensures Owned(all, c)
      {
        if c == r {
          assert r in all[k];
        } else if c == last {
          assert c in all[k];
        } else {
          assert Owned(chains, c);
          var i :| 0 <= i < |chains| && c in chains[i];
          assert c in all[i];
        }
      }
    }
  }

  lemma StretchedChain(links: seq<nat>, cs: seq<nat>, r: nat, endMark: nat)
    requires Chain(links, cs) && IsCluster(links, r) && links[r] == 0 && r !in cs && endMark >= |links|
    ensures Chain(links[r := endMark][cs[|cs| - 1] := r], cs + [r])
  {
    var last := |cs| - 1;
    var now := links[r := endMark][cs[last] := r];
    forall i | 0 <= i < last
      ensures now[cs[i]] == cs[i + 1]
    {
      ChainDistinct(links, cs, i, last);
    }
  }

  /** Removing a chain keeps the others. */
  lemma RemoveKeeps(links: seq<nat>, chains: seq<seq<nat>>, k: nat)
    requires Partition(links, chains) && k < |chains|
    ensures Chain(links, chains[k]) && |chains[k]| > 0
    ensures Partition(Zeroed(links, chains[k]), Without(chains, k))
  {
    hide Chain;
    ChainInRange(links, chains[k]);
    var now, rest := Zeroed(links, chains[k]), Without(chains, k);
    assert AllChains(now, rest) by {
      forall i | 0 <= i < |rest|
        ensures Chain(now, rest[i])
      {
        var o := if i < k then i else i + 1;
        assert rest[i] == chains[o] && Chain(links, chains[o]);
        ChainAmidZeros(links, chains[k], chains[o]);
      }
    }
    assert Disjoint(rest) by { hide AllChains, Covered; }
    assert Covered(now, rest) by {
      hide AllChains, Disjoint;
      forall c | IsCluster(now, c) && now[c] != 0
        ensures Owned(rest, c)
      {
        assert Owned(chains, c);
        var i :| 0 <= i < |chains| && c in chains[i];
        assert c in rest[if i < k then i else i - 1];
      }
    }
  }

  lemma ChainInRange(links: seq<nat>, cs: seq<nat>)
    requires Chain(links, cs)
    ensures |cs| > 0
    ensures forall i :: 0 <= i < |cs| ==> cs[i] < |links|
    ensures IsCluster(links, cs[|cs| - 1])
  {
  }

  lemma ChainAmidZeros(links: seq<nat>, gone: seq<nat>, cs: seq<nat>)
    requires Chain(links, gone) && Chain(links, cs) && forall c :: c in cs ==> c !in gone
    ensures Chain(Zeroed(links, gone), cs)
  {
    forall i | 0 <= i < |cs|
      ensures Zeroed(links, gone)[cs[i]] == links[cs[i]]
    {
      assert cs[i] in cs;
    }
  }

  lemma NothingOccupied(links: seq<nat>)
    requires Partition(links, []) && |links| >= 2
    ensures FreeCount(links) == |links| - 2
  {
    forall c | 2 <= c < |links|
      ensures links[c] == 0
    {
      assert !Owned([], c);
    }
    FreeBounds(links, |links|);
  }

  lemma ChainFreed(links: seq<nat>, cs: seq<nat>)
    requires Chain(links, cs)
    ensures FreeCount(Zeroed(links, cs)) == FreeCount(links) + |cs|
    ensures forall c :: c in cs ==> links[c] != 0
  {
    UnlinkChain(links, cs);
    UnlinkCounts(links, cs[0]);
    forall c | c in cs
      ensures links[c] != 0
    {
      var x :| 0 <= x < |cs| && cs[x] == c;
      LinkOnChain(links, cs, x);
    }
  }

  /** Conservation: the free clusters and the lengths of the chains add up to all clusters. */
  lemma {:induction false} Conservation(links: seq<nat>, chains: seq<seq<nat>>)
    requires Partition(links, chains) && |links| >= 2
    ensures FreeCount(links) + TotalLength(chains) == |links| - 2
    decreases |chains|
  {
    if chains == [] {
      NothingOccupied(links);
    } else {
      hide Partition, Chain, FreeCount, Zeroed;
      var k := |chains| - 1;
      RemoveKeeps(links, chains, k);
      assert Without(chains, k) == chains[..k];
      ChainFreed(links, chains[k]);
      Conservation(Zeroed(links, chains[k]), chains[..k]);
    }
  }

  // ---------------------------------------------------------------------------------------------------
  // Runs

  datatype Op =
    | NewChain            // create_chain(0)
    | Stretch(k: nat)     // create_chain on the last cluster of chain k
    | Discard(k: nat)     // remove_chain on the first cluster of chain k

  /** What the allocator works on; `chains` is the family the links stand for. */
  datatype State = State(links: seq<nat>, lastClust: nat, freeClust: nat, chains: seq<seq<nat>>)

  ghost predicate Sound(s: State) {
    && 2 <= |s.links| < 0xFFF8
    && Partition(s.links, s.chains)
    && (s.freeClust == UNKNOWN || s.freeClust == FreeCount(s.links))
  }

  /** One call of create_chain for chain k, or for a new chain when k is the number of chains. */
  ghost function Allocate(s: State, k: nat, endMark: nat): State
    requires Sound(s) && k <= |s.chains|
  {
    var a := Create(s.links, s.lastClust, s.freeClust, LastOf(s, k), endMark);
    if a.r < 2 then s
    else
      State(a.links, a.lastClust, a.freeClust,
        if k == |s.chains| then s.chains + [[a.r]] else s.chains[k := s.chains[k] + [a.r]])
  }

  /** The cluster that create_chain is asked to stretch. */
  ghost function LastOf(s: State, k: nat): (c: nat)
    requires Sound(s) && k <= |s.chains|
    ensures c == 0 || (IsCluster(s.links, c) && s.links[c] >= |s.links|)
  {
    if k == |s.chains| then 0
    else
      assert Chain(s.links, s.chains[k]);
      s.chains[k][|s.chains[k]| - 1]
  }

  /** With no damaged chain around, an allocation finds a free cluster exactly when there is one. */
  lemma CreateFinds(s: State, clust: nat, endMark: nat)
    requires Sound(s) && (clust == 0 || (IsCluster(s.links, clust) && s.links[clust] >= |s.links|))
    ensures var a := Create(s.links, s.lastClust, s.freeClust, clust, endMark);
            && (a.r == 0 <==> FreeCount(s.links) == 0)
            && (a.r != 0 ==>
                 && IsCluster(s.links, a.r) && s.links[a.r] == 0
                 && a == Created(a.r, Allocated(s.links, clust, a.r, endMark), a.r, Taken(s.freeClust)))
  {
    forall c | 2 <= c < |s.links|
      ensures s.links[c] != 1
    {
      NoBadEntry(s.links, s.chains, c);
    }
    PickComplete(s.links, ScanStart(s.links, clust, s.lastClust));
  }

  ghost function Step(s: State, op: Op, endMark: nat): State
    requires Sound(s)
  {
    match op
    case NewChain => Allocate(s, |s.chains|, endMark)
    case Stretch(k) => if k < |s.chains| then Allocate(s, k, endMark) else s
    case Discard(k) => if k < |s.chains| then Remove(s, k) else s
  }

  /** One call of remove_chain for chain k. */
  ghost function Remove(s: State, k: nat): State
    requires Sound(s) && k < |s.chains|
  {
    assert Chain(s.links, s.chains[k]);
    var u := Unlink(s.links, s.chains[k][0]);
    State(u.links, s.lastClust, Added(s.freeClust, u.freed), Without(s.chains, k))
  }

  lemma RemoveStepKeeps(s: State, k: nat)
    requires Sound(s) && k < |s.chains|
    ensures Sound(Remove(s, k)) && |Remove(s, k).links| == |s.links|
  {
    hide Partition, Chain, FreeCount, Zeroed, Unlink, RunsIntoFree;
    RemoveKeeps(s.links, s.chains, k);
    UnlinkChain(s.links, s.chains[k]);
    ChainFreed(s.links, s.chains[k]);
  }

  lemma AllocateKeeps(s: State, k: nat, endMark: nat)
    requires Sound(s) && k <= |s.chains| && endMark >= |s.links|
    ensures Sound(Allocate(s, k, endMark)) && |Allocate(s, k, endMark).links| == |s.links|
  {
    var clust := LastOf(s, k);
    hide Partition, Chain, Create, Allocated, FreeCount;
    var r := Create(s.links, s.lastClust, s.freeClust, clust, endMark).r;
    CreateFinds(s, clust, endMark);
    if r != 0 {
      if k == |s.chains| {
        NewChainKeeps(s.links, s.chains, r, endMark);
      } else {
        StretchKeeps(s.links, s.chains, k, r, endMark);
      }
      AllocatedCount(s.links, clust, r, endMark);
    }
  }

  /** An allocation takes one free cluster. */
  lemma AllocatedCount(links: seq<nat>, clust: nat, r: nat, endMark: nat)
    requires IsCluster(links, r) && links[r] == 0 && endMark >= |links|
    requires clust == 0 || (IsCluster(links, clust) && links[clust] != 0)
    ensures FreeCount(Allocated(links, clust, r, endMark)) + 1 == FreeCount(links)
  {
    FreeCountUpdate(links, r, endMark);
    if clust != 0 {
      FreeCountUpdate(links[r := endMark], clust, r);
    }
  }

  /** Every step of the allocator keeps all chains complete and disjoint, and the counter is unknown or
      exact. */
  lemma StepKeeps(s: State, op: Op, endMark: nat)
    requires Sound(s) && endMark >= |s.links|
    ensures Sound(Step(s, op, endMark)) && |Step(s, op, endMark).links| == |s.links|
  {
    hide Sound, Allocate, Remove;
    match op
    case NewChain => AllocateKeeps(s, |s.chains|, endMark);
    case Stretch(k) => if k < |s.chains| { AllocateKeeps(s, k, endMark); }
    case Discard(k) => if k < |s.chains| { RemoveStepKeeps(s, k); }
  }

  ghost function Run(s: State, ops: seq<Op>, endMark: nat): (t: State)
    requires Sound(s) && endMark >= |s.links|
    ensures Sound(t) && |t.links| == |s.links|
    decreases |ops|
  {
    if ops == [] then s
    else
      StepKeeps(s, ops[0], endMark);
      Run(Step(s, ops[0], endMark), ops[1..], endMark)
  }

  /** Over any run of allocations and removals no cluster is lost or owned twice: the chains and the
      free clusters always account for every cluster, and a known free counter gives exactly what the
      chains leave over. */
  lemma RunConserves(s: State, ops: seq<Op>, endMark: nat)
    requires Sound(s) && endMark >= |s.links|
    ensures var t := Run(s, ops, endMark);
            && Partition(t.links, t.chains)
            && FreeCount(t.links) + TotalLength(t.chains) == |s.links| - 2
            && (if s.freeClust == UNKNOWN then t.freeClust == UNKNOWN
                else t.freeClust + TotalLength(t.chains) == |s.links| - 2)
  {
    hide Step;
    var t := Run(s, ops, endMark);
    RunKnows(s, ops, endMark);
    Conservation(t.links, t.chains);
  }

  lemma StepKnows(s: State, op: Op, endMark: nat)
    requires Sound(s) && endMark >= |s.links|
    ensures Step(s, op, endMark).freeClust == UNKNOWN <==> s.freeClust == UNKNOWN
  {
    hide Disjoint, Covered, FreeCount, Chain, Create, Unlink, Allocated;
    FreeBounds(s.links, |s.links|);
    match op
    case NewChain => CreateFinds(s, 0, endMark);
    case Stretch(k) => if k < |s.chains| { CreateFinds(s, LastOf(s, k), endMark); }
    case Discard(k) =>
      if k < |s.chains| {
        RemoveStepKeeps(s, k);
        UnlinkChain(s.links, s.chains[k]);
        ChainFreed(s.links, s.chains[k]);
        FreeBounds(Remove(s, k).links, |s.links|);
      }
  }

  /** A known counter stays known, and an unknown one unknown. */
  lemma {:induction false} RunKnows(s: State, ops: seq<Op>, endMark: nat)
    requires Sound(s) && endMark >= |s.links|
    ensures Run(s, ops, endMark).freeClust == UNKNOWN <==> s.freeClust == UNKNOWN
    decreases |ops|
  {
    hide Sound, Step;
    if ops != [] {
      StepKnows(s, ops[0], endMark);
      StepKeeps(s, ops[0], endMark);
      RunKnows(Step(s, ops[0], endMark), ops[1..], endMark);
    }
  }

  // ---------------------------------------------------------------------------------------------------
  // What create_chain and remove_chain do, said by the table alone

  /** A cluster that has a successor keeps it, and the successor is the answer. */
  lemma CreateFollows(links: seq<nat>, cs: seq<nat>, x: nat, lastClust: nat, freeClust: nat, endMark: nat)
    requires Chain(links, cs) && x + 1 < |cs|
    ensures Create(links, lastClust, freeClust, cs[x], endMark) == Created(cs[x + 1], links, lastClust, freeClust)
  {
    assert links[cs[x]] == cs[x + 1];
  }

  /** The same for whatever chain the cluster is on, and the mark of a cluster that is taken. */
  lemma CreateLinks(links: seq<nat>, clust: nat, lastClust: nat, freeClust: nat, endMark: nat)
    requires |links| >= 2
    ensures var a := Create(links, lastClust, freeClust, clust, endMark);
            && (forall cs, x {:trigger Chain(links, cs), cs[x]} ::
                  Chain(links, cs) && 0 <= x < |cs| - 1 && clust == cs[x] ==>
                    a == Created(cs[x + 1], links, lastClust, freeClust))
            && (a.links != links ==> 2 <= a.r < |links| && a.links[a.r] == endMark)
  {
    hide Pick, ScanOrder, Chain, Create;
    forall cs, x {:trigger Chain(links, cs), cs[x]} | Chain(links, cs) && 0 <= x < |cs| - 1 && clust == cs[x]
      ensures Create(links, lastClust, freeClust, clust, endMark) == Created(cs[x + 1], links, lastClust, freeClust)
    {
      CreateFollows(links, cs, x, lastClust, freeClust, endMark);
    }
    TakenMarked(links, clust, lastClust, freeClust, endMark);
  }

  lemma TakenMarked(links: seq<nat>, clust: nat, lastClust: nat, freeClust: nat, endMark: nat)
    requires |links| >= 2
    ensures var a := Create(links, lastClust, freeClust, clust, endMark);
            a.links != links ==> 2 <= a.r < |links| && a.links[a.r] == endMark
  {
    if clust == 0 || (IsCluster(links, clust) && links[clust] >= |links|) {
      CreateTakes(links, clust, lastClust, freeClust, endMark);
    }
  }

  /** A number that is no cluster, a free cluster and an entry 1 cannot be stretched. */
  lemma CreateRefuses(links: seq<nat>, clust: nat, lastClust: nat, freeClust: nat, endMark: nat)
    requires |links| >= 2 && clust > 0 && (IsCluster(links, clust) ==> links[clust] == 0 || links[clust] == 1)
    ensures Create(links, lastClust, freeClust, clust, endMark) == Created(1, links, lastClust, freeClust)
  {
  }

  /** Going up from a, and on from 2 behind the last cluster, c comes before b. */
  predicate Between(a: nat, c: nat, b: nat) {
    if a < b then a < c < b else a < c || c < b
  }

  /** A new chain or the end of a chain gets a free cluster, marked as an end and linked to its predecessor, and no
      other link changes. It is the nearest one behind the end of the chain, for a new chain behind the cluster that
      was allocated last, and the lowest one when that is unknown: all clusters between are in use. */
  lemma CreateTakes(links: seq<nat>, clust: nat, lastClust: nat, freeClust: nat, endMark: nat)
    requires |links| >= 2 && (clust == 0 || (IsCluster(links, clust) && links[clust] >= |links|))
    ensures var a := Create(links, lastClust, freeClust, clust, endMark);
            && (a.r < 2 ==> a == Created(a.r, links, lastClust, freeClust))
            && (a.r >= 2 ==>
                 && IsCluster(links, a.r) && links[a.r] == 0 && a.links[a.r] == endMark && a.lastClust == a.r
                 && (clust != 0 ==> a.links[clust] == a.r)
                 && (forall c :: 0 <= c < |links| && c != a.r && c != clust ==> a.links[c] == links[c])
                 && (freeClust == 0xFFFF ==> a.freeClust == 0xFFFF)
                 && (0 < freeClust < 0xFFFF ==> a.freeClust == freeClust - 1)
                 && (forall c :: IsCluster(links, c) && links[c] == 0 ==>
                       if clust != 0 then !Between(clust, c, a.r)
                       else if IsCluster(links, lastClust) then !Between(lastClust, c, a.r)
                       else a.r <= c))
  {
    hide Pick, ScanOrder;
    var s := ScanStart(links, clust, lastClust);
    var order := ScanOrder(s, |links|);
    var k := PickMeaning(links, order);
    forall c | IsCluster(links, c) && links[c] == 0 && Pick(links, order) >= 2
      ensures !Between(s, c, Pick(links, order))
    {
      var i := ScanPosition(s, |links|, c);
      assert order[i] == c;
    }
  }

  /** On every table remove_chain zeroes the clusters met from c on, except one with an entry 1, at which it stops
      and fails. */
  lemma UnlinkExactly(links: seq<nat>, c: nat)
    requires |links| >= 2
    ensures var cs, u := Follow(links, c, |links|), Unlink(links, c);
            && (u.ok <==> forall i :: 0 <= i < |cs| ==> links[cs[i]] != 1)
            && forall d :: 0 <= d < |links| ==> u.links[d] == if d in cs && links[d] != 1 then 0 else links[d]
  {
    var cs := Follow(links, c, |links|);
    assert Zeroed(links, cs[..0]) == links && !Repeats(cs[..0]);
    UnlinkFrom(links, c, 0);
  }

  /** The cluster behind the first i that are met from c on. */
  function Behind(links: seq<nat>, c: nat, cs: seq<nat>, i: nat): nat
    requires i <= |cs| && forall j :: 0 <= j < |cs| ==> cs[j] < |links|
  {
    if i == 0 then c else links[cs[i - 1]]
  }

  /** What the walk over the clusters cs leaves, the first i of which it has zeroed before. */
  ghost predicate Walked(links: seq<nat>, cs: seq<nat>, i: nat, u: Unlinked)
    requires |u.links| == |links| && forall j :: 0 <= j < |cs| ==> cs[j] < |links|
  {
    && (u.ok <==> forall j :: i <= j < |cs| ==> links[cs[j]] != 1)
    && forall d :: 0 <= d < |links| ==> u.links[d] == if d in cs && links[d] != 1 then 0 else links[d]
  }

  lemma {:induction false} UnlinkFrom(links: seq<nat>, c: nat, i: nat)
    requires |links| >= 2 && i <= |Follow(links, c, |links|)|
    requires var p := Follow(links, c, |links|)[..i]; !Repeats(p) && forall j :: 0 <= j < i ==> links[p[j]] != 1
    ensures var cs := Follow(links, c, |links|);
            Walked(links, cs, i, Unlink(Zeroed(links, cs[..i]), Behind(links, c, cs, i)))
    decreases |links| + 1 - i
  {
    hide Zeroed, Follow, Walked, Repeats, Unlink;
    var cs := Follow(links, c, |links|);
    var p, now, next := cs[..i], Zeroed(links, cs[..i]), Behind(links, c, cs, i);
    if i == |cs| {
      assert p == cs;
      FewerThan(cs, |links|);
      NoneMet(links, c);
      WalkEnds(links, cs, i, next);
    } else {
      FollowSteps(links, c, |links|, if i == 0 then 0 else i - 1);
      assert next == cs[i];
      if next in p {
        var j :| 0 <= j < i && p[j] == next;
        forall d | i <= d < |cs|
          ensures cs[d] in p
        {
          MetAgain(links, c, j, i, d);
        }
        WalkEnds(links, cs, i, next);
      } else {
        FollowSteps(links, c, |links|, i);
        NoRepeat(p, next);
        assert cs[..i + 1] == p + [next];
        WalkStep(links, cs, i);
        if links[next] != 1 {
          UnlinkFrom(links, c, i + 1);
        }
      }
    }
  }

  /** The walk is over where there is no cluster, or one that it has zeroed before. */
  lemma WalkEnds(links: seq<nat>, cs: seq<nat>, i: nat, next: nat)
    requires i <= |cs| && (forall j :: 0 <= j < |cs| ==> 2 <= cs[j] < |links|)
    requires (forall j :: 0 <= j < i ==> links[cs[j]] != 1) && forall d :: i <= d < |cs| ==> cs[d] in cs[..i]
    requires IsCluster(links, next) ==> next in cs[..i]
    ensures Walked(links, cs, i, Unlink(Zeroed(links, cs[..i]), next))
  {
    hide FreeCount;
    var now := Zeroed(links, cs[..i]);
    assert Unlink(now, 0) == Unlinked(now, 0, true);
    if IsCluster(links, next) {
      assert now[next := 0] == now;
    }
    assert Unlink(now, next).links == now && Unlink(now, next).ok;
    forall d | i <= d < |cs|
      ensures links[cs[d]] != 1
    {
      var j :| 0 <= j < i && cs[..i][j] == cs[d];
    }
    forall d: nat | d in cs
      ensures d in cs[..i] && links[d] != 1
    {
      var j :| 0 <= j < |cs| && cs[j] == d;
      assert j < i ==> cs[..i][j] == d;
    }
  }

  /** The walk at a cluster that it has not met before. */
  lemma WalkStep(links: seq<nat>, cs: seq<nat>, i: nat)
    requires i < |cs| && (forall j :: 0 <= j < |cs| ==> 2 <= cs[j] < |links|) && cs[i] !in cs[..i]
    requires forall j :: 0 <= j < i ==> links[cs[j]] != 1
    requires links[cs[i]] == 1 ==> i + 1 == |cs|
    ensures links[cs[i]] == 1 ==> Walked(links, cs, i, Unlink(Zeroed(links, cs[..i]), cs[i]))
    ensures links[cs[i]] != 1 && Walked(links, cs, i + 1, Unlink(Zeroed(links, cs[..i + 1]), links[cs[i]])) ==>
              Walked(links, cs, i, Unlink(Zeroed(links, cs[..i]), cs[i]))
  {
    hide FreeCount;
    var now, next := Zeroed(links, cs[..i]), cs[i];
    assert cs[..i + 1] == cs[..i] + [next];
    if links[next] == 1 {
      assert Unlink(now, next) == Unlinked(now, 0, false);
      assert cs == cs[..i] + [next];
      forall d: nat | d in cs[..i]
        ensures links[d] != 1
      {
        var j :| 0 <= j < i && cs[..i][j] == d;
      }
    } else {
      assert Zeroed(links, cs[..i + 1]) == now[next := 0];
    }
  }

  /** Where nothing is left to visit, the walk is at its end. */
  lemma NoneMet(links: seq<nat>, c: nat)
    requires |links| > 0
    ensures var cs := Follow(links, c, |links|);
            |cs| < |links| ==> !IsCluster(links, Behind(links, c, cs, |cs|))
  {
    var cs := Follow(links, c, |links|);
    if cs != [] {
      FollowSteps(links, c, |links|, |cs| - 1);
    }
  }

  /** Different clusters are fewer than the table has entries. */
  lemma FewerThan(cs: seq<nat>, n: nat)
    requires n > 0 && !Repeats(cs) && forall j :: 0 <= j < |cs| ==> 2 <= cs[j] < n
    ensures |cs| < n
  {
    hide Repeats;
    var met := Members(cs);
    Elements(cs);
    assert 0 !in met && |met + {0}| == |met| + 1;
    SubsetSize(met + {0}, Below(n));
  }

  /** A chain is shorter than the table. */
  lemma ChainShort(links: seq<nat>, cs: seq<nat>)
    requires Chain(links, cs)
    ensures |cs| < |links|
  {
    forall i, j | 0 <= i < j < |cs|
      ensures cs[i] != cs[j]
    {
      ChainDistinct(links, cs, i, j);
    }
    FewerThan(cs, |links|);
  }

  ghost function Below(n: nat): (s: set<nat>)
    ensures |s| == n && forall d: nat :: d in s <==> d < n
  {
    if n == 0 then {} else Below(n - 1) + {n - 1}
  }

  function Members(cs: seq<nat>): set<nat> { set d | d in cs }

  lemma {:induction false} Elements(cs: seq<nat>)
    requires !Repeats(cs)
    ensures |Members(cs)| == |cs|
  {
    hide Repeats;
    if cs != [] {
      var front, x := cs[..|cs| - 1], cs[|cs| - 1];
      assert cs == front + [x];
      NoRepeatIn(front, x);
      Elements(front);
      assert Members(cs) == Members(front) + {x};
    }
  }

  lemma NoRepeatIn(p: seq<nat>, c: nat)
    requires !Repeats(p + [c])
    ensures !Repeats(p) && c !in p
  {
    var q := p + [c];
    forall i, j | 0 <= i < j < |p|
      ensures p[i] != p[j]
    {
      assert q[i] == p[i] && q[j] == p[j];
    }
    assert p + ([c] + []) == q;
    if c in p {
      RepeatsAt(p, c, []);
    }
  }

  lemma {:induction false} SubsetSize(a: set<nat>, b: set<nat>)
    requires a <= b
    ensures |a| <= |b|
  {
    if a != {} {
      var x :| x in a;
      SubsetSize(a - {x}, b - {x});
    }
  }

  /** A walk that comes back to a cluster stays among the clusters it has met. */
  lemma {:induction false} MetAgain(links: seq<nat>, c: nat, j: nat, i: nat, d: nat)
    requires j < i <= d < |Follow(links, c, |links|)|
    requires Follow(links, c, |links|)[j] == Follow(links, c, |links|)[i]
    ensures Follow(links, c, |links|)[d] in Follow(links, c, |links|)[..i]
    decreases d
  {
    var cs := Follow(links, c, |links|);
    if d == i {
      assert cs[..i][j] == cs[d];
    } else {
      MetAgain(links, c, j, i, d - 1);
      var x :| 0 <= x < i && cs[..i][x] == cs[d - 1];
      FollowSteps(links, c, |links|, d - 1);
      FollowSteps(links, c, |links|, x);
      if x + 1 < i {
        assert cs[..i][x + 1] == cs[d];
      } else {
        assert cs[..i][j] == cs[d];
      }
    }
  }
}
