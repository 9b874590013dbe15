/** remove_chain, create_chain and f_getfree: loops over get_cluster and put_cluster, proved against the
    theory of chains. */
module ChainOps {
  import opened Bytes
  import opened PackedFat
  import opened Layout
  import opened Chains
  import opened Allocation
  import opened FatVolume

  /** The stored form of the end mark 0x0FFFFFFF. */
  function EndMark(t: FatType): nat { LinkLimit(t) - 1 }

  lemma EndMarkEnds(g: Geometry, total: nat)
    requires g.Valid(total)
    ensures 2 <= g.maxClust <= EndMark(g.fsType)
    ensures 0xFFFF % LinkLimit(g.fsType) == EndMark(g.fsType)
    ensures forall c: nat :: c < g.maxClust ==> c % LinkLimit(g.fsType) == c
  {
  }

  /** What an operation on the FAT leaves alone, and where it may leave the window. */
  twostate predicate OnlyFat(vol: Volume)
    requires old(vol.Valid()) && vol.Valid()
    reads vol, vol.win
  {
    && SameOutsideFat(vol.geo, old(vol.Image()), vol.Image())
    && (vol.geo.InFat(vol.winSect)
        || (vol.winSect == old(vol.winSect) && vol.win[..] == old(vol.win[..]) && vol.Image() == old(vol.Image())))
  }

  /** remove_chain terminates on every table, cyclic or not, and does what Unlink says. */
  method RemoveChain(vol: Volume, clust: nat) returns (ok: bool)
    requires vol.Valid() && vol.Coherent()
    modifies vol, vol.win
    ensures vol.Valid() && vol.Coherent()
    ensures var u := Unlink(old(vol.Links()), clust);
            && vol.Links() == u.links
            && ok == u.ok
            && vol.freeClust == Added(old(vol.freeClust), u.freed)
    ensures vol.lastClust == old(vol.lastClust)
    ensures OnlyFat(vol)
  {
    hide Geometry.Valid, FatVolume.Volume.Valid, FatVolume.Volume.Coherent, FatVolume.Volume.Image,
         FatVolume.Volume.Links, FreeCount;
    var c: nat := clust;
    ghost var k: nat := 0;
    while 2 <= c < vol.geo.maxClust
      invariant vol.Valid() && vol.Coherent()
      invariant Unlink(old(vol.Links()), clust)
             == var u := Unlink(vol.Links(), c); u.(freed := u.freed + k)
      invariant vol.freeClust == Added(old(vol.freeClust), k)
      invariant vol.lastClust == old(vol.lastClust)
      invariant OnlyFat(vol)
      decreases |vol.Links()| - FreeCount(vol.Links()), if IsCluster(vol.Links(), c) then 1 else 0
    {
      ghost var before := vol.Links();
      FreeCountUpdate(before, c, 0);
      var next := vol.GetCluster(c);
      if next == 1 {
        return false;
      }
      var done := vol.PutCluster(c, 0);
      if !done {
        return false;
      }
      if vol.freeClust != UNKNOWN {
        vol.SetFsInfo(vol.lastClust, (vol.freeClust + 1) % 0x1_0000);
      }
      k := k + 1;
      c := next;
    }
    ok := true;
  }

  /** The search loop of create_chain: it visits the clusters in cyclic order after `scl`. */
  method FindFree(vol: Volume, scl: nat) returns (r: nat)
    requires vol.Valid() && vol.Coherent() && 1 <= scl < vol.geo.maxClust
    modifies vol, vol.win
    ensures vol.Valid() && vol.Coherent()
    ensures vol.Image() == old(vol.Image()) && vol.Links() == old(vol.Links())
    ensures vol.lastClust == old(vol.lastClust) && vol.freeClust == old(vol.freeClust)
    ensures r == Pick(vol.Links(), ScanOrder(scl, |vol.Links()|))
    ensures OnlyFat(vol)
  {
    hide Geometry.Valid, FatVolume.Volume.Valid, FatVolume.Volume.Coherent, FatVolume.Volume.Image,
         FatVolume.Volume.Links, Pick, ScanOrder;
    var mcl, ncl := vol.geo.maxClust, scl;
    ghost var links := vol.Links();
    ghost var order := ScanOrder(scl, mcl);
    ghost var k: nat := 0;
    while true
      invariant vol.Valid() && vol.Coherent()
      invariant vol.Image() == old(vol.Image()) && vol.Links() == links
      invariant vol.lastClust == old(vol.lastClust) && vol.freeClust == old(vol.freeClust)
      invariant OnlyFat(vol)
      invariant k <= |order| && forall i :: 0 <= i < k ==> links[order[i]] >= 2
      invariant ncl == if k == 0 then scl else order[k - 1]
      invariant k < |order| || scl == 1
      decreases |order| - k
    {
      PickSkips(links, order, k);
      ncl := ncl + 1;
      if ncl >= mcl {
        ncl := 2;
        if ncl > scl { return 0; }
      }
      assert ncl == order[k];
      var cstat := vol.GetCluster(ncl);
      if cstat == 0 { return ncl; }
      if cstat == 1 { return 1; }
      k := k + 1;
      PickSkips(links, order, k);
      if ncl == scl { return 0; }
    }
  }

  /** create_chain. A cluster that is already followed keeps its successor; otherwise the first free
      cluster in cyclic order is taken, marked as the end of a chain and linked to its predecessor.
      Returns 0 when no cluster is free and 1 for an invalid or damaged chain, and then nothing
      changes. */
  method CreateChain(vol: Volume, clust: nat) returns (r: nat)
    requires vol.Valid() && vol.Coherent()
    modifies vol, vol.win
    ensures vol.Valid() && vol.Coherent()
    ensures old(vol.Valid()) && Created(r, vol.Links(), vol.lastClust, vol.freeClust)
         == Create(old(vol.Links()), old(vol.lastClust), old(vol.freeClust), clust, EndMark(vol.geo.fsType))
    ensures forall cs, x {:trigger Chain(old(vol.Links()), cs), cs[x]} ::
              Chain(old(vol.Links()), cs) && 0 <= x < |cs| - 1 && clust == cs[x] ==>
                && r == cs[x + 1] && vol.Links() == old(vol.Links())
                && vol.lastClust == old(vol.lastClust) && vol.freeClust == old(vol.freeClust)
    ensures r >= 2 && vol.Links() != old(vol.Links()) ==>
              vol.Links()[r] == if vol.geo.fsType.Fat12? then 0xFFF else 0xFFFF
    ensures OnlyFat(vol)
    ensures r != 0 && r != 1 && old(vol.Links()) != vol.Links() ==> vol.geo.InFat(vol.winSect)
  {
    hide Geometry.Valid, FatVolume.Volume.Valid, FatVolume.Volume.Coherent, FatVolume.Volume.Image,
         FatVolume.Volume.Links, Pick, ScanOrder, Chain;
    var mcl := vol.geo.maxClust;
    ghost var links := vol.Links();
    EndMarkEnds(vol.geo, |vol.disk|);
    CreateLinks(links, clust, vol.lastClust, vol.freeClust, EndMark(vol.geo.fsType));
    var scl;
    if clust == 0 {
      scl := vol.lastClust;
      if scl < 2 || scl >= mcl { scl := 1; }
    } else {
      var cstat := vol.GetCluster(clust);
      if cstat < 2 { return 1; }
      if cstat < mcl { return cstat; }
      scl := clust;
    }
    var ncl := FindFree(vol, scl);
    if ncl < 2 { return ncl; }
    PickInRange(links, ScanOrder(scl, mcl));
    r := 1;
    var done := vol.PutCluster(ncl, 0xFFFF);
    if !done { return; }
    if clust != 0 {
      done := vol.PutCluster(clust, ncl);
      if !done { return; }
    }
    vol.SetFsInfo(ncl, if vol.freeClust != UNKNOWN then (vol.freeClust + 0xFFFF) % 0x1_0000 else vol.freeClust);
    r := ncl;
  }

  /** The volume together with the chains that its caller knows about. */
  ghost function StateOf(vol: Volume, chains: seq<seq<nat>>): State
    requires vol.Valid()
    reads vol, vol.win
  {
    State(vol.Links(), vol.lastClust, vol.freeClust, chains)
  }

  /** A refusal changes nothing. */
  lemma Refusal(links: seq<nat>, lastClust: nat, freeClust: nat, clust: nat, endMark: nat)
    requires |links| >= 2
    ensures var a := Create(links, lastClust, freeClust, clust, endMark);
            a.r < 2 ==> a == Created(a.r, links, lastClust, freeClust)
  {
  }

  /** One allocation or removal on the volume. */
  method Apply(vol: Volume, op: Op, chains: seq<seq<nat>>) returns (now: seq<seq<nat>>)
    requires vol.Valid() && vol.Coherent() && Sound(StateOf(vol, chains))
    modifies vol, vol.win
    ensures vol.Valid() && vol.Coherent() && SameOutsideFat(vol.geo, old(vol.Image()), vol.Image())
    ensures StateOf(vol, now) == Step(old(StateOf(vol, chains)), op, EndMark(vol.geo.fsType))
  {
    hide Geometry.Valid, FatVolume.Volume.Valid, FatVolume.Volume.Coherent, FatVolume.Volume.Image,
         FatVolume.Volume.Links, Disjoint, Covered, Create, Unlink, FreeCount, SameOutsideFat;
    now := chains;
    var r;
    forall c, e
      ensures var a := Create(vol.Links(), vol.lastClust, vol.freeClust, c, e);
              a.r < 2 ==> a == Created(a.r, vol.Links(), vol.lastClust, vol.freeClust)
    {
      Refusal(vol.Links(), vol.lastClust, vol.freeClust, c, e);
    }
    match op
    case NewChain =>
      r := CreateChain(vol, 0);
      if r >= 2 { now := chains + [[r]]; }
    case Stretch(k) =>
      if k < |chains| {
        assert Chain(vol.Links(), chains[k]);
        r := CreateChain(vol, chains[k][|chains[k]| - 1]);
        if r >= 2 { now := chains[k := chains[k] + [r]]; }
      } else {
        SameImage(vol.geo, vol.Image());
      }
    case Discard(k) =>
      if k < |chains| {
        assert Chain(vol.Links(), chains[k]);
        var _ := RemoveChain(vol, chains[k][0]);
        now := Without(chains, k);
      } else {
        SameImage(vol.geo, vol.Image());
      }
  }

  lemma SameImage(g: Geometry, a: Image)
    ensures SameOutsideFat(g, a, a)
  {
  }

  /** Any run of allocations and removals on the volume, through the one window: no cluster is lost or owned
      twice, a known free count is exact, and nothing outside the FATs changes. */
  method RunAllocator(vol: Volume, ops: seq<Op>, chains: seq<seq<nat>>) returns (now: seq<seq<nat>>)
    requires vol.Valid() && vol.Coherent() && Sound(StateOf(vol, chains))
    modifies vol, vol.win
    ensures vol.Valid() && vol.Coherent() && SameOutsideFat(vol.geo, old(vol.Image()), vol.Image())
    ensures EndMark(vol.geo.fsType) >= |old(vol.Links())|
    ensures StateOf(vol, now) == Run(old(StateOf(vol, chains)), ops, EndMark(vol.geo.fsType))
    ensures Partition(vol.Links(), now) && FreeCount(vol.Links()) + TotalLength(now) == vol.geo.maxClust - 2
    ensures vol.freeClust == UNKNOWN || vol.freeClust == FreeCount(vol.Links())
  {
    hide Geometry.Valid, FatVolume.Volume.Valid, FatVolume.Volume.Coherent, FatVolume.Volume.Image,
         FatVolume.Volume.Links, Sound, Step, SameOutsideFat;
    EndMarkEnds(vol.geo, |vol.disk|);
    ghost var start, endMark := StateOf(vol, chains), EndMark(vol.geo.fsType);
    now := chains;
    SameImage(vol.geo, vol.Image());
    var i := 0;
    while i < |ops|
      invariant 0 <= i <= |ops| && vol.Valid() && vol.Coherent()
      invariant SameOutsideFat(vol.geo, old(vol.Image()), vol.Image())
      invariant Sound(StateOf(vol, now)) && |vol.Links()| == |start.links|
      invariant Run(start, ops, endMark) == Run(StateOf(vol, now), ops[i..], endMark)
    {
      assert ops[i..][0] == ops[i] && ops[i..][1..] == ops[i + 1..];
      ghost var mid := vol.Image();
      StepKeeps(StateOf(vol, now), ops[i], endMark);
      now := Apply(vol, ops[i], now);
      OutsideFatTrans(vol.geo, old(vol.Image()), mid, vol.Image());
      i := i + 1;
    }
    RunConserves(start, ops, endMark);
    SoundCount(StateOf(vol, now));
  }

  lemma SoundCount(s: State)
    requires Sound(s)
    ensures s.freeClust == UNKNOWN || s.freeClust == FreeCount(s.links)
  {
  }

  lemma OutsideFatTrans(g: Geometry, a: Image, b: Image, c: Image)
    requires SameOutsideFat(g, a, b) && SameOutsideFat(g, b, c)
    ensures SameOutsideFat(g, a, c)
  {
  }

  lemma PickInRange(links: seq<nat>, order: seq<nat>)
    requires forall i :: 0 <= i < |order| ==> 2 <= order[i] < |links|
    ensures Pick(links, order) == 0 || Pick(links, order) == 1 || IsCluster(links, Pick(links, order))
  {
  }

  /** The FAT12 count of f_getfree: one get_cluster per cluster. */
  method CountByCluster(vol: Volume) returns (n: nat)
    requires vol.Valid() && vol.Coherent()
    modifies vol, vol.win
    ensures vol.Valid() && vol.Coherent()
    ensures vol.Image() == old(vol.Image()) && vol.Links() == old(vol.Links())
    ensures vol.lastClust == old(vol.lastClust) && vol.freeClust == old(vol.freeClust)
    ensures n == FreeCount(vol.Links())
  {
    hide Geometry.Valid, FatVolume.Volume.Valid, FatVolume.Volume.Coherent, FatVolume.Volume.Image,
         FatVolume.Volume.Links;
    EndMarkEnds(vol.geo, |vol.disk|);
    ghost var links := vol.Links();
    var clust := 2;
    n := 0;
    var more := true;
    while more
      invariant vol.Valid() && vol.Coherent()
      invariant vol.Image() == old(vol.Image()) && vol.Links() == links
      invariant vol.lastClust == old(vol.lastClust) && vol.freeClust == old(vol.freeClust)
      invariant more ==> 2 <= clust <= vol.geo.maxClust && (clust == vol.geo.maxClust ==> clust == 2)
      invariant !more ==> clust >= vol.geo.maxClust
      invariant n == FreeUpTo(links, if clust < vol.geo.maxClust then clust else vol.geo.maxClust)
      decreases more, vol.geo.maxClust - clust
    {
      var link := vol.GetCluster(clust);
      if link == 0 { n := n + 1; }
      clust := clust + 1;
      more := clust < vol.geo.maxClust;
    }
  }

  /** The FAT16 count of f_getfree: it walks the FAT sector by sector, with an 8-bit counter that wraps
      to zero at each sector end, and looks at every entry, the two reserved ones included. */
  method CountBySector(vol: Volume) returns (n: nat)
    requires vol.Valid() && vol.Coherent() && vol.geo.fsType.Fat16?
    modifies vol, vol.win
    ensures vol.Valid() && vol.Coherent()
    ensures vol.Image() == old(vol.Image()) && vol.Links() == old(vol.Links())
    ensures vol.lastClust == old(vol.lastClust) && vol.freeClust == old(vol.freeClust)
    ensures n == ZerosUpTo(vol.Links(), vol.geo.maxClust)
  {
    hide FatVolume.Volume.Image, FatVolume.Volume.Links, FatVolume.Volume.LoadWord, FatVolume.Volume.Coherent,
         FatVolume.Volume.Valid, Mirrored, Geometry.Home, Store;
    AreasFit(vol.geo, |vol.disk|);
    ghost var links := vol.Links();
    var clust, sect, f, p := vol.geo.maxClust, vol.geo.fatBase, 0, 0;
    n := 0;
    ghost var j: nat := 0;
    ghost var q: nat := 0;
    while clust > 0
      invariant vol.Valid() && vol.Coherent()
      invariant vol.Image() == old(vol.Image()) && vol.Links() == links
      invariant vol.lastClust == old(vol.lastClust) && vol.freeClust == old(vol.freeClust)
      invariant j + clust == vol.geo.maxClust
      invariant j == 256 * q + f && 0 <= f < 256 && sect == vol.geo.fatBase + q + if f == 0 then 0 else 1
      invariant f != 0 ==> p == 2 * f && vol.winSect == vol.geo.fatBase + q
                           && vol.win[..] == vol.Image()[vol.winSect]
      invariant n == ZerosUpTo(links, j)
    {
      if f == 0 {
        EntryFits(vol.geo, |vol.disk|, j);
        var ok := vol.MoveWindow(sect);
        if !ok { return; }
        sect := sect + 1;
        p := 0;
      }
      vol.WindowLink(q, f);
      if vol.LoadWord(p) == 0 { n := n + 1; }
      p := p + 2;
      f := (f + 1) % 256;
      clust := clust - 1;
      j, q := j + 1, if f == 0 then q + 1 else q;
    }
  }

  /** f_getfree: a plausible cached count is returned as it is; otherwise the count is taken anew. */
  method GetFree(vol: Volume) returns (n: nat)
    requires vol.Valid() && vol.Coherent()
    modifies vol, vol.win
    ensures vol.Valid() && vol.Coherent()
    ensures vol.Image() == old(vol.Image()) && vol.Links() == old(vol.Links())
    ensures old(vol.freeClust) <= vol.geo.maxClust - 2 ==> n == old(vol.freeClust)
    ensures old(vol.freeClust) > vol.geo.maxClust - 2 && vol.geo.fsType.Fat12? ==> n == FreeCount(vol.Links())
    ensures old(vol.freeClust) > vol.geo.maxClust - 2 && vol.geo.fsType.Fat16? ==>
              (n == FreeCount(vol.Links()) <==> vol.Links()[0] != 0 && vol.Links()[1] != 0)
    ensures vol.freeClust == n && vol.lastClust == old(vol.lastClust)
  {
    hide FatVolume.Volume.Valid, FatVolume.Volume.Coherent, FatVolume.Volume.Image, FatVolume.Volume.Links;
    if vol.freeClust <= vol.geo.maxClust - 2 {
      return vol.freeClust;
    }
    if vol.geo.fsType.Fat12? {
      n := CountByCluster(vol);
    } else {
      n := CountBySector(vol);
      ZerosAndFree(vol.Links(), vol.geo.maxClust);
      FreeBounds(vol.Links(), vol.geo.maxClust);
    }
    vol.SetFsInfo(vol.lastClust, n);
  }
}
