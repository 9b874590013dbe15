/** f_write at the end of a file. */
module Append {
  import opened Bytes
  import opened Layout
  import opened Chains
  import opened Allocation
  import opened FatVolume
  import opened ChainOps
  import opened FileLayout
  import opened Files
  import opened Reading

  /** No link is 1, the mark of a damaged table. */
  ghost predicate NoOnes(links: seq<nat>) {
    forall c :: IsCluster(links, c) ==> links[c] != 1
  }

  /** The parts of the volume that appending changes, and the chain of the file. */
  datatype Snap = Snap(links: seq<nat>, img: Image, cs: seq<nat>)

  /** How appending may change them: the chain grows by free clusters, links of clusters outside it stay,
      sectors outside it and outside the FATs stay, and no cluster gets lost. */
  ghost predicate Grew(g: Geometry, a: Snap, b: Snap)
  {
    && InRange(g, a.cs) && InRange(g, b.cs)
    && |b.links| == |a.links| && |b.img| == |a.img|
    && a.cs <= b.cs
    && (forall c :: IsCluster(a.links, c) && c !in b.cs ==> b.links[c] == a.links[c])
    && (forall j :: |a.cs| <= j < |b.cs| ==> IsCluster(a.links, b.cs[j]) && a.links[b.cs[j]] == 0)
    && (forall s :: 0 <= s < |a.img| && !g.InFat(s) && !OnChain(g, b.cs, s) ==> b.img[s] == a.img[s])
    && FreeCount(b.links) + |b.cs| == FreeCount(a.links) + |a.cs|
  }

  /** A longer chain covers the sectors of a shorter one. */
  lemma OnLonger(g: Geometry, cs: seq<nat>, ds: seq<nat>, s: nat)
    requires InRange(g, cs) && InRange(g, ds) && cs <= ds && OnChain(g, cs, s)
    ensures OnChain(g, ds, s)
  {
    var k :| 0 <= k < Sectors(g, cs) && FileSect(g, cs, k) == s;
    SameFileSect(g, cs, ds, k);
  }

  lemma SameFileSect(g: Geometry, cs: seq<nat>, ds: seq<nat>, k: nat)
    requires InRange(g, cs) && InRange(g, ds) && cs <= ds && k < Sectors(g, cs)
    ensures k < Sectors(g, ds) && FileSect(g, ds, k) == FileSect(g, cs, k)
  {
    TimesMono(|cs|, |ds|, g.sectsClust);
    QuotBelow(k, |cs|, g.sectsClust);
  }

  lemma GrewTrans(g: Geometry, a: Snap, b: Snap, c: Snap)
    requires Grew(g, a, b) && Grew(g, b, c)
    requires forall x :: x in b.cs ==> x < |b.links| && b.links[x] != 0
    ensures Grew(g, a, c)
  {
    hide InRange, FreeCount, OnChain;
    forall s: nat | s < |a.img| && !g.InFat(s) && !OnChain(g, c.cs, s)
      ensures c.img[s] == a.img[s]
    {
      if OnChain(g, b.cs, s) {
        OnLonger(g, b.cs, c.cs, s);
      }
    }
    forall j | |a.cs| <= j < |c.cs|
      ensures IsCluster(a.links, c.cs[j]) && a.links[c.cs[j]] == 0
    {
      if j < |b.cs| {
        assert c.cs[j] == b.cs[j];
      } else {
        assert b.links[c.cs[j]] == 0;
        assert c.cs[j] !in b.cs;
      }
    }
  }

  /** Clusters of a complete chain are occupied and all different. */
  lemma ChainOccupied(links: seq<nat>, cs: seq<nat>)
    requires Chain(links, cs)
    ensures forall c :: c in cs ==> IsCluster(links, c) && links[c] != 0
    ensures Distinct(cs)
  {
    ChainFreed(links, cs);
    forall i, j | 0 <= i < j < |cs|
      ensures cs[i] != cs[j]
    {
      ChainDistinct(links, cs, i, j);
    }
  }

  /** What create_chain does for a file whose last cluster, if it has one, is `last`. */
  lemma Extended(links: seq<nat>, cs: seq<nat>, r: nat, endMark: nat)
    requires NoOnes(links) && (cs == [] || Chain(links, cs))
    requires IsCluster(links, r) && links[r] == 0 && endMark >= |links|
    ensures var clust := if cs == [] then 0 else cs[|cs| - 1];
            && clust < |links|
            && var now := Allocated(links, clust, r, endMark);
               && Chain(now, cs + [r]) && NoOnes(now)
               && FreeCount(now) + 1 == FreeCount(links)
               && forall c :: IsCluster(links, c) && c !in cs + [r] ==> now[c] == links[c]
  {
    if cs == [] {
      AllocatedCount(links, 0, r, endMark);
      assert Chain(links[r := endMark], [r]);
    } else {
      NotOnChain(links, cs, r);
      StretchedChain(links, cs, r, endMark);
      LinkOnChain(links, cs, |cs| - 1);
      assert cs[|cs| - 1] in cs;
      AllocatedCount(links, cs[|cs| - 1], r, endMark);
    }
  }

  /** create_chain for a file: it fails exactly when no cluster is free. */
  lemma CreateForFile(links: seq<nat>, lastClust: nat, freeClust: nat, cs: seq<nat>, endMark: nat)
    requires NoOnes(links) && (cs == [] || Chain(links, cs)) && endMark >= |links| >= 2
    ensures var clust := if cs == [] then 0 else cs[|cs| - 1];
            var a := Create(links, lastClust, freeClust, clust, endMark);
            && (a.r == 0 <==> FreeCount(links) == 0)
            && (a.r == 0 ==> a.links == links)
            && (a.r != 0 ==>
                 && IsCluster(links, a.r) && links[a.r] == 0 && Chain(a.links, cs + [a.r]) && NoOnes(a.links)
                 && FreeCount(a.links) + 1 == FreeCount(links)
                 && forall c :: IsCluster(links, c) && c !in cs + [a.r] ==> a.links[c] == links[c])
  {
    hide Chain, FreeCount;
    var clust := if cs == [] then 0 else cs[|cs| - 1];
    if cs != [] {
      ChainInRange(links, cs);
      ChainLast(links, cs);
    }
    PickComplete(links, ScanStart(links, clust, lastClust));
    var r := Create(links, lastClust, freeClust, clust, endMark).r;
    if r != 0 {
      Extended(links, cs, r, endMark);
    }
  }

  lemma ChainLast(links: seq<nat>, cs: seq<nat>)
    requires Chain(links, cs)
    ensures links[cs[|cs| - 1]] >= |links|
  {
  }

  lemma GrewByOne(g: Geometry, a: Snap, b: Snap, r: nat)
    requires InRange(g, a.cs) && g.DataCluster(r) && b.cs == a.cs + [r]
    requires |b.links| == |a.links| && IsCluster(a.links, r) && a.links[r] == 0
    requires forall c :: IsCluster(a.links, c) && c !in b.cs ==> b.links[c] == a.links[c]
    requires FreeCount(b.links) + 1 == FreeCount(a.links)
    requires SameOutsideFat(g, a.img, b.img)
    ensures InRange(g, b.cs) && Grew(g, a, b)
  {
    hide FreeCount;
  }

  lemma GrewNone(g: Geometry, a: Snap, b: Snap)
    requires InRange(g, a.cs) && b.cs == a.cs && b.links == a.links && SameOutsideFat(g, a.img, b.img)
    ensures Grew(g, a, b)
  {
  }

  // ---------------------------------------------------------------------------------------------------
  // The file while it grows

  ghost function Now(vol: Volume, cs: seq<nat>): Snap
    requires vol.Valid()
    reads vol, vol.win
  {
    Snap(vol.Links(), vol.Image(), cs)
  }

  /** The bytes c stand at the front of the chain. */
  ghost predicate Holding(g: Geometry, img: Image, cs: seq<nat>, c: seq<byte>)
    requires g.Valid(|img|) && InRange(g, cs)
  {
    |c| <= 512 * Sectors(g, cs) && forall i :: 0 <= i < |c| ==> FileByte(g, img, cs, i) == c[i]
  }

  /** The chain of the file is cs. */
  ghost predicate HasChain(vol: Volume, fp: File, cs: seq<nat>)
    requires vol.Valid()
    reads vol, vol.win, fp`orgClust
  {
    && InRange(vol.geo, cs) && NoOnes(vol.Links())
    && if cs == [] then fp.orgClust == 0 else Chain(vol.Links(), cs) && cs[0] == fp.orgClust
  }

  /** The position fields stand at the last sector of p bytes, in the last cluster, and the window caches
      none of the sectors that follow in that cluster. */
  ghost predicate AtEnd(vol: Volume, fp: File, cs: seq<nat>, p: nat)
    requires vol.Valid() && InRange(vol.geo, cs)
    reads vol, vol.win, fp`sectClust, fp`currClust, fp`currSect
  {
    if p == 0 then cs == [] && fp.sectClust == 1
    else
      && At(vol.geo, cs, (p - 1) / 512, fp.currClust, fp.currSect, fp.sectClust)
      && Quot((p - 1) / 512, vol.geo.sectsClust) == |cs| - 1
      && !(fp.currSect < vol.winSect < fp.currSect + fp.sectClust)
  }

  /** A file that has been written from its start without a seek, holding exactly the bytes c. */
  ghost predicate Growing(vol: Volume, fp: File, cs: seq<nat>, c: seq<byte>)
    reads vol, vol.win, fp`orgClust, fp`sectClust, fp`currClust, fp`currSect
    ensures Growing(vol, fp, cs, c) ==> vol.Valid() && vol.Coherent() && InRange(vol.geo, cs)
  {
    && vol.Valid() && vol.Coherent()
    && HasChain(vol, fp, cs)
    && Holding(vol.geo, vol.Image(), cs, c)
    && AtEnd(vol, fp, cs, |c|)
  }

  /** The bytes of a chain do not depend on the FATs or on sectors elsewhere, and extending the chain
      keeps them. */
  lemma HoldingKept(g: Geometry, a: Image, b: Image, cs: seq<nat>, ds: seq<nat>, c: seq<byte>)
    requires g.Valid(|a|) && InRange(g, cs) && InRange(g, ds) && cs <= ds
    requires Holding(g, a, cs, c)
    requires SameOutsideFat(g, a, b)
    ensures |b| == |a| && Holding(g, b, ds, c)
  {
    TimesMono(|cs|, |ds|, g.sectsClust);
    forall i | 0 <= i < |c|
      ensures FileByte(g, b, ds, i) == c[i]
    {
      SameFileSect(g, cs, ds, i / 512);
      FileSectInData(g, |a|, cs, i / 512);
    }
  }

  datatype Outcome = Ready | Full | Damaged

  /** The step over a cluster boundary: create_chain extends the chain by a free cluster, or finds none. */
  method NextCluster(vol: Volume, fp: File, ghost cs: seq<nat>, ghost c: seq<byte>)
    returns (clust: nat, ghost ds: seq<nat>)
    requires vol.Valid() && vol.Coherent() && HasChain(vol, fp, cs) && Holding(vol.geo, vol.Image(), cs, c)
    requires if fp.fptr == 0 then cs == [] else cs != [] && fp.currClust == cs[|cs| - 1]
    modifies vol, vol.win, fp`orgClust
    ensures vol.Valid() && vol.Coherent() && HasChain(vol, fp, ds) && Holding(vol.geo, vol.Image(), ds, c)
    ensures Grew(vol.geo, old(Now(vol, cs)), Now(vol, ds))
    ensures clust == 0 ==> ds == cs && FreeCount(vol.Links()) == 0
    ensures clust != 0 ==> ds == cs + [clust] && vol.geo.DataCluster(clust) && vol.geo.InFat(vol.winSect)
  {
    hide Geometry.Valid, FatVolume.Volume.Valid, FatVolume.Volume.Coherent, FatVolume.Volume.Image,
         FatVolume.Volume.Links, FileByte, FileSect, Chain, Holding, Create, Grew, SameOutsideFat, FreeCount;
    ghost var before, endMark := Now(vol, cs), EndMark(vol.geo.fsType);
    EndMarkEnds(vol.geo, |vol.disk|);
    CreateForFile(before.links, vol.lastClust, vol.freeClust, cs, endMark);
    if fp.fptr == 0 {
      clust := fp.orgClust;
      if clust == 0 {
        clust := CreateChain(vol, 0);
        fp.orgClust := clust;
      }
    } else {
      clust := CreateChain(vol, fp.currClust);
    }
    if clust == 0 {
      ds := cs;
      GrewNone(vol.geo, before, Now(vol, ds));
    } else {
      ds := cs + [clust];
      GrewByOne(vol.geo, before, Now(vol, ds), clust);
    }
    HoldingKept(vol.geo, before.img, vol.Image(), cs, ds, c);
  }

  /** The step over a sector boundary. On a full volume it leaves the sector counter at zero. */
  method NextToWrite(vol: Volume, fp: File, ghost cs: seq<nat>, ghost c: seq<byte>)
    returns (st: Outcome, ghost ds: seq<nat>)
    requires Growing(vol, fp, cs, c) && fp.fptr == |c| && |c| % 512 == 0
    modifies vol, vol.win, fp`orgClust, fp`sectClust, fp`currClust, fp`currSect
    ensures vol.Valid() && vol.Coherent() && HasChain(vol, fp, ds) && Holding(vol.geo, vol.Image(), ds, c)
    ensures Grew(vol.geo, old(Now(vol, cs)), Now(vol, ds))
    ensures st != Damaged
    ensures st == Full ==> ds == cs && Stuck(vol, fp, ds, c)
    ensures st == Ready ==>
              && At(vol.geo, ds, |c| / 512, fp.currClust, fp.currSect, fp.sectClust)
              && Quot(|c| / 512, vol.geo.sectsClust) == |ds| - 1
              && !(fp.currSect <= vol.winSect < fp.currSect + fp.sectClust)
  {
    hide Geometry.Valid, FatVolume.Volume.Valid, FatVolume.Volume.Coherent, FatVolume.Volume.Image,
         FatVolume.Volume.Links, FileByte, Chain, Holding, Grew, FreeCount;
    ghost var g, k, before := vol.geo, |c| / 512, Now(vol, cs);
    NextPlace(vol, fp, cs, c);
    AreasFit(g, |vol.disk|);
    ds := cs;
    fp.sectClust := (fp.sectClust + 255) % 256;
    var sect;
    if fp.sectClust != 0 {
      sect := fp.currSect + 1;
      GrewNone(g, before, Now(vol, ds));
    } else {
      var clust;
      clust, ds := NextCluster(vol, fp, cs, c);
      if clust == 0 {
        return Full, ds;
      }
      if clust == 1 || clust >= vol.geo.maxClust {
        return Damaged, ds;
      }
      fp.currClust := clust;
      sect := vol.geo.Clust2Sect(clust);
      fp.sectClust := vol.geo.sectsClust;
      FreshPlace(g, cs, clust, k);
      g.ClusterRange(clust);
    }
    fp.currSect := sect;
    st := Ready;
  }

  lemma PreviousSector(p: nat)
    requires p > 0 && p % 512 == 0
    ensures (p - 1) / 512 == p / 512 - 1 && p == 512 * (p / 512)
  {
  }

  /** Where the next sector lies. */
  lemma NextPlace(vol: Volume, fp: File, cs: seq<nat>, c: seq<byte>)
    requires Growing(vol, fp, cs, c) && |c| % 512 == 0
    ensures 0 < fp.sectClust < 256 && 0 < vol.geo.sectsClust < 256
    ensures |c| > 0 ==> cs != [] && fp.currClust == cs[|cs| - 1]
    ensures |c| > 0 && fp.sectClust > 1 ==>
              && At(vol.geo, cs, |c| / 512, fp.currClust, fp.currSect + 1, fp.sectClust - 1)
              && Quot(|c| / 512, vol.geo.sectsClust) == |cs| - 1
    ensures fp.sectClust == 1 ==>
              && Quot(|c| / 512, vol.geo.sectsClust) == |cs| && Rem(|c| / 512, vol.geo.sectsClust) == 0
              && |c| == 512 * Sectors(vol.geo, cs)
              && Times(|cs|, vol.geo.sectsClust) == |c| / 512
    ensures |c| == 0 ==> fp.sectClust == 1
    ensures |c| > 0 && fp.sectClust == 1 ==>
              fp.currSect + 1 == vol.geo.Clust2Sect(fp.currClust) + vol.geo.sectsClust
  {
    hide FatVolume.Volume.Image, FatVolume.Volume.Links, FileByte, Chain, Holding, FileSect, HasChain;
    var sc := vol.geo.sectsClust;
    if |c| == 0 {
      assert Quot(0, sc) == 0 && Rem(0, sc) == 0;
    } else {
      PreviousSector(|c|);
      NextInCluster(vol.geo, cs, |c| / 512, fp.currClust, fp.currSect, fp.sectClust);
    }
  }

  lemma NextInCluster(g: Geometry, cs: seq<nat>, k: nat, currClust: nat, currSect: nat, sectClust: nat)
    requires InRange(g, cs) && k > 0 && At(g, cs, k - 1, currClust, currSect, sectClust)
    requires Quot(k - 1, g.sectsClust) == |cs| - 1
    ensures cs != [] && currClust == cs[|cs| - 1]
    ensures sectClust > 1 ==> At(g, cs, k, currClust, currSect + 1, sectClust - 1)
                              && Quot(k, g.sectsClust) == |cs| - 1
    ensures sectClust == 1 ==> && Quot(k, g.sectsClust) == |cs| && Rem(k, g.sectsClust) == 0
                               && k == Sectors(g, cs)
                               && currSect + 1 == g.Clust2Sect(currClust) + g.sectsClust
  {
    QuotStep(k - 1, 1, g.sectsClust);
    QuotRem(k, g.sectsClust);
    if sectClust > 1 {
      AtRun(g, cs, k - 1, 1, currClust, currSect, sectClust);
    }
  }

  /** The first sector of a fresh last cluster. */
  lemma FreshPlace(g: Geometry, cs: seq<nat>, clust: nat, k: nat)
    requires InRange(g, cs) && g.DataCluster(clust)
    requires Quot(k, g.sectsClust) == |cs| && Rem(k, g.sectsClust) == 0
    ensures InRange(g, cs + [clust])
    ensures At(g, cs + [clust], k, clust, g.Clust2Sect(clust), g.sectsClust)
  {
    QuotBelow(k, |cs| + 1, g.sectsClust);
  }

  // ---------------------------------------------------------------------------------------------------
  // Writing the bytes

  /** Whole sectors written behind the bytes c add their bytes. */
  lemma HoldingMore(g: Geometry, a: Image, b: Image, cs: seq<nat>, c: seq<byte>, d: seq<byte>, k: nat, n: nat)
    requires g.Valid(|a|) && |a| == |b| && InRange(g, cs) && Distinct(cs) && Holding(g, a, cs, c)
    requires |c| == 512 * k && |d| == 512 * n && k < Sectors(g, cs) && 0 < n
    requires Rem(k, g.sectsClust) + n <= g.sectsClust
    requires forall s :: 0 <= s < |a| ==>
               b[s] == var f := FileSect(g, cs, k);
                       if f <= s < f + n then d[512 * (s - f)..512 * (s - f) + 512] else a[s]
    ensures Holding(g, b, cs, c + d)
  {
    hide Geometry.Valid, InRange, FileSect, Times, Quot, Rem, Distinct, Holding, FileByte;
    FileSectRun(g, cs, k, n - 1);
    HoldingSize(g, a, cs, c);
    forall i: nat | i < |c + d|
      ensures FileByte(g, b, cs, i) == (c + d)[i]
    {
      MoreByte(g, a, b, cs, c, d, k, n, i);
    }
    HoldingIs(g, b, cs, c + d);
  }

  lemma HoldingSize(g: Geometry, a: Image, cs: seq<nat>, c: seq<byte>)
    requires g.Valid(|a|) && InRange(g, cs) && Holding(g, a, cs, c)
    ensures |c| <= 512 * Sectors(g, cs)
  {
  }

  lemma HoldingIs(g: Geometry, a: Image, cs: seq<nat>, c: seq<byte>)
    requires g.Valid(|a|) && InRange(g, cs) && |c| <= 512 * Sectors(g, cs)
    requires forall i: nat :: i < |c| ==> FileByte(g, a, cs, i) == c[i]
    ensures Holding(g, a, cs, c)
  {
  }

  lemma MoreByte(g: Geometry, a: Image, b: Image, cs: seq<nat>, c: seq<byte>, d: seq<byte>, k: nat, n: nat, i: nat)
    requires g.Valid(|a|) && |a| == |b| && InRange(g, cs) && Distinct(cs) && Holding(g, a, cs, c)
    requires |c| == 512 * k && |d| == 512 * n && k < Sectors(g, cs) && 0 < n
    requires Rem(k, g.sectsClust) + n <= g.sectsClust
    requires forall s :: 0 <= s < |a| ==>
               b[s] == var f := FileSect(g, cs, k);
                       if f <= s < f + n then d[512 * (s - f)..512 * (s - f) + 512] else a[s]
    requires i < |c| + |d|
    ensures i < 512 * Sectors(g, cs) && FileByte(g, b, cs, i) == (c + d)[i]
  {
    hide Geometry.Valid, InRange, FileSect, Times, Quot, Rem, Distinct;
    var f, j := FileSect(g, cs, k), i / 512;
    if i < |c| {
      var s := FileSect(g, cs, j);
      FileSectInData(g, |a|, cs, j);
      if f <= s < f + n {
        FileSectRun(g, cs, k, s - f);
        FileSectInjective(g, cs, j, k + (s - f));
      }
      assert FileByte(g, a, cs, i) == c[i];
    } else {
      FileSectRun(g, cs, k, j - k);
      FileSectInData(g, |a|, cs, j);
    }
  }

  /** A part of a sector written behind the bytes c adds its bytes. */
  lemma HoldingPart(g: Geometry, a: Image, b: Image, cs: seq<nat>, c: seq<byte>, d: seq<byte>, w: Sector)
    requires g.Valid(|a|) && InRange(g, cs) && Distinct(cs) && Holding(g, a, cs, c)
    requires |c| / 512 < Sectors(g, cs) && |c| % 512 + |d| <= 512
    requires FileSect(g, cs, |c| / 512) < |a| && b == a[FileSect(g, cs, |c| / 512) := w]
    requires w[..|c| % 512] == a[FileSect(g, cs, |c| / 512)][..|c| % 512]
    requires w[|c| % 512..|c| % 512 + |d|] == d
    ensures Holding(g, b, cs, c + d)
  {
    hide Geometry.Valid, InRange, FileSect, Times, Quot, Rem, Distinct;
    var k, o := |c| / 512, |c| % 512;
    forall i: nat | i < |c + d|
      ensures i < 512 * Sectors(g, cs) && FileByte(g, b, cs, i) == (c + d)[i]
    {
      var j := i / 512;
      FileSectInData(g, |a|, cs, j);
      if j < k {
        if FileSect(g, cs, j) == FileSect(g, cs, k) {
          FileSectInjective(g, cs, j, k);
        }
        assert FileByte(g, a, cs, i) == c[i];
      } else if i < |c| {
        assert w[..o][i % 512] == a[FileSect(g, cs, k)][..o][i % 512];
        assert FileByte(g, a, cs, i) == c[i];
      } else {
        assert w[o..o + |d|][i - |c|] == w[i % 512];
      }
    }
  }

  /** The position at the beginning of a sector that is about to be written. */
  ghost predicate Placed(vol: Volume, fp: File, cs: seq<nat>, c: seq<byte>)
    reads vol, vol.win, fp
    ensures Placed(vol, fp, cs, c) ==> vol.Valid() && vol.Coherent() && InRange(vol.geo, cs)
  {
    && vol.Valid() && vol.Coherent()
    && HasChain(vol, fp, cs)
    && Holding(vol.geo, vol.Image(), cs, c)
    && fp.fptr == |c| && |c| % 512 == 0
    && At(vol.geo, cs, |c| / 512, fp.currClust, fp.currSect, fp.sectClust)
    && Quot(|c| / 512, vol.geo.sectsClust) == |cs| - 1
    && !(fp.currSect <= vol.winSect < fp.currSect + fp.sectClust)
  }

  /** Changes inside the chain only. */
  lemma GrewInside(g: Geometry, a: Snap, b: Snap)
    requires InRange(g, a.cs) && b.cs == a.cs && b.links == a.links && |b.img| == |a.img|
    requires forall s :: 0 <= s < |a.img| && !OnChain(g, a.cs, s) ==> b.img[s] == a.img[s]
    ensures Grew(g, a, b)
  {
  }

  lemma ChainDistinctAll(vol: Volume, fp: File, cs: seq<nat>)
    requires vol.Valid() && HasChain(vol, fp, cs)
    ensures Distinct(cs)
    ensures cs != [] ==> forall x :: x in cs ==> x < |vol.Links()| && vol.Links()[x] != 0
  {
    if cs != [] {
      ChainOccupied(vol.Links(), cs);
    }
  }

  /** Whole sectors go straight to the disk. */
  method WriteRun(vol: Volume, fp: File, buff: array<byte>, off: nat, btw: nat, ghost cs: seq<nat>, ghost c: seq<byte>)
    returns (ok: bool, wcnt: nat)
    requires Placed(vol, fp, cs, c) && 512 <= btw && off + btw <= buff.Length
    modifies vol`disk, fp`sectClust, fp`currSect
    ensures ok && 512 <= wcnt <= btw
    ensures old(vol.Valid()) && Growing(vol, fp, cs, c + buff[off..off + wcnt])
    ensures Grew(vol.geo, old(Now(vol, cs)), Now(vol, cs))
  {
    hide Geometry.Valid, FatVolume.Volume.Valid, FatVolume.Volume.Coherent, FatVolume.Volume.Image,
         FatVolume.Volume.Links, FileSect, Chain, Holding, Grew, Quot, Rem, InRange, NoOnes, At, AtEnd, Growing,
         Placed, OnChain, Distinct, Sectors;
    ghost var g, k, before := vol.geo, |c| / 512, Now(vol, cs);
    RunPlace(vol, fp, cs, c);
    ChainDistinctAll(vol, fp, cs);
    var sect := fp.currSect;
    var cc := btw / 512;
    if cc > fp.sectClust { cc := fp.sectClust; }
    AtRun(g, cs, k, cc - 1, fp.currClust, fp.currSect, fp.sectClust);
    RunInData(g, |vol.disk|, cs, k, cc);
    ok := vol.WriteThrough(buff, off, sect, cc);
    wcnt := cc * 512;
    fp.sectClust := fp.sectClust - (cc - 1);
    fp.currSect := fp.currSect + (cc - 1);
    RunWritten(g, before, Now(vol, cs), c, buff[..], off, k, cc);
    assert buff[..][off..off + wcnt] == buff[off..off + wcnt];
    RunGrown(vol, fp, cs, c, buff[off..off + wcnt], cc);
  }

  /** Where a run of whole sectors starts. */
  lemma RunPlace(vol: Volume, fp: File, cs: seq<nat>, c: seq<byte>)
    requires Placed(vol, fp, cs, c)
    ensures vol.Valid() && vol.Coherent() && InRange(vol.geo, cs) && HasChain(vol, fp, cs)
    ensures Holding(vol.geo, vol.Image(), cs, c) && |c| == 512 * (|c| / 512)
    ensures At(vol.geo, cs, |c| / 512, fp.currClust, fp.currSect, fp.sectClust)
    ensures |c| / 512 < Sectors(vol.geo, cs) && fp.currSect == FileSect(vol.geo, cs, |c| / 512)
    ensures 0 < fp.sectClust && fp.sectClust == vol.geo.sectsClust - Rem(|c| / 512, vol.geo.sectsClust)
    ensures Quot(|c| / 512, vol.geo.sectsClust) == |cs| - 1
    ensures !(fp.currSect <= vol.winSect < fp.currSect + fp.sectClust)
  {
  }

  /** The file after a run of n sectors with the bytes d. */
  lemma RunGrown(vol: Volume, fp: File, cs: seq<nat>, c: seq<byte>, d: seq<byte>, n: nat)
    requires vol.Valid() && vol.Coherent() && HasChain(vol, fp, cs) && Holding(vol.geo, vol.Image(), cs, c + d)
    requires |c| % 512 == 0 && |d| == 512 * n && 0 < n
    requires At(vol.geo, cs, |c| / 512 + (n - 1), fp.currClust, fp.currSect, fp.sectClust)
    requires vol.geo.sectsClust > 0 && Rem(|c| / 512, vol.geo.sectsClust) + (n - 1) < vol.geo.sectsClust
    requires Quot(|c| / 512, vol.geo.sectsClust) == |cs| - 1
    requires !(fp.currSect < vol.winSect < fp.currSect + fp.sectClust)
    ensures Growing(vol, fp, cs, c + d)
  {
    hide At, Holding, HasChain, FatVolume.Volume.Valid, FatVolume.Volume.Coherent, Quot, Rem;
    QuotStep(|c| / 512, n - 1, vol.geo.sectsClust);
    assert (|c + d| - 1) / 512 == |c| / 512 + (n - 1);
  }

  /** The bytes of a run that was written behind the bytes c. */
  lemma RunWritten(g: Geometry, a: Snap, b: Snap, c: seq<byte>, buf: seq<byte>, off: nat, k: nat, n: nat)
    requires g.Valid(|a.img|) && InRange(g, a.cs) && Distinct(a.cs) && Holding(g, a.img, a.cs, c)
    requires b.cs == a.cs && b.links == a.links && |b.img| == |a.img|
    requires |c| == 512 * k && k < Sectors(g, a.cs) && 0 < n && Rem(k, g.sectsClust) + n <= g.sectsClust
    requires off + 512 * n <= |buf|
    requires forall s :: FileSect(g, a.cs, k) <= s < FileSect(g, a.cs, k) + n ==> OnChain(g, a.cs, s)
    requires forall s :: 0 <= s < |a.img| ==>
               b.img[s] == var f := FileSect(g, a.cs, k);
                           if f <= s < f + n then buf[off + 512 * (s - f)..off + 512 * (s - f) + 512] else a.img[s]
    ensures Holding(g, b.img, a.cs, c + buf[off..off + 512 * n]) && Grew(g, a, b)
  {
    hide Geometry.Valid, FileSect, Holding, Grew, Times, Quot, Rem, InRange, Distinct, OnChain;
    var d, f := buf[off..off + 512 * n], FileSect(g, a.cs, k);
    forall s: nat | s < |a.img|
      ensures b.img[s] == if f <= s < f + n then d[512 * (s - f)..512 * (s - f) + 512] else a.img[s]
    {
      if f <= s < f + n {
        SubSlice(buf, off, 512 * n, 512 * (s - f));
      }
    }
    HoldingMore(g, a.img, b.img, a.cs, c, d, k, n);
    GrewInside(g, a, b);
  }

  lemma SubSlice(b: seq<byte>, off: nat, n: nat, a: nat)
    requires off + n <= |b| && a + 512 <= n
    ensures b[off..off + n][a..a + 512] == b[off + a..off + a + 512]
  {
    var x, y := b[off..off + n][a..a + 512], b[off + a..off + a + 512];
    assert |x| == |y| == 512 && forall i :: 0 <= i < 512 ==> x[i] == y[i];
  }

  /** A run of file sectors lies in the data area and on the chain. */
  lemma RunInData(g: Geometry, total: nat, cs: seq<nat>, k: nat, n: nat)
    requires g.Valid(total) && InRange(g, cs) && k < Sectors(g, cs) && 0 < n
    requires Rem(k, g.sectsClust) + n <= g.sectsClust
    ensures g.dirBase <= g.dataBase <= FileSect(g, cs, k) && FileSect(g, cs, k) + n <= total
    ensures forall s :: FileSect(g, cs, k) <= s < FileSect(g, cs, k) + n ==> OnChain(g, cs, s)
  {
    hide InRange, FileSect, Times, Quot, Rem;
    AreasFit(g, total);
    FileSectInData(g, total, cs, k);
    FileSectRun(g, cs, k, n - 1);
    FileSectInData(g, total, cs, k + (n - 1));
    forall s | FileSect(g, cs, k) <= s < FileSect(g, cs, k) + n
      ensures OnChain(g, cs, s)
    {
      FileSectRun(g, cs, k, s - FileSect(g, cs, k));
    }
  }

  /** Bring the current sector into the window. At a sector boundary behind the end of the file the window
      takes the sector over without reading it. */
  method OpenPart(vol: Volume, fp: File) returns (ok: bool)
    requires vol.Valid() && vol.Coherent() && vol.geo.dirBase <= fp.currSect < |vol.disk| && fp.fsize <= fp.fptr
    modifies vol, vol.win
    ensures ok && vol.Valid() && vol.winSect == fp.currSect
    ensures vol.Image() == old(vol.Image()) && vol.Links() == old(vol.Links())
    ensures fp.fptr % 512 != 0 ==> vol.win[..] == vol.Image()[fp.currSect]
  {
    hide FatVolume.Volume.Image, FatVolume.Volume.Links, Mirrored, Store;
    AreasFit(vol.geo, |vol.disk|);
    if fp.fptr % 512 == 0 && fp.fptr >= fp.fsize {
      ok := vol.MoveWindow(0);
      if !ok { return; }
      vol.ClaimWindow(fp.currSect);
    }
    ok := vol.MoveWindow(fp.currSect);
  }

  /** A part of a sector goes to the window. At a sector boundary the window takes the sector over without
      reading it; inside a sector the window shows it first. */
  method WritePart(vol: Volume, fp: File, buff: array<byte>, off: nat, btw: nat, ghost cs: seq<nat>, ghost c: seq<byte>)
    returns (ok: bool, wcnt: nat)
    requires if |c| % 512 == 0 then Placed(vol, fp, cs, c) else Growing(vol, fp, cs, c) && fp.fptr == |c|
    requires 0 < btw && off + btw <= buff.Length && buff != vol.win && fp.fsize <= fp.fptr
    requires |c| % 512 == 0 ==> btw < 512
    modifies vol, vol.win
    ensures ok && 0 < wcnt <= btw && wcnt == (if 512 - |c| % 512 > btw then btw else 512 - |c| % 512)
    ensures old(vol.Valid()) && Growing(vol, fp, cs, c + buff[off..off + wcnt])
    ensures Grew(vol.geo, old(Now(vol, cs)), Now(vol, cs))
  {
    hide Geometry.Valid, FatVolume.Volume.Valid, FatVolume.Volume.Coherent, FatVolume.Volume.Image,
         FatVolume.Volume.Links, FileByte, FileSect, Chain, Holding, Grew, Times, Quot, Rem, InRange, At, AtEnd,
         Growing, Placed, OnChain, NoOnes, Distinct, Mirrored, Store, FreeCount, HasChain, Sectors;
    PartPlace(vol, fp, cs, c);
    ghost var g, k, o, before := vol.geo, |c| / 512, |c| % 512, Now(vol, cs);
    ChainDistinctAll(vol, fp, cs);
    RunInData(g, |vol.disk|, cs, k, 1);
    ok := OpenPart(vol, fp);
    wcnt := 512 - fp.fptr % 512;
    if wcnt > btw { wcnt := btw; }
    ghost var w := vol.win[..];
    WordOffset(fp.fptr);
    vol.PutBytes(buff, off, fp.fptr % 0x1_0000 % 512, wcnt);
    ghost var d := buff[off..off + wcnt];
    Spliced(w, d, o, vol.win[..]);
    HoldingPart(g, before.img, vol.Image(), cs, c, d, vol.win[..]);
    GrewInside(g, before, Now(vol, cs));
    PartGrown(vol, fp, cs, c, d);
  }

  lemma PartGrown(vol: Volume, fp: File, cs: seq<nat>, c: seq<byte>, d: seq<byte>)
    requires vol.Valid() && vol.Coherent() && HasChain(vol, fp, cs) && Holding(vol.geo, vol.Image(), cs, c + d)
    requires At(vol.geo, cs, |c| / 512, fp.currClust, fp.currSect, fp.sectClust)
    requires Quot(|c| / 512, vol.geo.sectsClust) == |cs| - 1 && vol.winSect == fp.currSect
    requires 0 < |d| && |c| % 512 + |d| <= 512
    ensures Growing(vol, fp, cs, c + d)
  {
    assert (|c + d| - 1) / 512 == |c| / 512;
  }

  /** The sector that a partial write goes to. */
  lemma PartPlace(vol: Volume, fp: File, cs: seq<nat>, c: seq<byte>)
    requires if |c| % 512 == 0 then Placed(vol, fp, cs, c) else Growing(vol, fp, cs, c) && fp.fptr == |c|
    ensures vol.Valid() && vol.Coherent() && InRange(vol.geo, cs) && HasChain(vol, fp, cs) && fp.fptr == |c|
    ensures Holding(vol.geo, vol.Image(), cs, c)
    ensures At(vol.geo, cs, |c| / 512, fp.currClust, fp.currSect, fp.sectClust)
    ensures Quot(|c| / 512, vol.geo.sectsClust) == |cs| - 1
    ensures |c| / 512 < Sectors(vol.geo, cs) && fp.currSect == FileSect(vol.geo, cs, |c| / 512)
    ensures Rem(|c| / 512, vol.geo.sectsClust) < vol.geo.sectsClust
  {
    if |c| % 512 != 0 {
      assert (|c| - 1) / 512 == |c| / 512;
    }
  }

  lemma Spliced(w: seq<byte>, d: seq<byte>, o: nat, v: seq<byte>)
    requires |w| == 512 && o + |d| <= 512 && v == w[..o] + d + w[o + |d|..]
    ensures v[..o] == w[..o] && v[o..o + |d|] == d && |v| == 512
  {
  }

  // ---------------------------------------------------------------------------------------------------
  // f_write

  /** The chain cs is complete and holds the bytes c; nothing is said about the position. */
  ghost predicate Stands(vol: Volume, fp: File, cs: seq<nat>, c: seq<byte>)
    reads vol, vol.win, fp`orgClust
    ensures Stands(vol, fp, cs, c) ==> vol.Valid() && vol.Coherent() && InRange(vol.geo, cs)
  {
    && vol.Valid() && vol.Coherent()
    && HasChain(vol, fp, cs)
    && Holding(vol.geo, vol.Image(), cs, c)
  }

  /** What a full volume leaves behind: the file holds c, its chain is used up, no cluster is free, and
      the sector counter is zero although a last sector is named. */
  ghost predicate Stuck(vol: Volume, fp: File, cs: seq<nat>, c: seq<byte>)
    reads vol, vol.win, fp`orgClust, fp`sectClust, fp`currClust, fp`currSect
  {
    && Stands(vol, fp, cs, c)
    && |c| == 512 * Sectors(vol.geo, cs) && FreeCount(vol.Links()) == 0 && fp.sectClust == 0
    && (|c| > 0 ==> cs != [] && fp.currClust == cs[|cs| - 1]
                    && fp.currSect + 1 == vol.geo.Clust2Sect(fp.currClust) + vol.geo.sectsClust)
  }

  /** The cursor of a stuck file no longer describes the file. */
  lemma StuckIsNotGrowing(vol: Volume, fp: File, cs: seq<nat>, c: seq<byte>)
    requires Stuck(vol, fp, cs, c)
    ensures !Growing(vol, fp, cs, c)
    ensures vol.Valid() && InRange(vol.geo, cs) && |c| == 512 * Sectors(vol.geo, cs) && FreeCount(vol.Links()) == 0
  {
  }

  lemma GrowingStands(vol: Volume, fp: File, cs: seq<nat>, c: seq<byte>)
    requires Growing(vol, fp, cs, c)
    ensures Stands(vol, fp, cs, c)
    ensures |c| <= 512 * Sectors(vol.geo, cs)
    ensures fp.sectClust > 0
  {
  }

  /** One round of the loop of f_write. */
  method WriteRound(vol: Volume, fp: File, buff: array<byte>, off: nat, btw: nat,
                    ghost cs: seq<nat>, ghost c: seq<byte>)
    returns (st: Outcome, wcnt: nat, ghost ds: seq<nat>)
    requires Growing(vol, fp, cs, c) && fp.fsize <= fp.fptr == |c|
    requires 0 < btw && off + btw <= buff.Length && buff != vol.win
    modifies vol, vol.win, fp`orgClust, fp`sectClust, fp`currClust, fp`currSect, fp`fptr
    ensures st != Damaged && wcnt <= btw && Stands(vol, fp, ds, c + buff[off..off + wcnt])
    ensures fp.fptr == |c| + wcnt
    ensures old(vol.Valid()) && Grew(vol.geo, old(Now(vol, cs)), Now(vol, ds))
    ensures st == Ready ==> 0 < wcnt && Growing(vol, fp, ds, c + buff[off..off + wcnt])
    ensures st == Full ==> wcnt == 0 && Stuck(vol, fp, ds, c)
  {
    hide Geometry.Valid, FatVolume.Volume.Valid, FatVolume.Volume.Coherent, FatVolume.Volume.Image,
         FatVolume.Volume.Links, FileByte, FileSect, Chain, Holding, Grew, Times, Quot, Rem, InRange, At, AtEnd,
         Growing, OnChain, NoOnes, Distinct, Mirrored, Store, FreeCount, HasChain, Sectors;
    ghost var before := Now(vol, cs);
    GrowingStands(vol, fp, cs, c);
    wcnt := 0;
    ds := cs;
    var ok;
    if fp.fptr % 512 == 0 {
      st, ds := NextToWrite(vol, fp, cs, c);
      if st != Ready {
        assert c + buff[off..off + wcnt] == c;
        return;
      }
      ghost var mid := Now(vol, ds);
      OccupiedChain(vol, fp, ds, c);
      if btw / 512 > 0 {
        ok, wcnt := WriteRun(vol, fp, buff, off, btw, ds, c);
      } else {
        ok, wcnt := WritePart(vol, fp, buff, off, btw, ds, c);
      }
      GrewTrans(vol.geo, before, mid, Now(vol, ds));
    } else {
      ok, wcnt := WritePart(vol, fp, buff, off, btw, cs, c);
    }
    GrowingStands(vol, fp, ds, c + buff[off..off + wcnt]);
    fp.fptr := fp.fptr + wcnt;
    st := Ready;
  }

  lemma OccupiedChain(vol: Volume, fp: File, cs: seq<nat>, c: seq<byte>)
    requires Stands(vol, fp, cs, c)
    ensures forall x :: x in cs ==> x < |vol.Links()| && vol.Links()[x] != 0
  {
    if cs != [] {
      ChainOccupied(vol.Links(), cs);
    }
  }

  /** The loop of f_write. */
  method WriteLoop(vol: Volume, fp: File, buff: array<byte>, btw0: nat, ghost cs: seq<nat>, ghost c: seq<byte>)
    returns (st: Outcome, bw: nat, ghost ds: seq<nat>)
    requires Growing(vol, fp, cs, c) && fp.fsize <= fp.fptr == |c|
    requires btw0 <= buff.Length && buff != vol.win
    modifies vol, vol.win, fp`orgClust, fp`sectClust, fp`currClust, fp`currSect, fp`fptr
    ensures st != Damaged && bw <= btw0 && Stands(vol, fp, ds, c + buff[..bw])
    ensures fp.fptr == |c| + bw && buff[..] == old(buff[..])
    ensures old(vol.Valid()) && Grew(vol.geo, old(Now(vol, cs)), Now(vol, ds))
    ensures st == Ready ==> bw == btw0 && Growing(vol, fp, ds, c + buff[..bw])
    ensures st == Full ==> bw < btw0 && Stuck(vol, fp, ds, c + buff[..bw])
  {
    hide Geometry.Valid, FatVolume.Volume.Valid, FatVolume.Volume.Coherent, FatVolume.Volume.Image,
         FatVolume.Volume.Links, FileByte, FileSect, Chain, Holding, Grew, Times, Quot, Rem, InRange, At, AtEnd,
         Growing, OnChain, Stands, FreeCount, HasChain, Sectors;
    GrowingStands(vol, fp, cs, c);
    ghost var before := Now(vol, cs);
    GrewSame(vol, cs);
    var btw := btw0;
    bw := 0;
    ds := cs;
    assert c + buff[..0] == c;
    while btw > 0
      invariant bw + btw == btw0
      invariant vol.Valid() && Growing(vol, fp, ds, c + buff[..bw])
      invariant fp.fsize <= fp.fptr == |c| + bw
      invariant Grew(vol.geo, before, Now(vol, ds))
    {
      var wcnt;
      ghost var c', mid := c + buff[..bw], Now(vol, ds);
      GrowingStands(vol, fp, ds, c');
      OccupiedChain(vol, fp, ds, c');
      st, wcnt, ds := WriteRound(vol, fp, buff, bw, btw, ds, c');
      GrewTrans(vol.geo, before, mid, Now(vol, ds));
      assert c' + buff[bw..bw + wcnt] == c + buff[..bw + wcnt];
      bw := bw + wcnt;
      btw := btw - wcnt;
      if st != Ready {
        return;
      }
    }
    GrowingStands(vol, fp, ds, c + buff[..bw]);
    st := Ready;
  }

  /** Sectors that a chain can come to have when it takes all free clusters. */
  ghost function Room(vol: Volume, cs: seq<nat>): nat
    requires vol.Valid()
    reads vol, vol.win
  {
    512 * Times(|cs| + FreeCount(vol.Links()), vol.geo.sectsClust)
  }

  lemma RoomLeft(g: Geometry, a: Snap, b: Snap)
    requires Grew(g, a, b)
    ensures Sectors(g, b.cs) <= Times(|a.cs| + FreeCount(a.links), g.sectsClust)
    ensures FreeCount(b.links) == 0 ==> Sectors(g, b.cs) == Times(|a.cs| + FreeCount(a.links), g.sectsClust)
  {
    TimesMono(|b.cs|, |a.cs| + FreeCount(a.links), g.sectsClust);
  }

  lemma RoomIs(vol: Volume, cs: seq<nat>)
    requires vol.Valid()
    ensures Room(vol, cs) == 512 * Times(|cs| + FreeCount(vol.Links()), vol.geo.sectsClust)
  {
  }

  /** What the loop of f_write leaves: the bytes fit the room there was, and a full volume means that they fill it. */
  lemma WriteEnds(vol: Volume, fp: File, before: Snap, ds: seq<nat>, c: seq<byte>, full: bool)
    requires if full then Stuck(vol, fp, ds, c) else Growing(vol, fp, ds, c)
    requires vol.Valid() && Grew(vol.geo, before, Now(vol, ds))
    ensures Stands(vol, fp, ds, c)
    ensures var room := 512 * Times(|before.cs| + FreeCount(before.links), vol.geo.sectsClust);
            if full then |c| == room else |c| <= room
    ensures Growing(vol, fp, ds, c) <==> !full
  {
    hide Geometry.Valid, FatVolume.Volume.Valid, FatVolume.Volume.Coherent, FatVolume.Volume.Image,
         FatVolume.Volume.Links, Holding, Grew, Times, FreeCount, HasChain, Growing, Sectors, Stands;
    RoomLeft(vol.geo, before, Now(vol, ds));
    if full {
      StuckIsNotGrowing(vol, fp, ds, c);
    } else {
      GrowingStands(vol, fp, ds, c);
    }
  }

  lemma GrewSame(vol: Volume, cs: seq<nat>)
    requires vol.Valid() && InRange(vol.geo, cs)
    ensures Grew(vol.geo, Now(vol, cs), Now(vol, cs))
  {
    hide FatVolume.Volume.Valid;
    GrewNone(vol.geo, Now(vol, cs), Now(vol, cs));
  }

  /** f_write on a file that has been written from its start without a seek. It stores as many bytes as
      the free clusters allow. The cursor stays usable exactly when all requested bytes found room; after
      a full volume the sector counter is zero. */
  method Write(vol: Volume, fp: File, buff: array<byte>, btw: nat, ghost cs: seq<nat>, ghost c: seq<byte>)
    returns (res: FResult, bw: nat, ghost ds: seq<nat>, ghost room: nat)
    requires Growing(vol, fp, cs, c) && fp.fsize == fp.fptr == |c| < 0x1_0000_0000
    requires btw < 0x1_0000 && btw <= buff.Length && buff != vol.win
    modifies vol, vol.win, fp`orgClust, fp`sectClust, fp`currClust, fp`currSect, fp`fptr, fp`fsize, fp`written, fp`error
    ensures bw <= btw && buff[..] == old(buff[..]) && fp.error == old(fp.error)
    ensures Stands(vol, fp, ds, c + buff[..bw]) && fp.fsize == fp.fptr == |c| + bw
    ensures old(vol.Valid()) && room == old(Room(vol, cs)) && |c| <= room
    ensures Grew(vol.geo, old(Now(vol, cs)), Now(vol, ds))
    ensures res == if fp.error then RwError else if !fp.canWrite then Denied else Ok
    ensures res != Ok || |c| + btw >= 0x1_0000_0000 ==> bw == 0 && Growing(vol, fp, ds, c + buff[..bw])
    ensures res == Ok && |c| + btw < 0x1_0000_0000 ==>
              && bw == (if btw <= room - |c| then btw else room - |c|)
              && (Growing(vol, fp, ds, c + buff[..bw]) <==> bw == btw)
              && fp.written
              && (bw < btw ==> Stuck(vol, fp, ds, c + buff[..bw]))
  {
    hide Geometry.Valid, FatVolume.Volume.Valid, FatVolume.Volume.Coherent, FatVolume.Volume.Image,
         FatVolume.Volume.Links, FileByte, FileSect, Chain, Holding, Grew, Times, Quot, Rem, InRange, At, AtEnd,
         Growing, Stuck, OnChain, Stands, FreeCount, HasChain, Room, Sectors, Mirrored, Store;
    ghost var before := Now(vol, cs);
    GrewSame(vol, cs);
    GrowingStands(vol, fp, cs, c);
    WriteEnds(vol, fp, before, cs, c, false);
    RoomIs(vol, cs);
    room := Room(vol, cs);
    assert c + buff[..0] == c;
    bw := 0;
    ds := cs;
    if fp.error { return RwError, 0, cs, room; }
    if !fp.canWrite { return Denied, 0, cs, room; }
    if (fp.fsize + btw) % 0x1_0000_0000 < fp.fsize { return Ok, 0, cs, room; }
    var st;
    st, bw, ds := WriteLoop(vol, fp, buff, btw, cs, c);
    WriteEnds(vol, fp, before, ds, c + buff[..bw], st == Full);
    if st != Damaged {
      if fp.fptr > fp.fsize { fp.fsize := fp.fptr; }
      fp.written := true;
    }
    fp.error := st == Damaged;
    res := if st == Damaged then RwError else Ok;
  }
}
