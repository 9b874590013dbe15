/** f_lseek, and whole runs of reads and seeks. */
module Seeking {
  import opened Bytes
  import opened Layout
  import opened Chains
  import opened FatVolume
  import opened FileLayout
  import opened Files
  import opened Transfer
  import opened Reading

  /** The link that follows the last reachable cluster of a file. */
  ghost function ChainEnd(vol: Volume, fp: File): nat
    requires vol.Valid()
    reads vol, vol.win, fp
  {
    var cs := fp.Chain(vol);
    if |cs| == 0 then fp.orgClust else vol.Links()[cs[|cs| - 1]]
  }

  /** The start cluster is one that f_lseek handles: a cluster, or 0 for a file without one. */
  ghost predicate SeekableStart(vol: Volume, fp: File)
    reads fp, vol
  {
    fp.orgClust == 0 || vol.geo.DataCluster(fp.orgClust)
  }

  /** The loop of f_lseek has reached the i-th cluster of the chain. */
  ghost predicate Reached(vol: Volume, fp: File, clust: nat, i: nat, ofs: nat, target: nat)
    reads vol, vol.win, fp
  {
    && vol.Valid() && 0 < ofs && fp.fptr + ofs == target <= fp.fsize < 0x1_0000_0000
    && i < |fp.Chain(vol)| && clust == fp.Chain(vol)[i] && fp.currClust == clust
    && fp.fptr == 512 * Times(i, vol.geo.sectsClust)
  }

  /** What the link of the i-th cluster says about the chain. */
  lemma SeekStep(vol: Volume, fp: File, clust: nat, i: nat, ofs: nat, target: nat)
    requires Reached(vol, fp, clust, i, ofs, target)
    ensures vol.geo.DataCluster(clust) && 0 < vol.geo.sectsClust < 256
    ensures ofs > 512 * vol.geo.sectsClust ==>
              var link, cs := vol.Links()[clust], fp.Chain(vol);
              && (vol.geo.DataCluster(link) ==> i + 1 < |cs| && cs[i + 1] == link)
              && (!vol.geo.DataCluster(link) ==>
                   && ChainEnd(vol, fp) == link
                   && fp.Available(vol) == 512 * Sectors(vol.geo, cs) == fp.fptr + 512 * vol.geo.sectsClust < target)
  {
    hide FatVolume.Volume.Image, Mirrored, Store, Layout.Links;
    var cs, sc := fp.Chain(vol), vol.geo.sectsClust;
    QuotAt(i, 0, sc);
    ChainStep(vol.Links(), fp.orgClust, fp.fsize, i);
    assert Times(i + 1, sc) == Times(i, sc) + sc;
  }

  /** The cursor that f_lseek leaves in the i-th cluster. */
  lemma SeekEnd(vol: Volume, fp: File, i: nat, c: nat)
    requires vol.Valid() && fp.fsize < 0x1_0000_0000 && i < |fp.Chain(vol)|
    requires c < vol.geo.sectsClust && fp.currClust == fp.Chain(vol)[i]
    requires fp.sectClust == vol.geo.sectsClust - c
    requires 512 * (Times(i, vol.geo.sectsClust) + c) < fp.fptr <= 512 * (Times(i, vol.geo.sectsClust) + c) + 512
    requires fp.fptr <= fp.fsize
    requires fp.currSect == vol.geo.Clust2Sect(fp.currClust) + c || (fp.fptr == fp.Available(vol) < fp.fsize)
    ensures fp.Cursor(vol)
    ensures fp.fptr <= fp.Available(vol)
  {
    hide Geometry.Valid, FatVolume.Volume.Image, FatVolume.Volume.Links, Mirrored, Store, Geometry.Clust2Sect;
    var sc := vol.geo.sectsClust;
    QuotAt(i, c, sc);
    QuotBelow(Times(i, sc) + c, |fp.Chain(vol)|, sc);
    assert (fp.fptr - 1) / 512 == Times(i, sc) + c;
  }

  /** Following the chain takes the window to the FAT; a seek within the first cluster leaves it alone. */
  twostate predicate Moved(vol: Volume, start: nat, ofs: nat)
    reads vol, vol.win
  {
    if vol.geo.DataCluster(start) && ofs > vol.geo.sectsClust * 512 then vol.geo.InFat(vol.winSect)
    else vol.winSect == old(vol.winSect) && vol.win[..] == old(vol.win[..])
  }

  /** The loop of f_lseek that skips leading clusters. It returns the cluster where it stopped, 0 for the
      end of the chain, and the number of bytes that remain. */
  method SkipClusters(vol: Volume, fp: File, start: nat, ofs0: nat)
    returns (ok: bool, clust: nat, ofs: nat, ghost i: nat)
    requires Usable(vol) && fp.fptr == 0 && 0 < ofs0 <= fp.fsize < 0x1_0000_0000
    requires start == fp.orgClust && start != 0
    modifies vol, vol.win, fp`currClust, fp`fptr
    ensures Usable(vol) && vol.Image() == old(vol.Image()) && vol.Links() == old(vol.Links())
    ensures Moved(vol, start, ofs0) && (old(vol.Coherent()) ==> vol.Coherent())
    ensures vol.geo.DataCluster(start) ==>
              && (ok && clust != 0 ==>
                   && Reached(vol, fp, clust, i, ofs, ofs0) && ofs <= 512 * vol.geo.sectsClust)
              && (ok && clust == 0 ==>
                   && i < |fp.Chain(vol)| && fp.currClust == fp.Chain(vol)[i]
                   && fp.fptr == 512 * Times(i, vol.geo.sectsClust) && ofs == 512 * vol.geo.sectsClust
                   && fp.Available(vol) == fp.fptr + ofs < ofs0 && ChainEnd(vol, fp) == 0)
              && (!ok ==> fp.Available(vol) < ofs0 && ChainEnd(vol, fp) != 0)
    ensures !vol.geo.DataCluster(start) ==>
              && (ok <==> ofs0 <= 512 * vol.geo.sectsClust)
              && (ok ==> clust == start && ofs == ofs0 && fp.fptr == 0)
  {
    hide Geometry.Valid, FatVolume.Volume.Valid, FatVolume.Volume.Coherent, FatVolume.Volume.Image,
         FatVolume.Volume.Links, FatVolume.Volume.FatShown, Times, Follow, Content, Sectors, Mirrored, Store, FileSect;
    var csize := vol.geo.sectsClust * 512;
    clust, ofs, i := start, ofs0, 0;
    SeekStart(vol, fp);
    ghost var good := vol.geo.DataCluster(start);
    while true
      invariant Usable(vol) && vol.Image() == old(vol.Image()) && vol.Links() == old(vol.Links())
      invariant if ofs == ofs0 then vol.winSect == old(vol.winSect) && vol.win[..] == old(vol.win[..])
                else good && ofs0 > csize && vol.geo.InFat(vol.winSect)
      invariant old(vol.Coherent()) ==> vol.Coherent()
      invariant 0 < ofs <= ofs0
      invariant good ==> i < |fp.Chain(vol)| && clust == fp.Chain(vol)[i]
                         && fp.fptr == 512 * Times(i, vol.geo.sectsClust) && fp.fptr + ofs == ofs0
      invariant !good ==> clust == start && ofs == ofs0 && fp.fptr == 0
      decreases ofs
    {
      fp.currClust := clust;
      if ofs <= csize { return true, clust, ofs, i; }
      if good { SeekStep(vol, fp, clust, i, ofs, ofs0); }
      clust := vol.GetCluster(clust);
      if clust == 0 { return true, 0, csize, i; }
      if clust == 1 || clust >= vol.geo.maxClust { return false, clust, ofs, i; }
      fp.fptr := fp.fptr + csize;
      ofs := ofs - csize;
      i := i + 1;
    }
  }

  lemma SeekStart(vol: Volume, fp: File)
    requires vol.Valid() && 0 < fp.fsize
    ensures 0 < vol.geo.sectsClust < 256 && Times(0, vol.geo.sectsClust) == 0
    ensures forall i: nat :: Times(i, vol.geo.sectsClust) + vol.geo.sectsClust == Times(i + 1, vol.geo.sectsClust)
    ensures vol.geo.DataCluster(fp.orgClust) ==> 0 < |fp.Chain(vol)| && fp.Chain(vol)[0] == fp.orgClust
    ensures !vol.geo.DataCluster(fp.orgClust) ==> |fp.Chain(vol)| == 0
  {
    ChainStep(vol.Links(), fp.orgClust, fp.fsize, 0);
  }

  /** The end of f_lseek: set the position inside the cluster. Cluster number 0 has no sector. */
  method Settle(vol: Volume, fp: File, clust: nat, ofs: nat, ghost i: nat)
    requires vol.Valid() && 0 < ofs <= 512 * vol.geo.sectsClust && 0 < vol.geo.sectsClust < 256
    modifies fp`currSect, fp`sectClust, fp`fptr
    ensures fp.fptr == old(fp.fptr) + ofs
    ensures && i < |fp.Chain(vol)| && fp.currClust == fp.Chain(vol)[i] && fp.fsize < 0x1_0000_0000
            && old(fp.fptr) == 512 * Times(i, vol.geo.sectsClust) && fp.fptr <= fp.fsize
            && (clust == fp.currClust || fp.fptr == fp.Available(vol) < fp.fsize)
            ==> fp.Cursor(vol) && fp.fptr <= fp.Available(vol)
  {
    hide Geometry.Valid, FatVolume.Volume.Valid, FatVolume.Volume.Image, FatVolume.Volume.Links, Times, Follow, Content,
         File.Cursor;
    var csect := (ofs - 1) / 512 % 256;
    fp.currSect := vol.geo.Clust2Sect(clust) + csect;
    fp.sectClust := vol.geo.sectsClust - csect;
    fp.fptr := fp.fptr + ofs;
    if && i < |fp.Chain(vol)| && fp.currClust == fp.Chain(vol)[i] && fp.fsize < 0x1_0000_0000
       && old(fp.fptr) == 512 * Times(i, vol.geo.sectsClust) && fp.fptr <= fp.fsize
       && (clust == fp.currClust || fp.fptr == fp.Available(vol) < fp.fsize)
    {
      SeekEnd(vol, fp, i, csect);
    }
  }

  /** A file without a usable chain has nothing behind its start. */
  lemma NoChain(vol: Volume, fp: File)
    requires vol.Valid() && |fp.Chain(vol)| == 0
    ensures fp.Available(vol) == 0 && ChainEnd(vol, fp) == fp.orgClust
    ensures fp.fptr > 0 ==> !fp.Cursor(vol)
    ensures fp.fptr == 0 && fp.sectClust == 1 && fp.fsize < 0x1_0000_0000 ==> fp.Cursor(vol)
  {
  }

  lemma AtStart(vol: Volume, fp: File)
    requires vol.Valid() && fp.fptr == 0 && fp.sectClust == 1 && fp.fsize < 0x1_0000_0000
    ensures fp.Cursor(vol)
  {
  }

  /** The part of f_lseek that moves away from the start of the file. */
  method SeekInto(vol: Volume, fp: File, target: nat) returns (ok: bool)
    requires Usable(vol) && fp.fptr == 0 && fp.sectClust == 1 && 0 < target <= fp.fsize < 0x1_0000_0000
    modifies vol, vol.win, fp`sectClust, fp`currClust, fp`currSect, fp`fptr
    ensures Usable(vol) && vol.Image() == old(vol.Image()) && vol.Links() == old(vol.Links())
    ensures Moved(vol, fp.orgClust, target) && (old(vol.Coherent()) ==> vol.Coherent())
    ensures SeekableStart(vol, fp) ==>
              && (ok <==> target <= fp.Available(vol) || ChainEnd(vol, fp) == 0)
              && (ok ==> fp.fptr == Min(target, fp.Available(vol)) && fp.Cursor(vol))
    ensures !SeekableStart(vol, fp) ==>
              && (ok <==> target <= 512 * vol.geo.sectsClust)
              && (ok ==> fp.fptr == target && !fp.Cursor(vol))
  {
    hide Geometry.Valid, FatVolume.Volume.Valid, FatVolume.Volume.Coherent, FatVolume.Volume.Image,
         FatVolume.Volume.Links, Times, Follow, FileSect, Quot, Rem, File.Cursor, Content;
    SeekStart(vol, fp);
    ok := true;
    if fp.orgClust > 0 {
      var clust, ofs;
      ghost var i;
      ok, clust, ofs, i := SkipClusters(vol, fp, fp.orgClust, target);
      if ok {
        Settle(vol, fp, clust, ofs, i);
      }
    } else {
      AtStart(vol, fp);
    }
    if |fp.Chain(vol)| == 0 { NoChain(vol, fp); }
  }

  /** f_lseek in the read-only build. Positions beyond the end of the file are cut off. A chain that is
      too short stops the seek at its end when its last link is 0 and fails it otherwise. */
  method LSeek(vol: Volume, fp: File, ofs0: nat) returns (res: FResult)
    requires Usable(vol) && fp.fsize < 0x1_0000_0000
    modifies vol, vol.win, fp`sectClust, fp`currClust, fp`currSect, fp`fptr, fp`error
    ensures Usable(vol) && vol.Image() == old(vol.Image()) && vol.Links() == old(vol.Links())
    ensures old(vol.Coherent()) ==> vol.Coherent()
    ensures !old(fp.error) ==> Moved(vol, fp.orgClust, Min(ofs0, fp.fsize))
    ensures old(fp.error) ==> res == RwError && fp.fptr == old(fp.fptr) && fp.error
    ensures !old(fp.error) ==> (res == Ok || res == RwError) && fp.error == (res != Ok)
    ensures !old(fp.error) && (Min(ofs0, fp.fsize) == 0 || SeekableStart(vol, fp)) ==>
              var target := Min(ofs0, fp.fsize);
              && (res == Ok <==> target <= fp.Available(vol) || ChainEnd(vol, fp) == 0)
              && (res == Ok ==> fp.fptr == Min(target, fp.Available(vol)) && fp.Cursor(vol))
    ensures !old(fp.error) && !(Min(ofs0, fp.fsize) == 0 || SeekableStart(vol, fp)) ==>
              var target := Min(ofs0, fp.fsize);
              && (res == Ok <==> target <= 512 * vol.geo.sectsClust)
              && (res == Ok ==> fp.fptr == target && !fp.Cursor(vol))
  {
    hide Geometry.Valid, FatVolume.Volume.Valid, FatVolume.Volume.Coherent, FatVolume.Volume.Image,
         FatVolume.Volume.Links, File.Cursor, File.Chain, Content;
    if fp.error { return RwError; }
    var ofs: nat := ofs0;
    if ofs > fp.fsize { ofs := fp.fsize; }
    fp.fptr := 0;
    fp.sectClust := 1;
    AtStart(vol, fp);
    if ofs > 0 {
      var ok := SeekInto(vol, fp, ofs);
      if !ok {
        fp.error := true;
        return RwError;
      }
    }
    res := Ok;
  }
}
