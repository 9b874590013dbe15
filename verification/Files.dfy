/** The file object and its cursor. */
module Files {
  import opened Bytes
  import opened Layout
  import opened Chains
  import opened FatVolume
  import opened FileLayout

  datatype FResult = Ok | NoFile | NoPath | InvalidName | Denied | RwError

  /** FIL: the flag byte is split into its bits. */
  class File {
    var canRead: bool
    var canWrite: bool
    var written: bool
    var error: bool
    var sectClust: nat
    var fptr: nat
    var fsize: nat
    var orgClust: nat
    var currClust: nat
    var currSect: nat
    var dirSect: nat
    var dirOff: nat

    /** The end of f_open: the position fields for the start of the file that a directory entry names. The
        fields for the current cluster and sector are not set. */
    constructor (orgClust: nat, fsize: nat, dirSect: nat, dirOff: nat, canRead: bool, canWrite: bool)
      ensures this.orgClust == orgClust && this.fsize == fsize && fptr == 0 && sectClust == 1
      ensures this.dirSect == dirSect && this.dirOff == dirOff
      ensures this.canRead == canRead && this.canWrite == canWrite && !written && !error
      ensures fsize < 0x1_0000_0000 ==> forall vol: Volume :: vol.Valid() ==> Cursor(vol)
    {
      this.orgClust, this.fsize, this.dirSect, this.dirOff := orgClust, fsize, dirSect, dirOff;
      this.canRead, this.canWrite, written, error := canRead, canWrite, false, false;
      fptr, sectClust := 0, 1;
    }

    ghost function Chain(vol: Volume): (cs: seq<nat>)
      requires vol.Valid()
      reads this`orgClust, this`fsize, vol, vol.win
      ensures InRange(vol.geo, cs)
    {
      FileChain(vol.Links(), orgClust, fsize)
    }

    /** How many bytes of the file its chain really provides. */
    ghost function Available(vol: Volume): (n: nat)
      requires vol.Valid()
      reads this`orgClust, this`fsize, vol, vol.win
      ensures n <= fsize && n <= 512 * Sectors(vol.geo, Chain(vol))
    {
      var cap := 512 * Sectors(vol.geo, Chain(vol));
      if cap < fsize then cap else fsize
    }

    /** The bytes of the file that can be reached. */
    ghost function Bytes(vol: Volume): (r: seq<byte>)
      requires vol.Valid()
      reads this`orgClust, this`fsize, vol, vol.win
      ensures |r| == Available(vol)
    {
      Content(vol.geo, vol.Image(), Chain(vol), Available(vol))
    }

    /** The cursor invariant: the position fields describe the sector of the last byte before fptr. Only
        when a seek has been stopped by the end of a chain that is too short is the sector field
        meaningless, and then it is not used. */
    ghost predicate Cursor(vol: Volume)
      requires vol.Valid()
      reads this, vol, vol.win
    {
      && fptr <= Available(vol)
      && fsize < 0x1_0000_0000
      && (fptr == 0 ==> sectClust == 1)
      && (fptr > 0 ==>
           && OnCluster(vol.geo, Chain(vol), (fptr - 1) / 512, currClust, sectClust)
           && (currSect == FileSect(vol.geo, Chain(vol), (fptr - 1) / 512)
               || (fptr < fsize && fptr == Available(vol))))
    }
  }

  /** What the next cluster of a file is. */
  lemma ChainStep(links: seq<nat>, orgClust: nat, fsize: nat, i: nat)
    requires i < fsize
    ensures var cs := FileChain(links, orgClust, fsize);
            && (|cs| == 0 <==> !IsCluster(links, orgClust))
            && (|cs| > 0 ==> cs[0] == orgClust)
            && (i + 1 < |cs| ==> cs[i + 1] == links[cs[i]])
            && (i + 1 == |cs| && i + 1 < fsize ==> !IsCluster(links, links[cs[i]]))
  {
    if i < |FileChain(links, orgClust, fsize)| {
      FollowSteps(links, orgClust, fsize, i);
    }
  }

  /** The step over a sector boundary that reading and in-place writing share: decrement the sector
      counter and, when it reaches zero, follow the chain. It fails exactly where the chain ends. */
  method NextSector(vol: Volume, fp: File, ghost k: nat) returns (ok: bool)
    requires vol.Valid() && vol.FatShown()
    requires fp.Cursor(vol) && fp.fptr == 512 * k < fp.fsize
    modifies vol, vol.win, fp`sectClust, fp`currClust, fp`currSect
    ensures vol.Valid() && vol.FatShown()
    ensures vol.Image() == old(vol.Image()) && vol.Links() == old(vol.Links())
    ensures if k > 0 && vol.geo.sectsClust > 0 && Rem(k, vol.geo.sectsClust) == 0 then vol.geo.InFat(vol.winSect)
            else vol.winSect == old(vol.winSect) && vol.win[..] == old(vol.win[..])
    ensures vol.winFlag ==> old(vol.winFlag)
    ensures fp.Chain(vol) == old(fp.Chain(vol))
    ensures ok <==> k < Sectors(vol.geo, fp.Chain(vol))
    ensures ok ==> At(vol.geo, fp.Chain(vol), k, fp.currClust, fp.currSect, fp.sectClust)
  {
    hide FatVolume.Volume.Valid, FatVolume.Volume.Coherent, FatVolume.Volume.Image, FatVolume.Volume.Links,
         FatVolume.Volume.FatShown, Geometry.Valid, File.Cursor, Follow, Mirrored, Rem, Quot, Times;
    ghost var g, cs := vol.geo, fp.Chain(vol);
    NextIndex(vol, fp, k);
    fp.sectClust := (fp.sectClust + 255) % 256;
    var sect;
    if fp.sectClust != 0 {
      sect := fp.currSect + 1;
    } else {
      var clust;
      if fp.fptr == 0 {
        clust := fp.orgClust;
      } else {
        clust := vol.GetCluster(fp.currClust);
      }
      if clust < 2 || clust >= vol.geo.maxClust {
        return false;
      }
      fp.currClust := clust;
      sect := vol.geo.Clust2Sect(clust);
      fp.sectClust := vol.geo.sectsClust;
    }
    fp.currSect := sect;
    ok := true;
  }

  /** Where sector k lies relative to the cursor that stands at its beginning. */
  lemma NextIndex(vol: Volume, fp: File, k: nat)
    requires vol.Valid() && fp.Cursor(vol) && fp.fptr == 512 * k < fp.fsize
    ensures var g, cs, m := vol.geo, fp.Chain(vol), vol.geo.sectsClust;
            && 0 < m < 256
            && (k == 0 ==> fp.sectClust == 1 && Quot(k, m) == 0 == Rem(k, m) && (k < Sectors(g, cs) <==> |cs| > 0))
            && (k == 0 ==> (|cs| > 0 <==> g.DataCluster(fp.orgClust)) && (|cs| > 0 ==> cs[0] == fp.orgClust))
            && (k > 0 && fp.sectClust > 1 ==>
                 && k < Sectors(g, cs)
                 && At(g, cs, k, fp.currClust, fp.currSect + 1, fp.sectClust - 1))
            && (k > 0 ==> (fp.sectClust == 1 <==> Rem(k, m) == 0))
            && (k > 0 && fp.sectClust == 1 ==>
                 && g.DataCluster(fp.currClust)
                 && Quot(k, m) < fp.fsize && Rem(k, m) == 0
                 && (k < Sectors(g, cs) <==> g.DataCluster(vol.Links()[fp.currClust]))
                 && (k < Sectors(g, cs) <==> Quot(k, m) < |cs|)
                 && (k < Sectors(g, cs) ==> cs[Quot(k, m)] == vol.Links()[fp.currClust]))
            && 0 < fp.sectClust < 256
  {
    hide FatVolume.Volume.Image, FatVolume.Volume.Links, Layout.Links, Mirrored, Store;
    var g, cs, m := vol.geo, fp.Chain(vol), vol.geo.sectsClust;
    QuotBelow(k, |cs|, m);
    if k == 0 {
      ChainStep(vol.Links(), fp.orgClust, fp.fsize, 0);
    } else {
      QuotStep(k - 1, 1, m);
      QuotBelow(k - 1, |cs|, m);
      QuotBelow(k, |cs|, m);
      ChainStep(vol.Links(), fp.orgClust, fp.fsize, Quot(k - 1, m));
    }
  }
}
