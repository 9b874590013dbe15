/** Calls that do not do what their functions promise, one for each condition that is stated elsewhere. */
module FailingCalls {
  import opened Bytes
  import opened PackedFat
  import opened Layout
  import opened Chains
  import opened FatVolume
  import opened ChainOps
  import opened Files
  import opened Reading
  import opened Seeking
  import opened Append

  /** One FAT in front of a root directory of one sector and clusters of one sector. */
  function Small(fsType: FatType, sectsFat: nat, maxClust: nat): Geometry {
    Geometry(fsType, 1, sectsFat, 1, 1 + sectsFat, 16, 2 + sectsFat, maxClust, 1)
  }

  lemma SmallFits(fsType: FatType, sectsFat: nat, maxClust: nat, disk: Image)
    requires 1 <= sectsFat < 0x1_0000 && 2 <= maxClust && |disk| == sectsFat + maxClust
    requires match fsType
             case Fat12 => maxClust <= 0xFF7 && (maxClust - 1) * 3 / 2 + 1 < 512 * sectsFat
             case Fat16 => 0xFF7 < maxClust <= 0xFFF7 && 2 * maxClust <= 512 * sectsFat
    ensures var g := Small(fsType, sectsFat, maxClust); g.Valid(|disk|) && Mirrored(g, disk)
  {
    var g := Small(fsType, sectsFat, maxClust);
    TimesIsProduct(1, sectsFat);
    TimesIsProduct(maxClust - 2, 1);
  }

  /** A FAT byte is a byte of a FAT sector. */
  lemma EntryOf(g: Geometry, img: Image, c: nat, b: byte)
    requires g.Valid(|img|) && c < g.maxClust
    requires forall s, i :: 0 <= s < |img| && g.InFat(s) && 0 <= i < 512 ==> img[s][i] == b
    ensures b == 0 ==> Links(g, img)[c] == 0
    ensures b == 0xFF && g.fsType.Fat12? ==> Links(g, img)[c] == 0xFFF
  {
    AreasFit(g, |img|);
    EntryFits(g, |img|, c);
    var fat := FatBytes(g, img);
    assert forall j :: 0 <= j < |fat| ==> fat[j] == b;
  }

  /** A small volume without a free cluster. */
  method FullVolume() returns (vol: Volume)
    ensures vol.Valid() && vol.Coherent() && FreeCount(vol.Links()) == 0 && NoOnes(vol.Links()) && fresh(vol.win)
  {
    hide Geometry.Valid, Mirrored, FatVolume.Volume.Valid, FatVolume.Volume.Coherent, FatVolume.Volume.Image,
         FatVolume.Volume.Links;
    var disk: Image := seq(4, s => if s == 1 then seq(512, i => 0xFF) else seq(512, i => 0));
    SmallFits(Fat12, 1, 3, disk);
    vol := new Volume(Small(Fat12, 1, 3), disk);
    EntryOf(vol.geo, disk, 2, 0xFF);
    ghost var links := vol.Links();
    assert FreeUpTo(links, 3) == FreeUpTo(links, 2) == FreeUpTo(links, 1) == FreeUpTo(links, 0) == 0;
  }

  lemma NewFileGrows(vol: Volume, fp: File)
    requires vol.Valid() && vol.Coherent() && NoOnes(vol.Links()) && fp.orgClust == 0 && fp.sectClust == 1
    ensures Growing(vol, fp, [], [])
    ensures FreeCount(vol.Links()) == 0 ==> Room(vol, []) == 0
  {
    hide FatVolume.Volume.Coherent, FatVolume.Volume.Image,
         FatVolume.Volume.Links, FreeCount;
    assert Times(0, vol.geo.sectsClust) == 0;
  }

  /** A stuck file without bytes has no cluster. */
  lemma NothingHeld(vol: Volume, fp: File, cs: seq<nat>)
    requires Stuck(vol, fp, cs, [])
    ensures cs == []
  {
    hide Geometry.Valid, FatVolume.Volume.Valid, FatVolume.Volume.Coherent, FatVolume.Volume.Image,
         FatVolume.Volume.Links, FreeCount, NoOnes, Chain;
    QuotAt(|cs|, 0, vol.geo.sectsClust);
  }

  /** f_write of one byte to a new file when no cluster is free: it succeeds with no byte written, and the file is
      stuck. */
  method WriteWhenFull() returns (vol: Volume, fp: File, res: FResult, bw: nat)
    ensures res == Ok && bw == 0 && Stuck(vol, fp, [], [])
  {
    hide Geometry.Valid, FatVolume.Volume.Valid, FatVolume.Volume.Coherent, FatVolume.Volume.Image,
         FatVolume.Volume.Links, FreeCount, NoOnes, Room, Growing, Stands, Stuck, File.Cursor, Grew;
    vol := FullVolume();
    fp := new File(0, 0, 2, 0, false, true);
    NewFileGrows(vol, fp);
    var one := new byte[1];
    ghost var ds, room;
    res, bw, ds, room := Write(vol, fp, one, 1, [], []);
    assert [] + one[..0] == [];
    NothingHeld(vol, fp, ds);
  }

  /** f_getfree on a 16-bit volume whose reserved entries are 0 counts them as free clusters. */
  method CountOfZeros() returns (vol: Volume, n: nat)
    ensures vol.Valid() && n != FreeCount(vol.Links())
  {
    var disk: Image := seq(16 + 0xFF8, s => seq(512, i => 0));
    SmallFits(Fat16, 16, 0xFF8, disk);
    vol := new Volume(Small(Fat16, 16, 0xFF8), disk);
    EntryOf(vol.geo, disk, 0, 0);
    n := GetFree(vol);
  }

  /** f_lseek on a file whose directory entry names cluster 1: it succeeds, and the cursor stands nowhere. */
  method SeekFromOne(vol: Volume) returns (fp: File, res: FResult)
    requires Usable(vol)
    modifies vol, vol.win
    ensures Usable(vol) && res == Ok && fp.fptr == 1 && !fp.Cursor(vol)
  {
    fp := new File(1, 1, 0, 0, true, false);
    res := LSeek(vol, fp, 1);
  }
}
