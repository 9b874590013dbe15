/** What f_write_inplace does to a later read: the direct transfer leaves the window with the old bytes. */
module Stale {
  import opened Bytes
  import opened Layout
  import opened FatVolume
  import opened FileLayout
  import opened Files
  import opened Transfer
  import opened Reading
  import opened Seeking
  import opened FlatFile

  /** The bytes of sector k, as the disk or the window has them. */
  lemma SectorBytes(vol: Volume, fp: File, k: nat, o: nat, n: nat)
    requires vol.Valid() && 512 * k + 512 <= fp.Available(vol) && o + n <= 512
    ensures k < Sectors(vol.geo, fp.Chain(vol)) && 0 < FileSect(vol.geo, fp.Chain(vol), k) < |vol.disk|
    ensures !vol.geo.InFat(FileSect(vol.geo, fp.Chain(vol), k))
    ensures var s := FileSect(vol.geo, fp.Chain(vol), k);
            fp.Bytes(vol)[512 * k + o..512 * k + o + n] == vol.Image()[s][o..o + n]
    ensures vol.winSect == FileSect(vol.geo, fp.Chain(vol), k) ==>
              Seen(vol, fp)[512 * k + o..512 * k + o + n] == vol.win[..][o..o + n]
  {
    hide Geometry.Valid, FatVolume.Volume.Valid, FatVolume.Volume.Image, FileSect, File.Chain, Quot, Rem,
         Times, Sectors;
    var g, cs := vol.geo, fp.Chain(vol);
    FileSectInData(g, |vol.disk|, cs, k);
    forall i | 512 * k + o <= i < 512 * k + o + n
      ensures i / 512 == k && i % 512 == i - 512 * k
    {
    }
  }

  /** Up to the end of the first cluster, exactly its own sectors are reached without consulting the FAT. */
  lemma FirstCluster(g: Geometry, k: nat)
    requires g.sectsClust > 0
    ensures k < g.sectsClust ==> Stays(g, k, k)
    ensures k == g.sectsClust ==> !Stays(g, k, k)
  {
    if k < g.sectsClust {
      QuotAt(0, k, g.sectsClust);
    } else if k == g.sectsClust {
      QuotAt(1, 0, g.sectsClust);
      assert Times(1, g.sectsClust) == Times(0, g.sectsClust) + g.sectsClust;
    }
  }

  /** When n bytes at offset o of sector k come through the window. */
  lemma PieceHere(g: Geometry, cs: seq<nat>, k: nat, o: nat, n: nat, winSect: nat)
    requires InRange(g, cs) && k < Sectors(g, cs) && g.sectsClust > 0 && 0 < n && o + n <= 512
    ensures Piece(g, cs, 512 * k + o, n, winSect)
       <==> FileSect(g, cs, k) == winSect && (o > 0 || (n < 512 && Stays(g, k, k)))
  {
    hide Stays, FileSect, InRange, Sectors;
    assert (512 * k + o) / 512 == k && (512 * k + o) % 512 == if o == 512 then 0 else o;
    assert o == 0 && n < 512 ==> (512 * k + o + n) / 512 == k && (512 * k + o + n) % 512 == n;
    assert o == 0 && n == 512 ==> (512 * k + o + n) % 512 == 0;
  }

  /** Overwriting sector k in place, and seeking to offset o in it. */
  method WriteAndReturn(vol: Volume, fp: File, data: array<byte>, k: nat, o: nat)
    requires Intact(vol, fp) && Distinct(fp.Chain(vol)) && fp.fptr == 512 * k && 512 * k + 512 <= fp.fsize
    requires data.Length == 512 && data != vol.win && o < 512
    modifies vol, vol.win, data, fp`sectClust, fp`currClust, fp`currSect, fp`fptr, fp`error
    ensures Usable(vol) && fp.Cursor(vol) && !fp.error && fp.fptr == 512 * k + o
    ensures fp.Chain(vol) == old(fp.Chain(vol)) && 512 * k + 512 <= fp.fsize == |old(fp.Bytes(vol))| == |fp.Bytes(vol)|
    ensures fp.Bytes(vol) == Overwrite(old(fp.Bytes(vol)), old(data[..]), 512 * k, 512)
    ensures 0 < vol.geo.sectsClust
    ensures k < vol.geo.sectsClust ==> vol.winSect == old(vol.winSect) && vol.win[..] == old(vol.win[..])
    ensures k >= vol.geo.sectsClust && (o > 0 || k > vol.geo.sectsClust) ==> vol.Coherent()
  {
    hide Geometry.Valid, FatVolume.Volume.Valid, FatVolume.Volume.Links, FatVolume.Volume.Image, FatVolume.Volume.Shown,
         FatVolume.Volume.FatShown, FatVolume.Volume.Coherent, Content, File.Chain, File.Cursor, Sectors,
         FileSect, Distinct, InPlaceContent, InPlaceBuffer, Overwrite, OnChain, Times, Quot, Rem, Mirrored, Store,
         File.Available, File.Bytes, Seen;
    IntactStart(vol, fp);
    HasStart(vol, fp);
    SameChain(vol, fp);
    ClusterSize(vol.geo, |vol.disk|);
    FirstCluster(vol.geo, k);
    ghost var was, d0 := fp.Bytes(vol), data[..];
    var res, bw := WriteInPlace(vol, fp, data, 512);
    InPlaceExact(512 * k, 512);
    assert Overwrite(was, d0, 512 * k, 512) == InPlaceContent(was, d0, 512 * k, 512);
    SameChain(vol, fp);
    BytesAre(vol, fp);
    res := LSeek(vol, fp, 512 * k + o);
    SameChain(vol, fp);
    BytesAre(vol, fp);
    FarSeek(k, o, vol.geo.sectsClust);
    if vol.geo.InFat(vol.winSect) {
      vol.FatInWindow();
    }
  }

  lemma HasStart(vol: Volume, fp: File)
    requires Intact(vol, fp) && fp.fsize > 0
    ensures vol.geo.DataCluster(fp.orgClust)
  {
    hide Geometry.Valid, FatVolume.Volume.Valid, FatVolume.Volume.Links, FatVolume.Volume.Image;
    SeekStart(vol, fp);
  }

  lemma FarSeek(k: nat, o: nat, m: nat)
    requires o < 512
    ensures 512 * k + o > m * 512 <==> k > m || (k == m && o > 0)
  {
  }

  lemma SameChain(vol: Volume, fp: File)
    requires vol.Valid()
    ensures fp.Chain(vol) == FileChain(vol.Links(), fp.orgClust, fp.fsize)
    ensures |fp.Bytes(vol)| == fp.Available(vol)
    ensures fp.fsize > 0 ==> (|fp.Chain(vol)| > 0 <==> vol.geo.DataCluster(fp.orgClust))
  {
    if fp.fsize > 0 {
      SeekStart(vol, fp);
    }
  }

  /** Writing sector k in place, seeking back into it, and reading a part of it. The disk has the new bytes, but
      the read returns the old ones exactly if the window showed the sector, the sector lies in the first cluster
      of the file, and the read is no whole sector. In any other cluster the FAT takes the window away. */
  method WriteThenRead(vol: Volume, fp: File, data: array<byte>, buff: array<byte>, k: nat, o: nat, n: nat)
    requires Intact(vol, fp) && Distinct(fp.Chain(vol)) && fp.fptr == 512 * k && 512 * k + 512 <= fp.fsize
    requires data.Length == 512 && data != vol.win && buff != vol.win && buff != data
    requires 0 < n && o + n <= 512 && n <= buff.Length
    modifies vol, vol.win, data, buff, fp`sectClust, fp`currClust, fp`currSect, fp`fptr, fp`error
    ensures vol.Valid() && 512 * k + 512 <= |old(fp.Bytes(vol))| && k < Sectors(vol.geo, old(fp.Chain(vol)))
    ensures fp.Bytes(vol) == Overwrite(old(fp.Bytes(vol)), old(data[..]), 512 * k, 512)
    ensures buff[..n] == if && old(vol.winSect) == FileSect(vol.geo, old(fp.Chain(vol)), k)
                            && k < vol.geo.sectsClust && n < 512
                         then old(fp.Bytes(vol))[512 * k + o..512 * k + o + n]
                         else old(data[..])[o..o + n]
  {
    hide Geometry.Valid, FatVolume.Volume.Valid, FatVolume.Volume.Links, FatVolume.Volume.Image, FatVolume.Volume.Shown,
         FatVolume.Volume.FatShown, FatVolume.Volume.Coherent, Content, File.Chain, File.Cursor, File.Available,
         File.Bytes, Seen, Sectors, FileSect, Distinct, Overwrite, OnChain, Piece, Stays, Servable;
    SectorBytes(vol, fp, k, o, n);
    WindowIs(vol);
    ghost var was, d0 := fp.Bytes(vol), data[..];
    WriteAndReturn(vol, fp, data, k, o);
    SameChain(vol, fp);
    SectorBytes(vol, fp, k, o, n);
    if vol.Coherent() {
      SeenIsBytes(vol, fp);
    }
    UsableServes(vol, fp);
    OverwrittenPart(was, d0, 512 * k, o, n);
    PieceHere(vol.geo, fp.Chain(vol), k, o, n, vol.winSect);
    FirstCluster(vol.geo, k);
    WantedHere(fp, n);
    var res, br := Read(vol, fp, buff, n);
    assert buff[..n] == buff[..][..n];
  }

  lemma WantedHere(fp: File, n: nat)
    requires fp.fptr + n <= fp.fsize
    ensures Wanted(fp, n) == n
  {
  }

  lemma OverwrittenPart(c: seq<byte>, d: seq<byte>, p: nat, o: nat, n: nat)
    requires |d| == 512 && p + 512 <= |c| && o + n <= 512
    ensures Overwrite(c, d, p, 512)[p + o..p + o + n] == d[o..o + n]
  {
  }

  lemma WindowIs(vol: Volume)
    requires Clean(vol)
    ensures 0 < vol.winSect ==> vol.win[..] == vol.Image()[vol.winSect]
  {
  }
}
