/** f_sync, and what a sequence of writes leaves on the disk. */
module Sync {
  import opened Bytes
  import opened Layout
  import opened Chains
  import opened FatVolume
  import opened FileLayout
  import opened Files
  import opened Transfer
  import opened Reading
  import opened Append

  const DIR_ATTR := 11
  const DIR_WRT_TIME := 22
  const DIR_FST_CLUS := 26
  const DIR_FILE_SIZE := 28

  function Le16(v: nat): (s: seq<byte>)
    ensures |s| == 2
  {
    [v % 256, v / 256 % 256]
  }

  function Le32(v: nat): (s: seq<byte>)
    ensures |s| == 4
  {
    Le16(v % 0x1_0000) + Le16(v / 0x1_0000 % 0x1_0000)
  }

  lemma LoadStored(s: seq<byte>, o: nat, v: nat)
    ensures v < 0x1_0000 && o + 2 <= |s| && s[o..o + 2] == Le16(v) ==> LoadLe16(s, o) == v
    ensures v < 0x1_0000_0000 && o + 4 <= |s| && s[o..o + 4] == Le32(v) ==> LoadLe32(s, o) == v
  {
    if v < 0x1_0000 && o + 2 <= |s| && s[o..o + 2] == Le16(v) {
      assert s[o] == s[o..o + 2][0] && s[o + 1] == s[o..o + 2][1];
    }
    if v < 0x1_0000_0000 && o + 4 <= |s| && s[o..o + 4] == Le32(v) {
      var lo, hi := v % 0x1_0000, v / 0x1_0000;
      assert s[o] == s[o..o + 4][0] && s[o + 1] == s[o..o + 4][1];
      assert s[o + 2] == s[o..o + 4][2] && s[o + 3] == s[o..o + 4][3];
      assert LoadLe16(s, o) == lo && LoadLe16(s, o + 2) == hi;
    }
  }

  /** The file that a directory entry on a disk names: its size and start cluster, and the bytes that its
      chain provides. */
  ghost function StoredFile(g: Geometry, disk: Image, dirSect: nat, dirOff: nat): seq<byte>
    requires g.Valid(|disk|) && dirSect < |disk| && dirOff + 32 <= 512
  {
    var size := LoadLe32(disk[dirSect], dirOff + DIR_FILE_SIZE);
    var cs := FileChain(Links(g, disk), LoadLe16(disk[dirSect], dirOff + DIR_FST_CLUS), size);
    Content(g, disk, cs, Min(size, 512 * Sectors(g, cs)))
  }

  /** The bytes read back through the chain of a file are the bytes it holds. */
  lemma HeldContent(g: Geometry, img: Image, cs: seq<nat>, org: nat, c: seq<byte>)
    requires g.Valid(|img|) && InRange(g, cs) && Holding(g, img, cs, c)
    requires if cs == [] then org == 0 else Chain(Links(g, img), cs) && cs[0] == org
    ensures var ds := FileChain(Links(g, img), org, |c|);
            && |c| <= 512 * Sectors(g, ds)
            && Content(g, img, ds, |c|) == c
  {
    hide Geometry.Valid, Layout.Links, Follow, Chain, FileSect, FileByte, Quot, Rem;
    var links, n := Links(g, img), |c|;
    if cs == [] {
      assert n == 0;
    } else {
      FollowWhole(links, cs, n);
      var ds := FileChain(links, org, n);
      assert ds <= cs;
      if |ds| < |cs| {
        QuotAt(n, 0, g.sectsClust);
      }
      PrefixContent(g, img, ds, cs, c);
    }
  }

  lemma PrefixContent(g: Geometry, img: Image, ds: seq<nat>, cs: seq<nat>, c: seq<byte>)
    requires g.Valid(|img|) && InRange(g, cs) && InRange(g, ds) && Holding(g, img, cs, c) && ds <= cs
    requires |c| <= 512 * Sectors(g, ds)
    ensures Content(g, img, ds, |c|) == c
  {
    hide Geometry.Valid, InRange, FileSect, Quot, Rem, Times;
    forall i | 0 <= i < |c|
      ensures FileByte(g, img, ds, i) == c[i]
    {
      SameFileSect(g, ds, cs, i / 512);
    }
  }

  /** Where the directory entry of a file lies: outside the FATs and outside the file. */
  ghost predicate EntryPlace(vol: Volume, fp: File, cs: seq<nat>)
    requires vol.Valid() && InRange(vol.geo, cs)
    reads vol, vol.win, fp`dirSect, fp`dirOff
  {
    vol.geo.dirBase <= fp.dirSect < |vol.disk| && !OnChain(vol.geo, cs, fp.dirSect) && fp.dirOff + 32 <= 512
  }

  function Archived(attr: byte): byte {
    if attr / 0x20 % 2 == 1 then attr else attr + 0x20
  }

  /** The window after f_sync has filled in the directory entry at o: the attribute, the time, the start cluster
      and the size. */
  ghost predicate EntryFilled(w: seq<byte>, v: seq<byte>, o: nat, fsize: nat, org: nat, time: nat) {
    && |v| == |w| == 512 && o + 32 <= 512
    && (forall i :: 0 <= i < 512 && i != o + DIR_ATTR && !(o + DIR_WRT_TIME <= i < o + 32) ==> v[i] == w[i])
    && v[o + DIR_ATTR] == Archived(w[o + DIR_ATTR])
    && LoadLe32(v, o + DIR_WRT_TIME) == time
    && LoadLe32(v, o + DIR_FILE_SIZE) == fsize
    && LoadLe16(v, o + DIR_FST_CLUS) == org
  }

  /** The same byte by byte: the archive bit, the only one set in the attribute; the time at 22, the start cluster at
      26 and the size at 28, lowest byte first; and all else as before. */
  ghost predicate EntryBytes(w: seq<byte>, v: seq<byte>, o: nat, fsize: nat, org: nat, time: nat) {
    && |v| == |w| == 512 && o + 32 <= 512
    && v[o + 11] / 0x20 % 2 == 1 && v[o + 11] % 0x20 == w[o + 11] % 0x20 && v[o + 11] / 0x40 == w[o + 11] / 0x40
    && Value(v[o + 22..o + 26]) == time && Value(v[o + 26..o + 28]) == org && Value(v[o + 28..o + 32]) == fsize
    && forall i :: 0 <= i < 512 && i != o + 11 && !(o + 22 <= i < o + 32) ==> v[i] == w[i]
  }

  /** The number that bytes stand for, lowest first. */
  function Value(s: seq<byte>): nat {
    if s == [] then 0 else (s[0] as nat) + 256 * Value(s[1..])
  }

  lemma ValueStep(v: seq<byte>, o: nat, n: nat)
    requires o + n <= |v|
    ensures Value(v[o..o + n]) == if n == 0 then 0 else (v[o] as nat) + 256 * Value(v[o + 1..o + n])
  {
    if n > 0 {
      assert v[o..o + n][1..] == v[o + 1..o + n];
    }
  }

  lemma ValueIs(v: seq<byte>, o: nat)
    ensures o + 2 <= |v| ==> Value(v[o..o + 2]) == LoadLe16(v, o)
    ensures o + 4 <= |v| ==> Value(v[o..o + 4]) == LoadLe32(v, o)
  {
    hide Value;
    if o + 2 <= |v| {
      ValueStep(v, o, 2);
      ValueStep(v, o + 1, 1);
      ValueStep(v, o + 2, 0);
    }
    if o + 4 <= |v| {
      ValueStep(v, o, 4);
      ValueStep(v, o + 1, 3);
      ValueStep(v, o + 2, 2);
      ValueStep(v, o + 3, 1);
      ValueStep(v, o + 4, 0);
    }
  }

  lemma FilledBytes(w: seq<byte>, v: seq<byte>, o: nat, fsize: nat, org: nat, time: nat)
    requires EntryFilled(w, v, o, fsize, org, time)
    ensures EntryBytes(w, v, o, fsize, org, time)
  {
    hide LoadLe16, LoadLe32, Value;
    ValueIs(v, o + 22);
    ValueIs(v, o + 26);
    ValueIs(v, o + 28);
  }

  function Splice(w: seq<byte>, o: nat, d: seq<byte>): (v: seq<byte>)
    requires o + |d| <= |w|
    ensures |v| == |w|
    ensures forall i :: 0 <= i < |w| ==> v[i] == if o <= i < o + |d| then d[i - o] else w[i]
  {
    w[..o] + d + w[o + |d|..]
  }

  lemma Filled(w: seq<byte>, o: nat, attr: byte, fsize: nat, org: nat, time: nat)
    requires |w| == 512 && o + 32 <= 512 && fsize < 0x1_0000_0000 && org < 0x1_0000 && time < 0x1_0000_0000
    requires attr == Archived(w[o + DIR_ATTR])
    ensures EntryFilled(w, Splice(Splice(Splice(Splice(w, o + DIR_ATTR, [attr]), o + DIR_FILE_SIZE, Le32(fsize)),
                                         o + DIR_FST_CLUS, Le16(org)), o + DIR_WRT_TIME, Le32(time)),
                        o, fsize, org, time)
  {
    var x := Splice(w, o + DIR_ATTR, [attr]);
    var y := Splice(x, o + DIR_FILE_SIZE, Le32(fsize));
    var z := Splice(y, o + DIR_FST_CLUS, Le16(org));
    var v := Splice(z, o + DIR_WRT_TIME, Le32(time));
    hide Splice, Le16, Le32;
    assert v[o + DIR_FILE_SIZE..o + DIR_FILE_SIZE + 4] == Le32(fsize);
    assert v[o + DIR_FST_CLUS..o + DIR_FST_CLUS + 2] == Le16(org);
    LoadStored(v, o + DIR_FILE_SIZE, fsize);
    assert v[o + DIR_WRT_TIME..o + DIR_WRT_TIME + 4] == Le32(time);
    LoadStored(v, o + DIR_FST_CLUS, org);
    LoadStored(v, o + DIR_WRT_TIME, time);
  }

  /** One store into the directory entry, over an image that had been `before` when the window was opened. */
  method SetField(vol: Volume, o: nat, data: seq<byte>, ghost before: Image)
    requires vol.Valid() && vol.geo.dirBase <= vol.winSect && o + |data| <= 512
    requires |before| == |vol.disk| && vol.Image() == before[vol.winSect := vol.win[..]]
    modifies vol.win, vol`winFlag
    ensures vol.Valid() && vol.Coherent() && |vol.disk| == old(|vol.disk|)
    ensures vol.win[..] == Splice(old(vol.win[..]), o, data)
    ensures vol.Image() == before[vol.winSect := vol.win[..]] && vol.Links() == old(vol.Links())
  {
    hide FatVolume.Volume.Valid, FatVolume.Volume.Image, FatVolume.Volume.Coherent, FatVolume.Volume.Links;
    vol.SetBytes(o, data);
  }

  /** The stores of f_sync into the directory entry. */
  method UpdateEntry(vol: Volume, fp: File, time: nat)
    requires vol.Valid() && vol.geo.dirBase <= vol.winSect && fp.dirOff + 32 <= 512
    requires vol.win[..] == vol.Image()[vol.winSect]
    requires fp.fsize < 0x1_0000_0000 && fp.orgClust < 0x1_0000 && time < 0x1_0000_0000
    modifies vol.win, vol`winFlag
    ensures vol.Valid() && vol.Coherent() && |vol.disk| == old(|vol.disk|)
    ensures vol.Image() == old(vol.Image())[vol.winSect := vol.win[..]] && vol.Links() == old(vol.Links())
    ensures EntryFilled(old(vol.win[..]), vol.win[..], fp.dirOff, fp.fsize, fp.orgClust, time)
  {
    hide FatVolume.Volume.Valid, FatVolume.Volume.Image, FatVolume.Volume.Coherent, FatVolume.Volume.Links, EntryFilled,
         Le16, Le32, Archived, Splice;
    ghost var before := vol.Image();
    var d := fp.dirOff;
    var attr := Archived(vol.win[d + DIR_ATTR]);
    Filled(vol.win[..], d, attr, fp.fsize, fp.orgClust, time);
    SetField(vol, d + DIR_ATTR, [attr], before);
    SetField(vol, d + DIR_FILE_SIZE, Le32(fp.fsize), before);
    SetField(vol, d + DIR_FST_CLUS, Le16(fp.orgClust), before);
    SetField(vol, d + DIR_WRT_TIME, Le32(time), before);
  }

  lemma HoldingOff(g: Geometry, a: Image, cs: seq<nat>, c: seq<byte>, s: nat, w: Sector)
    requires g.Valid(|a|) && InRange(g, cs) && Holding(g, a, cs, c) && s < |a| && !OnChain(g, cs, s)
    ensures Holding(g, a[s := w], cs, c)
  {
    hide InRange, Times, Quot, Rem, FileSect;
    forall i: nat | i < |c|
      ensures FileByte(g, a[s := w], cs, i) == c[i]
    {
      assert FileByte(g, a, cs, i) == c[i];
      FileSectInData(g, |a|, cs, i / 512);
    }
  }

  /** f_sync: afterwards nothing is left in the window, and the directory entry on the disk names exactly
      the bytes the file holds. A file that has not been written is left alone. */
  method FSync(vol: Volume, fp: File, time: nat, ghost cs: seq<nat>, ghost c: seq<byte>) returns (res: FResult)
    requires Stands(vol, fp, cs, c) && |c| == fp.fsize < 0x1_0000_0000 && fp.orgClust < 0x1_0000
    requires time < 0x1_0000_0000 && (fp.written ==> EntryPlace(vol, fp, cs))
    modifies vol, vol.win, fp`written
    ensures res == Ok && !fp.written && Stands(vol, fp, cs, c) && vol.Links() == old(vol.Links())
    ensures old(Growing(vol, fp, cs, c)) ==> Growing(vol, fp, cs, c)
    ensures !old(fp.written) ==> unchanged(vol) && unchanged(vol.win)
    ensures |vol.Image()| == |old(vol.Image())| && (old(fp.written) ==> vol.winSect == fp.dirSect < |vol.disk|)
    ensures forall s :: 0 <= s < |vol.Image()| && s != fp.dirSect ==> vol.Image()[s] == old(vol.Image())[s]
    ensures old(fp.written) ==>
              && !vol.winFlag && vol.disk == vol.Image()
              && EntryFilled(old(vol.Image())[fp.dirSect], vol.disk[fp.dirSect], fp.dirOff, fp.fsize, fp.orgClust, time)
              && StoredFile(vol.geo, vol.disk, fp.dirSect, fp.dirOff) == c
              && EntryBytes(old(vol.Image())[fp.dirSect], vol.disk[fp.dirSect], fp.dirOff, fp.fsize, fp.orgClust, time)
  {
    hide Geometry.Valid, FatVolume.Volume.Links, FatVolume.Volume.Valid, FatVolume.Volume.Coherent,
         FatVolume.Volume.Image, FatVolume.Volume.FatShown, EntryFilled, EntryBytes, OnChain, Holding, Chain,
         StoredFile, InRange, Growing, AtEnd, Sectors, AtLast;
    res := Ok;
    ghost var grows := Growing(vol, fp, cs, c);
    if grows {
      EndPlace(vol, fp, cs, c);
    }
    if fp.written {
      AreasFit(vol.geo, |vol.disk|);
      ghost var before := vol.Image();
      var ok := vol.MoveWindow(fp.dirSect);
      if !ok { return; }
      UpdateEntry(vol, fp, time);
      HoldingOff(vol.geo, before, cs, c, fp.dirSect, vol.win[..]);
      fp.written := false;
      ok := vol.MoveWindow(0);
      if !ok { return; }
      Flushed(vol);
      if grows {
        StillGrowing(vol, fp, cs, c);
      }
      SyncedFile(vol, fp, cs, c, before[fp.dirSect], time);
      FilledBytes(before[fp.dirSect], vol.disk[fp.dirSect], fp.dirOff, fp.fsize, fp.orgClust, time);
    }
  }

  /** Where the position fields of a growing file stand, apart from the window. */
  ghost predicate AtLast(g: Geometry, cs: seq<nat>, p: nat, currClust: nat, currSect: nat, sectClust: nat) {
    && InRange(g, cs)
    && if p == 0 then cs == [] && sectClust == 1
       else && At(g, cs, (p - 1) / 512, currClust, currSect, sectClust)
            && g.sectsClust > 0 && Quot((p - 1) / 512, g.sectsClust) == |cs| - 1
  }

  lemma EndPlace(vol: Volume, fp: File, cs: seq<nat>, c: seq<byte>)
    requires Growing(vol, fp, cs, c)
    ensures AtLast(vol.geo, cs, |c|, fp.currClust, fp.currSect, fp.sectClust)
  {
  }

  /** A window on a sector outside the file is on none of the sectors that its cursor still has ahead. */
  lemma StillGrowing(vol: Volume, fp: File, cs: seq<nat>, c: seq<byte>)
    requires Stands(vol, fp, cs, c) && !OnChain(vol.geo, cs, vol.winSect)
    requires AtLast(vol.geo, cs, |c|, fp.currClust, fp.currSect, fp.sectClust)
    ensures Growing(vol, fp, cs, c)
  {
    hide FatVolume.Volume.Valid, FatVolume.Volume.Image, FatVolume.Volume.Links, FatVolume.Volume.Coherent, Holding,
         FileSect, Chain, HasChain;
    if |c| > 0 && fp.currSect < vol.winSect < fp.currSect + fp.sectClust {
      FileSectRun(vol.geo, cs, (|c| - 1) / 512, vol.winSect - fp.currSect);
    }
  }

  lemma Flushed(vol: Volume)
    requires vol.Valid()
    ensures !vol.winFlag ==> vol.disk == vol.Image()
  {
  }

  lemma SyncedFile(vol: Volume, fp: File, cs: seq<nat>, c: seq<byte>, w: seq<byte>, time: nat)
    requires Stands(vol, fp, cs, c) && |c| == fp.fsize && vol.disk == vol.Image() && fp.dirSect < |vol.disk|
    requires EntryFilled(w, vol.disk[fp.dirSect], fp.dirOff, fp.fsize, fp.orgClust, time)
    ensures StoredFile(vol.geo, vol.disk, fp.dirSect, fp.dirOff) == c
  {
    hide FatVolume.Volume.Valid, FatVolume.Volume.Coherent, FatVolume.Volume.Image, Holding, Chain, InRange,
         FileByte, FileSect, LoadLe16, LoadLe32, Layout.Links;
    HeldContent(vol.geo, vol.disk, cs, fp.orgClust, c);
  }
}
