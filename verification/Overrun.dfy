/** What f_write does to a file that has filled the volume: the counter of sectors left in the cluster is zero,
    and the next write takes it for 256. */
module Overrun {
  import opened Bytes
  import opened Layout
  import opened Chains
  import opened Allocation
  import opened FatVolume
  import opened FileLayout
  import opened Files
  import opened Append

  /** The sector counter of a file that is stuck, or has gone on from there by less than 64 KB. */
  ghost predicate Overrunning(fp: File, btw: nat)
    reads fp`sectClust
  {
    fp.sectClust == 0 || 1 + btw / 512 < fp.sectClust < 256
  }

  /** A disk with n sectors from sector t on replaced by the bytes of a buffer from off on. */
  function Replaced(disk: Image, buff: seq<byte>, off: nat, t: nat, n: nat): (r: Image)
    requires off + 512 * n <= |buff|
    ensures |r| == |disk|
  {
    seq(|disk|, s requires 0 <= s < |disk| =>
      if t <= s < t + n then buff[off + 512 * (s - t)..off + 512 * (s - t) + 512] else disk[s])
  }

  /** disk_write of n sectors behind the current one. */
  method DirectRun(vol: Volume, buff: array<byte>, off: nat, t: nat, n: nat) returns (ok: bool)
    requires vol.Valid() && off + 512 * n <= buff.Length
    modifies vol`disk
    ensures ok <==> t + n <= |vol.disk|
    ensures |vol.disk| == |old(vol.disk)|
    ensures vol.disk == if ok then Replaced(old(vol.disk), buff[..], off, t, n) else old(vol.disk)
    ensures !ok || vol.geo.dirBase <= t ==> vol.Valid()
  {
    hide Geometry.Valid, FatVolume.Volume.Coherent, FatVolume.Volume.Image, FatVolume.Volume.Links, Mirrored, Store,
         Replaced;
    ghost var was := vol.disk;
    ok := vol.DiskWrite(buff, off, t, n);
    if ok {
      ReplacedIs(was, vol.disk, buff[..], off, t, n);
      if vol.geo.dirBase <= t {
        StillValid(vol, was, t, n);
      }
    } else {
      assert vol.disk == was;
    }
  }

  lemma ReplacedIs(was: Image, now: Image, buff: seq<byte>, off: nat, t: nat, n: nat)
    requires off + 512 * n <= |buff| && |now| == |was|
    requires forall s :: 0 <= s < |was| ==>
               now[s] == if t <= s < t + n then buff[off + 512 * (s - t)..off + 512 * (s - t) + 512] else was[s]
    ensures now == Replaced(was, buff, off, t, n)
  {
  }

  /** Less than a sector goes to the window, which is written back and then stands for the sector. */
  method WindowPiece(vol: Volume, buff: array<byte>, off: nat, t: nat, n: nat) returns (ok: bool)
    requires vol.Valid() && off + n <= buff.Length && n < 512 && buff != vol.win
    modifies vol, vol.win
    ensures ok && |vol.disk| == |old(vol.disk)| && vol.disk == old(vol.Image())
    ensures vol.winSect == t && vol.winFlag && vol.win[..] == buff[off..off + n] + old(vol.win[..])[n..]
  {
    hide Geometry.Valid, FatVolume.Volume.Coherent, FatVolume.Volume.Image, FatVolume.Volume.Links,
         FatVolume.Volume.FatShown, Mirrored, Store;
    ok := vol.MoveWindow(0);
    if !ok { return; }
    Flushed(vol);
    vol.winSect := t;
    forall i | 0 <= i < n {
      vol.win[i] := buff[off + i];
    }
    vol.winFlag := true;
  }

  /** One round of the loop of f_write on such a file. No cluster is asked for; the bytes go to the sector behind the
      current one, whatever it holds. Whole sectors are written to the disk there, and fail only beyond its end;
      less than a sector ends up in the window, which then stands for that sector. */
  method NextRound(vol: Volume, fp: File, buff: array<byte>, off: nat, btw: nat) returns (ok: bool, wcnt: nat)
    requires vol.Valid() && Overrunning(fp, btw) && fp.fptr % 512 == 0 && fp.fsize <= fp.fptr
    requires 0 < btw < 0x1_0000 && off + btw <= buff.Length && buff != vol.win
    modifies vol, vol.win, fp`sectClust, fp`currSect
    ensures |vol.disk| == |old(vol.disk)| && wcnt <= btw && (ok && wcnt < btw ==> Overrunning(fp, btw - wcnt))
    ensures ok <==> btw < 512 || old(fp.currSect) + 1 + btw / 512 <= |vol.disk|
    ensures ok && btw >= 512 ==>
              var t := old(fp.currSect) + 1;
              && wcnt == 512 * (btw / 512) && fp.currSect == old(fp.currSect) + btw / 512
              && vol.disk == Replaced(old(vol.disk), buff[..], off, t, btw / 512)
              && vol.win[..] == old(vol.win[..]) && vol.winSect == old(vol.winSect) && vol.winFlag == old(vol.winFlag)
              && (vol.geo.dirBase <= t ==> vol.Valid())
    ensures ok && btw < 512 ==>
              && wcnt == btw && fp.currSect == old(fp.currSect) + 1 && vol.disk == old(vol.Image())
              && vol.winSect == fp.currSect && vol.winFlag
              && vol.win[..] == buff[off..off + btw] + old(vol.win[..])[btw..]
    ensures !ok ==> wcnt == 0 && vol.disk == old(vol.disk) && vol.win[..] == old(vol.win[..])
  {
    hide Geometry.Valid, FatVolume.Volume.Coherent, FatVolume.Volume.Image, FatVolume.Volume.Links,
         FatVolume.Volume.FatShown, FatVolume.Volume.Valid, Mirrored, Store, Replaced;
    fp.sectClust := (fp.sectClust + 255) % 256;
    fp.currSect := fp.currSect + 1;
    wcnt := 0;
    if btw >= 512 {
      var left := fp.sectClust;
      var cc := if btw / 512 > left then left else btw / 512;
      ok := DirectRun(vol, buff, off, fp.currSect, cc);
      if !ok { return; }
      fp.sectClust := fp.sectClust - (cc - 1);
      fp.currSect := fp.currSect + (cc - 1);
      wcnt := cc * 512;
    } else {
      ok := WindowPiece(vol, buff, off, fp.currSect, btw);
      wcnt := btw;
    }
  }

  /** A direct write behind the FATs keeps their copies equal. */
  lemma StillValid(vol: Volume, was: Image, t: nat, n: nat)
    requires vol.win.Length == 512 && vol.geo.Valid(|was|) && Mirrored(vol.geo, was) && |vol.disk| == |was|
    requires vol.geo.dirBase <= t && t + n <= |was| && vol.winSect < |was|
    requires vol.winFlag ==> vol.geo.fatBase <= vol.winSect && vol.geo.Home(vol.winSect) == vol.winSect
    requires vol.lastClust < 0x1_0000 && vol.freeClust < 0x1_0000
    requires forall s :: 0 <= s < |was| && !(t <= s < t + n) ==> vol.disk[s] == was[s]
    ensures vol.Valid()
  {
    hide Geometry.Valid, Mirrored, Store;
    AreasFit(vol.geo, |was|);
    var before := if vol.winFlag then Store(vol.geo, was, vol.winSect, vol.win[..]) else was;
    var after := if vol.winFlag then Store(vol.geo, vol.disk, vol.winSect, vol.win[..]) else vol.disk;
    vol.DirectImage(was, vol.disk, before, after, t, n);
  }

  /** The disk and the window after f_write of btw bytes: whole sectors are in run already, the rest is in the
      window. */
  ghost predicate Written(vol: Volume, buff: seq<byte>, btw: nat, t: nat, run: Image, ws: nat, wf: bool, w: seq<byte>)
    reads vol, vol.win
  {
    && btw <= |buff| && |w| == 512 && vol.geo.sectsFat > 0
    && if btw % 512 == 0 then vol.disk == run && vol.win[..] == w && vol.winSect == ws
       else && vol.winFlag && vol.winSect == t + btw / 512
            && vol.win[..] == buff[512 * (btw / 512)..btw] + w[btw % 512..]
            && vol.disk == if wf then Store(vol.geo, run, ws, w) else run
  }

  /** The same, given the disk before the call. */
  ghost predicate AllWritten(vol: Volume, buff: seq<byte>, btw: nat, t: nat, was: Image, ws: nat, wf: bool,
                             w: seq<byte>)
    reads vol, vol.win
  {
    btw <= |buff| && Written(vol, buff, btw, t, Replaced(was, buff, 0, t, btw / 512), ws, wf, w)
  }

  /** f_write on a stuck file. Unless the volume ends before, it reports success and counts all bytes into the file,
      whose chain cannot hold them: whole sectors go to the disk from the sector behind the current one on, and the
      rest to the window, after it has been written back. */
  method WriteStuck(vol: Volume, fp: File, buff: array<byte>, btw0: nat, ghost cs: seq<nat>, ghost c: seq<byte>)
    returns (res: FResult, bw: nat)
    requires Stuck(vol, fp, cs, c) && fp.fsize == fp.fptr == |c| < 0x1_0000_0000
    requires btw0 < 0x1_0000 && btw0 <= buff.Length && buff != vol.win
    requires vol.geo.dirBase <= fp.currSect + 1 || btw0 < 512 || btw0 % 512 == 0
    modifies vol, vol.win, fp`sectClust, fp`currSect, fp`fptr, fp`fsize, fp`written, fp`error
    ensures old(fp.error) ==> res == RwError && bw == 0
    ensures !old(fp.error) && !fp.canWrite ==> res == Denied && bw == 0
    ensures old(vol.Valid()) && |vol.disk| == |old(vol.disk)|
    ensures !old(fp.error) && fp.canWrite && |c| + btw0 >= 0x1_0000_0000 ==>
              res == Ok && bw == 0 && vol.disk == old(vol.disk) && vol.win[..] == old(vol.win[..])
    ensures !old(fp.error) && fp.canWrite && |c| + btw0 < 0x1_0000_0000 ==>
      var t, n := old(fp.currSect) + 1, btw0 / 512;
      if n > 0 && t + n > |vol.disk| then
        && res == RwError && bw == 0 && fp.error && fp.fsize == |c| && vol.disk == old(vol.disk)
      else
        && res == Ok && bw == btw0 && fp.fsize == fp.fptr == |c| + btw0
        && (btw0 > 0 ==> fp.fsize > 512 * Sectors(vol.geo, cs))
        && AllWritten(vol, buff[..], btw0, t, old(vol.disk), old(vol.winSect), old(vol.winFlag), old(vol.win[..]))
  {
    hide *;
    StuckFacts(vol, fp, cs, c);
    bw := 0;
    if fp.error { return RwError, 0; }
    if !fp.canWrite { return Denied, 0; }
    if (fp.fsize + btw0) % 0x1_0000_0000 < fp.fsize { return Ok, 0; }
    var ok;
    ok, bw := StuckLoop(vol, fp, buff, btw0, |c|);
    if !ok {
      fp.error := true;
      return RwError, bw;
    }
    if fp.fptr > fp.fsize { fp.fsize := fp.fptr; }
    fp.written := true;
    res := Ok;
  }

  /** Its loop: after the first round nothing can fail. */
  method StuckLoop(vol: Volume, fp: File, buff: array<byte>, btw0: nat, ghost size: nat) returns (ok: bool, bw: nat)
    requires vol.Valid() && fp.sectClust == 0 && fp.fsize == fp.fptr == size && size % 512 == 0
    requires btw0 < 0x1_0000 && btw0 <= buff.Length && buff != vol.win
    requires vol.geo.dirBase <= fp.currSect + 1 || btw0 < 512 || btw0 % 512 == 0
    modifies vol, vol.win, fp`sectClust, fp`currSect, fp`fptr
    ensures |vol.disk| == |old(vol.disk)|
    ensures ok <==> btw0 < 512 || old(fp.currSect) + 1 + btw0 / 512 <= |vol.disk|
    ensures !ok ==> bw == 0 && vol.disk == old(vol.disk)
    ensures ok ==> bw == btw0 && fp.fptr == size + btw0 && AllWritten(vol, buff[..], btw0, old(fp.currSect) + 1,
                     old(vol.disk), old(vol.winSect), old(vol.winFlag), old(vol.win[..]))
  {
    hide *;
    ghost var t := fp.currSect + 1;
    ghost var ws, wf, w := vol.winSect, vol.winFlag, vol.win[..];
    Begin(vol, fp, buff[..], btw0);
    var btw := btw0;
    bw := 0;
    while btw > 0
      invariant 0 <= btw <= btw0 && bw == btw0 - btw && fp.fptr == size + bw && fp.fsize == size
      invariant btw > 0 ==> fp.fptr % 512 == 0
      invariant Under(vol, fp, buff[..], btw0, btw, t, old(vol.disk), ws, wf, w)
      decreases btw
    {
      var wcnt;
      ok, wcnt := StuckRound(vol, fp, buff, btw0, btw, t, old(vol.disk), ws, wf, w);
      if !ok { return; }
      fp.fptr := fp.fptr + wcnt;
      bw := bw + wcnt;
      btw := btw - wcnt;
    }
    ok := true;
    Ended(vol, fp, buff[..], btw0, t, old(vol.disk), ws, wf, w);
  }

  /** The state in the middle of the call, with btw of btw0 bytes to go: nothing is written yet, or the whole sectors
      are, or everything is. */
  ghost predicate Under(vol: Volume, fp: File, buff: seq<byte>, btw0: nat, btw: nat, t: nat, was: Image,
                        ws: nat, wf: bool, w: seq<byte>)
    reads vol, vol.win, fp`sectClust, fp`currSect
  {
    && btw0 <= |buff| && btw0 < 0x1_0000 && |vol.disk| == |was| && |w| == 512 && vol.geo.sectsFat > 0
    && var run := Replaced(was, buff, 0, t, btw0 / 512);
    && (btw0 < 512 || t + btw0 / 512 <= |was| || btw == btw0)
    && (btw == btw0 || btw == btw0 % 512 || btw == 0)
    && (btw > 0 ==>
          && vol.Valid() && Overrunning(fp, btw) && (vol.geo.dirBase <= t || btw0 < 512 || btw0 % 512 == 0)
          && vol.winSect == ws && vol.winFlag == wf && vol.win[..] == w
          && fp.currSect + 1 == t + (btw0 - btw) / 512 && (btw0 - btw) % 512 == 0
          && vol.disk == if btw == btw0 then was else run)
    && (btw == 0 ==> Written(vol, buff, btw0, t, run, ws, wf, w))
  }

  lemma Begin(vol: Volume, fp: File, buff: seq<byte>, btw0: nat)
    requires vol.Valid() && fp.sectClust == 0 && btw0 <= |buff| && btw0 < 0x1_0000
    requires vol.geo.dirBase <= fp.currSect + 1 || btw0 < 512 || btw0 % 512 == 0
    ensures Under(vol, fp, buff, btw0, btw0, fp.currSect + 1, vol.disk, vol.winSect, vol.winFlag, vol.win[..])
  {
    hide Geometry.Valid, FatVolume.Volume.Coherent, FatVolume.Volume.Links, FatVolume.Volume.FatShown, Mirrored, Store,
         Replaced;
    NothingReplaced(vol.disk, buff, fp.currSect + 1);
    ImageOver(vol);
  }

  method StuckRound(vol: Volume, fp: File, buff: array<byte>, btw0: nat, btw: nat, ghost t: nat, ghost was: Image,
                    ghost ws: nat, ghost wf: bool, ghost w: seq<byte>) returns (ok: bool, wcnt: nat)
    requires 0 < btw <= btw0 && Under(vol, fp, buff[..], btw0, btw, t, was, ws, wf, w)
    requires fp.fptr % 512 == 0 && fp.fsize <= fp.fptr && buff != vol.win
    modifies vol, vol.win, fp`sectClust, fp`currSect
    ensures ok ==> 0 < wcnt <= btw && Under(vol, fp, buff[..], btw0, btw - wcnt, t, was, ws, wf, w)
    ensures ok && wcnt < btw ==> wcnt % 512 == 0
    ensures !ok ==> btw == btw0 >= 512 && t + btw0 / 512 > |was| && vol.disk == was
  {
    hide Geometry.Valid, FatVolume.Volume.Coherent, FatVolume.Volume.Links, FatVolume.Volume.FatShown, Mirrored, Store,
         Replaced, FatVolume.Volume.Valid, FatVolume.Volume.Image;
    NothingReplaced(was, buff[..], t);
    ImageOver(vol);
    ok, wcnt := NextRound(vol, fp, buff, btw0 - btw, btw);
  }

  lemma Ended(vol: Volume, fp: File, buff: seq<byte>, btw0: nat, t: nat, was: Image, ws: nat, wf: bool, w: seq<byte>)
    requires Under(vol, fp, buff, btw0, 0, t, was, ws, wf, w)
    ensures |vol.disk| == |was| && (btw0 < 512 || t + btw0 / 512 <= |was|)
    ensures AllWritten(vol, buff, btw0, t, was, ws, wf, w)
  {
    hide Replaced, Store, Geometry.Valid, FatVolume.Volume.Valid;
  }

  lemma ImageOver(vol: Volume)
    ensures vol.Valid() ==>
              vol.geo.sectsFat > 0 && |vol.win[..]| == 512
              && vol.Image() == if vol.winFlag then Store(vol.geo, vol.disk, vol.winSect, vol.win[..]) else vol.disk
  {
  }

  lemma NothingReplaced(disk: Image, buff: seq<byte>, t: nat)
    ensures Replaced(disk, buff, 0, t, 0) == disk
  {
  }

  lemma StuckFacts(vol: Volume, fp: File, cs: seq<nat>, c: seq<byte>)
    requires Stuck(vol, fp, cs, c)
    ensures vol.Valid() && InRange(vol.geo, cs) && |c| == 512 * Sectors(vol.geo, cs) && fp.sectClust == 0
    ensures |c| % 512 == 0
  {
    hide Geometry.Valid, FatVolume.Volume.Valid, FatVolume.Volume.Coherent, FatVolume.Volume.Image,
         FatVolume.Volume.Links, Holding, HasChain, FreeCount, Sectors, Mirrored, Store;
    WholeSectors(Sectors(vol.geo, cs));
  }

  lemma WholeSectors(k: nat)
    ensures 512 * k % 512 == 0
  {
  }

  lemma Flushed(vol: Volume)
    requires vol.Valid()
    ensures vol.winSect == 0 ==> !vol.winFlag
    ensures !vol.winFlag ==> vol.disk == vol.Image()
  {
    AreasFit(vol.geo, |vol.disk|);
  }

  /** Whose sector it is that the next write takes. */
  datatype Victim = Own(x: nat) | Another | BehindData | Unset

  ghost function Hit(vol: Volume, fp: File, cs: seq<nat>): Victim
    requires vol.Valid()
    reads vol, vol.win, fp`currClust
  {
    if cs == [] then Unset
    else if fp.currClust + 1 == vol.geo.maxClust then BehindData
    else if fp.currClust + 1 in cs then var x :| 0 <= x < |cs| && cs[x] == fp.currClust + 1; Own(x)
    else Another
  }

  /** With a chain, it is the first sector of the cluster behind the last one of the file: a sector of the file
      itself, or of a cluster that is occupied and not the file's, or the first sector behind the data area.
      Without one, the field has never been set. */
  lemma HitExactly(vol: Volume, fp: File, cs: seq<nat>, c: seq<byte>)
    requires Stuck(vol, fp, cs, c)
    ensures vol.Valid() && InRange(vol.geo, cs) && (|c| == 0 <==> cs == [])
    ensures match Hit(vol, fp, cs)
            case Own(x) => Times(x, vol.geo.sectsClust) < Sectors(vol.geo, cs)
                           && fp.currSect + 1 == FileSect(vol.geo, cs, Times(x, vol.geo.sectsClust))
            case Another => fp.currSect + 1 == vol.geo.Clust2Sect(fp.currClust + 1) > 0 && fp.currClust + 1 !in cs
                            && IsCluster(vol.Links(), fp.currClust + 1) && vol.Links()[fp.currClust + 1] != 0
            case BehindData => fp.currSect + 1 == vol.geo.dataBase + Times(vol.geo.maxClust - 2, vol.geo.sectsClust)
            case Unset => c == [] && fp.orgClust == 0
  {
    hide FatVolume.Volume.Image, FatVolume.Volume.Links, FatVolume.Volume.Coherent, Mirrored, Store, Holding, NoOnes;
    var g := vol.geo;
    FreeBounds(vol.Links(), |vol.Links()|);
    if cs == [] {
      assert Times(0, g.sectsClust) == 0;
    } else {
      LastCluster(g, cs, fp.currClust);
    }
    match Hit(vol, fp, cs)
    case Own(x) => OwnSector(g, cs, x);
    case Another =>
    case BehindData =>
    case Unset =>
  }

  lemma LastCluster(g: Geometry, cs: seq<nat>, last: nat)
    requires InRange(g, cs) && cs != [] && last == cs[|cs| - 1] && g.sectsClust > 0
    ensures g.DataCluster(last)
    ensures g.Clust2Sect(last) + g.sectsClust == g.dataBase + Times(last + 1 - 2, g.sectsClust)
    ensures Sectors(g, cs) > 0
  {
    assert Times(last + 1 - 2, g.sectsClust) == Times(last - 2, g.sectsClust) + g.sectsClust;
  }

  lemma OwnSector(g: Geometry, cs: seq<nat>, x: nat)
    requires InRange(g, cs) && x < |cs| && g.sectsClust > 0
    ensures Times(x, g.sectsClust) < Sectors(g, cs)
    ensures FileSect(g, cs, Times(x, g.sectsClust)) == g.Clust2Sect(cs[x])
  {
    hide Times, Quot, Rem, Geometry.Clust2Sect, InRange;
    QuotAt(x, 0, g.sectsClust);
    QuotBelow(Times(x, g.sectsClust), |cs|, g.sectsClust);
  }

  /** Where the sector is the file's own, its earlier bytes are gone. */
  lemma OwnOverwritten(g: Geometry, now: Image, cs: seq<nat>, x: nat, data: seq<byte>, i: nat)
    requires g.Valid(|now|) && InRange(g, cs) && x < |cs| && |data| >= 512 && i < 512
    requires Times(x, g.sectsClust) < Sectors(g, cs) && FileSect(g, cs, Times(x, g.sectsClust)) < |now|
    requires now[FileSect(g, cs, Times(x, g.sectsClust))] == data[..512]
    ensures FileByte(g, now, cs, 512 * Times(x, g.sectsClust) + i) == data[i]
  {
    hide Times, Quot, Rem, FileSect, InRange, Geometry.Valid, Sectors;
    var k := Times(x, g.sectsClust);
    assert (512 * k + i) / 512 == k && (512 * k + i) % 512 == i;
  }

  /** Where it is another cluster, some other chain of the volume loses its bytes. */
  lemma AnotherOwned(links: seq<nat>, chains: seq<seq<nat>>, k: nat, c: nat) returns (i: nat)
    requires Partition(links, chains) && k < |chains| && IsCluster(links, c) && links[c] != 0 && c !in chains[k]
    ensures i < |chains| && i != k && c in chains[i]
  {
    assert Owned(chains, c);
    i :| 0 <= i < |chains| && c in chains[i];
  }
}
