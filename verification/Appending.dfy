/** Sequential writing end to end: from an empty file over any number of writes to the bytes that a reader
    of the disk finds. */
module Appending {
  import opened Bytes
  import opened Layout
  import opened Chains
  import opened FatVolume
  import opened FileLayout
  import opened Files
  import opened Reading
  import opened Append
  import opened Sync

  /** A call on an open file. */
  datatype Step = Put(data: seq<byte>) | Flush(time: nat)

  function Data(step: Step): seq<byte> {
    if step.Put? then step.data else []
  }

  /** The bytes of all writes. */
  function Joined(steps: seq<Step>): seq<byte> {
    if steps == [] then [] else Joined(steps[..|steps| - 1]) + Data(steps[|steps| - 1])
  }

  lemma {:induction false} JoinedGrows(steps: seq<Step>, i: nat)
    requires i < |steps|
    ensures Joined(steps[..i + 1]) == Joined(steps[..i]) + Data(steps[i])
    ensures |Joined(steps[..i + 1])| <= |Joined(steps)|
    decreases |steps|
  {
    assert steps[..i + 1][..i] == steps[..i];
    if i + 1 < |steps| {
      var front := steps[..|steps| - 1];
      JoinedGrows(front, i);
      assert front[..i + 1] == steps[..i + 1] && front[..i] == steps[..i];
    } else {
      assert steps[..i + 1] == steps;
    }
  }

  /** The time that the directory entry has after a run: that of the first f_sync behind the last f_write, or none
      where that f_sync has still to come. */
  function Stamp(steps: seq<Step>): Option<nat>
    decreases |steps|
  {
    if steps == [] || steps[|steps| - 1].Put? then None
    else
      var before := Stamp(steps[..|steps| - 1]);
      if before.None? then Some(steps[|steps| - 1].time) else before
  }

  function Or(t: Option<nat>, time: nat): nat { if t.None? then time else t.value }

  /** A directory sector: in the fixed root directory or in an occupied cluster. */
  ghost predicate Occupied(g: Geometry, links: seq<nat>, s: nat) {
    || s < g.dataBase
    || exists d :: g.DataCluster(d) && d < |links| && links[d] != 0
                   && g.Clust2Sect(d) <= s < g.Clust2Sect(d) + g.sectsClust
  }

  /** Writing takes free clusters only, so an occupied sector outside the file stays outside it. */
  lemma OccupiedOff(g: Geometry, total: nat, a: Snap, b: Snap, s: nat)
    requires g.Valid(total) && Grew(g, a, b) && Occupied(g, a.links, s) && !OnChain(g, a.cs, s)
    ensures !OnChain(g, b.cs, s)
  {
    hide Geometry.Valid;
    if OnChain(g, b.cs, s) {
      var k :| 0 <= k < Sectors(g, b.cs) && FileSect(g, b.cs, k) == s;
      FileSectInData(g, total, b.cs, k);
      QuotBelow(k, |b.cs|, g.sectsClust);
      QuotBelow(k, |a.cs|, g.sectsClust);
      var q := Quot(k, g.sectsClust);
      if q < |a.cs| {
        SameFileSect(g, a.cs, b.cs, k);
      } else {
        var d :| g.DataCluster(d) && d < |a.links| && a.links[d] != 0
                 && g.Clust2Sect(d) <= s < g.Clust2Sect(d) + g.sectsClust;
        g.ClustersDisjoint(d, b.cs[q], s - g.Clust2Sect(d), Rem(k, g.sectsClust));
      }
    }
  }

  /** Other files keep their chain and their sectors. */
  lemma OthersKept(g: Geometry, total: nat, a: Snap, b: Snap, ds: seq<nat>)
    requires g.Valid(total) && Grew(g, a, b) && |a.links| == g.maxClust
    requires Chain(a.links, ds) && forall c :: c in ds ==> c !in a.cs
    ensures Chain(b.links, ds) && InRange(g, ds)
    ensures forall s :: 0 <= s < |a.img| && OnChain(g, ds, s) ==> b.img[s] == a.img[s]
  {
    hide Geometry.Valid, FreeCount;
    ChainOccupied(a.links, ds);
    SectsPositive(g, total);
    forall c | c in ds
      ensures c !in b.cs && b.links[c] == a.links[c]
    {
      forall j | 0 <= j < |b.cs|
        ensures b.cs[j] != c
      {
        if j < |a.cs| {
          assert b.cs[j] == a.cs[j];
        }
      }
    }
    forall i | 0 <= i < |ds|
      ensures b.links[ds[i]] == a.links[ds[i]]
    {
      assert ds[i] in ds;
    }
    forall s | 0 <= s < |a.img| && OnChain(g, ds, s)
      ensures b.img[s] == a.img[s]
    {
      var k :| 0 <= k < Sectors(g, ds) && FileSect(g, ds, k) == s;
      FileSectInData(g, total, ds, k);
      QuotBelow(k, |ds|, g.sectsClust);
      var q := Quot(k, g.sectsClust);
      assert ds[q] in ds;
      if OnChain(g, a.cs, s) {
        var j :| 0 <= j < Sectors(g, a.cs) && FileSect(g, a.cs, j) == s;
        QuotBelow(j, |a.cs|, g.sectsClust);
        g.ClustersDisjoint(ds[q], a.cs[Quot(j, g.sectsClust)], Rem(k, g.sectsClust), Rem(j, g.sectsClust));
      }
      InCluster(g, ds, k);
      OccupiedOff(g, total, a, b, s);
    }
  }

  lemma SectsPositive(g: Geometry, total: nat)
    requires g.Valid(total)
    ensures g.sectsClust > 0
  {
  }

  lemma InCluster(g: Geometry, ds: seq<nat>, k: nat)
    requires InRange(g, ds) && k < Sectors(g, ds)
    ensures Quot(k, g.sectsClust) < |ds|
    ensures var c := ds[Quot(k, g.sectsClust)];
            g.Clust2Sect(c) <= FileSect(g, ds, k) < g.Clust2Sect(c) + g.sectsClust
  {
    QuotBelow(k, |ds|, g.sectsClust);
  }

  /** A freshly created file, open for writing. */
  ghost predicate Empty(vol: Volume, fp: File)
    reads vol, vol.win, fp
    ensures Empty(vol, fp) ==> vol.Valid()
  {
    && vol.Valid() && vol.Coherent() && NoOnes(vol.Links())
    && fp.fptr == fp.fsize == fp.orgClust == 0 && fp.sectClust == 1 && !fp.error && fp.canWrite
  }

  lemma EmptyIsGrowing(vol: Volume, fp: File)
    requires Empty(vol, fp)
    ensures InRange(vol.geo, []) && Growing(vol, fp, [], [])
    ensures !exists s :: OnChain(vol.geo, [], s)
  {
  }

  /** One write of a piece that finds room. */
  method WritePiece(vol: Volume, fp: File, data: seq<byte>, ghost cs: seq<nat>, ghost c: seq<byte>)
    returns (ghost ds: seq<nat>)
    requires Growing(vol, fp, cs, c) && fp.fsize == fp.fptr == |c| && !fp.error && fp.canWrite
    requires |data| < 0x1_0000 && |c| + |data| < 0x1_0000_0000 && |c| + |data| <= Room(vol, cs)
    modifies vol, vol.win, fp`orgClust, fp`sectClust, fp`currClust, fp`currSect, fp`fptr, fp`fsize, fp`written, fp`error
    ensures Growing(vol, fp, ds, c + data) && fp.fsize == fp.fptr == |c + data| && !fp.error && fp.written
    ensures old(vol.Valid()) && Grew(vol.geo, old(Now(vol, cs)), Now(vol, ds))
    ensures Room(vol, ds) == old(Room(vol, cs))
    ensures forall x :: x in cs ==> x < |old(vol.Links())| && old(vol.Links())[x] != 0
  {
    hide Geometry.Valid, FatVolume.Volume.Valid, FatVolume.Volume.Coherent, FatVolume.Volume.Image,
         FatVolume.Volume.Links, Growing, Stands, Stuck, FreeCount, Holding, HasChain, AtEnd;
    GrowingStands(vol, fp, cs, c);
    OccupiedChain(vol, fp, cs, c);
    var buff := new byte[|data|](i requires 0 <= i < |data| => data[i]);
    assert buff[..] == data == buff[..|data|];
    ghost var room;
    var res, bw;
    res, bw, ds, room := Write(vol, fp, buff, |data|, cs, c);
  }

  /** Calls that can be made one by one, and data that find room on the volume. */
  ghost predicate Fit(vol: Volume, steps: seq<Step>)
    requires vol.Valid()
    reads vol, vol.win
  {
    && (forall i :: 0 <= i < |steps| ==>
          if steps[i].Put? then |steps[i].data| < 0x1_0000 else steps[i].time < 0x1_0000_0000)
    && |Joined(steps)| < 0x1_0000_0000 && |Joined(steps)| <= Room(vol, [])
  }

  /** Every chain of the table of links is still there on the disk, with all its sectors except perhaps
      the one that holds the directory entry. */
  ghost predicate OthersOnDisk(g: Geometry, a: Snap, disk: Image, dirSect: nat)
    requires g.Valid(|disk|)
  {
    |disk| == |a.img| && forall ds :: Chain(a.links, ds) ==> OtherOnDisk(g, a, disk, dirSect, ds)
  }

  ghost predicate OtherOnDisk(g: Geometry, a: Snap, disk: Image, dirSect: nat, ds: seq<nat>)
    requires g.Valid(|disk|) && |disk| == |a.img|
  {
    && Chain(Links(g, disk), ds) && InRange(g, ds)
    && forall s :: 0 <= s < |disk| && OnChain(g, ds, s) && s != dirSect ==> disk[s] == a.img[s]
  }

  /** Only the entry at o, which belongs to the file, differs, and in it no more than f_sync changes. */
  ghost predicate EntryTouched(w: seq<byte>, v: seq<byte>, o: nat) {
    && |v| == |w| == 512 && o + 32 <= 512
    && (forall i :: 0 <= i < 512 && i != o + DIR_ATTR && !(o + DIR_WRT_TIME <= i < o + 32) ==> v[i] == w[i])
    && (v[o + DIR_ATTR] == w[o + DIR_ATTR] || v[o + DIR_ATTR] == Archived(w[o + DIR_ATTR]))
  }

  lemma EntryAgain(w: seq<byte>, x: seq<byte>, v: seq<byte>, o: nat, fsize: nat, org: nat, time: nat)
    requires EntryTouched(w, x, o) && EntryFilled(x, v, o, fsize, org, time)
    ensures EntryFilled(w, v, o, fsize, org, time) && EntryTouched(w, v, o)
  {
  }

  lemma EntrySame(w: seq<byte>, o: nat)
    requires |w| == 512 && o + 32 <= 512
    ensures EntryTouched(w, w, o)
  {
  }

  /** The volume at the start of a run, with the directory sector as it is now. */
  ghost function Masked(a: Snap, dirSect: nat, w: Sector): Snap
    requires dirSect < |a.img|
  {
    a.(img := a.img[dirSect := w])
  }

  /** A change of a sector outside the FATs and the file is no growth. */
  lemma GrewMasked(g: Geometry, a: Snap, b: Snap, s: nat, v: Sector, w: Sector)
    requires s < |a.img| && Grew(g, Masked(a, s, v), b)
    ensures |b.img| == |a.img| && Grew(g, Masked(a, s, w), Masked(b, s, w))
  {
    hide OnChain, InRange, FreeCount;
  }

  /** What the calls of a run keep, from the snapshot `before` on. */
  ghost predicate Running(vol: Volume, fp: File, before: Snap, cs: seq<nat>, c: seq<byte>)
    reads vol, vol.win, fp
    ensures Running(vol, fp, before, cs, c) ==>
              vol.Valid() && Growing(vol, fp, cs, c) && fp.dirSect < |before.img| == |vol.disk|
  {
    && Growing(vol, fp, cs, c) && fp.fsize == fp.fptr == |c| < 0x1_0000_0000 && !fp.error && fp.canWrite
    && before.cs == [] && |before.img| == |vol.disk| && |before.links| == vol.geo.maxClust
    && vol.geo.dirBase <= fp.dirSect < |vol.disk| && Occupied(vol.geo, before.links, fp.dirSect)
    && EntryTouched(before.img[fp.dirSect], vol.Image()[fp.dirSect], fp.dirOff)
    && Grew(vol.geo, Masked(before, fp.dirSect, vol.Image()[fp.dirSect]), Now(vol, cs))
  }

  /** Nothing is left to be written back, and the entry on the disk describes the file. */
  ghost predicate Synced(vol: Volume, fp: File, before: Snap, time: nat)
    requires vol.Valid() && fp.dirSect < |before.img| == |vol.disk|
    reads vol, vol.win, fp
  {
    && !vol.winFlag && vol.disk == vol.Image()
    && EntryFilled(before.img[fp.dirSect], vol.disk[fp.dirSect], fp.dirOff, fp.fsize, fp.orgClust, time)
  }

  /** The start of a run. */
  lemma RunStarts(vol: Volume, fp: File)
    requires Empty(vol, fp) && vol.geo.dirBase <= fp.dirSect < |vol.disk| && fp.dirOff + 32 <= 512
    requires Occupied(vol.geo, vol.Links(), fp.dirSect)
    ensures InRange(vol.geo, []) && Running(vol, fp, Now(vol, []), [], [])
  {
    hide FatVolume.Volume.Valid, FatVolume.Volume.Image, FatVolume.Volume.Links, FatVolume.Volume.Coherent, Growing,
         Grew, Occupied, EntryTouched;
    EmptyIsGrowing(vol, fp);
    GrewSame(vol, []);
    EntrySame(vol.Image()[fp.dirSect], fp.dirOff);
    assert Masked(Now(vol, []), fp.dirSect, vol.Image()[fp.dirSect]) == Now(vol, []);
  }

  /** The directory sector is none of the file. */
  lemma RunOff(vol: Volume, fp: File, before: Snap, cs: seq<nat>, c: seq<byte>)
    requires Running(vol, fp, before, cs, c)
    ensures !OnChain(vol.geo, cs, fp.dirSect) && EntryPlace(vol, fp, cs) && fp.orgClust < 0x1_0000
    ensures Stands(vol, fp, cs, c) && Room(vol, cs) == 512 * Times(FreeCount(before.links), vol.geo.sectsClust)
  {
    hide FatVolume.Volume.Coherent, FatVolume.Volume.Image, FatVolume.Volume.Links, Occupied, Holding, FileSect, Times,
         FreeCount;
    GrowingStands(vol, fp, cs, c);
    SectsPositive(vol.geo, |vol.disk|);
    NothingOnEmpty(vol.geo, fp.dirSect);
    OccupiedOff(vol.geo, |vol.disk|, Masked(before, fp.dirSect, vol.Image()[fp.dirSect]), Now(vol, cs), fp.dirSect);
  }

  /** One f_write of a run. */
  method RunPut(vol: Volume, fp: File, data: seq<byte>, ghost before: Snap, ghost cs: seq<nat>, ghost c: seq<byte>)
    returns (ghost ds: seq<nat>)
    requires Running(vol, fp, before, cs, c) && |data| < 0x1_0000 && |c + data| < 0x1_0000_0000
    requires |c + data| <= 512 * Times(FreeCount(before.links), vol.geo.sectsClust)
    modifies vol, vol.win, fp`orgClust, fp`sectClust, fp`currClust, fp`currSect, fp`fptr, fp`fsize, fp`written, fp`error
    ensures Running(vol, fp, before, ds, c + data) && fp.written
  {
    hide Geometry.Valid, FatVolume.Volume.Valid, FatVolume.Volume.Coherent, FatVolume.Volume.Image,
         FatVolume.Volume.Links, Growing, Grew, FreeCount, Room, Occupied, EntryTouched, OnChain, Stands, Times,
         EntryPlace;
    RunOff(vol, fp, before, cs, c);
    ghost var mid, w := Now(vol, cs), vol.Image()[fp.dirSect];
    ds := WritePiece(vol, fp, data, cs, c);
    GrewSize(vol.geo, mid, Now(vol, ds));
    GrewTrans(vol.geo, Masked(before, fp.dirSect, w), mid, Now(vol, ds));
    StillMasked(vol.geo, |vol.disk|, before, mid, Now(vol, ds), fp.dirSect, w);
  }

  /** Growing does not touch the directory sector. */
  lemma StillMasked(g: Geometry, total: nat, before: Snap, mid: Snap, now: Snap, s: nat, w: Sector)
    requires g.Valid(total) && g.dirBase <= s < |before.img| == total && before.cs == [] && Occupied(g, before.links, s)
    requires Grew(g, mid, now) && Grew(g, Masked(before, s, w), now) && s < |mid.img| && mid.img[s] == w
    ensures s < |now.img| && now.img[s] == w
  {
    hide OnChain, InRange, FreeCount, Occupied;
    SectsPositive(g, total);
    NothingOnEmpty(g, s);
    OccupiedOff(g, total, Masked(before, s, w), now, s);
  }

  lemma NothingOnEmpty(g: Geometry, s: nat)
    requires g.sectsClust > 0
    ensures InRange(g, []) && !OnChain(g, [], s)
  {
  }

  /** One f_sync of a run. */
  method RunFlush(vol: Volume, fp: File, time: nat, ghost before: Snap, ghost cs: seq<nat>, ghost c: seq<byte>)
    requires Running(vol, fp, before, cs, c) && time < 0x1_0000_0000
    modifies vol, vol.win, fp`written
    ensures Running(vol, fp, before, cs, c) && !fp.written
    ensures if old(fp.written) then Synced(vol, fp, before, time) else unchanged(vol) && unchanged(vol.win)
  {
    hide Geometry.Valid, FatVolume.Volume.Valid, FatVolume.Volume.Coherent, FatVolume.Volume.Image,
         FatVolume.Volume.Links, Growing, Grew, FreeCount, Room, Occupied, EntryTouched, OnChain, Stands, Times,
         EntryPlace, EntryFilled, Holding, StoredFile;
    RunOff(vol, fp, before, cs, c);
    ghost var mid, w := Now(vol, cs), vol.Image()[fp.dirSect];
    var _ := FSync(vol, fp, time, cs, c);
    ghost var v := vol.Image()[fp.dirSect];
    GrewMasked(vol.geo, before, mid, fp.dirSect, w, v);
    assert Now(vol, cs) == Masked(mid, fp.dirSect, v);
    if old(fp.written) {
      EntryAgain(before.img[fp.dirSect], w, v, fp.dirOff, fp.fsize, fp.orgClust, time);
    }
  }

  /** The calls of a run. */
  method RunSteps(vol: Volume, fp: File, steps: seq<Step>) returns (ghost cs: seq<nat>, ghost t: nat)
    requires Empty(vol, fp) && steps != [] && steps[0].Put? && Fit(vol, steps)
    requires vol.geo.dirBase <= fp.dirSect < |vol.disk| && fp.dirOff + 32 <= 512
    requires Occupied(vol.geo, vol.Links(), fp.dirSect)
    modifies vol, vol.win, fp`orgClust, fp`sectClust, fp`currClust, fp`currSect, fp`fptr, fp`fsize, fp`written, fp`error
    ensures old(vol.Valid()) && Running(vol, fp, old(Now(vol, [])), cs, Joined(steps))
    ensures fp.written || Synced(vol, fp, old(Now(vol, [])), t)
    ensures Stamp(steps) == if fp.written then None else Some(t)
  {
    hide Geometry.Valid, FatVolume.Volume.Valid, FatVolume.Volume.Coherent, FatVolume.Volume.Image,
         FatVolume.Volume.Links, Growing, Grew, FreeCount, Occupied, Running, Synced, Times, Data, Joined, Stamp;
    cs, t := [], 0;
    RunStarts(vol, fp);
    ghost var before := Now(vol, cs);
    JoinedNothing(steps);
    var i := 0;
    while i < |steps|
      invariant 0 <= i <= |steps| && Running(vol, fp, before, cs, Joined(steps[..i]))
      invariant i > 0 ==> fp.written || Synced(vol, fp, before, t)
      invariant i > 0 ==> Stamp(steps[..i]) == if fp.written then None else Some(t)
    {
      JoinedGrows(steps, i);
      StampGrows(steps, i);
      DataIs(steps[i], Joined(steps[..i]));
      match steps[i] {
        case Put(data) =>
          cs := RunPut(vol, fp, data, before, cs, Joined(steps[..i]));
        case Flush(time) =>
          t := if fp.written then time else t;
          RunFlush(vol, fp, time, before, cs, Joined(steps[..i]));
      }
      i := i + 1;
    }
    assert steps[..|steps|] == steps;
  }

  lemma StampGrows(steps: seq<Step>, i: nat)
    requires i < |steps|
    ensures Stamp(steps[..i + 1])
         == if steps[i].Put? then None else Some(Or(Stamp(steps[..i]), steps[i].time))
  {
    assert steps[..i + 1][..i] == steps[..i];
  }

  lemma JoinedNothing(steps: seq<Step>)
    ensures Joined(steps[..0]) == []
  {
  }

  lemma DataIs(step: Step, c: seq<byte>)
    ensures step.Put? ==> Data(step) == step.data
    ensures step.Flush? ==> c + Data(step) == c
  {
  }

  /** Any sequence of f_write and f_sync calls of any sizes on an empty file, followed by f_sync: if the volume has
      room for all of it, the directory entry on the disk names exactly the concatenation of the data, all FAT
      copies agree, and every other file keeps its chain and its sectors. Outside the FATs and the new chain
      only the fields of that one entry change, and outside the chain no link. Reading and further writing can
      go on from there. */
  method WriteAndSync(vol: Volume, fp: File, steps: seq<Step>, time: nat) returns (ghost cs: seq<nat>, ghost t: nat)
    requires Empty(vol, fp) && steps != [] && steps[0].Put? && Fit(vol, steps) && time < 0x1_0000_0000
    requires vol.geo.dirBase <= fp.dirSect < |vol.disk| && fp.dirOff + 32 <= 512
    requires Occupied(vol.geo, vol.Links(), fp.dirSect)
    modifies vol, vol.win, fp`orgClust, fp`sectClust, fp`currClust, fp`currSect, fp`fptr, fp`fsize, fp`written, fp`error
    ensures vol.Valid() && !vol.winFlag && vol.Coherent() && Mirrored(vol.geo, vol.disk) && fp.dirSect < |vol.disk|
    ensures vol.disk == vol.Image() && fp.fsize == |Joined(steps)| && !fp.error
    ensures StoredFile(vol.geo, vol.disk, fp.dirSect, fp.dirOff) == Joined(steps)
    ensures Growing(vol, fp, cs, Joined(steps)) && HasChain(vol, fp, cs) && NoOnes(vol.Links())
    ensures Holding(vol.geo, vol.Image(), cs, Joined(steps))
    ensures |vol.disk| == |old(vol.Image())| && OthersOnDisk(vol.geo, old(Now(vol, [])), vol.disk, fp.dirSect)
    ensures t == Or(Stamp(steps), time)
    ensures EntryFilled(old(vol.Image())[fp.dirSect], vol.disk[fp.dirSect], fp.dirOff, fp.fsize, fp.orgClust, t)
    ensures EntryBytes(old(vol.Image())[fp.dirSect], vol.disk[fp.dirSect], fp.dirOff, fp.fsize, fp.orgClust, t)
    ensures OnlyHere(vol.geo, old(Now(vol, [])), Snap(vol.Links(), vol.disk, cs), fp.dirSect)
  {
    hide Geometry.Valid, FatVolume.Volume.Valid, FatVolume.Volume.Coherent, FatVolume.Volume.Image,
         FatVolume.Volume.Links, Growing, Grew, Occupied, OthersOnDisk, StoredFile, EntryFilled, EntryBytes, OnChain,
         Holding, OnlyHere, Stamp, NoOnes, Chain, Mirrored, Running, HasChain, Fit;
    ghost var before, c := Now(vol, []), Joined(steps);
    cs, t := RunSteps(vol, fp, steps);
    t := if fp.written then time else t;
    RunFlush(vol, fp, time, before, cs, c);
    RunEnds(vol, fp, before, cs, c, t);
    FilledBytes(before.img[fp.dirSect], vol.disk[fp.dirSect], fp.dirOff, fp.fsize, fp.orgClust, t);
  }

  /** What a run leaves. */
  lemma RunEnds(vol: Volume, fp: File, before: Snap, cs: seq<nat>, c: seq<byte>, t: nat)
    requires Running(vol, fp, before, cs, c) && Synced(vol, fp, before, t)
    ensures vol.Coherent() && Mirrored(vol.geo, vol.disk) && fp.fsize == |c| && !fp.error
    ensures fp.dirOff + 32 <= 512 && StoredFile(vol.geo, vol.disk, fp.dirSect, fp.dirOff) == c
    ensures HasChain(vol, fp, cs) && NoOnes(vol.Links()) && InRange(vol.geo, cs) && Holding(vol.geo, vol.Image(), cs, c)
    ensures OthersOnDisk(vol.geo, before, vol.disk, fp.dirSect)
    ensures OnlyHere(vol.geo, before, Snap(vol.Links(), vol.disk, cs), fp.dirSect)
  {
    hide Geometry.Valid, FatVolume.Volume.Valid, FatVolume.Volume.Coherent, FatVolume.Volume.Image,
         FatVolume.Volume.Links, Grew, Occupied, OthersOnDisk, StoredFile, OnChain, OnlyHere, Chain, Mirrored, AtEnd;
    RunOff(vol, fp, before, cs, c);
    ghost var w := vol.Image()[fp.dirSect];
    ghost var masked, grown := Masked(before, fp.dirSect, w), Now(vol, cs);
    SyncedFile(vol, fp, cs, c, before.img[fp.dirSect], t);
    MirroredDisk(vol);
    OthersAfter(vol, fp, masked, grown);
    HereAfter(vol.geo, masked, grown, vol.disk, fp.dirSect);
    Unmasked(vol.geo, before, vol.disk, Snap(vol.Links(), vol.disk, cs), fp.dirSect, w);
  }

  lemma Unmasked(g: Geometry, before: Snap, disk: Image, b: Snap, s: nat, w: Sector)
    requires g.Valid(|disk|) && s < |before.img|
    ensures OthersOnDisk(g, Masked(before, s, w), disk, s) ==> OthersOnDisk(g, before, disk, s)
    ensures OnlyHere(g, Masked(before, s, w), b, s) ==> OnlyHere(g, before, b, s)
  {
    hide Geometry.Valid, OnChain, Chain, InRange, Layout.Links;
    if OthersOnDisk(g, Masked(before, s, w), disk, s) {
      forall ds | Chain(before.links, ds)
        ensures OtherOnDisk(g, before, disk, s, ds)
      {
        assert OtherOnDisk(g, Masked(before, s, w), disk, s, ds);
      }
    }
  }

  /** What writing a new file with chain b.cs may change: the sectors of the chain, the FATs, and one directory
      sector; and of the links those of the chain. */
  ghost predicate OnlyHere(g: Geometry, a: Snap, b: Snap, dirSect: nat) {
    && |b.img| == |a.img| && |b.links| == |a.links| && InRange(g, b.cs)
    && (forall s :: 0 <= s < |a.img| && !g.InFat(s) && !OnChain(g, b.cs, s) && s != dirSect ==> b.img[s] == a.img[s])
    && (forall c :: IsCluster(a.links, c) && c !in b.cs ==> b.links[c] == a.links[c])
    && (forall c :: c in b.cs ==> IsCluster(a.links, c) && a.links[c] == 0)
  }

  lemma HereAfter(g: Geometry, before: Snap, grown: Snap, disk: Image, dirSect: nat)
    requires before.cs == [] && Grew(g, before, grown) && |disk| == |grown.img|
    requires forall s :: 0 <= s < |disk| && s != dirSect ==> disk[s] == grown.img[s]
    requires g.dirBase <= dirSect < |disk| && !OnChain(g, grown.cs, dirSect)
    ensures OnlyHere(g, before, Snap(grown.links, disk, grown.cs), dirSect)
    ensures grown.img[dirSect] == before.img[dirSect]
  {
    hide OnChain, InRange, FreeCount;
    forall c | c in grown.cs
      ensures IsCluster(before.links, c) && before.links[c] == 0
    {
      var j :| 0 <= j < |grown.cs| && grown.cs[j] == c;
    }
  }

  lemma GrewSize(g: Geometry, a: Snap, b: Snap)
    requires Grew(g, a, b)
    ensures |b.img| == |a.img|
  {
  }

  lemma MirroredDisk(vol: Volume)
    requires vol.Valid()
    ensures Mirrored(vol.geo, vol.disk)
  {
  }

  lemma OthersAfter(vol: Volume, fp: File, before: Snap, grown: Snap)
    requires vol.Valid() && vol.disk == vol.Image() && before.cs == [] && |before.links| == vol.geo.maxClust
    requires Grew(vol.geo, before, grown) && grown.links == vol.Links() && |grown.img| == |vol.disk|
    requires forall s :: 0 <= s < |vol.disk| && s != fp.dirSect ==> vol.disk[s] == grown.img[s]
    ensures OthersOnDisk(vol.geo, before, vol.disk, fp.dirSect)
  {
    FlushedLinks(vol);
    hide FatVolume.Volume.Valid, FatVolume.Volume.Image, FatVolume.Volume.Links, OnChain, Chain, InRange,
         Geometry.Valid;
    forall ds | Chain(before.links, ds)
      ensures OtherOnDisk(vol.geo, before, vol.disk, fp.dirSect, ds)
    {
      OthersKept(vol.geo, |vol.disk|, before, grown, ds);
    }
  }

  lemma FlushedLinks(vol: Volume)
    requires vol.Valid() && vol.disk == vol.Image()
    ensures Layout.Links(vol.geo, vol.disk) == vol.Links()
  {
  }
}
