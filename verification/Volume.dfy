/** The mounted volume: the FATFS object, its one-sector window and the disk behind it. */
module FatVolume {
  import opened Bytes
  import opened PackedFat
  import opened Layout

  class Volume {
    const geo: Geometry
    const win: array<byte>
    var disk: Image
    var winSect: nat
    var winFlag: bool
    var lastClust: nat
    var freeClust: nat

    /** What mounting leaves behind: nothing cached, the number of free clusters unknown. */
    constructor (geo: Geometry, disk: Image)
      requires geo.Valid(|disk|) && Mirrored(geo, disk)
      ensures Valid() && Coherent() && !winFlag && winSect == 0 && fresh(win)
      ensures this.geo == geo && Image() == disk && Links() == Layout.Links(geo, disk)
      ensures lastClust == 0 && freeClust == 0xFFFF
    {
      this.geo, this.disk := geo, disk;
      win := new byte[512];
      winSect, winFlag := 0, false;
      lastClust, freeClust := 0, 0xFFFF;
    }

    /** Only sectors that have one home (a primary FAT, directory or data sector) become dirty, and all
        FAT copies on the disk agree. */
    ghost predicate Valid()
      reads this, win
      ensures Valid() ==> geo.Valid(|disk|) && win.Length == 512 && winSect < |disk|
      ensures Valid() ==> lastClust < 0x1_0000 && freeClust < 0x1_0000
    {
      && win.Length == 512
      && geo.Valid(|disk|)
      && winSect < |disk|
      && (winFlag ==> geo.fatBase <= winSect && geo.Home(winSect) == winSect)
      && Mirrored(geo, disk)
      && lastClust < 0x1_0000 && freeClust < 0x1_0000
    }

    /** A clean window shows what the disk holds. Sector 0 means that nothing is cached yet. */
    ghost predicate Coherent()
      requires Valid()
      reads this, win
      ensures Coherent() ==> FatShown()
    {
      winFlag || winSect == 0 || win[..] == disk[winSect]
    }

    /** A clean window on a FAT sector shows what the disk holds; on another sector it may be stale, because
        whole-sector transfers bypass it. */
    ghost predicate FatShown()
      requires Valid()
      reads this, win
    {
      winFlag || !geo.InFat(winSect) || win[..] == disk[winSect]
    }

    /** What the disk holds once the window is written back: the logical content of the volume. */
    ghost function Image(): (r: Bytes.Image)
      requires Valid()
      reads this, win
      ensures |r| == |disk|
    {
      if winFlag then Store(geo, disk, winSect, win[..]) else disk
    }

    /** The content as transfers through the window see it. */
    ghost function Shown(): (r: Bytes.Image)
      requires Valid()
      reads this, win
      ensures |r| == |disk|
    {
      if winSect == 0 then Image() else Image()[winSect := win[..]]
    }

    /** Seen through a coherent window, the content is what it is. */
    lemma ShownIsImage()
      requires Valid()
      ensures Coherent() <==> Shown() == Image()
    {
      if winFlag {
        assert Image()[winSect] == win[..];
      }
    }

    /** The window on a FAT sector. */
    lemma FatInWindow()
      requires Valid() && FatShown() && geo.InFat(winSect)
      ensures Coherent() && win[..] == Image()[winSect]
    {
      AreasFit(geo, |disk|);
    }

    /** disk_read: sectors beyond the end of the medium cannot be read. */
    method DiskRead(buf: array<byte>, off: nat, sector: nat, count: nat) returns (ok: bool)
      requires off + 512 * count <= buf.Length
      modifies buf
      ensures ok == (sector + count <= |disk|)
      ensures ok ==> forall i :: off <= i < off + 512 * count ==>
                                   buf[i] == disk[sector + (i - off) / 512][(i - off) % 512]
      ensures forall i :: 0 <= i < buf.Length && !(ok && off <= i < off + 512 * count) ==> buf[i] == old(buf[i])
    {
      ok := sector + count <= |disk|;
      if ok {
        forall i | off <= i < off + 512 * count {
          buf[i] := disk[sector + (i - off) / 512][(i - off) % 512];
        }
      }
    }

    /** disk_write: sectors beyond the end of the medium cannot be written. */
    method DiskWrite(buf: array<byte>, off: nat, sector: nat, count: nat) returns (ok: bool)
      requires off + 512 * count <= buf.Length
      modifies `disk
      ensures |disk| == old(|disk|)
      ensures ok == (sector + count <= |disk|)
      ensures forall s :: 0 <= s < |disk| ==>
                disk[s] == if ok && sector <= s < sector + count
                           then buf[off + 512 * (s - sector)..off + 512 * (s - sector) + 512] else old(disk)[s]
    {
      ok := sector + count <= |disk|;
      if ok {
        for k := 0 to count
          invariant |disk| == old(|disk|)
          invariant forall s :: 0 <= s < |disk| ==>
                      disk[s] == if sector <= s < sector + k
                                 then buf[off + 512 * (s - sector)..off + 512 * (s - sector) + 512] else old(disk)[s]
        {
          disk := disk[sector + k := buf[off + 512 * k..off + 512 * k + 512]];
        }
      }
    }

    /** The copies that the disk must hold when the sectors up to `upto` that mirror s hold w. */
    ghost predicate StoredUpTo(now: Bytes.Image, was: Bytes.Image, s: nat, upto: nat, w: Sector)
      requires geo.sectsFat > 0
      ensures StoredUpTo(now, was, s, upto, w) ==> |now| == |was|
    {
      && |now| == |was|
      && forall i :: 0 <= i < |now| ==> now[i] == if geo.Home(i) == s && i <= upto then w else was[i]
    }

    /** The loop of move_window that repeats a written FAT sector in every FAT copy. */
    method WriteCopies(ghost was: Bytes.Image)
      requires win.Length == 512 && geo.Valid(|disk|)
      requires geo.fatBase <= winSect < geo.fatBase + geo.sectsFat && geo.Home(winSect) == winSect
      requires StoredUpTo(disk, was, winSect, winSect, win[..])
      modifies `disk
      ensures disk == Store(geo, was, winSect, win[..])
    {
      hide Geometry.Home, Store, Mirrored, StoredUpTo;
      var wsect: nat, n := winSect, geo.nFats;
      AreasFit(geo, |disk|);
      while n >= 2
        invariant 1 <= n <= geo.nFats
        invariant geo.InFat(wsect) && geo.Home(wsect) == winSect
        invariant CopiesLeft(wsect, n)
        invariant StoredUpTo(disk, was, winSect, wsect, win[..])
      {
        CopyStep(wsect, n);
        StoredNext(disk, was, winSect, wsect, win[..]);
        wsect := wsect + geo.sectsFat;
        ghost var now := disk;
        var _ := DiskWrite(win, 0, wsect, 1);
        assert disk == now[wsect := win[..]] by { assert win[0..512] == win[..]; }
        n := n - 1;
      }
      CopyStep(wsect, n);
      StoredAll(disk, was, winSect, wsect, win[..]);
    }

    /** The copy at wsect is followed by n - 1 more. */
    ghost predicate CopiesLeft(wsect: nat, n: nat)
      reads this`winSect
    {
      wsect + Times(n, geo.sectsFat) == winSect + Times(geo.nFats, geo.sectsFat)
    }

    lemma CopyStep(wsect: nat, n: nat)
      requires 1 <= n && CopiesLeft(wsect, n) && geo.InFat(wsect)
      requires geo.dirBase == geo.fatBase + Times(geo.nFats, geo.sectsFat)
      requires geo.fatBase <= winSect < geo.fatBase + geo.sectsFat
      ensures n >= 2 ==> geo.InFat(wsect + geo.sectsFat)
      ensures n == 1 ==> geo.dirBase <= wsect + geo.sectsFat
      ensures CopiesLeft(wsect + geo.sectsFat, n - 1)
    {
      TimesMono(if n == 1 then 0 else 1, n - 1, geo.sectsFat);
      assert Times(1, geo.sectsFat) == Times(0, geo.sectsFat) + geo.sectsFat;
    }

    /** The write-back of move_window: the cached sector goes to its place on the disk and, when it
        belongs to the FAT, to every FAT copy. */
    method WriteBack() returns (ok: bool)
      requires Valid() && winFlag
      modifies `disk, `winFlag
      ensures ok && Valid() && !winFlag
      ensures disk == old(Image())
    {
      ghost var was := disk;
      ok := DiskWrite(win, 0, winSect, 1);
      if !ok {
        return;
      }
      winFlag := false;
      assert win[0..512] == win[..];
      OnlyHomeBelow(winSect);
      StoreKeepsMirrors(geo, was, winSect, win[..]);
      if winSect < geo.fatBase + geo.sectsFat {
        WriteCopies(was);
      }
      assert disk == Store(geo, was, winSect, win[..]);
    }

    lemma OnlyHomeBelow(s: nat)
      requires geo.sectsFat > 0 && geo.Home(s) == s
      ensures forall i: nat :: geo.Home(i) == s && (i <= s || !geo.InFat(s)) ==> i == s
    {
      forall i: nat | geo.Home(i) == s && i < s
        ensures false
      {
        geo.HomeFacts(i);
        geo.HomeFacts(s);
        if geo.InFat(i) {
          geo.HomeGap(s, i, s);
        }
      }
      forall i: nat | geo.Home(i) == s && !geo.InFat(s)
        ensures i == s
      {
        geo.HomeFacts(i);
      }
    }

    /** Writing the next copy. */
    lemma StoredNext(now: Bytes.Image, was: Bytes.Image, s: nat, upto: nat, w: Sector)
      requires geo.sectsFat > 0 && geo.InFat(upto) && geo.InFat(upto + geo.sectsFat)
      requires geo.Home(upto) == s && StoredUpTo(now, was, s, upto, w)
      requires upto + geo.sectsFat < |now|
      ensures geo.Home(upto + geo.sectsFat) == s
      ensures StoredUpTo(now[upto + geo.sectsFat := w], was, s, upto + geo.sectsFat, w)
    {
      forall i: nat | geo.Home(i) == s && upto < i < upto + geo.sectsFat
        ensures false
      {
        geo.HomeFacts(i);
        geo.HomeGap(s, upto, i);
      }
    }

    /** No copy is missing once there is no room for another one. */
    lemma StoredAll(now: Bytes.Image, was: Bytes.Image, s: nat, upto: nat, w: Sector)
      requires geo.sectsFat > 0 && geo.InFat(upto) && geo.dirBase <= upto + geo.sectsFat
      requires geo.Home(upto) == s && StoredUpTo(now, was, s, upto, w)
      ensures now == Store(geo, was, s, w)
    {
      forall i: nat | geo.Home(i) == s && upto < i
        ensures false
      {
        geo.HomeFacts(i);
        geo.HomeFacts(upto);
        geo.HomeGap(s, upto, i);
      }
    }

    /** move_window: bring a sector into the window, writing a dirty window back first; sector 0 only
        writes back. The logical content never changes. */
    method MoveWindow(sector: nat) returns (ok: bool)
      requires Valid()
      modifies this, win
      ensures Valid()
      ensures ok == (sector < |disk|)
      ensures Image() == old(Image()) && Links() == old(Links())
      ensures lastClust == old(lastClust) && freeClust == old(freeClust)
      ensures sector == old(winSect) ==>
                disk == old(disk) && winFlag == old(winFlag) && winSect == old(winSect) && win[..] == old(win[..])
      ensures sector != old(winSect) ==> !winFlag
      ensures sector != old(winSect) && 0 < sector && ok ==> winSect == sector && win[..] == Image()[sector]
      ensures sector != old(winSect) && !(0 < sector && ok) ==> winSect == old(winSect) && win[..] == old(win[..])
      ensures old(Coherent()) ==> Coherent() && (winSect == 0 || win[..] == Image()[winSect])
      ensures old(FatShown()) ==> FatShown()
    {
      AreasFit(geo, |disk|);
      ok := true;
      if winSect != sector {
        if winFlag {
          var done := WriteBack();
          if !done {
            return false;
          }
        }
        if sector != 0 {
          var done := DiskRead(win, 0, sector, 1);
          if !done {
            return false;
          }
          assert win[..] == disk[sector];
          winSect := sector;
        }
      }
    }

    /** A store through a pointer into the window, and the dirty flag that follows it. */
    method Poke(o: nat, v: byte)
      requires Valid() && o < 512 && geo.fatBase <= winSect && geo.Home(winSect) == winSect
      modifies win, `winFlag
      ensures Valid() && winFlag && Coherent()
      ensures win[..] == old(win[..])[o := v]
      ensures Image() == Store(geo, old(Image()), winSect, win[..])
    {
      win[o] := v;
      winFlag := true;
      assert Image() == Store(geo, old(Image()), winSect, win[..]);
    }

    ghost function Links(): (r: seq<nat>)
      requires Valid()
      reads this, win
      ensures |r| == geo.maxClust
      ensures forall c :: 0 <= c < |r| ==> r[c] < LinkLimit(geo.fsType)
    {
      Layout.Links(geo, Image())
    }

    /** move_window to the primary FAT sector that holds byte j of the FAT. */
    method MoveToFat(j: nat) returns (ok: bool)
      requires Valid() && FatShown() && j < 512 * geo.sectsFat
      modifies this, win
      ensures ok && Valid() && Coherent()
      ensures Image() == old(Image())
      ensures lastClust == old(lastClust) && freeClust == old(freeClust)
      ensures winSect == geo.fatBase + j / 512 && geo.InFat(winSect)
      ensures win[..] == Image()[winSect]
      ensures FatBytes(geo, Image())[j] == win[j % 512]
      ensures j % 512 < 511 ==> FatBytes(geo, Image())[j + 1] == win[j % 512 + 1]
      ensures winFlag ==> old(winFlag)
    {
      AreasFit(geo, |disk|);
      ok := MoveWindow(geo.fatBase + j / 512);
      FatInWindow();
    }

    /** The FAT12 case of get_cluster: a link may straddle two sectors, and reading it may write the
        window back in between. */
    method GetCluster12(clust: nat) returns (r: nat)
      requires Valid() && FatShown() && geo.DataCluster(clust) && geo.fsType.Fat12?
      modifies this, win
      ensures Valid() && Coherent()
      ensures Image() == old(Image())
      ensures lastClust == old(lastClust) && freeClust == old(freeClust)
      ensures r == Links()[clust]
      ensures geo.InFat(winSect)
      ensures winFlag ==> old(winFlag)
    {
      hide Geometry.Home, Geometry.Valid, Store, Mirrored, Unpack, FatBytes, Image, Coherent, Valid, Links,
           Layout.Links, FatShown;
      EntryFits(geo, |disk|, clust);
      r := 1;
      var bc := WordIndex12(clust);
      var ok := MoveToFat(bc);
      if !ok { return; }
      var lo := win[bc % 512];
      bc := bc + 1;
      ok := MoveToFat(bc);
      if !ok { return; }
      var hi := win[bc % 512];
      r := TwelveBits(clust, lo, hi);
      LinkBytes(clust);
    }

    lemma LinkBytes(clust: nat)
      requires Valid() && clust < geo.maxClust
      ensures LowByte(geo.fsType, clust) + 1 < 512 * geo.sectsFat
      ensures Links()[clust] == LinkAt(geo.fsType, FatBytes(geo, Image()), clust)
    {
      EntryFits(geo, |disk|, clust);
    }

    /** The FAT16 case of get_cluster. */
    method GetCluster16(clust: nat) returns (r: nat)
      requires Valid() && FatShown() && geo.DataCluster(clust) && geo.fsType.Fat16?
      modifies this, win
      ensures Valid() && Coherent()
      ensures Image() == old(Image())
      ensures lastClust == old(lastClust) && freeClust == old(freeClust)
      ensures r == Links()[clust]
      ensures geo.InFat(winSect)
      ensures winFlag ==> old(winFlag)
    {
      hide Geometry.Home, Store, Mirrored;
      EntryFits(geo, |disk|, clust);
      WordIndex16(clust);
      r := 1;
      var ok := MoveToFat(2 * clust);
      if !ok { return; }
      r := LoadWord(clust * 2 % 0x1_0000 % 512);
    }

    /** The 12 bits of a little-endian word that belong to a link. */
    method TwelveBits(clust: nat, lo: byte, hi: byte) returns (r: nat)
      ensures r == Unpack(Fat12, clust, lo, hi)
    {
      var wc := LoadLe16([lo, hi], 0);
      r := if clust % 2 == 1 then wc / 16 else wc % 0x1000;
      assert wc / 16 == lo / 16 + 16 * hi;
    }

    /** The 16-bit index arithmetic of get_cluster and put_cluster does not lose anything. */
    method WordIndex12(clust: nat) returns (bc: nat)
      requires clust < 0x1000
      ensures bc == LowByte(Fat12, clust)
    {
      bc := clust * 3 % 0x1_0000 / 2;
    }

    lemma WordIndex16(clust: nat)
      ensures clust * 2 % 0x1_0000 % 512 == 2 * clust % 512 < 511
    {
      var p, b := clust * 2, clust * 2 % 0x1_0000;
      DivModUnique(p, 512, 128 * (p / 0x1_0000) + b / 512, b % 512);
      DivModUnique(p, 512, clust / 256, 2 * (clust % 256));
    }

    /** get_cluster: the link of a cluster, or 1 for a number that is not a cluster. */
    method GetCluster(clust: nat) returns (r: nat)
      requires Valid() && FatShown()
      modifies this, win
      ensures Valid() && FatShown() && (old(Coherent()) ==> Coherent())
      ensures Image() == old(Image())
      ensures lastClust == old(lastClust) && freeClust == old(freeClust)
      ensures Links() == old(Links())
      ensures if geo.DataCluster(clust) then geo.InFat(winSect)
              else winSect == old(winSect) && win[..] == old(win[..]) && winFlag == old(winFlag)
      ensures r == if geo.DataCluster(clust) then Links()[clust] else 1
      ensures winFlag ==> old(winFlag)
    {
      if 2 <= clust < geo.maxClust {
        match geo.fsType
        case Fat12 => r := GetCluster12(clust);
        case Fat16 => r := GetCluster16(clust);
      } else {
        r := 1;
      }
    }

    /** The FAT16 link that the window shows at the place of entry f of FAT sector q. */
    lemma WindowLink(q: nat, f: nat)
      requires Valid() && geo.fsType.Fat16? && 256 * q + f < geo.maxClust && f < 256
      requires winSect == geo.fatBase + q && win[..] == Image()[winSect]
      ensures LoadWord(2 * f) == Links()[256 * q + f]
    {
      hide Geometry.Home, Store, Mirrored, Image;
      var j := 256 * q + f;
      LinkBytes(j);
      assert 2 * j / 512 == q == (2 * j + 1) / 512;
      assert 2 * j % 512 == 2 * f && (2 * j + 1) % 512 == 2 * f + 1;
    }

    /** LD_WORD on the window: a little-endian 16-bit load. */
    function LoadWord(o: nat): (w: nat)
      requires o + 1 < win.Length
      reads win
      ensures w < 0x1_0000
    {
      LoadLe16(win[..], o)
    }

    /** Storing one byte of the FAT through the window. */
    method PokeFat(j: nat, v: byte)
      requires Valid() && j < 512 * geo.sectsFat
      requires winSect == geo.fatBase + j / 512 && win[..] == Image()[winSect]
      modifies win, `winFlag
      ensures Valid() && winFlag && Coherent()
      ensures Image() == StoreFatByte(geo, old(Image()), j, v)
      ensures win[..] == Image()[winSect]
    {
      assert geo.Home(winSect) == winSect;
      Poke(j % 512, v);
    }

    /** The FAT12 case of put_cluster: neighbouring links share a byte, which keeps their half. */
    method PutCluster12(clust: nat, val: nat) returns (ok: bool)
      requires Valid() && Coherent() && clust < geo.maxClust && geo.fsType.Fat12? && Mirrored(geo, Image())
      modifies this, win
      ensures ok && Valid() && Coherent()
      ensures Image() == StoreLink(geo, old(Image()), clust, val)
      ensures geo.InFat(winSect)
      ensures lastClust == old(lastClust) && freeClust == old(freeClust)
    {
      hide Geometry.Home, Geometry.Valid, Store, Mirrored, StoreFatByte, NewLow, NewHigh, FatBytes, Image,
           Coherent, Valid;
      EntryFits(geo, |disk|, clust);
      ghost var before := Image();
      ghost var j, fat := LowByte(geo.fsType, clust), FatBytes(geo, before);
      var bc := WordIndex12(clust);
      ok := MoveToFat(bc);
      if !ok { return; }
      PokeFat(bc, NewLow(Fat12, clust, win[bc % 512], val));
      StoreFatByteMeaning(geo, before, j, NewLow(geo.fsType, clust, fat[j], val));
      bc := bc + 1;
      ok := MoveToFat(bc);
      if !ok { return; }
      PokeFat(bc, NewHigh(Fat12, clust, win[bc % 512], val));
    }

    /** The FAT16 case of put_cluster. */
    method PutCluster16(clust: nat, val: nat) returns (ok: bool)
      requires Valid() && Coherent() && clust < geo.maxClust && geo.fsType.Fat16? && Mirrored(geo, Image())
      modifies this, win
      ensures ok && Valid() && Coherent()
      ensures Image() == StoreLink(geo, old(Image()), clust, val)
      ensures geo.InFat(winSect)
      ensures lastClust == old(lastClust) && freeClust == old(freeClust)
    {
      hide Geometry.Home, Store, Mirrored, StoreFatByte, FatBytes, Image;
      EntryFits(geo, |disk|, clust);
      WordIndex16(clust);
      ok := MoveToFat(2 * clust);
      if !ok { return; }
      PokeFat(2 * clust, val % 256);
      PokeFat(2 * clust + 1, val / 256 % 256);
    }

    /** put_cluster: change the link of a cluster. Only that link changes, on every FAT copy. */
    method PutCluster(clust: nat, val: nat) returns (ok: bool)
      requires Valid() && Coherent() && clust < geo.maxClust
      modifies this, win
      ensures ok && Valid() && Coherent()
      ensures Links() == old(Links())[clust := val % LinkLimit(geo.fsType)]
      ensures SameOutsideFat(geo, old(Image()), Image())
      ensures Mirrored(geo, Image())
      ensures geo.InFat(winSect)
      ensures lastClust == old(lastClust) && freeClust == old(freeClust)
    {
      hide Geometry.Valid, Geometry.Home, Store, Mirrored, Coherent, Image, StoreLink, Layout.Links;
      ImageMirrored();
      StoreLinkMeaning(geo, Image(), clust, val);
      match geo.fsType
      case Fat12 => ok := PutCluster12(clust, val);
      case Fat16 => ok := PutCluster16(clust, val);
    }

    /** A whole-sector transfer to the data area, which bypasses the window: the sectors show up in the
        content unless a dirty window stands for one of them. */
    method WriteThrough(buf: array<byte>, off: nat, sector: nat, count: nat) returns (ok: bool)
      requires Valid() && off + 512 * count <= buf.Length
      requires geo.dirBase <= sector && sector + count <= |disk|
      modifies `disk
      ensures ok && Valid()
      ensures Links() == old(Links()) && |disk| == old(|disk|)
      ensures forall s :: 0 <= s < |disk| ==>
                Image()[s] == if sector <= s < sector + count && !(winFlag && s == winSect)
                              then buf[off + 512 * (s - sector)..off + 512 * (s - sector) + 512] else old(Image())[s]
      ensures old(FatShown()) ==> FatShown()
      ensures old(Coherent()) && !winFlag ==>
                (Coherent() <==> sector <= winSect < sector + count ==>
                                 win[..] == buf[off + 512 * (winSect - sector)..off + 512 * (winSect - sector) + 512])
      ensures old(Coherent()) && !(sector <= winSect < sector + count) ==> Coherent()
    {
      hide Layout.Links, FatBytes, Mirrored, Store, Geometry.Valid;
      ghost var was, before := disk, Image();
      AreasFit(geo, |disk|);
      ok := DiskWrite(buf, off, sector, count);
      ghost var after := if winFlag then Store(geo, disk, winSect, win[..]) else disk;
      DirectImage(was, disk, before, after, sector, count);
    }

    /** How a direct transfer outside the FATs shows up in the content, whatever the window holds. */
    lemma DirectImage(was: Bytes.Image, now: Bytes.Image, before: Bytes.Image, after: Bytes.Image,
                      sector: nat, count: nat)
      requires win.Length == 512 && geo.Valid(|was|) && Mirrored(geo, was) && |now| == |was|
      requires geo.dirBase <= sector && sector + count <= |was|
      requires winFlag ==> geo.Home(winSect) == winSect
      requires forall s :: 0 <= s < |was| && !(sector <= s < sector + count) ==> now[s] == was[s]
      requires before == if winFlag then Store(geo, was, winSect, win[..]) else was
      requires after == if winFlag then Store(geo, now, winSect, win[..]) else now
      ensures Mirrored(geo, now) && Layout.Links(geo, after) == Layout.Links(geo, before)
      ensures forall s :: 0 <= s < |was| ==>
                after[s] == if sector <= s < sector + count && !(winFlag && s == winSect) then now[s] else before[s]
    {
      hide Layout.Links, FatBytes;
      AreasFit(geo, |was|);
      DataHome(sector);
      LinksOfSameFat(geo, before, after);
    }

    /** disk_read behind the back of the window sees the content of the volume exactly if no dirty window holds
        newer bytes for one of the sectors. */
    lemma DirectReadExact(sector: nat, count: nat)
      requires Valid() && geo.dirBase <= sector && sector + count <= |disk|
      ensures (forall s :: sector <= s < sector + count ==> disk[s] == Image()[s])
         <==> !(winFlag && sector <= winSect < sector + count && win[..] != disk[winSect])
    {
      DataHome(sector);
    }

    lemma DataHome(first: nat)
      requires geo.sectsFat > 0 && geo.dirBase <= first
      ensures forall s: nat :: first <= s ==> geo.Home(s) == s
    {
    }

    /** f_write lets a clean window stand for a new sector without reading it. */
    method ClaimWindow(sector: nat)
      requires Valid() && !winFlag && sector < |disk|
      modifies `winSect
      ensures Valid() && winSect == sector
      ensures Image() == old(Image()) && Links() == old(Links())
    {
      winSect := sector;
    }

    /** memcpy into a window that stands for a sector outside the FAT, and the dirty flag that follows. */
    method PutBytes(buf: array<byte>, off: nat, o: nat, n: nat)
      requires Valid() && buf != win && off + n <= buf.Length && o + n <= 512 && geo.dirBase <= winSect
      modifies win, `winFlag
      ensures Valid() && winFlag && Coherent() && |disk| == old(|disk|)
      ensures win[..] == old(win[..])[..o] + buf[off..off + n] + old(win[..])[o + n..]
      ensures Image() == old(Image())[winSect := win[..]]
      ensures Links() == old(Links())
    {
      ghost var before := Image();
      AreasFit(geo, |disk|);
      forall i | o <= i < o + n {
        win[i] := buf[off + (i - o)];
      }
      winFlag := true;
      DataStore();
      assert Image() == before[winSect := win[..]];
      LinksOfSameFat(geo, before, Image());
    }

    /** Stores through a pointer into the window, as f_sync makes them into a directory entry. */
    method SetBytes(o: nat, data: seq<byte>)
      requires Valid() && o + |data| <= 512 && geo.dirBase <= winSect
      modifies win, `winFlag
      ensures Valid() && winFlag && Coherent() && |disk| == old(|disk|)
      ensures win[..] == old(win[..])[..o] + data + old(win[..])[o + |data|..]
      ensures Image() == old(Image())[winSect := win[..]]
      ensures Links() == old(Links())
    {
      ghost var before := Image();
      AreasFit(geo, |disk|);
      forall i | o <= i < o + |data| {
        win[i] := data[i - o];
      }
      winFlag := true;
      DataStore();
      assert Image() == before[winSect := win[..]];
      LinksOfSameFat(geo, before, Image());
    }

    lemma DataStore()
      requires Valid() && geo.dirBase <= winSect
      ensures forall w: Sector :: Store(geo, disk, winSect, w) == disk[winSect := w]
    {
      forall w: Sector
        ensures Store(geo, disk, winSect, w) == disk[winSect := w]
      {
        forall i: nat | i < |disk|
          ensures geo.Home(i) == winSect <==> i == winSect
        {
          geo.HomeFacts(i);
        }
      }
    }

    /** The fsinfo fields are no part of the volume's content. */
    method SetFsInfo(last: nat, free: nat)
      requires Valid() && last < 0x1_0000 && free < 0x1_0000
      modifies `lastClust, `freeClust
      ensures Valid() && lastClust == last && freeClust == free
      ensures Image() == old(Image()) && Links() == old(Links()) && Coherent() == old(Coherent())
    {
      lastClust, freeClust := last, free;
    }

    lemma ImageMirrored()
      requires Valid()
      ensures Mirrored(geo, Image())
    {
      if winFlag {
        StoreKeepsMirrors(geo, disk, winSect, win[..]);
      }
    }
  }
}
