/** The virtual floppy: a track/side/sector array kept in an image file. */
module Floppy {
  import opened Bytes
  import opened Layout
  import opened Chains
  import opened FatVolume
  import opened FileLayout
  import opened Files
  import opened Transfer
  import opened Reading
  import opened Seeking

  const FDD_SECTOR_SIZE := 1024
  const FDD_NSIDES := 2
  const FDD_NSECTORS := 5

  /** An address on the floppy. */
  datatype Chs = Chs(side: nat, track: nat, sector: nat)

  /** A sector that exists on a double-sided disk with five sectors per track and n blocks in all. */
  predicate OnDisk(a: Chs, n: nat) {
    a.side < FDD_NSIDES && 1 <= a.sector <= FDD_NSECTORS && a.track < 256 && Block(a) < n
  }

  /** The number of the 1024-byte block in which an address lies; the sides of a track are stored in
      reverse order. */
  function Block(a: Chs): int {
    (2 * a.track + (1 - a.side)) * 5 + (a.sector - 1)
  }

  /** Different addresses name different blocks. */
  lemma BlockInjective(a: Chs, b: Chs, n: nat)
    requires OnDisk(a, n) && OnDisk(b, n) && Block(a) == Block(b)
    ensures a == b
  {
  }

  /** A sector of a double-sided disk with five sectors per track. */
  predicate Exists(a: Chs) { a.side <= 1 && 1 <= a.sector <= 5 }

  /** The order of an image: by tracks, side 1 of a track before side 0, and the sectors of a side from 1 to 5. */
  predicate Before(a: Chs, b: Chs) {
    || a.track < b.track
    || (a.track == b.track && (a.side > b.side || (a.side == b.side && a.sector < b.sector)))
  }

  ghost function Earlier(a: Chs): set<Chs> {
    set t, d, k | 0 <= t <= a.track && 0 <= d <= 1 && 1 <= k <= 5 && Before(Chs(d, t, k), a) :: Chs(d, t, k)
  }

  /** The address that follows in that order. */
  function Next(a: Chs): Chs {
    if a.sector < 5 then a.(sector := a.sector + 1)
    else if a.side == 1 then Chs(0, a.track, 1)
    else Chs(1, a.track + 1, 1)
  }

  /** The image begins with sector 1 of side 1 of track 0, and blocks that follow each other hold addresses that
      follow each other. */
  lemma BlocksInOrder(a: Chs)
    requires Exists(a)
    ensures Block(Chs(1, 0, 1)) == 0
    ensures Exists(Next(a)) && Block(Next(a)) == Block(a) + 1
    ensures Earlier(Next(a)) == Earlier(a) + {a} && a !in Earlier(a)
  {
  }

  /** The block of an address is the number of addresses that come before it in the image. */
  lemma {:induction false} BlockCounts(a: Chs)
    requires Exists(a)
    ensures Block(a) == |Earlier(a)|
    decreases Block(a)
  {
    if a == Chs(1, 0, 1) {
      assert Earlier(a) == {};
    } else {
      var b := if a.sector > 1 then a.(sector := a.sector - 1)
               else if a.side == 0 then Chs(1, a.track, 5)
               else Chs(0, a.track - 1, 5);
      assert Next(b) == a;
      BlocksInOrder(b);
      BlockCounts(b);
    }
  }

  /** The track count that fdd_load derives from the n blocks of an image: the precedence of its operators makes
      it (n / 2) * 5, cut to eight bits. */
  function TrackLimit(n: nat): nat {
    n / 2 * FDD_NSECTORS % 256
  }

  /** An image of t whole tracks of ten blocks. */
  lemma LimitOfTracks(t: nat)
    ensures TrackLimit(10 * t) == 25 * t % 256
  {
    assert 10 * t / 2 * 5 == 25 * t;
  }

  /** What fdd_seek takes for an error. */
  predicate Flagged(a: Chs, ntracks: nat) {
    a.side > FDD_NSIDES || a.track > ntracks || a.sector > FDD_NSECTORS
  }

  /** The check of fdd_seek raises no false alarm on an image of n blocks exactly when the last track is not
      above the limit; the cut to eight bits makes it fail for instance at 104 blocks. */
  lemma NoFalseAlarmExactly(n: nat)
    ensures (forall a :: OnDisk(a, n) ==> !Flagged(a, TrackLimit(n)))
       <==> (n > 0 ==> (if n <= 2560 then (n - 1) / 10 else 255) <= TrackLimit(n))
    ensures TrackLimit(104) == 4 && OnDisk(Chs(1, 5, 1), 104)
  {
    if n > 0 {
      var last := if n <= 2560 then (n - 1) / 10 else 255;
      assert OnDisk(Chs(1, last, 1), n);
      forall a | OnDisk(a, n)
        ensures a.track <= last
      {
      }
    }
  }

  /** The addresses that the check lets through although they do not exist: sector 0, side 2, and blocks beyond
      the end of the image on a track that is not above the limit. */
  lemma MissedExactly(a: Chs, n: nat)
    requires a.track < 256
    ensures !Flagged(a, TrackLimit(n)) && !OnDisk(a, n)
       <==> a.track <= TrackLimit(n) && a.side <= 2 && a.sector <= 5 && (a.sector == 0 || a.side == 2 || Block(a) >= n)
  {
  }

  /** The sectors that these addresses stand for: sector 0 is the last sector of the side before, and side 2 is
      side 0 of the track before. */
  lemma MissedAliases(t: nat, s: nat)
    ensures Block(Chs(0, t, 0)) == Block(Chs(1, t, 5))
    ensures t > 0 ==> Block(Chs(1, t, 0)) == Block(Chs(0, t - 1, 5)) && Block(Chs(2, t, s)) == Block(Chs(0, t - 1, s))
  {
  }

  /** What a uint32_t holds after x is stored in it. */
  function Wrap32(x: int): (r: nat)
    ensures 0 <= x < 0x1_0000_0000 ==> r == x
  {
    x % 0x1_0000_0000
  }

  /** Wrapping before a product or a sum makes no difference to the wrapped result. */
  lemma WrapThenScale(x: int, n: nat, d: int)
    ensures Wrap32(Wrap32(Wrap32(x) * n) + d) == Wrap32(x * n + d)
    ensures Wrap32(Wrap32(x) * n) == Wrap32(x * n)
  {
    var m := 0x1_0000_0000;
    var y := x % m * n;
    assert x * n == x / m * n * m + y by {
      assert x == x / m * m + x % m;
    }
    assert x * n + d == (x / m * n + y / m + (y % m + d) / m) * m + (y % m + d) % m;
    DivModUnique(x * n + d, m, x / m * n + y / m + (y % m + d) / m, (y % m + d) % m);
    assert x * n == (x / m * n + y / m) * m + y % m;
    DivModUnique(x * n, m, x / m * n + y / m, y % m);
  }

  /** The block that an address stands for in 32-bit arithmetic, whether the address exists or not. */
  function Slot(a: Chs): (r: nat)
    ensures r < 0x40_0000
  {
    Block(a) % 0x40_0000
  }

  lemma SlotFacts(a: Chs, n: nat)
    ensures Wrap32(1024 * Block(a)) == 1024 * Slot(a)
    ensures OnDisk(a, n) ==> Slot(a) == Block(a) < n
  {
    var b := Block(a);
    assert 1024 * b == b / 0x40_0000 * 0x1_0000_0000 + 1024 * (b % 0x40_0000);
    DivModUnique(1024 * b, 0x1_0000_0000, b / 0x40_0000, 1024 * (b % 0x40_0000));
  }

  /** The image file as an array of blocks. */
  function Blocks(c: seq<byte>): (r: seq<seq<byte>>)
    ensures |r| == |c| / 1024
    ensures forall i :: 0 <= i < |r| ==> |r[i]| == 1024
  {
    seq(|c| / 1024, i requires 0 <= i < |c| / 1024 => c[1024 * i..1024 * i + 1024])
  }

  /** Overwriting one block of the file is one update of the array. */
  lemma BlockWritten(c: seq<byte>, i: nat, d: seq<byte>)
    requires i < |c| / 1024 && |d| == 1024
    ensures Blocks(Overwrite(c, d, 1024 * i, 1024)) == Blocks(c)[i := d]
  {
    var r := Overwrite(c, d, 1024 * i, 1024);
    forall j | 0 <= j < |c| / 1024
      ensures Blocks(r)[j] == Blocks(c)[i := d][j]
    {
      assert r[1024 * j..1024 * j + 1024] == if j == i then d else c[1024 * j..1024 * j + 1024];
    }
  }

  /** The blocks of a floppy, the bytes behind the last whole block, and the sector buffer. */
  datatype Drive = Drive(blocks: seq<seq<byte>>, tail: seq<byte>, buffer: seq<byte>)
  {
    ghost predicate Sized() {
      |tail| < 1024 == |buffer| && forall i :: 0 <= i < |blocks| ==> |blocks[i]| == 1024
    }
  }

  function DriveOf(c: seq<byte>, buffer: seq<byte>): (d: Drive)
    ensures |d.blocks| == |c| / 1024 && |d.tail| == |c| % 1024 && d.buffer == buffer
    ensures |buffer| == 1024 ==> d.Sized()
  {
    Drive(Blocks(c), c[1024 * (|c| / 1024)..], buffer)
  }

  /** Reading block b of the drive: a block that the end of the image cuts off fills the front of the buffer, and
      one beyond it nothing. */
  function Loaded(d: Drive, b: nat): (r: Drive)
    requires d.Sized()
    ensures r.Sized() && |r.blocks| == |d.blocks|
  {
    if b < |d.blocks| then d.(buffer := d.blocks[b])
    else if b == |d.blocks| then d.(buffer := d.tail + d.buffer[|d.tail|..])
    else d
  }

  /** Writing block b of the drive: of a block that is cut off only whole sectors of 512 bytes are written, and
      the rest of it is read into the buffer. */
  function Saved(d: Drive, b: nat): (r: Drive)
    requires d.Sized()
    ensures r.Sized() && |r.blocks| == |d.blocks|
  {
    if b < |d.blocks| then d.(blocks := d.blocks[b := d.buffer])
    else if b == |d.blocks| then
      var w := |d.tail| / 512 * 512;
      d.(tail := d.buffer[..w] + d.tail[w..], buffer := d.buffer[..w] + d.tail[w..] + d.buffer[|d.tail|..])
    else d
  }

  /** The bytes of a file of the given size that lie in block b. */
  lemma BlockRange(b: nat, size: nat)
    ensures var p := Min(1024 * b, size); var n := Min(1024, size - p);
            && (b < size / 1024 ==> p == 1024 * b && n == 1024)
            && (b == size / 1024 ==> p == 1024 * b && n == size % 1024)
            && (b > size / 1024 ==> p == size && n == 0)
  {
  }

  /** What a read of 1024 bytes at a block puts into the buffer. */
  lemma LoadIs(c: seq<byte>, buffer: seq<byte>, b: nat)
    requires |buffer| == 1024
    ensures var p := Min(1024 * b, |c|); var n := Min(1024, |c| - p);
            DriveOf(c, c[p..p + n] + buffer[n..]) == Loaded(DriveOf(c, buffer), b)
  {
    var p := Min(1024 * b, |c|);
    var n := Min(1024, |c| - p);
    if b == |c| / 1024 {
      assert c[p..p + n] == c[1024 * (|c| / 1024)..];
    } else if b > |c| / 1024 {
      assert n == 0 && c[p..p + n] + buffer[n..] == buffer;
    } else {
      assert c[p..p + n] + buffer[n..] == Blocks(c)[b];
    }
  }

  /** Where an existing address lies in an image. */
  lemma PlaceOf(a: Chs, size: nat)
    requires Exists(a) && a.track < 256 && 1024 * |Earlier(a)| + 1024 <= size
    ensures Slot(a) == |Earlier(a)| < size / 1024 && Min(1024 * Slot(a), size) == 1024 * |Earlier(a)|
  {
    hide Earlier;
    BlockCounts(a);
    SlotFacts(a, size / 1024);
  }

  /** For an address that exists in the image c, b is the sector behind those of all addresses before it. */
  ghost predicate IsSector(c: seq<byte>, a: Chs, b: seq<byte>) {
    Exists(a) ==>
      var p := 1024 * |Earlier(a)|;
      p + 1024 <= |c| ==> b == c[p..p + 1024]
  }

  /** For an address that exists, c1 is c with that sector replaced by b. */
  ghost predicate SectorReplaced(c: seq<byte>, c1: seq<byte>, a: Chs, b: seq<byte>) {
    Exists(a) ==>
      var p := 1024 * |Earlier(a)|;
      p + 1024 <= |c| ==> c1 == c[..p] + b + c[p + 1024..]
  }

  lemma SectorRead(c: seq<byte>, buffer: seq<byte>, a: Chs)
    requires |buffer| == 1024 && a.track < 256
    ensures IsSector(c, a, Loaded(DriveOf(c, buffer), Slot(a)).buffer)
  {
    hide Earlier, Slot;
    if Exists(a) && 1024 * |Earlier(a)| + 1024 <= |c| {
      PlaceOf(a, |c|);
    }
  }

  lemma SectorWritten(c: seq<byte>, buffer: seq<byte>, a: Chs)
    requires |buffer| == 1024 && a.track < 256
    ensures var p := Min(1024 * Slot(a), |c|);
            SectorReplaced(c, InPlaceContent(c, buffer, p, Min(1024, |c| - p)), a, buffer)
  {
    hide Earlier, Slot, InPlaceContent;
    var k := |Earlier(a)|;
    if Exists(a) && 1024 * k + 1024 <= |c| {
      PlaceOf(a, |c|);
      BlockOverwritten(c, buffer, k);
    }
  }

  lemma BlockOverwritten(c: seq<byte>, buffer: seq<byte>, k: nat)
    requires |buffer| == 1024 && 1024 * k + 1024 <= |c|
    ensures InPlaceContent(c, buffer, 1024 * k, 1024) == c[..1024 * k] + buffer + c[1024 * k + 1024..]
  {
    hide InPlaceContent;
    assert (1024 * k) % 512 == 0;
    InPlaceExact(1024 * k, 1024);
    assert InPlaceContent(c, buffer, 1024 * k, 1024) == Overwrite(c, buffer, 1024 * k, 1024);
    assert buffer[..1024] == buffer;
  }

  /** What an in-place write of 1024 bytes at a block does to the image and to the buffer. */
  lemma SaveIs(c: seq<byte>, buffer: seq<byte>, b: nat)
    requires |buffer| == 1024
    ensures var p := Min(1024 * b, |c|); var n := Min(1024, |c| - p);
            DriveOf(InPlaceContent(c, buffer, p, n), InPlaceBuffer(c, buffer, p, n)) == Saved(DriveOf(c, buffer), b)
  {
    hide RoundUp, RoundDown;
    hide InPlaceContent, InPlaceBuffer, Min, DriveOf, Saved;
    BlockRange(b, |c|);
    if b < |c| / 1024 {
      SaveBlock(c, buffer, b);
    } else if b == |c| / 1024 {
      SaveCut(c, buffer);
    } else {
      NothingInPlace(c, buffer, |c|);
      BeyondSaved(DriveOf(c, buffer), b);
    }
  }

  lemma BeyondSaved(d: Drive, b: nat)
    requires d.Sized() && b > |d.blocks|
    ensures Saved(d, b) == d
  {
  }

  lemma SaveBlock(c: seq<byte>, buffer: seq<byte>, b: nat)
    requires |buffer| == 1024 && b < |c| / 1024
    ensures DriveOf(InPlaceContent(c, buffer, 1024 * b, 1024), InPlaceBuffer(c, buffer, 1024 * b, 1024))
         == Saved(DriveOf(c, buffer), b)
  {
    WholeBlock(c, buffer, b);
    BlockWritten(c, b, buffer);
    var m := 1024 * (|c| / 1024);
    assert Overwrite(c, buffer, 1024 * b, 1024)[m..] == c[m..];
  }

  lemma WholeBlock(c: seq<byte>, buffer: seq<byte>, b: nat)
    requires |buffer| == 1024 && b < |c| / 1024
    ensures InPlaceContent(c, buffer, 1024 * b, 1024) == Overwrite(c, buffer, 1024 * b, 1024)
    ensures InPlaceBuffer(c, buffer, 1024 * b, 1024) == buffer
  {
    hide Overwrite;
    DivModUnique(1024 * b, 512, 2 * b, 0);
    InPlaceExact(1024 * b, 1024);
  }

  lemma SaveCut(c: seq<byte>, buffer: seq<byte>)
    requires |buffer| == 1024
    ensures var b := |c| / 1024; var p := 1024 * b;
            DriveOf(InPlaceContent(c, buffer, p, |c| - p), InPlaceBuffer(c, buffer, p, |c| - p))
            == Saved(DriveOf(c, buffer), b)
  {
    hide RoundUp, RoundDown;
    var b := |c| / 1024;
    var p := 1024 * b;
    var d, n, w := DriveOf(c, buffer), |c| - p, (|c| - p) / 512 * 512;
    var r, v := InPlaceContent(c, buffer, p, n), InPlaceBuffer(c, buffer, p, n);
    CutRounding(p, n);
    assert r[p..] == buffer[..w] + d.tail[w..];
    assert v == buffer[..w] + d.tail[w..] + buffer[n..];
    forall j | 0 <= j < b
      ensures Blocks(r)[j] == Blocks(c)[j]
    {
      assert r[1024 * j..1024 * j + 1024] == c[1024 * j..1024 * j + 1024];
    }
    assert Blocks(r) == Blocks(c);
  }

  lemma CutRounding(p: nat, n: nat)
    requires p % 1024 == 0
    ensures RoundUp(p) == p && RoundDown(p + n) == p + n / 512 * 512
  {
    assert (p + n) / 512 == p / 512 + n / 512;
  }

  lemma NothingInPlace(c: seq<byte>, b: seq<byte>, p: nat)
    requires p <= |c|
    ensures InPlaceContent(c, b, p, 0) == c && InPlaceBuffer(c, b, p, 0) == b
  {
    Rounding(p, 0);
  }

  /** FDDImage together with the error cell of the module. */
  class FddImage {
    const file: File
    const buffer: array<byte>
    var ntracks: nat
    var curSide: nat
    var curTrack: nat
    var curSector: nat
    var fddError: bool

    /** fdd_load */
    constructor (file: File, buffer: array<byte>)
      ensures this.file == file && this.buffer == buffer && !fddError
      ensures ntracks == TrackLimit(file.fsize / 1024)
    {
      this.file := file;
      this.buffer := buffer;
      ntracks := file.fsize / 1024 / 2 * FDD_NSECTORS % 256;
      curSide, curTrack, curSector := 0, 0, 0;
      fddError := false;
    }

    function Current(): Chs
      reads this
    {
      Chs(curSide, curTrack, curSector)
    }

    /** A floppy in use: an image file of any size, intact, with an acyclic chain, and a buffer for one sector. The
        window may show anything; only where the image ends inside a sector it must be up to date on that one. */
    ghost predicate Ready(vol: Volume)
      reads vol, vol.win, file
      ensures Ready(vol) ==> vol.Valid() && |file.Bytes(vol)| == file.fsize && buffer.Length == 1024
    {
      && Usable(vol) && file.canRead && !file.error && file.Cursor(vol) && file.Available(vol) == file.fsize
      && Distinct(file.Chain(vol)) && LastShown(vol)
      && buffer.Length == 1024 && buffer != vol.win
    }

    ghost predicate LastShown(vol: Volume)
      requires vol.Valid()
      reads vol, vol.win, file
    {
      var k := file.fsize / 512;
      file.fsize % 512 != 0 && k < Sectors(vol.geo, file.Chain(vol)) ==>
        (FileSect(vol.geo, file.Chain(vol), k) == vol.winSect ==> vol.Coherent())
    }

    /** Where the window comes into play at all, it is up to date. */
    lemma BlockServed(vol: Volume, b: nat)
      requires Ready(vol)
      ensures var p := Min(1024 * b, file.fsize); var n := Min(1024, file.fsize - p);
              Piece(vol.geo, file.Chain(vol), p, n, vol.winSect) ==> vol.Coherent()
      ensures var p := Min(1024 * b, file.fsize); 0 <= p <= file.fsize
    {
      hide Geometry.Valid, FatVolume.Volume.Valid, FatVolume.Volume.Image, FileSect, Stays, File.Chain, Sectors,
           Distinct;
      EndOfRange(b, file.fsize);
    }

    lemma EndOfRange(b: nat, fsize: nat)
      ensures var p := Min(1024 * b, fsize); var n := Min(1024, fsize - p);
              && (p % 512 != 0 ==> n == 0) && ((p + n) % 512 != 0 ==> p + n == fsize)
    {
      BlockRange(b, fsize);
      DivModUnique(1024 * b, 512, 2 * b, 0);
      DivModUnique(1024 * b + 1024, 512, 2 * b + 2, 0);
    }

    lemma ReadyStart(vol: Volume)
      requires Ready(vol)
      ensures file.fsize == 0 || SeekableStart(vol, file)
      ensures file.fptr <= file.fsize < 0x1_0000_0000
    {
      if file.fsize > 0 {
        SeekStart(vol, file);
      }
    }

    /** The floppy as its user sees it. */
    ghost function State(vol: Volume): (d: Drive)
      requires vol.Valid()
      reads vol, vol.win, file, buffer
      ensures d.buffer == buffer[..] && (buffer.Length == 1024 ==> d.Sized())
    {
      DriveOf(file.Bytes(vol), buffer[..])
    }

    /** fdd_seek: an address outside the limits is noted, not refused. */
    method Seek(side: nat, track: nat, sector: nat)
      requires side < 256 && track < 256 && sector < 256
      modifies `curSide, `curTrack, `curSector, `fddError
      ensures Current() == Chs(side, track, sector)
      ensures fddError == Flagged(Current(), ntracks)
    {
      fddError := side > FDD_NSIDES || track > ntracks || sector > FDD_NSECTORS;
      curSide, curTrack, curSector := side, track, sector;
    }

    /** calc_offset in 32-bit unsigned arithmetic. */
    method CalcOffset() returns (offset: nat)
      requires curSide < 256 && curTrack < 256 && curSector < 256
      ensures offset == Wrap32(1024 * Block(Current()))
    {
      hide Wrap32;
      ghost var x := FDD_NSIDES * curTrack + (1 - curSide);
      offset := Wrap32(FDD_NSIDES * curTrack + (1 - curSide));
      WrapThenScale(x, 5, curSector - 1);
      offset := Wrap32(offset * FDD_NSECTORS);
      offset := Wrap32(offset + (curSector - 1));
      WrapThenScale(5 * x + (curSector - 1), 1024, 0);
      offset := Wrap32(offset * FDD_SECTOR_SIZE);
    }

    /** The seek that both sector operations begin with. */
    method GoTo(vol: Volume) returns (res: FResult)
      requires Ready(vol) && curSide < 256 && curTrack < 256 && curSector < 256
      modifies vol, vol.win, file`sectClust, file`currClust, file`currSect, file`fptr, file`error
      ensures res == Ok && Ready(vol) && file.Chain(vol) == old(file.Chain(vol))
      ensures vol.Image() == old(vol.Image()) && file.Bytes(vol) == old(file.Bytes(vol))
      ensures vol.Links() == old(vol.Links())
      ensures file.fptr == Min(1024 * Slot(Current()), file.fsize)
    {
      hide Geometry.Valid, FatVolume.Volume.Valid, FatVolume.Volume.Coherent, FatVolume.Volume.Image,
           FatVolume.Volume.Links, FatVolume.Volume.FatShown, Content, Follow, File.Cursor, ChainEnd,
           FileSect, Block, Slot, LastShown, Sectors, Times, Distinct;
      ReadyStart(vol);
      LastWasShown(vol);
      ghost var image, shown, winSect, w := vol.Image(), vol.Coherent(), vol.winSect, vol.win[..];
      var offset := CalcOffset();
      SlotFacts(Current(), 0);
      res := LSeek(vol, file, offset);
      if vol.geo.InFat(vol.winSect) {
        vol.FatInWindow();
      }
      LastStillShown(vol, image, winSect, w, shown);
    }

    /** The window after a step that has not changed the last sector of the image. */
    lemma LastStillShown(vol: Volume, image: Image, winSect: nat, w: seq<byte>, shown: bool)
      requires Usable(vol) && |image| == |vol.disk| && winSect < |image|
      requires file.fsize % 512 != 0 && file.fsize / 512 < Sectors(vol.geo, file.Chain(vol)) ==>
                 var s := FileSect(vol.geo, file.Chain(vol), file.fsize / 512);
                 && s < |image| && vol.Image()[s] == image[s] && (winSect == s ==> shown)
      requires shown && winSect > 0 ==> w == image[winSect]
      requires (vol.winSect == winSect && vol.win[..] == w) || vol.win[..] == image[vol.winSect]
      ensures LastShown(vol)
    {
      hide Geometry.Valid, File.Chain, Sectors, FileSect;
    }

    /** f_read of one sector from where the seek has gone. */
    method Fetch(vol: Volume, ghost b: nat) returns (res: FResult)
      requires Ready(vol) && file.fptr == Min(1024 * b, file.fsize)
      modifies vol, vol.win, file`sectClust, file`currClust, file`currSect, file`fptr, file`error, buffer
      ensures res == Ok && Ready(vol) && file.Chain(vol) == old(file.Chain(vol))
      ensures vol.Image() == old(vol.Image()) && file.Bytes(vol) == old(file.Bytes(vol))
      ensures State(vol) == Loaded(old(State(vol)), b)
    {
      hide Geometry.Valid, FatVolume.Volume.Valid, FatVolume.Volume.Coherent, FatVolume.Volume.Image,
           FatVolume.Volume.Links, FatVolume.Volume.FatShown, Content, Follow, File.Cursor, FileSect, Block, Slot,
           Piece, Seen, DriveOf, Loaded, Sectors, File.Chain, File.Bytes, File.Available, LastShown, Distinct, Servable;
      ghost var c, was, image := file.Bytes(vol), buffer[..], vol.Image();
      BlockServed(vol, b);
      if vol.Coherent() {
        SeenIsBytes(vol, file);
      }
      LastWasShown(vol);
      ChainKept(vol);
      UsableServes(vol, file);
      ghost var shown, winSect, w := vol.Coherent(), vol.winSect, vol.win[..];
      var bytesRead;
      res, bytesRead := Read(vol, file, buffer, FDD_SECTOR_SIZE);
      ChainKept(vol);
      LastStillShown(vol, image, winSect, w, shown);
      LoadIs(c, was, b);
    }

    /** fdd_readsector: the addressed block ends up in the buffer, or as much of it as the image has; the image
        stays as it is. */
    method ReadSector(vol: Volume) returns (res: FResult)
      requires Ready(vol) && curSide < 256 && curTrack < 256 && curSector < 256
      modifies vol, vol.win, file`sectClust, file`currClust, file`currSect, file`fptr, file`error, buffer
      ensures res == Ok && Ready(vol) && file.Chain(vol) == old(file.Chain(vol))
      ensures vol.Image() == old(vol.Image()) && file.Bytes(vol) == old(file.Bytes(vol))
      ensures State(vol) == Loaded(old(State(vol)), Slot(Current()))
      ensures IsSector(file.Bytes(vol), Current(), buffer[..])
    {
      hide Geometry.Valid, FatVolume.Volume.Valid, FatVolume.Volume.Image, FatVolume.Volume.Links, File.Cursor, Slot,
           DriveOf, Loaded, File.Chain, File.Bytes, File.Available, LastShown, Distinct, IsSector;
      res := GoTo(vol);
      if res != Ok { return; }
      SectorRead(file.Bytes(vol), buffer[..], Current());
      res := Fetch(vol, Slot(Current()));
    }

    /** What is known of the last sector, and of an up-to-date window. */
    lemma LastWasShown(vol: Volume)
      requires Ready(vol)
      ensures |vol.Image()| == |vol.disk| && vol.winSect < |vol.disk|
      ensures file.fsize % 512 != 0 && file.fsize / 512 < Sectors(vol.geo, file.Chain(vol)) ==>
                var s := FileSect(vol.geo, file.Chain(vol), file.fsize / 512);
                s < |vol.Image()| && (vol.winSect == s ==> vol.Coherent())
      ensures vol.Coherent() && vol.winSect > 0 ==> vol.win[..] == vol.Image()[vol.winSect]
    {
      hide Geometry.Valid, FileSect, File.Chain, Sectors, Quot, Rem, Times, Distinct;
      if file.fsize / 512 < Sectors(vol.geo, file.Chain(vol)) {
        FileSectInData(vol.geo, |vol.disk|, file.Chain(vol), file.fsize / 512);
      }
    }

    lemma ChainKept(vol: Volume)
      requires vol.Valid()
      ensures file.Chain(vol) == FileChain(vol.Links(), file.orgClust, file.fsize)
      ensures file.Available(vol) == |file.Bytes(vol)|
    {
    }

    /** fdd_writesector: the addressed block takes the bytes of the buffer, or whole sectors of it where the image
        ends in it; no other block changes, and no sector outside the image file, in particular none of the FATs or
        directories. An address beyond the image changes nothing. */
    method WriteSector(vol: Volume) returns (res: FResult)
      requires Ready(vol) && curSide < 256 && curTrack < 256 && curSector < 256
      modifies vol, vol.win, file`sectClust, file`currClust, file`currSect, file`fptr, file`error, buffer
      ensures res == Ok && Ready(vol) && file.Chain(vol) == old(file.Chain(vol)) && vol.Links() == old(vol.Links())
      ensures State(vol) == Saved(old(State(vol)), Slot(Current()))
      ensures SectorReplaced(old(file.Bytes(vol)), file.Bytes(vol), Current(), old(buffer[..]))
      ensures |vol.Image()| == |old(vol.Image())|
      ensures forall s :: 0 <= s < |vol.Image()| && !OnChain(vol.geo, old(file.Chain(vol)), s) ==>
                vol.Image()[s] == old(vol.Image())[s]
      ensures forall s :: 0 <= s < vol.geo.dataBase && s < |vol.Image()| ==> vol.Image()[s] == old(vol.Image())[s]
    {
      hide Geometry.Valid, FatVolume.Volume.Valid, FatVolume.Volume.Coherent, FatVolume.Volume.Image,
           FatVolume.Volume.Links, FatVolume.Volume.FatShown, Content, Follow, File.Cursor, FileSect, Distinct, OnChain,
           InPlaceContent, InPlaceBuffer, Block, Slot, Piece, Seen, DriveOf, Saved, Sectors, File.Chain, File.Bytes,
           File.Available, LastShown, Stays, SectorReplaced;
      res := GoTo(vol);
      if res != Ok { return; }
      ghost var c, b, image := file.Bytes(vol), buffer[..], vol.Image();
      BlockServed(vol, Slot(Current()));
      if vol.Coherent() {
        SeenIsBytes(vol, file);
      }
      LastWasShown(vol);
      ChainKept(vol);
      ghost var shown, winSect, w := vol.Coherent(), vol.winSect, vol.win[..];
      var bytesRead;
      res, bytesRead := WriteInPlace(vol, file, buffer, FDD_SECTOR_SIZE);
      ChainKept(vol);
      LastStillShown(vol, image, winSect, w, shown);
      SaveIs(c, b, Slot(Current()));
      SectorWritten(c, b, Current());
      ChainAboveFat(vol, file);
    }

    lemma ChainAboveFat(vol: Volume, fp: File)
      requires vol.Valid()
      ensures forall s :: 0 <= s < vol.geo.dataBase ==> !OnChain(vol.geo, fp.Chain(vol), s)
    {
      forall k | 0 <= k < Sectors(vol.geo, fp.Chain(vol))
        ensures FileSect(vol.geo, fp.Chain(vol), k) >= vol.geo.dataBase
      {
        FileSectInData(vol.geo, |vol.disk|, fp.Chain(vol), k);
      }
    }

    /** One request of the drive: seek, and read or write the sector. */
    method Perform(vol: Volume, op: SectorOp) returns (out: seq<seq<byte>>)
      requires Ready(vol) && op.Fits()
      modifies vol, vol.win, file`sectClust, file`currClust, file`currSect, file`fptr, file`error, buffer,
               `curSide, `curTrack, `curSector, `fddError
      ensures Ready(vol) && file.Chain(vol) == old(file.Chain(vol))
      ensures State(vol) == ApplyOp(old(State(vol)), op) && out == Output(State(vol), op)
      ensures |vol.Image()| == |old(vol.Image())|
      ensures forall s :: 0 <= s < |vol.Image()| && !OnChain(vol.geo, old(file.Chain(vol)), s) ==>
                vol.Image()[s] == old(vol.Image())[s]
    {
      hide Geometry.Valid, FatVolume.Volume.Valid, FatVolume.Volume.Coherent, FatVolume.Volume.Image, Content,
           FatVolume.Volume.Links, FatVolume.Volume.FatShown, FileSect, OnChain, Block, Slot, Follow, Distinct,
           File.Cursor, Loaded, Saved, LastShown, File.Chain, File.Bytes, File.Available;
      Seek(op.at.side, op.at.track, op.at.sector);
      var res;
      match op
      case ReadAt(at) =>
        res := ReadSector(vol);
        out := [buffer[..]];
      case WriteAt(at, data) =>
        forall j | 0 <= j < 1024 { buffer[j] := data[j]; }
        assert buffer[..] == data;
        res := WriteSector(vol);
        out := [];
    }

    /** Any run of sector reads and writes behaves as on the plain array of blocks, for every cluster size,
        however the image file is scattered over the volume, and whatever the window shows; everything outside
        the image file keeps its content. Addresses that fdd_seek lets through although they do not exist stand
        for the block that the 32-bit arithmetic makes of them. */
    method RunSectors(vol: Volume, ops: seq<SectorOp>) returns (outs: seq<seq<byte>>)
      requires Ready(vol)
      requires forall i :: 0 <= i < |ops| ==> ops[i].Fits()
      modifies vol, vol.win, file`sectClust, file`currClust, file`currSect, file`fptr, file`error, buffer,
               `curSide, `curTrack, `curSector, `fddError
      ensures Ready(vol)
      ensures (State(vol), outs) == RunDrive(old(State(vol)), ops)
      ensures |vol.Image()| == |old(vol.Image())|
      ensures forall s :: 0 <= s < |vol.Image()| && !OnChain(vol.geo, old(file.Chain(vol)), s) ==>
                vol.Image()[s] == old(vol.Image())[s]
    {
      hide Geometry.Valid, FatVolume.Volume.Valid, FatVolume.Volume.Coherent, FatVolume.Volume.Image,
           FatVolume.Volume.Links, FileSect, OnChain, Blocks, State, Block, Slot, OnDisk, File.Chain,
           Ready, Distinct, ApplyOp, Output, RunDrive, SectorOp.Fits;
      ghost var cs, start := file.Chain(vol), State(vol);
      outs := [];
      assert ops[0..] == ops && outs + RunDrive(start, ops).1 == RunDrive(start, ops).1;
      DriveEnd();
      var i := 0;
      while i < |ops|
        invariant 0 <= i <= |ops| && Ready(vol) && file.Chain(vol) == cs
        invariant RunDrive(start, ops) == (RunDrive(State(vol), ops[i..]).0, outs + RunDrive(State(vol), ops[i..]).1)
        invariant |vol.Image()| == |old(vol.Image())|
        invariant forall s :: 0 <= s < |vol.Image()| && !OnChain(vol.geo, cs, s) ==>
                    vol.Image()[s] == old(vol.Image())[s]
        decreases |ops| - i
      {
        DriveNext(State(vol), ops, i, outs);
        var out := Perform(vol, ops[i]);
        outs := outs + out;
        i := i + 1;
      }
      assert ops[i..] == [] && outs + [] == outs;
    }
  }

  datatype SectorOp = ReadAt(at: Chs) | WriteAt(at: Chs, data: seq<byte>)
  {
    /** A request as the eight-bit parameters of the driver can express it. */
    predicate Fits() {
      at.side < 256 && at.track < 256 && at.sector < 256 && (WriteAt? ==> |data| == 1024)
    }
  }

  /** One request on an array of blocks. */
  function ApplyOp(d: Drive, op: SectorOp): (r: Drive)
    requires d.Sized() && op.Fits()
    ensures r.Sized() && |r.blocks| == |d.blocks|
  {
    match op
    case ReadAt(at) => Loaded(d, Slot(at))
    case WriteAt(at, data) => Saved(d.(buffer := data), Slot(at))
  }

  /** A read yields the buffer. */
  function Output(d: Drive, op: SectorOp): seq<seq<byte>> {
    if op.ReadAt? then [d.buffer] else []
  }

  /** The same run on an array of blocks. */
  function RunDrive(d: Drive, ops: seq<SectorOp>): (Drive, seq<seq<byte>>)
    requires d.Sized() && forall i :: 0 <= i < |ops| ==> ops[i].Fits()
    decreases |ops|
  {
    if ops == [] then (d, [])
    else
      var now := ApplyOp(d, ops[0]);
      var (last, rest) := RunDrive(now, ops[1..]);
      (last, Output(now, ops[0]) + rest)
  }

  lemma DriveEnd()
    ensures forall d: Drive :: d.Sized() ==> RunDrive(d, []) == (d, [])
  {
  }

  /** The request that is performed next. */
  lemma DriveNext(d: Drive, ops: seq<SectorOp>, i: nat, outs: seq<seq<byte>>)
    requires i < |ops| && d.Sized() && forall j :: 0 <= j < |ops| ==> ops[j].Fits()
    ensures var now := ApplyOp(d, ops[i]); var (last, rest) := RunDrive(now, ops[i + 1..]);
            var (d', all) := RunDrive(d, ops[i..]);
            d' == last && outs + all == (outs + Output(now, ops[i])) + rest
  {
    assert ops[i..][0] == ops[i] && ops[i..][1..] == ops[i + 1..];
  }

  /** What a sector was written with is what it is read back as; every other block stays. */
  lemma ReadBack(d: Drive, a: Chs, b: Chs, data: seq<byte>)
    requires d.Sized() && |data| == 1024 && OnDisk(a, |d.blocks|) && OnDisk(b, |d.blocks|)
    ensures var w := ApplyOp(d, WriteAt(a, data));
            ApplyOp(w, ReadAt(b)).buffer == if b == a then data else d.blocks[Block(b)]
  {
    SlotFacts(a, |d.blocks|);
    SlotFacts(b, |d.blocks|);
    if Block(a) == Block(b) {
      BlockInjective(a, b, |d.blocks|);
    }
  }
}
