/** f_read, f_write_inplace and f_lseek of the read-only build, against the flat byte sequence. */
module Reading {
  import opened Bytes
  import opened Layout
  import opened FatVolume
  import opened FileLayout
  import opened Files
  import opened Transfer

  /** The volume as it always is in the read-only build: the window is never dirty, and on a FAT sector it is up
      to date. */
  ghost predicate Usable(vol: Volume)
    reads vol, vol.win
  {
    vol.Valid() && vol.FatShown() && !vol.winFlag
  }

  /** Besides, the window is up to date on other sectors too. */
  ghost predicate Clean(vol: Volume)
    reads vol, vol.win
    ensures Clean(vol) ==> Usable(vol)
  {
    vol.Valid() && vol.Coherent() && !vol.winFlag
  }

  /** The bytes of a file as the window shows them. */
  ghost function Seen(vol: Volume, fp: File): (r: seq<byte>)
    requires vol.Valid()
    reads fp`orgClust, fp`fsize, vol, vol.win
    ensures |r| == fp.Available(vol)
  {
    Content(vol.geo, vol.Shown(), fp.Chain(vol), fp.Available(vol))
  }

  lemma NothingStored(env: Env, now: Image, done: nat)
    requires env.Ok() && env.hi <= env.lo && env.Stored(now, done)
    ensures now == env.was
  {
    hide Geometry.Valid, InRange, FileSect, Times, Quot, Rem, Distinct;
    forall s | 0 <= s < |now|
      ensures now[s] == env.was[s]
    {
      assert !env.Touched(env.Upto(done), s);
    }
  }

  /** f_read: the next min(btr, fsize - fptr) bytes of the file, or as many of them as its chain provides,
      and an error when that is not all of them. The volume stays as it is. Under a stale window everything
      comes from the disk but a piece of the window's own sector, where the request begins or, if it begins at a
      sector and the FAT is not consulted on the way, where it ends. */
  method Read(vol: Volume, fp: File, buff: array<byte>, btr: nat) returns (res: FResult, br: nat)
    requires vol.Valid() && buff != vol.win && btr < 0x1_0000 && btr <= buff.Length
    requires fp.Cursor(vol) && Servable(vol, fp)
    modifies vol, vol.win, fp`sectClust, fp`currClust, fp`currSect, fp`fptr, fp`error, buff
    ensures Usable(vol) && vol.Image() == old(vol.Image()) && vol.Links() == old(vol.Links())
    ensures old(vol.Coherent()) ==> vol.Coherent()
    ensures (vol.winSect == old(vol.winSect) && vol.win[..] == old(vol.win[..]))
            || vol.win[..] == old(vol.Image())[vol.winSect]
    ensures fp.fptr == old(fp.fptr) + br && (!fp.error ==> fp.Cursor(vol))
    ensures fp.Bytes(vol) == old(fp.Bytes(vol))
    ensures old(fp.fptr) + br <= |fp.Bytes(vol)| == |old(Seen(vol, fp))| && br <= buff.Length
    ensures var c := if old(Piece(vol.geo, fp.Chain(vol), fp.fptr, Wanted(fp, btr), vol.winSect))
                     then old(Seen(vol, fp)) else fp.Bytes(vol);
            buff[..] == c[old(fp.fptr)..old(fp.fptr) + br] + old(buff[..])[br..]
    ensures old(fp.error) ==> res == RwError && br == 0
    ensures !old(fp.error) && !fp.canRead ==> res == Denied && br == 0 && !fp.error
    ensures !old(fp.error) && fp.canRead ==>
              && br == Min(old(Wanted(fp, btr)), |fp.Bytes(vol)| - old(fp.fptr))
              && res == (if br == old(Wanted(fp, btr)) then Ok else RwError)
              && fp.error == (res != Ok)
  {
    hide *;
    CursorBound(vol, fp);
    ghost var n := Wanted(fp, btr);
    ghost var env := Begin(vol, fp, buff, n, false);
    ghost var avail := AvailableIs(vol, fp);
    BeginIs(vol, fp, buff, n, false);
    MinIs(n, avail - fp.fptr);
    ghost var failed := fp.error || !fp.canRead;
    res, br := ReadOrWrite(vol, fp, buff, btr, false);
    ReadDone(vol, fp, buff, env, br, avail, if res == Ok || failed then env.Last(br) else fp.fptr / 512);
  }

  /** Seeing through an up-to-date window is seeing the bytes of the file. */
  lemma SeenIsBytes(vol: Volume, fp: File)
    requires vol.Valid() && vol.Coherent()
    ensures Seen(vol, fp) == fp.Bytes(vol)
  {
    hide FatVolume.Volume.Image, FatVolume.Volume.Shown;
    vol.ShownIsImage();
  }

  lemma MinIs(a: nat, b: nat)
    ensures Min(a, b) == if a <= b then a else b
  {
  }

  /** What a transfer that only reads leaves. */
  lemma ReadDone(vol: Volume, fp: File, buff: array<byte>, env: Env, done: nat, avail: nat, last: int)
    requires Stepped(vol, fp, buff, env, done, last) && env.lo == env.hi
    requires avail == var reach := 512 * Sectors(env.g, env.cs); if reach < fp.fsize then reach else fp.fsize
    requires env.p + done <= avail
    ensures Usable(vol) && vol.Image() == env.was && env.w0 < |env.was|
    ensures env.w0 == 0 || env.win0 == env.was[env.w0] ==> vol.Coherent()
    ensures (vol.winSect == env.w0 && vol.win[..] == env.win0) || vol.win[..] == env.was[vol.winSect]
    ensures avail <= 512 * Sectors(env.g, env.cs) && fp.Bytes(vol) == Content(env.g, env.was, env.cs, avail)
    ensures done <= |env.b0| && |env.src| == |env.was|
    ensures buff[..] == Content(env.g, env.src, env.cs, avail)[env.p..env.p + done] + env.b0[done..]
  {
    hide Geometry.Valid, FatVolume.Volume.Valid, FatVolume.Volume.Links, FatVolume.Volume.Image, FatVolume.Volume.Shown,
         FatVolume.Volume.Coherent, FatVolume.Volume.FatShown, Content, File.Chain, File.Cursor, File.Bytes, Seen,
         Env.Stored, Env.Fetched, Env.Window, Sectors, Distinct, Stepped;
    SteppedState(vol, fp, buff, env, done, last);
    NothingStored(env, vol.Image(), done);
    BufferRead(env, buff[..], done, avail);
    CoherentAfter(vol, fp, buff, env, done, last);
    BytesAre(vol, fp);
  }

  /** The state in which a transfer starts, and the bytes that it can deliver. */
  lemma BeginIs(vol: Volume, fp: File, buff: array<byte>, n: nat, modeWr: bool)
    requires vol.Valid() && Servable(vol, fp)
    ensures var env := Begin(vol, fp, buff, n, modeWr);
      && env.g == vol.geo && env.cs == fp.Chain(vol) && env.was == vol.Image() && env.b0 == buff[..]
      && env.p == fp.fptr && env.len == n && env.w0 == vol.winSect < |env.was| && env.win0 == vol.win[..]
      && (if modeWr then env.lo == RoundUp(fp.fptr) && env.hi == RoundDown(fp.fptr + n) else env.lo == env.hi)
      && (vol.Coherent() ==> env.w0 == 0 || env.win0 == env.was[env.w0])
      && |env.src| == |env.was| == |vol.disk|
      && Content(env.g, env.was, env.cs, fp.Available(vol)) == fp.Bytes(vol)
      && Content(env.g, env.src, env.cs, fp.Available(vol))
         == if Piece(vol.geo, fp.Chain(vol), fp.fptr, n, vol.winSect) then Seen(vol, fp) else fp.Bytes(vol)
  {
    hide Geometry.Valid, FatVolume.Volume.Valid, FatVolume.Volume.FatShown, FatVolume.Volume.Shown, Content, File.Chain,
         Piece, Mirrored, Store;
  }

  /** What reading leaves in the buffer. */
  lemma BufferRead(env: Env, b: seq<byte>, done: nat, avail: nat)
    requires env.Ok() && env.Fetched(b, done) && env.lo == env.hi
    requires env.p + done <= avail <= 512 * Sectors(env.g, env.cs) && done <= |env.b0|
    ensures b == Content(env.g, env.src, env.cs, avail)[env.p..env.p + done] + env.b0[done..]
  {
    hide Geometry.Valid, InRange, FileSect, FileByte, Times, Quot, Rem, Distinct, Sectors;
  }

  lemma BytesAre(vol: Volume, fp: File)
    requires vol.Valid()
    ensures var reach := 512 * Sectors(vol.geo, fp.Chain(vol));
            fp.Available(vol) == if reach < fp.fsize then reach else fp.fsize
    ensures fp.Bytes(vol) == Content(vol.geo, vol.Image(), fp.Chain(vol), fp.Available(vol))
  {
    hide Geometry.Valid, FatVolume.Volume.Valid, FatVolume.Volume.Image, Content, File.Chain;
  }

  /** Whether a transfer that starts under an up-to-date window leaves one: exactly if it has not changed the
      sector that the window shows. */
  lemma CoherentAfter(vol: Volume, fp: File, buff: array<byte>, env: Env, done: nat, last: int)
    requires Stepped(vol, fp, buff, env, done, last)
    ensures env.w0 < |env.was| == |vol.Image()| == |vol.disk|
    ensures env.w0 == 0 || env.win0 == env.was[env.w0] ==>
              (vol.Coherent() <==> vol.winSect == 0 || vol.Image()[vol.winSect] == env.was[vol.winSect])
    ensures (vol.winSect == env.w0 && vol.win[..] == env.win0) || vol.win[..] == env.was[vol.winSect]
  {
    hide Geometry.Valid, FatVolume.Volume.Links, InRange, FileSect, FileByte, Times, Quot, Rem, Distinct, Mirrored,
         Store, Env.Touched, Env.Holds, Env.Fetched, Stays;
  }

  /** A whole sector that does not begin a cluster leaves the window alone. */
  lemma WindowKept(vol: Volume, fp: File, buff: array<byte>, env: Env)
    requires Stepped(vol, fp, buff, env, 512, env.Last(512))
    requires env.p % 512 == 0 && env.g.sectsClust > 0 && Stays(env.g, env.p / 512, env.p / 512)
    ensures vol.winSect == env.w0 && vol.win[..] == env.win0
  {
    hide Geometry.Valid, FatVolume.Volume.Valid, FatVolume.Volume.Image, InRange, FileSect, Distinct;
  }

  // ---------------------------------------------------------------------------------------------------
  // Writing in place

  /** The content after in-place writing of n bytes from buffer b at position p: only the whole sectors
      inside the range change. */
  function InPlaceContent(c: seq<byte>, b: seq<byte>, p: nat, n: nat): (r: seq<byte>)
    requires p + n <= |c| && n <= |b|
    ensures |r| == |c|
  {
    seq(|c|, i requires 0 <= i < |c| => if RoundUp(p) <= i < RoundDown(p + n) then b[i - p] else c[i])
  }

  /** The caller's buffer afterwards: the partial sectors at both ends have been read into it. */
  function InPlaceBuffer(c: seq<byte>, b: seq<byte>, p: nat, n: nat): (r: seq<byte>)
    requires p + n <= |c| && n <= |b|
    ensures |r| == |b|
  {
    seq(|b|, j requires 0 <= j < |b| => if j < n && !(RoundUp(p) <= p + j < RoundDown(p + n)) then c[p + j] else b[j])
  }

  /** What a write is supposed to do. */
  function Overwrite(c: seq<byte>, b: seq<byte>, p: nat, n: nat): seq<byte>
    requires p + n <= |c| && n <= |b|
  {
    c[..p] + b[..n] + c[p + n..]
  }

  ghost predicate InPlaceWrites(p: nat, n: nat) {
    forall c: seq<byte>, b: seq<byte> {:trigger InPlaceContent(c, b, p, n)} ::
      p + n <= |c| && n <= |b| ==> InPlaceContent(c, b, p, n) == Overwrite(c, b, p, n) && InPlaceBuffer(c, b, p, n) == b
  }

  lemma Rounding(p: nat, n: nat)
    ensures p % 512 == 0 ==> RoundUp(p) == p
    ensures p % 512 != 0 ==> RoundUp(p) > p
    ensures p % 512 == 0 && n % 512 == 0 ==> RoundDown(p + n) == p + n
    ensures p % 512 == 0 && n % 512 != 0 ==> RoundDown(p + n) < p + n
    ensures p <= RoundUp(p) && RoundDown(p + n) <= p + n
  {
    if p % 512 == 0 {
      assert (p + n) % 512 == n % 512;
    }
  }

  /** In-place writing is a write exactly when it starts and ends at sector boundaries. */
  lemma InPlaceExact(p: nat, n: nat)
    requires n > 0
    ensures InPlaceWrites(p, n) <==> p % 512 == 0 && n % 512 == 0
  {
    hide RoundUp, RoundDown;
    Rounding(p, n);
    if p % 512 == 0 && n % 512 == 0 {
      forall c: seq<byte>, b: seq<byte> | p + n <= |c| && n <= |b|
        ensures InPlaceContent(c, b, p, n) == Overwrite(c, b, p, n) && InPlaceBuffer(c, b, p, n) == b
      {
      }
    } else {
      var c: seq<byte> := seq(p + n, i => 0);
      var b: seq<byte> := seq(n, i => 1);
      var j := if p % 512 != 0 then 0 else n - 1;
      assert InPlaceContent(c, b, p, n)[p + j] == 0;
      assert Overwrite(c, b, p, n)[p + j] == 1;
    }
  }

  /** Byte by byte: a byte of the request goes into the content if its whole sector of 512 bytes is requested, and
      otherwise comes out of it into the buffer; all other bytes stay. */
  lemma InPlaceSectors(c: seq<byte>, b: seq<byte>, p: nat, n: nat, i: nat)
    requires p + n <= |c| && n <= |b| && i < |c|
    ensures var k := 512 * (i / 512);
            if p <= k && k + 512 <= p + n then
              && i - p < n && InPlaceContent(c, b, p, n)[i] == b[i - p] && InPlaceBuffer(c, b, p, n)[i - p] == b[i - p]
            else
              && InPlaceContent(c, b, p, n)[i] == c[i]
              && (p <= i < p + n ==> InPlaceBuffer(c, b, p, n)[i - p] == c[i])
    ensures forall j :: n <= j < |b| ==> InPlaceBuffer(c, b, p, n)[j] == b[j]
  {
    hide RoundUp, RoundDown;
    SectorInside(p, n, i);
  }

  lemma SectorInside(p: nat, n: nat, i: nat)
    ensures RoundUp(p) <= i < RoundDown(p + n) <==> p <= 512 * (i / 512) && 512 * (i / 512) + 512 <= p + n
  {
  }

  /** The bytes of the file after an in-place transfer. */
  lemma InPlaceByte(env: Env, now: Image, n: nat, done: nat, i: nat)
    requires env.Ok() && env.Stored(now, done) && done <= n && done <= |env.b0|
    requires env.lo == RoundUp(env.p) && env.hi == RoundDown(env.p + n)
    requires done == n || done == 0 || (env.p + done) % 512 == 0
    requires i < 512 * Sectors(env.g, env.cs)
    ensures FileByte(env.g, now, env.cs, i)
         == if env.lo <= i < RoundDown(env.p + done) then env.b0[i - env.p] else FileByte(env.g, env.was, env.cs, i)
  {
    hide Geometry.Valid, InRange, FileSect, Times, Quot, Rem, Distinct, Env.Touched, Env.Stored, Env.Ok, Env.Holds,
         Sectors;
    var k := i / 512;
    SectorRange(env.p, n, done, i);
    if env.lo <= i < RoundDown(env.p + done) {
      HoldsAt(env, now, done, k);
      assert i - env.p == (512 * k - env.p) + i % 512;
    } else {
      env.Unstored(now, done, k);
    }
  }

  lemma HoldsAt(env: Env, now: Image, done: nat, k: nat)
    requires env.Ok() && env.Stored(now, done) && k < Sectors(env.g, env.cs)
    requires env.lo <= 512 * k && 512 * k + 512 <= env.Upto(done)
    ensures FileSect(env.g, env.cs, k) < |now| && env.p <= 512 * k && 512 * k - env.p + 512 <= |env.b0|
    ensures now[FileSect(env.g, env.cs, k)] == env.b0[512 * k - env.p..512 * k - env.p + 512]
  {
    hide Geometry.Valid, InRange, FileSect, Times, Quot, Rem, Distinct, Env.Touched, Sectors;
    assert env.Holds(now, k);
  }

  /** The sector of a byte lies in the stored range or outside it as a whole. */
  lemma SectorRange(p: nat, n: nat, done: nat, i: nat)
    requires done <= n
    ensures RoundUp(p) <= i < RoundDown(p + done) ==>
              && RoundUp(p) <= 512 * (i / 512) && 512 * (i / 512) + 512 <= p + done
              && 512 * (i / 512) + 512 <= RoundDown(p + n)
    ensures i < RoundUp(p) ==> 512 * (i / 512) + 512 <= RoundUp(p)
    ensures RoundDown(p + done) <= i && (p + done) % 512 == 0 ==> p + done <= 512 * (i / 512)
    ensures RoundDown(p + done) <= i ==> RoundDown(p + done) <= 512 * (i / 512)
  {
  }

  lemma ContentAfter(env: Env, now: Image, n: nat, done: nat, avail: nat)
    requires env.Ok() && env.Stored(now, done) && done <= n && done <= |env.b0|
    requires env.lo == RoundUp(env.p) && env.hi == RoundDown(env.p + n)
    requires done == n || done == 0 || (env.p + done) % 512 == 0
    requires env.p + done <= avail <= 512 * Sectors(env.g, env.cs)
    ensures Content(env.g, now, env.cs, avail)
         == InPlaceContent(Content(env.g, env.was, env.cs, avail), env.b0, env.p, done)
  {
    hide Geometry.Valid, InRange, FileSect, FileByte, Times, Quot, Rem, Distinct, RoundUp, RoundDown;
    forall i | 0 <= i < avail
      ensures Content(env.g, now, env.cs, avail)[i]
           == InPlaceContent(Content(env.g, env.was, env.cs, avail), env.b0, env.p, done)[i]
    {
      InPlaceByte(env, now, n, done, i);
    }
  }

  lemma BufferAfter(env: Env, b: seq<byte>, n: nat, done: nat, avail: nat)
    requires env.Ok() && env.Fetched(b, done) && done <= n
    requires env.lo == RoundUp(env.p) && env.hi == RoundDown(env.p + n)
    requires done == n || done == 0 || (env.p + done) % 512 == 0
    requires env.p + done <= avail <= 512 * Sectors(env.g, env.cs)
    ensures b == InPlaceBuffer(Content(env.g, env.src, env.cs, avail), env.b0, env.p, done)
  {
    hide Geometry.Valid, InRange, FileSect, FileByte, Times, Quot, Rem, Distinct, RoundUp;
    assert (env.p + done) % 512 == 0 ==> RoundDown(env.p + done) == env.p + done <= RoundDown(env.p + n);
    assert done == 0 ==> RoundDown(env.p + done) <= env.p;
    hide RoundDown;
    var c := Content(env.g, env.src, env.cs, avail);
    forall j | 0 <= j < |b|
      ensures b[j] == InPlaceBuffer(c, env.b0, env.p, done)[j]
    {
    }
  }

  lemma FrameAfter(env: Env, now: Image, done: nat)
    requires env.Ok() && env.Stored(now, done)
    ensures forall s :: 0 <= s < |now| && !OnChain(env.g, env.cs, s) ==> now[s] == env.was[s]
  {
    hide Geometry.Valid, InRange, FileSect, FileByte, Times, Quot, Rem, Distinct;
    forall s | 0 <= s < |now| && !OnChain(env.g, env.cs, s)
      ensures now[s] == env.was[s]
    {
      assert !env.Touched(env.Upto(done), s);
    }
  }

  lemma SteppedState(vol: Volume, fp: File, buff: array<byte>, env: Env, done: nat, last: int)
    requires Stepped(vol, fp, buff, env, done, last)
    ensures Usable(vol) && env.Ok() && env.p + done <= 512 * Sectors(env.g, env.cs)
    ensures env.g == vol.geo && env.cs == fp.Chain(vol)
    ensures env.Stored(vol.Image(), done) && env.Fetched(buff[..], done) && |vol.Image()| == |env.was|
    ensures done <= |env.b0|
  {
  }

  ghost predicate OnChain(g: Geometry, cs: seq<nat>, s: nat)
    requires InRange(g, cs)
  {
    exists k :: 0 <= k < Sectors(g, cs) && FileSect(g, cs, k) == s
  }

  /** f_write_inplace: the whole sectors inside the range take the bytes of the buffer, the partial ones
      at its ends are read into the buffer instead, and no sector that does not belong to the file
      changes. The window goes stale exactly if it stays on a sector whose bytes change. */
  method WriteInPlace(vol: Volume, fp: File, buff: array<byte>, btr: nat) returns (res: FResult, br: nat)
    requires vol.Valid() && buff != vol.win && btr < 0x1_0000 && btr <= buff.Length
    requires fp.Cursor(vol) && Distinct(fp.Chain(vol)) && Usable(vol)
    modifies vol, vol.win, fp`sectClust, fp`currClust, fp`currSect, fp`fptr, fp`error, buff
    ensures Usable(vol) && vol.Links() == old(vol.Links()) && |vol.Image()| == |old(vol.Image())|
    ensures old(vol.Coherent()) ==>
              (vol.Coherent() <==> vol.winSect == 0 || vol.Image()[vol.winSect] == old(vol.Image())[vol.winSect])
    ensures (vol.winSect == old(vol.winSect) && vol.win[..] == old(vol.win[..]))
            || vol.win[..] == old(vol.Image())[vol.winSect]
    ensures fp.fptr == old(fp.fptr) + br && (!fp.error ==> fp.Cursor(vol))
    ensures old(fp.fptr) + br <= |old(fp.Bytes(vol))| == |old(Seen(vol, fp))| && br <= buff.Length
    ensures fp.Bytes(vol) == InPlaceContent(old(fp.Bytes(vol)), old(buff[..]), old(fp.fptr), br)
    ensures var c := if old(Piece(vol.geo, fp.Chain(vol), fp.fptr, Wanted(fp, btr), vol.winSect))
                     then old(Seen(vol, fp)) else old(fp.Bytes(vol));
            buff[..] == InPlaceBuffer(c, old(buff[..]), old(fp.fptr), br)
    ensures forall s :: 0 <= s < |vol.Image()| && !OnChain(vol.geo, old(fp.Chain(vol)), s) ==>
              vol.Image()[s] == old(vol.Image())[s]
    ensures old(fp.error) ==> res == RwError && br == 0
    ensures !old(fp.error) && !fp.canRead ==> res == Denied && br == 0 && !fp.error
    ensures !old(fp.error) && fp.canRead ==>
              && br == Min(old(Wanted(fp, btr)), |old(fp.Bytes(vol))| - old(fp.fptr))
              && res == (if br == old(Wanted(fp, btr)) then Ok else RwError)
              && fp.error == (res != Ok)
    ensures forall k :: (old(fp.fptr) + br) / 512 <= k < Sectors(vol.geo, old(fp.Chain(vol))) ==>
              var s := FileSect(vol.geo, old(fp.Chain(vol)), k);
              s < |vol.Image()| && vol.Image()[s] == old(vol.Image())[s]
    ensures res == Ok && br == 512 && old(fp.fptr) % 512 == 0 && vol.geo.sectsClust > 0
            && Stays(vol.geo, old(fp.fptr) / 512, old(fp.fptr) / 512) ==>
              vol.winSect == old(vol.winSect) && vol.win[..] == old(vol.win[..])
  {
    hide *;
    CursorBound(vol, fp);
    ghost var n := Wanted(fp, btr);
    ghost var avail := AvailableIs(vol, fp);
    ghost var env := Begin(vol, fp, buff, n, true);
    UsableServes(vol, fp);
    BeginIs(vol, fp, buff, n, true);
    MinIs(n, avail - fp.fptr);
    WantedIs(fp, btr);
    ghost var failed := fp.error || !fp.canRead;
    res, br := ReadOrWrite(vol, fp, buff, btr, true);
    ghost var last := if res == Ok || failed then env.Last(br) else fp.fptr / 512;
    WholeUnlessDone(env.p, n, br, avail, old(fp.fsize), Sectors(env.g, env.cs));
    WriteDone(vol, fp, buff, env, n, br, avail, last);
    if res == Ok && br == 512 && env.p % 512 == 0 && vol.geo.sectsClust > 0
       && Stays(vol.geo, env.p / 512, env.p / 512) {
      WindowKept(vol, fp, buff, env);
    }
  }

  /** What an in-place transfer leaves. */
  lemma WriteDone(vol: Volume, fp: File, buff: array<byte>, env: Env, n: nat, done: nat, avail: nat, last: int)
    requires Stepped(vol, fp, buff, env, done, last) && done <= n
    requires env.lo == RoundUp(env.p) && env.hi == RoundDown(env.p + n)
    requires done == n || done == 0 || (env.p + done) % 512 == 0
    requires avail == var reach := 512 * Sectors(env.g, env.cs); if reach < fp.fsize then reach else fp.fsize
    requires env.p + done <= avail
    ensures Usable(vol) && env.w0 < |env.was| == |vol.Image()| == |vol.disk| == |env.src|
    ensures env.w0 == 0 || env.win0 == env.was[env.w0] ==>
              (vol.Coherent() <==> vol.winSect == 0 || vol.Image()[vol.winSect] == env.was[vol.winSect])
    ensures (vol.winSect == env.w0 && vol.win[..] == env.win0) || vol.win[..] == env.was[vol.winSect]
    ensures avail <= 512 * Sectors(env.g, env.cs) && done <= |env.b0|
    ensures fp.Bytes(vol) == InPlaceContent(Content(env.g, env.was, env.cs, avail), env.b0, env.p, done)
    ensures buff[..] == InPlaceBuffer(Content(env.g, env.src, env.cs, avail), env.b0, env.p, done)
    ensures forall s :: 0 <= s < |vol.Image()| && !OnChain(env.g, env.cs, s) ==> vol.Image()[s] == env.was[s]
    ensures forall k :: (env.p + done) / 512 <= k < Sectors(env.g, env.cs) ==>
              var s := FileSect(env.g, env.cs, k); s < |env.was| && vol.Image()[s] == env.was[s]
  {
    hide Geometry.Valid, FatVolume.Volume.Valid, FatVolume.Volume.Links, FatVolume.Volume.Image, FatVolume.Volume.Shown,
         FatVolume.Volume.Coherent, FatVolume.Volume.FatShown, Content, File.Chain, File.Cursor, File.Bytes, Seen,
         Env.Ok, Env.Stored, Env.Fetched, Env.Window, Sectors, Distinct, Stepped, InPlaceContent, InPlaceBuffer,
         OnChain, RoundUp, RoundDown;
    SteppedState(vol, fp, buff, env, done, last);
    ContentAfter(env, vol.Image(), n, done, avail);
    BufferAfter(env, buff[..], n, done, avail);
    FrameAfter(env, vol.Image(), done);
    BehindRange(env, vol.Image(), n, done);
    CoherentAfter(vol, fp, buff, env, done, last);
    BytesAre(vol, fp);
  }

  /** The sectors from the one in which the range ends keep their bytes. */
  lemma BehindRange(env: Env, now: Image, n: nat, done: nat)
    requires env.Ok() && env.Stored(now, done) && done <= n
    requires env.lo == RoundUp(env.p) && env.hi == RoundDown(env.p + n)
    requires done == n || done == 0 || (env.p + done) % 512 == 0
    ensures forall k :: (env.p + done) / 512 <= k < Sectors(env.g, env.cs) ==>
              var s := FileSect(env.g, env.cs, k); s < |env.was| == |now| && now[s] == env.was[s]
  {
    hide Geometry.Valid, InRange, FileSect, Times, Quot, Rem, Distinct, Env.Touched;
    forall k | (env.p + done) / 512 <= k < Sectors(env.g, env.cs)
      ensures var s := FileSect(env.g, env.cs, k); s < |env.was| == |now| && now[s] == env.was[s]
    {
      env.Unstored(now, done, k);
    }
  }

  lemma WantedIs(fp: File, btr: nat)
    requires fp.fptr <= fp.fsize
    ensures Wanted(fp, btr) <= fp.fsize - fp.fptr
  {
  }

  lemma UsableServes(vol: Volume, fp: File)
    requires vol.Valid() && Usable(vol) && Distinct(fp.Chain(vol))
    ensures Servable(vol, fp)
  {
  }

  /** A transfer that ends early ends with the chain. */
  lemma WholeUnlessDone(p: nat, n: nat, done: nat, avail: nat, fsize: nat, sectors: nat)
    requires p <= avail && p <= fsize && n <= fsize - p && (avail == fsize || avail == 512 * sectors)
    requires done == 0 || done == Min(n, avail - p)
    ensures done == n || done == 0 || (p + done) % 512 == 0
  {
  }

  lemma AvailableIs(vol: Volume, fp: File) returns (avail: nat)
    requires vol.Valid() && fp.Cursor(vol)
    ensures avail == fp.Available(vol) <= 512 * Sectors(vol.geo, fp.Chain(vol))
    ensures var reach := 512 * Sectors(vol.geo, fp.Chain(vol)); avail == if reach < fp.fsize then reach else fp.fsize
    ensures fp.fptr <= avail <= fp.fsize
  {
    avail := fp.Available(vol);
  }
}
