/** f_read_or_wr: the loop behind f_read and f_write_inplace. */
module Transfer {
  import opened Bytes
  import opened Layout
  import opened FatVolume
  import opened FileLayout
  import opened Files

  function RoundUp(p: nat): nat { (p + 511) / 512 * 512 }

  function RoundDown(p: nat): nat { p / 512 * 512 }

  /** From file sector k to file sector l the FAT is not consulted: k does not begin a cluster, unless it is the
      first one of the file, and l lies in the same cluster. */
  predicate Stays(g: Geometry, k: nat, l: nat)
    requires g.sectsClust > 0
  {
    (k == 0 || Rem(k, g.sectsClust) != 0) && Rem(k, g.sectsClust) + (l - k) < g.sectsClust
  }

  /** The state in which a transfer of len bytes starts: geometry, chain, disk, the window on sector w0 with the
      bytes win0, the caller's buffer, the position p, and the stretch [lo, hi) of the file whose bytes go from
      the buffer to the disk. All other bytes come from the file into the buffer; lo == hi == p for a plain read.
      src is where they come from: the disk, or what the window makes of it. */
  datatype Env = Env(g: Geometry, cs: seq<nat>, was: Image, src: Image, w0: nat, win0: seq<byte>, b0: seq<byte>,
                     p: nat, len: nat, lo: nat, hi: nat)
  {
    ghost predicate Ok() {
      && g.Valid(|was|) && InRange(g, cs) && |src| == |was|
      && p <= lo
      && (lo < hi ==> Distinct(cs) && lo % 512 == 0 && hi % 512 == 0 && hi <= p + |b0|)
    }

    /** What is to be fetched from sector s comes from the disk. */
    ghost predicate FromDisk(s: nat) {
      s < |src| && s < |was| && src[s] == was[s]
    }

    /** A window on sector winSect with the bytes w serves a piece of sector s: either it shows what is to be
        fetched, or the piece comes from the disk. */
    ghost predicate Serves(s: nat, winSect: nat, w: seq<byte>) {
      if s == winSect then s < |src| && w == src[s] else FromDisk(s)
    }

    /** src is what the transfer will deliver: whole sectors come from the disk; the piece at the start comes as the
        window shows it; and so does the piece at the end, if neither another piece nor the FAT takes the window
        away before. */
    ghost predicate Sourced()
      requires Ok()
    {
      && w0 < |was| && (w0 == 0 || win0 == was[w0] || Distinct(cs))
      && (forall k :: 0 <= k < Sectors(g, cs) && RoundUp(p) <= 512 * k && 512 * k + 512 <= p + len ==>
            FromDisk(FileSect(g, cs, k)))
      && (p % 512 != 0 && 0 < len && p / 512 < Sectors(g, cs) ==> Serves(FileSect(g, cs, p / 512), w0, win0))
      && ((p + len) % 512 != 0 && (p + len) / 512 < Sectors(g, cs) && (p % 512 == 0 || p / 512 < (p + len) / 512) ==>
            var k := (p + len) / 512; var s := FileSect(g, cs, k);
            if p % 512 == 0 && g.sectsClust > 0 && Stays(g, p / 512, k) then Serves(s, w0, win0) else FromDisk(s))
    }

    /** Up to file sector `last` the FAT has not been consulted, for a transfer that starts at a sector. */
    ghost predicate Near(last: int) {
      last < p / 512 || (g.sectsClust > 0 && Stays(g, p / 512, last))
    }

    /** The window may still be where it was at the start. */
    ghost predicate Undisturbed(done: nat, last: int)
      requires Ok()
    {
      if p % 512 == 0 then Near(last)
      else done == 0 || (p / 512 < Sectors(g, cs) && FileSect(g, cs, p / 512) == w0)
    }

    /** The window after `done` bytes, when the last sector stepped to is number `last`: it shows a sector as it was
        on the disk at the start, or it is still where it was; and there it is as long as only whole sectors of one
        cluster have been moved. */
    ghost predicate Window(done: nat, last: int, winSect: nat, w: seq<byte>)
      requires Ok()
    {
      && winSect < |was|
      && (w == was[winSect] || (winSect == w0 && w == win0 && Undisturbed(done, last)))
      && (p % 512 == 0 && (p + done) % 512 == 0 && Near(last) ==> winSect == w0 && w == win0)
      && (p % 512 != 0 && done == 0 ==> winSect == w0 && w == win0)
    }

    /** The last sector stepped to before the sector boundary, or in the sector, behind `done` bytes. */
    function Last(done: nat): int {
      if (p + done) % 512 == 0 then (p + done) / 512 - 1 else (p + done) / 512
    }

    function Upto(done: nat): nat {
      if p + done < hi then p + done else hi
    }

    /** Disk sector s holds one of the whole file sectors in [lo, upto). */
    ghost predicate Touched(upto: nat, s: nat)
      requires Ok()
    {
      exists k :: 0 <= k < Sectors(g, cs) && lo <= 512 * k && 512 * k + 512 <= upto && FileSect(g, cs, k) == s
    }

    /** The buffer after `done` bytes. */
    ghost predicate Fetched(b: seq<byte>, done: nat)
      requires Ok()
    {
      && |b| == |b0|
      && done <= |b|
      && p + done <= 512 * Sectors(g, cs)
      && forall j :: 0 <= j < |b| ==>
           b[j] == if j < done && !(lo <= p + j < hi) then FileByte(g, src, cs, p + j) else b0[j]
    }

    /** The disk after `done` bytes: what was to be stored is there, and nothing else has changed. */
    ghost predicate Stored(now: Image, done: nat)
      requires Ok()
    {
      && |now| == |was|
      && (forall k :: 0 <= k < Sectors(g, cs) && lo <= 512 * k && 512 * k + 512 <= Upto(done) ==> Holds(now, k))
      && (forall s :: 0 <= s < |now| && !Touched(Upto(done), s) ==> now[s] == was[s])
    }

    /** Sector k of the file holds the bytes that stood for it in the buffer. */
    ghost predicate Holds(now: Image, k: nat)
      requires Ok() && k < Sectors(g, cs) && lo <= 512 * k
    {
      && FileSect(g, cs, k) < |now|
      && 512 * k - p + 512 <= |b0|
      && now[FileSect(g, cs, k)] == b0[512 * k - p..512 * k - p + 512]
    }

    /** A sector outside the stored stretch still has its old bytes. */
    lemma Unstored(now: Image, done: nat, k: nat)
      requires Ok() && Stored(now, done) && k < Sectors(g, cs)
      requires 512 * k + 512 <= lo || hi <= 512 * k || p + done <= 512 * k || hi <= lo
      ensures FileSect(g, cs, k) < |now| && now[FileSect(g, cs, k)] == was[FileSect(g, cs, k)]
    {
      FileSectInData(g, |was|, cs, k);
      var s := FileSect(g, cs, k);
      if Touched(Upto(done), s) {
        var j :| 0 <= j < Sectors(g, cs) && lo <= 512 * j && 512 * j + 512 <= Upto(done) && FileSect(g, cs, j) == s;
        FileSectInjective(g, cs, j, k);
      }
    }

    /** Advancing over bytes that are not to be stored leaves the disk as it is. */
    lemma StoredStays(now: Image, d: nat, e: nat)
      requires Ok() && Stored(now, d) && d <= e && (hi <= lo || hi <= p + d || p + e <= lo)
      ensures Stored(now, e)
    {
      hide Geometry.Valid, InRange, FileSect, Times, Quot, Rem, Distinct;
      forall s: nat | s < |now| && !Touched(Upto(e), s)
        ensures now[s] == was[s]
      {
        assert !Touched(Upto(d), s);
      }
    }

    /** Advancing over bytes that are to be stored leaves the buffer as it is. */
    lemma FetchedStays(b: seq<byte>, d: nat, e: nat)
      requires Ok() && Fetched(b, d) && d <= e <= |b0| && p + e <= 512 * Sectors(g, cs)
      requires lo <= p + d && p + e <= hi
      ensures Fetched(b, e)
    {
      hide Geometry.Valid, InRange, FileSect, FileByte, Times, Quot, Rem, Distinct;
    }

    lemma WholeByte(now: Image, done: nat, k: nat, i: nat)
      requires Ok() && Sourced() && hi <= lo && Stored(now, done)
      requires p + done == 512 * k && k < Sectors(g, cs) && Rem(k, g.sectsClust) + i / 512 < g.sectsClust
      requires 512 * (k + i / 512) + 512 <= p + len
      ensures p + done + i < 512 * Sectors(g, cs) && FileSect(g, cs, k) + i / 512 < |now|
      ensures FileByte(g, src, cs, p + done + i) == now[FileSect(g, cs, k) + i / 512][i % 512]
    {
      hide Geometry.Valid, InRange, Times, Quot, Rem, Distinct, Touched, Stored, FileSect, Stays, Serves;
      FileSectRun(g, cs, k, i / 512);
      Unstored(now, done, k + i / 512);
      assert RoundUp(p) <= 512 * (k + i / 512);
      assert FromDisk(FileSect(g, cs, k + i / 512));
      assert (p + done + i) / 512 == k + i / 512 && (p + done + i) % 512 == i % 512;
    }

    /** A whole-sector read of c sectors from file sector k on. */
    lemma ReadWhole(now: Image, b: seq<byte>, b': seq<byte>, done: nat, k: nat, c: nat)
      requires Ok() && Sourced() && hi <= lo && Stored(now, done) && Fetched(b, done)
      requires done + 512 * c <= len
      requires p + done == 512 * k && k < Sectors(g, cs) && 0 < c && Rem(k, g.sectsClust) + c <= g.sectsClust
      requires done + 512 * c <= |b| == |b'|
      requires FileSect(g, cs, k) + c <= |now|
      requires forall i :: 0 <= i < |b| ==>
                 b'[i] == if done <= i < done + 512 * c
                          then now[FileSect(g, cs, k) + (i - done) / 512][(i - done) % 512] else b[i]
      ensures Fetched(b', done + 512 * c) && Stored(now, done + 512 * c)
    {
      hide Geometry.Valid, InRange, FileSect, Times, Quot, Rem, Distinct, FileByte, Touched, Stored, Sourced;
      FileSectRun(g, cs, k, c - 1);
      forall j: nat | done <= j < done + 512 * c
        ensures p + j < 512 * Sectors(g, cs) && b'[j] == FileByte(g, src, cs, p + j)
      {
        WholeByte(now, done, k, j - done);
      }
      StoredStays(now, done, done + 512 * c);
    }

    /** What a whole-sector write of c sectors from file sector k on does to the disk. */
    ghost predicate Wrote(now: Image, now': Image, done: nat, k: nat, c: nat)
      requires Ok() && k < Sectors(g, cs)
    {
      && p + done == 512 * k && 0 < c && Rem(k, g.sectsClust) + c <= g.sectsClust
      && lo <= 512 * k && 512 * k + 512 * c <= hi
      && FileSect(g, cs, k) + c <= |now| == |now'|
      && forall s :: 0 <= s < |now| ==>
           now'[s] == var f := FileSect(g, cs, k);
                      if f <= s < f + c
                      then b0[done + 512 * (s - f)..done + 512 * (s - f) + 512] else now[s]
    }

    /** The bytes that are written still stand in the buffer as they did at the start. */
    lemma WroteThis(now: Image, now': Image, b: seq<byte>, done: nat, k: nat, c: nat)
      requires Ok() && Fetched(b, done) && k < Sectors(g, cs)
      requires p + done == 512 * k && 0 < c && Rem(k, g.sectsClust) + c <= g.sectsClust
      requires lo <= 512 * k && 512 * k + 512 * c <= hi && done + 512 * c <= |b|
      requires FileSect(g, cs, k) + c <= |now| == |now'|
      requires forall s :: 0 <= s < |now| ==>
                 now'[s] == var f := FileSect(g, cs, k);
                            if f <= s < f + c
                            then b[done + 512 * (s - f)..done + 512 * (s - f) + 512] else now[s]
      ensures Wrote(now, now', done, k, c)
    {
      hide Geometry.Valid, InRange, FileSect, FileByte, Times, Quot, Rem, Distinct;
      assert b[done..] == b0[done..];
    }

    lemma WroteSector(now: Image, now': Image, done: nat, k: nat, c: nat, j: nat)
      requires Ok() && Stored(now, done) && k < Sectors(g, cs) && Wrote(now, now', done, k, c)
      requires j < Sectors(g, cs) && lo <= 512 * j && 512 * j + 512 <= Upto(done + 512 * c)
      ensures Holds(now', j)
    {
      hide Geometry.Valid, InRange, FileSect, Times, Quot, Rem, Distinct, Touched;
      FileSectInData(g, |was|, cs, j);
      var f, s := FileSect(g, cs, k), FileSect(g, cs, j);
      if j < k {
        assert Holds(now, j);
        if f <= s < f + c {
          FileSectRun(g, cs, k, s - f);
          FileSectInjective(g, cs, j, k + (s - f));
        }
      } else {
        FileSectRun(g, cs, k, j - k);
      }
    }

    lemma WroteElsewhere(now: Image, now': Image, done: nat, k: nat, c: nat, s: nat)
      requires Ok() && Stored(now, done) && k < Sectors(g, cs) && Wrote(now, now', done, k, c)
      requires s < |now'| && !Touched(Upto(done + 512 * c), s)
      ensures now'[s] == was[s]
    {
      hide Geometry.Valid, InRange, FileSect, Times, Quot, Rem, Distinct;
      var f := FileSect(g, cs, k);
      if f <= s < f + c {
        FileSectRun(g, cs, k, s - f);
      }
      assert !Touched(Upto(done), s);
    }

    /** A whole-sector write of c sectors from file sector k on. */
    lemma WriteWhole(now: Image, now': Image, done: nat, k: nat, c: nat)
      requires Ok() && Stored(now, done)
      requires k < Sectors(g, cs) && Wrote(now, now', done, k, c)
      ensures Stored(now', done + 512 * c)
    {
      hide Geometry.Valid, InRange, FileSect, Times, Quot, Rem, Distinct, Touched;
      assert |now'| == |now| == |was|;
      hide Wrote, Holds;
      forall j: nat | j < Sectors(g, cs) && lo <= 512 * j && 512 * j + 512 <= Upto(done + 512 * c)
        ensures Holds(now', j)
      {
        WroteSector(now, now', done, k, c, j);
      }
      forall s: nat | s < |now'| && !Touched(Upto(done + 512 * c), s)
        ensures now'[s] == was[s]
      {
        WroteElsewhere(now, now', done, k, c, s);
      }
    }

    /** A fragment of c bytes of one sector, which the window shows as w. */
    lemma ReadPart(now: Image, b: seq<byte>, b': seq<byte>, done: nat, c: nat, w: seq<byte>)
      requires Ok() && Stored(now, done) && Fetched(b, done)
      requires 0 < c && (p + done) % 512 + c <= 512 && (p + done) / 512 < Sectors(g, cs)
      requires done + c <= |b| == |b'|
      requires (done == 0 && p + c <= lo) || hi <= p + done || hi <= lo
      requires FileSect(g, cs, (p + done) / 512) < |src| && w == src[FileSect(g, cs, (p + done) / 512)]
      requires forall i :: 0 <= i < |b| ==>
                 b'[i] == if done <= i < done + c then w[(p + done) % 512 + (i - done)] else b[i]
      ensures Fetched(b', done + c) && Stored(now, done + c)
    {
      hide Geometry.Valid, InRange, FileSect, Times, Quot, Rem, Distinct, Touched, Stored;
      var k := (p + done) / 512;
      forall j | done <= j < done + c
        ensures b'[j] == FileByte(g, src, cs, p + j)
      {
        assert (p + j) / 512 == k && (p + j) % 512 == (p + done) % 512 + (j - done);
      }
      StoredStays(now, done, done + c);
    }

    /** The step to sector k, which consults the FAT where a cluster begins. */
    lemma StepWindow(now: Image, done: nat, k: nat, winSect: nat, w: seq<byte>, winSect': nat, w': seq<byte>)
      requires Ok() && Stored(now, done) && Window(done, k - 1, winSect, w) && p + done == 512 * k && g.sectsClust > 0
      requires if k > 0 && Rem(k, g.sectsClust) == 0 then g.InFat(winSect') && winSect' < |now| && w' == now[winSect']
               else winSect' == winSect && w' == w
      ensures Window(done, k, winSect', w')
    {
      hide Geometry.Valid, InRange, FileSect, Times, Quot, Rem, Distinct, Stored, Touched;
      if k > 0 {
        QuotStep(k - 1, 1, g.sectsClust);
      }
      if k > p / 512 {
        NearRem(k - 1);
        NearRem(k);
      }
      if k > 0 && Rem(k, g.sectsClust) == 0 {
        FatAsWas(now, done, winSect');
      }
    }

    /** Within one cluster the remainders count on. */
    lemma NearRem(l: nat)
      requires g.sectsClust > 0 && p / 512 <= l
      ensures Rem(p / 512, g.sectsClust) + (l - p / 512) < g.sectsClust ==>
                Rem(l, g.sectsClust) == Rem(p / 512, g.sectsClust) + (l - p / 512)
    {
      QuotStep(p / 512, l - p / 512, g.sectsClust);
    }

    /** No transfer touches a FAT. */
    lemma FatAsWas(now: Image, done: nat, s: nat)
      requires Ok() && Stored(now, done) && g.InFat(s) && s < |now|
      ensures s < |was| && now[s] == was[s]
    {
      if Touched(Upto(done), s) {
        var k :| 0 <= k < Sectors(g, cs) && lo <= 512 * k && 512 * k + 512 <= Upto(done) && FileSect(g, cs, k) == s;
        FileSectInData(g, |was|, cs, k);
      }
    }

    /** A run of c sectors of one cluster from sector k on leaves the window alone. */
    lemma RunWindow(done: nat, k: nat, c: nat, winSect: nat, w: seq<byte>)
      requires Ok() && Window(done, k, winSect, w) && p + done == 512 * k && g.sectsClust > 0
      requires 0 < c && Rem(k, g.sectsClust) + c <= g.sectsClust
      ensures Window(done + 512 * c, k + c - 1, winSect, w)
      ensures Last(done + 512 * c) == k + c - 1
    {
      hide Geometry.Valid, InRange, FileSect, Times, Quot, Rem, Distinct;
      if p / 512 <= k {
        NearRem(k);
        NearRem(k + c - 1);
        QuotStep(k, c - 1, g.sectsClust);
      }
    }

    /** The window for a piece, at the start or after the step to the last sector. */
    ghost predicate AtPiece(done: nat, c: nat) {
      && 0 < c && (p + done) % 512 + c <= 512 && done + c <= len
      && ((done == 0 && p % 512 != 0) || ((p + done) % 512 == 0 && done + c == len && c < 512))
    }

    /** A window that serves a piece at sector k. */
    lemma PieceServed(done: nat, c: nat, winSect: nat, w: seq<byte>)
      requires Ok() && Sourced() && AtPiece(done, c) && (p + done) / 512 < Sectors(g, cs)
      requires Window(done, (p + done) / 512, winSect, w)
      ensures Serves(FileSect(g, cs, (p + done) / 512), winSect, w)
    {
      hide Geometry.Valid, InRange, FileSect, Times, Quot, Rem;
      var k := (p + done) / 512;
      FileSectInData(g, |was|, cs, k);
      if done == 0 && p % 512 != 0 {
        assert Serves(FileSect(g, cs, k), w0, win0);
      } else {
        assert (p + len) / 512 == k && (p + len) % 512 != 0;
        if p % 512 != 0 && w0 != 0 && FileSect(g, cs, p / 512) == w0 == FileSect(g, cs, k) && Distinct(cs) {
          FileSectInjective(g, cs, p / 512, k);
        }
      }
    }

    /** The window behind a piece. */
    lemma PieceWindow(now: Image, done: nat, c: nat, winSect: nat, w: seq<byte>, w': seq<byte>)
      requires Ok() && Sourced() && Stored(now, done) && AtPiece(done, c) && (p + done) / 512 < Sectors(g, cs)
      requires (done == 0 && p + c <= lo) || hi <= p + done || hi <= lo
      requires Window(done, (p + done) / 512, winSect, w)
      requires FileSect(g, cs, (p + done) / 512) < |now|
      requires w' == var s := FileSect(g, cs, (p + done) / 512); if s == winSect then w else now[s]
      ensures Window(done + c, Last(done + c), FileSect(g, cs, (p + done) / 512), w')
      ensures FileSect(g, cs, (p + done) / 512) < |src| && w' == src[FileSect(g, cs, (p + done) / 512)]
    {
      hide Geometry.Valid, InRange, FileSect, Times, Quot, Rem, Distinct, Touched, Stored, Sourced, Stays;
      var k := (p + done) / 512;
      FileSectInData(g, |was|, cs, k);
      Unstored(now, done, k);
      PieceServed(done, c, winSect, w);
      assert (p + done + c) % 512 != 0 ==> (p + done + c) / 512 == k;
    }

    /** The bytes of a piece, and the window behind it. */
    lemma PieceMoved(now: Image, b: seq<byte>, b': seq<byte>, done: nat, c: nat, winSect: nat,
                     w: seq<byte>, w': seq<byte>)
      requires Ok() && Sourced() && Stored(now, done) && Fetched(b, done) && AtPiece(done, c)
      requires (p + done) / 512 < Sectors(g, cs) && done + c <= |b| == |b'| && |w'| == 512
      requires (done == 0 && p + c <= lo) || hi <= p + done || hi <= lo
      requires Window(done, (p + done) / 512, winSect, w)
      requires FileSect(g, cs, (p + done) / 512) < |now|
      requires w' == var s := FileSect(g, cs, (p + done) / 512); if s == winSect then w else now[s]
      requires forall i :: 0 <= i < |b| ==>
                 b'[i] == if done <= i < done + c then w'[(p + done) % 512 + (i - done)] else b[i]
      ensures Fetched(b', done + c) && Stored(now, done + c)
      ensures Window(done + c, Last(done + c), FileSect(g, cs, (p + done) / 512), w')
    {
      hide Ok, InRange, FileSect, Touched, Stored, Fetched, Serves, Window, Sectors, Sourced;
      PieceWindow(now, done, c, winSect, w, w');
      ReadPart(now, b, b', done, c, w');
    }
  }

  /** A transfer under way that has just stepped to file sector `last`. */
  ghost predicate Stepped(vol: Volume, fp: File, buff: array<byte>, env: Env, done: nat, last: int)
    reads vol, vol.win, fp`orgClust, fp`fsize, buff
    ensures Stepped(vol, fp, buff, env, done, last) ==>
              && vol.Valid() && vol.FatShown() && !vol.winFlag
              && env.Ok() && env.g == vol.geo && env.cs == fp.Chain(vol)
              && InRange(env.g, env.cs) && buff.Length == |env.b0|
              && env.p + done <= 512 * Sectors(env.g, env.cs) && done <= buff.Length
  {
    && vol.Valid() && vol.FatShown() && !vol.winFlag
    && env.Ok() && env.g == vol.geo && env.cs == fp.Chain(vol) && env.Sourced()
    && env.Stored(vol.Image(), done)
    && env.Fetched(buff[..], done)
    && env.Window(done, last, vol.winSect, vol.win[..])
  }

  /** A transfer under way. */
  ghost predicate Going(vol: Volume, fp: File, buff: array<byte>, env: Env, done: nat)
    reads vol, vol.win, fp`orgClust, fp`fsize, buff
    ensures Going(vol, fp, buff, env, done) ==>
              && vol.Valid() && vol.FatShown() && !vol.winFlag
              && env.Ok() && env.g == vol.geo && env.cs == fp.Chain(vol)
              && InRange(env.g, env.cs) && buff.Length == |env.b0|
              && env.p + done <= 512 * Sectors(env.g, env.cs) && done <= buff.Length
  {
    Stepped(vol, fp, buff, env, done, env.Last(done))
  }

  /** disk_write of c whole sectors of the file. */
  method WriteSectors(vol: Volume, fp: File, buff: array<byte>, off: nat, sect: nat, c: nat,
                      ghost env: Env, ghost k: nat)
    returns (ok: bool)
    requires Stepped(vol, fp, buff, env, off, k) && k < Sectors(env.g, env.cs) && sect == FileSect(env.g, env.cs, k)
    requires env.p + off == 512 * k && 0 < c && Rem(k, env.g.sectsClust) + c <= env.g.sectsClust
    requires env.lo <= 512 * k && 512 * k + 512 * c <= env.hi && off + 512 * c <= buff.Length
    requires off + 512 * c <= env.len
    modifies vol`disk
    ensures ok && Going(vol, fp, buff, env, off + 512 * c)
    ensures vol.Links() == old(vol.Links())
  {
    hide Geometry.Valid, FatVolume.Volume.Valid, FatVolume.Volume.Links, InRange, FileSect, Times, Quot, Rem, Distinct,
         Env.Window, Env.Sourced, Env.Ok, Env.Touched, Env.Stored, Env.Fetched, Mirrored, Store, Env.Last,
         FatVolume.Volume.FatShown, FatVolume.Volume.Coherent, FatVolume.Volume.Image;
    var g, cs := env.g, env.cs;
    ClusterSize(g, |vol.disk|);
    FileSectRun(g, cs, k, c - 1);
    FileSectInData(g, |vol.disk|, cs, k);
    FileSectInData(g, |vol.disk|, cs, k + c - 1);
    AreasFit(g, |vol.disk|);
    ghost var was := vol.Image();
    ok := vol.WriteThrough(buff, off, sect, c);
    env.WroteThis(was, vol.Image(), buff[..], off, k, c);
    env.WriteWhole(was, vol.Image(), off, k, c);
    env.FetchedStays(buff[..], off, off + 512 * c);
    env.RunWindow(off, k, c, vol.winSect, vol.win[..]);
  }

  /** disk_read of c whole sectors of the file. */
  method ReadSectors(vol: Volume, fp: File, buff: array<byte>, off: nat, sect: nat, c: nat,
                     ghost env: Env, ghost k: nat)
    returns (ok: bool)
    requires Stepped(vol, fp, buff, env, off, k) && k < Sectors(env.g, env.cs) && sect == FileSect(env.g, env.cs, k)
    requires buff != vol.win
    requires env.p + off == 512 * k && 0 < c && Rem(k, env.g.sectsClust) + c <= env.g.sectsClust
    requires env.hi <= env.lo && off + 512 * c <= buff.Length && off + 512 * c <= env.len
    modifies buff
    ensures ok && Going(vol, fp, buff, env, off + 512 * c)
  {
    hide Geometry.Valid, FatVolume.Volume.Valid, FatVolume.Volume.Links, InRange, FileSect, Times, Quot, Rem, Distinct,
         Env.Window, Env.Sourced, Env.Ok, Env.Touched, Env.Stored, Env.Fetched, Mirrored, Store, Env.Last;
    var g, cs := env.g, env.cs;
    ClusterSize(g, |vol.disk|);
    FileSectRun(g, cs, k, c - 1);
    FileSectInData(g, |vol.disk|, cs, k + c - 1);
    ghost var b := buff[..];
    ok := vol.DiskRead(buff, off, sect, c);
    env.ReadWhole(vol.Image(), b, buff[..], off, k, c);
    env.RunWindow(off, k, c, vol.winSect, vol.win[..]);
  }

  lemma ClusterSize(g: Geometry, total: nat)
    requires g.Valid(total)
    ensures 0 < g.sectsClust
  {
  }

  /** The direct transfer of whole sectors at a sector boundary, as many as the cluster still has. */
  method WholeSectors(vol: Volume, fp: File, buff: array<byte>, off: nat, btr: nat, modeWr: bool,
                      ghost env: Env, ghost k: nat)
    returns (ok: bool, rcnt: nat)
    requires Stepped(vol, fp, buff, env, off, k) && buff != vol.win
    requires 512 <= btr && off + btr <= buff.Length && off + btr <= env.len
    requires env.p + off == 512 * k
    requires At(vol.geo, env.cs, k, fp.currClust, fp.currSect, fp.sectClust)
    requires if modeWr then env.lo <= 512 * k && RoundDown(512 * k + btr) <= env.hi else env.hi <= env.lo
    modifies vol`disk, fp`sectClust, fp`currSect, buff
    ensures ok && Going(vol, fp, buff, env, off + rcnt)
    ensures vol.Links() == old(vol.Links())
    ensures 512 <= rcnt <= btr && rcnt % 512 == 0
    ensures At(vol.geo, env.cs, (512 * k + rcnt - 1) / 512, fp.currClust, fp.currSect, fp.sectClust)
  {
    hide Going, Stepped, FatVolume.Volume.Links, FileSect, Geometry.Valid;
    var sect := fp.currSect;
    var cc := btr / 512;
    if cc > fp.sectClust { cc := fp.sectClust; }
    AtRun(vol.geo, env.cs, k, cc - 1, fp.currClust, fp.currSect, fp.sectClust);
    if modeWr {
      ok := WriteSectors(vol, fp, buff, off, sect, cc, env, k);
    } else {
      ok := ReadSectors(vol, fp, buff, off, sect, cc, env, k);
    }
    fp.sectClust := fp.sectClust - (cc - 1);
    fp.currSect := fp.currSect + (cc - 1);
    rcnt := cc * 512;
    assert (512 * k + rcnt - 1) / 512 == k + (cc - 1);
  }

  /** memcpy from the window. */
  method CopyOut(vol: Volume, buff: array<byte>, off: nat, o: nat, n: nat)
    requires buff != vol.win && off + n <= buff.Length && o + n <= vol.win.Length
    modifies buff
    ensures forall i :: 0 <= i < buff.Length ==>
              buff[i] == if off <= i < off + n then vol.win[o + (i - off)] else old(buff[i])
  {
    forall i | off <= i < off + n {
      buff[i] := vol.win[o + (i - off)];
    }
  }

  /** The transfer of a part of a sector through the window. Also when writing, bytes only travel from the
      window to the buffer. */
  method PartSector(vol: Volume, fp: File, buff: array<byte>, off: nat, btr: nat, ghost env: Env, ghost k: nat)
    returns (ok: bool, rcnt: nat)
    requires buff != vol.win && off + btr == env.len && off + btr <= buff.Length && fp.fptr == env.p + off
    requires if fp.fptr % 512 == 0 then Stepped(vol, fp, buff, env, off, k) && btr < 512
             else Going(vol, fp, buff, env, off) && off == 0
    requires 0 < btr && k == fp.fptr / 512 && k < Sectors(env.g, env.cs) && fp.currSect == FileSect(env.g, env.cs, k)
    requires env.hi <= env.lo || env.hi <= fp.fptr
             || (off == 0 && 0 < fp.fptr % 512 && (fp.fptr + 512 - fp.fptr % 512 <= env.lo || fp.fptr + btr <= env.lo))
    modifies vol, vol.win, buff
    ensures ok && Going(vol, fp, buff, env, off + rcnt)
    ensures vol.Links() == old(vol.Links())
    ensures 0 < rcnt <= btr && (rcnt == btr || rcnt == 512 - fp.fptr % 512)
    ensures rcnt <= 512 - fp.fptr % 512
  {
    hide Geometry.Valid, FatVolume.Volume.Valid, FatVolume.Volume.Links, InRange, FileSect, Times, Quot, Rem, Distinct,
         Env.Window, Env.Sourced, Env.Ok, Env.Touched, Env.Stored, Env.Fetched, Mirrored, Store,
         FatVolume.Volume.FatShown, FatVolume.Volume.Coherent, FatVolume.Volume.Image;
    FileSectInData(vol.geo, |vol.disk|, env.cs, k);
    rcnt := 0;
    ghost var b, winSect, w := buff[..], vol.winSect, vol.win[..];
    ok := vol.MoveWindow(fp.currSect);
    if !ok { return; }
    var o := fp.fptr % 0x1_0000 % 512;
    WordOffset(fp.fptr);
    rcnt := 512 - o;
    if rcnt > btr { rcnt := btr; }
    CopyOut(vol, buff, off, o, rcnt);
    env.PieceMoved(vol.Image(), b, buff[..], off, rcnt, winSect, w, vol.win[..]);
  }

  /** The step to the next sector. */
  method Boundary(vol: Volume, fp: File, buff: array<byte>, ghost env: Env, ghost done: nat, ghost k: nat)
    returns (ok: bool)
    requires Going(vol, fp, buff, env, done) && buff != vol.win && env.p + done == 512 * k
    requires fp.Cursor(vol) && fp.fptr == 512 * k < fp.fsize
    modifies vol, vol.win, fp`sectClust, fp`currClust, fp`currSect
    ensures Stepped(vol, fp, buff, env, done, k)
    ensures vol.Links() == old(vol.Links())
    ensures ok <==> k < Sectors(env.g, env.cs)
    ensures ok ==> At(env.g, env.cs, k, fp.currClust, fp.currSect, fp.sectClust)
  {
    hide Geometry.Valid, FatVolume.Volume.Links, Times, Quot, Rem, Distinct, FatVolume.Volume.Coherent,
         FatVolume.Volume.Valid, FatVolume.Volume.Image, Mirrored, Store, InRange, FileSect, FileByte,
         Env.Window, Env.Sourced, FatVolume.Volume.FatShown, At, OnCluster, Env.Stored, Env.Fetched, Env.Ok,
         File.Chain, File.Cursor;
    ClusterSize(vol.geo, |vol.disk|);
    ghost var winSect, w := vol.winSect, vol.win[..];
    ok := NextSector(vol, fp, k);
    if vol.geo.InFat(vol.winSect) {
      vol.FatInWindow();
    }
    env.StepWindow(vol.Image(), done, k, winSect, w, vol.winSect, vol.win[..]);
  }

  /** Where the cursor stands after the bytes of sector k up to the new position have been moved. */
  lemma CursorMoved(vol: Volume, fp: File, k: nat)
    requires vol.Valid() && fp.fsize < 0x1_0000_0000
    requires At(vol.geo, fp.Chain(vol), k, fp.currClust, fp.currSect, fp.sectClust)
    requires 512 * k < fp.fptr <= 512 * k + 512 && fp.fptr <= fp.fsize
    ensures fp.Cursor(vol)
  {
    assert (fp.fptr - 1) / 512 == k;
  }

  /** A cursor inside a sector is exact. */
  lemma CursorInside(vol: Volume, fp: File)
    requires vol.Valid() && fp.Cursor(vol) && fp.fptr % 512 != 0
    ensures At(vol.geo, fp.Chain(vol), fp.fptr / 512, fp.currClust, fp.currSect, fp.sectClust)
  {
    assert (fp.fptr - 1) / 512 == fp.fptr / 512;
  }

  /** Which part of the range comes next. */
  lemma Alignment(p: nat, fptr: nat, btr: nat)
    requires p <= fptr && (fptr % 512 == 0 || fptr == p)
    ensures p <= RoundUp(p)
    ensures fptr % 512 == 0 ==> RoundUp(p) <= fptr && fptr == 512 * (fptr / 512)
    ensures fptr % 512 == 0 && btr < 512 ==> RoundDown(fptr + btr) <= fptr
    ensures fptr % 512 != 0 ==> fptr + 512 - fptr % 512 == RoundUp(p)
  {
  }

  /** The part of the loop body at a sector boundary. */
  method AtBoundary(vol: Volume, fp: File, buff: array<byte>, br: nat, btr: nat, modeWr: bool, ghost env: Env)
    returns (ok: bool, rcnt: nat)
    requires vol.Valid() && Going(vol, fp, buff, env, br) && buff != vol.win
    requires fp.Cursor(vol) && fp.fptr == env.p + br && br + btr == env.len && env.len <= buff.Length
    requires 0 < btr && fp.fptr + btr <= fp.fsize && fp.fptr % 512 == 0
    requires if modeWr then env.lo == RoundUp(env.p) && env.hi == RoundDown(fp.fptr + btr) else env.lo == env.hi
    modifies vol, vol.win, fp`sectClust, fp`currClust, fp`currSect, buff
    ensures if ok then Going(vol, fp, buff, env, br + rcnt) else Stepped(vol, fp, buff, env, br, fp.fptr / 512)
    ensures vol.Links() == old(vol.Links())
    ensures rcnt <= btr
    ensures ok ==> 0 < rcnt && (rcnt % 512 == 0 || rcnt == btr)
                   && At(env.g, env.cs, (fp.fptr + rcnt - 1) / 512, fp.currClust, fp.currSect, fp.sectClust)
    ensures !ok ==> rcnt == 0 && fp.fptr == 512 * Sectors(env.g, env.cs)
  {
    hide *;
    ghost var k := fp.fptr / 512;
    rcnt := 0;
    Alignment(env.p, fp.fptr, btr);
    CursorBound(vol, fp);
    ok := Boundary(vol, fp, buff, env, br, k);
    if !ok {
      return;
    }
    AtSector(env.g, env.cs, k, fp.currClust, fp.currSect, fp.sectClust);
    if btr / 512 > 0 {
      ok, rcnt := WholeSectors(vol, fp, buff, br, btr, modeWr, env, k);
    } else {
      ok, rcnt := PartSector(vol, fp, buff, br, btr, env, k);
    }
  }

  /** The part of the loop body inside a sector. */
  method AtFragment(vol: Volume, fp: File, buff: array<byte>, btr: nat, modeWr: bool, ghost env: Env)
    returns (ok: bool, rcnt: nat)
    requires vol.Valid() && Going(vol, fp, buff, env, 0) && buff != vol.win
    requires fp.Cursor(vol) && fp.fptr == env.p && btr == env.len <= buff.Length
    requires 0 < btr && fp.fptr + btr <= fp.fsize && fp.fptr % 512 != 0
    requires if modeWr then env.lo == RoundUp(env.p) && env.hi == RoundDown(fp.fptr + btr) else env.lo == env.hi
    modifies vol, vol.win, buff
    ensures ok && Going(vol, fp, buff, env, rcnt)
    ensures vol.Links() == old(vol.Links())
    ensures 0 < rcnt <= btr && (rcnt == btr || (fp.fptr + rcnt) % 512 == 0)
    ensures At(env.g, env.cs, (fp.fptr + rcnt - 1) / 512, fp.currClust, fp.currSect, fp.sectClust)
  {
    hide *;
    ghost var k := fp.fptr / 512;
    Alignment(env.p, fp.fptr, btr);
    CursorInside(vol, fp);
    AtSector(env.g, env.cs, k, fp.currClust, fp.currSect, fp.sectClust);
    ok, rcnt := PartSector(vol, fp, buff, 0, btr, env, k);
    assert (fp.fptr + rcnt - 1) / 512 == k;
  }

  /** One round of the loop. */
  method Round(vol: Volume, fp: File, buff: array<byte>, br: nat, btr: nat, modeWr: bool, ghost env: Env)
    returns (ok: bool, rcnt: nat)
    requires vol.Valid() && Going(vol, fp, buff, env, br) && buff != vol.win
    requires fp.Cursor(vol) && fp.fptr == env.p + br && br + btr == env.len && env.len <= buff.Length
    requires 0 < btr && fp.fptr + btr <= fp.fsize
    requires fp.fptr % 512 == 0 || br == 0
    requires if modeWr then env.lo == RoundUp(env.p) && env.hi == RoundDown(fp.fptr + btr) else env.lo == env.hi
    modifies vol, vol.win, fp`sectClust, fp`currClust, fp`currSect, fp`fptr, buff
    ensures if ok then Going(vol, fp, buff, env, br + rcnt) else Stepped(vol, fp, buff, env, br, fp.fptr / 512)
    ensures vol.Links() == old(vol.Links())
    ensures fp.fptr == old(fp.fptr) + rcnt && rcnt <= btr
    ensures ok ==> 0 < rcnt && fp.Cursor(vol) && (fp.fptr % 512 == 0 || rcnt == btr)
    ensures !ok ==> rcnt == 0 && fp.fptr == 512 * Sectors(env.g, env.cs)
  {
    hide *;
    CursorBound(vol, fp);
    if fp.fptr % 512 == 0 {
      ok, rcnt := AtBoundary(vol, fp, buff, br, btr, modeWr, env);
      if !ok {
        return;
      }
    } else {
      ok, rcnt := AtFragment(vol, fp, buff, btr, modeWr, env);
    }
    fp.fptr := fp.fptr + rcnt;
    CursorMoved(vol, fp, (fp.fptr - 1) / 512);
  }

  lemma AtSector(g: Geometry, cs: seq<nat>, k: nat, currClust: nat, currSect: nat, sectClust: nat)
    requires InRange(g, cs) && At(g, cs, k, currClust, currSect, sectClust)
    ensures k < Sectors(g, cs) && currSect == FileSect(g, cs, k)
  {
  }

  lemma CursorBound(vol: Volume, fp: File)
    requires vol.Valid() && fp.Cursor(vol)
    ensures fp.fptr <= 512 * Sectors(vol.geo, fp.Chain(vol)) && fp.fptr <= fp.fsize < 0x1_0000_0000
  {
  }

  function Min(a: nat, b: nat): nat { if a <= b then a else b }

  /** Part of the n bytes from p on is a piece of sector winSect that comes through the window as it is at the
      start: the piece at the start of the range, or the piece at its end, if the range starts at a sector and the
      FAT is not consulted on the way. */
  ghost predicate Piece(g: Geometry, cs: seq<nat>, p: nat, n: nat, winSect: nat)
    requires InRange(g, cs)
  {
    || (p % 512 != 0 && 0 < n && p / 512 < Sectors(g, cs) && FileSect(g, cs, p / 512) == winSect)
    || (p % 512 == 0 && (p + n) % 512 != 0 && (p + n) / 512 < Sectors(g, cs)
        && g.sectsClust > 0 && Stays(g, p / 512, (p + n) / 512) && FileSect(g, cs, (p + n) / 512) == winSect)
  }

  /** The state in which f_read_or_wr starts. In write mode the whole sectors inside the requested range
      are stored; everything else is read. */
  ghost function Begin(vol: Volume, fp: File, buff: array<byte>, n: nat, modeWr: bool): Env
    requires vol.Valid()
    reads vol, vol.win, fp`orgClust, fp`fsize, fp`fptr, buff
  {
    Env(vol.geo, fp.Chain(vol), vol.Image(),
        if Piece(vol.geo, fp.Chain(vol), fp.fptr, n, vol.winSect) then vol.Shown() else vol.Image(),
        vol.winSect, vol.win[..], buff[..], fp.fptr, n,
        if modeWr then RoundUp(fp.fptr) else fp.fptr, if modeWr then RoundDown(fp.fptr + n) else fp.fptr)
  }

  /** The number of bytes a call may move at all. */
  ghost function Wanted(fp: File, btr: nat): nat
    requires fp.fptr <= fp.fsize
    reads fp`fptr, fp`fsize
  {
    Min(btr, fp.fsize - fp.fptr)
  }

  /** The loop of f_read_or_wr. */
  method TransferLoop(vol: Volume, fp: File, buff: array<byte>, n: nat, modeWr: bool, ghost env: Env)
    returns (ok: bool, br: nat)
    requires vol.Valid() && Going(vol, fp, buff, env, 0) && buff != vol.win && n == env.len <= buff.Length
    requires fp.Cursor(vol) && fp.fptr == env.p && env.p + n <= fp.fsize
    requires if modeWr then env.lo == RoundUp(env.p) && env.hi == RoundDown(env.p + n) else env.lo == env.hi
    modifies vol, vol.win, fp`sectClust, fp`currClust, fp`currSect, fp`fptr, buff
    ensures if ok then Going(vol, fp, buff, env, br) else Stepped(vol, fp, buff, env, br, fp.fptr / 512)
    ensures vol.Links() == old(vol.Links())
    ensures fp.fptr == env.p + br && br <= n
    ensures ok ==> br == n && fp.Cursor(vol)
    ensures !ok ==> br < n && fp.fptr == 512 * Sectors(env.g, env.cs)
  {
    hide *;
    var btr := n;
    br := 0;
    while btr > 0
      invariant vol.Valid() && Going(vol, fp, buff, env, br)
      invariant vol.Links() == old(vol.Links())
      invariant fp.Cursor(vol) && fp.fptr == env.p + br && br + btr == n
      invariant fp.fptr % 512 == 0 || br == 0 || btr == 0
    {
      var more, rcnt := Round(vol, fp, buff, br, btr, modeWr, env);
      if !more {
        return false, br;
      }
      br := br + rcnt;
      btr := btr - rcnt;
    }
    ok := true;
  }

  /** What f_read_or_wr takes: a window that is not dirty, whatever it shows. A stale window, with a chain that
      visits a cluster twice, is left out. */
  ghost predicate Servable(vol: Volume, fp: File)
    reads vol, vol.win, fp`orgClust, fp`fsize
    ensures Servable(vol, fp) ==> vol.Valid() && vol.FatShown() && !vol.winFlag
  {
    vol.Valid() && vol.FatShown() && !vol.winFlag && (vol.Coherent() || Distinct(fp.Chain(vol)))
  }

  /** f_read_or_wr on an open file. It moves every byte that the chain provides and reports an error
      exactly when the chain ends before the requested range does. */
  method ReadOrWrite(vol: Volume, fp: File, buff: array<byte>, btr0: nat, modeWr: bool)
    returns (res: FResult, br: nat)
    requires vol.Valid() && buff != vol.win && btr0 < 0x1_0000 && btr0 <= buff.Length
    requires fp.Cursor(vol) && Servable(vol, fp)
    requires modeWr ==> Distinct(fp.Chain(vol))
    modifies vol, vol.win, fp`sectClust, fp`currClust, fp`currSect, fp`fptr, fp`error, buff
    ensures old(fp.error) ==> res == RwError
    ensures !old(fp.error) && !fp.canRead ==> res == Denied
    ensures old(fp.error) || !fp.canRead ==> br == 0 && fp.fptr == old(fp.fptr) && fp.error == old(fp.error)
    ensures var env := old(Begin(vol, fp, buff, Wanted(fp, btr0), modeWr));
            Stepped(vol, fp, buff, env, br,
                    if res == Ok || old(fp.error) || !fp.canRead then env.Last(br) else fp.fptr / 512)
    ensures vol.Links() == old(vol.Links())
    ensures fp.fptr == old(fp.fptr) + br
    ensures !old(fp.error) && fp.canRead ==>
              && br == Min(old(Wanted(fp, btr0)), old(fp.Available(vol)) - old(fp.fptr))
              && (res == Ok <==> br == old(Wanted(fp, btr0)))
              && (res == Ok || res == RwError)
              && (fp.error <==> res != Ok)
    ensures !fp.error ==> fp.Cursor(vol)
  {
    hide *;
    br := 0;
    CursorBound(vol, fp);
    ghost var n := Wanted(fp, btr0);
    ghost var env := Begin(vol, fp, buff, n, modeWr);
    Started(vol, fp, buff, btr0, modeWr);
    GoingIs(vol, fp, buff, env, 0);
    if fp.error { return RwError, 0; }
    if !fp.canRead { return Denied, 0; }
    var remain: nat := fp.fsize - fp.fptr;
    var btr: nat := if btr0 > remain then remain % 0x1_0000 else btr0;
    var ok;
    ok, br := TransferLoop(vol, fp, buff, btr, modeWr, env);
    if !ok {
      fp.error := true;
      return RwError, br;
    }
    CursorBound(vol, fp);
    GoingIs(vol, fp, buff, env, br);
    res := Ok;
  }

  lemma GoingIs(vol: Volume, fp: File, buff: array<byte>, env: Env, done: nat)
    requires Going(vol, fp, buff, env, done)
    ensures Stepped(vol, fp, buff, env, done, env.Last(done))
  {
  }

  lemma Started(vol: Volume, fp: File, buff: array<byte>, btr: nat, modeWr: bool)
    requires vol.Valid() && fp.Cursor(vol) && fp.fptr <= fp.fsize && Servable(vol, fp)
    requires btr <= buff.Length && (modeWr ==> Distinct(fp.Chain(vol)))
    ensures var n := Wanted(fp, btr); var env := Begin(vol, fp, buff, n, modeWr);
            && n == (if btr <= fp.fsize - fp.fptr then btr else fp.fsize - fp.fptr)
            && Going(vol, fp, buff, env, 0)
            && env.p == fp.fptr && env.len == n && env.g == vol.geo && env.cs == fp.Chain(vol)
            && (if modeWr then env.lo == RoundUp(env.p) && env.hi == RoundDown(env.p + n) else env.lo == env.hi)
            && forall a: nat :: Min(n, a) == if n <= a then n else a
    ensures fp.Available(vol) == if fp.fsize <= 512 * Sectors(vol.geo, fp.Chain(vol)) then fp.fsize
                                 else 512 * Sectors(vol.geo, fp.Chain(vol))
    ensures fp.fptr <= fp.Available(vol) && fp.fsize < 0x1_0000_0000
  {
    hide Geometry.Valid, FatVolume.Volume.Links, Times, Quot, Rem, FileSect, RoundUp, RoundDown, Mirrored, Store,
         FatVolume.Volume.FatShown, Env.Sourced, Piece, Stays, FatVolume.Volume.Shown, FatVolume.Volume.Image;
    Alignment(fp.fptr, fp.fptr, 0);
    RoundingFits(fp.fptr, Wanted(fp, btr));
    BeginSourced(vol, fp, buff, Wanted(fp, btr), modeWr);
  }

  /** The source of the bytes at the start of a transfer. */
  lemma BeginSourced(vol: Volume, fp: File, buff: array<byte>, n: nat, modeWr: bool)
    requires Servable(vol, fp) && Begin(vol, fp, buff, n, modeWr).Ok()
    ensures Begin(vol, fp, buff, n, modeWr).Sourced()
    ensures var env := Begin(vol, fp, buff, n, modeWr); env.Window(0, env.Last(0), vol.winSect, vol.win[..])
  {
    hide Geometry.Valid, FatVolume.Volume.Links, FatVolume.Volume.Valid, Times, Quot, Rem, FileSect, Mirrored, Store,
         FatVolume.Volume.FatShown, FatVolume.Volume.Image, InRange, Sectors;
    var env, g, cs, p := Begin(vol, fp, buff, n, modeWr), vol.geo, fp.Chain(vol), fp.fptr;
    vol.ShownIsImage();
    forall k | 0 <= k < Sectors(g, cs)
      ensures 0 < FileSect(g, cs, k) < |env.was|
    {
      FileSectInData(g, |env.was|, cs, k);
    }
    forall k | 0 <= k < Sectors(g, cs) && RoundUp(p) <= 512 * k && 512 * k + 512 <= p + n
      ensures env.FromDisk(FileSect(g, cs, k))
    {
      if !vol.Coherent() && FileSect(g, cs, k) == vol.winSect {
        if p % 512 != 0 && p / 512 < Sectors(g, cs) && FileSect(g, cs, p / 512) == vol.winSect {
          FileSectInjective(g, cs, k, p / 512);
        }
        if (p + n) / 512 < Sectors(g, cs) && FileSect(g, cs, (p + n) / 512) == vol.winSect && (p + n) % 512 != 0 {
          FileSectInjective(g, cs, k, (p + n) / 512);
        }
      }
    }
    if (p + n) / 512 < Sectors(g, cs) && p / 512 < (p + n) / 512 && !vol.Coherent()
       && FileSect(g, cs, p / 512) == FileSect(g, cs, (p + n) / 512) {
      FileSectInjective(g, cs, p / 512, (p + n) / 512);
    }
  }

  lemma RoundingFits(p: nat, n: nat)
    ensures RoundUp(p) % 512 == 0 && RoundDown(p + n) % 512 == 0 && RoundDown(p + n) <= p + n
  {
  }
}
