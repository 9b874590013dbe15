/** Reading and seeking refine a flat byte sequence with a position. */
module FlatFile {
  import opened Bytes
  import opened Layout
  import opened Chains
  import opened FatVolume
  import opened FileLayout
  import opened Files
  import opened Transfer
  import opened Reading
  import opened Seeking

  datatype Request = ReadNext(n: nat) | SeekTo(ofs: nat)

  datatype Flat = Flat(outs: seq<seq<byte>>, pos: nat)

  /** What one request yields on a flat byte sequence. */
  function FlatStep(c: seq<byte>, pos: nat, r: Request): (f: Flat)
    requires pos <= |c|
    ensures f.pos <= |c|
  {
    match r
    case ReadNext(n) =>
      var take := Min(n, |c| - pos);
      Flat([c[pos..pos + take]], pos + take)
    case SeekTo(ofs) => Flat([], Min(ofs, |c|))
  }

  /** What a run of requests yields on a flat byte sequence. */
  function FlatRun(c: seq<byte>, pos: nat, rs: seq<Request>): (f: Flat)
    requires pos <= |c|
    ensures f.pos <= |c|
    decreases |rs|
  {
    if rs == [] then Flat([], pos)
    else
      var now := FlatStep(c, pos, rs[0]);
      var rest := FlatRun(c, now.pos, rs[1..]);
      Flat(now.outs + rest.outs, rest.pos)
  }

  /** A file whose chain provides all its bytes, open for reading. */
  ghost predicate Intact(vol: Volume, fp: File)
    reads vol, vol.win, fp
    ensures Intact(vol, fp) ==> vol.Valid() && |fp.Bytes(vol)| == fp.fsize
  {
    Clean(vol) && fp.canRead && !fp.error && fp.Cursor(vol) && fp.Available(vol) == fp.fsize
  }

  lemma IntactStart(vol: Volume, fp: File)
    requires Intact(vol, fp)
    ensures fp.fsize == 0 || SeekableStart(vol, fp)
    ensures fp.fptr <= fp.fsize < 0x1_0000_0000
  {
    if fp.fsize > 0 {
      SeekStart(vol, fp);
    }
  }

  /** One f_read on an intact file. */
  method ReadOnce(vol: Volume, fp: File, n: nat) returns (out: seq<byte>)
    requires Intact(vol, fp) && n < 0x1_0000
    modifies vol, vol.win, fp`sectClust, fp`currClust, fp`currSect, fp`fptr, fp`error
    ensures Intact(vol, fp) && vol.Image() == old(vol.Image()) && vol.Links() == old(vol.Links())
    ensures fp.Bytes(vol) == old(fp.Bytes(vol))
    ensures var take := Min(n, fp.fsize - old(fp.fptr));
            && fp.fptr == old(fp.fptr) + take
            && old(fp.fptr) + take <= |fp.Bytes(vol)|
            && out == fp.Bytes(vol)[old(fp.fptr)..old(fp.fptr) + take]
  {
    hide FatVolume.Volume.Valid, FatVolume.Volume.Coherent, FatVolume.Volume.Image, FatVolume.Volume.Links, File.Cursor,
         Follow, Content, Piece, Seen, FatVolume.Volume.FatShown, Geometry.Valid, Mirrored, Store;
    IntactStart(vol, fp);
    SeenIsBytes(vol, fp);
    var buff := new byte[n];
    var res, br := Read(vol, fp, buff, n);
    out := buff[..br];
  }

  /** One f_lseek on an intact file. */
  method SeekOnce(vol: Volume, fp: File, ofs: nat)
    requires Intact(vol, fp)
    modifies vol, vol.win, fp`sectClust, fp`currClust, fp`currSect, fp`fptr, fp`error
    ensures Intact(vol, fp) && vol.Image() == old(vol.Image()) && vol.Links() == old(vol.Links())
    ensures fp.Bytes(vol) == old(fp.Bytes(vol))
    ensures fp.fptr == Min(ofs, fp.fsize)
  {
    hide FatVolume.Volume.Valid, FatVolume.Volume.Coherent, FatVolume.Volume.Image, FatVolume.Volume.Links, File.Cursor,
         Follow, Content, ChainEnd;
    IntactStart(vol, fp);
    var res := LSeek(vol, fp, ofs);
  }

  /** One request. */
  method Serve(vol: Volume, fp: File, r: Request) returns (out: seq<seq<byte>>)
    requires Intact(vol, fp) && (r.ReadNext? ==> r.n < 0x1_0000)
    modifies vol, vol.win, fp`sectClust, fp`currClust, fp`currSect, fp`fptr, fp`error
    ensures Intact(vol, fp) && vol.Image() == old(vol.Image()) && vol.Links() == old(vol.Links())
    ensures fp.Bytes(vol) == old(fp.Bytes(vol))
    ensures fp.fptr <= |fp.Bytes(vol)| && old(fp.fptr) <= |fp.Bytes(vol)|
    ensures Flat(out, fp.fptr) == FlatStep(fp.Bytes(vol), old(fp.fptr), r)
  {
    IntactStart(vol, fp);
    hide FatVolume.Volume.Valid, FatVolume.Volume.Coherent, FatVolume.Volume.Image, FatVolume.Volume.Links, File.Cursor,
         Follow, Content, File.Chain;
    match r
    case ReadNext(n) =>
      var bytes := ReadOnce(vol, fp, n);
      out := [bytes];
    case SeekTo(ofs) =>
      SeekOnce(vol, fp, ofs);
      out := [];
  }

  lemma FlatEnd(c: seq<byte>)
    ensures forall pos: nat :: pos <= |c| ==> FlatRun(c, pos, []) == Flat([], pos)
  {
  }

  /** The request that is served next. */
  lemma FlatNext(c: seq<byte>, pos: nat, rs: seq<Request>, i: nat, outs: seq<seq<byte>>)
    requires pos <= |c| && i < |rs|
    ensures var f := FlatStep(c, pos, rs[i]); var rest := FlatRun(c, f.pos, rs[i + 1..]);
            var all := FlatRun(c, pos, rs[i..]);
            outs + all.outs == (outs + f.outs) + rest.outs && all.pos == rest.pos
  {
    assert rs[i..][0] == rs[i] && rs[i..][1..] == rs[i + 1..];
  }

  /** Every run of f_read and f_lseek on an intact file, however its clusters are scattered, yields what
      the flat byte sequence yields. */
  method RunRequests(vol: Volume, fp: File, rs: seq<Request>) returns (outs: seq<seq<byte>>)
    requires Intact(vol, fp)
    requires forall i :: 0 <= i < |rs| && rs[i].ReadNext? ==> rs[i].n < 0x1_0000
    modifies vol, vol.win, fp`sectClust, fp`currClust, fp`currSect, fp`fptr, fp`error
    ensures Intact(vol, fp) && vol.Image() == old(vol.Image()) && vol.Links() == old(vol.Links())
    ensures fp.Bytes(vol) == old(fp.Bytes(vol))
    ensures old(fp.fptr) <= |fp.Bytes(vol)|
    ensures Flat(outs, fp.fptr) == FlatRun(fp.Bytes(vol), old(fp.fptr), rs)
  {
    IntactStart(vol, fp);
    hide FatVolume.Volume.Valid, FatVolume.Volume.Coherent, FatVolume.Volume.Image, FatVolume.Volume.Links, File.Cursor,
         Follow, Content, File.Chain, Intact, FlatStep, File.Bytes, Geometry.Valid, Mirrored, Store,
         File.Available, FlatRun;
    ghost var c, p := fp.Bytes(vol), fp.fptr;
    outs := [];
    assert rs[0..] == rs;
    FlatEnd(c);
    var i := 0;
    while i < |rs|
      invariant 0 <= i <= |rs| && Intact(vol, fp) && vol.Image() == old(vol.Image()) && fp.Bytes(vol) == c
      invariant vol.Links() == old(vol.Links())
      invariant fp.fptr <= |c|
      invariant FlatRun(c, p, rs) == var rest := FlatRun(c, fp.fptr, rs[i..]); Flat(outs + rest.outs, rest.pos)
      decreases |rs| - i
    {
      FlatNext(c, fp.fptr, rs, i, outs);
      var out := Serve(vol, fp, rs[i]);
      outs := outs + out;
      i := i + 1;
    }
  }

  /** Path independence: on an intact file the position fields are determined by the position, so a seek
      leaves exactly the state that reading up to the same place leaves. */
  lemma CursorDetermined(vol: Volume, a: File, b: File)
    requires Intact(vol, a) && Intact(vol, b)
    requires a.orgClust == b.orgClust && a.fsize == b.fsize && a.fptr == b.fptr
    ensures a.sectClust == b.sectClust
    ensures a.fptr > 0 ==> a.currClust == b.currClust && a.currSect == b.currSect
  {
  }

  /** Two open objects of one file, the one moved by any run of requests, the other by a single seek to the same
      place: the same position, sector counter, cluster and sector, and from there on the same bytes. */
  method SeekMatchesRun(vol: Volume, a: File, b: File, rs: seq<Request>)
    requires Intact(vol, a) && Intact(vol, b) && a != b && a.orgClust == b.orgClust && a.fsize == b.fsize
    requires forall i :: 0 <= i < |rs| && rs[i].ReadNext? ==> rs[i].n < 0x1_0000
    modifies vol, vol.win, a`sectClust, a`currClust, a`currSect, a`fptr, a`error,
             b`sectClust, b`currClust, b`currSect, b`fptr, b`error
    ensures Intact(vol, a) && Intact(vol, b) && vol.Image() == old(vol.Image())
    ensures b.fptr == a.fptr && b.sectClust == a.sectClust
    ensures a.fptr > 0 ==> b.currClust == a.currClust && b.currSect == a.currSect
  {
    hide FatVolume.Volume.Valid, FatVolume.Volume.Coherent, FatVolume.Volume.Image, FatVolume.Volume.Links,
         Follow, Content, FlatRun, FlatStep, FileSect, OnCluster, Sectors, Geometry.Valid, InRange, Times, Quot, Rem;
    IntactStart(vol, a);
    var _ := RunRequests(vol, a, rs);
    assert Intact(vol, b);
    IntactStart(vol, a);
    SeekOnce(vol, b, a.fptr);
    assert Intact(vol, a);
    CursorDetermined(vol, a, b);
  }
}
