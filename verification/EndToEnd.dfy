/** Writing a file, opening it by its directory entry, and reading it. */
module EndToEnd {
  import opened Bytes
  import opened Layout
  import opened Chains
  import opened FatVolume
  import opened FileLayout
  import opened Files
  import opened Reading
  import opened Seeking
  import opened FlatFile
  import opened Append
  import opened Sync
  import opened Appending

  /** Any run of f_write and f_sync calls on an empty file that ends with f_sync, then f_open of its directory entry,
      then any run of f_read and f_lseek calls: what is read is what the concatenation of the written data yields,
      whatever clusters the allocator took and however the window moved. */
  method WriteOpenRead(vol: Volume, fp: File, steps: seq<Step>, time: nat, rs: seq<Request>)
    returns (outs: seq<seq<byte>>, f: File)
    requires Empty(vol, fp) && steps != [] && steps[0].Put? && Fit(vol, steps) && time < 0x1_0000_0000
    requires vol.geo.dirBase <= fp.dirSect < |vol.disk| && fp.dirOff + 32 <= 512
    requires Occupied(vol.geo, vol.Links(), fp.dirSect)
    requires forall i :: 0 <= i < |rs| && rs[i].ReadNext? ==> rs[i].n < 0x1_0000
    modifies vol, vol.win, fp`orgClust, fp`sectClust, fp`currClust, fp`currSect, fp`fptr, fp`fsize, fp`written, fp`error
    ensures Intact(vol, f) && f.Bytes(vol) == Joined(steps)
    ensures Flat(outs, f.fptr) == FlatRun(Joined(steps), 0, rs)
  {
    hide FatVolume.Volume.Valid, FatVolume.Volume.Coherent, FatVolume.Volume.Image, FatVolume.Volume.Links, Mirrored,
         Geometry.Valid, File.Cursor, File.Chain, File.Bytes, File.Available, Growing, Holding, Chain, NoOnes,
         Joined, FlatRun, Intact, OthersOnDisk, OnlyHere, StoredFile, EntryBytes, Occupied, LoadLe16, LoadLe32, Clean;
    ghost var cs, t := WriteAndSync(vol, fp, steps, time);
    var entry := vol.disk[fp.dirSect];
    f := new File(LoadLe16(entry, fp.dirOff + DIR_FST_CLUS), LoadLe32(entry, fp.dirOff + DIR_FILE_SIZE),
                  fp.dirSect, fp.dirOff, true, false);
    AtStart(vol, f);
    Opened(vol, f, cs, Joined(steps));
    outs := RunRequests(vol, f, rs);
  }

  /** The opened file is intact, and its bytes are those that were written. */
  lemma Opened(vol: Volume, f: File, cs: seq<nat>, c: seq<byte>)
    requires vol.Valid() && vol.Coherent() && !vol.winFlag
    requires InRange(vol.geo, cs) && Holding(vol.geo, vol.Image(), cs, c)
    requires if cs == [] then f.orgClust == 0 else Chain(vol.Links(), cs) && cs[0] == f.orgClust
    requires f.fsize == |c| && f.canRead && !f.error && f.fptr == 0 && f.Cursor(vol)
    ensures Intact(vol, f) && f.Bytes(vol) == c
  {
    hide FatVolume.Volume.Valid, FatVolume.Volume.Coherent, FatVolume.Volume.Image, Geometry.Valid, Holding, Chain,
         Follow, Layout.Links, FileByte, FileSect, InRange, File.Cursor, Content, Mirrored, Sectors;
    HeldContent(vol.geo, vol.Image(), cs, f.orgClust, c);
  }
}
