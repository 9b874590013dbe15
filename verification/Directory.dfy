/** Directories as flat lists of 32-byte slots: next_dir_entry, trace_path and f_readdir. */
module Directory {
  import opened Bytes
  import opened Layout
  import opened Chains
  import Allocation
  import opened FatVolume
  import opened FileLayout
  import opened Files
  import opened Names

  const AM_VOL := 0x08
  const AM_DIR := 0x10

  /** Where the slots of a directory lie: in the fixed root area or in a chain of clusters. */
  datatype Place = RootDir | ClusterDir(cs: seq<nat>)

  /** Bitwise conjunction of two numbers. */
  function BitAnd(a: nat, b: nat): nat {
    if a == 0 || b == 0 then 0 else (a % 2) * (b % 2) + 2 * BitAnd(a / 2, b / 2)
  }

  function PowerOfTwo(j: nat): (m: nat)
    ensures m > 0
  {
    if j == 0 then 1 else 2 * PowerOfTwo(j - 1)
  }

  lemma HalfRem(a: nat, m: nat)
    requires m > 0
    ensures a % (2 * m) == 2 * (a / 2 % m) + a % 2 && a / (2 * m) == a / 2 / m
  {
    var q, r := a / 2 / m, a / 2 % m;
    assert a == q * (2 * m) + (2 * r + a % 2) by {
      assert a / 2 == q * m + r;
      assert q * (2 * m) == 2 * (q * m);
    }
    DivModUnique(a, 2 * m, q, 2 * r + a % 2);
  }

  lemma OddAnd(a: nat, n: nat)
    ensures BitAnd(a, 2 * n + 1) == a % 2 + 2 * BitAnd(a / 2, n)
  {
    assert (2 * n + 1) % 2 == 1 && (2 * n + 1) / 2 == n;
  }

  /** Masking with one less than a power of two takes the remainder. */
  lemma {:induction false} MaskIsRem(a: nat, j: nat)
    ensures BitAnd(a, PowerOfTwo(j) - 1) == a % PowerOfTwo(j)
    decreases j
  {
    if j > 0 {
      var m := PowerOfTwo(j - 1);
      MaskIsRem(a / 2, j - 1);
      OddAnd(a, m - 1);
      HalfRem(a, m);
    }
  }

  /** Cluster sizes are powers of two. */
  ghost predicate PowerSized(g: Geometry) {
    exists j: nat :: g.sectsClust == PowerOfTwo(j)
  }

  ghost predicate PlaceOk(g: Geometry, links: seq<nat>, place: Place) {
    && PowerSized(g)
    && match place
       case RootDir => g.nRootDir > 0
       case ClusterDir(cs) => InRange(g, cs) && Chain(links, cs) && 16 * Sectors(g, cs) <= 0x1_0000
  }

  /** Number of slots. */
  function Slots(g: Geometry, place: Place): nat {
    match place
    case RootDir => g.nRootDir
    case ClusterDir(cs) => 16 * Sectors(g, cs)
  }

  /** The sector of slot i. */
  ghost function SlotSect(g: Geometry, place: Place, i: nat): nat
    requires place.ClusterDir? ==> InRange(g, place.cs)
    requires i < Slots(g, place)
  {
    match place
    case RootDir => g.dirBase + i / 16
    case ClusterDir(cs) => FileSect(g, cs, i / 16)
  }

  lemma SlotInData(g: Geometry, total: nat, links: seq<nat>, place: Place, i: nat)
    requires g.Valid(total) && PlaceOk(g, links, place) && i < Slots(g, place)
    ensures 0 < g.dirBase <= SlotSect(g, place, i) < total
  {
    AreasFit(g, total);
    match place
    case RootDir =>
    case ClusterDir(cs) => FileSectInData(g, total, cs, i / 16);
  }

  /** The bytes of slot i. */
  ghost function Slot(g: Geometry, img: Image, links: seq<nat>, place: Place, i: nat): (e: seq<byte>)
    requires g.Valid(|img|) && PlaceOk(g, links, place) && i < Slots(g, place)
    ensures |e| == 32
  {
    SlotInData(g, |img|, links, place, i);
    img[SlotSect(g, place, i)][i % 16 * 32..i % 16 * 32 + 32]
  }

  /** DIR: a position in a directory. */
  class DirObject {
    var index: nat
    var sclust: nat
    var clust: nat
    var sect: nat

    /** The head of trace_path: the first slot of the fixed root. */
    constructor Root(vol: Volume)
      requires vol.Valid() && PlaceOk(vol.geo, vol.Links(), RootDir)
      ensures At(vol, RootDir, 0)
    {
      RootStart(vol.geo, vol.Links());
      index, sclust, clust, sect := 0, 0, 0, vol.geo.dirBase;
    }

    /** The object stands at slot i. */
    ghost predicate At(vol: Volume, place: Place, i: nat)
      reads this, vol, vol.win
    {
      && vol.Valid() && PlaceOk(vol.geo, vol.Links(), place)
      && i < Slots(vol.geo, place) && index == i && sect == SlotSect(vol.geo, place, i)
      && match place
         case RootDir => clust == 0
         case ClusterDir(cs) => OnTable(vol.geo, cs, i / 16, clust)
    }
  }

  ghost predicate OnTable(g: Geometry, cs: seq<nat>, k: nat, clust: nat)
    requires InRange(g, cs)
  {
    k < Sectors(g, cs) && (QuotBelow(k, |cs|, g.sectsClust); clust == cs[Quot(k, g.sectsClust)])
  }

  /** Where the slot after slot i lies. */
  lemma NextSlot(g: Geometry, links: seq<nat>, place: Place, i: nat, total: nat)
    requires g.Valid(total) && PlaceOk(g, links, place) && i < Slots(g, place) <= 0x1_0000
    requires |links| == g.maxClust
    ensures (i + 1) % 16 != 0 ==> i + 1 < Slots(g, place) && SlotSect(g, place, i + 1) == SlotSect(g, place, i)
    ensures (i + 1) % 16 == 0 && place.RootDir? && i + 1 < Slots(g, place) ==>
              SlotSect(g, place, i + 1) == SlotSect(g, place, i) + 1
    ensures (i + 1) % 16 != 0 ==> (i + 1) / 16 == i / 16
    ensures (i + 1) % 16 == 0 ==> (i + 1) / 16 == i / 16 + 1
  {
    assert Slots(g, place) % 16 == 0;
  }

  lemma NextTableSector(g: Geometry, links: seq<nat>, cs: seq<nat>, k: nat, clust: nat)
    requires InRange(g, cs) && Chain(links, cs) && |links| == g.maxClust && OnTable(g, cs, k, clust)
    ensures g.DataCluster(clust) && clust < |links|
    ensures (k + 1) % g.sectsClust != 0 ==>
              && OnTable(g, cs, k + 1, clust)
              && FileSect(g, cs, k + 1) == FileSect(g, cs, k) + 1
    ensures (k + 1) % g.sectsClust == 0 ==>
              && (k + 1 < Sectors(g, cs) <==> g.DataCluster(links[clust]))
              && (k + 1 < Sectors(g, cs) ==>
                   && OnTable(g, cs, k + 1, links[clust])
                   && FileSect(g, cs, k + 1) == g.Clust2Sect(links[clust]))
  {
    var m := g.sectsClust;
    QuotIsDivision(k + 1, m);
    QuotStep(k, 1, m);
    QuotBelow(k, |cs|, m);
    QuotBelow(k + 1, |cs|, m);
    LinkAtEnd(links, cs, Quot(k, m));
  }

  lemma LinkAtEnd(links: seq<nat>, cs: seq<nat>, x: nat)
    requires Chain(links, cs) && x < |cs|
    ensures x + 1 < |cs| ==> links[cs[x]] == cs[x + 1]
    ensures x + 1 == |cs| ==> links[cs[x]] >= |links|
  {
  }

  /** The 16-bit index and the masks of next_dir_entry find sector and cluster boundaries, also when the
      index wraps behind slot 65535. */
  lemma Boundaries(g: Geometry, links: seq<nat>, place: Place, i: nat, total: nat)
    requires g.Valid(total) && PlaceOk(g, links, place) && i < Slots(g, place)
    ensures i + 1 <= Slots(g, place) <= 0x1_0000 && 0 < g.sectsClust
    ensures var idx := (i + 1) % 0x1_0000;
            && (BitAnd(idx, 15) == 0 <==> (i + 1) % 16 == 0)
            && (i + 1 < 0x1_0000 ==> idx == i + 1)
            && (place.RootDir? ==> idx == i + 1)
            && (place.ClusterDir? ==>
                 (BitAnd(idx / 16, g.sectsClust - 1) == 0 <==> (i + 1) / 16 % g.sectsClust == 0))
  {
    hide Chain, InRange;
    var idx := (i + 1) % 0x1_0000;
    FifteenIsMask();
    MaskIsRem(idx, 4);
    var j: nat :| g.sectsClust == PowerOfTwo(j);
    MaskIsRem(idx / 16, j);
    if place.ClusterDir? && i + 1 == 0x1_0000 {
      WholeClusters(|place.cs|, g.sectsClust);
      assert (i + 1) / 16 == Sectors(g, place.cs);
      ZeroRem(g.sectsClust);
    }
  }

  lemma FifteenIsMask()
    ensures PowerOfTwo(4) == 16
  {
    assert PowerOfTwo(2) == 4;
  }

  lemma ZeroRem(m: nat)
    requires m > 0
    ensures 0 % m == 0
  {
  }

  lemma WholeClusters(n: nat, m: nat)
    requires m > 0
    ensures Times(n, m) % m == 0
  {
    QuotAt(n, 0, m);
    QuotIsDivision(Times(n, m), m);
  }

  /** If the window stands for sector s, it is up to date; on another sector it may be stale. */
  ghost predicate Current(vol: Volume, s: nat)
    requires vol.Valid()
    reads vol, vol.win
  {
    vol.FatShown() && (vol.winSect == s && s > 0 ==> vol.win[..] == vol.Image()[s])
  }

  lemma CurrentWhere(vol: Volume, s: nat)
    requires vol.Valid()
    ensures vol.Coherent() ==> Current(vol, s)
    ensures vol.winSect == s && vol.FatShown() && vol.win[..] == vol.Image()[s] ==> vol.Coherent()
  {
    if vol.winFlag {
      assert vol.Image()[vol.winSect] == vol.win[..];
    }
  }

  /** The step over a sector boundary in a directory that is a chain of clusters. */
  method NextTable(vol: Volume, d: DirObject, ghost cs: seq<nat>, ghost k: nat, mask: nat) returns (ok: bool)
    requires vol.Valid() && vol.FatShown() && InRange(vol.geo, cs) && Chain(vol.Links(), cs)
    requires OnTable(vol.geo, cs, k, d.clust) && d.sect == FileSect(vol.geo, cs, k) + 1
    requires vol.geo.sectsClust > 0 && (mask == 0 <==> (k + 1) % vol.geo.sectsClust == 0)
    modifies vol, vol.win, d`clust, d`sect
    ensures vol.Valid() && vol.FatShown() && vol.Image() == old(vol.Image()) && vol.Links() == old(vol.Links())
    ensures old(vol.Coherent()) ==> vol.Coherent()
    ensures ok <==> k + 1 < Sectors(vol.geo, cs)
    ensures ok ==> OnTable(vol.geo, cs, k + 1, d.clust) && d.sect == FileSect(vol.geo, cs, k + 1)
  {
    hide Geometry.Valid, FatVolume.Volume.Valid, FatVolume.Volume.Coherent, FatVolume.Volume.Image,
         FatVolume.Volume.Links, Chain, FileSect, InRange;
    NextTableSector(vol.geo, vol.Links(), cs, k, d.clust);
    if mask == 0 {
      var clust := vol.GetCluster(d.clust);
      if clust < 2 || clust >= vol.geo.maxClust { return false; }
      d.clust := clust;
      d.sect := vol.geo.Clust2Sect(clust);
    }
    ok := true;
  }

  /** next_dir_entry: the slots of a directory are visited one after the other, and the step fails exactly
      behind the last one. */
  method NextDirEntry(vol: Volume, d: DirObject, ghost place: Place, ghost i: nat) returns (ok: bool)
    requires vol.Valid() && vol.FatShown() && d.At(vol, place, i)
    modifies vol, vol.win, d`index, d`clust, d`sect
    ensures vol.Valid() && vol.FatShown() && vol.Image() == old(vol.Image()) && vol.Links() == old(vol.Links())
    ensures old(vol.Coherent()) ==> vol.Coherent()
    ensures ok <==> i + 1 < Slots(vol.geo, place)
    ensures ok ==> d.At(vol, place, i + 1)
  {
    hide Geometry.Valid, FatVolume.Volume.Valid, FatVolume.Volume.Coherent, FatVolume.Volume.Image,
         FatVolume.Volume.Links, Chain, FileSect, Quot, Rem, Times, InRange, OnTable, PowerSized, BitAnd;
    Boundaries(vol.geo, vol.Links(), place, i, |vol.disk|);
    NextSlot(vol.geo, vol.Links(), place, i, |vol.disk|);
    TableStart(vol, d, place, i);
    var idx := (d.index + 1) % 0x1_0000;
    if BitAnd(idx, 15) == 0 {
      d.sect := d.sect + 1;
      if d.clust == 0 {
        if idx >= vol.geo.nRootDir { return false; }
      } else {
        ok := NextTable(vol, d, place.cs, i / 16, BitAnd(idx / 16, vol.geo.sectsClust - 1));
        if !ok { return; }
      }
    }
    d.index := idx;
    ok := true;
  }

  lemma TableStart(vol: Volume, d: DirObject, place: Place, i: nat)
    requires d.At(vol, place, i)
    ensures place.ClusterDir? <==> d.clust != 0
    ensures place.ClusterDir? ==> InRange(vol.geo, place.cs)
  {
    hide FatVolume.Volume.Valid, FatVolume.Volume.Links, FileSect;
    if place.ClusterDir? {
      QuotBelow(i / 16, |place.cs|, vol.geo.sectsClust);
      assert vol.geo.DataCluster(place.cs[Quot(i / 16, vol.geo.sectsClust)]);
    }
  }

  // ---------------------------------------------------------------------------------------------------
  // Slots as bytes

  lemma DoubleAnd(a: nat, m: nat)
    ensures BitAnd(a, 2 * m) == 2 * BitAnd(a / 2, m)
  {
    assert 2 * m % 2 == 0 && 2 * m / 2 == m;
  }

  /** Bit j of a number. */
  lemma {:induction false} BitIs(a: nat, j: nat)
    ensures BitAnd(a, PowerOfTwo(j)) == a / PowerOfTwo(j) % 2 * PowerOfTwo(j)
    decreases j
  {
    hide BitAnd;
    if j > 0 {
      var m := PowerOfTwo(j - 1);
      BitIs(a / 2, j - 1);
      HalfRem(a, m);
      DoubleAnd(a, m);
      assert a / (2 * m) % 2 * (2 * m) == 2 * (a / 2 / m % 2 * m);
    } else {
      LowestBit(a);
    }
  }

  lemma LowestBit(a: nat)
    ensures BitAnd(a, 1) == a % 2
  {
    assert BitAnd(a / 2, 0) == 0;
  }

  lemma SlotOffset(i: nat, j: nat)
    requires j < 32
    ensures (32 * i + j) / 512 == i / 16 && (32 * i + j) % 512 == i % 16 * 32 + j
  {
    DivModUnique(32 * i + j, 512, i / 16, i % 16 * 32 + j);
  }

  /** The slots of a directory that is a chain of clusters are 32 bytes of its content each, in order. */
  lemma SlotIsContent(g: Geometry, img: Image, links: seq<nat>, cs: seq<nat>, i: nat, j: nat)
    requires g.Valid(|img|) && PlaceOk(g, links, ClusterDir(cs)) && i < Slots(g, ClusterDir(cs)) && j < 32
    ensures InRange(g, cs) && 32 * i + j < 512 * Sectors(g, cs)
    ensures Slot(g, img, links, ClusterDir(cs), i)[j] == FileByte(g, img, cs, 32 * i + j)
  {
    hide Geometry.Valid, FileSect, InRange, Chain, Sectors, PowerSized;
    SlotOffset(i, j);
    SlotInData(g, |img|, links, ClusterDir(cs), i);
    var w := img[FileSect(g, cs, i / 16)];
    assert w[i % 16 * 32..i % 16 * 32 + 32][j] == w[i % 16 * 32 + j];
  }

  /** Those of the fixed root lie behind the FATs. */
  lemma SlotOfRoot(g: Geometry, img: Image, links: seq<nat>, i: nat, j: nat)
    requires g.Valid(|img|) && PlaceOk(g, links, RootDir) && i < g.nRootDir && j < 32
    ensures g.dirBase + (32 * i + j) / 512 < |img|
    ensures Slot(g, img, links, RootDir, i)[j] == img[g.dirBase + (32 * i + j) / 512][(32 * i + j) % 512]
  {
    hide Geometry.Valid;
    SlotInData(g, |img|, links, RootDir, i);
    assert SlotSect(g, RootDir, i) == g.dirBase + i / 16;
    SlotOffset(i, j);
  }

  // ---------------------------------------------------------------------------------------------------
  // Lookup

  /** A live entry with the given name. */
  predicate Matches(e: seq<byte>, name: seq<byte>)
    requires |e| == 32
  {
    e[0] != 0xE5 && (e[11] as nat) / AM_VOL % 2 == 0 && e[..11] == name
  }

  /** The first matching slot from slot i on; a free-forever slot ends the search. */
  ghost function FirstHit(g: Geometry, img: Image, links: seq<nat>, place: Place, i: nat, name: seq<byte>)
    : (h: Option<nat>)
    requires g.Valid(|img|) && PlaceOk(g, links, place) && i <= Slots(g, place)
    ensures h.Some? ==> i <= h.value < Slots(g, place) && Matches(Slot(g, img, links, place, h.value), name)
    decreases Slots(g, place) - i
  {
    if i == Slots(g, place) || Slot(g, img, links, place, i)[0] == 0 then None
    else if Matches(Slot(g, img, links, place, i), name) then Some(i)
    else FirstHit(g, img, links, place, i + 1, name)
  }

  /** The search finds a slot exactly when it is the first match before any end mark. */
  lemma {:induction false} FirstHitMeaning(g: Geometry, img: Image, links: seq<nat>, place: Place, i: nat,
                                           name: seq<byte>, k: nat)
    requires g.Valid(|img|) && PlaceOk(g, links, place) && i <= k < Slots(g, place)
    ensures FirstHit(g, img, links, place, i, name) == Some(k) <==>
              && (forall j :: i <= j <= k ==> Slot(g, img, links, place, j)[0] != 0)
              && Matches(Slot(g, img, links, place, k), name)
              && (forall j :: i <= j < k ==> !Matches(Slot(g, img, links, place, j), name))
    decreases k - i
  {
    hide Geometry.Valid, PlaceOk, Slot, Matches;
    if i < k {
      FirstHitMeaning(g, img, links, place, i + 1, name, k);
    }
  }

  /** `Missing` is the directory that a last segment was not found in, and the field it was searched with. */
  datatype Lookup =
    | Found(place: Place, slot: nat)
    | Missing(place: Place, name: seq<byte>)
    | Failed(res: FResult)
    | Broken

  /** The directory that an entry names. */
  ghost function SubDir(links: seq<nat>, e: seq<byte>): Place
    requires |e| == 32
  {
    ClusterDir(Follow(links, LoadLe16(e, 26), |links|))
  }

  /** First-match lookup of a path, segment by segment; subdirectories are searched behind their first two
      slots. `Broken` marks a directory entry without a complete chain. */
  ghost function Resolve(g: Geometry, img: Image, links: seq<nat>, place: Place, start: nat, path: seq<byte>, pos: nat)
    : Lookup
    requires g.Valid(|img|) && PlaceOk(g, links, place) && start <= Slots(g, place) && pos <= |path|
    decreases |path| - pos
  {
    var e := SegmentEnd(path, pos);
    var last := e == |path| || path[e] == 0;
    if !Accepts(path[pos..e]) then Failed(InvalidName)
    else
      var hit := FirstHit(g, img, links, place, start, Field(path[pos..e]));
      if hit.None? then if last then Missing(place, Field(path[pos..e])) else Failed(NoPath)
      else if last then Found(place, hit.value)
      else
        var entry := Slot(g, img, links, place, hit.value);
        var sub := SubDir(links, entry);
        if (entry[11] as nat) / AM_DIR % 2 == 0 then Failed(NoPath)
        else if !PlaceOk(g, links, sub) then Broken
        else if Slots(g, sub) < 3 then Broken
        else Resolve(g, img, links, sub, 2, path, e + 1)
  }

  /** An entry that a search may end at: in use, not deleted (0xE5), and no volume label (attribute bit 0x08). */
  ghost predicate Live(e: seq<byte>)
    requires |e| == 32
  {
    e[0] != 0 && e[0] != 0xE5 && BitAnd(e[11], 0x08) == 0
  }

  lemma BitsOf(a: byte)
    ensures BitAnd(a, 0x08) == 0 <==> a / 8 % 2 == 0
    ensures BitAnd(a, 0x10) == 0 <==> a / 16 % 2 == 0
  {
    FifteenIsMask();
    assert PowerOfTwo(3) == 8;
    BitIs(a, 3);
    BitIs(a, 4);
  }

  /** Slot k is the first from slot i on that carries the name and may be found. */
  ghost predicate Hits(g: Geometry, img: Image, links: seq<nat>, place: Place, i: nat, name: seq<byte>, k: nat)
    requires g.Valid(|img|) && PlaceOk(g, links, place)
  {
    && i <= k < Slots(g, place)
    && (forall j :: i <= j <= k ==> Slot(g, img, links, place, j)[0] != 0)
    && (forall j :: i <= j < k ==>
          !(Live(Slot(g, img, links, place, j)) && Slot(g, img, links, place, j)[..11] == name))
    && Live(Slot(g, img, links, place, k)) && Slot(g, img, links, place, k)[..11] == name
  }

  lemma HitsExactly(g: Geometry, img: Image, links: seq<nat>, place: Place, i: nat, name: seq<byte>, k: nat)
    requires g.Valid(|img|) && PlaceOk(g, links, place) && i <= Slots(g, place)
    ensures FirstHit(g, img, links, place, i, name) == Some(k) <==> Hits(g, img, links, place, i, name, k)
  {
    hide Geometry.Valid, PlaceOk, Slot, FirstHit, BitAnd;
    if i <= k < Slots(g, place) {
      FirstHitMeaning(g, img, links, place, i, name, k);
      forall j | i <= j <= k
        ensures Slot(g, img, links, place, j)[0] != 0 ==>
                  (Matches(Slot(g, img, links, place, j), name)
                   <==> Live(Slot(g, img, links, place, j)) && Slot(g, img, links, place, j)[..11] == name)
      {
        BitsOf(Slot(g, img, links, place, j)[11]);
      }
    }
  }

  /** What a segment of a path leads to: a file or directory at the end of the path, and before that a directory
      (attribute bit 0x10), whose start cluster is at byte 26 and which is searched from its third slot on. */
  lemma SegmentLeads(g: Geometry, img: Image, links: seq<nat>, place: Place, start: nat, path: seq<byte>, pos: nat)
    requires g.Valid(|img|) && PlaceOk(g, links, place) && start <= Slots(g, place) && pos <= |path|
    ensures var e := SegmentEnd(path, pos); var s := path[pos..e]; var last := e == |path| || path[e] == 0;
            var r := Resolve(g, img, links, place, start, path, pos);
            && (!Accepts(s) ==> r == Failed(InvalidName))
            && (Accepts(s) && (forall k: nat :: !Hits(g, img, links, place, start, Field(s), k)) ==>
                  r == if last then Missing(place, Field(s)) else Failed(NoPath))
            && (Accepts(s) ==> forall k: nat :: Hits(g, img, links, place, start, Field(s), k) ==>
                  Leads(g, img, links, place, k, last, path, e, r))
  {
    hide Geometry.Valid, PlaceOk, Slot, FirstHit, Hits, Leads, Resolve, Accepts, Field;
    var e := SegmentEnd(path, pos);
    var s, last := path[pos..e], e == |path| || path[e] == 0;
    ResolveStep(g, img, links, place, start, path, pos);
    if Accepts(s) {
      var hit := FirstHit(g, img, links, place, start, Field(s));
      if hit.Some? {
        HitsExactly(g, img, links, place, start, Field(s), hit.value);
      }
      forall k: nat | Hits(g, img, links, place, start, Field(s), k)
        ensures Leads(g, img, links, place, k, last, path, e, Resolve(g, img, links, place, start, path, pos))
      {
        HitsExactly(g, img, links, place, start, Field(s), k);
        EntryLeads(g, img, links, place, start, path, pos, k);
      }
    }
  }

  /** The entry of a subdirectory names it by the start of its chain. */
  lemma SubDirIs(g: Geometry, links: seq<nat>, e: seq<byte>, cs: seq<nat>)
    requires |e| == 32 && Chain(links, cs) && cs[0] == (e[26] as nat) + 256 * (e[27] as nat)
    ensures SubDir(links, e) == ClusterDir(cs)
  {
    Allocation.ChainShort(links, cs);
    FollowWhole(links, cs, |links|);
  }

  lemma EntryLeads(g: Geometry, img: Image, links: seq<nat>, place: Place, start: nat, path: seq<byte>, pos: nat,
                   k: nat)
    requires g.Valid(|img|) && PlaceOk(g, links, place) && start <= Slots(g, place) && pos <= |path|
    requires Accepts(path[pos..SegmentEnd(path, pos)])
    requires FirstHit(g, img, links, place, start, Field(path[pos..SegmentEnd(path, pos)])) == Some(k)
    ensures var e := SegmentEnd(path, pos);
            Leads(g, img, links, place, k, e == |path| || path[e] == 0, path, e,
                  Resolve(g, img, links, place, start, path, pos))
  {
    hide Geometry.Valid, Slot, FirstHit, Accepts, Field, SubDir, BitAnd;
    var entry := Slot(g, img, links, place, k);
    BitsOf(entry[11]);
    forall cs | PlaceOk(g, links, ClusterDir(cs)) && cs[0] == (entry[26] as nat) + 256 * (entry[27] as nat)
      ensures SubDir(links, entry) == ClusterDir(cs)
    {
      SubDirIs(g, links, entry, cs);
    }
  }

  ghost predicate Leads(g: Geometry, img: Image, links: seq<nat>, place: Place, k: nat, last: bool,
                        path: seq<byte>, e: nat, r: Lookup)
    requires g.Valid(|img|) && PlaceOk(g, links, place) && e <= |path| && (e < |path| || last)
  {
    k < Slots(g, place) &&
    var entry := Slot(g, img, links, place, k);
    if last then r == Found(place, k)
    else if BitAnd(entry[11], 0x10) == 0 then r == Failed(NoPath)
    else
      forall cs :: PlaceOk(g, links, ClusterDir(cs)) && cs[0] == (entry[26] as nat) + 256 * (entry[27] as nat)
                   && Slots(g, ClusterDir(cs)) > 2 ==>
        r == Resolve(g, img, links, ClusterDir(cs), 2, path, e + 1)
  }

  /** The entry that the window shows. */
  lemma WindowSlot(vol: Volume, place: Place, i: nat)
    requires vol.Valid() && PlaceOk(vol.geo, vol.Links(), place) && i < Slots(vol.geo, place)
    requires vol.winSect == SlotSect(vol.geo, place, i) && vol.win[..] == vol.Image()[vol.winSect]
    ensures i % 16 * 32 + 32 <= 512
    ensures vol.win[i % 16 * 32..i % 16 * 32 + 32] == Slot(vol.geo, vol.Image(), vol.Links(), place, i)
  {
    hide FatVolume.Volume.Image, FatVolume.Volume.Links, SlotSect;
    var o := i % 16 * 32;
    assert vol.win[..][o..o + 32] == vol.win[o..o + 32];
  }

  /** The look at one slot in the search for a name. */
  method LookAt(vol: Volume, d: DirObject, name: array<byte>, ghost place: Place, ghost slot: nat)
    returns (end: bool, hit: bool, off: nat)
    requires vol.Valid() && Current(vol, d.sect) && d.At(vol, place, slot) && name.Length == 12 && name != vol.win
    modifies vol, vol.win
    ensures vol.Valid() && vol.Coherent() && vol.Image() == old(vol.Image()) && vol.Links() == old(vol.Links())
    ensures PlaceOk(vol.geo, vol.Links(), place) && slot < Slots(vol.geo, place) && off == slot % 16 * 32
    ensures vol.winSect == d.sect && vol.win[..] == vol.Image()[vol.winSect]
    ensures var e := Slot(vol.geo, vol.Image(), vol.Links(), place, slot);
            end == (e[0] == 0) && hit == (e[0] != 0 && Matches(e, name[..11]))
  {
    hide Geometry.Valid, FatVolume.Volume.Valid, FatVolume.Volume.Coherent, FatVolume.Volume.Image,
         FatVolume.Volume.FatShown, FatVolume.Volume.Links, Chain, FileSect, InRange, OnTable, BitAnd, PlaceOk,
         SlotSect, Slot;
    FifteenIsMask();
    SlotInData(vol.geo, |vol.disk|, vol.Links(), place, slot);
    MaskIsRem(d.index, 4);
    end, hit, off := false, false, 0;
    var ok := vol.MoveWindow(d.sect);
    if !ok { return; }
    CurrentWhere(vol, d.sect);
    off := BitAnd(d.index, 15) * 32;
    WindowSlot(vol, place, slot);
    var entry := vol.win[off..off + 32];
    assert entry[..11] == vol.win[off..off + 11];
    end := entry[0] == 0;
    hit := !end && entry[0] != 0xE5 && (entry[11] as nat) / AM_VOL % 2 == 0 && entry[..11] == name[..11];
  }

  /** The inner loop of trace_path: search one directory for a name. */
  method SearchDir(vol: Volume, d: DirObject, name: array<byte>, ghost place: Place, ghost start: nat)
    returns (found: bool, off: nat, ghost slot: nat)
    requires vol.Valid() && Current(vol, d.sect) && d.At(vol, place, start) && name.Length == 12 && name != vol.win
    modifies vol, vol.win, d`index, d`clust, d`sect
    ensures vol.Valid() && vol.Coherent() && vol.Image() == old(vol.Image()) && vol.Links() == old(vol.Links())
    ensures PlaceOk(vol.geo, vol.Links(), place) && start < Slots(vol.geo, place)
    ensures FirstHit(vol.geo, vol.Image(), vol.Links(), place, start, name[..11])
         == if found then Some(slot) else None
    ensures found ==> && d.At(vol, place, slot) && off == slot % 16 * 32
                      && vol.winSect == SlotSect(vol.geo, place, slot) && vol.win[..] == vol.Image()[vol.winSect]
                      && name[..] == old(name[..])
  {
    hide Geometry.Valid, FatVolume.Volume.Valid, FatVolume.Volume.Coherent, FatVolume.Volume.Image,
         FatVolume.Volume.FatShown, FatVolume.Volume.Links, Chain, FileSect, InRange, OnTable, PlaceOk, SlotSect, Slot,
         Matches, Current;
    found, off, slot := false, 0, start;
    ghost var img, links := vol.Image(), vol.Links();
    while true
      invariant vol.Valid() && Current(vol, d.sect) && vol.Image() == img && vol.Links() == links
      invariant start <= slot && d.At(vol, place, slot)
      invariant FirstHit(vol.geo, img, links, place, start, name[..11])
             == FirstHit(vol.geo, img, links, place, slot, name[..11])
      decreases Slots(vol.geo, place) - slot
    {
      var end, hit;
      end, hit, off := LookAt(vol, d, name, place, slot);
      if end { return; }
      if hit {
        found := true;
        return;
      }
      var ok := NextDirEntry(vol, d, place, slot);
      if !ok { return; }
      slot := slot + 1;
      CurrentWhere(vol, d.sect);
    }
  }

  /** Where the search of a subdirectory begins. */
  lemma SubStart(g: Geometry, links: seq<nat>, e: seq<byte>)
    requires |e| == 32 && PlaceOk(g, links, SubDir(links, e)) && 3 <= Slots(g, SubDir(links, e))
    ensures var clust, sub := LoadLe16(e, 26), SubDir(links, e);
            && InRange(g, sub.cs) && OnTable(g, sub.cs, 0, clust) && StartsAt(clust, sub)
            && SlotSect(g, sub, 2) == g.Clust2Sect(clust)
  {
    var clust := LoadLe16(e, 26);
    var cs := Follow(links, clust, |links|);
    FollowSteps(links, clust, |links|, 0);
    QuotBelow(0, |cs|, g.sectsClust);
  }

  /** The start cluster of a directory, 0 for the fixed root. */
  ghost predicate StartsAt(sclust: nat, place: Place) {
    match place
    case RootDir => sclust == 0
    case ClusterDir(cs) => cs != [] && sclust == cs[0]
  }

  ghost predicate Standing(vol: Volume, d: DirObject, place: Place, slot: nat, off: nat)
    reads vol, vol.win, d
  {
    && d.At(vol, place, slot) && vol.Coherent() && off == slot % 16 * 32
    && vol.winSect == SlotSect(vol.geo, place, slot) && vol.win[..] == vol.Image()[vol.winSect]
  }

  /** One step of the lookup. */
  lemma ResolveStep(g: Geometry, img: Image, links: seq<nat>, place: Place, start: nat, path: seq<byte>, pos: nat)
    requires g.Valid(|img|) && PlaceOk(g, links, place) && start <= Slots(g, place) && pos <= |path|
    ensures var e := SegmentEnd(path, pos); var s := path[pos..e]; var last := e == |path| || path[e] == 0;
            var r := Resolve(g, img, links, place, start, path, pos);
            && (!Accepts(s) ==> r == Failed(InvalidName))
            && (Accepts(s) ==>
                 var hit := FirstHit(g, img, links, place, start, Field(s));
                 && (hit.None? ==> r == if last then Missing(place, Field(s)) else Failed(NoPath))
                 && (hit.Some? && last ==> r == Found(place, hit.value))
                 && (hit.Some? && !last ==>
                      var entry := Slot(g, img, links, place, hit.value); var sub := SubDir(links, entry);
                      if (entry[11] as nat) / AM_DIR % 2 == 0 then r == Failed(NoPath)
                      else r == Broken || (&& PlaceOk(g, links, sub) && 3 <= Slots(g, sub) && e < |path|
                                           && r == Resolve(g, img, links, sub, 2, path, e + 1))))
  {
    hide Geometry.Valid, PlaceOk, FirstHit, Accepts, Field, Slot, SubDir, Slots;
  }

  /** The step of trace_path into the directory whose entry the window shows. */
  method EnterDir(vol: Volume, d: DirObject, off: nat, ghost place: Place, ghost slot: nat)
    returns (ghost sub: Place)
    requires Standing(vol, d, place, slot, off)
    requires var sub := SubDir(vol.Links(), Slot(vol.geo, vol.Image(), vol.Links(), place, slot));
             PlaceOk(vol.geo, vol.Links(), sub) && 3 <= Slots(vol.geo, sub)
    modifies d
    ensures sub == SubDir(vol.Links(), Slot(vol.geo, vol.Image(), vol.Links(), place, slot))
    ensures d.At(vol, sub, 2) && StartsAt(d.sclust, sub)
  {
    hide Geometry.Valid, FatVolume.Volume.Valid, FatVolume.Volume.Coherent, FatVolume.Volume.Image,
         FatVolume.Volume.Links, Chain, FileSect, InRange, OnTable, PlaceOk, Slot, Follow;
    WindowSlot(vol, place, slot);
    ghost var e := Slot(vol.geo, vol.Image(), vol.Links(), place, slot);
    assert e == vol.win[off..off + 32];
    SubStart(vol.geo, vol.Links(), e);
    sub := SubDir(vol.Links(), e);
    var clust := vol.LoadWord(off + 26);
    d.clust, d.sclust := clust, clust;
    d.sect := vol.geo.Clust2Sect(clust);
    d.index := 2;
  }

  /** Whether the entry in the window is a directory. */
  method IsDir(vol: Volume, d: DirObject, off: nat, ghost place: Place, ghost slot: nat) returns (dir: bool)
    requires Standing(vol, d, place, slot, off)
    ensures dir == ((Slot(vol.geo, vol.Image(), vol.Links(), place, slot)[11] as nat) / AM_DIR % 2 == 1)
  {
    hide Geometry.Valid, FatVolume.Volume.Valid, FatVolume.Volume.Coherent, FatVolume.Volume.Image,
         FatVolume.Volume.Links, Chain, FileSect, InRange, OnTable, PlaceOk, Slot;
    WindowSlot(vol, place, slot);
    ghost var e := Slot(vol.geo, vol.Image(), vol.Links(), place, slot);
    assert e == vol.win[off..off + 32];
    dir := (vol.win[off + 11] as nat) / AM_DIR % 2 == 1;
  }

  /** trace_path: walk the directories that a path names, from the root. For every path whose directories
      are intact it returns what the first-match lookup over their slot lists returns, with the entry in
      the window. */
  method TracePath(vol: Volume, d: DirObject, path: seq<byte>, fn: array<byte>)
    returns (res: FResult, isEntry: bool, off: nat)
    requires vol.Valid() && Current(vol, vol.geo.dirBase) && PlaceOk(vol.geo, vol.Links(), RootDir)
    requires fn.Length == 12 && fn != vol.win
    requires path != [] && path[0] != 0 ==>
               Resolve(vol.geo, vol.Image(), vol.Links(), RootDir, 0, path, 0) != Broken
    modifies vol, vol.win, d, fn
    ensures vol.Valid() && vol.FatShown() && vol.Image() == old(vol.Image()) && vol.Links() == old(vol.Links())
    ensures path == [] || path[0] == 0 ==> res == Ok && !isEntry
    ensures path != [] && path[0] != 0 ==>
              match Resolve(vol.geo, vol.Image(), vol.Links(), RootDir, 0, path, 0)
              case Found(place, slot) =>
                && res == Ok && isEntry && Standing(vol, d, place, slot, off) && StartsAt(d.sclust, place)
                && fn[..11] == Slot(vol.geo, vol.Image(), vol.Links(), place, slot)[..11]
              case Missing(place, name) =>
                res == NoFile && !isEntry && StartsAt(d.sclust, place) && fn[..11] == name && fn[11] == 0
              case Failed(r) => res == r && !isEntry
              case Broken => true
  {
    hide Geometry.Valid, FatVolume.Volume.Valid, FatVolume.Volume.Coherent, FatVolume.Volume.Image,
         FatVolume.Volume.Links, Chain, FileSect, InRange, OnTable, PlaceOk, Slot, FirstHit, Accepts, Field,
         SegmentEnd, Follow, SubDir, Resolve, SlotSect;
    ghost var img, links := vol.Image(), vol.Links();
    isEntry, off := false, 0;
    d.sclust, d.clust := 0, 0;
    d.sect := vol.geo.dirBase;
    d.index := 0;
    if path == [] || path[0] == 0 {
      return Ok, false, 0;
    }
    RootStart(vol.geo, links);
    var pos: nat := 0;
    ghost var place, start: nat := RootDir, 0;
    while true
      invariant vol.Valid() && Current(vol, d.sect) && vol.Image() == img && vol.Links() == links
      invariant d.At(vol, place, start) && pos <= |path| && PlaceOk(vol.geo, links, place)
      invariant start <= Slots(vol.geo, place) && StartsAt(d.sclust, place)
      invariant Resolve(vol.geo, img, links, RootDir, 0, path, 0)
             == Resolve(vol.geo, img, links, place, start, path, pos) != Broken
      decreases |path| - pos
    {
      ResolveStep(vol.geo, img, links, place, start, path, pos);
      var ds, next := MakeDirFile(path, pos, fn);
      if ds == 1 { return InvalidName, false, 0; }
      var found;
      ghost var slot;
      found, off, slot := SearchDir(vol, d, fn, place, start);
      if !found { return if ds == 0 then NoFile else NoPath, false, 0; }
      if ds == 0 { return Ok, true, off; }
      var dir := IsDir(vol, d, off, place, slot);
      if !dir { return NoPath, false, 0; }
      place := EnterDir(vol, d, off, place, slot);
      start, pos := 2, next;
      CurrentWhere(vol, d.sect);
    }
  }

  lemma RootStart(g: Geometry, links: seq<nat>)
    requires PlaceOk(g, links, RootDir)
    ensures 0 < Slots(g, RootDir) && SlotSect(g, RootDir, 0) == g.dirBase
  {
  }

  // ---------------------------------------------------------------------------------------------------
  // Listing

  /** An entry that f_readdir reports: neither deleted nor a volume label, with a name to print. */
  predicate Listed(e: seq<byte>)
    requires |e| == 32
  {
    e[0] != 0xE5 && (e[11] as nat) / AM_VOL % 2 == 0 && Printed(e[..11]) != []
  }

  function Reported(e: seq<byte>): seq<seq<byte>>
    requires |e| == 32
  {
    if Listed(e) then [Printed(e[..11])] else []
  }

  /** The names of the entries from slot i up to the end mark, in order. */
  ghost function Listing(g: Geometry, img: Image, links: seq<nat>, place: Place, i: nat): seq<seq<byte>>
    requires g.Valid(|img|) && PlaceOk(g, links, place) && i <= Slots(g, place)
    decreases Slots(g, place) - i
  {
    if i == Slots(g, place) || Slot(g, img, links, place, i)[0] == 0 then []
    else Reported(Slot(g, img, links, place, i)) + Listing(g, img, links, place, i + 1)
  }

  /** Slot k is listed by a listing from slot i on: no end mark up to it, a live entry, and a name to print. */
  ghost predicate Shows(g: Geometry, img: Image, links: seq<nat>, place: Place, i: nat, k: nat)
    requires g.Valid(|img|) && PlaceOk(g, links, place)
  {
    && i <= k < Slots(g, place)
    && (forall j :: i <= j <= k ==> Slot(g, img, links, place, j)[0] != 0)
    && Live(Slot(g, img, links, place, k)) && Printed(Slot(g, img, links, place, k)[..11]) != []
  }

  lemma ShowsFrom(g: Geometry, img: Image, links: seq<nat>, place: Place, i: nat)
    requires g.Valid(|img|) && PlaceOk(g, links, place) && i <= Slots(g, place)
    ensures i == Slots(g, place) || Slot(g, img, links, place, i)[0] == 0 ==>
              forall k: nat :: !Shows(g, img, links, place, i, k)
    ensures i < Slots(g, place) && Slot(g, img, links, place, i)[0] != 0 ==>
              && (Shows(g, img, links, place, i, i) <==> Listed(Slot(g, img, links, place, i)))
              && forall k: nat :: k != i ==>
                   (Shows(g, img, links, place, i, k) <==> Shows(g, img, links, place, i + 1, k))
    ensures forall k: nat :: Shows(g, img, links, place, i, k) ==> i <= k < Slots(g, place)
  {
    hide Geometry.Valid, PlaceOk, Slot, Printed, BitAnd;
    if i < Slots(g, place) {
      BitsOf(Slot(g, img, links, place, i)[11]);
    }
  }

  /** Names are the printed ones of the slots ks, in order. */
  ghost predicate NamesOf(g: Geometry, img: Image, links: seq<nat>, place: Place, names: seq<seq<byte>>, ks: seq<nat>)
    requires g.Valid(|img|) && PlaceOk(g, links, place)
  {
    && |names| == |ks| && (forall x, y :: 0 <= x < y < |ks| ==> ks[x] < ks[y])
    && forall x :: 0 <= x < |ks| ==>
         ks[x] < Slots(g, place) && names[x] == Printed(Slot(g, img, links, place, ks[x])[..11])
  }

  /** A listing names exactly these entries, each of them once. */
  lemma {:induction false} ListingMeaning(g: Geometry, img: Image, links: seq<nat>, place: Place, i: nat)
    returns (ks: seq<nat>)
    requires g.Valid(|img|) && PlaceOk(g, links, place) && i <= Slots(g, place)
    ensures NamesOf(g, img, links, place, Listing(g, img, links, place, i), ks)
    ensures forall k: nat :: k in ks <==> Shows(g, img, links, place, i, k)
    decreases Slots(g, place) - i
  {
    hide Geometry.Valid, PlaceOk, Slot, Printed, Shows, NamesOf;
    ShowsFrom(g, img, links, place, i);
    ks := [];
    if i < Slots(g, place) && Slot(g, img, links, place, i)[0] != 0 {
      ks := ListingMeaning(g, img, links, place, i + 1);
      ShowsFrom(g, img, links, place, i + 1);
      if Listed(Slot(g, img, links, place, i)) {
        MoreNames(g, img, links, place, Listing(g, img, links, place, i + 1), ks, i);
        ks := [i] + ks;
      } else {
        assert [] + Listing(g, img, links, place, i + 1) == Listing(g, img, links, place, i + 1);
      }
    } else {
      NoNames(g, img, links, place);
    }
  }

  lemma NoNames(g: Geometry, img: Image, links: seq<nat>, place: Place)
    requires g.Valid(|img|) && PlaceOk(g, links, place)
    ensures NamesOf(g, img, links, place, [], [])
  {
  }

  lemma MoreNames(g: Geometry, img: Image, links: seq<nat>, place: Place, names: seq<seq<byte>>, ks: seq<nat>, i: nat)
    requires g.Valid(|img|) && PlaceOk(g, links, place) && i < Slots(g, place)
    requires NamesOf(g, img, links, place, names, ks) && forall k: nat :: k in ks ==> i < k
    ensures NamesOf(g, img, links, place, [Printed(Slot(g, img, links, place, i)[..11])] + names, [i] + ks)
  {
    hide Geometry.Valid, PlaceOk, Slot, Printed;
    var all := [i] + ks;
    forall x, y | 0 <= x < y < |all|
      ensures all[x] < all[y]
    {
      assert all[y] == ks[y - 1] && ks[y - 1] in ks;
    }
  }

  /** The directory object stands at slot i, or, with sector 0, behind the last slot. */
  ghost predicate Reading(vol: Volume, d: DirObject, place: Place, i: nat)
    reads vol, vol.win, d
    ensures Reading(vol, d, place, i) ==>
              vol.Valid() && PlaceOk(vol.geo, vol.Links(), place) && i <= Slots(vol.geo, place)
  {
    && vol.Valid() && Current(vol, d.sect) && PlaceOk(vol.geo, vol.Links(), place)
    && if d.sect == 0 then i == Slots(vol.geo, place) else d.At(vol, place, i)
  }

  /** One round of f_readdir: look at the current slot and step on. */
  method ReadSlot(vol: Volume, d: DirObject, fname: array<byte>, ghost place: Place, ghost i: nat)
    returns (end: bool, len: nat)
    requires Reading(vol, d, place, i) && d.sect != 0 && fname.Length == 13 && fname[0] == 0 && fname != vol.win
    modifies vol, vol.win, d`index, d`clust, d`sect, fname
    ensures vol.Valid() && vol.Image() == old(vol.Image()) && vol.Links() == old(vol.Links())
    ensures i < Slots(vol.geo, place) && PlaceOk(vol.geo, vol.Links(), place)
    ensures var e := Slot(vol.geo, vol.Image(), vol.Links(), place, i);
            && end == (e[0] == 0)
            && (end ==> fname[0] == 0 && Reading(vol, d, place, i))
            && (!end ==>
                 && Reading(vol, d, place, i + 1)
                 && (fname[0] != 0 <==> Listed(e))
                 && (Listed(e) ==> len <= 12 && fname[..len] == Printed(e[..11]) && fname[len] == 0))
  {
    hide Geometry.Valid, FatVolume.Volume.Valid, FatVolume.Volume.Coherent, FatVolume.Volume.Image,
         FatVolume.Volume.Links, Chain, FileSect, InRange, OnTable, BitAnd, PlaceOk, SlotSect, Slot, Printed;
    ghost var img, links := vol.Image(), vol.Links();
    FifteenIsMask();
    MaskIsRem(d.index, 4);
    SlotInData(vol.geo, |vol.disk|, links, place, i);
    end, len := false, 0;
    var ok := vol.MoveWindow(d.sect);
    if !ok { return; }
    CurrentWhere(vol, d.sect);
    var off := BitAnd(d.index, 15) * 32;
    WindowSlot(vol, place, i);
    ghost var e := Slot(vol.geo, img, links, place, i);
    var entry := vol.win[off..off + 32];
    assert e == entry;
    if entry[0] == 0 {
      end := true;
      return;
    }
    if entry[0] != 0xE5 && (entry[11] as nat) / AM_VOL % 2 == 0 {
      len := GetFileName(entry, fname);
      PrintedStart(entry[..11]);
      assert len > 0 ==> fname[..len][0] == fname[0];
    }
    ok := NextDirEntry(vol, d, place, i);
    if !ok { d.sect := 0; }
    else { SlotInData(vol.geo, |vol.disk|, links, place, i + 1); }
    CurrentWhere(vol, d.sect);
  }

  lemma PrintedStart(f: seq<byte>)
    requires |f| == 11 && f[0] != 0
    ensures Printed(f) != [] ==> Printed(f)[0] != 0
  {
  }

  /** The same round, with the reported name taken out of the buffer, and what is left to list. */
  method ReadName(vol: Volume, d: DirObject, fname: array<byte>, ghost place: Place, ghost i: nat)
    returns (end: bool, out: seq<seq<byte>>, ghost next: nat)
    requires Reading(vol, d, place, i) && d.sect != 0 && fname.Length == 13 && fname != vol.win
    modifies vol, vol.win, d`index, d`clust, d`sect, fname
    ensures Reading(vol, d, place, next) && vol.Image() == old(vol.Image()) && vol.Links() == old(vol.Links())
    ensures Listing(vol.geo, vol.Image(), vol.Links(), place, i)
         == out + if end then [] else Listing(vol.geo, vol.Image(), vol.Links(), place, next)
    ensures !end ==> next == i + 1
    ensures i <= Slots(vol.geo, place)
  {
    hide Geometry.Valid, FatVolume.Volume.Valid, FatVolume.Volume.Image, FatVolume.Volume.Links, Reading, PlaceOk, Slot,
         Listed, Printed, Slots;
    fname[0] := 0;
    var len;
    end, len := ReadSlot(vol, d, fname, place, i);
    out := if fname[0] != 0 && !end then [fname[..len]] else [];
    next := if end then i else i + 1;
  }

  /** Repeated f_readdir reports the listed entries of the flat slot list, each once and in order. */
  method ReadAll(vol: Volume, d: DirObject, ghost place: Place, ghost start: nat) returns (names: seq<seq<byte>>)
    requires Reading(vol, d, place, start)
    modifies vol, vol.win, d`index, d`clust, d`sect
    ensures vol.Valid() && vol.Image() == old(vol.Image()) && vol.Links() == old(vol.Links())
    ensures old(Reading(vol, d, place, start)) && names == old(Listing(vol.geo, vol.Image(), vol.Links(), place, start))
  {
    hide Geometry.Valid, FatVolume.Volume.Valid, FatVolume.Volume.Image, FatVolume.Volume.Links, Reading, PlaceOk, Slot,
         Listed, Printed, Listing, Slots;
    ghost var img, links := vol.Image(), vol.Links();
    var fname := new byte[13];
    names := [];
    ghost var i := start;
    while d.sect != 0
      invariant vol.Valid() && vol.Image() == img && vol.Links() == links && Reading(vol, d, place, i)
      invariant Listing(vol.geo, img, links, place, start) == names + Listing(vol.geo, img, links, place, i)
      decreases Slots(vol.geo, place) - i
    {
      var end, out;
      end, out, i := ReadName(vol, d, fname, place, i);
      names := names + out;
      if end { return; }
    }
    ListingEnd(vol, d, place, i);
  }

  lemma ListingEnd(vol: Volume, d: DirObject, place: Place, i: nat)
    requires Reading(vol, d, place, i) && d.sect == 0
    ensures Listing(vol.geo, vol.Image(), vol.Links(), place, i) == []
  {
    hide FatVolume.Volume.Valid, FatVolume.Volume.Image, FatVolume.Volume.Links, Slot, PlaceOk;
  }
}
