/** Sectors, disk images and integer arithmetic shared by every layer. */
module Bytes {
  type byte = x: int | 0 <= x < 256

  type Sector = s: seq<byte> | |s| == 512 witness seq(512, i => 0)

  type Image = seq<Sector>

  datatype Option<T> = None | Some(value: T)

  /** Little-endian loads. */
  function LoadLe16(s: seq<byte>, o: nat): (w: nat)
    requires o + 2 <= |s|
    ensures w < 0x1_0000
  {
    (s[o] as nat) + 256 * (s[o + 1] as nat)
  }

  function LoadLe32(s: seq<byte>, o: nat): nat
    requires o + 4 <= |s|
  {
    LoadLe16(s, o) + 0x1_0000 * LoadLe16(s, o + 2)
  }

  /** Cutting a position to 16 bits keeps the offset in its sector. */
  lemma WordOffset(p: nat)
    ensures p % 0x1_0000 % 512 == p % 512
  {
  }

  /** Quotient and remainder are determined by k == q * n + r. */
  lemma DivModUnique(k: int, n: int, q: int, r: int)
    requires 0 <= r < n && k == q * n + r
    ensures k / n == q && k % n == r
  {
    var d := k / n - q;
    assert d * n == r - k % n by {
      assert k == (k / n) * n + k % n;
      assert d * n == (k / n) * n - q * n;
    }
    MulMono(1, d, n);
    MulMono(d, -1, n);
  }

  /** Multiplication as repeated addition, which keeps products of two variables out of predicates that
      almost every proof has in its context. */
  function Times(n: nat, m: nat): nat {
    if n == 0 then 0 else Times(n - 1, m) + m
  }

  lemma {:induction false} TimesIsProduct(n: nat, m: nat)
    ensures Times(n, m) == n * m
  {
    if n > 0 {
      TimesIsProduct(n - 1, m);
      assert n * m == (n - 1) * m + m;
    }
  }

  lemma {:induction false} TimesMono(a: nat, b: nat, m: nat)
    requires a <= b
    ensures Times(a, m) <= Times(b, m)
  {
    if a < b {
      TimesMono(a, b - 1, m);
    }
  }

  /** k / m and k % m by repeated subtraction, for a divisor that is a variable. */
  function Quot(k: nat, m: nat): nat
    requires m > 0
  {
    if k < m then 0 else 1 + Quot(k - m, m)
  }

  function Rem(k: nat, m: nat): (r: nat)
    requires m > 0
    ensures r < m
  {
    if k < m then k else Rem(k - m, m)
  }

  lemma {:induction false} QuotRem(k: nat, m: nat)
    requires m > 0
    ensures k == Times(Quot(k, m), m) + Rem(k, m)
  {
    if k >= m {
      QuotRem(k - m, m);
    }
  }

  lemma {:induction false} QuotIsDivision(k: nat, m: nat)
    requires m > 0
    ensures Quot(k, m) == k / m && Rem(k, m) == k % m
  {
    QuotRem(k, m);
    TimesIsProduct(Quot(k, m), m);
    DivModUnique(k, m, Quot(k, m), Rem(k, m));
  }

  lemma {:induction false} QuotAt(q: nat, r: nat, m: nat)
    requires r < m
    ensures Quot(Times(q, m) + r, m) == q && Rem(Times(q, m) + r, m) == r
    ensures q <= Times(q, m)
  {
    if q > 0 {
      QuotAt(q - 1, r, m);
    }
  }

  /** A run of numbers inside one multiple of m. */
  lemma {:induction false} QuotStep(k: nat, a: nat, m: nat)
    requires m > 0
    ensures Rem(k, m) + a < m ==> Quot(k + a, m) == Quot(k, m) && Rem(k + a, m) == Rem(k, m) + a
    ensures Rem(k, m) + a == m ==> Quot(k + a, m) == Quot(k, m) + 1 && Rem(k + a, m) == 0
  {
    if k >= m {
      QuotStep(k - m, a, m);
    }
  }

  lemma {:induction false} QuotBelow(k: nat, n: nat, m: nat)
    requires m > 0
    ensures k < Times(n, m) <==> Quot(k, m) < n
    ensures Quot(k, m) <= k
  {
    if k >= m {
      if n > 0 {
        QuotBelow(k - m, n - 1, m);
      } else {
        QuotBelow(k - m, 0, m);
      }
    } else if n > 0 {
      TimesMono(1, n, m);
      assert Times(1, m) == Times(0, m) + m;
    }
  }

  /** Order is kept by multiplication with a non-negative factor. */
  lemma MulMono(a: int, b: int, n: int)
    requires 0 <= n
    ensures a <= b ==> a * n <= b * n
  {
    if a <= b {
      assert (b - a) * n >= 0;
    }
  }
}

/** Where the parts of a FAT12/FAT16 volume lie, and how a link is packed into the FAT bytes. */
module Layout {
  import opened Bytes
  import opened PackedFat

  /** The mount-time fields of FATFS; none of the modelled operations changes them. */
  datatype Geometry = Geometry(
    fsType: FatType,
    fatBase: nat,
    sectsFat: nat,
    nFats: nat,
    dirBase: nat,
    nRootDir: nat,
    dataBase: nat,
    maxClust: nat,
    sectsClust: nat)
  {
    /** The layout that mounting leaves behind: disjoint areas in order, a FAT with room for every
        link, and field values that fit the C types. */
    ghost predicate Valid(total: nat) {
      && total <= 0x1_0000_0000
      && 1 <= fatBase && 1 <= nFats < 256 && 1 <= sectsFat < 0x1_0000 && 1 <= sectsClust < 256
      && nRootDir < 0x1_0000 && nRootDir % 16 == 0
      && dirBase == fatBase + Times(nFats, sectsFat)
      && dataBase == dirBase + nRootDir / 16
      && 2 <= maxClust
      && dataBase + Times(maxClust - 2, sectsClust) <= total
      && match fsType
         case Fat12 => maxClust <= 0xFF7 && (maxClust - 1) * 3 / 2 + 1 < 512 * sectsFat
         case Fat16 => 0xFF7 < maxClust <= 0xFFF7 && 2 * maxClust <= 512 * sectsFat
    }

    predicate InFat(s: nat) { fatBase <= s < dirBase }

    predicate DataCluster(c: int) { 2 <= c < maxClust }

    /** The sector of the primary FAT that a sector of any FAT copy mirrors; other sectors stand for
        themselves. */
    function Home(s: nat): nat
      requires sectsFat > 0
    {
      if InFat(s) && fatBase + sectsFat <= s then Home(s - sectsFat) else s
    }

    /** clust2sect: 0 marks an invalid cluster number. */
    function Clust2Sect(c: int): nat {
      if DataCluster(c) then Times(c - 2, sectsClust) + dataBase else 0
    }

    lemma {:induction false} HomeFacts(s: nat)
      requires sectsFat > 0
      ensures Home(Home(s)) == Home(s)
      ensures InFat(s) <==> InFat(Home(s))
      ensures InFat(s) ==> fatBase <= Home(s) < fatBase + sectsFat
      ensures !InFat(s) ==> Home(s) == s
    {
      if InFat(s) && fatBase + sectsFat <= s {
        HomeFacts(s - sectsFat);
      }
    }

    /** Between two consecutive copies there is no other sector with the same home. */
    lemma {:induction false} HomeGap(s: nat, i: nat, j: nat)
      requires sectsFat > 0 && InFat(i) && InFat(j) && Home(i) == s == Home(j) && i < j
      ensures i + sectsFat <= j
    {
      HomeFacts(i);
      HomeFacts(j);
      if fatBase + sectsFat <= i {
        HomeGap(s, i - sectsFat, j - sectsFat);
      }
    }

    lemma ClusterRange(c: nat)
      requires DataCluster(c)
      ensures dataBase <= Clust2Sect(c)
      ensures Clust2Sect(c) + sectsClust <= dataBase + Times(maxClust - 2, sectsClust)
    {
      TimesMono(c - 1, maxClust - 2, sectsClust);
    }

    /** Different clusters own disjoint runs of sectors. */
    lemma ClustersDisjoint(c: nat, d: nat, i: nat, j: nat)
      requires DataCluster(c) && DataCluster(d) && i < sectsClust && j < sectsClust
      requires Clust2Sect(c) + i == Clust2Sect(d) + j
      ensures c == d && i == j
    {
      if c < d {
        TimesMono(c - 1, d - 2, sectsClust);
      } else if d < c {
        TimesMono(d - 1, c - 2, sectsClust);
      }
    }
  }

  /** Writing `w` to sector `s` together with its mirror copies. */
  function Store(g: Geometry, img: Image, s: nat, w: Sector): (r: Image)
    requires g.sectsFat > 0
    ensures |r| == |img|
  {
    seq(|img|, i requires 0 <= i < |img| => if g.Home(i) == s then w else img[i])
  }

  /** Every FAT copy equals the primary FAT: sectors with the same home hold the same bytes. */
  ghost predicate Mirrored(g: Geometry, img: Image)
    requires g.sectsFat > 0
  {
    forall i, j {:trigger g.Home(i), g.Home(j)} ::
      0 <= i < |img| && 0 <= j < |img| && g.InFat(i) && g.InFat(j) && g.Home(i) == g.Home(j) ==> img[i] == img[j]
  }

  lemma AreasFit(g: Geometry, total: nat)
    requires g.Valid(total)
    ensures 0 < g.fatBase < g.fatBase + g.sectsFat <= g.dirBase <= g.dataBase <= total
  {
    TimesMono(1, g.nFats, g.sectsFat);
    assert Times(1, g.sectsFat) == Times(0, g.sectsFat) + g.sectsFat;
  }

  lemma EntryFits(g: Geometry, total: nat, c: nat)
    requires g.Valid(total) && c < g.maxClust
    ensures LowByte(g.fsType, c) + 1 < 512 * g.sectsFat
    ensures g.fsType.Fat12? ==> c < 0x1000
  {
  }

  /** The bytes of the primary FAT. */
  ghost function FatBytes(g: Geometry, img: Image): (r: seq<byte>)
    requires g.Valid(|img|)
    ensures |r| == 512 * g.sectsFat
  {
    AreasFit(g, |img|);
    seq(512 * g.sectsFat, j requires 0 <= j < 512 * g.sectsFat => img[g.fatBase + j / 512][j % 512])
  }

  /** The FAT as what it means: one link per cluster number. */
  ghost function Links(g: Geometry, img: Image): (r: seq<nat>)
    requires g.Valid(|img|)
    ensures |r| == g.maxClust
    ensures forall c :: 0 <= c < |r| ==> r[c] < LinkLimit(g.fsType)
  {
    AreasFit(g, |img|);
    seq(g.maxClust, c requires 0 <= c < g.maxClust =>
      EntryFits(g, |img|, c); LinkAt(g.fsType, FatBytes(g, img), c))
  }

  /** The image after storing v in byte j of the FAT. */
  ghost function StoreFatByte(g: Geometry, img: Image, j: nat, v: byte): (r: Image)
    requires g.Valid(|img|) && j < 512 * g.sectsFat
    ensures |r| == |img|
  {
    AreasFit(g, |img|);
    var s := g.fatBase + j / 512;
    Store(g, img, s, img[s][j % 512 := v])
  }

  lemma StoreFatByteReads(g: Geometry, img: Image, j: nat, v: byte, i: nat)
    requires g.Valid(|img|) && j < 512 * g.sectsFat && i < 512 * g.sectsFat
    ensures g.fatBase + g.sectsFat <= |img|
    ensures StoreFatByte(g, img, j, v)[g.fatBase + i / 512][i % 512]
         == if i == j then v else img[g.fatBase + i / 512][i % 512]
  {
    AreasFit(g, |img|);
    var s := g.fatBase + i / 512;
    assert g.Home(s) == s;
    if i / 512 == j / 512 && i % 512 == j % 512 {
      assert i == j;
    }
  }

  lemma StoreFatByteMeaning(g: Geometry, img: Image, j: nat, v: byte)
    requires g.Valid(|img|) && j < 512 * g.sectsFat
    ensures FatBytes(g, StoreFatByte(g, img, j, v)) == FatBytes(g, img)[j := v]
  {
    var r := StoreFatByte(g, img, j, v);
    forall i | 0 <= i < 512 * g.sectsFat
      ensures FatBytes(g, r)[i] == FatBytes(g, img)[j := v][i]
    {
      StoreFatByteReads(g, img, j, v, i);
    }
  }

  lemma StoreFatByteFrame(g: Geometry, img: Image, j: nat, v: byte)
    requires g.Valid(|img|) && j < 512 * g.sectsFat && Mirrored(g, img)
    ensures SameOutsideFat(g, img, StoreFatByte(g, img, j, v))
    ensures Mirrored(g, StoreFatByte(g, img, j, v))
  {
    AreasFit(g, |img|);
    var s := g.fatBase + j / 512;
    assert g.Home(s) == s && g.InFat(s);
    StoreKeepsMirrors(g, img, s, img[s][j % 512 := v]);
  }

  /** The image after put_cluster. */
  ghost function StoreLink(g: Geometry, img: Image, c: nat, val: nat): (r: Image)
    requires g.Valid(|img|) && c < g.maxClust && Mirrored(g, img)
    ensures |r| == |img|
    ensures LowByte(g.fsType, c) + 1 < |FatBytes(g, img)|
    ensures FatBytes(g, r) == Pack(g.fsType, FatBytes(g, img), c, val)
    ensures SameOutsideFat(g, img, r)
    ensures Mirrored(g, r)
  {
    AreasFit(g, |img|);
    EntryFits(g, |img|, c);
    var j, fat := LowByte(g.fsType, c), FatBytes(g, img);
    var mid := StoreFatByte(g, img, j, NewLow(g.fsType, c, fat[j], val));
    StoreFatByteMeaning(g, img, j, NewLow(g.fsType, c, fat[j], val));
    StoreFatByteFrame(g, img, j, NewLow(g.fsType, c, fat[j], val));
    StoreFatByteMeaning(g, mid, j + 1, NewHigh(g.fsType, c, fat[j + 1], val));
    StoreFatByteFrame(g, mid, j + 1, NewHigh(g.fsType, c, fat[j + 1], val));
    StoreFatByte(g, mid, j + 1, NewHigh(g.fsType, c, fat[j + 1], val))
  }

  /** The two byte stores of put_cluster change one link, truncated to its width, and nothing else: no
      other link, no sector outside the FAT, and all FAT copies still agree. */
  lemma StoreLinkMeaning(g: Geometry, img: Image, c: nat, val: nat)
    requires g.Valid(|img|) && c < g.maxClust && Mirrored(g, img)
    ensures Links(g, StoreLink(g, img, c, val)) == Links(g, img)[c := val % LinkLimit(g.fsType)]
    ensures SameOutsideFat(g, img, StoreLink(g, img, c, val))
    ensures Mirrored(g, StoreLink(g, img, c, val))
  {
    AreasFit(g, |img|);
    var fat := FatBytes(g, img);
    forall d: nat | d < g.maxClust
      ensures LowByte(g.fsType, d) + 1 < |fat|
      ensures LinkAt(g.fsType, Pack(g.fsType, fat, c, val), d)
           == if d == c then val % LinkLimit(g.fsType) else LinkAt(g.fsType, fat, d)
    {
      EntryFits(g, |img|, d);
      PackThenLinkAt(g.fsType, fat, c, val, d);
    }
  }

  /** Nothing outside the FAT area changes when a primary FAT sector is stored. */
  ghost predicate SameOutsideFat(g: Geometry, a: Image, b: Image) {
    |a| == |b| && forall s :: 0 <= s < |a| && !g.InFat(s) ==> a[s] == b[s]
  }

  /** The links depend on the FAT area only. */
  lemma LinksOfSameFat(g: Geometry, a: Image, b: Image)
    requires g.Valid(|a|) && |a| == |b|
    requires forall s :: 0 <= s < |a| && g.InFat(s) ==> a[s] == b[s]
    ensures Links(g, a) == Links(g, b)
  {
    AreasFit(g, |a|);
    assert FatBytes(g, a) == FatBytes(g, b) by {
      forall j | 0 <= j < 512 * g.sectsFat
        ensures FatBytes(g, a)[j] == FatBytes(g, b)[j]
      {
        assert g.InFat(g.fatBase + j / 512);
      }
    }
  }

  lemma StoreKeepsMirrors(g: Geometry, img: Image, s: nat, w: Sector)
    requires g.Valid(|img|) && s < |img| && g.Home(s) == s && Mirrored(g, img)
    ensures Mirrored(g, Store(g, img, s, w))
    ensures Store(g, img, s, w)[s] == w
    ensures forall i :: 0 <= i < |img| && !g.InFat(i) && i != s ==> Store(g, img, s, w)[i] == img[i]
  {
  }

  // ---------------------------------------------------------------------------------------------------
  // Where things are on the disk

  /** Byte j of the FAT. */
  ghost function FatByte(g: Geometry, img: Image, j: nat): (b: nat)
    requires g.Valid(|img|) && j < 512 * g.sectsFat
    ensures b < 256
  {
    AreasFit(g, |img|);
    img[g.fatBase + j / 512][j % 512]
  }

  /** A pair of 12-bit links is a number of three bytes of the disk, also when a sector ends between them. */
  lemma PairsOnDisk(g: Geometry, img: Image, k: nat)
    requires g.Valid(|img|) && g.fsType.Fat12? && 2 * k + 1 < g.maxClust
    ensures 3 * k + 2 < 512 * g.sectsFat
    ensures Links(g, img)[2 * k] + 0x1000 * Links(g, img)[2 * k + 1]
         == FatByte(g, img, 3 * k) + 0x100 * FatByte(g, img, 3 * k + 1) + 0x1_0000 * FatByte(g, img, 3 * k + 2)
  {
    hide LinkAt;
    EntryFits(g, |img|, 2 * k + 1);
    PairLayout(FatBytes(g, img), k);
  }

  /** A last link without a partner takes a byte and a half. */
  lemma SingleOnDisk(g: Geometry, img: Image, k: nat)
    requires g.Valid(|img|) && g.fsType.Fat12? && 2 * k < g.maxClust
    ensures 3 * k + 1 < 512 * g.sectsFat
    ensures Links(g, img)[2 * k] == FatByte(g, img, 3 * k) + 0x100 * (FatByte(g, img, 3 * k + 1) % 16)
  {
    EntryFits(g, |img|, 2 * k);
  }

  /** A 16-bit link is a word of the disk. */
  lemma WordsOnDisk(g: Geometry, img: Image, c: nat)
    requires g.Valid(|img|) && g.fsType.Fat16? && c < g.maxClust
    ensures 2 * c + 1 < 512 * g.sectsFat
    ensures Links(g, img)[c] == FatByte(g, img, 2 * c) + 0x100 * FatByte(g, img, 2 * c + 1)
  {
    hide LinkAt;
    EntryFits(g, |img|, c);
    WordLayout(FatBytes(g, img), c);
  }

  /** The data area holds the clusters from 2 on, one after the other. */
  lemma ClusterOrder(g: Geometry, c: nat)
    ensures g.DataCluster(2) ==> g.Clust2Sect(2) == g.dataBase
    ensures g.DataCluster(c) && g.DataCluster(c + 1) ==> g.Clust2Sect(c + 1) == g.Clust2Sect(c) + g.sectsClust
    ensures g.DataCluster(c) ==> g.Clust2Sect(c) == g.dataBase + (c - 2) * g.sectsClust
  {
    if g.DataCluster(c) {
      TimesIsProduct(c - 2, g.sectsClust);
    }
  }

  /** A sector of any FAT copy mirrors the sector at the same place in the primary FAT. */
  lemma {:induction false} HomeOffset(g: Geometry, s: nat)
    requires g.sectsFat > 0 && g.InFat(s)
    ensures g.Home(s) == g.fatBase + (s - g.fatBase) % g.sectsFat
    decreases s
  {
    var d := s - g.fatBase;
    if g.fatBase + g.sectsFat <= s {
      HomeOffset(g, s - g.sectsFat);
      DivModUnique(d, g.sectsFat, (d - g.sectsFat) / g.sectsFat + 1, (d - g.sectsFat) % g.sectsFat);
    } else {
      DivModUnique(d, g.sectsFat, 0, d);
    }
  }
}
