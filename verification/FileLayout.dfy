/** A file as the flat byte sequence that its cluster chain spells out. */
module FileLayout {
  import opened Bytes
  import opened Layout
  import opened Chains

  /** The clusters of a file, as far as its links can be followed. Asking for one cluster per byte is more
      than any file needs, and keeps the walk finite on a cyclic chain. */
  function FileChain(links: seq<nat>, orgClust: nat, fsize: nat): seq<nat> {
    Follow(links, orgClust, fsize)
  }

  ghost predicate InRange(g: Geometry, cs: seq<nat>) {
    g.sectsClust > 0 && forall i :: 0 <= i < |cs| ==> g.DataCluster(cs[i])
  }

  /** Number of sectors of a chain. */
  function Sectors(g: Geometry, cs: seq<nat>): nat {
    Times(|cs|, g.sectsClust)
  }

  /** The k-th sector of a chain. */
  ghost function FileSect(g: Geometry, cs: seq<nat>, k: nat): nat
    requires InRange(g, cs) && k < Sectors(g, cs)
  {
    QuotBelow(k, |cs|, g.sectsClust);
    g.Clust2Sect(cs[Quot(k, g.sectsClust)]) + Rem(k, g.sectsClust)
  }

  lemma FileSectInData(g: Geometry, total: nat, cs: seq<nat>, k: nat)
    requires g.Valid(total) && InRange(g, cs) && k < Sectors(g, cs)
    ensures g.dataBase <= FileSect(g, cs, k) < total
    ensures !g.InFat(FileSect(g, cs, k)) && g.Home(FileSect(g, cs, k)) == FileSect(g, cs, k)
    ensures 0 < FileSect(g, cs, k)
  {
    QuotBelow(k, |cs|, g.sectsClust);
    AreasFit(g, total);
    g.ClusterRange(cs[Quot(k, g.sectsClust)]);
  }

  ghost predicate Distinct(cs: seq<nat>) {
    forall i, j {:trigger cs[i], cs[j]} :: 0 <= i < j < |cs| ==> cs[i] != cs[j]
  }

  lemma FileSectInjective(g: Geometry, cs: seq<nat>, j: nat, k: nat)
    requires InRange(g, cs) && Distinct(cs) && j < Sectors(g, cs) && k < Sectors(g, cs)
    requires FileSect(g, cs, j) == FileSect(g, cs, k)
    ensures j == k
  {
    QuotBelow(j, |cs|, g.sectsClust);
    QuotBelow(k, |cs|, g.sectsClust);
    g.ClustersDisjoint(cs[Quot(j, g.sectsClust)], cs[Quot(k, g.sectsClust)],
                       Rem(j, g.sectsClust), Rem(k, g.sectsClust));
    QuotRem(j, g.sectsClust);
    QuotRem(k, g.sectsClust);
  }

  /** Consecutive sectors of one cluster are neighbours on the disk. */
  lemma FileSectRun(g: Geometry, cs: seq<nat>, k: nat, a: nat)
    requires InRange(g, cs) && k < Sectors(g, cs) && Rem(k, g.sectsClust) + a < g.sectsClust
    ensures k + a < Sectors(g, cs)
    ensures FileSect(g, cs, k + a) == FileSect(g, cs, k) + a
  {
    QuotStep(k, a, g.sectsClust);
    QuotBelow(k, |cs|, g.sectsClust);
    QuotBelow(k + a, |cs|, g.sectsClust);
  }

  /** Byte i of a file. */
  ghost function FileByte(g: Geometry, img: Image, cs: seq<nat>, i: nat): byte
    requires g.Valid(|img|) && InRange(g, cs) && i < 512 * Sectors(g, cs)
  {
    FileSectInData(g, |img|, cs, i / 512);
    img[FileSect(g, cs, i / 512)][i % 512]
  }

  /** The first n bytes of a file. */
  ghost function Content(g: Geometry, img: Image, cs: seq<nat>, n: nat): (r: seq<byte>)
    requires g.Valid(|img|) && InRange(g, cs) && n <= 512 * Sectors(g, cs)
    ensures |r| == n
    ensures forall i :: 0 <= i < n ==> r[i] == FileByte(g, img, cs, i)
  {
    seq(n, i requires 0 <= i < n => FileByte(g, img, cs, i))
  }

  /** The position fields of a file object whose last accessed sector is sector k of its chain: the
      cluster, the sector, and the number of sectors left in the cluster counting this one. */
  ghost predicate At(g: Geometry, cs: seq<nat>, k: nat, currClust: nat, currSect: nat, sectClust: nat)
    requires InRange(g, cs)
  {
    && k < Sectors(g, cs)
    && OnCluster(g, cs, k, currClust, sectClust)
    && currSect == FileSect(g, cs, k)
  }

  ghost predicate OnCluster(g: Geometry, cs: seq<nat>, k: nat, currClust: nat, sectClust: nat)
    requires InRange(g, cs)
  {
    && k < Sectors(g, cs)
    && (QuotBelow(k, |cs|, g.sectsClust); currClust == cs[Quot(k, g.sectsClust)])
    && sectClust == g.sectsClust - Rem(k, g.sectsClust)
  }

  /** Moving on inside a cluster. */
  lemma AtRun(g: Geometry, cs: seq<nat>, k: nat, a: nat, currClust: nat, currSect: nat, sectClust: nat)
    requires InRange(g, cs) && At(g, cs, k, currClust, currSect, sectClust) && a < sectClust
    ensures Rem(k, g.sectsClust) + a < g.sectsClust
    ensures At(g, cs, k + a, currClust, currSect + a, sectClust - a)
  {
    FileSectRun(g, cs, k, a);
    QuotStep(k, a, g.sectsClust);
    QuotBelow(k, |cs|, g.sectsClust);
    QuotBelow(k + a, |cs|, g.sectsClust);
  }

  /** Sector k of a file by arithmetic. */
  lemma FileSectIs(g: Geometry, cs: seq<nat>, k: nat)
    requires InRange(g, cs) && k < Sectors(g, cs)
    ensures k / g.sectsClust < |cs|
    ensures FileSect(g, cs, k) == g.dataBase + (cs[k / g.sectsClust] - 2) * g.sectsClust + k % g.sectsClust
  {
    QuotBelow(k, |cs|, g.sectsClust);
    QuotIsDivision(k, g.sectsClust);
    ClusterOrder(g, cs[k / g.sectsClust]);
  }
}
