/** qsort of the C library: in-place partition, recursion into the smaller side, a loop over the other. The
    source works on byte offsets in ints of 16 bits; one element of the array stands for one block of `size`
    bytes, so block number k has the offset k * size. */
module QuickSort {
  import opened Bytes
  import opened ShortInts

  /** What a comparison function promises: swapping the arguments flips the sign, and "not greater" is
      transitive. */
  ghost predicate Preorder<T(!new)>(cmp: (T, T) -> int) {
    && (forall x, y :: cmp(x, y) < 0 <==> cmp(y, x) > 0)
    && (forall x, y, z :: cmp(x, y) <= 0 && cmp(y, z) <= 0 ==> cmp(x, z) <= 0)
  }

  ghost predicate Sorted<T(!new)>(cmp: (T, T) -> int, s: seq<T>) {
    forall i, k :: 0 <= i < k < |s| ==> cmp(s[i], s[k]) <= 0
  }

  /** t differs from s by a permutation of the elements lo to hi. */
  ghost predicate Permuted<T>(s: seq<T>, t: seq<T>, lo: int, hi: int)
    ensures Permuted(s, t, lo, hi) ==> 0 <= lo <= hi + 1 <= |s| == |t|
  {
    && 0 <= lo <= hi + 1 <= |s| == |t|
    && s[..lo] == t[..lo] && s[hi + 1..] == t[hi + 1..]
    && multiset(s[lo..hi + 1]) == multiset(t[lo..hi + 1])
  }

  lemma PermutedTrans<T>(s: seq<T>, t: seq<T>, u: seq<T>, lo: int, hi: int)
    requires Permuted(s, t, lo, hi) && Permuted(t, u, lo, hi)
    ensures Permuted(s, u, lo, hi)
  {
  }

  /** A permutation of a part is a permutation of the whole. */
  lemma PermutedWider<T>(s: seq<T>, t: seq<T>, lo: int, hi: int, l: int, h: int)
    requires Permuted(s, t, lo, hi) && 0 <= l <= lo && hi <= h < |s|
    ensures Permuted(s, t, l, h)
  {
    assert s[..l] == s[..lo][..l] && t[..l] == t[..lo][..l];
    assert s[h + 1..] == s[hi + 1..][h - hi..] && t[h + 1..] == t[hi + 1..][h - hi..];
    assert s[l..h + 1] == s[..lo][l..] + s[lo..hi + 1] + s[hi + 1..][..h - hi];
    assert t[l..h + 1] == t[..lo][l..] + t[lo..hi + 1] + t[hi + 1..][..h - hi];
  }

  function Exchanged<T>(s: seq<T>, i: int, j: int): (t: seq<T>)
    requires 0 <= i < |s| && 0 <= j < |s|
    ensures |t| == |s|
  {
    s[i := s[j]][j := s[i]]
  }

  /** Exchanging two elements is a permutation. */
  lemma SwapPermutes<T>(s: seq<T>, i: int, j: int, lo: int, hi: int)
    requires 0 <= lo <= i <= j <= hi < |s|
    ensures Permuted(s, Exchanged(s, i, j), lo, hi)
  {
    var t := Exchanged(s, i, j);
    var u, v := s[lo..hi + 1], t[lo..hi + 1];
    assert v == u[i - lo := u[j - lo]][j - lo := u[i - lo]];
  }

  /** Every element of the permuted stretch was there before. */
  lemma PermutedFrom<T>(s: seq<T>, t: seq<T>, lo: int, hi: int, k: int) returns (o: int)
    requires Permuted(s, t, lo, hi) && 0 <= k < |s|
    ensures 0 <= o < |s| && t[k] == s[o]
    ensures lo <= k <= hi ==> lo <= o <= hi
    ensures k < lo || hi < k ==> o == k
  {
    if lo <= k <= hi {
      assert t[lo..hi + 1][k - lo] == t[k];
      assert t[k] in multiset(t[lo..hi + 1]);
      assert t[k] in s[lo..hi + 1];
      var x :| 0 <= x < |s[lo..hi + 1]| && s[lo..hi + 1][x] == t[k];
      o := lo + x;
    } else {
      o := k;
      if k < lo {
        assert s[..lo][k] == t[..lo][k];
      } else {
        assert s[hi + 1..][k - hi - 1] == t[hi + 1..][k - hi - 1];
      }
    }
  }

  /** The element at j parts the stretch [lo, hi]. */
  ghost predicate Parted<T(!new)>(cmp: (T, T) -> int, s: seq<T>, lo: int, j: int, hi: int)
    requires 0 <= lo <= j <= hi < |s|
  {
    && (forall k :: lo <= k < j ==> cmp(s[k], s[j]) <= 0)
    && (forall k :: j < k <= hi ==> cmp(s[j], s[k]) <= 0)
  }

  lemma PartedKept<T(!new)>(cmp: (T, T) -> int, s: seq<T>, t: seq<T>, lo: int, j: int, hi: int, l: int, h: int)
    requires 0 <= lo <= j <= hi < |s| && Parted(cmp, s, lo, j, hi) && Permuted(s, t, l, h)
    requires (l == lo && h == j - 1) || (l == j + 1 && h == hi)
    ensures Parted(cmp, t, lo, j, hi)
  {
    var o := PermutedFrom(s, t, l, h, j);
    forall k | lo <= k <= hi && k != j
      ensures if k < j then cmp(t[k], t[j]) <= 0 else cmp(t[j], t[k]) <= 0
    {
      var x := PermutedFrom(s, t, l, h, k);
    }
  }

  /** floor(log2(n)) for n >= 1. */
  function Log2(n: nat): nat {
    if n <= 1 then 0 else 1 + Log2(n / 2)
  }

  lemma {:induction false} Log2Mono(m: nat, n: nat)
    requires m <= n
    ensures Log2(m) <= Log2(n)
  {
    if m > 1 {
      Log2Mono(m / 2, n / 2);
    }
  }

  /** The elements after the pivot, up to i, that the forward scan has passed. */
  ghost predicate NotAbove<T(!new)>(cmp: (T, T) -> int, s: seq<T>, lo: int, i: int)
    requires 0 <= lo < i <= |s|
  {
    forall k :: lo < k < i ==> cmp(s[lo], s[k]) >= 0
  }

  /** The elements after j that the backward scan has passed. */
  ghost predicate Above<T(!new)>(cmp: (T, T) -> int, s: seq<T>, lo: int, j: int, hi: int)
    requires 0 <= lo <= j && hi < |s|
  {
    forall k :: j < k <= hi ==> cmp(s[lo], s[k]) < 0
  }

  /** Exchanging the two elements the scans stopped at lets both scans go on. */
  lemma ScansResume<T(!new)>(cmp: (T, T) -> int, s: seq<T>, lo: int, i: int, j: int, hi: int)
    requires Preorder(cmp) && 0 <= lo < i <= j <= hi < |s|
    requires NotAbove(cmp, s, lo, i) && Above(cmp, s, lo, j, hi)
    requires cmp(s[lo], s[i]) < 0 && cmp(s[lo], s[j]) >= 0
    ensures i < j
    ensures NotAbove(cmp, Exchanged(s, i, j), lo, i + 1) && Above(cmp, Exchanged(s, i, j), lo, j - 1, hi)
  {
  }

  /** Where the scans have met, the pivot goes to j. */
  lemma PivotPlaced<T(!new)>(cmp: (T, T) -> int, s: seq<T>, lo: int, j: int, hi: int)
    requires Preorder(cmp) && 0 <= lo <= j <= hi < |s|
    requires NotAbove(cmp, s, lo, j + 1) && Above(cmp, s, lo, j, hi)
    ensures Parted(cmp, Exchanged(s, lo, j), lo, j, hi)
    ensures j == lo ==> Exchanged(s, lo, j) == s
  {
  }

  // ---------------------------------------------------------------------------------------------------
  // The algorithm on block numbers. m is the last block whose offset an int can hold.

  /** Where the forward scan stops; Below: the offset has wrapped, and the comparison would read below the
      array. */
  datatype Scan = Stop(i: nat) | Below

  function Forward<T(!new)>(cmp: (T, T) -> int, s: seq<T>, m: nat, lo: nat, i: nat, j: nat): (r: Scan)
    requires lo < i <= j + 1 <= |s|
    ensures r.Stop? ==> i <= r.i <= j + 1 && r.i <= m && (r.i <= j ==> cmp(s[lo], s[r.i]) < 0)
    decreases j + 1 - i
  {
    if i > m then Below
    else if i <= j && cmp(s[lo], s[i]) >= 0 then Forward(cmp, s, m, lo, i + 1, j)
    else Stop(i)
  }

  function Backward<T(!new)>(cmp: (T, T) -> int, s: seq<T>, lo: nat, i: nat, j: nat): (r: nat)
    requires lo < i <= j + 1 <= |s|
    ensures i <= r + 1 && r <= j && (i <= r ==> cmp(s[lo], s[r]) >= 0)
    decreases j
  {
    if i <= j && cmp(s[lo], s[j]) < 0 then Backward(cmp, s, lo, i, j - 1) else j
  }

  datatype Partitioned<T> = Placed(s: seq<T>, j: nat) | Lost

  function Pivot<T>(s: seq<T>, lo: nat, j: nat): (t: seq<T>)
    requires lo < |s| && j < |s|
    ensures |t| == |s|
  {
    if j != lo then Exchanged(s, lo, j) else s
  }

  /** The partition loop from a given state of the scans. */
  function Part<T(!new)>(cmp: (T, T) -> int, s: seq<T>, m: nat, lo: nat, i: nat, j: nat): (r: Partitioned<T>)
    requires lo < i <= j + 1 <= |s| && i <= m && j <= m
    ensures r.Placed? ==> |r.s| == |s| && lo <= r.j <= j && r.j < m
    decreases j + 1 - i
  {
    if i > j then Placed(Pivot(s, lo, j), j)
    else
      match Forward(cmp, s, m, lo, i, j)
      case Below => Lost
      case Stop(x) =>
        var y := Backward(cmp, s, lo, x, j);
        if x <= y then Part(cmp, Exchanged(s, x, y), m, lo, x + 1, y - 1) else Placed(Pivot(s, lo, y), y)
  }

  /** The sorted array, and how deep the calls of QuickSort below this one were nested; or the sort has compared
      something outside the array. */
  datatype Sorting<T> = Done(s: seq<T>, depth: nat) | Strayed

  /** The rest of a sort after a call that was d deep. */
  function After<T>(d: nat, r: Sorting<T>): (q: Sorting<T>)
    ensures q.Done? <==> r.Done?
    ensures q.Done? ==> q.s == r.s && q.depth == if d > r.depth then d else r.depth
  {
    match r
    case Done(s, e) => Done(s, if d > e then d else e)
    case Strayed => Strayed
  }

  /** QuickSort: the side with at most half of the blocks by recursion, the other one by the loop. */
  function Sort<T(!new)>(cmp: (T, T) -> int, s: seq<T>, m: nat, lo: nat, hi: int): (r: Sorting<T>)
    requires lo <= hi + 1 <= |s| && hi <= m
    ensures r.Done? ==> |r.s| == |s|
    decreases hi + 1 - lo
  {
    if hi <= lo then Done(s, 0)
    else
      match Part(cmp, s, m, lo, lo + 1, hi)
      case Lost => Strayed
      case Placed(t, j) =>
        var right := j * 2 > hi + lo;
        match (if right then Sort(cmp, t, m, j + 1, hi) else Sort(cmp, t, m, lo, j - 1))
        case Strayed => Strayed
        case Done(u, d) =>
          After(1 + d, if right then Sort(cmp, u, m, lo, j - 1) else Sort(cmp, u, m, j + 1, hi))
  }

  /** qsort: when the offset of the last block does not fit an int, it is negative, and nothing is done. */
  function Qsorted<T(!new)>(cmp: (T, T) -> int, s: seq<T>, size: nat): Sorting<T>
    requires size > 0
  {
    if |s| <= 1 || |s| - 1 > 32767 / size then Done(s, 0) else Sort(cmp, s, 32767 / size, 0, |s| - 1)
  }

  // ---------------------------------------------------------------------------------------------------
  // What it computes

  lemma {:induction false} ForwardMeaning<T(!new)>(cmp: (T, T) -> int, s: seq<T>, m: nat, lo: nat, i: nat, j: nat)
    requires lo < i <= j + 1 <= |s| && NotAbove(cmp, s, lo, i)
    ensures var r := Forward(cmp, s, m, lo, i, j); if r.Stop? then NotAbove(cmp, s, lo, r.i) else j >= m
    decreases j + 1 - i
  {
    if i <= m && i <= j && cmp(s[lo], s[i]) >= 0 {
      ForwardMeaning(cmp, s, m, lo, i + 1, j);
    }
  }

  lemma {:induction false} BackwardMeaning<T(!new)>(cmp: (T, T) -> int, s: seq<T>, lo: nat, i: nat, j: nat, hi: nat)
    requires lo < i <= j + 1 <= hi + 1 <= |s| && Above(cmp, s, lo, j, hi)
    ensures Above(cmp, s, lo, Backward(cmp, s, lo, i, j), hi)
    decreases j
  {
    if i <= j && cmp(s[lo], s[j]) < 0 {
      BackwardMeaning(cmp, s, lo, i, j - 1, hi);
    }
  }

  /** The partition is a permutation and parts the stretch; it strays only if the last block is the last one whose
      offset an int can hold. */
  lemma {:induction false} PartMeaning<T(!new)>(cmp: (T, T) -> int, s: seq<T>, m: nat, lo: nat, i: nat, j: nat, hi: nat)
    requires Preorder(cmp) && lo < i <= j + 1 <= hi + 1 <= |s| && i <= m && j <= m
    requires NotAbove(cmp, s, lo, i) && Above(cmp, s, lo, j, hi)
    ensures var r := Part(cmp, s, m, lo, i, j);
            if r.Placed? then Permuted(s, r.s, lo, hi) && Parted(cmp, r.s, lo, r.j, hi) else hi >= m
    decreases j + 1 - i
  {
    hide Preorder, NotAbove, Above, Permuted, Parted, Exchanged, Forward, Backward;
    if i > j {
      Placing(cmp, s, lo, i, j, hi);
    } else {
      ForwardMeaning(cmp, s, m, lo, i, j);
      var f := Forward(cmp, s, m, lo, i, j);
      if f.Stop? {
        BackwardMeaning(cmp, s, lo, f.i, j, hi);
        var y := Backward(cmp, s, lo, f.i, j);
        if f.i <= y {
          var t := Exchanged(s, f.i, y);
          ScansResume(cmp, s, lo, f.i, y, hi);
          SwapPermutes(s, f.i, y, lo, hi);
          PartMeaning(cmp, t, m, lo, f.i + 1, y - 1, hi);
          var r := Part(cmp, t, m, lo, f.i + 1, y - 1);
          if r.Placed? {
            PermutedTrans(s, t, r.s, lo, hi);
          }
        } else {
          Placing(cmp, s, lo, f.i, y, hi);
        }
      }
    }
  }

  lemma Placing<T(!new)>(cmp: (T, T) -> int, s: seq<T>, lo: nat, i: nat, j: nat, hi: nat)
    requires Preorder(cmp) && lo < i == j + 1 <= hi + 1 <= |s|
    requires NotAbove(cmp, s, lo, i) && Above(cmp, s, lo, j, hi)
    ensures Permuted(s, Pivot(s, lo, j), lo, hi) && Parted(cmp, Pivot(s, lo, j), lo, j, hi)
  {
    hide Preorder, NotAbove, Above, Permuted, Parted, Exchanged;
    PivotPlaced(cmp, s, lo, j, hi);
    SwapPermutes(s, lo, j, lo, hi);
  }

  /** With both sides of a parted stretch sorted, the stretch is: t parted, u with one side sorted, v with both. */
  lemma SidesJoin<T(!new)>(cmp: (T, T) -> int, t: seq<T>, u: seq<T>, v: seq<T>, lo: nat, j: nat, hi: nat, right: bool)
    requires Preorder(cmp) && lo <= j <= hi < |t| && Parted(cmp, t, lo, j, hi)
    requires if right then Permuted(t, u, j + 1, hi) && Permuted(u, v, lo, j - 1)
             else Permuted(t, u, lo, j - 1) && Permuted(u, v, j + 1, hi)
    requires if right then Sorted(cmp, u[j + 1..hi + 1]) && Sorted(cmp, v[lo..j])
             else Sorted(cmp, u[lo..j]) && Sorted(cmp, v[j + 1..hi + 1])
    ensures Permuted(t, v, lo, hi) && Sorted(cmp, v[lo..hi + 1])
  {
    hide Permuted, Parted, Sorted, Preorder;
    var x, y := if right then j + 1 else lo, if right then hi else j - 1;
    var x', y' := if right then lo else j + 1, if right then j - 1 else hi;
    PartedKept(cmp, t, u, lo, j, hi, x, y);
    PartedKept(cmp, u, v, lo, j, hi, x', y');
    PermutedWider(t, u, x, y, lo, hi);
    PermutedWider(u, v, x', y', lo, hi);
    PermutedTrans(t, u, v, lo, hi);
    SideUntouched(u, v, x, y, x', y');
    BothSides(cmp, v, lo, j, hi);
  }

  lemma SideUntouched<T>(u: seq<T>, v: seq<T>, x: int, y: int, x': int, y': int)
    requires Permuted(u, v, x', y') && 0 <= x <= y + 1 <= |u| && (y < x' || y' < x)
    ensures v[x..y + 1] == u[x..y + 1]
  {
    forall k | x <= k <= y
      ensures v[k] == u[k]
    {
      if k < x' {
        assert v[..x'][k] == u[..x'][k];
      } else {
        assert v[y' + 1..][k - y' - 1] == u[y' + 1..][k - y' - 1];
      }
    }
  }

  lemma Through<T(!new)>(cmp: (T, T) -> int, x: T, y: T, z: T)
    requires Preorder(cmp) && cmp(x, y) <= 0 && cmp(y, z) <= 0
    ensures cmp(x, z) <= 0
  {
  }

  lemma BothSides<T(!new)>(cmp: (T, T) -> int, v: seq<T>, lo: nat, j: nat, hi: nat)
    requires Preorder(cmp) && lo <= j <= hi < |v| && Parted(cmp, v, lo, j, hi)
    requires Sorted(cmp, v[lo..j]) && Sorted(cmp, v[j + 1..hi + 1])
    ensures Sorted(cmp, v[lo..hi + 1])
  {
    hide Preorder;
    var w := v[lo..hi + 1];
    forall i, k | 0 <= i < k < |w|
      ensures cmp(w[i], w[k]) <= 0
    {
      var x, y := lo + i, lo + k;
      assert w[i] == v[x] && w[k] == v[y];
      if y < j {
        assert v[lo..j][x - lo] == v[x] && v[lo..j][y - lo] == v[y];
      } else if x > j {
        assert v[j + 1..hi + 1][x - j - 1] == v[x] && v[j + 1..hi + 1][y - j - 1] == v[y];
      } else if x < j < y {
        Through(cmp, v[x], v[j], v[y]);
      }
    }
  }

  /** A side of at most half the elements sorts one level shallower. */
  lemma DepthBound(side: nat, n: nat, deep: nat)
    requires 2 * side < n && n > 1 && deep <= Log2(side)
    ensures 1 + deep <= Log2(n)
  {
    Log2Mono(side, n / 2);
  }

  /** A sort of the blocks lo to hi that did what it should. */
  ghost predicate SortedTo<T(!new)>(cmp: (T, T) -> int, s: seq<T>, r: Sorting<T>, lo: int, hi: int)
    requires 0 <= lo <= hi + 1 <= |s|
  {
    && r.Done? && Permuted(s, r.s, lo, hi) && Sorted(cmp, r.s[lo..hi + 1])
    && r.depth <= Log2(hi + 1 - lo)
  }

  /** Whenever it stays inside the array, QuickSort leaves a sorted permutation and nests at most log2(n) calls; it
      strays only if the last block is the last one whose offset an int can hold. */
  lemma {:induction false} SortMeaning<T(!new)>(cmp: (T, T) -> int, s: seq<T>, m: nat, lo: nat, hi: int)
    requires Preorder(cmp) && lo <= hi + 1 <= |s| && hi <= m
    ensures var r := Sort(cmp, s, m, lo, hi); if r.Done? then SortedTo(cmp, s, r, lo, hi) else hi == m
    decreases hi + 1 - lo
  {
    hide Preorder, Permuted, Parted, NotAbove, Above, Part, Sort, SortedTo;
    SortUnfold(cmp, s, m, lo, hi);
    if hi <= lo {
      FewSorted(cmp, s, lo, hi);
    } else {
      ScansStart(cmp, s, lo, hi);
      PartMeaning(cmp, s, m, lo, lo + 1, hi, hi);
      var p := Part(cmp, s, m, lo, lo + 1, hi);
      if p.Placed? {
        var right := p.j * 2 > hi + lo;
        var x, y := if right then p.j + 1 else lo, if right then hi else p.j - 1;
        SortMeaning(cmp, p.s, m, x, y);
        var f := Sort(cmp, p.s, m, x, y);
        if f.Done? {
          var x', y' := if right then lo else p.j + 1, if right then p.j - 1 else hi;
          SortMeaning(cmp, f.s, m, x', y');
          var g := Sort(cmp, f.s, m, x', y');
          if g.Done? {
            SortStep(cmp, s, p.s, f, g, lo, p.j, hi, right);
          }
        }
      }
    }
  }

  lemma SortUnfold<T(!new)>(cmp: (T, T) -> int, s: seq<T>, m: nat, lo: nat, hi: int)
    requires lo <= hi + 1 <= |s| && hi <= m
    ensures hi <= lo ==> Sort(cmp, s, m, lo, hi) == Done(s, 0)
    ensures hi > lo ==>
              var r, p := Sort(cmp, s, m, lo, hi), Part(cmp, s, m, lo, lo + 1, hi);
              && (p.Lost? ==> r == Strayed)
              && (p.Placed? ==>
                   var right := p.j * 2 > hi + lo;
                   var x, y := if right then p.j + 1 else lo, if right then hi else p.j - 1;
                   var f := Sort(cmp, p.s, m, x, y);
                   && (f.Strayed? ==> r == Strayed)
                   && (f.Done? ==>
                        var x', y' := if right then lo else p.j + 1, if right then p.j - 1 else hi;
                        r == After(1 + f.depth, Sort(cmp, f.s, m, x', y'))))
  {
    hide Part;
  }

  /** One round: t is s parted at j, f the result of the recursion, g that of the rest of the loop. */
  lemma SortStep<T(!new)>(cmp: (T, T) -> int, s: seq<T>, t: seq<T>, f: Sorting<T>, g: Sorting<T>,
                          lo: nat, j: nat, hi: nat, right: bool)
    requires Preorder(cmp) && lo <= j <= hi < |t| && lo < hi && f.Done? && g.Done? && |f.s| == |t|
    requires Permuted(s, t, lo, hi) && Parted(cmp, t, lo, j, hi)
    requires right == (j * 2 > hi + lo)
    requires var x, y := if right then j + 1 else lo, if right then hi else j - 1; SortedTo(cmp, t, f, x, y)
    requires var x, y := if right then lo else j + 1, if right then j - 1 else hi; SortedTo(cmp, f.s, g, x, y)
    ensures SortedTo(cmp, s, After(1 + f.depth, g), lo, hi)
  {
    hide Preorder, Permuted, Parted, Sorted, Log2;
    SidesJoin(cmp, t, f.s, g.s, lo, j, hi, right);
    PermutedTrans(s, t, g.s, lo, hi);
    DepthBound(if right then hi - j else j - lo, hi + 1 - lo, f.depth);
    Log2Mono(if right then j - lo else hi - j, hi + 1 - lo);
  }

  lemma FewSorted<T(!new)>(cmp: (T, T) -> int, s: seq<T>, lo: nat, hi: int)
    requires hi <= lo <= hi + 1 <= |s|
    ensures SortedTo(cmp, s, Done(s, 0), lo, hi)
  {
  }

  /** Before the scans nothing has been passed. */
  lemma ScansStart<T(!new)>(cmp: (T, T) -> int, s: seq<T>, lo: int, hi: int)
    requires 0 <= lo < hi < |s|
    ensures NotAbove(cmp, s, lo, lo + 1) && Above(cmp, s, lo, hi, hi)
  {
  }

  // ---------------------------------------------------------------------------------------------------
  // For which arrays

  /** qsort did what it is for. */
  ghost predicate SortsIt<T(!new)>(cmp: (T, T) -> int, s: seq<T>, size: nat)
    requires size > 0
  {
    var r := Qsorted(cmp, s, size);
    r.Done? && multiset(r.s) == multiset(s) && Sorted(cmp, r.s)
  }

  /** A number of blocks fits exactly if their bytes do. */
  lemma BytesFit(n: nat, size: nat)
    requires size > 0
    ensures n * size <= 32767 <==> n <= 32767 / size
  {
    var m := 32767 / size;
    assert m * size <= 32767 < (m + 1) * size;
    if n <= m {
      MulMono(n, m, size);
    } else {
      MulMono(m + 1, n, size);
    }
  }

  /** Below 32 KB qsort sorts every array, for every comparison that is a total preorder, and nests at most
      log2(n) calls. */
  lemma QsortSorts<T(!new)>(cmp: (T, T) -> int, s: seq<T>, size: nat)
    requires Preorder(cmp) && size > 0 && (|s| <= 1 || |s| * size <= 32767)
    ensures SortsIt(cmp, s, size) && Qsorted(cmp, s, size).depth <= Log2(|s|)
  {
    hide Preorder, Sort, Log2;
    BytesFit(|s|, size);
    if |s| > 1 {
      var r := Sort(cmp, s, 32767 / size, 0, |s| - 1);
      SortMeaning(cmp, s, 32767 / size, 0, |s| - 1);
      assert s[0..|s|] == s && r.s[0..|s|] == r.s;
    }
  }

  /** An array of equal blocks whose last offset still fits: the forward scan runs past it and wraps. */
  lemma {:induction false} EqualRunsOff<T(!new)>(cmp: (T, T) -> int, s: seq<T>, lo: nat, i: nat, j: nat)
    requires lo < i <= j + 1 <= |s| && forall k :: lo <= k < |s| ==> cmp(s[lo], s[k]) >= 0
    ensures Forward(cmp, s, j, lo, i, j) == Below
    decreases j + 1 - i
  {
    if i <= j {
      EqualRunsOff(cmp, s, lo, i + 1, j);
    }
  }

  lemma EqualStrays<T(!new)>(cmp: (T, T) -> int, s: seq<T>, size: nat)
    requires size > 0 && 2 <= |s| && |s| - 1 == 32767 / size
    requires forall i, k :: 0 <= i < |s| && 0 <= k < |s| ==> cmp(s[i], s[k]) >= 0
    ensures Qsorted(cmp, s, size) == Strayed
  {
    EqualRunsOff(cmp, s, 0, 1, |s| - 1);
  }

  ghost predicate SortsAll<T(!new)>(cmp: (T, T) -> int, n: nat, size: nat)
    requires size > 0
  {
    forall s: seq<T> {:trigger SortsIt(cmp, s, size)} :: |s| == n ==> SortsIt(cmp, s, size)
  }

  /** The exact limit of qsort, for every preorder that tells some elements apart. */
  lemma SortsExactly<T(!new)>(cmp: (T, T) -> int, x: T, y: T, n: nat, size: nat)
    requires Preorder(cmp) && cmp(x, y) > 0 && size > 0 && n * size <= 65535
    ensures SortsAll(cmp, n, size) <==> n <= 1 || n * size <= 32767
  {
    hide SortsIt;
    if n <= 1 || n * size <= 32767 {
      forall s: seq<T> | |s| == n
        ensures SortsIt(cmp, s, size)
      {
        QsortSorts(cmp, s, size);
      }
    } else {
      var _ := Unsorted(cmp, x, y, n, size);
    }
  }

  /** An array of n blocks that qsort does not sort: of equal blocks when only the end of the array is beyond
      32 KB, and of two different blocks when its last block is. */
  lemma Unsorted<T(!new)>(cmp: (T, T) -> int, x: T, y: T, n: nat, size: nat) returns (s: seq<T>)
    requires Preorder(cmp) && cmp(x, y) > 0 && size > 0 && n > 1 && n * size > 32767
    ensures |s| == n && !SortsIt(cmp, s, size)
  {
    hide Sort;
    BytesFit(n, size);
    if n - 1 > 32767 / size {
      s := seq(n, i => if i == 0 then x else y);
      assert cmp(s[0], s[1]) > 0;
    } else {
      s := seq(n, i => x);
      assert cmp(x, x) == 0;
      EqualStrays(cmp, s, size);
    }
  }

  function Difference(x: int, y: int): int {
    x - y
  }

  /** 32769 descending bytes stay as they are, and on 16384 equal words the scan leaves the array. */
  lemma FailingInputs()
    ensures Qsorted(Difference, seq(32769, i => -i), 1) == Done(seq(32769, i => -i), 0)
    ensures Qsorted(Difference, seq(16384, i => 7), 2) == Strayed
  {
    hide Sort;
    EqualStrays(Difference, seq(16384, i => 7), 2);
  }

  // ---------------------------------------------------------------------------------------------------
  // The functions of the library, on byte offsets

  /** The offset of block k. */
  function Offset(k: int, size: nat): int {
    k * size
  }

  lemma OffsetFacts(k: int, size: nat)
    requires size > 0
    ensures Offset(k + 1, size) == Offset(k, size) + size && Offset(k - 1, size) == Offset(k, size) - size
    ensures k >= 0 ==> Offset(k, size) / size == k && 0 <= Offset(k, size)
    ensures k >= 0 ==> (Offset(k, size) <= 32767 <==> k <= 32767 / size)
  {
    if k >= 0 {
      DivModUnique(k * size, size, k, 0);
      BytesFit(k, size);
      MulMono(0, k, size);
    }
  }

  lemma OffsetOrder(x: int, y: int, size: nat)
    requires size > 0
    ensures x <= y <==> Offset(x, size) <= Offset(y, size)
  {
    MulMono(x, y, size);
    MulMono(y + 1, x, size);
  }

  /** _swap: exchange the blocks at two offsets. */
  method Swap<T>(a: array<T>, size: nat, i: int, j: int, ghost x: nat, ghost y: nat)
    requires size > 0 && x < a.Length && y < a.Length && i == Offset(x, size) && j == Offset(y, size)
    modifies a
    ensures a[..] == Exchanged(old(a[..]), x, y)
  {
    OffsetFacts(x, size);
    OffsetFacts(y, size);
    a[i / size], a[j / size] := a[j / size], a[i / size];
  }

  /** The scan forward, to the first block greater than the pivot at lo. It fails when I has wrapped and the
      comparison would read below the array. */
  method ScanForward<T(!new)>(a: array<T>, size: nat, lo: int, i0: int, j: int, cmp: (T, T) -> int,
                              ghost l: nat, ghost x: nat, ghost y: nat)
    returns (ok: bool, i: int)
    requires 0 < size <= 32767 && l < x <= y + 1 <= a.Length && x <= 32767 / size && y <= 32767 / size
    requires lo == Offset(l, size) && i0 == Offset(x, size) && j == Offset(y, size)
    ensures match Forward(cmp, a[..], 32767 / size, l, x, y)
            case Below => !ok
            case Stop(k) => ok && i == Offset(k, size)
  {
    hide Offset;
    ghost var m, k := 32767 / size, x;
    i := i0;
    OffsetFacts(l, size);
    OffsetFacts(y, size);
    OffsetFacts(x, size);
    while i <= j
      invariant x <= k <= y + 1 && k <= m + 1 && (k <= m ==> i == Offset(k, size)) && (k > m ==> i < 0)
      invariant Forward(cmp, a[..], m, l, x, y) == Forward(cmp, a[..], m, l, k, y)
      decreases y + 1 - k
    {
      if i < 0 {
        OffsetFacts(k, size);
        return false, i;
      }
      OffsetFacts(k, size);
      OffsetOrder(k, y, size);
      if cmp(a[lo / size], a[i / size]) < 0 {
        return true, i;
      }
      OffsetFacts(k + 1, size);
      i := Int16(i + size);
      k := k + 1;
    }
    OffsetOrder(k, y, size);
    ok := true;
  }

  /** The scan backward, to the last block not greater than the pivot. */
  method ScanBackward<T(!new)>(a: array<T>, size: nat, lo: int, i: int, j0: int, cmp: (T, T) -> int,
                               ghost l: nat, ghost x: nat, ghost y: nat)
    returns (j: int)
    requires 0 < size <= 32767 && l < x <= y + 1 <= a.Length && y <= 32767 / size
    requires lo == Offset(l, size) && i == Offset(x, size) && j0 == Offset(y, size)
    ensures j == Offset(Backward(cmp, a[..], l, x, y), size)
  {
    hide Offset;
    ghost var k: nat := y;
    j := j0;
    OffsetFacts(l, size);
    OffsetFacts(y, size);
    OffsetOrder(x, y, size);
    while i <= j && cmp(a[lo / size], a[j / size]) < 0
      invariant x <= k + 1 && k <= y && j == Offset(k, size) && (i <= j <==> x <= k)
      invariant 0 <= j <= 32767 && j / size == k && lo / size == l
      invariant Backward(cmp, a[..], l, x, y) == Backward(cmp, a[..], l, x, k)
      decreases k
    {
      OffsetFacts(k, size);
      k := k - 1;
      OffsetFacts(k, size);
      OffsetOrder(x, k, size);
      OffsetOrder(k, y, size);
      j := Int16(j - size);
    }
  }

  /** The partition loop: afterwards the block at j has its final place. */
  method Partition<T(!new)>(a: array<T>, size: nat, lo: int, hi: int, cmp: (T, T) -> int, ghost l: nat, ghost h: nat)
    returns (ok: bool, j: int)
    requires 0 < size <= 32767 && l < h < a.Length && h <= 32767 / size
    requires lo == Offset(l, size) && hi == Offset(h, size)
    modifies a
    ensures match Part(cmp, old(a[..]), 32767 / size, l, l + 1, h)
            case Lost => !ok
            case Placed(t, q) => ok && a[..] == t && j == Offset(q, size)
  {
    hide Offset, Exchanged, Forward, Backward, Part, Pivot, Int16;
    ghost var m, x, y: nat := 32767 / size, l + 1, h;
    First(l, h, size);
    var i := Int16(lo + size);
    j := hi;
    ok := true;
    while i <= j
      invariant ok && l < x <= y + 1 <= h + 1 && x <= m && i == Offset(x, size) && j == Offset(y, size)
      invariant i <= j <==> x <= y
      invariant Part(cmp, old(a[..]), m, l, l + 1, h) == Part(cmp, a[..], m, l, x, y)
      decreases y + 1 - x
    {
      PartUnfold(cmp, a[..], m, l, x, y);
      ok, i := ScanForward(a, size, lo, i, j, cmp, l, x, y);
      if !ok { return; }
      x := Forward(cmp, a[..], m, l, x, y).i;
      j := ScanBackward(a, size, lo, i, j, cmp, l, x, y);
      y := Backward(cmp, a[..], l, x, y);
      OffsetOrder(x, y, size);
      if i <= j {
        Swap(a, size, i, j, x, y);
        Advance(x, y, size);
        x := x + 1;
        y := y - 1;
        i := Int16(i + size);
        j := Int16(j - size);
      }
    }
    PartUnfold(cmp, a[..], m, l, x, y);
    PivotIs(a[..], l, y);
    OffsetOrder(l, y, size);
    OffsetOrder(y, l, size);
    if j != lo {
      Swap(a, size, lo, j, l, y);
    }
  }

  /** The offsets that the scans start with. */
  lemma First(l: nat, h: nat, size: nat)
    requires 0 < size && l < h <= 32767 / size
    ensures Int16(Offset(l, size) + size) == Offset(l + 1, size) <= Offset(h, size)
  {
    OffsetFacts(l, size);
    OffsetFacts(l + 1, size);
    OffsetFacts(h, size);
    OffsetOrder(l + 1, h, size);
  }

  /** The offsets after an exchange. */
  lemma Advance(x: nat, y: nat, size: nat)
    requires 0 < size && x < y <= 32767 / size
    ensures Int16(Offset(x, size) + size) == Offset(x + 1, size) && Int16(Offset(y, size) - size) == Offset(y - 1, size)
    ensures Offset(x + 1, size) <= Offset(y - 1, size) <==> x + 1 <= y - 1
  {
    OffsetFacts(x, size);
    OffsetFacts(x + 1, size);
    OffsetFacts(y, size);
    OffsetFacts(y - 1, size);
    OffsetOrder(x + 1, y - 1, size);
  }

  lemma PartUnfold<T(!new)>(cmp: (T, T) -> int, s: seq<T>, m: nat, lo: nat, i: nat, j: nat)
    requires lo < i <= j + 1 <= |s| && i <= m && j <= m
    ensures i > j ==> Part(cmp, s, m, lo, i, j) == Placed(Pivot(s, lo, j), j)
    ensures i <= j ==>
              var f := Forward(cmp, s, m, lo, i, j);
              && (f.Below? ==> Part(cmp, s, m, lo, i, j) == Lost)
              && (f.Stop? ==>
                   var y := Backward(cmp, s, lo, f.i, j);
                   Part(cmp, s, m, lo, i, j)
                   == if f.i <= y then Part(cmp, Exchanged(s, f.i, y), m, lo, f.i + 1, y - 1)
                      else Part(cmp, s, m, lo, f.i, y))
  {
    hide Forward, Backward, Exchanged, Pivot;
  }

  lemma PivotIs<T>(s: seq<T>, lo: nat, j: nat)
    requires lo < |s| && j < |s|
    ensures Pivot(s, lo, j) == if j != lo then Exchanged(s, lo, j) else s
  {
  }

  /** The test for the larger side, in unsigned ints of 16 bits. */
  lemma SideTest(l: nat, j: nat, h: nat, size: nat)
    requires size > 0 && l <= j <= h && Offset(h, size) <= 32767
    ensures 0 <= Offset(l, size) <= Offset(j, size) <= Offset(h, size)
    ensures UInt16(UInt16(Offset(j, size)) * 2) > UInt16(Int16(Offset(h, size) + Offset(l, size))) <==> j * 2 > h + l
  {
    MulMono(0, l, size);
    MulMono(l, j, size);
    MulMono(j, h, size);
    var d := j * 2 - (h + l);
    assert Offset(j, size) * 2 - (Offset(h, size) + Offset(l, size)) == d * size;
    MulMono(1, d, size);
    MulMono(d, 0, size);
  }

  /** The offsets beside a placed block. */
  lemma Sides(l: nat, q: nat, h: nat, size: nat)
    requires 0 < size <= 32767 && l <= q <= h <= 32767 / size && q < 32767 / size
    ensures Int16(Offset(q, size) + size) == Offset(q + 1, size) && Int16(Offset(q, size) - size) == Offset(q - 1, size)
    ensures UInt16(UInt16(Offset(q, size)) * 2) > UInt16(Int16(Offset(h, size) + Offset(l, size))) <==> q * 2 > h + l
  {
    OffsetFacts(h, size);
    OffsetFacts(q, size);
    OffsetFacts(q + 1, size);
    SideTest(l, q, h, size);
  }

  /** QuickSort: the blocks from offset lo to offset hi. nested is how deep the calls below this one go. A
      negative hi, as it comes from a last offset that does not fit, leaves nothing to do. */
  method QuickSort<T(!new)>(a: array<T>, size: nat, lo0: int, hi0: int, cmp: (T, T) -> int,
                            ghost l0: nat, ghost h0: int)
    returns (ok: bool, ghost nested: nat)
    requires 0 < size && l0 <= h0 + 1 <= a.Length && h0 <= 32767 / size && (l0 < h0 ==> size <= 32767)
    requires lo0 == Offset(l0, size) && (hi0 == Offset(h0, size) || (hi0 <= lo0 && h0 <= l0))
    modifies a
    ensures match Sort(cmp, old(a[..]), 32767 / size, l0, h0)
            case Strayed => !ok
            case Done(t, d) => ok && a[..] == t && nested == d
    decreases h0 + 1 - l0
  {
    hide Offset, Part, Sort, Int16, UInt16, After;
    ghost var m, l, h: int := 32767 / size, l0, h0;
    var lo, hi := lo0, hi0;
    nested := 0;
    ok := true;
    AfterNothing(Sort(cmp, a[..], m, l, h));
    OffsetOrder(h, l, size);
    while hi > lo
      invariant ok && l0 <= l <= h + 1 && h <= h0 && lo == Offset(l, size) && (hi > lo <==> h > l)
      invariant h > l ==> hi == Offset(h, size)
      invariant Sort(cmp, old(a[..]), m, l0, h0) == After(nested, Sort(cmp, a[..], m, l, h))
      decreases h + 1 - l
    {
      SortUnfold(cmp, a[..], m, l, h);
      ghost var p := Part(cmp, a[..], m, l, l + 1, h);
      var j;
      ok, j := Partition(a, size, lo, hi, cmp, l, h);
      if !ok { return; }
      ghost var q: int := p.j;
      Sides(l, q, h, size);
      ghost var deep;
      if UInt16(UInt16(j) * 2) > UInt16(Int16(hi + lo)) {
        ok, deep := QuickSort(a, size, Int16(j + size), hi, cmp, q + 1, h);
        if !ok { return; }
        hi := Int16(j - size);
        h := q - 1;
      } else {
        ok, deep := QuickSort(a, size, lo, Int16(j - size), cmp, l, q - 1);
        if !ok { return; }
        lo := Int16(j + size);
        l := q + 1;
      }
      AfterTwice(nested, 1 + deep, Sort(cmp, a[..], m, l, h));
      nested := if 1 + deep > nested then 1 + deep else nested;
      OffsetOrder(h, l, size);
    }
    SortUnfold(cmp, a[..], m, l, h);
  }

  lemma AfterNothing<T>(r: Sorting<T>)
    ensures After(0, r) == r
  {
  }

  lemma AfterTwice<T>(d: nat, e: nat, r: Sorting<T>)
    ensures After(d, After(e, r)) == After(if e > d then e else d, r)
  {
  }

  /** qsort. Below 32 KB the array becomes a sorted permutation of itself. */
  method QSort<T(!new)>(a: array<T>, size: nat, cmp: (T, T) -> int) returns (ok: bool, ghost nested: nat)
    requires size > 0 && a.Length * size <= 65535
    modifies a
    ensures match Qsorted(cmp, old(a[..]), size)
            case Strayed => !ok
            case Done(t, d) => ok && a[..] == t && nested == d
    ensures Preorder(cmp) && (a.Length <= 1 || a.Length * size <= 32767) ==>
              ok && multiset(a[..]) == multiset(old(a[..])) && Sorted(cmp, a[..]) && nested <= Log2(a.Length)
  {
    hide Preorder, Sort, Log2, Sorted;
    ok, nested := true, 0;
    if a.Length > 1 {
      ghost var n := a.Length;
      LastOffset(n, size);
      ok, nested := QuickSort(a, size, 0, Int16(UInt16((a.Length - 1) * size)), cmp, 0,
                              if n - 1 <= 32767 / size then n - 1 else 0);
      if n - 1 > 32767 / size {
        SortUnfold(cmp, old(a[..]), 32767 / size, 0, 0);
      }
    }
    if Preorder(cmp) && (a.Length <= 1 || a.Length * size <= 32767) {
      QsortSorts(cmp, old(a[..]), size);
    }
  }

  /** The offset of the last block, as an int of 16 bits. */
  lemma LastOffset(n: nat, size: nat)
    requires size > 0 && n > 1 && n * size <= 65535
    ensures size <= 32767 && Offset(0, size) == 0
    ensures var last := Int16(UInt16((n - 1) * size));
            if n - 1 <= 32767 / size then last == Offset(n - 1, size) else last < 0
  {
    MulMono(2, n, size);
    BytesFit(n - 1, size);
    assert 0 <= (n - 1) * size == n * size - size;
  }
}
