/** bsearch of the C library: the leftmost element equal to the key, with the midpoint computed in 16-bit
    integers. */
module BSearch {
  import opened QuickSort
  import opened ShortInts

  /** Outside: the midpoint overflowed and the comparison would read below the array. */
  datatype Place = Absent | At(index: nat) | Outside

  /** (last + first) / 2 in ints of 16 bits: negative once the sum overflows. */
  function Middle(first: int, last: int): (c: int)
    ensures 0 <= first <= last <= 32767 ==>
      if last + first <= 32767 then first <= c <= last && c == (last + first) / 2 else c < 0
  {
    Quo(Int16(last + first), 2)
  }

  /** The search from a given state of its loop. */
  function Search<T(!new)>(cmp: (T, T) -> int, s: seq<T>, key: T, first: int, last: int, found: bool): Place
    requires 0 <= first && last < |s| && last <= 32767
    decreases last - first + 1
  {
    if first > last then
      if found then At(first) else Absent
    else
      var current := Middle(first, last);
      if current < 0 then Outside
      else if cmp(s[current], key) < 0 then Search(cmp, s, key, current + 1, last, found)
      else Search(cmp, s, key, first, current - 1, found || cmp(s[current], key) == 0)
  }

  /** What ISO C promises: an element equal to the key, none exactly when there is none; and, beyond it, the
      first such element. */
  ghost predicate Leftmost<T(!new)>(cmp: (T, T) -> int, s: seq<T>, key: T, r: Place) {
    match r
    case Outside => false
    case Absent => forall k :: 0 <= k < |s| ==> cmp(s[k], key) != 0
    case At(k) => k < |s| && cmp(s[k], key) == 0 && forall i :: 0 <= i < k ==> cmp(s[i], key) != 0
  }

  method BSearch<T(!new)>(a: array<T>, key: T, cmp: (T, T) -> int) returns (r: Place)
    requires a.Length <= 65535
    ensures r == Search(cmp, a[..], key, 0, Int16(a.Length - 1), false)
    ensures Preorder(cmp) && Sorted(cmp, a[..]) && a.Length <= 16384 ==> Leftmost(cmp, a[..], key, r)
  {
    hide Preorder, Sorted, Leftmost, Int16, Quo, Middle, Bracket;
    var found := false;
    var first, last := 0, Int16(a.Length - 1);
    var stopped := false;
    while first <= last && !stopped
      invariant 0 <= first && last < a.Length && last <= 32767
      invariant Search(cmp, a[..], key, 0, Int16(a.Length - 1), false)
             == if stopped then Outside else Search(cmp, a[..], key, first, last, found)
      decreases !stopped, last - first + 1
    {
      var current := Middle(first, last);
      if current < 0 {
        stopped := true;
      } else {
        var result := cmp(a[current], key);
        if result < 0 {
          first := current + 1;
        } else {
          last := current - 1;
          if result == 0 {
            found := true;
          }
        }
      }
    }
    r := if stopped then Outside else if found then At(first) else Absent;
    if Preorder(cmp) && Sorted(cmp, a[..]) && a.Length <= 16384 {
      BracketAll(cmp, a[..], key);
      SearchIsLeftmost(cmp, a[..], key, 0, a.Length - 1, false);
    }
  }

  lemma BracketAll<T(!new)>(cmp: (T, T) -> int, s: seq<T>, key: T)
    ensures Bracket(cmp, s, key, 0, |s| - 1, false)
  {
  }

  /** What the loop keeps: the elements before first are less than the key and those after last are not; once
      an equal element was seen, the one after last is equal. */
  ghost predicate Bracket<T(!new)>(cmp: (T, T) -> int, s: seq<T>, key: T, first: int, last: int, found: bool)
    ensures Bracket(cmp, s, key, first, last, found) ==> 0 <= first <= last + 1 <= |s|
  {
    && 0 <= first <= last + 1 <= |s|
    && (forall k :: 0 <= k < first ==> cmp(s[k], key) < 0)
    && (forall k :: last < k < |s| ==> if found then cmp(s[k], key) >= 0 else cmp(s[k], key) > 0)
    && (found ==> last + 1 < |s| && cmp(s[last + 1], key) == 0)
  }

  /** One comparison at c. */
  lemma BracketKept<T(!new)>(cmp: (T, T) -> int, s: seq<T>, key: T, first: int, last: int, found: bool, c: int)
    requires Preorder(cmp) && Sorted(cmp, s)
    requires Bracket(cmp, s, key, first, last, found) && first <= c <= last
    ensures if cmp(s[c], key) < 0 then Bracket(cmp, s, key, c + 1, last, found)
            else Bracket(cmp, s, key, first, c - 1, found || cmp(s[c], key) == 0)
  {
    SidesOrdered(cmp, s, key, c);
    if found {
      assert cmp(s[c], s[last + 1]) <= 0;
    }
  }

  lemma BracketClosed<T(!new)>(cmp: (T, T) -> int, s: seq<T>, key: T, first: int, last: int, found: bool)
    requires Bracket(cmp, s, key, first, last, found) && first > last
    ensures Leftmost(cmp, s, key, if found then At(first) else Absent)
  {
  }

  /** From any state the loop can be in, on an array whose midpoints fit. */
  lemma {:induction false} SearchIsLeftmost<T(!new)>(cmp: (T, T) -> int, s: seq<T>, key: T,
                                                     first: int, last: int, found: bool)
    requires Preorder(cmp) && Sorted(cmp, s) && |s| <= 16384
    requires Bracket(cmp, s, key, first, last, found)
    ensures Leftmost(cmp, s, key, Search(cmp, s, key, first, last, found))
    decreases last - first + 1
  {
    hide Preorder, Sorted, Bracket, Leftmost, Int16, Quo, Middle;
    if first > last {
      BracketClosed(cmp, s, key, first, last, found);
    } else {
      var c := Middle(first, last);
      BracketKept(cmp, s, key, first, last, found, c);
      if cmp(s[c], key) < 0 {
        SearchIsLeftmost(cmp, s, key, c + 1, last, found);
      } else {
        SearchIsLeftmost(cmp, s, key, first, c - 1, found || cmp(s[c], key) == 0);
      }
    }
  }

  lemma SidesOrdered<T(!new)>(cmp: (T, T) -> int, s: seq<T>, key: T, c: nat)
    requires Preorder(cmp) && Sorted(cmp, s) && c < |s|
    ensures cmp(s[c], key) < 0 ==> forall k :: 0 <= k <= c ==> cmp(s[k], key) < 0
    ensures cmp(s[c], key) >= 0 ==> forall k :: c <= k < |s| ==> cmp(s[k], key) >= 0
    ensures cmp(s[c], key) > 0 ==> forall k :: c <= k < |s| ==> cmp(s[k], key) > 0
  {
  }

  /** On more than 16384 elements a search for a key above all of them leaves the array. */
  lemma {:induction false} Overruns<T(!new)>(cmp: (T, T) -> int, s: seq<T>, key: T, first: int)
    requires 16384 < |s| <= 32768 && 0 <= first < |s|
    requires forall k :: 0 <= k < |s| ==> cmp(s[k], key) < 0
    ensures Search(cmp, s, key, first, |s| - 1, false) == Outside
    decreases |s| - first
  {
    hide Middle, Quo, Int16;
    var sum := |s| - 1 + first;
    if sum < 32768 {
      Overruns(cmp, s, key, sum / 2 + 1);
    }
  }

  ghost predicate FindsIn(s: seq<int>, key: int)
    requires |s| <= 65535
  {
    Leftmost(Difference, s, key, Search(Difference, s, key, 0, Int16(|s| - 1), false))
  }

  /** Whether the search works for every sorted array of n elements. */
  ghost predicate Works(n: nat)
    requires n <= 65535
  {
    forall s: seq<int>, key: int {:trigger FindsIn(s, key)} ::
      |s| == n && Sorted(Difference, s) ==> FindsIn(s, key)
  }

  /** The exact size up to which the 16-bit search is right. */
  lemma WorksExactly(n: nat)
    requires n <= 65535
    ensures Works(n) <==> n <= 16384
  {
    hide FindsIn, Sorted;
    if n <= 16384 {
      forall s: seq<int>, key: int | |s| == n && Sorted(Difference, s)
        ensures FindsIn(s, key)
      {
        hide *;
        FindsSmall(s, key);
      }
    } else {
      FailsIn(n);
    }
  }

  lemma FindsSmall(s: seq<int>, key: int)
    requires |s| <= 16384 && Sorted(Difference, s)
    ensures FindsIn(s, key)
  {
    hide Middle, Bracket, Leftmost, Search;
    BracketAll(Difference, s, key);
    SearchIsLeftmost(Difference, s, key, 0, |s| - 1, false);
  }

  lemma FailsIn(n: nat)
    requires 16384 < n <= 65535
    ensures exists s: seq<int>, key: int {:trigger FindsIn(s, key)} ::
      |s| == n && Sorted(Difference, s) && !FindsIn(s, key)
  {
    hide Middle;
    var s := seq(n, i => 0);
    var key := if n <= 32768 then 1 else 0;
    assert Sorted(Difference, s);
    if n <= 32768 {
      Overruns(Difference, s, key, 0);
    } else {
      assert Difference(s[0], key) == 0;
      assert Search(Difference, s, key, 0, Int16(n - 1), false) == Absent;
    }
    assert !FindsIn(s, key);
  }

  /** Sorting and then searching decides whether the array held an element equal to the key, within the limits
      of both functions. */
  method SortAndFind<T(!new)>(a: array<T>, size: nat, key: T, cmp: (T, T) -> int) returns (r: Place)
    requires Preorder(cmp) && size > 0 && a.Length * size <= 32767 && a.Length <= 16384
    modifies a
    ensures multiset(a[..]) == multiset(old(a[..])) && Leftmost(cmp, a[..], key, r)
    ensures r != Absent <==> exists x :: x in old(a[..]) && cmp(x, key) == 0
  {
    ghost var s := a[..];
    ghost var nested;
    var ok;
    ok, nested := QSort(a, size, cmp);
    r := BSearch(a, key, cmp);
    Membership(cmp, s, a[..], key, r);
  }

  lemma Membership<T(!new)>(cmp: (T, T) -> int, s: seq<T>, t: seq<T>, key: T, r: Place)
    requires multiset(s) == multiset(t) && Leftmost(cmp, t, key, r)
    ensures r != Absent <==> exists x :: x in s && cmp(x, key) == 0
  {
    forall x ensures x in s <==> x in t {
      assert x in multiset(s) <==> x in multiset(t);
    }
    match r
    case At(k) => assert t[k] in s;
    case Absent =>
    case Outside =>
  }
}
