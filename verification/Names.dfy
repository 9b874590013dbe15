/** 8.3 names: make_dirfile parses a path segment into the 11-byte field of a directory entry, and
    get_fileinfo prints such a field. */
module Names {
  import opened Bytes

  const SPACE: byte := 0x20
  const DOT: byte := 0x2E
  const SLASH: byte := 0x2F

  /** The characters that may stand in a name, apart from the dot. */
  predicate Allowed(c: byte) {
    && c > 0x20 && c != 0x7F && c != DOT && c != SLASH
    && c != 0x22                    // "
    && !(0x2A <= c <= 0x2C)         // * + ,
    && !(0x3A <= c <= 0x3F)         // : ; < = > ?
    && c != 0x7C                    // |
    && !(0x5B <= c <= 0x5D)         // [ \\ ]
  }

  function Upper(c: byte): byte {
    if 0x61 <= c <= 0x7A then c - 0x20 else c
  }

  function UpperAll(s: seq<byte>): (r: seq<byte>)
    ensures |r| == |s| && forall i :: 0 <= i < |s| ==> r[i] == Upper(s[i])
  {
    seq(|s|, i requires 0 <= i < |s| => Upper(s[i]))
  }

  function Pad(s: seq<byte>, n: nat): (r: seq<byte>)
    requires |s| <= n
    ensures |r| == n && forall i :: 0 <= i < n ==> r[i] == if i < |s| then s[i] else SPACE
  {
    s + seq(n - |s|, i => SPACE)
  }

  /** Length of the longest front of s that consists of dots (or, with `dots` false, of other characters). */
  function Front(s: seq<byte>, dots: bool): (n: nat)
    ensures n <= |s|
    ensures forall i :: 0 <= i < n ==> (s[i] == DOT) == dots
    ensures n < |s| ==> (s[n] == DOT) != dots
  {
    if s == [] || (s[0] == DOT) != dots then 0 else 1 + Front(s[1..], dots)
  }

  /** Front is determined by its defining property. */
  lemma {:induction false} FrontIs(s: seq<byte>, dots: bool, n: nat)
    requires n <= |s| && (forall i :: 0 <= i < n ==> (s[i] == DOT) == dots)
    requires n < |s| ==> (s[n] == DOT) != dots
    ensures Front(s, dots) == n
  {
    if n > 0 {
      FrontIs(s[1..], dots, n - 1);
    }
  }

  /** The part of a segment before its first dot. */
  function Body(s: seq<byte>): seq<byte> { s[..Front(s, false)] }

  /** The part behind the first run of dots. */
  function Ext(s: seq<byte>): seq<byte> {
    var rest := s[Front(s, false)..];
    rest[Front(rest, true)..]
  }

  /** A segment that names something: one to eight characters, and behind a dot, or several, at most three
      more. */
  predicate Accepts(s: seq<byte>) {
    && 1 <= |Body(s)| <= 8 && |Ext(s)| <= 3
    && (forall i :: 0 <= i < |Body(s)| ==> Allowed(Body(s)[i]))
    && (forall i :: 0 <= i < |Ext(s)| ==> Allowed(Ext(s)[i]))
  }

  /** The 11-byte name field of a segment. */
  function Field(s: seq<byte>): (f: seq<byte>)
    requires Accepts(s)
    ensures |f| == 11
  {
    Pad(UpperAll(Body(s)), 8) + Pad(UpperAll(Ext(s)), 3)
  }

  /** A segment as it is read from a path: up to the end, a zero byte or a slash. */
  function SegmentEnd(path: seq<byte>, pos: nat): (e: nat)
    requires pos <= |path|
    ensures pos <= e <= |path|
    ensures forall i :: pos <= i < e ==> path[i] != 0 && path[i] != SLASH
    ensures e < |path| ==> path[e] == 0 || path[e] == SLASH
    decreases |path| - pos
  {
    if pos == |path| || path[pos] == 0 || path[pos] == SLASH then pos else SegmentEnd(path, pos + 1)
  }

  // ---------------------------------------------------------------------------------------------------
  // Parsing

  /** How far a segment has been read: its first b characters are the body, then come d dots, and the rest
      of the n characters belongs to the extension. */
  ghost predicate Parsing(s: seq<byte>, b: nat, d: nat, n: nat) {
    && b + d <= n <= |s|
    && (forall i :: 0 <= i < b ==> Allowed(s[i]))
    && (forall i :: b <= i < b + d ==> s[i] == DOT)
    && (forall i :: b + d <= i < n ==> Allowed(s[i]))
    && (d == 0 ==> n == b)
  }

  /** The parts of a segment that has been read far enough. */
  lemma PartsRead(s: seq<byte>, b: nat, d: nat, n: nat)
    requires Parsing(s, b, d, n)
    ensures d > 0 || n == |s| || s[n] == DOT ==> Front(s, false) == b && Body(s) == s[..b]
    ensures d == 0 && n < |s| && s[n] != DOT ==> |Body(s)| > n && Body(s)[n] == s[n]
    ensures d > 0 && (b + d < n || n == |s| || s[n] != DOT) ==> Ext(s) == s[b + d..]
    ensures n == |s| ==> Ext(s) == s[b + d..]
  {
    if d > 0 || n == |s| || s[n] == DOT {
      FrontIs(s, false, b);
      if d > 0 && (b + d < n || n == |s| || s[n] != DOT) {
        FrontIs(s[b..], true, d);
        assert s[b..][d..] == s[b + d..];
      } else if n == |s| {
        FrontIs(s[b..], true, 0);
      }
    } else {
      assert Front(s, false) > n;
    }
  }

  /** The characters that make_dirfile refuses in a name, tested in its order. */
  method Refused(c: byte) returns (bad: bool)
    requires c != 0 && c != SLASH && c != DOT
    ensures bad == !Allowed(c)
  {
    if c <= 0x20 || c == 0x7F { return true; }
    if c == 0x22 { return true; }
    if c <= 0x29 { return false; }
    if c <= 0x2C { return true; }
    if c <= 0x39 { return false; }
    if c <= 0x3F { return true; }
    if c == 0x7C { return true; }
    return 0x5B <= c <= 0x5D;
  }

  /** The place in the field that belongs to the next character. */
  ghost predicate Placed(b: nat, d: nat, k: nat, n: nat) {
    if d == 0 then n == b == k <= 8 else 1 <= b <= 8 && k >= b + d && n == 8 + (k - b - d) <= 11
  }

  /** What the next character, or the end of the segment, says about the whole segment. */
  lemma Verdict(s: seq<byte>, b: nat, d: nat, k: nat, n: nat)
    requires Parsing(s, b, d, k) && Placed(b, d, k, n)
    ensures k == |s| ==> (Accepts(s) <==> n != 0) && Body(s) == s[..b] && Ext(s) == s[b + d..]
    ensures k < |s| && s[k] == DOT && !(1 <= n <= 8) ==> !Accepts(s)
    ensures k < |s| && s[k] != DOT && !Allowed(s[k]) ==> !Accepts(s)
    ensures k < |s| && s[k] != DOT && n >= (if d == 0 then 8 else 11) ==> !Accepts(s)
  {
    hide Front, Allowed, Body, Ext;
    PartsRead(s, b, d, k);
    if k < |s| && d > 0 && (b + d < k || s[k] != DOT) {
      assert Ext(s)[k - b - d] == s[k];
      DotIsNotAllowed();
    }
  }

  lemma DotIsNotAllowed()
    ensures !Allowed(DOT)
  {
  }

  /** The name buffer while a segment is read. */
  ghost predicate Filling(f: seq<byte>, s: seq<byte>, b: nat, d: nat, k: nat, n: nat) {
    && |f| == 12 && Parsing(s, b, d, k) && Placed(b, d, k, n)
    && forall i {:trigger f[i]} :: 0 <= i < 11 ==>
         f[i] == if i < b then Upper(s[i]) else if d > 0 && 8 <= i < n then Upper(s[b + d + (i - 8)]) else SPACE
  }

  lemma FilledField(f: seq<byte>, s: seq<byte>, b: nat, d: nat, n: nat)
    requires Filling(f, s, b, d, |s|, n) && n != 0
    ensures Accepts(s) && f[..11] == Field(s)
  {
    hide Front, Allowed, Body, Ext, Upper, Accepts;
    Verdict(s, b, d, |s|, n);
  }

  /** One more character of the name. */
  lemma FillingChar(f: seq<byte>, s: seq<byte>, b: nat, d: nat, k: nat, n: nat)
    requires Filling(f, s, b, d, k, n) && k < |s| && Allowed(s[k]) && n < if d == 0 then 8 else 11
    ensures Filling(f[n := Upper(s[k])], s, if d == 0 then b + 1 else b, d, k + 1, n + 1)
  {
    hide Allowed, Upper;
  }

  /** A dot behind the body, or another dot before the extension. */
  lemma FillingDot(f: seq<byte>, s: seq<byte>, b: nat, d: nat, k: nat, n: nat)
    requires Filling(f, s, b, d, k, n) && k < |s| && s[k] == DOT && 1 <= n <= 8
    ensures Filling(f, s, b, d + 1, k + 1, 8)
  {
    hide Allowed, Upper;
  }

  /** make_dirfile: parse one segment of the path. It returns 1 for a segment that cannot be a name and
      otherwise the character that ends the segment, with the name field in the buffer. */
  method MakeDirFile(path: seq<byte>, pos: nat, dirname: array<byte>) returns (ds: byte, next: nat)
    requires pos <= |path| && dirname.Length == 12
    modifies dirname
    ensures var e := SegmentEnd(path, pos); var s := path[pos..e];
            && (ds == 1 <==> !Accepts(s))
            && (Accepts(s) ==>
                 && ds == (if e < |path| then path[e] else 0) && next == e + 1
                 && dirname[..11] == Field(s) && dirname[11] == 0)
  {
    hide Front, Allowed, Body, Ext, Accepts, Field, Parsing, Placed, Filling, SegmentEnd;
    ghost var e := SegmentEnd(path, pos);
    ghost var s := path[pos..e];
    forall i | 0 <= i < 11 { dirname[i] := SPACE; }
    var n: nat, t: nat, p: nat := 0, 8, pos;
    ghost var b: nat, d: nat := 0, 0;
    FillingStart(dirname[..], s);
    while true
      invariant pos <= p <= e && Filling(dirname[..], s, b, d, p - pos, n)
      invariant t == if d == 0 then 8 else 11
      decreases e - p
    {
      FillingMeans(dirname[..], s, b, d, p - pos, n);
      var c: byte := if p < |path| then path[p] else 0;
      p := p + 1;
      if c == 0 || c == SLASH {
        if n == 0 { return 1, p; }
        FilledField(dirname[..], s, b, d, n);
        assert dirname[..][..11] == dirname[..11];
        dirname[11] := 0;
        return c, p;
      }
      if c == DOT {
        if 1 <= n <= 8 {
          FillingDot(dirname[..], s, b, d, p - 1 - pos, n);
          n := 8;
          t := 11;
          d := d + 1;
          continue;
        }
        return 1, p;
      }
      var bad := Refused(c);
      if bad { return 1, p; }
      if n >= t { return 1, p; }
      FillingChar(dirname[..], s, b, d, p - 1 - pos, n);
      ghost var was := dirname[..];
      dirname[n] := if 0x61 <= c <= 0x7A then c - 0x20 else c;
      assert dirname[..] == was[n := Upper(c)];
      n := n + 1;
      if d == 0 { b := b + 1; }
    }
  }

  lemma FillingStart(f: seq<byte>, s: seq<byte>)
    requires |f| == 12 && forall i :: 0 <= i < 11 ==> f[i] == SPACE
    ensures Filling(f, s, 0, 0, 0, 0)
  {
  }

  lemma FillingMeans(f: seq<byte>, s: seq<byte>, b: nat, d: nat, k: nat, n: nat)
    requires Filling(f, s, b, d, k, n)
    ensures Parsing(s, b, d, k) && k <= |s| && |f| == 12 && n <= 11
    ensures k == |s| ==> (Accepts(s) <==> n != 0)
    ensures k < |s| && s[k] == DOT && !(1 <= n <= 8) ==> !Accepts(s)
    ensures k < |s| && s[k] != DOT && !Allowed(s[k]) ==> !Accepts(s)
    ensures k < |s| && s[k] != DOT && n >= (if d == 0 then 8 else 11) ==> !Accepts(s)
  {
    Verdict(s, b, d, k, n);
  }

  // ---------------------------------------------------------------------------------------------------
  // Printing

  /** The longest front of s without a space. */
  function UntilSpace(s: seq<byte>): (n: nat)
    ensures n <= |s|
    ensures forall i :: 0 <= i < n ==> s[i] != SPACE
    ensures n < |s| ==> s[n] == SPACE
  {
    if s == [] || s[0] == SPACE then 0 else 1 + UntilSpace(s[1..])
  }

  lemma {:induction false} UntilSpaceIs(s: seq<byte>, n: nat)
    requires n <= |s| && (forall i :: 0 <= i < n ==> s[i] != SPACE) && (n < |s| ==> s[n] == SPACE)
    ensures UntilSpace(s) == n
  {
    if n > 0 {
      UntilSpaceIs(s[1..], n - 1);
    }
  }

  /** A leading 0x05 stands for 0xE5, which would mark a deleted entry. */
  function Unmasked(c: byte): byte { if c == 0x05 then 0xE5 else c }

  function UnmaskedAll(s: seq<byte>): (r: seq<byte>)
    ensures |r| == |s| && forall i :: 0 <= i < |s| ==> r[i] == Unmasked(s[i])
  {
    seq(|s|, i requires 0 <= i < |s| => Unmasked(s[i]))
  }

  /** The printed form of a name field. */
  function Printed(f: seq<byte>): (r: seq<byte>)
    requires |f| == 11
    ensures |r| <= 12
  {
    UnmaskedAll(f[..8][..UntilSpace(f[..8])])
    + if f[8] != SPACE then [DOT] + f[8..][..UntilSpace(f[8..])] else []
  }

  /** get_fileinfo, the name part: it fills the 13-byte buffer with the printed name and a zero byte. */
  method GetFileName(dir: seq<byte>, fname: array<byte>) returns (len: nat)
    requires |dir| >= 11 && fname.Length == 13
    modifies fname
    ensures len <= 12 && fname[..len] == Printed(dir[..11]) && fname[len] == 0
  {
    var p: nat, n: nat := 0, 0;
    while n < 8 && dir[n] != SPACE
      invariant p == n <= 8
      invariant fname[..p] == UnmaskedAll(dir[..n])
      invariant forall i :: 0 <= i < n ==> dir[i] != SPACE
    {
      var c := dir[n];
      if c == 0x05 { c := 0xE5; }
      fname[p] := c;
      p := p + 1;
      n := n + 1;
    }
    var f := dir[..11];
    UntilSpaceIs(f[..8], n);
    assert f[..8][..n] == dir[..n];
    ghost var head := fname[..p];
    if dir[8] != SPACE {
      fname[p] := DOT;
      p := p + 1;
      n := 8;
      while n < 11 && dir[n] != SPACE
        invariant 8 <= n <= 11 && p == |head| + 1 + (n - 8)
        invariant forall i :: 0 <= i < p ==>
                    fname[i] == if i < |head| then head[i] else if i == |head| then DOT else dir[8 + (i - |head| - 1)]
        invariant forall i :: 8 <= i < n ==> dir[i] != SPACE
      {
        fname[p] := dir[n];
        p := p + 1;
        n := n + 1;
      }
      UntilSpaceIs(f[8..], n - 8);
      assert f[8..][..n - 8] == dir[8..n];
      assert fname[..p] == head + ([DOT] + dir[8..n]);
    }
    fname[p] := 0;
    len := p;
  }

  // ---------------------------------------------------------------------------------------------------
  // Round trip

  /** The parts of a printed name. */
  lemma PrintedParts(b: seq<byte>, e: seq<byte>)
    requires 1 <= |b| <= 8 && |e| <= 3
    requires forall i :: 0 <= i < |b| ==> Allowed(b[i])
    requires forall i :: 0 <= i < |e| ==> Allowed(e[i])
    ensures var p := Printed(Pad(b, 8) + Pad(e, 3));
            && p == b + (if e != [] then [DOT] + e else [])
            && Body(p) == b && Ext(p) == e
  {
    var f := Pad(b, 8) + Pad(e, 3);
    assert f[..8] == Pad(b, 8) && f[8..] == Pad(e, 3);
    UntilSpaceIs(f[..8], |b|);
    UntilSpaceIs(f[8..], |e|);
    assert f[..8][..|b|] == b && f[8..][..|e|] == e;
    assert UnmaskedAll(b) == b;
    var p := b + if e != [] then [DOT] + e else [];
    assert Printed(f) == p;
    FrontIs(p, false, |b|);
    var rest := p[|b|..];
    if e != [] {
      assert rest == [DOT] + e;
      FrontIs(rest, true, 1);
      assert rest[1..] == e;
    } else {
      FrontIs(rest, true, 0);
    }
  }

  lemma UpperKeepsAllowed(c: byte)
    ensures Allowed(Upper(c)) <==> Allowed(c)
    ensures Upper(Upper(c)) == Upper(c)
    ensures Upper(c) == DOT <==> c == DOT
  {
  }

  /** Round trip: the field of an accepted segment is in upper case and padded with spaces, its printed
      form fits twelve characters and is itself an accepted segment with the same field. */
  lemma NameRoundTrip(s: seq<byte>)
    requires Accepts(s)
    ensures var f := Field(s); var p := Printed(f);
            && UpperAll(f) == f
            && |p| <= 12 && Accepts(p) && Field(p) == f
            && forall i :: 0 <= i < |p| ==> p[i] != 0 && p[i] != SLASH
  {
    hide Allowed, Upper, Body, Ext, Printed, Pad;
    var b, e := UpperAll(Body(s)), UpperAll(Ext(s));
    UpperKept(Body(s));
    UpperKept(Ext(s));
    PrintedParts(b, e);
    FieldIsUpper(b, e);
    var p := Printed(Field(s));
    forall i | 0 <= i < |p|
      ensures p[i] != 0 && p[i] != SLASH
    {
      PlainCharacter(p[i], b, e);
    }
  }

  /** The capitals of allowed characters are allowed, and stay. */
  lemma UpperKept(s: seq<byte>)
    requires forall i :: 0 <= i < |s| ==> Allowed(s[i])
    ensures UpperAll(UpperAll(s)) == UpperAll(s)
    ensures forall i :: 0 <= i < |s| ==> Allowed(UpperAll(s)[i])
  {
    hide Allowed, Upper;
    forall i | 0 <= i < |s|
      ensures Allowed(UpperAll(s)[i]) && Upper(UpperAll(s)[i]) == UpperAll(s)[i]
    {
      UpperKeepsAllowed(s[i]);
    }
  }

  lemma FieldIsUpper(b: seq<byte>, e: seq<byte>)
    requires UpperAll(b) == b && UpperAll(e) == e && |b| <= 8 && |e| <= 3
    ensures UpperAll(Pad(b, 8) + Pad(e, 3)) == Pad(b, 8) + Pad(e, 3)
  {
    hide UpperAll, Pad;
    var f := Pad(b, 8) + Pad(e, 3);
    forall i | 0 <= i < 11
      ensures Upper(f[i]) == f[i]
    {
      if i < 8 {
        assert f[i] == if i < |b| then UpperAll(b)[i] else SPACE;
      } else {
        assert f[i] == if i - 8 < |e| then UpperAll(e)[i - 8] else SPACE;
      }
    }
  }

  lemma PlainCharacter(c: byte, b: seq<byte>, e: seq<byte>)
    requires forall i :: 0 <= i < |b| ==> Allowed(b[i])
    requires forall i :: 0 <= i < |e| ==> Allowed(e[i])
    requires c in b + (if e != [] then [DOT] + e else [])
    ensures c != 0 && c != SLASH
  {
  }

  /** Letter case does not matter: segments that agree up to case are accepted together and have the same
      field. */
  lemma CaseInsensitive(s: seq<byte>, t: seq<byte>)
    requires UpperAll(s) == UpperAll(t)
    ensures Accepts(s) <==> Accepts(t)
    ensures Accepts(s) ==> Field(s) == Field(t)
  {
    SameParts(s, t);
    if Accepts(s) {
      PartsAccept(s, t);
    }
    if Accepts(t) {
      PartsAccept(t, s);
    }
  }

  lemma SameParts(s: seq<byte>, t: seq<byte>)
    requires UpperAll(s) == UpperAll(t)
    ensures UpperAll(Body(s)) == UpperAll(Body(t)) && UpperAll(Ext(s)) == UpperAll(Ext(t))
  {
    assert |s| == |UpperAll(s)| == |t|;
    forall i | 0 <= i < |s|
      ensures (s[i] == DOT <==> t[i] == DOT) && Upper(s[i]) == Upper(t[i])
    {
      assert UpperAll(s)[i] == UpperAll(t)[i];
    }
    var n := Front(s, false);
    FrontIs(t, false, n);
    var m := Front(s[n..], true);
    FrontIs(t[n..], true, m);
  }

  lemma PartsAccept(s: seq<byte>, t: seq<byte>)
    requires UpperAll(Body(s)) == UpperAll(Body(t)) && UpperAll(Ext(s)) == UpperAll(Ext(t))
    requires Accepts(s)
    ensures Accepts(t)
  {
    assert |Body(t)| == |UpperAll(Body(s))| && |Ext(t)| == |UpperAll(Ext(s))|;
    forall i | 0 <= i < |Body(t)|
      ensures Allowed(Body(t)[i])
    {
      assert UpperAll(Body(s))[i] == UpperAll(Body(t))[i];
      UpperKeepsAllowed(Body(s)[i]);
      UpperKeepsAllowed(Body(t)[i]);
    }
    forall i | 0 <= i < |Ext(t)|
      ensures Allowed(Ext(t)[i])
    {
      assert UpperAll(Ext(s))[i] == UpperAll(Ext(t))[i];
      UpperKeepsAllowed(Ext(s)[i]);
      UpperKeepsAllowed(Ext(t)[i]);
    }
  }

  // ---------------------------------------------------------------------------------------------------
  // Names in literal form

  /** The characters that no name may contain: those up to the space, 127, and these. */
  lemma RefusedSet(c: byte)
    ensures Allowed(c) <==> c > 32 && c != 127 && (c as char) !in "\"*+,./:;<=>?[\\]|"
  {
    var refused := "\"*+,./:;<=>?[\\]|";
    assert refused == ['\"', '*', '+', ',', '.', '/', ':', ';', '<', '=', '>', '?', '[', '\\', ']', '|'];
  }

  /** A body, dots, and an extension, which is empty when there is no dot. */
  ghost predicate IsForm(b: seq<byte>, d: nat, e: seq<byte>) {
    && 1 <= |b| <= 8 && |e| <= 3 && (d == 0 ==> e == [])
    && (forall i :: 0 <= i < |b| ==> Allowed(b[i])) && (forall i :: 0 <= i < |e| ==> Allowed(e[i]))
  }

  function Dots(d: nat): seq<byte> { seq(d, i => 0x2E) }

  /** The field of such a segment: body and extension in capitals, each filled up with spaces. */
  lemma FormAccepted(b: seq<byte>, d: nat, e: seq<byte>)
    requires IsForm(b, d, e)
    ensures var s := b + Dots(d) + e;
            && Accepts(s)
            && forall i :: 0 <= i < 11 ==>
                 var c := if i < |b| then b[i] else if 8 <= i < 8 + |e| then e[i - 8] else 0x20;
                 Field(s)[i] == if 97 <= c <= 122 then c - 32 else c
  {
    hide Front;
    var s := b + Dots(d) + e;
    assert forall i :: 0 <= i < |b| ==> s[i] == b[i];
    FrontIs(s, false, |b|);
    var rest := s[|b|..];
    assert rest == Dots(d) + e;
    FrontIs(rest, true, d);
    assert Body(s) == b && Ext(s) == e;
  }

  /** Every accepted segment is one. */
  lemma AcceptedForm(s: seq<byte>) returns (b: seq<byte>, d: nat, e: seq<byte>)
    requires Accepts(s)
    ensures IsForm(b, d, e) && s == b + Dots(d) + e
  {
    b := Body(s);
    var rest := s[|b|..];
    d := Front(rest, true);
    e := Ext(s);
    assert rest[..d] == Dots(d);
    assert s == b + rest && rest == rest[..d] + e;
  }

  /** What get_fileinfo prints of a field: body and extension up to their first space, with a dot between, and 5 in the
      body read as 229. */
  lemma PrintedForm(b: seq<byte>, e: seq<byte>)
    requires |b| <= 8 && |e| <= 3 && 0x20 !in b && 0x20 !in e
    ensures var f := b + seq(8 - |b|, i => 0x20) + e + seq(3 - |e|, i => 0x20);
            Printed(f) == seq(|b|, i requires 0 <= i < |b| => if b[i] == 5 then 229 else b[i])
                          + if e == [] then [] else [0x2E] + e
  {
    var f := b + seq(8 - |b|, i => 0x20) + e + seq(3 - |e|, i => 0x20);
    assert f[..8] == Pad(b, 8) && f[8..] == Pad(e, 3);
    UntilSpaceIs(f[..8], |b|);
    UntilSpaceIs(f[8..], |e|);
    assert f[..8][..|b|] == b && f[8..][..|e|] == e;
  }
}
