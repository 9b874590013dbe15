/** Cluster links packed into the bytes of a FAT: the byte arithmetic of get_cluster and put_cluster.
    FAT12 keeps two 12-bit links in three bytes, so neighbouring links share a byte. */
module PackedFat {
  import opened Bytes

  datatype FatType = Fat12 | Fat16

  /** The first byte that holds part of link c. */
  function LowByte(t: FatType, c: nat): nat {
    if t.Fat12? then c * 3 / 2 else 2 * c
  }

  /** Number of different link values. */
  function LinkLimit(t: FatType): nat {
    if t.Fat12? then 0x1000 else 0x1_0000
  }

  /** The link encoded by two neighbouring bytes. */
  function Unpack(t: FatType, c: nat, lo: byte, hi: byte): (v: nat)
    ensures v < LinkLimit(t)
  {
    match t
    case Fat12 => if c % 2 == 0 then lo + 256 * (hi % 16) else lo / 16 + 16 * hi
    case Fat16 => lo + 256 * hi
  }

  /** What put_cluster stores in the first byte, given the byte it finds there. */
  function NewLow(t: FatType, c: nat, was: byte, val: nat): byte {
    if t.Fat12? && c % 2 == 1 then was % 16 + 16 * (val % 16) else val % 256
  }

  /** What put_cluster stores in the second byte. */
  function NewHigh(t: FatType, c: nat, was: byte, val: nat): byte {
    match t
    case Fat12 => if c % 2 == 1 then val / 16 % 256 else was / 16 * 16 + val / 256 % 16
    case Fat16 => val / 256 % 256
  }

  function LinkAt(t: FatType, fat: seq<byte>, c: nat): nat
    requires LowByte(t, c) + 1 < |fat|
  {
    Unpack(t, c, fat[LowByte(t, c)], fat[LowByte(t, c) + 1])
  }

  /** The FAT bytes after put_cluster. */
  function Pack(t: FatType, fat: seq<byte>, c: nat, val: nat): seq<byte>
    requires LowByte(t, c) + 1 < |fat|
  {
    var j := LowByte(t, c);
    fat[j := NewLow(t, c, fat[j], val)][j + 1 := NewHigh(t, c, fat[j + 1], val)]
  }

  /** A packed link reads back truncated to its width; every other link, also one that shares a byte
      with it, is untouched. */
  lemma PackThenLinkAt(t: FatType, fat: seq<byte>, c: nat, val: nat, d: nat)
    requires LowByte(t, c) + 1 < |fat| && LowByte(t, d) + 1 < |fat|
    ensures LinkAt(t, Pack(t, fat, c, val), d) == if d == c then val % LinkLimit(t) else LinkAt(t, fat, d)
  {
    hide Unpack, NewLow, NewHigh;
    var i, j := LowByte(t, d), LowByte(t, c);
    if d == c {
      PackedLink(t, c, val, fat[j], fat[j + 1]);
    } else if i == j + 1 {
      assert t == Fat12 && c % 2 == 0 && d % 2 == 1;
      SharedByteKept(c, d, val, fat[i], fat[i + 1]);
    } else if j == i + 1 {
      assert t == Fat12 && c % 2 == 1 && d % 2 == 0;
      SharedByteKept(c, d, val, fat[j], fat[i]);
    }
  }

  /** The byte that an even and an odd link share, with the other byte of the link that is not stored. */
  lemma SharedByteKept(c: nat, d: nat, val: nat, shared: byte, other: byte)
    requires c % 2 != d % 2
    ensures d % 2 == 1 ==> Unpack(Fat12, d, NewHigh(Fat12, c, shared, val), other) == Unpack(Fat12, d, shared, other)
    ensures d % 2 == 0 ==> Unpack(Fat12, d, other, NewLow(Fat12, c, shared, val)) == Unpack(Fat12, d, other, shared)
  {
    NibbleKept(val, shared);
  }

  lemma PackedLink(t: FatType, c: nat, val: nat, lo: byte, hi: byte)
    ensures Unpack(t, c, NewLow(t, c, lo, val), NewHigh(t, c, hi, val)) == val % LinkLimit(t)
  {
    match t
    case Fat12 =>
      if c % 2 == 0 {
        NibbleKept(val, hi);
        Digits(val, 256, 16);
      } else {
        Digits(val, 16, 256);
      }
    case Fat16 =>
      Digits(val, 256, 256);
  }

  lemma NibbleKept(val: nat, was: byte)
    ensures var w := was / 16 * 16 + val / 256 % 16; w / 16 == was / 16 && w % 16 == val / 256 % 16
  {
  }

  /** The two low digits of a number in the mixed base (a, b). */
  lemma Digits(v: nat, a: nat, b: nat)
    requires a > 0 && b > 0
    ensures a * b > 0 && v % a + a * (v / a % b) == v % (a * b)
  {
    var q := v / a;
    var d := q % b;
    MulMono(1, b, a);
    MulMono(d + 1, b, a);
    assert v == (a * b) * (q / b) + (v % a + a * d) by {
      assert q == b * (q / b) + d;
      assert a * (b * (q / b) + d) == a * b * (q / b) + a * d;
    }
    DivModUnique(v, a * b, q / b, v % a + a * d);
  }

  /** Where the bits of the links are: two 12-bit links fill three bytes, lowest bits first, and a 16-bit link is a
      little-endian word. */
  lemma PairLayout(fat: seq<byte>, k: nat)
    requires 3 * k + 2 < |fat|
    ensures var lo: nat, mid: nat, hi: nat := fat[3 * k], fat[3 * k + 1], fat[3 * k + 2];
            LinkAt(Fat12, fat, 2 * k) + 0x1000 * LinkAt(Fat12, fat, 2 * k + 1) == lo + 0x100 * mid + 0x1_0000 * hi
  {
    assert LowByte(Fat12, 2 * k) == 3 * k && LowByte(Fat12, 2 * k + 1) == 3 * k + 1;
  }

  lemma WordLayout(fat: seq<byte>, c: nat)
    requires 2 * c + 1 < |fat|
    ensures var lo: nat, hi: nat := fat[2 * c], fat[2 * c + 1];
            LinkAt(Fat16, fat, c) == lo + 0x100 * hi
  {
  }
}
