/** The 16-bit integers of the C compiler the library is written for. */
module ShortInts {
  ghost predicate Fits(x: int) {
    -32768 <= x <= 32767
  }

  /** What an int holds after x is stored in it. */
  function Int16(x: int): (r: int)
    ensures Fits(r) && (Fits(x) ==> r == x)
    ensures 32768 <= x <= 65535 ==> r == x - 65536
  {
    var u := x % 65536;
    if u < 32768 then u else u - 65536
  }

  /** What an unsigned int holds after x is stored in it. */
  function UInt16(x: int): (r: nat)
    ensures r < 65536 && (0 <= x < 65536 ==> r == x)
    ensures -65536 <= x < 0 ==> r == x + 65536
  {
    x % 65536
  }

  /** C division, which truncates toward zero, and the remainder that goes with it. */
  function Quo(x: int, y: int): int
    requires y > 0
  {
    if x >= 0 then x / y else -(-x / y)
  }

  function Rmd(x: int, y: int): int
    requires y > 0
  {
    if x >= 0 then x % y else -(-x % y)
  }

  /** The stored value is the one int, or the one unsigned int, that differs by a multiple of 2^16. */
  lemma CutTo16(x: int)
    ensures (Int16(x) - x) % 0x1_0000 == 0 && Fits(Int16(x))
    ensures (UInt16(x) - x) % 0x1_0000 == 0 && UInt16(x) < 0x1_0000
  {
  }

  /** Quotient and remainder make up the number, and the remainder has its sign. */
  lemma Truncating(x: int, y: int)
    requires y > 0
    ensures x == Quo(x, y) * y + Rmd(x, y) && -y < Rmd(x, y) < y
    ensures if x >= 0 then Rmd(x, y) >= 0 else Rmd(x, y) <= 0
  {
    assert x >= 0 ==> x == x / y * y + x % y;
    assert x < 0 ==> -x == -x / y * y + -x % y;
  }
}
