/** Byte values and the unbounded-integer operations the driver applies to them
    (Python's `sum`, `min`, `max`, `~`, `& 0xFF`, `>> 8`, `<< 8` and `|`). */
module Bytes {

  /** One 8-bit value as carried on the serial line. */
  type byte = x: int | 0 <= x < 256

  /** The conventional Some/None datatype, standing for Python's `None`. */
  datatype Option<+T> = None | Some(value: T)

  predicate IsByte(x: int) {
    0 <= x < 256
  }

  /** True iff every element fits in a byte, i.e. `bytearray(s)` would not raise. */
  predicate AllBytes(s: seq<int>) {
    forall i :: 0 <= i < |s| ==> IsByte(s[i])
  }

  /** Python's `sum` over a list of integers. */
  function Sum(s: seq<int>): int {
    if |s| == 0 then 0 else s[0] + Sum(s[1..])
  }

  function Min(a: int, b: int): int {
    if a <= b then a else b
  }

  function Max(a: int, b: int): int {
    if a >= b then a else b
  }

  /** Python's `~x` on an unbounded integer. */
  function BitNot(x: int): int {
    -x - 1
  }

  /** Python's `x & 0xFF` on an unbounded two's-complement integer: the
      floor remainder, which Dafny's Euclidean `%` agrees with for 256. */
  function Mask8(x: int): byte {
    x % 256
  }

  /** Python's `x >> 8` on an unbounded integer: floor division by 256. */
  function Shr8(x: int): int {
    x / 256
  }

  /** Python's `x << 8`. */
  function Shl8(x: int): int {
    x * 256
  }

  function Pow2(k: nat): nat {
    if k == 0 then 1 else 2 * Pow2(k - 1)
  }

  /** Python's `x | y` on non-negative integers, one bit at a time from the
      least significant. */
  function BitOr(x: nat, y: nat): nat
    decreases x + y
  {
    if x == 0 then y
    else if y == 0 then x
    else 2 * BitOr(x / 2, y / 2) + (if x % 2 == 1 || y % 2 == 1 then 1 else 0)
  }

  /** When `x` fits below bit k, or-ing it with a multiple of 2^k adds it. */
  lemma {:induction false} BitOrDisjoint(x: nat, y: nat, k: nat)
    requires x < Pow2(k)
    ensures BitOr(x, y * Pow2(k)) == x + y * Pow2(k)
  {
    if x != 0 && y != 0 {
      assert k > 0;
      var p := Pow2(k - 1);
      assert y * Pow2(k) == 2 * (y * p);
      assert (y * Pow2(k)) / 2 == y * p && (y * Pow2(k)) % 2 == 0;
      BitOrDisjoint(x / 2, y, k - 1);
    }
  }

  lemma {:induction false} SumConcat(a: seq<int>, b: seq<int>)
    ensures Sum(a + b) == Sum(a) + Sum(b)
  {
    if |a| == 0 {
      assert a + b == b;
    } else {
      assert (a + b)[1..] == a[1..] + b;
      SumConcat(a[1..], b);
    }
  }

  /** Replacing one element changes the sum by exactly the difference. */
  lemma {:induction false} SumUpdate(s: seq<int>, i: int, x: int)
    requires 0 <= i < |s|
    ensures Sum(s[i := x]) == Sum(s) - s[i] + x
  {
    if i > 0 {
      assert s[i := x][1..] == s[1..][i - 1 := x];
      SumUpdate(s[1..], i - 1, x);
    }
  }
}
