// Fixed-width machine integers shared by the models, as value ranges over
// int, and the newest-entries view of a bounded FIFO.

module Words {
  type u8 = x: int | 0 <= x < 0x100
  type u16 = x: int | 0 <= x < 0x1_0000
  type u32 = x: int | 0 <= x < 0x1_0000_0000
  type u64 = x: int | 0 <= x < 0x1_0000_0000_0000_0000

  datatype Option<T> = None | Some(value: T)

  function Min(a: int, b: int): int { if a <= b then a else b }
  function Max(a: int, b: int): int { if a >= b then a else b }

  lemma MulMono(x: int, y: int, m: nat)
    ensures x <= y ==> x * m <= y * m
  {
  }

  /** Division and remainder of a * m + b by m, for 0 <= b < m: the digits a and b come back. */
  lemma DivModSum(a: nat, b: nat, m: nat)
    requires 0 <= b < m
    ensures (a * m + b) / m == a && (a * m + b) % m == b
  {
    var q := (a * m + b) / m;
    MulMono(a + 1, q, m);
    MulMono(q + 1, a, m);
  }

  /** The last m entries of s (all of them when there are fewer). */
  function Newest<T>(s: seq<T>, m: nat): (r: seq<T>)
    ensures |r| == Min(|s|, m)
  {
    s[|s| - Min(|s|, m)..]
  }

  /** Cutting a sequence to a suffix at least as long as its newest m keeps those m. */
  lemma NewestOfLongSuffix<T>(w: seq<T>, j: nat, m: nat)
    requires j <= |w| && |w| - j >= Min(|w|, m)
    ensures Newest(w[j..], m) == Newest(w, m)
  {
    var k := Min(|w|, m);
    assert Min(|w| - j, m) == k;
    assert w[j..][|w| - j - k..] == w[|w| - k..];
  }

  /** Keeping the newest m, then appending t and keeping the newest m, keeps the newest m of the whole. */
  lemma NewestAppend<T>(u: seq<T>, t: seq<T>, m: nat)
    ensures Newest(Newest(u, m) + t, m) == Newest(u + t, m)
  {
    var k := Min(|u|, m);
    assert Newest(u, m) + t == (u + t)[|u| - k..];
    NewestOfLongSuffix(u + t, |u| - k, m);
  }

  /** Bitwise or of two naturals. */
  function BitOr(a: nat, b: nat): nat
    decreases a + b
  {
    if a == 0 then b
    else if b == 0 then a
    else 2 * BitOr(a / 2, b / 2) + (if a % 2 == 1 || b % 2 == 1 then 1 else 0)
  }

  function Pow2(p: nat): (r: nat)
    ensures r >= 1
  {
    if p == 0 then 1 else 2 * Pow2(p - 1)
  }

  /** The or of two p-bit values is a p-bit value. */
  lemma {:induction false} BitOrBelow(a: nat, b: nat, p: nat)
    requires a < Pow2(p) && b < Pow2(p)
    ensures BitOr(a, b) < Pow2(p)
  {
    if a != 0 && b != 0 {
      BitOrBelow(a / 2, b / 2, p - 1);
    }
  }

  /** A shift left by p or-ed with a value below 2^p: the bits do not overlap, so the or is a sum. */
  lemma {:induction false} BitOrShifted(a: nat, b: nat, p: nat)
    requires b < Pow2(p)
    ensures BitOr(a * Pow2(p), b) == a * Pow2(p) + b
  {
    if p > 0 && a != 0 && b != 0 {
      var x := a * Pow2(p);
      assert x == 2 * (a * Pow2(p - 1));
      assert x / 2 == a * Pow2(p - 1) && x % 2 == 0;
      BitOrShifted(a, b / 2, p - 1);
    }
  }
}
